/** The CRC-32 of GPT headers: the table-driven form, and the polynomial division it computes. */
module Crc32 {
  import opened Bytes
  import opened Lfsr

  /** The generator 0x04C11DB7, highest coefficient first. */
  function Poly(): (poly: Bits)
    ensures |poly| == 32 && poly[31]
  {
    [false, false, false, false, false, true, false, false] +
    [true, true, false, false, false, false, false, true] +
    [false, false, false, true, true, true, false, true] +
    [true, false, true, true, false, true, true, true]
  }

  /** Read as a register, lowest bit first, the generator is the word the table is built with. */
  lemma PolyIsTheWord()
    ensures ToNat(Poly()) == 0xEDB88320
  {
    hide ToNat, Pow2;
    var a := [false, false, false, false, false, true, false, false];
    var b := [true, true, false, false, false, false, false, true];
    var c := [false, false, false, true, true, true, false, true];
    var d := [true, false, true, true, false, true, true, true];
    ToNatOfEight(a);
    ToNatOfEight(b);
    ToNatOfEight(c);
    ToNatOfEight(d);
    ToNatAppend(a + b + c, d);
    ToNatAppend(a + b, c);
    ToNatAppend(a, b);
    Pow2Steps();
  }

  lemma Pow2Steps()
    ensures Pow2(8) == 0x100 && Pow2(16) == 0x10000 && Pow2(24) == 0x1000000
  {
    EightBits();
    Pow2Add(8, 8);
    Pow2Add(16, 8);
  }

  /** The table's entry i: the index shifted eight times. */
  function TableEntry(i: nat): (entry: Bits)
    ensures |entry| == 32
  {
    Steps(Poly(), NatBits(i, 32), 8)
  }

  method BuildTable() returns (table: seq<Bits>)
    ensures |table| == 256 && forall i :: 0 <= i < 256 ==> table[i] == TableEntry(i)
  {
    hide Poly, Steps, NatBits, Xor, Shift;
    var entries := new Bits[256];
    var i := 0;
    while i < 256
      invariant 0 <= i <= 256
      invariant forall k :: 0 <= k < i ==> entries[k] == TableEntry(k)
    {
      var crc := NatBits(i, 32);
      var j := 0;
      while j < 8
        invariant 0 <= j <= 8 && |crc| == 32
        invariant Steps(Poly(), crc, 8 - j) == TableEntry(i)
        invariant forall k :: 0 <= k < i ==> entries[k] == TableEntry(k)
      {
        StepFirst(Poly(), crc, 8 - j);
        XorSwaps(Poly(), Shift(crc));
        if crc[0] {
          crc := Xor(Poly(), Shift(crc));
        } else {
          crc := Shift(crc);
        }
        j := j + 1;
      }
      StepsNone(Poly(), crc);
      entries[i] := crc;
      i := i + 1;
    }
    table := entries[..];
  }

  /** One byte through the table: exactly the register fed the byte's eight bits. */
  function Crc32Byte(crc: Bits, b: byte): (next: Bits)
    requires |crc| == 32
    ensures |next| == 32
    ensures next == FeedAll(Poly(), crc, ByteBits(b))
  {
    var index := ToNat(Xor(crc, NatBits(b as nat, 32))[..8]);
    LookupIsEightSteps(crc, b);
    Xor(TableEntry(index), crc[8..] + NoBits(8))
  }

  /** Split the register into the byte the table is indexed by and the bits that only move down; the step
      is linear, so the two parts can be shifted separately. */
  lemma LookupIsEightSteps(crc: Bits, b: byte)
    requires |crc| == 32
    ensures FeedAll(Poly(), crc, ByteBits(b)) ==
            Xor(TableEntry(ToNat(Xor(crc, NatBits(b as nat, 32))[..8])), crc[8..] + NoBits(8))
  {
    hide Poly, Steps, FeedAll;
    var poly := Poly();
    EightBits();
    NatBitsPad(b as nat, 8, 24);
    var x := Xor(crc, Pad(ByteBits(b), 32));
    var low, high := x[..8], crc[8..];
    ShiftsFeedBits(poly, crc, ByteBits(b));
    assert x == Xor(low + NoBits(24), NoBits(8) + high);
    StepsLinear(poly, low + NoBits(24), NoBits(8) + high, 8);
    ClearBitsShiftOut(poly, high, 8);
    ToNatOfByte(low);
    NatBitsPad(ToNat(low), 8, 24);
    BitsOfNat(low);
  }

  function Checksum(data: seq<byte>): (crc: nat)
  {
    Crc(Poly(), data)
  }

  /** The table-driven loop computes the bit-serial checksum of every byte string. */
  method Crc32(data: seq<byte>) returns (crc: nat)
    ensures crc == Checksum(data)
  {
    hide Poly, FeedAll, RegisterAfter;
    var reg := Ones(32);
    RegisterOfNothing(Poly());
    for i := 0 to |data|
      invariant |reg| == 32 && reg == RegisterAfter(Poly(), data[..i])
    {
      RegisterOneMore(Poly(), data[..i], data[i]);
      assert data[..i + 1] == data[..i] + [data[i]];
      reg := Crc32Byte(reg, data[i]);
    }
    assert data[..|data|] == data;
    crc := ToNat(Xor(reg, Ones(32)));
  }

  lemma ChecksumFits(data: seq<byte>)
    ensures Checksum(data) < Pow256(4)
  {
    CrcFits(Poly(), data);
    FourBytes();
  }

  lemma FourBytes()
    ensures Pow2(32) == Pow256(4)
  {
    Pow2Steps();
    Pow2Add(16, 16);
    assert Pow256(2) == 65536 && Pow256(4) == 65536 * Pow256(2);
  }
}
