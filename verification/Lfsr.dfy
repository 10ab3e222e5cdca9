/** Reflected shift-register checksums of any width, and what they compute: division of polynomials over
    GF(2). A register is its bits, lowest first; the lowest bit is the polynomial's highest coefficient. */
module Lfsr {
  import opened Bytes

  type Bits = seq<bool>

  function NoBits(n: nat): (bits: Bits)
    ensures |bits| == n
  {
    seq(n, _ => false)
  }

  function Ones(n: nat): (bits: Bits)
    ensures |bits| == n
  {
    seq(n, _ => true)
  }

  function Xor(a: Bits, b: Bits): (c: Bits)
    requires |a| == |b|
    ensures |c| == |a|
  {
    seq(|a|, i requires 0 <= i < |a| => a[i] != b[i])
  }

  // ----- Bits of numbers -----

  function NatBits(v: nat, n: nat): (bits: Bits)
    ensures |bits| == n
  {
    if n == 0 then [] else [v % 2 == 1] + NatBits(v / 2, n - 1)
  }

  function ToNat(bits: Bits): (v: nat)
  {
    if bits == [] then 0 else (if bits[0] then 1 else 0) + 2 * ToNat(bits[1..])
  }

  lemma {:induction false} BitsOfNat(bits: Bits)
    ensures NatBits(ToNat(bits), |bits|) == bits
  {
    if bits != [] {
      BitsOfNat(bits[1..]);
    }
  }

  function Pow2(n: nat): (p: nat)
    ensures p > 0
  {
    if n == 0 then 1 else 2 * Pow2(n - 1)
  }

  lemma {:induction false} Pow2Add(a: nat, b: nat)
    ensures Pow2(a + b) == Pow2(a) * Pow2(b)
  {
    if a > 0 {
      Pow2Add(a - 1, b);
    }
  }

  lemma {:induction false} ToNatBound(bits: Bits)
    ensures ToNat(bits) < Pow2(|bits|)
  {
    if bits != [] {
      ToNatBound(bits[1..]);
    }
  }

  lemma {:induction false} NatOfBits(v: nat, n: nat)
    requires v < Pow2(n)
    ensures ToNat(NatBits(v, n)) == v
  {
    if n > 0 {
      NatOfBits(v / 2, n - 1);
      assert NatBits(v, n)[1..] == NatBits(v / 2, n - 1);
    }
  }

  lemma EightBits()
    ensures Pow2(4) == 16 && Pow2(8) == 256
  {
    assert Pow2(4) == 4 * Pow2(2) && Pow2(6) == 4 * Pow2(4) && Pow2(8) == 4 * Pow2(6);
  }

  function Weight(bit: bool, w: nat): nat
  {
    if bit then w else 0
  }

  lemma ToNatOfEight(s: Bits)
    requires |s| == 8
    ensures ToNat(s) == Weight(s[0], 1) + Weight(s[1], 2) + Weight(s[2], 4) + Weight(s[3], 8) +
                        Weight(s[4], 16) + Weight(s[5], 32) + Weight(s[6], 64) + Weight(s[7], 128)
  {
    hide ToNat, Pow2;
    EightBits();
    ToNatOfFour(s[..4]);
    ToNatOfFour(s[4..]);
    assert s == s[..4] + s[4..];
    ToNatAppend(s[..4], s[4..]);
  }

  lemma ToNatOfFour(s: Bits)
    requires |s| == 4
    ensures ToNat(s) == Weight(s[0], 1) + Weight(s[1], 2) + Weight(s[2], 4) + Weight(s[3], 8)
  {
    assert s[1..][1..] == s[2..] && s[2..][1..] == s[3..] && s[3..][1..] == [];
    assert ToNat(s[3..]) == Weight(s[3], 1);
    assert ToNat(s[2..]) == Weight(s[2], 1) + 2 * ToNat(s[3..]);
    assert ToNat(s[1..]) == Weight(s[1], 1) + 2 * ToNat(s[2..]);
  }

  lemma ToNatOfByte(bits: Bits)
    requires |bits| == 8
    ensures ToNat(bits) < 256
  {
    EightBits();
    ToNatBound(bits);
  }

  lemma {:induction false} ToNatAppend(a: Bits, b: Bits)
    ensures ToNat(a + b) == ToNat(a) + Pow2(|a|) * ToNat(b)
  {
    if a == [] {
      assert a + b == b;
    } else {
      assert (a + b)[0] == a[0] && (a + b)[1..] == a[1..] + b;
      ToNatAppend(a[1..], b);
      TwiceProduct(Pow2(|a| - 1), ToNat(b));
    }
  }

  lemma TwiceProduct(p: nat, t: nat)
    ensures (2 * p) * t == 2 * (p * t)
  {
  }

  /** High bits of a small number are zeros. */
  lemma {:induction false} NatBitsPad(v: nat, k: nat, n: nat)
    requires v < Pow2(k)
    ensures NatBits(v, k + n) == NatBits(v, k) + NoBits(n)
    decreases k + n
  {
    if k > 0 {
      NatBitsPad(v / 2, k - 1, n);
    } else if n > 0 {
      NatBitsPad(0, 0, n - 1);
      assert NoBits(n) == [false] + NoBits(n - 1);
    }
  }

  lemma ToNatInjective(a: Bits, b: Bits)
    requires |a| == |b| && ToNat(a) == ToNat(b)
    ensures a == b
  {
    BitsOfNat(a);
    BitsOfNat(b);
  }

  function ByteBits(b: byte): (bits: Bits)
    ensures |bits| == 8
  {
    NatBits(b as nat, 8)
  }

  /** A message as the bits it is sent in: bytes in order, each lowest bit first. */
  function MessageBits(data: seq<byte>): (bits: Bits)
    ensures |bits| == 8 * |data|
  {
    if data == [] then [] else ByteBits(data[0]) + MessageBits(data[1..])
  }

  lemma {:induction false} MessageBitsAppend(a: seq<byte>, b: seq<byte>)
    ensures MessageBits(a + b) == MessageBits(a) + MessageBits(b)
  {
    if a == [] {
      assert a + b == b;
    } else {
      assert (a + b)[1..] == a[1..] + b;
      MessageBitsAppend(a[1..], b);
    }
  }

  lemma MessageBitsThree(a: seq<byte>, b: seq<byte>, c: seq<byte>)
    ensures MessageBits(a + b + c) == MessageBits(a) + MessageBits(b) + MessageBits(c)
  {
    MessageBitsAppend(a + b, c);
    MessageBitsAppend(a, b);
  }

  lemma ByteBitsInjective(a: byte, b: byte)
    ensures ByteBits(a) == ByteBits(b) ==> a == b
  {
    EightBits();
    NatOfBits(a as nat, 8);
    NatOfBits(b as nat, 8);
  }

  lemma {:induction false} MessageBitsInjective(a: seq<byte>, b: seq<byte>)
    requires |a| == |b| && MessageBits(a) == MessageBits(b)
    ensures a == b
  {
    if a != [] {
      assert MessageBits(a)[..8] == ByteBits(a[0]) && MessageBits(b)[..8] == ByteBits(b[0]);
      assert MessageBits(a)[8..] == MessageBits(a[1..]) && MessageBits(b)[8..] == MessageBits(b[1..]);
      ByteBitsInjective(a[0], b[0]);
      MessageBitsInjective(a[1..], b[1..]);
    }
  }

  /** The little-endian bytes of a register's value, sent lowest bit first, are the register's bits. */
  lemma {:induction false} RegisterAsBytes(r: Bits, n: nat)
    requires |r| == 8 * n
    ensures MessageBits(LeBytes(ToNat(r), n)) == r
    decreases n
  {
    if n > 0 {
      var low, high := r[..8], r[8..];
      assert r == low + high;
      ToNatAppend(low, high);
      ToNatOfByte(low);
      EightBits();
      DivModUnique(ToNat(r), 256, ToNat(high), ToNat(low));
      ByteOfNat(ToNat(low));
      BitsOfNat(low);
      RegisterAsBytes(high, n - 1);
      assert LeBytes(ToNat(r), n)[1..] == LeBytes(ToNat(high), n - 1);
    }
  }

  // ----- The register -----

  function Shift(r: Bits): (r': Bits)
    requires r != []
    ensures |r'| == |r|
  {
    r[1..] + [false]
  }

  /** One shift: the feedback word is added when the bit shifted out is set. */
  function Step(poly: Bits, r: Bits): (r': Bits)
    requires |r| == |poly| > 0
    ensures |r'| == |poly|
  {
    if r[0] then Xor(Shift(r), poly) else Shift(r)
  }

  function Steps(poly: Bits, r: Bits, n: nat): (r': Bits)
    requires |r| == |poly| > 0
    ensures |r'| == |poly|
    decreases n
  {
    if n == 0 then r else Steps(poly, Step(poly, r), n - 1)
  }

  lemma StepFirst(poly: Bits, r: Bits, n: nat)
    requires |r| == |poly| > 0 && n > 0
    ensures Steps(poly, r, n) == Steps(poly, Step(poly, r), n - 1)
  {
  }

  lemma StepsNone(poly: Bits, r: Bits)
    requires |r| == |poly| > 0
    ensures Steps(poly, r, 0) == r
  {
  }

  lemma XorSwaps(a: Bits, b: Bits)
    requires |a| == |b|
    ensures Xor(a, b) == Xor(b, a)
  {
  }

  /** The register fed one message bit. */
  function Feed(poly: Bits, r: Bits, bit: bool): (r': Bits)
    requires |r| == |poly| > 0
    ensures |r'| == |poly|
  {
    if r[0] != bit then Xor(Shift(r), poly) else Shift(r)
  }

  function FeedAll(poly: Bits, r: Bits, bits: Bits): (r': Bits)
    requires |r| == |poly| > 0
    ensures |r'| == |poly|
    decreases |bits|
  {
    if bits == [] then r else FeedAll(poly, Feed(poly, r, bits[0]), bits[1..])
  }

  /** Bits padded with zeros to the width of a register. */
  function Pad(bits: Bits, width: nat): (padded: Bits)
    requires |bits| <= width
    ensures |padded| == width
  {
    bits + NoBits(width - |bits|)
  }

  lemma {:induction false} FeedAppend(poly: Bits, r: Bits, a: Bits, b: Bits)
    requires |r| == |poly| > 0
    ensures FeedAll(poly, r, a + b) == FeedAll(poly, FeedAll(poly, r, a), b)
    decreases |a|
  {
    if a == [] {
      assert a + b == b;
    } else {
      assert (a + b)[1..] == a[1..] + b;
      FeedAppend(poly, Feed(poly, r, a[0]), a[1..], b);
    }
  }

  /** Adding the message to the register first and then shifting is feeding it bit by bit. */
  lemma {:induction false} ShiftsFeedBits(poly: Bits, r: Bits, bits: Bits)
    requires |r| == |poly| > 0 && |bits| <= |poly|
    ensures Steps(poly, Xor(r, Pad(bits, |poly|)), |bits|) == FeedAll(poly, r, bits)
    decreases |bits|
  {
    var x := Xor(r, Pad(bits, |poly|));
    if bits == [] {
      assert x == r;
    } else {
      var fed := Feed(poly, r, bits[0]);
      assert Step(poly, x) == Xor(fed, Pad(bits[1..], |poly|));
      ShiftsFeedBits(poly, fed, bits[1..]);
    }
  }

  lemma StepLinear(poly: Bits, a: Bits, b: Bits)
    requires |a| == |b| == |poly| > 0
    ensures Step(poly, Xor(a, b)) == Xor(Step(poly, a), Step(poly, b))
  {
  }

  lemma {:induction false} StepsLinear(poly: Bits, a: Bits, b: Bits, n: nat)
    requires |a| == |b| == |poly| > 0
    ensures Steps(poly, Xor(a, b), n) == Xor(Steps(poly, a, n), Steps(poly, b, n))
    decreases n
  {
    if n > 0 {
      StepLinear(poly, a, b);
      StepsLinear(poly, Step(poly, a), Step(poly, b), n - 1);
    }
  }

  /** Bits above the ones shifted out only move down. */
  lemma {:induction false} ClearBitsShiftOut(poly: Bits, high: Bits, k: nat)
    requires |high| + k == |poly| > 0
    ensures Steps(poly, NoBits(k) + high, k) == high + NoBits(k)
    decreases k
  {
    ClearBitsShiftOutWith(poly, high, k, 0);
    assert NoBits(k) + high + NoBits(0) == NoBits(k) + high;
  }

  lemma {:induction false} ClearBitsShiftOutWith(poly: Bits, high: Bits, k: nat, done: nat)
    requires |high| + k + done == |poly| > 0
    ensures Steps(poly, NoBits(k) + high + NoBits(done), k) == high + NoBits(k + done)
    decreases k
  {
    if k == 0 {
      assert NoBits(0) + high + NoBits(done) == high + NoBits(done);
    } else {
      assert Shift(NoBits(k) + high + NoBits(done)) == NoBits(k - 1) + high + NoBits(done + 1);
      ClearBitsShiftOutWith(poly, high, k - 1, done + 1);
    }
  }

  // ----- Polynomial division -----

  /** Add a polynomial into the leading terms of another. */
  function AddFront(p: Bits, d: Bits): (sum: Bits)
    requires |p| <= |d|
    ensures |sum| == |d|
  {
    seq(|d|, i requires 0 <= i < |d| => if i < |p| then p[i] != d[i] else d[i])
  }

  /** Long division by the generator x^n + poly, leading coefficients first: cancel the leading term
      until fewer than n + 1 terms are left. */
  function Remainder(poly: Bits, d: Bits): (r: Bits)
    ensures |d| >= |poly| ==> |r| == |poly|
    decreases |d|
  {
    if |d| <= |poly| then d
    else Remainder(poly, if d[0] then AddFront(poly, d[1..]) else d[1..])
  }

  lemma AddFrontTwice(p: Bits, q: Bits, d: Bits)
    requires |p| == |q| <= |d|
    ensures AddFront(p, AddFront(q, d)) == AddFront(Xor(q, p), d)
  {
  }

  lemma AddFrontDropped(r: Bits, bit: bool, rest: Bits)
    requires 0 < |r| <= |rest|
    ensures AddFront(r, [bit] + rest)[0] == (r[0] != bit)
    ensures AddFront(r, [bit] + rest)[1..] == AddFront(Shift(r), rest)
  {
  }

  /** One division step on a message with the register added in front is one step of the register. */
  lemma DivisionStep(poly: Bits, r: Bits, bit: bool, rest: Bits)
    requires |r| == |poly| > 0 && |rest| >= |poly|
    ensures Remainder(poly, AddFront(r, [bit] + rest)) == Remainder(poly, AddFront(Feed(poly, r, bit), rest))
  {
    AddFrontDropped(r, bit, rest);
    AddFrontTwice(poly, Shift(r), rest);
  }

  /** The register after a message is the remainder of the message, shifted up by the register's width
      and with the starting register added to its leading terms, divided by the generator. */
  lemma {:induction false} RegisterIsRemainder(poly: Bits, r: Bits, bits: Bits)
    requires |r| == |poly| > 0
    ensures FeedAll(poly, r, bits) == Remainder(poly, AddFront(r, bits + NoBits(|poly|)))
    decreases |bits|
  {
    if bits == [] {
      assert AddFront(r, NoBits(|poly|)) == r;
      assert bits + NoBits(|poly|) == NoBits(|poly|);
    } else {
      assert bits + NoBits(|poly|) == [bits[0]] + (bits[1..] + NoBits(|poly|));
      DivisionStep(poly, r, bits[0], bits[1..] + NoBits(|poly|));
      RegisterIsRemainder(poly, Feed(poly, r, bits[0]), bits[1..]);
    }
  }

  // ----- What changes a register cannot miss -----

  /** The shift loses nothing when the generator has a constant term: the bit shifted out stays visible. */
  lemma StepInjective(poly: Bits, a: Bits, b: Bits)
    requires |a| == |b| == |poly| > 0 && poly[|poly| - 1]
    requires Step(poly, a) == Step(poly, b)
    ensures a == b
  {
    var n := |poly|;
    assert Step(poly, a)[n - 1] == a[0] && Step(poly, b)[n - 1] == b[0];
    forall i | 0 <= i < n
      ensures a[i] == b[i]
    {
      if i > 0 {
        assert Step(poly, a)[i - 1] == (a[i] != (a[0] && poly[i - 1]));
        assert Step(poly, b)[i - 1] == (b[i] != (b[0] && poly[i - 1]));
      }
    }
  }

  lemma {:induction false} StepsInjective(poly: Bits, a: Bits, b: Bits, n: nat)
    requires |a| == |b| == |poly| > 0 && poly[|poly| - 1]
    requires Steps(poly, a, n) == Steps(poly, b, n)
    ensures a == b
    decreases n
  {
    if n > 0 {
      StepsInjective(poly, Step(poly, a), Step(poly, b), n - 1);
      StepInjective(poly, a, b);
    }
  }

  lemma FeedIsStep(poly: Bits, r: Bits, bit: bool)
    requires |r| == |poly| > 0
    ensures Feed(poly, r, bit) == Step(poly, Xor(r, Pad([bit], |poly|)))
  {
  }

  lemma FeedInjective(poly: Bits, a: Bits, b: Bits, bit: bool)
    requires |a| == |b| == |poly| > 0 && poly[|poly| - 1]
    requires Feed(poly, a, bit) == Feed(poly, b, bit)
    ensures a == b
  {
    FeedIsStep(poly, a, bit);
    FeedIsStep(poly, b, bit);
    StepInjective(poly, Xor(a, Pad([bit], |poly|)), Xor(b, Pad([bit], |poly|)));
    XorInjective(a, b, Pad([bit], |poly|));
  }

  lemma XorInjective(a: Bits, b: Bits, c: Bits)
    requires |a| == |b| == |c| && Xor(a, c) == Xor(b, c)
    ensures a == b
  {
    forall i | 0 <= i < |a|
      ensures a[i] == b[i]
    {
      assert Xor(a, c)[i] == Xor(b, c)[i];
    }
  }

  lemma {:induction false} FeedAllInjective(poly: Bits, a: Bits, b: Bits, bits: Bits)
    requires |a| == |b| == |poly| > 0 && poly[|poly| - 1]
    requires FeedAll(poly, a, bits) == FeedAll(poly, b, bits)
    ensures a == b
    decreases |bits|
  {
    if bits != [] {
      FeedAllInjective(poly, Feed(poly, a, bits[0]), Feed(poly, b, bits[0]), bits[1..]);
      FeedInjective(poly, a, b, bits[0]);
    }
  }

  /** Burst detection: two messages that differ only inside a window no longer than the register leave
      different registers, whatever comes before and after. */
  lemma BurstsAreSeen(poly: Bits, r: Bits, before: Bits, v: Bits, w: Bits, after: Bits)
    requires |r| == |poly| > 0 && poly[|poly| - 1]
    requires |v| == |w| <= |poly| && v != w
    ensures FeedAll(poly, r, before + v + after) != FeedAll(poly, r, before + w + after)
  {
    var now := FeedAll(poly, r, before);
    FeedAppend(poly, r, before + v, after);
    FeedAppend(poly, r, before + w, after);
    FeedAppend(poly, r, before, v);
    FeedAppend(poly, r, before, w);
    if FeedAll(poly, r, before + v + after) == FeedAll(poly, r, before + w + after) {
      FeedAllInjective(poly, FeedAll(poly, now, v), FeedAll(poly, now, w), after);
      SameWindow(poly, now, v, w);
    }
  }

  lemma SameWindow(poly: Bits, r: Bits, v: Bits, w: Bits)
    requires |r| == |poly| > 0 && poly[|poly| - 1] && |v| == |w| <= |poly|
    requires FeedAll(poly, r, v) == FeedAll(poly, r, w)
    ensures v == w
  {
    ShiftsFeedBits(poly, r, v);
    ShiftsFeedBits(poly, r, w);
    var x, y := Pad(v, |poly|), Pad(w, |poly|);
    StepsInjective(poly, Xor(r, x), Xor(r, y), |v|);
    assert Xor(x, r) == Xor(r, x) && Xor(y, r) == Xor(r, y);
    XorInjective(x, y, r);
    assert v == x[..|v|] && w == y[..|w|];
  }

  // ----- Checksums of messages -----

  /** The register after a message, started with all ones. */
  function RegisterAfter(poly: Bits, data: seq<byte>): (r: Bits)
    requires poly != []
    ensures |r| == |poly|
  {
    FeedAll(poly, Ones(|poly|), MessageBits(data))
  }

  /** The complemented register as a number. */
  function Crc(poly: Bits, data: seq<byte>): (crc: nat)
    requires poly != []
  {
    ToNat(Xor(RegisterAfter(poly, data), Ones(|poly|)))
  }

  lemma RegisterOfNothing(poly: Bits)
    requires poly != []
    ensures RegisterAfter(poly, []) == Ones(|poly|)
  {
  }

  lemma RegisterOneMore(poly: Bits, data: seq<byte>, b: byte)
    requires poly != []
    ensures RegisterAfter(poly, data + [b]) == FeedAll(poly, RegisterAfter(poly, data), ByteBits(b))
  {
    hide FeedAll;
    MessageBitsAppend(data, [b]);
    assert MessageBits([b]) == ByteBits(b) by {
      assert [b][1..] == [];
    }
    FeedAppend(poly, Ones(|poly|), MessageBits(data), ByteBits(b));
  }

  lemma CrcDeterminesRegister(poly: Bits, a: seq<byte>, b: seq<byte>)
    requires poly != [] && Crc(poly, a) == Crc(poly, b)
    ensures RegisterAfter(poly, a) == RegisterAfter(poly, b)
  {
    var ones := Ones(|poly|);
    ToNatInjective(Xor(RegisterAfter(poly, a), ones), Xor(RegisterAfter(poly, b), ones));
    XorInjective(RegisterAfter(poly, a), RegisterAfter(poly, b), ones);
  }

  lemma CrcFits(poly: Bits, data: seq<byte>)
    requires poly != []
    ensures Crc(poly, data) < Pow2(|poly|)
  {
    ToNatBound(Xor(RegisterAfter(poly, data), Ones(|poly|)));
  }

  /** Messages of one length that differ only in adjacent bytes no longer than the register never share a
      checksum. */
  lemma ShortChangesAreSeen(poly: Bits, before: seq<byte>, v: seq<byte>, w: seq<byte>, after: seq<byte>)
    requires poly != [] && poly[|poly| - 1]
    requires 8 * |v| == 8 * |w| <= |poly| && v != w
    ensures Crc(poly, before + v + after) != Crc(poly, before + w + after)
  {
    hide FeedAll, MessageBits;
    if MessageBits(v) == MessageBits(w) {
      MessageBitsInjective(v, w);
    }
    MessageBitsThree(before, v, after);
    MessageBitsThree(before, w, after);
    BurstsAreSeen(poly, Ones(|poly|), MessageBits(before), MessageBits(v), MessageBits(w), MessageBits(after));
    if Crc(poly, before + v + after) == Crc(poly, before + w + after) {
      CrcDeterminesRegister(poly, before + v + after, before + w + after);
    }
  }

  /** The checksum is the complement of the remainder of the message, with its leading terms inverted,
      shifted up by the register's width and divided by the generator. */
  lemma CrcIsDivision(poly: Bits, data: seq<byte>)
    requires poly != []
    ensures var n := |poly|;
            NatBits(Crc(poly, data), n) ==
            Xor(Remainder(poly, AddFront(Ones(n), MessageBits(data) + NoBits(n))), Ones(n))
  {
    RegisterIsRemainder(poly, Ones(|poly|), MessageBits(data));
    BitsOfNat(Xor(RegisterAfter(poly, data), Ones(|poly|)));
  }
}
