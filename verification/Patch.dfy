/** Patch entries: resolving their values and applying them inside one sector. */
module Patch {
  import opened Bytes
  import opened Disk

  datatype PatchEntry = PatchEntry(byteOffset: nat, lun: nat, sizeInBytes: nat, startSector: nat, value: string)

  const U64_LIMIT: nat := 0x1_0000_0000_0000_0000
  const NUM_DISK_SECTORS: string := "NUM_DISK_SECTORS"
  const LAST_PARTITION_END: string := "LAST_PARTITION_END"

  // ----- Numbers in text -----

  function DigitOf(c: char): (d: nat)
    ensures d <= 16
  {
    if '0' <= c <= '9' then c as nat - '0' as nat
    else if 'a' <= c <= 'f' then c as nat - 'a' as nat + 10
    else if 'A' <= c <= 'F' then c as nat - 'A' as nat + 10
    else 16
  }

  /** Fold digits onto a value; a bad digit or a value past 64 bits fails. */
  function ParseFrom(acc: nat, s: string, radix: nat): (v: Option<nat>)
    requires radix == 10 || radix == 16
    decreases |s|
  {
    if s == [] then Some(acc)
    else if DigitOf(s[0]) >= radix || acc * radix + DigitOf(s[0]) >= U64_LIMIT then None
    else ParseFrom(acc * radix + DigitOf(s[0]), s[1..], radix)
  }

  /** An unsigned number as Rust parses it: an optional plus sign and at least one digit. */
  function ParseRadix(s: string, radix: nat): (v: Option<nat>)
    requires radix == 10 || radix == 16
  {
    var digits := if s != [] && s[0] == '+' then s[1..] else s;
    if digits == [] then None else ParseFrom(0, digits, radix)
  }

  function ParseU64(s: string): (v: Option<nat>)
  {
    if "0x" <= s || "0X" <= s then ParseRadix(s[2..], 16) else ParseRadix(s, 10)
  }

  function DigitChar(d: nat): (c: char)
    requires d < 10
    ensures DigitOf(c) == d && c != '+' && c != 'x' && c != 'X'
  {
    ('0' as nat + d) as char
  }

  /** Decimal notation, as `to_string` writes it. */
  function Decimal(n: nat): (s: string)
    ensures s != [] && s[0] != '+' && (|s| > 1 ==> s[1] != 'x' && s[1] != 'X')
  {
    if n < 10 then [DigitChar(n)] else Decimal(n / 10) + [DigitChar(n % 10)]
  }

  function HexChar(d: nat, upper: bool): (c: char)
    requires d < 16
    ensures DigitOf(c) == d && c != '+'
  {
    if d < 10 then DigitChar(d) else ((if upper then 'A' else 'a') as nat + d - 10) as char
  }

  /** Hexadecimal notation, in small or capital letters. */
  function Hex(n: nat, upper: bool): (s: string)
    ensures s != [] && s[0] != '+'
  {
    if n < 16 then [HexChar(n, upper)] else Hex(n / 16, upper) + [HexChar(n % 16, upper)]
  }

  lemma {:induction false} ParseAppend(acc: nat, s: string, c: char, radix: nat)
    requires radix == 10 || radix == 16
    ensures ParseFrom(acc, s + [c], radix) ==
            match ParseFrom(acc, s, radix)
            case None => None
            case Some(v) => ParseFrom(v, [c], radix)
    decreases |s|
  {
    if s == [] {
      assert s + [c] == [c];
    } else {
      assert (s + [c])[1..] == s[1..] + [c];
      if !(DigitOf(s[0]) >= radix || acc * radix + DigitOf(s[0]) >= U64_LIMIT) {
        ParseAppend(acc * radix + DigitOf(s[0]), s[1..], c, radix);
      }
    }
  }

  lemma ParseDigit(acc: nat, c: char, radix: nat)
    requires (radix == 10 || radix == 16) && DigitOf(c) < radix
    ensures var v := acc * radix + DigitOf(c);
            ParseFrom(acc, [c], radix) == if v < 0x1_0000_0000_0000_0000 then Some(v) else None
  {
    assert ParseFrom(acc * radix + DigitOf(c), [c][1..], radix) == Some(acc * radix + DigitOf(c));
  }

  lemma {:induction false} ParseDigitsOfDecimal(n: nat)
    ensures ParseFrom(0, Decimal(n), 10) == if n < 0x1_0000_0000_0000_0000 then Some(n) else None
  {
    hide ParseFrom;
    if n < 10 {
      ParseDigit(0, DigitChar(n), 10);
    } else {
      ParseDigitsOfDecimal(n / 10);
      ParseAppend(0, Decimal(n / 10), DigitChar(n % 10), 10);
      ParseDigit(n / 10, DigitChar(n % 10), 10);
    }
  }

  lemma {:induction false} ParseDigitsOfHex(n: nat, upper: bool)
    ensures ParseFrom(0, Hex(n, upper), 16) == if n < 0x1_0000_0000_0000_0000 then Some(n) else None
  {
    hide ParseFrom;
    if n < 16 {
      ParseDigit(0, HexChar(n, upper), 16);
    } else {
      ParseDigitsOfHex(n / 16, upper);
      ParseAppend(0, Hex(n / 16, upper), HexChar(n % 16, upper), 16);
      ParseDigit(n / 16, HexChar(n % 16, upper), 16);
    }
  }

  /** A number written in decimal parses back to itself if it has 64 bits, and to nothing if it has more. */
  lemma ParseOfDecimal(n: nat)
    ensures ParseU64(Decimal(n)) == if n < 0x1_0000_0000_0000_0000 then Some(n) else None
  {
    hide ParseFrom;
    ParseDigitsOfDecimal(n);
  }

  /** The same in hexadecimal behind "0x" or "0X", in small or capital letters. */
  lemma ParseOfHex(n: nat, upper: bool)
    ensures ParseU64("0x" + Hex(n, upper)) == if n < 0x1_0000_0000_0000_0000 then Some(n) else None
    ensures ParseU64("0X" + Hex(n, upper)) == ParseU64("0x" + Hex(n, upper))
  {
    hide ParseFrom, Hex;
    ParseDigitsOfHex(n, upper);
    assert ("0x" + Hex(n, upper))[2..] == Hex(n, upper) && ("0X" + Hex(n, upper))[2..] == Hex(n, upper);
    assert "0x" <= "0x" + Hex(n, upper) && "0X" <= "0X" + Hex(n, upper);
  }

  predicate IsDigit(c: char, radix: nat)
  {
    '0' <= c <= '9' || (radix == 16 && ('a' <= c <= 'f' || 'A' <= c <= 'F'))
  }

  lemma {:induction false} DigitsOnly(acc: nat, s: string, radix: nat)
    requires (radix == 10 || radix == 16) && ParseFrom(acc, s, radix).Some?
    ensures forall i :: 0 <= i < |s| ==> IsDigit(s[i], radix)
    decreases |s|
  {
    if s != [] {
      DigitsOnly(acc * radix + DigitOf(s[0]), s[1..], radix);
      assert forall i :: 0 < i < |s| ==> s[i] == s[1..][i - 1];
    }
  }

  /** What parses is digits, one at least, behind an optional plus sign; behind "0x" or "0X" hexadecimal ones. */
  lemma OnlyNumbersParse(s: string)
    requires ParseU64(s).Some?
    ensures var hex := "0x" <= s || "0X" <= s;
            var body := if hex then s[2..] else s;
            var digits := if "+" <= body then body[1..] else body;
            digits != [] && forall i :: 0 <= i < |digits| ==> IsDigit(digits[i], if hex then 16 else 10)
  {
    var hex := "0x" <= s || "0X" <= s;
    var body := if hex then s[2..] else s;
    DigitsOnly(0, if "+" <= body then body[1..] else body, if hex then 16 else 10);
  }

  // ----- Values -----

  datatype Resolution = Resolved(bytes: seq<byte>) | Skipped | Overrun

  function Lookup(vars: map<string, string>, name: string): (v: Option<string>)
  {
    if name in vars then Some(vars[name]) else None
  }

  function ValueText(p: PatchEntry, vars: map<string, string>): (text: Option<string>)
  {
    if NUM_DISK_SECTORS <= p.value then Lookup(vars, NUM_DISK_SECTORS)
    else if LAST_PARTITION_END <= p.value then Lookup(vars, LAST_PARTITION_END)
    else Some(p.value)
  }

  function ValueOf(p: PatchEntry, vars: map<string, string>): (v: Option<nat>)
  {
    match ValueText(p, vars)
    case None => None
    case Some(text) => ParseU64(text)
  }

  /** `resolve_value`: slicing more than eight bytes off a 64-bit value panics. */
  function Resolve(p: PatchEntry, vars: map<string, string>): (r: Resolution)
  {
    match ValueOf(p, vars)
    case None => Skipped
    case Some(v) => if p.sizeInBytes > 8 then Overrun else Resolved(LeBytes(v, 8)[..p.sizeInBytes])
  }

  lemma {:induction false} LeBytesPrefix(v: nat, n: nat, k: nat)
    requires k <= n
    ensures LeBytes(v, n)[..k] == LeBytes(v, k)
  {
    if k > 0 {
      LeBytesPrefix(v / 256, n - 1, k - 1);
    }
  }

  /** The resolved bytes are the value's low-order bytes, and read back as it modulo 256^size. */
  lemma ResolvedBytesDecode(p: PatchEntry, vars: map<string, string>)
    requires Resolve(p, vars).Resolved?
    ensures var bytes := Resolve(p, vars).bytes;
            |bytes| == p.sizeInBytes <= 8 && Le(bytes) == ValueOf(p, vars).value % Pow256(p.sizeInBytes)
  {
    var v := ValueOf(p, vars).value;
    LeBytesPrefix(v, 8, p.sizeInBytes);
    LeOfLeBytes(v, p.sizeInBytes);
  }

  // ----- Patching a sector -----

  /** The sector with the bytes laid over it from `offset`, clipped at its end. */
  function PatchSector(sector: seq<byte>, offset: nat, bytes: seq<byte>): (patched: seq<byte>)
    requires offset <= |sector|
    ensures |patched| == |sector|
  {
    var end := Min(offset + |bytes|, |sector|);
    sector[..offset] + bytes[..end - offset] + sector[end..]
  }

  /** A patch changes exactly its byte range and nothing else of the sector. */
  lemma PatchTouchesItsBytes(sector: seq<byte>, offset: nat, bytes: seq<byte>)
    requires offset <= |sector|
    ensures var patched := PatchSector(sector, offset, bytes);
            forall i :: 0 <= i < |sector| ==>
              patched[i] == if offset <= i < offset + |bytes| then bytes[i - offset] else sector[i]
  {
  }

  /** A patch that is not clipped leaves its value readable in place. */
  lemma PatchedValueReadsBack(sector: seq<byte>, p: PatchEntry, vars: map<string, string>)
    requires Resolve(p, vars).Resolved? && p.byteOffset + p.sizeInBytes <= |sector|
    ensures var patched := PatchSector(sector, p.byteOffset, Resolve(p, vars).bytes);
            Le(patched[p.byteOffset..p.byteOffset + p.sizeInBytes]) == ValueOf(p, vars).value % Pow256(p.sizeInBytes)
  {
    ResolvedBytesDecode(p, vars);
    var bytes := Resolve(p, vars).bytes;
    var patched := PatchSector(sector, p.byteOffset, bytes);
    assert patched[p.byteOffset..p.byteOffset + p.sizeInBytes] == bytes;
  }

  /** Patches on byte ranges that do not meet can be applied in either order. */
  lemma DisjointPatchesCommute(sector: seq<byte>, o1: nat, b1: seq<byte>, o2: nat, b2: seq<byte>)
    requires o1 <= |sector| && o2 <= |sector| && o1 + |b1| <= o2
    ensures PatchSector(PatchSector(sector, o1, b1), o2, b2) == PatchSector(PatchSector(sector, o2, b2), o1, b1)
  {
  }

  /** One patch on the whole storage. */
  function PatchEffect(d: Storage, p: PatchEntry, bytes: seq<byte>): (d': Storage)
    ensures d'.Keys == d.Keys
  {
    var a := (p.lun, p.startSector);
    if a in d && p.byteOffset <= |d[a]| then d[a := PatchSector(d[a], p.byteOffset, bytes)] else d
  }

  predicate Apart(p: PatchEntry, b: seq<byte>, q: PatchEntry, c: seq<byte>)
  {
    || p.lun != q.lun || p.startSector != q.startSector
    || p.byteOffset + |b| <= q.byteOffset || q.byteOffset + |c| <= p.byteOffset
  }

  /** Patches that do not meet commute on the storage, even within one sector. */
  lemma PatchEffectsCommute(d: Storage, p: PatchEntry, b: seq<byte>, q: PatchEntry, c: seq<byte>)
    requires Apart(p, b, q, c)
    ensures PatchEffect(PatchEffect(d, p, b), q, c) == PatchEffect(PatchEffect(d, q, c), p, b)
  {
    var x, y := (p.lun, p.startSector), (q.lun, q.startSector);
    if x == y && x in d && p.byteOffset <= |d[x]| && q.byteOffset <= |d[x]| {
      if p.byteOffset + |b| <= q.byteOffset {
        DisjointPatchesCommute(d[x], p.byteOffset, b, q.byteOffset, c);
      } else {
        DisjointPatchesCommute(d[x], q.byteOffset, c, p.byteOffset, b);
      }
    }
  }
}
