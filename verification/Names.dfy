/** Partition names: the UTF-16 field of a GPT entry, and the normal form names are compared in. */
module Names {
  import opened Bytes

  const REPLACEMENT: char := '\U{FFFD}'
  const NAME_BYTES: nat := 72

  // ----- UTF-16 -----

  /** The 16-bit units of a field, up to the first zero unit; an odd last byte is ignored. */
  function Units(field: seq<byte>): (units: seq<nat>)
    ensures forall i :: 0 <= i < |units| ==> 0 < units[i] < 0x10000
  {
    if |field| < 2 || Unit(field) == 0 then [] else [Unit(field)] + Units(field[2..])
  }

  function Unit(field: seq<byte>): (unit: nat)
    requires |field| >= 2
    ensures unit < 0x10000
  {
    field[0] as nat + 256 * (field[1] as nat)
  }

  predicate HighSurrogate(u: nat)
  {
    0xD800 <= u < 0xDC00
  }

  predicate LowSurrogate(u: nat)
  {
    0xDC00 <= u < 0xE000
  }

  function Join(high: nat, low: nat): (c: char)
    requires HighSurrogate(high) && LowSurrogate(low)
  {
    (0x10000 + 0x400 * (high - 0xD800) + (low - 0xDC00)) as char
  }

  /** Lossy decoding: surrogate pairs join, an unpaired surrogate becomes the replacement character. */
  function LossyUtf16(units: seq<nat>): (s: string)
    requires forall i :: 0 <= i < |units| ==> units[i] < 0x10000
  {
    if units == [] then []
    else if HighSurrogate(units[0]) then
      if |units| > 1 && LowSurrogate(units[1]) then [Join(units[0], units[1])] + LossyUtf16(units[2..])
      else [REPLACEMENT] + LossyUtf16(units[1..])
    else if LowSurrogate(units[0]) then [REPLACEMENT] + LossyUtf16(units[1..])
    else [units[0] as char] + LossyUtf16(units[1..])
  }

  function DecodeName(field: seq<byte>): (name: string)
  {
    LossyUtf16(Units(field))
  }

  /** A character's units as UTF-16 writes them. */
  function CharUnits(c: char): (units: seq<nat>)
    ensures 0 < |units| <= 2
    ensures forall i :: 0 <= i < |units| ==> units[i] < 0x10000
    ensures c != '\0' ==> forall i :: 0 <= i < |units| ==> units[i] > 0
  {
    var v := c as int;
    if v < 0x10000 then [v] else [0xD800 + (v - 0x10000) / 0x400, 0xDC00 + (v - 0x10000) % 0x400]
  }

  function Utf16(name: string): (units: seq<nat>)
    ensures forall i :: 0 <= i < |units| ==> units[i] < 0x10000
    ensures '\0' !in name ==> forall i :: 0 <= i < |units| ==> units[i] > 0
  {
    if name == [] then [] else CharUnits(name[0]) + Utf16(name[1..])
  }

  function UnitBytes(units: seq<nat>): (field: seq<byte>)
    requires forall i :: 0 <= i < |units| ==> units[i] < 0x10000
    ensures |field| == 2 * |units|
  {
    if units == [] then []
    else [(units[0] % 256) as byte, (units[0] / 256) as byte] + UnitBytes(units[1..])
  }

  /** What a partition name may be: no NUL inside, and at most 36 units long. */
  predicate Storable(name: string)
  {
    '\0' !in name && 2 * |Utf16(name)| <= NAME_BYTES
  }

  /** The name field of an entry: the units, then zeros. */
  function NameField(name: string): (field: seq<byte>)
    requires Storable(name)
    ensures |field| == NAME_BYTES
  {
    UnitBytes(Utf16(name)) + Zeros(NAME_BYTES - 2 * |Utf16(name)|)
  }

  lemma {:induction false} UnitsOfBytes(units: seq<nat>, zeros: nat)
    requires forall i :: 0 <= i < |units| ==> 0 < units[i] < 0x10000
    ensures Units(UnitBytes(units) + Zeros(zeros)) == units
    decreases |units|
  {
    var field := UnitBytes(units) + Zeros(zeros);
    if units != [] {
      assert field[2..] == UnitBytes(units[1..]) + Zeros(zeros);
      UnitsOfBytes(units[1..], zeros);
    }
  }

  lemma JoinSplits(c: char)
    requires c as int >= 0x10000
    ensures var u := CharUnits(c); |u| == 2 && HighSurrogate(u[0]) && LowSurrogate(u[1]) && Join(u[0], u[1]) == c
  {
  }

  lemma CharBack(c: char, rest: seq<nat>)
    requires forall i :: 0 <= i < |rest| ==> rest[i] < 0x10000
    ensures LossyUtf16(CharUnits(c) + rest) == [c] + LossyUtf16(rest)
  {
    var u := CharUnits(c);
    var units := u + rest;
    assert units[|u|..] == rest;
    if c as int >= 0x10000 {
      hide CharUnits, Join;
      JoinSplits(c);
      assert units[0] == u[0] && units[1] == u[1];
      assert units[1..][1..] == units[2..];
    } else {
      assert units[0] == c as int;
    }
  }

  lemma {:induction false} LossyOfUtf16(name: string)
    ensures LossyUtf16(Utf16(name)) == name
  {
    if name != [] {
      CharBack(name[0], Utf16(name[1..]));
      LossyOfUtf16(name[1..]);
    }
  }

  /** Every storable name, characters outside the basic plane included, reads back from its field. */
  lemma NameReadsBack(name: string)
    requires Storable(name)
    ensures DecodeName(NameField(name)) == name
  {
    hide Units, UnitBytes, LossyUtf16, Utf16;
    UnitsOfBytes(Utf16(name), NAME_BYTES - 2 * |Utf16(name)|);
    LossyOfUtf16(name);
  }

  lemma Utf16Front(name: string)
    ensures Utf16(name) == if name == [] then [] else CharUnits(name[0]) + Utf16(name[1..])
  {
  }

  lemma {:induction false} LossyPrefix(before: string, units: seq<nat>)
    requires forall i :: 0 <= i < |units| ==> units[i] < 0x10000
    ensures LossyUtf16(Utf16(before) + units) == before + LossyUtf16(units)
  {
    hide LossyUtf16, Utf16, CharUnits;
    Utf16Front(before);
    if before == [] {
      assert [] + units == units && [] + LossyUtf16(units) == LossyUtf16(units);
    } else {
      var c, later := before[0], Utf16(before[1..]);
      assert CharUnits(c) + later + units == CharUnits(c) + (later + units);
      CharBack(c, later + units);
      LossyPrefix(before[1..], units);
      assert [c] + (before[1..] + LossyUtf16(units)) == before + LossyUtf16(units);
    }
  }

  lemma OneUnpaired(u: nat, after: seq<nat>)
    requires 0xD800 <= u < 0xE000 && forall i :: 0 <= i < |after| ==> after[i] < 0x10000
    requires u < 0xDC00 ==> after == [] || !(0xDC00 <= after[0] < 0xE000)
    ensures LossyUtf16([u] + after) == ['\U{FFFD}'] + LossyUtf16(after)
  {
    assert ([u] + after)[1..] == after;
  }

  /** A surrogate that is not part of a pair costs exactly itself: it becomes U+FFFD, and everything around it is
      decoded as if it were not there. */
  lemma UnpairedIsReplaced(before: string, u: nat, after: seq<nat>)
    requires 0xD800 <= u < 0xE000 && forall i :: 0 <= i < |after| ==> after[i] < 0x10000
    requires u < 0xDC00 ==> after == [] || !(0xDC00 <= after[0] < 0xE000)
    ensures LossyUtf16(Utf16(before) + ([u] + after)) == before + (['\U{FFFD}'] + LossyUtf16(after))
  {
    hide LossyUtf16, Utf16;
    LossyPrefix(before, [u] + after);
    OneUnpaired(u, after);
  }

  /** Nothing behind the first zero unit of a field matters. */
  lemma {:induction false} ZeroUnitEnds(units: seq<nat>, junk: seq<byte>)
    requires forall i :: 0 <= i < |units| ==> 0 < units[i] < 0x10000
    ensures Units(UnitBytes(units) + ([0, 0] + junk)) == units
    decreases |units|
  {
    var field := UnitBytes(units) + ([0, 0] + junk);
    if units == [] {
      assert field == [0, 0] + junk;
    } else {
      assert field[2..] == UnitBytes(units[1..]) + ([0, 0] + junk);
      ZeroUnitEnds(units[1..], junk);
    }
  }

  // ----- Trimming -----

  /** Unicode White_Space, which `trim` removes. */
  predicate Space(c: char)
  {
    || '\t' <= c <= '\r' || c == ' ' || c == '\U{85}' || c == '\U{A0}' || c == '\U{1680}'
    || '\U{2000}' <= c <= '\U{200A}' || c == '\U{2028}' || c == '\U{2029}' || c == '\U{202F}'
    || c == '\U{205F}' || c == '\U{3000}'
  }

  predicate Nul(c: char)
  {
    c == '\0'
  }

  function TrimStart(s: string, drop: char -> bool): (t: string)
    ensures |t| <= |s| && t == s[|s| - |t|..]
    ensures t != [] ==> !drop(t[0])
    ensures forall i :: 0 <= i < |s| - |t| ==> drop(s[i])
  {
    if s != [] && drop(s[0]) then TrimStart(s[1..], drop) else s
  }

  function TrimEnd(s: string, drop: char -> bool): (t: string)
    ensures |t| <= |s| && t == s[..|t|]
    ensures t != [] ==> !drop(t[|t| - 1])
    ensures forall i :: |t| <= i < |s| ==> drop(s[i])
  {
    if s != [] && drop(s[|s| - 1]) then TrimEnd(s[..|s| - 1], drop) else s
  }

  function Trim(s: string, drop: char -> bool): (t: string)
    ensures t != [] ==> !drop(t[0]) && !drop(t[|t| - 1])
  {
    TrimEnd(TrimStart(s, drop), drop)
  }

  /** The form entry names are indexed and compared in: spaces, then NULs, then spaces trimmed. */
  function Normal(name: string): (n: string)
  {
    Trim(Trim(Trim(name, Space), Nul), Space)
  }

  predicate AllOf(s: string, drop: char -> bool)
  {
    forall i :: 0 <= i < |s| ==> drop(s[i])
  }

  predicate KeptEnds(s: string, drop: char -> bool)
  {
    s != [] ==> !drop(s[0]) && !drop(s[|s| - 1])
  }

  lemma {:induction false} TrimStartDrops(pre: string, s: string, drop: char -> bool)
    requires AllOf(pre, drop)
    ensures TrimStart(pre + s, drop) == TrimStart(s, drop)
    decreases |pre|
  {
    if pre == [] {
      assert pre + s == s;
    } else {
      assert (pre + s)[1..] == pre[1..] + s;
      TrimStartDrops(pre[1..], s, drop);
    }
  }

  lemma {:induction false} TrimEndDrops(s: string, post: string, drop: char -> bool)
    requires AllOf(post, drop)
    ensures TrimEnd(s + post, drop) == TrimEnd(s, drop)
    decreases |post|
  {
    if post == [] {
      assert s + post == s;
    } else {
      assert (s + post)[..|s + post| - 1] == s + post[..|post| - 1];
      TrimEndDrops(s, post[..|post| - 1], drop);
    }
  }

  /** Trimming takes away exactly what is to be dropped at both ends. */
  lemma TrimExactly(pre: string, s: string, post: string, drop: char -> bool)
    requires AllOf(pre, drop) && AllOf(post, drop) && KeptEnds(s, drop)
    ensures Trim(pre + (s + post), drop) == s
  {
    TrimStartDrops(pre, s + post, drop);
    TrimEndDrops(s, post, drop);
    if s == [] {
      assert s + post == post && post + [] == post;
      TrimStartDrops(post, [], drop);
    }
  }

  lemma PaddingIsTrimmed(name: string, a: string, x: string, b: string, c: string, y: string, d: string)
    requires name != "" && KeptEnds(name, Space) && KeptEnds(name, Nul)
    requires AllOf(a, Space) && AllOf(b, Space) && AllOf(c, Space) && AllOf(d, Space)
    requires AllOf(x, Nul) && AllOf(y, Nul) && (x == "" ==> b == "") && (y == "" ==> c == "")
    ensures Normal(a + (x + (b + (name + c) + y) + d)) == name
  {
    NulIsNoSpace();
    KeptMiddle(x, b, name, c, y);
    hide Trim, Space, Nul, AllOf, KeptEnds;
    TrimExactly(a, x + (b + (name + c) + y), d, Space);
    TrimExactly(x, b + (name + c), y, Nul);
    TrimExactly(b, name, c, Space);
  }

  lemma Regroup(name: string, a: string, x: string, b: string, c: string, y: string, d: string)
    ensures var a', b' := if x == "" then a + b else a, if x == "" then "" else b;
            var c', d' := if y == "" then "" else c, if y == "" then c + d else d;
            a + x + b + name + c + y + d == a' + (x + (b' + (name + c') + y) + d')
  {
    var tail := if y == "" then c + d else c + y + d;
    assert a + x + b + name + c + y + d == (a + x + b) + name + (c + y + d);
    assert y == "" ==> c + y + d == c + d;
    assert x == "" ==> a + x + b == a + b;
  }

  lemma AllOfBoth(s: string, t: string, drop: char -> bool)
    requires AllOf(s, drop) && AllOf(t, drop)
    ensures AllOf(s + t, drop) && AllOf("", drop)
  {
  }

  /** A name that neither starts nor ends with a space or a NUL is its own normal form, and padding it, on either side,
      with spaces, then NULs, then spaces does not change its normal form. */
  lemma PaddingIsNormal(name: string, a: string, x: string, b: string, c: string, y: string, d: string)
    requires name != "" && KeptEnds(name, Space) && KeptEnds(name, Nul)
    requires AllOf(a, Space) && AllOf(b, Space) && AllOf(c, Space) && AllOf(d, Space)
    requires AllOf(x, Nul) && AllOf(y, Nul)
    ensures Normal(a + x + b + name + c + y + d) == name
    ensures Normal(name) == name
  {
    hide Normal, AllOf, KeptEnds;
    var a', b' := if x == "" then a + b else a, if x == "" then "" else b;
    var c', d' := if y == "" then "" else c, if y == "" then c + d else d;
    AllOfBoth(a, b, Space);
    AllOfBoth(c, d, Space);
    Regroup(name, a, x, b, c, y, d);
    PaddingIsTrimmed(name, a', x, b', c', y, d');
    assert AllOf("", Nul) by { AllOfNothing(Nul); }
    PaddingIsTrimmed(name, "", "", "", "", "", "");
    assert "" + ("" + ("" + (name + "") + "") + "") == name;
  }

  lemma AllOfNothing(drop: char -> bool)
    ensures AllOf("", drop)
  {
  }

  lemma NulIsNoSpace()
    ensures !Space('\0') && Nul('\0') && forall c :: Nul(c) <==> c == '\0'
  {
  }

  lemma KeptMiddle(x: string, b: string, name: string, c: string, y: string)
    requires name != "" && KeptEnds(name, Space) && KeptEnds(name, Nul)
    requires AllOf(b, Space) && AllOf(c, Space) && AllOf(x, Nul) && AllOf(y, Nul)
    requires (x == "" ==> b == "") && (y == "" ==> c == "")
    ensures KeptEnds(x + (b + (name + c) + y), Space)
    ensures KeptEnds(b + (name + c), Nul)
  {
  }
}
