/** Token search and the lossy text view that `read_response` scans. */
module Text {
  import opened Bytes

  ghost predicate OccursAt(token: seq<byte>, s: seq<byte>, i: nat)
  {
    i + |token| <= |s| && s[i..i + |token|] == token
  }

  /** Where the token first occurs at or after `from`, as `str::find` on the rest of a text reports it. */
  function Find(token: seq<byte>, s: seq<byte>, from: nat): (at: Option<nat>)
    requires from <= |s|
    ensures at.Some? ==> from <= at.value && at.value + |token| <= |s|
    decreases |s| - from
  {
    if from + |token| > |s| then None
    else if s[from..from + |token|] == token then Some(from)
    else if from == |s| then None
    else Find(token, s, from + 1)
  }

  /** The search reports an occurrence exactly when there is one, and then the first. */
  lemma {:induction false} FindIsFirst(token: seq<byte>, s: seq<byte>, from: nat)
    requires from <= |s|
    ensures Find(token, s, from).Some? <==> exists k: nat :: from <= k && OccursAt(token, s, k)
    ensures var at := Find(token, s, from);
            at.Some? ==> OccursAt(token, s, at.value) && forall k: nat :: from <= k < at.value ==> !OccursAt(token,
                s, k)
    decreases |s| - from
  {
    if from + |token| <= |s| && s[from..from + |token|] == token {
      assert OccursAt(token, s, from);
    } else if from < |s| && from + |token| <= |s| {
      FindIsFirst(token, s, from + 1);
    }
  }

  /** A prefix shows exactly those first occurrences that end inside it. */
  lemma {:induction false} FindPrefix(token: seq<byte>, p: seq<byte>, s: seq<byte>, from: nat)
    requires p <= s && from <= |p|
    ensures var whole := Find(token, s, from);
            Find(token, p, from) == if whole.Some? && whole.value + |token| <= |p| then whole else None
    decreases |p| - from
  {
    if from + |token| <= |p| {
      assert p[from..from + |token|] == s[from..from + |token|];
      if from < |p| && p[from..from + |token|] != token {
        FindPrefix(token, p, s, from + 1);
      }
    }
  }

  /** Text in front moves what is found after it by its length. */
  lemma {:induction false} FindShift(token: seq<byte>, pre: seq<byte>, s: seq<byte>, from: nat)
    requires from <= |s|
    ensures Find(token, pre + s, |pre| + from) ==
            match Find(token, s, from) case None => None case Some(i) => Some(|pre| + i)
    decreases |s| - from
  {
    if from + |token| <= |s| {
      assert (pre + s)[|pre| + from..|pre| + from + |token|] == s[from..from + |token|];
      if from < |s| && s[from..from + |token|] != token {
        FindShift(token, pre, s, from + 1);
      }
    }
  }

  /** A search that starts earlier finds something if a later one does. */
  lemma {:induction false} FindEarlier(token: seq<byte>, s: seq<byte>, from: nat)
    requires from <= |s| && Find(token, s, from).Some?
    ensures Find(token, s, 0).Some?
  {
    FindIsFirst(token, s, from);
    FindIsFirst(token, s, 0);
  }

  predicate Contains(s: seq<byte>, token: seq<byte>)
  {
    Find(token, s, 0).Some?
  }

  // ----- UTF-8 -----

  const REPLACEMENT: seq<byte> := [0xEF, 0xBF, 0xBD]

  /** An ASCII string as bytes. */
  function Spelled(s: string): (bytes: seq<byte>)
    requires forall i :: 0 <= i < |s| ==> s[i] < '\U{80}'
    ensures |bytes| == |s|
  {
    seq(|s|, i requires 0 <= i < |s| => s[i] as int as byte)
  }

  predicate Ascii(s: seq<byte>)
  {
    forall i :: 0 <= i < |s| ==> s[i] < 0x80
  }

  function At(s: seq<byte>, i: nat): (b: byte)
  {
    if i < |s| then s[i] else 0
  }

  predicate Continuation(b: byte)
  {
    0x80 <= b <= 0xBF
  }

  /** The second byte a three- or four-byte sequence may have after its first byte. */
  predicate SecondByte(first: byte, b: byte)
  {
    if first == 0xE0 then 0xA0 <= b <= 0xBF
    else if first == 0xED then 0x80 <= b <= 0x9F
    else if first == 0xF0 then 0x90 <= b <= 0xBF
    else if first == 0xF4 then 0x80 <= b <= 0x8F
    else Continuation(b)
  }

  /** How many bytes the next character, or the next maximal invalid part, takes, and whether it is valid. */
  function NextChar(s: seq<byte>): (r: (nat, bool))
    requires s != []
    ensures 1 <= r.0 <= |s|
  {
    var b := s[0];
    if b < 0x80 then (1, true)
    else if 0xC2 <= b <= 0xDF then
      if Continuation(At(s, 1)) then (2, true) else (1, false)
    else if 0xE0 <= b <= 0xEF then
      if !SecondByte(b, At(s, 1)) then (1, false)
      else if !Continuation(At(s, 2)) then (2, false)
      else (3, true)
    else if 0xF0 <= b <= 0xF4 then
      if !SecondByte(b, At(s, 1)) then (1, false)
      else if !Continuation(At(s, 2)) then (2, false)
      else if !Continuation(At(s, 3)) then (3, false)
      else (4, true)
    else (1, false)
  }

  /** The text `String::from_utf8_lossy` builds, as its UTF-8 bytes. */
  function Lossy(s: seq<byte>): (text: seq<byte>)
  {
    if s == [] then []
    else
      var (n, valid) := NextChar(s);
      (if valid then s[..n] else REPLACEMENT) + Lossy(s[n..])
  }

  /** ASCII bytes survive in place, whatever bytes follow them. */
  lemma {:induction false} LossyAscii(a: seq<byte>, rest: seq<byte>)
    requires Ascii(a)
    ensures Lossy(a + rest) == a + Lossy(rest)
  {
    if a == [] {
      assert a + rest == rest;
    } else {
      LossyAscii(a[1..], rest);
      assert (a + rest)[1..] == a[1..] + rest;
      assert (a + rest)[..1] == a[..1];
    }
  }

  lemma LossyOfAscii(a: seq<byte>)
    requires Ascii(a)
    ensures Lossy(a) == a
  {
    LossyAscii(a, []);
    assert a + [] == a;
  }

  /** What the first character, or the first invalid part, decodes to, and what is behind it. */
  function FirstText(s: seq<byte>): (text: seq<byte>)
    requires s != []
  {
    if NextChar(s).1 then s[..NextChar(s).0] else REPLACEMENT
  }

  function Behind(s: seq<byte>): (rest: seq<byte>)
    requires s != []
    ensures |rest| < |s|
  {
    s[NextChar(s).0..]
  }

  lemma LossyCons(s: seq<byte>)
    requires s != []
    ensures Lossy(s) == FirstText(s) + Lossy(Behind(s))
  {
    hide NextChar;
  }

  lemma NextCharBefore(g: seq<byte>, a: seq<byte>)
    requires g != [] && a != [] && a[0] < 0x80
    ensures NextChar(g + a) == NextChar(g)
  {
    assert forall i: nat :: i < |g| ==> (g + a)[i] == g[i];
    assert At(g + a, |g|) == a[0];
  }

  lemma FirstBefore(g: seq<byte>, a: seq<byte>)
    requires g != [] && a != [] && a[0] < 0x80
    ensures FirstText(g + a) == FirstText(g) && Behind(g + a) == Behind(g) + a
  {
    NextCharBefore(g, a);
    hide NextChar;
    var n := NextChar(g).0;
    assert (g + a)[..n] == g[..n] && (g + a)[n..] == g[n..] + a;
  }

  /** An ASCII byte ends whatever came before it: garbage decodes the same with or without it. */
  lemma {:induction false} LossyGarbage(g: seq<byte>, a: seq<byte>)
    requires a != [] && a[0] < 0x80
    ensures Lossy(g + a) == Lossy(g) + Lossy(a)
  {
    if g == [] {
      assert g + a == a;
    } else {
      FirstBefore(g, a);
      LossyCons(g);
      LossyCons(g + a);
      hide FirstText, Behind, Lossy;
      LossyGarbage(Behind(g), a);
      AppendAssoc(FirstText(g), Lossy(Behind(g)), Lossy(a));
    }
  }
}
