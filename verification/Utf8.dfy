/** Lossy decoding against UTF-8 as RFC 3629 writes it: what is kept, and what is replaced. */
module Utf8 {
  import opened Bytes
  import opened Text

  /** A continuation byte carries six bits. */
  function Low(v: nat): (b: byte)
  {
    (0x80 + v % 64) as byte
  }

  /** A character in UTF-8, section 3 of RFC 3629. */
  function Encoded(c: char): (bytes: seq<byte>)
    ensures 1 <= |bytes| <= 4
  {
    var v := c as nat;
    if v < 0x80 then [v as byte]
    else if v < 0x800 then [(0xC0 + v / 64) as byte, Low(v)]
    else if v < 0x10000 then [(0xE0 + v / 64 / 64) as byte, Low(v / 64), Low(v)]
    else [(0xF0 + v / 64 / 64 / 64) as byte, Low(v / 64 / 64), Low(v / 64), Low(v)]
  }

  function EncodedAll(s: string): (bytes: seq<byte>)
  {
    if s == [] then [] else Encoded(s[0]) + EncodedAll(s[1..])
  }

  /** Every character is recognised, whatever follows it. */
  lemma CharacterIsValid(c: char, rest: seq<byte>)
    ensures NextChar(Encoded(c) + rest) == (|Encoded(c)|, true)
  {
    var v := c as nat;
    var s := Encoded(c) + rest;
    if v < 0x80 {
    } else if v < 0x800 {
      assert v == 64 * (v / 64) + v % 64;
    } else {
      var x := v / 64;
      assert v == 64 * x + v % 64 && x == 64 * (x / 64) + x % 64;
      if v >= 0x10000 {
        assert x / 64 == 64 * (x / 64 / 64) + x / 64 % 64;
      }
    }
  }

  /** Text is kept as it is, whatever follows it. */
  lemma {:induction false} TextIsKept(s: string, rest: seq<byte>)
    ensures Lossy(EncodedAll(s) + rest) == EncodedAll(s) + Lossy(rest)
  {
    hide Encoded, EncodedAll, NextChar, Lossy;
    if s == [] {
      NoText(rest);
    } else {
      var c, text := Encoded(s[0]), EncodedAll(s[1..]);
      FirstOfText(s);
      CharacterIsValid(s[0], text + rest);
      TextIsKept(s[1..], rest);
      FrontIsKept(c, text + rest);
      AppendAssoc(c, text, rest);
      AppendAssoc(c, text, Lossy(rest));
    }
  }

  lemma NoText(rest: seq<byte>)
    ensures EncodedAll([]) + rest == rest && EncodedAll([]) + Lossy(rest) == Lossy(rest)
  {
  }

  lemma FirstOfText(s: string)
    requires s != []
    ensures EncodedAll(s) == Encoded(s[0]) + EncodedAll(s[1..])
  {
  }

  lemma FrontIsKept(c: seq<byte>, later: seq<byte>)
    requires c != [] && NextChar(c + later) == (|c|, true)
    ensures Lossy(c + later) == c + Lossy(later)
  {
    hide NextChar;
    assert (c + later)[..|c|] == c && (c + later)[|c|..] == later;
  }

  /** The value of a continuation byte behind the bits in front of it. */
  lemma Append(high: nat, b: byte)
    requires Continuation(b)
    ensures var v := 64 * high + (b as nat - 0x80);
            v / 64 == high && Low(v) == b
  {
    DivModUnique(64 * high + (b as nat - 0x80), 64, high, b as nat - 0x80);
  }

  /** And only text is: what is recognised is a character. */
  lemma ValidIsCharacter(s: seq<byte>) returns (c: char)
    requires s != [] && NextChar(s).1
    ensures s[..NextChar(s).0] == Encoded(c)
  {
    var n := NextChar(s).0;
    if n == 1 {
      c := s[0] as nat as char;
    } else {
      var high := s[0] as nat - (if n == 2 then 0xC0 else if n == 3 then 0xE0 else 0xF0);
      var x := 64 * high + (s[1] as nat - 0x80);
      Append(high, s[1]);
      if n == 2 {
        return x as char;
      }
      var y := 64 * x + (s[2] as nat - 0x80);
      Append(x, s[2]);
      if n == 3 {
        return y as char;
      }
      Append(y, s[3]);
      c := (64 * y + (s[3] as nat - 0x80)) as char;
    }
  }

  /** Bytes that some character starts with. */
  ghost predicate Starts(bytes: seq<byte>)
  {
    exists c: char :: bytes <= Encoded(c)
  }

  lemma StartsWith(bytes: seq<byte>, c: char)
    requires bytes <= Encoded(c)
    ensures Starts(bytes)
  {
  }

  /** The part of a character that breaks off, made whole. */
  lemma Completed(s: seq<byte>) returns (c: char)
    requires s != [] && !NextChar(s).1 && NextChar(s).0 > 1
    ensures s[..NextChar(s).0] <= Encoded(c)
  {
    var n := NextChar(s).0;
    var whole := s[..n] + if n == 2 && s[0] >= 0xF0 then [0x80, 0x80] else [0x80];
    assert whole[0] == s[0] && whole[1] == s[1] && (n == 3 ==> whole[2] == s[2]);
    assert NextChar(whole) == (|whole|, true);
    c := ValidIsCharacter(whole);
    assert whole[..|whole|] == whole && whole[..n] == s[..n];
  }

  lemma NotFurther(s: seq<byte>, c: char)
    requires s != [] && !NextChar(s).1 && NextChar(s).0 < |s|
    ensures !(s[..NextChar(s).0 + 1] <= Encoded(c))
  {
    var n, e := NextChar(s).0, Encoded(c);
    CharacterIsValid(c, []);
    assert e + [] == e;
    hide Encoded;
    if s[..n + 1] <= e {
      PartDecides(s, e);
    }
  }

  lemma PartDecides(s: seq<byte>, e: seq<byte>)
    requires s != [] && !NextChar(s).1 && NextChar(s).0 < |s|
    requires s[..NextChar(s).0 + 1] <= e
    ensures NextChar(e) == NextChar(s)
  {
    var n := NextChar(s).0;
    assert forall i :: 0 <= i <= n ==> s[i] == s[..n + 1][i] == e[i];
  }

  /** A part that is no character and is replaced is one byte, or as much as some character starts with; and it is the
      longest such part. */
  lemma InvalidPartIsLongest(s: seq<byte>)
    requires s != [] && !NextChar(s).1
    ensures var n := NextChar(s).0;
            && (n == 1 || Starts(s[..n]))
            && (n < |s| ==> !Starts(s[..n + 1]))
  {
    var n := NextChar(s).0;
    if n > 1 {
      var c := Completed(s);
      StartsWith(s[..n], c);
    }
    if n < |s| && Starts(s[..n + 1]) {
      var c: char :| s[..n + 1] <= Encoded(c);
      NotFurther(s, c);
    }
  }

  /** The replacement is the character U+FFFD. */
  lemma ReplacementIsEncoded()
    ensures REPLACEMENT == Encoded('\U{FFFD}')
  {
  }
}
