/** Bytes, little-endian integers and flattening, shared by every protocol module. */
module Bytes {
  newtype byte = i: int | 0 <= i < 256

  datatype Option<+T> = None | Some(value: T)

  function Min(a: nat, b: nat): (m: nat)
  {
    if a <= b then a else b
  }

  function Max(a: nat, b: nat): (m: nat)
  {
    if a <= b then b else a
  }

  function Pow256(n: nat): (p: nat)
    ensures p > 0
  {
    if n == 0 then 1 else 256 * Pow256(n - 1)
  }

  /** The unsigned value of little-endian bytes, as `from_le_bytes` reads it. */
  function Le(s: seq<byte>): (v: nat)
  {
    if s == [] then 0 else s[0] as nat + 256 * Le(s[1..])
  }

  /** The n low-order bytes of v, least significant first, as `to_le_bytes` writes them. */
  function LeBytes(v: nat, n: nat): (s: seq<byte>)
    ensures |s| == n
  {
    if n == 0 then [] else [(v % 256) as byte] + LeBytes(v / 256, n - 1)
  }

  lemma {:induction false} MulMonotone(m: nat, a: nat, b: nat)
    requires a <= b
    ensures m * a <= m * b
  {
    if a < b {
      MulMonotone(m, a, b - 1);
      assert m * b == m * (b - 1) + m;
    }
  }

  lemma LessByProduct(m: nat, a: nat, b: nat)
    requires m * a < m * b
    ensures a < b
  {
    if b <= a {
      MulMonotone(m, b, a);
    }
  }

  /** Quotient and remainder are determined by the division identity. */
  lemma DivModUnique(v: nat, m: nat, q: nat, r: nat)
    requires r < m && v == m * q + r
    ensures v / m == q && v % m == r
  {
    var q' := v / m;
    assert v == m * q' + v % m;
    if q < q' {
      MulMonotone(m, q + 1, q');
    } else if q' < q {
      MulMonotone(m, q' + 1, q);
    }
  }

  lemma ModSplit(v: nat, p: nat)
    requires p > 0
    ensures v % (256 * p) == v % 256 + 256 * ((v / 256) % p)
  {
    var q, r := v / 256, v % 256;
    var a, b := q / p, q % p;
    var m := 256 * p;
    assert q == p * a + b;
    assert m * a == 256 * (p * a);
    DivModUnique(v, m, a, 256 * b + r);
  }

  lemma ByteOfNat(i: nat)
    requires i < 256
    ensures (i as byte) as nat == i
  {
  }

  /** An n-byte field keeps exactly the value modulo 256 to the n. */
  lemma {:induction false} LeOfLeBytes(v: nat, n: nat)
    ensures Le(LeBytes(v, n)) == v % Pow256(n)
  {
    if n > 0 {
      LeOfLeBytes(v / 256, n - 1);
      ModSplit(v, Pow256(n - 1));
      ByteOfNat(v % 256);
      assert LeBytes(v, n)[1..] == LeBytes(v / 256, n - 1);
    }
  }

  /** A value that fits its n-byte field reads back unchanged. */
  lemma {:induction false} LeField(v: nat, n: nat)
    requires v < Pow256(n)
    ensures Le(LeBytes(v, n)) == v
  {
    if n > 0 {
      LeField(v / 256, n - 1);
      ByteOfNat(v % 256);
      assert LeBytes(v, n)[1..] == LeBytes(v / 256, n - 1);
    }
  }

  lemma {:induction false} LeBound(s: seq<byte>)
    ensures Le(s) < Pow256(|s|)
  {
    if s != [] {
      LeBound(s[1..]);
    }
  }

  lemma {:induction false} LeInjective(a: seq<byte>, b: seq<byte>)
    requires |a| == |b| && Le(a) == Le(b)
    ensures a == b
  {
    if a != [] {
      LeInjective(a[1..], b[1..]);
      assert a == [a[0]] + a[1..] && b == [b[0]] + b[1..];
    }
  }

  lemma {:induction false} LeBytesOfLe(s: seq<byte>)
    ensures LeBytes(Le(s), |s|) == s
  {
    if s != [] {
      LeBytesOfLe(s[1..]);
      ByteRange(s[0]);
      SplitLow(s[0] as nat, Le(s[1..]));
      assert s == [s[0]] + s[1..];
    }
  }

  lemma SplitLow(low: nat, high: nat)
    requires low < 256
    ensures (low + 256 * high) % 256 == low && (low + 256 * high) / 256 == high
  {
  }

  lemma ByteRange(b: byte)
    ensures (b as nat) < 256 && (b as nat) as byte == b
  {
  }

  function Flatten(parts: seq<seq<byte>>): (s: seq<byte>)
  {
    if parts == [] then [] else parts[0] + Flatten(parts[1..])
  }

  lemma {:induction false} FlattenAppend(a: seq<seq<byte>>, b: seq<seq<byte>>)
    ensures Flatten(a + b) == Flatten(a) + Flatten(b)
  {
    if a == [] {
      assert a + b == b;
    } else {
      FlattenAppend(a[1..], b);
      assert (a + b)[0] == a[0] && (a + b)[1..] == a[1..] + b;
      AppendAssoc(a[0], Flatten(a[1..]), Flatten(b));
    }
  }

  lemma AppendAssoc(a: seq<byte>, b: seq<byte>, c: seq<byte>)
    ensures a + b + c == a + (b + c)
  {
  }

  lemma SplitInside(have: seq<byte>, tail: seq<byte>, b: seq<byte>, c: seq<byte>)
    requires have + tail == b + c && |have| <= |b|
    ensures have == b[..|have|] && tail == b[|have|..] + c
  {
    assert have == (have + tail)[..|have|] == (b + c)[..|have|];
    assert tail == (have + tail)[|have|..] == (b + c)[|have|..];
  }

  lemma PrefixOfThree(a: seq<byte>, b: seq<byte>, c: seq<byte>)
    ensures a + b <= a + (b + c)
    ensures (a + (b + c))[|a|..] == b + c
  {
  }

  function Zeros(n: nat): (s: seq<byte>)
    ensures |s| == n
    ensures forall i :: 0 <= i < n ==> s[i] == 0
  {
    seq(n, _ => 0)
  }
}
