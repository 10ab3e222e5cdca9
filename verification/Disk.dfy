/** The device's storage as a map from (LUN, sector number) to sector bytes, and byte strings cut into sectors. */
module Disk {
  import opened Bytes

  type Addr = (nat, nat)
  type Storage = map<Addr, seq<byte>>

  predicate InRange(a: Addr, lun: nat, start: nat, count: nat)
  {
    a.0 == lun && start <= a.1 < start + count
  }

  predicate Present(d: Storage, lun: nat, start: nat, count: nat)
  {
    forall s: nat :: start <= s < start + count ==> (lun, s) in d
  }

  /** The storage after a write of whole sectors. */
  function Put(d: Storage, lun: nat, start: nat, sectors: seq<seq<byte>>): (d': Storage)
    ensures d'.Keys == d.Keys
  {
    map a: Addr | a in d :: if InRange(a, lun, start, |sectors|) then sectors[a.1 - start] else d[a]
  }

  function Get(d: Storage, lun: nat, start: nat, count: nat): (sectors: seq<seq<byte>>)
    requires Present(d, lun, start, count)
    ensures |sectors| == count
  {
    seq(count, i requires 0 <= i < count => d[(lun, start + i)])
  }

  /** Outside a range of sectors nothing differs. */
  ghost predicate SameOutside(d: Storage, d': Storage, lun: nat, start: nat, count: nat)
  {
    d'.Keys == d.Keys && forall a: Addr :: a in d && !InRange(a, lun, start, count) ==> d'[a] == d[a]
  }

  lemma PutNothing(d: Storage, lun: nat, start: nat)
    ensures Put(d, lun, start, []) == d
  {
  }

  /** Two adjacent writes are one longer write. */
  lemma PutAdjacent(d: Storage, lun: nat, start: nat, x: seq<seq<byte>>, y: seq<seq<byte>>)
    ensures Put(Put(d, lun, start, x), lun, start + |x|, y) == Put(d, lun, start, x + y)
  {
  }

  lemma PutStaysInside(d: Storage, lun: nat, start: nat, x: seq<seq<byte>>, count: nat)
    requires |x| <= count
    ensures SameOutside(d, Put(d, lun, start, x), lun, start, count)
  {
  }

  /** Of the sectors to be written, exactly some first ones were. */
  ghost predicate WroteFirst(d: Storage, d': Storage, lun: nat, start: nat, sectors: seq<seq<byte>>)
  {
    exists n: nat :: n <= |sectors| && d' == Put(d, lun, start, sectors[..n])
  }

  lemma WroteFirstStaysInside(d: Storage, d': Storage, lun: nat, start: nat, sectors: seq<seq<byte>>, count: nat)
    requires |sectors| <= count && WroteFirst(d, d', lun, start, sectors)
    ensures SameOutside(d, d', lun, start, count)
  {
    hide Put, SameOutside;
    var n: nat :| n <= |sectors| && d' == Put(d, lun, start, sectors[..n]);
    PutStaysInside(d, lun, start, sectors[..n], count);
  }

  lemma NothingWritten(d: Storage, lun: nat, first: nat, sectors: seq<seq<byte>>)
    ensures Put(d, lun, first, []) == d && Present(d, lun, first, 0) && WroteFirst(d, d, lun, first, sectors)
    ensures SameOutside(d, d, lun, first, |sectors|)
  {
    PutNothing(d, lun, first);
    assert sectors[..0] == [];
  }

  /** A longer write, step by step: the part already written and the next part, whether or not the next
      part went through. */
  lemma WriteOneMore(d: Storage, d': Storage, lun: nat, start: nat, x: seq<seq<byte>>, y: seq<seq<byte>>,
      written: nat, all: seq<seq<byte>>)
    requires x + y <= all && written <= |y|
    requires d' == Put(Put(d, lun, start, x), lun, start + |x|, y[..written])
    ensures WroteFirst(d, d', lun, start, all)
    ensures written == |y| ==> d' == Put(d, lun, start, x + y)
    ensures Present(d, lun, start, |x|) && Present(Put(d, lun, start, x), lun, start + |x|, |y|) ==>
              Present(d, lun, start, |x| + |y|)
  {
    PutAdjacent(d, lun, start, x, y);
    PutAdjacent(d, lun, start, x, y[..written]);
    assert all[..|x| + written] == x + y[..written];
  }

  /** A write is read back, and leaves the sectors after it alone. */
  lemma GetAfterPut(d: Storage, lun: nat, start: nat, x: seq<seq<byte>>, count: nat)
    requires Present(d, lun, start, count) && |x| <= count
    ensures Get(Put(d, lun, start, x), lun, start, count) == x + Get(d, lun, start, count)[|x|..]
  {
  }

  // ----- Sectors of a byte string -----

  function DivCeil(a: nat, b: nat): (q: nat)
    requires b > 0
  {
    if a % b == 0 then a / b else a / b + 1
  }

  lemma MulPred(n: nat, m: nat)
    requires n > 0
    ensures n * m == (n - 1) * m + m
  {
  }

  /** Exactly n sectors of ss bytes. */
  function Cut(data: seq<byte>, n: nat, ss: nat): (sectors: seq<seq<byte>>)
    requires |data| == n * ss
    ensures |sectors| == n
  {
    if n == 0 then []
    else
      MulPred(n, ss);
      [data[..ss]] + Cut(data[ss..], n - 1, ss)
  }

  /** The sectors an image occupies, the last one filled up with zeros. */
  function PadCut(data: seq<byte>, ss: nat): (sectors: seq<seq<byte>>)
    requires ss > 0
  {
    if data == [] then []
    else if |data| <= ss then [data + Zeros(ss - |data|)]
    else [data[..ss]] + PadCut(data[ss..], ss)
  }

  /** The next k bytes, filled up with zeros where the data ends early. */
  function TakePad(data: seq<byte>, k: nat): (bytes: seq<byte>)
    ensures |bytes| == k
  {
    data[..Min(k, |data|)] + Zeros(k - Min(k, |data|))
  }

  lemma {:induction false} CutSectorSizes(data: seq<byte>, n: nat, ss: nat)
    requires |data| == n * ss
    ensures forall i :: 0 <= i < n ==> |Cut(data, n, ss)[i]| == ss
  {
    if n > 0 {
      MulPred(n, ss);
      CutSectorSizes(data[ss..], n - 1, ss);
    }
  }

  /** Cutting loses nothing: the sectors put together are the bytes again. */
  lemma {:induction false} FlattenCut(data: seq<byte>, n: nat, ss: nat)
    requires |data| == n * ss
    ensures Flatten(Cut(data, n, ss)) == data
  {
    if n > 0 {
      MulPred(n, ss);
      FlattenCut(data[ss..], n - 1, ss);
      assert Cut(data, n, ss)[1..] == Cut(data[ss..], n - 1, ss);
    }
  }

  /** The image comes back from its sectors, followed by less than one sector of zeros. */
  lemma {:induction false} FlattenPadCut(data: seq<byte>, ss: nat)
    requires ss > 0
    ensures var n := |PadCut(data, ss)|;
            && |data| <= n * ss < |data| + ss
            && Flatten(PadCut(data, ss)) == data + Zeros(n * ss - |data|)
    ensures forall i :: 0 <= i < |PadCut(data, ss)| ==> |PadCut(data, ss)[i]| == ss
  {
    var sectors := PadCut(data, ss);
    if data == [] {
    } else if |data| <= ss {
      assert sectors[1..] == [];
      assert Flatten(sectors) == sectors[0] + [];
    } else {
      FlattenPadCut(data[ss..], ss);
      assert sectors[1..] == PadCut(data[ss..], ss);
      MulPred(|sectors|, ss);
      var z := Zeros(|sectors| * ss - |data|);
      assert data[..ss] + (data[ss..] + z) == data + z;
    }
  }

  lemma {:induction false} PadCutLength(data: seq<byte>, ss: nat)
    requires ss > 0
    ensures |PadCut(data, ss)| == DivCeil(|data|, ss)
  {
    hide PadCut, Flatten;
    FlattenPadCut(data, ss);
    var n := |PadCut(data, ss)|;
    var slack := n * ss - |data|;
    if slack == 0 {
      DivModUnique(|data|, ss, n, 0);
    } else {
      MulPred(n, ss);
      DivModUnique(|data|, ss, n - 1, ss - slack);
    }
  }

  lemma CutCons(head: seq<byte>, tail: seq<byte>, n: nat, ss: nat)
    requires n > 0 && |head| == ss && |tail| == (n - 1) * ss
    ensures |head + tail| == n * ss && Cut(head + tail, n, ss) == [head] + Cut(tail, n - 1, ss)
  {
    MulPred(n, ss);
    assert (head + tail)[..ss] == head && (head + tail)[ss..] == tail;
  }

  lemma TakePadSplit(data: seq<byte>, k: nat, ss: nat)
    requires ss < |data| && ss <= k
    ensures TakePad(data, k) == data[..ss] + TakePad(data[ss..], k - ss)
  {
    var m := Min(k, |data|);
    assert data[..ss] + data[ss..][..m - ss] == data[..m];
  }

  lemma ChunkOfLast(data: seq<byte>, ss: nat)
    requires 0 < |data| <= ss
    ensures PadCut(data, ss) == Cut(TakePad(data, 1 * ss), 1, ss)
    ensures PadCut(data[Min(1 * ss, |data|)..], ss) == []
  {
    assert data[..|data|] == data;
    CutCons(data + Zeros(ss - |data|), [], 1, ss);
    assert data + Zeros(ss - |data|) + [] == data + Zeros(ss - |data|);
  }

  /** The first n sectors of an image are the next n·ss bytes, zero-filled; the rest are the sectors of
      what is left. */
  lemma {:induction false} ChunkOfImage(data: seq<byte>, n: nat, ss: nat)
    requires ss > 0 && n <= |PadCut(data, ss)|
    ensures PadCut(data, ss)[..n] == Cut(TakePad(data, n * ss), n, ss)
    ensures PadCut(data, ss)[n..] == PadCut(data[Min(n * ss, |data|)..], ss)
  {
    if n == 0 {
      assert data[0..] == data;
    } else if |data| <= ss {
      ChunkOfLast(data, ss);
    } else {
      MulPred(n, ss);
      var head, tail := data[..ss], data[ss..];
      ChunkOfImage(tail, n - 1, ss);
      TakePadSplit(data, n * ss, ss);
      CutCons(head, TakePad(tail, (n - 1) * ss), n, ss);
      hide Cut, TakePad;
      assert tail[Min((n - 1) * ss, |tail|)..] == data[Min(n * ss, |data|)..];
    }
  }

  // ----- Chunk sizes -----

  function SectorsPerChunk(maxPayload: nat, ss: nat): (n: nat)
    requires ss > 0
    ensures n > 0
  {
    Max(maxPayload / ss, 1)
  }

  /** A chunk never exceeds the payload size, unless one sector already does. */
  lemma ChunkFits(maxPayload: nat, ss: nat, chunk: nat)
    requires ss > 0 && chunk <= SectorsPerChunk(maxPayload, ss)
    ensures chunk * ss <= Max(maxPayload, ss)
  {
  }

  /** One sector more than a chunk is more than the payload size. */
  lemma ChunkIsFull(maxPayload: nat, ss: nat)
    requires ss > 0
    ensures (SectorsPerChunk(maxPayload, ss) + 1) * ss > Max(maxPayload, ss)
  {
    var n := SectorsPerChunk(maxPayload, ss);
    assert maxPayload == ss * (maxPayload / ss) + maxPayload % ss;
    MulMonotone(ss, maxPayload / ss, n);
    assert (n + 1) * ss == ss * n + ss;
  }

  /** An image no larger than a partition takes no more sectors than the partition has. */
  lemma ImageFits(data: seq<byte>, ss: nat, sectors: nat)
    requires ss > 0 && |data| <= sectors * ss
    ensures |PadCut(data, ss)| <= sectors
  {
    FlattenPadCut(data, ss);
    var n := |PadCut(data, ss)|;
    assert ss * (sectors + 1) == sectors * ss + ss;
    assert ss * n == n * ss;
    LessByProduct(ss, n, sectors + 1);
  }

  // ----- Reading ranges back as bytes -----

  ghost predicate UniformSectors(d: Storage, ss: nat)
  {
    forall a: Addr :: a in d ==> |d[a]| == ss
  }

  lemma PutKeepsSizes(d: Storage, lun: nat, start: nat, sectors: seq<seq<byte>>, ss: nat)
    requires UniformSectors(d, ss) && forall i :: 0 <= i < |sectors| ==> |sectors[i]| == ss
    ensures UniformSectors(Put(d, lun, start, sectors), ss)
  {
  }

  /** The bytes of a range of sectors. */
  function RangeBytes(d: Storage, lun: nat, start: nat, count: nat): (bytes: seq<byte>)
    requires Present(d, lun, start, count)
  {
    Flatten(Get(d, lun, start, count))
  }

  lemma RangeSplit(d: Storage, lun: nat, start: nat, n: nat, m: nat)
    requires Present(d, lun, start, n + m)
    ensures Present(d, lun, start, n) && Present(d, lun, start + n, m)
    ensures RangeBytes(d, lun, start, n + m) == RangeBytes(d, lun, start, n) + RangeBytes(d, lun, start + n, m)
  {
    assert Get(d, lun, start, n + m) == Get(d, lun, start, n) + Get(d, lun, start + n, m);
    FlattenAppend(Get(d, lun, start, n), Get(d, lun, start + n, m));
  }

  lemma {:induction false} FlattenLength(sectors: seq<seq<byte>>, ss: nat)
    requires forall i :: 0 <= i < |sectors| ==> |sectors[i]| == ss
    ensures |Flatten(sectors)| == |sectors| * ss
  {
    if sectors != [] {
      FlattenLength(sectors[1..], ss);
      MulPred(|sectors|, ss);
    }
  }

  lemma RangeLength(d: Storage, lun: nat, start: nat, count: nat, ss: nat)
    requires Present(d, lun, start, count) && UniformSectors(d, ss)
    ensures |RangeBytes(d, lun, start, count)| == count * ss
  {
    FlattenLength(Get(d, lun, start, count), ss);
  }

  /** Dropping whole sectors from a range's bytes is reading from a later sector. */
  lemma RangeDrop(d: Storage, lun: nat, start: nat, skip: nat, count: nat, ss: nat)
    requires Present(d, lun, start, count) && UniformSectors(d, ss) && skip <= count
    ensures skip * ss <= |RangeBytes(d, lun, start, count)|
    ensures Present(d, lun, start + skip, count - skip)
    ensures RangeBytes(d, lun, start, count)[skip * ss..] == RangeBytes(d, lun, start + skip, count - skip)
  {
    RangeSplit(d, lun, start, skip, count - skip);
    RangeLength(d, lun, start, skip, ss);
  }
}
