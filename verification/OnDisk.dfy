/** What is on a disk, address by address: the terms in which the jobs are described to a user. */
module OnDisk {
  import opened Bytes
  import opened Disk
  import opened Context

  // ----- Partitions -----

  /** From the first to the last sector of the partition, both included. */
  predicate Inside(a: Addr, p: Partition)
  {
    a.0 == p.lun && p.firstLba <= a.1 <= p.lastLba
  }

  /** No sector outside the partition differs. */
  ghost predicate OnlyInside(d: Storage, d': Storage, p: Partition)
  {
    d'.Keys == d.Keys && forall a: Addr :: a in d && !Inside(a, p) ==> d'[a] == d[a]
  }

  predicate ZeroSector(sector: seq<byte>, ss: nat)
  {
    |sector| == ss && forall i :: 0 <= i < ss ==> sector[i] == 0
  }

  /** The partition is there, and all of it is zero. */
  ghost predicate Wiped(d: Storage, p: Partition, ss: nat)
  {
    forall s: nat :: p.firstLba <= s <= p.lastLba ==> (p.lun, s) in d && ZeroSector(d[(p.lun, s)], ss)
  }

  /** A file that is the partition: its length, and each sector in its place. */
  ghost predicate IsPartition(d: Storage, p: Partition, file: seq<byte>, ss: nat)
    requires p.firstLba <= p.lastLba
  {
    && |file| == (p.lastLba - p.firstLba + 1) * ss
    && forall s: nat :: p.firstLba <= s <= p.lastLba ==> (p.lun, s) in d && SectorOfFile(d, p, file, s, ss)
  }

  predicate SectorOfFile(d: Storage, p: Partition, file: seq<byte>, s: nat, ss: nat)
    requires (p.lun, s) in d && p.firstLba <= s
  {
    var at := (s - p.firstLba) * ss;
    at + ss <= |file| && file[at..at + ss] == d[(p.lun, s)]
  }

  lemma SameOutsideIsOnlyInside(d: Storage, d': Storage, p: Partition, count: nat)
    requires p.firstLba <= p.lastLba && count == p.lastLba - p.firstLba + 1
    requires SameOutside(d, d', p.lun, p.firstLba, count)
    ensures OnlyInside(d, d', p)
  {
  }

  lemma ErasedIsWiped(d: Storage, p: Partition, count: nat, ss: nat)
    requires p.firstLba <= p.lastLba && count == p.lastLba - p.firstLba + 1
    requires Present(d, p.lun, p.firstLba, count)
    ensures Wiped(Put(d, p.lun, p.firstLba, ZeroSectors(count, ss)), p, ss)
  {
  }

  /** The bytes of a range, sector by sector. */
  lemma RangeAt(d: Storage, lun: nat, start: nat, count: nat, i: nat, ss: nat)
    requires Present(d, lun, start, count) && UniformSectors(d, ss) && i < count
    ensures i * ss + ss <= |RangeBytes(d, lun, start, count)|
    ensures RangeBytes(d, lun, start, count)[i * ss..i * ss + ss] == d[(lun, start + i)]
  {
    RangeDrop(d, lun, start, i, count, ss);
    RangeSplit(d, lun, start + i, 1, count - i - 1);
    var rest, sector := RangeBytes(d, lun, start + i, count - i), d[(lun, start + i)];
    assert Get(d, lun, start + i, 1) == [sector];
    assert Flatten([sector]) == sector + Flatten([]) == sector;
    hide RangeBytes, Get, Flatten;
    assert rest[..ss] == sector;
  }

  lemma RangeIsPartition(d: Storage, p: Partition, count: nat, ss: nat)
    requires p.firstLba <= p.lastLba && count == p.lastLba - p.firstLba + 1
    requires Present(d, p.lun, p.firstLba, count) && UniformSectors(d, ss)
    ensures IsPartition(d, p, RangeBytes(d, p.lun, p.firstLba, count), ss)
  {
    RangeLength(d, p.lun, p.firstLba, count, ss);
    var file := RangeBytes(d, p.lun, p.firstLba, count);
    hide RangeBytes, UniformSectors;
    forall s: nat | p.firstLba <= s <= p.lastLba
      ensures (p.lun, s) in d && SectorOfFile(d, p, file, s, ss)
    {
      RangeAt(d, p.lun, p.firstLba, count, s - p.firstLba, ss);
    }
  }

  // ----- Images -----

  /** One sector of an image, from a byte of it on: the image's bytes, then zeros. */
  predicate SectorOfImage(sector: seq<byte>, image: seq<byte>, at: nat, ss: nat)
  {
    |sector| == ss && forall i :: 0 <= i < ss ==> sector[i] == if at + i < |image| then image[at + i] else 0
  }

  /** Whether a sector is one an image written from `start` on reaches. */
  predicate Reached(a: Addr, lun: nat, start: nat, image: seq<byte>, ss: nat)
  {
    a.0 == lun && start <= a.1 && (a.1 - start) * ss < |image|
  }

  /** After: the sectors an image reaches hold it, with less than a sector of zeros behind it; the others are as
      they were before. */
  ghost predicate ImageWritten(d: Storage, d': Storage, lun: nat, start: nat, image: seq<byte>, ss: nat)
  {
    && d'.Keys == d.Keys
    && forall a: Addr :: a in d ==>
         if Reached(a, lun, start, image, ss) then SectorOfImage(d'[a], image, (a.1 - start) * ss, ss)
         else d'[a] == d[a]
  }

  lemma {:induction false} PadCutAt(image: seq<byte>, ss: nat, i: nat)
    requires ss > 0
    ensures i < |PadCut(image, ss)| <==> i * ss < |image|
    ensures i < |PadCut(image, ss)| ==> SectorOfImage(PadCut(image, ss)[i], image, i * ss, ss)
  {
    if |image| > ss && i > 0 {
      var later := image[ss..];
      PadCutAt(later, ss, i - 1);
      assert i * ss == (i - 1) * ss + ss;
      if i < |PadCut(image, ss)| {
        var sector := PadCut(image, ss)[i];
        assert sector == PadCut(later, ss)[i - 1];
        forall k | 0 <= k < ss
          ensures sector[k] == if i * ss + k < |image| then image[i * ss + k] else 0
        {
          assert i * ss + k < |image| ==> image[i * ss + k] == later[(i - 1) * ss + k];
        }
      }
    } else if i > 0 {
      MulMonotone(ss, 1, i);
      assert ss * i == i * ss;
    }
  }

  /** Writing the padded sectors of an image is writing the image. */
  lemma PutIsImageWritten(d: Storage, lun: nat, start: nat, image: seq<byte>, ss: nat)
    requires ss > 0
    ensures ImageWritten(d, Put(d, lun, start, PadCut(image, ss)), lun, start, image, ss)
  {
    hide PadCut, SectorOfImage;
    forall a: Addr | a in d && a.0 == lun && start <= a.1
      ensures a.1 - start < |PadCut(image, ss)| <==> Reached(a, lun, start, image, ss)
      ensures a.1 - start < |PadCut(image, ss)| ==>
                SectorOfImage(PadCut(image, ss)[a.1 - start], image, (a.1 - start) * ss, ss)
    {
      PadCutAt(image, ss, a.1 - start);
    }
  }

  /** On a disk of whole sectors, what an image leaves is the same whichever way it was written. */
  lemma ImageDecidesDisk(d: Storage, x: Storage, y: Storage, lun: nat, start: nat, image: seq<byte>, ss: nat)
    requires ImageWritten(d, x, lun, start, image, ss) && ImageWritten(d, y, lun, start, image, ss)
    ensures x == y
  {
    forall a: Addr | a in d
      ensures x[a] == y[a]
    {
      if Reached(a, lun, start, image, ss) {
        assert x[a] == y[a];
      }
    }
  }
}
