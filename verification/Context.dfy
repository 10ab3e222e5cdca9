/** Device I/O as jobs see it: sector reads and writes that may fail, and the write-zero erase built on them. */
module Context {
  import opened Bytes
  import opened Disk

  const ZERO_BUF_LEN: nat := 512 * 1024

  datatype Partition = Partition(name: string, lun: nat, firstLba: nat, lastLba: nat)

  /** One `write_sectors` call, as the jobs made it. */
  datatype WriteCall = WriteCall(lun: nat, start: nat, count: nat, bytes: nat)

  datatype Outcome = Done | Failed | Panicked

  predicate WellSized(calls: seq<WriteCall>, ss: nat, limit: nat)
  {
    forall i :: 0 <= i < |calls| ==> calls[i].bytes == calls[i].count * ss <= limit
  }

  predicate WithinRange(calls: seq<WriteCall>, lun: nat, first: nat, count: nat)
  {
    forall i :: 0 <= i < |calls| ==>
      calls[i].lun == lun && first <= calls[i].start && calls[i].start + calls[i].count <= first + count
  }

  /** One sector more in any of these calls would be over the limit. */
  predicate AllFull(calls: seq<WriteCall>, ss: nat, limit: nat)
  {
    forall i :: 0 <= i < |calls| ==> (calls[i].count + 1) * ss > limit
  }

  predicate FullSince(before: seq<WriteCall>, now: seq<WriteCall>, ss: nat, limit: nat)
  {
    before <= now && AllFull(now[|before|..], ss, limit)
  }

  predicate AllButLastFull(calls: seq<WriteCall>, ss: nat, limit: nat)
  {
    calls != [] ==> AllFull(calls[..|calls| - 1], ss, limit)
  }

  /** The calls a job added, and what is true of all of them: they are the right size and in the range, and all
      but the last are as large as they can be. */
  ghost predicate GoodCalls(before: seq<WriteCall>, now: seq<WriteCall>, ss: nat, limit: nat, lun: nat, first: nat,
      count: nat)
  {
    && before <= now
    && WellSized(now[|before|..], ss, limit)
    && WithinRange(now[|before|..], lun, first, count)
    && AllButLastFull(now[|before|..], ss, limit)
  }

  lemma GoodCallsStart(calls: seq<WriteCall>, ss: nat, limit: nat, lun: nat, first: nat, count: nat)
    ensures GoodCalls(calls, calls, ss, limit, lun, first, count) && FullSince(calls, calls, ss, limit)
  {
    assert calls[|calls|..] == [];
  }

  lemma GoodCallsMore(before: seq<WriteCall>, now: seq<WriteCall>, call: WriteCall, ss: nat, limit: nat, lun: nat,
      first: nat, count: nat)
    requires GoodCalls(before, now, ss, limit, lun, first, count)
    requires call.bytes == call.count * ss <= limit
    requires call.lun == lun && first <= call.start && call.start + call.count <= first + count
    requires FullSince(before, now, ss, limit)
    ensures GoodCalls(before, now + [call], ss, limit, lun, first, count)
    ensures (call.count + 1) * ss > limit ==> FullSince(before, now + [call], ss, limit)
  {
    var added := now[|before|..];
    assert (now + [call])[|before|..] == added + [call] && (added + [call])[..|added|] == added;
    OneMoreCall(added, call, ss, limit, lun, first, count);
    hide WellSized, WithinRange, AllFull;
  }

  lemma OneMoreCall(added: seq<WriteCall>, call: WriteCall, ss: nat, limit: nat, lun: nat, first: nat, count: nat)
    ensures WellSized(added, ss, limit) && call.bytes == call.count * ss <= limit ==>
              WellSized(added + [call], ss, limit)
    ensures AllFull(added, ss, limit) && (call.count + 1) * ss > limit ==> AllFull(added + [call], ss, limit)
    ensures WithinRange(added, lun, first, count) && call.lun == lun && first <= call.start &&
            call.start + call.count <= first + count ==>
              WithinRange(added + [call], lun, first, count)
  {
  }

  function FindPartition(parts: seq<Partition>, name: string): (p: Option<Partition>)
    ensures p.Some? ==> p.value in parts && p.value.name == name
  {
    if parts == [] then None
    else if parts[0].name == name then Some(parts[0])
    else FindPartition(parts[1..], name)
  }

  /** The partition found is the first with that name; if none is found, none has it. */
  lemma {:induction false} FindPartitionIsFirst(parts: seq<Partition>, name: string)
    ensures match FindPartition(parts, name)
            case None => forall i :: 0 <= i < |parts| ==> parts[i].name != name
            case Some(p) =>
              exists i :: 0 <= i < |parts| && parts[i] == p && p.name == name &&
                forall k :: 0 <= k < i ==> parts[k].name != name
  {
    if parts != [] && parts[0].name != name {
      FindPartitionIsFirst(parts[1..], name);
      match FindPartition(parts, name)
      case None =>
        assert forall i :: 0 < i < |parts| ==> parts[i] == parts[1..][i - 1];
      case Some(p) =>
        var i :| 0 <= i < |parts[1..]| && parts[1..][i] == p && forall k :: 0 <= k < i ==> parts[1..][k].name != name;
        assert forall k :: 0 < k < i + 1 ==> parts[k] == parts[1..][k - 1];
        assert parts[i + 1] == p;
    }
  }

  class JobContext {
    const sectorSize: nat
    const maxPayload: nat
    const partitions: seq<Partition>
    var disk: Storage
    var calls: seq<WriteCall>
    var refused: nat // how many reads and writes the device has refused

    constructor (sectorSize: nat, maxPayload: nat, partitions: seq<Partition>, disk: Storage)
      ensures this.sectorSize == sectorSize && this.maxPayload == maxPayload
      ensures this.partitions == partitions && this.disk == disk && calls == [] && refused == 0
    {
      this.sectorSize, this.maxPayload, this.partitions := sectorSize, maxPayload, partitions;
      this.disk, calls, refused := disk, [], 0;
    }

    /** A read the device may refuse; it cannot serve sectors it does not have. */
    method ReadSectors(lun: nat, start: nat, count: nat) returns (r: Option<seq<byte>>)
      modifies `refused
      ensures r.Some? ==> Present(disk, lun, start, count) && r.value == RangeBytes(disk, lun, start, count)
      ensures refused == if r.Some? then old(refused) else old(refused) + 1
    {
      var refuse: bool := *;
      if refuse || !Present(disk, lun, start, count) {
        refused := refused + 1;
        return None;
      }
      r := Some(RangeBytes(disk, lun, start, count));
    }

    /** A write the device may refuse; it may fail after any number of its sectors. */
    method WriteSectors(lun: nat, start: nat, count: nat, data: seq<byte>) returns (ok: bool, ghost written: nat)
      requires |data| == count * sectorSize
      modifies this
      ensures calls == old(calls) + [WriteCall(lun, start, count, |data|)]
      ensures refused == if ok then old(refused) else old(refused) + 1
      ensures ok ==> Present(old(disk), lun, start, count)
      ensures written <= count && (ok ==> written == count)
      ensures disk == Put(old(disk), lun, start, Cut(data, count, sectorSize)[..written])
    {
      calls := calls + [WriteCall(lun, start, count, |data|)];
      var sectors := Cut(data, count, sectorSize);
      var refuse: bool := *;
      if refuse || !Present(disk, lun, start, count) {
        refused := refused + 1;
        var k: nat :| k <= count;
        disk := Put(disk, lun, start, sectors[..k]);
        return false, k;
      }
      disk := Put(disk, lun, start, sectors);
      return true, count;
    }

    /** The device's own erase command: it may be refused, may stop anywhere, and what it leaves in the sectors
        it erased is the device's choice. */
    method EraseNative(lun: nat, start: nat, count: nat) returns (ok: bool, ghost left: seq<seq<byte>>)
      modifies `disk, `refused
      ensures refused == if ok then old(refused) else old(refused) + 1
      ensures ok ==> Present(old(disk), lun, start, count)
      ensures |left| <= count && forall i :: 0 <= i < |left| ==> |left[i]| == sectorSize
      ensures disk == Put(old(disk), lun, start, left)
    {
      var contents: seq<seq<byte>> := *;
      if |contents| > count || exists i :: 0 <= i < |contents| && |contents[i]| != sectorSize {
        contents := [];
      }
      left := contents;
      ok := *;
      ok := ok && Present(disk, lun, start, count);
      disk := Put(disk, lun, start, contents);
      refused := if ok then refused else refused + 1;
    }

    /** The default `erase_sectors`: write zeros out of one fixed buffer. Slicing that buffer beyond its
        end panics. */
    method EraseSectors(lun: nat, start: nat, count: nat) returns (r: Outcome)
      requires sectorSize > 0
      modifies this
      ensures r == Panicked <==> ErasePanics(count, maxPayload, sectorSize)
      ensures r == Panicked ==> disk == old(disk) && calls == old(calls)
      ensures (r == Failed <==> refused > old(refused)) && refused >= old(refused)
      ensures r == Done ==> Present(old(disk), lun, start, count)
      ensures r == Done ==> disk == Put(old(disk), lun, start, ZeroSectors(count, sectorSize))
      ensures WroteFirst(old(disk), disk, lun, start, ZeroSectors(count, sectorSize))
      ensures GoodCalls(old(calls), calls, sectorSize, ZERO_BUF_LEN, lun, start, count)
    {
      hide Put, Cut, ZeroSectors, WroteFirst, Present, GoodCalls, FullSince;
      var perChunk := EraseChunk(maxPayload, sectorSize);
      var remaining: nat, sector := count, start;
      ghost var done: nat := 0;
      NothingErased(disk, lun, start, count, sectorSize);
      GoodCallsStart(calls, sectorSize, ZERO_BUF_LEN, lun, start, count);
      while remaining > 0
        invariant done + remaining == count && sector == start + done
        invariant disk == Put(old(disk), lun, start, ZeroSectors(done, sectorSize))
        invariant Present(old(disk), lun, start, done) && refused == old(refused)
        invariant WroteFirst(old(disk), disk, lun, start, ZeroSectors(count, sectorSize))
        invariant done > 0 ==> Min(count, perChunk) * sectorSize <= ZERO_BUF_LEN
        invariant done == 0 ==> disk == old(disk) && calls == old(calls)
        invariant GoodCalls(old(calls), calls, sectorSize, ZERO_BUF_LEN, lun, start, count)
        invariant remaining > 0 ==> FullSince(old(calls), calls, sectorSize, ZERO_BUF_LEN)
      {
        var chunk := Min(remaining, perChunk);
        var writeBytes := chunk * sectorSize;
        MulMonotone(sectorSize, chunk, Min(count, perChunk));
        ChunkIsFull(Max(maxPayload, ZERO_BUF_LEN), sectorSize);
        if writeBytes > ZERO_BUF_LEN {
          return Panicked;
        }
        GoodCallsMore(old(calls), calls, WriteCall(lun, sector, chunk, writeBytes), sectorSize, ZERO_BUF_LEN, lun,
            start, count);
        var ok, written := WriteSectors(lun, sector, chunk, Zeros(writeBytes));
        EraseOneMore(old(disk), disk, lun, start, done, chunk, written, sectorSize, count);
        if !ok {
          return Failed;
        }
        done := done + chunk;
        sector := sector + chunk;
        remaining := remaining - chunk;
      }
      return Done;
    }
  }

  lemma NothingErased(d: Storage, lun: nat, start: nat, count: nat, ss: nat)
    ensures Put(d, lun, start, ZeroSectors(0, ss)) == d && Present(d, lun, start, 0)
    ensures WroteFirst(d, d, lun, start, ZeroSectors(count, ss))
  {
    NothingWritten(d, lun, start, ZeroSectors(count, ss));
    assert ZeroSectors(0, ss) == [];
  }

  lemma EraseOneMore(d: Storage, d': Storage, lun: nat, start: nat, done: nat, chunk: nat, written: nat, ss: nat,
      count: nat)
    requires done + chunk <= count && written <= chunk
    requires d' == Put(Put(d, lun, start, ZeroSectors(done, ss)), lun, start + done,
                       Cut(Zeros(chunk * ss), chunk, ss)[..written])
    ensures WroteFirst(d, d', lun, start, ZeroSectors(count, ss))
    ensures written == chunk ==> d' == Put(d, lun, start, ZeroSectors(done + chunk, ss))
    ensures Present(d, lun, start, done) && Present(Put(d, lun, start, ZeroSectors(done, ss)), lun, start + done,
        chunk) ==>
              Present(d, lun, start, done + chunk)
  {
    CutZeros(chunk, ss);
    WriteOneMore(d, d', lun, start, ZeroSectors(done, ss), ZeroSectors(chunk, ss), written, ZeroSectors(count, ss));
    assert ZeroSectors(done, ss) + ZeroSectors(chunk, ss) == ZeroSectors(done + chunk, ss);
  }

  /** The slice for an erase of so many sectors runs past the buffer: the first chunk, which is as many sectors as the
      payload or the buffer takes, whichever is larger, but at least one, is larger than the buffer. */
  predicate ErasePanics(count: nat, maxPayload: nat, ss: nat)
    requires ss > 0
  {
    Min(count, EraseChunk(maxPayload, ss)) * ss > ZERO_BUF_LEN
  }

  /** In other words: some number of sectors of the range, no more than the payload takes or else just one, is larger
      than 512 KiB. */
  lemma ErasePanicsExactly(count: nat, maxPayload: nat, ss: nat)
    requires ss > 0
    ensures ErasePanics(count, maxPayload, ss) <==>
              exists k: nat :: k <= count && TooManyZeros(k, maxPayload, ss)
  {
    var k := Min(count, EraseChunk(maxPayload, ss));
    if ErasePanics(count, maxPayload, ss) {
      ChunkWithin(k, maxPayload, ss);
      assert TooManyZeros(k, maxPayload, ss);
    }
    if j: nat :| j <= count && TooManyZeros(j, maxPayload, ss) {
      WithinChunk(j, maxPayload, ss);
      MulMonotone(ss, j, k);
    }
  }

  lemma ChunkWithin(k: nat, maxPayload: nat, ss: nat)
    requires ss > 0 && k <= EraseChunk(maxPayload, ss)
    ensures k <= 1 || k * ss <= Max(maxPayload, ZERO_BUF_LEN)
  {
    var most := Max(maxPayload, ZERO_BUF_LEN);
    if k > 1 {
      MulMonotone(ss, k, most / ss);
      assert most == ss * (most / ss) + most % ss;
    }
  }

  lemma WithinChunk(k: nat, maxPayload: nat, ss: nat)
    requires ss > 0 && (k <= 1 || k * ss <= Max(maxPayload, ZERO_BUF_LEN))
    ensures k <= EraseChunk(maxPayload, ss)
  {
    var most := Max(maxPayload, ZERO_BUF_LEN);
    if k > 1 {
      assert most == ss * (most / ss) + most % ss;
      assert ss * (most / ss + 1) == ss * (most / ss) + ss;
      LessByProduct(ss, k, most / ss + 1);
    }
  }

  predicate TooManyZeros(k: nat, maxPayload: nat, ss: nat)
  {
    k * ss > 512 * 1024 && (k == 1 || k * ss <= maxPayload)
  }

  function EraseChunk(maxPayload: nat, ss: nat): (n: nat)
    requires ss > 0
    ensures n > 0
  {
    Max(Max(maxPayload, ZERO_BUF_LEN) / ss, 1)
  }

  function ZeroSectors(n: nat, ss: nat): (sectors: seq<seq<byte>>)
    ensures |sectors| == n
  {
    seq(n, _ => Zeros(ss))
  }

  lemma {:induction false} CutZeros(n: nat, ss: nat)
    ensures Cut(Zeros(n * ss), n, ss) == ZeroSectors(n, ss)
  {
    if n > 0 {
      MulPred(n, ss);
      CutZeros(n - 1, ss);
      assert Zeros(n * ss)[..ss] == Zeros(ss);
      assert Zeros(n * ss)[ss..] == Zeros((n - 1) * ss);
    }
  }

  /** Payloads and sectors no larger than the zero buffer are always safe to erase with. */
  lemma SmallPayloadIsSafe(count: nat, maxPayload: nat, ss: nat)
    requires 0 < ss <= 512 * 1024 && maxPayload <= 512 * 1024
    ensures !ErasePanics(count, maxPayload, ss)
  {
    assert EraseChunk(maxPayload, ss) == SectorsPerChunk(ZERO_BUF_LEN, ss);
    ChunkFits(ZERO_BUF_LEN, ss, Min(count, EraseChunk(maxPayload, ss)));
  }

  /** With 512-byte sectors and a 1 MiB payload, erasing 2048 sectors slices past the buffer. */
  lemma DefaultPayloadPanics()
    ensures ErasePanics(2048, 1024 * 1024, 512)
  {
  }
}
