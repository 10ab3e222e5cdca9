/** The write, dump and erase jobs, over a device and files that may fail or deliver short reads. */
module Jobs {
  import opened Bytes
  import opened Disk
  import opened Context
  import opened OnDisk
  import Sparse

  // ----- Files -----

  /** The image files, and how many reads of them have failed. */
  class FileStore {
    const contents: map<string, seq<byte>>
    var errors: nat

    constructor (contents: map<string, seq<byte>>)
      ensures this.contents == contents && errors == 0
    {
      this.contents, errors := contents, 0;
    }

    /** One read of four bytes into a zeroed buffer: it may stop short, and what it did not reach stays zero. */
    method Sniff(path: string) returns (magic: Option<seq<byte>>, ghost n: nat)
      requires path in contents
      modifies this
      ensures errors == if magic.Some? then old(errors) else old(errors) + 1
      ensures n <= Min(4, |contents[path]|) && (magic.Some? ==> (n == 0 <==> contents[path] == []))
      ensures magic.Some? ==> magic.value == contents[path][..n] + Zeros(4 - n)
    {
      var fail: bool := *;
      if fail {
        errors := errors + 1;
        return None, 0;
      }
      var content := contents[path];
      var limit := Min(4, |content|);
      var k :| 0 <= k <= limit && (k == 0 <==> limit == 0);
      return Some(content[..k] + Zeros(4 - k)), k;
    }

    method ReadAll(path: string) returns (data: Option<seq<byte>>)
      requires path in contents
      modifies this
      ensures errors == if data.Some? then old(errors) else old(errors) + 1
      ensures data.Some? ==> data.value == contents[path]
    {
      var fail: bool := *;
      if fail {
        errors := errors + 1;
        return None;
      }
      return Some(contents[path]);
    }
  }

  /** A streaming file reader; how much each read returns is not the caller's choice. */
  class ChunkedReader {
    const store: FileStore
    const content: seq<byte>
    const chunkSize: nat
    var pos: nat

    ghost predicate Valid()
      reads this
    {
      pos <= |content|
    }

    constructor (store: FileStore, name: string, chunkSize: nat)
      requires name in store.contents
      ensures Valid() && pos == 0 && this.store == store
      ensures content == store.contents[name] && this.chunkSize == chunkSize
    {
      this.store, content, this.chunkSize := store, store.contents[name], chunkSize;
      pos := 0;
    }

    method ReadChunk(buf: array<byte>, lo: nat, hi: nat) returns (r: Option<nat>)
      requires Valid() && lo <= hi <= buf.Length
      modifies this, buf, store
      ensures Valid()
      ensures store.errors == if r.Some? then old(store.errors) else old(store.errors) + 1
      ensures r.Some? ==> pos == old(pos) + r.value && lo + r.value <= hi
      ensures r.Some? ==> buf[lo..lo + r.value] == content[old(pos)..pos]
      ensures r.Some? ==> buf[..lo] == old(buf[..lo])
      ensures r.Some? ==> (r.value == 0 <==> lo == hi || chunkSize == 0 || old(pos) == |content|)
    {
      var fail: bool := *;
      if fail {
        store.errors := store.errors + 1;
        return None;
      }
      var limit := Min(Min(hi - lo, chunkSize), |content| - pos);
      var n :| 0 <= n <= limit && (n == 0 <==> limit == 0);
      forall i | 0 <= i < n {
        buf[lo + i] := content[pos + i];
      }
      pos := pos + n;
      r := Some(n);
    }

    /** Fill the buffer's first `count` bytes: short reads are repeated, an early end is zero-filled. */
    method FillChunk(buf: array<byte>, count: nat) returns (ok: bool)
      requires Valid() && count <= buf.Length && chunkSize > 0
      modifies this, buf, store
      ensures Valid()
      ensures store.errors == if ok then old(store.errors) else old(store.errors) + 1
      ensures ok ==> buf[..count] == TakePad(content[old(pos)..], count)
      ensures ok ==> content[pos..] == content[old(pos)..][Min(count, |content| - old(pos))..]
    {
      var dataRead := 0;
      while dataRead < count
        invariant dataRead <= count && Valid() && pos == old(pos) + dataRead
        invariant buf[..dataRead] == content[old(pos)..pos] && store.errors == old(store.errors)
        decreases count - dataRead
      {
        ghost var before, at := buf[..dataRead], pos;
        var n := ReadChunk(buf, dataRead, count);
        if n.None? {
          return false;
        }
        if n.value == 0 {
          break;
        }
        assert buf[..dataRead + n.value] == before + buf[dataRead..dataRead + n.value];
        assert content[old(pos)..at] + content[at..pos] == content[old(pos)..pos];
        dataRead := dataRead + n.value;
      }
      assert dataRead == Min(count, |content| - old(pos));
      ghost var data := buf[..dataRead];
      forall i | dataRead <= i < count {
        buf[i] := 0;
      }
      assert buf[..dataRead] == data;
      assert buf[..count] == buf[..dataRead] + Zeros(count - dataRead);
      assert data == content[old(pos)..][..dataRead];
      return true;
    }
  }

  /** The file a dump appends to; a write to it may fail. */
  class OutputFile {
    var content: Option<seq<byte>>
    var errors: nat

    constructor (content: Option<seq<byte>>)
      ensures this.content == content && errors == 0
    {
      this.content, errors := content, 0;
    }

    method Append(data: seq<byte>) returns (ok: bool)
      requires content.Some?
      modifies this
      ensures errors == if ok then old(errors) else old(errors) + 1
      ensures ok ==> content == Some(old(content).value + data)
      ensures content.Some?
    {
      var fail: bool := *;
      if fail {
        errors := errors + 1;
        return false;
      }
      content := Some(content.value + data);
      return true;
    }
  }

  // ----- Writing an image -----

  lemma WriteChunk(d: Storage, lun: nat, first: nat, done: seq<seq<byte>>, rest: seq<byte>, n: nat, ss: nat)
    requires ss > 0 && n <= |PadCut(rest, ss)|
    ensures var chunk := Cut(TakePad(rest, n * ss), n, ss);
            var left := PadCut(rest[Min(n * ss, |rest|)..], ss);
            done + PadCut(rest, ss) == done + chunk + left
  {
    ChunkOfImage(rest, n, ss);
  }

  /** The streaming write loop. */
  method StreamImage(ctx: JobContext, reader: ChunkedReader, lun: nat, first: nat) returns (ok: bool)
    requires ctx.sectorSize > 0 && reader.pos == 0 && reader.chunkSize == Max(ctx.maxPayload, ctx.sectorSize)
    modifies ctx, reader, reader.store
    ensures ctx.refused >= old(ctx.refused) && reader.store.errors >= old(reader.store.errors)
    ensures ok <==> ctx.refused == old(ctx.refused) && reader.store.errors == old(reader.store.errors)
    ensures var sectors := PadCut(reader.content, ctx.sectorSize);
            && (ok ==> ctx.disk == Put(old(ctx.disk), lun, first, sectors))
            && (ok ==> Present(old(ctx.disk), lun, first, |sectors|))
            && WroteFirst(old(ctx.disk), ctx.disk, lun, first, sectors)
            && GoodCalls(old(ctx.calls), ctx.calls, ctx.sectorSize, Max(ctx.maxPayload, ctx.sectorSize), lun, first,
                |sectors|)
  {
    hide Put, PadCut, WroteFirst, Present, GoodCalls, FullSince, TakePad, Cut;
    var ss := ctx.sectorSize;
    var numSectors := DivCeil(|reader.content|, ss);
    PadCutLength(reader.content, ss);
    var perChunk := SectorsPerChunk(ctx.maxPayload, ss);
    var buffer := new byte[reader.chunkSize](_ => 0);
    var written: nat, remaining: nat := 0, numSectors;
    ghost var sectors, done := PadCut(reader.content, ss), [];
    ghost var limit := Max(ctx.maxPayload, ss);
    assert reader.content[0..] == reader.content;
    assert [] + sectors == sectors;
    NothingWritten(ctx.disk, lun, first, sectors);
    GoodCallsStart(ctx.calls, ss, limit, lun, first, |sectors|);
    while remaining > 0
      invariant ctx.refused == old(ctx.refused) && reader.store.errors == old(reader.store.errors)
      invariant reader.Valid() && |done| == written && written + remaining == |sectors|
      invariant done + PadCut(reader.content[reader.pos..], ss) == sectors
      invariant ctx.disk == Put(old(ctx.disk), lun, first, done)
      invariant Present(old(ctx.disk), lun, first, |done|)
      invariant WroteFirst(old(ctx.disk), ctx.disk, lun, first, sectors)
      invariant GoodCalls(old(ctx.calls), ctx.calls, ss, limit, lun, first, |sectors|)
      invariant remaining > 0 ==> FullSince(old(ctx.calls), ctx.calls, ss, limit)
    {
      var chunk := Min(remaining, perChunk);
      var chunkBytes := chunk * ss;
      ChunkFits(ctx.maxPayload, ss, chunk);
      ChunkIsFull(ctx.maxPayload, ss);
      ghost var rest := reader.content[reader.pos..];
      var filled := reader.FillChunk(buffer, chunkBytes);
      if !filled {
        return false;
      }
      ghost var next := Cut(TakePad(rest, chunkBytes), chunk, ss);
      WriteChunk(ctx.disk, lun, first, done, rest, chunk, ss);
      GoodCallsMore(old(ctx.calls), ctx.calls, WriteCall(lun, first + written, chunk, chunkBytes), ss, limit, lun,
          first, |sectors|);
      ghost var through;
      ok, through := ctx.WriteSectors(lun, first + written, chunk, buffer[..chunkBytes]);
      WriteOneMore(old(ctx.disk), ctx.disk, lun, first, done, next, through, sectors);
      if !ok {
        return false;
      }
      done := done + next;
      written := written + chunk;
      remaining := remaining - chunk;
    }
    assert done == sectors by {
      assert sectors[..|done|] == done;
    }
    return true;
  }

  lemma PadCutTight(data: seq<byte>, ss: nat)
    requires ss > 0
    ensures |PadCut(data, ss)| * ss < |data| + ss
  {
    FlattenPadCut(data, ss);
  }

  lemma NextSlice(data: seq<byte>, written: nat, chunk: nat, ss: nat)
    requires written * ss <= |data|
    ensures var start, bytes := written * ss, chunk * ss;
            var end := Min(start + bytes, |data|);
            && data[start..end] + Zeros(bytes - (end - start)) == TakePad(data[start..], bytes)
            && data[start..][Min(bytes, |data| - start)..] == data[Min((written + chunk) * ss, |data|)..]
  {
    assert (written + chunk) * ss == written * ss + chunk * ss;
    var start, bytes := written * ss, chunk * ss;
    assert data[start..][..Min(bytes, |data| - start)] == data[start..Min(start + bytes, |data|)];
  }

  /** A sector that is still to be written starts inside the data. */
  lemma StartsInside(len: nat, written: nat, sectors: nat, ss: nat)
    requires written < sectors && sectors * ss < len + ss
    ensures written * ss < len
  {
    MulMonotone(ss, written + 1, sectors);
    assert ss * (written + 1) == written * ss + ss;
    assert ss * sectors == sectors * ss;
  }

  /** The sectors still to be written of an image of which some were. */
  ghost function SectorsFrom(data: seq<byte>, written: nat, ss: nat): (sectors: seq<seq<byte>>)
    requires ss > 0
  {
    PadCut(data[Min(written * ss, |data|)..], ss)
  }

  lemma AllSectors(data: seq<byte>, ss: nat)
    requires ss > 0
    ensures SectorsFrom(data, 0, ss) == PadCut(data, ss)
  {
    assert data[0..] == data;
  }

  /** The slice for the next chunk, zero-filled, holds exactly the next sectors. */
  lemma NextExpanded(data: seq<byte>, done: seq<seq<byte>>, chunk: nat, ss: nat)
    requires ss > 0 && done + SectorsFrom(data, |done|, ss) == PadCut(data, ss)
    requires 0 < chunk && |done| + chunk <= |PadCut(data, ss)|
    ensures var start, bytes := |done| * ss, chunk * ss;
            var end := Min(start + bytes, |data|);
            && start <= end <= start + bytes
            && var buffer := data[start..end] + Zeros(bytes - (end - start));
               done + Cut(buffer, chunk, ss) + SectorsFrom(data, |done| + chunk, ss) == PadCut(data, ss)
  {
    hide PadCut, Cut, TakePad;
    PadCutTight(data, ss);
    StartsInside(|data|, |done|, |PadCut(data, ss)|, ss);
    NextSlice(data, |done|, chunk, ss);
    ChunkOfImage(data[|done| * ss..], chunk, ss);
  }

  /** The write loop of an expanded sparse image, out of one contiguous buffer. */
  method WriteExpanded(ctx: JobContext, data: seq<byte>, lun: nat, first: nat) returns (ok: bool)
    requires ctx.sectorSize > 0
    modifies ctx
    ensures ctx.refused >= old(ctx.refused) && (ok <==> ctx.refused == old(ctx.refused))
    ensures var sectors := PadCut(data, ctx.sectorSize);
            && (ok ==> ctx.disk == Put(old(ctx.disk), lun, first, sectors))
            && (ok ==> Present(old(ctx.disk), lun, first, |sectors|))
            && WroteFirst(old(ctx.disk), ctx.disk, lun, first, sectors)
            && GoodCalls(old(ctx.calls), ctx.calls, ctx.sectorSize, Max(ctx.maxPayload, ctx.sectorSize), lun, first,
                |sectors|)
  {
    hide Put, PadCut, WroteFirst, Present, GoodCalls, FullSince, TakePad, Cut, DivCeil, SectorsFrom;
    var ss := ctx.sectorSize;
    var numSectors := DivCeil(|data|, ss);
    PadCutLength(data, ss);
    AllSectors(data, ss);
    var perChunk := SectorsPerChunk(ctx.maxPayload, ss);
    var written: nat, remaining: nat := 0, numSectors;
    ghost var sectors, done := PadCut(data, ss), [];
    ghost var limit := Max(ctx.maxPayload, ss);
    assert [] + sectors == sectors;
    NothingWritten(ctx.disk, lun, first, sectors);
    GoodCallsStart(ctx.calls, ss, limit, lun, first, |sectors|);
    while remaining > 0
      invariant |done| == written && written + remaining == |sectors| && ctx.refused == old(ctx.refused)
      invariant done + SectorsFrom(data, written, ss) == sectors
      invariant ctx.disk == Put(old(ctx.disk), lun, first, done)
      invariant Present(old(ctx.disk), lun, first, |done|)
      invariant WroteFirst(old(ctx.disk), ctx.disk, lun, first, sectors)
      invariant GoodCalls(old(ctx.calls), ctx.calls, ss, limit, lun, first, |sectors|)
      invariant remaining > 0 ==> FullSince(old(ctx.calls), ctx.calls, ss, limit)
    {
      var chunk := Min(remaining, perChunk);
      var chunkBytes := chunk * ss;
      ChunkFits(ctx.maxPayload, ss, chunk);
      ChunkIsFull(ctx.maxPayload, ss);
      var start := written * ss;
      NextExpanded(data, done, chunk, ss);
      var end := Min(start + chunkBytes, |data|);
      var chunkBuffer := data[start..end];
      chunkBuffer := chunkBuffer + Zeros(chunkBytes - |chunkBuffer|);
      ghost var next := Cut(chunkBuffer, chunk, ss);
      GoodCallsMore(old(ctx.calls), ctx.calls, WriteCall(lun, first + written, chunk, chunkBytes), ss, limit, lun,
          first, |sectors|);
      ghost var through;
      ok, through := ctx.WriteSectors(lun, first + written, chunk, chunkBuffer);
      WriteOneMore(old(ctx.disk), ctx.disk, lun, first, done, next, through, sectors);
      if !ok {
        return false;
      }
      done := done + next;
      written := written + chunk;
      remaining := remaining - chunk;
    }
    assert done == sectors by {
      assert sectors[..|done|] == done;
    }
    return true;
  }

  // ----- The jobs -----

  datatype Status = Success | NotFound | TooLarge | BadImage | IoFailed | Panic | Hang

  predicate Ordered(parts: seq<Partition>)
  {
    forall p :: p in parts ==> p.firstLba <= p.lastLba
  }

  function SectorCount(p: Partition): (n: nat)
    requires p.firstLba <= p.lastLba
  {
    p.lastLba - p.firstLba + 1
  }

  const WRITE_JOB_SPARSE_MAGIC: seq<byte> := [0xED, 0x26, 0xFF, 0x36]

  /** The magic the write job looks for is not the one a sparse image starts with, so every image it
      takes for sparse is rejected by the expansion. */
  lemma WriteJobMagicIsNeverSparse(image: seq<byte>)
    requires TakenForSparse(image)
    ensures Sparse.Expand(image) == Sparse.Malformed
  {
  }

  predicate TakenForSparse(image: seq<byte>)
  {
    |image| >= 4 && image[..4] == [0xED, 0x26, 0xFF, 0x36]
  }

  /** What the job makes of the buffer it sniffed: a short read never looks sparse. */
  lemma SniffedMagic(image: seq<byte>, n: nat)
    requires n <= Min(4, |image|)
    ensures image[..n] + Zeros(4 - n) == WRITE_JOB_SPARSE_MAGIC <==> n == 4 && TakenForSparse(image)
  {
    var buffer := image[..n] + Zeros(4 - n);
    assert n < 4 ==> buffer[3] == 0;
  }

  /** `WriteJob` on the image file `path`; `sniffed` bytes of it were read to look for the magic. */
  method ExecuteWrite(ctx: JobContext, name: string, store: FileStore, path: string)
    returns (r: Status, ghost sniffed: nat)
    requires ctx.sectorSize > 0 && Ordered(ctx.partitions)
    modifies ctx, store
    ensures var found := FindPartition(ctx.partitions, name);
            if found.None? then r == NotFound && ctx.disk == old(ctx.disk)
            else if path !in store.contents then r == IoFailed && ctx.disk == old(ctx.disk)
            else
              var p, image, ss := found.value, store.contents[path], ctx.sectorSize;
              var sparse := sniffed == 4 && TakenForSparse(image);
              && (r == IoFailed <==> ctx.refused > old(ctx.refused) || store.errors > old(store.errors))
              && (r == BadImage <==> r != IoFailed && sparse)
              && (r == TooLarge <==> r != IoFailed && !sparse && |image| > (p.lastLba - p.firstLba + 1) * ss)
              && r in {Success, BadImage, TooLarge, IoFailed}
              && sniffed <= 4
              && (r == Success ==> ctx.disk == Put(old(ctx.disk), p.lun, p.firstLba, PadCut(image, ss)))
              && (r == Success ==> ImageWritten(old(ctx.disk), ctx.disk, p.lun, p.firstLba, image, ss))
              && (r in {TooLarge, BadImage} ==> ctx.disk == old(ctx.disk))
              && WroteFirst(old(ctx.disk), ctx.disk, p.lun, p.firstLba, PadCut(image, ss))
              && OnlyInside(old(ctx.disk), ctx.disk, p)
              && GoodCalls(old(ctx.calls), ctx.calls, ss, Max(ctx.maxPayload, ss), p.lun, p.firstLba,
                           p.lastLba - p.firstLba + 1)
  {
    hide SameOutside, OnlyInside, ImageWritten, WroteFirst, GoodCalls;
    sniffed := 0;
    var found := FindPartition(ctx.partitions, name);
    if found.None? {
      return NotFound, sniffed;
    }
    if path !in store.contents {
      return IoFailed, sniffed;
    }
    var p, ss := found.value, ctx.sectorSize;
    ghost var image := store.contents[path];
    NothingWritten(ctx.disk, p.lun, p.firstLba, PadCut(image, ss));
    PutStaysInside(ctx.disk, p.lun, p.firstLba, [], SectorCount(p));
    SameOutsideIsOnlyInside(ctx.disk, ctx.disk, p, SectorCount(p));
    PutIsImageWritten(ctx.disk, p.lun, p.firstLba, image, ss);
    GoodCallsStart(ctx.calls, ss, Max(ctx.maxPayload, ss), p.lun, p.firstLba, SectorCount(p));
    var magic;
    magic, sniffed := store.Sniff(path);
    if magic.None? {
      return IoFailed, sniffed;
    }
    SniffedMagic(image, sniffed);
    if magic.value == WRITE_JOB_SPARSE_MAGIC {
      var data := store.ReadAll(path);
      if data.None? {
        return IoFailed, sniffed;
      }
      WriteJobMagicIsNeverSparse(image);
      var e := Sparse.ExpandToVec(data.value);
      assert e == Sparse.Malformed;
      return BadImage, sniffed;
    }
    var reader := new ChunkedReader(store, path, Max(ctx.maxPayload, ss));
    if |reader.content| > SectorCount(p) * ss {
      return TooLarge, sniffed;
    }
    ImageFits(image, ss, SectorCount(p));
    var ok := StreamImage(ctx, reader, p.lun, p.firstLba);
    WroteFirstStaysInside(old(ctx.disk), ctx.disk, p.lun, p.firstLba, PadCut(image, ss), SectorCount(p));
    SameOutsideIsOnlyInside(old(ctx.disk), ctx.disk, p, SectorCount(p));
    Widen(old(ctx.calls), ctx.calls, ss, Max(ctx.maxPayload, ss), p.lun, p.firstLba, |PadCut(image, ss)|,
          SectorCount(p));
    r := if ok then Success else IoFailed;
  }

  /** What holds for a range holds for a wider one. */
  lemma Widen(before: seq<WriteCall>, now: seq<WriteCall>, ss: nat, limit: nat, lun: nat, first: nat, n: nat, m: nat)
    requires n <= m && GoodCalls(before, now, ss, limit, lun, first, n)
    ensures GoodCalls(before, now, ss, limit, lun, first, m)
  {
  }

  /** `EraseJob`, by writing zeros or by the device's own erase. */
  method ExecuteErase(ctx: JobContext, name: string, native: bool) returns (r: Status)
    requires ctx.sectorSize > 0 && Ordered(ctx.partitions)
    modifies ctx
    ensures var found := FindPartition(ctx.partitions, name);
            if found.None? then r == NotFound && ctx.disk == old(ctx.disk)
            else
              var p := found.value;
              && (r == Success && !native ==> Wiped(ctx.disk, p, ctx.sectorSize))
              && (r == Success ==> Present(old(ctx.disk), p.lun, p.firstLba, p.lastLba - p.firstLba + 1))
              && (r == Panic <==>
                    && !native
                    && ErasePanics(p.lastLba - p.firstLba + 1, ctx.maxPayload, ctx.sectorSize))
              && (r == IoFailed <==> ctx.refused > old(ctx.refused))
              && r in {Success, Panic, IoFailed}
              && (r == Panic ==> ctx.disk == old(ctx.disk))
              && (!native ==> WroteFirst(old(ctx.disk), ctx.disk, p.lun, p.firstLba,
                                         ZeroSectors(p.lastLba - p.firstLba + 1, ctx.sectorSize)))
              && OnlyInside(old(ctx.disk), ctx.disk, p)
  {
    hide SameOutside, OnlyInside, Wiped, WroteFirst, Present, Put, UniformSectors;
    var found := FindPartition(ctx.partitions, name);
    if found.None? {
      return NotFound;
    }
    var p := found.value;
    if native {
      ghost var before := ctx.disk;
      var ok, left := ctx.EraseNative(p.lun, p.firstLba, SectorCount(p));
      PutStaysInside(before, p.lun, p.firstLba, left, SectorCount(p));
      SameOutsideIsOnlyInside(before, ctx.disk, p, SectorCount(p));
      return if ok then Success else IoFailed;
    }
    var outcome := ctx.EraseSectors(p.lun, p.firstLba, SectorCount(p));
    WroteFirstStaysInside(old(ctx.disk), ctx.disk, p.lun, p.firstLba, ZeroSectors(SectorCount(p), ctx.sectorSize),
                          SectorCount(p));
    SameOutsideIsOnlyInside(old(ctx.disk), ctx.disk, p, SectorCount(p));
    if outcome == Done {
      ErasedIsWiped(old(ctx.disk), p, SectorCount(p), ctx.sectorSize);
    }
    r := match outcome case Done => Success case Failed => IoFailed case Panicked => Panic;
  }

  // ----- Dumping -----

  /** The file a successful dump leaves, from the file that was there and the partition's bytes. */
  function DumpedFile(existing: Option<seq<byte>>, resume: bool, part: seq<byte>, ss: nat): (file: seq<byte>)
    requires ss > 0
  {
    if !resume || existing.None? || existing.value == [] then part
    else
      var f := existing.value;
      if |f| >= |part| then f
      else
        MulMonotone(ss, 0, |f| / ss);
        assert |f| / ss * ss <= |f|;
        f + part[|f| / ss * ss..]
  }

  predicate FirstSectors(d: Storage, p: Partition, f: seq<byte>, k: nat)
    requires p.firstLba <= p.lastLba
  {
    k <= SectorCount(p) && Present(d, p.lun, p.firstLba, k) && f == RangeBytes(d, p.lun, p.firstLba, k)
  }

  /** The file is a whole number of the partition's own first sectors. */
  ghost predicate DumpedSoFar(d: Storage, p: Partition, file: Option<seq<byte>>)
    requires p.firstLba <= p.lastLba
  {
    file.Some? && exists k: nat :: FirstSectors(d, p, file.value, k)
  }

  /** A dump that starts a new file, or goes on with such a file. */
  ghost predicate StartsWell(d: Storage, p: Partition, file: Option<seq<byte>>, resume: bool)
    requires p.firstLba <= p.lastLba
  {
    resume && file.Some? ==> DumpedSoFar(d, p, file)
  }

  /** `DumpJob`. Besides what a success leaves: however often the device refuses, as long as the file itself
      takes the writes, a dump that starts afresh or from such a file leaves a whole number of the
      partition's first sectors, so that resuming it stays possible. */
  method ExecuteDump(ctx: JobContext, name: string, file: OutputFile, resume: bool) returns (r: Status)
    requires ctx.sectorSize > 0 && Ordered(ctx.partitions) && UniformSectors(ctx.disk, ctx.sectorSize)
    modifies file, ctx`refused
    ensures var found := FindPartition(ctx.partitions, name);
            if found.None? then r == NotFound && file.content == old(file.content)
            else
              var p := found.value;
              && (r == IoFailed <==> ctx.refused > old(ctx.refused) || file.errors > old(file.errors))
              && r in {Success, IoFailed}
              && (r == Success && Present(ctx.disk, p.lun, p.firstLba, SectorCount(p)) ==>
                    file.content == Some(DumpedFile(old(file.content), resume,
                                                    RangeBytes(ctx.disk, p.lun, p.firstLba, SectorCount(p)),
                                                    ctx.sectorSize)))
              && (r == Success && (!resume || old(file.content) in {None, Some([])}) ==>
                    file.content.Some? && IsPartition(ctx.disk, p, file.content.value, ctx.sectorSize))
              && (file.errors == old(file.errors) && StartsWell(ctx.disk, p, old(file.content), resume) ==>
                    DumpedSoFar(ctx.disk, p, file.content))
  {
    var found := FindPartition(ctx.partitions, name);
    if found.None? {
      return NotFound;
    }
    r := DumpPartition(ctx, found.value, file, resume);
  }

  method DumpPartition(ctx: JobContext, p: Partition, file: OutputFile, resume: bool) returns (r: Status)
    requires ctx.sectorSize > 0 && p.firstLba <= p.lastLba && UniformSectors(ctx.disk, ctx.sectorSize)
    modifies file, ctx`refused
    ensures r == IoFailed <==> ctx.refused > old(ctx.refused) || file.errors > old(file.errors)
    ensures r in {Success, IoFailed}
    ensures r == Success && Present(ctx.disk, p.lun, p.firstLba, SectorCount(p)) ==>
              file.content == Some(DumpedFile(old(file.content), resume,
                                              RangeBytes(ctx.disk, p.lun, p.firstLba, SectorCount(p)), ctx.sectorSize))
    ensures r == Success && (!resume || old(file.content) in {None, Some([])}) ==>
              file.content.Some? && IsPartition(ctx.disk, p, file.content.value, ctx.sectorSize)
    ensures file.errors == old(file.errors) && StartsWell(ctx.disk, p, old(file.content), resume) ==>
              DumpedSoFar(ctx.disk, p, file.content)
  {
    hide Present, UniformSectors, RangeBytes, DumpedFile, DumpedSoFar, IsPartition;
    var ss, total := ctx.sectorSize, SectorCount(p);
    var totalBytes := total * ss;
    var skip := 0;
    if resume && file.content.Some? {
      var fileSize := |file.content.value|;
      if fileSize > 0 && fileSize < totalBytes {
        skip := fileSize / ss;
      } else if fileSize >= totalBytes {
        ResumeFull(ctx.disk, p, file.content.value, ss);
        return Success;
      }
    }
    ResumeSkip(ctx.disk, p, file.content, resume, skip, ss);
    if !resume || file.content.None? {
      file.content := Some([]);
    }
    ghost var base := file.content.value;
    var ok, done := DumpRange(ctx, file, p.lun, p.firstLba + skip, total - skip);
    if file.errors == old(file.errors) && StartsWell(ctx.disk, p, old(file.content), resume) {
      NothingDumped(ctx.disk, p);
      DumpGrows(ctx.disk, p, base, skip, done, ss);
    }
    if ok && base == [] {
      RangeIsPartition(ctx.disk, p, total, ss);
      assert [] + RangeBytes(ctx.disk, p.lun, p.firstLba, total) == RangeBytes(ctx.disk, p.lun, p.firstLba, total);
    }
    r := if ok then Success else IoFailed;
  }

  lemma ResumeFull(d: Storage, p: Partition, f: seq<byte>, ss: nat)
    requires ss > 0 && p.firstLba <= p.lastLba && UniformSectors(d, ss) && |f| >= SectorCount(p) * ss
    ensures SectorCount(p) * ss > 0
    ensures Present(d, p.lun, p.firstLba, SectorCount(p)) ==>
              DumpedFile(Some(f), true, RangeBytes(d, p.lun, p.firstLba, SectorCount(p)), ss) == f
  {
    MulMonotone(ss, 1, SectorCount(p));
    if Present(d, p.lun, p.firstLba, SectorCount(p)) {
      RangeLength(d, p.lun, p.firstLba, SectorCount(p), ss);
    }
  }

  /** The bytes a dump goes on from: what the file already holds, if it is kept. */
  function Kept(existing: Option<seq<byte>>, resume: bool): (f: seq<byte>)
  {
    if resume && existing.Some? then existing.value else []
  }

  lemma WholeSectorsOf(f: nat, n: nat, ss: nat)
    requires ss > 0 && (f < n * ss || f == 0)
    ensures f / ss * ss <= f && f / ss <= n
  {
    assert f == ss * (f / ss) + f % ss;
    assert ss * (f / ss) == f / ss * ss && ss * n == n * ss;
    if f > 0 {
      LessByProduct(ss, f / ss, n);
    }
  }

  lemma DumpedFrom(existing: Option<seq<byte>>, resume: bool, part: seq<byte>, skip: nat, ss: nat)
    requires ss > 0 && skip == |Kept(existing, resume)| / ss && skip * ss <= |part|
    requires |Kept(existing, resume)| < |part| || Kept(existing, resume) == []
    ensures DumpedFile(existing, resume, part, ss) == Kept(existing, resume) + part[skip * ss..]
  {
    if Kept(existing, resume) == [] {
      assert skip == 0 && skip * ss == 0;
      assert [] + part[0..] == part;
    }
  }

  /** Where a dump starts, and that what it appends from there completes the dumped file. */
  lemma ResumeSkip(d: Storage, p: Partition, existing: Option<seq<byte>>, resume: bool, skip: nat, ss: nat)
    requires ss > 0 && p.firstLba <= p.lastLba && UniformSectors(d, ss)
    requires |Kept(existing, resume)| < SectorCount(p) * ss || Kept(existing, resume) == []
    requires skip == |Kept(existing, resume)| / ss
    ensures skip <= SectorCount(p)
    ensures var n := SectorCount(p);
            Present(d, p.lun, p.firstLba, n) ==>
              && Present(d, p.lun, p.firstLba + skip, n - skip)
              && DumpedFile(existing, resume, RangeBytes(d, p.lun, p.firstLba, n), ss) ==
                 Kept(existing, resume) + RangeBytes(d, p.lun, p.firstLba + skip, n - skip)
  {
    hide Present, UniformSectors, RangeBytes, DumpedFile, Kept;
    var n := SectorCount(p);
    WholeSectorsOf(|Kept(existing, resume)|, n, ss);
    if Present(d, p.lun, p.firstLba, n) {
      RangeLength(d, p.lun, p.firstLba, n, ss);
      RangeDrop(d, p.lun, p.firstLba, skip, n, ss);
      DumpedFrom(existing, resume, RangeBytes(d, p.lun, p.firstLba, n), skip, ss);
    }
  }

  lemma NothingDumped(d: Storage, p: Partition)
    requires p.firstLba <= p.lastLba
    ensures DumpedSoFar(d, p, Some([]))
  {
    assert Get(d, p.lun, p.firstLba, 0) == [];
    assert FirstSectors(d, p, [], 0);
  }

  /** Appending the sectors after the ones a file holds keeps it a whole number of first sectors. */
  lemma DumpGrows(d: Storage, p: Partition, f: seq<byte>, skip: nat, done: nat, ss: nat)
    requires ss > 0 && p.firstLba <= p.lastLba && UniformSectors(d, ss) && DumpedSoFar(d, p, Some(f))
    requires skip == |f| / ss && skip + done <= SectorCount(p) && Present(d, p.lun, p.firstLba + skip, done)
    ensures DumpedSoFar(d, p, Some(f + RangeBytes(d, p.lun, p.firstLba + skip, done)))
  {
    var k: nat :| FirstSectors(d, p, f, k);
    WholeSectors(d, p, f, k, ss);
    BothPresent(d, p.lun, p.firstLba, k, done);
    RangeSplit(d, p.lun, p.firstLba, k, done);
    assert FirstSectors(d, p, f + RangeBytes(d, p.lun, p.firstLba + skip, done), k + done);
  }

  lemma WholeSectors(d: Storage, p: Partition, f: seq<byte>, k: nat, ss: nat)
    requires ss > 0 && p.firstLba <= p.lastLba && UniformSectors(d, ss) && FirstSectors(d, p, f, k)
    ensures |f| == k * ss && |f| / ss == k
  {
    RangeLength(d, p.lun, p.firstLba, k, ss);
    DivModUnique(|f|, ss, k, 0);
  }

  lemma BothPresent(d: Storage, lun: nat, start: nat, k: nat, n: nat)
    requires Present(d, lun, start, k) && Present(d, lun, start + k, n)
    ensures Present(d, lun, start, k + n)
  {
  }

  /** The read loop. Whether or not it gets through, what it appended are the first sectors of the range. */
  method DumpRange(ctx: JobContext, file: OutputFile, lun: nat, start: nat, count: nat)
    returns (ok: bool, ghost done: nat)
    requires ctx.sectorSize > 0 && file.content.Some?
    modifies file, ctx`refused
    ensures ctx.refused >= old(ctx.refused) && file.errors >= old(file.errors)
    ensures ok <==> ctx.refused == old(ctx.refused) && file.errors == old(file.errors)
    ensures done <= count && Present(ctx.disk, lun, start, done) && (ok ==> done == count)
    ensures file.errors == old(file.errors) ==>
              file.content == Some(old(file.content).value + RangeBytes(ctx.disk, lun, start, done))
  {
    var perChunk := SectorsPerChunk(ctx.maxPayload, ctx.sectorSize);
    var sector, remaining: nat := start, count;
    done := 0;
    assert Get(ctx.disk, lun, start, 0) == [];
    assert file.content.value + [] == file.content.value;
    while remaining > 0
      invariant done + remaining == count && sector == start + done && file.content.Some?
      invariant ctx.refused == old(ctx.refused) && file.errors == old(file.errors)
      invariant Present(ctx.disk, lun, start, done)
      invariant file.content.value == old(file.content).value + RangeBytes(ctx.disk, lun, start, done)
    {
      hide Present, RangeBytes;
      var chunk := Min(remaining, perChunk);
      var data := ctx.ReadSectors(lun, sector, chunk);
      if data.None? {
        return false, done;
      }
      BothPresent(ctx.disk, lun, start, done, chunk);
      RangeSplit(ctx.disk, lun, start, done, chunk);
      AppendAssoc(old(file.content).value, RangeBytes(ctx.disk, lun, start, done), data.value);
      ok := file.Append(data.value);
      if !ok {
        return false, done;
      }
      done := done + chunk;
      sector := sector + chunk;
      remaining := remaining - chunk;
    }
    return true, done;
  }

  // ----- What dumping and resuming give -----

  /** Resuming over a shorter file gives the partition exactly when the file is a whole number of the
      partition's own first sectors; otherwise the bytes past the last whole sector stay in and the
      result is that much too long. */
  lemma ResumeIsExactOnAlignedPrefix(f: seq<byte>, part: seq<byte>, ss: nat)
    requires ss > 0 && 0 < |f| < |part|
    ensures |DumpedFile(Some(f), true, part, ss)| == |part| + |f| % ss
    ensures DumpedFile(Some(f), true, part, ss) == part <==> |f| % ss == 0 && f <= part
  {
    var q := |f| / ss;
    assert |f| == ss * q + |f| % ss;
    assert q * ss == ss * q;
    if |f| % ss == 0 {
      assert f + part[|f|..] == part <==> f == part[..|f|] by {
        assert part == part[..|f|] + part[|f|..];
        if f + part[|f|..] == part {
          assert f == (f + part[|f|..])[..|f|];
        }
      }
    }
  }

  /** Interrupted and resumed dumps add up: resuming over what an interrupted dump left, once it gets
      through, gives exactly the partition. */
  lemma ResumeCompletes(d: Storage, p: Partition, f: seq<byte>, ss: nat)
    requires ss > 0 && p.firstLba <= p.lastLba && UniformSectors(d, ss)
    requires DumpedSoFar(d, p, Some(f)) && Present(d, p.lun, p.firstLba, SectorCount(p))
    ensures var part := RangeBytes(d, p.lun, p.firstLba, SectorCount(p));
            DumpedFile(Some(f), true, part, ss) == part
  {
    hide UniformSectors, Present, RangeBytes;
    var n := SectorCount(p);
    var k: nat :| FirstSectors(d, p, f, k);
    WholeSectors(d, p, f, k, ss);
    RangeLength(d, p.lun, p.firstLba, n, ss);
    RangeDrop(d, p.lun, p.firstLba, k, n, ss);
    RangeSplit(d, p.lun, p.firstLba, k, n - k);
    if k == n {
      assert f == RangeBytes(d, p.lun, p.firstLba, n);
    } else {
      MulMonotone(ss, k + 1, n);
      assert ss * (k + 1) == k * ss + ss && ss * n == n * ss;
    }
  }

  /** A range read back after whole sectors were written at its start. */
  lemma RangeAfterWrite(d: Storage, lun: nat, first: nat, sectors: seq<seq<byte>>, n: nat, ss: nat)
    requires Present(d, lun, first, n) && UniformSectors(d, ss) && |sectors| <= n
    ensures |sectors| * ss <= |RangeBytes(d, lun, first, n)|
    ensures RangeBytes(Put(d, lun, first, sectors), lun, first, n) ==
            Flatten(sectors) + RangeBytes(d, lun, first, n)[|sectors| * ss..]
  {
    GetAfterPut(d, lun, first, sectors, n);
    TailBytes(d, lun, first, |sectors|, n, ss);
    hide Put, Present, UniformSectors;
    var tail := Get(d, lun, first, n)[|sectors|..];
    FlattenAppend(sectors, tail);
  }

  lemma TailBytes(d: Storage, lun: nat, first: nat, k: nat, n: nat, ss: nat)
    requires Present(d, lun, first, n) && UniformSectors(d, ss) && k <= n
    ensures k * ss <= |RangeBytes(d, lun, first, n)|
    ensures Flatten(Get(d, lun, first, n)[k..]) == RangeBytes(d, lun, first, n)[k * ss..]
  {
    RangeDrop(d, lun, first, k, n, ss);
    assert Get(d, lun, first, n)[k..] == Get(d, lun, first + k, n - k);
  }

  /** Writing an image and dumping the partition afresh gives the image, zeros up to the sector, and
      then what the partition held behind it. */
  lemma WriteThenDump(d: Storage, p: Partition, image: seq<byte>, existing: Option<seq<byte>>, ss: nat)
    requires ss > 0 && p.firstLba <= p.lastLba && UniformSectors(d, ss)
    requires Present(d, p.lun, p.firstLba, SectorCount(p)) && |image| <= SectorCount(p) * ss
    ensures var d' := Put(d, p.lun, p.firstLba, PadCut(image, ss));
            var k := |PadCut(image, ss)| * ss;
            && |image| <= k <= |RangeBytes(d, p.lun, p.firstLba, SectorCount(p))|
            && DumpedFile(existing, false, RangeBytes(d', p.lun, p.firstLba, SectorCount(p)), ss) ==
               image + Zeros(k - |image|) + RangeBytes(d, p.lun, p.firstLba, SectorCount(p))[k..]
  {
    ImageFits(image, ss, SectorCount(p));
    FlattenPadCut(image, ss);
    RangeAfterWrite(d, p.lun, p.firstLba, PadCut(image, ss), SectorCount(p), ss);
  }
}