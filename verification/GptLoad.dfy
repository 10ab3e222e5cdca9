/** Loading partition tables from a device: primary header, backup header, entry array, LUN after LUN. */
module GptLoad {
  import opened Bytes
  import opened Context
  import opened Disk
  import opened Gpt
  import opened Partitions

  const U32: nat := 0x1_0000_0000
  const U64: nat := 0x1_0000_0000_0000_0000

  datatype LunResult = Found(table: Table) | NotFound | Crash

  datatype LoadStatus = Loaded | LoadFailed | LoadCrashed

  function ArraySectors(h: Header, ss: nat): (n: nat)
    requires ss > 0
  {
    DivCeil(h.numEntries * h.entrySize, ss)
  }

  /** The table described by the header in sector `at`, when the device serves every sector it has. */
  function GptAt(d: Storage, lun: nat, at: nat, ss: nat): (r: LunResult)
    requires ss > 0 && Present(d, lun, at, 1)
  {
    var raw := RangeBytes(d, lun, at, 1);
    var first := TableOf(raw, [], lun);
    if first.Bad? then NotFound
    else if first.value.header.numEntries * first.value.header.entrySize >= U32 then Crash
    else
      var h := first.value.header;
      var n := ArraySectors(h, ss);
      if n == 0 then Found(first.value)
      else if !Present(d, lun, h.entriesLba, n) then NotFound
      else
        var t := TableOf(raw, RangeBytes(d, lun, h.entriesLba, n), lun);
        if t.Bad? then NotFound else Found(t.value)
  }

  /** Sector 1, or the last sector when sector 1 does not parse and the size of the disk is known. */
  function HeaderSector(d: Storage, lun: nat, total: nat): (at: Option<nat>)
    ensures at.Some? ==> Present(d, lun, at.value, 1)
  {
    if !Present(d, lun, 1, 1) then None
    else if TableOf(RangeBytes(d, lun, 1, 1), [], lun).Good? then Some(1)
    else if total == 0 || !Present(d, lun, total - 1, 1) then None
    else Some(total - 1)
  }

  /** Looking for the backup array subtracts without checking that the disk is that large. */
  function GptOf(d: Storage, lun: nat, total: nat, ss: nat): (r: LunResult)
    requires ss > 0
  {
    var at := HeaderSector(d, lun, total);
    if at.None? then NotFound
    else
      var r := GptAt(d, lun, at.value, ss);
      if r.Found? && 0 < total <= ArraySectors(r.table.header, ss) then Crash else r
  }

  /** When a LUN has no table: sector 1 is missing; or it holds no table and the size is unknown, or the last sector is
      missing or holds none either; or the entries are missing where sector 1 says they are. */
  lemma NoTableFound(d: Storage, lun: nat, total: nat, ss: nat)
    requires ss > 0
    ensures !Present(d, lun, 1, 1) ==> GptOf(d, lun, total, ss) == NotFound
    ensures Present(d, lun, 1, 1) && TableOf(RangeBytes(d, lun, 1, 1), [], lun).Bad? &&
            (|| total == 0 || !Present(d, lun, total - 1, 1)
             || TableOf(RangeBytes(d, lun, total - 1, 1), [], lun).Bad?) ==>
              GptOf(d, lun, total, ss) == NotFound
    ensures Present(d, lun, 1, 1) && TableOf(RangeBytes(d, lun, 1, 1), [], lun).Good? ==>
              var h := TableOf(RangeBytes(d, lun, 1, 1), [], lun).value.header;
              0 < h.numEntries * h.entrySize < 0x1_0000_0000 && !Present(d, lun, h.entriesLba, ArraySectors(h, ss)) ==>
                GptOf(d, lun, total, ss) == NotFound
  {
    hide TableOf, RangeBytes, Present;
  }

  // ----- What a loaded table is -----

  /** The header is the same whatever entry data is parsed with it. */
  lemma SameHeader(raw: seq<byte>, x: seq<byte>, y: seq<byte>, lun: nat)
    requires TableOf(raw, x, lun).Good? && TableOf(raw, y, lun).Good?
    ensures TableOf(raw, x, lun).value.header == TableOf(raw, y, lun).value.header
  {
    hide HeaderOf, HeaderCrcOk, EntriesOf;
  }

  lemma CoveredBySectors(bytes: nat, ss: nat)
    requires ss > 0
    ensures bytes <= DivCeil(bytes, ss) * ss
    ensures DivCeil(bytes, ss) == 0 <==> bytes == 0
  {
    assert bytes == ss * (bytes / ss) + bytes % ss;
    assert ss * (bytes / ss + 1) == ss * (bytes / ss) + ss;
  }

  /** A table that loads was never cut short: its entries are the used ones among all the header counts,
      and entries smaller than the least record are never accepted. */
  lemma NothingIsCutOff(d: Storage, lun: nat, at: nat, ss: nat)
    requires ss > 0 && UniformSectors(d, ss) && Present(d, lun, at, 1) && GptAt(d, lun, at, ss).Found?
    ensures var t := GptAt(d, lun, at, ss).table;
            var h := t.header;
            if h.numEntries == 0 then t.entries == []
            else
              && h.entrySize >= RECORD
              && Present(d, lun, h.entriesLba, ArraySectors(h, ss))
              && h.numEntries * h.entrySize <= |RangeBytes(d, lun, h.entriesLba, ArraySectors(h, ss))|
              && t.entries ==
                 Kept(RangeBytes(d, lun, h.entriesLba, ArraySectors(h, ss)), h.numEntries, h.entrySize, lun)
  {
    hide HeaderOf, HeaderCrcOk, Kept, RangeBytes, Present, DivCeil, Whole;
    var raw := RangeBytes(d, lun, at, 1);
    var h := TableOf(raw, [], lun).value.header;
    var bytes := h.numEntries * h.entrySize;
    CoveredBySectors(bytes, ss);
    var n := ArraySectors(h, ss);
    if n == 0 {
      if h.numEntries > 0 {
        ZeroProduct(h.numEntries, h.entrySize);
      }
      WholeCovers([], h.numEntries, h.entrySize);
    } else {
      var data := RangeBytes(d, lun, h.entriesLba, n);
      RangeLength(d, lun, h.entriesLba, n, ss);
      SameHeader(raw, [], data, lun);
      WholeCovers(data, h.numEntries, h.entrySize);
    }
  }

  lemma ZeroProduct(a: nat, b: nat)
    requires a > 0 && a * b == 0
    ensures b == 0
  {
  }

  /** A sector that holds a sealed header, as the UEFI Specification lays it out. */
  ghost predicate HoldsHeader(d: Storage, lun: nat, at: nat, h: Header, rest: seq<byte>)
  {
    && FitsFields(h) && |rest| >= RECORD - HEADER && HEADER <= h.headerSize <= HEADER + |rest|
    && Present(d, lun, at, 1) && RangeBytes(d, lun, at, 1) == HeaderBytes(Sealed(h, rest), rest)
  }

  /** The entry array where the header says it is. */
  ghost predicate HoldsArray(d: Storage, lun: nat, ss: nat, h: Header, slots: seq<Entry>)
    requires ss > 0
  {
    && FitsArray(slots, lun) && h.numEntries == |slots| && h.entrySize >= RECORD
    && Present(d, lun, h.entriesLba, ArraySectors(h, ss))
    && ArrayBytes(slots, h.entrySize, lun) <= RangeBytes(d, lun, h.entriesLba, ArraySectors(h, ss))
  }

  lemma HeldHeaderParses(d: Storage, lun: nat, at: nat, h: Header, rest: seq<byte>)
    requires HoldsHeader(d, lun, at, h, rest) && h.entrySize > 0
    ensures TableOf(RangeBytes(d, lun, at, 1), [], lun) == Good(Table(Sealed(h, rest), [], lun))
    ensures Sealed(h, rest) == h.(headerCrc := Sealed(h, rest).headerCrc)
  {
    hide HeaderOf, HeaderCrcOk, Sealed, HeaderBytes, RangeBytes, Present;
    SealedIsAccepted(h, rest);
    SealedKeepsFields(h, rest);
    EmptyData(h.numEntries, h.entrySize, lun);
  }

  /** A header whose count and size multiply past 32 bits stops loading, whatever else the disk holds. */
  lemma LargeArrayCrashes(d: Storage, lun: nat, at: nat, ss: nat, h: Header, rest: seq<byte>)
    requires ss > 0 && HoldsHeader(d, lun, at, h, rest) && h.numEntries * h.entrySize >= 0x1_0000_0000
    ensures TableOf(RangeBytes(d, lun, at, 1), [], lun).Good? && GptAt(d, lun, at, ss) == Crash
  {
    hide HoldsHeader, TableOf, Sealed, RangeBytes, Present;
    PositiveFactor(h.numEntries, h.entrySize);
    HeldHeaderParses(d, lun, at, h, rest);
    assert Present(d, lun, at, 1) by { HeldIsPresent(d, lun, at, h, rest); }
  }

  lemma PositiveFactor(a: nat, b: nat)
    requires a * b > 0
    ensures b > 0
  {
  }

  lemma HeldIsPresent(d: Storage, lun: nat, at: nat, h: Header, rest: seq<byte>)
    requires HoldsHeader(d, lun, at, h, rest)
    ensures Present(d, lun, at, 1)
  {
  }

  lemma HeldTableParses(d: Storage, lun: nat, at: nat, ss: nat, h: Header, rest: seq<byte>, slots: seq<Entry>)
    requires ss > 0 && HoldsHeader(d, lun, at, h, rest) && HoldsArray(d, lun, ss, h, slots)
    requires h.numEntries * h.entrySize < 0x1_0000_0000
    ensures TableOf(RangeBytes(d, lun, at, 1), [], lun).Good?
    ensures GptAt(d, lun, at, ss) == Found(Table(Sealed(h, rest), Used(slots), lun))
  {
    hide HeaderOf, HeaderCrcOk, Sealed, HeaderBytes, RangeBytes, Present, DivCeil, ArrayBytes, Used, FitsEntry, Kept;
    var raw, sealed := RangeBytes(d, lun, at, 1), Sealed(h, rest);
    HeldHeaderParses(d, lun, at, h, rest);
    CoveredBySectors(h.numEntries * h.entrySize, ss);
    var n := ArraySectors(h, ss);
    if n == 0 {
      if |slots| > 0 {
        ZeroProduct(|slots|, h.entrySize);
      }
      NothingUsed(slots);
    } else {
      var data := RangeBytes(d, lun, h.entriesLba, n);
      var held := ArrayBytes(slots, h.entrySize, lun);
      assert data == held + data[|held|..];
      ArrayReadsBack(slots, h.entrySize, lun, data[|held|..]);
      SealedIsAccepted(h, rest);
      SameHeader(raw, [], data, lun);
    }
  }

  lemma SealedKeepsFields(h: Header, rest: seq<byte>)
    requires |h.diskGuid| == 16 && HEADER <= h.headerSize <= HEADER + |rest|
    ensures Sealed(h, rest) == h.(headerCrc := Sealed(h, rest).headerCrc)
  {
  }

  lemma NothingUsed(slots: seq<Entry>)
    ensures slots == [] ==> Used(slots) == []
  {
  }

  lemma EmptyData(num: nat, size: nat, lun: nat)
    requires size > 0
    ensures EntriesOf([], num, size, lun) == Good([])
  {
  }

  /** What a written table loads as: from sector 1, and, when sector 1 does not parse and the disk's size is
      known, from the backup header in the last sector. It is exactly the used entries, in order, unless the
      array's size overflows 32 bits or the array is larger than the disk, which both crash. */
  lemma WrittenTableLoads(d: Storage, lun: nat, total: nat, at: nat, ss: nat, h: Header, rest: seq<byte>,
      slots: seq<Entry>)
    requires ss > 0 && HoldsHeader(d, lun, at, h, rest)
    requires h.numEntries * h.entrySize < 0x1_0000_0000 ==> HoldsArray(d, lun, ss, h, slots)
    requires at == 1 || (total > 0 && at == total - 1 && Present(d, lun, 1, 1) &&
                         TableOf(RangeBytes(d, lun, 1, 1), [], lun).Bad?)
    ensures GptOf(d, lun, total, ss) ==
            if h.numEntries * h.entrySize >= 0x1_0000_0000 || 0 < total <= ArraySectors(h, ss) then Crash
            else Found(Table(Sealed(h, rest), Used(slots), lun))
  {
    hide HoldsHeader, HoldsArray, GptAt, TableOf, Sealed, Used, RangeBytes, Present;
    HeldIsPresent(d, lun, at, h, rest);
    if h.numEntries * h.entrySize >= U32 {
      LargeArrayCrashes(d, lun, at, ss, h, rest);
    } else {
      HeldTableParses(d, lun, at, ss, h, rest, slots);
      assert ArraySectors(Sealed(h, rest), ss) == ArraySectors(h, ss) by { HeldFields(d, lun, at, h, rest); }
    }
  }

  lemma HeldFields(d: Storage, lun: nat, at: nat, h: Header, rest: seq<byte>)
    requires HoldsHeader(d, lun, at, h, rest)
    ensures |h.diskGuid| == 16 && HEADER <= h.headerSize <= HEADER + |rest|
    ensures Sealed(h, rest) == h.(headerCrc := Sealed(h, rest).headerCrc)
  {
    SealedKeepsFields(h, rest);
  }

  // ----- Without overflow checks -----

  /** The sectors a build without overflow checks reads: the product wraps. */
  function WrappedArraySectors(h: Header, ss: nat): (n: nat)
    requires ss > 0
  {
    DivCeil((h.numEntries * h.entrySize) % 0x1_0000_0000, ss)
  }

  /** Such a build reads the same sectors exactly as long as the product fits; when it does not, the sectors it
      reads never hold the whole array, so the loop stops early and the table is cut off. */
  lemma WrappedReadIsShort(h: Header, ss: nat, data: seq<byte>)
    requires 0 < ss < 0x1_0000_0000 && |data| == WrappedArraySectors(h, ss) * ss
    ensures h.numEntries * h.entrySize < 0x1_0000_0000 ==> WrappedArraySectors(h, ss) == ArraySectors(h, ss)
    ensures Whole(data, h.numEntries, h.entrySize) < h.numEntries <==> h.numEntries * h.entrySize >= 0x1_0000_0000
  {
    var bytes := h.numEntries * h.entrySize;
    var wrapped := bytes % 0x1_0000_0000;
    CoveredTightly(wrapped, ss);
    if bytes < U32 {
      WholeCovers(data, h.numEntries, h.entrySize);
    } else {
      assert wrapped <= bytes - U32;
      if Whole(data, h.numEntries, h.entrySize) == h.numEntries {
        assert false;
      }
    }
  }

  lemma CoveredTightly(bytes: nat, ss: nat)
    requires ss > 0
    ensures bytes <= DivCeil(bytes, ss) * ss < bytes + ss
  {
    assert bytes == ss * (bytes / ss) + bytes % ss;
    assert ss * (bytes / ss + 1) == ss * (bytes / ss) + ss;
  }

  // ----- Loading -----

  /** The tables among the LUNs' results, in order. */
  function TablesIn(results: seq<LunResult>): (tables: seq<Table>)
  {
    if results == [] then []
    else
      var last := results[|results| - 1];
      TablesIn(results[..|results| - 1]) + if last.Found? then [last.table] else []
  }

  lemma TablesInMore(results: seq<LunResult>, r: LunResult)
    ensures TablesIn(results + [r]) == TablesIn(results) + if r.Found? then [r.table] else []
    ensures TablesIn([]) == []
  {
    assert (results + [r])[..|results|] == results;
  }

  /** The disk's size after loading: kept when it was known, otherwise taken from the first table found. */
  function SizeAfter(total: nat, tables: seq<Table>): (size: nat)
  {
    if total == 0 && tables != [] then tables[0].header.backupLba + 1 else total
  }

  /** When the first LUN has a table, the size is that table's backup sector plus one, or what it was. */
  lemma {:induction false} SizeFromFirst(total: nat, results: seq<LunResult>)
    requires results != [] && results[0].Found?
    ensures TablesIn(results) != [] && TablesIn(results)[0] == results[0].table
    ensures SizeAfter(total, TablesIn(results)) == if total == 0 then results[0].table.header.backupLba + 1 else total
  {
    var before := results[..|results| - 1];
    if before != [] {
      SizeFromFirst(total, before);
    }
  }

  lemma SizeOfNone(total: nat)
    ensures SizeAfter(total, TablesIn([])) == total
  {
  }

  /** Sizes taken table by table are the size taken from the first. */
  lemma SizeAfterMore(total: nat, results: seq<LunResult>, r: LunResult)
    ensures var size := SizeAfter(total, TablesIn(results));
            SizeAfter(total, TablesIn(results + [r])) == if r.Found? then SizeAfter(size, [r.table]) else size
  {
    TablesInMore(results, r);
    hide TablesIn;
  }

  /** A LUN stops the whole load exactly when its own loading crashes, or when the size is unknown and its header
      gives one that does not fit 64 bits. */
  predicate CrashesLoading(r: LunResult, size: nat)
  {
    r.Crash? || (r.Found? && size == 0 && r.table.header.backupLba + 1 >= 0x1_0000_0000_0000_0000)
  }

  /** No LUN in the list stops the load, each against the size known when its turn comes. */
  predicate NoneStops(results: seq<LunResult>, total: nat)
  {
    forall i :: 0 <= i < |results| ==> !CrashesLoading(results[i], SizeAfter(total, TablesIn(results[..i])))
  }

  lemma NoneStopsMore(results: seq<LunResult>, total: nat, r: LunResult)
    requires NoneStops(results, total) && !CrashesLoading(r, SizeAfter(total, TablesIn(results)))
    ensures NoneStops(results + [r], total)
  {
    hide CrashesLoading, SizeAfter, TablesIn;
    var all := results + [r];
    forall i | 0 <= i < |all| ensures !CrashesLoading(all[i], SizeAfter(total, TablesIn(all[..i]))) {
      assert all[..i] == results[..i];
      assert i == |results| ==> results[..i] == results;
    }
  }

  lemma NothingStops(total: nat)
    ensures NoneStops([], total)
  {
  }

  /** What each of the first LUNs loads as, when the device refuses nothing. */
  function LunResults(d: Storage, total: nat, ss: nat, n: nat): (results: seq<LunResult>)
    requires ss > 0
  {
    seq(n, lun requires 0 <= lun < n => GptOf(d, lun, total, ss))
  }

  /** Loading comes to this LUN, or stopped at an earlier one, and it stops the load. */
  predicate CrashesAt(d: Storage, total: nat, ss: nat, lun: nat)
    requires ss > 0
  {
    && (lun > 0 ==> GptOf(d, 0, total, ss).Found?)
    && CrashesLoading(GptOf(d, lun, total, ss), SizeAfter(total, TablesIn(LunResults(d, total, ss, lun))))
  }

  lemma NoneCrashes(d: Storage, total: nat, ss: nat, n: nat)
    requires ss > 0 && NoneStops(LunResults(d, total, ss, n), total)
    ensures forall lun :: 0 <= lun < n ==> !CrashesAt(d, total, ss, lun)
  {
    hide GptOf, CrashesLoading, SizeAfter, TablesIn;
    var all := LunResults(d, total, ss, n);
    forall lun | 0 <= lun < n ensures !CrashesAt(d, total, ss, lun) {
      assert all[..lun] == LunResults(d, total, ss, lun);
      assert all[lun] == GptOf(d, lun, total, ss);
    }
  }

  /** When a written table stops the load, and which of the three overflows it is. */
  lemma WrittenTableCrashesLoading(d: Storage, lun: nat, total: nat, ss: nat, h: Header, rest: seq<byte>,
      slots: seq<Entry>, size: nat)
    requires ss > 0 && HoldsHeader(d, lun, 1, h, rest)
    requires h.numEntries * h.entrySize < 0x1_0000_0000 ==> HoldsArray(d, lun, ss, h, slots)
    ensures CrashesLoading(GptOf(d, lun, total, ss), size) <==>
              || h.numEntries * h.entrySize >= 0x1_0000_0000
              || 0 < total <= ArraySectors(h, ss)
              || (size == 0 && h.backupLba == 0xFFFF_FFFF_FFFF_FFFF)
  {
    WrittenTableLoads(d, lun, total, 1, ss, h, rest, slots);
    HeldFields(d, lun, 1, h, rest);
    assert h.backupLba < U64 by { HeldFieldsFit(d, lun, 1, h, rest); }
    hide GptOf, HoldsHeader, HoldsArray, Sealed, Used, ArraySectors;
  }

  lemma HeldFieldsFit(d: Storage, lun: nat, at: nat, h: Header, rest: seq<byte>)
    requires HoldsHeader(d, lun, at, h, rest)
    ensures h.backupLba < 0x1_0000_0000_0000_0000
  {
    hide Sealed, HeaderBytes, RangeBytes, Present;
  }

  /** A header without entries whose backup is in the last sector a 64-bit number can name. */
  const TOP_HEADER: Header := Header(0x10000, HEADER, 0, 1, 0xFFFF_FFFF_FFFF_FFFF, 34, 100, Zeros(16), 2, 0, RECORD, 0)

  /** A disk of nothing but one sector of LUN 0. */
  function OneSector(at: nat, sector: seq<byte>): (d: Storage)
  {
    map[(0, at) := sector]
  }

  lemma OneSectorReads(at: nat, sector: seq<byte>)
    ensures UniformSectors(OneSector(at, sector), |sector|) && Present(OneSector(at, sector), 0, at, 1)
    ensures RangeBytes(OneSector(at, sector), 0, at, 1) == sector
  {
    assert Get(OneSector(at, sector), 0, at, 1) == [sector];
    assert Flatten([sector]) == sector + Flatten([]) == sector;
  }

  lemma TopHeaderFits()
    ensures FitsFields(TOP_HEADER)
  {
  }

  lemma HoldsNothing(d: Storage, lun: nat, ss: nat, h: Header)
    requires ss > 0 && h.numEntries == 0 && h.entrySize >= RECORD
    ensures ArraySectors(h, ss) == 0 && HoldsArray(d, lun, ss, h, [])
  {
  }

  /** The disk that holds this header loads LUN 0 as an empty table, whose size then stops the load. */
  lemma TopDiskStopsLoading(rest: seq<byte>)
    requires |rest| == 512 - HEADER
    ensures var d := OneSector(1, HeaderBytes(Sealed(TOP_HEADER, rest), rest));
            UniformSectors(d, 512) && GptOf(d, 0, 0, 512).Found? && CrashesAt(d, 0, 512, 0)
  {
    TopHeaderFits();
    SealedKeepsFields(TOP_HEADER, rest);
    hide Sealed, HeaderBytes, GptOf, CrashesLoading, OneSector, FitsFields, UniformSectors, HoldsArray, RangeBytes;
    var sector := HeaderBytes(Sealed(TOP_HEADER, rest), rest);
    var d := OneSector(1, sector);
    OneSectorReads(1, sector);
    HoldsNothing(d, 0, 512, TOP_HEADER);
    WrittenTableLoads(d, 0, 0, 1, 512, TOP_HEADER, rest, []);
    WrittenTableCrashesLoading(d, 0, 0, 512, TOP_HEADER, rest, [], 0);
  }

  class GptLoader {
    const ctx: JobContext
    const partitions: PartitionMap
    const ufs: bool
    var totalSectors: nat
    var infos: seq<Entry>

    constructor (ctx: JobContext, partitions: PartitionMap, ufs: bool, totalSectors: nat)
      ensures this.ctx == ctx && this.partitions == partitions && this.ufs == ufs
      ensures this.totalSectors == totalSectors && infos == []
    {
      this.ctx, this.partitions, this.ufs, this.totalSectors, infos := ctx, partitions, ufs, totalSectors, [];
    }

    /** One LUN. Reads the device refuses can only turn the answer into a failure, never into another table. */
    method ReadGptForLun(lun: nat, total: nat) returns (r: LunResult)
      requires ctx.sectorSize > 0
      modifies ctx`refused
      ensures r == GptOf(ctx.disk, lun, total, ctx.sectorSize) || (r == NotFound && ctx.refused > old(ctx.refused))
      ensures ctx.refused >= old(ctx.refused)
    {
      hide TableOf, RangeBytes, Present, DivCeil;
      var ss := ctx.sectorSize;
      var lba1 := ctx.ReadSectors(lun, 1, 1);
      if lba1.None? {
        return NotFound;
      }
      var raw := lba1.value;
      var parsed := ParseTable(raw, [], lun);
      if parsed.Bad? {
        if total == 0 {
          return NotFound;
        }
        var backup := ctx.ReadSectors(lun, total - 1, 1);
        if backup.None? {
          return NotFound;
        }
        raw := backup.value;
        parsed := ParseTable(raw, [], lun);
        if parsed.Bad? {
          return NotFound;
        }
      }
      var header := parsed.value.header;
      if header.numEntries * header.entrySize >= U32 {
        return Crash;
      }
      var entrySectors := DivCeil(header.numEntries * header.entrySize, ss);
      if entrySectors == 0 {
        return Found(parsed.value);
      }
      var data := ctx.ReadSectors(lun, header.entriesLba, entrySectors);
      if data.None? {
        return NotFound;
      }
      var table := ParseTable(raw, data.value, lun);
      if table.Bad? {
        return NotFound;
      }
      SameHeader(raw, [], data.value, lun);
      if total > 0 {
        if entrySectors > total - 1 {
          return Crash;
        }
        var backupEntries := ctx.ReadSectors(lun, total - 1 - entrySectors, entrySectors);
      }
      return Found(table.value);
    }

    /** One LUN's part of the load: its table, if there is one, gives the size when it is unknown and is added. */
    method LoadLun(lun: nat, total: nat) returns (r: LunResult, stops: bool)
      requires ctx.sectorSize > 0 && partitions.Valid()
      modifies this`totalSectors, partitions, ctx`refused
      ensures partitions.Valid() && ctx.refused >= old(ctx.refused)
      ensures r == GptOf(ctx.disk, lun, total, ctx.sectorSize) || (r == NotFound && ctx.refused > old(ctx.refused))
      ensures stops == CrashesLoading(r, old(totalSectors))
      ensures partitions.tables == old(partitions.tables) + if r.Found? && !stops then [r.table] else []
      ensures totalSectors == if r.Found? && !stops then SizeAfter(old(totalSectors), [r.table]) else old(totalSectors)
    {
      hide GptOf, IndexOk;
      r := ReadGptForLun(lun, total);
      stops := r.Crash?;
      if r.Found? {
        if totalSectors == 0 {
          if r.table.header.backupLba + 1 >= U64 {
            return r, true;
          }
          totalSectors := r.table.header.backupLba + 1;
        }
        partitions.AddTable(r.table);
      }
    }

    /** All LUNs: the first must have a table, the others are skipped when they have none. Tables found
        before a failure stay in the map. */
    method LoadGpt() returns (status: LoadStatus, ghost results: seq<LunResult>)
      requires ctx.sectorSize > 0 && partitions.Valid()
      modifies this, partitions, ctx`refused
      ensures partitions.Valid()
      ensures |results| <= if ufs then 4 else 1
      ensures forall i :: 0 <= i < |results| ==>
                || results[i] == GptOf(ctx.disk, i, old(totalSectors), ctx.sectorSize)
                || (results[i] == NotFound && ctx.refused > old(ctx.refused))
      ensures partitions.tables == old(partitions.tables) + TablesIn(results)
      ensures totalSectors == SizeAfter(old(totalSectors), TablesIn(results))
      ensures status == Loaded ==> |results| == (if ufs then 4 else 1) && results[0].Found?
      ensures status == Loaded ==>
                totalSectors ==
                if old(totalSectors) == 0 then results[0].table.header.backupLba + 1 else old(totalSectors)
      ensures status == Loaded ==> infos == AllEntries(partitions.tables)
      ensures status == LoadFailed ==> results == [NotFound]
      ensures status == LoadCrashed ==> |results| < (if ufs then 4 else 1)
      ensures status == LoadCrashed ==>
                CrashesLoading(GptOf(ctx.disk, |results|, old(totalSectors), ctx.sectorSize), totalSectors)
      ensures NoneStops(results, old(totalSectors))
      ensures ctx.refused == old(ctx.refused) ==>
                && results == LunResults(ctx.disk, old(totalSectors), ctx.sectorSize, |results|)
                && (status == LoadFailed <==> GptOf(ctx.disk, 0, old(totalSectors), ctx.sectorSize).NotFound?)
                && (status == LoadCrashed <==>
                      exists lun :: 0 <= lun < (if ufs then 4 else 1) &&
                        CrashesAt(ctx.disk, old(totalSectors), ctx.sectorSize, lun))
      ensures status != Loaded ==> infos == old(infos)
    {
      hide GptOf, AllEntries, IndexOk, TablesIn, NoneStops, SizeAfter;
      ghost var d, ss := ctx.disk, ctx.sectorSize;
      var total := totalSectors;
      var maxLun := if ufs then 4 else 1;
      results := [];
      TablesInMore([], NotFound);
      NothingStops(total);
      SizeOfNone(total);
      for lun := 0 to maxLun
        invariant |results| == lun && (lun > 0 ==> results[0].Found?)
        invariant forall i :: 0 <= i < lun ==>
                    || results[i] == GptOf(ctx.disk, i, total, ctx.sectorSize)
                    || (results[i] == NotFound && ctx.refused > old(ctx.refused))
        invariant partitions.Valid() && ctx.refused >= old(ctx.refused)
        invariant partitions.tables == old(partitions.tables) + TablesIn(results)
        invariant totalSectors == SizeAfter(total, TablesIn(results))
        invariant infos == old(infos)
        invariant NoneStops(results, total)
        invariant ctx.refused == old(ctx.refused) ==> results == LunResults(d, total, ss, lun)
      {
        var r, stops := LoadLun(lun, total);
        assert ctx.refused == old(ctx.refused) && stops ==> CrashesAt(d, total, ss, lun);
        if stops {
          return LoadCrashed, results;
        }
        NoneStopsMore(results, total, r);
        SizeAfterMore(total, results, r);
        TablesInMore(results, r);
        results := results + [r];
        assert ctx.refused == old(ctx.refused) ==> results == LunResults(d, total, ss, lun + 1);
        if r.NotFound? && lun == 0 {
          return LoadFailed, results;
        }
      }
      if ctx.refused == old(ctx.refused) {
        NoneCrashes(d, total, ss, maxLun);
      }
      SizeFromFirst(total, results);
      infos := partitions.ListEntries();
      status := Loaded;
    }
  }
}
