/** GUID partition tables: the header and its checksum, the entry array, and what parsing makes of them. */
module Gpt {
  import opened Bytes
  import opened Crc32
  import opened Lfsr
  import opened Names
  import opened Text

  const RECORD: nat := 128 // the least a header sector or an entry may have
  const HEADER: nat := 92 // the bytes a header's fields take up
  const UNUSED: seq<byte> := Zeros(16)

  datatype GptError = BadSignature | CrcMismatch | InvalidEntry

  datatype Parsed<+T> = Good(value: T) | Bad(error: GptError)

  datatype Header = Header(revision: nat, headerSize: nat, headerCrc: nat, currentLba: nat, backupLba: nat,
                           firstUsable: nat, lastUsable: nat, diskGuid: seq<byte>, entriesLba: nat,
                           numEntries: nat, entrySize: nat, entriesCrc: nat)

  datatype Entry = Entry(name: string, typeGuid: seq<byte>, uniqueGuid: seq<byte>, firstLba: nat, lastLba: nat,
                         attributes: nat, lun: nat)

  datatype Table = Table(header: Header, entries: seq<Entry>, lun: nat)

  function Signature(): (s: seq<byte>)
    ensures |s| == 8
  {
    [0x45, 0x46, 0x49, 0x20, 0x50, 0x41, 0x52, 0x54]
  }

  // ----- Headers -----

  function Field(data: seq<byte>, at: nat, n: nat): (v: nat)
    requires at + n <= |data|
  {
    Le(data[at..at + n])
  }

  function HeaderOf(data: seq<byte>): (r: Parsed<Header>)
  {
    if |data| < RECORD || data[..8] != Signature() then Bad(BadSignature)
    else
      Good(Header(Field(data, 8, 4), Field(data, 12, 4), Field(data, 16, 4), Field(data, 24, 8), Field(data, 32, 8),
                  Field(data, 40, 8), Field(data, 48, 8), data[56..72], Field(data, 72, 8), Field(data, 80, 4),
                  Field(data, 84, 4), Field(data, 88, 4)))
  }

  /** What passes for a header: 128 bytes at least, behind the signature. */
  lemma HeaderNeedsSignature(data: seq<byte>)
    ensures HeaderOf(data).Good? <==> |data| >= 128 && data[..8] == Spelled("EFI PART")
  {
  }

  predicate FitsFields(h: Header)
  {
    && h.revision < Pow256(4) && h.headerSize < Pow256(4) && h.headerCrc < Pow256(4)
    && h.currentLba < Pow256(8) && h.backupLba < Pow256(8) && h.firstUsable < Pow256(8) && h.lastUsable < Pow256(8)
    && |h.diskGuid| == 16 && h.entriesLba < Pow256(8)
    && h.numEntries < Pow256(4) && h.entrySize < Pow256(4) && h.entriesCrc < Pow256(4)
  }

  /** A header sector as the UEFI Specification lays it out, section 5.3.2. */
  function HeaderBytes(h: Header, rest: seq<byte>): (data: seq<byte>)
    requires |h.diskGuid| == 16
    ensures |data| == HEADER + |rest|
  {
    Signature() + (LeBytes(h.revision, 4) + (LeBytes(h.headerSize, 4) + (LeBytes(h.headerCrc, 4) + AfterCrc(h, rest))))
  }

  function AfterCrc(h: Header, rest: seq<byte>): (data: seq<byte>)
    requires |h.diskGuid| == 16
    ensures |data| == 72 + |rest|
  {
    Zeros(4) + (LeBytes(h.currentLba, 8) + (LeBytes(h.backupLba, 8) + (LeBytes(h.firstUsable, 8) +
    (LeBytes(h.lastUsable, 8) + (h.diskGuid + (LeBytes(h.entriesLba, 8) + (LeBytes(h.numEntries, 4) +
    (LeBytes(h.entrySize, 4) + (LeBytes(h.entriesCrc, 4) + rest)))))))))
  }

  /** Read one piece of a record and move past it. */
  lemma Peel(data: seq<byte>, at: nat, piece: seq<byte>, rest: seq<byte>)
    requires at <= |data| && data[at..] == piece + rest
    ensures at + |piece| <= |data|
    ensures data[at..at + |piece|] == piece && data[at + |piece|..] == rest
  {
    assert data[at..at + |piece|] == data[at..][..|piece|];
    assert data[at + |piece|..] == data[at..][|piece|..];
  }

  lemma PeelField(data: seq<byte>, at: nat, v: nat, n: nat, rest: seq<byte>)
    requires at <= |data| && data[at..] == LeBytes(v, n) + rest && v < Pow256(n)
    ensures at + n <= |data| && Field(data, at, n) == v && data[at + n..] == rest
  {
    Peel(data, at, LeBytes(v, n), rest);
    LeField(v, n);
  }

  /** A header written field by field reads back as itself. */
  lemma HeaderReadsBack(h: Header, rest: seq<byte>)
    requires FitsFields(h) && |rest| >= RECORD - HEADER
    ensures HeaderOf(HeaderBytes(h, rest)) == Good(h)
  {
    hide LeBytes, Le, Pow256, Field, Signature;
    var data := HeaderBytes(h, rest);
    var at88 := LeBytes(h.entriesCrc, 4) + rest;
    var at84 := LeBytes(h.entrySize, 4) + at88;
    var at80 := LeBytes(h.numEntries, 4) + at84;
    var at72 := LeBytes(h.entriesLba, 8) + at80;
    var at56 := h.diskGuid + at72;
    var at48 := LeBytes(h.lastUsable, 8) + at56;
    var at40 := LeBytes(h.firstUsable, 8) + at48;
    var at32 := LeBytes(h.backupLba, 8) + at40;
    var at24 := LeBytes(h.currentLba, 8) + at32;
    var at20 := Zeros(4) + at24;
    var at16 := LeBytes(h.headerCrc, 4) + at20;
    var at12 := LeBytes(h.headerSize, 4) + at16;
    var at8 := LeBytes(h.revision, 4) + at12;
    assert data[0..] == data;
    Peel(data, 0, Signature(), at8);
    PeelField(data, 8, h.revision, 4, at12);
    PeelField(data, 12, h.headerSize, 4, at16);
    PeelField(data, 16, h.headerCrc, 4, at20);
    Peel(data, 20, Zeros(4), at24);
    PeelField(data, 24, h.currentLba, 8, at32);
    PeelField(data, 32, h.backupLba, 8, at40);
    PeelField(data, 40, h.firstUsable, 8, at48);
    PeelField(data, 48, h.lastUsable, 8, at56);
    Peel(data, 56, h.diskGuid, at72);
    PeelField(data, 72, h.entriesLba, 8, at80);
    PeelField(data, 80, h.numEntries, 4, at84);
    PeelField(data, 84, h.entrySize, 4, at88);
    PeelField(data, 88, h.entriesCrc, 4, rest);
  }

  // ----- The header checksum -----

  /** A header with the four bytes of its checksum field set to zero. */
  function Blanked(raw: seq<byte>): (s: seq<byte>)
    requires |raw| >= 20
    ensures |s| == |raw|
  {
    raw[..16] + Zeros(4) + raw[20..]
  }

  predicate HeaderCrcOk(h: Header, raw: seq<byte>)
  {
    HEADER <= h.headerSize <= |raw| && Checksum(Blanked(raw[..h.headerSize])) == h.headerCrc
  }

  /** One pass over the header, skipping the checksum field, is the checksum of the blanked header. */
  method VerifyHeaderCrc(h: Header, raw: seq<byte>) returns (ok: bool)
    ensures ok == HeaderCrcOk(h, raw)
  {
    hide RegisterAfter, Crc32Byte, Poly, Checksum, Xor, ToNat;
    var size := h.headerSize;
    if size < 92 || |raw| < size {
      return false;
    }
    ghost var blank := Blanked(raw[..size]);
    var crc := Ones(32);
    RegisterOfNothing(Poly());
    for i := 0 to size
      invariant |crc| == 32 && crc == RegisterAfter(Poly(), blank[..i])
    {
      RegisterOneMore(Poly(), blank[..i], blank[i]);
      assert blank[..i + 1] == blank[..i] + [blank[i]];
      if 16 <= i < 20 {
        crc := Crc32Byte(crc, 0);
      } else {
        crc := Crc32Byte(crc, raw[i]);
      }
    }
    assert blank[..size] == blank;
    ChecksumIsRegister(blank);
    return ToNat(Xor(crc, Ones(32))) == h.headerCrc;
  }

  lemma ChecksumIsRegister(data: seq<byte>)
    ensures |RegisterAfter(Poly(), data)| == 32
    ensures Checksum(data) == ToNat(Xor(RegisterAfter(Poly(), data), Ones(32)))
  {
    hide RegisterAfter;
  }

  predicate Accepted(raw: seq<byte>)
  {
    HeaderOf(raw).Good? && HeaderCrcOk(HeaderOf(raw).value, raw)
  }

  /** A header with its checksum filled in. */
  function Sealed(h: Header, rest: seq<byte>): (h': Header)
    requires |h.diskGuid| == 16 && HEADER <= h.headerSize <= HEADER + |rest|
  {
    h.(headerCrc := Checksum(HeaderBytes(h.(headerCrc := 0), rest)[..h.headerSize]))
  }

  lemma BlankedBytes(h: Header, rest: seq<byte>)
    requires |h.diskGuid| == 16 && HEADER <= h.headerSize <= HEADER + |rest|
    ensures Blanked(HeaderBytes(h, rest)[..h.headerSize]) == HeaderBytes(h.(headerCrc := 0), rest)[..h.headerSize]
  {
  }

  /** Writers that fill in the checksum of the header with a zeroed field are always accepted. */
  lemma SealedIsAccepted(h: Header, rest: seq<byte>)
    requires FitsFields(h) && |rest| >= RECORD - HEADER && HEADER <= h.headerSize <= HEADER + |rest|
    ensures var raw := HeaderBytes(Sealed(h, rest), rest);
            Accepted(raw) && HeaderOf(raw) == Good(Sealed(h, rest))
  {
    hide Checksum, HeaderBytes, HeaderOf, Blanked;
    var s := Sealed(h, rest);
    ChecksumFits(HeaderBytes(h.(headerCrc := 0), rest)[..h.headerSize]);
    HeaderReadsBack(s, rest);
    BlankedBytes(s, rest);
  }

  /** An accepted header changed within four adjacent bytes is no longer accepted, unless the change touches
      the size field, straddles the checksum field, or lies past the header's end. */
  lemma HeaderChangeIsSeen(a: seq<byte>, v: seq<byte>, w: seq<byte>, b: seq<byte>)
    requires Accepted(a + v + b) && |v| == |w| <= 4 && v != w
    requires var end := |a| + |v|; end <= 12 || (16 <= |a| && end <= 20) || 20 <= |a|
    requires |a| + |v| <= HeaderOf(a + v + b).value.headerSize
    ensures !Accepted(a + w + b)
  {
    hide Checksum, Signature;
    var raw, raw' := a + v + b, a + w + b;
    var h := HeaderOf(raw).value;
    var size := h.headerSize;
    var b' := b[..size - |a| - |v|];
    if HeaderOf(raw').Good? {
      var h' := HeaderOf(raw').value;
      assert raw[12..16] == raw'[12..16] by { FieldOutside(a, v, w, b, 12, 4); }
      assert raw[..size] == a + v + b' && raw'[..size] == a + w + b';
      if 16 <= |a| && |a| + |v| <= 20 {
        SameBlank(a, v, w, b');
        DifferentField(a, v, w, b);
      } else {
        assert raw[16..20] == raw'[16..20] by { FieldOutside(a, v, w, b, 16, 4); }
        BlankedChange(a, v, w, b');
      }
    }
  }

  lemma FieldOutside(a: seq<byte>, v: seq<byte>, w: seq<byte>, b: seq<byte>, at: nat, n: nat)
    requires |v| == |w| && at + n <= |a + v + b| && (at + n <= |a| || |a| + |v| <= at)
    ensures (a + v + b)[at..at + n] == (a + w + b)[at..at + n]
  {
  }

  lemma SameBlank(a: seq<byte>, v: seq<byte>, w: seq<byte>, b: seq<byte>)
    requires |v| == |w| && 16 <= |a| && |a| + |v| <= 20 <= |a + v + b|
    ensures Blanked(a + v + b) == Blanked(a + w + b)
  {
    assert (a + v + b)[..16] == (a + w + b)[..16];
    assert (a + v + b)[20..] == (a + w + b)[20..];
  }

  lemma DifferentField(a: seq<byte>, v: seq<byte>, w: seq<byte>, b: seq<byte>)
    requires |v| == |w| && 16 <= |a| && |a| + |v| <= 20 <= |a + v + b| && v != w
    ensures Field(a + v + b, 16, 4) != Field(a + w + b, 16, 4)
  {
    var i :| 0 <= i < |v| && v[i] != w[i];
    var x, y := (a + v + b)[16..20], (a + w + b)[16..20];
    assert x[|a| + i - 16] == v[i] && y[|a| + i - 16] == w[i];
    if Le(x) == Le(y) {
      LeInjective(x, y);
    }
  }

  lemma BlankedChange(a: seq<byte>, v: seq<byte>, w: seq<byte>, b: seq<byte>)
    requires |v| == |w| <= 4 && v != w && |a + v + b| >= 20 && (|a| + |v| <= 12 || 20 <= |a|)
    ensures Checksum(Blanked(a + v + b)) != Checksum(Blanked(a + w + b))
  {
    hide Crc, Poly;
    if 20 <= |a| {
      var a' := a[..16] + Zeros(4) + a[20..];
      assert Blanked(a + v + b) == a' + v + b && Blanked(a + w + b) == a' + w + b;
      ShortChangesAreSeen(Poly(), a', v, w, b);
    } else {
      var k := 16 - |a| - |v|;
      var b' := b[..k] + Zeros(4) + b[k + 4..];
      assert Blanked(a + v + b) == a + v + b' && Blanked(a + w + b) == a + w + b';
      ShortChangesAreSeen(Poly(), a, v, w, b');
    }
  }

  // ----- Entries -----

  predicate Unused(e: Entry)
  {
    e.typeGuid == UNUSED
  }

  function EntryOf(record: seq<byte>, lun: nat): (r: Parsed<Entry>)
  {
    if |record| < RECORD then Bad(InvalidEntry)
    else
      Good(Entry(DecodeName(record[56..128]), record[..16], record[16..32], Field(record, 32, 8), Field(record, 40, 8),
                 Field(record, 48, 8), lun))
  }

  /** What passes for an entry, and which entries are in use. */
  lemma EntryNeedsRecord(record: seq<byte>, lun: nat)
    ensures EntryOf(record, lun) == Bad(InvalidEntry) <==> |record| < 128
    ensures EntryOf(record, lun).Good? <==> |record| >= 128
    ensures var e := EntryOf(record, lun);
            e.Good? ==> (Unused(e.value) <==> forall i :: 0 <= i < 16 ==> record[i] == 0)
  {
    if |record| >= 128 {
      assert forall i :: 0 <= i < 16 ==> record[..16][i] == record[i];
    }
  }

  predicate FitsEntry(e: Entry)
  {
    && |e.typeGuid| == 16 && |e.uniqueGuid| == 16 && Storable(e.name)
    && e.firstLba < Pow256(8) && e.lastLba < Pow256(8) && e.attributes < Pow256(8)
  }

  /** An entry record as the UEFI Specification lays it out, section 5.3.3. */
  function EntryBytes(e: Entry, size: nat): (record: seq<byte>)
    requires FitsEntry(e) && size >= RECORD
    ensures |record| == size
  {
    e.typeGuid + (e.uniqueGuid + (LeBytes(e.firstLba, 8) + (LeBytes(e.lastLba, 8) + (LeBytes(e.attributes, 8) +
    (NameField(e.name) + Zeros(size - RECORD))))))
  }

  lemma EntryReadsBack(e: Entry, size: nat)
    requires FitsEntry(e) && size >= RECORD
    ensures EntryOf(EntryBytes(e, size), e.lun) == Good(e)
  {
    hide LeBytes, Le, Pow256, Field, NameField, DecodeName;
    var data := EntryBytes(e, size);
    var at56 := NameField(e.name) + Zeros(size - RECORD);
    var at48 := LeBytes(e.attributes, 8) + at56;
    var at40 := LeBytes(e.lastLba, 8) + at48;
    var at32 := LeBytes(e.firstLba, 8) + at40;
    var at16 := e.uniqueGuid + at32;
    assert data[0..] == data;
    Peel(data, 0, e.typeGuid, at16);
    Peel(data, 16, e.uniqueGuid, at32);
    PeelField(data, 32, e.firstLba, 8, at40);
    PeelField(data, 40, e.lastLba, 8, at48);
    PeelField(data, 48, e.attributes, 8, at56);
    Peel(data, 56, NameField(e.name), Zeros(size - RECORD));
    NameReadsBack(e.name);
  }

  // ----- The entry array -----

  /** How many whole records the loop reads before the data runs out. */
  function Whole(data: seq<byte>, num: nat, size: nat): (n: nat)
    ensures n <= num
    ensures n * size <= |data|
  {
    if size == 0 then num
    else
      MulMonotone(size, Min(num, |data| / size), |data| / size);
      Min(num, |data| / size)
  }

  lemma WholeNext(data: seq<byte>, num: nat, size: nat, i: nat)
    requires i < num
    ensures i * size + size <= |data| <==> i < Whole(data, num, size)
  {
    if size > 0 {
      if i < |data| / size {
        MulMonotone(size, i + 1, |data| / size);
      } else {
        MulMonotone(size, |data| / size + 1, i + 1);
      }
    }
  }

  function RecordAt(data: seq<byte>, i: nat, size: nat): (record: seq<byte>)
    requires (i + 1) * size <= |data|
    ensures |record| == size
  {
    assert (i + 1) * size == i * size + size;
    data[i * size..i * size + size]
  }

  /** The entries in use among the first n records, in order. */
  function Kept(data: seq<byte>, n: nat, size: nat, lun: nat): (entries: seq<Entry>)
    requires n * size <= |data| && size >= RECORD
    ensures |entries| <= n
  {
    if n == 0 then []
    else
      var e := EntryOf(RecordAt(data, n - 1, size), lun).value;
      Kept(data, n - 1, size, lun) + if Unused(e) then [] else [e]
  }

  function EntriesOf(data: seq<byte>, num: nat, size: nat, lun: nat): (r: Parsed<seq<Entry>>)
  {
    var n := Whole(data, num, size);
    if n > 0 && size < RECORD then Bad(InvalidEntry)
    else if n == 0 then Good([])
    else Good(Kept(data, n, size, lun))
  }

  function TableOf(lba1: seq<byte>, data: seq<byte>, lun: nat): (r: Parsed<Table>)
  {
    var h := HeaderOf(lba1);
    if h.Bad? then Bad(h.error)
    else if !HeaderCrcOk(h.value, lba1) then Bad(CrcMismatch)
    else
      var es := EntriesOf(data, h.value.numEntries, h.value.entrySize, lun);
      if es.Bad? then Bad(es.error) else Good(Table(h.value, es.value, lun))
  }

  method ParseTable(lba1: seq<byte>, data: seq<byte>, lun: nat) returns (r: Parsed<Table>)
    ensures r == TableOf(lba1, data, lun)
  {
    hide HeaderOf, HeaderCrcOk, EntryOf;
    var parsed := HeaderOf(lba1);
    if parsed.Bad? {
      return Bad(parsed.error);
    }
    var header := parsed.value;
    var ok := VerifyHeaderCrc(header, lba1);
    if !ok {
      return Bad(CrcMismatch);
    }
    var entries := ParseEntries(data, header.numEntries, header.entrySize, lun);
    if entries.Bad? {
      return Bad(entries.error);
    }
    return Good(Table(header, entries.value, lun));
  }

  /** The loop over the records, which stops early when the data is short. */
  method ParseEntries(data: seq<byte>, num: nat, size: nat, lun: nat) returns (r: Parsed<seq<Entry>>)
    ensures r == EntriesOf(data, num, size, lun)
  {
    hide Whole, Field, DecodeName, Le, Unused, EntryOf;
    var entries: seq<Entry> := [];
    ghost var n := Whole(data, num, size);
    var i := 0;
    while i < num
      invariant i <= n
      invariant i > 0 ==> size >= RECORD
      invariant i * size <= |data|
      invariant entries == if i == 0 then [] else Kept(data, i, size, lun)
    {
      WholeNext(data, num, size, i);
      var offset := i * size;
      if offset + size > |data| {
        break;
      }
      assert (i + 1) * size == offset + size;
      var entry := EntryOf(data[offset..offset + size], lun);
      EntryNeedsRecord(data[offset..offset + size], lun);
      if entry.Bad? {
        return Bad(entry.error);
      }
      assert RecordAt(data, i, size) == data[offset..offset + size];
      if !Unused(entry.value) {
        entries := entries + [entry.value];
      }
      i := i + 1;
    }
    return Good(entries);
  }

  // ----- Written tables read back -----

  predicate FitsArray(slots: seq<Entry>, lun: nat)
  {
    forall i :: 0 <= i < |slots| ==> FitsEntry(slots[i]) && slots[i].lun == lun
  }

  /** All the slots of an array as bytes. */
  function ArrayBytes(slots: seq<Entry>, size: nat, lun: nat): (data: seq<byte>)
    requires FitsArray(slots, lun) && size >= RECORD
    ensures |data| == |slots| * size
  {
    if slots == [] then []
    else
      var k := |slots| - 1;
      assert (k + 1) * size == k * size + size;
      ArrayBytes(slots[..k], size, lun) + EntryBytes(slots[k], size)
  }

  /** The slots in use, in order. */
  function Used(slots: seq<Entry>): (entries: seq<Entry>)
  {
    if slots == [] then []
    else Used(slots[..|slots| - 1]) + if Unused(slots[|slots| - 1]) then [] else [slots[|slots| - 1]]
  }

  lemma UnusedIsZeros(e: Entry)
    ensures Unused(e) <==> e.typeGuid == [0, 0, 0, 0, 0, 0, 0, 0, 0, 0, 0, 0, 0, 0, 0, 0]
  {
  }

  lemma LastSlot(slots: seq<Entry>, s: Entry)
    ensures Used(slots + [s]) == Used(slots) + if Unused(s) then [] else [s]
  {
    assert (slots + [s])[..|slots|] == slots;
  }

  /** The slots in use are the ones whose type is not all zeros, each as often as it is there. */
  lemma {:induction false} UsedAreTyped(slots: seq<Entry>, e: Entry)
    ensures multiset(Used(slots))[e] ==
            if e.typeGuid == [0, 0, 0, 0, 0, 0, 0, 0, 0, 0, 0, 0, 0, 0, 0, 0] then 0 else multiset(slots)[e]
  {
    UnusedIsZeros(e);
    if slots != [] {
      var before, last := slots[..|slots| - 1], slots[|slots| - 1];
      assert slots == before + [last];
      LastSlot(before, last);
      UsedAreTyped(before, e);
      hide Used, Unused;
    }
  }

  /** And they are in order: the slots of a longer array in use are those of its first part, then of the rest. */
  lemma {:induction false} UsedInOrder(slots: seq<Entry>, more: seq<Entry>)
    ensures Used(slots + more) == Used(slots) + Used(more)
  {
    assert Used([]) == [];
    hide Used, Unused;
    if more == [] {
      assert slots + more == slots && Used(slots) + [] == Used(slots);
    } else {
      var before, last := more[..|more| - 1], more[|more| - 1];
      assert more == before + [last] && slots + more == slots + before + [last];
      LastSlot(before, last);
      LastSlot(slots + before, last);
      UsedInOrder(slots, before);
    }
  }

  lemma {:induction false} KeptIsUsed(slots: seq<Entry>, size: nat, lun: nat, rest: seq<byte>)
    requires FitsArray(slots, lun) && size >= RECORD
    ensures Kept(ArrayBytes(slots, size, lun) + rest, |slots|, size, lun) == Used(slots)
    decreases |slots|
  {
    if slots != [] {
      hide EntryOf, EntryBytes, FitsEntry, Unused;
      var k := |slots| - 1;
      var before, last := ArrayBytes(slots[..k], size, lun), EntryBytes(slots[k], size);
      KeptIsUsed(slots[..k], size, lun, last + rest);
      EntryReadsBack(slots[k], size);
      AppendAssoc(before, last, rest);
      KeptLast(before, last, rest, k, size, lun);
    }
  }

  lemma KeptLast(before: seq<byte>, last: seq<byte>, rest: seq<byte>, k: nat, size: nat, lun: nat)
    requires |before| == k * size && |last| == size >= RECORD
    ensures (k + 1) * size <= |before + (last + rest)|
    ensures var e := EntryOf(last, lun).value;
            Kept(before + (last + rest), k + 1, size, lun) ==
            Kept(before + (last + rest), k, size, lun) + if Unused(e) then [] else [e]
  {
    hide EntryOf, Unused;
    assert (k + 1) * size == k * size + size;
    assert RecordAt(before + (last + rest), k, size) == last;
  }

  /** When the data covers the whole array, no record is cut off: parsing finds the used slots, in order. */
  lemma ArrayReadsBack(slots: seq<Entry>, size: nat, lun: nat, rest: seq<byte>)
    requires FitsArray(slots, lun) && size >= RECORD
    ensures EntriesOf(ArrayBytes(slots, size, lun) + rest, |slots|, size, lun) == Good(Used(slots))
  {
    hide EntryOf;
    KeptIsUsed(slots, size, lun, rest);
    WholeCovers(ArrayBytes(slots, size, lun) + rest, |slots|, size);
  }

  /** The truncation break never fires when the data covers the array. */
  lemma WholeCovers(data: seq<byte>, num: nat, size: nat)
    requires num * size <= |data|
    ensures Whole(data, num, size) == num
  {
    if num > 0 {
      assert (num - 1) * size + size == num * size;
      WholeNext(data, num, size, num - 1);
    }
  }
}
