/** Expansion of Android sparse images, in the units the code reads. */
module Sparse {
  import opened Bytes

  const SPARSE_HEADER_MAGIC: nat := 0xED26FF3A
  const HEADER_SIZE: nat := 28
  const CHUNK_HEADER_SIZE: nat := 12
  const CAPACITY_LIMIT: nat := 0x7FFF_FFFF_FFFF_FFFF // the largest buffer a vector may ask for

  datatype ChunkType = RawType | FillType | DontCareType | Crc32Type

  function ChunkTypeOf(v: nat): (t: Option<ChunkType>)
  {
    if v == 0xCAC1 then Some(RawType)
    else if v == 0xCAC2 then Some(FillType)
    else if v == 0xCAC3 then Some(DontCareType)
    else if v == 0xCAC4 then Some(Crc32Type)
    else None
  }

  function CodeOf(t: ChunkType): (v: nat)
    ensures v < 0x1_0000 && ChunkTypeOf(v) == Some(t)
  {
    match t
    case RawType => 0xCAC1
    case FillType => 0xCAC2
    case DontCareType => 0xCAC3
    case Crc32Type => 0xCAC4
  }

  /** The codes of the four kinds of chunk; no other number names one. */
  lemma ChunkCodes(v: nat)
    ensures ChunkTypeOf(v).Some? <==> 0xCAC1 <= v <= 0xCAC4
    ensures ChunkTypeOf(v) == Some(RawType) <==> v == CodeOf(RawType) == 0xCAC1
    ensures ChunkTypeOf(v) == Some(FillType) <==> v == CodeOf(FillType) == 0xCAC2
    ensures ChunkTypeOf(v) == Some(DontCareType) <==> v == CodeOf(DontCareType) == 0xCAC3
    ensures ChunkTypeOf(v) == Some(Crc32Type) <==> v == CodeOf(Crc32Type) == 0xCAC4
  {
  }

  /** The header fields the expansion uses. */
  datatype Header = Header(fileHdrSz: nat, chunkHdrSz: nat, blkSz: nat, totalBlks: nat)

  function HeaderOf(data: seq<byte>): (h: Option<Header>)
  {
    if |data| < HEADER_SIZE || Le(data[0..4]) != SPARSE_HEADER_MAGIC then None
    else Some(Header(Le(data[8..10]), Le(data[10..12]), Le(data[12..16]), Le(data[16..20])))
  }

  /** Panics: the extra-header subtraction underflows, or the declared size exceeds any capacity. NeverEnds: a
      hole is skipped in steps of nothing. */
  datatype Expansion = Expanded(bytes: seq<byte>) | Malformed | Panics | NeverEnds

  function Before(head: seq<byte>, e: Expansion): (e': Expansion)
  {
    if e.Expanded? then Expanded(head + e.bytes) else e
  }

  /** The four bytes of a fill chunk. */
  type Word = s: seq<byte> | |s| == 4 witness [0, 0, 0, 0]

  /** One block of a fill chunk: the four bytes repeated; a rest of the block stays zero. */
  function FillBlock(value: Word, blkSz: nat): (block: seq<byte>)
    ensures |block| == blkSz
  {
    seq(blkSz, i requires 0 <= i < blkSz => if i < blkSz - blkSz % 4 then value[i % 4] else 0)
  }

  function Repeat(block: seq<byte>, n: nat): (bytes: seq<byte>)
  {
    if n == 0 then [] else block + Repeat(block, n - 1)
  }

  /** What the chunks in `rest` expand to. A chunk header that does not fit ends the image. */
  function ExpandChunks(rest: seq<byte>, h: Header): (e: Expansion)
    decreases |rest|
  {
    if |rest| < h.chunkHdrSz then Expanded([])
    else if h.chunkHdrSz < CHUNK_HEADER_SIZE then Malformed
    else
      var body := rest[h.chunkHdrSz..];
      var size := Le(rest[4..8]);
      match ChunkTypeOf(Le(rest[0..2]))
      case None => Malformed
      case Some(RawType) =>
        if |body| < size then Malformed else Before(body[..size], ExpandChunks(body[size..], h))
      case Some(FillType) =>
        if |body| < 4 then Malformed
        else Before(Repeat(FillBlock(body[..4], h.blkSz), size / 4), ExpandChunks(body[4..], h))
      case Some(DontCareType) =>
        if size > 0 && h.blkSz == 0 then NeverEnds else Before(Zeros(size), ExpandChunks(body, h))
      case Some(Crc32Type) =>
        ExpandChunks(body[Min(size, |body|)..], h)
  }

  predicate HeaderPanics(h: Header)
  {
    h.fileHdrSz < HEADER_SIZE || h.totalBlks * h.blkSz > CAPACITY_LIMIT
  }

  function Expand(data: seq<byte>): (e: Expansion)
  {
    match HeaderOf(data)
    case None => Malformed
    case Some(h) =>
      if HeaderPanics(h) then Panics
      else ExpandChunks(data[Min(h.fileHdrSz, |data|)..], h)
  }

  // ----- What an encoded chunk list means -----

  datatype Chunk =
    | Raw(data: seq<byte>)
    | Fill(value: Word, size: nat)
    | DontCare(size: nat)
    | Crc(skipped: seq<byte>)

  /** A chunk with the header bytes the expansion ignores. */
  datatype Record = Record(chunk: Chunk, reserved: seq<byte>, total: seq<byte>, extra: seq<byte>)

  function TypeOf(c: Chunk): (t: ChunkType)
  {
    match c
    case Raw(_) => RawType
    case Fill(_, _) => FillType
    case DontCare(_) => DontCareType
    case Crc(_) => Crc32Type
  }

  function SizeField(c: Chunk): (size: nat)
  {
    match c
    case Raw(data) => |data|
    case Fill(_, size) => size
    case DontCare(size) => size
    case Crc(skipped) => |skipped|
  }

  function Body(c: Chunk): (bytes: seq<byte>)
  {
    match c
    case Raw(data) => data
    case Fill(value, _) => value
    case DontCare(_) => []
    case Crc(skipped) => skipped
  }

  function Meaning(c: Chunk, blkSz: nat): (bytes: seq<byte>)
  {
    match c
    case Raw(data) => data
    case Fill(value, size) => Repeat(FillBlock(value, blkSz), size / 4)
    case DontCare(size) => Zeros(size)
    case Crc(_) => []
  }

  lemma {:induction false} RepeatAt(block: seq<byte>, n: nat, i: nat)
    requires |block| > 0
    ensures |Repeat(block, n)| == n * |block|
    ensures i < n * |block| ==> Repeat(block, n)[i] == block[i % |block|]
  {
    if n > 0 {
      RepeatAt(block, n - 1, if i < |block| then 0 else i - |block|);
      assert n * |block| == |block| + (n - 1) * |block|;
      if i >= |block| {
        OneBlockLess(i, |block|);
      }
    }
  }

  lemma OneBlockLess(i: nat, m: nat)
    requires 0 < m <= i
    ensures i % m == (i - m) % m
  {
    DivModUnique(i, m, 1 + (i - m) / m, (i - m) % m);
  }

  /** What a fill chunk leaves, byte by byte: as many blocks as its size counts words, each the four bytes over and
      over, with zeros where a block size is no multiple of four. */
  lemma FilledByte(value: Word, size: nat, blkSz: nat, i: nat)
    requires blkSz > 0 && i < size / 4 * blkSz
    ensures var bytes := Meaning(Fill(value, size), blkSz);
            && |bytes| == size / 4 * blkSz
            && bytes[i] == (if i % blkSz < blkSz / 4 * 4 then value[i % blkSz % 4] else 0)
            && (blkSz % 4 == 0 ==> bytes[i] == value[i % 4])
  {
    RepeatAt(FillBlock(value, blkSz), size / 4, i);
    if blkSz % 4 == 0 {
      ModOfMultiple(i, blkSz / 4);
    }
  }

  lemma ModOfMultiple(i: nat, k: nat)
    requires k > 0
    ensures i % (4 * k) % 4 == i % 4
  {
    assert i == 4 * k * (i / (4 * k)) + i % (4 * k);
    assert 4 * k * (i / (4 * k)) == 4 * (k * (i / (4 * k)));
    DivModUnique(i, 4, k * (i / (4 * k)) + i % (4 * k) / 4, i % (4 * k) % 4);
  }

  predicate Encodable(r: Record, h: Header)
  {
    && h.chunkHdrSz == CHUNK_HEADER_SIZE + |r.extra|
    && |r.reserved| == 2 && |r.total| == 4
    && SizeField(r.chunk) < Pow256(4)
  }

  function EncodeHeader(r: Record): (bytes: seq<byte>)
  {
    LeBytes(CodeOf(TypeOf(r.chunk)), 2) + r.reserved + LeBytes(SizeField(r.chunk), 4) + r.total + r.extra
  }

  function Encode(records: seq<Record>): (bytes: seq<byte>)
  {
    if records == [] then []
    else EncodeHeader(records[0]) + (Body(records[0].chunk) + Encode(records[1..]))
  }

  function Meanings(records: seq<Record>, blkSz: nat): (bytes: seq<byte>)
  {
    if records == [] then [] else Meaning(records[0].chunk, blkSz) + Meanings(records[1..], blkSz)
  }

  lemma HeaderFields(r: Record, h: Header, rest: seq<byte>)
    requires Encodable(r, h)
    ensures var bytes := EncodeHeader(r) + rest;
            && |EncodeHeader(r)| == h.chunkHdrSz >= CHUNK_HEADER_SIZE
            && ChunkTypeOf(Le(bytes[0..2])) == Some(TypeOf(r.chunk))
            && Le(bytes[4..8]) == SizeField(r.chunk)
            && bytes[h.chunkHdrSz..] == rest
  {
    var bytes := EncodeHeader(r) + rest;
    var code, size := CodeOf(TypeOf(r.chunk)), SizeField(r.chunk);
    assert bytes[0..2] == LeBytes(code, 2);
    assert bytes[4..8] == LeBytes(size, 4);
    assert Pow256(2) == 256 * Pow256(1) == 256 * (256 * Pow256(0)) == 0x1_0000;
    LeField(code, 2);
    LeField(size, 4);
  }

  predicate Hole(c: Chunk)
  {
    c.DontCare? && c.size > 0
  }

  /** The chunk lists the expansion never gets through: a non-empty hole, skipped in blocks of no bytes. */
  predicate Hangs(records: seq<Record>, h: Header)
  {
    h.blkSz == 0 && exists i :: 0 <= i < |records| && Hole(records[i].chunk)
  }

  lemma HangsCons(r: Record, records: seq<Record>, h: Header)
    ensures Hangs([r] + records, h) <==> (h.blkSz == 0 && Hole(r.chunk)) || Hangs(records, h)
  {
    var all := [r] + records;
    assert all[0] == r && forall i :: 0 <= i < |records| ==> all[i + 1] == records[i];
    assert forall i :: 0 < i < |all| ==> all[i] == records[i - 1];
  }

  /** One record in front of anything. */
  lemma ExpandsRecord(r: Record, later: seq<byte>, h: Header)
    requires Encodable(r, h)
    ensures ExpandChunks(EncodeHeader(r) + (Body(r.chunk) + later), h) ==
            if h.blkSz == 0 && Hole(r.chunk) then NeverEnds
            else Before(Meaning(r.chunk, h.blkSz), ExpandChunks(later, h))
  {
    hide Le, LeBytes, Repeat, FillBlock, EncodeHeader, ChunkTypeOf, Encodable;
    var body := Body(r.chunk);
    HeaderFields(r, h, body + later);
    assert (body + later)[|body|..] == later && (body + later)[..|body|] == body;
    if r.chunk.DontCare? {
      assert body + later == later;
    }
    var e := ExpandChunks(later, h);
    assert e.Expanded? ==> [] + e.bytes == e.bytes;
  }

  /** An encoded chunk list in front of anything expands to its meaning in front of what the rest expands to,
      or never ends, and the chunk list alone decides which. */
  lemma {:induction false} ExpandsRecords(records: seq<Record>, rest: seq<byte>, h: Header)
    requires forall i :: 0 <= i < |records| ==> Encodable(records[i], h)
    ensures ExpandChunks(Encode(records) + rest, h) ==
            if Hangs(records, h) then NeverEnds else Before(Meanings(records, h.blkSz), ExpandChunks(rest, h))
  {
    hide ExpandChunks, Encodable, EncodeHeader, Body, Meaning, Hole, Hangs;
    if records == [] {
      NothingHangs(h);
      assert Encode(records) + rest == rest;
      BeforeNothing(ExpandChunks(rest, h));
    } else {
      var r, later := records[0], Encode(records[1..]) + rest;
      ExpandsRecords(records[1..], rest, h);
      assert [r] + records[1..] == records;
      HangsCons(r, records[1..], h);
      FrontRecord(records, rest);
      ExpandsRecord(r, later, h);
      BeforeTwice(Meaning(r.chunk, h.blkSz), Meanings(records[1..], h.blkSz), ExpandChunks(rest, h));
    }
  }

  lemma NothingHangs(h: Header)
    ensures !Hangs([], h)
  {
  }

  lemma BeforeNothing(e: Expansion)
    ensures Before([], e) == e
  {
    assert e.Expanded? ==> [] + e.bytes == e.bytes;
  }

  lemma FrontRecord(records: seq<Record>, rest: seq<byte>)
    requires records != []
    ensures Encode(records) + rest ==
            EncodeHeader(records[0]) + (Body(records[0].chunk) + (Encode(records[1..]) + rest))
  {
    hide EncodeHeader, Body;
    var x, y, z := EncodeHeader(records[0]), Body(records[0].chunk), Encode(records[1..]);
    assert x + (y + z) + rest == x + (y + (z + rest));
  }

  /** For every chunk list in the layout the code reads, the expansion is the concatenation of the chunks'
      meanings, whatever the ignored header bytes and a too short trailer hold, unless it never ends. */
  lemma ExpandsEncoded(records: seq<Record>, trailer: seq<byte>, h: Header)
    requires forall i :: 0 <= i < |records| ==> Encodable(records[i], h)
    requires |trailer| < h.chunkHdrSz
    ensures ExpandChunks(Encode(records) + trailer, h) ==
            if Hangs(records, h) then NeverEnds else Expanded(Meanings(records, h.blkSz))
  {
    hide Encodable, Encode, Hangs, Meanings;
    ExpandsRecords(records, trailer, h);
    NoMoreChunks(trailer, h);
    assert Meanings(records, h.blkSz) + [] == Meanings(records, h.blkSz);
  }

  // ----- Whole files -----

  /** The header fields that the expansion ignores: version, number of chunks, checksum. */
  datatype Ignored = Ignored(major: nat, minor: nat, chunks: nat, checksum: nat)

  predicate FitsHeader(h: Header, v: Ignored)
  {
    && h.fileHdrSz < 0x1_0000 && h.chunkHdrSz < 0x1_0000 && v.major < 0x1_0000 && v.minor < 0x1_0000
    && h.blkSz < 0x1_0000_0000 && h.totalBlks < 0x1_0000_0000
    && v.chunks < 0x1_0000_0000 && v.checksum < 0x1_0000_0000
  }

  /** The file header as the Android sparse format lays it out: magic number, version, the two header sizes, block
      size, number of blocks, number of chunks, checksum. */
  function FileHeaderBytes(h: Header, v: Ignored): (bytes: seq<byte>)
    ensures |bytes| == 28
  {
    [0x3A, 0xFF, 0x26, 0xED] + LeBytes(v.major, 2) + LeBytes(v.minor, 2) + LeBytes(h.fileHdrSz, 2) +
    LeBytes(h.chunkHdrSz, 2) + LeBytes(h.blkSz, 4) + LeBytes(h.totalBlks, 4) + LeBytes(v.chunks, 4) +
    LeBytes(v.checksum, 4)
  }

  lemma MagicBytes(data: seq<byte>)
    requires |data| >= 4
    ensures Le(data[0..4]) == SPARSE_HEADER_MAGIC <==> data[..4] == [0x3A, 0xFF, 0x26, 0xED]
  {
    var m: seq<byte> := [0x3A, 0xFF, 0x26, 0xED];
    LeOfFour(data[0..4]);
    LeOfFour(m);
    if data[..4] != m {
      hide Le;
      assert data[0..4] == data[..4] == [data[0], data[1], data[2], data[3]];
    }
  }

  /** Every file header reads back. */
  lemma FileHeaderReadsBack(h: Header, v: Ignored, rest: seq<byte>)
    requires FitsHeader(h, v)
    ensures HeaderOf(FileHeaderBytes(h, v) + rest) == Some(h)
  {
    FieldLimits();
    hide Pow256, Le, LeBytes;
    var data := FileHeaderBytes(h, v) + rest;
    assert data[..4] == [0x3A, 0xFF, 0x26, 0xED];
    MagicBytes(data);
    assert data[8..10] == LeBytes(h.fileHdrSz, 2) && data[10..12] == LeBytes(h.chunkHdrSz, 2);
    assert data[12..16] == LeBytes(h.blkSz, 4) && data[16..20] == LeBytes(h.totalBlks, 4);
    LeField(h.fileHdrSz, 2);
    LeField(h.chunkHdrSz, 2);
    LeField(h.blkSz, 4);
    LeField(h.totalBlks, 4);
  }

  lemma FieldLimits()
    ensures Pow256(2) == 0x1_0000 && Pow256(4) == 0x1_0000_0000
  {
    assert Pow256(1) == 256 * Pow256(0) && Pow256(2) == 256 * Pow256(1);
    assert Pow256(3) == 256 * Pow256(2) && Pow256(4) == 256 * Pow256(3);
  }

  /** The whole file, from its bytes: header, any header extension, chunks, a trailer too short for a chunk. */
  lemma ExpandsFile(h: Header, v: Ignored, extension: seq<byte>, records: seq<Record>, trailer: seq<byte>)
    requires FitsHeader(h, v) && h.fileHdrSz == 28 + |extension|
    requires forall i :: 0 <= i < |records| ==> Encodable(records[i], h)
    requires |trailer| < h.chunkHdrSz
    ensures Expand(FileHeaderBytes(h, v) + (extension + (Encode(records) + trailer))) ==
            if h.totalBlks * h.blkSz > 0x7FFF_FFFF_FFFF_FFFF then Panics
            else if Hangs(records, h) then NeverEnds
            else Expanded(Meanings(records, h.blkSz))
  {
    hide FileHeaderBytes, HeaderOf, Encodable, Encode, Hangs, Meanings, Expand;
    var body := Encode(records) + trailer;
    var data := FileHeaderBytes(h, v) + (extension + body);
    FileHeaderReadsBack(h, v, extension + body);
    assert data[h.fileHdrSz..] == body;
    ExpandsBehindHeader(data, records, trailer, h);
  }

  lemma ExpandsBehindHeader(data: seq<byte>, records: seq<Record>, trailer: seq<byte>, h: Header)
    requires HeaderOf(data) == Some(h) && HEADER_SIZE <= h.fileHdrSz <= |data|
    requires data[h.fileHdrSz..] == Encode(records) + trailer
    requires forall i :: 0 <= i < |records| ==> Encodable(records[i], h)
    requires |trailer| < h.chunkHdrSz
    ensures Expand(data) ==
            if HeaderPanics(h) then Panics
            else if Hangs(records, h) then NeverEnds
            else Expanded(Meanings(records, h.blkSz))
  {
    hide HeaderOf, Encodable, Encode, Hangs, Meanings, ExpandChunks;
    ExpandsEncoded(records, trailer, h);
  }

  /** The header in front of `rest`, taken apart into a record's header fields. */
  lemma HeaderSplits(rest: seq<byte>, h: Header, t: ChunkType)
    requires |rest| >= h.chunkHdrSz >= CHUNK_HEADER_SIZE && ChunkTypeOf(Le(rest[0..2])) == Some(t)
    ensures Le(rest[4..8]) < Pow256(4)
    ensures rest[..h.chunkHdrSz] ==
            LeBytes(CodeOf(t), 2) + rest[2..4] + LeBytes(Le(rest[4..8]), 4) + rest[8..12] + rest[12..h.chunkHdrSz]
  {
    LeBound(rest[4..8]);
    LeBytesOfLe(rest[0..2]);
    LeBytesOfLe(rest[4..8]);
  }

  /** One more record in front of an encoded list. */
  lemma EncodesOneMore(rest: seq<byte>, h: Header, c: Chunk, later: seq<byte>, records: seq<Record>, tail: seq<byte>)
    returns (r: Record)
    requires |rest| >= h.chunkHdrSz >= CHUNK_HEADER_SIZE && ChunkTypeOf(Le(rest[0..2])) == Some(TypeOf(c))
    requires Le(rest[4..8]) == SizeField(c)
    requires later == Body(c) + (Encode(records) + tail)
    ensures r.chunk == c && Encodable(r, h)
    ensures rest[..h.chunkHdrSz] + later == Encode([r] + records) + tail
  {
    r := Record(c, rest[2..4], rest[8..12], rest[12..h.chunkHdrSz]);
    HeaderSplits(rest, h, TypeOf(c));
    assert ([r] + records)[1..] == records;
    var x, y, z := EncodeHeader(r), Body(c), Encode(records);
    assert x + (y + (z + tail)) == x + (y + z) + tail;
  }

  /** Whether the chunk in front is a CRC chunk whose skipped bytes are not all there. */
  predicate ShortCrc(rest: seq<byte>, h: Header)
  {
    && |rest| >= h.chunkHdrSz >= CHUNK_HEADER_SIZE
    && ChunkTypeOf(Le(rest[0..2])) == Some(Crc32Type)
    && Le(rest[4..8]) > |rest| - h.chunkHdrSz
  }

  /** The chunk in front of something that expands or never ends, and what follows it. */
  lemma ChunkInFront(rest: seq<byte>, h: Header) returns (c: Chunk, later: seq<byte>)
    requires ExpandChunks(rest, h).Expanded? || ExpandChunks(rest, h).NeverEnds?
    requires |rest| >= h.chunkHdrSz && !ShortCrc(rest, h)
    ensures h.chunkHdrSz >= CHUNK_HEADER_SIZE
    ensures ChunkTypeOf(Le(rest[0..2])) == Some(TypeOf(c)) && Le(rest[4..8]) == SizeField(c)
    ensures rest[h.chunkHdrSz..] == Body(c) + later && |later| < |rest|
    ensures ExpandChunks(rest, h) ==
            if h.blkSz == 0 && Hole(c) then NeverEnds else Before(Meaning(c, h.blkSz), ExpandChunks(later, h))
  {
    hide Le, Repeat, FillBlock;
    var body, size := rest[h.chunkHdrSz..], Le(rest[4..8]);
    match ChunkTypeOf(Le(rest[0..2])).value
    case RawType =>
      c, later := Raw(body[..size]), body[size..];
    case FillType =>
      c, later := Fill(body[..4], size), body[4..];
    case DontCareType =>
      c, later := DontCare(size), body;
    case Crc32Type =>
      c, later := Crc(body[..size]), body[size..];
      var e := ExpandChunks(later, h);
      assert e.Expanded? ==> [] + e.bytes == e.bytes;
  }

  /** The converse: whatever expands is an encoded chunk list. All that can be missing is the end of a last
      CRC chunk, which the expansion does not ask for. */
  lemma {:induction false} ExpandedIsEncoded(rest: seq<byte>, h: Header)
    returns (records: seq<Record>, trailer: seq<byte>, missing: seq<byte>)
    requires ExpandChunks(rest, h).Expanded?
    ensures forall i :: 0 <= i < |records| ==> Encodable(records[i], h)
    ensures |trailer| < h.chunkHdrSz && rest + missing == Encode(records) + trailer
    ensures missing != [] ==> records != [] && records[|records| - 1].chunk.Crc?
    ensures ExpandChunks(rest, h) == Expanded(Meanings(records, h.blkSz))
    decreases |rest|
  {
    hide Le, LeBytes, Encodable, FillBlock, EncodeHeader, ChunkTypeOf, Repeat, ExpandChunks;
    if |rest| < h.chunkHdrSz {
      NoMoreChunks(rest, h);
      assert rest + [] == [] + rest;
      return [], rest, [];
    }
    var head, body := rest[..h.chunkHdrSz], rest[h.chunkHdrSz..];
    if ShortCrc(rest, h) {
      records, missing := ShortCrcIsEncoded(rest, h);
      return records, [], missing;
    }
    var c, later := ChunkInFront(rest, h);
    var others;
    others, trailer, missing := ExpandedIsEncoded(later, h);
    AppendAssoc(Body(c), later, missing);
    AppendAssoc(head, body, missing);
    assert rest == head + body;
    var r := EncodesOneMore(rest, h, c, body + missing, others, trailer);
    records := [r] + others;
    assert records[1..] == others;
  }

  lemma NoMoreChunks(rest: seq<byte>, h: Header)
    requires |rest| < h.chunkHdrSz
    ensures ExpandChunks(rest, h) == Expanded([])
  {
  }

  lemma ShortCrcEnds(rest: seq<byte>, h: Header)
    requires ShortCrc(rest, h)
    ensures ExpandChunks(rest, h) == Expanded([])
  {
    hide Le;
    NoMoreChunks([], h);
    var body := rest[h.chunkHdrSz..];
    assert body[|body|..] == [];
  }

  lemma ShortCrcIsEncoded(rest: seq<byte>, h: Header) returns (records: seq<Record>, missing: seq<byte>)
    requires ShortCrc(rest, h)
    ensures |records| == 1 && records[0].chunk.Crc? && Encodable(records[0], h)
    ensures rest + missing == Encode(records) + []
    ensures ExpandChunks(rest, h) == Expanded(Meanings(records, h.blkSz))
  {
    hide Le, LeBytes, EncodeHeader, ExpandChunks, Encodable;
    var head, body := rest[..h.chunkHdrSz], rest[h.chunkHdrSz..];
    missing := Zeros(Le(rest[4..8]) - |body|);
    ShortCrcEnds(rest, h);
    assert body + missing == body + missing + (Encode([]) + []);
    var r := EncodesOneMore(rest, h, Crc(body + missing), body + missing, [], []);
    records := [r] + [];
    assert Meanings(records, h.blkSz) == [] + Meanings([], h.blkSz);
    AppendAssoc(head, body, missing);
    assert rest == head + body;
  }

  lemma NoRecords(rest: seq<byte>)
    ensures Encode([]) + rest == rest
  {
  }

  /** `rest` starts with an encoded chunk list that the expansion does not get through. */
  ghost predicate StartsHanging(rest: seq<byte>, h: Header, records: seq<Record>, later: seq<byte>)
  {
    && rest == Encode(records) + later
    && (forall i :: 0 <= i < |records| ==> Encodable(records[i], h))
    && Hangs(records, h)
  }

  lemma {:induction false} HangStartsWithRecords(rest: seq<byte>, h: Header)
    returns (records: seq<Record>, later: seq<byte>)
    requires ExpandChunks(rest, h).NeverEnds?
    ensures StartsHanging(rest, h, records, later)
    decreases |rest|
  {
    hide Le, LeBytes, Encodable, EncodeHeader, ChunkTypeOf, ExpandChunks, Hangs, Meaning, Body, Hole, TypeOf, SizeField;
    if |rest| < h.chunkHdrSz {
      NoMoreChunks(rest, h);
    }
    if ShortCrc(rest, h) {
      ShortCrcEnds(rest, h);
    }
    var head, body := rest[..h.chunkHdrSz], rest[h.chunkHdrSz..];
    var c, after := ChunkInFront(rest, h);
    var others: seq<Record> := [];
    later := after;
    if h.blkSz == 0 && Hole(c) {
      NoRecords(after);
    } else {
      others, later := HangStartsWithRecords(after, h);
    }
    var r := EncodesOneMore(rest, h, c, body, others, later);
    HangsCons(r, others, h);
    records := [r] + others;
    assert rest == head + body;
  }

  /** The loop never ends on exactly the inputs that start with an encoded chunk list which holds a non-empty
      hole while the header declares blocks of no bytes. */
  lemma HangsExactly(rest: seq<byte>, h: Header)
    ensures ExpandChunks(rest, h).NeverEnds? <==> exists records, later :: StartsHanging(rest, h, records, later)
  {
    hide ExpandChunks, StartsHanging;
    if ExpandChunks(rest, h).NeverEnds? {
      var records, later := HangStartsWithRecords(rest, h);
    }
    forall records, later | StartsHanging(rest, h, records, later)
      ensures ExpandChunks(rest, h).NeverEnds?
    {
      HangingStartHangs(rest, h, records, later);
    }
  }

  lemma HangingStartHangs(rest: seq<byte>, h: Header, records: seq<Record>, later: seq<byte>)
    requires StartsHanging(rest, h, records, later)
    ensures ExpandChunks(rest, h).NeverEnds?
  {
    hide Encodable, ExpandChunks, Hangs, Encode;
    ExpandsRecords(records, later, h);
  }

  /** Only the header can make a file panic, and then it does. */
  lemma FilePanicsExactly(data: seq<byte>)
    ensures Expand(data).Panics? <==>
              && |data| >= 28 && data[..4] == [0x3A, 0xFF, 0x26, 0xED]
              && (Le(data[8..10]) < 28 || Le(data[16..20]) * Le(data[12..16]) > 0x7FFF_FFFF_FFFF_FFFF)
  {
    if |data| >= 4 {
      MagicBytes(data);
    }
    match HeaderOf(data)
    case None =>
    case Some(h) =>
      NoPanicInChunks(data[Min(h.fileHdrSz, |data|)..], h);
  }

  /** Forty bytes that are never done: a header with a block size of zero and a hole of one byte. */
  function HangingFile(): (data: seq<byte>)
    ensures |data| == 40
  {
    [0x3A, 0xFF, 0x26, 0xED, 1, 0, 0, 0, 28, 0, 12, 0] + Zeros(16) + [0xC3, 0xCA, 0, 0, 1, 0, 0, 0, 12, 0, 0, 0]
  }

  const HANGING_HEADER := Header(28, 12, 0, 0)
  const HOLE_OF_ONE := Record(DontCare(1), [0, 0], [12, 0, 0, 0], [])

  lemma HangingFileHeader()
    ensures HeaderOf(HangingFile()) == Some(HANGING_HEADER)
  {
    hide Le;
    var data := HangingFile();
    LeOfFour(data[0..4]);
    LeOfTwo(data[8..10]);
    LeOfTwo(data[10..12]);
    LeOfFour(data[12..16]);
    LeOfFour(data[16..20]);
  }

  lemma HangingFileBody()
    ensures HangingFile()[28..] == Encode([HOLE_OF_ONE]) + []
    ensures Encodable(HOLE_OF_ONE, HANGING_HEADER)
  {
    hide Le, LeBytes;
    TwoAndFourBytes(0xCAC3, 1);
    var r := HOLE_OF_ONE;
    assert EncodeHeader(r) == [0xC3, 0xCA] + [0, 0] + [1, 0, 0, 0] + [12, 0, 0, 0] + [];
    assert HangingFile()[28..] == EncodeHeader(r);
    assert Encode([r]) == EncodeHeader(r) + ([] + Encode([]));
    assert Pow256(4) >= 256 * Pow256(3) > 1;
  }

  lemma HangingFileNeverEnds()
    ensures Expand(HangingFile()) == NeverEnds
  {
    hide Expand, HangingFile, HeaderOf, Encode, Encodable;
    HangingFileHeader();
    HangingFileBody();
    assert Hole([HOLE_OF_ONE][0].chunk);
    ExpandsBehindHeader(HangingFile(), [HOLE_OF_ONE], [], HANGING_HEADER);
  }

  lemma LeOfTwo(s: seq<byte>)
    requires |s| == 2
    ensures Le(s) == s[0] as nat + 256 * (s[1] as nat)
  {
    assert s[1..][1..] == [];
    assert Le(s[1..]) == s[1] as nat + 256 * Le([]);
  }

  lemma LeOfFour(s: seq<byte>)
    requires |s| == 4
    ensures Le(s) == s[0] as nat + 0x100 * (s[1] as nat) + 0x1_0000 * (s[2] as nat) + 0x100_0000 * (s[3] as nat)
  {
    LeOfTwo(s[2..]);
    assert s[1..][1..] == s[2..];
    assert Le(s[1..]) == s[1] as nat + 256 * Le(s[2..]);
  }

  lemma TwoAndFourBytes(code: nat, size: nat)
    requires code < 0x1_0000 && size < 256
    ensures LeBytes(code, 2) == [(code % 256) as byte, (code / 256) as byte]
    ensures LeBytes(size, 4) == [size as byte, 0, 0, 0]
  {
    assert LeBytes(0, 2) == [0, 0];
    assert LeBytes(0, 3) == [0] + LeBytes(0, 2);
  }

  lemma {:induction false} NoPanicInChunks(rest: seq<byte>, h: Header)
    ensures !ExpandChunks(rest, h).Panics?
    decreases |rest|
  {
    if |rest| >= h.chunkHdrSz >= CHUNK_HEADER_SIZE {
      var body := rest[h.chunkHdrSz..];
      var size := Le(rest[4..8]);
      match ChunkTypeOf(Le(rest[0..2]))
      case None =>
      case Some(RawType) =>
        if |body| >= size { NoPanicInChunks(body[size..], h); }
      case Some(FillType) =>
        if |body| >= 4 { NoPanicInChunks(body[4..], h); }
      case Some(DontCareType) =>
        NoPanicInChunks(body, h);
      case Some(Crc32Type) =>
        NoPanicInChunks(body[Min(size, |body|)..], h);
    }
  }

  // ----- The expander -----

  /** Where `expand_to_vec` collects its output, with the block buffer it reuses for every fill. */
  class Sink {
    var output: seq<byte>
    const fillBlock: array<byte>

    ghost predicate Valid()
      reads this, fillBlock
    {
      forall i :: fillBlock.Length - fillBlock.Length % 4 <= i < fillBlock.Length ==> fillBlock[i] == 0
    }

    constructor (blkSz: nat)
      ensures Valid() && output == [] && fresh(fillBlock) && fillBlock.Length == blkSz
    {
      output := [];
      fillBlock := new byte[blkSz](_ => 0);
    }

    method OnFill(value: Word)
      requires Valid()
      modifies this, fillBlock
      ensures Valid() && output == old(output) + FillBlock(value, fillBlock.Length)
    {
      var whole := fillBlock.Length - fillBlock.Length % 4;
      var i := 0;
      while i < whole
        invariant 0 <= i <= whole && Valid() && output == old(output)
        invariant forall k :: 0 <= k < i ==> fillBlock[k] == value[k % 4]
      {
        fillBlock[i] := value[i % 4];
        i := i + 1;
      }
      assert fillBlock[..] == FillBlock(value, fillBlock.Length);
      output := output + fillBlock[..];
    }

    method OnBytes(bytes: seq<byte>)
      modifies `output
      ensures output == old(output) + bytes
    {
      output := output + bytes;
    }
  }

  datatype Progress = Finished | Broken(e: Expansion)

  class SparseExpander {
    const data: seq<byte>
    const header: Header
    var pos: nat

    constructor (data: seq<byte>, header: Header, pos: nat)
      requires pos <= |data|
      ensures this.data == data && this.header == header && this.pos == pos
    {
      this.data := data;
      this.header := header;
      this.pos := pos;
    }

    /** `read_exact` on the in-memory reader. */
    method ReadExact(n: nat) returns (bytes: Option<seq<byte>>)
      requires pos <= |data|
      modifies this
      ensures bytes == if |data| - old(pos) < n then None else Some(data[old(pos)..old(pos) + n])
      ensures pos == if bytes.None? then |data| else old(pos) + n
    {
      if |data| - pos < n {
        bytes, pos := None, |data|;
      } else {
        bytes, pos := Some(data[pos..pos + n]), pos + n;
      }
    }

    /** The type code and size of the next chunk header; a header that does not fit is the end. */
    method ReadChunkHeader() returns (r: Option<(nat, nat)>)
      requires pos <= |data| && header.chunkHdrSz >= CHUNK_HEADER_SIZE
      modifies this
      ensures pos <= |data|
      ensures var rest := old(data[pos..]);
              if |rest| < header.chunkHdrSz then r == None
              else r == Some((Le(rest[0..2]), Le(rest[4..8]))) && data[pos..] == rest[header.chunkHdrSz..]
    {
      ghost var rest := data[pos..];
      var hdr := ReadExact(header.chunkHdrSz);
      if hdr.None? {
        return None;
      }
      assert hdr.value == rest[..header.chunkHdrSz];
      assert hdr.value[0..2] == rest[0..2] && hdr.value[4..8] == rest[4..8];
      r := Some((Le(hdr.value[0..2]), Le(hdr.value[4..8])));
    }

    method EmitFill(sink: Sink, value: Word, blocks: nat)
      requires sink.Valid() && sink.fillBlock.Length == header.blkSz
      modifies sink, sink.fillBlock
      ensures sink.Valid() && sink.output == old(sink.output) + Repeat(FillBlock(value, header.blkSz), blocks)
    {
      var block := FillBlock(value, header.blkSz);
      assert old(sink.output) + [] == old(sink.output);
      for i := 0 to blocks
        invariant sink.Valid() && sink.output == old(sink.output) + Repeat(block, i)
      {
        RepeatOneMore(block, i);
        sink.OnFill(value);
      }
    }

    method EmitHole(sink: Sink, size: nat) returns (ends: bool)
      requires sink.Valid() && sink.fillBlock.Length == header.blkSz
      modifies sink`output
      ensures ends <==> size == 0 || header.blkSz > 0
      ensures ends ==> sink.output == old(sink.output) + Zeros(size)
    {
      var zeros := Zeros(header.blkSz);
      var skipped := 0;
      while skipped < size
        invariant skipped <= size && sink.output == old(sink.output) + Zeros(skipped)
        invariant skipped > 0 ==> header.blkSz > 0
      {
        var step := Min(size - skipped, header.blkSz);
        if step == 0 {
          return false; // the source goes round here for ever
        }
        assert Zeros(skipped) + zeros[..step] == Zeros(skipped + step);
        sink.OnBytes(zeros[..step]);
        skipped := skipped + step;
      }
      return true;
    }

    /** One chunk behind its header, given what the header and all that follows it expand to. */
    method ExpandOne(sink: Sink, code: nat, size: nat, ghost rest: seq<byte>) returns (r: Option<Expansion>)
      requires pos <= |data| && sink.Valid() && sink.fillBlock.Length == header.blkSz
      requires |rest| >= header.chunkHdrSz >= CHUNK_HEADER_SIZE && data[pos..] == rest[header.chunkHdrSz..]
      requires code == Le(rest[0..2]) && size == Le(rest[4..8])
      modifies this, sink, sink.fillBlock
      ensures pos <= |data| && sink.Valid() && pos >= old(pos)
      ensures var e := Before(old(sink.output), ExpandChunks(rest, header));
              if r.None? then e == Before(sink.output, ExpandChunks(data[pos..], header))
              else e == r.value && !e.Expanded?
    {
      hide Le, Repeat, FillBlock, ChunkTypeOf;
      ghost var body, out := data[pos..], sink.output;
      match ChunkTypeOf(code) {
        case None =>
          return Some(Malformed);
        case Some(RawType) =>
          var bytes := ReadExact(size);
          if bytes.None? {
            return Some(Malformed);
          }
          sink.OnBytes(bytes.value);
          BeforeTwice(out, bytes.value, ExpandChunks(data[pos..], header));
          assert bytes.value == body[..size] && data[pos..] == body[size..];
        case Some(FillType) =>
          var value := ReadExact(4);
          if value.None? {
            return Some(Malformed);
          }
          EmitFill(sink, value.value, size / 4);
          BeforeTwice(out, Repeat(FillBlock(value.value, header.blkSz), size / 4), ExpandChunks(data[pos..], header));
          assert value.value == body[..4] && data[pos..] == body[4..];
        case Some(DontCareType) =>
          var ends := EmitHole(sink, size);
          if !ends {
            return Some(NeverEnds);
          }
          BeforeTwice(out, Zeros(size), ExpandChunks(data[pos..], header));
        case Some(Crc32Type) =>
          pos := pos + Min(size, |data| - pos);
          assert data[pos..] == body[Min(size, |body|)..];
      }
      return None;
    }

    method ForEachChunk(sink: Sink) returns (r: Progress)
      requires pos <= |data| && sink.Valid() && sink.fillBlock.Length == header.blkSz
      modifies this, sink, sink.fillBlock
      ensures var e := Before(old(sink.output), ExpandChunks(old(data[pos..]), header));
              if r.Finished? then e == Expanded(sink.output) else e == r.e && !e.Expanded?
    {
      hide ExpandChunks, Before;
      ghost var whole := Before(sink.output, ExpandChunks(data[pos..], header));
      while true
        invariant pos <= |data| && sink.Valid()
        invariant whole == Before(sink.output, ExpandChunks(data[pos..], header))
        decreases |data| - pos
      {
        ghost var rest := data[pos..];
        BeforeEnds(sink.output);
        ShortHeader(rest, header);
        if header.chunkHdrSz < CHUNK_HEADER_SIZE {
          return if |data| - pos < header.chunkHdrSz then Finished else Broken(Malformed);
        }
        var hdr := ReadChunkHeader();
        if hdr.None? {
          return Finished;
        }
        var failed := ExpandOne(sink, hdr.value.0, hdr.value.1, rest);
        if failed.Some? {
          return Broken(failed.value);
        }
      }
    }
  }

  lemma ShortHeader(rest: seq<byte>, h: Header)
    ensures |rest| < h.chunkHdrSz ==> ExpandChunks(rest, h) == Expanded([])
    ensures |rest| >= h.chunkHdrSz && h.chunkHdrSz < CHUNK_HEADER_SIZE ==> ExpandChunks(rest, h) == Malformed
  {
  }

  lemma {:induction false} RepeatOneMore(block: seq<byte>, n: nat)
    ensures Repeat(block, n) + block == Repeat(block, n + 1)
  {
    if n > 0 {
      RepeatOneMore(block, n - 1);
      assert block + Repeat(block, n - 1) + block == block + (Repeat(block, n - 1) + block);
    } else {
      assert [] + block == block == block + [];
    }
  }

  lemma BeforeEnds(out: seq<byte>)
    ensures Before(out, Expanded([])) == Expanded(out)
    ensures Before(out, Malformed) == Malformed && Before(out, NeverEnds) == NeverEnds
  {
    assert out + [] == out;
  }

  lemma BeforeTwice(a: seq<byte>, b: seq<byte>, e: Expansion)
    ensures Before(a, Before(b, e)) == Before(a + b, e)
  {
    if e.Expanded? {
      assert a + (b + e.bytes) == a + b + e.bytes;
    }
  }

  method ExpandToVec(data: seq<byte>) returns (e: Expansion)
    ensures e == Expand(data)
  {
    var h := HeaderOf(data);
    if h.None? {
      return Malformed;
    }
    if h.value.fileHdrSz < HEADER_SIZE {
      return Panics;
    }
    if h.value.totalBlks * h.value.blkSz > CAPACITY_LIMIT {
      return Panics; // reserving the declared size
    }
    var expander := new SparseExpander(data, h.value, Min(h.value.fileHdrSz, |data|));
    var sink := new Sink(h.value.blkSz);
    var r := expander.ForEachChunk(sink);
    ghost var inner := ExpandChunks(data[Min(h.value.fileHdrSz, |data|)..], h.value);
    assert inner.Expanded? ==> [] + inner.bytes == inner.bytes;
    e := if r.Finished? then Expanded(sink.output) else r.e;
  }
}