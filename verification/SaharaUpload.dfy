/** Sahara packets and the loader upload: the device asks for byte ranges, the host serves them. */
module SaharaUpload {
  import opened Bytes
  import opened Port

  datatype SaharaCommand =
    | HelloCmd | HelloResponseCmd | ReadDataCmd | EndTransferCmd | DoneRequestCmd | DoneResponseCmd
    | ResetRequestCmd | ResetResponseCmd | MemoryDebugCmd | MemoryReadCmd | CmdReadyCmd | SwitchModeCmd
    | ExecuteRequestCmd | ExecuteResponseCmd | ExecuteDataCmd | MemoryDebug64Cmd | MemoryRead64Cmd | ReadData64Cmd

  function CodeOf(c: SaharaCommand): (v: nat)
    ensures 1 <= v <= 0x12
  {
    match c
    case HelloCmd => 0x01
    case HelloResponseCmd => 0x02
    case ReadDataCmd => 0x03
    case EndTransferCmd => 0x04
    case DoneRequestCmd => 0x05
    case DoneResponseCmd => 0x06
    case ResetRequestCmd => 0x07
    case ResetResponseCmd => 0x08
    case MemoryDebugCmd => 0x09
    case MemoryReadCmd => 0x0A
    case CmdReadyCmd => 0x0B
    case SwitchModeCmd => 0x0C
    case ExecuteRequestCmd => 0x0D
    case ExecuteResponseCmd => 0x0E
    case ExecuteDataCmd => 0x0F
    case MemoryDebug64Cmd => 0x10
    case MemoryRead64Cmd => 0x11
    case ReadData64Cmd => 0x12
  }

  function CommandOf(v: nat): (c: Option<SaharaCommand>)
  {
    if v == 0x01 then Some(HelloCmd)
    else if v == 0x02 then Some(HelloResponseCmd)
    else if v == 0x03 then Some(ReadDataCmd)
    else if v == 0x04 then Some(EndTransferCmd)
    else if v == 0x05 then Some(DoneRequestCmd)
    else if v == 0x06 then Some(DoneResponseCmd)
    else if v == 0x07 then Some(ResetRequestCmd)
    else if v == 0x08 then Some(ResetResponseCmd)
    else if v == 0x09 then Some(MemoryDebugCmd)
    else if v == 0x0A then Some(MemoryReadCmd)
    else if v == 0x0B then Some(CmdReadyCmd)
    else if v == 0x0C then Some(SwitchModeCmd)
    else if v == 0x0D then Some(ExecuteRequestCmd)
    else if v == 0x0E then Some(ExecuteResponseCmd)
    else if v == 0x0F then Some(ExecuteDataCmd)
    else if v == 0x10 then Some(MemoryDebug64Cmd)
    else if v == 0x11 then Some(MemoryRead64Cmd)
    else if v == 0x12 then Some(ReadData64Cmd)
    else None
  }

  /** Every command code names exactly its command, and no other number names one. */
  lemma CommandCodes(v: nat, c: SaharaCommand)
    ensures CommandOf(v) == Some(c) <==> v == CodeOf(c)
  {
  }

  datatype Error =
    | HelloFailed | TransferFailed | LoaderTooSmall | Io | AlreadyInFirehose | NotInFirehose
    | UnexpectedCommand(cmd: nat)
    | Overflow // no error of the source: the sum of offset and length panics there
  datatype Result<+T> = Ok(value: T) | Err(error: Error)

  // ----- The serving loop -----

  const U64: nat := 0x1_0000_0000_0000_0000

  /** One requested range: written if the loader has it, refused otherwise. The end of the range is computed in
      64 bits. */
  function SendChunk(loader: seq<byte>, offset: nat, length: nat, w: Wire): (r: (Result<()>, Wire))
    ensures r.1.incoming == w.incoming
  {
    if offset + length >= U64 then (Err(Overflow), w)
    else if offset + length > |loader| then (Err(LoaderTooSmall), w)
    else
      var (ok, w') := WriteStep(w, loader[offset..offset + length]);
      (if ok then Ok(()) else Err(Io), w')
  }

  /** A request packet's body: how long it is, and where offset and length are in it. */
  function RequestBody(c: SaharaCommand): (size: Option<nat>)
  {
    if c == ReadDataCmd then Some(12) else if c == ReadData64Cmd then Some(24) else None
  }

  function OffsetOf(body: seq<byte>): (v: nat)
    requires |body| == 12 || |body| == 24
  {
    if |body| == 12 then Le(body[4..8]) else Le(body[8..16])
  }

  function LengthOf(body: seq<byte>): (v: nat)
    requires |body| == 12 || |body| == 24
  {
    if |body| == 12 then Le(body[8..12]) else Le(body[16..24])
  }

  /** `upload_loader`: serve requests until the device ends the transfer; other commands are ignored. */
  function Upload(loader: seq<byte>, w: Wire): (r: (Result<()>, Wire))
    decreases |w.incoming|
  {
    var (hdr, w1) := ReadExact(w, 8);
    if hdr.None? then (Err(TransferFailed), w1)
    else
      var cmd := CommandOf(Le(hdr.value[0..4]));
      if cmd == Some(EndTransferCmd) || cmd == Some(DoneResponseCmd) then (Ok(()), w1)
      else if cmd.None? || RequestBody(cmd.value).None? then Upload(loader, w1)
      else
        var (body, w2) := ReadExact(w1, RequestBody(cmd.value).value);
        if body.None? then (Err(Io), w2)
        else
          var (sent, w3) := SendChunk(loader, OffsetOf(body.value), LengthOf(body.value), w2);
          if sent.Err? then (Err(sent.error), w3) else Upload(loader, w3)
  }

  // ----- What the device asks for -----

  datatype Packet =
    | ReadData(size: seq<byte>, imageId: nat, offset: nat, length: nat)
    | ReadData64(size: seq<byte>, imageId: nat, offset: nat, length: nat)
    | Ignored(code: nat, size: seq<byte>)
    | End(code: nat, size: seq<byte>)

  predicate Request(p: Packet)
  {
    p.ReadData? || p.ReadData64?
  }

  /** The fields fit, and the header names the kind of packet it is. */
  predicate ValidPacket(p: Packet)
  {
    && |p.size| == 4
    && match p
       case ReadData(_, id, offset, length) => id < Pow256(4) && offset < Pow256(4) && length < Pow256(4)
       case ReadData64(_, id, offset, length) => id < Pow256(8) && offset < Pow256(8) && length < Pow256(8)
       case Ignored(code, _) =>
         code < Pow256(4) && code != 0x03 && code != 0x04 && code != 0x06 && code != 0x12
       case End(code, _) => code == 0x04 || code == 0x06
  }

  function Code(p: Packet): (code: nat)
  {
    match p
    case ReadData(_, _, _, _) => 0x03
    case ReadData64(_, _, _, _) => 0x12
    case Ignored(code, _) => code
    case End(code, _) => code
  }

  function Header(p: Packet): (bytes: seq<byte>)
  {
    LeBytes(Code(p), 4) + p.size
  }

  function Body(p: Packet): (bytes: seq<byte>)
  {
    match p
    case ReadData(_, id, offset, length) => LeBytes(id, 4) + LeBytes(offset, 4) + LeBytes(length, 4)
    case ReadData64(_, id, offset, length) => LeBytes(id, 8) + LeBytes(offset, 8) + LeBytes(length, 8)
    case Ignored(_, _) => []
    case End(_, _) => []
  }

  function EncodeAll(ps: seq<Packet>): (bytes: seq<byte>)
  {
    if ps == [] then [] else Header(ps[0]) + (Body(ps[0]) + EncodeAll(ps[1..]))
  }

  /** A device's side of one transfer: requests and ignored packets, then one packet that ends it. */
  predicate Conversation(ps: seq<Packet>)
  {
    && ps != []
    && (forall i :: 0 <= i < |ps| ==> ValidPacket(ps[i]))
    && (forall i :: 0 <= i < |ps| ==> (ps[i].End? <==> i == |ps| - 1))
  }

  predicate Fits(loader: seq<byte>, p: Packet)
  {
    Request(p) ==> p.offset + p.length <= |loader| && p.offset + p.length < 0x1_0000_0000_0000_0000
  }

  /** What must be written: the requested ranges in order, up to the first one the loader does not have. */
  function Answers(loader: seq<byte>, ps: seq<Packet>): (writes: seq<seq<byte>>)
  {
    if ps == [] || !Fits(loader, ps[0]) then []
    else if Request(ps[0]) then
      [loader[ps[0].offset..ps[0].offset + ps[0].length]] + Answers(loader, ps[1..])
    else Answers(loader, ps[1..])
  }

  predicate AllFit(loader: seq<byte>, ps: seq<Packet>)
  {
    forall i :: 0 <= i < |ps| ==> Fits(loader, ps[i])
  }

  predicate Wraps(p: Packet)
  {
    Request(p) && p.offset + p.length >= 0x1_0000_0000_0000_0000
  }

  /** How a conversation is refused: by the first request the loader does not have. */
  function Refusal(loader: seq<byte>, ps: seq<Packet>): (e: Option<Error>)
  {
    if ps == [] then None
    else if Fits(loader, ps[0]) then Refusal(loader, ps[1..])
    else Some(if Wraps(ps[0]) then Overflow else LoaderTooSmall)
  }

  /** A conversation is refused unless every request fits, and it panics exactly when the first request that
      does not fit wraps. */
  lemma {:induction false} RefusalIsTheFirst(loader: seq<byte>, ps: seq<Packet>)
    ensures Refusal(loader, ps) == None <==> AllFit(loader, ps)
    ensures Refusal(loader, ps) == Some(Overflow) <==>
              exists i :: 0 <= i < |ps| && Wraps(ps[i]) && AllFit(loader, ps[..i])
    ensures Refusal(loader, ps).Some? ==> Refusal(loader, ps).value in {Overflow, LoaderTooSmall}
  {
    hide Fits;
    if ps != [] {
      RefusalIsTheFirst(loader, ps[1..]);
      WrapDoesNotFit(loader, ps[0]);
      AllFitCons(loader, ps);
      if Fits(loader, ps[0]) {
        forall i | 0 <= i < |ps|
          ensures AllFit(loader, ps[..i]) <==> i == 0 || AllFit(loader, ps[1..][..i - 1])
        {
          if i > 0 {
            AllFitCons(loader, ps[..i]);
            assert ps[..i][1..] == ps[1..][..i - 1];
          }
        }
        if i :| 0 <= i < |ps[1..]| && Wraps(ps[1..][i]) && AllFit(loader, ps[1..][..i]) {
          assert Wraps(ps[i + 1]) && AllFit(loader, ps[..i + 1]);
        }
        if i :| 0 <= i < |ps| && Wraps(ps[i]) && AllFit(loader, ps[..i]) {
          assert Wraps(ps[1..][i - 1]) && AllFit(loader, ps[1..][..i - 1]);
        }
      } else {
        forall i | 0 < i < |ps|
          ensures !AllFit(loader, ps[..i])
        {
          assert ps[..i][0] == ps[0];
        }
        assert AllFit(loader, ps[..0]);
      }
    }
  }

  lemma WrapDoesNotFit(loader: seq<byte>, p: Packet)
    ensures Wraps(p) ==> !Fits(loader, p)
  {
  }

  lemma AllFitCons(loader: seq<byte>, ps: seq<Packet>)
    requires ps != []
    ensures AllFit(loader, ps) <==> Fits(loader, ps[0]) && AllFit(loader, ps[1..])
  {
    hide Fits;
    assert forall i :: 0 < i < |ps| ==> ps[i] == ps[1..][i - 1];
    assert forall i :: 0 <= i < |ps| - 1 ==> ps[1..][i] == ps[i + 1];
  }

  lemma FieldSizes()
    ensures Pow256(4) == 0x1_0000_0000 && Pow256(8) == 0x1_0000_0000_0000_0000
  {
    assert Pow256(4) == 256 * Pow256(3) && Pow256(3) == 256 * Pow256(2) && Pow256(2) == 256 * Pow256(1);
    assert Pow256(1) == 256 * Pow256(0);
    assert Pow256(8) == 256 * Pow256(7) && Pow256(7) == 256 * Pow256(6) && Pow256(6) == 256 * Pow256(5);
    assert Pow256(5) == 256 * Pow256(4);
  }

  lemma HeaderReadsBack(p: Packet)
    requires ValidPacket(p)
    ensures |Header(p)| == 8
    ensures var cmd := CommandOf(Le(Header(p)[0..4]));
            && (p.End? <==> cmd == Some(EndTransferCmd) || cmd == Some(DoneResponseCmd))
            && (Request(p) <==> cmd.Some? && RequestBody(cmd.value).Some?)
            && (Request(p) ==> RequestBody(cmd.value) == Some(|Body(p)|))
  {
    FieldSizes();
    var code := Code(p);
    assert Header(p)[0..4] == LeBytes(code, 4);
    LeField(code, 4);
    hide Le, LeBytes, Pow256;
  }

  /** Three fields of n bytes in a row: the second and the third read back. */
  lemma Fields(id: nat, offset: nat, length: nat, n: nat, body: seq<byte>)
    requires offset < Pow256(n) && length < Pow256(n)
    requires body == LeBytes(id, n) + LeBytes(offset, n) + LeBytes(length, n)
    ensures |body| == n + n + n && Le(body[n..n + n]) == offset && Le(body[n + n..n + n + n]) == length
  {
    hide Le, LeBytes, Pow256;
    assert body[n..n + n] == LeBytes(offset, n);
    assert body[n + n..n + n + n] == LeBytes(length, n);
    LeField(offset, n);
    LeField(length, n);
  }

  /** The header and body of a packet read back as the packet's command and fields. */
  lemma PacketReadsBack(p: Packet)
    requires ValidPacket(p)
    ensures |Header(p)| == 8
    ensures var cmd := CommandOf(Le(Header(p)[0..4]));
            && (p.End? <==> cmd == Some(EndTransferCmd) || cmd == Some(DoneResponseCmd))
            && (Request(p) <==> cmd.Some? && RequestBody(cmd.value).Some?)
            && (Request(p) ==> RequestBody(cmd.value) == Some(|Body(p)|))
    ensures Request(p) ==> |Body(p)| in {12, 24} && OffsetOf(Body(p)) == p.offset && LengthOf(Body(p)) == p.length
    ensures !Request(p) ==> Body(p) == []
  {
    hide Le, LeBytes, Pow256, Header, CommandOf;
    HeaderReadsBack(p);
    match p
    case ReadData(_, id, offset, length) => Fields(id, offset, length, 4, Body(p));
    case ReadData64(_, id, offset, length) => Fields(id, offset, length, 8, Body(p));
    case _ =>
  }

  predicate LinkFailed<T>(r: Result<T>)
  {
    r.Err? && r.error in {TransferFailed, Io}
  }

  lemma ReadNext(w: Wire, bytes: seq<byte>, rest: seq<byte>)
    requires w.incoming == bytes + rest
    ensures var (r, w') := ReadExact(w, |bytes|);
            && w'.sent == w.sent
            && (r.Some? ==> r.value == bytes && w'.incoming == rest)
            && (Plentiful(w) ==> r.Some? && Plentiful(w'))
  {
    var (r, w') := ReadExact(w, |bytes|);
    if r.Some? {
      SplitInside(r.value, w'.incoming, bytes, rest);
    }
    if Plentiful(w) {
      ReadExactFlows(w, |bytes|);
    }
  }

  /** What one packet can lead to. */
  datatype Turn = LinkGone | LastPacket | TurnedDown | GoesOn(w: Wire)

  /** The loop on a stream that has a packet next. */
  lemma UploadOnePacket(loader: seq<byte>, p: Packet, later: seq<byte>, w: Wire) returns (turn: Turn)
    requires ValidPacket(p) && w.incoming == Header(p) + (Body(p) + later)
    ensures var (r, w') := Upload(loader, w);
            match turn
            case LinkGone => LinkFailed(r) && w'.sent == w.sent && !Plentiful(w)
            case LastPacket => p.End? && r.Ok? && w'.incoming == later && w'.sent == w.sent
            case TurnedDown =>
              && !Fits(loader, p) && r == Err(if Wraps(p) then Overflow else LoaderTooSmall)
              && w'.sent == w.sent
            case GoesOn(w1) =>
              && !p.End? && Fits(loader, p) && Upload(loader, w) == Upload(loader, w1) && w1.incoming == later
              && (Request(p) ==> p.offset + p.length <= |loader|)
              && w1.sent == w.sent + (if Request(p) then [loader[p.offset..p.offset + p.length]] else [])
              && (Plentiful(w) ==> Plentiful(w1))
  {
    PacketReadsBack(p);
    hide ReadExact, ReadStep, WriteStep, Header, Body, CommandOf, RequestBody, OffsetOf, LengthOf, Plentiful, SendChunk,
      ValidPacket, Wraps;
    ReadNext(w, Header(p), Body(p) + later);
    var (hdr, w1) := ReadExact(w, 8);
    if hdr.None? {
      return LinkGone;
    }
    assert !Request(p) ==> Body(p) + later == later;
    if p.End? {
      return LastPacket;
    }
    if !Request(p) {
      assert w.sent + [] == w.sent;
      return GoesOn(w1);
    }
    ReadNext(w1, Body(p), later);
    var (body, w2) := ReadExact(w1, |Body(p)|);
    if body.None? {
      return LinkGone;
    }
    SendOutcome(loader, p, w2);
    var (sent, w3) := SendChunk(loader, p.offset, p.length, w2);
    return if sent.Ok? then GoesOn(w3) else if sent.error == Io then LinkGone else TurnedDown;
  }

  lemma FirstAnswer(loader: seq<byte>, ps: seq<Packet>)
    requires ps != []
    ensures !Fits(loader, ps[0]) ==> Answers(loader, ps) == []
    ensures ps[1..] == [] && ps[0].End? ==> Answers(loader, ps) == []
    ensures Fits(loader, ps[0]) && !Request(ps[0]) ==> Answers(loader, ps) == Answers(loader, ps[1..])
    ensures Fits(loader, ps[0]) && Request(ps[0]) ==>
              && ps[0].offset + ps[0].length <= |loader|
              && Answers(loader, ps) == [loader[ps[0].offset..ps[0].offset + ps[0].length]] + Answers(loader, ps[1..])
  {
  }

  lemma SentGrows(s: seq<seq<byte>>, head: seq<seq<byte>>, tail: seq<seq<byte>>, now: seq<seq<byte>>)
    requires s + head <= now <= s + head + tail
    ensures s + (head + tail) == s + head + tail && s <= now <= s + (head + tail)
  {
  }

  lemma LastOne(ps: seq<Packet>, rest: seq<byte>)
    requires ps != []
    ensures ps[1..] == [] ==> EncodeAll(ps[1..]) + rest == rest
  {
  }

  /** The upload serves exactly what is asked. For any conversation and any fragmentation, either the
      link fails, or every requested range is written in order up to the first request the loader cannot
      serve, which writes nothing: it is refused, or panics if it wraps. After a complete transfer the stream
      stands right after the packet that ended it. On a plentiful link this alone decides the outcome. */
  lemma {:induction false} UploadServesRequests(loader: seq<byte>, ps: seq<Packet>, rest: seq<byte>, w: Wire)
    requires Conversation(ps) && w.incoming == EncodeAll(ps) + rest
    ensures var (r, w') := Upload(loader, w);
            && w.sent <= w'.sent <= w.sent + Answers(loader, ps)
            && (LinkFailed(r) || w'.sent == w.sent + Answers(loader, ps))
            && (r.Ok? ==> Refusal(loader, ps) == None && w'.incoming == rest)
            && (r.Err? && !LinkFailed(r) ==> Refusal(loader, ps) == Some(r.error))
            && (Plentiful(w) ==> !LinkFailed(r))
    decreases |ps|
  {
    hide Upload, Header, Body, Plentiful, Conversation, ValidPacket, Fits, Wraps, Answers, EncodeAll;
    ConversationParts(ps, loader);
    FirstAnswer(loader, ps);
    var p, later := ps[0], EncodeAll(ps[1..]) + rest;
    NextPacket(ps, rest);
    var turn := UploadOnePacket(loader, p, later, w);
    match turn
    case GoesOn(w1) =>
      UploadServesRequests(loader, ps[1..], rest, w1);
      SentGrows(w.sent, w1.sent[|w.sent|..], Answers(loader, ps[1..]), Upload(loader, w1).1.sent);
    case _ =>
      LastOne(ps, rest);
      assert w.sent + [] == w.sent;
  }

  /** A device's side of a transfer that it does not end. */
  predicate Unfinished(ps: seq<Packet>)
  {
    forall i :: 0 <= i < |ps| ==> ValidPacket(ps[i]) && !ps[i].End?
  }

  lemma UnfinishedParts(ps: seq<Packet>)
    requires Unfinished(ps) && ps != []
    ensures ValidPacket(ps[0]) && !ps[0].End? && Unfinished(ps[1..])
  {
    hide ValidPacket;
  }

  /** Less than a header ends the upload, with nothing more written. */
  lemma NoHeaderLeft(loader: seq<byte>, w: Wire)
    requires |w.incoming| < 8
    ensures Upload(loader, w).0 == Err(TransferFailed) && Upload(loader, w).1.sent == w.sent
  {
  }

  /** A request of which only a part arrives ends the upload with the transport's error, and nothing is written. */
  lemma CutOffRequestFails(loader: seq<byte>, p: Packet, part: seq<byte>, w: Wire)
    requires ValidPacket(p) && Request(p) && |part| < |Body(p)|
    requires w.incoming == Header(p) + part && Plentiful(w)
    ensures Upload(loader, w).0 == Err(Io) && Upload(loader, w).1.sent == w.sent
  {
    PacketReadsBack(p);
    ReadNext(w, Header(p), part);
    hide Header, Body, CommandOf, Plentiful;
    var w1 := ReadExact(w, 8).1;
    assert ReadExact(w1, |Body(p)|).0.Some? ==> |Body(p)| <= |w1.incoming|;
  }

  /** The same for a device that stops in the middle, with less than a header left on the stream: what it asked
      for is written up to the first request the loader cannot serve, and the transfer always fails, on a plentiful
      link with that request's refusal or panic, or, if there is none, for want of the next header. */
  lemma {:induction false} UnfinishedTransferFails(loader: seq<byte>, ps: seq<Packet>, rest: seq<byte>, w: Wire)
    requires Unfinished(ps) && w.incoming == EncodeAll(ps) + rest && |rest| < 8
    ensures var (r, w') := Upload(loader, w);
            var refusal := Refusal(loader, ps);
            && w.sent <= w'.sent <= w.sent + Answers(loader, ps)
            && r.Err? && (LinkFailed(r) || refusal == Some(r.error))
            && (refusal == Some(r.error) || Plentiful(w) ==> w'.sent == w.sent + Answers(loader, ps))
            && (Plentiful(w) ==> r.error == if refusal.None? then TransferFailed else refusal.value)
    decreases |ps|
  {
    hide Upload, Header, Body, Plentiful, ValidPacket, Fits, Wraps, Answers, EncodeAll, Unfinished;
    if ps == [] {
      assert EncodeAll(ps) + rest == rest && Answers(loader, ps) == [] && w.sent + [] == w.sent by {
        NothingAsked(loader, rest);
      }
      NoHeaderLeft(loader, w);
    } else {
      UnfinishedParts(ps);
      RefusalIsTheFirst(loader, ps);
      FirstAnswer(loader, ps);
      NextPacket(ps, rest);
      var turn := UploadOnePacket(loader, ps[0], EncodeAll(ps[1..]) + rest, w);
      assert w.sent + [] == w.sent;
      if turn.GoesOn? {
        var w1 := turn.w;
        UnfinishedTransferFails(loader, ps[1..], rest, w1);
        SentGrows(w.sent, w1.sent[|w.sent|..], Answers(loader, ps[1..]), Upload(loader, w1).1.sent);
      }
    }
  }

  lemma NothingAsked(loader: seq<byte>, rest: seq<byte>)
    ensures EncodeAll([]) + rest == rest && Answers(loader, []) == []
  {
  }

  lemma NextPacket(ps: seq<Packet>, rest: seq<byte>)
    requires ps != []
    ensures EncodeAll(ps) + rest == Header(ps[0]) + (Body(ps[0]) + (EncodeAll(ps[1..]) + rest))
  {
  }

  lemma ConversationParts(ps: seq<Packet>, loader: seq<byte>)
    requires Conversation(ps)
    ensures ps != [] && ValidPacket(ps[0])
    ensures ps[0].End? ==> ps[1..] == []
    ensures !Request(ps[0]) ==> Fits(loader, ps[0])
    ensures Request(ps[0]) ==> !ps[0].End?
    ensures Request(ps[0]) && Fits(loader, ps[0]) ==> ps[0].offset + ps[0].length <= |loader|
    ensures !ps[0].End? ==> Conversation(ps[1..])
  {
  }

  lemma SendOutcome(loader: seq<byte>, p: Packet, w: Wire)
    requires Request(p)
    ensures var (r, w') := SendChunk(loader, p.offset, p.length, w);
            && w'.incoming == w.incoming
            && (r.Ok? ==> Fits(loader, p) && w'.sent == w.sent + [loader[p.offset..p.offset + p.length]])
            && (r.Err? ==> w'.sent == w.sent)
            && (r.Err? && r.error != Io ==> !Fits(loader, p))
            && (r.Err? && r.error != Io ==> r.error == if Wraps(p) then Overflow else LoaderTooSmall)
            && (Plentiful(w) ==> Plentiful(w') && (r.Ok? <==> Fits(loader, p)) && r != Err(Io))
  {
  }

  // ----- The device's side -----

  function ByteFor(bytes: seq<byte>, offset: nat, i: nat): (b: byte)
    requires offset <= i < offset + |bytes|
  {
    bytes[i - offset]
  }

  function Overlay(mem: map<nat, byte>, offset: nat, bytes: seq<byte>): (mem': map<nat, byte>)
  {
    mem + (map i: nat | offset <= i < offset + |bytes| :: ByteFor(bytes, offset, i))
  }

  /** Where one transfer's bytes go: each answer is placed at the offset it was asked for. */
  function Place(mem: map<nat, byte>, ps: seq<Packet>, stream: seq<byte>): (mem': map<nat, byte>)
    decreases |ps|
  {
    if ps == [] then mem
    else if Request(ps[0]) && ps[0].length <= |stream| then
      var len := ps[0].length;
      Place(Overlay(mem, ps[0].offset, stream[..len]), ps[1..], stream[len..])
    else Place(mem, ps[1..], stream)
  }

  predicate Covered(ps: seq<Packet>, i: nat)
  {
    exists k :: 0 <= k < |ps| && Request(ps[k]) && ps[k].offset <= i < ps[k].offset + ps[k].length
  }

  /** A device that places each answer where it asked for it holds the loader's byte at every position
      its requests cover, whatever was there before and in whatever order it asked; it keeps the rest. */
  lemma {:induction false} DeviceHoldsLoader(loader: seq<byte>, ps: seq<Packet>, mem: map<nat, byte>, i: nat)
    requires AllFit(loader, ps)
    ensures var mem' := Place(mem, ps, Flatten(Answers(loader, ps)));
            if Covered(ps, i) then i < |loader| && i in mem' && mem'[i] == loader[i]
            else (i in mem' <==> i in mem) && (i in mem ==> mem'[i] == mem[i])
    decreases |ps|
  {
    hide Covered;
    if ps == [] {
      NothingCovered(i);
    } else {
      var p := ps[0];
      CoveredSplit(ps, i);
      assert Fits(loader, p);
      assert AllFit(loader, ps[1..]) by {
        assert forall k :: 0 <= k < |ps| - 1 ==> ps[1..][k] == ps[k + 1];
      }
      if Request(p) {
        var answer, stream := loader[p.offset..p.offset + p.length], Flatten(Answers(loader, ps));
        assert Answers(loader, ps)[1..] == Answers(loader, ps[1..]);
        assert stream == answer + Flatten(Answers(loader, ps[1..]));
        assert stream[p.length..] == Flatten(Answers(loader, ps[1..]));
        assert stream[..p.length] == answer;
        DeviceHoldsLoader(loader, ps[1..], Overlay(mem, p.offset, answer), i);
      } else {
        DeviceHoldsLoader(loader, ps[1..], mem, i);
      }
    }
  }

  lemma NothingCovered(i: nat)
    ensures !Covered([], i)
  {
  }

  lemma CoveredSplit(ps: seq<Packet>, i: nat)
    requires ps != []
    ensures Covered(ps, i) <==>
              Covered(ps[1..], i) || (Request(ps[0]) && ps[0].offset <= i < ps[0].offset + ps[0].length)
  {
  }

  /** One 64-bit request for the byte before the end of the address space: the packet is well formed, and the
      sum of its fields is what panics. */
  function WrappingConversation(): (ps: seq<Packet>)
  {
    [ReadData64([0, 0, 0, 32], 13, 0xFFFF_FFFF_FFFF_FFFF, 1), End(0x04, [0, 0, 0, 16])]
  }

  lemma WrappingRequestPanics(loader: seq<byte>, rest: seq<byte>, w: Wire)
    requires w.incoming == EncodeAll(WrappingConversation()) + rest && Plentiful(w)
    ensures Conversation(WrappingConversation()) && Upload(loader, w).0 == Err(Overflow)
  {
    FieldSizes();
    hide EncodeAll, Plentiful, Pow256, Upload;
    var ps := WrappingConversation();
    assert Pow256(4) > 13;
    UploadServesRequests(loader, ps, rest, w);
  }

  /** Requests that cover the whole loader leave the device holding exactly the loader. */
  lemma CoveringRequestsTransferLoader(loader: seq<byte>, ps: seq<Packet>, mem: map<nat, byte>)
    requires AllFit(loader, ps) && forall i: nat :: i < |loader| ==> Covered(ps, i)
    ensures var mem' := Place(mem, ps, Flatten(Answers(loader, ps)));
            forall i: nat :: i < |loader| ==> i in mem' && mem'[i] == loader[i]
  {
    forall i: nat | i < |loader|
      ensures var mem' := Place(mem, ps, Flatten(Answers(loader, ps)));
              i in mem' && mem'[i] == loader[i]
    {
      DeviceHoldsLoader(loader, ps, mem, i);
    }
  }
}
