/** The Sahara session object: every step of the handshake, over every way the device can behave. */
module SaharaHandshake {
  import opened Bytes
  import opened Text
  import opened Port
  import opened SaharaUpload
  import opened SaharaTranscript
  import opened SaharaSteps

  class SaharaSession {
    const transport: Transport
    var state: State
    var maxChunkSize: nat
    ghost var transcript: seq<Mark>
    ghost var setup: Setup // what the present handshake draws its packets from

    constructor (transport: Transport)
      ensures this.transport == transport && state == WaitingHello && maxChunkSize == 1024 * 1024 && transcript == []
    {
      this.transport := transport;
      state, maxChunkSize, transcript := WaitingHello, 1024 * 1024, [];
      setup := Setup([], [], ImageTransfer, []);
    }

    /** Lay out 32-bit words in a packet buffer, field by field. */
    static method BuildPacket(words: seq<nat>) returns (bytes: seq<byte>)
      ensures bytes == WordBytes(words)
    {
      var pkt := new byte[4 * |words|](_ => 0);
      for i := 0 to |words|
        invariant pkt[..4 * i] == WordBytes(words[..i])
      {
        var field := LeBytes(words[i], 4);
        ghost var before := pkt[..4 * i];
        forall k | 0 <= k < 4 {
          pkt[4 * i + k] := field[k];
        }
        assert pkt[..4 * (i + 1)] == before + field;
        WordBytesSnoc(words[..i], words[i]);
        assert words[..i + 1] == words[..i] + [words[i]];
      }
      assert words[..|words|] == words;
      bytes := pkt[..];
    }

    method WritePacket(kind: Kind, bytes: seq<byte>) returns (ok: bool)
      modifies this`transcript, transport
      ensures (ok, transport.wire) == WriteStep(old(transport.wire), bytes)
      ensures transcript == if ok then old(transcript) + [Sent(kind, bytes)] else old(transcript)
    {
      ok := transport.Write(bytes);
      if ok {
        transcript := transcript + [Sent(kind, bytes)];
      }
    }

    method ReadBytes(n: nat) returns (r: Option<seq<byte>>)
      modifies transport
      ensures (r, transport.wire) == ReadExact(old(transport.wire), n)
    {
      var buf := new byte[n](_ => 0);
      var ok := transport.FillExactly(buf);
      r := if ok then Some(buf[..]) else None;
    }

    method ReadHello() returns (r: Result<Hello>)
      modifies this`transcript, this`state, this`maxChunkSize, transport
      ensures (r, transport.wire) == GreetOn(old(transport.wire))
      ensures var data := ReadExact(old(transport.wire), HELLO_PACKET_SIZE).0;
              transcript == if r.Ok? then old(transcript) + [HelloSeen(data.value)] else old(transcript)
      ensures maxChunkSize == if r.Ok? then r.value.maxCommandLength else old(maxChunkSize)
      ensures state == if r.Ok? then HelloReceived else WaitingHello
    {
      state := WaitingHello;
      var data := ReadBytes(HELLO_PACKET_SIZE);
      if data.None? {
        return Err(HelloFailed);
      }
      var buf := data.value;
      if buf[0] >= 0x20 {
        return Err(AlreadyInFirehose);
      }
      if WordAt(buf, 0) != CodeOf(HelloCmd) {
        return Err(UnexpectedCommand(WordAt(buf, 0)));
      }
      state, maxChunkSize := HelloReceived, WordAt(buf, 4);
      transcript := transcript + [HelloSeen(buf)];
      r := Ok(ParseHello(buf));
    }

    method SendHelloResponse(mode: Mode, reserved: seq<nat>) returns (ok: bool)
      modifies this`transcript, transport
      ensures (ok, transport.wire) == WriteStep(old(transport.wire), WordBytes(HelloResponseWords(mode, reserved)))
      ensures var answer := WordBytes(HelloResponseWords(mode, reserved));
              transcript == if ok then old(transcript) + [Sent(HelloResponse, answer)] else old(transcript)
    {
      var pkt := BuildPacket(HelloResponseWords(mode, reserved));
      ok := WritePacket(HelloResponse, pkt);
    }

    /** Send a Firehose no-op; true if what comes back within one read contains ACK. */
    method TryFirehoseNop(nop: seq<byte>) returns (firehose: bool)
      modifies this`transcript, transport
      ensures setup.nop == nop ==>
                Follows(setup, old(transcript), old(transport.wire.sent), transcript, transport.wire.sent, Start, Start)
      ensures (firehose, transport.wire) == NopOn(nop, old(transport.wire))
    {
      hide Follows, Lossy, Contains, ReadStep;
      FollowsNothing(setup, transcript, transport.wire.sent, Start);
      if setup.nop == nop {
        FollowsOne(setup, transcript, transport.wire.sent, Sent(FirehoseNop, nop), Start);
      }
      var ok := WritePacket(FirehoseNop, nop);
      if !ok {
        return false;
      }
      var buf := new byte[NOP_BUF_SIZE](_ => 0);
      var got := transport.Read(buf, 0, NOP_BUF_SIZE);
      assert buf[..0] == [];
      firehose := got.Got? && got.n > 0 && Contains(Lossy(buf[0..got.n]), ACK);
    }

    method SwitchMode(mode: Mode) returns (r: Result<()>)
      modifies this`transcript, transport
      ensures (r.Ok?, transport.wire) == WriteStep(old(transport.wire), WordBytes(SwitchWords(mode)))
      ensures r.Err? ==> r.error == Io
      ensures setup.mode == mode ==>
                Follows(setup, old(transcript), old(transport.wire.sent), transcript, transport.wire.sent, Start, Start)
    {
      var pkt := BuildPacket(SwitchWords(mode));
      FollowsNothing(setup, transcript, transport.wire.sent, Start);
      if setup.mode == mode {
        FollowsOne(setup, transcript, transport.wire.sent, Sent(ModeSwitch, pkt), Start);
      }
      var ok := WritePacket(ModeSwitch, pkt);
      r := if ok then Ok(()) else Err(Io);
    }

    /** Recovery without a Hello: answer one anyway, look at what comes back, switch the mode. */
    method PblHack(mode: Mode) returns (r: Result<()>)
      modifies this`transcript, transport
      ensures setup.mode == mode ==>
                Follows(setup, old(transcript), old(transport.wire.sent), transcript, transport.wire.sent, Start, Start)
      ensures (r.Ok?, transport.wire) == RecoverOn(mode, old(transport.wire))
      ensures r.Err? ==> r.error == Io
    {
      hide Follows, ReadExact, WordBytes;
      var reserved := [0, 0, 0, 0, 0, 0];
      ghost var mark := Sent(HelloResponse, WordBytes(HelloResponseWords(mode, reserved)));
      FollowsNothing(setup, transcript, transport.wire.sent, Start);
      if setup.mode == mode {
        FollowsOne(setup, transcript, transport.wire.sent, mark, Start);
      }
      var ok := SendHelloResponse(mode, reserved);
      if !ok {
        return Err(Io);
      }
      var _ := ReadBytes(16); // CMD_READY, a refusal or nothing: the mode switch follows in every case
      ghost var t1, s1 := transcript, transport.wire.sent;
      r := SwitchMode(mode);
      if setup.mode == mode {
        FollowsTwice(setup, old(transcript), old(transport.wire.sent), t1, s1, transcript, transport.wire.sent,
                     Start, Start, Start);
      }
    }

    method ExecCmd(clientCmd: nat) returns (r: Result<seq<byte>>)
      modifies this`transcript, transport
      ensures (r, transport.wire) == ExecOn(clientCmd, old(transport.wire))
      ensures clientCmd in {MSM_HW_ID_READ, SERIAL_NUM_READ} ==>
                Follows(setup, old(transcript), old(transport.wire.sent), transcript, transport.wire.sent, Open, Open)
    {
      var pkt := BuildPacket(ExecWords(clientCmd));
      FollowsNothing(setup, transcript, transport.wire.sent, Open);
      if clientCmd in {MSM_HW_ID_READ, SERIAL_NUM_READ} {
        FollowsOne(setup, transcript, transport.wire.sent, Sent(ExecRequest, pkt), Open);
      }
      var ok := WritePacket(ExecRequest, pkt);
      if !ok {
        return Err(Io);
      }
      var hdr := ReadBytes(16);
      if hdr.None? {
        return Err(TransferFailed);
      }
      var cmd := WordAt(hdr.value, 0);
      if cmd == CodeOf(ExecuteResponseCmd) {
        var dataLen := WordAt(hdr.value, 3);
        if dataLen == 0 {
          return Ok([]);
        }
        var data := ReadBytes(dataLen);
        return if data.None? then Err(TransferFailed) else Ok(data.value);
      }
      r := if cmd == CodeOf(EndTransferCmd) then Err(TransferFailed) else Err(UnexpectedCommand(cmd));
    }

    method GetSerialNum() returns (serial: Serial)
      modifies this`transcript, transport
      ensures var (data, w) := ExecOn(SERIAL_NUM_READ, old(transport.wire));
              serial == SerialOf(data) && transport.wire == w
      ensures Follows(setup, old(transcript), old(transport.wire.sent), transcript, transport.wire.sent, Open, Open)
    {
      var data := ExecCmd(SERIAL_NUM_READ);
      if data.Err? || |data.value| < 4 {
        return Unknown;
      }
      if |data.value| < 8 {
        return SlicePanics;
      }
      return Number(Le(data.value[..8]));
    }

    method SendLoaderChunk(loader: seq<byte>, offset: nat, length: nat) returns (r: Result<()>)
      modifies this`transcript, this`state, transport
      ensures (r, transport.wire) == SendChunk(loader, offset, length, old(transport.wire))
      ensures setup.loader == loader ==>
                Follows(setup, old(transcript), old(transport.wire.sent), transcript, transport.wire.sent, Open, Open)
      ensures state == old(state) || state == Transferring
    {
      FollowsNothing(setup, transcript, transport.wire.sent, Open);
      if offset + length >= U64 {
        return Err(Overflow); // the source panics on this sum
      }
      if offset + length > |loader| {
        return Err(LoaderTooSmall);
      }
      state := Transferring;
      var chunk := loader[offset..offset + length];
      if setup.loader == loader {
        assert OccursAt(chunk, loader, offset);
        FollowsOne(setup, transcript, transport.wire.sent, Sent(LoaderChunk, chunk), Open);
      }
      var ok := WritePacket(LoaderChunk, chunk);
      r := if ok then Ok(()) else Err(Io);
    }

    method UploadLoader(loader: seq<byte>) returns (r: Result<()>)
      modifies this`transcript, this`state, transport
      ensures (r, transport.wire) == Upload(loader, old(transport.wire))
      ensures setup.loader == loader ==>
                Follows(setup, old(transcript), old(transport.wire.sent), transcript, transport.wire.sent,
                        Open, if r.Ok? then Ended else Open)
      ensures state in {WaitingDataRequest, Transferring}
    {
      hide Follows, Le, OffsetOf, LengthOf, CommandOf, ReadExact, SendChunk;
      state := WaitingDataRequest;
      ghost var whole := Upload(loader, transport.wire);
      FollowsNothing(setup, transcript, transport.wire.sent, Open);
      while true
        invariant whole == Upload(loader, transport.wire)
        invariant setup.loader == loader ==>
                    Follows(setup, old(transcript), old(transport.wire.sent), transcript, transport.wire.sent,
                            Open, Open)
        invariant state in {WaitingDataRequest, Transferring}
        decreases |transport.wire.incoming|
      {
        var hdr := ReadBytes(8);
        if hdr.None? {
          return Err(TransferFailed);
        }
        var cmd := CommandOf(Le(hdr.value[0..4]));
        if cmd == Some(EndTransferCmd) || cmd == Some(DoneResponseCmd) {
          ghost var t1, s1 := transcript, transport.wire.sent;
          FollowsOne(setup, t1, s1, TransferEnded, Open);
          transcript := transcript + [TransferEnded];
          if setup.loader == loader {
            FollowsTwice(setup, old(transcript), old(transport.wire.sent), t1, s1, transcript, transport.wire.sent,
                         Open, Open, Ended);
          }
          return Ok(());
        }
        if cmd.Some? && RequestBody(cmd.value).Some? {
          var body := ReadBytes(RequestBody(cmd.value).value);
          if body.None? {
            return Err(Io);
          }
          ghost var t1, s1 := transcript, transport.wire.sent;
          var sent := SendLoaderChunk(loader, OffsetOf(body.value), LengthOf(body.value));
          if setup.loader == loader {
            FollowsTwice(setup, old(transcript), old(transport.wire.sent), t1, s1, transcript, transport.wire.sent,
                         Open, Open, Open);
          }
          if sent.Err? {
            return sent;
          }
        }
      }
    }

    method SendDone() returns (r: Result<()>)
      modifies this`transcript, transport
      ensures (r, transport.wire) == DoneOn(old(transport.wire))
      ensures r.Err? ==> r.error == Io
      ensures || Ran(old(transcript), old(transport.wire.sent), Ended, Closed)
              || (r.Err? && Ran(old(transcript), old(transport.wire.sent), Ended, Ended))
    {
      hide Follows, WordBytes, ReadStep, WriteStep;
      var done := BuildPacket(DONE_WORDS);
      FollowsNothing(setup, transcript, transport.wire.sent, Ended);
      FollowsOne(setup, transcript, transport.wire.sent, Sent(DoneRequest, done), Ended);
      var ok := WritePacket(DoneRequest, done);
      if !ok {
        return Err(Io);
      }
      var buf := new byte[DONE_BUF_SIZE](_ => 0);
      var got := transport.Read(buf, 0, DONE_BUF_SIZE);
      r := if got.Got? then Ok(()) else Err(Io);
    }

    ghost predicate Ran(t0: seq<Mark>, s0: seq<seq<byte>>, p: Phase, q: Phase)
      reads this, transport
    {
      Follows(setup, t0, s0, transcript, transport.wire.sent, p, q)
    }

    lemma RanOn(t0: seq<Mark>, s0: seq<seq<byte>>, t1: seq<Mark>, s1: seq<seq<byte>>, p: Phase, q: Phase, r: Phase)
      requires Follows(setup, t0, s0, t1, s1, p, q) && Ran(t1, s1, q, r)
      ensures Ran(t0, s0, p, r)
    {
      FollowsTwice(setup, t0, s0, t1, s1, transcript, transport.wire.sent, p, q, r);
    }

    /** Reading a Hello off a stream that is still the device's. */
    method ReadGreeting() returns (r: Result<Hello>)
      requires IsTail(transport.wire.incoming, setup.input)
      modifies this`transcript, this`state, this`maxChunkSize, transport
      ensures (r, transport.wire) == GreetOn(old(transport.wire))
      ensures Ran(old(transcript), old(transport.wire.sent), Start, if r.Ok? then Greeted(r.value) else Start)
      ensures IsTail(transport.wire.incoming, setup.input)
      ensures r.Err? ==> state == WaitingHello
    {
      FollowsNothing(setup, transcript, transport.wire.sent, Start);
      ghost var data := ReadExact(transport.wire, HELLO_PACKET_SIZE).0;
      ExactTail(transport.wire, HELLO_PACKET_SIZE, setup.input);
      r := ReadHello();
      if r.Ok? {
        GreetsExactlyHello(data.value);
        FollowsOne(setup, old(transcript), old(transport.wire.sent), HelloSeen(data.value), Start);
      }
    }

    method AwaitHello(loader: LoaderFile, mode: Mode, nop: seq<byte>) returns (a: Arrival)
      requires setup == Setup(transport.wire.incoming, LoaderBytes(loader), mode, nop)
      modifies this`transcript, this`state, this`maxChunkSize, transport
      ensures (a, transport.wire) == AwaitOn(!loader.NoLoader?, mode, nop, old(transport.wire))
      ensures Ran(old(transcript), old(transport.wire.sent), Start, if a.Arrived? then Greeted(a.hello) else Start)
      ensures !a.Arrived? ==> state == WaitingHello
    {
      hide Ran, Follows, GreetOn, NopOn, RecoverOn, IsTail;
      ghost var t0, s0 := transcript, transport.wire.sent;
      TailAfter([], transport.wire.incoming);
      var r := ReadGreeting();
      if r != Err(HelloFailed) {
        return ArrivalOf(r);
      }
      ghost var t1, s1 := transcript, transport.wire.sent;
      RanIs(t0, s0, Start, Start);
      NopTail(nop, transport.wire, setup.input);
      var firehose := TryFirehoseNop(nop);
      FollowsTwice(setup, t0, s0, t1, s1, transcript, transport.wire.sent, Start, Start, Start);
      FollowsIsRan(t0, s0, Start, Start);
      if firehose {
        return InFirehose;
      }
      if loader.NoLoader? {
        return Refused(NotInFirehose);
      }
      ghost var t2, s2 := transcript, transport.wire.sent;
      RecoverTail(mode, transport.wire, setup.input);
      var hacked := PblHack(mode);
      FollowsTwice(setup, t0, s0, t2, s2, transcript, transport.wire.sent, Start, Start, Start);
      FollowsIsRan(t0, s0, Start, Start);
      if hacked.Err? {
        return Refused(Io);
      }
      ghost var t3, s3 := transcript, transport.wire.sent;
      r := ReadGreeting();
      RanOn(t0, s0, t3, s3, Start, Start, if r.Ok? then Greeted(r.value) else Start);
      return ArrivalOf(r);
    }

    lemma RanIs(t0: seq<Mark>, s0: seq<seq<byte>>, p: Phase, q: Phase)
      requires Ran(t0, s0, p, q)
      ensures Follows(setup, t0, s0, transcript, transport.wire.sent, p, q)
    {
    }

    lemma FollowsIsRan(t0: seq<Mark>, s0: seq<seq<byte>>, p: Phase, q: Phase)
      requires Follows(setup, t0, s0, transcript, transport.wire.sent, p, q)
      ensures Ran(t0, s0, p, q)
    {
    }

    /** The handshake, over any wire. Whatever happens, what is read as a Hello and everything written is
        genuine: drawn from the device's bytes, the loader, the mode and the no-op, each in its place. */
    method Handshake(loader: LoaderFile, mode: Mode, nop: seq<byte>) returns (r: Outcome)
      modifies this, transport
      ensures setup == Setup(old(transport.wire.incoming), LoaderBytes(loader), mode, nop)
      ensures exists q :: Ran(old(transcript), old(transport.wire.sent), Start, q)
      ensures r.Ready? ==>
                || (state == Done && Ran(old(transcript), old(transport.wire.sent), Start, Closed))
                || (state == WaitingHello && Ran(old(transcript), old(transport.wire.sent), Start, Start))
      ensures r == Panics ==> Ran(old(transcript), old(transport.wire.sent), Start, Open)
      ensures loader.NoLoader? && r.Ready? ==> state == WaitingHello
      ensures (r, transport.wire) == HandshakeOn(loader, mode, nop, old(transport.wire))
    {
      hide Ran, Follows, AwaitOn, GreetedOn;
      ghost var t0, s0 := transcript, transport.wire.sent;
      setup := Setup(transport.wire.incoming, LoaderBytes(loader), mode, nop);
      var a := AwaitHello(loader, mode, nop);
      match a {
        case InFirehose =>
          return Ready(NO_INFO);
        case Refused(e) =>
          return Failed(e);
        case Arrived(hello) =>
          r := GreetedHandshake(hello, loader, mode, t0, s0);
      }
    }

    /** From an unanswered Hello to the end. */
    method GreetedHandshake(hello: Hello, loader: LoaderFile, mode: Mode, ghost t0: seq<Mark>,
        ghost s0: seq<seq<byte>>) returns (r: Outcome)
      requires Ran(t0, s0, Start, Greeted(hello))
      requires setup.loader == LoaderBytes(loader) && setup.mode == mode
      modifies this`transcript, this`state, transport
      ensures exists q :: Ran(t0, s0, Start, q)
      ensures r.Ready? ==> state == Done && Ran(t0, s0, Start, Closed)
      ensures r == Panics ==> Ran(t0, s0, Start, Open)
      ensures loader.NoLoader? ==> !r.Ready?
      ensures (r, transport.wire) == GreetedOn(hello, loader, mode, old(transport.wire))
    {
      hide Ran, Follows, QueryOn, TransferOn, HelloResponseWords, WordBytes;
      RanIs(t0, s0, Start, Greeted(hello));
      ghost var t1, s1 := transcript, transport.wire.sent;
      ghost var answer := Sent(HelloResponse, WordBytes(HelloResponseWords(mode, hello.reserved)));
      FollowsOne(setup, t1, s1, answer, Greeted(hello));
      var answered := SendHelloResponse(mode, hello.reserved);
      if !answered {
        FollowsIsRan(t0, s0, Start, Greeted(hello));
        return Failed(Io);
      }
      FollowsTwice(setup, t0, s0, t1, s1, transcript, transport.wire.sent, Start, Greeted(hello), Open);
      var info := NO_INFO;
      if hello.mode == CommandMode {
        var found := QueryDevice(t0, s0);
        if found.None? {
          FollowsIsRan(t0, s0, Start, Open);
          return Panics;
        }
        info := found.value;
      }
      FollowsIsRan(t0, s0, Start, Open);
      match loader {
        case NoLoader =>
          return Panics;
        case Unreadable =>
          return Failed(TransferFailed);
        case Contents(bytes) =>
          var sent := Transfer(bytes, t0, s0);
          r := TransferOutcome(sent, info);
      }
    }

    method QueryDevice(ghost t0: seq<Mark>, ghost s0: seq<seq<byte>>) returns (info: Option<DeviceInfo>)
      requires Follows(setup, t0, s0, transcript, transport.wire.sent, Start, Open)
      modifies this`transcript, transport
      ensures Follows(setup, t0, s0, transcript, transport.wire.sent, Start, Open)
      ensures (info, transport.wire) == QueryOn(old(transport.wire))
    {
      hide Follows, ExecOn, SerialOf;
      ghost var t1, s1 := transcript, transport.wire.sent;
      var id := ExecCmd(MSM_HW_ID_READ);
      FollowsTwice(setup, t0, s0, t1, s1, transcript, transport.wire.sent, Start, Open, Open);
      ghost var t2, s2 := transcript, transport.wire.sent;
      var serial := GetSerialNum();
      FollowsTwice(setup, t0, s0, t2, s2, transcript, transport.wire.sent, Start, Open, Open);
      if serial.SlicePanics? {
        return None;
      }
      return Some(DeviceInfo(if id.Ok? then Some(id.value) else None, if serial.Number? then Some(serial.n) else None));
    }

    method Transfer(loader: seq<byte>, ghost t0: seq<Mark>, ghost s0: seq<seq<byte>>) returns (r: Result<()>)
      requires Ran(t0, s0, Start, Open) && setup.loader == loader
      modifies this`transcript, this`state, transport
      ensures exists q :: Ran(t0, s0, Start, q)
      ensures r.Ok? ==> state == Done && Ran(t0, s0, Start, Closed)
      ensures r == Err(Overflow) ==> Ran(t0, s0, Start, Open)
      ensures (r, transport.wire) == TransferOn(loader, old(transport.wire))
    {
      hide Ran, Follows, Upload, DoneOn;
      RanIs(t0, s0, Start, Open);
      ghost var t1, s1 := transcript, transport.wire.sent;
      r := UploadLoader(loader);
      FollowsTwice(setup, t0, s0, t1, s1, transcript, transport.wire.sent, Start, Open, if r.Ok? then Ended else Open);
      if r.Err? {
        FollowsIsRan(t0, s0, Start, Open);
        return;
      }
      ghost var t2, s2 := transcript, transport.wire.sent;
      r := SendDone();
      if Ran(t2, s2, Ended, Closed) {
        RanOn(t0, s0, t2, s2, Start, Ended, Closed);
      } else {
        RanOn(t0, s0, t2, s2, Start, Ended, Ended);
      }
      if r.Err? {
        return;
      }
      RanIs(t0, s0, Start, Closed);
      state := Done;
      FollowsIsRan(t0, s0, Start, Closed);
    }
  }

  // ----- What is left of the device's bytes -----

  lemma StepTail(w: Wire, cap: nat, whole: seq<byte>)
    requires IsTail(w.incoming, whole)
    ensures IsTail(ReadStep(w, cap).1.incoming, whole)
  {
    var (input, w') := ReadStep(w, cap);
    TailAfter(if input.Data? then input.bytes else [], w'.incoming);
    TailOfTail(w'.incoming, w.incoming, whole);
  }

  /** Reading exactly takes bytes off the front, also when it gives up; a whole read is a part of the stream. */
  lemma {:induction false} ExactTail(w: Wire, need: nat, whole: seq<byte>)
    requires IsTail(w.incoming, whole)
    ensures IsTail(ReadExact(w, need).1.incoming, whole)
    ensures ReadExact(w, need).0.Some? ==> PartOf(ReadExact(w, need).0.value, whole)
    decreases need
  {
    if need > 0 {
      StepTail(w, need, whole);
      var (input, w') := ReadStep(w, need);
      if input.Data? && input.bytes != [] {
        ExactTail(w', need - |input.bytes|, whole);
      }
    }
    var (r, w') := ReadExact(w, need);
    if r.Some? {
      HeadIsPart(r.value, w'.incoming, whole);
    }
  }

  lemma NopTail(nop: seq<byte>, w: Wire, whole: seq<byte>)
    requires IsTail(w.incoming, whole)
    ensures IsTail(NopOn(nop, w).1.incoming, whole)
  {
    StepTail(WriteStep(w, nop).1, NOP_BUF_SIZE, whole);
  }

  lemma RecoverTail(mode: Mode, w: Wire, whole: seq<byte>)
    requires IsTail(w.incoming, whole)
    ensures IsTail(RecoverOn(mode, w).1.incoming, whole)
  {
    hide WordBytes, ReadExact;
    ExactTail(WriteStep(w, WordBytes(HelloResponseWords(mode, NO_RESERVED))).1, 16, whole);
  }
}
