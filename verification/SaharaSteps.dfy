/** What each step of the Sahara handshake does to the wire and reports, as functions of the wire. */
module SaharaSteps {
  import opened Bytes
  import opened Text
  import opened Port
  import opened SaharaUpload
  import opened SaharaTranscript

  /** What the caller hands in as the loader. */
  datatype LoaderFile = NoLoader | Unreadable | Contents(bytes: seq<byte>)

  function LoaderBytes(file: LoaderFile): (bytes: seq<byte>)
  {
    if file.Contents? then file.bytes else []
  }

  datatype DeviceInfo = DeviceInfo(msmHwId: Option<seq<byte>>, serialNum: Option<nat>)

  datatype Outcome = Ready(info: DeviceInfo) | Failed(error: Error) | Panics

  const NO_INFO: DeviceInfo := DeviceInfo(None, None)

  /** The verdict on the 48 bytes read as a Hello. */
  function Greeting(data: seq<byte>): (r: Result<Hello>)
    requires |data| == HELLO_PACKET_SIZE
    ensures r.Ok? ==> |r.value.reserved| == 6
  {
    if data[0] >= 0x20 then Err(AlreadyInFirehose)
    else if WordAt(data, 0) != CodeOf(HelloCmd) then Err(UnexpectedCommand(WordAt(data, 0)))
    else Ok(ParseHello(data))
  }

  /** The first four bytes' verdict: a Hello is read exactly when the packet starts with its code. */
  lemma GreetsExactlyHello(data: seq<byte>)
    requires |data| == HELLO_PACKET_SIZE
    ensures Greeting(data).Ok? <==> WordAt(data, 0) == 1
    ensures Greeting(data).Ok? ==> Greeting(data) == Ok(ParseHello(data))
  {
  }

  /** How waiting for a Hello can end. */
  datatype Arrival = Arrived(hello: Hello) | InFirehose | Refused(error: Error)

  const ACK: seq<byte> := [0x41, 0x43, 0x4B]
  const DONE_BUF_SIZE: nat := 32
  const NOP_BUF_SIZE: nat := 512

  /** Read 48 bytes and judge them. */
  function GreetOn(w: Wire): (r: (Result<Hello>, Wire))
    ensures r.0.Ok? ==> |r.0.value.reserved| == 6
  {
    var (data, w1) := ReadExact(w, HELLO_PACKET_SIZE);
    (if data.None? then Err(HelloFailed) else Greeting(data.value), w1)
  }

  /** A Firehose no-op, answered with ACK within one read or not. */
  function NopOn(nop: seq<byte>, w: Wire): (r: (bool, Wire))
  {
    var (ok, w1) := WriteStep(w, nop);
    if !ok then (false, w1)
    else
      var (input, w2) := ReadStep(w1, NOP_BUF_SIZE);
      (input.Data? && input.bytes != [] && Contains(Lossy(input.bytes), ACK), w2)
  }

  /** The recovery without a Hello: answer one anyway, take what comes back, switch the mode. */
  function RecoverOn(mode: Mode, w: Wire): (r: (bool, Wire))
  {
    var (ok, w1) := WriteStep(w, WordBytes(HelloResponseWords(mode, NO_RESERVED)));
    if !ok then (false, w1) else WriteStep(ReadExact(w1, 16).1, WordBytes(SwitchWords(mode)))
  }

  function ArrivalOf(r: Result<Hello>): (a: Arrival)
  {
    match r
    case Ok(hello) => Arrived(hello)
    case Err(e) => if e == AlreadyInFirehose then InFirehose else Refused(e)
  }

  /** Wait for a Hello: if none comes, ask for Firehose mode, then try the recovery and wait once more. */
  function AwaitOn(withLoader: bool, mode: Mode, nop: seq<byte>, w: Wire): (r: (Arrival, Wire))
    ensures r.0.Arrived? ==> |r.0.hello.reserved| == 6
  {
    var (first, w1) := GreetOn(w);
    if first != Err(HelloFailed) then (ArrivalOf(first), w1)
    else
      var (firehose, w2) := NopOn(nop, w1);
      if firehose then (InFirehose, w2)
      else if !withLoader then (Refused(NotInFirehose), w2)
      else
        var (recovered, w3) := RecoverOn(mode, w2);
        if !recovered then (Refused(Io), w3)
        else
          var (second, w4) := GreetOn(w3);
          (ArrivalOf(second), w4)
  }

  function ExecOn(clientCmd: nat, w: Wire): (r: (Result<seq<byte>>, Wire))
  {
    var (ok, w1) := WriteStep(w, WordBytes(ExecWords(clientCmd)));
    if !ok then (Err(Io), w1)
    else
      var (hdr, w2) := ReadExact(w1, 16);
      if hdr.None? then (Err(TransferFailed), w2)
      else
        var cmd, len := WordAt(hdr.value, 0), WordAt(hdr.value, 3);
        if cmd == CodeOf(ExecuteResponseCmd) then
          if len == 0 then (Ok([]), w2)
          else
            var (data, w3) := ReadExact(w2, len);
            (if data.None? then Err(TransferFailed) else Ok(data.value), w3)
        else (Err(if cmd == CodeOf(EndTransferCmd) then TransferFailed else UnexpectedCommand(cmd)), w2)
  }

  datatype Serial = Number(n: nat) | Unknown | SlicePanics

  /** The serial number is taken from the first eight bytes after checking for only four. */
  function SerialOf(data: Result<seq<byte>>): (s: Serial)
  {
    if data.Err? || |data.value| < 4 then Unknown
    else if |data.value| < 8 then SlicePanics
    else Number(Le(data.value[..8]))
  }

  function InfoOf(id: Result<seq<byte>>, data: Result<seq<byte>>): (info: Option<DeviceInfo>)
  {
    var serial := SerialOf(data);
    if serial.SlicePanics? then None
    else
      Some(DeviceInfo(if id.Ok? then Some(id.value) else None, if serial.Number? then Some(serial.n) else None))
  }

  /** Both device queries; a failed one only leaves its field empty. */
  function QueryOn(w: Wire): (r: (Option<DeviceInfo>, Wire))
  {
    var (id, w1) := ExecOn(MSM_HW_ID_READ, w);
    var (data, w2) := ExecOn(SERIAL_NUM_READ, w1);
    (InfoOf(id, data), w2)
  }

  /** Request completion and take one read's worth of answer. */
  function DoneOn(w: Wire): (r: (Result<()>, Wire))
  {
    var (requested, w1) := WriteStep(w, WordBytes(DONE_WORDS));
    if !requested then (Err(Io), w1)
    else
      var (input, w2) := ReadStep(w1, DONE_BUF_SIZE);
      (if input.Data? then Ok(()) else Err(Io), w2)
  }

  function TransferOn(loader: seq<byte>, w: Wire): (r: (Result<()>, Wire))
  {
    var (uploaded, w1) := Upload(loader, w);
    if uploaded.Err? then (uploaded, w1) else DoneOn(w1)
  }

  function AnswerOn(hello: Hello, mode: Mode, w: Wire): (r: (bool, Wire))
  {
    WriteStep(w, WordBytes(HelloResponseWords(mode, hello.reserved)))
  }

  /** An overflow in the upload is no error the handshake could return. */
  function TransferOutcome(sent: Result<()>, info: DeviceInfo): (r: Outcome)
  {
    match sent
    case Ok(_) => Ready(info)
    case Err(e) => if e == Overflow then Panics else Failed(e)
  }

  /** From a Hello to the end. The loader path is unwrapped after the Hello was answered: without one the
      source panics there. */
  function GreetedOn(hello: Hello, loader: LoaderFile, mode: Mode, w: Wire): (r: (Outcome, Wire))
  {
    var (answered, w1) := AnswerOn(hello, mode, w);
    if !answered then (Failed(Io), w1)
    else
      var (info, w2) := if hello.mode == CommandMode then QueryOn(w1) else (Some(NO_INFO), w1);
      if info.None? then (Panics, w2)
      else
        match loader
        case NoLoader => (Panics, w2)
        case Unreadable => (Failed(TransferFailed), w2)
        case Contents(bytes) =>
          var (sent, w3) := TransferOn(bytes, w2);
          (TransferOutcome(sent, info.value), w3)
  }

  function HandshakeOn(loader: LoaderFile, mode: Mode, nop: seq<byte>, w: Wire): (r: (Outcome, Wire))
  {
    var (a, w1) := AwaitOn(!loader.NoLoader?, mode, nop, w);
    match a
    case InFirehose => (Ready(NO_INFO), w1)
    case Refused(e) => (Failed(e), w1)
    case Arrived(hello) => GreetedOn(hello, loader, mode, w1)
  }

  // ----- When the handshake panics -----

  /** What the two device queries leave, when they are made. */
  function AfterQueries(hello: Hello, w: Wire): (w': Wire)
  {
    if hello.mode == CommandMode then ExecOn(SERIAL_NUM_READ, ExecOn(MSM_HW_ID_READ, w).1).1 else w
  }

  /** The serial number of a device in command mode has four to seven bytes. */
  predicate ShortSerial(hello: Hello, w: Wire)
  {
    && hello.mode == CommandMode
    && var data := ExecOn(SERIAL_NUM_READ, ExecOn(MSM_HW_ID_READ, w).1).0;
       data.Ok? && 4 <= |data.value| < 8
  }

  /** The handshake panics exactly when a Hello arrived, was answered, and then the serial number is short, or
      there is no loader path to unwrap, or the upload meets a request that wraps. */
  lemma HandshakePanicsExactly(loader: LoaderFile, mode: Mode, nop: seq<byte>, w: Wire)
    ensures var (a, w1) := AwaitOn(!loader.NoLoader?, mode, nop, w);
            HandshakeOn(loader, mode, nop, w).0 == Panics <==>
              && a.Arrived? && AnswerOn(a.hello, mode, w1).0
              && (|| ShortSerial(a.hello, AnswerOn(a.hello, mode, w1).1)
                  || loader.NoLoader?
                  || (loader.Contents? &&
                      Upload(loader.bytes, AfterQueries(a.hello, AnswerOn(a.hello, mode, w1).1)).0 == Err(Overflow)))
  {
    hide AwaitOn, ExecOn, Upload, WordBytes, HelloResponseWords;
  }

  // ----- A device that answers -----

  /** One answer to a query: four words, and the data the last one counts if the first names an ExecuteResponse. */
  predicate QueryAnswer(words: seq<nat>, data: seq<byte>)
  {
    && |words| == 4 && (forall i :: 0 <= i < 4 ==> words[i] < Pow256(4))
    && |data| == if words[0] == 0x0E then words[3] else 0
  }

  /** A query against an answering device: its data, or an error that depends on the answer's code alone. */
  lemma QueryAnswered(clientCmd: nat, words: seq<nat>, data: seq<byte>, rest: seq<byte>, w: Wire)
    requires QueryAnswer(words, data) && Plentiful(w) && w.incoming == WordBytes(words) + (data + rest)
    ensures var (r, w') := ExecOn(clientCmd, w);
            && r == (if words[0] == 0x0E then Ok(data)
                     else if words[0] == 0x04 then Err(TransferFailed)
                     else Err(UnexpectedCommand(words[0])))
            && w'.incoming == rest && Plentiful(w')
            && w'.sent == w.sent + [WordBytes(ExecWords(clientCmd))]
  {
    PlentifulWrite(w, WordBytes(ExecWords(clientCmd)));
    WordsReadBack(words, 0);
    WordsReadBack(words, 3);
    hide ReadExact, WriteStep, WordBytes, WordAt, Plentiful, Pow256, ExecWords, ExecOn;
    var w1 := WriteStep(w, WordBytes(ExecWords(clientCmd))).1;
    ReadNext(w1, WordBytes(words), data + rest);
    ExecTakes(clientCmd, WordBytes(words), w);
    assert data == [] ==> data + rest == rest;
    ReadNext(ReadExact(w1, 16).1, data, rest);
  }

  /** What a query makes of the answer's first sixteen bytes. */
  lemma ExecTakes(clientCmd: nat, hdr: seq<byte>, w: Wire)
    requires |hdr| == 16 && WriteStep(w, WordBytes(ExecWords(clientCmd))).0
    requires ReadExact(WriteStep(w, WordBytes(ExecWords(clientCmd))).1, 16).0 == Some(hdr)
    ensures var w2 := ReadExact(WriteStep(w, WordBytes(ExecWords(clientCmd))).1, 16).1;
            var cmd, len := WordAt(hdr, 0), WordAt(hdr, 3);
            if cmd == 0x0E && len == 0 then ExecOn(clientCmd, w) == (Ok([]), w2)
            else if cmd == 0x0E then
              var (data, w3) := ReadExact(w2, len);
              ExecOn(clientCmd, w) == (if data.None? then Err(TransferFailed) else Ok(data.value), w3)
            else ExecOn(clientCmd, w) == (Err(if cmd == 0x04 then TransferFailed else UnexpectedCommand(cmd)), w2)
  {
    hide ReadExact, WriteStep, WordBytes, WordAt, ExecWords;
  }

  lemma PlentifulWrite(w: Wire, bytes: seq<byte>)
    requires Plentiful(w)
    ensures WriteStep(w, bytes).0 && Plentiful(WriteStep(w, bytes).1)
  {
  }

  /** A device in command mode that answers both queries. */
  function QueryBytes(idWords: seq<nat>, id: seq<byte>, serialWords: seq<nat>, serial: seq<byte>, rest: seq<byte>)
    : (bytes: seq<byte>)
  {
    WordBytes(idWords) + (id + (WordBytes(serialWords) + (serial + rest)))
  }

  /** What the host learns from both answers; a serial number of four to seven bytes panics. */
  function QueryInfo(idWords: seq<nat>, id: seq<byte>, serialWords: seq<nat>, serial: seq<byte>)
    : (info: Option<DeviceInfo>)
    requires |idWords| == |serialWords| == 4
  {
    var hasSerial := serialWords[0] == 0x0E;
    if hasSerial && 4 <= |serial| < 8 then None
    else
      Some(DeviceInfo(if idWords[0] == 0x0E then Some(id) else None,
                      if hasSerial && |serial| >= 8 then Some(Le(serial[..8])) else None))
  }

  lemma InfoFromAnswers(idWords: seq<nat>, id: seq<byte>, idRead: Result<seq<byte>>,
      serialWords: seq<nat>, serial: seq<byte>, serialRead: Result<seq<byte>>)
    requires |idWords| == |serialWords| == 4
    requires if idWords[0] == 0x0E then idRead == Ok(id) else idRead.Err?
    requires if serialWords[0] == 0x0E then serialRead == Ok(serial) else serialRead.Err?
    ensures InfoOf(idRead, serialRead) == QueryInfo(idWords, id, serialWords, serial)
  {
  }

  /** The result of both queries, for every pair of answers. */
  lemma QueriesAnswered(idWords: seq<nat>, id: seq<byte>, serialWords: seq<nat>, serial: seq<byte>, rest: seq<byte>,
      w: Wire)
    requires QueryAnswer(idWords, id) && QueryAnswer(serialWords, serial) && Plentiful(w)
    requires w.incoming == QueryBytes(idWords, id, serialWords, serial, rest)
    ensures var (info, w') := QueryOn(w);
            && info == QueryInfo(idWords, id, serialWords, serial)
            && w'.incoming == rest && Plentiful(w')
            && w'.sent == w.sent + QueriesSent(CommandMode)
  {
    assert |idWords| == |serialWords| == 4;
    hide ExecOn, WordBytes, Plentiful, QueryAnswer, QueryInfo, InfoOf, ExecWords;
    var w1 := ExecOn(MSM_HW_ID_READ, w).1;
    QueryAnswered(MSM_HW_ID_READ, idWords, id, WordBytes(serialWords) + (serial + rest), w);
    QueryAnswered(SERIAL_NUM_READ, serialWords, serial, rest, w1);
    InfoFromAnswers(idWords, id, ExecOn(MSM_HW_ID_READ, w).0, serialWords, serial, ExecOn(SERIAL_NUM_READ, w1).0);
    FixedPackets();
    var x, y := WordBytes(ExecWords(MSM_HW_ID_READ)), WordBytes(ExecWords(SERIAL_NUM_READ));
    assert w.sent + [x] + [y] == w.sent + [x, y];
  }

  /** Reading a valid Hello off a plentiful link. */
  lemma HelloArrives(packet: seq<byte>, withLoader: bool, mode: Mode, nop: seq<byte>, rest: seq<byte>, w: Wire)
    requires |packet| == HELLO_PACKET_SIZE && WordAt(packet, 0) == 1
    requires w.incoming == packet + rest && Plentiful(w)
    ensures var (a, w1) := AwaitOn(withLoader, mode, nop, w);
            && a == Arrived(ParseHello(packet)) && w1.incoming == rest && w1.sent == w.sent && Plentiful(w1)
    ensures var w1 := AwaitOn(withLoader, mode, nop, w).1;
            var answer := WordBytes(HelloResponseWords(mode, ParseHello(packet).reserved));
            var (answered, w2) := WriteStep(w1, answer);
            answered && w2.incoming == rest && w2.sent == w.sent + [answer] && Plentiful(w2)
  {
    GreetsExactlyHello(packet);
    ReadNext(w, packet, rest);
    hide ReadExact, Greeting, ParseHello, HelloResponseWords, WordBytes, WordAt, NopOn, RecoverOn;
  }

  /** 48 bytes that are no Hello: if the first is printable text, the device is taken to be in Firehose mode already,
      with or without a loader; otherwise the handshake fails with the code it found. Neither writes anything. */
  lemma NotAHello(packet: seq<byte>, loader: LoaderFile, mode: Mode, nop: seq<byte>, rest: seq<byte>, w: Wire)
    requires |packet| == 48 && WordAt(packet, 0) != 1
    requires w.incoming == packet + rest && Plentiful(w)
    ensures var (r, w') := HandshakeOn(loader, mode, nop, w);
            && r == (if packet[0] >= 0x20 then Ready(DeviceInfo(None, None))
                     else Failed(UnexpectedCommand(WordAt(packet, 0))))
            && w'.sent == w.sent && w'.incoming == rest
  {
    ReadNext(w, packet, rest);
    hide ReadExact, WordAt, GreetedOn, NopOn, RecoverOn, ParseHello;
  }

  /** From an answered Hello to the end, once the queries, if any, are behind: the conversation alone decides. */
  lemma TransferCompletes(loader: seq<byte>, ps: seq<Packet>, rest: seq<byte>, w: Wire)
    requires Conversation(ps) && w.incoming == EncodeAll(ps) + rest && Plentiful(w)
    ensures var (r, w') := TransferOn(loader, w);
            var refusal := Refusal(loader, ps);
            && r == (if refusal.None? then Ok(()) else Err(refusal.value))
            && w'.sent == w.sent + Answers(loader, ps) + CompletionSent(refusal)
  {
    UploadServesRequests(loader, ps, rest, w);
    UploadKeepsPlenty(loader, w);
    TwoWords(5, 8);
    hide Upload, WordBytes, EncodeAll, Answers, Conversation, Refusal;
  }

  /** The completion request needs no answer, but a transport that does not fail. */
  lemma DoneNeedsNoAnswer(w: Wire)
    requires w.writeFaults == [] && w.script != []
    ensures var (r, w') := DoneOn(w);
            && r == (if w.script[0].Fault? then Err(Io) else Ok(()))
            && w'.sent == w.sent + [[5, 0, 0, 0, 8, 0, 0, 0]]
  {
    TwoWords(5, 8);
    hide WordBytes;
  }

  /** The device's side of a handshake after its Hello. */
  function DeviceBytes(mode: Mode, idWords: seq<nat>, id: seq<byte>, serialWords: seq<nat>, serial: seq<byte>,
      ps: seq<Packet>, rest: seq<byte>): (bytes: seq<byte>)
  {
    if mode == CommandMode then QueryBytes(idWords, id, serialWords, serial, EncodeAll(ps) + rest)
    else EncodeAll(ps) + rest
  }

  /** The packets the host writes between its answer to the Hello and the upload: an ExecuteRequest for the hardware
      number and one for the serial number. */
  function QueriesSent(mode: Mode): (writes: seq<seq<byte>>)
  {
    if mode == CommandMode then [[13, 0, 0, 0, 12, 0, 0, 0, 2, 0, 0, 0], [13, 0, 0, 0, 12, 0, 0, 0, 1, 0, 0, 0]] else []
  }

  /** A DoneRequest, after a complete transfer. */
  function CompletionSent(refusal: Option<Error>): (writes: seq<seq<byte>>)
  {
    if refusal.None? then [[5, 0, 0, 0, 8, 0, 0, 0]] else []
  }

  lemma SentInOrder(s: seq<seq<byte>>, q: seq<seq<byte>>, x: seq<seq<byte>>, y: seq<seq<byte>>)
    ensures s + q + (x + y) == s + q + x + y && s + q + [] == s + q
    ensures q == [] ==> s + q + (x + y) == s + x + y
  {
  }

  /** What the device's bytes tell the host about the device. */
  function Learned(mode: Mode, idWords: seq<nat>, id: seq<byte>, serialWords: seq<nat>, serial: seq<byte>)
    : (info: Option<DeviceInfo>)
    requires |idWords| == |serialWords| == 4
  {
    if mode == CommandMode then QueryInfo(idWords, id, serialWords, serial) else Some(NO_INFO)
  }

  /** From an answered Hello to the end. */
  lemma AnsweredCompletes(hello: Hello, idWords: seq<nat>, id: seq<byte>, serialWords: seq<nat>, serial: seq<byte>,
      loader: seq<byte>, ps: seq<Packet>, rest: seq<byte>, w: Wire)
    requires QueryAnswer(idWords, id) && QueryAnswer(serialWords, serial) && Conversation(ps) && Plentiful(w)
    requires w.incoming == DeviceBytes(hello.mode, idWords, id, serialWords, serial, ps, rest)
    ensures |idWords| == |serialWords| == 4
    ensures var (info, w2) := if hello.mode == CommandMode then QueryOn(w) else (Some(NO_INFO), w);
            var refusal := Refusal(loader, ps);
            && info == Learned(hello.mode, idWords, id, serialWords, serial)
            && w2.sent == w.sent + QueriesSent(hello.mode)
            && TransferOn(loader, w2).0 == (if refusal.None? then Ok(()) else Err(refusal.value))
            && TransferOn(loader, w2).1.sent ==
               w.sent + QueriesSent(hello.mode) + (Answers(loader, ps) + CompletionSent(refusal))
  {
    assert |idWords| == |serialWords| == 4;
    hide TransferOn, QueryOn, WordBytes, EncodeAll, Answers, Conversation, Plentiful, QueryAnswer, QueryBytes,
      QueryInfo, Refusal, CompletionSent;
    SentInOrder(w.sent, QueriesSent(hello.mode), Answers(loader, ps), CompletionSent(Refusal(loader, ps)));
    if hello.mode == CommandMode {
      QueriesAnswered(idWords, id, serialWords, serial, EncodeAll(ps) + rest, w);
      TransferCompletes(loader, ps, rest, QueryOn(w).1);
    } else {
      TransferCompletes(loader, ps, rest, w);
    }
  }

  function OutcomeOf(info: Option<DeviceInfo>, refusal: Option<Error>): (r: Outcome)
  {
    if info.None? || refusal == Some(Overflow) then Panics
    else if refusal.Some? then Failed(refusal.value)
    else Ready(info.value)
  }

  /** Everything the host writes after its answer to the Hello. */
  function WrittenAfter(mode: Mode, info: Option<DeviceInfo>, loader: seq<byte>, ps: seq<Packet>)
    : (writes: seq<seq<byte>>)
  {
    QueriesSent(mode) + if info.None? then [] else Answers(loader, ps) + CompletionSent(Refusal(loader, ps))
  }

  lemma GreetedCompletes(hello: Hello, idWords: seq<nat>, id: seq<byte>, serialWords: seq<nat>, serial: seq<byte>,
      mode: Mode, loader: seq<byte>, ps: seq<Packet>, rest: seq<byte>, w: Wire)
    requires QueryAnswer(idWords, id) && QueryAnswer(serialWords, serial) && Conversation(ps)
    requires var (answered, w2) := AnswerOn(hello, mode, w);
             && answered && Plentiful(w2)
             && w2.incoming == DeviceBytes(hello.mode, idWords, id, serialWords, serial, ps, rest)
    ensures |idWords| == |serialWords| == 4
    ensures var (r, w') := GreetedOn(hello, Contents(loader), mode, w);
            var info := Learned(hello.mode, idWords, id, serialWords, serial);
            && r == OutcomeOf(info, Refusal(loader, ps))
            && w'.sent == AnswerOn(hello, mode, w).1.sent + WrittenAfter(hello.mode, info, loader, ps)
  {
    hide TransferOn, QueryOn, AnswerOn, DeviceBytes, Answers, Conversation, Plentiful, QueryAnswer, QueryInfo, Refusal,
      QueriesSent, CompletionSent;
    var w2 := AnswerOn(hello, mode, w).1;
    AnsweredCompletes(hello, idWords, id, serialWords, serial, loader, ps, rest, w2);
    var q := QueriesSent(hello.mode);
    assert q + [] == q;
    assert w2.sent + q + (Answers(loader, ps) + CompletionSent(Refusal(loader, ps))) ==
           w2.sent + (q + (Answers(loader, ps) + CompletionSent(Refusal(loader, ps))));
  }

  /** On a plentiful link, however small its fragments, the device's bytes decide the handshake. After a valid
      Hello, in command mode after the answers to both queries, and then for any conversation of requests: the
      host writes its answer to that Hello, the queries, exactly the requested ranges up to the first one the
      loader does not have, and after a complete transfer the completion request; it reports what it was told,
      or refuses, or panics. */
  lemma HandshakeCompletes(packet: seq<byte>, idWords: seq<nat>, id: seq<byte>, serialWords: seq<nat>,
      serial: seq<byte>, mode: Mode, loader: seq<byte>, ps: seq<Packet>, rest: seq<byte>, nop: seq<byte>, w: Wire)
    requires |packet| == HELLO_PACKET_SIZE && WordAt(packet, 0) == 1
    requires QueryAnswer(idWords, id) && QueryAnswer(serialWords, serial) && Conversation(ps) && Plentiful(w)
    requires w.incoming == packet + DeviceBytes(ParseHello(packet).mode, idWords, id, serialWords, serial, ps, rest)
    ensures |idWords| == |serialWords| == 4
    ensures var (r, w') := HandshakeOn(Contents(loader), mode, nop, w);
            var hello := ParseHello(packet);
            var info := Learned(hello.mode, idWords, id, serialWords, serial);
            && r == OutcomeOf(info, Refusal(loader, ps))
            && w'.sent == w.sent + [WordBytes(HelloResponseWords(mode, hello.reserved))] +
                          WrittenAfter(hello.mode, info, loader, ps)
  {
    hide AwaitOn, GreetedOn, ParseHello, HelloResponseWords, WordBytes, WordAt, DeviceBytes, Conversation, Plentiful,
      QueryAnswer, WrittenAfter, Learned, OutcomeOf, Refusal;
    var hello := ParseHello(packet);
    HelloArrives(packet, true, mode, nop, DeviceBytes(hello.mode, idWords, id, serialWords, serial, ps, rest), w);
    GreetedCompletes(hello, idWords, id, serialWords, serial, mode, loader, ps, rest, AwaitOn(true, mode, nop, w).1);
  }

  /** Every valid Hello from a device that is not in command mode makes a session without a loader panic. */
  lemma NoLoaderPanics(packet: seq<byte>, mode: Mode, nop: seq<byte>, rest: seq<byte>, w: Wire)
    requires |packet| == HELLO_PACKET_SIZE && WordAt(packet, 0) == 1
    requires ParseHello(packet).mode != CommandMode
    requires w.incoming == packet + rest && Plentiful(w)
    ensures HandshakeOn(NoLoader, mode, nop, w).0 == Panics
  {
    hide AwaitOn, ParseHello, HelloResponseWords, WordBytes, WordAt, Plentiful;
    HelloArrives(packet, false, mode, nop, rest, w);
  }

  /** A Hello as it is laid out, with zeros where nothing is asked for. */
  function HelloPacket(mode: Mode): (packet: seq<byte>)
    ensures |packet| == HELLO_PACKET_SIZE
  {
    WordBytes([CodeOf(HelloCmd), HELLO_PACKET_SIZE, 2, 1, 1024, ModeCode(mode)] + NO_RESERVED)
  }

  lemma HelloPacketIsValid(mode: Mode)
    ensures WordAt(HelloPacket(mode), 0) == 1 && ParseHello(HelloPacket(mode)).mode == mode
  {
    FieldSizes();
    hide Pow256, WordBytes, WordAt;
    var words := [CodeOf(HelloCmd), HELLO_PACKET_SIZE, 2, 1, 1024, ModeCode(mode)] + NO_RESERVED;
    WordsReadBack(words, 0);
    WordsReadBack(words, 5);
  }

  /** One wire each: a Hello and nothing else, read at once; and a command-mode Hello followed by an empty
      hardware number and a serial number of four bytes. */
  function HelloWire(): (w: Wire)
  {
    Wire(HelloPacket(ImageTransfer), seq(48, _ => Deliver(48)), [], [], [])
  }

  function ShortSerialBytes(): (bytes: seq<byte>)
  {
    QueryBytes([0x0E, 16, MSM_HW_ID_READ, 0], [], [0x0E, 16, SERIAL_NUM_READ, 4], [1, 2, 3, 4],
               EncodeAll(JUST_END) + [])
  }

  const JUST_END: seq<Packet> := [End(0x04, [0, 0, 0, 16])]

  function ShortSerialWire(): (w: Wire)
  {
    var bytes := HelloPacket(CommandMode) + ShortSerialBytes();
    Wire(bytes, seq(|bytes|, _ => Deliver(1)), [], [], [])
  }

  lemma InstancesPanic(nop: seq<byte>)
    ensures HandshakeOn(NoLoader, ImageTransfer, nop, HelloWire()).0 == Panics
    ensures HandshakeOn(Contents([]), ImageTransfer, nop, ShortSerialWire()).0 == Panics
  {
    hide HandshakeOn, WordBytes, WordAt, ParseHello, HelloPacket, EncodeAll, Le;
    HelloPacketIsValid(ImageTransfer);
    HelloPacketIsValid(CommandMode);
    FieldSizes();
    hide Pow256;
    var w := HelloWire();
    assert w.incoming == w.incoming + [];
    NoLoaderPanics(w.incoming, ImageTransfer, nop, [], w);
    HandshakeCompletes(HelloPacket(CommandMode), [0x0E, 16, MSM_HW_ID_READ, 0], [], [0x0E, 16, SERIAL_NUM_READ, 4],
                       [1, 2, 3, 4], ImageTransfer, [], JUST_END, [], nop, ShortSerialWire());
  }

  lemma {:induction false} UploadKeepsPlenty(loader: seq<byte>, w: Wire)
    requires w.writeFaults == [] && Flowing(w.script)
    ensures var w' := Upload(loader, w).1;
            w'.writeFaults == [] && Flowing(w'.script)
    decreases |w.incoming|
  {
    hide ReadExact, ReadStep, Le, CommandOf, OffsetOf, LengthOf, Flowing;
    ExactKeepsFlow(w, 8);
    var (hdr, w1) := ReadExact(w, 8);
    if hdr.Some? {
      var cmd := CommandOf(Le(hdr.value[0..4]));
      if cmd == Some(EndTransferCmd) || cmd == Some(DoneResponseCmd) {
      } else if cmd.None? || RequestBody(cmd.value).None? {
        UploadKeepsPlenty(loader, w1);
      } else {
        ExactKeepsFlow(w1, RequestBody(cmd.value).value);
        var (body, w2) := ReadExact(w1, RequestBody(cmd.value).value);
        if body.Some? {
          var (sent, w3) := SendChunk(loader, OffsetOf(body.value), LengthOf(body.value), w2);
          if sent.Ok? {
            UploadKeepsPlenty(loader, w3);
          }
        }
      }
    }
  }

  lemma StepKeepsFlow(w: Wire, cap: nat)
    requires Flowing(w.script)
    ensures Flowing(ReadStep(w, cap).1.script)
  {
  }

  lemma {:induction false} ExactKeepsFlow(w: Wire, need: nat)
    requires Flowing(w.script)
    ensures Flowing(ReadExact(w, need).1.script)
    decreases need
  {
    if need == 0 {
      ExactNothing(w);
    } else {
      ExactTurn(w, need);
      StepKeepsFlow(w, need);
      hide ReadStep, ReadExact, Flowing;
      var (input, w') := ReadStep(w, need);
      if input.Data? && input.bytes != [] {
        ExactKeepsFlow(w', need - |input.bytes|);
      }
    }
  }
}
