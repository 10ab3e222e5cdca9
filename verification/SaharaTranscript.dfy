/** The Sahara packets of the handshake and the transcripts a handshake may leave. */
module SaharaTranscript {
  import opened Bytes
  import opened Text
  import opened SaharaUpload

  const HELLO_PACKET_SIZE: nat := 48
  const PROTOCOL_VERSION: nat := 2
  const PROTOCOL_VERSION_MIN: nat := 2
  const MSM_HW_ID_READ: nat := 0x02
  const SERIAL_NUM_READ: nat := 0x01

  datatype Mode = ImageTransfer | ImageTransferComplete | MemoryDebug | CommandMode

  function ModeCode(m: Mode): (v: nat)
    ensures v < 4 && ModeOf(v) == m
  {
    match m case ImageTransfer => 0 case ImageTransferComplete => 1 case MemoryDebug => 2 case CommandMode => 3
  }

  function ModeOf(v: nat): (m: Mode)
  {
    if v == 1 then ImageTransferComplete
    else if v == 2 then MemoryDebug
    else if v == 3 then CommandMode
    else ImageTransfer
  }

  datatype State = WaitingHello | HelloReceived | WaitingDataRequest | Transferring | Done

  // ----- Packets of 32-bit words -----

  function WordBytes(words: seq<nat>): (bytes: seq<byte>)
    ensures |bytes| == 4 * |words|
  {
    if words == [] then [] else LeBytes(words[0], 4) + WordBytes(words[1..])
  }

  function WordAt(bytes: seq<byte>, i: nat): (v: nat)
    requires 4 * i + 4 <= |bytes|
  {
    Le(bytes[4 * i..4 * i + 4])
  }

  lemma {:induction false} WordBytesSnoc(words: seq<nat>, w: nat)
    ensures WordBytes(words + [w]) == WordBytes(words) + LeBytes(w, 4)
  {
    if words == [] {
      assert [] + [w] == [w];
      assert WordBytes([w]) == LeBytes(w, 4) + WordBytes([]) == LeBytes(w, 4);
      assert [] + LeBytes(w, 4) == LeBytes(w, 4);
    } else {
      assert (words + [w])[1..] == words[1..] + [w];
      WordBytesSnoc(words[1..], w);
    }
  }

  /** A packet's words read back from its bytes. */
  lemma {:induction false} WordsReadBack(words: seq<nat>, i: nat)
    requires i < |words| && words[i] < Pow256(4)
    ensures WordAt(WordBytes(words), i) == words[i]
  {
    var bytes := WordBytes(words);
    if i == 0 {
      assert bytes[0..4] == LeBytes(words[0], 4);
      LeField(words[0], 4);
    } else {
      WordsReadBack(words[1..], i - 1);
      assert bytes[4..] == WordBytes(words[1..]);
      hide WordBytes;
      WordOfRest(bytes, i);
    }
  }

  lemma WordOfRest(bytes: seq<byte>, i: nat)
    requires i > 0 && 4 * i + 4 <= |bytes|
    ensures WordAt(bytes, i) == WordAt(bytes[4..], i - 1)
  {
    assert 4 * (i - 1) == 4 * i - 4;
    assert bytes[4..][4 * i - 4..4 * i] == bytes[4 * i..4 * i + 4];
  }

  // ----- Hello -----

  datatype Hello = Hello(packetLength: nat, version: nat, versionMin: nat, maxCommandLength: nat, mode: Mode,
      reserved: seq<nat>)

  function ParseHello(data: seq<byte>): (h: Hello)
    requires |data| == HELLO_PACKET_SIZE
    ensures |h.reserved| == 6
  {
    Hello(WordAt(data, 1), WordAt(data, 2), WordAt(data, 3), WordAt(data, 4), ModeOf(WordAt(data, 5)),
          [WordAt(data, 6), WordAt(data, 7), WordAt(data, 8), WordAt(data, 9), WordAt(data, 10), WordAt(data, 11)])
  }

  const NO_RESERVED: seq<nat> := [0, 0, 0, 0, 0, 0]
  const DONE_WORDS: seq<nat> := [5, 8] // DoneRequest, packet length 8

  function SwitchWords(mode: Mode): (words: seq<nat>)
  {
    [CodeOf(SwitchModeCmd), 12, ModeCode(mode)]
  }

  function ExecWords(clientCmd: nat): (words: seq<nat>)
  {
    [CodeOf(ExecuteRequestCmd), 12, clientCmd]
  }

  function HelloResponseWords(mode: Mode, reserved: seq<nat>): (words: seq<nat>)
  {
    [CodeOf(HelloResponseCmd), HELLO_PACKET_SIZE, PROTOCOL_VERSION, PROTOCOL_VERSION_MIN, 0, ModeCode(mode)] + reserved
  }

  lemma WordOfTail(data: seq<byte>, k: nat, i: nat)
    requires 4 * (i + k) + 4 <= |data|
    ensures WordAt(data[4 * k..], i) == WordAt(data, i + k)
  {
    assert data[4 * k..][4 * i..4 * i + 4] == data[4 * (i + k)..4 * (i + k) + 4];
  }

  /** A word below 256 as its four bytes. */
  lemma SmallWord(v: nat)
    requires v < 256
    ensures LeBytes(v, 4) == [v as byte, 0, 0, 0]
  {
    assert LeBytes(0, 3) == [0] + LeBytes(0, 2) && LeBytes(0, 2) == [0] + LeBytes(0, 1);
    assert LeBytes(0, 1) == [0] + LeBytes(0, 0);
    assert LeBytes(v, 4) == [(v % 256) as byte] + LeBytes(v / 256, 3);
  }

  lemma OneMoreWord(w: nat, words: seq<nat>)
    requires w < 256
    ensures WordBytes([w] + words) == [w as byte, 0, 0, 0] + WordBytes(words)
  {
    SmallWord(w);
    hide LeBytes;
    assert ([w] + words)[1..] == words;
  }

  lemma TwoWords(a: nat, b: nat)
    requires a < 256 && b < 256
    ensures WordBytes([a, b]) == [a as byte, 0, 0, 0, b as byte, 0, 0, 0]
  {
    OneMoreWord(a, [b]);
    OneMoreWord(b, []);
    assert WordBytes([]) == [];
    hide WordBytes;
    assert [a] + [b] == [a, b] && [b] + [] == [b];
  }

  lemma ThreeWords(a: nat, b: nat, c: nat)
    requires a < 256 && b < 256 && c < 256
    ensures WordBytes([a, b, c]) == [a as byte, 0, 0, 0, b as byte, 0, 0, 0, c as byte, 0, 0, 0]
  {
    OneMoreWord(a, [b, c]);
    TwoWords(b, c);
    hide WordBytes;
    assert [a] + [b, c] == [a, b, c];
  }

  /** Every fixed packet the host writes, byte for byte: the completion request, the mode switch and the two
      queries, hardware number and serial number. */
  lemma FixedPackets()
    ensures WordBytes(DONE_WORDS) == [5, 0, 0, 0, 8, 0, 0, 0]
    ensures WordBytes(SwitchWords(ImageTransfer)) == [12, 0, 0, 0, 12, 0, 0, 0, 0, 0, 0, 0]
    ensures WordBytes(SwitchWords(ImageTransferComplete)) == [12, 0, 0, 0, 12, 0, 0, 0, 1, 0, 0, 0]
    ensures WordBytes(SwitchWords(MemoryDebug)) == [12, 0, 0, 0, 12, 0, 0, 0, 2, 0, 0, 0]
    ensures WordBytes(SwitchWords(CommandMode)) == [12, 0, 0, 0, 12, 0, 0, 0, 3, 0, 0, 0]
    ensures WordBytes(ExecWords(MSM_HW_ID_READ)) == [13, 0, 0, 0, 12, 0, 0, 0, 2, 0, 0, 0]
    ensures WordBytes(ExecWords(SERIAL_NUM_READ)) == [13, 0, 0, 0, 12, 0, 0, 0, 1, 0, 0, 0]
  {
    hide WordBytes;
    TwoWords(5, 8);
    ThreeWords(12, 12, 0);
    ThreeWords(12, 12, 1);
    ThreeWords(12, 12, 2);
    ThreeWords(12, 12, 3);
    ThreeWords(13, 12, 2);
    ThreeWords(13, 12, 1);
  }

  /** The answer to a Hello is a HelloResponse, code 2, of 48 bytes, protocol version 2 and least version 2, no command
      length and the mode asked for, that hands the device's own reserved words back byte for byte. */
  lemma HelloResponseEchoes(data: seq<byte>, mode: Mode)
    requires |data| == HELLO_PACKET_SIZE
    ensures var response := WordBytes(HelloResponseWords(mode, ParseHello(data).reserved));
            var m: byte := match mode case ImageTransfer => 0 case ImageTransferComplete => 1 case MemoryDebug => 2
                           case CommandMode => 3;
            && |response| == 48
            && response[..12] == [2, 0, 0, 0, 48, 0, 0, 0, 2, 0, 0, 0]
            && response[12..24] == [2, 0, 0, 0, 0, 0, 0, 0, m, 0, 0, 0]
            && response[24..] == data[24..]
  {
    var reserved := ParseHello(data).reserved;
    var words := HelloResponseWords(mode, reserved);
    WordBytesTail(words, 6);
    WordBytesHead(words, 6);
    ReservedOf(data);
    ThreeWords(2, 48, 2);
    ThreeWords(2, 0, ModeCode(mode));
    hide WordBytes, ParseHello;
    var head := words[..6];
    WordBytesHead(head, 3);
    WordBytesTail(head, 3);
    assert words[6..] == reserved && head[..3] == [2, 48, 2] && head[3..] == [2, 0, ModeCode(mode)];
  }

  lemma ReservedOf(data: seq<byte>)
    requires |data| == HELLO_PACKET_SIZE
    ensures WordBytes(ParseHello(data).reserved) == data[24..]
  {
    var reserved := ParseHello(data).reserved;
    forall i: nat | i < 6
      ensures reserved[i] == WordAt(data[24..], i)
    {
      WordOfTail(data, 6, i);
      assert reserved[i] == WordAt(data, i + 6);
    }
    ReservedEcho(data[24..], reserved);
  }

  lemma {:induction false} WordBytesHead(words: seq<nat>, k: nat)
    requires k <= |words|
    ensures WordBytes(words)[..4 * k] == WordBytes(words[..k])
  {
    if k > 0 {
      WordBytesHead(words[1..], k - 1);
      assert words[..k][1..] == words[1..][..k - 1];
      assert WordBytes(words)[..4 * k] == LeBytes(words[0], 4) + WordBytes(words[1..])[..4 * (k - 1)];
    }
  }

  /** A Hello laid out word by word reads back as its fields; modes the protocol does not know are taken for image
      transfer. */
  lemma HelloReadsBack(length: nat, version: nat, versionMin: nat, maxLength: nat, mode: nat, reserved: seq<nat>)
    requires |reserved| == 6 && forall i :: 0 <= i < 6 ==> reserved[i] < 0x1_0000_0000
    requires length < 0x1_0000_0000 && version < 0x1_0000_0000 && versionMin < 0x1_0000_0000
    requires maxLength < 0x1_0000_0000 && mode < 0x1_0000_0000
    ensures var packet := WordBytes([1, length, version, versionMin, maxLength, mode] + reserved);
            && |packet| == 48 && WordAt(packet, 0) == 1
            && ParseHello(packet) ==
               Hello(length, version, versionMin, maxLength,
                     if mode == 1 then ImageTransferComplete else if mode == 2 then MemoryDebug
                     else if mode == 3 then CommandMode else ImageTransfer, reserved)
  {
    FieldSizes();
    var words := [1, length, version, versionMin, maxLength, mode] + reserved;
    forall i: nat | i < 12
      ensures WordAt(WordBytes(words), i) == words[i]
    {
      WordsReadBack(words, i);
    }
    hide WordBytes, WordAt;
    var h := ParseHello(WordBytes(words));
    assert h.reserved == reserved;
  }

  lemma {:induction false} WordBytesTail(words: seq<nat>, k: nat)
    requires k <= |words|
    ensures WordBytes(words)[4 * k..] == WordBytes(words[k..])
  {
    if k > 0 {
      WordBytesTail(words[1..], k - 1);
      assert WordBytes(words)[4..] == WordBytes(words[1..]);
      assert WordBytes(words)[4 * k..] == WordBytes(words)[4..][4 * (k - 1)..];
      assert words[1..][k - 1..] == words[k..];
    }
  }

  lemma {:induction false} ReservedEcho(data: seq<byte>, words: seq<nat>)
    requires |data| == 4 * |words| && forall i :: 0 <= i < |words| ==> words[i] == WordAt(data, i)
    ensures WordBytes(words) == data
  {
    if words != [] {
      assert words[0] == Le(data[0..4]);
      LeBytesOfLe(data[0..4]);
      forall i | 0 <= i < |words| - 1
        ensures words[1..][i] == WordAt(data[4..], i)
      {
        assert words[1..][i] == words[i + 1] == WordAt(data, i + 1);
        assert data[4..][4 * i..4 * i + 4] == data[4 * (i + 1)..4 * (i + 1) + 4];
      }
      ReservedEcho(data[4..], words[1..]);
      assert data == data[0..4] + data[4..];
    }
  }

  // ----- Transcripts -----

  datatype Kind = HelloResponse | LoaderChunk | DoneRequest | ModeSwitch | ExecRequest | FirehoseNop
  datatype Mark = HelloSeen(packet: seq<byte>) | Sent(kind: Kind, bytes: seq<byte>) | TransferEnded

  /** How far a handshake has got: nothing, greeted, answered, transfer over, completion requested. */
  datatype Phase = Start | Greeted(hello: Hello) | Open | Ended | Closed

  /** What one handshake can draw its packets from: the bytes the device sends, the loader, the mode it was
      asked for and the no-op document. */
  datatype Setup = Setup(input: seq<byte>, loader: seq<byte>, mode: Mode, nop: seq<byte>)

  ghost predicate PartOf(piece: seq<byte>, whole: seq<byte>)
  {
    exists i: nat :: OccursAt(piece, whole, i)
  }

  ghost predicate IsTail(rest: seq<byte>, whole: seq<byte>)
  {
    exists i: nat :: TailAt(rest, whole, i)
  }

  predicate TailAt(rest: seq<byte>, whole: seq<byte>, i: nat)
  {
    i <= |whole| && whole[i..] == rest
  }

  lemma TailOfTail(a: seq<byte>, b: seq<byte>, c: seq<byte>)
    requires IsTail(a, b) && IsTail(b, c)
    ensures IsTail(a, c)
  {
    var i: nat :| TailAt(a, b, i);
    var j: nat :| TailAt(b, c, j);
    assert TailAt(a, c, j + i);
  }

  lemma TailAfter(head: seq<byte>, rest: seq<byte>)
    ensures IsTail(rest, head + rest) && IsTail(rest, rest)
  {
    assert TailAt(rest, head + rest, |head|) && TailAt(rest, rest, 0);
  }

  lemma HeadIsPart(head: seq<byte>, rest: seq<byte>, whole: seq<byte>)
    requires IsTail(head + rest, whole)
    ensures PartOf(head, whole)
  {
    var i: nat :| TailAt(head + rest, whole, i);
    assert whole[i..i + |head|] == whole[i..][..|head|] == head;
    assert OccursAt(head, whole, i);
  }

  ghost predicate ValidHello(env: Setup, packet: seq<byte>)
  {
    |packet| == HELLO_PACKET_SIZE && WordAt(packet, 0) == 1 && PartOf(packet, env.input)
  }

  /** The bytes of a mark are what its kind says, in the phase it stands in. */
  ghost predicate Genuine(env: Setup, p: Phase, m: Mark)
  {
    match m
    case HelloSeen(packet) => ValidHello(env, packet)
    case TransferEnded => true
    case Sent(kind, bytes) =>
      match kind
      case HelloResponse =>
        bytes == WordBytes(HelloResponseWords(env.mode, if p.Greeted? then p.hello.reserved else NO_RESERVED))
      case LoaderChunk => PartOf(bytes, env.loader)
      case DoneRequest => bytes == WordBytes(DONE_WORDS)
      case ModeSwitch => bytes == WordBytes(SwitchWords(env.mode))
      case ExecRequest => bytes in {WordBytes(ExecWords(MSM_HW_ID_READ)), WordBytes(ExecWords(SERIAL_NUM_READ))}
      case FirehoseNop => bytes == env.nop
  }

  ghost function Advance(env: Setup, p: Phase, m: Mark): (next: Option<Phase>)
  {
    if !Genuine(env, p, m) then None
    else
      match (p, m)
      case (Start, HelloSeen(packet)) => Some(Greeted(ParseHello(packet)))
      case (Start, Sent(kind, _)) => if kind in {HelloResponse, ModeSwitch, FirehoseNop} then Some(Start) else None
      case (Greeted(_), Sent(HelloResponse, _)) => Some(Open)
      case (Open, Sent(kind, _)) => if kind in {ExecRequest, LoaderChunk} then Some(Open) else None
      case (Open, TransferEnded) => Some(Ended)
      case (Ended, Sent(DoneRequest, _)) => Some(Closed)
      case _ => None
  }

  ghost function PhaseAfter(env: Setup, p: Phase, run: seq<Mark>): (q: Option<Phase>)
    decreases |run|
  {
    if run == [] then Some(p)
    else
      match Advance(env, p, run[0])
      case None => None
      case Some(next) => PhaseAfter(env, next, run[1..])
  }

  function SentBytes(run: seq<Mark>): (writes: seq<seq<byte>>)
  {
    if run == [] then []
    else (if run[0].Sent? then [run[0].bytes] else []) + SentBytes(run[1..])
  }

  lemma {:induction false} SentAppend(a: seq<Mark>, b: seq<Mark>)
    ensures SentBytes(a + b) == SentBytes(a) + SentBytes(b)
  {
    if a == [] {
      assert a + b == b;
    } else {
      assert (a + b)[0] == a[0] && (a + b)[1..] == a[1..] + b;
      SentAppend(a[1..], b);
    }
  }

  lemma {:induction false} RunsAppend(env: Setup, p: Phase, a: seq<Mark>, b: seq<Mark>)
    ensures PhaseAfter(env, p, a + b) ==
            match PhaseAfter(env, p, a) case None => None case Some(q) => PhaseAfter(env, q, b)
    decreases |a|
  {
    hide Advance;
    if a == [] {
      assert a + b == b;
    } else {
      assert (a + b)[0] == a[0] && (a + b)[1..] == a[1..] + b;
      if Advance(env, p, a[0]).Some? {
        RunsAppend(env, Advance(env, p, a[0]).value, a[1..], b);
      }
    }
  }

  predicate IsLoaderChunk(m: Mark)
  {
    m.Sent? && m.kind == LoaderChunk
  }

  predicate IsDoneRequest(m: Mark)
  {
    m.Sent? && m.kind == DoneRequest
  }

  /** The host's answer to the Hello in a packet. */
  predicate AnswersHello(env: Setup, packet: seq<byte>, m: Mark)
    requires |packet| == HELLO_PACKET_SIZE
  {
    m == Sent(HelloResponse, WordBytes(HelloResponseWords(env.mode, ParseHello(packet).reserved)))
  }

  /** The phase a well-behaved run is in just before its k-th mark. */
  lemma {:induction false} PhaseBefore(env: Setup, p: Phase, run: seq<Mark>, k: nat)
    requires PhaseAfter(env, p, run).Some? && k < |run|
    ensures PhaseAfter(env, p, run[..k]).Some?
    ensures Advance(env, PhaseAfter(env, p, run[..k]).value, run[k]).Some?
    ensures PhaseAfter(env, Advance(env, PhaseAfter(env, p, run[..k]).value, run[k]).value, run[k + 1..]) ==
            PhaseAfter(env, p, run)
  {
    hide Advance;
    RunsAppend(env, p, run[..k], run[k..]);
    assert run[..k] + run[k..] == run;
    assert run[k..][1..] == run[k + 1..];
  }

  lemma PhaseOfLast(env: Setup, run: seq<Mark>)
    requires run != [] && PhaseAfter(env, Start, run).Some?
    ensures var init := run[..|run| - 1];
            PhaseAfter(env, Start, init).Some? &&
            Advance(env, PhaseAfter(env, Start, init).value, run[|run| - 1]) == PhaseAfter(env, Start, run)
  {
    hide Advance;
    PhaseBefore(env, Start, run, |run| - 1);
    assert run[|run|..] == [];
  }

  lemma NothingIsStart(env: Setup, run: seq<Mark>)
    ensures run == [] ==> PhaseAfter(env, Start, run) == Some(Start)
  {
  }

  /** A phase past the start can only be reached through a valid Hello that was then answered. */
  lemma {:induction false} OpenMeansGreeted(env: Setup, run: seq<Mark>) returns (h: nat, g: nat)
    requires PhaseAfter(env, Start, run).Some?
    requires !PhaseAfter(env, Start, run).value.Start? && !PhaseAfter(env, Start, run).value.Greeted?
    ensures h < g < |run| && run[h].HelloSeen? && ValidHello(env, run[h].packet)
    ensures AnswersHello(env, run[h].packet, run[g])
  {
    hide PhaseAfter, PartOf, ParseHello, HelloResponseWords, WordBytes;
    NothingIsStart(env, run);
    PhaseOfLast(env, run);
    var init := run[..|run| - 1];
    if PhaseAfter(env, Start, init).value.Greeted? {
      h := GreetedMeansHello(env, init);
      g := |run| - 1;
    } else {
      h, g := OpenMeansGreeted(env, init);
    }
  }

  lemma GreetedMeansHello(env: Setup, run: seq<Mark>) returns (h: nat)
    requires PhaseAfter(env, Start, run).Some? && PhaseAfter(env, Start, run).value.Greeted?
    ensures h < |run| && run[h].HelloSeen? && ValidHello(env, run[h].packet)
    ensures PhaseAfter(env, Start, run).value.hello == ParseHello(run[h].packet)
  {
    hide PhaseAfter, PartOf, ParseHello, HelloResponseWords, WordBytes;
    NothingIsStart(env, run);
    PhaseOfLast(env, run);
    h := |run| - 1;
  }

  lemma {:induction false} ClosingMeansEnded(env: Setup, run: seq<Mark>) returns (e: nat)
    requires PhaseAfter(env, Start, run).Some? && PhaseAfter(env, Start, run).value in {Ended, Closed}
    ensures e < |run| && run[e].TransferEnded?
  {
    hide PhaseAfter, PartOf, ParseHello, HelloResponseWords, WordBytes;
    NothingIsStart(env, run);
    PhaseOfLast(env, run);
    if run[|run| - 1].TransferEnded? {
      e := |run| - 1;
    } else {
      e := ClosingMeansEnded(env, run[..|run| - 1]);
    }
  }

  /** Loader bytes are only ever written after a valid Hello was read off the device's bytes and then answered,
      and they are a piece of the loader. */
  lemma LoaderOnlyAfterHello(env: Setup, run: seq<Mark>, k: nat)
    requires PhaseAfter(env, Start, run).Some? && k < |run| && IsLoaderChunk(run[k])
    ensures PartOf(run[k].bytes, env.loader)
    ensures exists h, g :: 0 <= h < g < k && run[h].HelloSeen? && ValidHello(env, run[h].packet) &&
                           AnswersHello(env, run[h].packet, run[g])
  {
    hide PhaseAfter, PartOf, AnswersHello, ParseHello, HelloResponseWords, WordBytes;
    PhaseBefore(env, Start, run, k);
    var h, g := OpenMeansGreeted(env, run[..k]);
    assert run[h].HelloSeen? && ValidHello(env, run[h].packet) && AnswersHello(env, run[h].packet, run[g]);
  }

  /** The completion request comes after the transfer ended, and nothing follows it: so it is written
      at most once and is the last thing written. */
  lemma DoneRequestIsLast(env: Setup, run: seq<Mark>, k: nat)
    requires PhaseAfter(env, Start, run).Some? && k < |run| && IsDoneRequest(run[k])
    ensures k == |run| - 1 && run[k].bytes == [5, 0, 0, 0, 8, 0, 0, 0]
    ensures exists e :: 0 <= e < k && run[e].TransferEnded?
  {
    hide PhaseAfter, PartOf, ParseHello, HelloResponseWords, WordBytes;
    PhaseBefore(env, Start, run, k);
    var e := ClosingMeansEnded(env, run[..k]);
    assert run[e].TransferEnded?;
    NothingAfterClosed(env, run[k + 1..]);
    TwoWords(5, 8);
  }

  lemma NothingAfterClosed(env: Setup, run: seq<Mark>)
    requires PhaseAfter(env, Closed, run).Some?
    ensures run == []
  {
  }

  /** A run that ends where it started saw no Hello, and all it wrote are no-ops, unsolicited answers and mode
      switches, with exactly their own bytes. */
  lemma NothingStarted(env: Setup, run: seq<Mark>, k: nat)
    requires PhaseAfter(env, Start, run) == Some(Start) && k < |run|
    ensures run[k] in {Sent(FirehoseNop, env.nop), Sent(ModeSwitch, WordBytes(SwitchWords(env.mode))),
                       Sent(HelloResponse, WordBytes(HelloResponseWords(env.mode, NO_RESERVED)))}
  {
    hide PhaseAfter, PartOf, ParseHello, HelloResponseWords, WordBytes;
    PhaseBefore(env, Start, run, k);
    RunsAppend(env, Start, run[..k], run[k..]);
    assert run[..k] + run[k..] == run;
    BackMeansNeverLeft(env, PhaseAfter(env, Start, run[..k]).value, run[k..]);
    BackMeansNeverLeft(env, Advance(env, PhaseAfter(env, Start, run[..k]).value, run[k]).value, run[k + 1..]);
  }

  lemma {:induction false} BackMeansNeverLeft(env: Setup, p: Phase, run: seq<Mark>)
    ensures PhaseAfter(env, p, run) == Some(Start) ==> p == Start
    decreases |run|
  {
    hide Genuine;
    if run != [] && Advance(env, p, run[0]).Some? {
      BackMeansNeverLeft(env, Advance(env, p, run[0]).value, run[1..]);
    }
  }

  /** The transcript grew by a run from one phase to another, and the wire carries exactly its bytes. */
  ghost predicate Follows(env: Setup, t0: seq<Mark>, s0: seq<seq<byte>>, t: seq<Mark>, s: seq<seq<byte>>,
      p: Phase, q: Phase)
  {
    t0 <= t && s == s0 + SentBytes(t[|t0|..]) && PhaseAfter(env, p, t[|t0|..]) == Some(q)
  }

  lemma FollowsNothing(env: Setup, t: seq<Mark>, s: seq<seq<byte>>, p: Phase)
    ensures Follows(env, t, s, t, s, p, p)
  {
    assert t[|t|..] == [];
    assert s + [] == s;
  }

  lemma FollowsTwice(env: Setup, t0: seq<Mark>, s0: seq<seq<byte>>, t1: seq<Mark>, s1: seq<seq<byte>>, t2: seq<Mark>,
      s2: seq<seq<byte>>, p: Phase, q: Phase, r: Phase)
    requires Follows(env, t0, s0, t1, s1, p, q) && Follows(env, t1, s1, t2, s2, q, r)
    ensures Follows(env, t0, s0, t2, s2, p, r)
  {
    hide PhaseAfter, SentBytes;
    var a, b := t1[|t0|..], t2[|t1|..];
    assert t2[|t0|..] == a + b;
    RunsAppend(env, p, a, b);
    SentAppend(a, b);
    assert s0 + SentBytes(a) + SentBytes(b) == s0 + (SentBytes(a) + SentBytes(b));
  }

  lemma FollowsOne(env: Setup, t: seq<Mark>, s: seq<seq<byte>>, m: Mark, p: Phase)
    requires Advance(env, p, m).Some?
    ensures Follows(env, t, s, t + [m], if m.Sent? then s + [m.bytes] else s, p, Advance(env, p, m).value)
  {
    hide Advance;
    var run := (t + [m])[|t|..];
    assert run == [m] && run[1..] == [];
    assert SentBytes(run) == (if m.Sent? then [m.bytes] else []) + SentBytes([]);
    assert PhaseAfter(env, p, run) == PhaseAfter(env, Advance(env, p, m).value, []);
    assert s + [] == s;
  }
}
