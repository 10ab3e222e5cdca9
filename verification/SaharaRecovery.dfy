/** What becomes of a handshake that starts without a Hello: the recovery, and the bytes it throws away. */
module SaharaRecovery {
  import opened Bytes
  import opened Text
  import opened Port
  import opened SaharaUpload
  import opened SaharaTranscript
  import opened SaharaSteps

  /** No Hello came, nothing answered the no-op, and the recovery's packets were written. */
  predicate TakesRecovery(mode: Mode, nop: seq<byte>, w: Wire)
  {
    && GreetOn(w).0 == Err(HelloFailed)
    && !NopOn(nop, GreetOn(w).1).0
    && RecoverOn(mode, NopOn(nop, GreetOn(w).1).1).0
  }

  /** The wire on which the recovery waits for a Hello once more. */
  function AfterRecovery(mode: Mode, nop: seq<byte>, w: Wire): (w': Wire)
  {
    RecoverOn(mode, NopOn(nop, GreetOn(w).1).1).1
  }

  // ----- What is thrown away -----

  /** Bytes still to come, before and after: at most so many first ones are gone. */
  predicate DropsFront(before: seq<byte>, after: seq<byte>, most: nat)
  {
    |after| <= |before| <= |after| + most && after == before[|before| - |after|..]
  }

  lemma DropsTwice(s: seq<byte>, x: seq<byte>, y: seq<byte>, m: nat, n: nat)
    requires DropsFront(s, x, m) && DropsFront(x, y, n)
    ensures DropsFront(s, y, m + n)
  {
  }

  lemma DropsTaken(taken: seq<byte>, after: seq<byte>, most: nat)
    requires |taken| <= most
    ensures DropsFront(taken + after, after, most)
  {
  }

  lemma NothingDrops(s: seq<byte>, most: nat)
    ensures DropsFront(s, s, most)
  {
    assert s[0..] == s;
  }

  lemma StepDrops(w: Wire, cap: nat)
    ensures DropsFront(w.incoming, ReadStep(w, cap).1.incoming, cap)
  {
    var (input, w') := ReadStep(w, cap);
    DropsTaken(if input.Data? then input.bytes else [], w'.incoming, cap);
  }

  function Most(r: Option<seq<byte>>, need: nat): (most: nat)
  {
    if r.None? && need > 0 then need - 1 else need
  }

  /** A read of a fixed length that gives up has dropped less than that length. */
  lemma {:induction false} ExactDrops(w: Wire, need: nat)
    ensures var (r, w') := ReadExact(w, need);
            DropsFront(w.incoming, w'.incoming, Most(r, need))
    decreases need
  {
    hide ReadExact, ReadStep, DropsFront;
    var (input, w') := ReadStep(w, need);
    if need == 0 {
      ExactNothing(w);
      NothingDrops(w.incoming, 0);
    } else if input.Broken? || input.bytes == [] {
      ExactNext(w, need);
      NothingTaken(w, need);
    } else {
      ExactNext(w, need);
      var k := |input.bytes|;
      StepTakes(w, need);
      ExactDrops(w', need - k);
      var (r, w2) := ReadExact(w', need - k);
      DropsTwice(w.incoming, w'.incoming, w2.incoming, k, Most(r, need - k));
    }
  }

  lemma ExactNext(w: Wire, need: nat)
    requires need > 0
    ensures var (input, w') := ReadStep(w, need);
            var (r, end) := ReadExact(w, need);
            if input.Broken? || input.bytes == [] then r.None? && end == w'
            else
              && |input.bytes| <= need && (|input.bytes| == need ==> r.Some?)
              && (r.None? <==> ReadExact(w', need - |input.bytes|).0.None?)
              && end == ReadExact(w', need - |input.bytes|).1
  {
    ExactTurn(w, need);
    ExactNothing(ReadStep(w, need).1);
    hide ReadExact, ReadStep;
  }

  lemma NothingTaken(w: Wire, need: nat)
    requires need > 0
    ensures var (input, w') := ReadStep(w, need);
            input.Broken? || input.bytes == [] ==> DropsFront(w.incoming, w'.incoming, need - 1)
  {
  }

  lemma StepTakes(w: Wire, cap: nat)
    ensures var (input, w') := ReadStep(w, cap);
            input.Data? ==> DropsFront(w.incoming, w'.incoming, |input.bytes|)
  {
    var (input, w') := ReadStep(w, cap);
    if input.Data? {
      DropsTaken(input.bytes, w'.incoming, |input.bytes|);
    }
  }

  lemma GreetDrops(w: Wire)
    ensures var (r, w') := GreetOn(w);
            && w'.sent == w.sent && w'.writeFaults == w.writeFaults
            && (r == Err(HelloFailed) ==> DropsFront(w.incoming, w'.incoming, HELLO_PACKET_SIZE - 1))
  {
    hide ReadExact, DropsFront;
    ExactDrops(w, HELLO_PACKET_SIZE);
  }

  lemma NopDrops(nop: seq<byte>, w: Wire)
    ensures var w' := NopOn(nop, w).1;
            && DropsFront(w.incoming, w'.incoming, NOP_BUF_SIZE)
            && w'.sent == w.sent + if WriteStep(w, nop).0 then [nop] else []
  {
    hide ReadStep, DropsFront;
    NothingDrops(w.incoming, NOP_BUF_SIZE);
    StepDrops(WriteStep(w, nop).1, NOP_BUF_SIZE);
    assert w.sent + [] == w.sent;
  }

  lemma RecoverDrops(mode: Mode, w: Wire)
    requires RecoverOn(mode, w).0
    ensures var w' := RecoverOn(mode, w).1;
            DropsFront(w.incoming, w'.incoming, 16) && w'.sent == w.sent + Unsolicited(mode)
  {
    hide ReadExact, WordBytes, DropsFront;
    var answer, switch := WordBytes(HelloResponseWords(mode, NO_RESERVED)), WordBytes(SwitchWords(mode));
    var w1 := WriteStep(w, answer).1;
    ExactDrops(w1, 16);
    DropsMore(w.incoming, ReadExact(w1, 16).1.incoming, Most(ReadExact(w1, 16).0, 16), 16);
    assert w.sent + [answer] + [switch] == w.sent + [answer, switch];
  }

  /** The recovery drops some first bytes of the stream, fewer than a Hello, a no-op's buffer and the answer to an
      unsolicited response together, and keeps the rest. It writes the no-op, the response and the mode switch. */
  lemma RecoveryDropsFront(mode: Mode, nop: seq<byte>, w: Wire)
    requires TakesRecovery(mode, nop, w)
    ensures DropsFront(w.incoming, AfterRecovery(mode, nop, w).incoming, HELLO_PACKET_SIZE - 1 + (NOP_BUF_SIZE + 16))
    ensures AfterRecovery(mode, nop, w).sent ==
            w.sent + (if WriteStep(GreetOn(w).1, nop).0 then [nop] else []) + Unsolicited(mode)
  {
    hide GreetOn, NopOn, RecoverOn, DropsFront, WriteStep, Unsolicited;
    var w1 := GreetOn(w).1;
    var w2 := NopOn(nop, w1).1;
    var w3 := RecoverOn(mode, w2).1;
    GreetDrops(w);
    NopDrops(nop, w1);
    RecoverDrops(mode, w2);
    DropsTwice(w1.incoming, w2.incoming, w3.incoming, NOP_BUF_SIZE, 16);
    DropsTwice(w.incoming, w1.incoming, w3.incoming, HELLO_PACKET_SIZE - 1, NOP_BUF_SIZE + 16);
  }

  function Unsolicited(mode: Mode): (writes: seq<seq<byte>>)
  {
    [WordBytes(HelloResponseWords(mode, NO_RESERVED)), WordBytes(SwitchWords(mode))]
  }

  lemma DropsMore(before: seq<byte>, after: seq<byte>, m: nat, n: nat)
    requires DropsFront(before, after, m) && m <= n
    ensures DropsFront(before, after, n)
  {
  }

  // ----- What comes after it -----

  /** A Hello after the recovery starts the handshake over: from there it is the handshake of a session that had
      met no trouble. Without one, the handshake fails. */
  lemma RecoveryRestarts(loader: LoaderFile, mode: Mode, nop: seq<byte>, w: Wire)
    requires TakesRecovery(mode, nop, w) && !loader.NoLoader?
    ensures var w' := AfterRecovery(mode, nop, w);
            if GreetOn(w').0 == Err(HelloFailed) then
              HandshakeOn(loader, mode, nop, w) == (Failed(HelloFailed), GreetOn(w').1)
            else HandshakeOn(loader, mode, nop, w) == HandshakeOn(loader, mode, nop, w')
  {
    hide GreetOn, NopOn, RecoverOn, GreetedOn;
  }

  /** The bytes judged as the second Hello start right behind the dropped ones. */
  lemma SecondHello(mode: Mode, nop: seq<byte>, w: Wire)
    requires TakesRecovery(mode, nop, w)
    ensures var left := AfterRecovery(mode, nop, w).incoming;
            var second := GreetOn(AfterRecovery(mode, nop, w)).0;
            if |left| < HELLO_PACKET_SIZE then second == Err(HelloFailed)
            else second == Err(HelloFailed) || second == Greeting(left[..HELLO_PACKET_SIZE])
  {
    hide GreetOn, NopOn, RecoverOn, Greeting, TakesRecovery, AfterRecovery;
    GreetReads(AfterRecovery(mode, nop, w));
  }

  lemma GreetReads(w: Wire)
    ensures var r := GreetOn(w).0;
            || r == Err(HelloFailed)
            || (|w.incoming| >= HELLO_PACKET_SIZE && r == Greeting(w.incoming[..HELLO_PACKET_SIZE]))
  {
    hide ReadExact, Greeting;
    var (data, w1) := ReadExact(w, HELLO_PACKET_SIZE);
    if data.Some? {
      assert w.incoming[..HELLO_PACKET_SIZE] == data.value;
    }
  }

  lemma SecondDecides(mode: Mode, nop: seq<byte>, w: Wire)
    requires TakesRecovery(mode, nop, w)
    ensures AwaitOn(true, mode, nop, w).0 == ArrivalOf(GreetOn(AfterRecovery(mode, nop, w)).0)
  {
    hide GreetOn, NopOn, RecoverOn;
  }

  lemma HelloGreets(packet: seq<byte>, rest: seq<byte>, w: Wire)
    requires |packet| == HELLO_PACKET_SIZE && WordAt(packet, 0) == 1
    requires w.incoming == packet + rest && Plentiful(w)
    ensures GreetOn(w).0 == Ok(ParseHello(packet))
  {
    GreetsExactlyHello(packet);
    ReadNext(w, packet, rest);
    hide ReadExact, Greeting, ParseHello, WordAt;
  }

  /** A device that says Hello once, too late for the first read: on a link that is plentiful after the recovery,
      that Hello is heard if and only if no byte of it was dropped. */
  lemma LateHelloArrivesWhole(packet: seq<byte>, mode: Mode, nop: seq<byte>, w: Wire)
    requires TakesRecovery(mode, nop, w) && Plentiful(AfterRecovery(mode, nop, w))
    requires |packet| == HELLO_PACKET_SIZE && WordAt(packet, 0) == 1 && w.incoming == packet
    ensures AwaitOn(true, mode, nop, w).0 ==
            if AfterRecovery(mode, nop, w).incoming == packet then Arrived(ParseHello(packet))
            else Refused(HelloFailed)
  {
    hide TakesRecovery, AfterRecovery, AwaitOn, GreetOn, ParseHello, Plentiful, WordAt, Greeting, DropsFront;
    RecoveryDropsFront(mode, nop, w);
    SecondHello(mode, nop, w);
    SecondDecides(mode, nop, w);
    var w' := AfterRecovery(mode, nop, w);
    WholeOrShorter(packet, w'.incoming, HELLO_PACKET_SIZE - 1 + (NOP_BUF_SIZE + 16));
    if w'.incoming == packet {
      assert packet == packet + [];
      HelloGreets(packet, [], w');
    }
  }

  lemma WholeOrShorter(before: seq<byte>, after: seq<byte>, most: nat)
    requires DropsFront(before, after, most)
    ensures after == before || |after| < |before|
  {
    assert |after| == |before| ==> after == before[0..] == before;
  }

  // ----- Whole handshakes that start without a Hello -----

  /** From the first failed read to the end: after the recovery's own packets, the device's bytes decide the handshake
      as they do without it. */
  lemma RecoveryCompletes(packet: seq<byte>, idWords: seq<nat>, id: seq<byte>, serialWords: seq<nat>,
      serial: seq<byte>, mode: Mode, loader: seq<byte>, ps: seq<Packet>, rest: seq<byte>, nop: seq<byte>, w: Wire)
    requires TakesRecovery(mode, nop, w) && WriteStep(GreetOn(w).1, nop).0 && Plentiful(AfterRecovery(mode, nop, w))
    requires |packet| == HELLO_PACKET_SIZE && WordAt(packet, 0) == 1
    requires QueryAnswer(idWords, id) && QueryAnswer(serialWords, serial) && Conversation(ps)
    requires AfterRecovery(mode, nop, w).incoming ==
             packet + DeviceBytes(ParseHello(packet).mode, idWords, id, serialWords, serial, ps, rest)
    ensures |idWords| == |serialWords| == 4
    ensures var (r, w') := HandshakeOn(Contents(loader), mode, nop, w);
            var hello := ParseHello(packet);
            var info := Learned(hello.mode, idWords, id, serialWords, serial);
            && r == OutcomeOf(info, Refusal(loader, ps))
            && w'.sent == w.sent + [nop] + Unsolicited(mode) + [WordBytes(HelloResponseWords(mode, hello.reserved))] +
                          WrittenAfter(hello.mode, info, loader, ps)
  {
    hide TakesRecovery, AfterRecovery, HandshakeOn, GreetOn, ParseHello, HelloResponseWords, WordBytes, WordAt,
      DeviceBytes, Conversation, Plentiful, QueryAnswer, WrittenAfter, Learned, OutcomeOf, Refusal, Unsolicited;
    var w' := AfterRecovery(mode, nop, w);
    HandshakeCompletes(packet, idWords, id, serialWords, serial, mode, loader, ps, rest, nop, w');
    HelloGreets(packet, DeviceBytes(ParseHello(packet).mode, idWords, id, serialWords, serial, ps, rest), w');
    RecoveryRestarts(Contents(loader), mode, nop, w);
    RecoveryDropsFront(mode, nop, w);
  }

  lemma QuietStep(w: Wire, cap: nat)
    requires w.script != [] && w.script[0].Quiet?
    ensures ReadStep(w, cap) == (Data([]), w.(script := w.script[1..]))
  {
  }

  lemma QuietExact(w: Wire, need: nat)
    requires need > 0 && w.script != [] && w.script[0].Quiet?
    ensures ReadExact(w, need) == (None, w.(script := w.script[1..]))
  {
    ExactTurn(w, need);
    QuietStep(w, need);
  }

  /** A device that stays quiet for the first three reads, and is plentiful after them, is recovered without the
      loss of a byte. */
  lemma QuietStartRecovers(mode: Mode, nop: seq<byte>, later: seq<ReadEvent>, w: Wire)
    requires w.script == [Quiet, Quiet, Quiet] + later && w.writeFaults == []
    ensures TakesRecovery(mode, nop, w) && WriteStep(GreetOn(w).1, nop).0
    ensures AfterRecovery(mode, nop, w) == w.(script := later, sent := w.sent + [nop] + Unsolicited(mode))
  {
    hide ReadExact, ReadStep, WordBytes, HelloResponseWords;
    QuietExact(w, HELLO_PACKET_SIZE);
    assert w.script[1..] == [Quiet, Quiet] + later && w.script[1..][1..] == [Quiet] + later;
    assert w.script[1..][1..][1..] == later;
    var w1 := WriteStep(GreetOn(w).1, nop).1;
    QuietStep(w1, NOP_BUF_SIZE);
    var answer, switch := WordBytes(HelloResponseWords(mode, NO_RESERVED)), WordBytes(SwitchWords(mode));
    QuietExact(WriteStep(NopOn(nop, GreetOn(w).1).1, answer).1, 16);
    assert w.sent + [nop] + [answer] + [switch] == w.sent + [nop] + [answer, switch];
  }

  /** No Hello, but an answer to the no-op: if its text holds "ACK" the device is in Firehose mode; if not, a session
      without a loader gives up. The no-op is all that was written. */
  lemma NopDecides(n: nat, later: seq<ReadEvent>, loader: LoaderFile, mode: Mode, nop: seq<byte>, w: Wire)
    requires w.script == [Quiet, Deliver(n)] + later && w.writeFaults == [] && n > 0 && w.incoming != []
    ensures var answer := w.incoming[..Min(Min(n, 512), |w.incoming|)];
            var acked := Contains(Lossy(answer), Spelled("ACK"));
            var (r, w') := HandshakeOn(loader, mode, nop, w);
            acked || loader.NoLoader? ==>
              && r == (if acked then Ready(DeviceInfo(None, None)) else Failed(NotInFirehose))
              && w'.sent == w.sent + [nop]
  {
    hide ReadExact, Lossy, Contains, RecoverOn, GreetedOn;
    QuietExact(w, HELLO_PACKET_SIZE);
    assert w.script[1..] == [Deliver(n)] + later;
    assert ACK == Spelled("ACK");
  }

  /** A Hello that arrives in two reads with a pause between them, the second part when the no-op's answer is read, is
      lost, and the handshake fails although the device did all it should; or it ends at once, if the second part
      happens to spell ACK. */
  lemma SplitHelloIsLost(packet: seq<byte>, n: nat, m: nat, later: seq<ReadEvent>, loader: LoaderFile, mode: Mode,
      nop: seq<byte>, w: Wire)
    requires |packet| == HELLO_PACKET_SIZE && w.incoming == packet && w.writeFaults == [] && !loader.NoLoader?
    requires 0 < n < HELLO_PACKET_SIZE <= n + m && w.script == [Deliver(n), Quiet, Deliver(m)] + later
    ensures HandshakeOn(loader, mode, nop, w).0 ==
            if Contains(Lossy(packet[n..]), ACK) then Ready(NO_INFO) else Failed(HelloFailed)
  {
    SplitGreeting(packet, n, m, later, w);
    var w1 := GreetOn(w).1;
    NopTakesRest(nop, m, w1);
    hide GreetOn, NopOn, RecoverOn, GreetedOn, Lossy, Contains;
    if !Contains(Lossy(packet[n..]), ACK) {
      var w2 := NopOn(nop, w1).1;
      RecoverGoesOn(mode, w2);
      RecoverDrops(mode, w2);
      SecondHello(mode, nop, w);
      RecoveryRestarts(loader, mode, nop, w);
    }
  }

  lemma SplitGreeting(packet: seq<byte>, n: nat, m: nat, later: seq<ReadEvent>, w: Wire)
    requires |packet| == HELLO_PACKET_SIZE && w.incoming == packet && w.writeFaults == []
    requires 0 < n < HELLO_PACKET_SIZE && w.script == [Deliver(n), Quiet, Deliver(m)] + later
    ensures var (r, w1) := GreetOn(w);
            && r == Err(HelloFailed) && w1.incoming == packet[n..] && w1.writeFaults == []
            && w1.script == [Deliver(m)] + later
  {
    ExactTurn(w, HELLO_PACKET_SIZE);
    var w1 := ReadStep(w, HELLO_PACKET_SIZE).1;
    assert w.script[1..] == [Quiet, Deliver(m)] + later && w.script[1..][1..] == [Deliver(m)] + later;
    QuietExact(w1, HELLO_PACKET_SIZE - n);
    hide ReadExact;
  }

  lemma NopTakesRest(nop: seq<byte>, m: nat, w: Wire)
    requires w.script != [] && w.script[0] == Deliver(m) && 0 < |w.incoming| <= Min(m, NOP_BUF_SIZE)
    requires w.writeFaults == []
    ensures var (r, w') := NopOn(nop, w);
            r == Contains(Lossy(w.incoming), ACK) && w'.incoming == [] && w'.writeFaults == []
  {
    hide Lossy, Contains;
    assert w.incoming[..|w.incoming|] == w.incoming;
  }

  lemma RecoverGoesOn(mode: Mode, w: Wire)
    requires w.writeFaults == []
    ensures RecoverOn(mode, w).0
  {
    hide ReadExact, WordBytes, HelloResponseWords;
  }
}
