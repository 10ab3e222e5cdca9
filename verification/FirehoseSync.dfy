/** What the Firehose byte stream keeps over whole runs, for every way the stream can be cut into reads. */
module FirehoseSync {
  import opened Bytes
  import opened Text
  import opened Port
  import opened Firehose

  // ----- Byte conservation -----

  /** Whatever the bytes are, a response that returns Ok accounts for every byte: what it kept, the new
      surplus and the undelivered stream are the old surplus and the old stream, in order. */
  lemma {:induction false} ResponseConservesBytes(buffer: seq<byte>, empties: nat, w: Wire)
    ensures var (r, link) := Respond(buffer, empties, w);
            r.Ok? ==> r.value + link.leftover + link.wire.incoming == buffer + w.incoming
    decreases |w.script|, MAX_EMPTY_READS - empties
  {
    hide FrameEnd, LooksComplete;
    var (input, w') := ReadStep(w, READ_BUF_SIZE);
    var chunk := Chunk(input);
    ReadAccounted(buffer, w);
    var step := OnRead(buffer, empties, chunk);
    assert !step.GiveUp? && !step.TooBig? ==> step.buffer == buffer + chunk by {
      if chunk == [] {
        assert buffer + [] == buffer;
      }
    }
    if step.Complete? {
      assert step.end < |step.buffer| ==> step.buffer[..step.end] + step.buffer[step.end..] == step.buffer;
      assert step.buffer + [] == step.buffer;
    } else if step.Wait? && (w.script != [] || step.empties > 0) {
      ResponseConservesBytes(step.buffer, step.empties, w');
    }
  }

  lemma ReadAccounted(buffer: seq<byte>, w: Wire)
    ensures var (input, w') := ReadStep(w, READ_BUF_SIZE);
            buffer + Chunk(input) + w'.incoming == buffer + w.incoming
  {
  }

  // ----- Progress of the read loop -----

  /** The buffer state in which an empty read changes nothing: an opening token, and closing tokens
      only before it. */
  predicate Spins(buffer: seq<byte>)
  {
    var text := Lossy(buffer);
    var open := Find(ResponseOpen(), text, 0);
    && open.Some?
    && (Contains(text, SelfClose()) || Contains(text, ResponseClose()))
    && Find(SelfClose(), text, open.value).None?
    && Find(ResponseClose(), text, open.value).None?
    && |buffer| <= 128 * 1024
  }

  /** Room below the size cap first, then empty reads left. */
  function Measure(buffer: seq<byte>, empties: nat): (m: nat)
    requires empties <= MAX_EMPTY_READS
  {
    (MAX_EMPTY_READS + 1) * (if |buffer| <= RESPONSE_LIMIT then RESPONSE_LIMIT + 1 - |buffer| else 0)
    + MAX_EMPTY_READS - empties
  }

  /** A turn that keeps waiting makes progress, except exactly for an empty read on a spinning buffer. */
  lemma TurnMakesProgress(buffer: seq<byte>, empties: nat, chunk: seq<byte>)
    requires empties <= MAX_EMPTY_READS
    requires OnRead(buffer, empties, chunk).Wait?
    ensures OnRead(buffer, empties, chunk).empties <= MAX_EMPTY_READS
    ensures var step := OnRead(buffer, empties, chunk);
            Measure(step.buffer, step.empties) < Measure(buffer, empties) <==> !(chunk == [] && Spins(buffer))
    ensures chunk == [] && Spins(buffer) ==> OnRead(buffer, empties, chunk) == Wait(buffer, 0)
  {
    if chunk == [] {
      assert buffer + [] == buffer;
    } else {
      assert |buffer + chunk| > |buffer|;
    }
  }

  /** The loop state after a list of reads, if the loop is still waiting. */
  function After(buffer: seq<byte>, empties: nat, chunks: seq<seq<byte>>): (state: Option<(seq<byte>, nat)>)
    decreases |chunks|
  {
    if chunks == [] then Some((buffer, empties))
    else
      var step := OnRead(buffer, empties, chunks[0]);
      if step.Wait? then After(step.buffer, step.empties, chunks[1..]) else None
  }

  predicate NeverSpins(buffer: seq<byte>, empties: nat, chunks: seq<seq<byte>>)
    decreases |chunks|
  {
    chunks == [] ||
    (!Spins(buffer) &&
     var step := OnRead(buffer, empties, chunks[0]);
     step.Wait? ==> NeverSpins(step.buffer, step.empties, chunks[1..]))
  }

  /** A run that meets no spinning buffer stops after boundedly many reads, whatever they deliver. */
  lemma {:induction false} ReadsAreBounded(buffer: seq<byte>, empties: nat, chunks: seq<seq<byte>>)
    requires empties <= MAX_EMPTY_READS
    requires After(buffer, empties, chunks).Some? && NeverSpins(buffer, empties, chunks)
    ensures |chunks| <= Measure(buffer, empties)
    decreases |chunks|
  {
    if chunks != [] {
      var step := OnRead(buffer, empties, chunks[0]);
      TurnMakesProgress(buffer, empties, chunks[0]);
      ReadsAreBounded(step.buffer, step.empties, chunks[1..]);
    }
  }

  function EmptyReads(n: nat): (chunks: seq<seq<byte>>)
    ensures |chunks| == n
  {
    seq(n, _ => [])
  }

  /** A spinning buffer waits for ever on empty reads, however many there are. */
  lemma {:induction false} SpinningNeverEnds(buffer: seq<byte>, n: nat)
    requires Spins(buffer)
    ensures After(buffer, 0, EmptyReads(n)) == Some((buffer, 0))
  {
    if n > 0 {
      assert buffer + [] == buffer;
      assert OnRead(buffer, 0, []) == Wait(buffer, 0);
      assert EmptyReads(n)[1..] == EmptyReads(n - 1);
      SpinningNeverEnds(buffer, n - 1);
    }
  }

  /** On a link gone quiet, the read loop fails to return exactly when its buffer spins. */
  lemma {:induction false} QuietLinkHangs(buffer: seq<byte>, empties: nat, w: Wire)
    requires w.script == [] && empties <= MAX_EMPTY_READS
    ensures Respond(buffer, empties, w).0 == Err(NeverReturns) <==> Spins(buffer)
    decreases MAX_EMPTY_READS - empties
  {
    var step := OnRead(buffer, empties, []);
    assert buffer + [] == buffer;
    if step.Wait? {
      TurnMakesProgress(buffer, empties, []);
      if step.empties > 0 {
        assert !LooksComplete(buffer);
        QuietLinkHangs(step.buffer, step.empties, w);
      }
    }
  }

  /** The tokens, as the strings they are. */
  lemma TokensSpelled()
    ensures ResponseOpen() == Spelled("<response ") && SelfClose() == Spelled("/>")
    ensures ResponseClose() == Spelled("</response>") && DataClose() == Spelled("</data>")
  {
  }

  // ----- Frames and cuts -----

  /** A well-formed device answer: ASCII, a self-closed response element, then the closing data tag. */
  predicate Frame(f: seq<byte>)
  {
    && Ascii(f) && |f| <= 128 * 1024
    && var open := Find(ResponseOpen(), f, 0);
    && open.Some?
    && var close := Find(SelfClose(), f, open.value);
    && close.Some?
    && var end := close.value + |SelfClose()|;
    && (var other := Find(ResponseClose(), f, open.value);
        other.Some? ==> other.value + |ResponseClose()| > end)
    && Find(DataClose(), f, end).Some?
    && Find(DataClose(), f, end).value + |DataClose()| == |f|
  }

  function OpenAt(f: seq<byte>): (open: nat)
    requires Frame(f)
    ensures open <= |f| && Find(ResponseOpen(), f, 0) == Some(open)
  {
    Find(ResponseOpen(), f, 0).value
  }

  /** Where the frame's first "/>" after "<response " ends. */
  function CloseAt(f: seq<byte>): (end: nat)
    requires Frame(f)
    ensures OpenAt(f) + 2 <= end && end + 7 <= |f|
    ensures Find(SelfClose(), f, OpenAt(f)) == Some(end - 2)
    ensures Find(DataClose(), f, end) == Some(|f| - 7)
  {
    Find(SelfClose(), f, OpenAt(f)).value + |SelfClose()|
  }

  lemma CloseAfterOpen(f: seq<byte>)
    requires Frame(f)
    ensures OpenAt(f) + 12 <= CloseAt(f)
  {
    var open, i := OpenAt(f), CloseAt(f) - 2;
    FindIsFirst(ResponseOpen(), f, 0);
    FindIsFirst(SelfClose(), f, open);
    assert f[i] == f[i..i + 2][0] == 0x2F;
    assert f[open..][..10] == f[open..open + 10];
    NoSlashInOpening(f[open..], i - open);
  }

  lemma NoSlashInOpening(s: seq<byte>, i: nat)
    requires |s| >= 10 && s[..10] == ResponseOpen() && i < |s| && s[i] == 0x2F
    ensures i >= 10
  {
  }

  /** A text that starts its first response element with the frame's ends where the frame does. */
  lemma FrameInText(pre: seq<byte>, f: seq<byte>, tail: seq<byte>)
    requires Frame(f) && Find(ResponseOpen(), pre + (f + tail), 0) == Some(|pre| + OpenAt(f))
    ensures TextEnd(pre + (f + tail)) == Some(|pre| + |f|)
  {
    hide Find, Frame, CloseAt, OpenAt, ResponseOpen, SelfClose, ResponseClose, DataClose;
    var open, end := OpenAt(f), CloseAt(f);
    FindPrefix(SelfClose(), f, f + tail, open);
    FindShift(SelfClose(), pre, f + tail, open);
    FindPrefix(DataClose(), f, f + tail, end);
    FindShift(DataClose(), pre, f + tail, end);
  }

  lemma BufferEnd(buffer: seq<byte>)
    ensures FrameEnd(buffer) == TextEnd(Lossy(buffer))
  {
    hide TextEnd, Lossy;
  }

  lemma FrameIsAscii(f: seq<byte>)
    requires Frame(f)
    ensures Ascii(f) && f != []
  {
    hide Find;
  }

  /** The scan finds the end of a frame exactly, whatever raw bytes follow it in the buffer. */
  lemma FrameIsFound(f: seq<byte>, rest: seq<byte>)
    requires Frame(f)
    ensures FrameEnd(f + rest) == Some(|f|)
  {
    hide Find, Lossy, TextEnd, FrameEnd, Frame, OpenAt, ResponseOpen;
    FrameIsAscii(f);
    LossyAscii(f, rest);
    FindPrefix(ResponseOpen(), f, f + Lossy(rest), 0);
    assert [] + (f + Lossy(rest)) == f + Lossy(rest);
    FrameInText([], f, Lossy(rest));
    BufferEnd(f + rest);
  }

  /** A buffer holding less of the frame than its "/>" is not taken for a response. */
  lemma PartOfFrameWaits(f: seq<byte>, p: seq<byte>)
    requires Frame(f) && p <= f && |p| < CloseAt(f)
    ensures FrameEnd(p) == None
  {
    hide Find, Lossy, ResponseOpen, SelfClose, ResponseClose, DataClose;
    LossyOfAscii(p);
    FindPrefix(ResponseOpen(), p, f, 0);
    if Find(ResponseOpen(), p, 0).Some? {
      FindPrefix(SelfClose(), p, f, OpenAt(f));
      FindPrefix(ResponseClose(), p, f, OpenAt(f));
    }
  }

  /** A buffer cut between "/>" and the end of "</data>" is taken for a response that ends at "/>":
      the closing data tag then stays in the stream. */
  lemma TornFrameIsCutShort(f: seq<byte>, p: seq<byte>)
    requires Frame(f) && p <= f && CloseAt(f) <= |p| < |f|
    ensures FrameEnd(p) == Some(CloseAt(f))
  {
    hide Find, Lossy, TextEnd, FrameEnd, Frame, CloseAt;
    FrameIsAscii(f);
    LossyOfAscii(p);
    TornText(f, p);
    BufferEnd(p);
  }

  lemma TornText(f: seq<byte>, p: seq<byte>)
    requires Frame(f) && p <= f && CloseAt(f) <= |p| < |f|
    ensures TextEnd(p) == Some(CloseAt(f))
  {
    hide Find, Frame, OpenAt, CloseAt, ResponseOpen, SelfClose, ResponseClose, DataClose;
    CloseAfterOpen(f);
    FindPrefix(ResponseOpen(), p, f, 0);
    FindPrefix(SelfClose(), p, f, OpenAt(f));
    FindPrefix(DataClose(), p, f, CloseAt(f));
  }

  /** Bytes before a frame that do not decode shift the cut: text and byte offsets then differ, and
      the scan ends the frame at its own end exactly when the two lengths agree. */
  lemma GarbageMovesTheCut(g: seq<byte>, f: seq<byte>, rest: seq<byte>)
    requires Frame(f)
    requires Find(ResponseOpen(), Lossy(g + f), 0) == Some(|Lossy(g)| + OpenAt(f))
    ensures FrameEnd(g + (f + rest)) == Some(|Lossy(g)| + |f|)
    ensures FrameEnd(g + (f + rest)) == Some(|g + f|) <==> |Lossy(g)| == |g|
  {
    hide Find, Lossy, TextEnd, FrameEnd, Frame, OpenAt, ResponseOpen;
    FrameIsAscii(f);
    LossyOfAscii(f);
    LossyGarbage(g, f);
    LossyGarbage(g, f + rest);
    LossyAscii(f, rest);
    PrefixOfThree(Lossy(g), f, Lossy(rest));
    FindPrefix(ResponseOpen(), Lossy(g) + f, Lossy(g) + (f + Lossy(rest)), 0);
    FrameInText(Lossy(g), f, Lossy(rest));
    BufferEnd(g + (f + rest));
  }

  /** The device's output, as the parts it is made of. */
  datatype Part = FramePart(bytes: seq<byte>) | RawPart(bytes: seq<byte>)

  function Stream(parts: seq<Part>): (s: seq<byte>)
  {
    if parts == [] then [] else parts[0].bytes + Stream(parts[1..])
  }

  lemma StreamCons(first: Part, rest: seq<Part>)
    ensures Stream([first] + rest) == first.bytes + Stream(rest)
  {
    assert ([first] + rest)[1..] == rest;
  }

  predicate WellFormed(parts: seq<Part>)
  {
    forall i :: 0 <= i < |parts| ==> parts[i].FramePart? ==> Frame(parts[i].bytes)
  }

  /** A read that leaves `left` bytes undelivered ends between some frame's "/>" and its end. */
  predicate Torn(parts: seq<Part>, left: nat)
    requires WellFormed(parts)
  {
    parts != [] &&
    (Torn(parts[1..], left) ||
     (parts[0].FramePart? &&
      var after := |Stream(parts[1..])|;
      after < left <= after + |parts[0].bytes| - CloseAt(parts[0].bytes)))
  }

  predicate Clean(parts: seq<Part>, cuts: seq<nat>)
    requires WellFormed(parts)
  {
    forall i :: 0 <= i < |cuts| ==> !Torn(parts, cuts[i])
  }

  /** The host and the device agree on what is still to come. */
  predicate InStep(link: Link, parts: seq<Part>)
    requires WellFormed(parts)
  {
    link.leftover + link.wire.incoming == Stream(parts) && !Torn(parts, |link.wire.incoming|)
  }

  /** The outcomes that give up on the link itself. */
  predicate LinkLost<T>(r: Result<T>)
  {
    r.Err? && r.error in {Timeout, NeverReturns, Io}
  }

  // ----- Patience -----

  /** A schedule on which, after some empty reads already in a row, there are never more than ten in a row. */
  predicate ShortPauses(script: seq<ReadEvent>, row: nat)
  {
    script == [] ||
    (if script[0].Deliver? && script[0].n > 0 then ShortPauses(script[1..], 0)
     else row < 10 && ShortPauses(script[1..], row + 1))
  }

  /** How many reads of a schedule can deliver something. */
  function Deliveries(script: seq<ReadEvent>): (n: nat)
  {
    if script == [] then 0
    else (if script[0].Deliver? && script[0].n > 0 then 1 else 0) + Deliveries(script[1..])
  }

  /** A link that may be quiet or fail for up to ten reads in a row, but in the end delivers everything. */
  predicate Patient(w: Wire, row: nat)
  {
    ShortPauses(w.script, row) && Deliveries(w.script) >= |w.incoming| && w.writeFaults == []
  }

  lemma {:induction false} ShorterRow(script: seq<ReadEvent>, row: nat, less: nat)
    requires ShortPauses(script, row) && less <= row
    ensures ShortPauses(script, less)
  {
    if script != [] && !(script[0].Deliver? && script[0].n > 0) {
      ShorterRow(script[1..], row + 1, less + 1);
    }
  }

  /** One read of a patient link: it delivers something, or it is one more empty read in a row of at most ten, or
      there is nothing left to deliver. */
  lemma PatientStep(w: Wire, row: nat, cap: nat)
    requires Patient(w, row) && cap > 0
    ensures var (input, w') := ReadStep(w, cap);
            && Patient(w', 0)
            && (Chunk(input) == [] && w.incoming != [] ==> row < 10 && Patient(w', row + 1) && w.script != [])
  {
    var (input, w') := ReadStep(w, cap);
    if w.script != [] && !(w.script[0].Deliver? && w.script[0].n > 0) {
      ShorterRow(w'.script, row + 1, 0);
    } else if w.script == [] {
      assert w'.script == [];
    }
  }

  /** A plentiful link is one that is never quiet at all. */
  lemma {:induction false} PlentifulIsPatient(w: Wire)
    requires Plentiful(w)
    ensures Patient(w, 0)
  {
    FlowingDelivers(w.script);
  }

  lemma {:induction false} FlowingDelivers(script: seq<ReadEvent>)
    requires Flowing(script)
    ensures ShortPauses(script, 0) && Deliveries(script) == |script|
  {
    if script != [] {
      FlowingDelivers(script[1..]);
    }
  }

  /** More than 128 KiB without a response end the loop, and nothing of them is kept. */
  lemma TooMuchIsRefused(buffer: seq<byte>, empties: nat, w: Wire)
    requires Chunk(ReadStep(w, READ_BUF_SIZE).0) != []
    requires FrameEnd(buffer + Chunk(ReadStep(w, READ_BUF_SIZE).0)) == None
    requires |buffer + Chunk(ReadStep(w, READ_BUF_SIZE).0)| > 128 * 1024
    ensures Respond(buffer, empties, w) == (Err(TooLarge), Link([], ReadStep(w, READ_BUF_SIZE).1))
  {
    hide LooksComplete, FrameEnd;
  }

  /** Raw data waits for nothing: one empty read ends a read command with a timeout, one failed read with the
      transport's error. */
  lemma RawDataDoesNotWait(link: Link, total: nat)
    requires |link.leftover| < total && link.wire.script != []
    ensures link.wire.script[0].Quiet? ==> RawPhase(link, total, []).0 == Err(Timeout)
    ensures link.wire.script[0].Fault? ==> RawPhase(link, total, []).0 == Err(Io)
  {
    assert [] + link.leftover[..|link.leftover|] == link.leftover;
  }

  predicate AllEmpty(events: seq<ReadEvent>)
  {
    forall i :: 0 <= i < |events| ==> events[i].Quiet? || events[i].Fault?
  }

  lemma EmptyEvent(buffer: seq<byte>, empties: nat, w: Wire)
    requires w.script != [] && (w.script[0].Quiet? || w.script[0].Fault?) && !LooksComplete(buffer)
    ensures Respond(buffer, empties, w) ==
            if empties < 10 then Respond(buffer, empties + 1, w.(script := w.script[1..]))
            else (Err(Timeout), Link([], w.(script := w.script[1..])))
  {
    hide LooksComplete, FrameEnd;
  }

  /** Up to ten empty reads in a row leave the loop where it was, and the eleventh ends it with a timeout; both as
      long as what was read before them holds no response. */
  lemma {:induction false} EmptyReadsAreWaitedFor(buffer: seq<byte>, empties: nat, pause: seq<ReadEvent>,
      later: seq<ReadEvent>, w: Wire)
    requires w.script == pause + later && AllEmpty(pause) && !LooksComplete(buffer) && empties <= 10
    ensures Respond(buffer, empties, w) ==
            if empties + |pause| <= 10 then Respond(buffer, empties + |pause|, w.(script := later))
            else (Err(Timeout), Link([], w.(script := w.script[11 - empties..])))
    decreases |pause|
  {
    hide LooksComplete, Respond;
    if pause == [] {
      assert w.script == later;
    } else {
      EmptyEvent(buffer, empties, w);
      assert w.script[1..] == pause[1..] + later;
      if empties < 10 {
        EmptyReadsAreWaitedFor(buffer, empties + 1, pause[1..], later, w.(script := w.script[1..]));
        assert empties + |pause| > 10 ==> w.script[1..][11 - (empties + 1)..] == w.script[11 - empties..];
      }
    }
  }

  /** A pause of up to ten empty reads before a delivery makes no difference at all. */
  lemma PauseIsHarmless(buffer: seq<byte>, pause: seq<ReadEvent>, later: seq<ReadEvent>, w: Wire)
    requires w.script == pause + later && AllEmpty(pause) && |pause| <= 10 && !LooksComplete(buffer)
    requires later != [] && later[0].Deliver? && later[0].n > 0 && w.incoming != []
    ensures Respond(buffer, 0, w) == Respond(buffer, 0, w.(script := later))
  {
    EmptyReadsAreWaitedFor(buffer, 0, pause, later, w);
    var w' := w.(script := later);
    DeliveryResets(buffer, |pause|, w');
  }

  lemma DeliveryResets(buffer: seq<byte>, empties: nat, w: Wire)
    requires w.script != [] && w.script[0].Deliver? && w.script[0].n > 0 && w.incoming != []
    ensures Respond(buffer, empties, w) == Respond(buffer, 0, w)
  {
    hide LooksComplete, FrameEnd;
    assert Chunk(ReadStep(w, READ_BUF_SIZE).0) != [];
    assert OnRead(buffer, empties, Chunk(ReadStep(w, READ_BUF_SIZE).0)) ==
           OnRead(buffer, 0, Chunk(ReadStep(w, READ_BUF_SIZE).0));
  }

  // ----- One response -----

  lemma {:induction false} RespondKeepsCuts(buffer: seq<byte>, empties: nat, w: Wire)
    ensures w.cuts <= Respond(buffer, empties, w).1.wire.cuts
    ensures Respond(buffer, empties, w).1.wire.sent == w.sent
    ensures Respond(buffer, empties, w).1.wire.writeFaults == w.writeFaults
    decreases |w.script|, MAX_EMPTY_READS - empties
  {
    var (input, w') := ReadStep(w, READ_BUF_SIZE);
    var step := OnRead(buffer, empties, Chunk(input));
    if step.Wait? && (w.script != [] || step.empties > 0) {
      RespondKeepsCuts(step.buffer, step.empties, w');
    }
  }

  /** One turn of the loop on a stream that has a frame next and was not torn: either the frame is
      complete and is split off exactly, or nothing of the stream is lost. */
  lemma TurnInStep(f: seq<byte>, rest: seq<Part>, buffer: seq<byte>, empties: nat, chunk: seq<byte>,
      incoming: seq<byte>)
    requires Frame(f) && WellFormed(rest)
    requires buffer + chunk + incoming == f + Stream(rest)
    requires !Torn([FramePart(f)] + rest, |incoming|)
    ensures var step := OnRead(buffer, empties, chunk);
            && !step.TooBig?
            && (step.Wait? ==> step.buffer + incoming == f + Stream(rest))
            && (step.Complete? ==> step.end == |f| <= |step.buffer|)
            && (step.Complete? ==> step.buffer[..|f|] == f && step.buffer[|f|..] + incoming == Stream(rest))
    ensures !Torn(rest, |incoming|)
    ensures incoming == [] ==> OnRead(buffer, empties, chunk).Complete?
  {
    hide Find, LooksComplete, FrameEnd, Frame;
    var parts, all := [FramePart(f)] + rest, buffer + chunk;
    assert parts[1..] == rest;
    if chunk == [] {
      assert all == buffer;
    }
    assert all == (f + Stream(rest))[..|all|];
    if |f| <= |all| {
      var surplus := all[|f|..];
      assert all == f + surplus;
      FrameIsFound(f, surplus);
      FoundLooksComplete(all);
      assert (f + Stream(rest))[|f|..] == Stream(rest);
      assert (all + incoming)[|f|..] == surplus + incoming;
    } else {
      assert all == f[..|all|];
      PartOfFrameWaits(f, all);
      FrameFits(f);
    }
  }

  lemma FoundLooksComplete(buffer: seq<byte>)
    requires FrameEnd(buffer).Some?
    ensures LooksComplete(buffer)
  {
    hide Find, Lossy, ResponseOpen, SelfClose, ResponseClose, DataClose;
    var text := Lossy(buffer);
    var open := Find(ResponseOpen(), text, 0).value;
    if Find(SelfClose(), text, open).Some? {
      FindEarlier(SelfClose(), text, open);
    } else {
      FindEarlier(ResponseClose(), text, open);
    }
  }

  lemma FrameFits(f: seq<byte>)
    requires Frame(f)
    ensures |f| <= RESPONSE_LIMIT
  {
    hide Find;
  }

  /** One turn of the loop on a stream that has a frame next. */
  lemma TurnOnFrame(f: seq<byte>, rest: seq<byte>, buffer: seq<byte>, empties: nat, chunk: seq<byte>,
      incoming: seq<byte>)
    requires Frame(f) && buffer + chunk + incoming == f + rest
    ensures var step, all := OnRead(buffer, empties, chunk), buffer + chunk;
            if |all| < CloseAt(f) then !step.Complete? && !step.TooBig? && (step.Wait? ==> step.buffer == all)
            else if |all| < |f| then step == Complete(all, CloseAt(f)) && all == f[..|all|]
            else step == Complete(all, |f|) && all[..|f|] == f
  {
    hide Find, LooksComplete, FrameEnd, Frame, CloseAt;
    var all := buffer + chunk;
    if chunk == [] {
      assert all == buffer;
    }
    assert all == (f + rest)[..|all|];
    if |f| <= |all| {
      var surplus := all[|f|..];
      assert all == f + surplus;
      FrameIsFound(f, surplus);
      FoundLooksComplete(all);
    } else {
      assert all == f[..|all|];
      if |all| < CloseAt(f) {
        PartOfFrameWaits(f, all);
        FrameFits(f);
        CloseInside(f);
      } else {
        TornFrameIsCutShort(f, all);
        FoundLooksComplete(all);
      }
    }
  }

  lemma CloseInside(f: seq<byte>)
    requires Frame(f)
    ensures CloseAt(f) + 7 <= |f|
  {
  }

  /** On a patient link the read loop returns, however the frame that is next is cut into reads. */
  lemma {:induction false} PatientLinkResponds(f: seq<byte>, rest: seq<byte>, buffer: seq<byte>, empties: nat, w: Wire)
    requires Frame(f) && buffer + w.incoming == f + rest && Patient(w, empties)
    ensures var (r, link) := Respond(buffer, empties, w);
            r.Ok? && Patient(link.wire, 0)
    decreases |w.script|, MAX_EMPTY_READS - empties
  {
    hide Find, LooksComplete, FrameEnd, Frame, Patient, CloseAt;
    PatientStep(w, empties, READ_BUF_SIZE);
    CloseInside(f);
    var (input, w') := ReadStep(w, READ_BUF_SIZE);
    var chunk := Chunk(input);
    ReadAccounted(buffer, w);
    TurnOnFrame(f, rest, buffer, empties, chunk, w'.incoming);
    var step := OnRead(buffer, empties, chunk);
    if w'.incoming == [] {
      assert |buffer + chunk| == |f| + |rest| by {
        assert buffer + chunk + [] == f + rest;
      }
    }
    if step.Wait? {
      PatientLinkResponds(f, rest, step.buffer, step.empties, w');
    }
  }

  lemma {:induction false} LoopInStep(f: seq<byte>, rest: seq<Part>, buffer: seq<byte>, empties: nat, w: Wire)
    requires Frame(f) && WellFormed(rest)
    requires InStep(Link(buffer, w), [FramePart(f)] + rest)
    requires Clean([FramePart(f)] + rest, Respond(buffer, empties, w).1.wire.cuts)
    ensures var (r, link) := Respond(buffer, empties, w);
            && (if r.Ok? then r.value == f && InStep(link, rest) else LinkLost(r))
            && (Plentiful(w) ==> r.Ok? && Plentiful(link.wire))
    decreases |w.script|, MAX_EMPTY_READS - empties
  {
    hide Find, LooksComplete, FrameEnd, Frame, Plentiful, Stream;
    var parts := [FramePart(f)] + rest;
    if Plentiful(w) {
      PlentifulStep(w, READ_BUF_SIZE);
    }
    assert parts[1..] == rest;
    var (input, w') := ReadStep(w, READ_BUF_SIZE);
    var chunk := Chunk(input);
    ReadAccounted(buffer, w);
    StreamCons(FramePart(f), rest);
    var step := OnRead(buffer, empties, chunk);
    var final := Respond(buffer, empties, w).1.wire;
    assert w'.cuts <= final.cuts by {
      if step.Wait? {
        RespondKeepsCuts(step.buffer, step.empties, w');
      }
    }
    if w'.incoming != w.incoming {
      assert final.cuts[|w.cuts|] == |w'.incoming|;
    }
    TurnInStep(f, rest, buffer, empties, chunk, w'.incoming);
    if step.Wait? && (w.script != [] || step.empties > 0) {
      LoopInStep(f, rest, step.buffer, step.empties, w');
    }
  }

  /** Given a frame next on the stream and no torn read, the read loop returns exactly that frame and leaves the rest
      of the stream untouched, or gives up on the link; on a link with pauses of at most ten empty reads in a row it
      does not give up. */
  lemma RespondInStep(f: seq<byte>, rest: seq<Part>, buffer: seq<byte>, empties: nat, w: Wire)
    requires Frame(f) && WellFormed(rest)
    requires InStep(Link(buffer, w), [FramePart(f)] + rest)
    requires Clean([FramePart(f)] + rest, Respond(buffer, empties, w).1.wire.cuts)
    ensures var (r, link) := Respond(buffer, empties, w);
            && (if r.Ok? then r.value == f && InStep(link, rest) else LinkLost(r))
            && (Plentiful(w) ==> r.Ok? && Plentiful(link.wire))
            && (Patient(w, empties) ==> r.Ok? && Patient(link.wire, 0))
  {
    LoopInStep(f, rest, buffer, empties, w);
    hide Respond, Frame, Patient, Plentiful;
    if Patient(w, empties) {
      assert ([FramePart(f)] + rest)[1..] == rest;
      PatientLinkResponds(f, Stream(rest), buffer, empties, w);
    }
  }

  // ----- Whole commands -----

  /** What the device answers to one command: a first frame, and for an acknowledged read or program the
      raw bytes and the completion frame. */
  datatype Reply = Reply(first: seq<byte>, raw: seq<byte>, last: seq<byte>)

  predicate Acked(cfg: Config, f: seq<byte>)
  {
    cfg.parse(f).Some? && cfg.parse(f).value.ack
  }

  predicate GoodFrame(cfg: Config, f: seq<byte>)
  {
    Frame(f) && cfg.parse(f).Some?
  }

  /** The bytes of a read that the acknowledgement itself spells in its logs, up to as many as were asked for. */
  function Logged(cfg: Config, cmd: Command, reply: Reply): (bytes: seq<byte>)
    requires Acked(cfg, reply.first) && cmd.Read?
  {
    FirstLogged(cfg.parse(reply.first).value.logBytes, cmd.count * cfg.sectorSize)
  }

  function FirstLogged(logBytes: seq<byte>, total: nat): (bytes: seq<byte>)
    ensures |bytes| <= total
  {
    logBytes[..Min(|logBytes|, total)]
  }

  predicate GoodReply(cfg: Config, cmd: Command, reply: Reply)
  {
    && GoodFrame(cfg, reply.first)
    && (Acked(cfg, reply.first) && !cmd.Erase? ==> GoodFrame(cfg, reply.last))
    && (Acked(cfg, reply.first) && cmd.Read? ==> |Logged(cfg, cmd, reply)| + |reply.raw| == cmd.count * cfg.sectorSize)
  }

  function Parts(cfg: Config, cmd: Command, reply: Reply): (parts: seq<Part>)
    requires GoodReply(cfg, cmd, reply)
    ensures WellFormed(parts)
  {
    if !Acked(cfg, reply.first) || cmd.Erase? then [FramePart(reply.first)]
    else if cmd.Read? then [FramePart(reply.first), RawPart(reply.raw), FramePart(reply.last)]
    else [FramePart(reply.first), FramePart(reply.last)]
  }

  /** The result a caller should see. */
  function Expected(cfg: Config, cmd: Command, reply: Reply): (r: Result<seq<byte>>)
  {
    if !Acked(cfg, reply.first) then Err(Nak)
    else if cmd.Erase? then Ok([])
    else if !Acked(cfg, reply.last) then Err(Nak)
    else Ok(if cmd.Read? then Logged(cfg, cmd, reply) + reply.raw else [])
  }

  /** What the host should have written: the command, then the payload of an acknowledged program. */
  function ExpectedWrites(cfg: Config, cmd: Command, reply: Reply): (writes: seq<seq<byte>>)
  {
    if cmd.Program? && Acked(cfg, reply.first) then [cfg.encode(cmd), cmd.data] else [cfg.encode(cmd)]
  }

  function Perform(cfg: Config, link: Link, cmd: Command): (r: (Result<seq<byte>>, Link))
  {
    match cmd
    case Read(_, _, _) => ReadSectors(cfg, link, cmd)
    case Program(_, _, _, _) => ProgramSectors(cfg, link, cmd)
    case Erase(_, _, _) => EraseSectors(cfg, link, cmd)
  }

  lemma CleanPrefix(parts: seq<Part>, early: seq<nat>, late: seq<nat>)
    requires WellFormed(parts) && Clean(parts, late) && early <= late
    ensures Clean(parts, early)
  {
  }

  lemma CleanTail(first: Part, rest: seq<Part>, cuts: seq<nat>)
    requires WellFormed([first] + rest) && WellFormed(rest) && Clean([first] + rest, cuts)
    ensures Clean(rest, cuts)
  {
    assert ([first] + rest)[1..] == rest;
  }

  /** Reading one response off the stream of parts. */
  lemma NextFrame(cfg: Config, f: seq<byte>, rest: seq<Part>, link: Link)
    requires GoodFrame(cfg, f) && WellFormed(rest)
    requires InStep(link, [FramePart(f)] + rest)
    requires Clean([FramePart(f)] + rest, ReadResponse(link).1.wire.cuts)
    ensures var (r, link') := ReadResponse(link);
            && link'.wire.sent == link.wire.sent && link.wire.cuts <= link'.wire.cuts
            && link'.wire.writeFaults == link.wire.writeFaults
            && (if r.Ok? then Parse(cfg, r) == Ok(cfg.parse(f).value) && InStep(link', rest)
                else LinkLost(r) && Parse(cfg, r) == Err(r.error))
            && (Plentiful(link.wire) ==> r.Ok? && Plentiful(link'.wire))
            && (Patient(link.wire, 0) ==> r.Ok? && Patient(link'.wire, 0))
  {
    hide Find, Frame, Respond;
    RespondInStep(f, rest, link.leftover, 0, link.wire);
    RespondKeepsCuts(link.leftover, 0, link.wire);
    FrameIsAscii(f);
    LossyOfAscii(f);
  }

  lemma {:induction false} CollectKeepsCuts(have: seq<byte>, total: nat, w: Wire)
    ensures w.cuts <= Collect(have, total, w).1.cuts
    ensures Collect(have, total, w).1.sent == w.sent
    ensures Collect(have, total, w).1.writeFaults == w.writeFaults
    decreases total - |have|
  {
    if |have| < total {
      var (input, w') := ReadStep(w, total - |have|);
      if input.Data? && input.bytes != [] {
        CollectKeepsCuts(have + input.bytes, total, w');
      }
    }
  }

  lemma {:induction false} PatientCollects(have: seq<byte>, total: nat, w: Wire)
    requires Patient(w, 0) && Collect(have, total, w).0.Ok?
    ensures Patient(Collect(have, total, w).1, 0)
    decreases total - |have|
  {
    if |have| < total {
      CollectTurn(have, total, w);
      PatientStep(w, 0, total - |have|);
      hide Collect, Patient, ReadStep;
      var (input, w') := ReadStep(w, total - |have|);
      PatientCollects(have + input.bytes, total, w');
    }
  }

  lemma RawTurn(k: nat, raw: seq<byte>, tail: seq<byte>, w: Wire)
    requires k < |raw| && w.incoming == raw[k..] + tail
    ensures var (input, w') := ReadStep(w, |raw| - k);
            input.Data? && input.bytes != [] ==>
              var k' := k + |input.bytes|;
              && k' <= |raw| && raw[..k] + input.bytes == raw[..k']
              && w'.incoming == raw[k'..] + tail && w'.cuts == w.cuts + [|w'.incoming|]
    ensures w.incoming != []
  {
  }

  /** Collecting raw bytes off the stream takes exactly the raw part. */
  lemma {:induction false} CollectInStep(k: nat, raw: seq<byte>, rest: seq<Part>, w: Wire)
    requires WellFormed(rest) && k <= |raw|
    requires w.incoming == raw[k..] + Stream(rest)
    requires !Torn(rest, |w.incoming|) && Clean(rest, Collect(raw[..k], |raw|, w).1.cuts)
    ensures var (r, w') := Collect(raw[..k], |raw|, w);
            && (if r.Ok? then r.value == raw && w'.incoming == Stream(rest) && !Torn(rest, |w'.incoming|)
                else LinkLost(r))
            && (Plentiful(w) ==> r.Ok? && Plentiful(w'))
    decreases |raw| - k
  {
    hide Torn, WellFormed, Stream, Plentiful, ReadStep;
    if k < |raw| {
      RawTurn(k, raw, Stream(rest), w);
      if Plentiful(w) {
        PlentifulStep(w, |raw| - k);
      }
      var (input, w') := ReadStep(w, |raw| - k);
      if input.Data? && input.bytes != [] {
        CollectKeepsCuts(raw[..k + |input.bytes|], |raw|, w');
        assert Collect(raw[..k], |raw|, w).1.cuts[|w.cuts|] == |w'.incoming|;
        CollectInStep(k + |input.bytes|, raw, rest, w');
      }
    }
  }

  /** The raw phase of a read returns exactly the raw part, surplus bytes included. */
  lemma RawInStep(raw: seq<byte>, rest: seq<Part>, link: Link)
    requires WellFormed(rest)
    requires InStep(link, [RawPart(raw)] + rest)
    requires Clean(rest, RawPhase(link, |raw|, []).1.wire.cuts)
    ensures var (r, link') := RawPhase(link, |raw|, []);
            && link'.wire.sent == link.wire.sent && link.wire.cuts <= link'.wire.cuts
            && link'.wire.writeFaults == link.wire.writeFaults
            && (if r.Ok? then r.value == raw && InStep(link', rest) else LinkLost(r))
            && (Plentiful(link.wire) ==> r.Ok? && Plentiful(link'.wire))
            && (Patient(link.wire, 0) && r.Ok? ==> Patient(link'.wire, 0))
  {
    hide Frame, Patient;
    assert ([RawPart(raw)] + rest)[1..] == rest;
    var n := Min(|link.leftover|, |raw|);
    var have := link.leftover[..n];
    assert [] + have == have;
    if Patient(link.wire, 0) && Collect(have, |raw|, link.wire).0.Ok? {
      PatientCollects(have, |raw|, link.wire);
    }
    CollectKeepsCuts(have, |raw|, link.wire);
    assert link.leftover == have + link.leftover[n..];
    if n == |raw| {
      assert have == (raw + Stream(rest))[..n];
      assert (link.leftover + link.wire.incoming)[n..] == link.leftover[n..] + link.wire.incoming;
      assert (raw + Stream(rest))[n..] == Stream(rest);
    } else {
      assert have == link.leftover;
      SplitInside(have, link.wire.incoming, raw, Stream(rest));
      CollectInStep(n, raw, rest, link.wire);
      var link' := RawPhase(link, |raw|, []).1;
      assert link'.leftover + link'.wire.incoming == link'.wire.incoming;
    }
  }

  lemma {:induction false} CollectBehind(pre: seq<byte>, have: seq<byte>, total: nat, w: Wire)
    ensures var (r, w') := Collect(have, total, w);
            Collect(pre + have, |pre| + total, w) == (if r.Ok? then Ok(pre + r.value) else r, w')
    decreases total - |have|
  {
    if |have| < total {
      CollectTurn(have, total, w);
      CollectTurn(pre + have, |pre| + total, w);
      hide Collect;
      var (input, w') := ReadStep(w, total - |have|);
      if input.Data? && input.bytes != [] {
        CollectBehind(pre, have + input.bytes, total, w');
        AppendAssoc(pre, have, input.bytes);
      }
    }
  }

  /** Bytes spelled in the logs stand in for the first raw bytes, and that many fewer are taken off the stream. */
  lemma LoggedBytesComeFirst(link: Link, total: nat, logBytes: seq<byte>)
    ensures var logged := FirstLogged(logBytes, total);
            var (r, link') := RawPhase(link, total - |logged|, []);
            RawPhase(link, total, logBytes) == (if r.Ok? then Ok(logged + r.value) else r, link')
  {
    var logged := FirstLogged(logBytes, total);
    var have := link.leftover[..Min(|link.leftover|, total - |logged|)];
    CollectBehind(logged, have, total - |logged|, link.wire);
    hide Collect;
    assert [] + have == have;
  }

  /** The raw bytes of a read broke off: a read of the transport was empty or failed while they were collected. */
  predicate RawBreaksOff(cfg: Config, link: Link, cmd: Command)
  {
    && cmd.Read? && ExecuteCommand(cfg, link, cmd).0.Ok?
    && var (resp, l1) := ExecuteCommand(cfg, link, cmd);
       RawPhase(l1, cmd.count * cfg.sectorSize, resp.value.logBytes).0.Err?
  }

  /** The outcome of a command that stayed in step. */
  ghost predicate Served(cfg: Config, cmd: Command, reply: Reply, rest: seq<Part>, before: Link,
      r: Result<seq<byte>>, after: Link)
    requires WellFormed(rest)
  {
    && before.wire.cuts <= after.wire.cuts
    && (LinkLost(r) ||
        (r == Expected(cfg, cmd, reply) && InStep(after, rest) &&
         after.wire.sent == before.wire.sent + ExpectedWrites(cfg, cmd, reply)))
    && (Plentiful(before.wire) ==> !LinkLost(r) && Plentiful(after.wire))
    && (Patient(before.wire, 0) ==> RawBreaksOff(cfg, before, cmd) || (!LinkLost(r) && Patient(after.wire, 0)))
  }

  /** Sending the command and reading its first frame. */
  lemma CommandInStep(cfg: Config, link: Link, cmd: Command, first: seq<byte>, rest: seq<Part>)
    requires GoodFrame(cfg, first) && WellFormed(rest)
    requires InStep(link, [FramePart(first)] + rest)
    requires Clean([FramePart(first)] + rest, ExecuteCommand(cfg, link, cmd).1.wire.cuts)
    ensures var (r, link') := ExecuteCommand(cfg, link, cmd);
            && link.wire.cuts <= link'.wire.cuts
            && (if r.Ok? then
                  r.value == cfg.parse(first).value && InStep(link', rest) &&
                  link'.wire.sent == link.wire.sent + [cfg.encode(cmd)]
                else LinkLost(r))
            && (Plentiful(link.wire) ==> r.Ok? && Plentiful(link'.wire))
            && (Patient(link.wire, 0) ==> r.Ok? && Patient(link'.wire, 0))
  {
    hide Frame, Find, ReadResponse;
    var (ok, w) := WriteStep(link.wire, cfg.encode(cmd));
    if ok {
      NextFrame(cfg, first, rest, link.(wire := w));
    }
  }

  lemma FinishInStep(cfg: Config, link: Link, last: seq<byte>, rest: seq<Part>, value: seq<byte>)
    requires GoodFrame(cfg, last) && WellFormed(rest)
    requires InStep(link, [FramePart(last)] + rest)
    requires Clean([FramePart(last)] + rest, Finish(cfg, link, value).1.wire.cuts)
    ensures var (r, link') := Finish(cfg, link, value);
            && link.wire.cuts <= link'.wire.cuts
            && (LinkLost(r) ||
                (r == (if Acked(cfg, last) then Ok(value) else Err(Nak)) && InStep(link', rest) &&
                 link'.wire.sent == link.wire.sent))
            && (Plentiful(link.wire) ==> !LinkLost(r) && Plentiful(link'.wire))
            && (Patient(link.wire, 0) ==> !LinkLost(r) && Patient(link'.wire, 0))
  {
    hide Frame, Find, ReadResponse;
    NextFrame(cfg, last, rest, link);
  }

  lemma LaterPhasesKeepCuts<T>(cfg: Config, link: Link, total: nat, logBytes: seq<byte>, value: T)
    ensures link.wire.cuts <= Finish(cfg, link, value).1.wire.cuts
    ensures link.wire.cuts <= RawPhase(link, total, logBytes).1.wire.cuts
  {
    RespondKeepsCuts(link.leftover, 0, link.wire);
    var logged := logBytes[..Min(|logBytes|, total)];
    CollectKeepsCuts(logged + link.leftover[..Min(|link.leftover|, total - |logged|)], total, link.wire);
  }

  lemma ReadInStep(cfg: Config, link: Link, cmd: Command, reply: Reply, rest: seq<Part>)
    requires cmd.Read? && GoodReply(cfg, cmd, reply) && WellFormed(rest) && Acked(cfg, reply.first)
    requires InStep(link, Parts(cfg, cmd, reply) + rest)
    requires Clean(Parts(cfg, cmd, reply) + rest, ReadSectors(cfg, link, cmd).1.wire.cuts)
    ensures Served(cfg, cmd, reply, rest, link, ReadSectors(cfg, link, cmd).0, ReadSectors(cfg, link, cmd).1)
  {
    hide Frame, Find, ReadResponse, ExecuteCommand, Finish, RawPhase, InStep, Torn;
    var p3 := [FramePart(reply.last)] + rest;
    var p2 := [RawPart(reply.raw)] + p3;
    var p1 := [FramePart(reply.first)] + p2;
    assert Parts(cfg, cmd, reply) + rest == p1;
    var final := ReadSectors(cfg, link, cmd).1.wire.cuts;
    var total := cmd.count * cfg.sectorSize;
    var (resp, l1) := ExecuteCommand(cfg, link, cmd);
    if resp.Ok? && resp.value.ack {
      LaterPhasesKeepCuts(cfg, l1, total, resp.value.logBytes, reply.raw);
      var (data, l2) := RawPhase(l1, total, resp.value.logBytes);
      if data.Ok? {
        LaterPhasesKeepCuts(cfg, l2, 0, [], data.value);
      }
      CleanPrefix(p1, l1.wire.cuts, final);
      CommandInStep(cfg, link, cmd, reply.first, p2);
      CleanTail(FramePart(reply.first), p2, final);
      CleanTail(RawPart(reply.raw), p3, final);
      CleanPrefix(p3, l2.wire.cuts, final);
      LoggedBytesComeFirst(l1, total, resp.value.logBytes);
      RawInStep(reply.raw, p3, l1);
      if data.Ok? {
        FinishInStep(cfg, l2, reply.last, rest, data.value);
      }
    } else {
      CommandInStep(cfg, link, cmd, reply.first, p2);
    }
  }

  lemma ProgramInStep(cfg: Config, link: Link, cmd: Command, reply: Reply, rest: seq<Part>)
    requires cmd.Program? && GoodReply(cfg, cmd, reply) && WellFormed(rest) && Acked(cfg, reply.first)
    requires InStep(link, Parts(cfg, cmd, reply) + rest)
    requires Clean(Parts(cfg, cmd, reply) + rest, ProgramSectors(cfg, link, cmd).1.wire.cuts)
    ensures Served(cfg, cmd, reply, rest, link, ProgramSectors(cfg, link, cmd).0, ProgramSectors(cfg, link, cmd).1)
  {
    hide Frame, Find, ReadResponse, ExecuteCommand, Finish, Torn;
    var p2 := [FramePart(reply.last)] + rest;
    var p1 := [FramePart(reply.first)] + p2;
    assert Parts(cfg, cmd, reply) + rest == p1;
    var final := ProgramSectors(cfg, link, cmd).1.wire.cuts;
    var (resp, l1) := ExecuteCommand(cfg, link, cmd);
    if resp.Ok? && resp.value.ack {
      var (ok, w) := WriteStep(l1.wire, cmd.data);
      var l2 := l1.(wire := w);
      var none: seq<byte> := [];
      LaterPhasesKeepCuts(cfg, l2, 0, [], none);
      CleanPrefix(p1, l1.wire.cuts, final);
      CommandInStep(cfg, link, cmd, reply.first, p2);
      if ok {
        CleanTail(FramePart(reply.first), p2, final);
        FinishInStep(cfg, l2, reply.last, rest, []);
      }
    } else {
      CommandInStep(cfg, link, cmd, reply.first, p2);
    }
  }

  lemma FirstPhaseCuts(cfg: Config, link: Link, cmd: Command)
    ensures ExecuteCommand(cfg, link, cmd).1.wire.cuts <= Perform(cfg, link, cmd).1.wire.cuts
  {
    hide ReadResponse, ExecuteCommand, Finish, RawPhase;
    var (resp, l1) := ExecuteCommand(cfg, link, cmd);
    if resp.Ok? && resp.value.ack {
      var none: seq<byte> := [];
      match cmd
      case Read(_, _, count) =>
        var total := count * cfg.sectorSize;
        LaterPhasesKeepCuts(cfg, l1, total, resp.value.logBytes, none);
        var (data, l2) := RawPhase(l1, total, resp.value.logBytes);
        LaterPhasesKeepCuts(cfg, l2, 0, [], if data.Ok? then data.value else none);
      case Program(_, _, _, data) =>
        LaterPhasesKeepCuts(cfg, l1.(wire := WriteStep(l1.wire, data).1), 0, [], none);
      case Erase(_, _, _) =>
    }
  }

  /** Erase commands, and commands the device refuses: one frame and nothing else. */
  lemma SingleFrameInStep(cfg: Config, link: Link, cmd: Command, reply: Reply, rest: seq<Part>)
    requires GoodReply(cfg, cmd, reply) && WellFormed(rest) && (cmd.Erase? || !Acked(cfg, reply.first))
    requires InStep(link, Parts(cfg, cmd, reply) + rest)
    requires Clean(Parts(cfg, cmd, reply) + rest, Perform(cfg, link, cmd).1.wire.cuts)
    ensures Served(cfg, cmd, reply, rest, link, Perform(cfg, link, cmd).0, Perform(cfg, link, cmd).1)
  {
    hide Frame, Find, ReadResponse, ExecuteCommand, Finish, RawPhase, InStep, Torn;
    FirstPhaseCuts(cfg, link, cmd);
    CleanPrefix([FramePart(reply.first)] + rest, ExecuteCommand(cfg, link, cmd).1.wire.cuts,
                Perform(cfg, link, cmd).1.wire.cuts);
    CommandInStep(cfg, link, cmd, reply.first, rest);
  }

  /** A first response that does not parse ends every command in an error: of a program only the command itself has been
      written, and the stream stands behind the response. On a patient link nothing else can happen. */
  lemma UnparsedEndsCommand(cfg: Config, link: Link, cmd: Command, f: seq<byte>, rest: seq<Part>)
    requires Frame(f) && cfg.parse(f).None? && WellFormed(rest) && InStep(link, [FramePart(f)] + rest)
    requires Clean([FramePart(f)] + rest, Perform(cfg, link, cmd).1.wire.cuts)
    ensures var (r, after) := Perform(cfg, link, cmd);
            && (LinkLost(r) || (r == Err(Invalid) && InStep(after, rest)))
            && (r == Err(Invalid) || Patient(link.wire, 0) ==> after.wire.sent == link.wire.sent + [cfg.encode(cmd)])
            && (Patient(link.wire, 0) ==> r == Err(Invalid))
  {
    FirstPhaseCuts(cfg, link, cmd);
    CleanPrefix([FramePart(f)] + rest, ExecuteCommand(cfg, link, cmd).1.wire.cuts, Perform(cfg, link, cmd).1.wire.cuts);
    hide Frame, Find, Respond, Finish, RawPhase, InStep, Clean, Torn, Lossy, Ascii;
    var (ok, w) := WriteStep(link.wire, cfg.encode(cmd));
    if ok {
      StillInStep(link, w, [FramePart(f)] + rest);
      RespondInStep(f, rest, link.leftover, 0, w);
      RespondKeepsCuts(link.leftover, 0, w);
      FrameIsAscii(f);
      LossyOfAscii(f);
    }
  }

  lemma StillInStep(link: Link, w: Wire, parts: seq<Part>)
    requires WellFormed(parts) && InStep(link, parts) && w.incoming == link.wire.incoming
    ensures InStep(link.(wire := w), parts)
  {
  }

  lemma CommandStaysInStep(cfg: Config, link: Link, cmd: Command, reply: Reply, rest: seq<Part>)
    requires GoodReply(cfg, cmd, reply) && WellFormed(rest)
    requires InStep(link, Parts(cfg, cmd, reply) + rest)
    requires Clean(Parts(cfg, cmd, reply) + rest, Perform(cfg, link, cmd).1.wire.cuts)
    ensures Served(cfg, cmd, reply, rest, link, Perform(cfg, link, cmd).0, Perform(cfg, link, cmd).1)
  {
    hide GoodReply, Parts, Clean, InStep, ReadSectors, ProgramSectors, EraseSectors, Served;
    if cmd.Erase? || !Acked(cfg, reply.first) {
      SingleFrameInStep(cfg, link, cmd, reply, rest);
    } else if cmd.Read? {
      ReadInStep(cfg, link, cmd, reply, rest);
    } else {
      ProgramInStep(cfg, link, cmd, reply, rest);
    }
  }

  // ----- Whole runs -----

  /** Issue commands one after another; a lost link ends the run, a refusal does not. */
  function PerformAll(cfg: Config, link: Link, cmds: seq<Command>): (r: (seq<Result<seq<byte>>>, Link))
    ensures |r.0| <= |cmds|
    decreases |cmds|
  {
    if cmds == [] then ([], link)
    else
      var (first, link') := Perform(cfg, link, cmds[0]);
      if LinkLost(first) then ([first], link')
      else
        var (others, last) := PerformAll(cfg, link', cmds[1..]);
        ([first] + others, last)
  }

  predicate GoodReplies(cfg: Config, cmds: seq<Command>, replies: seq<Reply>)
  {
    |cmds| == |replies| && forall i :: 0 <= i < |cmds| ==> GoodReply(cfg, cmds[i], replies[i])
  }

  function AllParts(cfg: Config, cmds: seq<Command>, replies: seq<Reply>): (parts: seq<Part>)
    requires GoodReplies(cfg, cmds, replies)
    ensures WellFormed(parts)
  {
    if cmds == [] then []
    else Parts(cfg, cmds[0], replies[0]) + AllParts(cfg, cmds[1..], replies[1..])
  }

  function AllWrites(cfg: Config, cmds: seq<Command>, replies: seq<Reply>): (writes: seq<seq<byte>>)
    requires |cmds| == |replies|
  {
    if cmds == [] then []
    else ExpectedWrites(cfg, cmds[0], replies[0]) + AllWrites(cfg, cmds[1..], replies[1..])
  }

  lemma {:induction false} RunKeepsCuts(cfg: Config, link: Link, cmds: seq<Command>)
    ensures link.wire.cuts <= PerformAll(cfg, link, cmds).1.wire.cuts
    decreases |cmds|
  {
    hide Perform, ExecuteCommand;
    if cmds != [] {
      FirstPhaseCuts(cfg, link, cmds[0]);
      CommandKeepsCuts(cfg, link, cmds[0]);
      var (first, link') := Perform(cfg, link, cmds[0]);
      if !LinkLost(first) {
        RunKeepsCuts(cfg, link', cmds[1..]);
      }
    }
  }

  lemma CommandKeepsCuts(cfg: Config, link: Link, cmd: Command)
    ensures link.wire.cuts <= Perform(cfg, link, cmd).1.wire.cuts
  {
    hide Perform, Respond;
    FirstPhaseCuts(cfg, link, cmd);
    RespondKeepsCuts(link.leftover, 0, WriteStep(link.wire, cfg.encode(cmd)).1);
  }

  function AllExpected(cfg: Config, cmds: seq<Command>, replies: seq<Reply>): (results: seq<Result<seq<byte>>>)
    requires |cmds| == |replies|
    ensures |results| == |cmds|
  {
    if cmds == [] then []
    else [Expected(cfg, cmds[0], replies[0])] + AllExpected(cfg, cmds[1..], replies[1..])
  }

  /** Somewhere in the run the raw bytes of a read break off. */
  predicate RunBreaksOff(cfg: Config, link: Link, cmds: seq<Command>)
    decreases |cmds|
  {
    cmds != [] && (RawBreaksOff(cfg, link, cmds[0]) || RunBreaksOff(cfg, Perform(cfg, link, cmds[0]).1, cmds[1..]))
  }

  /** Whole-run synchronisation. For any list of commands, any well-formed answers and any schedule in
      which no read ends inside a frame's tail, every command that returns gives exactly its own answer,
      refusals included; only the link itself can end the run early. If it does not, the host has
      written exactly the commands and payloads and the stream stands exactly after the last answer.
      On a plentiful link, however small its fragments, the run does not end early; nor on one with pauses of
      up to ten empty reads in a row, unless a pause falls into the raw bytes of a read. */
  lemma {:induction false} RunStaysInStep(cfg: Config, link: Link, cmds: seq<Command>, replies: seq<Reply>,
      rest: seq<Part>)
    requires GoodReplies(cfg, cmds, replies) && WellFormed(rest)
    requires InStep(link, AllParts(cfg, cmds, replies) + rest)
    requires Clean(AllParts(cfg, cmds, replies) + rest, PerformAll(cfg, link, cmds).1.wire.cuts)
    ensures var (results, link') := PerformAll(cfg, link, cmds);
            && (forall i :: 0 <= i < |results| ==>
                  results[i] == Expected(cfg, cmds[i], replies[i]) || (i == |results| - 1 && LinkLost(results[i])))
            && (results == [] || !LinkLost(results[|results| - 1]) ==>
                  && |results| == |cmds|
                  && InStep(link', rest)
                  && link'.wire.sent == link.wire.sent + AllWrites(cfg, cmds, replies))
    ensures Plentiful(link.wire) ==> PerformAll(cfg, link, cmds).0 == AllExpected(cfg, cmds, replies)
    ensures Patient(link.wire, 0) ==>
              PerformAll(cfg, link, cmds).0 == AllExpected(cfg, cmds, replies) || RunBreaksOff(cfg, link, cmds)
    decreases |cmds|
  {
    hide GoodReply, Parts, Perform, Expected, ExpectedWrites, Frame, InStep, Torn;
    if cmds == [] {
      assert AllParts(cfg, cmds, replies) + rest == rest;
      assert link.wire.sent + [] == link.wire.sent;
    } else {
      var tail := AllParts(cfg, cmds[1..], replies[1..]) + rest;
      var parts := Parts(cfg, cmds[0], replies[0]);
      assert AllParts(cfg, cmds, replies) + rest == parts + tail;
      var (first, link') := Perform(cfg, link, cmds[0]);
      var final := PerformAll(cfg, link, cmds).1.wire.cuts;
      if !LinkLost(first) {
        RunKeepsCuts(cfg, link', cmds[1..]);
      }
      CleanPrefix(parts + tail, link'.wire.cuts, final);
      CommandStaysInStep(cfg, link, cmds[0], replies[0], tail);
      if !LinkLost(first) {
        CleanSuffix(parts, tail, final);
        RunStaysInStep(cfg, link', cmds[1..], replies[1..], rest);
        var w0, w1, w2 := link.wire.sent, ExpectedWrites(cfg, cmds[0], replies[0]), AllWrites(cfg, cmds[1..],
            replies[1..]);
        assert w0 + w1 + w2 == w0 + (w1 + w2);
      }
    }
  }

  lemma {:induction false} CleanSuffix(parts: seq<Part>, rest: seq<Part>, cuts: seq<nat>)
    requires WellFormed(parts) && WellFormed(rest) && Clean(parts + rest, cuts)
    ensures Clean(rest, cuts)
  {
    hide Torn, Frame;
    if parts == [] {
      assert parts + rest == rest;
    } else {
      assert parts + rest == [parts[0]] + (parts[1..] + rest);
      CleanTail(parts[0], parts[1..] + rest, cuts);
      CleanSuffix(parts[1..], rest, cuts);
    }
  }

  // ----- Smallest instances -----

  lemma FirstAt(token: seq<byte>, s: seq<byte>, from: nat, at: nat)
    requires from <= at && OccursAt(token, s, at)
    requires forall k: nat :: from <= k < at ==> !OccursAt(token, s, k)
    ensures Find(token, s, from) == Some(at)
  {
    FindIsFirst(token, s, from);
  }

  lemma Nowhere(token: seq<byte>, s: seq<byte>, from: nat)
    requires from <= |s| && forall k: nat :: from <= k ==> !OccursAt(token, s, k)
    ensures Find(token, s, from) == None
  {
    FindIsFirst(token, s, from);
  }

  lemma NotAt(token: seq<byte>, s: seq<byte>, k: nat)
    requires |token| >= 2 && (k + |token| <= |s| ==> s[k] != token[0] || s[k + 1] != token[1])
    ensures !OccursAt(token, s, k)
  {
    var n := |token|;
    assert k + n <= |s| ==> s[k..k + n][0] == s[k] && s[k..k + n][1] == s[k + 1];
  }

  /** "<response /></data>" is a frame. */
  lemma SmallestFrame()
    ensures Frame(ResponseOpen() + SelfClose() + DataClose())
  {
    hide Find;
    var f := ResponseOpen() + SelfClose() + DataClose();
    assert f[0..10] == ResponseOpen() && f[10..12] == SelfClose() && f[12..19] == DataClose();
    forall k: nat
      ensures k < 10 ==> !OccursAt(SelfClose(), f, k)
      ensures !OccursAt(ResponseClose(), f, k)
    {
      if k < 10 {
        NotAt(SelfClose(), f, k);
      }
      NotAt(ResponseClose(), f, k);
    }
    FirstAt(ResponseOpen(), f, 0, 0);
    FirstAt(SelfClose(), f, 0, 10);
    Nowhere(ResponseClose(), f, 0);
    FirstAt(DataClose(), f, 12, 12);
  }

  /** "/><response " is a buffer the read loop never leaves on a quiet link. */
  lemma SmallestSpin()
    ensures Spins(SelfClose() + ResponseOpen())
  {
    hide Find, Lossy;
    var b := SelfClose() + ResponseOpen();
    LossyOfAscii(b);
    assert b[0..2] == SelfClose() && b[2..12] == ResponseOpen();
    forall k: nat
      ensures k < 2 ==> !OccursAt(ResponseOpen(), b, k)
      ensures k >= 2 ==> !OccursAt(SelfClose(), b, k) && !OccursAt(ResponseClose(), b, k)
    {
      if k < 2 {
        NotAt(ResponseOpen(), b, k);
      } else {
        NotAt(SelfClose(), b, k);
        NotAt(ResponseClose(), b, k);
      }
    }
    FirstAt(ResponseOpen(), b, 0, 2);
    FirstAt(SelfClose(), b, 0, 0);
    Nowhere(SelfClose(), b, 2);
    Nowhere(ResponseClose(), b, 2);
  }
}
