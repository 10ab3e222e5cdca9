/** Reads that end inside a frame's tail: exactly when they do harm, and what harm. */
module FirehoseTorn {
  import opened Bytes
  import opened Text
  import opened Port
  import opened Firehose
  import opened FirehoseSync

  // ----- One response -----

  /** What a frame leaves on the stream when it is cut at its closing token. */
  function TailOf(f: seq<byte>): (tail: seq<byte>)
    requires Frame(f)
    ensures |tail| >= 7 && f[..CloseAt(f)] + tail == f
  {
    f[CloseAt(f)..]
  }

  /** How a response that returns Ok leaves the stream: with the frame taken whole, or cut at its closing
      token and its tail left behind. */
  predicate TookFrame(f: seq<byte>, rest: seq<byte>, kept: seq<byte>, link: Link)
    requires Frame(f)
  {
    if |link.wire.incoming| <= |rest| then kept == f && link.leftover + link.wire.incoming == rest
    else kept == f[..CloseAt(f)] && link.leftover + link.wire.incoming == TailOf(f) + rest
  }

  lemma ExitTakesFrame(f: seq<byte>, rest: seq<byte>, all: seq<byte>, end: nat, w: Wire)
    requires Frame(f) && all + w.incoming == f + rest
    requires if |all| < |f| then CloseAt(f) == end <= |all| else end == |f|
    ensures var (r, link) := Exit(Complete(all, end), w);
            r.Ok? && link.wire == w && TookFrame(f, rest, r.value, link)
  {
    hide Frame, CloseAt, Find;
    CloseInside(f);
    var x := all + w.incoming;
    assert all[..end] == x[..end] && all[end..] + w.incoming == x[end..];
    assert (f + rest)[..end] == f[..end] && (f + rest)[end..] == f[end..] + rest;
    assert all[..|all|] == all && [] + w.incoming == w.incoming;
  }

  /** The read loop on a stream that has a frame next, for every schedule: it gives up on the link, or takes the
      frame whole, or takes it without its tail. Which of the two is decided by how much was undelivered when it
      returned. */
  lemma {:induction false} ResponseTakesFrame(f: seq<byte>, rest: seq<byte>, buffer: seq<byte>, empties: nat, w: Wire)
    requires Frame(f) && buffer + w.incoming == f + rest
    ensures var (r, link) := Respond(buffer, empties, w);
            if r.Ok? then TookFrame(f, rest, r.value, link) else LinkLost(r)
    decreases |w.script|, MAX_EMPTY_READS - empties
  {
    hide Frame, CloseAt, Find, TookFrame, OnRead, TailOf;
    var (input, w') := ReadStep(w, READ_BUF_SIZE);
    var chunk := Chunk(input);
    ReadAccounted(buffer, w);
    var step, all := OnRead(buffer, empties, chunk), buffer + chunk;
    TurnOnFrame(f, rest, buffer, empties, chunk, w'.incoming);
    StepEmpties(buffer, empties, chunk);
    if step.Complete? {
      ExitTakesFrame(f, rest, all, step.end, w');
    } else if step.Wait? && (w.script != [] || step.empties > 0) {
      ResponseTakesFrame(f, rest, step.buffer, step.empties, w');
    }
  }

  lemma StepEmpties(buffer: seq<byte>, empties: nat, chunk: seq<byte>)
    ensures var step := OnRead(buffer, empties, chunk);
            step.Wait? && step.empties > 0 ==> empties < step.empties <= MAX_EMPTY_READS
  {
    hide LooksComplete, FrameEnd;
  }

  /** A frame is a different string from the frame without its tail: so the response is the device's own frame
      exactly when no part of that frame was undelivered. */
  lemma WholeExactlyWhenDelivered(f: seq<byte>, rest: seq<byte>, kept: seq<byte>, link: Link)
    requires Frame(f) && TookFrame(f, rest, kept, link)
    ensures kept == f <==> |link.wire.incoming| <= |rest|
    ensures kept == f <==> link.leftover + link.wire.incoming == rest
  {
    hide Frame, Find, CloseAt;
    CloseInside(f);
    if |link.wire.incoming| > |rest| {
      assert |TailOf(f) + rest| > |rest|;
    }
  }

  /** A read that leaves `left` bytes undelivered ends between the frame's closing token and its end. */
  predicate TearsFrame(f: seq<byte>, rest: seq<byte>, left: nat)
    requires Frame(f)
  {
    |rest| < left <= |rest| + |f| - CloseAt(f)
  }

  predicate NoTear(f: seq<byte>, rest: seq<byte>, before: seq<nat>, after: seq<nat>)
    requires Frame(f)
  {
    forall i :: |before| <= i < |after| ==> !TearsFrame(f, rest, after[i])
  }

  lemma LastCutDecides(f: seq<byte>, rest: seq<byte>, before: seq<nat>, left: nat)
    requires Frame(f) && left <= |rest| + |f| - CloseAt(f)
    ensures NoTear(f, rest, before, before + [left]) <==> left <= |rest|
  {
    hide Frame, CloseAt;
    assert (before + [left])[|before|] == left;
  }

  /** The same in terms of the reads themselves: when the loop starts before the frame's closing token, it
      returns the frame if and only if none of its reads ended inside the frame's tail. */
  lemma {:induction false} WholeExactlyWhenNotTorn(f: seq<byte>, rest: seq<byte>, buffer: seq<byte>, empties: nat,
      w: Wire)
    requires Frame(f) && buffer + w.incoming == f + rest && |buffer| < CloseAt(f)
    ensures var (r, link) := Respond(buffer, empties, w);
            && w.cuts <= link.wire.cuts
            && (r.Ok? ==> (r.value == f <==> NoTear(f, rest, w.cuts, link.wire.cuts)))
    decreases |w.script|, MAX_EMPTY_READS - empties
  {
    hide Frame, CloseAt, Find, OnRead, TailOf;
    var (input, w') := ReadStep(w, READ_BUF_SIZE);
    var chunk := Chunk(input);
    ReadAccounted(buffer, w);
    RespondKeepsCuts(buffer, empties, w);
    var step, all := OnRead(buffer, empties, chunk), buffer + chunk;
    TurnOnFrame(f, rest, buffer, empties, chunk, w'.incoming);
    StepEmpties(buffer, empties, chunk);
    assert |all| + |w'.incoming| == |f| + |rest| by {
      assert |all + w'.incoming| == |f + rest|;
    }
    if step.Complete? {
      ExitTakesFrame(f, rest, all, step.end, w');
      WholeExactlyWhenDelivered(f, rest, Exit(step, w').0.value, Exit(step, w').1);
      assert w'.cuts == w.cuts + [|w'.incoming|];
      LastCutDecides(f, rest, w.cuts, |w'.incoming|);
    } else if step.Wait? && (w.script != [] || step.empties > 0) {
      WholeExactlyWhenNotTorn(f, rest, step.buffer, step.empties, w');
      RespondKeepsCuts(step.buffer, step.empties, w');
      if w'.cuts != w.cuts {
        assert !TearsFrame(f, rest, w'.cuts[|w.cuts|]);
      }
    }
  }

  // ----- What a tear does to what follows -----

  lemma {:induction false} CollectTakesNext(have: seq<byte>, total: nat, w: Wire)
    requires |have| <= total
    ensures var (r, w') := Collect(have, total, w);
            r.Ok? ==> |r.value| == total && r.value + w'.incoming == have + w.incoming
    decreases total - |have|
  {
    if |have| < total {
      CollectTurn(have, total, w);
      hide Collect;
      var (input, w') := ReadStep(w, total - |have|);
      if input.Data? && input.bytes != [] {
        CollectTakesNext(have + input.bytes, total, w');
        AppendAssoc(have, input.bytes, w'.incoming);
      }
    }
  }

  /** The raw phase takes the next bytes of the stream, whatever they are. */
  lemma RawTakesNext(link: Link, total: nat)
    ensures var (r, link') := RawPhase(link, total, []);
            r.Ok? ==>
              && total <= |link.leftover + link.wire.incoming|
              && r.value == (link.leftover + link.wire.incoming)[..total]
              && link'.leftover + link'.wire.incoming == (link.leftover + link.wire.incoming)[total..]
  {
    hide Collect;
    var n := Min(|link.leftover|, total);
    var have, keep := link.leftover[..n], link.leftover[n..];
    var x := link.leftover + link.wire.incoming;
    assert [] + have == have && link.leftover == have + keep;
    CollectTakesNext(have, total, link.wire);
    var (r, link') := RawPhase(link, total, []);
    if r.Ok? {
      if n == total {
        CollectDone(have, total, link.wire);
        assert r.value == have == x[..total];
        assert x[total..] == keep + link.wire.incoming;
      } else {
        assert keep == [] && have == link.leftover;
        assert x == r.value + link'.wire.incoming;
        assert [] + link'.wire.incoming == link'.wire.incoming;
      }
    }
  }

  /** What a read returns, whatever its acknowledgement was: first the bytes spelled in the logs, then the frame's
      tail if the frame was torn, then the bytes the device sent, in all as many as were asked for. */
  lemma ReadTakesNext(cfg: Config, link: Link, cmd: Command, first: seq<byte>, rest: seq<byte>)
    requires cmd.Read? && Frame(first) && link.leftover + link.wire.incoming == first + rest
    ensures var (resp, l1) := ExecuteCommand(cfg, link, cmd);
            var (r, total) := (ReadSectors(cfg, link, cmd).0, cmd.count * cfg.sectorSize);
            r.Ok? ==>
              && resp.Ok? && resp.value.ack
              && var logged := FirstLogged(resp.value.logBytes, total);
                 var sent := if |l1.wire.incoming| <= |rest| then rest else TailOf(first) + rest;
                 |logged + sent| >= total && r.value == (logged + sent)[..total]
  {
    hide Frame, Respond, TailOf, CloseAt, Find, ReadSectors, RawPhase;
    var (ok, w) := WriteStep(link.wire, cfg.encode(cmd));
    var total := cmd.count * cfg.sectorSize;
    ResponseTakesFrame(first, rest, link.leftover, 0, w);
    ReadReturnsRaw(cfg, link, cmd);
    var (resp, l1) := ExecuteCommand(cfg, link, cmd);
    if ReadSectors(cfg, link, cmd).0.Ok? {
      LoggedBytesComeFirst(l1, total, resp.value.logBytes);
      var logged := FirstLogged(resp.value.logBytes, total);
      var sent := l1.leftover + l1.wire.incoming;
      RawTakesNext(l1, total - |logged|);
      assert (logged + sent)[..total] == logged + sent[..total - |logged|];
    }
  }

  /** A successful read returns exactly what its raw phase collected. */
  lemma ReadReturnsRaw(cfg: Config, link: Link, cmd: Command)
    requires cmd.Read?
    ensures ReadSectors(cfg, link, cmd).0.Ok? ==>
              var (resp, l1) := ExecuteCommand(cfg, link, cmd);
              && WriteStep(link.wire, cfg.encode(cmd)).0 && resp.Ok? && resp.value.ack
              && RawPhase(l1, cmd.count * cfg.sectorSize, resp.value.logBytes).0 == ReadSectors(cfg, link, cmd).0
  {
    hide RawPhase, ReadResponse;
  }

  /** A read whose first frame was torn hands the caller the frame's tail as the first bytes of the data, and
      the last bytes of the data stay behind. So does a byte spelled in the acknowledgement's logs, when the device
      sends all the data all the same. Only with neither is the result the data. */
  lemma TornAckShiftsData(cfg: Config, link: Link, cmd: Command, first: seq<byte>, raw: seq<byte>, later: seq<byte>)
    requires cmd.Read? && Frame(first) && |raw| == cmd.count * cfg.sectorSize
    requires link.leftover + link.wire.incoming == first + (raw + later)
    ensures var (resp, l1) := ExecuteCommand(cfg, link, cmd);
            var r := ReadSectors(cfg, link, cmd).0;
            r.Ok? ==>
              && resp.Ok? && resp.value.ack
              && var logged := FirstLogged(resp.value.logBytes, |raw|);
                 var stale := if |l1.wire.incoming| <= |raw + later| then [] else TailOf(first);
                 r.value == (logged + stale + raw)[..|raw|]
  {
    hide Frame, TailOf, ReadSectors, ExecuteCommand, FirstLogged;
    ReadTakesNext(cfg, link, cmd, first, raw + later);
    var (resp, l1) := ExecuteCommand(cfg, link, cmd);
    if ReadSectors(cfg, link, cmd).0.Ok? {
      var logged := FirstLogged(resp.value.logBytes, |raw|);
      var stale := if |l1.wire.incoming| <= |raw + later| then [] else TailOf(first);
      FirstOf(logged, stale, raw, later);
      assert [] + (raw + later) == raw + later;
    }
  }

  lemma FirstOf(logged: seq<byte>, stale: seq<byte>, raw: seq<byte>, later: seq<byte>)
    ensures (logged + (stale + (raw + later)))[..|raw|] == (logged + stale + raw)[..|raw|]
  {
    assert logged + (stale + (raw + later)) == logged + stale + raw + later;
  }

  /** The facts a frame is made of. */
  lemma FrameFacts(f: seq<byte>)
    requires Frame(f)
    ensures var open, end := OpenAt(f), CloseAt(f);
            && Ascii(f) && |f| <= RESPONSE_LIMIT && open + 2 <= end && end + 7 <= |f|
            && Find(ResponseOpen(), f, 0) == Some(open) && Find(SelfClose(), f, open) == Some(end - 2)
            && Find(DataClose(), f, end) == Some(|f| - 7)
            && (Find(ResponseClose(), f, open).None? || Find(ResponseClose(), f, open).value + 11 > end)
  {
    hide Find;
  }

  lemma FrameFromFacts(f: seq<byte>, open: nat, end: nat)
    requires Ascii(f) && |f| <= RESPONSE_LIMIT && open + 2 <= end && end + 7 <= |f|
    requires Find(ResponseOpen(), f, 0) == Some(open) && Find(SelfClose(), f, open) == Some(end - 2)
    requires Find(DataClose(), f, end) == Some(|f| - 7)
    requires Find(ResponseClose(), f, open).None? || Find(ResponseClose(), f, open).value + 11 > end
    ensures Frame(f)
  {
    hide Find;
  }

  /** Behind its closing token a frame may hold another opening token; if it does not, then its tail holds none,
      also not across the border to what follows. */
  lemma NoOpeningInTail(f: seq<byte>, next: seq<byte>)
    requires Frame(f) && Frame(next) && Find(ResponseOpen(), f, CloseAt(f)) == None
    ensures Find(ResponseOpen(), TailOf(f) + next, 0) == Some(|TailOf(f)| + OpenAt(next))
  {
    hide Find;
    var g, token := TailOf(f), ResponseOpen();
    var all, at := g + next, |TailOf(f)| + OpenAt(next);
    FrameFacts(next);
    FindIsFirst(token, next, 0);
    hide Frame;
    assert all[at..at + 10] == next[OpenAt(next)..OpenAt(next) + 10];
    forall k: nat | k < at
      ensures !OccursAt(token, all, k)
    {
      if k < |g| {
        NoOpeningAt(f, next, k);
      } else {
        assert k + 10 <= |all| ==> all[k..k + 10] == next[k - |g|..k - |g| + 10];
        assert !OccursAt(token, next, k - |g|);
      }
    }
    FirstAt(token, all, 0, at);
  }

  lemma NoOpeningAt(f: seq<byte>, next: seq<byte>, k: nat)
    requires Frame(f) && Find(ResponseOpen(), f, CloseAt(f)) == None && k < |TailOf(f)|
    ensures !OccursAt(ResponseOpen(), TailOf(f) + next, k)
  {
    hide Find;
    var g, token := TailOf(f), ResponseOpen();
    var all, at := g + next, CloseAt(f) + k;
    FrameFacts(f);
    FindIsFirst(token, f, CloseAt(f));
    FindIsFirst(DataClose(), f, CloseAt(f));
    hide Frame;
    if k + 10 <= |g| {
      assert k + 10 <= |all| && all[k..k + 10] == f[at..at + 10];
      assert !OccursAt(token, f, at);
    } else {
      assert g[|g| - 1] == f[|f| - 7..][6] == 0x3E;
      LastByteStraddles(token, all, k, |g| - 1);
    }
  }

  lemma LastByteStraddles(token: seq<byte>, s: seq<byte>, k: nat, i: nat)
    requires k <= i < k + |token| && i < |s| && s[i] !in token
    ensures !OccursAt(token, s, k)
  {
    assert k + |token| <= |s| ==> s[k..k + |token|][i - k] == s[i];
  }

  /** The tail a torn frame left behind makes one frame with the next one, so the next response is read with
      the stale tail in front, and after it the stream is in step again. */
  lemma TailJoinsNextFrame(f: seq<byte>, next: seq<byte>)
    requires Frame(f) && Frame(next) && |TailOf(f) + next| <= RESPONSE_LIMIT
    requires Find(ResponseOpen(), f, CloseAt(f)) == None
    ensures Frame(TailOf(f) + next)
  {
    hide Find, Frame;
    var g, open, end := TailOf(f), OpenAt(next), CloseAt(next);
    NoOpeningInTail(f, next);
    FrameFacts(f);
    FrameFacts(next);
    FindShift(SelfClose(), g, next, open);
    FindShift(ResponseClose(), g, next, open);
    FindShift(DataClose(), g, next, end);
    FrameFromFacts(g + next, |g| + open, |g| + end);
  }

  // ----- Whole runs -----

  function ResponseFrame(link: Link): (frames: seq<seq<byte>>)
  {
    var (r, _) := ReadResponse(link);
    if r.Ok? then [r.value] else []
  }

  /** The responses the host takes in the course of one command. */
  function CommandFrames(cfg: Config, link: Link, cmd: Command): (frames: seq<seq<byte>>)
  {
    var (ok, w) := WriteStep(link.wire, cfg.encode(cmd));
    if !ok then []
    else
      var (resp, l1) := ExecuteCommand(cfg, link, cmd);
      ResponseFrame(link.(wire := w)) +
      if resp.Err? || !resp.value.ack || cmd.Erase? then []
      else if cmd.Read? then
        var (data, l2) := RawPhase(l1, cmd.count * cfg.sectorSize, resp.value.logBytes);
        if data.Err? then [] else ResponseFrame(l2)
      else
        var (sent, w2) := WriteStep(l1.wire, cmd.data);
        if !sent then [] else ResponseFrame(l1.(wire := w2))
  }

  /** The frames the device sent for it. */
  function ReplyFrames(cfg: Config, cmd: Command, reply: Reply): (frames: seq<seq<byte>>)
  {
    if !Acked(cfg, reply.first) || cmd.Erase? then [reply.first] else [reply.first, reply.last]
  }

  /** When a response call of the command returned, no part of the frame it was for was undelivered. */
  predicate CommandWhole(cfg: Config, link: Link, cmd: Command, reply: Reply, rest: seq<byte>)
    requires GoodReply(cfg, cmd, reply)
  {
    var parts := Parts(cfg, cmd, reply);
    && |ExecuteCommand(cfg, link, cmd).1.wire.incoming| <= |Stream(parts[1..]) + rest|
    && (|parts| > 1 ==> |Perform(cfg, link, cmd).1.wire.incoming| <= |rest|)
  }

  ghost predicate Diverge(a: seq<seq<byte>>, b: seq<seq<byte>>)
  {
    exists i: nat :: i < |a| && i < |b| && a[i] != b[i]
  }

  lemma NextFrameTaken(cfg: Config, f: seq<byte>, rest: seq<byte>, link: Link)
    requires GoodFrame(cfg, f) && link.leftover + link.wire.incoming == f + rest
    ensures var (r, link') := ReadResponse(link);
            if r.Err? then LinkLost(r) && LinkLost(Parse(cfg, r))
            else
              && (r.value == f <==> |link'.wire.incoming| <= |rest|)
              && (r.value == f ==> Parse(cfg, r) == Ok(cfg.parse(f).value))
              && (r.value == f ==> link'.leftover + link'.wire.incoming == rest)
  {
    ResponseTakesFrame(f, rest, link.leftover, 0, link.wire);
    FrameIsAscii(f);
    LossyOfAscii(f);
    hide Frame, Respond, CloseAt, TailOf, TookFrame, Lossy, Ascii;
    var (r, link') := ReadResponse(link);
    if r.Ok? {
      WholeExactlyWhenDelivered(f, rest, r.value, link');
    }
  }

  lemma FirstDiverges(a: seq<byte>, b: seq<byte>, x: seq<seq<byte>>, y: seq<seq<byte>>)
    requires a != b
    ensures Diverge([a] + x, [b] + y)
  {
    assert ([a] + x)[0] != ([b] + y)[0];
  }

  lemma SecondDiverges(f: seq<byte>, a: seq<byte>, b: seq<byte>)
    requires a != b
    ensures Diverge([f] + [a], [f, b])
  {
    assert ([f] + [a])[1] != [f, b][1];
  }

  /** The outcome of a command, in terms of the frames it took. */
  ghost predicate ExactlyWhole(cfg: Config, link: Link, cmd: Command, reply: Reply, rest: seq<byte>)
    requires GoodReply(cfg, cmd, reply)
  {
    var (r, link') := Perform(cfg, link, cmd);
    if CommandWhole(cfg, link, cmd, reply, rest) then
      && CommandFrames(cfg, link, cmd) == ReplyFrames(cfg, cmd, reply)
      && r == Expected(cfg, cmd, reply) && link'.leftover + link'.wire.incoming == rest
    else Diverge(CommandFrames(cfg, link, cmd), ReplyFrames(cfg, cmd, reply))
  }

  /** The first response of a command, when it is not the device's frame. */
  lemma TornFirst(cfg: Config, link: Link, cmd: Command, reply: Reply, rest: seq<byte>)
    requires GoodReply(cfg, cmd, reply)
    requires link.leftover + link.wire.incoming == reply.first + (Stream(Parts(cfg, cmd, reply)[1..]) + rest)
    requires !LinkLost(Perform(cfg, link, cmd).0)
    ensures var (ok, w) := WriteStep(link.wire, cfg.encode(cmd));
            var (r, l1) := ReadResponse(link.(wire := w));
            && ok && r.Ok? && ExecuteCommand(cfg, link, cmd) == (Parse(cfg, r), l1)
            && (r.value != reply.first ==> ExactlyWhole(cfg, link, cmd, reply, rest))
            && (r.value == reply.first ==>
                  && Parse(cfg, r) == Ok(cfg.parse(reply.first).value)
                  && l1.leftover + l1.wire.incoming == Stream(Parts(cfg, cmd, reply)[1..]) + rest
                  && |l1.wire.incoming| <= |Stream(Parts(cfg, cmd, reply)[1..]) + rest|)
  {
    hide Frame, ReadResponse, RawPhase, Finish, Diverge, Stream;
    var (ok, w) := WriteStep(link.wire, cfg.encode(cmd));
    var l0 := link.(wire := w);
    NextFrameTaken(cfg, reply.first, Stream(Parts(cfg, cmd, reply)[1..]) + rest, l0);
    var r := ReadResponse(l0).0;
    if r.Ok? && r.value != reply.first {
      var x, y := CommandFrames(cfg, link, cmd), ReplyFrames(cfg, cmd, reply);
      FirstDiverges(r.value, reply.first, x[1..], y[1..]);
      assert x == [r.value] + x[1..] && y == [reply.first] + y[1..];
    }
  }

  /** Erase commands and refused commands. */
  lemma SingleExactlyWhole(cfg: Config, link: Link, cmd: Command, reply: Reply, rest: seq<byte>)
    requires GoodReply(cfg, cmd, reply) && (cmd.Erase? || !Acked(cfg, reply.first))
    requires link.leftover + link.wire.incoming == reply.first + (Stream(Parts(cfg, cmd, reply)[1..]) + rest)
    requires !LinkLost(Perform(cfg, link, cmd).0)
    ensures ExactlyWhole(cfg, link, cmd, reply, rest)
  {
    TornFirst(cfg, link, cmd, reply, rest);
    assert Stream(Parts(cfg, cmd, reply)[1..]) + rest == rest;
    hide Frame, ReadResponse, RawPhase, Finish, Diverge, Stream;
  }

  /** A completion response, after a first response that was taken whole. */
  lemma LastExactlyWhole(cfg: Config, link: Link, last: seq<byte>, rest: seq<byte>, first: seq<byte>, value: seq<byte>)
    requires GoodFrame(cfg, last) && link.leftover + link.wire.incoming == last + rest
    requires !LinkLost(Finish(cfg, link, value).0)
    ensures var (r, link') := Finish(cfg, link, value);
            if |link'.wire.incoming| <= |rest| then
              && ResponseFrame(link) == [last] && r == (if Acked(cfg, last) then Ok(value) else Err(Nak))
              && link'.leftover + link'.wire.incoming == rest
            else Diverge([first] + ResponseFrame(link), [first, last])
  {
    hide Frame, ReadResponse, Diverge;
    NextFrameTaken(cfg, last, rest, link);
    var r := ReadResponse(link).0;
    if r.Ok? && r.value != last {
      SecondDiverges(first, r.value, last);
    }
  }

  /** A command whose first response was whole, seen from its completion response. */
  lemma CompletionDecides(cfg: Config, link: Link, cmd: Command, reply: Reply, rest: seq<byte>, l2: Link,
      value: seq<byte>)
    requires GoodReply(cfg, cmd, reply) && Acked(cfg, reply.first) && !cmd.Erase?
    requires |ExecuteCommand(cfg, link, cmd).1.wire.incoming| <= |Stream(Parts(cfg, cmd, reply)[1..]) + rest|
    requires Perform(cfg, link, cmd) == Finish(cfg, l2, value) && !LinkLost(Perform(cfg, link, cmd).0)
    requires CommandFrames(cfg, link, cmd) == [reply.first] + ResponseFrame(l2)
    requires l2.leftover + l2.wire.incoming == reply.last + rest
    requires value == if cmd.Read? then Logged(cfg, cmd, reply) + reply.raw else []
    ensures ExactlyWhole(cfg, link, cmd, reply, rest)
  {
    hide Frame, ReadResponse, ResponseFrame, Perform, CommandFrames, ExecuteCommand, Finish, Diverge, Stream, LinkLost;
    LastExactlyWhole(cfg, l2, reply.last, rest, reply.first, value);
    assert [reply.first] + [reply.last] == [reply.first, reply.last];
  }

  lemma ProgramUnfolds(cfg: Config, link: Link, cmd: Command)
    requires cmd.Program? && ExecuteCommand(cfg, link, cmd).0.Ok? && ExecuteCommand(cfg, link, cmd).0.value.ack
    requires !LinkLost(Perform(cfg, link, cmd).0)
    ensures var (ok, w) := WriteStep(link.wire, cfg.encode(cmd));
            var l1 := ExecuteCommand(cfg, link, cmd).1;
            var (sent, w2) := WriteStep(l1.wire, cmd.data);
            && ok && sent
            && Perform(cfg, link, cmd) == Finish(cfg, l1.(wire := w2), [])
            && CommandFrames(cfg, link, cmd) == ResponseFrame(link.(wire := w)) + ResponseFrame(l1.(wire := w2))
  {
    hide ReadResponse, ResponseFrame, Finish;
  }

  lemma ProgramExactlyWhole(cfg: Config, link: Link, cmd: Command, reply: Reply, rest: seq<byte>)
    requires cmd.Program? && GoodReply(cfg, cmd, reply) && Acked(cfg, reply.first)
    requires link.leftover + link.wire.incoming == reply.first + (Stream(Parts(cfg, cmd, reply)[1..]) + rest)
    requires !LinkLost(Perform(cfg, link, cmd).0)
    ensures ExactlyWhole(cfg, link, cmd, reply, rest)
  {
    hide Frame, ReadResponse, Finish, Stream, Perform, CommandFrames, ExecuteCommand, ExactlyWhole, LinkLost, Parts;
    TornFirst(cfg, link, cmd, reply, rest);
    PartsAfterFirst(cfg, cmd, reply, rest);
    var r := ReadResponse(link.(wire := WriteStep(link.wire, cfg.encode(cmd)).1)).0;
    if r.value == reply.first {
      ProgramUnfolds(cfg, link, cmd);
      var l1 := ExecuteCommand(cfg, link, cmd).1;
      CompletionDecides(cfg, link, cmd, reply, rest, l1.(wire := WriteStep(l1.wire, cmd.data).1), []);
    }
  }

  /** A read after its acknowledgement: losing the link is reported, otherwise the completion response decides. */
  lemma AfterAck(cfg: Config, link: Link, cmd: Command)
    requires cmd.Read? && ExecuteCommand(cfg, link, cmd).0.Ok? && ExecuteCommand(cfg, link, cmd).0.value.ack
    ensures var (resp, l1) := ExecuteCommand(cfg, link, cmd);
            var (data, l2) := RawPhase(l1, cmd.count * cfg.sectorSize, resp.value.logBytes);
            && WriteStep(link.wire, cfg.encode(cmd)).0
            && (LinkLost(data) ==> LinkLost(Perform(cfg, link, cmd).0))
            && (data.Ok? ==>
                  && Perform(cfg, link, cmd) == Finish(cfg, l2, data.value)
                  && CommandFrames(cfg, link, cmd) ==
                     ResponseFrame(link.(wire := WriteStep(link.wire, cfg.encode(cmd)).1)) + ResponseFrame(l2))
  {
    hide ReadResponse, ResponseFrame, Finish, RawPhase;
  }

  lemma ReadUnfolds(cfg: Config, link: Link, cmd: Command, total: nat, logged: seq<byte>)
    requires cmd.Read? && ExecuteCommand(cfg, link, cmd).0.Ok? && ExecuteCommand(cfg, link, cmd).0.value.ack
    requires !LinkLost(Perform(cfg, link, cmd).0) && total == cmd.count * cfg.sectorSize
    requires logged == FirstLogged(ExecuteCommand(cfg, link, cmd).0.value.logBytes, total)
    ensures var (ok, w) := WriteStep(link.wire, cfg.encode(cmd));
            var (data, l2) := RawPhase(ExecuteCommand(cfg, link, cmd).1, total - |logged|, []);
            && ok && data.Ok?
            && Perform(cfg, link, cmd) == Finish(cfg, l2, logged + data.value)
            && CommandFrames(cfg, link, cmd) == ResponseFrame(link.(wire := w)) + ResponseFrame(l2)
  {
    AfterAck(cfg, link, cmd);
    hide ResponseFrame, Finish, RawPhase, FirstLogged, LinkLost, Perform, CommandFrames, ExecuteCommand, WriteStep;
    var (resp, l1) := ExecuteCommand(cfg, link, cmd);
    LoggedBytesComeFirst(l1, total, resp.value.logBytes);
    RawFailureIsLost(l1, total - |logged|);
  }

  lemma ReadExactlyWhole(cfg: Config, link: Link, cmd: Command, reply: Reply, rest: seq<byte>)
    requires cmd.Read? && GoodReply(cfg, cmd, reply) && Acked(cfg, reply.first)
    requires link.leftover + link.wire.incoming == reply.first + (Stream(Parts(cfg, cmd, reply)[1..]) + rest)
    requires !LinkLost(Perform(cfg, link, cmd).0)
    ensures ExactlyWhole(cfg, link, cmd, reply, rest)
  {
    hide Frame, ReadResponse, Finish, Stream, Perform, CommandFrames, ExecuteCommand, ExactlyWhole, LinkLost, Parts,
      RawPhase;
    TornFirst(cfg, link, cmd, reply, rest);
    PartsAfterFirst(cfg, cmd, reply, rest);
    var r := ReadResponse(link.(wire := WriteStep(link.wire, cfg.encode(cmd)).1)).0;
    if r.value == reply.first {
      ReadUnfolds(cfg, link, cmd, cmd.count * cfg.sectorSize, Logged(cfg, cmd, reply));
      var l1 := ExecuteCommand(cfg, link, cmd).1;
      RawTakesNext(l1, |reply.raw|);
      TakesRaw(reply.raw, reply.last + rest);
      CompletionDecides(cfg, link, cmd, reply, rest, RawPhase(l1, |reply.raw|, []).1,
                        Logged(cfg, cmd, reply) + reply.raw);
    }
  }

  lemma TakesRaw(raw: seq<byte>, later: seq<byte>)
    ensures (raw + later)[..|raw|] == raw && (raw + later)[|raw|..] == later
  {
  }

  lemma {:induction false} RawFailureIsLost(link: Link, total: nat)
    ensures RawPhase(link, total, []).0.Err? ==> LinkLost(RawPhase(link, total, []).0)
  {
    var have := link.leftover[..Min(|link.leftover|, total)];
    assert [] + have == have;
    CollectFailureIsLost(have, total, link.wire);
  }

  lemma {:induction false} CollectFailureIsLost(have: seq<byte>, total: nat, w: Wire)
    ensures Collect(have, total, w).0.Err? ==> LinkLost(Collect(have, total, w).0)
    decreases total - |have|
  {
    if |have| < total {
      CollectTurn(have, total, w);
      hide Collect;
      var (input, w') := ReadStep(w, total - |have|);
      if input.Data? && input.bytes != [] {
        CollectFailureIsLost(have + input.bytes, total, w');
      }
    }
  }

  /** What the device sends after the first frame of an acknowledged read or program. */
  lemma PartsAfterFirst(cfg: Config, cmd: Command, reply: Reply, rest: seq<byte>)
    requires GoodReply(cfg, cmd, reply) && Acked(cfg, reply.first) && !cmd.Erase?
    ensures Stream(Parts(cfg, cmd, reply)[1..]) + rest ==
            if cmd.Read? then reply.raw + (reply.last + rest) else reply.last + rest
  {
    var last := [FramePart(reply.last)];
    assert Stream(last) == reply.last + Stream(last[1..]);
    if cmd.Read? {
      var parts := Parts(cfg, cmd, reply)[1..];
      assert parts == [RawPart(reply.raw)] + last && parts[1..] == last;
      assert reply.raw + (reply.last + []) + rest == reply.raw + (reply.last + rest);
    } else {
      assert Parts(cfg, cmd, reply)[1..] == last;
    }
  }

  /** Every command that does not lose the link takes exactly the device's frames, and then returns what it
      should and leaves the stream in step, if and only if no response was torn. */
  lemma CommandExactlyWhole(cfg: Config, link: Link, cmd: Command, reply: Reply, rest: seq<byte>)
    requires GoodReply(cfg, cmd, reply) && !LinkLost(Perform(cfg, link, cmd).0)
    requires link.leftover + link.wire.incoming == Stream(Parts(cfg, cmd, reply)) + rest
    ensures ExactlyWhole(cfg, link, cmd, reply, rest)
  {
    assert Stream(Parts(cfg, cmd, reply)) == reply.first + Stream(Parts(cfg, cmd, reply)[1..]);
    AppendAssoc(reply.first, Stream(Parts(cfg, cmd, reply)[1..]), rest);
    hide ExactlyWhole, Perform, Parts, Stream, GoodReply;
    if cmd.Erase? || !Acked(cfg, reply.first) {
      SingleExactlyWhole(cfg, link, cmd, reply, rest);
    } else if cmd.Read? {
      ReadExactlyWhole(cfg, link, cmd, reply, rest);
    } else {
      ProgramExactlyWhole(cfg, link, cmd, reply, rest);
    }
  }

  predicate NeverLost(results: seq<Result<seq<byte>>>)
  {
    forall i :: 0 <= i < |results| ==> !LinkLost(results[i])
  }

  /** All responses the host takes in a run. */
  function RunFrames(cfg: Config, link: Link, cmds: seq<Command>): (frames: seq<seq<byte>>)
    decreases |cmds|
  {
    if cmds == [] then []
    else
      var (r, link') := Perform(cfg, link, cmds[0]);
      CommandFrames(cfg, link, cmds[0]) + if LinkLost(r) then [] else RunFrames(cfg, link', cmds[1..])
  }

  function DeviceFrames(cfg: Config, cmds: seq<Command>, replies: seq<Reply>): (frames: seq<seq<byte>>)
    requires |cmds| == |replies|
  {
    if cmds == [] then [] else ReplyFrames(cfg, cmds[0], replies[0]) + DeviceFrames(cfg, cmds[1..], replies[1..])
  }

  predicate RunWhole(cfg: Config, link: Link, cmds: seq<Command>, replies: seq<Reply>, rest: seq<byte>)
    requires GoodReplies(cfg, cmds, replies)
    decreases |cmds|
  {
    cmds == [] ||
    (&& CommandWhole(cfg, link, cmds[0], replies[0], Stream(AllParts(cfg, cmds[1..], replies[1..])) + rest)
     && RunWhole(cfg, Perform(cfg, link, cmds[0]).1, cmds[1..], replies[1..], rest))
  }

  lemma DivergeApart(a: seq<seq<byte>>, b: seq<seq<byte>>, x: seq<seq<byte>>, y: seq<seq<byte>>)
    requires Diverge(a, b)
    ensures a + x != b + y
  {
    var i: nat :| i < |a| && i < |b| && a[i] != b[i];
    assert (a + x)[i] == a[i] && (b + y)[i] == b[i];
  }

  lemma SameFront(a: seq<seq<byte>>, x: seq<seq<byte>>, y: seq<seq<byte>>)
    ensures a + x == a + y <==> x == y
  {
    assert (a + x)[|a|..] == x && (a + y)[|a|..] == y;
  }

  lemma StreamHead(parts: seq<Part>)
    requires parts != []
    ensures Stream(parts) == parts[0].bytes + Stream(parts[1..])
  {
  }

  lemma {:induction false} StreamAppend(a: seq<Part>, b: seq<Part>)
    ensures Stream(a + b) == Stream(a) + Stream(b)
  {
    if a == [] {
      assert a + b == b;
      assert Stream(a) == [];
    } else {
      StreamHead(a);
      StreamHead(a + b);
      hide Stream;
      assert (a + b)[0] == a[0] && (a + b)[1..] == a[1..] + b;
      StreamAppend(a[1..], b);
      AppendAssoc(a[0].bytes, Stream(a[1..]), Stream(b));
    }
  }

  /** Whole runs, exactly: for any commands, any well-formed answers and any schedule on which the link is not
      lost, the host takes the device's own frames throughout if and only if no response call returned with a
      part of its frame undelivered; and then every command returns its own answer and the stream stands
      exactly after the last one. */
  lemma {:induction false} RunTakesFramesExactly(cfg: Config, link: Link, cmds: seq<Command>, replies: seq<Reply>,
      rest: seq<byte>)
    requires GoodReplies(cfg, cmds, replies)
    requires link.leftover + link.wire.incoming == Stream(AllParts(cfg, cmds, replies)) + rest
    requires NeverLost(PerformAll(cfg, link, cmds).0)
    ensures RunFrames(cfg, link, cmds) == DeviceFrames(cfg, cmds, replies) <==> RunWhole(cfg, link, cmds, replies, rest)
    ensures var (results, link') := PerformAll(cfg, link, cmds);
            RunWhole(cfg, link, cmds, replies, rest) ==>
              results == AllExpected(cfg, cmds, replies) && link'.leftover + link'.wire.incoming == rest
    decreases |cmds|
  {
    hide GoodReply, Parts, Perform, Expected, Frame, Stream, CommandFrames, ReplyFrames, CommandWhole, Diverge,
      LinkLost;
    if cmds == [] {
      assert AllParts(cfg, cmds, replies) == [];
      NoStream(rest);
    } else {
      var parts, others := Parts(cfg, cmds[0], replies[0]), AllParts(cfg, cmds[1..], replies[1..]);
      StreamAppend(parts, others);
      AppendAssoc(Stream(parts), Stream(others), rest);
      var (r, link') := Perform(cfg, link, cmds[0]);
      var all := PerformAll(cfg, link, cmds).0;
      assert all[0] == r;
      CommandExactlyWhole(cfg, link, cmds[0], replies[0], Stream(others) + rest);
      var x, y := RunFrames(cfg, link', cmds[1..]), DeviceFrames(cfg, cmds[1..], replies[1..]);
      if CommandWhole(cfg, link, cmds[0], replies[0], Stream(others) + rest) {
        assert all == [r] + PerformAll(cfg, link', cmds[1..]).0;
        assert forall i :: 0 <= i < |all| - 1 ==> PerformAll(cfg, link', cmds[1..]).0[i] == all[i + 1];
        RunTakesFramesExactly(cfg, link', cmds[1..], replies[1..], rest);
        SameFront(CommandFrames(cfg, link, cmds[0]), x, y);
      } else {
        DivergeApart(CommandFrames(cfg, link, cmds[0]), ReplyFrames(cfg, cmds[0], replies[0]), x, y);
      }
    }
  }

  lemma NoStream(rest: seq<byte>)
    ensures Stream([]) + rest == rest
  {
  }

  // ----- One wire each -----

  /** Bytes without an angle bracket in front of a frame move its opening token by their length. */
  lemma OpeningAfter(pre: seq<byte>, f: seq<byte>)
    requires Frame(f) && 0x3C !in pre
    ensures Find(ResponseOpen(), pre + f, 0) == Some(|pre| + OpenAt(f))
  {
    hide Find;
    var token, all, at := ResponseOpen(), pre + f, |pre| + OpenAt(f);
    FrameFacts(f);
    FindIsFirst(token, f, 0);
    hide Frame;
    assert all[at..at + 10] == f[OpenAt(f)..OpenAt(f) + 10];
    forall k: nat | k < at
      ensures !OccursAt(token, all, k)
    {
      if k < |pre| {
        NotAt(token, all, k);
      } else {
        assert k + 10 <= |all| ==> all[k..k + 10] == f[k - |pre|..k - |pre| + 10];
        assert !OccursAt(token, f, k - |pre|);
      }
    }
    FirstAt(token, all, 0, at);
  }

  /** When one read delivers everything, the loop returns at once what the scan cuts off. */
  lemma OneReadResponds(w: Wire, n: nat, end: nat)
    requires w.script != [] && w.script[0] == Deliver(n) && |w.incoming| <= n && 0 < |w.incoming| <= READ_BUF_SIZE
    requires FrameEnd(w.incoming) == Some(end) && end <= |w.incoming|
    ensures var (r, link) := ReadResponse(Link([], w));
            && r == Ok(w.incoming[..end])
            && link == Link(w.incoming[end..], w.(incoming := [], script := w.script[1..], cuts := w.cuts + [0]))
  {
    hide FrameEnd, LooksComplete;
    assert w.incoming[..|w.incoming|] == w.incoming && [] + w.incoming == w.incoming;
    assert w.incoming[|w.incoming|..] == [];
    var (input, w') := ReadStep(w, READ_BUF_SIZE);
    assert OnRead([], 0, Chunk(input)) == Complete(w.incoming, end);
    assert w.incoming[..end] == w.incoming <==> end == |w.incoming|;
  }

  function SomeFrame(): (f: seq<byte>)
    ensures |f| == 19 && Frame(f)
  {
    SmallestFrame();
    ResponseOpen() + SelfClose() + DataClose()
  }

  lemma SomeFrameCloses()
    ensures OpenAt(SomeFrame()) == 0 && CloseAt(SomeFrame()) == 12 && TailOf(SomeFrame()) == DataClose()
    ensures Lossy([0xFF]) == REPLACEMENT
  {
    hide Find;
    var f := SomeFrame();
    assert f[0..10] == ResponseOpen() && f[10..12] == SelfClose() && f[12..] == DataClose();
    FirstAt(ResponseOpen(), f, 0, 0);
    forall k: nat | k < 10
      ensures !OccursAt(SelfClose(), f, k)
    {
      NotAt(SelfClose(), f, k);
    }
    FirstAt(SelfClose(), f, 0, 10);
    assert NextChar([0xFF]) == (1, false) && Lossy([]) == [];
  }

  const EVERYTHING_ACKS: Config := Config(_ => Some(Response(true, [])), _ => [], 7)

  /** The wire of the instance: before the command, after its first response, and after the raw phase. */
  function TornWire(): (w: Wire)
  {
    Wire(SomeFrame() + (Zeros(7) + SomeFrame()), [Deliver(12), Deliver(7), Deliver(26)], [], [], [])
  }

  function AfterTornAck(): (w: Wire)
  {
    Wire(DataClose() + (Zeros(7) + SomeFrame()), [Deliver(7), Deliver(26)], [], [[]], [33])
  }

  function AfterShiftedData(): (w: Wire)
  {
    Wire(Zeros(7) + SomeFrame(), [Deliver(26)], [], [[]], [33, 26])
  }

  lemma TornAck()
    ensures ExecuteCommand(EVERYTHING_ACKS, Link([], TornWire()), Read(0, 0, 1)) ==
            (Ok(Response(true, [])), Link([], AfterTornAck()))
  {
    hide Frame, CloseAt, OpenAt, SomeFrame, Find, DataClose;
    SomeFrameCloses();
    var w0 := WriteStep(TornWire(), []).1;
    TornFirstRead(SomeFrame(), Zeros(7) + SomeFrame(), w0);
    hide ReadResponse, Lossy;
    assert TornWire().script[1..] == [Deliver(7), Deliver(26)];
    assert w0.sent == [[]] && w0.cuts + [33] == [33];
  }

  lemma ShiftedData()
    ensures RawPhase(Link([], AfterTornAck()), 7, []) == (Ok(DataClose()), Link([], AfterShiftedData()))
  {
    hide SomeFrame, DataClose, Collect;
    CollectsTail(DataClose(), Zeros(7) + SomeFrame(), AfterTornAck());
    assert AfterTornAck().script[1..] == [Deliver(26)];
    var nothing: seq<byte> := [];
    assert nothing[..0] + nothing[..0] == nothing && nothing[0..] == nothing;
    assert AfterTornAck().cuts + [26] == AfterShiftedData().cuts;
  }

  lemma LateCompletion()
    ensures Finish(EVERYTHING_ACKS, Link([], AfterShiftedData()), DataClose()).0 == Ok(DataClose())
  {
    hide SomeFrame, DataClose, FrameEnd;
    ZerosThenFrame(SomeFrame());
    OneReadResponds(AfterShiftedData(), 26, 26);
    hide ReadResponse, Lossy;
  }

  /** The device acknowledges, sends seven zero bytes and acknowledges again; the first read ends at the closing
      token of the first frame. The caller gets "</data>" as its data. */
  lemma TornReadInstance()
    ensures ReadSectors(EVERYTHING_ACKS, Link([], TornWire()), Read(0, 0, 1)).0 == Ok(DataClose())
  {
    hide ExecuteCommand, RawPhase, Finish, TornWire, AfterTornAck, AfterShiftedData, DataClose;
    TornAck();
    ShiftedData();
    LateCompletion();
  }

  lemma TornFirstRead(f: seq<byte>, rest: seq<byte>, w: Wire)
    requires Frame(f) && CloseAt(f) == 12 && |f| == 19 && w.incoming == f + rest
    requires w.script != [] && w.script[0] == Deliver(12)
    ensures ReadResponse(Link([], w)) ==
            (Ok(f[..12]), Link([], w.(incoming := TailOf(f) + rest, script := w.script[1..],
                                      cuts := w.cuts + [|rest| + 7])))
  {
    hide Frame, CloseAt, OpenAt, Find;
    var (input, w') := ReadStep(w, READ_BUF_SIZE);
    assert w.incoming[..12] == f[..12] && w.incoming[12..] == TailOf(f) + rest;
    assert [] + f[..12] + w'.incoming == f + rest;
    TurnOnFrame(f, rest, [], 0, f[..12], w'.incoming);
    hide OnRead;
    assert [] + f[..12] == f[..12];
  }

  lemma CollectsTail(tail: seq<byte>, rest: seq<byte>, w: Wire)
    requires |tail| == 7 && w.incoming == tail + rest && w.script != [] && w.script[0] == Deliver(7)
    ensures Collect([], 7, w) == (Ok(tail), w.(incoming := rest, script := w.script[1..], cuts := w.cuts + [|rest|]))
  {
    CollectTurn([], 7, w);
    assert w.incoming[..7] == tail && w.incoming[7..] == rest && [] + tail == tail;
    CollectDone(tail, 7, ReadStep(w, 7).1);
    hide Collect;
  }

  lemma ZerosThenFrame(f: seq<byte>)
    requires Frame(f) && |f| == 19
    ensures FrameEnd(Zeros(7) + f) == Some(26)
  {
    hide Frame, OpenAt, Find, FrameEnd, Lossy;
    var raw := Zeros(7);
    FrameIsAscii(f);
    LossyOfAscii(raw);
    LossyOfAscii(f);
    LossyGarbage(raw, f);
    OpeningAfter(raw, f);
    GarbageMovesTheCut(raw, f, []);
    assert f + [] == f;
  }

  /** One undecodable byte in front of an answer, everything in one read: the response swallows the first two
      bytes of the payload behind it. */
  lemma GarbageEatsPayload(raw: seq<byte>)
    requires 2 <= |raw| <= 1000
    ensures var f := SomeFrame();
            var w := Wire([0xFF] + (f + raw), [Deliver(1020)], [], [], []);
            var (r, link) := ReadResponse(Link([], w));
            r == Ok([0xFF] + (f + raw[..2])) && link.leftover == raw[2..] && link.wire.incoming == []
  {
    hide Frame, OpenAt, CloseAt, SomeFrame, Find, FrameEnd, Lossy;
    var f := SomeFrame();
    var w := Wire([0xFF] + (f + raw), [Deliver(1020)], [], [], []);
    GarbageCutsLate(raw);
    SplitBehindTwo([0xFF], f, raw);
    OneReadResponds(w, 1020, 22);
    hide ReadResponse;
  }

  lemma SplitBehindTwo(g: seq<byte>, f: seq<byte>, raw: seq<byte>)
    requires |raw| >= 2
    ensures var n, all := |g| + |f| + 2, g + (f + raw);
            n <= |all| && all[..n] == g + (f + raw[..2]) && all[n..] == raw[2..]
  {
  }

  lemma GarbageCutsLate(raw: seq<byte>)
    ensures FrameEnd([0xFF] + (SomeFrame() + raw)) == Some(22)
  {
    hide Frame, OpenAt, CloseAt, SomeFrame, Find, FrameEnd, Lossy;
    var f := SomeFrame();
    SomeFrameCloses();
    FrameIsAscii(f);
    LossyOfAscii(f);
    LossyGarbage([0xFF], f);
    OpeningAfter(REPLACEMENT, f);
    GarbageMovesTheCut([0xFF], f, raw);
  }
}
