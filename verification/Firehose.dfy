/** The Firehose client: XML frames and raw sector data interleaved on one byte stream. */
module Firehose {
  import opened Bytes
  import opened Text
  import opened Port

  const READ_BUF_SIZE: nat := 64 * 1024
  const RESPONSE_LIMIT: nat := 128 * 1024
  const MAX_EMPTY_READS: nat := 10

  /** "<response " */
  function ResponseOpen(): (token: seq<byte>)
    ensures |token| == 10
  {
    [0x3C, 0x72, 0x65, 0x73, 0x70, 0x6F, 0x6E, 0x73, 0x65, 0x20]
  }

  /** "/>" */
  function SelfClose(): (token: seq<byte>)
    ensures |token| == 2
  {
    [0x2F, 0x3E]
  }

  /** "</response>" */
  function ResponseClose(): (token: seq<byte>)
    ensures |token| == 11
  {
    [0x3C, 0x2F, 0x72, 0x65, 0x73, 0x70, 0x6F, 0x6E, 0x73, 0x65, 0x3E]
  }

  /** "</data>" */
  function DataClose(): (token: seq<byte>)
    ensures |token| == 7
  {
    [0x3C, 0x2F, 0x64, 0x61, 0x74, 0x61, 0x3E]
  }

  // ----- Finding the end of a response -----

  /** Where the response element that opens at `open` closes, if it does. */
  function ElementEnd(text: seq<byte>, open: nat): (end: Option<nat>)
    requires open <= |text|
    ensures end.Some? ==> open < end.value <= |text|
  {
    match Find(SelfClose(), text, open)
    case Some(i) => Some(i + |SelfClose()|)
    case None =>
      match Find(ResponseClose(), text, open)
      case Some(i) => Some(i + |ResponseClose()|)
      case None => None
  }

  /** Where the scan ends the response in a text. */
  function TextEnd(text: seq<byte>): (end: Option<nat>)
  {
    var open := Find(ResponseOpen(), text, 0);
    if open.None? then None
    else
      var close := ElementEnd(text, open.value);
      if close.None? then None
      else
        match Find(DataClose(), text, close.value)
        case Some(i) => Some(i + |DataClose()|)
        case None => close
  }

  /** The offset at which `read_response` splits its byte buffer: it is measured in the lossy text. */
  function FrameEnd(buffer: seq<byte>): (end: Option<nat>)
  {
    TextEnd(Lossy(buffer))
  }

  /** The test an empty read makes: an opening token and a closing token somewhere in the text. */
  predicate LooksComplete(buffer: seq<byte>)
  {
    var text := Lossy(buffer);
    Contains(text, ResponseOpen()) && (Contains(text, SelfClose()) || Contains(text, ResponseClose()))
  }

  lemma EmptyIsIncomplete()
    ensures !LooksComplete([])
  {
    assert Lossy([]) == [];
  }

  // ----- One turn of the read loop -----

  datatype Step =
    | Wait(buffer: seq<byte>, empties: nat)
    | Complete(buffer: seq<byte>, end: nat)
    | GiveUp
    | TooBig

  function Chunk(input: Input): (bytes: seq<byte>)
  {
    if input.Data? then input.bytes else []
  }

  function OnRead(buffer: seq<byte>, empties: nat, chunk: seq<byte>): (step: Step)
  {
    if chunk == [] && !LooksComplete(buffer) then
      if empties + 1 > MAX_EMPTY_READS then GiveUp else Wait(buffer, empties + 1)
    else
      var all := buffer + chunk;
      match FrameEnd(all)
      case Some(end) => Complete(all, end)
      case None => if |all| > RESPONSE_LIMIT then TooBig else Wait(all, 0)
  }

  datatype FirehoseError = Timeout | TooLarge | NeverReturns | Invalid | Io | Nak
  datatype Result<+T> = Ok(value: T) | Err(error: FirehoseError)

  /** The client's surplus bytes and the transport it borrows. */
  datatype Link = Link(leftover: seq<byte>, wire: Wire)

  /** How the read loop ends. A step that only waits ends it when the script is over and a turn of the
      loop changes nothing: the source then goes round for ever. */
  function Exit(step: Step, w: Wire): (r: (Result<seq<byte>>, Link))
  {
    match step
    case GiveUp => (Err(Timeout), Link([], w))
    case TooBig => (Err(TooLarge), Link([], w))
    case Wait(_, _) => (Err(NeverReturns), Link([], w))
    case Complete(all, end) =>
      if end < |all| then (Ok(all[..end]), Link(all[end..], w)) else (Ok(all), Link([], w))
  }

  /** `read_response` from a given loop state. */
  function Respond(buffer: seq<byte>, empties: nat, w: Wire): (r: (Result<seq<byte>>, Link))
    decreases |w.script|, MAX_EMPTY_READS - empties
  {
    var (input, w') := ReadStep(w, READ_BUF_SIZE);
    var step := OnRead(buffer, empties, Chunk(input));
    if step.Wait? && (w.script != [] || step.empties > 0) then Respond(step.buffer, step.empties, w')
    else Exit(step, w')
  }

  function ReadResponse(link: Link): (r: (Result<seq<byte>>, Link))
  {
    Respond(link.leftover, 0, link.wire)
  }

  // ----- Commands -----

  datatype Command =
    | Read(lun: nat, start: nat, count: nat)
    | Program(lun: nat, start: nat, count: nat, data: seq<byte>)
    | Erase(lun: nat, start: nat, count: nat)

  /** A parsed response: its verdict, and the bytes spelled as 0x tokens in its logs. */
  datatype Response = Response(ack: bool, logBytes: seq<byte>)

  /** The XML reader and writer, which this model takes as given, and the negotiated sector size. */
  datatype Config = Config(
    parse: seq<byte> -> Option<Response>,
    encode: Command -> seq<byte>,
    sectorSize: nat)

  function Parse(cfg: Config, r: Result<seq<byte>>): (resp: Result<Response>)
  {
    match r
    case Err(e) => Err(e)
    case Ok(kept) =>
      match cfg.parse(Lossy(kept))
      case None => Err(Invalid)
      case Some(resp) => Ok(resp)
  }

  function ExecuteCommand(cfg: Config, link: Link, cmd: Command): (r: (Result<Response>, Link))
  {
    var (ok, w) := WriteStep(link.wire, cfg.encode(cmd));
    if !ok then (Err(Io), link.(wire := w))
    else
      var (r, link') := ReadResponse(link.(wire := w));
      (Parse(cfg, r), link')
  }

  /** Read the completion response; anything but an ACK is an error. */
  function Finish<T>(cfg: Config, link: Link, value: T): (r: (Result<T>, Link))
  {
    var (r, link') := ReadResponse(link);
    match Parse(cfg, r)
    case Err(e) => (Err(e), link')
    case Ok(resp) => if resp.ack then (Ok(value), link') else (Err(Nak), link')
  }

  /** Read raw bytes until `total` of them are there. */
  function Collect(have: seq<byte>, total: nat, w: Wire): (r: (Result<seq<byte>>, Wire))
    decreases total - |have|
  {
    if |have| >= total then (Ok(have), w)
    else
      var (input, w') := ReadStep(w, total - |have|);
      match input
      case Broken => (Err(Io), w')
      case Data(bytes) => if bytes == [] then (Err(Timeout), w') else Collect(have + bytes, total, w')
  }

  lemma CollectDone(have: seq<byte>, total: nat, w: Wire)
    requires |have| >= total
    ensures Collect(have, total, w) == (Ok(have), w)
  {
  }

  lemma CollectTurn(have: seq<byte>, total: nat, w: Wire)
    requires |have| < total
    ensures var (input, w') := ReadStep(w, total - |have|);
            Collect(have, total, w) ==
            match input
            case Broken => (Err(Io), w')
            case Data(bytes) => if bytes == [] then (Err(Timeout), w') else Collect(have + bytes, total, w')
  {
  }

  /** The raw bytes of a read: bytes spelled in the logs first, then surplus bytes, then the stream. */
  function RawPhase(link: Link, total: nat, logBytes: seq<byte>): (r: (Result<seq<byte>>, Link))
  {
    var logged := logBytes[..Min(|logBytes|, total)];
    var n := Min(|link.leftover|, total - |logged|);
    var (data, w) := Collect(logged + link.leftover[..n], total, link.wire);
    (data, Link(link.leftover[n..], w))
  }

  function ReadSectors(cfg: Config, link: Link, cmd: Command): (r: (Result<seq<byte>>, Link))
    requires cmd.Read?
  {
    var (resp, l1) := ExecuteCommand(cfg, link, cmd);
    if resp.Err? then (Err(resp.error), l1)
    else if !resp.value.ack then (Err(Nak), l1)
    else
      var (data, l2) := RawPhase(l1, cmd.count * cfg.sectorSize, resp.value.logBytes);
      if data.Err? then (Err(data.error), l2) else Finish(cfg, l2, data.value)
  }

  function ProgramSectors(cfg: Config, link: Link, cmd: Command): (r: (Result<seq<byte>>, Link))
    requires cmd.Program?
  {
    var (resp, l1) := ExecuteCommand(cfg, link, cmd);
    if resp.Err? then (Err(resp.error), l1)
    else if !resp.value.ack then (Err(Nak), l1)
    else
      var (ok, w) := WriteStep(l1.wire, cmd.data);
      if !ok then (Err(Io), l1.(wire := w)) else Finish(cfg, l1.(wire := w), [])
  }

  function EraseSectors(cfg: Config, link: Link, cmd: Command): (r: (Result<seq<byte>>, Link))
    requires cmd.Erase?
  {
    var (resp, l1) := ExecuteCommand(cfg, link, cmd);
    if resp.Err? then (Err(resp.error), l1)
    else if !resp.value.ack then (Err(Nak), l1)
    else (Ok([]), l1)
  }

  // ----- The client object -----

  class FirehoseClient {
    const cfg: Config
    const readBuf: array<byte>
    var leftover: seq<byte>

    constructor (cfg: Config)
      ensures this.cfg == cfg && leftover == [] && fresh(readBuf) && readBuf.Length == READ_BUF_SIZE
    {
      this.cfg := cfg;
      leftover := [];
      readBuf := new byte[READ_BUF_SIZE](_ => 0);
    }

    /** One transport read through the reusable buffer; an error counts as an empty read. */
    method Poll(t: Transport) returns (chunk: seq<byte>)
      requires readBuf.Length == READ_BUF_SIZE
      modifies readBuf, t
      ensures chunk == Chunk(ReadStep(old(t.wire), READ_BUF_SIZE).0)
      ensures t.wire == ReadStep(old(t.wire), READ_BUF_SIZE).1
    {
      var got := t.Read(readBuf, 0, READ_BUF_SIZE);
      var n := if got.Got? then got.n else 0;
      chunk := readBuf[0..n];
    }

    method ReadResponseXml(t: Transport) returns (r: Result<seq<byte>>)
      requires readBuf.Length == READ_BUF_SIZE
      modifies this, readBuf, t
      ensures (r, Link(leftover, t.wire)) == ReadResponse(old(Link(leftover, t.wire)))
    {
      var response: seq<byte> := [];
      if leftover != [] {
        response := response + leftover;
        leftover := [];
      }
      ghost var whole := ReadResponse(old(Link(leftover, t.wire)));
      assert response == old(leftover);
      var empties := 0;
      while true
        invariant leftover == [] && empties <= MAX_EMPTY_READS
        invariant whole == Respond(response, empties, t.wire)
        decreases |t.wire.script|, MAX_EMPTY_READS - empties
      {
        ghost var w, before := t.wire, response;
        var silent := t.wire.script == [];
        var chunk := Poll(t);
        ghost var step := OnRead(before, empties, chunk);
        assert whole == if step.Wait? && (!silent || step.empties > 0)
                        then Respond(step.buffer, step.empties, t.wire) else Exit(step, t.wire);
        hide Respond, FrameEnd, LooksComplete, ReadStep;
        if chunk == [] && !(response != [] && LooksComplete(response)) {
          EmptyIsIncomplete();
          empties := empties + 1;
          if empties > MAX_EMPTY_READS {
            return Err(Timeout);
          }
          assert step == Wait(response, empties);
          continue;
        }
        empties := 0;
        response := response + chunk;
        match FrameEnd(response) {
          case Some(end) =>
            assert step == Complete(response, end);
            if end < |response| {
              leftover, response := response[end..], response[..end];
            }
            return Ok(response);
          case None =>
            if |response| > RESPONSE_LIMIT {
              return Err(TooLarge);
            }
            assert step == Wait(response, 0);
        }
        if silent {
          return Err(NeverReturns); // the source loops here for ever
        }
      }
    }

    method Execute(t: Transport, cmd: Command) returns (r: Result<Response>)
      requires readBuf.Length == READ_BUF_SIZE
      modifies this, readBuf, t
      ensures (r, Link(leftover, t.wire)) == ExecuteCommand(cfg, old(Link(leftover, t.wire)), cmd)
    {
      var ok := t.Write(cfg.encode(cmd));
      if !ok {
        return Err(Io);
      }
      var xml := ReadResponseXml(t);
      r := Parse(cfg, xml);
    }

    method FinishWith(t: Transport, value: seq<byte>) returns (r: Result<seq<byte>>)
      requires readBuf.Length == READ_BUF_SIZE
      modifies this, readBuf, t
      ensures (r, Link(leftover, t.wire)) == Finish(cfg, old(Link(leftover, t.wire)), value)
    {
      var xml := ReadResponseXml(t);
      var resp := Parse(cfg, xml);
      if resp.Err? {
        return Err(resp.error);
      }
      r := if resp.value.ack then Ok(value) else Err(Nak);
    }

    /** Place the bytes already in hand at the front of the data buffer. */
    method Gather(data: array<byte>, logBytes: seq<byte>) returns (read: nat)
      requires data != readBuf
      modifies `leftover, data
      ensures var logged := logBytes[..Min(|logBytes|, data.Length)];
              var n := Min(|old(leftover)|, data.Length - |logged|);
              && read == |logged| + n
              && data[..read] == logged + old(leftover)[..n]
              && leftover == old(leftover)[n..]
    {
      read := Min(|logBytes|, data.Length);
      forall i | 0 <= i < read {
        data[i] := logBytes[i];
      }
      var n := Min(|leftover|, data.Length - read);
      forall i | 0 <= i < n {
        data[read + i] := leftover[i];
      }
      leftover := leftover[n..];
      read := read + n;
    }

    /** Read from the transport until the data buffer is full. */
    method FillRaw(t: Transport, data: array<byte>, start: nat) returns (r: Result<seq<byte>>)
      requires start <= data.Length
      modifies t, data
      ensures (r, t.wire) == Collect(old(data[..start]), data.Length, old(t.wire))
    {
      hide Collect, ReadStep;
      var read, total := start, data.Length;
      ghost var whole := Collect(data[..read], total, t.wire);
      while read < total
        invariant read <= total
        invariant whole == Collect(data[..read], total, t.wire)
      {
        ghost var have := data[..read];
        CollectTurn(have, total, t.wire);
        var got := t.Read(data, read, total);
        if got.ReadFailed? {
          return Err(Io);
        }
        if got.n == 0 {
          return Err(Timeout);
        }
        assert data[..read + got.n] == have + data[read..read + got.n];
        read := read + got.n;
      }
      assert data[..read] == data[..];
      CollectDone(data[..], total, t.wire);
      return Ok(data[..]);
    }

    method ReceiveRaw(t: Transport, total: nat, logBytes: seq<byte>) returns (r: Result<seq<byte>>)
      modifies this, t
      ensures (r, Link(leftover, t.wire)) == RawPhase(old(Link(leftover, t.wire)), total, logBytes)
    {
      hide Collect;
      var data := new byte[total](_ => 0);
      var read := Gather(data, logBytes);
      r := FillRaw(t, data, read);
    }

    method ReadFrom(t: Transport, cmd: Command) returns (r: Result<seq<byte>>)
      requires readBuf.Length == READ_BUF_SIZE && cmd.Read?
      modifies this, readBuf, t
      ensures (r, Link(leftover, t.wire)) == ReadSectors(cfg, old(Link(leftover, t.wire)), cmd)
    {
      var resp := Execute(t, cmd);
      if resp.Err? {
        return Err(resp.error);
      }
      if !resp.value.ack {
        return Err(Nak);
      }
      var data := ReceiveRaw(t, cmd.count * cfg.sectorSize, resp.value.logBytes);
      if data.Err? {
        return data;
      }
      r := FinishWith(t, data.value);
    }

    method ProgramFrom(t: Transport, cmd: Command) returns (r: Result<seq<byte>>)
      requires readBuf.Length == READ_BUF_SIZE && cmd.Program?
      modifies this, readBuf, t
      ensures (r, Link(leftover, t.wire)) == ProgramSectors(cfg, old(Link(leftover, t.wire)), cmd)
    {
      var resp := Execute(t, cmd);
      if resp.Err? {
        return Err(resp.error);
      }
      if !resp.value.ack {
        return Err(Nak);
      }
      var ok := t.Write(cmd.data);
      if !ok {
        return Err(Io);
      }
      r := FinishWith(t, []);
    }

    method EraseRange(t: Transport, cmd: Command) returns (r: Result<seq<byte>>)
      requires readBuf.Length == READ_BUF_SIZE && cmd.Erase?
      modifies this, readBuf, t
      ensures (r, Link(leftover, t.wire)) == EraseSectors(cfg, old(Link(leftover, t.wire)), cmd)
    {
      var resp := Execute(t, cmd);
      if resp.Err? {
        return Err(resp.error);
      }
      r := if resp.value.ack then Ok([]) else Err(Nak);
    }
  }
}
