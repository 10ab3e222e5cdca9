/** The transport: a byte stream the host reads in fragments it cannot choose. */
module Port {
  import opened Bytes

  /** What the next read finds: up to n bytes, nothing yet, or an error. */
  datatype ReadEvent = Deliver(n: nat) | Quiet | Fault

  /** One end of the link. `script` fixes how the device's bytes are cut into reads; after it the
      device stays quiet for ever. `cuts` records, for each read that delivered something, how many
      bytes were still undelivered afterwards. */
  datatype Wire = Wire(
    incoming: seq<byte>,
    script: seq<ReadEvent>,
    writeFaults: seq<bool>,
    sent: seq<seq<byte>>,
    cuts: seq<nat>)

  datatype Input = Data(bytes: seq<byte>) | Broken

  function ReadStep(w: Wire, cap: nat): (r: (Input, Wire))
    ensures r.0.Data? ==> r.0.bytes + r.1.incoming == w.incoming && |r.0.bytes| <= cap
    ensures r.0.Broken? ==> r.1.incoming == w.incoming
    ensures r.1.sent == w.sent && r.1.writeFaults == w.writeFaults && w.cuts <= r.1.cuts
    ensures w.script != [] ==> r.1.script == w.script[1..]
    ensures w.script == [] ==> r == (Data([]), w)
    ensures r.1.incoming == w.incoming ==> r.1.cuts == w.cuts
    ensures r.1.incoming != w.incoming ==> r.1.cuts == w.cuts + [|r.1.incoming|]
  {
    if w.script == [] then (Data([]), w)
    else
      var w' := w.(script := w.script[1..]);
      match w.script[0]
      case Quiet => (Data([]), w')
      case Fault => (Broken, w')
      case Deliver(n) =>
        var k := Min(n, Min(cap, |w.incoming|));
        if k == 0 then (Data([]), w')
        else (Data(w.incoming[..k]), w'.(incoming := w.incoming[k..], cuts := w.cuts + [|w.incoming| - k]))
  }

  function WriteStep(w: Wire, bytes: seq<byte>): (r: (bool, Wire))
    ensures r.1.incoming == w.incoming && r.1.script == w.script && r.1.cuts == w.cuts
    ensures r.1.sent == if r.0 then w.sent + [bytes] else w.sent
  {
    if w.writeFaults == [] then (true, w.(sent := w.sent + [bytes]))
    else if w.writeFaults[0] then (false, w.(writeFaults := w.writeFaults[1..]))
    else (true, w.(writeFaults := w.writeFaults[1..], sent := w.sent + [bytes]))
  }

  /** `read_exact`: keep reading until the buffer is full; an empty read or an error gives up. */
  function ReadExact(w: Wire, need: nat): (r: (Option<seq<byte>>, Wire))
    decreases need
    ensures r.0.Some? ==> |r.0.value| == need && r.0.value + r.1.incoming == w.incoming
    ensures r.1.sent == w.sent && r.1.writeFaults == w.writeFaults
    ensures |r.1.incoming| <= |w.incoming|
  {
    if need == 0 then (Some([]), w)
    else
      var (input, w') := ReadStep(w, need);
      if input.Broken? || input.bytes == [] then (None, w')
      else
        var r := ReadExact(w', need - |input.bytes|);
        if r.0.None? then (None, r.1)
        else
          AppendAssoc(input.bytes, r.0.value, r.1.incoming);
          (Some(input.bytes + r.0.value), r.1)
  }

  /** A schedule without quiet spells or errors, however small its fragments. */
  predicate Flowing(script: seq<ReadEvent>)
  {
    forall i :: 0 <= i < |script| ==> script[i].Deliver? && script[i].n > 0
  }

  /** Reads that keep coming, each with at least one byte, and writes that do not fail. */
  predicate Plentiful(w: Wire)
  {
    Flowing(w.script) && |w.script| >= |w.incoming| && w.writeFaults == []
  }

  lemma PlentifulStep(w: Wire, cap: nat)
    requires Plentiful(w) && cap > 0
    ensures var (input, w') := ReadStep(w, cap);
            Plentiful(w') && input.Data? && (input.bytes == [] <==> w.incoming == [])
  {
  }

  ghost function Prepend(head: seq<byte>, r: (Option<seq<byte>>, Wire)): (Option<seq<byte>>, Wire)
  {
    if r.0.None? then r else (Some(head + r.0.value), r.1)
  }

  lemma ExactNothing(w: Wire)
    ensures ReadExact(w, 0) == (Some([]), w)
  {
  }

  lemma ExactTurn(w: Wire, need: nat)
    requires need > 0
    ensures var (input, w') := ReadStep(w, need);
            ReadExact(w, need) ==
            if input.Broken? || input.bytes == [] then (None, w')
            else Prepend(input.bytes, ReadExact(w', need - |input.bytes|))
  {
  }

  lemma PrependTwice(a: seq<byte>, b: seq<byte>, r: (Option<seq<byte>>, Wire))
    ensures Prepend(a, Prepend(b, r)) == Prepend(a + b, r)
  {
    if r.0.Some? {
      assert a + (b + r.0.value) == a + b + r.0.value;
    }
  }

  lemma FlowStep(w: Wire, need: nat)
    requires 0 < need <= |w.incoming| && Flowing(w.script) && |w.script| >= |w.incoming|
    ensures var (input, w') := ReadStep(w, need);
            && input.Data? && input.bytes != [] && |input.bytes| <= need
            && input.bytes == w.incoming[..|input.bytes|] && w'.incoming == w.incoming[|input.bytes|..]
            && Flowing(w'.script) && |w'.script| >= |w'.incoming|
  {
  }

  /** On a flowing schedule the next `need` bytes arrive whole, whatever the fragmentation. */
  lemma {:induction false} ReadExactFlows(w: Wire, need: nat)
    requires need <= |w.incoming| && Flowing(w.script) && |w.script| >= |w.incoming|
    ensures var (r, w') := ReadExact(w, need);
            && r == Some(w.incoming[..need])
            && w'.incoming == w.incoming[need..]
            && Flowing(w'.script) && |w'.script| >= |w'.incoming|
    decreases need
  {
    if need == 0 {
      ExactNothing(w);
    } else {
      ExactTurn(w, need);
      FlowStep(w, need);
      hide ReadExact, ReadStep, Flowing;
      var (input, w') := ReadStep(w, need);
      var k := |input.bytes|;
      ReadExactFlows(w', need - k);
      assert w.incoming[..k] + w.incoming[k..][..need - k] == w.incoming[..need];
    }
  }

  datatype ReadResult = Got(n: nat) | ReadFailed

  class Transport {
    var wire: Wire

    constructor (w: Wire)
      ensures wire == w
    {
      wire := w;
    }

    method Read(buf: array<byte>, lo: nat, hi: nat) returns (r: ReadResult)
      requires lo <= hi <= buf.Length
      modifies this, buf
      ensures wire == ReadStep(old(wire), hi - lo).1
      ensures var input := ReadStep(old(wire), hi - lo).0;
              if input.Broken? then
                r == ReadFailed && buf[..] == old(buf[..])
              else
                && r == Got(|input.bytes|)
                && buf[lo..lo + |input.bytes|] == input.bytes
                && buf[..lo] == old(buf[..lo])
                && buf[lo + |input.bytes|..] == old(buf[lo + |input.bytes|..])
    {
      var (input, after) := ReadStep(wire, hi - lo);
      wire := after;
      match input
      case Broken => r := ReadFailed;
      case Data(bytes) =>
        forall i | 0 <= i < |bytes| {
          buf[lo + i] := bytes[i];
        }
        r := Got(|bytes|);
    }

    method Write(bytes: seq<byte>) returns (ok: bool)
      modifies this
      ensures (ok, wire) == WriteStep(old(wire), bytes)
    {
      var step := WriteStep(wire, bytes);
      ok, wire := step.0, step.1;
    }

    method FillExactly(buf: array<byte>) returns (ok: bool)
      modifies this, buf
      ensures var (r, after) := ReadExact(old(wire), buf.Length);
              wire == after && ok == r.Some? && (ok ==> buf[..] == r.value)
    {
      hide ReadExact, ReadStep;
      ghost var whole := ReadExact(wire, buf.Length);
      var pos := 0;
      assert whole.0.Some? ==> buf[..pos] + whole.0.value == whole.0.value;
      while pos < buf.Length
        invariant pos <= buf.Length
        invariant whole == Prepend(buf[..pos], ReadExact(wire, buf.Length - pos))
      {
        ghost var before := buf[..pos];
        ExactTurn(wire, buf.Length - pos);
        var r := Read(buf, pos, buf.Length);
        if r.ReadFailed? || r.n == 0 {
          return false;
        }
        assert buf[..pos + r.n] == before + buf[pos..pos + r.n];
        PrependTwice(before, buf[pos..pos + r.n], ReadExact(wire, buf.Length - pos - r.n));
        pos := pos + r.n;
      }
      ExactNothing(wire);
      assert buf[..pos] == buf[..];
      assert buf[..] + [] == buf[..];
      return true;
    }
  }
}
