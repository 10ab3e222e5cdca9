/** DIAG packets: the CRC-16 that seals them, the byte stuffing, and the frames on the line. */
module Diag {
  import opened Bytes
  import opened Lfsr

  const FLAG: byte := 0x7E
  const ESCAPE: byte := 0x7D
  const GOOD_FCS: nat := 0x0F47

  // ----- CRC-16 -----

  /** The generator 0x1021, highest coefficient first. */
  function Poly(): (poly: Bits)
    ensures |poly| == 16 && poly[15]
  {
    [false, false, false, true, false, false, false, false] +
    [false, false, true, false, false, false, false, true]
  }

  /** Read as a register, lowest bit first, the generator is the word the loop adds. */
  lemma PolyIsTheWord()
    ensures ToNat(Poly()) == 0x8408
  {
    hide ToNat, Pow2;
    var a := [false, false, false, true, false, false, false, false];
    var b := [false, false, true, false, false, false, false, true];
    ToNatOfEight(a);
    ToNatOfEight(b);
    ToNatAppend(a, b);
    EightBits();
  }

  function Checksum(data: seq<byte>): (crc: nat)
  {
    Crc(Poly(), data)
  }

  /** Adding a byte to the register and shifting eight times is feeding the byte's bits. */
  lemma AddedByteIsFed(r: Bits, b: byte)
    requires |r| == 16
    ensures Steps(Poly(), Xor(r, NatBits(b as nat, 16)), 8) == FeedAll(Poly(), r, ByteBits(b))
  {
    hide Poly, FeedAll, Steps;
    ShiftsFeedBits(Poly(), r, ByteBits(b));
    EightBits();
    NatBitsPad(b as nat, 8, 8);
  }

  method Crc16Ccitt(data: seq<byte>) returns (crc: nat)
    ensures crc == Checksum(data)
  {
    hide Poly, RegisterAfter, FeedAll, NatBits, Xor, Shift, Ones, Pow2;
    var reg := Ones(16);
    RegisterOfNothing(Poly());
    for i := 0 to |data|
      invariant |reg| == 16 && reg == RegisterAfter(Poly(), data[..i])
    {
      RegisterOneMore(Poly(), data[..i], data[i]);
      AddedByteIsFed(reg, data[i]);
      assert data[..i + 1] == data[..i] + [data[i]];
      reg := Xor(reg, NatBits(data[i] as nat, 16));
      for j := 0 to 8
        invariant |reg| == 16 && Steps(Poly(), reg, 8 - j) == RegisterAfter(Poly(), data[..i + 1])
      {
        if reg[0] {
          reg := Xor(Shift(reg), Poly());
        } else {
          reg := Shift(reg);
        }
      }
    }
    assert data[..|data|] == data;
    crc := ToNat(Xor(reg, Ones(16)));
  }

  lemma ChecksumFits(data: seq<byte>)
    ensures Checksum(data) < Pow256(2)
  {
    CrcFits(Poly(), data);
    EightBits();
    Pow2Add(8, 8);
  }

  /** One shift written out: the low bit is added where the generator has terms. */
  function Shifted(r: Bits): (r': Bits)
    requires |r| == 16
    ensures |r'| == 16
  {
    [r[1], r[2], r[3], r[4] != r[0], r[5], r[6], r[7], r[8],
     r[9], r[10], r[11] != r[0], r[12], r[13], r[14], r[15], r[0]]
  }

  lemma StepTaken(r: Bits, n: nat)
    requires |r| == 16
    ensures Steps(Poly(), r, n + 1) == Steps(Poly(), Shifted(r), n)
  {
    assert Step(Poly(), r) == Shifted(r);
  }

  /** Sixteen shifts of the all-ones register leave the good-FCS register of RFC 1662, 0xF0B8. */
  lemma OnesShiftToGoodFcs()
    ensures ToNat(Xor(Steps(Poly(), Ones(16), 16), Ones(16))) == GOOD_FCS
  {
    hide Poly, Steps, ToNat, Pow2;
    var s0 := Ones(16);
    var s1 := Shifted(s0); StepTaken(s0, 15);
    var s2 := Shifted(s1); StepTaken(s1, 14);
    var s3 := Shifted(s2); StepTaken(s2, 13);
    var s4 := Shifted(s3); StepTaken(s3, 12);
    var s5 := Shifted(s4); StepTaken(s4, 11);
    var s6 := Shifted(s5); StepTaken(s5, 10);
    var s7 := Shifted(s6); StepTaken(s6, 9);
    var s8 := Shifted(s7); StepTaken(s7, 8);
    var s9 := Shifted(s8); StepTaken(s8, 7);
    var s10 := Shifted(s9); StepTaken(s9, 6);
    var s11 := Shifted(s10); StepTaken(s10, 5);
    var s12 := Shifted(s11); StepTaken(s11, 4);
    var s13 := Shifted(s12); StepTaken(s12, 3);
    var s14 := Shifted(s13); StepTaken(s13, 2);
    var s15 := Shifted(s14); StepTaken(s14, 1);
    var s16 := Shifted(s15); StepTaken(s15, 0);
    assert Steps(Poly(), s16, 0) == s16 by { StepsNone(Poly(), s16); }
    var good := Xor(s16, Ones(16));
    var low, high := good[..8], good[8..];
    assert good == low + high;
    ToNatOfEight(low);
    ToNatOfEight(high);
    ToNatAppend(low, high);
    EightBits();
  }

  /** Appending its own two checksum bytes gives every message the same checksum. */
  lemma SealedChecksum(data: seq<byte>)
    ensures Checksum(data + LeBytes(Checksum(data), 2)) == GOOD_FCS
  {
    hide Poly, FeedAll, Steps, MessageBits, LeBytes, ToNat;
    var r := RegisterAfter(Poly(), data);
    var crc := Xor(r, Ones(16));
    var tail := LeBytes(Checksum(data), 2);
    RegisterAsBytes(crc, 2);
    MessageBitsAppend(data, tail);
    FeedAppend(Poly(), Ones(16), MessageBits(data), crc);
    ShiftsFeedBits(Poly(), r, crc);
    assert Xor(r, Pad(crc, 16)) == Ones(16);
    OnesShiftToGoodFcs();
  }

  /** Two bytes after a message give it the good checksum exactly when they are the message's own. */
  lemma GoodChecksumIsSealed(data: seq<byte>, tail: seq<byte>)
    requires |tail| == 2
    ensures Checksum(data + tail) == GOOD_FCS <==> tail == LeBytes(Checksum(data), 2)
  {
    SealedChecksum(data);
    var own := LeBytes(Checksum(data), 2);
    if tail != own {
      ShortChangesAreSeen(Poly(), data, tail, own, []);
      assert data + tail + [] == data + tail && data + own + [] == data + own;
    }
  }

  // ----- Byte stuffing -----

  function EscapeByte(b: byte): (s: seq<byte>)
  {
    if b == FLAG then [ESCAPE, 0x5E] else if b == ESCAPE then [ESCAPE, 0x5D] else [b]
  }

  function Escape(payload: seq<byte>): (s: seq<byte>)
  {
    if payload == [] then [] else EscapeByte(payload[0]) + Escape(payload[1..])
  }

  /** What stuffing does, byte by byte. */
  lemma StuffedByte(a: seq<byte>, b: byte, c: seq<byte>)
    ensures Escape(a + [b] + c) ==
            Escape(a) + (if b == 0x7E then [0x7D, 0x5E] else if b == 0x7D then [0x7D, 0x5D] else [b]) + Escape(c)
  {
    EscapeAppend(a + [b], c);
    EscapeOneMore(a, b);
  }

  lemma {:induction false} EscapeAppend(a: seq<byte>, b: seq<byte>)
    ensures Escape(a + b) == Escape(a) + Escape(b)
  {
    if a == [] {
      assert a + b == b;
    } else {
      assert (a + b)[1..] == a[1..] + b;
      EscapeAppend(a[1..], b);
    }
  }

  lemma EscapeOneMore(payload: seq<byte>, b: byte)
    ensures Escape(payload + [b]) == Escape(payload) + EscapeByte(b)
  {
    EscapeAppend(payload, [b]);
    assert [b][1..] == [] && EscapeByte(b) + [] == EscapeByte(b);
  }

  lemma NothingEscaped()
    ensures Escape([]) == []
  {
  }

  method HdlcEscape(payload: seq<byte>) returns (out: seq<byte>)
    ensures out == Escape(payload)
  {
    hide Escape;
    out := [];
    NothingEscaped();
    for i := 0 to |payload|
      invariant out == Escape(payload[..i])
    {
      var b := payload[i];
      EscapeOneMore(payload[..i], b);
      assert payload[..i + 1] == payload[..i] + [b];
      if b == 0x7E {
        out := out + [0x7D];
        out := out + [0x5E];
        assert [ESCAPE] + [0x5E] == EscapeByte(b);
      } else if b == 0x7D {
        out := out + [0x7D];
        out := out + [0x5D];
        assert [ESCAPE] + [0x5D] == EscapeByte(b);
      } else {
        out := out + [b];
      }
    }
    assert payload[..|payload|] == payload;
  }

  /** Exclusive-or with 0x20. */
  function Toggle(b: byte): (c: byte)
  {
    if (b / 32) % 2 == 1 then b - 32 else b + 32
  }

  /** Removing the stuffing, RFC 1662 section 4.2: an escape is dropped and the byte after it toggled. An
      escape with nothing after it is an aborted frame. */
  function Unescape(s: seq<byte>): (payload: Option<seq<byte>>)
  {
    if s == [] then Some([])
    else if s[0] != ESCAPE then
      var rest := Unescape(s[1..]);
      if rest.None? then None else Some([s[0]] + rest.value)
    else if |s| == 1 then None
    else
      var rest := Unescape(s[2..]);
      if rest.None? then None else Some([Toggle(s[1])] + rest.value)
  }

  lemma {:induction false} UnescapeEscape(payload: seq<byte>)
    ensures Unescape(Escape(payload)) == Some(payload)
  {
    if payload != [] {
      var head, rest := EscapeByte(payload[0]), Escape(payload[1..]);
      UnescapeEscape(payload[1..]);
      assert (head + rest)[|head|..] == rest;
      assert payload == [payload[0]] + payload[1..];
    }
  }

  lemma {:induction false} NoFlagInside(payload: seq<byte>)
    ensures 0x7E !in Escape(payload)
  {
    if payload != [] {
      NoFlagInside(payload[1..]);
    }
  }

  // ----- Frames -----

  datatype Message = Message(cmd: byte, payload: seq<byte>)

  function Body(m: Message): (body: seq<byte>)
  {
    [m.cmd] + m.payload + LeBytes(Checksum([m.cmd] + m.payload), 2)
  }

  function Frame(m: Message): (frame: seq<byte>)
  {
    [FLAG] + Escape(Body(m)) + [FLAG]
  }

  method DiagFrame(cmd: byte, payload: seq<byte>) returns (frame: seq<byte>)
    ensures frame == Frame(Message(cmd, payload))
  {
    hide Checksum, Escape;
    var data := [cmd];
    data := data + payload;
    var crc := Crc16Ccitt(data);
    ChecksumFits(data);
    assert Pow256(2) == 65536;
    var low, high := (crc % 256) as byte, (crc / 256) as byte;
    assert LeBytes(crc, 2) == [low] + [high];
    data := data + [low];
    data := data + [high];
    assert data == Body(Message(cmd, payload));
    var escaped := HdlcEscape(data);
    frame := [0x7E];
    frame := frame + escaped;
    frame := frame + [0x7E];
  }

  /** A frame on the line: the flag 0x7E at both ends, and nowhere else. */
  lemma FlagsAtEnds(m: Message)
    ensures var frame := Frame(m);
            && |frame| >= 2 && frame[0] == frame[|frame| - 1] == 0x7E
            && forall i :: 0 < i < |frame| - 1 ==> frame[i] != 0x7E
  {
    hide Escape, Body;
    NoFlagInside(Body(m));
    var inner, frame := Escape(Body(m)), Frame(m);
    assert forall i :: 0 < i < |frame| - 1 ==> frame[i] == inner[i - 1];
  }

  /** What a receiver makes of the bytes between two flags. */
  function Open(escaped: seq<byte>): (m: Option<Message>)
  {
    var body := Unescape(escaped);
    if body.None? || |body.value| < 3 || Checksum(body.value) != GOOD_FCS then None
    else Some(Message(body.value[0], body.value[1..|body.value| - 2]))
  }

  lemma FrameOpens(m: Message)
    ensures Open(Escape(Body(m))) == Some(m)
  {
    hide Checksum, Escape, Unescape, LeBytes;
    UnescapeEscape(Body(m));
    SealedChecksum([m.cmd] + m.payload);
    assert Body(m)[0] == m.cmd && Body(m)[1..|Body(m)| - 2] == m.payload;
  }

  /** A frame body changed within two adjacent bytes is refused. */
  lemma DamagedFrameIsRefused(m: Message, before: seq<byte>, v: seq<byte>, w: seq<byte>, after: seq<byte>)
    requires Body(m) == before + v + after && |v| == |w| <= 2 && v != w
    ensures Open(Escape(before + w + after)) == None
  {
    hide Crc, Poly, Escape, Unescape, LeBytes;
    UnescapeEscape(before + w + after);
    SealedChecksum([m.cmd] + m.payload);
    ShortChangesAreSeen(Poly(), before, v, w, after);
  }

  function NextFlag(s: seq<byte>, from: nat): (at: nat)
    requires from <= |s|
    ensures from <= at <= |s| && (at < |s| ==> s[at] == FLAG)
    ensures forall i :: from <= i < at ==> s[i] != FLAG
    decreases |s| - from
  {
    if from == |s| || s[from] == FLAG then from else NextFlag(s, from + 1)
  }

  /** A receiver on a stream of frames: a flag, the bytes up to the next flag, and on with what follows. */
  function Receive(s: seq<byte>): (messages: Option<seq<Message>>)
  {
    if s == [] then Some([])
    else if s[0] != FLAG || NextFlag(s, 1) == |s| then None
    else
      var end := NextFlag(s, 1);
      var m, rest := Open(s[1..end]), Receive(s[end + 1..]);
      if m.None? || rest.None? then None else Some([m.value] + rest.value)
  }

  function Frames(messages: seq<Message>): (s: seq<byte>)
  {
    if messages == [] then [] else Frame(messages[0]) + Frames(messages[1..])
  }

  /** The frame in front of a stream. */
  lemma ReceivesFirst(m: Message, rest: seq<byte>)
    ensures Receive(Frame(m) + rest) ==
            match Receive(rest) case None => None case Some(later) => Some([m] + later)
  {
    hide Open, Escape, Body;
    var inner, s := Escape(Body(m)), Frame(m) + rest;
    NoFlagInside(Body(m));
    FrameOpens(m);
    assert s == [FLAG] + inner + [FLAG] + rest;
    FlagAfter(s, inner, rest);
    hide NextFlag;
    assert s[0] == FLAG && s[1..1 + |inner|] == inner && s[|inner| + 2..] == rest;
  }

  /** Any run of frames comes apart into exactly the messages that were framed. */
  lemma {:induction false} FramesSplit(messages: seq<Message>)
    ensures Receive(Frames(messages)) == Some(messages)
  {
    if messages != [] {
      hide Receive, Frame;
      ReceivesFirst(messages[0], Frames(messages[1..]));
      FramesSplit(messages[1..]);
      assert messages == [messages[0]] + messages[1..];
    }
  }

  lemma FlagAfter(s: seq<byte>, inner: seq<byte>, rest: seq<byte>)
    requires s == [FLAG] + inner + [FLAG] + rest && FLAG !in inner
    ensures NextFlag(s, 1) == 1 + |inner|
  {
    assert s[1 + |inner|] == FLAG && forall i :: 1 <= i < 1 + |inner| ==> s[i] == inner[i - 1];
  }

  /** Framing loses nothing: equal streams come from equal messages, and so do equal frames. */
  lemma FramesInjective(a: seq<Message>, b: seq<Message>)
    requires Frames(a) == Frames(b)
    ensures a == b
  {
    FramesSplit(a);
    FramesSplit(b);
  }
}
