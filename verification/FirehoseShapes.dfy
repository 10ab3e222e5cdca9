/** Responses in the other shapes the scan allows for: without a data element around them, or closed by a tag of
    their own. What it takes for their end depends on the bytes that follow. */
module FirehoseShapes {
  import opened Bytes
  import opened Text
  import opened Firehose
  import opened FirehoseSync

  /** An ASCII text that ends with ">" and starts its only response element at `open`. */
  predicate Element(f: seq<byte>, open: nat)
  {
    && Ascii(f) && f != [] && f[|f| - 1] == 0x3E && open <= |f|
    && Find(ResponseOpen(), f, 0) == Some(open)
  }

  /** A response that ends with its "/>": the device puts no data element around it. */
  predicate BareFrame(f: seq<byte>, open: nat)
  {
    Element(f, open) && |f| >= 2 && Find(SelfClose(), f, open) == Some(|f| - 2)
  }

  /** A response closed by "</response>", inside a data element that ends with the text. */
  predicate PairedFrame(f: seq<byte>, open: nat, close: nat)
  {
    && Element(f, open) && Find(SelfClose(), f, open).None?
    && close + 11 <= |f| && Find(ResponseClose(), f, open) == Some(close)
    && |f| >= 7 && Find(DataClose(), f, close + 11) == Some(|f| - 7)
  }

  /** A token that holds ">" only as its last byte is not found across the end of a text that ends with ">". */
  lemma FindBehind(token: seq<byte>, f: seq<byte>, t: seq<byte>, from: nat)
    requires f != [] && f[|f| - 1] == 0x3E && from <= |f| && Find(token, f, from).None?
    requires token != [] && forall j :: 0 <= j < |token| - 1 ==> token[j] != 0x3E
    ensures Find(token, f + t, from) == match Find(token, t, 0) case None => None case Some(i) => Some(|f| + i)
    decreases |f| - from
  {
    if from == |f| {
      FindShift(token, f, t, 0);
    } else {
      var s := f + t;
      FindIsFirst(token, f, from);
      NotAcross(token, f, t, from);
      LaterSearch(token, f, from);
      FindBehind(token, f, t, from + 1);
      FindIsFirst(token, s, from);
      SkipsOne(token, s, from);
    }
  }

  lemma NotAcross(token: seq<byte>, f: seq<byte>, t: seq<byte>, k: nat)
    requires f != [] && f[|f| - 1] == 0x3E && k < |f| && !OccursAt(token, f, k)
    requires token != [] && forall j :: 0 <= j < |token| - 1 ==> token[j] != 0x3E
    ensures !OccursAt(token, f + t, k)
  {
    var s, n := f + t, |token|;
    if k + n <= |f| {
      assert f[k..k + n] == s[k..k + n];
    } else if k + n <= |s| {
      assert s[k..k + n][|f| - 1 - k] == 0x3E;
    }
  }

  lemma LaterSearch(token: seq<byte>, s: seq<byte>, from: nat)
    requires from < |s| && Find(token, s, from).None?
    ensures Find(token, s, from + 1).None?
  {
    FindIsFirst(token, s, from);
    FindIsFirst(token, s, from + 1);
  }

  lemma SkipsOne(token: seq<byte>, s: seq<byte>, from: nat)
    requires from < |s| && !OccursAt(token, s, from)
    ensures Find(token, s, from) == Find(token, s, from + 1)
  {
  }

  /** A bare response is cut at its own end exactly when no "</data>" follows it in the buffer; otherwise it swallows
      everything up to and including the first one. */
  lemma BareFrameCut(f: seq<byte>, open: nat, rest: seq<byte>)
    requires BareFrame(f, open)
    ensures FrameEnd(f + rest) ==
            match Find(DataClose(), Lossy(rest), 0)
            case None => Some(|f|)
            case Some(i) => Some(|f| + i + 7)
  {
    hide Find, Lossy, ResponseOpen, SelfClose, ResponseClose, DataClose;
    var t := Lossy(rest);
    LossyAscii(f, rest);
    FindPrefix(ResponseOpen(), f, f + t, 0);
    FindPrefix(SelfClose(), f, f + t, open);
    FindShift(DataClose(), f, t, 0);
  }

  /** A response closed by its own tag is cut at its own end exactly when no "/>" follows it in the buffer; otherwise
      the cut is at the first one that does, or at the first "</data>" behind that. */
  lemma PairedFrameCut(f: seq<byte>, open: nat, close: nat, rest: seq<byte>)
    requires PairedFrame(f, open, close)
    ensures FrameEnd(f + rest) ==
            match Find(SelfClose(), Lossy(rest), 0)
            case None => Some(|f|)
            case Some(i) =>
              match Find(DataClose(), Lossy(rest), i + 2)
              case None => Some(|f| + i + 2)
              case Some(j) => Some(|f| + j + 7)
  {
    OnlyLast();
    hide Find, Lossy, ResponseOpen, SelfClose, ResponseClose, DataClose;
    var t := Lossy(rest);
    LossyAscii(f, rest);
    FindPrefix(ResponseOpen(), f, f + t, 0);
    FindBehind(SelfClose(), f, t, open);
    var self := Find(SelfClose(), t, 0);
    if self.None? {
      FindPrefix(ResponseClose(), f, f + t, open);
      FindPrefix(DataClose(), f, f + t, close + 11);
    } else {
      FindShift(DataClose(), f, t, self.value + 2);
    }
  }

  lemma OnlyLast()
    ensures forall j :: 0 <= j < |SelfClose()| - 1 ==> SelfClose()[j] != 0x3E
  {
  }

  /** The smallest response of either shape. */
  lemma SmallestBare()
    ensures BareFrame(ResponseOpen() + SelfClose(), 0)
  {
    hide Find;
    var f := ResponseOpen() + SelfClose();
    assert f[0..10] == ResponseOpen() && f[10..12] == SelfClose();
    FirstAt(ResponseOpen(), f, 0, 0);
    forall k: nat | k < 10
      ensures !OccursAt(SelfClose(), f, k)
    {
      NotAt(SelfClose(), f, k);
    }
    FirstAt(SelfClose(), f, 0, 10);
  }

  lemma SmallestPaired()
    ensures PairedFrame(ResponseOpen() + [0x3E] + ResponseClose() + DataClose(), 0, 11)
  {
    hide Find;
    var f := ResponseOpen() + [0x3E] + ResponseClose() + DataClose();
    assert f[0..10] == ResponseOpen() && f[11..22] == ResponseClose() && f[22..29] == DataClose();
    FirstAt(ResponseOpen(), f, 0, 0);
    NoTokenBefore(f);
    FirstAt(ResponseClose(), f, 0, 11);
    FirstAt(DataClose(), f, 22, 22);
    Nowhere(SelfClose(), f, 0);
  }

  lemma NoTokenBefore(f: seq<byte>)
    requires f == ResponseOpen() + [0x3E] + ResponseClose() + DataClose()
    ensures forall k: nat :: k < 11 ==> !OccursAt(ResponseClose(), f, k)
    ensures forall k: nat :: !OccursAt(SelfClose(), f, k)
  {
    forall k: nat
      ensures k < 11 ==> !OccursAt(ResponseClose(), f, k)
      ensures !OccursAt(SelfClose(), f, k)
    {
      NotAt(SelfClose(), f, k);
      if k < 11 {
        NotAt(ResponseClose(), f, k);
      }
    }
  }
}
