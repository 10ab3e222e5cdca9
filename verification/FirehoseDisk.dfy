/** The Firehose client talking to a device that keeps a disk: what callers see over the wire is the disk. */
module FirehoseDisk {
  import opened Bytes
  import opened Disk
  import opened Context
  import opened Port
  import opened Firehose
  import opened FirehoseSync
  import opened FirehoseTorn

  /** The two frames this device answers with. */
  datatype Frames = Frames(ack: seq<byte>, nak: seq<byte>)

  predicate GoodFrames(cfg: Config, fs: Frames)
  {
    && GoodFrame(cfg, fs.ack) && Acked(cfg, fs.ack) && cfg.parse(fs.ack).value.logBytes == []
    && GoodFrame(cfg, fs.nak) && !Acked(cfg, fs.nak)
  }

  /** The sectors a command needs, and for a program the right amount of data. */
  predicate Serveable(cfg: Config, d: Storage, cmd: Command)
  {
    && Present(d, cmd.lun, cmd.start, cmd.count)
    && (cmd.Program? ==> |cmd.data| == cmd.count * cfg.sectorSize)
  }

  function DiskAfter(cfg: Config, d: Storage, cmd: Command): (d': Storage)
    ensures d'.Keys == d.Keys
  {
    if !Serveable(cfg, d, cmd) then d
    else
      match cmd
      case Read(_, _, _) => d
      case Program(lun, start, count, data) => Put(d, lun, start, Cut(data, count, cfg.sectorSize))
      case Erase(lun, start, count) => Put(d, lun, start, ZeroSectors(count, cfg.sectorSize))
  }

  /** What a caller should see of one command on a disk. */
  function DiskResult(cfg: Config, d: Storage, cmd: Command): (r: Result<seq<byte>>)
  {
    if !Serveable(cfg, d, cmd) then Err(Nak)
    else if cmd.Read? then Ok(RangeBytes(d, cmd.lun, cmd.start, cmd.count))
    else Ok([])
  }

  function DiskReply(cfg: Config, fs: Frames, d: Storage, cmd: Command): (reply: Reply)
  {
    if !Serveable(cfg, d, cmd) then Reply(fs.nak, [], [])
    else Reply(fs.ack, if cmd.Read? then RangeBytes(d, cmd.lun, cmd.start, cmd.count) else [], fs.ack)
  }

  function DiskReplies(cfg: Config, fs: Frames, d: Storage, cmds: seq<Command>): (replies: seq<Reply>)
    ensures |replies| == |cmds|
    decreases |cmds|
  {
    if cmds == [] then []
    else [DiskReply(cfg, fs, d, cmds[0])] + DiskReplies(cfg, fs, DiskAfter(cfg, d, cmds[0]), cmds[1..])
  }

  function DiskResults(cfg: Config, d: Storage, cmds: seq<Command>): (results: seq<Result<seq<byte>>>)
    decreases |cmds|
  {
    if cmds == [] then []
    else [DiskResult(cfg, d, cmds[0])] + DiskResults(cfg, DiskAfter(cfg, d, cmds[0]), cmds[1..])
  }

  lemma DiskStaysUniform(cfg: Config, d: Storage, cmd: Command)
    requires UniformSectors(d, cfg.sectorSize)
    ensures UniformSectors(DiskAfter(cfg, d, cmd), cfg.sectorSize)
  {
    if Serveable(cfg, d, cmd) {
      match cmd
      case Read(_, _, _) =>
      case Program(lun, start, count, data) =>
        CutSectorSizes(data, count, cfg.sectorSize);
        PutKeepsSizes(d, lun, start, Cut(data, count, cfg.sectorSize), cfg.sectorSize);
      case Erase(lun, start, count) =>
        PutKeepsSizes(d, lun, start, ZeroSectors(count, cfg.sectorSize), cfg.sectorSize);
    }
  }

  lemma DiskReplyIsGood(cfg: Config, fs: Frames, d: Storage, cmd: Command)
    requires GoodFrames(cfg, fs) && UniformSectors(d, cfg.sectorSize)
    ensures GoodReply(cfg, cmd, DiskReply(cfg, fs, d, cmd))
    ensures Expected(cfg, cmd, DiskReply(cfg, fs, d, cmd)) == DiskResult(cfg, d, cmd)
  {
    hide Frame, RangeBytes, UniformSectors, Present;
    if Serveable(cfg, d, cmd) && cmd.Read? {
      RangeLength(d, cmd.lun, cmd.start, cmd.count, cfg.sectorSize);
      var bytes := RangeBytes(d, cmd.lun, cmd.start, cmd.count);
      assert [] + bytes == bytes;
    }
  }

  lemma {:induction false} DiskRepliesAreGood(cfg: Config, fs: Frames, d: Storage, cmds: seq<Command>)
    requires GoodFrames(cfg, fs) && UniformSectors(d, cfg.sectorSize)
    ensures GoodReplies(cfg, cmds, DiskReplies(cfg, fs, d, cmds))
    ensures AllExpected(cfg, cmds, DiskReplies(cfg, fs, d, cmds)) == DiskResults(cfg, d, cmds)
    decreases |cmds|
  {
    hide GoodReply, Expected, DiskReply, DiskResult, DiskAfter, UniformSectors, GoodFrames;
    if cmds != [] {
      DiskReplyIsGood(cfg, fs, d, cmds[0]);
      DiskStaysUniform(cfg, d, cmds[0]);
      var d' := DiskAfter(cfg, d, cmds[0]);
      DiskRepliesAreGood(cfg, fs, d', cmds[1..]);
      var first, others := DiskReply(cfg, fs, d, cmds[0]), DiskReplies(cfg, fs, d', cmds[1..]);
      assert DiskReplies(cfg, fs, d, cmds)[1..] == others;
      forall i | 0 <= i < |cmds|
        ensures GoodReply(cfg, cmds[i], ([first] + others)[i])
      {
        if i > 0 {
          assert cmds[i] == cmds[1..][i - 1];
        }
      }
    }
  }

  /** The device's whole output for a run of commands. */
  ghost function DiskParts(cfg: Config, fs: Frames, d: Storage, cmds: seq<Command>): (parts: seq<Part>)
    requires GoodFrames(cfg, fs) && UniformSectors(d, cfg.sectorSize)
    ensures WellFormed(parts)
  {
    DiskRepliesAreGood(cfg, fs, d, cmds);
    AllParts(cfg, cmds, DiskReplies(cfg, fs, d, cmds))
  }

  lemma {:induction false} ExpectedAt(cfg: Config, cmds: seq<Command>, replies: seq<Reply>, i: nat)
    requires |cmds| == |replies| && i < |cmds|
    ensures AllExpected(cfg, cmds, replies)[i] == Expected(cfg, cmds[i], replies[i])
  {
    hide Expected;
    if i > 0 {
      ExpectedAt(cfg, cmds[1..], replies[1..], i - 1);
    }
  }

  /** Every run of reads, programs and erases shows the caller the device's disk as the commands before left
      it, on every schedule on which no read ends inside a frame's tail: each result is the disk's, only a lost
      link can end the run early, and on a plentiful link nothing does; on one with pauses of up to ten empty
      reads in a row only a pause within the raw bytes of a read does. A command the disk cannot serve is
      refused and changes nothing. */
  lemma RunServesDisk(cfg: Config, fs: Frames, d: Storage, link: Link, cmds: seq<Command>)
    requires GoodFrames(cfg, fs) && UniformSectors(d, cfg.sectorSize)
    requires InStep(link, DiskParts(cfg, fs, d, cmds))
    requires Clean(DiskParts(cfg, fs, d, cmds), PerformAll(cfg, link, cmds).1.wire.cuts)
    ensures var results, onDisk := PerformAll(cfg, link, cmds).0, DiskResults(cfg, d, cmds);
            && |results| <= |onDisk| == |cmds|
            && (forall i :: 0 <= i < |results| ==>
                  results[i] == onDisk[i] || (i == |results| - 1 && LinkLost(results[i])))
            && (results == [] || !LinkLost(results[|results| - 1]) ==> results == onDisk)
            && (Plentiful(link.wire) ==> results == onDisk)
            && (Patient(link.wire, 0) ==> results == onDisk || RunBreaksOff(cfg, link, cmds))
  {
    hide GoodReplies, InStep, Clean, Plentiful, Patient, RunBreaksOff,
      UniformSectors, PerformAll, AllParts, AllExpected, Expected, LinkLost;
    var replies := DiskReplies(cfg, fs, d, cmds);
    DiskRepliesAreGood(cfg, fs, d, cmds);
    var parts := AllParts(cfg, cmds, replies);
    assert parts + [] == parts;
    RunStaysInStep(cfg, link, cmds, replies, []);
    forall i: nat | i < |cmds|
      ensures DiskResults(cfg, d, cmds)[i] == Expected(cfg, cmds[i], replies[i])
    {
      ExpectedAt(cfg, cmds, replies, i);
    }
  }

  /** The same without a condition on single reads: on a run that does not lose the link it is enough, and for
      the device's frames to be taken whole it is necessary, that no response returned with a part of its frame
      undelivered. */
  lemma WholeRunServesDisk(cfg: Config, fs: Frames, d: Storage, link: Link, cmds: seq<Command>)
    requires GoodFrames(cfg, fs) && UniformSectors(d, cfg.sectorSize)
    requires GoodReplies(cfg, cmds, DiskReplies(cfg, fs, d, cmds))
    requires link.leftover + link.wire.incoming == Stream(DiskParts(cfg, fs, d, cmds))
    requires NeverLost(PerformAll(cfg, link, cmds).0)
    ensures var replies := DiskReplies(cfg, fs, d, cmds);
            && (RunWhole(cfg, link, cmds, replies, []) <==>
                  RunFrames(cfg, link, cmds) == DeviceFrames(cfg, cmds, replies))
            && (RunWhole(cfg, link, cmds, replies, []) ==> PerformAll(cfg, link, cmds).0 == DiskResults(cfg, d, cmds))
  {
    hide GoodReplies, UniformSectors, PerformAll, AllParts, AllExpected, RunWhole, RunFrames, DeviceFrames, NeverLost;
    var replies := DiskReplies(cfg, fs, d, cmds);
    DiskRepliesAreGood(cfg, fs, d, cmds);
    var bytes := Stream(AllParts(cfg, cmds, replies));
    assert bytes + [] == bytes;
    RunTakesFramesExactly(cfg, link, cmds, replies, []);
  }

  lemma DiskProgramThenRead(cfg: Config, d: Storage, lun: nat, start: nat, count: nat, data: seq<byte>)
    requires |data| == count * cfg.sectorSize && Present(d, lun, start, count)
    ensures DiskResults(cfg, d, [Program(lun, start, count, data), Read(lun, start, count)]) == [Ok([]), Ok(data)]
  {
    var sectors := Cut(data, count, cfg.sectorSize);
    var d' := Put(d, lun, start, sectors);
    GetAfterPut(d, lun, start, sectors, count);
    FlattenCut(data, count, cfg.sectorSize);
    assert Get(d', lun, start, count) == sectors;
    var read := Read(lun, start, count);
    assert [Program(lun, start, count, data), read][1..] == [read];
    assert DiskResults(cfg, d', [read]) == [DiskResult(cfg, d', read)] + DiskResults(cfg, d', []);
  }

  /** Over the wire, reading what was just programmed gives it back. */
  lemma ProgramThenRead(cfg: Config, fs: Frames, d: Storage, link: Link, lun: nat, start: nat, count: nat,
      data: seq<byte>)
    requires GoodFrames(cfg, fs) && UniformSectors(d, cfg.sectorSize) && Plentiful(link.wire)
    requires |data| == count * cfg.sectorSize && Present(d, lun, start, count)
    requires var cmds := [Program(lun, start, count, data), Read(lun, start, count)];
             && InStep(link, DiskParts(cfg, fs, d, cmds))
             && Clean(DiskParts(cfg, fs, d, cmds), PerformAll(cfg, link, cmds).1.wire.cuts)
    ensures PerformAll(cfg, link, [Program(lun, start, count, data), Read(lun, start, count)]).0 == [Ok([]), Ok(data)]
  {
    hide GoodFrames, InStep, Clean, Plentiful, UniformSectors, PerformAll, DiskParts, DiskResults;
    DiskProgramThenRead(cfg, d, lun, start, count, data);
    RunServesDisk(cfg, fs, d, link, [Program(lun, start, count, data), Read(lun, start, count)]);
  }
}
