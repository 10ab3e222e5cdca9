/** The flash job: a list of erase and program tasks, then a list of patches. */
module Flash {
  import opened Bytes
  import opened Disk
  import opened Context
  import opened OnDisk
  import opened Jobs
  import opened Patch
  import Sparse

  datatype Task =
    | EraseTask(lun: nat, start: nat, count: nat)
    | ProgramTask(lun: nat, start: nat, filename: Option<string>, sparse: bool)

  type Files = map<string, seq<byte>>

  // ----- What tasks do -----

  /** The sectors something wrote, from a start sector on. */
  datatype Effect = Effect(lun: nat, start: nat, sectors: seq<seq<byte>>)

  function Apply(d: Storage, e: Effect): (d': Storage)
    ensures d'.Keys == d.Keys
  {
    Put(d, e.lun, e.start, e.sectors)
  }

  function RunEffects(d: Storage, es: seq<Effect>): (d': Storage)
    ensures d'.Keys == d.Keys
    decreases |es|
  {
    if es == [] then d else RunEffects(Apply(d, es[0]), es[1..])
  }

  predicate Covers(e: Effect, a: Addr)
  {
    InRange(a, e.lun, e.start, |e.sectors|)
  }

  /** What the last effect on a sector puts there, found by searching the list backwards. */
  function LastWrite(es: seq<Effect>, a: Addr): (s: Option<seq<byte>>)
  {
    if es == [] then None
    else
      var e := es[|es| - 1];
      if Covers(e, a) then Some(e.sectors[a.1 - e.start]) else LastWrite(es[..|es| - 1], a)
  }

  lemma {:induction false} RunAppend(d: Storage, es: seq<Effect>, more: seq<Effect>)
    ensures RunEffects(d, es + more) == RunEffects(RunEffects(d, es), more)
    decreases |es|
  {
    hide Apply;
    if es == [] {
      assert es + more == more;
    } else {
      assert (es + more)[0] == es[0] && (es + more)[1..] == es[1..] + more;
      RunAppend(Apply(d, es[0]), es[1..], more);
    }
  }

  lemma RunOne(d: Storage, e: Effect)
    ensures RunEffects(d, [e]) == Apply(d, e)
  {
    hide Apply;
    assert RunEffects(d, [e]) == RunEffects(Apply(d, e), []);
  }

  lemma ApplyAt(d: Storage, e: Effect, a: Addr)
    requires a in d
    ensures Apply(d, e)[a] == if Covers(e, a) then e.sectors[a.1 - e.start] else d[a]
  {
  }

  /** The last writer wins: after all effects, a sector holds what the last one covering it wrote, and a sector
      none covers is unchanged. */
  lemma {:induction false} LastWriterWins(d: Storage, es: seq<Effect>, a: Addr)
    requires a in d
    ensures RunEffects(d, es)[a] == match LastWrite(es, a) case Some(s) => s case None => d[a]
    decreases |es|
  {
    hide Apply, Covers;
    if es != [] {
      var init, e := es[..|es| - 1], es[|es| - 1];
      assert es == init + [e];
      RunAppend(d, init, [e]);
      LastWriterWins(d, init, a);
      RunOne(RunEffects(d, init), e);
      ApplyAt(RunEffects(d, init), e, a);
    }
  }

  predicate DisjointEffects(x: Effect, y: Effect)
  {
    x.lun != y.lun || x.start + |x.sectors| <= y.start || y.start + |y.sectors| <= x.start
  }

  lemma ApplySwaps(d: Storage, x: Effect, y: Effect)
    requires DisjointEffects(x, y)
    ensures Apply(Apply(d, x), y) == Apply(Apply(d, y), x)
  {
  }

  lemma SwapTwo(d: Storage, x: Effect, y: Effect)
    requires DisjointEffects(x, y)
    ensures RunEffects(d, [x, y]) == RunEffects(d, [y, x])
  {
    ApplySwaps(d, x, y);
    hide Apply;
    assert [x, y] == [x] + [y] && [y, x] == [y] + [x];
    RunAppend(d, [x], [y]);
    RunAppend(d, [y], [x]);
    RunOne(d, x);
    RunOne(d, y);
    RunOne(Apply(d, x), y);
    RunOne(Apply(d, y), x);
  }

  /** Neighbouring effects whose actually written ranges do not meet can swap places anywhere in a list. */
  lemma DisjointEffectsSwap(d: Storage, before: seq<Effect>, x: Effect, y: Effect, after: seq<Effect>)
    requires DisjointEffects(x, y)
    ensures RunEffects(d, before + [x, y] + after) == RunEffects(d, before + [y, x] + after)
  {
    hide Apply, DisjointEffects;
    SwapTwo(RunEffects(d, before), x, y);
    RunAppend(d, before, [x, y]);
    RunAppend(d, before, [y, x]);
    RunAppend(d, before + [x, y], after);
    RunAppend(d, before + [y, x], after);
  }

  // ----- What tasks mean -----

  predicate Runnable(t: Task, files: Files)
  {
    t.ProgramTask? && t.filename.Some? ==>
      && t.filename.value in files
      && (t.sparse ==> Sparse.Expand(files[t.filename.value]).Expanded?)
  }

  /** The sectors a task writes from its start sector on, when erasing means writing zeros. */
  function Payload(t: Task, files: Files, ss: nat): (sectors: seq<seq<byte>>)
    requires ss > 0 && Runnable(t, files)
  {
    match t
    case EraseTask(_, _, count) => ZeroSectors(count, ss)
    case ProgramTask(_, _, None, _) => []
    case ProgramTask(_, _, Some(name), sparse) =>
      PadCut(if sparse then Sparse.Expand(files[name]).bytes else files[name], ss)
  }

  /** An effect a task may have. A native erase may leave anything, in no more sectors than it was for; every
      other task has exactly one effect. */
  predicate EffectOf(e: Effect, t: Task, files: Files, ss: nat, native: bool)
    requires ss > 0
  {
    && e.lun == t.lun && e.start == t.start && Runnable(t, files)
    && if native && t.EraseTask? then
         |e.sectors| <= t.count && forall i :: 0 <= i < |e.sectors| ==> |e.sectors[i]| == ss
       else e.sectors == Payload(t, files, ss)
  }

  predicate EffectsOf(es: seq<Effect>, tasks: seq<Task>, files: Files, ss: nat, native: bool)
    requires ss > 0
  {
    |es| == |tasks| && forall i :: 0 <= i < |tasks| ==> EffectOf(es[i], tasks[i], files, ss, native)
  }

  /** What a task may have done that did not get to its end: some first sectors of its own. */
  predicate PartOf(e: Effect, t: Task, files: Files, ss: nat, native: bool)
    requires ss > 0
  {
    && e.lun == t.lun && e.start == t.start
    && if native && t.EraseTask? then EffectOf(e, t, files, ss, native)
       else if Runnable(t, files) then e.sectors <= Payload(t, files, ss)
       else e.sectors == []
  }

  /** What a list of tasks has done that stopped somewhere: whole effects, the last one perhaps in part. */
  predicate Underway(es: seq<Effect>, tasks: seq<Task>, files: Files, ss: nat, native: bool)
    requires ss > 0
  {
    && |es| <= |tasks|
    && (forall i :: 0 <= i < |es| - 1 ==> EffectOf(es[i], tasks[i], files, ss, native))
    && (es != [] ==> PartOf(es[|es| - 1], tasks[|es| - 1], files, ss, native))
  }

  /** How many sectors a task may write at most. */
  function Span(t: Task, files: Files, ss: nat): (n: nat)
    requires ss > 0
  {
    if t.EraseTask? then t.count else if Runnable(t, files) then |Payload(t, files, ss)| else 0
  }

  predicate Spanned(a: Addr, tasks: seq<Task>, files: Files, ss: nat)
    requires ss > 0
  {
    exists i :: 0 <= i < |tasks| && InRange(a, tasks[i].lun, tasks[i].start, Span(tasks[i], files, ss))
  }

  lemma PartWithinSpan(e: Effect, t: Task, files: Files, ss: nat, native: bool)
    requires ss > 0 && PartOf(e, t, files, ss, native)
    ensures e.lun == t.lun && e.start == t.start && |e.sectors| <= Span(t, files, ss)
  {
  }

  lemma WholeIsPart(e: Effect, t: Task, files: Files, ss: nat, native: bool)
    requires ss > 0 && EffectOf(e, t, files, ss, native)
    ensures PartOf(e, t, files, ss, native)
  {
  }

  /** However far the tasks came, what none of them spans is unchanged. */
  lemma {:induction false} UnderwayStaysInside(d: Storage, es: seq<Effect>, tasks: seq<Task>, files: Files, ss: nat,
      native: bool, a: Addr)
    requires ss > 0 && Underway(es, tasks, files, ss, native) && a in d && !Spanned(a, tasks, files, ss)
    ensures RunEffects(d, es)[a] == d[a]
    decreases |es|
  {
    hide PartOf, EffectOf, Span, RunEffects;
    if es == [] {
      assert RunEffects(d, es) == d by { RunNone(d); }
    } else {
      var init, e := es[..|es| - 1], es[|es| - 1];
      if init != [] {
        WholeIsPart(init[|init| - 1], tasks[|init| - 1], files, ss, native);
      }
      UnderwayStaysInside(d, init, tasks, files, ss, native, a);
      PartWithinSpan(e, tasks[|es| - 1], files, ss, native);
      assert es == init + [e];
      RunAppend(d, init, [e]);
      RunOne(RunEffects(d, init), e);
      ApplyAt(RunEffects(d, init), e, a);
    }
  }

  lemma RunNone(d: Storage)
    ensures RunEffects(d, []) == d
  {
  }

  /** The one effect of each task, when erasing means writing zeros. */
  function TaskEffects(tasks: seq<Task>, files: Files, ss: nat): (es: seq<Effect>)
    requires ss > 0 && AllRunnable(tasks, files)
  {
    seq(|tasks|, i requires 0 <= i < |tasks| => Effect(tasks[i].lun, tasks[i].start, Payload(tasks[i], files, ss)))
  }

  lemma ZeroEraseIsDetermined(es: seq<Effect>, tasks: seq<Task>, files: Files, ss: nat)
    requires ss > 0 && AllRunnable(tasks, files)
    ensures EffectsOf(es, tasks, files, ss, false) <==> es == TaskEffects(tasks, files, ss)
  {
    hide Runnable, Payload;
  }

  predicate AllRunnable(tasks: seq<Task>, files: Files)
  {
    forall i :: 0 <= i < |tasks| ==> Runnable(tasks[i], files)
  }

  // ----- What tasks put on the disk -----

  /** A program task for a plain file puts the file on the disk, from its start sector on, with less than a sector of
      zeros behind it, and changes nothing else. */
  lemma PlainTaskWrites(d: Storage, e: Effect, lun: nat, start: nat, name: string, files: Files, ss: nat, native: bool)
    requires ss > 0 && name in files && EffectOf(e, ProgramTask(lun, start, Some(name), false), files, ss, native)
    ensures ImageWritten(d, Apply(d, e), lun, start, files[name], ss)
  {
    PutIsImageWritten(d, lun, start, files[name], ss);
  }

  /** A program task for a sparse image puts what the image's chunks mean on the disk. */
  lemma SparseTaskWrites(d: Storage, e: Effect, lun: nat, start: nat, name: string, files: Files, ss: nat, native: bool,
      h: Sparse.Header, v: Sparse.Ignored, extension: seq<byte>, records: seq<Sparse.Record>, trailer: seq<byte>)
    requires Sparse.FitsHeader(h, v) && h.fileHdrSz == 28 + |extension| && |trailer| < h.chunkHdrSz
    requires forall i :: 0 <= i < |records| ==> Sparse.Encodable(records[i], h)
    requires name in files
    requires files[name] == Sparse.FileHeaderBytes(h, v) + (extension + (Sparse.Encode(records) + trailer))
    requires ss > 0 && EffectOf(e, ProgramTask(lun, start, Some(name), true), files, ss, native)
    ensures ImageWritten(d, Apply(d, e), lun, start, Sparse.Meanings(records, h.blkSz), ss)
  {
    hide Sparse.Expand, Sparse.Encode, Sparse.Encodable, Sparse.FileHeaderBytes, Sparse.Meanings, Sparse.Hangs,
      ImageWritten, PadCut, Put;
    Sparse.ExpandsFile(h, v, extension, records, trailer);
    PutIsImageWritten(d, lun, start, Sparse.Meanings(records, h.blkSz), ss);
  }

  /** Flashing a sparse image leaves the same disk as flashing, as a plain file, what its chunks mean. */
  lemma SparseIsStreaming(d: Storage, e: Effect, plain: Effect, lun: nat, start: nat, name: string, other: string,
      files: Files, ss: nat, native: bool, h: Sparse.Header, v: Sparse.Ignored, extension: seq<byte>,
      records: seq<Sparse.Record>, trailer: seq<byte>)
    requires Sparse.FitsHeader(h, v) && h.fileHdrSz == 28 + |extension| && |trailer| < h.chunkHdrSz
    requires forall i :: 0 <= i < |records| ==> Sparse.Encodable(records[i], h)
    requires name in files && other in files && files[other] == Sparse.Meanings(records, h.blkSz)
    requires files[name] == Sparse.FileHeaderBytes(h, v) + (extension + (Sparse.Encode(records) + trailer))
    requires ss > 0 && EffectOf(e, ProgramTask(lun, start, Some(name), true), files, ss, native)
    requires EffectOf(plain, ProgramTask(lun, start, Some(other), false), files, ss, native)
    ensures Apply(d, e) == Apply(d, plain)
  {
    hide EffectOf, ImageWritten, Apply;
    SparseTaskWrites(d, e, lun, start, name, files, ss, native, h, v, extension, records, trailer);
    PlainTaskWrites(d, plain, lun, start, other, files, ss, native);
    ImageDecidesDisk(d, Apply(d, e), Apply(d, plain), lun, start, files[other], ss);
  }

  /** An erase task that writes zeros leaves its sectors zero and nothing else changed; a program task without a file
      changes nothing. */
  lemma OtherTasksWrite(d: Storage, e: Effect, t: Task, files: Files, ss: nat)
    requires ss > 0 && EffectOf(e, t, files, ss, false)
    ensures t.EraseTask? ==>
              forall a :: a in d ==>
                if a.0 == t.lun && t.start <= a.1 < t.start + t.count then ZeroSector(Apply(d, e)[a], ss)
                else Apply(d, e)[a] == d[a]
    ensures t.ProgramTask? && t.filename.None? ==> Apply(d, e) == d
  {
    PutNothing(d, t.lun, t.start);
  }

  // ----- Running tasks on a device -----

  /** The erase slice stays inside the zero buffer; the sparse image neither panics nor hangs. */
  predicate Safe(t: Task, files: Files, maxPayload: nat, ss: nat, native: bool)
    requires ss > 0
  {
    match t
    case EraseTask(_, _, count) => native || !ErasePanics(count, maxPayload, ss)
    case ProgramTask(_, _, None, _) => true
    case ProgramTask(_, _, Some(name), sparse) =>
      sparse && name in files ==> Sparse.Expand(files[name]) !in {Sparse.Panics, Sparse.NeverEnds}
  }

  lemma NothingDone(d: Storage, t: Task, files: Files, ss: nat, native: bool) returns (e: Effect)
    requires ss > 0
    ensures e == Effect(t.lun, t.start, []) && PartOf(e, t, files, ss, native) && Apply(d, e) == d
  {
    e := Effect(t.lun, t.start, []);
    PutNothing(d, t.lun, t.start);
  }

  lemma ZerosToErase(t: Task, files: Files, ss: nat)
    requires ss > 0 && t.EraseTask?
    ensures Payload(t, files, ss) == ZeroSectors(t.count, ss)
  {
  }

  lemma NothingToDo(t: Task, files: Files, ss: nat, native: bool, e: Effect)
    requires ss > 0 && t.ProgramTask? && t.filename.None? && e == Effect(t.lun, t.start, [])
    ensures EffectOf(e, t, files, ss, native)
  {
  }

  /** What a native erase left is an effect of its task. */
  lemma Left(d: Storage, d': Storage, t: Task, left: seq<seq<byte>>, files: Files, ss: nat) returns (e: Effect)
    requires ss > 0 && t.EraseTask? && |left| <= t.count && forall i :: 0 <= i < |left| ==> |left[i]| == ss
    requires d' == Put(d, t.lun, t.start, left)
    ensures d' == Apply(d, e) && EffectOf(e, t, files, ss, true) && PartOf(e, t, files, ss, true)
  {
    e := Effect(t.lun, t.start, left);
  }

  /** A run of writes is an effect of its task, or part of one. */
  lemma Written(d: Storage, d': Storage, t: Task, files: Files, ss: nat, native: bool, done: bool)
    returns (e: Effect)
    requires ss > 0 && Runnable(t, files) && !(native && t.EraseTask?)
    requires WroteFirst(d, d', t.lun, t.start, Payload(t, files, ss))
    requires done ==> d' == Put(d, t.lun, t.start, Payload(t, files, ss))
    ensures d' == Apply(d, e) && PartOf(e, t, files, ss, native) && (done ==> EffectOf(e, t, files, ss, native))
  {
    hide Put, Payload, Runnable;
    var sectors := Payload(t, files, ss);
    if done {
      return Effect(t.lun, t.start, sectors);
    }
    var n: nat :| n <= |sectors| && d' == Put(d, t.lun, t.start, sectors[..n]);
    e := Effect(t.lun, t.start, sectors[..n]);
  }

  method ExecuteTask(ctx: JobContext, t: Task, native: bool, store: FileStore) returns (r: Status, ghost e: Effect)
    requires ctx.sectorSize > 0
    modifies ctx, store
    ensures ctx.refused >= old(ctx.refused) && store.errors >= old(store.errors)
    ensures r == Success <==>
              && Runnable(t, store.contents) && Safe(t, store.contents, ctx.maxPayload, ctx.sectorSize, native)
              && ctx.refused == old(ctx.refused) && store.errors == old(store.errors)
    ensures PartOf(e, t, store.contents, ctx.sectorSize, native) && ctx.disk == Apply(old(ctx.disk), e)
    ensures r == Success ==> EffectOf(e, t, store.contents, ctx.sectorSize, native)
    ensures r in {Panic, Hang} <==>
              && !Safe(t, store.contents, ctx.maxPayload, ctx.sectorSize, native)
              && store.errors == old(store.errors)
    ensures r in {Panic, Hang} ==> ctx.disk == old(ctx.disk) && ctx.refused == old(ctx.refused)
    ensures r in {Success, Panic, Hang, BadImage, IoFailed}
  {
    hide WroteFirst, Put, PartOf, EffectOf, Payload, Apply;
    ghost var files, ss := store.contents, ctx.sectorSize;
    e := NothingDone(ctx.disk, t, files, ss, native);
    match t
    case EraseTask(lun, start, count) =>
      if native {
        var ok, left := ctx.EraseNative(lun, start, count);
        e := Left(old(ctx.disk), ctx.disk, t, left, files, ss);
        return if ok then Success else IoFailed, e;
      }
      var outcome := ctx.EraseSectors(lun, start, count);
      r := match outcome case Done => Success case Failed => IoFailed case Panicked => Panic;
      assert Payload(t, files, ss) == ZeroSectors(count, ss) by { ZerosToErase(t, files, ss); }
      if outcome != Panicked {
        e := Written(old(ctx.disk), ctx.disk, t, files, ss, native, r == Success);
      }
    case ProgramTask(lun, start, None, _) =>
      NothingToDo(t, files, ss, native, e);
      r := Success;
    case ProgramTask(lun, start, Some(name), sparse) =>
      if name !in store.contents {
        return IoFailed, e;
      }
      ghost var began;
      r, began := ProgramFile(ctx, lun, start, name, sparse, store);
      if began {
        e := Written(old(ctx.disk), ctx.disk, t, files, ss, native, r == Success);
      }
  }

  /** A program task with a file; `began` says that writing began. */
  method ProgramFile(ctx: JobContext, lun: nat, start: nat, name: string, sparse: bool, store: FileStore)
    returns (r: Status, ghost began: bool)
    requires ctx.sectorSize > 0 && name in store.contents
    modifies ctx, store
    ensures ctx.refused >= old(ctx.refused) && store.errors >= old(store.errors)
    ensures var t, files, ss := ProgramTask(lun, start, Some(name), sparse), store.contents, ctx.sectorSize;
            && (r == Success <==>
                  Runnable(t, files) && ctx.refused == old(ctx.refused) && store.errors == old(store.errors))
            && (r in {Panic, Hang} <==>
                  && sparse && Sparse.Expand(files[name]) in {Sparse.Panics, Sparse.NeverEnds}
                  && store.errors == old(store.errors))
            && (r in {Panic, Hang} ==> !began) && (r == Success ==> began)
            && (!began ==> ctx.disk == old(ctx.disk) && ctx.refused == old(ctx.refused))
            && (began ==> Runnable(t, files))
            && (began ==> WroteFirst(old(ctx.disk), ctx.disk, lun, start, Payload(t, files, ss)))
            && (r == Success ==> ctx.disk == Put(old(ctx.disk), lun, start, Payload(t, files, ss)))
    ensures r in {Success, Panic, Hang, BadImage, IoFailed}
  {
    hide WroteFirst, Put;
    var ok;
    if sparse {
      var image := store.ReadAll(name);
      if image.None? {
        return IoFailed, false;
      }
      var expansion := Sparse.ExpandToVec(image.value);
      if !expansion.Expanded? {
        return (match expansion case Panics => Panic case NeverEnds => Hang case _ => BadImage), false;
      }
      ok := WriteExpanded(ctx, expansion.bytes, lun, start);
    } else {
      var reader := new ChunkedReader(store, name, Max(ctx.maxPayload, ctx.sectorSize));
      ok := StreamImage(ctx, reader, lun, start);
    }
    return if ok then Success else IoFailed, true;
  }

  predicate AllSafe(tasks: seq<Task>, files: Files, maxPayload: nat, ss: nat, native: bool)
    requires ss > 0
  {
    forall i :: 0 <= i < |tasks| ==> Safe(tasks[i], files, maxPayload, ss, native)
  }

  /** The first task that cannot be carried out is one that panics or hangs. */
  predicate StopsAt(tasks: seq<Task>, i: nat, files: Files, maxPayload: nat, ss: nat, native: bool)
    requires ss > 0
  {
    && i < |tasks| && !Safe(tasks[i], files, maxPayload, ss, native)
    && forall k :: 0 <= k < i ==> Runnable(tasks[k], files) && Safe(tasks[k], files, maxPayload, ss, native)
  }

  ghost predicate Stops(tasks: seq<Task>, files: Files, maxPayload: nat, ss: nat, native: bool)
    requires ss > 0
  {
    exists i :: StopsAt(tasks, i, files, maxPayload, ss, native)
  }

  method ExecuteTasks(ctx: JobContext, tasks: seq<Task>, native: bool, store: FileStore)
    returns (r: Status, ghost es: seq<Effect>)
    requires ctx.sectorSize > 0
    modifies ctx, store
    ensures ctx.refused >= old(ctx.refused) && store.errors >= old(store.errors)
    ensures r == Success <==>
              && AllRunnable(tasks, store.contents)
              && AllSafe(tasks, store.contents, ctx.maxPayload, ctx.sectorSize, native)
              && ctx.refused == old(ctx.refused) && store.errors == old(store.errors)
    ensures Underway(es, tasks, store.contents, ctx.sectorSize, native) && ctx.disk == RunEffects(old(ctx.disk), es)
    ensures r == Success ==> EffectsOf(es, tasks, store.contents, ctx.sectorSize, native)
    ensures r in {Panic, Hang} ==> Stops(tasks, store.contents, ctx.maxPayload, ctx.sectorSize, native)
    ensures && ctx.refused == old(ctx.refused) && store.errors == old(store.errors)
            && Stops(tasks, store.contents, ctx.maxPayload, ctx.sectorSize, native) ==>
              r in {Panic, Hang}
    ensures r in {Success, Panic, Hang, BadImage, IoFailed}
  {
    hide Runnable, Apply, Safe, EffectOf, PartOf;
    ghost var files, ss := store.contents, ctx.sectorSize;
    es := [];
    for i := 0 to |tasks|
      invariant EffectsOf(es, tasks[..i], files, ss, native)
      invariant forall k :: 0 <= k < i ==>
                  Runnable(tasks[k], files) && Safe(tasks[k], files, ctx.maxPayload, ss, native)
      invariant ctx.refused == old(ctx.refused) && store.errors == old(store.errors)
      invariant ctx.disk == RunEffects(old(ctx.disk), es)
    {
      ghost var e;
      r, e := ExecuteTask(ctx, tasks[i], native, store);
      assert tasks[..i + 1] == tasks[..i] + [tasks[i]];
      RunAppend(old(ctx.disk), es, [e]);
      RunOne(RunEffects(old(ctx.disk), es), e);
      es := es + [e];
      if r != Success {
        assert r in {Panic, Hang} ==> StopsAt(tasks, i, files, ctx.maxPayload, ss, native);
        return;
      }
    }
    assert tasks[..|tasks|] == tasks;
    AllDoneIsUnderway(es, tasks, files, ss, native);
    r := Success;
  }

  lemma AllDoneIsUnderway(es: seq<Effect>, tasks: seq<Task>, files: Files, ss: nat, native: bool)
    requires ss > 0 && EffectsOf(es, tasks, files, ss, native)
    ensures Underway(es, tasks, files, ss, native)
  {
    hide EffectOf, PartOf;
    if es != [] {
      WholeIsPart(es[|es| - 1], tasks[|es| - 1], files, ss, native);
    }
  }

  // ----- Patches on a device -----

  /** The values patch entries may refer to, from the last partition listed. */
  function PatchVars(parts: seq<Partition>, ss: nat): (vars: map<string, string>)
  {
    var (sectors, end) :=
      if parts == [] then (0, 0)
      else
        var last := parts[|parts| - 1];
        (last.lastLba + 1, last.lastLba * ss + ss);
    map[NUM_DISK_SECTORS := Decimal(sectors), LAST_PARTITION_END := Decimal(end)]
  }

  /** A patch on the disk size carries the sector count after the last partition, little-endian, whatever else its
      value says behind the name. */
  lemma DiskSizePatch(parts: seq<Partition>, ss: nat, p: PatchEntry)
    requires parts != [] && parts[|parts| - 1].lastLba + 1 < U64_LIMIT
    requires "NUM_DISK_SECTORS" <= p.value && p.sizeInBytes <= 8
    ensures Resolve(p, PatchVars(parts, ss)) ==
            Resolved(LeBytes(parts[|parts| - 1].lastLba + 1, 8)[..p.sizeInBytes])
  {
    ParseOfDecimal(parts[|parts| - 1].lastLba + 1);
  }

  /** A patch on the last partition's end carries that end in bytes, little-endian. */
  lemma PartitionEndPatch(parts: seq<Partition>, ss: nat, p: PatchEntry)
    requires parts != [] && parts[|parts| - 1].lastLba * ss + ss < U64_LIMIT
    requires "LAST_PARTITION_END" <= p.value && p.sizeInBytes <= 8
    ensures Resolve(p, PatchVars(parts, ss)) ==
            Resolved(LeBytes(parts[|parts| - 1].lastLba * ss + ss, 8)[..p.sizeInBytes])
  {
    assert p.value[0] == 'L' && NUM_DISK_SECTORS[0] == 'N';
    ParseOfDecimal(parts[|parts| - 1].lastLba * ss + ss);
  }

  /** The storage after the patches that went through, in order. */
  function RunPatches(d: Storage, patches: seq<PatchEntry>, applied: seq<bool>, vars: map<string,
      string>): (d': Storage)
    requires |applied| == |patches|
    requires forall i :: 0 <= i < |patches| && applied[i] ==> Resolve(patches[i], vars).Resolved?
    ensures d'.Keys == d.Keys
  {
    if patches == [] then d
    else
      RunPatches(if applied[0] then PatchEffect(d, patches[0], Resolve(patches[0], vars).bytes) else d,
                 patches[1..], applied[1..], vars)
  }

  lemma {:induction false} RunPatchesSnoc(d: Storage, patches: seq<PatchEntry>, applied: seq<bool>, vars: map<string,
      string>, p: PatchEntry, b: bool)
    requires |applied| == |patches|
    requires forall i :: 0 <= i < |patches| && applied[i] ==> Resolve(patches[i], vars).Resolved?
    requires b ==> Resolve(p, vars).Resolved?
    ensures forall i :: 0 <= i <= |patches| && (applied + [b])[i] ==> Resolve((patches + [p])[i], vars).Resolved?
    ensures var d' := RunPatches(d, patches, applied, vars);
            RunPatches(d, patches + [p], applied + [b], vars) ==
            if b then PatchEffect(d', p, Resolve(p, vars).bytes) else d'
    decreases |patches|
  {
    hide Resolve, PatchEffect;
    if patches == [] {
      assert patches + [p] == [p] && applied + [b] == [b];
      assert RunPatches(d, [p], [b], vars) == RunPatches(if b then PatchEffect(d, p, Resolve(p, vars).bytes) else d,
          [], [], vars);
    } else {
      assert (patches + [p])[1..] == patches[1..] + [p] && (applied + [b])[1..] == applied[1..] + [b];
      RunPatchesSnoc(if applied[0] then PatchEffect(d, patches[0], Resolve(patches[0], vars).bytes) else d,
                     patches[1..], applied[1..], vars, p, b);
    }
  }

  lemma PatchOneSector(d: Storage, p: PatchEntry, bytes: seq<byte>, existing: seq<byte>, written: nat, ss: nat)
    requires UniformSectors(d, ss) && Present(d, p.lun, p.startSector, 1)
    requires existing == RangeBytes(d, p.lun, p.startSector, 1) && written <= 1
    ensures |existing| == ss
    ensures p.byteOffset <= ss ==>
              var patched := PatchSector(existing, p.byteOffset, bytes);
              && |patched| == 1 * ss
              && Put(d, p.lun, p.startSector, Cut(patched, 1, ss)[..written]) ==
                 (if written == 1 then PatchEffect(d, p, bytes) else d)
    ensures UniformSectors(PatchEffect(d, p, bytes), ss)
  {
    var a := (p.lun, p.startSector);
    assert a in d;
    assert Get(d, p.lun, p.startSector, 1) == [d[a]];
    assert Flatten([d[a]]) == d[a] + Flatten([]) == d[a];
    if p.byteOffset <= ss {
      var patched := PatchSector(existing, p.byteOffset, bytes);
      assert patched[..ss] == patched && patched[ss..] == [];
      assert Cut(patched, 1, ss) == [patched] + Cut([], 0, ss);
      PutNothing(d, p.lun, p.startSector);
      assert Put(d, p.lun, p.startSector, [patched]) == d[a := patched];
    }
  }

  predicate PatchedAt(a: Addr, patches: seq<PatchEntry>)
  {
    exists i :: 0 <= i < |patches| && (patches[i].lun, patches[i].startSector) == a
  }

  /** Patches change no sector but their own. */
  lemma {:induction false} PatchesStayInside(d: Storage, patches: seq<PatchEntry>, applied: seq<bool>,
      vars: map<string, string>, a: Addr)
    requires |applied| == |patches| && a in d && !PatchedAt(a, patches)
    requires forall i :: 0 <= i < |patches| && applied[i] ==> Resolve(patches[i], vars).Resolved?
    ensures RunPatches(d, patches, applied, vars)[a] == d[a]
    decreases |patches|
  {
    hide Resolve;
    if patches != [] {
      assert (patches[0].lun, patches[0].startSector) != a;
      PatchesStayInside(if applied[0] then PatchEffect(d, patches[0], Resolve(patches[0], vars).bytes) else d,
                        patches[1..], applied[1..], vars, a);
    }
  }

  /** A patch that panics once its sector is read: eight bytes are too few, or the sector is. */
  predicate BadPatch(p: PatchEntry, vars: map<string, string>, ss: nat)
  {
    Resolve(p, vars).Overrun? || (Resolve(p, vars).Resolved? && p.byteOffset > ss)
  }

  predicate SomeBadPatch(patches: seq<PatchEntry>, vars: map<string, string>, ss: nat)
  {
    exists i :: 0 <= i < |patches| && BadPatch(patches[i], vars, ss)
  }

  /** The loop over patch entries: one that does not resolve or cannot be read or written is skipped. */
  method ApplyPatches(ctx: JobContext, patches: seq<PatchEntry>, vars: map<string, string>)
    returns (r: Status, ghost applied: seq<bool>)
    requires ctx.sectorSize > 0 && UniformSectors(ctx.disk, ctx.sectorSize)
    modifies ctx
    ensures r in {Success, Panic}
    ensures |applied| <= |patches| && (r == Success ==> |applied| == |patches|)
    ensures forall i :: 0 <= i < |applied| && applied[i] ==> Resolve(patches[..|applied|][i], vars).Resolved?
    ensures ctx.disk == RunPatches(old(ctx.disk), patches[..|applied|], applied, vars)
    ensures r == Success && ctx.refused == old(ctx.refused) ==>
              forall i :: 0 <= i < |patches| ==> applied[i] == Resolve(patches[i], vars).Resolved?
    ensures r == Panic ==> SomeBadPatch(patches, vars, ctx.sectorSize)
    ensures ctx.refused == old(ctx.refused) && SomeBadPatch(patches, vars, ctx.sectorSize) ==> r == Panic
    ensures ctx.refused >= old(ctx.refused)
  {
    hide Resolve, PatchEffect, RangeBytes, UniformSectors, Present, Put, Cut, PatchSector;
    var ss := ctx.sectorSize;
    applied := [];
    for k := 0 to |patches|
      invariant |applied| == k && UniformSectors(ctx.disk, ss)
      invariant forall i :: 0 <= i < k && applied[i] ==> Resolve(patches[..k][i], vars).Resolved?
      invariant ctx.disk == RunPatches(old(ctx.disk), patches[..k], applied, vars)
      invariant ctx.refused >= old(ctx.refused)
      invariant ctx.refused == old(ctx.refused) ==>
                  forall i :: 0 <= i < k ==> applied[i] == Resolve(patches[..k][i], vars).Resolved?
      invariant ctx.refused == old(ctx.refused) ==> forall i :: 0 <= i < k ==> !BadPatch(patches[i], vars, ss)
    {
      var p := patches[k];
      ghost var done := false;
      ghost var now := ctx.disk;
      var value := Resolve(p, vars);
      if value.Overrun? {
        return Panic, applied;
      }
      if value.Resolved? {
        var existing := ctx.ReadSectors(p.lun, p.startSector, 1);
        if existing.Some? {
          PatchOneSector(now, p, value.bytes, existing.value, 0, ss);
          if p.byteOffset > ss {
            return Panic, applied;
          }
          var patched := PatchSector(existing.value, p.byteOffset, value.bytes);
          var ok, written := ctx.WriteSectors(p.lun, p.startSector, 1, patched);
          PatchOneSector(now, p, value.bytes, existing.value, written, ss);
          done := written == 1;
        }
      }
      assert patches[..k + 1] == patches[..k] + [p];
      RunPatchesSnoc(old(ctx.disk), patches[..k], applied, vars, p, done);
      applied := applied + [done];
    }
    assert patches[..|patches|] == patches;
    r := Success;
  }

  // ----- The whole job -----

  predicate FilesExist(tasks: seq<Task>, files: Files)
  {
    forall i :: 0 <= i < |tasks| && tasks[i].ProgramTask? && tasks[i].filename.Some? ==>
      tasks[i].filename.value in files
  }

  lemma RunnableFilesExist(tasks: seq<Task>, files: Files)
    ensures AllRunnable(tasks, files) ==> FilesExist(tasks, files)
  {
  }

  lemma EffectKeepsSizes(d: Storage, e: Effect, t: Task, files: Files, ss: nat, native: bool)
    requires ss > 0 && EffectOf(e, t, files, ss, native) && UniformSectors(d, ss)
    ensures UniformSectors(Apply(d, e), ss)
  {
    if t.ProgramTask? && t.filename.Some? {
      FlattenPadCut(if t.sparse then Sparse.Expand(files[t.filename.value]).bytes else files[t.filename.value], ss);
    }
    PutKeepsSizes(d, e.lun, e.start, e.sectors, ss);
  }

  lemma {:induction false} EffectsKeepSizes(d: Storage, es: seq<Effect>, tasks: seq<Task>, files: Files, ss: nat,
      native: bool)
    requires ss > 0 && EffectsOf(es, tasks, files, ss, native) && UniformSectors(d, ss)
    ensures UniformSectors(RunEffects(d, es), ss)
    decreases |es|
  {
    hide EffectOf, UniformSectors, Apply;
    if es != [] {
      EffectKeepsSizes(d, es[0], tasks[0], files, ss, native);
      EffectsKeepSizes(Apply(d, es[0]), es[1..], tasks[1..], files, ss, native);
    }
  }

  /** `FlashJob`: the disk ends as the fold of the tasks' effects, then of the patches that went through. When
      nothing is refused, these are all patches whose value resolves, and success and panic are exactly
      characterised. */
  method ExecuteFlash(ctx: JobContext, tasks: seq<Task>, native: bool, store: FileStore, patches: seq<PatchEntry>)
    returns (r: Status, ghost es: seq<Effect>, ghost applied: seq<bool>)
    requires ctx.sectorSize > 0 && UniformSectors(ctx.disk, ctx.sectorSize)
    modifies ctx, store
    ensures ctx.refused >= old(ctx.refused) && store.errors >= old(store.errors)
    ensures !FilesExist(tasks, store.contents) ==> r == IoFailed && ctx.disk == old(ctx.disk)
    ensures Underway(es, tasks, store.contents, ctx.sectorSize, native)
    ensures r == Success || applied != [] ==> EffectsOf(es, tasks, store.contents, ctx.sectorSize, native)
    ensures |applied| <= |patches| && (r == Success ==> |applied| == |patches|)
    ensures var vars := PatchVars(ctx.partitions, ctx.sectorSize);
            && (forall i :: 0 <= i < |applied| && applied[i] ==> Resolve(patches[..|applied|][i], vars).Resolved?)
            && (r == Success && ctx.refused == old(ctx.refused) ==>
                  forall i :: 0 <= i < |patches| ==> applied[i] == Resolve(patches[i], vars).Resolved?)
            && ctx.disk == RunPatches(RunEffects(old(ctx.disk), es), patches[..|applied|], applied, vars)
    ensures forall a :: a in old(ctx.disk) && !Spanned(a, tasks, store.contents, ctx.sectorSize) &&
                        !PatchedAt(a, patches) ==>
              ctx.disk[a] == old(ctx.disk)[a]
    ensures r in {Panic, Hang} ==>
              || Stops(tasks, store.contents, ctx.maxPayload, ctx.sectorSize, native)
              || SomeBadPatch(patches, PatchVars(ctx.partitions, ctx.sectorSize), ctx.sectorSize)
    ensures ctx.refused == old(ctx.refused) && store.errors == old(store.errors) ==>
              && (r == Success <==>
                    && AllRunnable(tasks, store.contents)
                    && AllSafe(tasks, store.contents, ctx.maxPayload, ctx.sectorSize, native)
                    && !SomeBadPatch(patches, PatchVars(ctx.partitions, ctx.sectorSize), ctx.sectorSize))
              && (r in {Panic, Hang} <==>
                    && FilesExist(tasks, store.contents)
                    && (|| Stops(tasks, store.contents, ctx.maxPayload, ctx.sectorSize, native)
                        || (&& AllRunnable(tasks, store.contents)
                            && AllSafe(tasks, store.contents, ctx.maxPayload, ctx.sectorSize, native)
                            && SomeBadPatch(patches, PatchVars(ctx.partitions, ctx.sectorSize), ctx.sectorSize))))
  {
    hide Resolve, Safe, EffectOf, PartOf, BadPatch, Runnable, Apply, Spanned, PatchedAt, RunPatches, RunEffects,
      PatchVars;
    RunnableFilesExist(tasks, store.contents);
    es, applied := [], [];
    NothingChanged(ctx.disk, PatchVars(ctx.partitions, ctx.sectorSize));
    assert patches[..0] == [];
    if !FilesExist(tasks, store.contents) {
      return IoFailed, es, applied;
    }
    r, es := ExecuteTasks(ctx, tasks, native, store);
    NothingChanged(ctx.disk, PatchVars(ctx.partitions, ctx.sectorSize));
    if r == Success {
      EffectsKeepSizes(old(ctx.disk), es, tasks, store.contents, ctx.sectorSize, native);
      r, applied := ApplyPatches(ctx, patches, PatchVars(ctx.partitions, ctx.sectorSize));
    }
    JobStaysInside(old(ctx.disk), es, tasks, store.contents, ctx.sectorSize, native, patches, applied,
                   PatchVars(ctx.partitions, ctx.sectorSize));
  }

  lemma NothingChanged(d: Storage, vars: map<string, string>)
    ensures RunEffects(d, []) == d && RunPatches(d, [], [], vars) == d
  {
  }

  /** Whatever part of the job was done, a sector that no task spans and no patch is for is unchanged. */
  lemma JobStaysInside(d: Storage, es: seq<Effect>, tasks: seq<Task>, files: Files, ss: nat, native: bool,
      patches: seq<PatchEntry>, applied: seq<bool>, vars: map<string, string>)
    requires ss > 0 && Underway(es, tasks, files, ss, native) && |applied| <= |patches|
    requires forall i :: 0 <= i < |applied| && applied[i] ==> Resolve(patches[..|applied|][i], vars).Resolved?
    ensures forall a :: a in d && !Spanned(a, tasks, files, ss) && !PatchedAt(a, patches) ==>
              RunPatches(RunEffects(d, es), patches[..|applied|], applied, vars)[a] == d[a]
  {
    hide Underway, Spanned, RunPatches, RunEffects, Resolve;
    forall a | a in d && !Spanned(a, tasks, files, ss) && !PatchedAt(a, patches)
      ensures RunPatches(RunEffects(d, es), patches[..|applied|], applied, vars)[a] == d[a]
    {
      UnderwayStaysInside(d, es, tasks, files, ss, native, a);
      PatchesStayInside(RunEffects(d, es), patches[..|applied|], applied, vars, a);
    }
  }
}
