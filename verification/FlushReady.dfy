/** From the steps of a transaction to the flush of its operations: what the store hands over can be
    flushed, and what a deletion without an earlier operation does to a flush. */
module FlushReady {
  import opened Words
  import Diff
  import opened Log
  import opened Journal
  import opened Transactions
  import Flush

  // ----- Operations that fit the disk

  /** The operation was made against disk d, for a block that is in use. */
  ghost predicate OpFits(o: Operation, d: Disk, g: Layout, free: seq<bool>) {
    && o.blckno < g.total && o.blckno < |d| && o.blckno < |free| && o.blckno != g.status && !free[o.blckno]
    && Makes(o, d[o.blckno], Applied(d[o.blckno], o))
  }

  ghost predicate TableFits(t: Table, d: Disk, g: Layout, free: seq<bool>) {
    forall k :: k in t ==> OpFits(t[k], d, g, free)
  }

  /** A step is made against disk d: a new version of a block is compressed against what is on disk or
      from nothing, and a block that is given up is one that was in use. */
  ghost predicate StepFits(s: Step, d: Disk, g: Layout, free: seq<bool>) {
    var b := StepOperation(s).blckno;
    && b < g.total && b < |d| && b < |free| && b != g.status && !free[b]
    && (s.Store? ==> exists latest :: Makes(s.op, d[b], latest))
  }

  lemma StepOpFits(s: Step, d: Disk, g: Layout, free: seq<bool>)
    requires StepFits(s, d, g, free)
    ensures OpFits(StepOperation(s), d, g, free)
  {
    hide Diff.Encode, Diff.Decode, Diff.Fits;
    var o := StepOperation(s);
    var x := d[o.blckno];
    if s.Free? {
      Diff.DecodeNothing(x);
    } else {
      var latest :| Makes(o, x, latest);
      MakesApplied(o, x, latest, x);
    }
  }

  lemma {:induction false} RunFits(t: Table, steps: seq<Step>, d: Disk, g: Layout, free: seq<bool>)
    requires TableFits(t, d, g, free) && forall i :: 0 <= i < |steps| ==> StepFits(steps[i], d, g, free)
    ensures TableFits(RunOf(t, steps), d, g, free)
  {
    hide OpFits, StepFits, StepOperation;
    if steps != [] {
      RunFits(t, steps[..|steps| - 1], d, g, free);
      StepOpFits(steps[|steps| - 1], d, g, free);
    }
  }

  /** Operations made against the disk still fit it when the transaction has ended. */
  lemma TransactionFits(t: Table, steps: seq<Step>, d: Disk, g: Layout, free: seq<bool>)
    requires SoundTable(t) && TableFits(t, d, g, free)
    requires forall i :: 0 <= i < |steps| ==> GoodStep(steps[i]) && StepFits(steps[i], d, g, free)
    ensures SoundTable(RunOf(t, steps)) && TableFits(Combined(RunOf(t, steps)), d, g, free)
  {
    hide OpFits, StepFits, RunOf;
    RunSound(t, steps);
    RunFits(t, steps, d, g, free);
    var r := RunOf(t, steps);
    forall k | k in Combined(r) ensures OpFits(Combined(r)[k], d, g, free) {
      assert k.0 in BlocksOf(r);
      BlockLevels(r, k.0);
    }
  }

  /** The store, read in order, is what a volume flushes. */
  lemma StoreFitsVolume(store: TransactionStore, v: Flush.Volume)
    requires store.Valid() && store.nest == 0 && v.Valid() && !IsUnfinished(v.blocks[v.g.status])
    requires v.operations == OpsOf(store.store.Contents())
    requires TableFits(store.Operations(), v.blocks, v.g, v.bitmap.free)
    ensures v.Flushable() && Lists(v.operations, store.Operations())
  {
    hide TransactionStore.Valid, TransactionStore.Operations, OpFits, Makes, Applied;
    StoreIsFlushable(store);
    forall i | 0 <= i < |v.operations| ensures OpFits(v.operations[i], v.blocks, v.g, v.bitmap.free) { }
    Fitting(v);
  }

  lemma Fitting(v: Flush.Volume)
    requires v.Valid() && !IsUnfinished(v.blocks[v.g.status])
    requires forall i :: 0 <= i < |v.operations| ==> OpFits(v.operations[i], v.blocks, v.g, v.bitmap.free)
    ensures v.Flushable()
  {
    hide Makes, Applied;
    forall i | 0 <= i < |v.operations| ensures OpFits(v.operations[i], v.blocks, v.g, v.bitmap.free) { }
  }

  // ----- A transaction whose flush is not atomic

  /** Longs in a block of 512 bytes. */
  const LONGS := 128

  function Zero(): Block { seq(LONGS, _ => 0) }

  function Changed(): Block { [7, 9] + seq(LONGS - 2, _ => 0) }

  /** The change of block 5. */
  ghost predicate IsChange(o: Operation) {
    && o.blckno == 5 && !o.IsDelete() && !o.IsEmpty() && 0 < |o.data| <= 514
    && Makes(o, Zero(), Changed())
  }

  lemma AChange() returns (o: Operation)
    ensures IsChange(o)
  {
    hide Diff.Encode, Diff.SameAs, Zero, Changed;
    BlockSizes();
    var same := Diff.SameAs(Zero(), Changed());
    Diff.EncodeBound(same, Changed());
    o := Operation(5, 0, Diff.Encode(same, Changed()), 0);
  }

  lemma BlockSizes()
    ensures |Zero()| == LONGS && |Changed()| == LONGS
  {
  }

  /** A transaction gives up block 3, for which there is no operation yet, and changes block 5. */
  function Steps(o: Operation): seq<Step> { [Free(3), Store(o)] }

  /** What its end leaves to be flushed: the deletion, which has no data, and the change behind it. */
  lemma DeletionReachesTheLog(o: Operation)
    requires IsChange(o)
    ensures forall i :: 0 <= i < |Steps(o)| ==> GoodStep(Steps(o)[i])
    ensures SoundTable(RunOf(map[], Steps(o)))
    ensures Lists([StepOperation(Free(3)), o], Combined(RunOf(map[], Steps(o))))
  {
    hide RunOf, SoundTable, Lists, Combined;
    GoodSteps(o);
    RunIs(o);
    CombinedIs(RunOf(map[], Steps(o)), StepOperation(Free(3)), o);
    ListsTwo(StepOperation(Free(3)), o);
  }

  lemma GoodSteps(o: Operation)
    requires IsChange(o)
    ensures forall i :: 0 <= i < |Steps(o)| ==> GoodStep(Steps(o)[i])
    ensures SoundTable(RunOf(map[], Steps(o)))
  {
    hide RunOf, Makes, SoundTable;
    EmptySound();
    RunSound(map[], Steps(o));
  }

  lemma EmptySound()
    ensures SoundTable(map[])
  {
  }

  lemma ListsTwo(a: Operation, b: Operation)
    requires a.blckno == 3 && b.blckno == 5
    ensures Lists([a, b], map[(3, 0) := a, (5, 0) := b])
  {
    var ops := [a, b];
    assert ops[0].blckno == 3 && ops[1].blckno == 5;
  }

  lemma CombinedIs(r: Table, a: Operation, b: Operation)
    requires a.blckno == 3 && b.blckno == 5 && r == map[(3, 1) := a, (5, 1) := b] && SoundTable(r)
    ensures Combined(r) == map[(3, 0) := a, (5, 0) := b]
  {
    hide SoundTable;
    assert (3, 1) in r && (5, 1) in r;
    assert BlocksOf(r) == {3, 5};
  }

  lemma RunIs(o: Operation)
    requires IsChange(o)
    ensures RunOf(map[], Steps(o)) == map[(3, 1) := StepOperation(Free(3)), (5, 1) := o]
  {
    hide Makes;
    var one := Steps(o)[..1];
    assert one == [Free(3)] && one[..0] == [];
    assert RunOf(map[], one[..0]) == map[];
    assert RunOf(map[], one) == map[(3, 1) := StepOperation(Free(3))];
  }

  /** Blocks for the log of these operations. */
  ghost function LogFor(ops: seq<Operation>): seq<nat> {
    var n := |Chunks(Stream(ops), 4 * (LONGS - STORAGE_HEADER))|;
    if n <= 2 then [4, 6][..n] else []
  }

  /** The flush of those operations on a partition of 12 blocks of 512 bytes. */
  ghost function Fatal(o: Operation): (job: Job) {
    var g := Layout(12, LONGS, 2);
    var ops := [StepOperation(Free(3)), o];
    Job(g, seq(12, _ => Zero()), ops, LogFor(ops))
  }

  /** The operations take at most two blocks of log. */
  lemma FatalLog(o: Operation)
    requires IsChange(o)
    ensures |Chunks(Stream([StepOperation(Free(3)), o]), 496)| <= 2
    ensures |Chunks(Stream([o]), 496)| <= 2
  {
    hide Chunks;
    var ops := [StepOperation(Free(3)), o];
    StreamUnfold(ops);
    assert ops[1..] == [o];
    StreamUnfold([o]);
    assert [o][1..] == [];
    StreamNothing();
    TwoChunks(Stream(ops));
    TwoChunks(Stream([o]));
  }

  lemma TwoChunks(s: seq<Byte>)
    requires |s| <= 992
    ensures |Chunks(s, 496)| <= 2
  {
  }

  lemma FatalLatest(o: Operation)
    requires IsChange(o)
    ensures Makes(StepOperation(Free(3)), Zero(), Zero()) && Applied(Zero(), StepOperation(Free(3))) == Zero()
    ensures Makes(o, Zero(), Changed()) && Applied(Zero(), o) == Changed()
  {
    hide Diff.Encode, Diff.Decode, Diff.Fits;
    Diff.DecodeNothing(Zero());
    MakesApplied(o, Zero(), Changed(), Zero());
  }

  lemma FatalIsValid(o: Operation)
    requires IsChange(o)
    ensures Fatal(o).Valid() && Fatal(o).ops == [StepOperation(Free(3)), o] && Fatal(o).g == Layout(12, LONGS, 2)
    ensures Fatal(o).disk == seq(12, _ => Zero())
  {
    hide Chunks, Stream, Makes, Applied, Zero, Changed;
    FatalLog(o);
    FatalLatest(o);
    assert |Zero()| == LONGS && Zero()[0] == 0 by { ZeroIs(); }
  }

  lemma ZeroIs()
    ensures |Zero()| == LONGS && forall j :: 0 <= j < LONGS ==> Zero()[j] == 0
  {
  }

  /** The job is possible and not safe: nothing behind the deletion is in the log, and two longs of
      block 5 change. */
  lemma FatalIsUnsafe(o: Operation)
    requires IsChange(o)
    ensures Fatal(o).Valid() && !Safe(Fatal(o))
  {
    hide Chunks, Stream, Makes, Applied, Fatal, Job.Valid;
    FatalIsValid(o);
    FatalLatest(o);
    var job := Fatal(o);
    assert Logged(job.ops) == [];
    assert Changes(job, 1, 0) && Changes(job, 1, 1);
  }

  /** That transaction can end up with a part of its changes on disk: after some crashes and the
      recoveries from them the targets are neither all old nor all new. */
  lemma FreedBlockBreaksAtomicity() returns (o: Operation, job: Job, images: seq<Disk>, final: Disk)
    ensures IsChange(o)
    ensures SoundTable(RunOf(map[], Steps(o))) && Lists(job.ops, Combined(RunOf(map[], Steps(o))))
    ensures job.Valid() && Mixes(job, images, final)
  {
    hide Fatal, Steps, RunOf, Safe, Lists, Outcome, AllOld, AllNew, Job.Valid, Combined, SoundTable;
    o := AChange();
    job := Fatal(o);
    FatalIsUnsafe(o);
    FatalIsValid(o);
    DeletionReachesTheLog(o);
    images, final := UnsafeIsNotAtomic(job);
  }

  /** Crashes that leave `images` end with some targets old and some new. */
  ghost predicate Mixes(job: Job, images: seq<Disk>, final: Disk)
    requires job.Valid()
  {
    Outcome(job, images, final) && |final| == job.g.total && !AllOld(job, final) && !AllNew(job, final)
  }

  // ----- A log on blocks that were freed

  /** Block b is in use in this bitmap. */
  predicate InUse(before: seq<bool>, b: nat) { b < |before| && !before[b] }

  /** Block b was given back between the two bitmaps. */
  predicate FreedSince(before: seq<bool>, free: seq<bool>, b: nat) {
    InUse(before, b) && b < |free| && free[b]
  }

  /** A crash before the transaction is committed leaves what the disk had in use, by its own bitmap, as
      it was: recovery has nothing to do then, and the old state counts. */
  ghost predicate EarlyCrashKeepsUsed(job: Job, before: seq<bool>)
    requires job.Valid()
  {
    forall j: nat, img :: PowerFails(job.disk, job.FlushBatches(), 0, j, job.Atomic(), img) ==>
      |img| == job.g.total && forall b: nat :: b < job.g.total && InUse(before, b) ==> img[b] == job.disk[b]
  }

  /** The log goes to no block that was in use, unless it finds itself there already. */
  ghost predicate LogSparesUsed(job: Job, before: seq<bool>)
    requires job.Valid()
  {
    forall k: nat :: k < |job.log| && InUse(before, job.log[k]) ==> job.LogPuts()[k].image == job.disk[job.log[k]]
  }

  lemma EarlyCrash(job: Job, before: seq<bool>)
    requires job.Valid()
    ensures EarlyCrashKeepsUsed(job, before) <==> LogSparesUsed(job, before)
  {
    hide Makes, Stream, Chunks, Applied, StorageBlock, PowerFails, Run, Job.LogPuts, Job.FlushBatches, IsUnfinished;
    if LogSparesUsed(job, before) {
      forall j: nat, img | PowerFails(job.disk, job.FlushBatches(), 0, j, job.Atomic(), img)
        ensures |img| == job.g.total && forall b: nat :: b < job.g.total && InUse(before, b) ==> img[b] == job.disk[b]
      {
        EarlyCrashSize(job, j, img);
        forall b: nat | b < job.g.total && InUse(before, b) ensures img[b] == job.disk[b] {
          EarlyCrashBlock(job, j, img, b);
        }
      }
    } else {
      var k: nat :| k < |job.log| && InUse(before, job.log[k]) && job.LogPuts()[k].image != job.disk[job.log[k]];
      LogAllWritten(job, k);
      assert Run(job.disk, job.LogPuts())[job.log[k]] != job.disk[job.log[k]];
    }
  }

  lemma EarlyCrashSize(job: Job, j: nat, img: Disk)
    requires job.Valid() && PowerFails(job.disk, job.FlushBatches(), 0, j, job.Atomic(), img)
    ensures j <= |job.log| && |img| == job.g.total && CrashImage(job.disk, job.LogPuts()[..j], job.Atomic(), img)
  {
    hide Makes, Stream, Chunks, Applied, StorageBlock, IsUnfinished, CrashImage;
    LogPutsAre(job);
    RunAllNone(job.disk);
    assert job.FlushBatches()[..0] == [];
    CrashSameSize(job.disk, job.LogPuts()[..j], job.Atomic(), img);
  }

  /** A block is as it was, or holds the part of the log that goes there. */
  lemma EarlyCrashBlock(job: Job, j: nat, img: Disk, b: nat)
    requires job.Valid() && b < job.g.total && PowerFails(job.disk, job.FlushBatches(), 0, j, job.Atomic(), img)
    ensures |img| == job.g.total && |job.LogPuts()| == |job.log|
    ensures img[b] == job.disk[b] ||
      exists k: nat :: k < |job.log| && job.log[k] == b && job.LogPuts()[k].image == img[b]
  {
    hide Makes, Stream, Chunks, Applied, StorageBlock, IsUnfinished, Job.FlushBatches, PowerFails;
    EarlyCrashSize(job, j, img);
    LogPutsAre(job);
    var puts := job.LogPuts();
    if k: nat :| k < |job.log| && job.log[k] == b {
      assert b in job.Atomic();
      assert Either(job.disk[b], puts[..j], b, img[b]);
      if img[b] != job.disk[b] {
        var m :| 0 <= m < j && puts[..j][m] == Put(b, img[b]);
        assert job.log[m] == b && puts[m].image == img[b];
      }
    } else {
      CrashKeeps(job.disk, puts[..j], job.Atomic(), img, b);
    }
  }

  /** The power may fail when all of the log is written. */
  lemma LogAllWritten(job: Job, k: nat)
    requires job.Valid() && k < |job.log|
    ensures var img := Run(job.disk, job.LogPuts());
      && PowerFails(job.disk, job.FlushBatches(), 0, |job.LogPuts()|, job.Atomic(), img)
      && |img| == job.g.total && img[job.log[k]] == job.LogPuts()[k].image
  {
    hide Makes, Stream, Chunks, Applied, StorageBlock, IsUnfinished, CrashImage, Run, StatusBlock;
    LogPutsAre(job);
    RunAllNone(job.disk);
    var puts := job.LogPuts();
    assert job.FlushBatches()[..0] == [] && puts[..|puts|] == puts;
    LogPutSizes(job);
    RunIsCrashImage(job.disk, puts, job.Atomic());
    RunWrites(job.disk, puts, k);
  }

  lemma LogPutSizes(job: Job)
    requires job.Valid()
    ensures |job.LogPuts()| == |job.log| == |job.Pieces()|
    ensures forall k :: 0 <= k < |job.log| ==> |job.LogPuts()[k].image| == |job.disk[job.LogPuts()[k].block]|
  {
    hide Makes, Stream, Applied, IsUnfinished;
    LogPutsAre(job);
  }

  /** Nothing on the disk looks like a log: then a crash before the transaction is committed keeps what
      was in use if and only if no block of the log is one that was freed since. */
  lemma EarlyCrashJust(job: Job, before: seq<bool>, free: seq<bool>)
    requires job.Valid() && Flush.FreeDistinct(free, job.log)
    requires forall b: nat :: b < job.g.total && InUse(before, b) ==> job.disk[b][0] != TRANSACTIONSTORAGE_ID
    ensures EarlyCrashKeepsUsed(job, before) <==>
      forall k: nat :: k < |job.log| ==> !FreedSince(before, free, job.log[k])
  {
    hide Makes, Stream, Chunks, Applied, IsUnfinished, EarlyCrashKeepsUsed;
    EarlyCrash(job, before);
    LogPutsAre(job);
  }

  /** It does not always: block 4, in use on disk, was freed by a change of block 5, the bitmap, and the
      log of that change goes to it. */
  lemma FreedBlockOverwritten() returns (o: Operation, job: Job, before: seq<bool>, free: seq<bool>)
    ensures IsChange(o) && job.Valid() && job.ops == [o] && CrashAtomic(job) && Flush.FreeDistinct(free, job.log)
    ensures FreedSince(before, free, 4) && (forall b: nat :: b < 12 && b != 4 ==> !FreedSince(before, free, b))
    ensures !EarlyCrashKeepsUsed(job, before)
  {
    hide Chunks, Stream, Makes, Applied, Zero, Changed, Job.Valid, CrashAtomic, EarlyCrashKeepsUsed;
    o := AChange();
    job := Job(Layout(12, LONGS, 2), seq(12, _ => Zero()), [o], LogFor([o]));
    free := seq(12, b requires 0 <= b => b !in {0, 2, 3, 5, 11});
    before := seq(12, b requires 0 <= b => b !in {0, 2, 3, 4, 5, 11});
    ReuseIsValid(o, job);
    NoDeletesIsAtomic(job);
    ZeroIs();
    EarlyCrashJust(job, before, free);
    assert FreedSince(before, free, job.log[0]);
  }

  lemma ReuseIsValid(o: Operation, job: Job)
    requires IsChange(o) && job == Job(Layout(12, LONGS, 2), seq(12, _ => Zero()), [o], LogFor([o]))
    ensures job.Valid() && 1 <= |job.log| <= 2 && job.log[0] == 4 && (|job.log| == 2 ==> job.log[1] == 6)
  {
    hide Chunks, Stream, Makes, Applied, Zero, Changed;
    FatalLog(o);
    FatalLatest(o);
    assert |Zero()| == LONGS && Zero()[0] == 0 by { ZeroIs(); }
  }
}
