/** The procedures of FS/transactions.c that carry out the commit protocol: they issue exactly
    the batches of writes that `Journal` reasons about. */
module Flush {
  import opened Words
  import Diff
  import opened Log
  import opened Journal
  import opened Space
  import opened Bitmap

  // ----- Where the log goes

  /** How far round the partition block b lies from the roving block pointer. */
  ghost function Rank(total: nat, roving: nat, b: nat): int {
    if roving <= b then b - roving else b + total - roving
  }

  /** The blocks of the log are free, lie in order round the partition from the roving pointer,
      and leave out no free block up to `limit`. */
  ghost predicate Placed(free: seq<bool>, total: nat, roving: nat, log: seq<nat>, limit: int) {
    && total <= |free| && roving < total
    && (forall k :: 0 <= k < |log| ==> log[k] < total && free[log[k]] && Rank(total, roving, log[k]) <= limit)
    && (forall k, l :: 0 <= k < l < |log| ==> Rank(total, roving, log[k]) < Rank(total, roving, log[l]))
    && (forall b :: 0 <= b < total && free[b] && Rank(total, roving, b) <= limit ==> b in log)
  }

  /** Where the search for the block after `last` begins; the first search begins at the
      roving pointer itself. */
  ghost predicate SearchFrom(total: nat, roving: nat, limit: int, start: nat) {
    && start < total && limit >= -1
    && (limit == -1 ==> start == roving)
    && (limit >= 0 ==> start != roving && start > 0 && Rank(total, roving, start - 1) == limit)
  }

  lemma PlaceNext(free: seq<bool>, total: nat, roving: nat, log: seq<nat>, limit: int, start: nat, block: nat)
    requires Placed(free, total, roving, log, limit) && SearchFrom(total, roving, limit, start)
    requires Found(free, 1, start, if roving == 0 then total else roving, total, block, 1)
    ensures Placed(free, total, roving, log + [block], Rank(total, roving, block))
    ensures block < total && free[block] && Rank(total, roving, block) > limit
  {
    assert AllFree(free, block, 1);
    forall b | 0 <= b < total && free[b] && Rank(total, roving, b) <= Rank(total, roving, block)
      ensures b in log + [block]
    {
      if Rank(total, roving, b) > limit {
        assert AllFree(free, b, 1);
        assert InArea(start, if roving == 0 then total else roving, total, b, 1);
        assert !Before(start, b, block);
        assert b == block;
        assert (log + [block])[|log|] == block;
      } else {
        var k :| 0 <= k < |log| && log[k] == b;
        assert (log + [block])[k] == b;
      }
    }
  }

  lemma PlaceNone(free: seq<bool>, total: nat, roving: nat, log: seq<nat>, limit: int, start: nat)
    requires Placed(free, total, roving, log, limit) && SearchFrom(total, roving, limit, start)
    requires forall q :: AllFree(free, q, 1) ==> !InArea(start, if roving == 0 then total else roving, total, q, 1)
    ensures forall b :: 0 <= b < total && free[b] ==> b in log
  {
    forall b | 0 <= b < total && free[b] ensures b in log {
      assert AllFree(free, b, 1);
      assert !InArea(start, if roving == 0 then total else roving, total, b, 1);
    }
  }

  lemma PlaceFull(free: seq<bool>, total: nat, roving: nat, log: seq<nat>, limit: int, start: nat)
    requires Placed(free, total, roving, log, limit)
    requires start == roving > 0 && Rank(total, roving, start - 1) == limit
    ensures forall b :: 0 <= b < total && free[b] ==> b in log
  {
  }

  // ----- The log as it is written

  /** The log written so far (blocks `log`, data areas `pieces`) and the stream still to be
      written make up the whole log. */
  ghost predicate LogSoFar(all: seq<seq<Byte>>, pieces: seq<seq<Byte>>, rest: seq<Byte>, cap: nat) {
    cap > 0 && all == pieces + Chunks(rest, cap)
  }

  lemma LogContinues(all: seq<seq<Byte>>, pieces: seq<seq<Byte>>, rest: seq<Byte>, cap: nat)
    requires LogSoFar(all, pieces, rest, cap)
    ensures |rest| <= cap ==> all == pieces + [rest + Zeros(cap - |rest|)]
    ensures |rest| > cap ==> LogSoFar(all, pieces + [rest[..cap]], rest[cap..], cap)
  {
    hide Zeros;
  }

  /** `puts` are the writes of the blocks of `log`; `next` is the block behind them. */
  ghost predicate StoragePuts(puts: seq<Put>, log: seq<nat>, pieces: seq<seq<Byte>>, next: nat) {
    && |puts| == |log| == |pieces| && next < LONG_LIMIT
    && (forall k :: 0 <= k < |log| ==> log[k] < LONG_LIMIT)
    && (forall k :: 0 <= k < |log| ==> |pieces[k]| % 4 == 0)
    && (forall k {:trigger puts[k]} ::
        0 <= k < |log| ==> puts[k] == StoragePutTo(log[k], if k + 1 < |log| then log[k + 1] else next, pieces[k]))
  }

  function StoragePutTo(block: Long, next: Long, data: seq<Byte>): Put
    requires |data| % 4 == 0
  {
    Put(block, StorageBlock(block, next, data))
  }

  lemma StoragePutsSnoc(puts: seq<Put>, log: seq<nat>, pieces: seq<seq<Byte>>, block: nat, data: seq<Byte>, next: nat)
    requires StoragePuts(puts, log, pieces, block)
    requires next < LONG_LIMIT && |data| % 4 == 0
    ensures StoragePuts(puts + [StoragePutTo(block, next, data)], log + [block], pieces + [data], next)
  {
    hide StorageBlock;
    var puts', log', pieces' := puts + [StoragePutTo(block, next, data)], log + [block], pieces + [data];
    assert puts'[|log|] == StoragePutTo(block, next, data) && log'[|log|] == block && pieces'[|log|] == data;
    forall k | 0 <= k < |log'|
      ensures log'[k] < LONG_LIMIT && |pieces'[k]| % 4 == 0
      ensures puts'[k] == StoragePutTo(log'[k], if k + 1 < |log'| then log'[k + 1] else next, pieces'[k])
    {
      if k < |log| {
        assert puts'[k] == puts[k] && log'[k] == log[k] && pieces'[k] == pieces[k];
        assert k + 1 < |log| ==> log'[k + 1] == log[k + 1];
      }
    }
  }

  /** `savetransaction` is about to write block `blckno`, with `rest` of the stream to go. */
  ghost predicate Saving(free: seq<bool>, total: nat, roving: nat, all: seq<seq<Byte>>, cap: nat,
                         log: seq<nat>, pieces: seq<seq<Byte>>, rest: seq<Byte>, puts: seq<Put>, blckno: nat) {
    && total < LONG_LIMIT && blckno < total && cap % 4 == 0 && |free| >= total
    && Placed(free, total, roving, log + [blckno], Rank(total, roving, blckno))
    && LogSoFar(all, pieces, rest, cap)
    && StoragePuts(puts, log, pieces, blckno)
  }

  lemma SavingStarts(free: seq<bool>, total: nat, roving: nat, stream: seq<Byte>, cap: nat, blckno: nat)
    requires total < LONG_LIMIT && roving < total <= |free| && cap % 4 == 0 && cap > 0
    requires Found(free, 1, roving, if roving == 0 then total else roving, total, blckno, 1)
    ensures blckno < total
    ensures Saving(free, total, roving, Chunks(stream, cap), cap, [], [], stream, [], blckno)
  {
    hide Chunks, Found;
    PlaceNext(free, total, roving, [], -1, roving, blckno);
    assert [] + [blckno] == [blckno];
  }

  lemma SavingGoesOn(free: seq<bool>, total: nat, roving: nat, all: seq<seq<Byte>>, cap: nat,
                     log: seq<nat>, pieces: seq<seq<Byte>>, rest: seq<Byte>, puts: seq<Put>, blckno: nat, next: nat)
    requires Saving(free, total, roving, all, cap, log, pieces, rest, puts, blckno)
    requires |rest| > cap && !free[total - 1] && blckno + 1 != roving
    requires Found(free, 1, blckno + 1, if roving == 0 then total else roving, total, next, 1)
    ensures blckno + 1 < total && next < total
    ensures Saving(free, total, roving, all, cap, log + [blckno], pieces + [rest[..cap]], rest[cap..],
                   puts + [StoragePutTo(blckno, next, rest[..cap])], next)
  {
    hide Chunks, Found, StoragePuts, StorageBlock, Placed, LogSoFar;
    PlacedLast(free, total, roving, log, blckno);
    PlaceNext(free, total, roving, log + [blckno], Rank(total, roving, blckno), blckno + 1, next);
    LogContinues(all, pieces, rest, cap);
    StoragePutsSnoc(puts, log, pieces, blckno, rest[..cap], next);
  }

  lemma PlacedLast(free: seq<bool>, total: nat, roving: nat, log: seq<nat>, blckno: nat)
    requires Placed(free, total, roving, log + [blckno], Rank(total, roving, blckno))
    ensures blckno < total <= |free| && free[blckno] && 0 <= Rank(total, roving, blckno)
  {
    assert (log + [blckno])[|log|] == blckno;
  }

  lemma SavingEnds(free: seq<bool>, total: nat, roving: nat, all: seq<seq<Byte>>, cap: nat,
                   log: seq<nat>, pieces: seq<seq<Byte>>, rest: seq<Byte>, puts: seq<Put>, blckno: nat)
    requires Saving(free, total, roving, all, cap, log, pieces, rest, puts, blckno)
    requires |rest| <= cap
    ensures StoragePuts(puts + [StoragePutTo(blckno, 0, rest + Zeros(cap - |rest|))], log + [blckno], all, 0)
  {
    hide Chunks, StorageBlock, Placed, Zeros, LogSoFar, StoragePuts;
    LogContinues(all, pieces, rest, cap);
    StoragePutsSnoc(puts, log, pieces, blckno, rest + Zeros(cap - |rest|), 0);
  }

  /** Giving up means that every free block is already part of the log. */
  lemma SavingFails(free: seq<bool>, total: nat, roving: nat, all: seq<seq<Byte>>, cap: nat,
                    log: seq<nat>, pieces: seq<seq<Byte>>, rest: seq<Byte>, puts: seq<Put>, blckno: nat)
    requires Saving(free, total, roving, all, cap, log, pieces, rest, puts, blckno)
    requires |rest| > cap && total <= |free| && blckno < total && !free[total - 1]
    requires blckno + 1 == roving
          || forall q :: AllFree(free, q, 1) ==> !InArea(blckno + 1, if roving == 0 then total else roving, total, q, 1)
    ensures forall b :: 0 <= b < total && free[b] ==> b in log + [blckno]
    ensures |log + [blckno]| < |all|
  {
    hide StoragePuts, Placed, AllFree, InArea;
    LogContinues(all, pieces, rest, cap);
    assert |log| == |pieces| by { StoragePutsSize(puts, log, pieces, blckno); }
    PlacedLast(free, total, roving, log, blckno);
    if blckno + 1 == roving {
      PlaceFull(free, total, roving, log + [blckno], Rank(total, roving, blckno), roving);
    } else {
      PlaceNone(free, total, roving, log + [blckno], Rank(total, roving, blckno), blckno + 1);
    }
  }

  lemma StoragePutsSize(puts: seq<Put>, log: seq<nat>, pieces: seq<seq<Byte>>, next: nat)
    requires StoragePuts(puts, log, pieces, next)
    ensures |log| == |pieces| == |puts|
    ensures forall k :: 0 <= k < |puts| ==> puts[k].block == log[k]
  {
  }

  lemma SavingInside(free: seq<bool>, total: nat, roving: nat, all: seq<seq<Byte>>, cap: nat,
                     log: seq<nat>, pieces: seq<seq<Byte>>, rest: seq<Byte>, puts: seq<Put>, blckno: nat)
    requires Saving(free, total, roving, all, cap, log, pieces, rest, puts, blckno) && !free[total - 1]
    ensures blckno + 1 < total
  {
    PlacedLast(free, total, roving, log, blckno);
  }

  lemma SavingBlocks(free: seq<bool>, total: nat, roving: nat, all: seq<seq<Byte>>, cap: nat,
                     log: seq<nat>, pieces: seq<seq<Byte>>, rest: seq<Byte>, puts: seq<Put>, blckno: nat)
    requires Saving(free, total, roving, all, cap, log, pieces, rest, puts, blckno) && total > 0 && !free[0]
    ensures FreeDistinct(free, log + [blckno])
    ensures forall k :: 0 <= k < |log + [blckno]| ==> 0 < (log + [blckno])[k] < total
    ensures |puts| == |log| && forall k :: 0 <= k < |puts| ==> puts[k].block in log + [blckno]
    ensures Placed(free, total, roving, log + [blckno], Rank(total, roving, blckno))
  {
    hide StorageBlock;
    PlacedFreeDistinct(free, total, roving, log + [blckno], Rank(total, roving, blckno));
    StoragePutsSize(puts, log, pieces, blckno);
    forall k | 0 <= k < |puts| ensures puts[k].block in log + [blckno] {
      assert (log + [blckno])[k] == log[k];
    }
  }

  lemma SavingImpossible(free: seq<bool>, total: nat, roving: nat)
    requires roving < total <= |free|
    requires forall q :: AllFree(free, q, 1) ==> !InArea(roving, if roving == 0 then total else roving, total, q, 1)
    ensures forall b :: 0 <= b < total ==> !free[b]
    ensures FreeDistinct(free, [])
  {
    PlaceNone(free, total, roving, [], -1, roving);
  }

  /** What the blocks found for the log have in common. */
  ghost predicate FreeDistinct(free: seq<bool>, log: seq<nat>) {
    && (forall k :: 0 <= k < |log| ==> log[k] < |free| && free[log[k]])
    && (forall k, l :: 0 <= k < l < |log| ==> log[k] != log[l])
  }

  lemma PlacedFreeDistinct(free: seq<bool>, total: nat, roving: nat, log: seq<nat>, limit: int)
    requires Placed(free, total, roving, log, limit)
    ensures FreeDistinct(free, log) && forall k :: 0 <= k < |log| ==> log[k] < total
  {
  }

  lemma RunNothing(d: Disk)
    ensures Run(d, []) == d
  {
  }

  lemma LayoutFacts(g: Layout)
    requires g.Valid()
    ensures g.Capacity() % 4 == 0 && g.Capacity() > 0
    ensures 0 < g.total < LONG_LIMIT && g.longs == STORAGE_HEADER + g.Capacity() / 4
  {
  }

  lemma AllZeros(data: seq<Byte>)
    requires forall k :: 0 <= k < |data| ==> data[k] == 0
    ensures data == Zeros(|data|)
  {
  }

  // ----- Rewriting the targets

  /** Operation o can be applied to its block on disk d, and if it needs no original the result
      does not depend on what it is applied to. */
  ghost predicate Rebuilds(o: Operation, d: Disk, g: Layout) {
    && o.blckno < |d| && |d[o.blckno]| == g.longs
    && (o.IsEmpty() ==> forall junk: Block :: |junk| == g.longs ==> Applied(junk, o) == Applied(d[o.blckno], o))
  }

  lemma RebuildsOver(o: Operation, d: Disk, g: Layout, junk: Block)
    requires Rebuilds(o, d, g) && o.IsEmpty() && |junk| == g.longs
    ensures Applied(junk, o) == Applied(d[o.blckno], o)
  {
  }

  lemma MakesRebuilds(o: Operation, d: Disk, g: Layout, org: Block, latest: Block)
    requires Makes(o, org, latest) && o.blckno < |d| && |d[o.blckno]| == g.longs == |org|
    ensures Rebuilds(o, d, g)
  {
    hide Makes, Applied;
    if o.IsEmpty() {
      forall junk: Block | |junk| == g.longs ensures Applied(junk, o) == Applied(d[o.blckno], o) {
        MakesSize(o, org, latest);
        EmptyApplied(o, org, latest, junk);
        EmptyApplied(o, org, latest, d[o.blckno]);
      }
    }
  }

  lemma MakesSize(o: Operation, org: Block, latest: Block)
    requires Makes(o, org, latest)
    ensures |org| == |latest|
  {
  }

  lemma AscendingTail(ops: seq<Operation>)
    requires Ascending(ops) && ops != []
    ensures Ascending(ops[1..])
  {
  }

  lemma RewriteOne(start: Disk, ops: seq<Operation>, i: nat, g: Layout)
    requires Ascending(ops) && i < |ops|
    requires forall k :: 0 <= k < |ops| ==> Rebuilds(ops[k], start, g)
    ensures var o, puts := ops[i], RewritePuts(start, ops);
      && o.blckno < |start| && |start[o.blckno]| == g.longs
      && Run(start, puts[..i])[o.blckno] == start[o.blckno]
      && puts[..i + 1] == puts[..i] + [Put(o.blckno, Applied(start[o.blckno], o))]
  {
    hide Applied, Run;
    assert Rebuilds(ops[i], start, g);
    RunKeeps(start, RewritePuts(start, ops)[..i], ops[i].blckno);
  }

  // ----- A flush put together

  lemma JobIsValid(job: Job, free: seq<bool>, puts: seq<Put>)
    requires job.g.Valid() && |job.disk| == job.g.total <= |free| && !free[job.g.status]
    requires forall b :: 0 <= b < job.g.total ==> |job.disk[b]| == job.g.longs
    requires !IsUnfinished(job.disk[job.g.status]) && Ascending(job.ops)
    requires forall i :: 0 <= i < |job.ops| ==>
      var o := job.ops[i];
      && o.blckno < job.g.total && o.blckno != job.g.status && !free[o.blckno]
      && Makes(o, job.disk[o.blckno], Applied(job.disk[o.blckno], o))
    requires FreeDistinct(free, job.log) && forall k :: 0 <= k < |job.log| ==> 0 < job.log[k] < job.g.total
    requires StoragePuts(puts, job.log, Chunks(Stream(job.ops), job.g.Capacity()), 0)
    ensures job.Valid() && job.LogPuts() == puts
  {
    hide Stream, Chunks, Applied, Makes, StorageBlock, IsUnfinished;
    StoragePutsSize(puts, job.log, job.Pieces(), 0);
    assert job.Valid();
    LogPutsAre(job);
    forall k | 0 <= k < |puts| ensures job.LogPuts()[k] == puts[k] {
      assert job.LogPuts()[k] == StoragePut(job.log, k, job.Pieces()[k]);
    }
  }

  /** With log and mark written, the targets are still as they were. */
  lemma TargetsAfterLog(job: Job, d: Disk, first: nat)
    requires job.Valid() && job.log != [] && first == job.log[0]
    requires d == Run(job.disk, job.LogPuts())[job.g.status := StatusBlock(job.g, TRANSACTIONFAILURE_ID, first)]
    ensures forall i :: 0 <= i < |job.ops| ==> Rebuilds(job.ops[i], d, job.g)
    ensures RewritePuts(d, job.ops) == job.TargetPuts()
  {
    hide Stream, Chunks, Applied, Makes, StorageBlock, IsUnfinished, Run, StatusBlock, Rebuilds, LogOnDisk;
    LogWritten(job);
    forall i | 0 <= i < |job.ops|
      ensures d[job.ops[i].blckno] == job.disk[job.ops[i].blckno]
      ensures Rebuilds(job.ops[i], d, job.g)
    {
      LatestSize(job, i);
      MakesRebuilds(job.ops[i], d, job.g, job.disk[job.ops[i].blckno], job.Latest(i));
    }
  }

  lemma BatchesOf(job: Job)
    requires job.Valid()
    ensures job.FlushBatches()
        == [job.LogPuts()] + [[Put(job.g.status, StatusBlock(job.g, TRANSACTIONFAILURE_ID, job.log[0]))]]
              + [job.TargetPuts()] + [[Put(job.g.status, StatusBlock(job.g, TRANSACTIONOK_ID, 0))]]
    ensures RunAll(job.disk, job.FlushBatches())
         == Run(Run(job.disk, job.LogPuts())[job.g.status := StatusBlock(job.g, TRANSACTIONFAILURE_ID, job.log[0])],
                job.TargetPuts())[job.g.status := StatusBlock(job.g, TRANSACTIONOK_ID, 0)]
  {
    hide Stream, Chunks, Applied, Makes, StorageBlock, IsUnfinished, Run, RunAll, StatusBlock, LogOnDisk;
    FlushStages(job);
  }

  /** The free blocks do not suffice for the log of `ops`, and all that has been written went to
      free blocks. */
  ghost predicate TooFewBlocks(free: seq<bool>, g: Layout, ops: seq<Operation>, puts: seq<Put>)
    requires g.Valid() && g.total <= |free|
  {
    && (forall k :: 0 <= k < |puts| ==> puts[k].block < g.total && free[puts[k].block])
    && exists log: seq<nat> :: FreeDistinct(free, log) && |log| < |Chunks(Stream(ops), g.Capacity())|
         && forall b :: 0 <= b < g.total && free[b] ==> b in log
  }

  lemma NoRoom(free: seq<bool>, g: Layout, ops: seq<Operation>, log: seq<nat>, puts: seq<Put>)
    requires g.Valid() && g.total <= |free|
    requires FreeDistinct(free, log) && forall k :: 0 <= k < |log| ==> 0 < log[k] < g.total
    requires forall k :: 0 <= k < |puts| ==> puts[k].block in log
    requires |log| < |Chunks(Stream(ops), g.Capacity())|
    requires forall b :: 0 <= b < g.total && free[b] ==> b in log
    ensures TooFewBlocks(free, g, ops, puts)
  {
    hide Stream, Chunks;
  }

  // ----- Reading a log

  lemma BetweenNothing()
    ensures Between([], 0)
  {
  }

  lemma ChainStep(d: Disk, block: nat, chain: seq<nat>)
    requires ChainOn(d, block, chain) && block != 0
    ensures chain != [] && block < |d| && |d[block]| > STORAGE_HEADER
    ensures ChainOn(d, d[block][3], chain[1..])
    ensures ChainBytes(d, chain) == DataOf(d[block]) + ChainBytes(d, chain[1..])
    ensures |DataOf(d[block])| % 2 == 0
  {
    hide DataOf;
    EvenData(d[block]);
  }

  lemma EvenData(b: Block)
    ensures |DataOf(b)| % 2 == 0
  {
    if |b| >= STORAGE_HEADER {
      BytesOfSize(b[STORAGE_HEADER..]);
    }
  }

  lemma BytesOfSize(longs: seq<Long>)
    ensures |BytesOf(longs)| % 2 == 0
  {
    hide *;
    FourFold(|longs|);
  }

  lemma EvenIsEven(n: nat)
    ensures 2 * n % 2 == 0
  {
  }

  lemma FourFold(n: nat)
    ensures 4 * n % 2 == 0
  {
    EvenIsEven(2 * n);
  }

  lemma ChainEnds(d: Disk, chain: seq<nat>)
    requires ChainOn(d, 0, chain)
    ensures ChainBytes(d, chain) == []
  {
  }

  /** Behind the last block of a whole log no record is half read. */
  lemma LastRecord(rec: seq<Byte>, length: nat)
    requires Between(rec, length) && rec != [] && Whole(rec + [])
    ensures length == 0 && IsRecord(rec) && Parse(rec + []) == [OperationOf(rec)]
  {
    hide Parse, Whole, OperationOf;
    assert rec + [] == rec;
    WholeRecord(rec);
    assert IsRecord(rec);
    ParseRecord(rec, []);
    ParseNothing();
  }

  // ----- A recovery put together

  /** What recovery meets: a status block that is in order, and with an unfinished transaction a
      whole log whose operations can be applied to the disk as it is. */
  lemma RecoveryCase(job: Job, d: Disk)
    requires job.Valid() && Known(job, d)
    requires |d| == job.g.total && forall b :: 0 <= b < |d| ==> |d[b]| == job.g.longs
    ensures var s := d[job.g.status];
      if s[0] == TRANSACTIONFAILURE_ID then
        && s[2] == job.g.status && ChainOn(d, s[3], job.log) && Whole(ChainBytes(d, job.log))
        && Ascending(Reloaded(d, job.log))
        && forall i :: 0 <= i < |Reloaded(d, job.log)| ==> Rebuilds(Reloaded(d, job.log)[i], d, job.g)
      else RecoverBatches(job.g, d, job.log) == [] && RunAll(d, []) == d
  {
    hide Stream, Chunks, Run, Applied, Makes, Rebuilds, Reloaded, RewritePuts, ChainOn, Whole, ChainBytes,
      LogOnDisk, StorageBlock, Diff.Torn, NotStarted, CarriedOut, Ascending;
    RunAllNone(d);
    if Committed(job, d) {
      CommittedLog(job, d);
    } else {
      NotUnfinished(job, d);
      NotUnfinishedStatus(job, d);
    }
  }

  lemma NotUnfinishedStatus(job: Job, d: Disk)
    requires job.Valid() && (NotStarted(job, d) || CarriedOut(job, Kept(job), d))
    requires |d[job.g.status]| == job.g.longs
    ensures d[job.g.status][0] != TRANSACTIONFAILURE_ID
  {
    hide Stream, Chunks, Applied, Makes, LogOnDisk, Diff.Torn;
  }

  lemma CommittedLog(job: Job, d: Disk)
    requires job.Valid() && Committed(job, d)
    requires forall b :: 0 <= b < |d| ==> |d[b]| == job.g.longs
    ensures var s := d[job.g.status];
      && s[0] == TRANSACTIONFAILURE_ID && s[2] == job.g.status && s[3] == job.log[0]
      && ChainOn(d, s[3], job.log) && Whole(ChainBytes(d, job.log))
      && Ascending(Reloaded(d, job.log))
      && forall i :: 0 <= i < |Reloaded(d, job.log)| ==> Rebuilds(Reloaded(d, job.log)[i], d, job.g)
  {
    hide Stream, Chunks, Run, Applied, Makes, Rebuilds, Reloaded, RewritePuts, ChainOn, Whole, ChainBytes,
      LogOnDisk, StorageBlock, Diff.Torn, IsUnfinished;
    LogReloaded(job.g, d, job.log, job.ops, job.Pieces());
    LoggedIsPrefix(job.ops);
    var ops := Reloaded(d, job.log);
    forall i | 0 <= i < |ops| ensures ops[i].blckno == job.ops[i].blckno && Rebuilds(ops[i], d, job.g) {
      var o := job.ops[i];
      assert ops[i] == Stored(o);
      LatestSize(job, i);
      MakesStored(o, job.disk[o.blckno], job.Latest(i));
      MakesRebuilds(ops[i], d, job.g, job.disk[o.blckno], job.Latest(i));
    }
  }

  lemma MakesStored(o: Operation, org: Block, latest: Block)
    requires Makes(o, org, latest)
    ensures Makes(Stored(o), org, latest)
  {
  }

  lemma RecoveryBatchesAre(g: Layout, d: Disk, log: seq<nat>)
    requires g.Valid() && |d| == g.total && |d[g.status]| == g.longs && d[g.status][0] == TRANSACTIONFAILURE_ID
    ensures var ok := Put(g.status, StatusBlock(g, TRANSACTIONOK_ID, 0));
      && RecoverBatches(g, d, log) == [RewritePuts(d, Reloaded(d, log)), [ok]]
      && RunAll(d, RecoverBatches(g, d, log)) == Run(d, RewritePuts(d, Reloaded(d, log)))[g.status := ok.image]
  {
    hide RewritePuts, Reloaded, StatusBlock, RunAll, Run;
    var r := RecoverBatches(g, d, log);
    RunAllNone(d);
    assert r[..0] == [] && r[..2] == r;
    RunAllSnoc(d, r, 0);
    RunAllSnoc(d, r, 1);
    RunOne(RunAll(d, r[..1]), r[1][0]);
  }

  // ----- The volume

  class Volume {
    const g: Layout
    const bitmap: SpaceMap
    /** What the device returns when a block is read. */
    var blocks: Disk
    /** Operations at nest level 0, in the order of the operation tree. */
    var operations: seq<Operation>
    var roving: nat
    /** Contents of the device when the volume was mounted, and the writes issued since:
        `settled` behind the last barrier, `pending` not. */
    ghost const mounted: Disk
    ghost var settled: seq<seq<Put>>
    ghost var pending: seq<Put>

    /** A volume as it is mounted, with nothing to write. */
    constructor (g: Layout, bitmap: SpaceMap, device: Disk, roving: nat)
      requires g.Valid() && |device| == g.total && forall b :: 0 <= b < g.total ==> |device[b]| == g.longs
      requires bitmap.Valid() && bitmap.total == g.total && roving < g.total
      requires !bitmap.free[0] && !bitmap.free[g.total - 1] && !bitmap.free[g.status]
      ensures Valid() && this.g == g && this.bitmap == bitmap && this.roving == roving
      ensures blocks == device && operations == [] && settled == [] && pending == []
    {
      this.g, this.bitmap, this.blocks, this.roving := g, bitmap, device, roving;
      operations, mounted, settled, pending := [], device, [], [];
    }

    ghost predicate Valid()
      reads this, bitmap
    {
      && g.Valid() && |blocks| == g.total
      && (forall b :: 0 <= b < g.total ==> |blocks[b]| == g.longs)
      && bitmap.Valid() && bitmap.total == g.total && roving < g.total
      && !bitmap.free[0] && !bitmap.free[g.total - 1] && !bitmap.free[g.status]
      && Ascending(operations)
      && blocks == Run(RunAll(mounted, settled), pending)
    }

    /** The operations can be applied to what is on the device, and none of their blocks is
        free. */
    ghost predicate Flushable()
      requires Valid()
      reads this, bitmap
    {
      && !IsUnfinished(blocks[g.status])
      && forall i :: 0 <= i < |operations| ==>
           var o := operations[i];
           && o.blckno < g.total && o.blckno != g.status && !bitmap.free[o.blckno]
           && Makes(o, blocks[o.blckno], Applied(blocks[o.blckno], o))
    }

    /** Writes one block (`writecachebuffer`). */
    method Write(block: nat, image: Block)
      requires Valid() && block < g.total && |image| == g.longs
      modifies `blocks, `pending
      ensures Valid()
      ensures blocks == old(blocks)[block := image]
      ensures pending == old(pending) + [Put(block, image)]
    {
      hide Applied, Makes, Run, RunAll, Ascending, SpaceMap.Valid, IsUnfinished;
      blocks := blocks[block := image];
      pending := pending + [Put(block, image)];
      RunSnoc(RunAll(mounted, settled), old(pending), Put(block, image));
    }

    /** The barrier (`flushiocache`). */
    method FlushIOCache()
      requires Valid()
      modifies `settled, `pending
      ensures Valid()
      ensures settled == old(settled) + [old(pending)] && pending == []
    {
      hide Applied, Makes, Run, RunAll, Ascending, SpaceMap.Valid, IsUnfinished;
      RunAllAppend(mounted, settled, pending);
      RunNothing(blocks);
      settled := settled + [pending];
      pending := [];
    }

    /** Writes the operations into free blocks that are found one after another without being
        marked (`savetransaction`).  `log` are the blocks found, in order. */
    method SaveTransaction() returns (ok: bool, first: nat, ghost log: seq<nat>, ghost puts: seq<Put>)
      requires Valid()
      modifies `blocks, `pending
      ensures Valid()
      ensures pending == old(pending) + puts && blocks == Run(old(blocks), puts)
      ensures FreeDistinct(bitmap.free, log) && forall k :: 0 <= k < |log| ==> 0 < log[k] < g.total
      ensures forall k :: 0 <= k < |puts| ==> puts[k].block in log
      ensures log != [] ==> Placed(bitmap.free, g.total, roving, log, Rank(g.total, roving, log[|log| - 1]))
      ensures ok ==> log != [] && first == log[0]
      ensures ok ==> StoragePuts(puts, log, Chunks(Stream(operations), g.Capacity()), 0)
      ensures !ok ==> |log| < |Chunks(Stream(operations), g.Capacity())|
      ensures !ok ==> forall b :: 0 <= b < g.total && bitmap.free[b] ==> b in log
    {
      hide Saving, Placed, Found, LogSoFar, StoragePuts, StorageBlock, Stream, Chunks, Run, RunAll;
      hide Applied, Makes, Ascending, IsUnfinished, Zeros, AllFree, InArea, FreeDistinct, Layout.Valid, Layout.Capacity;
      hide Rank;
      ok, first, log, puts := false, 0, [], [];
      RunNothing(blocks);
      LayoutFacts(g);
      ghost var cap, all, start := g.Capacity(), Chunks(Stream(operations), g.Capacity()), blocks;
      var found, blckno: nat := bitmap.FindSpace(1, roving, roving);
      if !found {
        SavingImpossible(bitmap.free, g.total, roving);
        return;
      }
      SavingStarts(bitmap.free, g.total, roving, Stream(operations), cap, blckno);
      var o, src, done := 0, [], false;
      assert [] + Stream(operations[0..]) == Stream(operations);
      ghost var pieces := [];
      while true
        invariant Valid() && o <= |operations|
        invariant blckno < g.total
        invariant Saving(bitmap.free, g.total, roving, all, cap, log, pieces, src + Stream(operations[o..]), puts,
            blckno)
        invariant pending == old(pending) + puts && blocks == Run(start, puts)
        invariant first == if log == [] then 0 else log[0]
        decreases |src + Stream(operations[o..])|
      {
        ghost var rest := src + Stream(operations[o..]);
        SavingBlocks(bitmap.free, g.total, roving, all, cap, log, pieces, rest, puts, blckno);
        assert (log + [blckno])[0] == if log == [] then blckno else log[0];
        var startblock := blckno + 1;
        if first == 0 {
          first := blckno;
        }
        var data := new Byte[g.Capacity()](_ => 0);
        AllZeros(data[..]);
        o, src, done := FillWithOperations(data, operations, o, src);
        var next := 0;
        if !done {
          if startblock == roving {
            SavingFails(bitmap.free, g.total, roving, all, cap, log, pieces, rest, puts, blckno);
            log := log + [blckno];
            return;
          }
          SavingInside(bitmap.free, g.total, roving, all, cap, log, pieces, rest, puts, blckno);
          found, next := bitmap.FindSpace(1, startblock, roving);
          if !found {
            SavingFails(bitmap.free, g.total, roving, all, cap, log, pieces, rest, puts, blckno);
            log := log + [blckno];
            return;
          }
          SavingGoesOn(bitmap.free, g.total, roving, all, cap, log, pieces, rest, puts, blckno, next);
        } else {
          SavingEnds(bitmap.free, g.total, roving, all, cap, log, pieces, rest, puts, blckno);
        }
        RunSnoc(start, puts, StoragePutTo(blckno, next, data[..]));
        Write(blckno, StorageBlock(blckno, next, data[..]));
        puts, log, pieces := puts + [StoragePutTo(blckno, next, data[..])], log + [blckno], pieces + [data[..]];
        if done {
          StoragePutsSize(puts, log, all, 0);
          return true, first, log, puts;
        }
        blckno := next;
      }
    }

    /** Writes the latest version of every block that has an operation, in block order, and drops
        the operation (`writeoperations`).  A block without an original is rebuilt over whatever
        its buffer holds. */
    method WriteOperations() returns (ghost puts: seq<Put>)
      requires Valid()
      requires forall i :: 0 <= i < |operations| ==> Rebuilds(operations[i], blocks, g)
      modifies `blocks, `pending, `operations
      ensures Valid()
      ensures operations == []
      ensures puts == RewritePuts(old(blocks), old(operations))
      ensures pending == old(pending) + puts && blocks == Run(old(blocks), puts)
    {
      hide Stream, Chunks, Run, RunAll, Applied, Makes, Rebuilds, Ascending, RewritePuts, IsUnfinished;
      ghost var ops, start, i := operations, blocks, 0;
      puts := [];
      RunNothing(blocks);
      assert ops[0..] == ops && RewritePuts(start, ops)[..0] == [];
      while operations != []
        invariant Valid() && i <= |ops| && operations == ops[i..]
        invariant puts == RewritePuts(start, ops)[..i]
        invariant pending == old(pending) + puts && blocks == Run(start, puts)
        decreases |operations|
      {
        var o := operations[0];
        RewriteOne(start, ops, i, g);
        var base := blocks[o.blckno];
        if o.IsEmpty() {
          var junk: Block := *;
          if |junk| == g.longs {
            RebuildsOver(o, start, g, junk);
            base := junk;
          }
        }
        var image := Applied(base, o);
        RunSnoc(start, puts, Put(o.blckno, image));
        Write(o.blckno, image);
        puts := puts + [Put(o.blckno, image)];
        AscendingTail(operations);
        operations := operations[1..];
        i := i + 1;
      }
      assert RewritePuts(start, ops)[..i] == RewritePuts(start, ops);
    }

    /** Says that no transaction is unfinished (`removetransactionfailure`). */
    method RemoveTransactionFailure()
      requires Valid()
      modifies `blocks, `settled, `pending
      ensures Valid() && pending == []
      ensures blocks == old(blocks)[g.status := StatusBlock(g, TRANSACTIONOK_ID, 0)]
      ensures settled == old(settled) + [old(pending), [Put(g.status, StatusBlock(g, TRANSACTIONOK_ID, 0))]]
    {
      hide Run, RunAll, Applied, Makes, Ascending, StatusBlock;
      FlushIOCache();
      ghost var put := Put(g.status, StatusBlock(g, TRANSACTIONOK_ID, 0));
      Write(g.status, StatusBlock(g, TRANSACTIONOK_ID, 0));
      FlushIOCache();
      assert [] + [put] == [put];
      assert old(settled) + [old(pending)] + [[put]] == old(settled) + [old(pending), [put]];
    }

    /** The part of a flush behind the writing of the log: marks the transaction, rewrites the
        targets and takes the mark away. */
    method Commit(first: nat, ghost job: Job)
      requires Valid() && job.Valid() && job.log != [] && first == job.log[0]
      requires job.g == g && operations == job.ops
      requires pending == job.LogPuts() && blocks == Run(job.disk, job.LogPuts())
      modifies `blocks, `settled, `pending, `operations
      ensures Valid()
      ensures settled == old(settled) + job.FlushBatches() && pending == []
      ensures operations == [] && blocks == RunAll(job.disk, job.FlushBatches())
    {
      hide Stream, Chunks, Run, RunAll, Applied, Makes, Rebuilds, RewritePuts, IsUnfinished, StatusBlock,
        Job.FlushBatches, Job.TargetPuts, Job.LogPuts, Ascending, Chunks, Volume.Flushable;
      BatchesOf(job);
      FlushIOCache();
      ghost var mark := Put(g.status, StatusBlock(g, TRANSACTIONFAILURE_ID, first));
      Write(g.status, StatusBlock(g, TRANSACTIONFAILURE_ID, first));
      assert pending == [mark];
      FlushIOCache();
      TargetsAfterLog(job, blocks, first);
      ghost var puts := WriteOperations();
      assert pending == puts == job.TargetPuts();
      RemoveTransactionFailure();
      assert settled == old(settled) + [job.LogPuts()] + [[mark]] + [job.TargetPuts(),
        [Put(g.status, StatusBlock(g, TRANSACTIONOK_ID, 0))]];
      assert settled == old(settled) + job.FlushBatches();
    }

    /** Commits all operations (`flushtransaction`).  It gives up, leaving the operations as they
        are, only if the log does not fit into the free blocks. */
    method FlushTransaction() returns (ok: bool, ghost job: Job)
      requires Valid() && Flushable()
      modifies `blocks, `settled, `pending, `operations
      ensures Valid()
      ensures old(operations) == [] ==>
        ok && settled == old(settled) + [old(pending)] && pending == [] && blocks == old(blocks) && operations == []
      ensures ok && old(operations) != [] ==>
        && job == Job(g, old(blocks), old(operations), job.log) && job.Valid() && FreeDistinct(bitmap.free, job.log)
        && settled == old(settled) + [old(pending)] + job.FlushBatches() && pending == []
        && operations == [] && blocks == RunAll(old(blocks), job.FlushBatches())
        && Placed(bitmap.free, g.total, roving, job.log, Rank(g.total, roving, job.log[|job.log| - 1]))
      ensures !ok ==>
        && operations == old(operations) && settled == old(settled) + [old(pending)]
        && blocks == Run(old(blocks), pending)
        && TooFewBlocks(bitmap.free, g, operations, pending)
    {
      hide Stream, Chunks, Run, RunAll, Applied, Makes, Rebuilds, Ascending, IsUnfinished, StoragePuts,
        StatusBlock, StorageBlock, Job.Valid, Job.FlushBatches, Job.LogPuts, TooFewBlocks, FreeDistinct;
      ghost var start, ops := blocks, operations;
      ok, job := true, Job(g, start, ops, []);
      FlushIOCache();
      if operations != [] {
        var first: nat;
        ghost var log, puts;
        ok, first, log, puts := SaveTransaction();
        if ok {
          job := Job(g, start, ops, log);
          JobIsValid(job, bitmap.free, puts);
          assert pending == puts;
          Commit(first, job);
        } else {
          NoRoom(bitmap.free, g, operations, log, puts);
          assert pending == puts;
        }
      }
    }

    /** Reads the operations of a log back (`loadtransaction`); a log is in block order, so
        linking them into the operation tree keeps the order in which they are read. */
    method LoadTransaction(first: nat, ghost log: seq<nat>)
      requires Valid() && operations == []
      requires ChainOn(blocks, first, log)
      requires Whole(ChainBytes(blocks, log)) && Ascending(Reloaded(blocks, log))
      modifies `operations
      ensures Valid() && operations == Reloaded(blocks, log)
    {
      hide Stream, Chunks, Run, RunAll, Applied, Makes, Rebuilds, IsUnfinished;
      hide Parse, Whole, BytesOf, Flushable, Between, OperationOf, WordOf, ChainBytes, Ascending;
      var block: nat, rec: seq<Byte>, length: nat := first, [], 0;
      var ops: seq<Operation>, done := [], false;
      ghost var chain := log;
      BetweenNothing();
      assert [] + ChainBytes(blocks, log) == ChainBytes(blocks, log);
      while block != 0
        invariant Valid() && ChainOn(blocks, block, chain) && Between(rec, length)
        invariant Whole(rec + ChainBytes(blocks, chain))
        invariant ops + Parse(rec + ChainBytes(blocks, chain)) == Reloaded(blocks, log)
        decreases |chain|
      {
        var cb := blocks[block];
        var data := DataOf(cb);
        ghost var tail := ChainBytes(blocks, chain[1..]);
        ChainStep(blocks, block, chain);
        block := cb[3];
        ops, rec, length, done := LoadBlock(data, ops, rec, length, tail);
        if done {
          assert ops == Reloaded(blocks, log);
          operations := ops;
          return;
        }
        chain := chain[1..];
      }
      ChainEnds(blocks, chain);
      ParseNothing();
      if rec != [] {
        LastRecord(rec, length);
        ops := ops + [OperationOf(rec)];
      } else {
        assert rec + [] == [];
      }
      assert ops == Reloaded(blocks, log);
      operations := ops;
    }

    /** What happens when a volume is mounted (`checkfortransaction`): an unfinished transaction
        is loaded from its log, carried out again and taken off the books.  `job` is the flush
        that was interrupted, at whatever point and however often. */
    method CheckForTransaction(ghost job: Job) returns (ok: bool)
      requires Valid() && operations == [] && pending == []
      requires job.Valid() && job.g == g && Known(job, blocks)
      modifies `blocks, `settled, `pending, `operations
      ensures Valid() && operations == [] && pending == []
      ensures settled == old(settled) + RecoverBatches(g, old(blocks), job.log)
      ensures blocks == RunAll(old(blocks), RecoverBatches(g, old(blocks), job.log))
      ensures ok <==> old(blocks)[g.status][2] == g.status
      ensures !ok ==> blocks == old(blocks)
    {
      hide Stream, Chunks, Run, RunAll, Applied, Makes, Rebuilds, IsUnfinished, Job.Valid, Ascending, Known,
        RecoverBatches, Reloaded, RewritePuts, StatusBlock, ChainOn, Committed;
      ok := true;
      var status := blocks[g.status];
      RecoveryCase(job, blocks);
      if status[2] == g.status {
        if status[0] == TRANSACTIONFAILURE_ID {
          ghost var start := blocks;
          LoadTransaction(status[3], job.log);
          RunNothing(blocks);
          ghost var puts := WriteOperations();
          assert pending == puts;
          RemoveTransactionFailure();
          RecoveryBatchesAre(g, start, job.log);
        }
      } else {
        ok := false;
      }
    }
  }
}
