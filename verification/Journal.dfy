/** The commit protocol of FS/transactions.c and what a crash at any point of it leaves
    behind.  A disk is a sequence of blocks of longwords; writes reach it in batches, and
    `flushiocache` is the barrier between one batch and the next. */
module Journal {
  import opened Words
  import Diff
  import opened Log

  type Block = seq<Long>
  type Disk = seq<Block>

  const TRANSACTIONSTORAGE_ID: Long := 0x5452_5354
  const TRANSACTIONFAILURE_ID: Long := 0x5452_4641
  const TRANSACTIONOK_ID: Long := 0x5452_4F4B

  /** Longs in front of the data of a storage block: id, checksum, own block, next. */
  const STORAGE_HEADER := 4

  /** Sizes and places: blocks on the partition, longs in a block, and block_root + 2, the
      block that says whether a transaction is unfinished. */
  datatype Layout = Layout(total: nat, longs: nat, status: nat) {
    predicate Valid() { longs > STORAGE_HEADER && status < total && total < LONG_LIMIT }

    /** Bytes of log in one storage block. */
    function Capacity(): nat
      requires Valid()
    {
      4 * (longs - STORAGE_HEADER)
    }
  }

  // ----- Writes and crashes

  datatype Put = Put(block: nat, image: Block)

  /** The disk after all of `puts`, in order. */
  function Run(d: Disk, puts: seq<Put>): (r: Disk)
    ensures |r| == |d|
  {
    if puts == [] then d
    else
      var r := Run(d, puts[..|puts| - 1]);
      var p := puts[|puts| - 1];
      if p.block < |d| then r[p.block := p.image] else r
  }

  function RunAll(d: Disk, batches: seq<seq<Put>>): (r: Disk)
    ensures |r| == |d|
  {
    if batches == [] then d else Run(RunAll(d, batches[..|batches| - 1]), batches[|batches| - 1])
  }

  /** `x` holds in each long what block b held before or what some pending write puts there. */
  ghost predicate Mixed(old_: Block, pending: seq<Put>, b: nat, x: Block) {
    && |x| == |old_|
    && forall j :: 0 <= j < |x| ==> (x[j] == old_[j] ||
         exists k :: 0 <= k < |pending| && pending[k].block == b && j < |pending[k].image|
           && x[j] == pending[k].image[j])
  }

  /** `x` is what block b held before or what some pending write puts there. */
  ghost predicate Either(old_: Block, pending: seq<Put>, b: nat, x: Block) {
    x == old_ || exists k :: 0 <= k < |pending| && pending[k] == Put(b, x)
  }

  /** A crash may lose any part of the writes since the last barrier.  Writes to the blocks in
      `atomic` happen entirely or not at all; any other block may be left half-written. */
  ghost predicate CrashImage(d: Disk, pending: seq<Put>, atomic: set<nat>, img: Disk) {
    && |img| == |d|
    && forall b :: 0 <= b < |d| ==>
         if b in atomic then Either(d[b], pending, b, img[b]) else Mixed(d[b], pending, b, img[b])
  }

  /** `img` is left behind when the power fails during batch i, after j of its writes have been
      issued; i == |batches| means after the last barrier. */
  ghost predicate PowerFails(d: Disk, batches: seq<seq<Put>>, i: nat, j: nat, atomic: set<nat>, img: Disk) {
    && i <= |batches| && j <= (if i < |batches| then |batches[i]| else 0)
    && CrashImage(RunAll(d, batches[..i]), if i < |batches| then batches[i][..j] else [], atomic, img)
  }

  // ----- The blocks of the protocol

  /** How the blocks of the protocol are laid out: 'TRST' for a block of the log, 'TRFA' and 'TROK' for the
      block that says whether a transaction is unfinished; then no checksum, the block's own number, and
      the next block of the log or the first one. */
  lemma BlockLayout(g: Layout, log: seq<nat>, k: nat, data: seq<Byte>, first: Long)
    requires g.Valid() && k < |log| && |data| % 4 == 0 && forall l :: 0 <= l < |log| ==> log[l] < LONG_LIMIT
    ensures var s := StoragePut(log, k, data).image;
      && s[0] == 0x1000000 * ('T' as int) + 0x10000 * ('R' as int) + 0x100 * ('S' as int) + 'T' as int
      && s[2] == log[k] && s[3] == (if k + 1 < |log| then log[k + 1] else 0)
      && |s| == 4 + |data| / 4 && BytesOf(s[4..]) == data
    ensures var f := StatusBlock(g, TRANSACTIONFAILURE_ID, first);
      && f[0] == 0x1000000 * ('T' as int) + 0x10000 * ('R' as int) + 0x100 * ('F' as int) + 'A' as int
      && f[2] == g.status && f[3] == first && IsUnfinished(f)
    ensures var f := StatusBlock(g, TRANSACTIONOK_ID, first);
      && f[0] == 0x1000000 * ('T' as int) + 0x10000 * ('R' as int) + 0x100 * ('O' as int) + 'K' as int
      && !IsUnfinished(f)
  {
    BytesOfLongsOf(data);
    assert StoragePut(log, k, data).image[4..] == LongsOf(data);
  }

  function StorageBlock(own: Long, next: Long, data: seq<Byte>): (b: Block)
    requires |data| % 4 == 0
    ensures |b| == STORAGE_HEADER + |data| / 4
  {
    [TRANSACTIONSTORAGE_ID, 0, own, next] + LongsOf(data)
  }

  /** The block that follows log[k] in the chain, 0 at the end. */
  function NextIn(log: seq<nat>, k: nat): (next: nat)
    ensures next == 0 || next in log
  {
    if k + 1 < |log| then log[k + 1] else 0
  }

  /** The write of the k-th block of a log. */
  function StoragePut(log: seq<nat>, k: nat, data: seq<Byte>): Put
    requires k < |log| && |data| % 4 == 0
    requires forall l :: 0 <= l < |log| ==> log[l] < LONG_LIMIT
  {
    Put(log[k], StorageBlock(log[k], NextIn(log, k), data))
  }

  function StatusBlock(g: Layout, id: Long, first: Long): (b: Block)
    requires g.Valid()
    ensures |b| == g.longs
  {
    [id, 0, g.status, first] + seq(g.longs - STORAGE_HEADER, _ => 0)
  }

  /** The status block says that the transaction at `first` is unfinished. */
  predicate IsUnfinished(b: Block) {
    |b| > STORAGE_HEADER && b[0] == TRANSACTIONFAILURE_ID
  }

  function DataOf(b: Block): seq<Byte> {
    if |b| < STORAGE_HEADER then [] else BytesOf(b[STORAGE_HEADER..])
  }

  /** The storage blocks from `block` on are exactly `log`. */
  ghost predicate ChainOn(d: Disk, block: nat, log: seq<nat>)
    decreases |log|
  {
    if log == [] then block == 0
    else
      && block == log[0] != 0 && block < |d| && |d[block]| > STORAGE_HEADER
      && d[block][0] == TRANSACTIONSTORAGE_ID && d[block][2] == block
      && ChainOn(d, d[block][3], log[1..])
  }

  /** The log stored in the blocks of a chain. */
  ghost function ChainBytes(d: Disk, log: seq<nat>): seq<Byte> {
    if log == [] then [] else (if log[0] < |d| then DataOf(d[log[0]]) else []) + ChainBytes(d, log[1..])
  }

  // ----- Operations against a disk

  /** The block that operation o makes of block x. */
  function Applied(x: Block, o: Operation): (y: Block)
    ensures |y| == |x|
  {
    if Diff.Fits(|x|, o.data) then Diff.Decode(x, o.data) else x
  }

  /** o was made by comparing `latest` with its original `org`, or from nothing if it has no
      original; an operation without data (a deletion) changes nothing. */
  ghost predicate Makes(o: Operation, org: Block, latest: Block) {
    && |org| == |latest|
    && if o.data == [] then !o.IsEmpty() && latest == org
       else if o.IsEmpty() then o.data == Diff.Encode(Diff.Never(|latest|), latest)
       else o.data == Diff.Encode(Diff.SameAs(org, latest), latest)
  }

  lemma MakesApplied(o: Operation, org: Block, latest: Block, x: Block)
    requires Makes(o, org, latest) && Diff.Torn(x, org, latest) && (o.data != [] || x == org)
    ensures Applied(x, o) == latest
  {
    hide Diff.Encode, Diff.Decode, Diff.Fits;
    if o.data == [] {
      Diff.DecodeNothing(x);
    } else if o.IsEmpty() {
      Diff.FromZeroReplay(x, latest);
    } else {
      Diff.TornReplay(x, org, latest);
    }
  }

  /** An operation that needs no original rebuilds its block over anything. */
  lemma EmptyApplied(o: Operation, org: Block, latest: Block, junk: Block)
    requires Makes(o, org, latest) && o.IsEmpty() && |junk| == |latest|
    ensures Applied(junk, o) == latest
  {
    hide Diff.Encode, Diff.Decode, Diff.Fits;
    Diff.FromZeroReplay(junk, latest);
  }

  /** Operations in block order, one for each block. */
  ghost predicate Ascending(ops: seq<Operation>) {
    forall i, j :: 0 <= i < j < |ops| ==> ops[i].blckno < ops[j].blckno
  }

  // ----- One flush

  /** A flush about to happen: the disk it starts from, the operations in block order and the
      free blocks that take the log. */
  datatype Job = Job(g: Layout, disk: Disk, ops: seq<Operation>, log: seq<nat>) {
    ghost predicate Valid() {
      && g.Valid() && |disk| == g.total
      && (forall b :: 0 <= b < g.total ==> |disk[b]| == g.longs)
      && !IsUnfinished(disk[g.status])
      && (forall i :: 0 <= i < |ops| ==> ops[i].blckno < g.total && ops[i].blckno != g.status)
      && (forall i :: 0 <= i < |ops| ==> Makes(ops[i], disk[ops[i].blckno], Latest(i)))
      && Ascending(ops)
      && |log| == |Pieces()|
      && (forall k :: 0 <= k < |log| ==> 0 < log[k] < g.total && log[k] != g.status)
      && (forall k, l :: 0 <= k < l < |log| ==> log[k] != log[l])
      && (forall k, i :: 0 <= k < |log| && 0 <= i < |ops| ==> log[k] != ops[i].blckno)
    }

    /** The new contents of the block of operation i. */
    function Latest(i: nat): Block
      requires i < |ops| && ops[i].blckno < |disk|
    {
      Applied(disk[ops[i].blckno], ops[i])
    }

    /** The data areas of the log blocks. */
    ghost function Pieces(): seq<seq<Byte>>
      requires g.Valid()
    {
      Chunks(Stream(ops), g.Capacity())
    }

    /** Writes of the log, of the targets, and of the status block. */
    ghost function LogPuts(): (p: seq<Put>)
      requires g.Valid() && |log| == |Pieces()| && forall k :: 0 <= k < |log| ==> log[k] < g.total
      ensures |p| == |log|
    {
      seq(|log|, k requires 0 <= k < |log| => StoragePut(log, k, Pieces()[k]))
    }

    ghost function TargetPuts(): (p: seq<Put>)
      requires forall i :: 0 <= i < |ops| ==> ops[i].blckno < |disk|
      ensures |p| == |ops|
    {
      seq(|ops|, i requires 0 <= i < |ops| => Put(ops[i].blckno, Latest(i)))
    }

    /** What a flush writes, barrier by barrier. */
    ghost function FlushBatches(): (b: seq<seq<Put>>)
      requires Valid()
      ensures |b| == 4
    {
      [LogPuts(),
       [Put(g.status, StatusBlock(g, TRANSACTIONFAILURE_ID, log[0]))],
       TargetPuts(),
       [Put(g.status, StatusBlock(g, TRANSACTIONOK_ID, 0))]]
    }

    /** Blocks whose single-block writes are taken to be atomic. */
    ghost function Atomic(): set<nat> {
      {g.status} + set k | 0 <= k < |log| :: log[k]
    }
  }

  /** The operations that recovery finds in the log of disk d. */
  ghost function Reloaded(d: Disk, log: seq<nat>): seq<Operation> {
    Parse(ChainBytes(d, log))
  }

  ghost function RewritePuts(d: Disk, ops: seq<Operation>): (p: seq<Put>)
    ensures |p| == |ops|
  {
    seq(|ops|, i requires 0 <= i < |ops| =>
      Put(ops[i].blckno, if ops[i].blckno < |d| then Applied(d[ops[i].blckno], ops[i]) else []))
  }

  /** What recovery writes, barrier by barrier, when it finds disk d. */
  ghost function RecoverBatches(g: Layout, d: Disk, log: seq<nat>): seq<seq<Put>>
    requires g.Valid() && |d| == g.total
  {
    if IsUnfinished(d[g.status]) then
      [RewritePuts(d, Reloaded(d, log)), [Put(g.status, StatusBlock(g, TRANSACTIONOK_ID, 0))]]
    else []
  }

  // ----- Basic facts about writes and crashes

  lemma {:induction false} RunKeeps(d: Disk, puts: seq<Put>, b: nat)
    requires b < |d| && forall k :: 0 <= k < |puts| ==> puts[k].block != b
    ensures Run(d, puts)[b] == d[b]
  {
    if puts == [] {
    } else {
      RunKeeps(d, puts[..|puts| - 1], b);
    }
  }

  lemma {:induction false} RunWrites(d: Disk, puts: seq<Put>, i: nat)
    requires i < |puts| && puts[i].block < |d|
    requires forall k :: i < k < |puts| ==> puts[k].block != puts[i].block
    ensures Run(d, puts)[puts[i].block] == puts[i].image
  {
    if i == |puts| - 1 {
    } else {
      RunWrites(d, puts[..|puts| - 1], i);
    }
  }

  lemma RunAllSnoc(d: Disk, batches: seq<seq<Put>>, i: nat)
    requires i < |batches|
    ensures RunAll(d, batches[..i + 1]) == Run(RunAll(d, batches[..i]), batches[i])
  {
    assert batches[..i + 1][..i] == batches[..i];
  }

  lemma CrashKeeps(d: Disk, pending: seq<Put>, atomic: set<nat>, img: Disk, b: nat)
    requires CrashImage(d, pending, atomic, img) && b < |d|
    requires forall k :: 0 <= k < |pending| ==> pending[k].block != b
    ensures img[b] == d[b]
  {
    if b in atomic {
      assert Either(d[b], pending, b, img[b]);
    } else {
      assert Mixed(d[b], pending, b, img[b]);
    }
  }

  /** A crash during the write of one atomic block leaves it entirely old or entirely new. */
  lemma CrashOne(d: Disk, p: Put, j: nat, atomic: set<nat>, img: Disk)
    requires j <= 1 && p.block in atomic && p.block < |d|
    requires CrashImage(d, [p][..j], atomic, img)
    ensures |img| == |d| && (img[p.block] == d[p.block] || (j == 1 && img[p.block] == p.image))
    ensures forall b :: 0 <= b < |d| && b != p.block ==> img[b] == d[b]
  {
    assert Either(d[p.block], [p][..j], p.block, img[p.block]);
    forall b | 0 <= b < |d| && b != p.block ensures img[b] == d[b] {
      CrashKeeps(d, [p][..j], atomic, img, b);
    }
  }

  lemma CrashNone(d: Disk, atomic: set<nat>, img: Disk)
    requires CrashImage(d, [], atomic, img)
    ensures img == d
  {
    forall b | 0 <= b < |d| ensures img[b] == d[b] {
      CrashKeeps(d, [], atomic, img, b);
    }
  }

  // ----- What a disk can look like

  /** The blocks of `log` on disk img hold the data areas `pieces`, linked in order. */
  ghost predicate LogOnDisk(img: Disk, log: seq<nat>, pieces: seq<seq<Byte>>) {
    && |log| == |pieces|
    && (forall k :: 0 <= k < |log| ==> 0 < log[k] < |img| && log[k] < LONG_LIMIT)
    && (forall k :: 0 <= k < |log| ==> |pieces[k]| > 0 && |pieces[k]| % 4 == 0)
    && (forall k :: 0 <= k < |log| ==> img[log[k]] == StorageBlock(log[k], NextIn(log, k), pieces[k]))
  }

  /** Block b belongs neither to the log nor to the targets and is not the status block. */
  ghost predicate Untouched(job: Job, b: nat) {
    && b != job.g.status
    && (forall k :: 0 <= k < |job.log| ==> job.log[k] != b)
    && (forall i :: 0 <= i < |job.ops| ==> job.ops[i].blckno != b)
  }

  /** Nothing but log blocks has changed. */
  ghost predicate NotStarted(job: Job, img: Disk) {
    && |img| == |job.disk|
    && forall b :: 0 <= b < |img| && (forall k :: 0 <= k < |job.log| ==> job.log[k] != b) ==> img[b] == job.disk[b]
  }

  /** The transaction is committed: status and log are in place and every target is somewhere
      between its old and its new contents. */
  ghost predicate Committed(job: Job, img: Disk)
    requires job.Valid()
  {
    && |img| == |job.disk|
    && img[job.g.status] == StatusBlock(job.g, TRANSACTIONFAILURE_ID, job.log[0])
    && LogOnDisk(img, job.log, job.Pieces())
    && (forall i ::
        0 <= i < |job.ops| ==> Diff.Torn(img[job.ops[i].blckno], job.disk[job.ops[i].blckno], job.Latest(i)))
    && (forall b :: 0 <= b < |img| && Untouched(job, b) ==> img[b] == job.disk[b])
  }

  /** The transaction has been carried out: the status block says so, the targets of the first
      `n` operations are new, and the others somewhere between old and new. */
  ghost predicate CarriedOut(job: Job, n: nat, img: Disk)
    requires job.Valid()
  {
    && |img| == |job.disk| && n <= |job.ops|
    && !IsUnfinished(img[job.g.status])
    && (forall i :: 0 <= i < n ==> img[job.ops[i].blckno] == job.Latest(i))
    && (forall i ::
        0 <= i < |job.ops| ==> Diff.Torn(img[job.ops[i].blckno], job.disk[job.ops[i].blckno], job.Latest(i)))
    && (forall b :: 0 <= b < |img| && Untouched(job, b) ==> img[b] == job.disk[b])
  }

  // ----- The log on disk

  lemma StorageBlockData(own: Long, next: Long, data: seq<Byte>)
    requires |data| % 4 == 0
    ensures var b := StorageBlock(own, next, data);
      b[0] == TRANSACTIONSTORAGE_ID && b[2] == own && b[3] == next && DataOf(b) == data
  {
    hide BytesOf, LongsOf;
    var b := StorageBlock(own, next, data);
    assert b[STORAGE_HEADER..] == LongsOf(data);
    BytesOfLongsOf(data);
  }

  lemma {:induction false} ChainFrom(img: Disk, log: seq<nat>, pieces: seq<seq<Byte>>, k: nat)
    requires LogOnDisk(img, log, pieces) && k <= |log|
    ensures forall l :: 0 <= l < |log| ==> |img[log[l]]| > STORAGE_HEADER
    ensures ChainOn(img, if k < |log| then log[k] else 0, log[k..])
    ensures ChainBytes(img, log[k..]) == Flatten(pieces[k..])
    decreases |log| - k
  {
    hide StorageBlock, DataOf;
    if k < |log| {
      ChainFrom(img, log, pieces, k + 1);
      StorageBlockData(log[k], NextIn(log, k), pieces[k]);
      assert log[k..][1..] == log[k + 1..] && pieces[k..][1..] == pieces[k + 1..];
    }
  }

  lemma StoredNonempty(img: Disk, log: seq<nat>, pieces: seq<seq<Byte>>)
    requires LogOnDisk(img, log, pieces)
    ensures |log| == |pieces|
  {
  }

  /** Recovery finds in a committed log exactly the operations in front of the first one that
      has no data. */
  lemma LogReloaded(g: Layout, img: Disk, log: seq<nat>, ops: seq<Operation>, pieces: seq<seq<Byte>>)
    requires g.Valid() && pieces == Chunks(Stream(ops), g.Capacity())
    requires LogOnDisk(img, log, pieces)
    ensures forall k :: 0 <= k < |log| ==> |img[log[k]]| > STORAGE_HEADER
    ensures log != [] && ChainOn(img, log[0], log)
    ensures Whole(ChainBytes(img, log))
    ensures Reloaded(img, log) == StoredAll(Logged(ops))
  {
    hide Stream, Chunks, Parse, Whole, ChainOn, ChainBytes, Flatten, LogOnDisk, StoredAll, Logged;
    ChainFrom(img, log, pieces, 0);
    assert log[0..] == log && pieces[0..] == pieces by { hide *; }
    LogRoundTrip(ops, g.Capacity());
    StoredNonempty(img, log, pieces);
  }

  // ----- A crash during a flush

  lemma TornReflexive(old_: Block, latest: Block)
    requires |old_| == |latest|
    ensures Diff.Torn(old_, old_, latest) && Diff.Torn(latest, old_, latest)
  {
  }

  /** While the log is written. */
  lemma CrashInLog(job: Job, j: nat, img: Disk)
    requires job.Valid() && j <= |job.log|
    requires CrashImage(job.disk, job.LogPuts()[..j], job.Atomic(), img)
    ensures NotStarted(job, img)
  {
    hide Makes, Stream, Chunks, CrashImage, StorageBlock;
    CrashSameSize(job.disk, job.LogPuts()[..j], job.Atomic(), img);
    forall b | 0 <= b < |img| && (forall k :: 0 <= k < |job.log| ==> job.log[k] != b)
      ensures img[b] == job.disk[b]
    {
      CrashKeeps(job.disk, job.LogPuts()[..j], job.Atomic(), img, b);
    }
  }

  lemma CrashSameSize(d: Disk, pending: seq<Put>, atomic: set<nat>, img: Disk)
    requires CrashImage(d, pending, atomic, img)
    ensures |img| == |d|
  {
  }

  lemma LogPutsAre(job: Job)
    requires job.Valid()
    ensures |job.log| == |job.Pieces()| == |job.LogPuts()|
    ensures forall k :: 0 <= k < |job.log| ==> |job.Pieces()[k]| > 0 && |job.Pieces()[k]| % 4 == 0
    ensures forall k :: 0 <= k < |job.log| ==> job.LogPuts()[k] == StoragePut(job.log, k, job.Pieces()[k])
  {
    hide Makes, Stream, Chunks, StorageBlock, Applied;
  }

  /** Once the log is written. */
  lemma LogWritten(job: Job)
    requires job.Valid()
    ensures var d := Run(job.disk, job.LogPuts());
      NotStarted(job, d) && LogOnDisk(d, job.log, job.Pieces())
  {
    hide Makes, Stream, Chunks, StorageBlock, Applied, Run, StatusBlock, Job.LogPuts, Job.Pieces, IsUnfinished;
    LogPutsAre(job);
    var puts := job.LogPuts();
    var d := Run(job.disk, puts);
    forall b | 0 <= b < |d| && (forall k :: 0 <= k < |job.log| ==> job.log[k] != b) ensures d[b] == job.disk[b] {
      RunKeeps(job.disk, puts, b);
    }
    forall k | 0 <= k < |job.log| ensures d[job.log[k]] == puts[k].image {
      RunWrites(job.disk, puts, k);
    }
  }

  /** Marking the transaction unfinished commits it. */
  lemma MarkCommits(job: Job, d: Disk, img: Disk)
    requires job.Valid() && NotStarted(job, d) && LogOnDisk(d, job.log, job.Pieces())
    requires |img| == |d| && forall b :: 0 <= b < |d| && b != job.g.status ==> img[b] == d[b]
    requires img[job.g.status] == StatusBlock(job.g, TRANSACTIONFAILURE_ID, job.log[0])
    ensures Committed(job, img)
  {
    hide Makes, Stream, Chunks, StorageBlock, Diff.Torn, LogOnDisk, StatusBlock;
    forall i: nat | i < |job.ops|
      ensures Diff.Torn(img[job.ops[i].blckno], job.disk[job.ops[i].blckno], job.Latest(i))
    {
      TargetOld(job, d, img, i);
    }
    LogKept(job.log, job.Pieces(), d, img);
  }

  /** Before it is committed every target is as it was. */
  lemma TargetOld(job: Job, d: Disk, img: Disk, i: nat)
    requires job.Valid() && NotStarted(job, d) && i < |job.ops|
    requires |img| == |d| && forall b :: 0 <= b < |d| && b != job.g.status ==> img[b] == d[b]
    ensures Diff.Torn(img[job.ops[i].blckno], job.disk[job.ops[i].blckno], job.Latest(i))
  {
    hide Makes, Stream, Chunks, StorageBlock, Diff.Torn;
    TornReflexive(job.disk[job.ops[i].blckno], job.Latest(i));
  }

  /** Every pending write rewrites a target with its new contents. */
  ghost predicate Rewrites(job: Job, puts: seq<Put>)
    requires job.Valid()
  {
    forall k :: 0 <= k < |puts| ==> IsSomeRewrite(job, puts[k])
  }

  ghost predicate IsSomeRewrite(job: Job, p: Put)
    requires job.Valid()
  {
    exists i: nat :: IsRewrite(job, i, p)
  }

  ghost predicate IsRewrite(job: Job, i: nat, p: Put)
    requires job.Valid()
  {
    i < |job.ops| && p == Put(job.ops[i].blckno, job.Latest(i))
  }

  lemma TornAgain(x: Block, base: Block, old_: Block, latest: Block, pending: seq<Put>, b: nat)
    requires Diff.Torn(base, old_, latest) && Mixed(base, pending, b, x)
    requires forall k :: 0 <= k < |pending| && pending[k].block == b ==> pending[k].image == latest
    ensures Diff.Torn(x, old_, latest)
  {
  }

  lemma RewriteOf(job: Job, puts: seq<Put>, i: nat, k: nat)
    requires job.Valid() && Rewrites(job, puts) && i < |job.ops| && k < |puts|
    requires puts[k].block == job.ops[i].blckno
    ensures puts[k].image == job.Latest(i)
  {
    hide Makes, Stream, Chunks, Applied;
  }

  lemma RewritesTargets(job: Job, puts: seq<Put>, b: nat)
    requires job.Valid() && Rewrites(job, puts)
    requires forall i :: 0 <= i < |job.ops| ==> job.ops[i].blckno != b
    ensures forall k :: 0 <= k < |puts| ==> puts[k].block != b
  {
    hide Makes, Stream, Chunks, Applied;
  }

  lemma TargetNotAtomic(job: Job, i: nat)
    requires job.Valid() && i < |job.ops|
    ensures job.ops[i].blckno !in job.Atomic()
    ensures job.ops[i].blckno < |job.disk|
  {
    hide Makes, Stream, Chunks, Applied;
  }

  lemma TargetTorn(job: Job, base: Disk, pending: seq<Put>, img: Disk, i: nat)
    requires job.Valid() && Committed(job, base) && Rewrites(job, pending) && i < |job.ops|
    requires CrashImage(base, pending, job.Atomic(), img)
    ensures Diff.Torn(img[job.ops[i].blckno], job.disk[job.ops[i].blckno], job.Latest(i))
  {
    var b := job.ops[i].blckno;
    TargetNotAtomic(job, i);
    forall k | 0 <= k < |pending| && pending[k].block == b ensures pending[k].image == job.Latest(i) {
      RewriteOf(job, pending, i, k);
    }
    assert Diff.Torn(base[b], job.disk[b], job.Latest(i)) by { hide Makes, Stream, Chunks, Applied, Diff.Torn; }
    hide *;
    CrashMixes(base, pending, job.Atomic(), img, b);
    TornAgain(img[b], base[b], job.disk[b], job.Latest(i), pending, b);
  }

  /** While the targets are rewritten, by the flush or by a recovery. */
  lemma CrashInRewrite(job: Job, base: Disk, pending: seq<Put>, img: Disk)
    requires job.Valid() && Committed(job, base) && Rewrites(job, pending)
    requires CrashImage(base, pending, job.Atomic(), img)
    ensures Committed(job, img)
  {
    hide Makes, Stream, Chunks, StorageBlock, Diff.Torn, CrashImage, StatusBlock, Applied, Rewrites, LogOnDisk;
    CrashSameSize(base, pending, job.Atomic(), img);
    forall b: nat | b < |img|
      ensures (forall i :: 0 <= i < |job.ops| ==> job.ops[i].blckno != b) ==> img[b] == base[b]
    {
      RewriteKeepsOthers(job, base, pending, img, b);
    }
    forall i | 0 <= i < |job.ops|
      ensures Diff.Torn(img[job.ops[i].blckno], job.disk[job.ops[i].blckno], job.Latest(i))
    {
      TargetTorn(job, base, pending, img, i);
    }
    LogKept(job.log, job.Pieces(), base, img);
  }

  lemma LogKept(log: seq<nat>, pieces: seq<seq<Byte>>, img: Disk, img': Disk)
    requires LogOnDisk(img, log, pieces) && |img'| == |img|
    requires forall k :: 0 <= k < |log| ==> log[k] < |img| && img'[log[k]] == img[log[k]]
    ensures LogOnDisk(img', log, pieces)
  {
    hide StorageBlock;
  }

  lemma RewriteKeepsOthers(job: Job, base: Disk, pending: seq<Put>, img: Disk, b: nat)
    requires job.Valid() && Rewrites(job, pending) && b < |base| && CrashImage(base, pending, job.Atomic(), img)
    ensures |img| == |base| && ((forall i :: 0 <= i < |job.ops| ==> job.ops[i].blckno != b) ==> img[b] == base[b])
  {
    hide Makes, Stream, Chunks, StorageBlock, CrashImage, StatusBlock, Applied, Rewrites;
    CrashSameSize(base, pending, job.Atomic(), img);
    if forall i :: 0 <= i < |job.ops| ==> job.ops[i].blckno != b {
      RewritesTargets(job, pending, b);
      CrashKeeps(base, pending, job.Atomic(), img, b);
    }
  }

  lemma CrashMixes(d: Disk, pending: seq<Put>, atomic: set<nat>, img: Disk, b: nat)
    requires CrashImage(d, pending, atomic, img) && b < |d| && b !in atomic
    ensures Mixed(d[b], pending, b, img[b])
  {
  }

  lemma RunOutcome(d: Disk, puts: seq<Put>, b: nat)
    requires b < |d|
    ensures Run(d, puts)[b] == d[b] || exists k :: 0 <= k < |puts| && puts[k] == Put(b, Run(d, puts)[b])
  {
    if puts == [] {
    } else {
      RunOutcome(d, puts[..|puts| - 1], b);
      var p := puts[|puts| - 1];
      if p.block != b && Run(d, puts)[b] != d[b] {
        var k :| 0 <= k < |puts| - 1 && puts[..|puts| - 1][k] == Put(b, Run(d, puts)[b]);
        assert puts[k] == Put(b, Run(d, puts)[b]);
      } else if p.block == b {
        assert puts[|puts| - 1] == Put(b, Run(d, puts)[b]);
      }
    }
  }

  /** Losing nothing is one of the things a crash can do. */
  lemma RunIsCrashImage(d: Disk, puts: seq<Put>, atomic: set<nat>)
    requires forall k :: 0 <= k < |puts| && puts[k].block < |d| ==> |puts[k].image| == |d[puts[k].block]|
    ensures CrashImage(d, puts, atomic, Run(d, puts))
  {
    var r := Run(d, puts);
    forall b | 0 <= b < |d| ensures if b in atomic then Either(d[b], puts, b, r[b]) else Mixed(d[b], puts, b, r[b]) {
      RunOutcome(d, puts, b);
      if r[b] != d[b] {
        var k :| 0 <= k < |puts| && puts[k] == Put(b, r[b]);
        assert |puts[k].image| == |d[puts[k].block]|;
      }
    }
  }

  /** Once targets have been rewritten and nothing else. */
  lemma RewriteKeepsCommitted(job: Job, base: Disk, puts: seq<Put>)
    requires job.Valid() && Committed(job, base) && Rewrites(job, puts)
    ensures Committed(job, Run(base, puts))
  {
    hide Makes, Stream, Chunks, StorageBlock, CrashImage, StatusBlock;
    forall k | 0 <= k < |puts| && puts[k].block < |base| ensures |puts[k].image| == |base[puts[k].block]| {
      assert IsSomeRewrite(job, puts[k]);
      var i: nat :| IsRewrite(job, i, puts[k]);
      assert Diff.Torn(base[job.ops[i].blckno], job.disk[job.ops[i].blckno], job.Latest(i));
    }
    hide Committed, Rewrites;
    RunIsCrashImage(base, puts, job.Atomic());
    CrashInRewrite(job, base, puts, Run(base, puts));
  }

  /** Writing the status block back finishes the transaction. */
  lemma MarkFinishes(job: Job, n: nat, d: Disk, img: Disk)
    requires job.Valid() && Committed(job, d) && n <= |job.ops|
    requires forall i :: 0 <= i < n ==> d[job.ops[i].blckno] == job.Latest(i)
    requires |img| == |d| && forall b :: 0 <= b < |d| && b != job.g.status ==> img[b] == d[b]
    requires img[job.g.status] == StatusBlock(job.g, TRANSACTIONOK_ID, 0)
    ensures CarriedOut(job, n, img)
  {
    hide Makes, Stream, Chunks, StorageBlock, Diff.Torn, Applied, LogOnDisk;
  }

  lemma RunOne(d: Disk, p: Put)
    requires p.block < |d|
    ensures Run(d, [p]) == d[p.block := p.image]
  {
    assert [p][..0] == [];
  }

  /** The disks between the barriers of a flush. */
  lemma FlushStages(job: Job)
    requires job.Valid()
    ensures var f, s := job.FlushBatches(), job.g.status;
      && RunAll(job.disk, f[..0]) == job.disk
      && RunAll(job.disk, f[..1]) == Run(job.disk, job.LogPuts())
      && RunAll(job.disk, f[..2])
          == Run(job.disk, job.LogPuts())[s := StatusBlock(job.g, TRANSACTIONFAILURE_ID, job.log[0])]
      && RunAll(job.disk, f[..3]) == Run(RunAll(job.disk, f[..2]), job.TargetPuts())
      && RunAll(job.disk, f[..4]) == RunAll(job.disk, f[..3])[s := StatusBlock(job.g, TRANSACTIONOK_ID, 0)]
      && f[..4] == f
  {
    hide Makes, Stream, Chunks, StorageBlock, StatusBlock, Applied, LogOnDisk, Run, RunAll;
    var f := job.FlushBatches();
    RunAllNone(job.disk);
    assert f[..0] == [];
    RunAllSnoc(job.disk, f, 0);
    RunAllSnoc(job.disk, f, 1);
    RunAllSnoc(job.disk, f, 2);
    RunAllSnoc(job.disk, f, 3);
    RunOne(RunAll(job.disk, f[..1]), f[1][0]);
    RunOne(RunAll(job.disk, f[..3]), f[3][0]);
  }

  lemma RunAllNone(d: Disk)
    ensures RunAll(d, []) == d
  {
  }

  lemma StatusBlockReads(g: Layout, first: Long)
    requires g.Valid()
    ensures IsUnfinished(StatusBlock(g, TRANSACTIONFAILURE_ID, first))
    ensures !IsUnfinished(StatusBlock(g, TRANSACTIONOK_ID, 0))
  {
  }

  /** Having rewritten all targets. */
  lemma TargetsWritten(job: Job, d: Disk)
    requires job.Valid() && Committed(job, d)
    ensures Committed(job, Run(d, job.TargetPuts()))
    ensures forall i :: 0 <= i < |job.ops| ==> Run(d, job.TargetPuts())[job.ops[i].blckno] == job.Latest(i)
  {
    hide Makes, Stream, Chunks, StorageBlock, Diff.Torn, Applied, LogOnDisk, Run;
    var puts := job.TargetPuts();
    TargetPrefix(job, |job.ops|);
    assert puts[..|job.ops|] == puts;
    RewriteKeepsCommitted(job, d, puts);
    forall i | 0 <= i < |job.ops| ensures Run(d, puts)[job.ops[i].blckno] == job.Latest(i) {
      RunWrites(d, puts, i);
    }
  }

  lemma StatusAtomic(job: Job)
    requires job.Valid()
    ensures job.g.status in job.Atomic() && job.g.status < |job.disk|
  {
  }

  /** What a crash at any point of a flush can leave behind. */
  lemma FlushCrash(job: Job, i: nat, j: nat, img: Disk)
    requires job.Valid() && PowerFails(job.disk, job.FlushBatches(), i, j, job.Atomic(), img)
    ensures NotStarted(job, img) || Committed(job, img) || CarriedOut(job, |job.ops|, img)
    ensures i == 0 ==> NotStarted(job, img)
    ensures i == 4 ==> CarriedOut(job, |job.ops|, img)
  {
    hide Makes, Stream, Chunks, StorageBlock, Applied, LogOnDisk;
    hide Run, RunAll, CrashImage, StatusBlock, Committed, NotStarted, CarriedOut;
    var f, s := job.FlushBatches(), job.g.status;
    var done := RunAll(job.disk, f[..i]);
    FlushStages(job);
    LogWritten(job);
    StatusAtomic(job);
    var d1, d2 := RunAll(job.disk, f[..1]), RunAll(job.disk, f[..2]);
    MarkCommits(job, d1, d2);
    TargetsWritten(job, d2);
    if i == 0 {
      CrashInLog(job, j, img);
    } else if i == 1 {
      CrashOne(d1, f[1][0], j, job.Atomic(), img);
      if img[s] == d1[s] {
        assert img == d1;
      } else {
        MarkCommits(job, d1, img);
      }
    } else if i == 2 {
      TargetPrefix(job, j);
      CrashInRewrite(job, d2, job.TargetPuts()[..j], img);
    } else if i == 3 {
      var d3 := RunAll(job.disk, f[..3]);
      CrashOne(d3, f[3][0], j, job.Atomic(), img);
      if img[s] == d3[s] {
        assert img == d3;
      } else {
        MarkFinishes(job, |job.ops|, d3, img);
      }
    } else {
      var d3, d4 := RunAll(job.disk, f[..3]), RunAll(job.disk, f[..4]);
      CrashNone(d4, job.Atomic(), img);
      MarkFinishes(job, |job.ops|, d3, img);
    }
  }

  lemma TargetPrefix(job: Job, j: nat)
    requires job.Valid() && j <= |job.ops|
    ensures Rewrites(job, job.TargetPuts()[..j])
  {
    hide Makes, Stream, Chunks, Applied;
    var puts := job.TargetPuts()[..j];
    forall k | 0 <= k < |puts| ensures IsSomeRewrite(job, puts[k]) {
      assert IsRewrite(job, k, puts[k]);
    }
  }

  // ----- A crash during a recovery

  /** Number of operations that the log of the job preserves. */
  ghost function Kept(job: Job): (n: nat)
    ensures n <= |job.ops|
  {
    |Logged(job.ops)|
  }

  /** What recovery rewrites when it finds a committed disk: the targets of the operations in
      the log, each with its new contents, however torn it was. */
  lemma RecoveryRewrites(job: Job, d: Disk)
    requires job.Valid() && Committed(job, d)
    ensures var puts := RewritePuts(d, Reloaded(d, job.log));
      |puts| == Kept(job) && forall i :: 0 <= i < |puts| ==> puts[i] == Put(job.ops[i].blckno, job.Latest(i))
  {
    hide Makes, Stream, Chunks, StorageBlock, Applied, Diff.Torn, LogOnDisk, Parse, ChainBytes, ChainOn;
    LogReloaded(job.g, d, job.log, job.ops, job.Pieces());
    LoggedIsPrefix(job.ops);
    var ops := Reloaded(d, job.log);
    forall i | 0 <= i < Kept(job)
      ensures d[job.ops[i].blckno] == d[ops[i].blckno] && ops[i].blckno < |d|
      ensures Applied(d[job.ops[i].blckno], ops[i]) == job.Latest(i)
    {
      var o := job.ops[i];
      assert ops[i] == Stored(o);
      MakesApplied(o, job.disk[o.blckno], job.Latest(i), d[o.blckno]);
      SameApplied(d[o.blckno], o);
    }
  }

  lemma SameApplied(x: Block, o: Operation)
    ensures Applied(x, Stored(o)) == Applied(x, o)
  {
  }

  ghost predicate RewritesFirst(job: Job, puts: seq<Put>)
    requires job.Valid()
  {
    |puts| == Kept(job) && forall i :: 0 <= i < |puts| ==> puts[i] == Put(job.ops[i].blckno, job.Latest(i))
  }

  lemma RewritesFirstPrefix(job: Job, puts: seq<Put>, j: nat)
    requires job.Valid() && RewritesFirst(job, puts) && j <= |puts|
    ensures Rewrites(job, puts[..j])
  {
    hide Makes, Stream, Chunks, Applied;
    forall k | 0 <= k < j ensures IsSomeRewrite(job, puts[..j][k]) {
      assert IsRewrite(job, k, puts[..j][k]);
    }
  }

  lemma RecoveryWritten(job: Job, d: Disk, puts: seq<Put>)
    requires job.Valid() && Committed(job, d) && RewritesFirst(job, puts)
    ensures Committed(job, Run(d, puts))
    ensures forall i :: 0 <= i < Kept(job) ==> Run(d, puts)[job.ops[i].blckno] == job.Latest(i)
  {
    hide Makes, Stream, Chunks, StorageBlock, Diff.Torn, Applied, LogOnDisk, Run;
    RewritesFirstPrefix(job, puts, |puts|);
    assert puts[..|puts|] == puts;
    RewriteKeepsCommitted(job, d, puts);
    forall i | 0 <= i < Kept(job) ensures Run(d, puts)[job.ops[i].blckno] == job.Latest(i) {
      RunWrites(d, puts, i);
    }
  }

  /** What a crash at any point of a recovery can leave behind. */
  lemma RecoveryCrash(job: Job, d: Disk, i: nat, j: nat, img: Disk)
    requires job.Valid() && Committed(job, d)
    requires PowerFails(d, RecoverBatches(job.g, d, job.log), i, j, job.Atomic(), img)
    ensures Committed(job, img) || CarriedOut(job, Kept(job), img)
    ensures i == 2 ==> CarriedOut(job, Kept(job), img)
  {
    hide Makes, Stream, Chunks, StorageBlock, Applied, LogOnDisk, Run;
    hide RunAll, CrashImage, StatusBlock, CarriedOut, Reloaded, RewritePuts, IsUnfinished;
    StatusBlockReads(job.g, job.log[0]);
    StatusAtomic(job);
    var r, s := RecoverBatches(job.g, d, job.log), job.g.status;
    var puts := r[0];
    RecoveryRewrites(job, d);
    RecoveryWritten(job, d, puts);
    RunAllNone(d);
    RunAllSnoc(d, r, 0);
    RunAllSnoc(d, r, 1);
    var d1, d2 := RunAll(d, r[..1]), RunAll(d, r[..2]);
    RunOne(d1, r[1][0]);
    hide Committed;
    if i == 0 {
      RewritesFirstPrefix(job, puts, j);
      CrashInRewrite(job, d, puts[..j], img);
    } else if i == 1 {
      CrashOne(d1, r[1][0], j, job.Atomic(), img);
      if img[s] == d1[s] {
        assert img == d1;
      } else {
        MarkFinishes(job, Kept(job), d1, img);
      }
    } else {
      CrashNone(d2, job.Atomic(), img);
      MarkFinishes(job, Kept(job), d1, img);
    }
  }

  lemma NotUnfinished(job: Job, img: Disk)
    requires job.Valid() && (NotStarted(job, img) || exists n: nat :: CarriedOut(job, n, img))
    ensures |img| == job.g.total && RecoverBatches(job.g, img, job.log) == []
  {
    hide Makes, Stream, Chunks, StorageBlock, Applied, LogOnDisk, IsUnfinished, Diff.Torn;
  }

  // ----- Any number of crashes

  /** The flush of the job fails and leaves images[0]; every recovery from there on fails too,
      leaving the next image, until the last one runs to its end and leaves `final`. */
  ghost predicate Outcome(job: Job, images: seq<Disk>, final: Disk)
    requires job.Valid()
  {
    && images != []
    && (exists i: nat, j: nat :: PowerFails(job.disk, job.FlushBatches(), i, j, job.Atomic(), images[0]))
    && (forall k :: 0 <= k < |images| ==> |images[k]| == job.g.total)
    && (forall k :: 0 <= k < |images| - 1 ==> RecoveryFails(job, images[k], images[k + 1]))
    && final == RunAll(images[|images| - 1], RecoverBatches(job.g, images[|images| - 1], job.log))
  }

  ghost predicate RecoveryFails(job: Job, d: Disk, img: Disk)
    requires job.Valid() && |d| == job.g.total
  {
    exists i: nat, j: nat :: PowerFails(d, RecoverBatches(job.g, d, job.log), i, j, job.Atomic(), img)
  }

  /** What the disk can look like between crashes. */
  ghost predicate Known(job: Job, img: Disk)
    requires job.Valid()
  {
    NotStarted(job, img) || Committed(job, img) || CarriedOut(job, Kept(job), img)
  }

  lemma CarriedOutLess(job: Job, img: Disk)
    requires job.Valid() && CarriedOut(job, |job.ops|, img)
    ensures CarriedOut(job, Kept(job), img)
  {
    hide Makes, Stream, Chunks, StorageBlock, Applied, LogOnDisk, IsUnfinished, Diff.Torn;
  }

  lemma KnownAgain(job: Job, d: Disk, img: Disk)
    requires job.Valid() && Known(job, d) && |d| == job.g.total && RecoveryFails(job, d, img)
    ensures Known(job, img)
  {
    hide Makes, Stream, Chunks, StorageBlock, Applied, LogOnDisk;
    hide IsUnfinished, Committed, NotStarted, CarriedOut, RecoverBatches, CrashImage, RunAll;
    var i: nat, j: nat :| PowerFails(d, RecoverBatches(job.g, d, job.log), i, j, job.Atomic(), img);
    if Committed(job, d) {
      RecoveryCrash(job, d, i, j, img);
    } else {
      NotUnfinished(job, d);
      RunAllNone(d);
      CrashNone(d, job.Atomic(), img);
    }
  }

  lemma {:induction false} KnownThroughout(job: Job, images: seq<Disk>, final: Disk, k: nat)
    requires job.Valid() && Outcome(job, images, final) && k < |images|
    ensures Known(job, images[k])
  {
    hide Makes, Stream, Chunks, StorageBlock, Applied, LogOnDisk;
    hide IsUnfinished, Committed, NotStarted, CarriedOut, RecoverBatches, PowerFails, RunAll;
    if k == 0 {
      var i: nat, j: nat :| PowerFails(job.disk, job.FlushBatches(), i, j, job.Atomic(), images[0]);
      FlushCrash(job, i, j, images[0]);
      if CarriedOut(job, |job.ops|, images[0]) {
        CarriedOutLess(job, images[0]);
      }
    } else {
      KnownThroughout(job, images, final, k - 1);
      KnownAgain(job, images[k - 1], images[k]);
    }
  }

  /** However often the power fails, the disk ends up untouched but for the log, or with every
      operation of the log carried out. */
  lemma OutcomeKnown(job: Job, images: seq<Disk>, final: Disk)
    requires job.Valid() && Outcome(job, images, final)
    ensures NotStarted(job, final) || CarriedOut(job, Kept(job), final)
  {
    hide Makes, Stream, Chunks, StorageBlock, Applied, LogOnDisk;
    hide IsUnfinished, Committed, NotStarted, CarriedOut, PowerFails, RunAll;
    var last := images[|images| - 1];
    KnownThroughout(job, images, final, |images| - 1);
    if Committed(job, last) {
      RecoveryEnds(job, last, final);
    } else {
      NotUnfinished(job, last);
      RunAllNone(last);
    }
  }

  lemma RecoveryEnds(job: Job, d: Disk, final: Disk)
    requires job.Valid() && Committed(job, d)
    requires final == RunAll(d, RecoverBatches(job.g, d, job.log))
    ensures CarriedOut(job, Kept(job), final)
  {
    hide Makes, Stream, Chunks, StorageBlock, Applied;
    hide LogOnDisk, CarriedOut, StatusBlock, Reloaded, RewritePuts, RunAll;
    StatusBlockReads(job.g, job.log[0]);
    var r := RecoverBatches(job.g, d, job.log);
    assert r[..2] == r;
    NothingLost(final, job.Atomic());
    RecoveryCrash(job, d, 2, 0, final);
  }

  lemma NothingLost(d: Disk, atomic: set<nat>)
    ensures CrashImage(d, [], atomic, d)
  {
  }

  // ----- Atomicity

  /** Every target holds its old contents. */
  ghost predicate AllOld(job: Job, d: Disk)
    requires job.Valid() && |d| == job.g.total
  {
    forall i :: 0 <= i < |job.ops| ==> d[job.ops[i].blckno] == job.disk[job.ops[i].blckno]
  }

  /** Every target holds its new contents. */
  ghost predicate AllNew(job: Job, d: Disk)
    requires job.Valid() && |d| == job.g.total
  {
    forall i :: 0 <= i < |job.ops| ==> d[job.ops[i].blckno] == job.Latest(i)
  }

  /** Operation i changes long j of its block. */
  ghost predicate Changes(job: Job, i: nat, j: nat)
    requires job.Valid()
  {
    i < |job.ops| && j < job.g.longs && job.disk[job.ops[i].blckno][j] != job.Latest(i)[j]
  }

  /** No long behind the end of the log changes, or it is the only long that changes at all.
      With no operation without data the log holds everything and this is always so. */
  ghost predicate Safe(job: Job)
    requires job.Valid()
  {
    forall i: nat, j: nat, k: nat, l: nat ::
      Kept(job) <= i && Changes(job, i, j) && Changes(job, k, l) ==> i == k && j == l
  }

  /** However often the power fails during the flush and the recoveries after it, in the end
      the targets are all old or all new. */
  ghost predicate CrashAtomic(job: Job)
    requires job.Valid()
  {
    forall images, final :: Outcome(job, images, final) ==>
      |final| == job.g.total && (AllOld(job, final) || AllNew(job, final))
  }

  lemma LatestSize(job: Job, i: nat)
    requires job.Valid() && i < |job.ops|
    ensures |job.Latest(i)| == |job.disk[job.ops[i].blckno]| == job.g.longs
  {
    hide Makes, Stream, Chunks, StorageBlock, Applied;
  }

  lemma EqualUnlessChanged(job: Job, i: nat)
    requires job.Valid() && i < |job.ops| && job.Latest(i) != job.disk[job.ops[i].blckno]
    ensures exists j: nat :: Changes(job, i, j)
  {
    hide Makes, Stream, Chunks, StorageBlock, Applied;
    LatestSize(job, i);
    var x, y := job.disk[job.ops[i].blckno], job.Latest(i);
    var j: nat :| j < |x| && x[j] != y[j];
    assert Changes(job, i, j);
  }

  lemma NotStartedAllOld(job: Job, d: Disk)
    requires job.Valid() && NotStarted(job, d)
    ensures |d| == job.g.total && AllOld(job, d)
  {
    hide Makes, Stream, Chunks, StorageBlock, Applied;
  }

  /** A block of which nothing changes, or only long j, cannot be caught half-way. */
  lemma TornOneLong(job: Job, i: nat, x: Block, j: nat)
    requires job.Valid() && i < |job.ops|
    requires Diff.Torn(x, job.disk[job.ops[i].blckno], job.Latest(i))
    requires forall l: nat :: Changes(job, i, l) ==> l == j
    ensures x == job.disk[job.ops[i].blckno] || x == job.Latest(i)
  {
    hide Makes, Stream, Chunks, StorageBlock, Applied;
    LatestSize(job, i);
    var o, n := job.disk[job.ops[i].blckno], job.Latest(i);
    forall l | 0 <= l < |x| && l != j ensures x[l] == o[l] == n[l] {
      assert !Changes(job, i, l);
    }
    if j >= |x| || x[j] == o[j] {
      assert x == o;
    } else {
      assert x == n;
    }
  }

  lemma OnlyChange(job: Job, i: nat, j: nat, k: nat)
    requires job.Valid() && Safe(job) && Kept(job) <= i && Changes(job, i, j) && k != i
    ensures forall l: nat :: !Changes(job, k, l)
  {
    hide Changes, Kept;
  }

  lemma CarriedOutAtomic(job: Job, d: Disk)
    requires job.Valid() && Safe(job) && CarriedOut(job, Kept(job), d)
    ensures |d| == job.g.total && (AllOld(job, d) || AllNew(job, d))
  {
    hide Makes, Stream, Chunks, StorageBlock, Applied, Changes, Diff.Torn, IsUnfinished;
    if i: nat, j: nat :| Kept(job) <= i < |job.ops| && Changes(job, i, j) {
      TornOneLong(job, i, d[job.ops[i].blckno], j);
      forall k | 0 <= k < |job.ops| && k != i
        ensures job.Latest(k) == job.disk[job.ops[k].blckno] == d[job.ops[k].blckno]
      {
        OnlyChange(job, i, j, k);
        if job.Latest(k) != job.disk[job.ops[k].blckno] {
          EqualUnlessChanged(job, k);
        }
        TornOneLong(job, k, d[job.ops[k].blckno], 0);
      }
    } else {
      forall k | 0 <= k < |job.ops| ensures d[job.ops[k].blckno] == job.Latest(k) {
        if Kept(job) <= k {
          if job.Latest(k) != job.disk[job.ops[k].blckno] {
            EqualUnlessChanged(job, k);
          }
          TornOneLong(job, k, d[job.ops[k].blckno], 0);
        }
      }
    }
  }

  /** Safe jobs survive any number of crashes. */
  lemma SafeIsAtomic(job: Job, images: seq<Disk>, final: Disk)
    requires job.Valid() && Safe(job) && Outcome(job, images, final)
    ensures |final| == job.g.total && (AllOld(job, final) || AllNew(job, final))
  {
    hide Makes, Stream, Chunks, StorageBlock, Applied, Outcome, Safe, NotStarted, CarriedOut, AllOld, AllNew;
    OutcomeKnown(job, images, final);
    if NotStarted(job, final) {
      NotStartedAllOld(job, final);
    } else {
      CarriedOutAtomic(job, final);
    }
  }

  /** The disk after the commit of which only long j of the target of operation i has reached
      its new value. */
  ghost function OneLongWritten(job: Job, i: nat, j: nat): (d: Disk)
    requires job.Valid() && i < |job.ops| && j < job.g.longs
    ensures |d| == job.g.total
  {
    LatestSize(job, i);
    var d := RunAll(job.disk, job.FlushBatches()[..2]);
    var b := job.ops[i].blckno;
    if |d[b]| == job.g.longs then d[b := d[b][j := job.Latest(i)[j]]] else d
  }

  lemma CommittedBase(job: Job)
    requires job.Valid()
    ensures var d := RunAll(job.disk, job.FlushBatches()[..2]);
      && Committed(job, d)
      && forall i :: 0 <= i < |job.ops| ==> d[job.ops[i].blckno] == job.disk[job.ops[i].blckno]
  {
    hide Makes, Stream, Chunks, StorageBlock, Applied, LogOnDisk, Run, RunAll, StatusBlock, Committed;
    FlushStages(job);
    LogWritten(job);
    MarkCommits(job, RunAll(job.disk, job.FlushBatches()[..1]), RunAll(job.disk, job.FlushBatches()[..2]));
  }

  lemma OneLongIsCrash(job: Job, i: nat, j: nat)
    requires job.Valid() && i < |job.ops| && j < job.g.longs
    ensures PowerFails(job.disk, job.FlushBatches(), 2, |job.ops|, job.Atomic(), OneLongWritten(job, i, j))
  {
    hide Makes, Stream, Chunks, StorageBlock, Applied, LogOnDisk, Run, RunAll, StatusBlock, Committed;
    CommittedBase(job);
    LatestSize(job, i);
    TargetNotAtomic(job, i);
    var d, pending, img := RunAll(job.disk, job.FlushBatches()[..2]), job.TargetPuts(), OneLongWritten(job, i, j);
    assert pending[..|job.ops|] == pending;
    assert pending[i] == Put(job.ops[i].blckno, job.Latest(i));
    forall b | 0 <= b < |d|
      ensures if b in job.Atomic() then Either(d[b], pending, b, img[b]) else Mixed(d[b], pending, b, img[b])
    {
    }
  }

  /** After that crash recovery makes the operations of the log new and leaves the others. */
  lemma OneLongRecovered(job: Job, i: nat, j: nat) returns (final: Disk)
    requires job.Valid() && Kept(job) <= i < |job.ops| && j < job.g.longs
    ensures Outcome(job, [OneLongWritten(job, i, j)], final) && |final| == job.g.total
    ensures forall k :: 0 <= k < Kept(job) ==> final[job.ops[k].blckno] == job.Latest(k)
    ensures forall k :: Kept(job) <= k < |job.ops| ==>
      final[job.ops[k].blckno] == OneLongWritten(job, i, j)[job.ops[k].blckno]
  {
    hide Makes, Stream, Chunks, StorageBlock, Applied, LogOnDisk, Run, RunAll, StatusBlock, Committed, PowerFails;
    var img := OneLongWritten(job, i, j);
    OneLongIsCrash(job, i, j);
    CommittedBase(job);
    TargetPrefix(job, |job.ops|);
    assert Committed(job, img) by {
      assert PowerFails(job.disk, job.FlushBatches(), 2, |job.ops|, job.Atomic(), img);
      PowerFailsInTargets(job, img);
    }
    final := RunAll(img, RecoverBatches(job.g, img, job.log));
    RecoveryDetail(job, img);
    assert Outcome(job, [img], final);
  }

  lemma PowerFailsInTargets(job: Job, img: Disk)
    requires job.Valid() && PowerFails(job.disk, job.FlushBatches(), 2, |job.ops|, job.Atomic(), img)
    ensures Committed(job, img)
  {
    hide Makes, Stream, Chunks, StorageBlock, Applied, LogOnDisk, Run, RunAll, StatusBlock, Committed, CrashImage;
    CommittedBase(job);
    TargetPrefix(job, |job.ops|);
    CrashInRewrite(job, RunAll(job.disk, job.FlushBatches()[..2]), job.TargetPuts()[..|job.ops|], img);
  }

  lemma RecoveryDetail(job: Job, d: Disk)
    requires job.Valid() && Committed(job, d)
    ensures var final := RunAll(d, RecoverBatches(job.g, d, job.log));
      && (forall k :: 0 <= k < Kept(job) ==> final[job.ops[k].blckno] == job.Latest(k))
      && (forall k :: Kept(job) <= k < |job.ops| ==> final[job.ops[k].blckno] == d[job.ops[k].blckno])
  {
    hide Makes, Stream, Chunks, StorageBlock, Applied, LogOnDisk;
    hide CarriedOut, StatusBlock, Reloaded, RewritePuts, Run, RunAll;
    StatusBlockReads(job.g, job.log[0]);
    var r := RecoverBatches(job.g, d, job.log);
    var puts := r[0];
    RecoveryRewrites(job, d);
    RecoveryWritten(job, d, puts);
    RunAllNone(d);
    RunAllSnoc(d, r, 0);
    RunAllSnoc(d, r, 1);
    RunOne(RunAll(d, r[..1]), r[1][0]);
    assert r[..2] == r;
    forall k | Kept(job) <= k < |job.ops| ensures Run(d, puts)[job.ops[k].blckno] == d[job.ops[k].blckno] {
      RunKeeps(d, puts, job.ops[k].blckno);
    }
  }

  /** An unsafe job can end up neither old nor new: what lies behind the first operation
      without data is lost from the log. */
  lemma UnsafeIsNotAtomic(job: Job) returns (images: seq<Disk>, final: Disk)
    requires job.Valid() && !Safe(job)
    ensures Outcome(job, images, final) && |final| == job.g.total
    ensures !AllOld(job, final) && !AllNew(job, final)
  {
    hide Makes, Stream, Chunks, StorageBlock, Applied, Outcome;
    var i: nat, j: nat, k: nat, l: nat :|
      Kept(job) <= i && Changes(job, i, j) && Changes(job, k, l) && !(i == k && j == l);
    if k < Kept(job) {
      // nothing but the log and the mark has been written
      images, final := CommittedOnly(job);
    } else {
      final := OneLongRecovered(job, i, j);
      images := [OneLongWritten(job, i, j)];
      OneLongShows(job, i, j, k, l, final);
    }
  }

  lemma CommittedOnly(job: Job) returns (images: seq<Disk>, final: Disk)
    requires job.Valid()
    ensures Outcome(job, images, final) && |final| == job.g.total
    ensures forall k :: 0 <= k < Kept(job) ==> final[job.ops[k].blckno] == job.Latest(k)
    ensures forall k :: Kept(job) <= k < |job.ops| ==> final[job.ops[k].blckno] == job.disk[job.ops[k].blckno]
  {
    hide Makes, Stream, Chunks, StorageBlock, Applied, LogOnDisk, Run, RunAll, StatusBlock, Committed, CrashImage;
    CommittedBase(job);
    var d := RunAll(job.disk, job.FlushBatches()[..2]);
    NothingLost(d, job.Atomic());
    assert job.FlushBatches()[2][..0] == [];
    assert PowerFails(job.disk, job.FlushBatches(), 2, 0, job.Atomic(), d);
    images, final := [d], RunAll(d, RecoverBatches(job.g, d, job.log));
    RecoveryDetail(job, d);
  }

  lemma OneLongShows(job: Job, i: nat, j: nat, k: nat, l: nat, final: Disk)
    requires job.Valid() && |final| == job.g.total
    requires Kept(job) <= i && Changes(job, i, j) && Kept(job) <= k && Changes(job, k, l) && !(i == k && j == l)
    requires forall m ::
        Kept(job) <= m < |job.ops| ==> final[job.ops[m].blckno] == OneLongWritten(job, i, j)[job.ops[m].blckno]
    ensures !AllOld(job, final) && !AllNew(job, final)
  {
    hide Makes, Stream, Chunks, StorageBlock, Applied, LogOnDisk, Run, RunAll, StatusBlock, Committed;
    CommittedBase(job);
    LatestSize(job, i);
    LatestSize(job, k);
    var b, c := job.ops[i].blckno, job.ops[k].blckno;
    assert |final[b]| == job.g.longs && final[b][j] == job.Latest(i)[j] != job.disk[b][j];
    assert |final[c]| == job.g.longs && final[c][l] == job.disk[c][l] != job.Latest(k)[l];
  }

  /** The flush is crash-atomic exactly when the job is safe. */
  lemma CrashAtomicity(job: Job)
    requires job.Valid()
    ensures CrashAtomic(job) <==> Safe(job)
  {
    hide Makes, Stream, Chunks, StorageBlock, Applied, Outcome, Safe, AllOld, AllNew;
    if Safe(job) {
      forall images, final | Outcome(job, images, final)
        ensures |final| == job.g.total && (AllOld(job, final) || AllNew(job, final))
      {
        SafeIsAtomic(job, images, final);
      }
    } else {
      var images, final := UnsafeIsNotAtomic(job);
    }
  }

  /** With data in every operation a flush is crash-atomic. */
  lemma NoDeletesIsAtomic(job: Job)
    requires job.Valid() && forall i :: 0 <= i < |job.ops| ==> job.ops[i].data != []
    ensures Kept(job) == |job.ops| && CrashAtomic(job)
  {
    hide Makes, Stream, Chunks, StorageBlock, Applied, CrashAtomic;
    LoggedIsPrefix(job.ops);
    CrashAtomicity(job);
  }

  /** No crash costs more than the transaction: blocks outside log and targets keep their
      contents, and once the flush is over the targets stay new. */
  lemma CrashKeepsOthers(job: Job, images: seq<Disk>, final: Disk, b: nat)
    requires job.Valid() && Outcome(job, images, final) && b < job.g.total && Untouched(job, b)
    ensures |final| == job.g.total && final[b] == job.disk[b]
    ensures !IsUnfinished(final[job.g.status])
  {
    hide Makes, Stream, Chunks, StorageBlock, Applied, Outcome, IsUnfinished;
    OutcomeKnown(job, images, final);
  }

  lemma CompletedFlushIsDurable(job: Job, img: Disk)
    requires job.Valid() && PowerFails(job.disk, job.FlushBatches(), 4, 0, job.Atomic(), img)
    ensures |img| == job.g.total && AllNew(job, img) && RecoverBatches(job.g, img, job.log) == []
  {
    hide Makes, Stream, Chunks, StorageBlock, Applied, PowerFails, IsUnfinished;
    FlushCrash(job, 4, 0, img);
    NotUnfinished(job, img);
  }

  /** What is on disk when a flush was not interrupted. */
  lemma FlushedDisk(job: Job)
    requires job.Valid()
    ensures CarriedOut(job, |job.ops|, RunAll(job.disk, job.FlushBatches()))
  {
    hide Makes, Stream, Chunks, StorageBlock, Applied, LogOnDisk, Run, RunAll, CarriedOut, CrashImage;
    FlushStages(job);
    var f := job.FlushBatches();
    var d := RunAll(job.disk, f);
    NothingLost(d, job.Atomic());
    assert f[..4] == f;
    FlushCrash(job, 4, 0, d);
  }

  lemma RunSnoc(d: Disk, puts: seq<Put>, p: Put)
    requires p.block < |d|
    ensures Run(d, puts + [p]) == Run(d, puts)[p.block := p.image]
  {
    assert (puts + [p])[..|puts|] == puts;
  }

  lemma RunAllAppend(d: Disk, batches: seq<seq<Put>>, batch: seq<Put>)
    ensures RunAll(d, batches + [batch]) == Run(RunAll(d, batches), batch)
  {
    assert (batches + [batch])[..|batches|] == batches;
  }
}
