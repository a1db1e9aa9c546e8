/** The parallel eager restore: workers share one atomic chunk counter and copy the dirty
    runs of the chunks they claim. A step is one atomic action of one worker, so a schedule
    is a sequence of worker numbers and every interleaving is one of them. */
module CopyPool {
  import opened Bytes
  import opened GuestMemory
  import opened DirtyBitmap
  import opened EagerRestore

  datatype Job = Job(src: Ram, bitmap: seq<Byte>)

  predicate ValidJob(job: Job) {
    Covers(job.bitmap, |job.src|)
  }

  function NumChunks(job: Job): nat {
    (|job.src| + CHUNK_PAGES - 1) / CHUNK_PAGES
  }

  datatype Worker =
    | Idle(local: nat)                                 // about to claim a chunk
    | Scan(pg: nat, end: nat, local: nat)              // looking for a set bit
    | Grow(start: nat, pg: nat, end: nat, local: nat)  // extending the run [start, pg)
    | Memcpy(pos: nat, pg: nat, end: nat, local: nat)  // run ends at pg, copied up to pos
    | Done                                             // local count added to the total

  datatype Pool = Pool(next: nat, dst: Ram, workers: seq<Worker>, totalDirty: nat, claims: seq<nat>)

  function Init(dst: Ram, workers: nat): Pool {
    Pool(0, dst, seq(workers, _ => Idle(0)), 0, [])
  }

  /** One action of worker w. */
  function Step(job: Job, p: Pool, w: nat): Pool
    requires ValidJob(job) && w < |p.workers| && |p.dst| == |job.src|
    requires p.workers[w].Scan? || p.workers[w].Grow? ==> p.workers[w].end <= |job.src|
    requires p.workers[w].Memcpy? ==> p.workers[w].pg <= |job.src|
    requires p.workers[w].Grow? ==> p.workers[w].start <= p.workers[w].pg
  {
    match p.workers[w]
    case Done => p
    case Idle(local) =>
      var ch := p.next;
      if ch >= NumChunks(job) then
        p.(next := ch + 1, workers := p.workers[w := Done], totalDirty := p.totalDirty + local)
      else
        p.(next := ch + 1, claims := p.claims + [ch],
           workers := p.workers[w := Scan(ch * CHUNK_PAGES, ChunkEnd(ch, |job.src|), local)])
    case Scan(pg, end, local) =>
      var w' := if pg >= end then Idle(local)
                else if !Dirty(job.bitmap, pg) then Scan(pg + 1, end, local)
                else Grow(pg, pg + 1, end, local);
      p.(workers := p.workers[w := w'])
    case Grow(start, pg, end, local) =>
      var w' := if pg < end && Dirty(job.bitmap, pg) then Grow(start, pg + 1, end, local)
                else Memcpy(start, pg, end, local + (pg - start));
      p.(workers := p.workers[w := w'])
    case Memcpy(pos, pg, end, local) =>
      if pos < pg then
        p.(dst := p.dst[pos := job.src[pos]], workers := p.workers[w := Memcpy(pos + 1, pg, end, local)])
      else
        p.(workers := p.workers[w := Scan(pg, end, local)])
  }

  // ---- Invariant ----------------------------------------------------------

  /** Pages of the worker's chunk that it has not finished with. */
  predicate Held(w: Worker, pg: nat) {
    match w
    case Scan(p, end, _) => p <= pg < end
    case Grow(start, _, end, _) => start <= pg < end
    case Memcpy(pos, _, end, _) => pos <= pg < end
    case _ => false
  }

  /** Pages of the worker's chunk that its local count does not cover yet. */
  predicate Uncounted(w: Worker, pg: nat) {
    match w
    case Scan(p, end, _) => p <= pg < end
    case Grow(start, _, end, _) => start <= pg < end
    case Memcpy(_, p, end, _) => p <= pg < end
    case _ => false
  }

  function Local(w: Worker): nat {
    if w.Done? then 0 else w.local
  }

  ghost predicate WorkerOk(job: Job, w: Worker)
    requires ValidJob(job)
  {
    match w
    case Scan(pg, end, _) => pg <= end <= |job.src|
    case Grow(start, pg, end, _) =>
      start < pg <= end <= |job.src| && forall i | start <= i < pg :: Dirty(job.bitmap, i)
    case Memcpy(pos, pg, end, _) =>
      pos <= pg <= end <= |job.src| && forall i | pos <= i < pg :: Dirty(job.bitmap, i)
    case _ => true
  }

  /** Pages below the frontier belong to chunks that have been claimed. */
  function Frontier(job: Job, p: Pool): nat {
    if p.next * CHUNK_PAGES < |job.src| then p.next * CHUNK_PAGES else |job.src|
  }

  ghost predicate Settled(job: Job, p: Pool, pg: nat) {
    pg < Frontier(job, p) && forall i | 0 <= i < |p.workers| :: !Held(p.workers[i], pg)
  }

  ghost predicate Counted(job: Job, p: Pool, pg: nat) {
    pg < Frontier(job, p) && forall i | 0 <= i < |p.workers| :: !Uncounted(p.workers[i], pg)
  }

  ghost function CountedDirty(job: Job, p: Pool): set<nat>
    requires ValidJob(job)
  {
    set pg: nat | 0 <= pg < |job.src| && Dirty(job.bitmap, pg) && Counted(job, p, pg)
  }

  ghost function SumLocal(ws: seq<Worker>): nat {
    if ws == [] then 0 else Local(ws[0]) + SumLocal(ws[1..])
  }

  ghost predicate Shape(job: Job, p: Pool)
    requires ValidJob(job)
  {
    && |p.dst| == |job.src|
    && (forall i | 0 <= i < |p.workers| :: WorkerOk(job, p.workers[i]))
    && (forall i, pg: nat | 0 <= i < |p.workers| && Held(p.workers[i], pg) :: pg < Frontier(job, p))
    && (forall i, j, pg: nat | 0 <= i < j < |p.workers| && Held(p.workers[i], pg) :: !Held(p.workers[j], pg))
    && (forall i | 0 <= i < |p.workers| && p.workers[i].Done? :: NumChunks(job) <= p.next)
  }

  ghost predicate Claims(job: Job, p: Pool) {
    && |p.claims| == (if p.next < NumChunks(job) then p.next else NumChunks(job))
    && forall i | 0 <= i < |p.claims| :: p.claims[i] == i
  }

  ghost predicate Contents(job: Job, dst0: Ram, p: Pool)
    requires ValidJob(job) && |p.dst| == |job.src| == |dst0|
  {
    forall pg | 0 <= pg < |dst0| ::
      p.dst[pg] == if Dirty(job.bitmap, pg) && Settled(job, p, pg) then job.src[pg] else dst0[pg]
  }

  ghost predicate Inv(job: Job, dst0: Ram, p: Pool)
    requires ValidJob(job)
  {
    && |dst0| == |job.src|
    && Shape(job, p)
    && Claims(job, p)
    && Contents(job, dst0, p)
    && p.totalDirty + SumLocal(p.workers) == |CountedDirty(job, p)|
  }

  lemma {:induction false} SumLocalUpdate(ws: seq<Worker>, i: nat, w: Worker)
    requires i < |ws|
    ensures SumLocal(ws[i := w]) == SumLocal(ws) - Local(ws[i]) + Local(w)
  {
    if i > 0 {
      assert ws[i := w][1..] == ws[1..][i - 1 := w];
      SumLocalUpdate(ws[1..], i - 1, w);
    }
  }

  lemma {:induction false} SumLocalZero(n: nat)
    ensures SumLocal(seq(n, _ => Idle(0))) == 0
  {
    if n > 0 {
      assert seq(n, _ => Idle(0))[1..] == seq(n - 1, _ => Idle(0));
      SumLocalZero(n - 1);
    }
  }

  /** A run of dirty pages counts its own length. */
  lemma RunSize(bitmap: seq<Byte>, lo: nat, hi: nat)
    requires lo <= hi && Covers(bitmap, hi) && forall i | lo <= i < hi :: Dirty(bitmap, i)
    ensures |DirtyPages(bitmap, lo, hi)| == hi - lo
  {
    DirtyRun(bitmap, lo, lo, hi);
    assert DirtyPages(bitmap, lo, lo) == {};
  }

  lemma InitInv(job: Job, dst: Ram, n: nat)
    requires ValidJob(job) && |dst| == |job.src|
    ensures Inv(job, dst, Init(dst, n))
  {
    SumLocalZero(n);
    assert CountedDirty(job, Init(dst, n)) == {};
  }

  /** No chunk is left: the worker adds its count to the total and is done. */
  lemma RetireKeepsInv(job: Job, dst0: Ram, p: Pool, w: nat)
    requires ValidJob(job) && Inv(job, dst0, p) && w < |p.workers| && p.workers[w].Idle? && p.next >= NumChunks(job)
    ensures Inv(job, dst0, Step(job, p, w))
  {
    hide Dirty;
    var q := Step(job, p, w);
    SumLocalUpdate(p.workers, w, q.workers[w]);
    hide SumLocal;
    assert forall i | 0 <= i < |p.workers| && i != w :: q.workers[i] == p.workers[i];
    assert CountedDirty(job, q) == CountedDirty(job, p);
  }

  lemma TakeKeepsInv(job: Job, dst0: Ram, p: Pool, w: nat)
    requires ValidJob(job) && Inv(job, dst0, p) && w < |p.workers| && p.workers[w].Idle? && p.next < NumChunks(job)
    ensures Inv(job, dst0, Step(job, p, w))
  {
    hide Dirty;
    var q := Step(job, p, w);
    SumLocalUpdate(p.workers, w, q.workers[w]);
    hide SumLocal;
    assert forall i | 0 <= i < |p.workers| && i != w :: q.workers[i] == p.workers[i];
    assert forall i, pg: nat | 0 <= i < |p.workers| && Uncounted(p.workers[i], pg) :: Held(p.workers[i], pg);
    assert CountedDirty(job, q) == CountedDirty(job, p);
  }

  lemma ClaimKeepsInv(job: Job, dst0: Ram, p: Pool, w: nat)
    requires ValidJob(job) && Inv(job, dst0, p) && w < |p.workers| && p.workers[w].Idle?
    ensures Inv(job, dst0, Step(job, p, w))
  {
    hide Inv;
    if p.next < NumChunks(job) {
      TakeKeepsInv(job, dst0, p, w);
    } else {
      RetireKeepsInv(job, dst0, p, w);
    }
  }

  /** q is p after worker w moved on inside its chunk: it took no new page. */
  ghost predicate Advances(job: Job, p: Pool, q: Pool, w: nat)
    requires ValidJob(job)
  {
    && w < |p.workers|
    && |q.workers| == |p.workers|
    && q == p.(dst := q.dst, workers := p.workers[w := q.workers[w]])
    && |q.dst| == |p.dst|
    && WorkerOk(job, q.workers[w])
    && !q.workers[w].Done?
    && (forall pg: nat | Held(q.workers[w], pg) :: Held(p.workers[w], pg))
  }

  lemma AdvanceShape(job: Job, p: Pool, q: Pool, w: nat)
    requires ValidJob(job) && Shape(job, p) && Advances(job, p, q, w)
    ensures Shape(job, q)
  {
    forall i, j, pg: nat | 0 <= i < j < |q.workers| && Held(q.workers[i], pg) ensures !Held(q.workers[j], pg) {
      assert Held(p.workers[i], pg);
      assert !Held(p.workers[j], pg);
    }
  }

  /** The pages w let go of carry their final contents; no other page was touched. */
  lemma AdvanceContents(job: Job, dst0: Ram, p: Pool, q: Pool, w: nat)
    requires ValidJob(job) && Shape(job, p) && |dst0| == |job.src| && Contents(job, dst0, p) && Advances(job, p, q, w)
    requires forall pg: nat | pg < |dst0| && Held(p.workers[w], pg) && !Held(q.workers[w], pg) ::
      q.dst[pg] == if Dirty(job.bitmap, pg) then job.src[pg] else dst0[pg]
    requires forall pg: nat | pg < |dst0| && !(Held(p.workers[w], pg) && !Held(q.workers[w], pg)) ::
      q.dst[pg] == p.dst[pg]
    ensures Contents(job, dst0, q)
  {
    forall pg | 0 <= pg < |dst0|
      ensures q.dst[pg] == if Dirty(job.bitmap, pg) && Settled(job, q, pg) then job.src[pg] else dst0[pg]
    {
      if Held(p.workers[w], pg) && !Held(q.workers[w], pg) {
        assert Settled(job, q, pg);
      } else {
        assert forall i | 0 <= i < |p.workers| :: Held(q.workers[i], pg) <==> Held(p.workers[i], pg);
      }
    }
  }

  /** Only pages w stopped leaving uncounted join the counted ones. */
  lemma AdvanceCount(job: Job, p: Pool, q: Pool, w: nat, run: set<nat>)
    requires ValidJob(job) && Shape(job, p) && Advances(job, p, q, w)
    requires forall pg: nat ::
      pg in run <==>
        MarkedPage(job.bitmap, |job.src|, pg) && Uncounted(p.workers[w], pg) && !Uncounted(q.workers[w], pg)
    requires forall pg: nat | Uncounted(q.workers[w], pg) :: Uncounted(p.workers[w], pg)
    ensures |CountedDirty(job, q)| == |CountedDirty(job, p)| + |run|
  {
    forall pg: nat ensures pg in CountedDirty(job, q) <==> pg in CountedDirty(job, p) + run {
      if pg in run {
        assert Held(p.workers[w], pg);
        assert forall i | 0 <= i < |p.workers| && i != w :: !Held(p.workers[i], pg);
        assert Counted(job, q, pg);
      } else if MarkedPage(job.bitmap, |job.src|, pg) {
        assert forall i | 0 <= i < |p.workers| :: Uncounted(q.workers[i], pg) <==> Uncounted(p.workers[i], pg);
      }
    }
    assert CountedDirty(job, q) == CountedDirty(job, p) + run;
    assert CountedDirty(job, p) !! run;
  }

  lemma ScanKeepsInv(job: Job, dst0: Ram, p: Pool, w: nat)
    requires ValidJob(job) && Inv(job, dst0, p) && w < |p.workers| && p.workers[w].Scan?
    ensures Inv(job, dst0, Step(job, p, w))
  {
    hide Dirty;
    var q := Step(job, p, w);
    SumLocalUpdate(p.workers, w, q.workers[w]);
    hide SumLocal;
    AdvanceShape(job, p, q, w);
    AdvanceContents(job, dst0, p, q, w);
    AdvanceCount(job, p, q, w, {});
  }

  lemma GrowKeepsInv(job: Job, dst0: Ram, p: Pool, w: nat)
    requires ValidJob(job) && Inv(job, dst0, p) && w < |p.workers| && p.workers[w].Grow?
    ensures Inv(job, dst0, Step(job, p, w))
  {
    var q := Step(job, p, w);
    SumLocalUpdate(p.workers, w, q.workers[w]);
    AdvanceShape(job, p, q, w);
    AdvanceContents(job, dst0, p, q, w);
    var Grow(start, pg, _, _) := p.workers[w];
    RunSize(job.bitmap, start, pg);
    AdvanceCount(job, p, q, w, if q.workers[w].Memcpy? then DirtyPages(job.bitmap, start, pg) else {});
  }

  lemma MemcpyKeepsInv(job: Job, dst0: Ram, p: Pool, w: nat)
    requires ValidJob(job) && Inv(job, dst0, p) && w < |p.workers| && p.workers[w].Memcpy?
    ensures Inv(job, dst0, Step(job, p, w))
  {
    var q := Step(job, p, w);
    SumLocalUpdate(p.workers, w, q.workers[w]);
    AdvanceShape(job, p, q, w);
    AdvanceContents(job, dst0, p, q, w);
    AdvanceCount(job, p, q, w, {});
  }

  lemma StepKeepsInv(job: Job, dst0: Ram, p: Pool, w: nat)
    requires ValidJob(job) && Inv(job, dst0, p) && w < |p.workers|
    ensures Inv(job, dst0, Step(job, p, w))
  {
    match p.workers[w]
    case Done =>
    case Idle(_) => ClaimKeepsInv(job, dst0, p, w);
    case Scan(_, _, _) => ScanKeepsInv(job, dst0, p, w);
    case Grow(_, _, _, _) => GrowKeepsInv(job, dst0, p, w);
    case Memcpy(_, _, _, _) => MemcpyKeepsInv(job, dst0, p, w);
  }

  // ---- Whole runs ---------------------------------------------------------

  ghost predicate Scheduled(p: Pool, sched: seq<nat>) {
    forall i | 0 <= i < |sched| :: sched[i] < |p.workers|
  }

  ghost function Run(job: Job, dst0: Ram, p: Pool, sched: seq<nat>): (q: Pool)
    requires ValidJob(job) && Inv(job, dst0, p) && Scheduled(p, sched)
    ensures Inv(job, dst0, q) && |q.workers| == |p.workers|
    decreases |sched|
  {
    if sched == [] then p
    else
      StepKeepsInv(job, dst0, p, sched[0]);
      Run(job, dst0, Step(job, p, sched[0]), sched[1..])
  }

  ghost predicate AllDone(p: Pool) {
    forall i | 0 <= i < |p.workers| :: p.workers[i].Done?
  }

  lemma {:induction false} SumLocalDone(ws: seq<Worker>)
    requires forall i | 0 <= i < |ws| :: ws[i].Done?
    ensures SumLocal(ws) == 0
  {
    if ws != [] {
      SumLocalDone(ws[1..]);
    }
  }

  /** The pool started on destination dst with n workers, after the given schedule. */
  ghost function PoolRun(job: Job, dst: Ram, n: nat, sched: seq<nat>): (q: Pool)
    requires ValidJob(job) && |dst| == |job.src| && Scheduled(Init(dst, n), sched)
    ensures Inv(job, dst, q)
  {
    InitInv(job, dst, n);
    Run(job, dst, Init(dst, n), sched)
  }

  /** Every schedule of one or more workers that runs the pool to completion claims each chunk
      exactly once, in order, leaves the source on the dirty pages and the old contents on the
      others, and reports the number of dirty pages. */
  lemma PoolResult(job: Job, dst: Ram, n: nat, sched: seq<nat>)
    requires ValidJob(job) && |dst| == |job.src| && n > 0 && Scheduled(Init(dst, n), sched)
    requires AllDone(PoolRun(job, dst, n, sched))
    ensures var q := PoolRun(job, dst, n, sched);
      && q.dst == Overlay(job.src, dst, job.bitmap, 0, |dst|)
      && q.totalDirty == |DirtyPages(job.bitmap, 0, |dst|)|
      && q.claims == seq(NumChunks(job), i => i)
  {
    var q := PoolRun(job, dst, n, sched);
    assert q.workers[0].Done?;
    assert Frontier(job, q) == |job.src|;
    SumLocalDone(q.workers);
    assert CountedDirty(job, q) == DirtyPages(job.bitmap, 0, |dst|);
  }

  // ---- Termination --------------------------------------------------------

  function Work(w: Worker): int {
    match w
    case Done => 0
    case Idle(_) => 1
    case Scan(pg, end, _) => 4 * (end - pg) + 2
    case Grow(start, pg, end, _) => 4 * (end - pg) + 2 * (pg - start) + 3
    case Memcpy(pos, pg, end, _) => 4 * (end - pg) + (pg - pos) + 3
  }

  ghost function SumWork(ws: seq<Worker>): int {
    if ws == [] then 0 else Work(ws[0]) + SumWork(ws[1..])
  }

  ghost function Remaining(job: Job, p: Pool): int {
    SumWork(p.workers) + (if p.next < NumChunks(job) then (NumChunks(job) - p.next) * (4 * CHUNK_PAGES + 2) else 0)
  }

  lemma {:induction false} SumWorkUpdate(ws: seq<Worker>, i: nat, w: Worker)
    requires i < |ws|
    ensures SumWork(ws[i := w]) == SumWork(ws) - Work(ws[i]) + Work(w)
  {
    if i > 0 {
      assert ws[i := w][1..] == ws[1..][i - 1 := w];
      SumWorkUpdate(ws[1..], i - 1, w);
    }
  }

  lemma {:induction false} SumWorkNonNegative(job: Job, ws: seq<Worker>)
    requires ValidJob(job) && forall i | 0 <= i < |ws| :: WorkerOk(job, ws[i])
    ensures SumWork(ws) >= 0
  {
    if ws != [] {
      SumWorkNonNegative(job, ws[1..]);
    }
  }

  /** A worker inside a chunk has less left after a step; a claim takes on one chunk's worth at most. */
  lemma WorkerWorks(job: Job, p: Pool, w: nat)
    requires ValidJob(job) && w < |p.workers| && |p.dst| == |job.src| && WorkerOk(job, p.workers[w])
    requires !p.workers[w].Done?
    ensures var q := Step(job, p, w);
      && q.workers == p.workers[w := q.workers[w]]
      && if p.workers[w].Idle? then
           q.next == p.next + 1 && Work(q.workers[w]) <= if p.next < NumChunks(job) then 4 * CHUNK_PAGES + 2 else 0
         else q.next == p.next && Work(q.workers[w]) < Work(p.workers[w])
  {
    hide Dirty;
  }

  lemma StepWorks(job: Job, dst0: Ram, p: Pool, w: nat)
    requires ValidJob(job) && Inv(job, dst0, p) && w < |p.workers| && !p.workers[w].Done?
    ensures Remaining(job, Step(job, p, w)) < Remaining(job, p)
  {
    WorkerWorks(job, p, w);
    var q := Step(job, p, w);
    SumWorkUpdate(p.workers, w, q.workers[w]);
    assert p.workers[w].Idle? ==> Work(p.workers[w]) == 1;
    hide Inv, Step, Work, SumWork, NumChunks;
  }

  /** Each entry of the schedule is a worker that still has something to do. */
  ghost predicate Productive(job: Job, dst0: Ram, p: Pool, sched: seq<nat>)
    requires ValidJob(job) && Inv(job, dst0, p) && Scheduled(p, sched)
    decreases |sched|
  {
    sched == [] ||
    (StepKeepsInv(job, dst0, p, sched[0]);
     !p.workers[sched[0]].Done? && Productive(job, dst0, Step(job, p, sched[0]), sched[1..]))
  }

  lemma {:induction false} SumWorkIdle(n: nat)
    ensures SumWork(seq(n, _ => Idle(0))) == n
  {
    if n > 0 {
      assert seq(n, _ => Idle(0))[1..] == seq(n - 1, _ => Idle(0));
      SumWorkIdle(n - 1);
    }
  }

  lemma InitRemaining(job: Job, dst: Ram, n: nat)
    ensures Remaining(job, Init(dst, n)) == n + 1026 * NumChunks(job)
  {
    SumWorkIdle(n);
    hide SumWork, NumChunks;
  }

  /** No interleaving runs longer than the work the pool starts with. */
  lemma {:induction false} PoolTerminates(job: Job, dst0: Ram, p: Pool, sched: seq<nat>)
    requires ValidJob(job) && Inv(job, dst0, p) && Scheduled(p, sched) && Productive(job, dst0, p, sched)
    ensures |sched| <= Remaining(job, p)
    decreases |sched|
  {
    SumWorkNonNegative(job, p.workers);
    if sched != [] {
      StepKeepsInv(job, dst0, p, sched[0]);
      StepWorks(job, dst0, p, sched[0]);
      PoolTerminates(job, dst0, Step(job, p, sched[0]), sched[1..]);
    }
  }

  /** The explicit bound: 1026 actions per chunk plus one per worker. */
  lemma PoolBound(job: Job, dst: Ram, n: nat, sched: seq<nat>)
    requires ValidJob(job) && |dst| == |job.src| && Scheduled(Init(dst, n), sched)
    requires (InitInv(job, dst, n); Productive(job, dst, Init(dst, n), sched))
    ensures |sched| <= n + 1026 * NumChunks(job)
  {
    InitInv(job, dst, n);
    PoolTerminates(job, dst, Init(dst, n), sched);
    hide Inv, Productive, Scheduled;
    InitRemaining(job, dst, n);
  }
}
