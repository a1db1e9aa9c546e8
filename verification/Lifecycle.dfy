/** Who owns the snapshot mapping, the fault worker and the net thread from start-up to cleanup.
    System-call outcomes, and whether a joined thread ever leaves, are inputs. */
module Lifecycle {
  import L = LazyRestore

  datatype Event = Mmap | Munmap | WorkerStart | WorkerJoin | NetStart(id: nat) | NetJoin(id: nat)

  /** Command-line choices, and how the calls the code makes turn out. wakeups lists, for each time
      the net device comes up, whether its wake-up eventfd could be created. netReady: the last net
      thread found both queues ready, without which it never looks at the stop flag. mem: where demand
      paging stands when cleanup begins, nobody waiting if there is none. workerWakeup: the worker's
      wake-up eventfd, which nobody checks, exists. workerStirs: its poll returns all the same, for a
      late fault or an error. daemonExits: virtiofsd, if one was started, exits when asked to. */
  datatype Env = Env(
    useUffd: bool, midway: bool, tap: bool,
    uffdAtInit: bool, restOfInit: bool,
    fileMapped: bool, fileComplete: bool, headerOk: bool,
    uffdAtMidway: bool, kvmOk: bool,
    netUp: bool, wakeups: seq<bool>,
    netReady: bool, mem: L.State, workerWakeup: bool, workerStirs: bool, daemonExits: bool)

  // ---- Reading a log ------------------------------------------------------

  function Count(log: seq<Event>, e: Event): nat {
    if log == [] then 0 else Count(log[..|log| - 1], e) + if log[|log| - 1] == e then 1 else 0
  }

  predicate WorkerLive(log: seq<Event>) {
    log != [] &&
    var last := log[|log| - 1];
    last.WorkerStart? || (!last.WorkerJoin? && WorkerLive(log[..|log| - 1]))
  }

  /** Net threads that were started and not joined. */
  function Unjoined(log: seq<Event>): set<nat> {
    if log == [] then {}
    else
      Track(Unjoined(log[..|log| - 1]), log[|log| - 1])
  }

  function Track(live: set<nat>, e: Event): set<nat> {
    match e
    case NetStart(i) => live + {i}
    case NetJoin(i) => live - {i}
    case _ => live
  }

  /** The mapping is never taken away while the worker may copy out of it. */
  ghost predicate UnmapsSafely(log: seq<Event>) {
    forall i | 0 <= i < |log| && log[i] == Munmap :: !WorkerLive(log[..i])
  }

  /** The net threads that were not joined each time the worker was. */
  ghost predicate LeftAtJoin(log: seq<Event>, left: set<nat>) {
    forall i | 0 <= i < |log| && log[i] == WorkerJoin :: Unjoined(log[..i]) == left
  }

  lemma Logged(log: seq<Event>, e: Event)
    ensures (log + [e])[..|log|] == log
    ensures Count(log + [e], Mmap) == Count(log, Mmap) + if e == Mmap then 1 else 0
    ensures Count(log + [e], Munmap) == Count(log, Munmap) + if e == Munmap then 1 else 0
    ensures WorkerLive(log + [e]) <==> e.WorkerStart? || (!e.WorkerJoin? && WorkerLive(log))
    ensures Unjoined(log + [e]) == Track(Unjoined(log), e)
    ensures UnmapsSafely(log) && (e == Munmap ==> !WorkerLive(log)) ==> UnmapsSafely(log + [e])
    ensures forall left | LeftAtJoin(log, left) && (e == WorkerJoin ==> Unjoined(log) == left) ::
      LeftAtJoin(log + [e], left)
  {
    var log' := log + [e];
    assert log'[..|log|] == log;
    assert forall i | 0 <= i < |log| :: log'[..i] == log[..i];
  }

  lemma NothingLogged()
    ensures Count([], Mmap) == 0
  {
  }

  class Vmm {
    var useUffd: bool
    var midway: bool
    var tap: bool
    var uffd: bool            // uffd_ >= 0
    var uffdWakeup: bool      // uffd_wakeup_fd_ >= 0
    var uffdRunning: bool
    var snapBase: bool        // snap_mmap_base_ is set
    var netWakeup: bool       // net_wakeup_fd_ >= 0
    var netRunning: bool
    var netThread: nat
    var starts: nat
    var log: seq<Event>

    /** What holds at every moment, cleanup included: the base pointer is set exactly while the file is
        mapped, and the mapping was never taken from under a live worker. */
    ghost predicate MappingOk()
      reads this
    {
      UnmapsSafely(log) && Count(log, Mmap) == Count(log, Munmap) + (if snapBase then 1 else 0)
    }

    /** A running worker has its descriptor and an owner that asked for it, so the mapping is kept
        for it. */
    ghost predicate Valid()
      reads this
    {
      && MappingOk()
      && (WorkerLive(log) <==> uffdRunning)
      && (uffdRunning ==> uffd && (useUffd || midway))
      && (forall i | i in Unjoined(log) :: i < starts)
      && (netRunning ==> starts > 0 && netThread == starts - 1)
    }

    /** Cleanup has not stopped the worker yet. */
    ghost predicate Running()
      reads this
    {
      Valid() && WorkerJoin !in log
    }

    constructor (useUffd: bool, midway: bool, tap: bool)
      ensures Running() && log == [] && this.useUffd == useUffd && this.midway == midway && this.tap == tap
      ensures !uffd && !uffdWakeup && !uffdRunning && !snapBase && !netWakeup && !netRunning && starts == 0
    {
      this.useUffd, this.midway, this.tap := useUffd, midway, tap;
      uffd, uffdWakeup, uffdRunning, snapBase, netWakeup, netRunning := false, false, false, false, false, false;
      netThread, starts := 0, 0;
      log := [];
    }

    method Record(e: Event)
      modifies this`log
      ensures log == old(log) + [e]
    {
      log := log + [e];
    }

    /** init: a failing userfaultfd falls back to copying. */
    method Init(uffdOk: bool, wakeupOk: bool, restOk: bool) returns (ok: bool)
      requires Running() && !uffd && !uffdRunning && !snapBase
      modifies this`uffd, this`uffdWakeup, this`useUffd
      ensures Running() && ok == restOk
      ensures uffd == (old(useUffd) && !midway && uffdOk)
      ensures uffdWakeup == (if uffd then wakeupOk else old(uffdWakeup))
      ensures useUffd == (old(useUffd) && (midway || uffdOk))
    {
      if useUffd && !midway {
        if uffdOk {
          uffd, uffdWakeup := true, wakeupOk;
        } else {
          useUffd := false;
        }
      }
      return restOk;
    }

    /** start_uffd_thread: only with a descriptor, and only if none is running. */
    method StartWorker()
      requires Running() && (useUffd || midway)
      modifies this`uffdRunning, this`log
      ensures Running() && uffdRunning == (uffd || old(uffdRunning))
      ensures log == old(log) + if uffd && !old(uffdRunning) then [WorkerStart] else []
      ensures Unjoined(log) == old(Unjoined(log)) && Count(log, Mmap) == old(Count(log, Mmap))
    {
      hide Count, WorkerLive, Unjoined, UnmapsSafely, LeftAtJoin;
      if !uffd || uffdRunning {
        return;
      }
      uffdRunning := true;
      Logged(log, WorkerStart);
      Record(WorkerStart);
    }

    /** vhost_net_setup; each call replaces the previous thread handle. */
    method StartNet(wakeup: bool)
      requires Running()
      modifies this`netWakeup, this`netRunning, this`netThread, this`starts, this`log
      ensures Running() && starts == old(starts) + (if tap then 1 else 0)
      ensures Unjoined(log) == old(Unjoined(log)) + (if tap then {old(starts)} else {})
      ensures tap ==> netWakeup == wakeup && netRunning
      ensures !tap ==> netWakeup == old(netWakeup) && netRunning == old(netRunning)
      ensures Count(log, Mmap) == old(Count(log, Mmap))
    {
      hide Count, WorkerLive, Unjoined, UnmapsSafely, LeftAtJoin;
      if !tap {
        return;
      }
      netWakeup := wakeup;
      netThread := starts;
      Logged(log, NetStart(starts));
      Record(NetStart(starts));
      starts := starts + 1;
      netRunning := true;
    }

    /** restore_snapshot: RAM first, then KVM state, then the devices. */
    method Restore(headerOk: bool, uffdAtMidway: bool, wakeupOk: bool, kvmOk: bool, netUp: bool, wakeup: bool)
      returns (ok: bool)
      requires Running() && starts == 0 && Unjoined(log) == {} && !netRunning && !uffdRunning
      modifies this
      ensures Running() && snapBase == old(snapBase) && useUffd == old(useUffd) && midway == old(midway) &&
        tap == old(tap)
      ensures Count(log, Mmap) == old(Count(log, Mmap))
      ensures uffd == (if headerOk && midway then uffdAtMidway else old(uffd))
      ensures uffdRunning == (headerOk && uffd && (useUffd || midway))
      ensures uffdWakeup == (if headerOk && midway && uffdAtMidway then wakeupOk else old(uffdWakeup))
      ensures starts == (if ok && netUp && tap then 1 else 0) && Unjoined(log) == (if starts == 1 then {0} else {})
      ensures netRunning == (starts == 1) && (starts == 1 ==> netWakeup == wakeup)
      ensures ok == (headerOk && kvmOk)
    {
      hide Count, WorkerLive, Unjoined, UnmapsSafely;
      if !headerOk {
        return false;
      }
      if useUffd && !midway && uffd {
        StartWorker();
      } else if midway {
        // The copy threads have been joined by now.
        if uffdAtMidway {
          uffd, uffdWakeup := true, wakeupOk;
          StartWorker();
        } else {
          uffd := false;
        }
      }
      if !kvmOk {
        return false;
      }
      if netUp {
        StartNet(wakeup);
      }
      return true;
    }

    /** restore_snapshot_file: the mapping is dropped at once unless a worker may need it. */
    method RestoreFile(fileMapped: bool, fileComplete: bool, headerOk: bool, uffdAtMidway: bool, wakeupOk: bool,
                       kvmOk: bool, netUp: bool, wakeup: bool)
      returns (ok: bool)
      requires Running() && starts == 0 && !netRunning && !uffdRunning && !snapBase && log == []
      modifies this
      ensures Running() && useUffd == old(useUffd) && midway == old(midway) && tap == old(tap)
      ensures snapBase <==> fileMapped && fileComplete && uffd && (useUffd || midway)
      ensures uffdRunning ==> snapBase
      ensures uffdRunning == (fileMapped && fileComplete && headerOk && uffd && (useUffd || midway))
      ensures uffd == (if fileMapped && fileComplete && headerOk && midway then uffdAtMidway else old(uffd))
      ensures uffdWakeup == (if fileMapped && fileComplete && headerOk && midway &&
        uffdAtMidway then wakeupOk else old(uffdWakeup))
      ensures Count(log, Mmap) <= 1
      ensures starts == (if ok && netUp && tap then 1 else 0) && Unjoined(log) == (if starts == 1 then {0} else {})
      ensures netRunning == (starts == 1) && (starts == 1 ==> netWakeup == wakeup)
      ensures ok == (fileMapped && fileComplete && headerOk && kvmOk)
    {
      NothingLogged();
      hide Count, WorkerLive, Unjoined, UnmapsSafely;
      if !fileMapped {
        return false;
      }
      Logged(log, Mmap);
      Record(Mmap);
      if !fileComplete {
        Logged(log, Munmap);
        Record(Munmap);
        return false;
      }
      snapBase := true;
      ok := Restore(headerOk, uffdAtMidway, wakeupOk, kvmOk, netUp, wakeup);
      if (!useUffd && !midway) || !uffd {
        Logged(log, Munmap);
        Record(Munmap);
        snapBase := false;
      }
    }

    /** Both joins of cleanup return: the net thread, if it is joined at all, left its wait for the
        queues and has no fault outstanding, and the worker, if there is one, is woken or gone. */
    predicate JoinsReturn(netReady: bool, netServed: bool, workerLeaves: bool)
      reads this
    {
      (netWakeup && netRunning ==> netReady && netServed) && (uffdRunning ==> uffdWakeup || workerLeaves)
    }

    /** cleanup: net thread, then worker, then mapping, and last the wait for virtiofsd. It gets as far
        as removing the mapping exactly when both joins return, and completes exactly when virtiofsd
        exits as well; otherwise it is stuck, and in a join the mapping stays. The join of the interrupt
        thread in between always returns, because that thread polls with a time limit. */
    method Cleanup(netReady: bool, netServed: bool, workerLeaves: bool, daemonExits: bool) returns (done: bool)
      requires Running()
      modifies this
      ensures done == (old(JoinsReturn(netReady, netServed, workerLeaves)) && daemonExits)
      ensures MappingOk() && Count(log, Mmap) == old(Count(log, Mmap))
      ensures if old(JoinsReturn(netReady, netServed, workerLeaves)) then Valid() && !uffdRunning && !snapBase
              else snapBase == old(snapBase)
      ensures old(JoinsReturn(netReady, netServed, workerLeaves)) ==>
        && Unjoined(log) == old(Unjoined(log)) - (if old(netWakeup && netRunning) then {old(netThread)} else {})
        && LeftAtJoin(log, Unjoined(log)) && !uffd && !netWakeup
        && netRunning == (old(netRunning) && !old(netWakeup))
    {
      hide Count, WorkerLive, Unjoined, UnmapsSafely;
      if netWakeup {
        if netRunning {
          if !netReady || !netServed {
            return false;
          }
          Logged(log, NetJoin(netThread));
          Record(NetJoin(netThread));
          netRunning := false;
        }
        netWakeup := false;
      }
      ghost var left := Unjoined(log);
      assert LeftAtJoin(log, left);
      hide LeftAtJoin;
      if uffdRunning {
        uffdRunning := false;
        if !uffdWakeup && !workerLeaves {
          return false;
        }
        Logged(log, WorkerJoin);
        Record(WorkerJoin);
      }
      uffd := false;
      if snapBase {
        Logged(log, Munmap);
        Record(Munmap);
        snapBase := false;
      }
      return daemonExits;
    }
  }

  // ---- One life -----------------------------------------------------------

  predicate FileUsable(e: Env) {
    e.restOfInit && e.fileMapped && e.fileComplete && e.headerOk
  }

  /** The guest gets to run. */
  predicate RestoreSucceeds(e: Env) {
    FileUsable(e) && e.kvmOk
  }

  /** Net threads started over the whole life. */
  function NetStarts(e: Env): nat {
    if RestoreSucceeds(e) && e.tap then |e.wakeups| else 0
  }

  /** Cleanup joins the last net thread. */
  predicate JoinsNet(e: Env) {
    NetStarts(e) > 0 && e.wakeups[NetStarts(e) - 1]
  }

  predicate StartsWorker(e: Env) {
    FileUsable(e) && if e.midway then e.uffdAtMidway else e.useUffd && e.uffdAtInit
  }

  /** The net thread is not stranded on a fault. */
  predicate NetServed(e: Env) {
    !L.Stranded(e.mem, L.NET)
  }

  /** The worker leaves without being woken, or has left already. */
  predicate WorkerLeaves(e: Env) {
    e.workerStirs || !e.mem.serving
  }

  predicate JoinsReturn(e: Env) {
    (JoinsNet(e) ==> e.netReady && NetServed(e)) && (StartsWorker(e) ==> e.workerWakeup || WorkerLeaves(e))
  }

  /** The process in this environment after the net device came up n times. */
  ghost predicate Came(e: Env, vmm: Vmm, n: nat)
    reads vmm
    requires n <= |e.wakeups|
  {
    && vmm.Running() && vmm.tap == e.tap && Count(vmm.log, Mmap) <= 1
    && vmm.uffdRunning == StartsWorker(e)
    && (vmm.uffdRunning ==> vmm.uffdWakeup == e.workerWakeup && vmm.snapBase)
    && (RestoreSucceeds(e) ==> vmm.snapBase == vmm.uffdRunning)
    && vmm.starts == (if e.tap then n else 0)
    && (forall k: nat :: k in Unjoined(vmm.log) <==> k < vmm.starts)
    && vmm.netRunning == (vmm.starts > 0)
    && (vmm.starts > 0 ==> vmm.netWakeup == e.wakeups[n - 1])
  }

  /** Set-up and restore. */
  method BringUp(e: Env) returns (vmm: Vmm, ok: bool)
    requires e.netUp ==> |e.wakeups| > 0
    ensures fresh(vmm) && ok == RestoreSucceeds(e) && Came(e, vmm, if ok && e.netUp then 1 else 0)
  {
    vmm := new Vmm(e.useUffd, e.midway, e.tap);
    NothingLogged();
    hide UnmapsSafely, Count, WorkerLive;
    ok := vmm.Init(e.uffdAtInit, e.workerWakeup, e.restOfInit);
    if ok {
      ok := vmm.RestoreFile(e.fileMapped, e.fileComplete, e.headerOk, e.uffdAtMidway, e.workerWakeup, e.kvmOk,
                            e.netUp, e.netUp && e.wakeups[0]);
    }
  }

  /** The guest runs, and each time it raises DRIVER_OK on the net device a thread is started. */
  method RunGuest(e: Env, vmm: Vmm)
    requires e.netUp ==> |e.wakeups| > 0
    requires Came(e, vmm, if e.netUp then 1 else 0)
    modifies vmm
    ensures Came(e, vmm, |e.wakeups|)
  {
    hide UnmapsSafely, Count, WorkerLive, Unjoined, LeftAtJoin;
    var i := if e.netUp then 1 else 0;
    while i < |e.wakeups|
      invariant 0 <= i <= |e.wakeups| && Came(e, vmm, i)
    {
      vmm.StartNet(e.wakeups[i]);
      i := i + 1;
    }
  }

  /** One life of the process: set-up, restore, any number of times the guest brings the net device
      up, and cleanup, which the destructor runs on success and failure alike.
      Both joins of cleanup return exactly when the last net thread, if it is joined, found its queues
      ready and is not stranded on a fault, and the worker, if one was started, can be woken or is gone;
      cleanup completes exactly when virtiofsd exits as well. On every path the snapshot file is mapped
      at most once, never unmapped under a live worker, and unmapped exactly as often as it was mapped
      unless cleanup hangs in a join after a worker was started. When cleanup has joined the worker
      every net thread has been joined exactly when at most one was ever started and its wake-up
      descriptor existed. */
  method Lifetime(e: Env) returns (done: bool, log: seq<Event>)
    requires e.netUp ==> |e.wakeups| > 0
    ensures done == (JoinsReturn(e) && e.daemonExits)
    ensures UnmapsSafely(log) && Count(log, Munmap) <= Count(log, Mmap) <= 1
    ensures Count(log, Mmap) == Count(log, Munmap) <==> JoinsReturn(e) || !StartsWorker(e)
    ensures JoinsReturn(e) ==> !WorkerLive(log) && LeftAtJoin(log, Unjoined(log))
    ensures JoinsReturn(e) ==> (Unjoined(log) == {} <==> NetStarts(e) == 0 || (NetStarts(e) == 1 && e.wakeups[0]))
  {
    hide LeftAtJoin, UnmapsSafely, Count, WorkerLive, L.Stranded;
    var vmm, ok := BringUp(e);
    if ok {
      RunGuest(e, vmm);
    }
    ghost var n := vmm.starts;
    done := vmm.Cleanup(e.netReady, NetServed(e), WorkerLeaves(e), e.daemonExits);
    log := vmm.log;
    if JoinsReturn(e) {
      assert n >= 2 ==> 0 in Unjoined(log);
      assert n == 1 ==> (0 in Unjoined(log) <==> !e.wakeups[0]);
    }
  }

  /** Demand paging with nobody waiting. */
  const QUIET: L.State := L.State([], {}, [], map[], [], true)

  /** A lazy restore in which everything works. */
  const SMOOTH: Env :=
    Env(true, false, true, true, true, true, true, true, true, true, true, [true], true, QUIET, true, false, true)

  /** The unchecked wake-up descriptor of the worker is missing: cleanup waits for ever and the file
      stays mapped. */
  method HungWorker() returns (done: bool, log: seq<Event>)
    ensures !done && Count(log, Mmap) == 1 && Count(log, Munmap) == 0
  {
    done, log := Lifetime(SMOOTH.(workerWakeup := false));
  }

  /** A guest that raises DRIVER_OK without readying its queues: the same. */
  method HungNet() returns (done: bool, log: seq<Event>)
    ensures !done && Count(log, Mmap) == 1 && Count(log, Munmap) == 0
  {
    done, log := Lifetime(SMOOTH.(netUp := false, netReady := false));
  }

  /** The worker has left and the net thread waits for a page: the same, although its message is queued. */
  method HungFault() returns (done: bool, log: seq<Event>)
    ensures !done && Count(log, Mmap) == 1 && Count(log, Munmap) == 0
  {
    var page := seq(4096, _ => 0);
    var mem := L.State([page], {}, [0], map[L.NET := L.Access(0, L.Read)], [], false);
    done, log := Lifetime(SMOOTH.(mem := mem));
  }

  /** A virtiofsd that does not exit: cleanup waits for ever, but the file is unmapped. */
  method HungDaemon() returns (done: bool, log: seq<Event>)
    ensures !done && Count(log, Mmap) == Count(log, Munmap)
  {
    done, log := Lifetime(SMOOTH.(daemonExits := false));
  }
}
