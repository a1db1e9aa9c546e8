/** Demand-paged restore through userfaultfd. Guest RAM starts with missing pages; an access to
    one posts a fault message and waits, and the worker (or the ring pre-fault) installs the page.
    The vCPU, the net thread and the worker interleave freely: a run is a sequence of events. */
module LazyRestore {
  import opened Bytes
  import opened GuestMemory
  import opened DirtyBitmap

  /** snap_ram_ and snap_bitmap_buf_; an empty bitmap means the snapshot has none. */
  datatype Snapshot = Snapshot(image: Ram, bitmap: seq<Byte>)

  predicate ValidSnapshot(snap: Snapshot) {
    snap.bitmap == [] || Covers(snap.bitmap, |snap.image|)
  }

  datatype Op = Read | Write(value: Byte)
  datatype Access = Access(addr: nat, op: Op)

  type Thread = nat

  const VCPU: Thread := 0
  const NET: Thread := 1

  /** A completed access, who did it, and the byte read or written. */
  datatype Entry = Entry(thread: Thread, access: Access, value: Byte)

  /** waiting: the access each stopped thread is blocked on. faults: unread fault messages, as
      offsets from the start of RAM. log: completed accesses in order. serving: the worker is in its
      loop. */
  datatype State = State(
    ram: Ram,
    present: set<nat>,
    faults: seq<int>,
    waiting: map<Thread, Access>,
    log: seq<Entry>,
    serving: bool)

  datatype Event =
    | Issue(thread: Thread, access: Access)
    | Resume(thread: Thread)       // a woken thread retries its access
    | Serve(i: nat)                // the worker reads message i and resolves it
    | ServeError(i: nat)           // as Serve, but the ioctl fails with neither EAGAIN nor EEXIST
    | Quit                         // poll or read fails and the worker leaves its loop
    | Stale(addr: int)             // a duplicate, late or out-of-range message turns up
    | Prefault(gpa: nat)           // ring page installed before the vCPU resumes

  function PageOf(addr: nat): nat {
    addr / PAGE
  }

  predicate InRam(n: nat, addr: int) {
    0 <= addr < n * PAGE
  }

  function ByteAt(ram: Ram, addr: nat): Byte
    requires InRam(|ram|, addr)
  {
    ram[PageOf(addr)][addr % PAGE]
  }

  function SetByte(ram: Ram, addr: nat, v: Byte): Ram
    requires InRam(|ram|, addr)
  {
    ram[PageOf(addr) := ram[PageOf(addr)][addr % PAGE := v]]
  }

  predicate IsDirty(snap: Snapshot, pg: nat)
    requires ValidSnapshot(snap)
  {
    snap.bitmap != [] && MarkedPage(snap.bitmap, |snap.image|, pg)
  }

  /** What the worker puts into a missing page: UFFDIO_COPY or UFFDIO_ZEROPAGE. */
  ghost function PageContent(snap: Snapshot, pg: nat): Page
    requires ValidSnapshot(snap) && pg < |snap.image|
  {
    if IsDirty(snap, pg) then snap.image[pg] else ZeroPage()
  }

  /** Both ioctls install a missing page and fail with EEXIST on a present one. */
  ghost function Install(snap: Snapshot, s: State, pg: nat): State
    requires ValidSnapshot(snap) && |s.ram| == |snap.image| && pg < |s.ram|
  {
    if pg in s.present then s
    else s.(ram := s.ram[pg := PageContent(snap, pg)], present := s.present + {pg})
  }

  /** Perform a if its page is there, otherwise post a fault and wait. */
  ghost function Attempt(s: State, t: Thread, a: Access): State
    requires InRam(|s.ram|, a.addr)
  {
    if PageOf(a.addr) !in s.present then
      s.(faults := s.faults + [a.addr], waiting := s.waiting[t := a])
    else
      var s' := s.(waiting := s.waiting - {t});
      match a.op
      case Read => s'.(log := s.log + [Entry(t, a, ByteAt(s.ram, a.addr))])
      case Write(v) => s'.(ram := SetByte(s.ram, a.addr, v), log := s.log + [Entry(t, a, v)])
  }

  ghost predicate StateOk(snap: Snapshot, s: State) {
    && |s.ram| == |snap.image|
    && (forall pg | pg in s.present :: pg < |s.ram|)
    && (forall t | t in s.waiting :: InRam(|s.ram|, s.waiting[t].addr))
  }

  function Drop(q: seq<int>, i: nat): seq<int>
    requires i < |q|
  {
    q[..i] + q[i + 1..]
  }

  ghost function Step(snap: Snapshot, s: State, e: Event): (s': State)
    requires ValidSnapshot(snap) && StateOk(snap, s)
    ensures StateOk(snap, s')
  {
    match e
    case Issue(t, a) => if t in s.waiting || !InRam(|s.ram|, a.addr) then s else Attempt(s, t, a)
    case Resume(t) => if t in s.waiting then Attempt(s, t, s.waiting[t]) else s
    case Serve(i) =>
      if !s.serving || i >= |s.faults| then s
      else
        var s' := s.(faults := Drop(s.faults, i));
        if InRam(|s.ram|, s.faults[i]) then Install(snap, s', PageOf(s.faults[i])) else s'
    case ServeError(i) => if s.serving && i < |s.faults| then s.(faults := Drop(s.faults, i)) else s
    case Quit => s.(serving := false)
    case Stale(addr) => s.(faults := s.faults + [addr])
    case Prefault(gpa) => if gpa == 0 || !InRam(|s.ram|, gpa) then s else Install(snap, s, PageOf(gpa))
  }

  ghost function Run(snap: Snapshot, s: State, es: seq<Event>): (s': State)
    requires ValidSnapshot(snap) && StateOk(snap, s)
    ensures StateOk(snap, s')
  {
    if es == [] then s else Step(snap, Run(snap, s, es[..|es| - 1]), es[|es| - 1])
  }

  // ---- The eager machine --------------------------------------------------

  /** RAM after replaying the log on memory that was fully copied beforehand. */
  ghost function Replay(image: Ram, log: seq<Entry>): (r: Ram)
    requires forall i | 0 <= i < |log| :: InRam(|image|, log[i].access.addr)
    ensures |r| == |image|
  {
    if log == [] then image
    else
      var last := log[|log| - 1];
      var r := Replay(image, log[..|log| - 1]);
      if last.access.op.Read? then r else SetByte(r, last.access.addr, last.access.op.value)
  }

  /** Every read in the log returned the byte fully copied RAM would have returned. */
  ghost predicate Faithful(image: Ram, log: seq<Entry>)
    requires forall i | 0 <= i < |log| :: InRam(|image|, log[i].access.addr)
  {
    forall i | 0 <= i < |log| ::
      log[i].value == match log[i].access.op
                      case Read => ByteAt(Replay(image, log[..i]), log[i].access.addr)
                      case Write(v) => v
  }

  /** Clear bits (or no bitmap) stand for zero pages. */
  ghost predicate SoundSnapshot(snap: Snapshot)
    requires ValidSnapshot(snap)
  {
    forall pg | 0 <= pg < |snap.image| && !IsDirty(snap, pg) :: IsZero(snap.image[pg])
  }

  // ---- What an accessor sees ----------------------------------------------

  /** The memory behind the faults: present pages, and for a missing one what a fault will bring. */
  ghost function Effective(snap: Snapshot, s: State): (m: Ram)
    requires ValidSnapshot(snap) && StateOk(snap, s)
    ensures |m| == |snap.image|
  {
    seq(|s.ram|, pg requires 0 <= pg < |s.ram| => if pg in s.present then s.ram[pg] else PageContent(snap, pg))
  }

  /** Memory after one completed access. */
  ghost function Apply(m: Ram, a: Access): (r: Ram)
    requires InRam(|m|, a.addr)
    ensures |r| == |m|
  {
    match a.op
    case Read => m
    case Write(v) => SetByte(m, a.addr, v)
  }

  /** The byte an access to m yields. */
  function Yields(m: Ram, a: Access): Byte
    requires InRam(|m|, a.addr)
  {
    match a.op
    case Read => ByteAt(m, a.addr)
    case Write(v) => v
  }

  /** From s to s' nothing completed. */
  ghost predicate Silent(snap: Snapshot, s: State, s': State)
    requires ValidSnapshot(snap) && StateOk(snap, s) && StateOk(snap, s')
  {
    s'.log == s.log && Effective(snap, s') == Effective(snap, s)
  }

  /** From s to s' exactly t's access a completed: it saw and changed the effective memory, on a present
      page. */
  ghost predicate Completed(snap: Snapshot, s: State, s': State, t: Thread, a: Access)
    requires ValidSnapshot(snap) && StateOk(snap, s) && StateOk(snap, s')
  {
    && InRam(|snap.image|, a.addr) && PageOf(a.addr) in s.present
    && s'.log == s.log + [Entry(t, a, Yields(Effective(snap, s), a))]
    && Effective(snap, s') == Apply(Effective(snap, s), a)
  }

  lemma AttemptEffective(snap: Snapshot, s: State, t: Thread, a: Access)
    requires ValidSnapshot(snap) && StateOk(snap, s) && InRam(|s.ram|, a.addr)
    ensures StateOk(snap, Attempt(s, t, a))
    ensures PageOf(a.addr) !in s.present ==> Silent(snap, s, Attempt(s, t, a))
    ensures PageOf(a.addr) in s.present ==> Completed(snap, s, Attempt(s, t, a), t, a)
  {
    hide PageContent;
    var s' := Attempt(s, t, a);
    if PageOf(a.addr) !in s.present || a.op.Read? {
      assert Effective(snap, s') == Effective(snap, s);
    } else {
      assert Effective(snap, s') == SetByte(Effective(snap, s), a.addr, a.op.value);
    }
  }

  lemma InstallSilent(snap: Snapshot, s: State, pg: nat)
    requires ValidSnapshot(snap) && StateOk(snap, s) && pg < |s.ram|
    ensures StateOk(snap, Install(snap, s, pg)) && Silent(snap, s, Install(snap, s, pg))
    ensures s.present <= Install(snap, s, pg).present
  {
    hide PageContent;
    assert Effective(snap, Install(snap, s, pg)) == Effective(snap, s);
  }

  /** Whatever the state and the snapshot, an event either completes nothing and leaves the effective
      memory alone, faults, installs, stale messages and failed ioctls included, or completes one
      access, which reads or writes exactly that memory. */
  lemma StepEffective(snap: Snapshot, s: State, e: Event)
    requires ValidSnapshot(snap) && StateOk(snap, s)
    ensures var s' := Step(snap, s, e); Silent(snap, s, s') || exists t, a :: Completed(snap, s, s', t, a)
    ensures s.present <= Step(snap, s, e).present
  {
    hide Install, Completed;
    match e
    case Issue(t, a) =>
      if t !in s.waiting && InRam(|s.ram|, a.addr) {
        AttemptEffective(snap, s, t, a);
      }
    case Resume(t) =>
      if t in s.waiting {
        AttemptEffective(snap, s, t, s.waiting[t]);
      }
    case Serve(i) =>
      if s.serving && i < |s.faults| {
        var d := s.(faults := Drop(s.faults, i));
        assert Effective(snap, d) == Effective(snap, s);
        if InRam(|s.ram|, s.faults[i]) {
          InstallSilent(snap, d, PageOf(s.faults[i]));
        }
      }
    case ServeError(i) =>
    case Quit =>
    case Stale(_) =>
    case Prefault(gpa) =>
      if gpa != 0 && InRam(|s.ram|, gpa) {
        InstallSilent(snap, s, PageOf(gpa));
      }
  }

  /** Between s and s' the completed accesses behaved as on ordinary memory that held what s showed:
      every read returned the byte that memory held at that moment, and what s' shows is what the
      writes made of it. Their pages are present. */
  ghost predicate SeesFlat(snap: Snapshot, s: State, s': State)
    requires ValidSnapshot(snap) && StateOk(snap, s) && StateOk(snap, s')
  {
    && s.log <= s'.log
    && var done := s'.log[|s.log|..];
    && (forall i | 0 <= i < |done| ::
          InRam(|snap.image|, done[i].access.addr) && PageOf(done[i].access.addr) in s'.present)
    && Faithful(Effective(snap, s), done)
    && Effective(snap, s') == Replay(Effective(snap, s), done)
  }

  lemma FaithfulAppend(m: Ram, log: seq<Entry>, t: Thread, a: Access)
    requires (forall i | 0 <= i < |log| :: InRam(|m|, log[i].access.addr)) && InRam(|m|, a.addr)
    requires Faithful(m, log)
    ensures var log' := log + [Entry(t, a, Yields(Replay(m, log), a))];
      Faithful(m, log') && Replay(m, log') == Apply(Replay(m, log), a)
  {
    var log' := log + [Entry(t, a, Yields(Replay(m, log), a))];
    assert log'[..|log|] == log;
    assert forall i | 0 <= i < |log| :: log'[..i] == log[..i];
  }

  lemma SeesCompletion(snap: Snapshot, s: State, s': State, u: State, t: Thread, a: Access)
    requires ValidSnapshot(snap) && StateOk(snap, s) && StateOk(snap, s') && StateOk(snap, u)
    requires SeesFlat(snap, s, s') && Completed(snap, s', u, t, a) && s'.present <= u.present
    ensures SeesFlat(snap, s, u)
  {
    hide StateOk, Effective, Faithful, Replay, Apply, Yields;
    var m, done := Effective(snap, s), s'.log[|s.log|..];
    FaithfulAppend(m, done, t, a);
    var e := Entry(t, a, Yields(Effective(snap, s'), a));
    assert u.log[|s.log|..] == done + [e];
    assert forall i | 0 <= i < |done| :: (done + [e])[i] == done[i];
  }

  lemma SeesStep(snap: Snapshot, s: State, s': State, e: Event)
    requires ValidSnapshot(snap) && StateOk(snap, s) && StateOk(snap, s') && SeesFlat(snap, s, s')
    ensures SeesFlat(snap, s, Step(snap, s', e))
  {
    var u := Step(snap, s', e);
    StepEffective(snap, s', e);
    hide Step, Effective, Faithful, Replay, Completed, StateOk;
    if !Silent(snap, s', u) {
      var t, a :| Completed(snap, s', u, t, a);
      hide SeesFlat;
      SeesCompletion(snap, s, s', u, t, a);
    }
  }

  /** Paging is invisible: over every run from every state, whatever the snapshot holds, every
      accessor sees ordinary memory. */
  lemma {:induction false} PagingInvisible(snap: Snapshot, s: State, es: seq<Event>)
    requires ValidSnapshot(snap) && StateOk(snap, s)
    ensures SeesFlat(snap, s, Run(snap, s, es))
  {
    if es == [] {
      assert s.log[|s.log|..] == [];
    } else {
      PagingInvisible(snap, s, es[..|es| - 1]);
      hide SeesFlat, Step;
      SeesStep(snap, s, Run(snap, s, es[..|es| - 1]), es[|es| - 1]);
    }
  }

  /** s' is s after thread t did access a and the worker whatever that took: nothing else is waiting or
      queued that was not before. */
  ghost predicate Did(snap: Snapshot, s: State, s': State, t: Thread, a: Access)
    requires ValidSnapshot(snap) && StateOk(snap, s) && StateOk(snap, s')
  {
    && InRam(|snap.image|, a.addr)
    && s'.log == s.log + [Entry(t, a, Yields(Effective(snap, s), a))]
    && s'.faults == s.faults && s'.waiting == s.waiting && s'.serving == s.serving
  }

  /** A thread that is not stopped can do any access at any time while the worker is in its loop: at
      once, or by a fault that the worker serves. */
  lemma AnyAccessPossible(snap: Snapshot, s: State, t: Thread, a: Access) returns (es: seq<Event>)
    requires ValidSnapshot(snap) && StateOk(snap, s) && s.serving && t !in s.waiting && InRam(|snap.image|, a.addr)
    ensures Did(snap, s, Run(snap, s, es), t, a)
  {
    hide PageContent, Effective;
    AttemptEffective(snap, s, t, a);
    var s1 := Step(snap, s, Issue(t, a));
    if PageOf(a.addr) in s.present {
      assert [Issue(t, a)][..0] == [] && s.waiting - {t} == s.waiting;
      es := [Issue(t, a)];
    } else {
      var n := |s.faults|;
      var s2 := Step(snap, s1, Serve(n));
      StepEffective(snap, s1, Serve(n));
      assert s2.faults == s.faults && s2.waiting == s1.waiting && PageOf(a.addr) in s2.present;
      AttemptEffective(snap, s2, t, a);
      var s3 := Step(snap, s2, Resume(t));
      assert s3.waiting == s.waiting;
      assert s2.log == s.log && Silent(snap, s1, s2);
      assert Did(snap, s, s3, t, a);
      RunThree(snap, s, Issue(t, a), Serve(n), Resume(t));
      es := [Issue(t, a), Serve(n), Resume(t)];
    }
  }

  /** These are the accesses of thread t, in this order. */
  ghost predicate Performed(done: seq<Entry>, t: Thread, accs: seq<Access>) {
    |done| == |accs| && forall i | 0 <= i < |done| :: done[i].thread == t && done[i].access == accs[i]
  }

  /** s' is s after thread t did these accesses, in order, and nobody any other. */
  ghost predicate DidAll(s: State, s': State, t: Thread, accs: seq<Access>) {
    && s.log <= s'.log && Performed(s'.log[|s.log|..], t, accs)
    && s'.waiting == s.waiting && s'.serving == s.serving
  }

  lemma DidNext(snap: Snapshot, s: State, s': State, u: State, t: Thread, accs: seq<Access>, a: Access)
    requires ValidSnapshot(snap) && StateOk(snap, s') && StateOk(snap, u)
    requires DidAll(s, s', t, accs) && Did(snap, s', u, t, a)
    ensures DidAll(s, u, t, accs + [a])
  {
    hide Effective, Yields, StateOk;
    var done, e := s'.log[|s.log|..], u.log[|s'.log|];
    assert u.log == s'.log + [e] && u.log[|s.log|..] == done + [e];
  }

  lemma StillFree(s: State, s': State, t: Thread, accs: seq<Access>)
    requires DidAll(s, s', t, accs) && s.serving && t !in s.waiting
    ensures s'.serving && t !in s'.waiting
  {
  }

  /** So it can do any sequence of accesses. */
  lemma {:induction false} AnyAccessesPossible(snap: Snapshot, s: State, t: Thread, accs: seq<Access>)
    returns (es: seq<Event>)
    requires ValidSnapshot(snap) && StateOk(snap, s) && s.serving && t !in s.waiting
    requires forall i | 0 <= i < |accs| :: InRam(|snap.image|, accs[i].addr)
    ensures DidAll(s, Run(snap, s, es), t, accs)
    decreases |accs|
  {
    hide *;
    if accs == [] {
      DidNothing(snap, s, t);
      es := [];
    } else {
      var n := |accs| - 1;
      var init, a := accs[..n], accs[n];
      var first := AnyAccessesPossible(snap, s, t, init);
      var s1 := Run(snap, s, first);
      StillFree(s, s1, t, init);
      var last := AnyAccessPossible(snap, s1, t, a);
      RunConcat(snap, s, first, last);
      DidNext(snap, s, s1, Run(snap, s1, last), t, init, a);
      assert accs == init + [a];
      es := first + last;
    }
  }

  lemma DidNothing(snap: Snapshot, s: State, t: Thread)
    requires ValidSnapshot(snap) && StateOk(snap, s)
    ensures DidAll(s, Run(snap, s, []), t, [])
  {
    assert s.log[|s.log|..] == [];
  }

  lemma RunThree(snap: Snapshot, s: State, e1: Event, e2: Event, e3: Event)
    requires ValidSnapshot(snap) && StateOk(snap, s)
    ensures Run(snap, s, [e1, e2, e3]) == Step(snap, Step(snap, Step(snap, s, e1), e2), e3)
  {
    hide Step;
    var es := [e1, e2, e3];
    assert es[..2] == [e1, e2] && [e1, e2][..1] == [e1] && [e1][..0] == [];
    assert Run(snap, s, [e1]) == Step(snap, s, e1);
    assert Run(snap, s, [e1, e2]) == Step(snap, Step(snap, s, e1), e2);
  }

  // ---- Lazy against eager restore -----------------------------------------

  /** RAM before the first fault: every page missing, nobody waiting. */
  function Start(ram: Ram): State {
    State(ram, {}, [], map[], [], true)
  }

  /** The pages in copied were filled by the eager copy before userfaultfd was armed. */
  function MidwayStart(ram: Ram, copied: set<nat>): State {
    Start(ram).(present := copied)
  }

  /** With every page missing, accessors see the image exactly when clear bits stand for zero pages. */
  lemma StartShowsImage(snap: Snapshot, ram: Ram)
    requires ValidSnapshot(snap) && |ram| == |snap.image|
    ensures Effective(snap, Start(ram)) == snap.image <==> SoundSnapshot(snap)
  {
    var m := Effective(snap, Start(ram));
    forall pg | 0 <= pg < |m| ensures m[pg] == snap.image[pg] <==> (!IsDirty(snap, pg) ==> IsZero(snap.image[pg])) {
      if IsZero(snap.image[pg]) {
        ZeroPageUnique(snap.image[pg]);
      }
    }
    if m == snap.image {
      assert forall pg | 0 <= pg < |m| :: m[pg] == snap.image[pg];
    }
  }

  /** After a midway copy they do exactly when each page is either rightly copied, or filled in as the
      image has it. */
  lemma MidwayShowsImage(snap: Snapshot, ram: Ram, copied: set<nat>)
    requires ValidSnapshot(snap) && |ram| == |snap.image| && forall pg | pg in copied :: pg < |ram|
    ensures Effective(snap, MidwayStart(ram, copied)) == snap.image <==>
      forall pg | 0 <= pg < |ram| ::
        if pg in copied then ram[pg] == snap.image[pg] else IsDirty(snap, pg) || IsZero(snap.image[pg])
  {
    var m := Effective(snap, MidwayStart(ram, copied));
    forall pg | 0 <= pg < |m| && pg !in copied
      ensures m[pg] == snap.image[pg] <==> IsDirty(snap, pg) || IsZero(snap.image[pg])
    {
      if IsZero(snap.image[pg]) {
        ZeroPageUnique(snap.image[pg]);
      }
    }
    if m == snap.image {
      assert forall pg | 0 <= pg < |m| :: m[pg] == snap.image[pg];
    }
  }

  /** Every read of this run returned what fully copied RAM would have returned, and what accessors
      see is that RAM with the completed writes on it. */
  ghost predicate LikeEager(snap: Snapshot, s: State, es: seq<Event>)
    requires ValidSnapshot(snap) && StateOk(snap, s)
  {
    && FaithfulRun(snap, s, es)
    && Effective(snap, Run(snap, s, es)) == Replay(snap.image, Run(snap, s, es).log)
  }

  /** Every read of this run returned what fully copied RAM would have returned. */
  ghost predicate FaithfulRun(snap: Snapshot, s: State, es: seq<Event>)
    requires ValidSnapshot(snap) && StateOk(snap, s)
  {
    var log := Run(snap, s, es).log;
    && (forall i | 0 <= i < |log| :: InRam(|snap.image|, log[i].access.addr))
    && Faithful(snap.image, log)
  }

  /** From any state that shows the image before anything completed, midway ones included, every
      interleaving is like fully copied RAM, however many pages are still missing. */
  lemma ShownImageSuffices(snap: Snapshot, s: State, es: seq<Event>)
    requires ValidSnapshot(snap) && StateOk(snap, s) && s.log == [] && Effective(snap, s) == snap.image
    ensures LikeEager(snap, s, es)
  {
    PagingInvisible(snap, s, es);
    hide Effective;
    var log := Run(snap, s, es).log;
    assert log[0..] == log;
  }

  /** Full lazy restore: with a sound snapshot every interleaving behaves like fully copied RAM. */
  lemma LazyRefinesEager(snap: Snapshot, ram: Ram, es: seq<Event>)
    requires ValidSnapshot(snap) && SoundSnapshot(snap) && |ram| == |snap.image|
    ensures LikeEager(snap, Start(ram), es)
  {
    StartShowsImage(snap, ram);
    ShownImageSuffices(snap, Start(ram), es);
  }

  /** Midway: the same, with the copied pages present from the start. */
  lemma MidwayRefinesEager(snap: Snapshot, ram: Ram, copied: set<nat>, es: seq<Event>)
    requires ValidSnapshot(snap) && |ram| == |snap.image|
    requires forall pg | pg in copied :: pg < |ram| && ram[pg] == snap.image[pg]
    requires forall pg | 0 <= pg < |ram| && pg !in copied :: IsZero(snap.image[pg]) || IsDirty(snap, pg)
    ensures StateOk(snap, MidwayStart(ram, copied)) && LikeEager(snap, MidwayStart(ram, copied), es)
  {
    MidwayShowsImage(snap, ram, copied);
    ShownImageSuffices(snap, MidwayStart(ram, copied), es);
  }

  /** A read of a page whose clear bit hides a non-zero byte returns zero. */
  lemma UnsoundRead(snap: Snapshot, ram: Ram, addr: nat)
    requires ValidSnapshot(snap) && |ram| == |snap.image| && InRam(|ram|, addr)
    requires !IsDirty(snap, PageOf(addr)) && ByteAt(snap.image, addr) != 0
    ensures exists es :: !FaithfulRun(snap, Start(ram), es)
  {
    var a := Access(addr, Read);
    var es := [Issue(0, a), Serve(0), Resume(0)];
    var s1 := Step(snap, Start(ram), es[0]);
    var s2 := Step(snap, s1, es[1]);
    var s3 := Step(snap, s2, es[2]);
    RunThree(snap, Start(ram), es[0], es[1], es[2]);
    assert s3.log == [Entry(0, a, 0)];
    assert s3.log[..0] == [];
    assert !FaithfulRun(snap, Start(ram), es);
  }

  /** Lazy restore is faithful on every run exactly when clear bits stand for zero pages. */
  lemma LazyFaithfulIffSound(snap: Snapshot, ram: Ram)
    requires ValidSnapshot(snap) && |ram| == |snap.image|
    ensures SoundSnapshot(snap) <==> forall es :: FaithfulRun(snap, Start(ram), es)
  {
    if SoundSnapshot(snap) {
      forall es ensures FaithfulRun(snap, Start(ram), es) {
        LazyRefinesEager(snap, ram, es);
      }
    } else {
      var pg: nat :| pg < |snap.image| && !IsDirty(snap, pg) && !IsZero(snap.image[pg]);
      var i :| 0 <= i < PAGE && snap.image[pg][i] != 0;
      var addr := pg * PAGE + i;
      assert PageOf(addr) == pg && addr % PAGE == i;
      UnsoundRead(snap, ram, addr);
    }
  }

  /** Without a bitmap the worker zero-fills everything, so only an all-zero image survives. */
  lemma LazyWithoutBitmap(snap: Snapshot, ram: Ram)
    requires snap.bitmap == [] && |ram| == |snap.image|
    ensures (forall es :: FaithfulRun(snap, Start(ram), es)) <==>
      (forall pg | 0 <= pg < |snap.image| :: IsZero(snap.image[pg]))
  {
    LazyFaithfulIffSound(snap, ram);
  }

  predicate ReadsOnly(log: seq<Entry>) {
    forall i | 0 <= i < |log| :: log[i].access.op.Read?
  }

  lemma {:induction false} ReplayReads(image: Ram, log: seq<Entry>)
    requires (forall i | 0 <= i < |log| :: InRam(|image|, log[i].access.addr)) && ReadsOnly(log)
    ensures Replay(image, log) == image
  {
    if log != [] {
      ReplayReads(image, log[..|log| - 1]);
    }
  }

  // ---- Writes survive -----------------------------------------------------

  /** Position of the last write to addr, or -1. */
  ghost function LastWrite(log: seq<Entry>, addr: nat): (k: int)
    ensures -1 <= k < |log|
    ensures k >= 0 ==> log[k].access.addr == addr && log[k].access.op.Write?
    ensures forall i | k < i < |log| :: !(log[i].access.addr == addr && log[i].access.op.Write?)
  {
    if log == [] then -1
    else
      var last := log[|log| - 1].access;
      if last.addr == addr && last.op.Write? then |log| - 1 else LastWrite(log[..|log| - 1], addr)
  }

  lemma {:induction false} ReplayAt(image: Ram, log: seq<Entry>, addr: nat)
    requires forall i | 0 <= i < |log| :: InRam(|image|, log[i].access.addr)
    requires InRam(|image|, addr)
    ensures var k := LastWrite(log, addr);
      ByteAt(Replay(image, log), addr) == if k >= 0 then log[k].access.op.value else ByteAt(image, addr)
  {
    if log != [] {
      var last := log[|log| - 1].access;
      ReplayAt(image, log[..|log| - 1], addr);
      if last.op.Write? && last.addr != addr && PageOf(last.addr) == PageOf(addr) {
        assert last.addr % PAGE != addr % PAGE by {
          assert last.addr == PAGE * PageOf(last.addr) + last.addr % PAGE;
          assert addr == PAGE * PageOf(addr) + addr % PAGE;
        }
      }
    }
  }

  /** No install ever overwrites a write: over every run from every state, sound snapshot or not, the
      last byte written to an address is the byte RAM holds there. */
  lemma WritesSurvive(snap: Snapshot, s: State, es: seq<Event>, addr: nat)
    requires ValidSnapshot(snap) && StateOk(snap, s) && InRam(|s.ram|, addr)
    ensures var s' := Run(snap, s, es);
      && s.log <= s'.log
      && var done := s'.log[|s.log|..];
         var k := LastWrite(done, addr);
      k >= 0 ==> PageOf(addr) in s'.present && ByteAt(s'.ram, addr) == done[k].access.op.value
  {
    PagingInvisible(snap, s, es);
    var s' := Run(snap, s, es);
    ReplayAt(Effective(snap, s), s'.log[|s.log|..], addr);
    hide Run, Faithful, Replay;
  }

  // ---- Pre-faults ---------------------------------------------------------

  /** A pre-fault of an address other than 0 in RAM installs its page, as the image has it if marked and
      zeroed if not, unless it is there already; it touches nothing else, and other addresses do nothing. */
  lemma PrefaultInstalls(snap: Snapshot, s: State, gpa: nat)
    requires ValidSnapshot(snap) && StateOk(snap, s)
    ensures var s', pg := Step(snap, s, Prefault(gpa)), gpa / 4096;
      if gpa == 0 || pg >= |s.ram| then s' == s
      else
        && s'.present == s.present + {pg} && s' == s.(ram := s'.ram, present := s'.present)
        && (forall p | 0 <= p < |s.ram| && (p != pg || pg in s.present) :: s'.ram[p] == s.ram[p])
        && (pg !in s.present ==> if IsDirty(snap, pg) then s'.ram[pg] == snap.image[pg] else IsZero(s'.ram[pg]))
  {
    assert s.present + {gpa / 4096} == s.present <==> gpa / 4096 in s.present;
  }

  /** Pre-faulting these addresses, in order. */
  ghost function Prefaults(gpas: seq<nat>): (es: seq<Event>) {
    seq(|gpas|, i requires 0 <= i < |gpas| => Prefault(gpas[i]))
  }

  /** One of these addresses is other than 0 and lies in page pg of RAM. */
  predicate Reached(n: nat, gpas: seq<nat>, pg: nat) {
    exists i | 0 <= i < |gpas| :: gpas[i] != 0 && InRam(n, gpas[i]) && PageOf(gpas[i]) == pg
  }

  lemma ReachedSnoc(n: nat, gpas: seq<nat>, k: nat, pg: nat)
    requires k < |gpas|
    ensures Reached(n, gpas[..k + 1], pg) <==>
      Reached(n, gpas[..k], pg) || (gpas[k] != 0 && InRam(n, gpas[k]) && PageOf(gpas[k]) == pg)
  {
    hide InRam, PageOf;
    assert forall i | 0 <= i < k :: gpas[..k + 1][i] == gpas[..k][i];
    assert gpas[..k + 1][k] == gpas[k];
  }

  /** They bring exactly the pages they reach, without a fault message, a completed access or a change to
      what accessors see. */
  lemma {:induction false} PrefaultsInstall(snap: Snapshot, s: State, gpas: seq<nat>, k: nat, pg: nat)
    requires ValidSnapshot(snap) && StateOk(snap, s) && k <= |gpas|
    ensures var s' := Run(snap, s, Prefaults(gpas[..k]));
      && (pg in s'.present <==> pg in s.present || Reached(|s.ram|, gpas[..k], pg))
      && s' == s.(ram := s'.ram, present := s'.present) && Effective(snap, s') == Effective(snap, s)
  {
    hide PageContent, Effective;
    if k > 0 {
      PrefaultsInstall(snap, s, gpas, k - 1, pg);
      assert Prefaults(gpas[..k])[..k - 1] == Prefaults(gpas[..k - 1]);
      var u := Run(snap, s, Prefaults(gpas[..k - 1]));
      PrefaultInstalls(snap, u, gpas[k - 1]);
      ReachedSnoc(|s.ram|, gpas, k - 1, pg);
      StepEffective(snap, u, Prefault(gpas[k - 1]));
      hide Reached, Run, Prefaults;
    }
  }

  // ---- Lost faults --------------------------------------------------------

  /** A message for an address of page pg. */
  predicate Names(n: nat, addr: int, pg: nat) {
    InRam(n, addr) && PageOf(addr) == pg
  }

  /** One of these messages will bring page pg. */
  predicate Announces(n: nat, faults: seq<int>, pg: nat) {
    exists k | 0 <= k < |faults| :: Names(n, faults[k], pg)
  }

  predicate Announced(s: State, pg: nat) {
    Announces(|s.ram|, s.faults, pg)
  }

  /** n turns of the worker's loop, oldest message first. */
  ghost function ServeAll(n: nat): (es: seq<Event>) {
    seq(n, _ => Serve(0))
  }

  lemma ServeFirst(snap: Snapshot, s: State, pg: nat)
    requires ValidSnapshot(snap) && StateOk(snap, s) && |s.faults| > 0 && s.serving
    ensures var s' := Step(snap, s, Serve(0));
      && s'.serving && s'.faults == s.faults[1..] && s'.waiting == s.waiting && s'.log == s.log
      && (pg in s'.present <==> pg in s.present || Names(|s.ram|, s.faults[0], pg))
  {
    hide PageContent;
  }

  lemma AnnouncesSnoc(n: nat, faults: seq<int>, addr: int, pg: nat)
    ensures Announces(n, faults + [addr], pg) <==> Announces(n, faults, pg) || Names(n, addr, pg)
  {
    hide Names;
    var more := faults + [addr];
    assert more[|faults|] == addr && forall k | 0 <= k < |faults| :: more[k] == faults[k];
  }

  /** Serving the first n messages adds exactly the pages they name. */
  lemma {:induction false} ServeAllInstalls(snap: Snapshot, s: State, n: nat, pg: nat)
    requires ValidSnapshot(snap) && StateOk(snap, s) && n <= |s.faults| && s.serving
    ensures var s' := Run(snap, s, ServeAll(n));
      && s'.serving && s'.faults == s.faults[n..] && s'.waiting == s.waiting && s'.log == s.log && |s'.ram| == |s.ram|
      && (pg in s'.present <==> pg in s.present || Announces(|s.ram|, s.faults[..n], pg))
  {
    hide Step, Announces, Names;
    if n > 0 {
      assert ServeAll(n)[..n - 1] == ServeAll(n - 1);
      ServeAllInstalls(snap, s, n - 1, pg);
      ServeFirst(snap, Run(snap, s, ServeAll(n - 1)), pg);
      assert s.faults[..n] == s.faults[..n - 1] + [s.faults[n - 1]];
      AnnouncesSnoc(|s.ram|, s.faults[..n - 1], s.faults[n - 1], pg);
    } else {
      assert s.faults[0..] == s.faults && s.faults[..0] == [];
      NothingAnnounced(|s.ram|, pg);
    }
  }

  lemma NothingAnnounced(n: nat, pg: nat)
    ensures !Announces(n, [], pg)
  {
  }

  lemma {:induction false} RunConcat(snap: Snapshot, s: State, es: seq<Event>, fs: seq<Event>)
    requires ValidSnapshot(snap) && StateOk(snap, s)
    ensures Run(snap, s, es + fs) == Run(snap, Run(snap, s, es), fs)
  {
    if fs == [] {
      assert es + fs == es;
    } else {
      assert (es + fs)[..|es + fs| - 1] == es + fs[..|fs| - 1];
      RunConcat(snap, s, es, fs[..|fs| - 1]);
    }
  }

  /** t's access completes once the worker has served the messages it has. */
  ghost predicate Resumes(snap: Snapshot, s: State, t: Thread)
    requires ValidSnapshot(snap) && StateOk(snap, s) && t in s.waiting
  {
    var s' := Run(snap, s, ServeAll(|s.faults|) + [Resume(t)]);
    && t !in s'.waiting
    && |s'.log| == |s.log| + 1 && s'.log[..|s.log|] == s.log && s'.log[|s.log|].access == s.waiting[t]
  }

  /** t waits for a page that is missing, and there is no worker or no queued message that names it. */
  predicate Stranded(s: State, t: Thread) {
    && t in s.waiting && PageOf(s.waiting[t].addr) !in s.present
    && !(s.serving && Announced(s, PageOf(s.waiting[t].addr)))
  }

  lemma {:induction false} NobodyServes(snap: Snapshot, s: State, n: nat)
    requires ValidSnapshot(snap) && StateOk(snap, s) && !s.serving
    ensures Run(snap, s, ServeAll(n)) == s
  {
    if n > 0 {
      assert ServeAll(n)[..n - 1] == ServeAll(n - 1);
      NobodyServes(snap, s, n - 1);
    }
  }

  /** Whatever happened before, a stopped thread gets on exactly when it is not stranded: its page has
      arrived, or the worker is in its loop and some queued message names the page. */
  lemma ResumesIffAnnounced(snap: Snapshot, s: State, t: Thread)
    requires ValidSnapshot(snap) && StateOk(snap, s) && t in s.waiting
    ensures Resumes(snap, s, t) <==> !Stranded(s, t)
    ensures Stranded(s, t) ==> Stranded(Run(snap, s, ServeAll(|s.faults|)), t)
  {
    var n := |s.faults|;
    var s1 := Run(snap, s, ServeAll(n));
    RunConcat(snap, s, ServeAll(n), [Resume(t)]);
    if s.serving {
      ServeAllInstalls(snap, s, n, PageOf(s.waiting[t].addr));
      assert s.faults[..n] == s.faults && s.faults[n..] == [];
      NothingAnnounced(|s.ram|, PageOf(s.waiting[t].addr));
    } else {
      NobodyServes(snap, s, n);
    }
    assert [Resume(t)][..0] == [];
    assert Run(snap, s1, [Resume(t)]) == Step(snap, s1, Resume(t));
    hide Run, ServeAll, Announces;
  }

  /** Taking message i out leaves page pg announced exactly when another message names it. */
  lemma AnnouncesDrop(n: nat, faults: seq<int>, i: nat, pg: nat)
    requires i < |faults|
    ensures Announces(n, Drop(faults, i), pg) <==> exists k | 0 <= k < |faults| && k != i :: Names(n, faults[k], pg)
  {
    hide Names;
    var rest := Drop(faults, i);
    assert forall k | 0 <= k < |rest| :: rest[k] == faults[if k < i then k else k + 1];
    assert forall k | 0 <= k < |faults| && k != i :: rest[if k < i then k else k - 1] == faults[k];
  }

  /** An ioctl that fails outright strands exactly the threads whose missing page only its own message
      named; an error on a stale message, or for a page that is there, harms nobody. */
  lemma ErrorStrandsIff(snap: Snapshot, s: State, i: nat, t: Thread)
    requires ValidSnapshot(snap) && StateOk(snap, s) && i < |s.faults| && t in s.waiting && !Stranded(s, t)
    ensures var pg := PageOf(s.waiting[t].addr);
      Stranded(Step(snap, s, ServeError(i)), t) <==>
        pg !in s.present && forall k | 0 <= k < |s.faults| && k != i :: !Names(|s.ram|, s.faults[k], pg)
  {
    AnnouncesDrop(|s.ram|, s.faults, i, PageOf(s.waiting[t].addr));
    hide Names, Announces, PageOf;
  }

  /** With the worker in its loop, a thread that stops now has its message queued. */
  lemma AttemptStrandsNobody(snap: Snapshot, s: State, u: Thread, a: Access, t: Thread)
    requires ValidSnapshot(snap) && StateOk(snap, s) && InRam(|s.ram|, a.addr) && !Stranded(s, t)
    requires s.serving || t != u || PageOf(a.addr) in s.present
    ensures !Stranded(Attempt(s, u, a), t)
  {
    if PageOf(a.addr) !in s.present {
      var pg := PageOf(if t in s.waiting && t != u then s.waiting[t].addr else a.addr);
      AnnouncesSnoc(|s.ram|, s.faults, a.addr, pg);
      assert Names(|s.ram|, a.addr, PageOf(a.addr));
      hide Names, Announces;
    }
  }

  lemma ServeStrandsNobody(snap: Snapshot, s: State, i: nat, t: Thread)
    requires ValidSnapshot(snap) && StateOk(snap, s) && i < |s.faults| && t in s.waiting && !Stranded(s, t)
    ensures !Stranded(Step(snap, s, Serve(i)), t)
  {
    var pg := PageOf(s.waiting[t].addr);
    AnnouncesDrop(|s.ram|, s.faults, i, pg);
    hide PageContent;
    if s.serving && pg !in s.present && !Names(|s.ram|, s.faults[i], pg) {
      var k :| 0 <= k < |s.faults| && Names(|s.ram|, s.faults[k], pg);
      assert k != i;
      hide Announces;
    }
  }

  /** What strands t: an ioctl failing outright on the only message for its missing page, the worker
      leaving while its page is missing, or its own access to a missing page after that. */
  ghost predicate Strands(s: State, e: Event, t: Thread) {
    match e
    case ServeError(i) =>
      s.serving && i < |s.faults| && t in s.waiting && PageOf(s.waiting[t].addr) !in s.present
      && forall k | 0 <= k < |s.faults| && k != i :: !Names(|s.ram|, s.faults[k], PageOf(s.waiting[t].addr))
    case Quit => t in s.waiting && PageOf(s.waiting[t].addr) !in s.present
    case Issue(u, a) =>
      u == t && !s.serving && t !in s.waiting && InRam(|s.ram|, a.addr) && PageOf(a.addr) !in s.present
    case _ => false
  }

  /** Those events, and no others, strand a thread that was not. */
  lemma StrandsIff(snap: Snapshot, s: State, e: Event, t: Thread)
    requires ValidSnapshot(snap) && StateOk(snap, s) && !Stranded(s, t)
    ensures Stranded(Step(snap, s, e), t) <==> Strands(s, e, t)
  {
    hide PageContent, Announces, Names, PageOf;
    match e
    case Issue(u, a) =>
      if u !in s.waiting && InRam(|s.ram|, a.addr) && !Strands(s, e, t) {
        AttemptStrandsNobody(snap, s, u, a, t);
      }
    case Resume(u) =>
      if u in s.waiting {
        AttemptStrandsNobody(snap, s, u, s.waiting[u], t);
      }
    case Serve(i) =>
      if i < |s.faults| && t in s.waiting {
        ServeStrandsNobody(snap, s, i, t);
      }
    case ServeError(i) =>
      if i < |s.faults| && t in s.waiting {
        ErrorStrandsIff(snap, s, i, t);
      }
    case Stale(addr) =>
      if t in s.waiting {
        AnnouncesSnoc(|s.ram|, s.faults, addr, PageOf(s.waiting[t].addr));
      }
    case _ =>
  }

  /** What frees a stranded t: a pre-fault of its page; or, with the worker in its loop, a message for
      that page, stale or posted by an access of another thread or by its own retry. */
  ghost predicate Frees(s: State, e: Event, t: Thread)
    requires t in s.waiting
  {
    var pg := PageOf(s.waiting[t].addr);
    match e
    case Prefault(gpa) => gpa != 0 && Names(|s.ram|, gpa, pg)
    case Stale(addr) => s.serving && Names(|s.ram|, addr, pg)
    case Issue(u, a) => s.serving && u !in s.waiting && Names(|s.ram|, a.addr, pg)
    case Resume(u) => s.serving && u in s.waiting && PageOf(s.waiting[u].addr) == pg
    case _ => false
  }

  /** A new message frees the threads whose page it names, if there is a worker to serve it. */
  lemma AttemptFreesIff(snap: Snapshot, s: State, u: Thread, a: Access, t: Thread)
    requires ValidSnapshot(snap) && StateOk(snap, s) && InRam(|s.ram|, a.addr) && Stranded(s, t)
    requires u in s.waiting ==> s.waiting[u] == a
    ensures !Stranded(Attempt(s, u, a), t) <==> s.serving && PageOf(a.addr) == PageOf(s.waiting[t].addr)
  {
    var pg := PageOf(s.waiting[t].addr);
    AnnouncesSnoc(|s.ram|, s.faults, a.addr, pg);
    assert Names(|s.ram|, a.addr, PageOf(a.addr));
    assert Names(|s.ram|, a.addr, pg) <==> PageOf(a.addr) == pg;
    hide Names, Announces, PageOf;
  }

  /** Taking messages away announces nothing. */
  lemma DropAnnouncesNothing(n: nat, faults: seq<int>, i: nat, pg: nat)
    requires i < |faults| && !Announces(n, faults, pg)
    ensures !Announces(n, Drop(faults, i), pg) && !Names(n, faults[i], pg)
  {
    AnnouncesDrop(n, faults, i, pg);
  }

  /** Those events, and no others, free a stranded thread. */
  lemma FreesIff(snap: Snapshot, s: State, e: Event, t: Thread)
    requires ValidSnapshot(snap) && StateOk(snap, s) && Stranded(s, t)
    ensures !Stranded(Step(snap, s, e), t) <==> Frees(s, e, t)
  {
    var pg := PageOf(s.waiting[t].addr);
    hide PageContent, Announces;
    match e
    case Issue(u, a) =>
      if u !in s.waiting && InRam(|s.ram|, a.addr) {
        AttemptFreesIff(snap, s, u, a, t);
      }
    case Resume(u) =>
      if u in s.waiting {
        AttemptFreesIff(snap, s, u, s.waiting[u], t);
      }
    case Serve(i) =>
      if s.serving && i < |s.faults| {
        DropAnnouncesNothing(|s.ram|, s.faults, i, pg);
      }
    case ServeError(i) =>
      if s.serving && i < |s.faults| {
        DropAnnouncesNothing(|s.ram|, s.faults, i, pg);
      }
    case Quit =>
    case Stale(addr) => AnnouncesSnoc(|s.ram|, s.faults, addr, pg);
    case Prefault(_) =>
  }

  /** Once the worker is gone nothing but a pre-fault helps a stranded thread. */
  lemma {:induction false} StaysStranded(snap: Snapshot, s: State, es: seq<Event>, t: Thread)
    requires ValidSnapshot(snap) && StateOk(snap, s) && !s.serving && Stranded(s, t)
    requires forall i | 0 <= i < |es| :: !es[i].Prefault?
    ensures !Run(snap, s, es).serving && Stranded(Run(snap, s, es), t)
  {
    if es != [] {
      StaysStranded(snap, s, es[..|es| - 1], t);
      hide Announced, PageContent;
    }
  }

  /** No ioctl fails outright and the worker stays. */
  predicate NoErrors(es: seq<Event>) {
    forall i | 0 <= i < |es| :: !es[i].ServeError? && !es[i].Quit?
  }

  /** So without those failures no thread is ever lost, from a lazy or a midway start: any waiting
      thread completes the access it was stopped on once the worker has served its messages. */
  lemma {:induction false} WaitersResume(snap: Snapshot, s: State, es: seq<Event>, t: Thread)
    requires ValidSnapshot(snap) && StateOk(snap, s) && s.waiting == map[] && s.serving && NoErrors(es)
    ensures var s' := Run(snap, s, es);
      s'.serving && !Stranded(s', t) && (t in s'.waiting ==> Resumes(snap, s', t))
  {
    if es != [] {
      var u, e := Run(snap, s, es[..|es| - 1]), es[|es| - 1];
      WaitersResume(snap, s, es[..|es| - 1], t);
      hide Stranded, Resumes, Attempt, Install;
      StrandsIff(snap, u, e, t);
      assert Step(snap, u, e).serving by {
        StillServing(snap, u, e);
      }
    }
    hide Stranded, Resumes;
    if t in Run(snap, s, es).waiting {
      ResumesIffAnnounced(snap, Run(snap, s, es), t);
    }
  }

  lemma StillServing(snap: Snapshot, s: State, e: Event)
    requires ValidSnapshot(snap) && StateOk(snap, s) && s.serving && !e.Quit?
    ensures Step(snap, s, e).serving
  {
    hide PageContent;
  }

  /** An input that strands: one read, whose fault is answered by a failing ioctl. */
  lemma FailedIoctlStrands(snap: Snapshot, ram: Ram, addr: nat)
    requires ValidSnapshot(snap) && |ram| == |snap.image| && InRam(|ram|, addr)
    ensures Stranded(Run(snap, Start(ram), [Issue(0, Access(addr, Read)), ServeError(0)]), 0)
  {
    RunTwo(snap, Start(ram), Issue(0, Access(addr, Read)), ServeError(0));
  }

  /** Another: one read, and the worker leaves. The message is still there, and nobody will serve it. */
  lemma QuitStrands(snap: Snapshot, ram: Ram, addr: nat)
    requires ValidSnapshot(snap) && |ram| == |snap.image| && InRam(|ram|, addr)
    ensures var s := Run(snap, Start(ram), [Issue(0, Access(addr, Read)), Quit]);
      Stranded(s, 0) && Announced(s, PageOf(addr))
  {
    RunTwo(snap, Start(ram), Issue(0, Access(addr, Read)), Quit);
    var s := Run(snap, Start(ram), [Issue(0, Access(addr, Read)), Quit]);
    assert s.faults == [addr] && Names(|s.ram|, s.faults[0], PageOf(addr));
  }

  lemma RunTwo(snap: Snapshot, s: State, e1: Event, e2: Event)
    requires ValidSnapshot(snap) && StateOk(snap, s)
    ensures Run(snap, s, [e1, e2]) == Step(snap, Step(snap, s, e1), e2)
  {
    hide Step;
    assert [e1, e2][..1] == [e1] && [e1][..0] == [];
    assert Run(snap, s, [e1]) == Step(snap, s, e1);
  }
}
