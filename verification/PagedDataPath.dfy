/** The data path on demand-paged RAM. Each action of the net thread is a set of byte accesses that
    thread completes; what it does next it computes from the bytes they returned. The driver's accesses
    are those of other threads. Faults, installs, stale messages and the worker come in between. */
module PagedDataPath {
  import opened Bytes
  import opened GuestMemory
  import opened RestoreAgreement
  import L = LazyRestore
  import opened Virtqueue
  import opened NetDataPath
  import opened ThreadAccesses

  datatype Paged = Paged(net: State, paging: Paging)

  /** The memory of the data path is the memory accesses see. */
  ghost predicate PagedOk(c: Config, p: Paged) {
    && Fits(c.ram, c.txq) && Fits(c.ram, c.rxq)
    && PagingOk(p.paging) && p.net.m == Flat(Seen(p.paging)) && |p.net.m| == c.ram
  }

  // ---- An action as accesses ----------------------------------------------

  ghost predicate ReadAt(done: seq<L.Entry>, a: nat, v: Byte) {
    exists i | 0 <= i < |done| :: done[i].access == L.Access(a, L.Read) && done[i].value == v
  }

  ghost predicate WrittenAt(done: seq<L.Entry>, a: nat, v: Byte) {
    exists i | 0 <= i < |done| :: done[i].access == L.Access(a, L.Write(v))
  }

  /** No byte is read after it was written. */
  ghost predicate ReadsFirst(done: seq<L.Entry>) {
    forall i, j | 0 <= i < j < |done| && done[i].access.op.Write? && done[j].access.op.Read? ::
      done[i].access.addr != done[j].access.addr
  }

  /** The accesses done are those of the thread's next action, where view stands for what the thread
      knows of memory: it holds the bytes the reads returned, and anything elsewhere. Local state goes
      on as computed from them, and the bytes written are those computed from them. */
  ghost predicate Computes(c: Config, s: State, s': State, view: Memory, done: seq<L.Entry>) {
    && StepOk(c, s.(m := view))
    && var v := s.(m := view);
    && |DeviceStep(c, v).m| == |view|
    && (forall i | 0 <= i < |done| :: done[i].thread == L.NET && done[i].access.addr < |view|)
    && (forall i | 0 <= i < |done| && done[i].access.op.Read? :: Reads(c, v, done[i].access.addr))
    && (forall i | 0 <= i < |done| && done[i].access.op.Write? ::
          Writes(c, v, done[i].access.addr) && done[i].access.op.value == DeviceStep(c, v).m[done[i].access.addr])
    && (forall a: nat | a < |view| && Reads(c, v, a) :: ReadAt(done, a, view[a]))
    && (forall a: nat | a < |view| && Writes(c, v, a) :: WrittenAt(done, a, DeviceStep(c, v).m[a]))
    && ReadsFirst(done)
    && s' == DeviceStep(c, v).(m := s'.m)
  }

  /** What was completed between two states of the paging machine. */
  function Done(mem: L.State, mem': L.State): seq<L.Entry>
    requires mem.log <= mem'.log
  {
    mem'.log[|mem.log|..]
  }

  // ---- Steps --------------------------------------------------------------

  datatype Move = Pages | Net | Guest | Packet

  /** A step: events of the paging machine, and what they amount to for the data path. The guest keeps
      to the driver's contract; what the thread does is not assumed but computed. */
  ghost predicate Moves(c: Config, move: Move, p: Paged, p': Paged, es: seq<L.Event>)
    requires PagedOk(c, p) && PagedOk(c, p')
  {
    && p'.paging.snap == p.paging.snap && p'.paging.mem == L.Run(p.paging.snap, p.paging.mem, es)
    && p.paging.mem.log <= p'.paging.mem.log
    && var done := Done(p.paging.mem, p'.paging.mem);
    match move
    case Pages => L.ReadsOnly(done) && p'.net == p.net
    case Net => exists view: Memory :: |view| == c.ram && Computes(c, p.net, p'.net, view, done)
    case Guest => (forall i | 0 <= i < |done| :: done[i].thread != L.NET) && By(c, Driver, p.net, p'.net)
    case Packet => L.ReadsOnly(done) && By(c, Tap, p.net, p'.net)
  }

  ghost predicate PagedNext(c: Config, p: Paged, p': Paged)
    requires PagedOk(c, p) && PagedOk(c, p')
  {
    exists move, es :: Moves(c, move, p, p', es)
  }

  // ---- Bytes --------------------------------------------------------------

  lemma SeenAt(c: Config, p: Paged, a: nat)
    requires PagedOk(c, p) && a < c.ram
    ensures L.InRam(|Seen(p.paging)|, a) && p.net.m[a] == L.ByteAt(Seen(p.paging), a)
  {
    FlatAt(Seen(p.paging), a);
  }

  /** A byte read before it is written is the byte memory held at the start. */
  lemma ReadReturns(m: Ram, done: seq<L.Entry>, i: nat)
    requires forall k | 0 <= k < |done| :: L.InRam(|m|, done[k].access.addr)
    requires L.Faithful(m, done) && ReadsFirst(done) && i < |done| && done[i].access.op.Read?
    ensures done[i].value == L.ByteAt(m, done[i].access.addr)
  {
    hide L.InRam;
    var a := done[i].access.addr;
    L.ReplayAt(m, done[..i], a);
    assert L.LastWrite(done[..i], a) == -1;
  }

  /** A byte afterwards: what was last written, or what it was. */
  lemma ByteAfter(m: Ram, done: seq<L.Entry>, a: nat, w: bool, v: Byte)
    requires (forall k | 0 <= k < |done| :: L.InRam(|m|, done[k].access.addr)) && L.InRam(|m|, a)
    requires forall k | 0 <= k < |done| && done[k].access.op.Write? && done[k].access.addr == a ::
      w && done[k].access.op.value == v
    requires w ==> WrittenAt(done, a, v)
    ensures L.ByteAt(L.Replay(m, done), a) == if w then v else L.ByteAt(m, a)
  {
    hide L.InRam;
    L.ReplayAt(m, done, a);
  }

  // ---- What the thread computes is the data path's step ---------------------

  lemma DoneInRam(c: Config, p: Paged, p': Paged, es: seq<L.Event>)
    requires PagedOk(c, p) && PagedOk(c, p') && p'.paging.snap == p.paging.snap
    requires p'.paging.mem == L.Run(p.paging.snap, p.paging.mem, es)
    ensures p.paging.mem.log <= p'.paging.mem.log
    ensures var m, done := Seen(p.paging), Done(p.paging.mem, p'.paging.mem);
      && (forall k | 0 <= k < |done| :: L.InRam(|m|, done[k].access.addr))
      && L.Faithful(m, done) && Seen(p'.paging) == L.Replay(m, done)
  {
    L.PagingInvisible(p.paging.snap, p.paging.mem, es);
    hide Flat;
  }

  /** The bytes the thread knows are those of memory. */
  lemma ViewIsRight(c: Config, p: Paged, s': State, view: Memory, done: seq<L.Entry>, a: nat)
    requires PagedOk(c, p) && |view| == c.ram && Computes(c, p.net, s', view, done)
    requires (forall k | 0 <= k < |done| :: L.InRam(|Seen(p.paging)|, done[k].access.addr))
    requires L.Faithful(Seen(p.paging), done) && a < c.ram && Reads(c, p.net.(m := view), a)
    ensures p.net.m[a] == view[a]
  {
    hide L.InRam, L.Faithful, Seen, Flat, Reads, Writes, DeviceStep, StepOk, ReadsFirst;
    assert ReadAt(done, a, view[a]);
    var i :| 0 <= i < |done| && done[i].access == L.Access(a, L.Read) && done[i].value == view[a];
    ReadReturns(Seen(p.paging), done, i);
    SeenAt(c, p, a);
  }

  /** Each byte afterwards is the one the thread computed, or what it was. */
  lemma ByteComputed(c: Config, p: Paged, p': Paged, view: Memory, done: seq<L.Entry>, a: nat)
    requires PagedOk(c, p) && PagedOk(c, p') && |view| == c.ram && Computes(c, p.net, p'.net, view, done)
    requires (forall k | 0 <= k < |done| :: L.InRam(|Seen(p.paging)|, done[k].access.addr))
    requires Seen(p'.paging) == L.Replay(Seen(p.paging), done) && a < c.ram
    ensures var v := p.net.(m := view);
      p'.net.m[a] == if Writes(c, v, a) then DeviceStep(c, v).m[a] else p.net.m[a]
  {
    hide Seen, Flat, L.Replay, L.InRam, Reads, Writes, DeviceStep, StepOk, ReadsFirst, ReadAt, WrittenAt;
    var v := p.net.(m := view);
    SeenAt(c, p, a);
    SeenAt(c, p', a);
    ByteAfter(Seen(p.paging), done, a, Writes(c, v, a), DeviceStep(c, v).m[a]);
  }

  /** Whatever pages were missing when the thread started on an action: what it computed from the bytes
      its accesses returned is the step of the data path on the whole memory. */
  lemma ThreadStepDerived(c: Config, p: Paged, p': Paged, es: seq<L.Event>)
    requires PagedOk(c, p) && PagedOk(c, p') && Moves(c, Net, p, p', es)
    ensures StepOk(c, p.net) && p'.net == DeviceStep(c, p.net)
  {
    DoneInRam(c, p, p', es);
    var done := Done(p.paging.mem, p'.paging.mem);
    hide Seen, Flat, L.Replay, L.InRam, L.Faithful, PagingOk;
    var view: Memory :| |view| == c.ram && Computes(c, p.net, p'.net, view, done);
    var v, m := p.net.(m := view), p.net.m;
    forall a | 0 <= a < |m| && Reads(c, v, a) ensures m[a] == view[a] {
      ViewIsRight(c, p, p'.net, view, done, a);
    }
    ComputesOk(c, p.net, p'.net, view, done);
    ActionFrame(c, v, m);
    hide Reads, DeviceStep, StepOk, Computes;
    assert v.(m := m) == p.net;
    var t := DeviceStep(c, p.net);
    forall a | 0 <= a < |m| ensures p'.net.m[a] == t.m[a] {
      ByteComputed(c, p, p', view, done, a);
    }
    assert p'.net.m == t.m;
  }

  lemma ComputesOk(c: Config, s: State, s': State, view: Memory, done: seq<L.Entry>)
    requires Computes(c, s, s', view, done)
    ensures StepOk(c, s.(m := view)) && s' == DeviceStep(c, s.(m := view)).(m := s'.m)
  {
    hide Reads, Writes, DeviceStep, StepOk, ReadsFirst, ReadAt, WrittenAt;
  }

  /** And it cannot have computed it without those bytes: the page of every byte the action reads has
      arrived, by a fault if it was missing. */
  lemma ThreadNeedsPages(c: Config, p: Paged, p': Paged, es: seq<L.Event>, a: nat)
    requires PagedOk(c, p) && PagedOk(c, p') && Moves(c, Net, p, p', es) && a < c.ram && Reads(c, p.net, a)
    ensures L.PageOf(a) in p'.paging.mem.present
  {
    DoneInRam(c, p, p', es);
    L.PagingInvisible(p.paging.snap, p.paging.mem, es);
    var done := Done(p.paging.mem, p'.paging.mem);
    hide Seen, Flat, L.Replay, L.InRam, L.Faithful, PagingOk;
    var view: Memory :| |view| == c.ram && Computes(c, p.net, p'.net, view, done);
    var v, m := p.net.(m := view), p.net.m;
    forall b | 0 <= b < |m| && Reads(c, v, b) ensures m[b] == view[b] {
      ViewIsRight(c, p, p'.net, view, done, b);
    }
    ComputesOk(c, p.net, p'.net, view, done);
    ReadsFrame(c, v, m, a);
    assert v.(m := m) == p.net;
    hide Reads, Writes, DeviceStep, StepOk, WrittenAt, ReadsFirst;
    assert ReadAt(done, a, view[a]);
  }

  /** So every step of the paged machine is a step of the data path, or none. */
  lemma PagedNextIsNext(c: Config, p: Paged, p': Paged)
    requires PagedOk(c, p) && PagedOk(c, p') && PagedNext(c, p, p')
    ensures p'.net == p.net || Next(c, p.net, p'.net)
  {
    hide Flat, Seen, PagingOk, DeviceStep, StepOk, Computes, DriverStep;
    var move, es :| Moves(c, move, p, p', es);
    if move.Net? {
      ThreadStepDerived(c, p, p', es);
      assert By(c, Thread, p.net, p'.net);
    }
  }

  // ---- Every step of the data path can be carried out ------------------------

  /** Reads of the addresses in r below n, in order. */
  ghost function ReadAll(r: set<nat>, n: nat): (accs: seq<L.Access>)
    ensures forall i | 0 <= i < |accs| :: accs[i].op.Read? && accs[i].addr in r && accs[i].addr < n
    ensures forall a: nat | a in r && a < n :: L.Access(a, L.Read) in accs
  {
    if n == 0 then [] else ReadAll(r, n - 1) + if n - 1 in r then [L.Access(n - 1, L.Read)] else []
  }

  /** Writes of m's bytes to the addresses in w below n, in order. */
  ghost function WriteAll(w: set<nat>, m: Memory, n: nat): (accs: seq<L.Access>)
    requires n <= |m|
    ensures forall i | 0 <= i < |accs| ::
      accs[i].op.Write? && accs[i].addr in w && accs[i].addr < n && accs[i].op.value == m[accs[i].addr]
    ensures forall a: nat | a in w && a < n :: L.Access(a, L.Write(m[a])) in accs
  {
    if n == 0 then [] else WriteAll(w, m, n - 1) + if n - 1 in w then [L.Access(n - 1, L.Write(m[n - 1]))] else []
  }

  /** Thread t reads the bytes in r and then makes the bytes in w those of m. */
  ghost function Plan(r: set<nat>, w: set<nat>, m: Memory): seq<L.Access> {
    ReadAll(r, |m|) + WriteAll(w, m, |m|)
  }

  lemma PlanReadsFirst(done: seq<L.Entry>, t: L.Thread, r: set<nat>, w: set<nat>, m: Memory)
    requires L.Performed(done, t, Plan(r, w, m))
    ensures ReadsFirst(done)
  {
    var rs, ws := ReadAll(r, |m|), WriteAll(w, m, |m|);
    forall k | 0 <= k < |done| ensures done[k].access.op.Read? <==> k < |rs| {
      assert done[k].access == if k < |rs| then rs[k] else ws[k - |rs|];
    }
  }

  /** What the plan does to each byte. */
  lemma PlanWrites(done: seq<L.Entry>, t: L.Thread, r: set<nat>, w: set<nat>, m: Memory)
    requires L.Performed(done, t, Plan(r, w, m))
    ensures forall k | 0 <= k < |done| && done[k].access.op.Write? ::
      done[k].access.addr in w && done[k].access.addr < |m| && done[k].access.op.value == m[done[k].access.addr]
    ensures forall k | 0 <= k < |done| && done[k].access.op.Read? ::
      done[k].access.addr in r && done[k].access.addr < |m|
    ensures forall a: nat | a in w && a < |m| :: WrittenAt(done, a, m[a])
  {
    var rs, ws := ReadAll(r, |m|), WriteAll(w, m, |m|);
    forall k | 0 <= k < |done|
      ensures done[k].access.op.Write? ==>
        done[k].access.addr in w && done[k].access.addr < |m| && done[k].access.op.value == m[done[k].access.addr]
      ensures done[k].access.op.Read? ==> done[k].access.addr in r && done[k].access.addr < |m|
    {
      assert done[k].access == if k < |rs| then rs[k] else ws[k - |rs|];
    }
    forall a: nat | a in w && a < |m| ensures WrittenAt(done, a, m[a]) {
      var i :| 0 <= i < |ws| && ws[i] == L.Access(a, L.Write(m[a]));
      assert done[|rs| + i].access == ws[i];
    }
  }

  lemma PlanReads(done: seq<L.Entry>, t: L.Thread, r: set<nat>, w: set<nat>, m: Memory, a: nat)
    requires L.Performed(done, t, Plan(r, w, m)) && a in r && a < |m|
    ensures exists i | 0 <= i < |done| :: done[i].access == L.Access(a, L.Read)
  {
    var rs := ReadAll(r, |m|);
    var i :| 0 <= i < |rs| && rs[i] == L.Access(a, L.Read);
    assert done[i].access == rs[i];
  }

  /** Any thread that is not stopped can read any bytes and then change memory to any other, as long as
      the worker is in its loop. */
  lemma CarryOut(c: Config, p: Paged, t: L.Thread, r: set<nat>, w: set<nat>, m: Memory)
    returns (es: seq<L.Event>, g: Paging)
    requires PagedOk(c, p) && p.paging.mem.serving && t !in p.paging.mem.waiting && |m| == c.ram
    requires forall a: nat | a < c.ram && a !in w :: m[a] == p.net.m[a]
    ensures PagingOk(g) && g.snap == p.paging.snap && g.mem == L.Run(p.paging.snap, p.paging.mem, es)
    ensures p.paging.mem.log <= g.mem.log && L.Performed(Done(p.paging.mem, g.mem), t, Plan(r, w, m))
    ensures Flat(Seen(g)) == m
  {
    hide Flat, L.Run, L.Effective;
    var accs := Plan(r, w, m);
    assert |m| == PAGE * |p.paging.snap.image|;
    assert forall i | 0 <= i < |accs| :: L.InRam(|p.paging.snap.image|, accs[i].addr);
    es := L.AnyAccessesPossible(p.paging.snap, p.paging.mem, t, accs);
    g := Paging(p.paging.snap, L.Run(p.paging.snap, p.paging.mem, es));
    L.PagingInvisible(p.paging.snap, p.paging.mem, es);
    PlanResult(c, p, t, r, w, m, g);
  }

  lemma PlanResult(c: Config, p: Paged, t: L.Thread, r: set<nat>, w: set<nat>, m: Memory, g: Paging)
    requires PagedOk(c, p) && PagingOk(g) && g.snap == p.paging.snap && |m| == c.ram
    requires forall a: nat | a < c.ram && a !in w :: m[a] == p.net.m[a]
    requires L.SeesFlat(g.snap, p.paging.mem, g.mem) && L.Performed(Done(p.paging.mem, g.mem), t, Plan(r, w, m))
    ensures Flat(Seen(g)) == m
  {
    var done := Done(p.paging.mem, g.mem);
    PlanWrites(done, t, r, w, m);
    hide Flat, Plan, L.Replay, WrittenAt, L.Faithful;
    forall a | 0 <= a < c.ram ensures Flat(Seen(g))[a] == m[a] {
      FlatAt(Seen(g), a);
      SeenAt(c, p, a);
      ByteAfter(Seen(p.paging), done, a, a in w, m[a]);
    }
  }

  ghost function ReadSet(c: Config, s: State): set<nat>
    requires Fits(|s.m|, c.txq) && Fits(|s.m|, c.rxq)
  {
    set a: nat | a < |s.m| && Reads(c, s, a)
  }

  ghost function WriteSet(c: Config, s: State): set<nat>
    requires Fits(|s.m|, c.txq) && Fits(|s.m|, c.rxq)
  {
    set a: nat | a < |s.m| && Writes(c, s, a)
  }

  /** done is a plan's accesses with the bytes m before and m' after. */
  ghost predicate Fulfils(done: seq<L.Entry>, r: set<nat>, w: set<nat>, m: Memory, m': Memory) {
    && |m| == |m'| && ReadsFirst(done)
    && (forall k | 0 <= k < |done| :: done[k].thread == L.NET && done[k].access.addr < |m|)
    && (forall k | 0 <= k < |done| && done[k].access.op.Read? :: done[k].access.addr in r)
    && (forall k | 0 <= k < |done| && done[k].access.op.Write? ::
          done[k].access.addr in w && done[k].access.op.value == m'[done[k].access.addr])
    && (forall a: nat | a in r && a < |m| :: ReadAt(done, a, m[a]))
    && (forall a: nat | a in w && a < |m| :: WrittenAt(done, a, m'[a]))
  }

  lemma PlanFulfils(c: Config, p: Paged, g: Paging, r: set<nat>, w: set<nat>, m: Memory)
    requires PagedOk(c, p) && PagingOk(g) && g.snap == p.paging.snap && L.SeesFlat(g.snap, p.paging.mem, g.mem)
    requires L.Performed(Done(p.paging.mem, g.mem), L.NET, Plan(r, w, m)) && |m| == c.ram
    ensures Fulfils(Done(p.paging.mem, g.mem), r, w, p.net.m, m)
  {
    assert p.paging.mem.log <= g.mem.log;
    hide Flat, Seen, Plan, WrittenAt, ReadAt, ReadsFirst, L.SeesFlat, PagingOk;
    var done := Done(p.paging.mem, g.mem);
    PlanReadsFirst(done, L.NET, r, w, m);
    PlanWrites(done, L.NET, r, w, m);
    forall a: nat | a in r && a < c.ram ensures ReadAt(done, a, p.net.m[a]) {
      PlanReads(done, L.NET, r, w, m, a);
      var i :| 0 <= i < |done| && done[i].access == L.Access(a, L.Read);
      ReadOfMemory(c, p, g, i);
    }
  }

  /** Carrying out an action's reads and writes on what memory holds is computing it. */
  lemma FulfilledComputes(c: Config, s: State, done: seq<L.Entry>)
    requires StepOk(c, s) && Fulfils(done, ReadSet(c, s), WriteSet(c, s), s.m, DeviceStep(c, s).m)
    ensures Computes(c, s, DeviceStep(c, s), s.m, done)
  {
    assert s.(m := s.m) == s;
    hide WrittenAt, ReadAt, DeviceStep, StepOk, Reads, Writes, ReadsFirst;
  }

  lemma ReadOfMemory(c: Config, p: Paged, g: Paging, i: nat)
    requires PagedOk(c, p) && PagingOk(g) && g.snap == p.paging.snap && L.SeesFlat(g.snap, p.paging.mem, g.mem)
    requires var done := Done(p.paging.mem, g.mem);
      i < |done| && done[i].access.op.Read? && done[i].access.addr < c.ram && ReadsFirst(done)
    ensures var done := Done(p.paging.mem, g.mem); ReadAt(done, done[i].access.addr, p.net.m[done[i].access.addr])
  {
    var done := Done(p.paging.mem, g.mem);
    hide Flat, L.Replay, L.Faithful, ReadsFirst;
    ReadReturns(Seen(p.paging), done, i);
    SeenAt(c, p, done[i].access.addr);
  }

  /** An action changes nothing but what it writes. */
  lemma ActionChanges(c: Config, s: State)
    requires StepOk(c, s)
    ensures |DeviceStep(c, s).m| == |s.m|
    ensures forall a: nat | a < |s.m| && a !in WriteSet(c, s) :: DeviceStep(c, s).m[a] == s.m[a]
  {
    assert s.(m := s.m) == s;
    ActionFrame(c, s, s.m);
    hide DeviceStep, StepOk, Reads, Writes;
  }

  lemma NetMove(c: Config, p: Paged, p': Paged, es: seq<L.Event>)
    requires PagedOk(c, p) && PagedOk(c, p') && p'.paging.snap == p.paging.snap
    requires p'.paging.mem == L.Run(p.paging.snap, p.paging.mem, es) && p.paging.mem.log <= p'.paging.mem.log
    requires Computes(c, p.net, p'.net, p.net.m, Done(p.paging.mem, p'.paging.mem))
    ensures Moves(c, Net, p, p', es)
  {
    hide Computes, Flat, Seen, PagingOk, Done;
  }

  lemma ThreadCarriesOut(c: Config, p: Paged) returns (es: seq<L.Event>, p': Paged)
    requires PagedOk(c, p) && p.paging.mem.serving && L.NET !in p.paging.mem.waiting && StepOk(c, p.net)
    ensures PagedOk(c, p') && p'.net == DeviceStep(c, p.net) && Moves(c, Net, p, p', es)
  {
    hide DeviceStep, StepOk, ReadSet, WriteSet, Flat, Seen, Computes, Moves, Plan, L.SeesFlat, L.Performed, Done,
      Fulfils;
    ActionChanges(c, p.net);
    var s' := DeviceStep(c, p.net);
    var g;
    es, g := CarryOut(c, p, L.NET, ReadSet(c, p.net), WriteSet(c, p.net), s'.m);
    p' := Paged(s', g);
    L.PagingInvisible(p.paging.snap, p.paging.mem, es);
    PlanFulfils(c, p, g, ReadSet(c, p.net), WriteSet(c, p.net), s'.m);
    FulfilledComputes(c, p.net, Done(p.paging.mem, g.mem));
    NetMove(c, p, p', es);
  }

  lemma DriverCarriesOut(c: Config, p: Paged, s': State) returns (es: seq<L.Event>, p': Paged)
    requires PagedOk(c, p) && p.paging.mem.serving && L.VCPU !in p.paging.mem.waiting
    requires |s'.m| == c.ram && DriverStep(c, p.net, s')
    ensures PagedOk(c, p') && p'.net == s' && Moves(c, Guest, p, p', es)
  {
    hide DriverStep, Flat, Seen;
    var w := set a: nat | a < c.ram && s'.m[a] != p.net.m[a];
    var g;
    es, g := CarryOut(c, p, L.VCPU, {}, w, s'.m);
    p' := Paged(s', g);
    assert By(c, Driver, p.net, s');
  }

  /** From every state with neither thread stopped and the worker in its loop, whatever pages are missing,
      each step of the data path has its counterpart. */
  lemma NextIsPagedNext(c: Config, p: Paged, s': State)
    requires PagedOk(c, p) && p.paging.mem.serving && L.NET !in p.paging.mem.waiting && L.VCPU !in p.paging.mem.waiting
    requires |s'.m| == c.ram && Next(c, p.net, s')
    ensures exists p' :: PagedOk(c, p') && p'.net == s' && PagedNext(c, p, p')
  {
    hide DriverStep, DeviceStep, StepOk, Flat, Seen, PagingOk, Computes;
    var who :| By(c, who, p.net, s');
    match who
    case Thread =>
      var es, p' := ThreadCarriesOut(c, p);
      assert Moves(c, Net, p, p', es);
    case Driver =>
      var es, p' := DriverCarriesOut(c, p, s');
      assert Moves(c, Guest, p, p', es);
    case Tap =>
      var p' := Paged(s', p.paging);
      TapIsPacket(c, p, p');
  }

  lemma TapIsPacket(c: Config, p: Paged, p': Paged)
    requires PagedOk(c, p) && p'.paging == p.paging && By(c, Tap, p.net, p'.net)
    ensures PagedOk(c, p') && Moves(c, Packet, p, p', [])
  {
    hide Flat, Seen;
    assert p.paging.mem.log[|p.paging.mem.log|..] == [];
  }
}
