/** Before the vCPU resumes, a lazy restore installs the pages the saved queues' rings start in, so that
    reaching them needs no fault. */
module RingPrefault {
  import opened Bytes
  import opened GuestMemory
  import R = RegisterFile
  import F = SnapshotFile
  import L = LazyRestore

  /** A part of a ring: its guest address and its size in bytes. */
  datatype Part = Part(base: U64, size: nat)

  /** Descriptor table, available ring and used ring. */
  function Parts(q: R.Queue): seq<Part> {
    [Part(q.desc, 16 * q.num), Part(q.driver, 4 + 2 * q.num), Part(q.device, 4 + 8 * q.num)]
  }

  /** Saved queue i of a device is there and configured. */
  predicate InUse(d: F.DevState, i: nat) {
    i < R.NUM_QUEUES && i < d.numVqs && F.SavedQueue(d, i).num > 0
  }

  predicate StartsInQueue(q: R.Queue, a: nat) {
    a == q.desc || a == q.driver || a == q.device
  }

  /** One of the device's first n rings has a part that starts at a. */
  ghost predicate StartsAmong(d: F.DevState, n: nat, a: nat) {
    exists i: nat :: i < n && InUse(d, i) && StartsInQueue(F.SavedQueue(d, i), a)
  }

  ghost predicate StartsAt(d: F.DevState, a: nat) {
    StartsAmong(d, R.NUM_QUEUES, a)
  }

  /** The addresses the loop over one device's saved queues pre-faults. */
  method DeviceStarts(d: F.DevState) returns (gpas: seq<nat>)
    ensures forall a: nat :: a in gpas <==> StartsAt(d, a)
  {
    hide F.SavedQueue;
    gpas := [];
    var i := 0;
    while i < R.NUM_QUEUES && i < d.numVqs
      invariant 0 <= i <= R.NUM_QUEUES
      invariant forall a: nat :: a in gpas <==> StartsAmong(d, i, a)
    {
      var q := F.SavedQueue(d, i);
      if q.num > 0 {
        gpas := gpas + [q.desc, q.driver, q.device];
      }
      i := i + 1;
    }
  }

  /** Both loops, fs first. */
  method RingStarts(h: F.Header) returns (gpas: seq<nat>)
    ensures forall a: nat :: a in gpas <==> StartsAt(h.fs, a) || StartsAt(h.net, a)
  {
    hide StartsAt;
    var fs := DeviceStarts(h.fs);
    var net := DeviceStarts(h.net);
    gpas := fs + net;
  }

  /** gpas are the addresses pre-faulted for header h. */
  ghost predicate ForHeader(h: F.Header, gpas: seq<nat>) {
    forall a: nat :: a in gpas <==> StartsAt(h.fs, a) || StartsAt(h.net, a)
  }

  /** Some ring part starts in page pg of RAM, and not at address 0. */
  ghost predicate HasStart(h: F.Header, n: nat, pg: nat) {
    exists a: nat :: (StartsAt(h.fs, a) || StartsAt(h.net, a)) && a != 0 && L.Names(n, a, pg)
  }

  lemma ReachedIff(h: F.Header, gpas: seq<nat>, n: nat, pg: nat)
    requires ForHeader(h, gpas)
    ensures L.Reached(n, gpas, pg) <==> HasStart(h, n, pg)
  {
    hide StartsAt;
    if L.Reached(n, gpas, pg) {
      var i :| 0 <= i < |gpas| && gpas[i] != 0 && L.InRam(n, gpas[i]) && L.PageOf(gpas[i]) == pg;
      assert gpas[i] in gpas && L.Names(n, gpas[i], pg);
    }
    if HasStart(h, n, pg) {
      var a: nat :| (StartsAt(h.fs, a) || StartsAt(h.net, a)) && a != 0 && L.Names(n, a, pg);
      assert a in gpas;
    }
  }

  /** Thread t's access a, issued in s, completes at once and posts no message. */
  ghost predicate AtOnce(snap: L.Snapshot, s: L.State, t: L.Thread, a: L.Access)
    requires L.ValidSnapshot(snap) && L.StateOk(snap, s) && L.InRam(|s.ram|, a.addr)
  {
    var s' := L.Step(snap, s, L.Issue(t, a));
    s'.faults == s.faults && s'.waiting == s.waiting &&
    s'.log == s.log + [L.Entry(t, a, L.Yields(L.Effective(snap, s), a))]
  }

  lemma AtOnceIffPresent(snap: L.Snapshot, s: L.State, t: L.Thread, a: L.Access)
    requires L.ValidSnapshot(snap) && L.StateOk(snap, s) && L.InRam(|s.ram|, a.addr) && t !in s.waiting
    ensures AtOnce(snap, s, t, a) <==> L.PageOf(a.addr) in s.present
  {
    L.AttemptEffective(snap, s, t, a);
    hide L.Effective, L.Yields;
    assert s.waiting - {t} == s.waiting;
  }

  /** After the pre-faults of a header's rings, an access is free of faults exactly when its page was
      there before or some ring part starts in it; it sees what it would have seen before. */
  lemma RingsPrefaulted(snap: L.Snapshot, s: L.State, h: F.Header, gpas: seq<nat>, t: L.Thread, a: L.Access)
    requires L.ValidSnapshot(snap) && L.StateOk(snap, s) && L.InRam(|s.ram|, a.addr) && t !in s.waiting
    requires ForHeader(h, gpas)
    ensures var s' := L.Run(snap, s, L.Prefaults(gpas));
      && (AtOnce(snap, s', t, a) <==> L.PageOf(a.addr) in s.present || HasStart(h, |s.ram|, L.PageOf(a.addr)))
      && L.Effective(snap, s') == L.Effective(snap, s)
  {
    hide ForHeader, HasStart, AtOnce, L.Effective, L.Reached, L.Prefaults;
    var pg := L.PageOf(a.addr);
    assert gpas[..|gpas|] == gpas;
    L.PrefaultsInstall(snap, s, gpas, |gpas|, pg);
    ReachedIff(h, gpas, |s.ram|, pg);
    AtOnceIffPresent(snap, L.Run(snap, s, L.Prefaults(gpas)), t, a);
  }

  /** So every byte of a configured ring part is reached without a fault if the part lies in RAM, inside
      one page and not at address 0. */
  lemma PartPrefaulted(snap: L.Snapshot, s: L.State, h: F.Header, gpas: seq<nat>, d: F.DevState, i: nat, p: Part,
                       t: L.Thread, a: L.Access)
    requires L.ValidSnapshot(snap) && L.StateOk(snap, s) && t !in s.waiting && ForHeader(h, gpas)
    requires (d == h.fs || d == h.net) && InUse(d, i) && p in Parts(F.SavedQueue(d, i))
    requires 0 < p.base && L.InRam(|s.ram|, p.base) && p.base % PAGE + p.size <= PAGE
    requires p.base <= a.addr < p.base + p.size
    ensures L.InRam(|s.ram|, a.addr) && AtOnce(snap, L.Run(snap, s, L.Prefaults(gpas)), t, a)
  {
    SamePage(|s.ram|, p.base, a.addr);
    assert StartsInQueue(F.SavedQueue(d, i), p.base) && StartsAt(d, p.base);
    assert HasStart(h, |s.ram|, L.PageOf(a.addr)) by {
      assert L.Names(|s.ram|, p.base, L.PageOf(a.addr));
    }
    hide ForHeader, HasStart, AtOnce, StartsAt;
    RingsPrefaulted(snap, s, h, gpas, t, a);
  }

  lemma SamePage(n: nat, base: nat, a: nat)
    requires L.InRam(n, base) && base <= a < base - base % PAGE + PAGE
    ensures L.InRam(n, a) && L.PageOf(a) == L.PageOf(base)
  {
  }

  /** A header whose only ring is a descriptor table of 256 entries that starts in the middle of page 1:
      its second half is in page 2, where no ring part starts. */
  function Crossing(h: F.Header): F.Header {
    var q := R.Queue(256, 1, 6144, 4096, 12288);
    h.(fs := F.DevState(0, 0, 0, 1, q, R.EMPTY_QUEUE), net := F.DevState(0, 0, 0, 0, R.EMPTY_QUEUE, R.EMPTY_QUEUE))
  }

  /** An input: an access to that half still faults after the pre-faults of a fully lazy restore. */
  lemma CrossingStillFaults(snap: L.Snapshot, ram: Ram, h: F.Header, gpas: seq<nat>, t: L.Thread, op: L.Op)
    requires L.ValidSnapshot(snap) && |ram| == |snap.image| >= 4 && ForHeader(Crossing(h), gpas)
    ensures Part(6144, 4096) in Parts(F.SavedQueue(Crossing(h).fs, 0)) && 6144 <= 8192 < 6144 + 4096
    ensures !AtOnce(snap, L.Run(snap, L.Start(ram), L.Prefaults(gpas)), t, L.Access(8192, op))
  {
    var c := Crossing(h);
    assert forall a: nat | StartsAt(c.fs, a) || StartsAt(c.net, a) :: a < 8192 || a == 12288;
    assert !HasStart(c, |ram|, 2);
    hide ForHeader, HasStart, AtOnce, StartsAt, Crossing;
    RingsPrefaulted(snap, L.Start(ram), c, gpas, t, L.Access(8192, op));
  }
}
