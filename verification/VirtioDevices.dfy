/** The fs and net MMIO write handlers, which both refine the one register-file specification, and
    the vhost-user messages the fs device sends when its driver comes up. */
module VirtioDevices {
  import opened Bytes
  import opened Common
  import opened RegisterFile

  /** vhost-user requests, with the payloads the ring set-up depends on. */
  datatype Msg =
    | GetFeatures | SetFeatures(features: U64)
    | GetProtocolFeatures | SetProtocolFeatures(features: U64)
    | SetOwner | SetMemTable(size: nat, base: U64) | SetBackendReqFd
    | VringNum(index: nat, num: U32) | VringBase(index: nat)
    | VringAddr(index: nat, desc: U64, used: U64, avail: U64)
    | VringKick(index: nat) | VringCall(index: nat) | VringEnable(index: nat)

  predicate IsRing(m: Msg) {
    m.VringNum? || m.VringBase? || m.VringAddr? || m.VringKick? || m.VringCall? || m.VringEnable?
  }

  // ---- Early initialisation -----------------------------------------------

  /** What travels before any ring message, when every request succeeds. proto is the backend's
      answer about protocol features, if it gave one. */
  datatype Backend = Backend(features: U64, proto: Option<U64>, size: nat, base: U64)

  const PROTO_MASK: U64 := 0x629

  /** vu_proto_features_ & (MQ | REPLY_ACK | BACKEND_REQ | CONFIG | BACKEND_SEND_FD) */
  function And(x: nat, y: nat): (r: nat)
    ensures r <= x
  {
    if x == 0 then 0 else (if x % 2 == 1 && y % 2 == 1 then 1 else 0) + 2 * And(x / 2, y / 2)
  }

  function Handshake(b: Backend): seq<Msg> {
    var proto := if b.proto.Some? then And(b.proto.value, PROTO_MASK) else 0;
    [GetFeatures, SetFeatures(b.features), GetProtocolFeatures]
    + (if b.proto.Some? then [SetProtocolFeatures(proto)] else [])
    + [SetOwner, SetMemTable(b.size, b.base)]
    + (if TestBit(proto, 5) then [SetBackendReqFd] else [])
  }

  // ---- Ring set-up --------------------------------------------------------

  predicate Wired(q: Queue) {
    q.num != 0 && q.ready != 0
  }

  /** The six messages that bring up queue i, enabling it last. */
  function QueueMsgs(base: U64, i: nat, q: Queue): seq<Msg> {
    if !Wired(q) then []
    else [VringNum(i, q.num), VringBase(i),
          VringAddr(i, (base + q.desc) % TWO64, (base + q.device) % TWO64, (base + q.driver) % TWO64),
          VringKick(i), VringCall(i), VringEnable(i)]
  }

  function Batch(base: U64, qs: seq<Queue>): seq<Msg> {
    if qs == [] then [] else Batch(base, qs[..|qs| - 1]) + QueueMsgs(base, |qs| - 1, qs[|qs| - 1])
  }

  lemma NoBatch(base: U64)
    ensures Batch(base, []) == []
  {
  }

  lemma BatchSnoc(base: U64, qs: seq<Queue>, i: nat)
    requires i < |qs|
    ensures Batch(base, qs[..i + 1]) == Batch(base, qs[..i]) + QueueMsgs(base, i, qs[i])
    ensures !Wired(qs[i]) ==> Batch(base, qs[..i + 1]) == Batch(base, qs[..i])
  {
    assert qs[..i + 1][..i] == qs[..i];
  }

  /** The fs device: registers, whether its rings are wired up, and everything sent so far. */
  datatype Fs = Fs(regs: Regs, active: bool, sent: seq<Msg>)

  predicate DriverOk(status: U32) {
    TestBit(status, 2)
  }

  /** This write raises DRIVER_OK. */
  predicate Rises(r: Regs, w: Write) {
    w.off == STATUS && DriverOk(w.val) && !DriverOk(r.status)
  }

  function Setup(base: U64, connected: bool, f: Fs): Fs {
    if f.active || !connected then f
    else f.(active := true, sent := f.sent + Batch(base, f.regs.queues))
  }

  function FsStep(base: U64, connected: bool, f: Fs, w: Write): Fs
    requires ValidRegs(f.regs)
  {
    var f' := f.(regs := Step(f.regs, w));
    if Rises(f.regs, w) then Setup(base, connected, f') else f'
  }

  class FsTransport {
    const base: U64
    const connected: bool
    const vqs: array<Queue>
    var devFeaturesSel: U32
    var drvFeaturesSel: U32
    var drvFeatures: U64
    var queueSel: U32
    var status: U32
    var irqStatus: U32
    var shmSel: U32
    var active: bool
    var sent: seq<Msg>

    ghost predicate Valid()
      reads this
    {
      vqs.Length == NUM_QUEUES
    }

    ghost function View(): (f: Fs)
      requires Valid()
      reads this, vqs
      ensures ValidRegs(f.regs)
    {
      Fs(Regs(devFeaturesSel, drvFeaturesSel, drvFeatures, queueSel, status, irqStatus, vqs[..]), active, sent)
    }

    constructor (base: U64, connected: bool, handshake: seq<Msg>)
      ensures Valid() && fresh(vqs) && this.base == base && this.connected == connected
      ensures View() == Fs(InitRegs(), false, handshake)
    {
      this.base, this.connected := base, connected;
      vqs := new Queue[NUM_QUEUES](_ => EMPTY_QUEUE);
      devFeaturesSel, drvFeaturesSel, drvFeatures, queueSel := 0, 0, 0, 0;
      status, irqStatus, shmSel := 0, 0, 0;
      active, sent := false, handshake;
      new;
      assert vqs[..] == RESET_QUEUES;
    }

    /** The six messages of one queue, in order. */
    method WireQueue(i: nat, q: Queue)
      requires Wired(q)
      modifies this`sent
      ensures sent == old(sent) + QueueMsgs(base, i, q)
    {
      sent := sent + [VringNum(i, q.num)];
      sent := sent + [VringBase(i)];
      sent := sent + [VringAddr(i, (base + q.desc) % TWO64, (base + q.device) % TWO64, (base + q.driver) % TWO64)];
      sent := sent + [VringKick(i)];
      sent := sent + [VringCall(i)];
      sent := sent + [VringEnable(i)];
    }

    /** vu_setup: one pass over the queues, skipping those that are not configured. */
    method VuSetup()
      requires Valid()
      modifies this
      ensures Valid() && View() == Setup(base, connected, old(View()))
      ensures shmSel == old(shmSel)
    {
      if active || !connected {
        return;
      }
      hide QueueMsgs, Batch;
      var i := 0;
      assert vqs[..0] == [];
      NoBatch(base);
      while i < NUM_QUEUES
        invariant 0 <= i <= NUM_QUEUES && Valid()
        invariant View() == old(View()).(sent := sent)
        invariant sent == old(sent) + Batch(base, vqs[..i])
        invariant shmSel == old(shmSel)
      {
        var q := vqs[i];
        BatchSnoc(base, vqs[..], i);
        if q.num != 0 && q.ready != 0 {
          WireQueue(i, q);
        }
        i := i + 1;
      }
      assert vqs[..i] == vqs[..];
      active := true;
    }

    /** virtio_mmio_write */
    method MmioWrite(off: nat, data: seq<Byte>)
      requires Valid()
      modifies this, vqs
      ensures Valid() && View() == FsStep(base, connected, old(View()), Write(off, Value(data)))
      ensures shmSel == if off == SHM_SEL then Value(data) else old(shmSel)
    {
      var val := Value(data);
      if off == DEVICE_FEATURES_SEL {
        devFeaturesSel := val;
      } else if off == DRIVER_FEATURES_SEL {
        drvFeaturesSel := val;
      } else if off == DRIVER_FEATURES {
        if drvFeaturesSel == 0 {
          drvFeatures := SetLow(drvFeatures, val);
        } else if drvFeaturesSel == 1 {
          drvFeatures := SetHigh(drvFeatures, val);
        }
      } else if off == QUEUE_SEL {
        queueSel := val;
      } else if IsQueueReg(off) {
        if queueSel < NUM_QUEUES {
          vqs[queueSel] := WriteQueue(vqs[queueSel], off, val);
        }
      } else if off == INTERRUPT_ACK {
        irqStatus := AndNot(irqStatus, val);
      } else if off == STATUS {
        var old_ := status;
        status := val;
        if val == 0 {
          vqs[0], vqs[1] := EMPTY_QUEUE, EMPTY_QUEUE;
          drvFeatures := 0;
          irqStatus := 0;
          assert vqs[..] == RESET_QUEUES;
        }
        if DriverOk(val) && !DriverOk(old_) {
          VuSetup();
        }
      } else if off == SHM_SEL {
        shmSel := val;
      }
    }
  }

  /** The net device's handler: same registers; raising DRIVER_OK starts the data path. */
  class NetTransport {
    const tap: bool
    const vqs: array<Queue>
    var devFeaturesSel: U32
    var drvFeaturesSel: U32
    var drvFeatures: U64
    var queueSel: U32
    var status: U32
    var irqStatus: U32
    var active: bool
    var threads: nat

    ghost predicate Valid()
      reads this
    {
      vqs.Length == NUM_QUEUES
    }

    ghost function View(): (r: Regs)
      requires Valid()
      reads this, vqs
      ensures ValidRegs(r)
    {
      Regs(devFeaturesSel, drvFeaturesSel, drvFeatures, queueSel, status, irqStatus, vqs[..])
    }

    constructor (tap: bool)
      ensures Valid() && fresh(vqs) && this.tap == tap && View() == InitRegs() && !active && threads == 0
    {
      this.tap := tap;
      vqs := new Queue[NUM_QUEUES](_ => EMPTY_QUEUE);
      devFeaturesSel, drvFeaturesSel, drvFeatures, queueSel, status, irqStatus := 0, 0, 0, 0, 0, 0;
      active, threads := false, 0;
      new;
      assert vqs[..] == RESET_QUEUES;
    }

    /** net_mmio_write */
    method MmioWrite(off: nat, data: seq<Byte>)
      requires Valid()
      modifies this, vqs
      ensures Valid() && View() == Step(old(View()), Write(off, Value(data)))
      ensures active == (old(active) || (TestBit(status, 2) && !TestBit(old(status), 2)))
      ensures threads == old(threads) + if tap && TestBit(status, 2) && !TestBit(old(status), 2) then 1 else 0
    {
      var val := Value(data);
      if off == DEVICE_FEATURES_SEL {
        devFeaturesSel := val;
      } else if off == DRIVER_FEATURES_SEL {
        drvFeaturesSel := val;
      } else if off == DRIVER_FEATURES {
        if drvFeaturesSel == 0 {
          drvFeatures := SetLow(drvFeatures, val);
        } else if drvFeaturesSel == 1 {
          drvFeatures := SetHigh(drvFeatures, val);
        }
      } else if off == QUEUE_SEL {
        queueSel := val;
      } else if IsQueueReg(off) {
        if queueSel < NUM_QUEUES {
          vqs[queueSel] := WriteQueue(vqs[queueSel], off, val);
        }
      } else if off == INTERRUPT_ACK {
        irqStatus := AndNot(irqStatus, val);
      } else if off == STATUS {
        var old_ := status;
        status := val;
        if val == 0 {
          vqs[0], vqs[1] := EMPTY_QUEUE, EMPTY_QUEUE;
          drvFeatures := 0;
          irqStatus := 0;
          assert vqs[..] == RESET_QUEUES;
        }
        if DriverOk(val) && !DriverOk(old_) {
          active := true;
          if tap {
            threads := threads + 1;
          }
        }
      }
    }
  }

  // ---- Runs of the fs device ----------------------------------------------

  ghost function FsRun(base: U64, connected: bool, f: Fs, ws: seq<Write>): (f': Fs)
    requires ValidRegs(f.regs)
    ensures f'.regs == After(f.regs, ws)
  {
    if ws == [] then f else FsStep(base, connected, FsRun(base, connected, f, ws[..|ws| - 1]), ws[|ws| - 1])
  }

  /** Where DRIVER_OK first rises, or -1. */
  ghost function FirstRise(r: Regs, ws: seq<Write>): (k: int)
    requires ValidRegs(r)
    ensures -1 <= k < |ws|
    ensures k >= 0 ==> Rises(After(r, ws[..k]), ws[k])
    ensures forall j | 0 <= j < |ws| && (k < 0 || j < k) :: !Rises(After(r, ws[..j]), ws[j])
  {
    if ws == [] then -1
    else
      var prev := ws[..|ws| - 1];
      var k := FirstRise(r, prev);
      assert forall j | 0 <= j < |ws| :: prev[..j] == ws[..j];
      if k >= 0 then k
      else if Rises(After(r, prev), ws[|ws| - 1]) then |ws| - 1
      else -1
  }

  /** restore_snapshot's tail: registers come from the snapshot and a running driver is re-wired. */
  function Restore(base: U64, connected: bool, f: Fs, regs: Regs): Fs {
    var f' := f.(regs := regs);
    if connected && DriverOk(regs.status) then Setup(base, connected, f'.(active := false)) else f'
  }

  lemma {:induction false} ActiveStays(base: U64, connected: bool, f: Fs, ws: seq<Write>)
    requires ValidRegs(f.regs) && f.active
    ensures FsRun(base, connected, f, ws).active && FsRun(base, connected, f, ws).sent == f.sent
  {
    if ws != [] {
      ActiveStays(base, connected, f, ws[..|ws| - 1]);
    }
  }

  /** DRIVER_OK rises when bit 2 of the status register goes from 0 to 1. */
  lemma RisesMeans(r: Regs, w: Write)
    requires ValidRegs(r)
    ensures Rises(r, w) <==> TestBit(Step(r, w).status, 2) && !TestBit(r.status, 2)
  {
    hide SetLow, SetHigh, WriteQueue, AndNot, TestBit;
  }

  /** Without a connection to virtiofsd no message is ever sent and the rings stay down, over every run of
      writes and after a restore. */
  lemma {:induction false} Unconnected(base: U64, f: Fs, regs: Regs, ws: seq<Write>)
    requires ValidRegs(f.regs) && ValidRegs(regs)
    ensures var f' := FsRun(base, false, f, ws); f'.sent == f.sent && f'.active == f.active
    ensures var f' := Restore(base, false, f, regs); f'.sent == f.sent && f'.active == f.active && f'.regs == regs
  {
    if ws != [] {
      Unconnected(base, f, regs, ws[..|ws| - 1]);
      hide Step, Batch, Rises;
    }
  }

  /** Raising DRIVER_OK is not a reset: the queues are as the driver configured them. */
  lemma RiseKeepsQueues(r: Regs, w: Write)
    requires ValidRegs(r) && Rises(r, w)
    ensures Step(r, w).queues == r.queues
  {
    ZeroHasNoBits(2);
  }

  lemma {:induction false} SentSoFar(base: U64, f: Fs, ws: seq<Write>)
    requires ValidRegs(f.regs) && !f.active
    ensures var k := FirstRise(f.regs, ws);
      var f' := FsRun(base, true, f, ws);
      && f'.active == (k >= 0)
      && f'.sent == f.sent + if k >= 0 then Batch(base, After(f.regs, ws[..k]).queues) else []
  {
    hide Batch, Step, After, Rises;
    if ws != [] {
      var prev := ws[..|ws| - 1];
      SentSoFar(base, f, prev);
      var k := FirstRise(f.regs, prev);
      if k >= 0 {
        assert prev[..k] == ws[..k];
      } else if Rises(After(f.regs, prev), ws[|ws| - 1]) {
        RiseKeepsQueues(After(f.regs, prev), ws[|ws| - 1]);
        assert f.sent + [] == f.sent;
      }
    }
  }

  /** Over every run of guest writes the messages are the handshake and then at most one batch,
      sent the first time DRIVER_OK rises and built from the registers at that moment. */
  lemma OneBatch(base: U64, b: Backend, ws: seq<Write>)
    ensures var k := FirstRise(InitRegs(), ws);
      FsRun(base, true, Fs(InitRegs(), false, Handshake(b)), ws).sent ==
        Handshake(b) + if k >= 0 then Batch(base, After(InitRegs(), ws[..k]).queues) else []
  {
    SentSoFar(base, Fs(InitRegs(), false, Handshake(b)), ws);
  }

  /** The same after a restore: a snapshot taken with the driver up sends its batch at once, from
      the restored registers, and none later. */
  lemma OneBatchAfterRestore(base: U64, b: Backend, regs: Regs, ws: seq<Write>)
    requires ValidRegs(regs)
    ensures var f := Restore(base, true, Fs(InitRegs(), false, Handshake(b)), regs);
      var k := FirstRise(regs, ws);
      ValidRegs(f.regs) && FsRun(base, true, f, ws).sent ==
        Handshake(b) + if DriverOk(regs.status) then Batch(base, regs.queues)
                       else if k >= 0 then Batch(base, After(regs, ws[..k]).queues) else []
  {
    var f := Restore(base, true, Fs(InitRegs(), false, Handshake(b)), regs);
    if DriverOk(regs.status) {
      ActiveStays(base, true, f, ws);
    } else {
      SentSoFar(base, f, ws);
    }
  }

  // ---- The shape of a batch -----------------------------------------------

  /** Position p lies in the six-message group of wired queue i, which starts at o. */
  ghost predicate InGroup(base: U64, qs: seq<Queue>, p: nat, i: nat, o: nat) {
    && i < |qs| && Wired(qs[i])
    && o <= p < o + 6 <= |Batch(base, qs)|
    && GroupOf(Batch(base, qs)[o..o + 6], base, i, qs[i])
  }

  /** NUM, BASE, ADDR, KICK and CALL and then ENABLE, all for queue i and with its registers: the
      device area is the used ring and the driver area the available ring. */
  ghost predicate GroupOf(g: seq<Msg>, base: U64, i: nat, q: Queue) {
    && |g| == 6 && (forall k | 0 <= k < 6 :: IsRing(g[k]) && g[k].index == i)
    && g[0].VringNum? && g[0].num == q.num && g[1].VringBase?
    && g[2].VringAddr? && g[2].desc == (base + q.desc) % TWO64
    && g[2].avail == (base + q.driver) % TWO64 && g[2].used == (base + q.device) % TWO64
    && g[3].VringKick? && g[4].VringCall? && g[5].VringEnable?
  }

  /** Every message of a batch belongs to a wired queue's group, which carries that queue's
      registers and ends with its ENABLE. */
  lemma {:induction false} BatchShape(base: U64, qs: seq<Queue>, p: nat)
    requires p < |Batch(base, qs)|
    ensures exists i: nat, o: nat :: InGroup(base, qs, p, i, o)
  {
    var n := |qs| - 1;
    var prev, group := Batch(base, qs[..n]), QueueMsgs(base, n, qs[n]);
    if p < |prev| {
      BatchShape(base, qs[..n], p);
      var i: nat, o: nat :| InGroup(base, qs[..n], p, i, o);
      assert (prev + group)[o..o + 6] == prev[o..o + 6];
      assert InGroup(base, qs, p, i, o);
    } else {
      assert (prev + group)[|prev|..|prev| + 6] == group;
      assert InGroup(base, qs, p, n, |prev|);
    }
  }

  /** A queue is enabled exactly when its size and ready flag are non-zero. */
  lemma {:induction false} EnabledIffWired(base: U64, qs: seq<Queue>, i: nat)
    ensures VringEnable(i) in Batch(base, qs) <==> i < |qs| && Wired(qs[i])
  {
    if qs != [] {
      EnabledIffWired(base, qs[..|qs| - 1], i);
    }
  }

  lemma GroupMessages(base: U64, i: nat, q: Queue, x: nat, y: nat)
    requires x < |QueueMsgs(base, i, q)|
    ensures IsRing(QueueMsgs(base, i, q)[x]) && QueueMsgs(base, i, q)[x].index == i
    ensures x < y < |QueueMsgs(base, i, q)| ==> QueueMsgs(base, i, q)[x] != QueueMsgs(base, i, q)[y]
  {
  }

  /** And then only once: every message of a batch is different. */
  lemma {:induction false} BatchDistinct(base: U64, qs: seq<Queue>, p: nat, r: nat)
    requires p < r < |Batch(base, qs)|
    ensures Batch(base, qs)[p] != Batch(base, qs)[r]
  {
    hide QueueMsgs;
    var n := |qs| - 1;
    var prev := Batch(base, qs[..n]);
    if r < |prev| {
      BatchDistinct(base, qs[..n], p, r);
    } else if p >= |prev| {
      GroupMessages(base, n, qs[n], p - |prev|, r - |prev|);
    } else {
      GroupMessages(base, n, qs[n], r - |prev|, r - |prev|);
      BatchShape(base, qs[..n], p);
      var i: nat, o: nat :| InGroup(base, qs[..n], p, i, o);
      assert prev[p] == prev[o..o + 6][p - o];
    }
  }

  lemma {:induction false} AndBits(x: nat, y: nat, k: nat)
    ensures TestBit(And(x, y), k) <==> TestBit(x, k) && TestBit(y, k)
  {
    if x == 0 {
      ZeroHasNoBits(k);
    } else if k > 0 {
      AndBits(x / 2, y / 2, k - 1);
    }
  }

  /** The protocol features the monitor knows: multiqueue, reply-ack, backend requests, config access and
      sending descriptors to the front end. */
  lemma MaskBits(k: nat)
    ensures TestBit(PROTO_MASK, k) <==> k in {0, 3, 5, 9, 10}
  {
    hide TestBit;
    BitStep(0x629, k);
    BitStep(0x314, k - 1);
    BitStep(0x18a, k - 2);
    BitStep(0xc5, k - 3);
    BitStep(0x62, k - 4);
    BitStep(0x31, k - 5);
    BitStep(0x18, k - 6);
    BitStep(0xc, k - 7);
    BitStep(0x6, k - 8);
    BitStep(0x3, k - 9);
    BitStep(0x1, k - 10);
    if k >= 11 {
      ZeroHasNoBits(k - 11);
    }
  }

  lemma BitStep(x: nat, k: int)
    ensures k == 0 ==> (TestBit(x, k) <==> x % 2 == 1)
    ensures k > 0 ==> (TestBit(x, k) <==> TestBit(x / 2, k - 1))
  {
  }

  /** The order of the handshake: all offered features are acknowledged first; of the protocol features,
      if the backend has any, exactly those the monitor knows; then the owner and right after it the
      memory table; and a channel for backend requests, last, exactly when the backend offers them. */
  lemma HandshakeOrder(b: Backend, k: nat)
    ensures var h := Handshake(b);
      var n := if b.proto.Some? then 4 else 3;
      && n + 2 <= |h| <= n + 3
      && h[0] == GetFeatures && h[1] == SetFeatures(b.features) && h[2] == GetProtocolFeatures
      && (b.proto.Some? ==>
            h[3].SetProtocolFeatures? &&
            (TestBit(h[3].features, k) <==> TestBit(b.proto.value, k) && k in {0, 3, 5, 9, 10}))
      && h[n] == SetOwner && h[n + 1] == SetMemTable(b.size, b.base)
      && (|h| == n + 3 <==> b.proto.Some? && TestBit(b.proto.value, 5))
      && (|h| == n + 3 ==> h[n + 2] == SetBackendReqFd)
  {
    if b.proto.Some? {
      AndBits(b.proto.value, PROTO_MASK, k);
      AndBits(b.proto.value, PROTO_MASK, 5);
    }
    MaskBits(k);
    MaskBits(5);
    ZeroHasNoBits(5);
    hide And, TestBit;
  }

  /** No ring message precedes SET_FEATURES, SET_OWNER and SET_MEM_TABLE. */
  lemma HandshakeFirst(b: Backend)
    ensures SetFeatures(b.features) in Handshake(b) && SetOwner in Handshake(b) &&
      SetMemTable(b.size, b.base) in Handshake(b)
    ensures forall m | m in Handshake(b) :: !IsRing(m)
  {
    var h := Handshake(b);
    var k := if b.proto.Some? then 4 else 3;
    assert h[1] == SetFeatures(b.features) && h[k] == SetOwner && h[k + 1] == SetMemTable(b.size, b.base);
  }
}
