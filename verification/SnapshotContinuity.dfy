/** Stopping the network data path at a loop head, saving RAM, restoring it and starting a fresh
    thread continues the same FIFO, also while pages of the restored RAM are still missing. */
module SnapshotContinuity {
  import opened Bytes
  import opened GuestMemory
  import opened DirtyBitmap
  import opened RestoreAgreement
  import LazyRestore
  import opened Virtqueue
  import opened NetDataPath
  import opened PagedDataPath
  import R = RegisterFile
  import F = SnapshotFile

  /** The state a fresh thread finds when memory shows ram and everything else is as it was. */
  ghost function Resumed(c: Config, last: State, ram: Ram): State
    requires ValidConfig(c) && PAGE * |ram| == c.ram
  {
    Attach(c, last.(m := Flat(ram)))
  }

  /** image is RAM at the end of a run that stopped at a loop head, and bitmap the save loop's. */
  ghost predicate SavedAt(c: Config, before: seq<State>, image: Ram, bitmap: seq<Byte>)
    requires ValidConfig(c)
  {
    && IsRun(c, before) && Inv(c, before[0])
    && (before[|before| - 1].pc.TxHead? || before[|before| - 1].pc.RxHead?)
    && Flat(image) == before[|before| - 1].m
    && MarksNonZero(bitmap, image, |image|) && Covers(bitmap, |image|)
  }

  /** A fresh thread on the saved RAM starts in the invariant. */
  lemma FreshThread(c: Config, before: seq<State>, image: Ram, bitmap: seq<Byte>)
    requires ValidConfig(c) && SavedAt(c, before, image, bitmap)
    ensures PAGE * |image| == c.ram
    ensures Inv(c, Resumed(c, before[|before| - 1], image))
    ensures Continues(before[|before| - 1], Resumed(c, before[|before| - 1], image))
  {
    hide Next, MarksNonZero;
    var last := before[|before| - 1];
    RunKeepsInv(c, before, |before| - 1);
    RestartContinues(c, last, last.txLast, last.rxLast);
    hide Inv;
  }

  /** The net device's queues as its registers give them; queue 0 receives and queue 1 transmits. */
  function NetConfig(ram: nat, maxPkt: nat, net: R.Regs): Config
    requires R.ValidRegs(net)
  {
    var rx, tx := net.queues[0], net.queues[1];
    Config(ram, Queue(tx.num, tx.desc, tx.driver, tx.device), Queue(rx.num, rx.desc, rx.driver, rx.device), maxPkt)
  }

  /** The size and the three areas of q are what the driver last wrote to the registers of queue i. */
  ghost predicate FromWrites(r: R.Regs, ws: seq<R.Write>, i: nat, q: Queue)
    requires R.ValidRegs(r) && i < R.NUM_QUEUES
  {
    && R.ReadsBack(ws, r.sel, R.Reg(R.QUEUE_NUM, R.QUEUE_SEL, i), r.queues[i].num, q.num)
    && R.ReadsBack(ws, r.sel, R.Reg(R.QUEUE_DESC_LOW, R.QUEUE_SEL, i), r.queues[i].desc % TWO32, q.desc % TWO32)
    && R.ReadsBack(ws, r.sel, R.Reg(R.QUEUE_DESC_HIGH, R.QUEUE_SEL, i), r.queues[i].desc / TWO32, q.desc / TWO32)
    && R.ReadsBack(ws, r.sel, R.Reg(R.QUEUE_DRIVER_LOW, R.QUEUE_SEL, i), r.queues[i].driver % TWO32, q.driver % TWO32)
    && R.ReadsBack(ws, r.sel, R.Reg(R.QUEUE_DRIVER_HIGH, R.QUEUE_SEL, i), r.queues[i].driver / TWO32, q.driver / TWO32)
    && R.ReadsBack(ws, r.sel, R.Reg(R.QUEUE_DEVICE_LOW, R.QUEUE_SEL, i), r.queues[i].device % TWO32, q.device % TWO32)
    && R.ReadsBack(ws, r.sel, R.Reg(R.QUEUE_DEVICE_HIGH, R.QUEUE_SEL, i), r.queues[i].device / TWO32, q.device / TWO32)
  }

  /** After any writes the thread receives on the queue configured under selector 0 and transmits on the
      one configured under selector 1. */
  lemma ThreadQueues(ram: nat, maxPkt: nat, r: R.Regs, ws: seq<R.Write>)
    requires R.ValidRegs(r)
    ensures var c := NetConfig(ram, maxPkt, R.After(r, ws));
      c.ram == ram && c.maxPkt == maxPkt && FromWrites(r, ws, 0, c.rxq) && FromWrites(r, ws, 1, c.txq)
  {
    R.RegistersReadBack(r, ws, 0);
    R.RegistersReadBack(r, ws, 1);
    hide R.After, R.ReadsBack;
  }

  /** net' is what the snapshot brought back of the registers net, whatever the device held before. */
  predicate RegistersBack(net: R.Regs, net': R.Regs) {
    R.ValidRegs(net) && R.ValidRegs(net') && net' == F.Carried(net, net')
  }

  /** Run the data path, stop it at a loop head, save RAM with the scan's bitmap and the registers in
      the header, rebuild RAM by any path, start a fresh thread on what that path shows and on the
      restored registers, and run on: the whole history still refines the two FIFOs, and nothing of the
      first part is taken back. */
  lemma SnapshotContinues(ram: nat, maxPkt: nat, net: R.Regs, net': R.Regs, before: seq<State>, image: Ram,
                          bitmap: seq<Byte>, path: Path, shown: Ram, log: seq<LazyRestore.Entry>, after: seq<State>)
    requires RegistersBack(net, net')
    requires var c := NetConfig(ram, maxPkt, net); ValidConfig(c) && SavedAt(c, before, image, bitmap)
    requires RestoredBy(path, image, bitmap, shown, log) && LazyRestore.ReadsOnly(log) && PAGE * |shown| == ram
    requires var c' := NetConfig(ram, maxPkt, net');
      ValidConfig(c') && IsRun(c', after) && after[0] == Resumed(c', before[|before| - 1], shown)
    ensures forall i | 0 <= i < |after| ::
      Inv(NetConfig(ram, maxPkt, net'), after[i]) && Continues(before[|before| - 1], after[i])
  {
    var c := NetConfig(ram, maxPkt, net);
    assert NetConfig(ram, maxPkt, net') == c;
    hide Inv, Next, RestoredBy, Resumed, NetConfig;
    FreshThread(c, before, image, bitmap);
    EveryPathStarts(path, image, bitmap, shown, log);
    forall i | 0 <= i < |after| ensures Inv(c, after[i]) && Continues(before[|before| - 1], after[i]) {
      RunKeepsInv(c, after, i);
      RunContinues(c, after, 0, i);
    }
  }

  // ---- While pages are missing --------------------------------------------

  ghost predicate IsPagedRun(c: Config, run: seq<Paged>) {
    && |run| > 0
    && (forall i | 0 <= i < |run| :: PagedOk(c, run[i]))
    && (forall i | 0 <= i < |run| - 1 :: PagedNext(c, run[i], run[i + 1]))
  }

  lemma {:induction false} PagedRunKeeps(c: Config, run: seq<Paged>, i: nat)
    requires ValidConfig(c) && IsPagedRun(c, run) && Inv(c, run[0].net) && i < |run|
    ensures Inv(c, run[i].net) && Continues(run[0].net, run[i].net)
  {
    hide Inv, Next, Flat, PagingOk, Seen, PagedNext;
    if i > 0 {
      PagedRunKeeps(c, run, i - 1);
      var s, s' := run[i - 1].net, run[i].net;
      assert PagedNext(c, run[i - 1], run[i]);
      PagedNextIsNext(c, run[i - 1], run[i]);
      if s' != s {
        NextKeepsInv(c, s, s');
        NextContinues(c, s, s');
      }
    }
  }

  /** The same while pages are missing: from any point of a lazy or midway restore before the first
      completed write, the fresh thread's reads and writes, the driver's, faults, the fault worker and
      stale messages interleave freely. What the thread computes from the bytes it gets is the data path
      on fully restored RAM, and the two FIFOs go on. */
  lemma SnapshotContinuesPaged(ram: nat, maxPkt: nat, net: R.Regs, net': R.Regs, before: seq<State>, image: Ram,
                               bitmap: seq<Byte>, path: Path, run: seq<Paged>)
    requires RegistersBack(net, net')
    requires var c := NetConfig(ram, maxPkt, net); ValidConfig(c) && SavedAt(c, before, image, bitmap)
    requires (path.Lazy? && |path.start| == |image|) || path.Midway?
    requires PAGE * |image| == ram
    requires var c' := NetConfig(ram, maxPkt, net');
      && ValidConfig(c') && IsPagedRun(c', run)
      && run[0].paging == PagingOf(path, image, bitmap) && LazyRestore.ReadsOnly(run[0].paging.mem.log)
      && run[0].net == Resumed(c', before[|before| - 1], Seen(run[0].paging))
    ensures forall i | 0 <= i < |run| ::
      Inv(NetConfig(ram, maxPkt, net'), run[i].net) && Continues(before[|before| - 1], run[i].net)
  {
    var c := NetConfig(ram, maxPkt, net);
    assert NetConfig(ram, maxPkt, net') == c;
    FreshThread(c, before, image, bitmap);
    EveryPathStarts(path, image, bitmap, Seen(run[0].paging), run[0].paging.mem.log);
    hide Inv, Next, Resumed, SavedAt, PagingOf, Seen, Flat, NetConfig, PagedNext;
    forall i | 0 <= i < |run| ensures Inv(c, run[i].net) && Continues(before[|before| - 1], run[i].net) {
      PagedRunKeeps(c, run, i);
    }
  }
}
