/** The virtio-MMIO register file (section 4.2.2 of Virtio 1.2), shared by the fs and net devices,
    and its specification: a register reads back the last value written to it while its queue, or its
    half of the feature bits, was selected, unless a reset came later. */
module RegisterFile {
  import opened Bytes

  const DEVICE_FEATURES_SEL: nat := 0x014
  const DRIVER_FEATURES: nat := 0x020
  const DRIVER_FEATURES_SEL: nat := 0x024
  const QUEUE_SEL: nat := 0x030
  const QUEUE_NUM: nat := 0x038
  const QUEUE_READY: nat := 0x044
  const INTERRUPT_ACK: nat := 0x064
  const STATUS: nat := 0x070
  const QUEUE_DESC_LOW: nat := 0x080
  const QUEUE_DESC_HIGH: nat := 0x084
  const QUEUE_DRIVER_LOW: nat := 0x090
  const QUEUE_DRIVER_HIGH: nat := 0x094
  const QUEUE_DEVICE_LOW: nat := 0x0a0
  const QUEUE_DEVICE_HIGH: nat := 0x0a4
  const SHM_SEL: nat := 0x0ac

  const NUM_QUEUES: nat := 2

  datatype Write = Write(off: nat, val: U32)
  datatype Queue = Queue(num: U32, ready: U32, desc: U64, driver: U64, device: U64)
  datatype Regs = Regs(
    devFeaturesSel: U32, drvFeaturesSel: U32, drvFeatures: U64, sel: U32, status: U32, irq: U32, queues: seq<Queue>)

  predicate ValidRegs(r: Regs) {
    |r.queues| == NUM_QUEUES
  }

  const EMPTY_QUEUE: Queue := Queue(0, 0, 0, 0, 0)
  const RESET_QUEUES: seq<Queue> := [EMPTY_QUEUE, EMPTY_QUEUE]

  function InitRegs(): (r: Regs)
    ensures ValidRegs(r)
  {
    Regs(0, 0, 0, 0, 0, 0, RESET_QUEUES)
  }

  /** (x & ~0xFFFFFFFF) | v */
  function SetLow(x: U64, v: U32): U64 {
    x / TWO32 * TWO32 + v
  }

  /** (x & 0xFFFFFFFF) | (v << 32) */
  function SetHigh(x: U64, v: U32): U64 {
    x % TWO32 + v * TWO32
  }

  /** x & ~y */
  function AndNot(x: U32, y: U32): (r: U32)
    ensures r <= x
    decreases x
  {
    if x == 0 then 0
    else (if x % 2 == 1 && y % 2 == 0 then 1 else 0) + 2 * AndNot(x / 2, y / 2)
  }

  predicate IsQueueReg(off: nat) {
    off in {QUEUE_NUM, QUEUE_READY, QUEUE_DESC_LOW, QUEUE_DESC_HIGH,
            QUEUE_DRIVER_LOW, QUEUE_DRIVER_HIGH, QUEUE_DEVICE_LOW, QUEUE_DEVICE_HIGH}
  }

  function WriteQueue(q: Queue, off: nat, v: U32): Queue {
    if off == QUEUE_NUM then q.(num := v)
    else if off == QUEUE_READY then q.(ready := v)
    else if off == QUEUE_DESC_LOW then q.(desc := SetLow(q.desc, v))
    else if off == QUEUE_DESC_HIGH then q.(desc := SetHigh(q.desc, v))
    else if off == QUEUE_DRIVER_LOW then q.(driver := SetLow(q.driver, v))
    else if off == QUEUE_DRIVER_HIGH then q.(driver := SetHigh(q.driver, v))
    else if off == QUEUE_DEVICE_LOW then q.(device := SetLow(q.device, v))
    else if off == QUEUE_DEVICE_HIGH then q.(device := SetHigh(q.device, v))
    else q
  }

  /** The registers after one write. */
  function Step(r: Regs, w: Write): (r': Regs)
    requires ValidRegs(r)
    ensures ValidRegs(r')
  {
    if w.off == DEVICE_FEATURES_SEL then r.(devFeaturesSel := w.val)
    else if w.off == DRIVER_FEATURES_SEL then r.(drvFeaturesSel := w.val)
    else if w.off == DRIVER_FEATURES then
      if r.drvFeaturesSel == 0 then r.(drvFeatures := SetLow(r.drvFeatures, w.val))
      else if r.drvFeaturesSel == 1 then r.(drvFeatures := SetHigh(r.drvFeatures, w.val))
      else r
    else if w.off == QUEUE_SEL then r.(sel := w.val)
    else if IsQueueReg(w.off) then
      if r.sel < NUM_QUEUES then r.(queues := r.queues[r.sel := WriteQueue(r.queues[r.sel], w.off, w.val)]) else r
    else if w.off == INTERRUPT_ACK then r.(irq := AndNot(r.irq, w.val))
    else if w.off == STATUS then
      if w.val == 0 then r.(status := 0, queues := RESET_QUEUES, drvFeatures := 0, irq := 0) else r.(status := w.val)
    else r
  }

  /** The registers after a whole history of writes. */
  function After(r: Regs, ws: seq<Write>): (r': Regs)
    requires ValidRegs(r)
    ensures ValidRegs(r')
  {
    if ws == [] then r else Step(After(r, ws[..|ws| - 1]), ws[|ws| - 1])
  }

  // ---- What the driver can rely on ----------------------------------------

  predicate IsReset(w: Write) {
    w.off == STATUS && w.val == 0
  }

  predicate HasReset(ws: seq<Write>) {
    exists j | 0 <= j < |ws| :: IsReset(ws[j])
  }

  /** The most recent value written to off, or what was there before. */
  ghost function LastTo(ws: seq<Write>, off: nat, before: U32): U32 {
    if ws == [] then before
    else if ws[|ws| - 1].off == off then ws[|ws| - 1].val
    else LastTo(ws[..|ws| - 1], off, before)
  }

  /** A register there are several of: the one at off while the register selector holds index. */
  datatype Reg = Reg(off: nat, selector: nat, index: nat)

  /** ws[i] is the write that g shows, where sel is what the selector held before: made while g was
      selected, with no later such write and no later reset. */
  ghost predicate Shows(ws: seq<Write>, sel: U32, g: Reg, i: nat) {
    && i < |ws| && ws[i].off == g.off && LastTo(ws[..i], g.selector, sel) == g.index
    && forall j | i < j < |ws| ::
         !IsReset(ws[j]) && !(ws[j].off == g.off && LastTo(ws[..j], g.selector, sel) == g.index)
  }

  /** v is what the specification says g holds after ws, if it held before earlier. */
  ghost predicate ReadsBack(ws: seq<Write>, sel: U32, g: Reg, before: int, v: int) {
    && (forall i: nat | Shows(ws, sel, g, i) :: v == ws[i].val)
    && ((forall i: nat :: !Shows(ws, sel, g, i)) ==> v == if HasReset(ws) then 0 else before)
  }

  /** The same value, found by scanning the history backwards. */
  ghost function LastVal(ws: seq<Write>, sel: U32, g: Reg, before: int): int {
    if ws == [] then before
    else
      var w, prev := ws[|ws| - 1], ws[..|ws| - 1];
      if IsReset(w) then 0
      else if w.off == g.off && LastTo(prev, g.selector, sel) == g.index then w.val
      else LastVal(prev, sel, g, before)
  }

  lemma ShowsStep(ws: seq<Write>, sel: U32, g: Reg, i: nat)
    requires ws != [] && i < |ws| - 1
    ensures Shows(ws, sel, g, i) <==>
      Shows(ws[..|ws| - 1], sel, g, i) && !IsReset(ws[|ws| - 1]) && !(ws[|ws| - 1].off == g.off &&
        LastTo(ws[..|ws| - 1], g.selector, sel) == g.index)
  {
    hide LastTo;
    var prev := ws[..|ws| - 1];
    assert forall j | 0 <= j <= |prev| :: prev[..j] == ws[..j];
    assert ws[..|ws| - 1] == prev;
  }

  lemma HasResetStep(ws: seq<Write>)
    requires ws != []
    ensures HasReset(ws) <==> HasReset(ws[..|ws| - 1]) || IsReset(ws[|ws| - 1])
  {
    hide IsReset;
    assert forall j | 0 <= j < |ws| - 1 :: ws[..|ws| - 1][j] == ws[j];
  }

  lemma {:induction false} LastValReadsBack(ws: seq<Write>, sel: U32, g: Reg, before: int)
    requires g.off != STATUS
    ensures ReadsBack(ws, sel, g, before, LastVal(ws, sel, g, before))
  {
    if ws != [] {
      var n := |ws| - 1;
      var prev := ws[..n];
      LastValReadsBack(prev, sel, g, before);
      HasResetStep(ws);
      forall i: nat | i < n
        ensures Shows(ws, sel, g, i) <==>
          Shows(prev, sel, g, i) && !IsReset(ws[n]) && !(ws[n].off == g.off && LastTo(prev, g.selector, sel) == g.index)
      {
        ShowsStep(ws, sel, g, i);
      }
      hide LastTo, HasReset;
      if !IsReset(ws[n]) && ws[n].off == g.off && LastTo(prev, g.selector, sel) == g.index {
        assert Shows(ws, sel, g, n);
      } else {
        assert forall i: nat :: Shows(ws, sel, g, i) ==> i < n;
        if !IsReset(ws[n]) && forall i: nat :: !Shows(ws, sel, g, i) {
          assert forall i: nat :: !Shows(prev, sel, g, i);
        }
      }
    }
  }

  lemma Halves(x: U64, v: U32)
    ensures SetLow(x, v) % TWO32 == v && SetLow(x, v) / TWO32 == x / TWO32
    ensures SetHigh(x, v) % TWO32 == x % TWO32 && SetHigh(x, v) / TWO32 == v
  {
  }

  // ---- Queue registers ----------------------------------------------------

  ghost predicate QueueIs(k: Queue, ws: seq<Write>, sel: U32, q: nat, k0: Queue) {
    && k.num == LastVal(ws, sel, Reg(QUEUE_NUM, QUEUE_SEL, q), k0.num)
    && k.ready == LastVal(ws, sel, Reg(QUEUE_READY, QUEUE_SEL, q), k0.ready)
    && k.desc % TWO32 == LastVal(ws, sel, Reg(QUEUE_DESC_LOW, QUEUE_SEL, q), k0.desc % TWO32)
    && k.desc / TWO32 == LastVal(ws, sel, Reg(QUEUE_DESC_HIGH, QUEUE_SEL, q), k0.desc / TWO32)
    && k.driver % TWO32 == LastVal(ws, sel, Reg(QUEUE_DRIVER_LOW, QUEUE_SEL, q), k0.driver % TWO32)
    && k.driver / TWO32 == LastVal(ws, sel, Reg(QUEUE_DRIVER_HIGH, QUEUE_SEL, q), k0.driver / TWO32)
    && k.device % TWO32 == LastVal(ws, sel, Reg(QUEUE_DEVICE_LOW, QUEUE_SEL, q), k0.device % TWO32)
    && k.device / TWO32 == LastVal(ws, sel, Reg(QUEUE_DEVICE_HIGH, QUEUE_SEL, q), k0.device / TWO32)
  }

  lemma {:induction false} QueueTracks(r: Regs, ws: seq<Write>, q: nat)
    requires ValidRegs(r) && q < NUM_QUEUES
    ensures After(r, ws).sel == LastTo(ws, QUEUE_SEL, r.sel)
    ensures QueueIs(After(r, ws).queues[q], ws, r.sel, q, r.queues[q])
  {
    if ws != [] {
      var w, prev := ws[|ws| - 1], ws[..|ws| - 1];
      QueueTracks(r, prev, q);
      var u := After(r, prev);
      if IsQueueReg(w.off) && u.sel == q {
        QueueWrite(u.queues[q], ws, r.sel, q, r.queues[q]);
      }
    }
  }

  lemma QueueWrite(k: Queue, ws: seq<Write>, sel: U32, q: nat, k0: Queue)
    requires ws != [] && QueueIs(k, ws[..|ws| - 1], sel, q, k0) && IsQueueReg(ws[|ws| - 1].off) &&
      LastTo(ws[..|ws| - 1], QUEUE_SEL, sel) == q
    ensures QueueIs(WriteQueue(k, ws[|ws| - 1].off, ws[|ws| - 1].val), ws, sel, q, k0)
  {
    hide LastTo, SetLow, SetHigh;
    var v := ws[|ws| - 1].val;
    Halves(k.desc, v);
    Halves(k.driver, v);
    Halves(k.device, v);
  }

  /** From any registers and after any sequence of writes each queue's size, ready flag and both halves
      of its three addresses are what was last written to them while that queue was selected and since
      the last reset; nothing else touches them. */
  lemma RegistersReadBack(r: Regs, ws: seq<Write>, q: nat)
    requires ValidRegs(r) && q < NUM_QUEUES
    ensures var k0, k := r.queues[q], After(r, ws).queues[q];
      && ReadsBack(ws, r.sel, Reg(QUEUE_NUM, QUEUE_SEL, q), k0.num, k.num)
      && ReadsBack(ws, r.sel, Reg(QUEUE_READY, QUEUE_SEL, q), k0.ready, k.ready)
      && ReadsBack(ws, r.sel, Reg(QUEUE_DESC_LOW, QUEUE_SEL, q), k0.desc % TWO32, k.desc % TWO32)
      && ReadsBack(ws, r.sel, Reg(QUEUE_DESC_HIGH, QUEUE_SEL, q), k0.desc / TWO32, k.desc / TWO32)
      && ReadsBack(ws, r.sel, Reg(QUEUE_DRIVER_LOW, QUEUE_SEL, q), k0.driver % TWO32, k.driver % TWO32)
      && ReadsBack(ws, r.sel, Reg(QUEUE_DRIVER_HIGH, QUEUE_SEL, q), k0.driver / TWO32, k.driver / TWO32)
      && ReadsBack(ws, r.sel, Reg(QUEUE_DEVICE_LOW, QUEUE_SEL, q), k0.device % TWO32, k.device % TWO32)
      && ReadsBack(ws, r.sel, Reg(QUEUE_DEVICE_HIGH, QUEUE_SEL, q), k0.device / TWO32, k.device / TWO32)
  {
    hide After, LastVal, LastTo, ReadsBack;
    QueueTracks(r, ws, q);
    var k := r.queues[q];
    LastValReadsBack(ws, r.sel, Reg(QUEUE_NUM, QUEUE_SEL, q), k.num);
    LastValReadsBack(ws, r.sel, Reg(QUEUE_READY, QUEUE_SEL, q), k.ready);
    LastValReadsBack(ws, r.sel, Reg(QUEUE_DESC_LOW, QUEUE_SEL, q), k.desc % TWO32);
    LastValReadsBack(ws, r.sel, Reg(QUEUE_DESC_HIGH, QUEUE_SEL, q), k.desc / TWO32);
    LastValReadsBack(ws, r.sel, Reg(QUEUE_DRIVER_LOW, QUEUE_SEL, q), k.driver % TWO32);
    LastValReadsBack(ws, r.sel, Reg(QUEUE_DRIVER_HIGH, QUEUE_SEL, q), k.driver / TWO32);
    LastValReadsBack(ws, r.sel, Reg(QUEUE_DEVICE_LOW, QUEUE_SEL, q), k.device % TWO32);
    LastValReadsBack(ws, r.sel, Reg(QUEUE_DEVICE_HIGH, QUEUE_SEL, q), k.device / TWO32);
    hide QueueIs;
  }

  // ---- Features, status and selectors -------------------------------------

  const FEATURES_LOW: Reg := Reg(DRIVER_FEATURES, DRIVER_FEATURES_SEL, 0)
  const FEATURES_HIGH: Reg := Reg(DRIVER_FEATURES, DRIVER_FEATURES_SEL, 1)

  lemma {:induction false} FeaturesTrack(r: Regs, ws: seq<Write>)
    requires ValidRegs(r)
    ensures After(r, ws).drvFeaturesSel == LastTo(ws, DRIVER_FEATURES_SEL, r.drvFeaturesSel)
    ensures var x := After(r, ws).drvFeatures;
      && x % TWO32 == LastVal(ws, r.drvFeaturesSel, FEATURES_LOW, r.drvFeatures % TWO32)
      && x / TWO32 == LastVal(ws, r.drvFeaturesSel, FEATURES_HIGH, r.drvFeatures / TWO32)
  {
    if ws != [] {
      FeaturesTrack(r, ws[..|ws| - 1]);
      Halves(After(r, ws[..|ws| - 1]).drvFeatures, ws[|ws| - 1].val);
      hide SetLow, SetHigh;
    }
  }

  /** The low half of the driver's features is the last value written to the features register while
      selector 0 was chosen, the high half the last one with selector 1, since the last reset; writes
      under any other selector change nothing. */
  lemma FeaturesReadBack(r: Regs, ws: seq<Write>)
    requires ValidRegs(r)
    ensures var x0, x := r.drvFeatures, After(r, ws).drvFeatures;
      && ReadsBack(ws, r.drvFeaturesSel, Reg(DRIVER_FEATURES, DRIVER_FEATURES_SEL, 0), x0 % TWO32, x % TWO32)
      && ReadsBack(ws, r.drvFeaturesSel, Reg(DRIVER_FEATURES, DRIVER_FEATURES_SEL, 1), x0 / TWO32, x / TWO32)
  {
    hide After, LastVal, LastTo, ReadsBack;
    FeaturesTrack(r, ws);
    LastValReadsBack(ws, r.drvFeaturesSel, FEATURES_LOW, r.drvFeatures % TWO32);
    LastValReadsBack(ws, r.drvFeaturesSel, FEATURES_HIGH, r.drvFeatures / TWO32);
  }

  /** ws[i] is the last write to off. */
  ghost predicate LastAt(ws: seq<Write>, off: nat, i: nat) {
    i < |ws| && ws[i].off == off && forall j | i < j < |ws| :: ws[j].off != off
  }

  /** v is the last value ever written to off, or what was there before. */
  ghost predicate IsLast(ws: seq<Write>, off: nat, before: U32, v: U32) {
    || (exists i: nat :: LastAt(ws, off, i) && ws[i].val == v)
    || (v == before && forall j | 0 <= j < |ws| :: ws[j].off != off)
  }

  lemma {:induction false} LastToIs(ws: seq<Write>, off: nat, before: U32)
    ensures IsLast(ws, off, before, LastTo(ws, off, before))
  {
    if ws != [] {
      var n := |ws| - 1;
      LastToIs(ws[..n], off, before);
      assert forall j | 0 <= j < n :: ws[..n][j] == ws[j];
      if ws[n].off == off {
        assert LastAt(ws, off, n);
      } else if i: nat :| LastAt(ws[..n], off, i) && ws[..n][i].val == LastTo(ws[..n], off, before) {
        assert LastAt(ws, off, i);
      }
    }
  }

  lemma {:induction false} PlainTrack(r: Regs, ws: seq<Write>)
    requires ValidRegs(r)
    ensures var u := After(r, ws);
      && u.status == LastTo(ws, STATUS, r.status) && u.sel == LastTo(ws, QUEUE_SEL, r.sel)
      && u.devFeaturesSel == LastTo(ws, DEVICE_FEATURES_SEL, r.devFeaturesSel)
      && u.drvFeaturesSel == LastTo(ws, DRIVER_FEATURES_SEL, r.drvFeaturesSel)
  {
    if ws != [] {
      PlainTrack(r, ws[..|ws| - 1]);
      hide SetLow, SetHigh, WriteQueue, AndNot;
    }
  }

  /** Status and the three selectors hold the last value written to them; a reset clears no selector. */
  lemma SelectorsReadBack(r: Regs, ws: seq<Write>)
    requires ValidRegs(r)
    ensures var u := After(r, ws);
      && IsLast(ws, STATUS, r.status, u.status) && IsLast(ws, QUEUE_SEL, r.sel, u.sel)
      && IsLast(ws, DEVICE_FEATURES_SEL, r.devFeaturesSel, u.devFeaturesSel)
      && IsLast(ws, DRIVER_FEATURES_SEL, r.drvFeaturesSel, u.drvFeaturesSel)
  {
    hide After, LastTo, IsLast;
    PlainTrack(r, ws);
    LastToIs(ws, STATUS, r.status);
    LastToIs(ws, QUEUE_SEL, r.sel);
    LastToIs(ws, DEVICE_FEATURES_SEL, r.devFeaturesSel);
    LastToIs(ws, DRIVER_FEATURES_SEL, r.drvFeaturesSel);
  }

  // ---- Interrupt status ---------------------------------------------------

  lemma {:induction false} AndNotBits(x: U32, y: U32, k: nat)
    ensures TestBit(AndNot(x, y), k) <==> TestBit(x, k) && !TestBit(y, k)
  {
    if x == 0 {
      ZeroHasNoBits(k);
    } else if k > 0 {
      AndNotBits(x / 2, y / 2, k - 1);
    }
  }

  /** Write w takes interrupt bit k away. */
  predicate Clears(w: Write, k: nat) {
    IsReset(w) || (w.off == INTERRUPT_ACK && TestBit(w.val, k))
  }

  /** A pending interrupt bit stays until it is acknowledged or the device is reset, and no write sets
      one. */
  lemma {:induction false} PendingUntilAcked(r: Regs, ws: seq<Write>, k: nat)
    requires ValidRegs(r)
    ensures TestBit(After(r, ws).irq, k) <==> TestBit(r.irq, k) && forall i | 0 <= i < |ws| :: !Clears(ws[i], k)
  {
    if ws != [] {
      var n := |ws| - 1;
      var u := After(r, ws[..n]);
      PendingUntilAcked(r, ws[..n], k);
      assert forall i | 0 <= i < n :: ws[..n][i] == ws[i];
      AndNotBits(u.irq, ws[n].val, k);
      ZeroHasNoBits(k);
      hide SetLow, SetHigh, WriteQueue, AndNot, TestBit, After;
      assert After(r, ws) == Step(u, ws[n]) by {
        AfterSnoc(r, ws);
      }
    }
  }

  lemma AfterSnoc(r: Regs, ws: seq<Write>)
    requires ValidRegs(r) && ws != []
    ensures After(r, ws) == Step(After(r, ws[..|ws| - 1]), ws[|ws| - 1])
  {
  }

  // ---- Decoding a bus access ----------------------------------------------

  /** memcpy of at most four bytes into a zeroed uint32_t. */
  function Value(data: seq<Byte>): U32 {
    var d := data + [0, 0, 0, 0];
    Get32(d, 0)
  }

  /** An access of any width carries its first four bytes, least significant first; missing ones are
      zero. */
  lemma ValueBytes(data: seq<Byte>, k: nat)
    requires k < 4
    ensures Put32(Value(data))[k] == if k < |data| then data[k] else 0
  {
    var d := data + [0, 0, 0, 0];
    var lo, hi := Get16(d, 0), Get16(d, 2);
    assert Value(data) % TWO16 == lo && Value(data) / TWO16 == hi by {
      DivModUnique(TWO16, hi, lo);
    }
    assert lo % 256 == d[0] && lo / 256 == d[1] by {
      DivModUnique(256, d[1], d[0]);
    }
    assert hi % 256 == d[2] && hi / 256 == d[3] by {
      DivModUnique(256, d[3], d[2]);
    }
    assert Put32(Value(data)) == [d[0], d[1], d[2], d[3]];
    hide Value, Put32, Get16;
  }

  /** Four-byte accesses carry the value the driver put in them. */
  lemma ValueRoundTrip(v: U32)
    ensures Value(Put32(v)) == v
  {
    var d := Put32(v) + [0, 0, 0, 0];
    assert d[0] == Put32(v)[0] && d[1] == Put32(v)[1] && d[2] == Put32(v)[2] && d[3] == Put32(v)[3];
  }
}
