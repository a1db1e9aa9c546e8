/** The virtio-net thread against a concurrent guest driver. A step is one action of the thread,
    one action of the driver, or a packet arriving on the TAP; a run is any sequence of steps.
    The logs kept beside guest memory are unbounded; the 16-bit indices in memory are not. */
module NetDataPath {
  import opened Bytes
  import opened Virtqueue

  /** Queue addresses, queue sizes and the largest packet the TAP hands over. */
  datatype Config = Config(ram: nat, txq: Queue, rxq: Queue, maxPkt: nat)

  predicate SizeOk(num: nat) {
    1 <= num <= 256 && TWO16 % num == 0
  }

  predicate Disjoint(b1: nat, n1: nat, b2: nat, n2: nat) {
    b1 + n1 <= b2 || b2 + n2 <= b1
  }

  /** Power-of-two queues inside RAM whose used rings overlap no other ring. */
  predicate ValidConfig(c: Config) {
    && Fits(c.ram, c.txq) && Fits(c.ram, c.rxq) && SizeOk(c.txq.num) && SizeOk(c.rxq.num)
    && Disjoint(c.txq.device, 4 + 8 * c.txq.num, c.rxq.device, 4 + 8 * c.rxq.num)
    && Disjoint(c.txq.device, 4 + 8 * c.txq.num, c.txq.driver, 4 + 2 * c.txq.num)
    && Disjoint(c.txq.device, 4 + 8 * c.txq.num, c.rxq.driver, 4 + 2 * c.rxq.num)
    && Disjoint(c.rxq.device, 4 + 8 * c.rxq.num, c.txq.driver, 4 + 2 * c.txq.num)
    && Disjoint(c.rxq.device, 4 + 8 * c.rxq.num, c.rxq.driver, 4 + 2 * c.rxq.num)
    && c.maxPkt <= PKT_BUF
  }

  /** Everything that ever went through a queue: heads made available, completions, and how many
      completions the driver has taken back. */
  datatype Log = Log(heads: seq<U16>, done: seq<UsedElem>, reclaimed: nat)

  datatype Pc =
    | TxHead
    | TxGather(head: U16, cur: U16, chain: nat, out: seq<Byte>)
    | TxSend(head: U16, out: seq<Byte>)
    | TxElem(head: U16)
    | TxIdx(head: U16)
    | RxHead
    | RxFill(pkt: seq<Byte>)
    | RxElem(head: U16, pkt: seq<Byte>)
    | RxIdx(head: U16, pkt: seq<Byte>)

  /** txPackets: what each available TX chain held when it was published. tapOut: frames written
      to the TAP. tapIn: packets waiting on the TAP. arrived: every packet that ever did.
      delivered: packets completed into RX chains. */
  datatype State = State(
    m: Memory,
    txLast: U16, rxLast: U16, pc: Pc,
    tx: Log, rx: Log,
    txPackets: seq<seq<Byte>>, tapOut: seq<seq<Byte>>,
    tapIn: seq<seq<Byte>>, arrived: seq<seq<Byte>>, delivered: seq<seq<Byte>>)

  function Avail(g: Log): nat { |g.heads| }
  function Used(g: Log): nat { |g.done| }

  // ---- The thread ---------------------------------------------------------

  function Next16(x: U16): U16 {
    (x + 1) % TWO16
  }

  /** Memory accesses of the current action stay inside RAM. */
  predicate StepOk(c: Config, s: State) {
    && Fits(|s.m|, c.txq) && Fits(|s.m|, c.rxq)
    && (s.pc.TxGather? ==> s.pc.chain <= MAX_CHAIN)
    && (s.pc.TxGather? && s.pc.chain < MAX_CHAIN ==> EndsInRam(s.m, DescAt(s.m, c.txq, s.pc.cur % c.txq.num)))
    && (s.pc.RxFill? ==> RxInRam(s.m, c.rxq, AvailHead(s.m, c.rxq, s.rxLast % c.rxq.num), s.pc.pkt))
    && (s.pc.RxElem? || s.pc.RxIdx? ==> NET_HDR + |s.pc.pkt| < TWO32)
  }

  function DeviceStep(c: Config, s: State): State
    requires StepOk(c, s)
  {
    match s.pc
    case TxHead =>
      if s.txLast != AvailIdx(s.m, c.txq) then
        var head := AvailHead(s.m, c.txq, s.txLast % c.txq.num);
        s.(pc := TxGather(head, head, 0, []))
      else s.(pc := RxHead)
    case TxGather(head, cur, chain, out) =>
      if chain == MAX_CHAIN then s.(pc := TxSend(head, out))
      else
        var d := DescAt(s.m, c.txq, cur % c.txq.num);
        var out' := Append(s.m, d, out);
        s.(pc := if HasNext(d) then TxGather(head, d.next, chain + 1, out') else TxSend(head, out'))
    case TxSend(head, out) =>
      s.(tapOut := s.tapOut + Frame(out), pc := TxElem(head))
    case TxElem(head) =>
      s.(m := WriteUsedElem(s.m, c.txq, UsedIdx(s.m, c.txq) % c.txq.num, UsedElem(head, 0)), pc := TxIdx(head))
    case TxIdx(head) =>
      s.(m := WriteUsedIdx(s.m, c.txq, Next16(UsedIdx(s.m, c.txq))), txLast := Next16(s.txLast),
         tx := s.tx.(done := s.tx.done + [UsedElem(head, 0)]), pc := TxHead)
    case RxHead =>
      if s.rxLast != AvailIdx(s.m, c.rxq) && s.tapIn != [] then
        s.(tapIn := s.tapIn[1..], pc := RxFill(s.tapIn[0]))
      else s.(pc := TxHead)
    case RxFill(pkt) =>
      var head := AvailHead(s.m, c.rxq, s.rxLast % c.rxq.num);
      var f := Scatter(s.m, c.rxq, head, pkt);
      s.(m := f.m, pc := if f.total > 0 then RxElem(head, pkt) else TxHead)
    case RxElem(head, pkt) =>
      s.(m := WriteUsedElem(s.m, c.rxq, UsedIdx(s.m, c.rxq) % c.rxq.num, UsedElem(head, NET_HDR + |pkt|)),
         pc := RxIdx(head, pkt))
    case RxIdx(head, pkt) =>
      s.(m := WriteUsedIdx(s.m, c.rxq, Next16(UsedIdx(s.m, c.rxq))), rxLast := Next16(s.rxLast),
         rx := s.rx.(done := s.rx.done + [UsedElem(head, NET_HDR + |pkt|)]),
         delivered := s.delivered + [pkt], pc := RxHead)
  }

  /** What goes to the TAP for one gathered chain. */
  function Frame(packet: seq<Byte>): seq<seq<Byte>> {
    if |packet| > NET_HDR then [packet[NET_HDR..]] else []
  }

  /** How many of the first n packets have something after the header. */
  ghost function Carrying(packets: seq<seq<Byte>>, n: nat): (k: nat)
    requires n <= |packets|
  {
    if n == 0 then 0 else Carrying(packets, n - 1) + if |packets[n - 1]| > NET_HDR then 1 else 0
  }

  /** Packet k without its 12-byte header is the frame right after those of the packets before it. */
  ghost predicate Framed(out: seq<seq<Byte>>, packets: seq<seq<Byte>>, k: nat)
    requires k < |packets| && |packets[k]| > 12
  {
    Carrying(packets, k) < |out| && out[Carrying(packets, k)] == packets[k][12..]
  }

  /** The frames out are the first n packets without their 12-byte headers, in order, one for each
      packet that has something after its header and no others. */
  ghost predicate OnTap(out: seq<seq<Byte>>, packets: seq<seq<Byte>>, n: nat)
    requires n <= |packets|
  {
    && |out| == Carrying(packets, n)
    && forall k | 0 <= k < n && |packets[k]| > 12 :: Framed(out, packets, k)
  }

  // ---- The driver ---------------------------------------------------------

  predicate HostOwned(c: Config, a: int) {
    InUsed(c.txq, a) || InUsed(c.rxq, a)
  }

  predicate Rings(c: Config, a: int) {
    InAvail(c.txq, a) || InAvail(c.rxq, a) || HostOwned(c, a)
  }

  /** What the driver owes for the chains the device may still work on: TX chains inside RAM and
      clear of the used rings and of RX buffers; RX chains of a supported layout whose buffers
      overlap neither rings, nor descriptors, nor each other. */
  ghost predicate DriverOk(c: Config, m: Memory, tx: Log, rx: Log)
    requires Fits(|m|, c.txq) && Fits(|m|, c.rxq)
  {
    && (forall k | Used(tx) <= k < Avail(tx) :: ChainInRam(m, c.txq, tx.heads[k], MAX_CHAIN))
    && (forall k, a | Used(tx) <= k < Avail(tx) && TxTouches(m, c.txq, tx.heads[k], MAX_CHAIN, a) :: !HostOwned(c, a))
    && (forall k, j, a | Used(tx) <= k < Avail(tx) && TxTouches(m, c.txq, tx.heads[k], MAX_CHAIN, a) &&
          rx.reclaimed <= j < Avail(rx) ::
          !RxWrites(m, c.rxq, rx.heads[j], a))
    && (forall j | rx.reclaimed <= j < Avail(rx) :: RxSupported(m, c.rxq, rx.heads[j], c.maxPkt))
    && (forall j, a | rx.reclaimed <= j < Avail(rx) && RxReads(m, c.rxq, rx.heads[j], a) :: !HostOwned(c, a))
    && (forall j, a | rx.reclaimed <= j < Avail(rx) && RxWrites(m, c.rxq, rx.heads[j], a) :: !Rings(c, a))
    && (forall i, j, a | rx.reclaimed <= i < Avail(rx) && RxReads(m, c.rxq, rx.heads[i], a) &&
          rx.reclaimed <= j < Avail(rx) ::
          !RxWrites(m, c.rxq, rx.heads[j], a))
    && (forall i, j, a | rx.reclaimed <= i < j < Avail(rx) && RxWrites(m, c.rxq, rx.heads[i], a) ::
          !RxWrites(m, c.rxq, rx.heads[j], a))
  }

  /** g' is g after the driver took completions back and published more heads, at most num outstanding. */
  ghost predicate Posted(q: Queue, g: Log, g': Log) {
    && g'.done == g.done
    && g.heads <= g'.heads
    && g.reclaimed <= g'.reclaimed <= Used(g)
    && Avail(g') <= g'.reclaimed + q.num
  }

  /** The available ring lists the heads the device has not completed, and the index counts them all. */
  ghost predicate AvailOk(m: Memory, q: Queue, g: Log)
    requires Fits(|m|, q)
  {
    && AvailIdx(m, q) == Avail(g) % TWO16
    && forall k | Used(g) <= k < Avail(g) :: AvailHead(m, q, Slot(q, k)) == g.heads[k]
  }

  ghost predicate DriverStep(c: Config, s: State, s': State)
    requires Fits(|s.m|, c.txq) && Fits(|s.m|, c.rxq)
  {
    && s' == s.(m := s'.m, tx := s'.tx, rx := s'.rx, txPackets := s'.txPackets)
    && |s'.m| == |s.m|
    && Posted(c.txq, s.tx, s'.tx) && Posted(c.rxq, s.rx, s'.rx)
    && AvailOk(s'.m, c.txq, s'.tx) && AvailOk(s'.m, c.rxq, s'.rx)
    && DriverOk(c, s'.m, s'.tx, s'.rx)
    // It leaves the used rings and every outstanding chain alone.
    && (forall a | 0 <= a < |s.m| && HostOwned(c, a) :: s'.m[a] == s.m[a])
    && (forall k, a | Used(s.tx) <= k < Avail(s.tx) && 0 <= a < |s.m| &&
          TxTouches(s.m, c.txq, s.tx.heads[k], MAX_CHAIN, a) ::
          s'.m[a] == s.m[a])
    && (forall k, a | s'.rx.reclaimed <= k < Avail(s.rx) && 0 <= a < |s.m| &&
          (RxReads(s.m, c.rxq, s.rx.heads[k], a) || RxWrites(s.m, c.rxq, s.rx.heads[k], a)) :: s'.m[a] == s.m[a])
    // A packet is what its chain holds when it is published.
    && s.txPackets <= s'.txPackets && |s'.txPackets| == Avail(s'.tx)
    && (forall k | |s.txPackets| <= k < Avail(s'.tx) && Used(s'.tx) <= k ::
          s'.txPackets[k] == Gather(s'.m, c.txq, s'.tx.heads[k], MAX_CHAIN, []))
  }

  // ---- Invariant ----------------------------------------------------------

  ghost predicate RingOk(m: Memory, q: Queue, g: Log)
    requires Fits(|m|, q)
  {
    && g.reclaimed <= Used(g) <= Avail(g) <= g.reclaimed + q.num
    && AvailOk(m, q, g)
    && UsedIdx(m, q) == Used(g) % TWO16
    && (forall k | g.reclaimed <= k < Used(g) :: UsedAt(m, q, Slot(q, k)) == g.done[k])
  }

  /** Pending TX chains still hold the packets they were published with. */
  ghost predicate TxContents(c: Config, m: Memory, tx: Log, packets: seq<seq<Byte>>)
    requires Fits(|m|, c.txq)
  {
    && |packets| == Avail(tx)
    && forall k | Used(tx) <= k < Avail(tx) ::
         ChainInRam(m, c.txq, tx.heads[k], MAX_CHAIN) && Gather(m, c.txq, tx.heads[k], MAX_CHAIN, []) == packets[k]
  }

  /** Completed RX chains hold a zero header and their packet until the driver takes them back. */
  ghost predicate RxContents(c: Config, m: Memory, rx: Log, delivered: seq<seq<Byte>>)
    requires Fits(|m|, c.rxq)
  {
    && |delivered| == Used(rx)
    && forall k | rx.reclaimed <= k < Used(rx) && k < Avail(rx) ::
         RxSupported(m, c.rxq, rx.heads[k], 0) && Holds(m, c.rxq, rx.heads[k], delivered[k])
  }

  ghost predicate PcOk(c: Config, s: State)
    requires Fits(|s.m|, c.txq) && Fits(|s.m|, c.rxq)
  {
    var u, v := Used(s.tx), Used(s.rx);
    match s.pc
    case TxHead => true
    case RxHead => true
    case TxGather(head, cur, chain, out) =>
      && u < Avail(s.tx) <= |s.txPackets| && head == s.tx.heads[u] && chain <= MAX_CHAIN
      && ChainInRam(s.m, c.txq, cur, MAX_CHAIN - chain)
      && Gather(s.m, c.txq, cur, MAX_CHAIN - chain, out) == s.txPackets[u]
      && (forall a | TxTouches(s.m, c.txq, cur, MAX_CHAIN - chain, a) :: TxTouches(s.m, c.txq, head, MAX_CHAIN, a))
    case TxSend(head, out) =>
      u < Avail(s.tx) <= |s.txPackets| && head == s.tx.heads[u] && out == s.txPackets[u]
    case TxElem(head) => u < Avail(s.tx) && head == s.tx.heads[u]
    case TxIdx(head) =>
      u < Avail(s.tx) && head == s.tx.heads[u] && UsedAt(s.m, c.txq, Slot(c.txq, u)) == UsedElem(head, 0)
    case RxFill(pkt) => v < Avail(s.rx) && 0 < |pkt| <= c.maxPkt
    case RxElem(head, pkt) =>
      && v < Avail(s.rx) && head == s.rx.heads[v] && 0 < |pkt| <= c.maxPkt
      && RxSupported(s.m, c.rxq, head, 0) && Holds(s.m, c.rxq, head, pkt)
    case RxIdx(head, pkt) =>
      && v < Avail(s.rx) && head == s.rx.heads[v] && 0 < |pkt| <= c.maxPkt < TWO32 - NET_HDR
      && RxSupported(s.m, c.rxq, head, 0) && Holds(s.m, c.rxq, head, pkt)
      && UsedAt(s.m, c.rxq, Slot(c.rxq, v)) == UsedElem(head, NET_HDR + |pkt|)
  }

  /** Chains whose frame has been written: one more than completed between send and completion. */
  ghost function Sent(s: State): nat {
    Used(s.tx) + if s.pc.TxElem? || s.pc.TxIdx? then 1 else 0
  }

  /** The packet the thread has read but not completed. */
  function InFlight(pc: Pc): seq<seq<Byte>> {
    if pc.RxFill? || pc.RxElem? || pc.RxIdx? then [pc.pkt] else []
  }

  /** The used logs name the heads in order, each once, with the right lengths. */
  ghost predicate Fifo(s: State) {
    && Used(s.tx) <= Avail(s.tx) && Used(s.rx) <= Avail(s.rx) && |s.delivered| == Used(s.rx)
    && (forall k | 0 <= k < Used(s.tx) :: s.tx.done[k] == UsedElem(s.tx.heads[k], 0))
    && (forall k | 0 <= k < Used(s.rx) ::
          s.rx.done[k].id == s.rx.heads[k] && s.rx.done[k].len == NET_HDR + |s.delivered[k]|)
  }

  ghost predicate Traffic(c: Config, s: State) {
    && Sent(s) <= |s.txPackets|
    && OnTap(s.tapOut, s.txPackets, Sent(s))
    && s.arrived == s.delivered + InFlight(s.pc) + s.tapIn
    && (forall i | 0 <= i < |s.tapIn| :: 0 < |s.tapIn[i]| <= c.maxPkt)
  }

  /** What holds of memory, indices and logs, wherever the thread is. */
  ghost predicate MemOk(c: Config, m: Memory, txLast: U16, rxLast: U16, tx: Log, rx: Log,
                        packets: seq<seq<Byte>>, delivered: seq<seq<Byte>>)
    requires ValidConfig(c)
  {
    && |m| == c.ram
    && RingOk(m, c.txq, tx) && RingOk(m, c.rxq, rx)
    && txLast == UsedIdx(m, c.txq) && rxLast == UsedIdx(m, c.rxq)
    && DriverOk(c, m, tx, rx)
    && TxContents(c, m, tx, packets)
    && RxContents(c, m, rx, delivered)
  }

  ghost predicate Inv(c: Config, s: State)
    requires ValidConfig(c)
  {
    && MemOk(c, s.m, s.txLast, s.rxLast, s.tx, s.rx, s.txPackets, s.delivered)
    && Fifo(s) && Traffic(c, s) && PcOk(c, s)
  }

  /** Under the invariant every action stays inside RAM. */
  lemma InvStepOk(c: Config, s: State)
    requires ValidConfig(c) && Inv(c, s)
    ensures StepOk(c, s)
  {
    if s.pc.RxFill? {
      WrappedSlotAt(c.rxq.num, Used(s.rx));
      assert RxSupported(s.m, c.rxq, s.rx.heads[Used(s.rx)], c.maxPkt);
    }
  }

  // ---- Steps that leave memory alone --------------------------------------

  lemma {:induction false} CarryingGrows(ps: seq<seq<Byte>>, k: nat, n: nat)
    requires k <= n <= |ps|
    ensures Carrying(ps, k) <= Carrying(ps, n)
    ensures k < n && |ps[k]| > NET_HDR ==> Carrying(ps, k) < Carrying(ps, n)
  {
    if k < n {
      CarryingGrows(ps, k, n - 1);
    }
  }

  /** Packets published later do not matter. */
  lemma {:induction false} CarryingPrefix(ps: seq<seq<Byte>>, ps': seq<seq<Byte>>, n: nat)
    requires ps <= ps' && n <= |ps|
    ensures Carrying(ps', n) == Carrying(ps, n)
  {
    if n > 0 {
      CarryingPrefix(ps, ps', n - 1);
    }
  }

  lemma OnTapPrefix(out: seq<seq<Byte>>, ps: seq<seq<Byte>>, ps': seq<seq<Byte>>, n: nat)
    requires ps <= ps' && n <= |ps| && OnTap(out, ps, n)
    ensures OnTap(out, ps', n)
  {
    forall k | 0 <= k <= n ensures Carrying(ps', k) == Carrying(ps, k) {
      CarryingPrefix(ps, ps', k);
    }
  }

  lemma FramedStays(out: seq<seq<Byte>>, more: seq<seq<Byte>>, ps: seq<seq<Byte>>, k: nat)
    requires k < |ps| && |ps[k]| > 12 && Framed(out, ps, k)
    ensures Framed(out + more, ps, k)
  {
  }

  lemma LastFramed(out: seq<seq<Byte>>, ps: seq<seq<Byte>>, n: nat)
    requires n < |ps| && |ps[n]| > 12 && |out| == Carrying(ps, n)
    ensures Framed(out + Frame(ps[n]), ps, n)
  {
  }

  /** Sending the next packet's frame. */
  lemma OnTapNext(out: seq<seq<Byte>>, ps: seq<seq<Byte>>, n: nat)
    requires n < |ps| && OnTap(out, ps, n)
    ensures OnTap(out + Frame(ps[n]), ps, n + 1)
  {
    forall k | 0 <= k < n && |ps[k]| > 12 ensures Framed(out + Frame(ps[n]), ps, k) {
      FramedStays(out, Frame(ps[n]), ps, k);
    }
    hide Framed;
    if |ps[n]| > 12 {
      LastFramed(out, ps, n);
    }
  }

  lemma TxHeadKeeps(c: Config, s: State)
    requires ValidConfig(c) && Inv(c, s) && s.pc.TxHead? && StepOk(c, s)
    ensures Inv(c, DeviceStep(c, s))
    ensures DeviceStep(c, s).pc.TxGather? <==> Used(s.tx) < Avail(s.tx)
  {
    hide OnTap;
    WrappedCompare(Used(s.tx), Avail(s.tx), c.txq.num);
    WrappedSlotAt(c.txq.num, Used(s.tx));
    assert Used(s.tx) < Avail(s.tx) ==> AvailHead(s.m, c.txq, s.txLast % c.txq.num) == s.tx.heads[Used(s.tx)];
    hide MemOk, AvailHead, AvailIdx;
  }

  lemma TxGatherKeeps(c: Config, s: State)
    requires ValidConfig(c) && Inv(c, s) && s.pc.TxGather? && StepOk(c, s)
    ensures Inv(c, DeviceStep(c, s))
  {
    hide MemOk, OnTap;
  }

  lemma TxSendKeeps(c: Config, s: State)
    requires ValidConfig(c) && Inv(c, s) && s.pc.TxSend? && StepOk(c, s)
    ensures Inv(c, DeviceStep(c, s))
  {
    hide MemOk, OnTap, Frame;
    OnTapNext(s.tapOut, s.txPackets, Used(s.tx));
  }

  lemma RxHeadKeeps(c: Config, s: State)
    requires ValidConfig(c) && Inv(c, s) && s.pc.RxHead? && StepOk(c, s)
    ensures Inv(c, DeviceStep(c, s))
    ensures DeviceStep(c, s).pc.RxFill? <==> Used(s.rx) < Avail(s.rx) && s.tapIn != []
  {
    hide OnTap;
    RxCompare(c, s);
    hide MemOk, UsedIdx, AvailIdx, Fits, ValidConfig;
    if s.tapIn != [] {
      assert s.delivered + [] + s.tapIn == s.delivered + [s.tapIn[0]] + s.tapIn[1..];
    }
  }

  lemma RxCompare(c: Config, s: State)
    requires ValidConfig(c) && Inv(c, s)
    ensures |s.m| == c.ram
    ensures s.rxLast != AvailIdx(s.m, c.rxq) <==> Used(s.rx) < Avail(s.rx)
  {
    assert Used(s.rx) <= Avail(s.rx) <= Used(s.rx) + c.rxq.num && AvailOk(s.m, c.rxq, s.rx);
    hide DriverOk, TxContents, RxContents, PcOk, Traffic, Fifo;
    WrappedCompare(Used(s.rx), Avail(s.rx), c.rxq.num);
  }

  // ---- Frames for the steps that write memory -----------------------------

  /** Changing nothing the outstanding chains' descriptors and TX buffers depend on. */
  lemma ChainsFrame(c: Config, m: Memory, m': Memory, tx: Log, rx: Log, packets: seq<seq<Byte>>)
    requires Fits(|m|, c.txq) && Fits(|m|, c.rxq) && |m'| == |m|
    requires DriverOk(c, m, tx, rx) && TxContents(c, m, tx, packets)
    requires forall k, a | Used(tx) <= k < Avail(tx) && 0 <= a < |m| &&
      TxTouches(m, c.txq, tx.heads[k], MAX_CHAIN, a) :: m'[a] == m[a]
    requires forall j, a | rx.reclaimed <= j < Avail(rx) && 0 <= a < |m| && RxReads(m, c.rxq, rx.heads[j], a) ::
      m'[a] == m[a]
    ensures DriverOk(c, m', tx, rx) && TxContents(c, m', tx, packets)
  {
    hide ChainInRam, Gather, TxTouches, RxReads, RxWrites, RxSupported, HostOwned, Rings;
    forall k | Used(tx) <= k < Avail(tx)
      ensures ChainInRam(m', c.txq, tx.heads[k], MAX_CHAIN)
      ensures Gather(m', c.txq, tx.heads[k], MAX_CHAIN, []) == packets[k]
      ensures forall a :: TxTouches(m', c.txq, tx.heads[k], MAX_CHAIN, a) == TxTouches(m, c.txq, tx.heads[k],
        MAX_CHAIN, a)
    {
      GatherFrame(m, m', c.txq, tx.heads[k], MAX_CHAIN, []);
    }
    forall j | rx.reclaimed <= j < Avail(rx)
      ensures RxSupported(m', c.rxq, rx.heads[j], c.maxPkt)
      ensures forall a :: RxReads(m', c.rxq, rx.heads[j], a) == RxReads(m, c.rxq, rx.heads[j], a)
      ensures forall a :: RxWrites(m', c.rxq, rx.heads[j], a) == RxWrites(m, c.rxq, rx.heads[j], a)
    {
      RxFrame(m, m', c.rxq, rx.heads[j], c.maxPkt);
    }
  }

  lemma RxContentsFrame(c: Config, m: Memory, m': Memory, rx: Log, delivered: seq<seq<Byte>>)
    requires Fits(|m|, c.rxq) && |m'| == |m| && RxContents(c, m, rx, delivered)
    requires forall k, a | rx.reclaimed <= k < Used(rx) && k < Avail(rx) && 0 <= a < |m| &&
      (RxReads(m, c.rxq, rx.heads[k], a) || RxWrites(m, c.rxq, rx.heads[k], a)) :: m'[a] == m[a]
    ensures RxContents(c, m', rx, delivered)
  {
    hide Holds, RxReads, RxWrites, RxSupported;
    forall k | rx.reclaimed <= k < Used(rx) && k < Avail(rx)
      ensures RxSupported(m', c.rxq, rx.heads[k], 0) && Holds(m', c.rxq, rx.heads[k], delivered[k])
    {
      HoldsFrame(m, m', c.rxq, rx.heads[k], delivered[k]);
    }
  }

  lemma AvailFrame(m: Memory, m': Memory, q: Queue, g: Log)
    requires Fits(|m|, q) && |m'| == |m| && AvailOk(m, q, g)
    requires forall a | 0 <= a < |m| && InAvail(q, a) :: m'[a] == m[a]
    ensures AvailOk(m', q, g)
  {
    forall k | Used(g) <= k < Avail(g) ensures AvailHead(m', q, Slot(q, k)) == g.heads[k] {
      var b := q.driver + 4 + 2 * Slot(q, k);
      assert InAvail(q, b) && InAvail(q, b + 1);
    }
    assert InAvail(q, q.driver + 2) && InAvail(q, q.driver + 3);
  }

  lemma UsedFrame(m: Memory, m': Memory, q: Queue)
    requires Fits(|m|, q) && |m'| == |m|
    requires forall a | 0 <= a < |m| && InUsed(q, a) :: m'[a] == m[a]
    ensures UsedIdx(m', q) == UsedIdx(m, q)
    ensures forall i | 0 <= i < q.num :: UsedAt(m', q, i) == UsedAt(m, q, i)
  {
    assert InUsed(q, q.device + 2) && InUsed(q, q.device + 3);
    forall i | 0 <= i < q.num ensures UsedAt(m', q, i) == UsedAt(m, q, i) {
      var b := q.device + 4 + 8 * i;
      assert InUsed(q, b) && InUsed(q, b + 1) && InUsed(q, b + 2) && InUsed(q, b + 3);
      assert InUsed(q, b + 4) && InUsed(q, b + 5) && InUsed(q, b + 6) && InUsed(q, b + 7);
    }
  }

  lemma OtherRing(m: Memory, m': Memory, q: Queue, g: Log)
    requires Fits(|m|, q) && |m'| == |m| && RingOk(m, q, g)
    requires forall a | 0 <= a < |m| && (InAvail(q, a) || InUsed(q, a)) :: m'[a] == m[a]
    ensures RingOk(m', q, g) && UsedIdx(m', q) == UsedIdx(m, q)
    ensures forall i | 0 <= i < q.num :: UsedAt(m', q, i) == UsedAt(m, q, i)
  {
    AvailFrame(m, m', q, g);
    UsedFrame(m, m', q);
  }

  predicate RingApart(q: Queue) {
    Disjoint(q.device, 4 + 8 * q.num, q.driver, 4 + 2 * q.num)
  }

  /** Writing the completion into the slot of used->idx disturbs no unreclaimed completion. */
  lemma ElemKeepsRing(m: Memory, q: Queue, g: Log, e: UsedElem)
    requires Fits(|m|, q) && SizeOk(q.num) && RingApart(q) && RingOk(m, q, g) && Used(g) < Avail(g)
    ensures var m' := WriteUsedElem(m, q, UsedIdx(m, q) % q.num, e);
      && RingOk(m', q, g) && UsedAt(m', q, Slot(q, Used(g))) == e
      && UsedIdx(m', q) == UsedIdx(m, q)
      && (forall a | 0 <= a < |m| && m'[a] != m[a] :: InUsed(q, a))
  {
    var i := UsedIdx(m, q) % q.num;
    var m' := WriteUsedElem(m, q, i, e);
    WrappedSlotAt(q.num, Used(g));
    WrittenElem(m, q, i, e);
    hide UsedAt, UsedIdx, AvailIdx, AvailHead, WriteUsedElem;
    assert forall a | InAvail(q, a) :: !InUsed(q, a);
    AvailFrame(m, m', q, g);
    forall k | g.reclaimed <= k < Used(g) ensures UsedAt(m', q, Slot(q, k)) == g.done[k] {
      SlotsDistinct(q.num, k, Used(g));
    }
  }

  lemma IdxFrame(m: Memory, q: Queue, g: Log, idx: U16)
    requires Fits(|m|, q) && RingApart(q) && AvailOk(m, q, g)
    ensures var m' := WriteUsedIdx(m, q, idx);
      && AvailOk(m', q, g) && UsedIdx(m', q) == idx
      && (forall j | 0 <= j < q.num :: UsedAt(m', q, j) == UsedAt(m, q, j))
      && (forall a | 0 <= a < |m| && m'[a] != m[a] :: InUsed(q, a))
  {
    var m' := WriteUsedIdx(m, q, idx);
    WrittenIdx(m, q, idx);
    hide UsedAt, UsedIdx, AvailIdx, AvailHead, WriteUsedIdx;
    assert forall a | InAvail(q, a) :: !InUsed(q, a);
    AvailFrame(m, m', q, g);
  }

  lemma NextCount(k: nat)
    ensures Next16(k % TWO16) == (k + 1) % TWO16
  {
  }

  /** The log grows by the completion its next slot already holds. */
  lemma LogGrows(m: Memory, m': Memory, q: Queue, g: Log, e: UsedElem)
    requires Fits(|m|, q) && |m'| == |m| && RingOk(m, q, g) && Used(g) < Avail(g)
    requires UsedAt(m, q, Slot(q, Used(g))) == e
    requires AvailOk(m', q, g) && UsedIdx(m', q) == (Used(g) + 1) % TWO16
    requires forall j | 0 <= j < q.num :: UsedAt(m', q, j) == UsedAt(m, q, j)
    ensures RingOk(m', q, g.(done := g.done + [e]))
  {
    hide UsedAt, UsedIdx, AvailIdx, AvailHead, Slot;
  }

  /** Advancing used->idx publishes the completion. */
  lemma IdxKeepsRing(m: Memory, q: Queue, g: Log, e: UsedElem)
    requires Fits(|m|, q) && RingApart(q) && RingOk(m, q, g) && Used(g) < Avail(g)
    requires UsedAt(m, q, Slot(q, Used(g))) == e
    ensures var m' := WriteUsedIdx(m, q, Next16(UsedIdx(m, q)));
      && RingOk(m', q, g.(done := g.done + [e]))
      && UsedIdx(m', q) == Next16(UsedIdx(m, q))
      && (forall a | 0 <= a < |m| && m'[a] != m[a] :: InUsed(q, a))
  {
    NextCount(Used(g));
    IdxFrame(m, q, g, Next16(UsedIdx(m, q)));
    LogGrows(m, WriteUsedIdx(m, q, Next16(UsedIdx(m, q))), q, g, e);
    hide *;
  }

  /** A write inside the used rings keeps everything but the rings themselves. */
  lemma HostWriteFrame(c: Config, m: Memory, m': Memory, tx: Log, rx: Log, packets: seq<seq<Byte>>,
                       delivered: seq<seq<Byte>>)
    requires Fits(|m|, c.txq) && Fits(|m|, c.rxq) && |m'| == |m|
    requires DriverOk(c, m, tx, rx) && TxContents(c, m, tx, packets) && RxContents(c, m, rx, delivered)
    requires forall a | 0 <= a < |m| && m'[a] != m[a] :: HostOwned(c, a)
    ensures DriverOk(c, m', tx, rx) && TxContents(c, m', tx, packets) && RxContents(c, m', rx, delivered)
  {
    hide TxTouches, RxReads, RxWrites, HostOwned, TxContents, RxContents;
    assert forall a :: HostOwned(c, a) ==> Rings(c, a);
    ChainsFrame(c, m, m', tx, rx, packets);
    RxContentsFrame(c, m, m', rx, delivered);
  }

  /** The chain being completed keeps its packet across a write to the used rings. */
  lemma RxHoldsFrame(c: Config, m: Memory, m': Memory, tx: Log, rx: Log, pkt: seq<Byte>)
    requires Fits(|m|, c.txq) && Fits(|m|, c.rxq) && |m'| == |m|
    requires DriverOk(c, m, tx, rx) && rx.reclaimed <= Used(rx) < Avail(rx)
    requires forall a | 0 <= a < |m| && m'[a] != m[a] :: HostOwned(c, a)
    requires RxSupported(m, c.rxq, rx.heads[Used(rx)], 0) && Holds(m, c.rxq, rx.heads[Used(rx)], pkt)
    ensures RxSupported(m', c.rxq, rx.heads[Used(rx)], 0) && Holds(m', c.rxq, rx.heads[Used(rx)], pkt)
  {
    assert forall a :: HostOwned(c, a) ==> Rings(c, a);
    hide TxTouches, RxReads, RxWrites, HostOwned, Rings, Holds, RxSupported;
    HoldsFrame(m, m', c.rxq, rx.heads[Used(rx)], pkt);
  }

  /** Filling the next RX chain touches nothing else the invariant speaks of. */
  lemma FillFrame(c: Config, m: Memory, m': Memory, txLast: U16, rxLast: U16, tx: Log, rx: Log,
                  packets: seq<seq<Byte>>, delivered: seq<seq<Byte>>)
    requires ValidConfig(c) && MemOk(c, m, txLast, rxLast, tx, rx, packets, delivered)
    requires |m'| == |m| && Used(rx) < Avail(rx)
    requires forall a | 0 <= a < |m| && m'[a] != m[a] :: RxWrites(m, c.rxq, rx.heads[Used(rx)], a)
    ensures MemOk(c, m', txLast, rxLast, tx, rx, packets, delivered)
  {
    assert forall a | 0 <= a < |m| && m'[a] != m[a] :: !Rings(c, a);
    OtherRing(m, m', c.txq, tx);
    OtherRing(m, m', c.rxq, rx);
    hide TxTouches, RxReads, RxWrites, HostOwned, Rings, RingOk, TxContents, RxContents, InUsed, InAvail, UsedIdx,
      UsedAt;
    ChainsFrame(c, m, m', tx, rx, packets);
    RxContentsFrame(c, m, m', rx, delivered);
  }

  /** Completing a TX chain only takes it off the driver's obligations. */
  lemma FewerPending(c: Config, m: Memory, tx: Log, tx': Log, rx: Log, packets: seq<seq<Byte>>)
    requires Fits(|m|, c.txq) && Fits(|m|, c.rxq)
    requires DriverOk(c, m, tx, rx) && TxContents(c, m, tx, packets)
    requires tx'.heads == tx.heads && Used(tx) <= Used(tx')
    ensures DriverOk(c, m, tx', rx) && TxContents(c, m, tx', packets)
  {
    hide ChainInRam, Gather, TxTouches, RxReads, RxWrites, RxSupported, HostOwned, Rings;
  }

  lemma OneMoreDelivered(c: Config, m: Memory, tx: Log, rx: Log, rx': Log, delivered: seq<seq<Byte>>, pkt: seq<Byte>)
    requires Fits(|m|, c.txq) && Fits(|m|, c.rxq)
    requires DriverOk(c, m, tx, rx) && RxContents(c, m, rx, delivered)
    requires Used(rx) < Avail(rx) && rx' == rx.(done := rx'.done) && Used(rx') == Used(rx) + 1
    requires RxSupported(m, c.rxq, rx.heads[Used(rx)], 0) && Holds(m, c.rxq, rx.heads[Used(rx)], pkt)
    ensures DriverOk(c, m, tx, rx') && RxContents(c, m, rx', delivered + [pkt])
  {
    hide ChainInRam, TxTouches, RxReads, RxWrites, RxSupported, HostOwned, Rings, Holds;
  }

  // ---- Steps that write memory --------------------------------------------

  /** A write inside the TX used ring keeps all but that ring. */
  lemma TxUsedWriteFrame(c: Config, m: Memory, m': Memory, tx: Log, rx: Log, packets: seq<seq<Byte>>,
                         delivered: seq<seq<Byte>>)
    requires ValidConfig(c) && |m'| == |m| == c.ram && RingOk(m, c.rxq, rx)
    requires DriverOk(c, m, tx, rx) && TxContents(c, m, tx, packets) && RxContents(c, m, rx, delivered)
    requires forall a | 0 <= a < |m| && m'[a] != m[a] :: InUsed(c.txq, a)
    ensures DriverOk(c, m', tx, rx) && TxContents(c, m', tx, packets) && RxContents(c, m', rx, delivered)
    ensures RingOk(m', c.rxq, rx) && UsedIdx(m', c.rxq) == UsedIdx(m, c.rxq)
  {
    hide DriverOk, TxContents, RxContents, RingOk, UsedIdx, UsedAt;
    HostWriteFrame(c, m, m', tx, rx, packets, delivered);
    OtherRing(m, m', c.rxq, rx);
  }

  lemma TxElemMem(c: Config, m: Memory, txLast: U16, rxLast: U16, tx: Log, rx: Log,
                  packets: seq<seq<Byte>>, delivered: seq<seq<Byte>>, e: UsedElem)
    requires ValidConfig(c) && MemOk(c, m, txLast, rxLast, tx, rx, packets, delivered) && Used(tx) < Avail(tx)
    ensures var m' := WriteUsedElem(m, c.txq, UsedIdx(m, c.txq) % c.txq.num, e);
      MemOk(c, m', txLast, rxLast, tx, rx, packets, delivered) && UsedAt(m', c.txq, Slot(c.txq, Used(tx))) == e
  {
    hide DriverOk, TxContents, RxContents, RingOk, WriteUsedElem, UsedIdx, UsedAt, InUsed, Disjoint;
    var m' := WriteUsedElem(m, c.txq, UsedIdx(m, c.txq) % c.txq.num, e);
    ElemKeepsRing(m, c.txq, tx, e);
    TxUsedWriteFrame(c, m, m', tx, rx, packets, delivered);
  }

  lemma TxIdxMem(c: Config, m: Memory, txLast: U16, rxLast: U16, tx: Log, rx: Log,
                 packets: seq<seq<Byte>>, delivered: seq<seq<Byte>>, e: UsedElem)
    requires ValidConfig(c) && MemOk(c, m, txLast, rxLast, tx, rx, packets, delivered) && Used(tx) < Avail(tx)
    requires UsedAt(m, c.txq, Slot(c.txq, Used(tx))) == e
    ensures MemOk(c, WriteUsedIdx(m, c.txq, Next16(UsedIdx(m, c.txq))), Next16(txLast), rxLast,
                  tx.(done := tx.done + [e]), rx, packets, delivered)
  {
    hide DriverOk, TxContents, RxContents, RingOk, WriteUsedIdx, UsedIdx, UsedAt, InUsed, Disjoint;
    var m' := WriteUsedIdx(m, c.txq, Next16(UsedIdx(m, c.txq)));
    IdxKeepsRing(m, c.txq, tx, e);
    TxUsedWriteFrame(c, m, m', tx, rx, packets, delivered);
    FewerPending(c, m', tx, tx.(done := tx.done + [e]), rx, packets);
  }

  lemma RxElemMem(c: Config, m: Memory, txLast: U16, rxLast: U16, tx: Log, rx: Log,
                  packets: seq<seq<Byte>>, delivered: seq<seq<Byte>>, e: UsedElem, pkt: seq<Byte>)
    requires ValidConfig(c) && MemOk(c, m, txLast, rxLast, tx, rx, packets, delivered) && Used(rx) < Avail(rx)
    requires RxSupported(m, c.rxq, rx.heads[Used(rx)], 0) && Holds(m, c.rxq, rx.heads[Used(rx)], pkt)
    ensures var m' := WriteUsedElem(m, c.rxq, UsedIdx(m, c.rxq) % c.rxq.num, e);
      && MemOk(c, m', txLast, rxLast, tx, rx, packets, delivered) && UsedAt(m', c.rxq, Slot(c.rxq, Used(rx))) == e
      && RxSupported(m', c.rxq, rx.heads[Used(rx)], 0) && Holds(m', c.rxq, rx.heads[Used(rx)], pkt)
  {
    var m' := WriteUsedElem(m, c.rxq, UsedIdx(m, c.rxq) % c.rxq.num, e);
    ElemKeepsRing(m, c.rxq, rx, e);
    hide DriverOk, TxContents, RxContents, WriteUsedElem, UsedIdx, UsedAt, RxSupported, Holds;
    assert forall a | 0 <= a < |m| && m'[a] != m[a] :: HostOwned(c, a);
    RxHoldsFrame(c, m, m', tx, rx, pkt);
    hide RingOk;
    HostWriteFrame(c, m, m', tx, rx, packets, delivered);
    OtherRing(m, m', c.txq, tx);
  }

  lemma RxIdxMem(c: Config, m: Memory, txLast: U16, rxLast: U16, tx: Log, rx: Log,
                 packets: seq<seq<Byte>>, delivered: seq<seq<Byte>>, e: UsedElem, pkt: seq<Byte>)
    requires ValidConfig(c) && MemOk(c, m, txLast, rxLast, tx, rx, packets, delivered) && Used(rx) < Avail(rx)
    requires UsedAt(m, c.rxq, Slot(c.rxq, Used(rx))) == e
    requires RxSupported(m, c.rxq, rx.heads[Used(rx)], 0) && Holds(m, c.rxq, rx.heads[Used(rx)], pkt)
    ensures MemOk(c, WriteUsedIdx(m, c.rxq, Next16(UsedIdx(m, c.rxq))), txLast, Next16(rxLast),
                  tx, rx.(done := rx.done + [e]), packets, delivered + [pkt])
  {
    var m' := WriteUsedIdx(m, c.rxq, Next16(UsedIdx(m, c.rxq)));
    IdxKeepsRing(m, c.rxq, rx, e);
    hide DriverOk, TxContents, RxContents, WriteUsedIdx, UsedIdx, UsedAt, RxSupported, Holds;
    assert forall a | 0 <= a < |m| && m'[a] != m[a] :: HostOwned(c, a);
    RxHoldsFrame(c, m, m', tx, rx, pkt);
    hide RingOk;
    HostWriteFrame(c, m, m', tx, rx, packets, delivered);
    OtherRing(m, m', c.txq, tx);
    OneMoreDelivered(c, m', tx, rx, rx.(done := rx.done + [e]), delivered, pkt);
  }

  lemma TxElemKeeps(c: Config, s: State)
    requires ValidConfig(c) && Inv(c, s) && s.pc.TxElem? && StepOk(c, s)
    ensures Inv(c, DeviceStep(c, s))
  {
    hide MemOk, WriteUsedElem, UsedIdx, UsedAt, OnTap;
    TxElemMem(c, s.m, s.txLast, s.rxLast, s.tx, s.rx, s.txPackets, s.delivered, UsedElem(s.pc.head, 0));
  }

  lemma TxIdxKeeps(c: Config, s: State)
    requires ValidConfig(c) && Inv(c, s) && s.pc.TxIdx? && StepOk(c, s)
    ensures Inv(c, DeviceStep(c, s))
  {
    hide MemOk, WriteUsedIdx, UsedIdx, UsedAt, OnTap;
    TxIdxMem(c, s.m, s.txLast, s.rxLast, s.tx, s.rx, s.txPackets, s.delivered, UsedElem(s.pc.head, 0));
  }

  lemma RxElemKeeps(c: Config, s: State)
    requires ValidConfig(c) && Inv(c, s) && s.pc.RxElem? && StepOk(c, s)
    ensures Inv(c, DeviceStep(c, s))
  {
    hide MemOk, WriteUsedElem, UsedIdx, UsedAt, RxSupported, Holds, OnTap;
    RxElemMem(c, s.m, s.txLast, s.rxLast, s.tx, s.rx, s.txPackets, s.delivered, UsedElem(s.pc.head,
      NET_HDR + |s.pc.pkt|), s.pc.pkt);
  }

  lemma RxIdxKeeps(c: Config, s: State)
    requires ValidConfig(c) && Inv(c, s) && s.pc.RxIdx? && StepOk(c, s)
    ensures Inv(c, DeviceStep(c, s))
  {
    hide MemOk, WriteUsedIdx, UsedIdx, UsedAt, RxSupported, Holds, OnTap;
    RxIdxMem(c, s.m, s.txLast, s.rxLast, s.tx, s.rx, s.txPackets, s.delivered, UsedElem(s.pc.head,
      NET_HDR + |s.pc.pkt|), s.pc.pkt);
    assert s.delivered + [s.pc.pkt] + s.tapIn == s.delivered + [s.pc.pkt] + [] + s.tapIn;
  }

  /** The thread finds the next RX chain where the unbounded count says it is. */
  lemma NextRxChain(c: Config, m: Memory, txLast: U16, rxLast: U16, tx: Log, rx: Log,
                    packets: seq<seq<Byte>>, delivered: seq<seq<Byte>>)
    requires ValidConfig(c) && MemOk(c, m, txLast, rxLast, tx, rx, packets, delivered) && Used(rx) < Avail(rx)
    ensures var head := rx.heads[Used(rx)];
      && AvailHead(m, c.rxq, rxLast % c.rxq.num) == head
      && RxSupported(m, c.rxq, head, c.maxPkt)
      && forall a :: RxReads(m, c.rxq, head, a) ==> !RxWrites(m, c.rxq, head, a)
  {
    WrappedSlotAt(c.rxq.num, Used(rx));
    hide TxTouches, RxReads, RxWrites, RxSupported, TxContents, RxContents, UsedAt, UsedIdx, AvailIdx;
  }

  lemma RxFillMem(c: Config, m: Memory, txLast: U16, rxLast: U16, tx: Log, rx: Log,
                  packets: seq<seq<Byte>>, delivered: seq<seq<Byte>>, pkt: seq<Byte>)
    requires ValidConfig(c) && MemOk(c, m, txLast, rxLast, tx, rx, packets, delivered) && Used(rx) < Avail(rx)
    requires |pkt| <= c.maxPkt && RxInRam(m, c.rxq, rx.heads[Used(rx)], pkt)
    ensures AvailHead(m, c.rxq, rxLast % c.rxq.num) == rx.heads[Used(rx)]
    ensures var f := Scatter(m, c.rxq, rx.heads[Used(rx)], pkt);
      && f.total > 0 && |f.m| == |m|
      && MemOk(c, f.m, txLast, rxLast, tx, rx, packets, delivered)
      && RxSupported(f.m, c.rxq, rx.heads[Used(rx)], 0) && Holds(f.m, c.rxq, rx.heads[Used(rx)], pkt)
  {
    var head := rx.heads[Used(rx)];
    NextRxChain(c, m, txLast, rxLast, tx, rx, packets, delivered);
    hide Scatter, Holds, RxReads, RxWrites, RxSupported, AvailHead, DriverOk, RingOk, TxContents, RxContents;
    SupportedWeaken(m, c.rxq, head, c.maxPkt, |pkt|);
    ScatterDelivers(m, c.rxq, head, pkt);
    FillFrame(c, m, Scatter(m, c.rxq, head, pkt).m, txLast, rxLast, tx, rx, packets, delivered);
  }

  lemma AfterFill(c: Config, s: State, m': Memory)
    requires ValidConfig(c) && Inv(c, s) && s.pc.RxFill? && |m'| == |s.m|
    requires MemOk(c, m', s.txLast, s.rxLast, s.tx, s.rx, s.txPackets, s.delivered)
    requires RxSupported(m', c.rxq, s.rx.heads[Used(s.rx)], 0) && Holds(m', c.rxq, s.rx.heads[Used(s.rx)], s.pc.pkt)
    ensures Inv(c, s.(m := m', pc := RxElem(s.rx.heads[Used(s.rx)], s.pc.pkt)))
  {
    hide MemOk, Holds, RxSupported, OnTap;
  }

  lemma RxFillKeeps(c: Config, s: State)
    requires ValidConfig(c) && Inv(c, s) && s.pc.RxFill? && StepOk(c, s)
    ensures Inv(c, DeviceStep(c, s)) && DeviceStep(c, s).pc.RxElem?
  {
    hide MemOk, Scatter, Holds, RxSupported, AvailHead, RxInRam, Traffic, Fifo;
    NextRxChain(c, s.m, s.txLast, s.rxLast, s.tx, s.rx, s.txPackets, s.delivered);
    RxFillMem(c, s.m, s.txLast, s.rxLast, s.tx, s.rx, s.txPackets, s.delivered, s.pc.pkt);
    AfterFill(c, s, Scatter(s.m, c.rxq, s.rx.heads[Used(s.rx)], s.pc.pkt).m);
    hide Inv;
  }

  /** With any chain at all, inside the driver's contract or not: the packet goes into the chain exactly
      when the chain has room for it. Otherwise it is dropped, the chain stays available, nothing is
      completed, and the thread turns to TX. */
  lemma PacketTakenIff(c: Config, s: State)
    requires StepOk(c, s) && s.pc.RxFill?
    ensures var s', head := DeviceStep(c, s), AvailHead(s.m, c.rxq, s.rxLast % c.rxq.num);
      && s' == s.(m := s'.m, pc := s'.pc)
      && if HasRoom(s.m, c.rxq, head, s.pc.pkt) then s'.pc == RxElem(head, s.pc.pkt) else s'.pc.TxHead?
  {
    var head := AvailHead(s.m, c.rxq, s.rxLast % c.rxq.num);
    hide Scatter, HasRoom, AvailHead, RxInRam;
    DeliversIffRoom(s.m, c.rxq, head, s.pc.pkt);
  }

  lemma DeviceKeepsInv(c: Config, s: State)
    requires ValidConfig(c) && Inv(c, s)
    ensures StepOk(c, s) && Inv(c, DeviceStep(c, s))
  {
    InvStepOk(c, s);
    hide MemOk, PcOk, Traffic, Fifo, DeviceStep;
    match s.pc
    case TxHead => TxHeadKeeps(c, s);
    case TxGather(_, _, _, _) => TxGatherKeeps(c, s);
    case TxSend(_, _) => TxSendKeeps(c, s);
    case TxElem(_) => TxElemKeeps(c, s);
    case TxIdx(_) => TxIdxKeeps(c, s);
    case RxHead => RxHeadKeeps(c, s);
    case RxFill(_) => RxFillKeeps(c, s);
    case RxElem(_, _) => RxElemKeeps(c, s);
    case RxIdx(_, _) => RxIdxKeeps(c, s);
  }

  // ---- Driver and TAP steps -----------------------------------------------

  /** Outstanding chains the driver left alone still hold their packets; new ones hold theirs. */
  lemma DriverTxContents(c: Config, s: State, s': State)
    requires Fits(|s.m|, c.txq) && Fits(|s.m|, c.rxq) && DriverStep(c, s, s') && TxContents(c, s.m, s.tx, s.txPackets)
    ensures TxContents(c, s'.m, s'.tx, s'.txPackets)
  {
    hide ChainInRam, Gather, TxTouches, RxReads, RxWrites, RxSupported, HostOwned, Rings, AvailOk;
    forall k | Used(s'.tx) <= k < Avail(s'.tx)
      ensures ChainInRam(s'.m, c.txq, s'.tx.heads[k], MAX_CHAIN)
      ensures Gather(s'.m, c.txq, s'.tx.heads[k], MAX_CHAIN, []) == s'.txPackets[k]
    {
      if k < Avail(s.tx) {
        GatherFrame(s.m, s'.m, c.txq, s.tx.heads[k], MAX_CHAIN, []);
      }
    }
  }

  lemma DriverRxContents(c: Config, s: State, s': State)
    requires Fits(|s.m|, c.txq) && Fits(|s.m|, c.rxq) && DriverStep(c, s, s') &&
      RxContents(c, s.m, s.rx, s.delivered) && Used(s.rx) <= Avail(s.rx)
    ensures RxContents(c, s'.m, s'.rx, s'.delivered)
  {
    hide ChainInRam, Gather, TxTouches, RxReads, RxWrites, RxSupported, HostOwned, Rings, AvailOk, Holds;
    forall k | s'.rx.reclaimed <= k < Used(s'.rx) && k < Avail(s'.rx)
      ensures RxSupported(s'.m, c.rxq, s'.rx.heads[k], 0) && Holds(s'.m, c.rxq, s'.rx.heads[k], s'.delivered[k])
    {
      HoldsFrame(s.m, s'.m, c.rxq, s.rx.heads[k], s.delivered[k]);
    }
  }

  lemma DriverRing(m: Memory, m': Memory, q: Queue, g: Log, g': Log)
    requires Fits(|m|, q) && |m'| == |m| && RingOk(m, q, g) && Posted(q, g, g') && AvailOk(m', q, g')
    requires forall a | 0 <= a < |m| && InUsed(q, a) :: m'[a] == m[a]
    ensures RingOk(m', q, g') && UsedIdx(m', q) == UsedIdx(m, q)
    ensures forall i | 0 <= i < q.num :: UsedAt(m', q, i) == UsedAt(m, q, i)
  {
    UsedFrame(m, m', q);
  }

  lemma DriverMem(c: Config, s: State, s': State)
    requires ValidConfig(c) && MemOk(c, s.m, s.txLast, s.rxLast, s.tx, s.rx, s.txPackets, s.delivered) &&
      DriverStep(c, s, s')
    ensures MemOk(c, s'.m, s'.txLast, s'.rxLast, s'.tx, s'.rx, s'.txPackets, s'.delivered)
    ensures forall i | 0 <= i < c.txq.num :: UsedAt(s'.m, c.txq, i) == UsedAt(s.m, c.txq, i)
    ensures forall i | 0 <= i < c.rxq.num :: UsedAt(s'.m, c.rxq, i) == UsedAt(s.m, c.rxq, i)
  {
    hide DriverOk, TxContents, RxContents, UsedAt, UsedIdx, AvailOk, TxTouches, RxReads, RxWrites;
    DriverRing(s.m, s'.m, c.txq, s.tx, s'.tx);
    DriverRing(s.m, s'.m, c.rxq, s.rx, s'.rx);
    DriverTxContents(c, s, s');
    DriverRxContents(c, s, s');
  }

  lemma GatherStable(m: Memory, m': Memory, q: Queue, head: U16, cur: U16, fuel: nat, out: seq<Byte>)
    requires Fits(|m|, q) && |m'| == |m| && ChainInRam(m, q, head, MAX_CHAIN) && ChainInRam(m, q, cur, fuel)
    requires forall a | TxTouches(m, q, cur, fuel, a) :: TxTouches(m, q, head, MAX_CHAIN, a)
    requires forall a | 0 <= a < |m| && TxTouches(m, q, head, MAX_CHAIN, a) :: m'[a] == m[a]
    ensures ChainInRam(m', q, cur, fuel) && Gather(m', q, cur, fuel, out) == Gather(m, q, cur, fuel, out)
    ensures forall a | TxTouches(m', q, cur, fuel, a) :: TxTouches(m', q, head, MAX_CHAIN, a)
  {
    hide ChainInRam, Gather, TxTouches;
    GatherFrame(m, m', q, cur, fuel, out);
    GatherFrame(m, m', q, head, MAX_CHAIN, []);
  }

  /** What a driver step means for one pending TX chain. */
  lemma DriverLeavesChain(c: Config, s: State, s': State, k: nat)
    requires Fits(|s.m|, c.txq) && Fits(|s.m|, c.rxq) && DriverStep(c, s, s')
    requires Used(s.tx) <= k < Avail(s.tx) == |s.txPackets|
    ensures |s'.m| == |s.m| && s'.pc == s.pc && Used(s'.tx) == Used(s.tx) &&
      Avail(s.tx) <= Avail(s'.tx) == |s'.txPackets|
    ensures s'.tx.heads[k] == s.tx.heads[k] && s'.txPackets[k] == s.txPackets[k]
    ensures forall a | 0 <= a < |s.m| && TxTouches(s.m, c.txq, s.tx.heads[k], MAX_CHAIN, a) :: s'.m[a] == s.m[a]
  {
    hide DriverOk, AvailOk, TxTouches, RxReads, RxWrites, Gather, ChainInRam;
  }

  lemma GatherPcFrame(c: Config, s: State, s': State)
    requires Fits(|s.m|, c.txq) && Fits(|s.m|, c.rxq) && PcOk(c, s) && s.pc.TxGather?
    requires |s'.m| == |s.m| && s'.pc == s.pc && Used(s'.tx) == Used(s.tx) &&
      Avail(s.tx) <= Avail(s'.tx) == |s'.txPackets|
    requires s'.tx.heads[Used(s.tx)] == s.tx.heads[Used(s.tx)] && s'.txPackets[Used(s.tx)] == s.txPackets[Used(s.tx)]
    requires ChainInRam(s.m, c.txq, s.pc.head, MAX_CHAIN)
    requires forall a | 0 <= a < |s.m| && TxTouches(s.m, c.txq, s.pc.head, MAX_CHAIN, a) :: s'.m[a] == s.m[a]
    ensures PcOk(c, s')
  {
    hide ChainInRam, Gather, TxTouches, Fits;
    GatherStable(s.m, s'.m, c.txq, s.pc.head, s.pc.cur, MAX_CHAIN - s.pc.chain, s.pc.out);
  }

  /** A gather in progress is not disturbed: its chain is still the device's. */
  lemma DriverGather(c: Config, s: State, s': State)
    requires ValidConfig(c) && Inv(c, s) && DriverStep(c, s, s') && s.pc.TxGather?
    ensures Fits(|s'.m|, c.txq) && Fits(|s'.m|, c.rxq) && PcOk(c, s')
  {
    PendingInRam(c, s);
    assert s.pc.head == s.tx.heads[Used(s.tx)];
    hide MemOk, PcOk, DriverStep, ChainInRam, TxTouches, Traffic, Fifo;
    DriverLeavesChain(c, s, s', Used(s.tx));
    GatherPcFrame(c, s, s');
  }

  lemma PendingInRam(c: Config, s: State)
    requires ValidConfig(c) && Inv(c, s) && Used(s.tx) < Avail(s.tx)
    ensures |s.m| == c.ram && |s.txPackets| == Avail(s.tx) && ChainInRam(s.m, c.txq, s.tx.heads[Used(s.tx)], MAX_CHAIN)
  {
  }

  /** A filled chain not yet completed keeps its packet. */
  lemma DriverHolds(c: Config, s: State, s': State, pkt: seq<Byte>)
    requires ValidConfig(c) && Inv(c, s) && DriverStep(c, s, s') && Used(s.rx) < Avail(s.rx)
    requires RxSupported(s.m, c.rxq, s.rx.heads[Used(s.rx)], 0) && Holds(s.m, c.rxq, s.rx.heads[Used(s.rx)], pkt)
    ensures RxSupported(s'.m, c.rxq, s.rx.heads[Used(s.rx)], 0) && Holds(s'.m, c.rxq, s.rx.heads[Used(s.rx)], pkt)
  {
    assert |s.m| == c.ram;
    hide MemOk, DriverOk, AvailOk, TxTouches, RxReads, RxWrites, Holds, RxSupported, PcOk, Traffic, Fifo;
    HoldsFrame(s.m, s'.m, c.rxq, s.rx.heads[Used(s.rx)], pkt);
  }

  lemma SizeFixed(c: Config, s: State)
    requires ValidConfig(c) && Inv(c, s)
    ensures |s.m| == c.ram
  {
  }

  lemma DriverPc(c: Config, s: State, s': State)
    requires ValidConfig(c) && Inv(c, s) && DriverStep(c, s, s')
    ensures Fits(|s'.m|, c.txq) && Fits(|s'.m|, c.rxq) && PcOk(c, s')
  {
    hide MemOk, DriverOk, AvailOk, TxTouches, RxReads, RxWrites, Holds, RxSupported, UsedAt, ChainInRam, Gather,
      Traffic, Fifo;
    DriverMem(c, s, s');
    assert |s.m| == c.ram by {
      SizeFixed(c, s);
    }
    if s.pc.TxGather? {
      DriverGather(c, s, s');
      hide *;
    } else if s.pc.RxElem? || s.pc.RxIdx? {
      DriverHolds(c, s, s', s.pc.pkt);
    }
  }

  lemma DriverKeepsInv(c: Config, s: State, s': State)
    requires ValidConfig(c) && Inv(c, s) && DriverStep(c, s, s')
    ensures Inv(c, s')
  {
    hide MemOk, DriverOk, AvailOk, TxTouches, RxReads, RxWrites, Holds, RxSupported, UsedAt, ChainInRam, Gather, PcOk,
      OnTap;
    DriverMem(c, s, s');
    DriverPc(c, s, s');
    OnTapPrefix(s.tapOut, s.txPackets, s'.txPackets, Sent(s));
  }

  /** A packet of acceptable size reaches the TAP. */
  function Arrive(s: State, pkt: seq<Byte>): State {
    s.(tapIn := s.tapIn + [pkt], arrived := s.arrived + [pkt])
  }

  lemma ArrivalKeepsInv(c: Config, s: State, pkt: seq<Byte>)
    requires ValidConfig(c) && Inv(c, s) && 0 < |pkt| <= c.maxPkt
    ensures Inv(c, Arrive(s, pkt))
  {
    hide MemOk, PcOk, OnTap;
    SizeFixed(c, s);
    assert s.delivered + InFlight(s.pc) + s.tapIn + [pkt] == s.delivered + InFlight(s.pc) + (s.tapIn + [pkt]);
    assert PcOk(c, Arrive(s, pkt)) by {
      PcIgnoresTap(c, s, pkt);
    }
  }

  lemma PcIgnoresTap(c: Config, s: State, pkt: seq<Byte>)
    requires Fits(|s.m|, c.txq) && Fits(|s.m|, c.rxq) && PcOk(c, s)
    ensures PcOk(c, Arrive(s, pkt))
  {
  }

  // ---- Runs ---------------------------------------------------------------

  /** Who took a step. */
  datatype Actor = Thread | Driver | Tap

  ghost predicate By(c: Config, who: Actor, s: State, s': State)
    requires Fits(|s.m|, c.txq) && Fits(|s.m|, c.rxq)
  {
    match who
    case Thread => StepOk(c, s) && s' == DeviceStep(c, s)
    case Driver => DriverStep(c, s, s')
    case Tap => exists pkt :: 0 < |pkt| <= c.maxPkt && s' == Arrive(s, pkt)
  }

  ghost predicate Next(c: Config, s: State, s': State)
    requires Fits(|s.m|, c.txq) && Fits(|s.m|, c.rxq)
  {
    exists who :: By(c, who, s, s')
  }

  /** A device whose queues have never been used, with the thread about to start. */
  function Boot(m: Memory): State {
    State(m, 0, 0, TxHead, Log([], [], 0), Log([], [], 0), [], [], [], [], [])
  }

  lemma BootInv(c: Config, m: Memory)
    requires ValidConfig(c) && |m| == c.ram
    requires AvailIdx(m, c.txq) == UsedIdx(m, c.txq) == AvailIdx(m, c.rxq) == UsedIdx(m, c.rxq) == 0
    ensures Inv(c, Boot(m))
  {
    assert [] + InFlight(TxHead) + [] == [];
  }

  /** A run: each state follows from the one before by some step of some party. */
  ghost predicate IsRun(c: Config, run: seq<State>)
    requires ValidConfig(c)
  {
    && |run| > 0
    && (forall i | 0 <= i < |run| :: |run[i].m| == c.ram)
    && (forall i | 0 <= i < |run| - 1 :: Next(c, run[i], run[i + 1]))
  }

  lemma NextKeepsInv(c: Config, s: State, s': State)
    requires ValidConfig(c) && Inv(c, s) && |s.m| == c.ram && Next(c, s, s')
    ensures Inv(c, s')
  {
    DeviceKeepsInv(c, s);
    hide Inv, DriverStep, DeviceStep, StepOk;
    var who :| By(c, who, s, s');
    match who
    case Thread =>
    case Driver => DriverKeepsInv(c, s, s');
    case Tap =>
      var pkt :| 0 < |pkt| <= c.maxPkt && s' == Arrive(s, pkt);
      ArrivalKeepsInv(c, s, pkt);
  }

  lemma {:induction false} RunKeepsInv(c: Config, run: seq<State>, i: nat)
    requires ValidConfig(c) && IsRun(c, run) && Inv(c, run[0]) && i < |run|
    ensures Inv(c, run[i])
  {
    hide Inv, Next;
    if i > 0 {
      RunKeepsInv(c, run, i - 1);
      NextKeepsInv(c, run[i - 1], run[i]);
    }
  }

  /** s' continues s: every log of s is a prefix of the corresponding log of s'. */
  ghost predicate Continues(s: State, s': State) {
    && s.tx.heads <= s'.tx.heads && s.tx.done <= s'.tx.done && s.txPackets <= s'.txPackets && s.tapOut <= s'.tapOut
    && s.rx.heads <= s'.rx.heads && s.rx.done <= s'.rx.done && s.delivered <= s'.delivered && s.arrived <= s'.arrived
  }

  lemma NextContinues(c: Config, s: State, s': State)
    requires Fits(|s.m|, c.txq) && Fits(|s.m|, c.rxq) && Next(c, s, s')
    ensures Continues(s, s')
  {
    hide DriverOk, AvailOk, TxTouches, RxReads, RxWrites, Scatter, Gather, WriteUsedElem, WriteUsedIdx;
  }

  /** A run only ever extends what was published, sent, completed and delivered. */
  lemma {:induction false} RunContinues(c: Config, run: seq<State>, j: nat, i: nat)
    requires ValidConfig(c) && IsRun(c, run) && j <= i < |run|
    ensures Continues(run[j], run[i])
    decreases i - j
  {
    hide Next;
    if j < i {
      RunContinues(c, run, j, i - 1);
      NextContinues(c, run[i - 1], run[i]);
    }
  }

  /** On every run the frames on the TAP are, byte for byte, the packets the driver published without
      their headers, in order, none missing and none besides; the used ring names their heads in
      order, each once; and the 16-bit indices are the unbounded counts modulo 2^16. */
  lemma TxRefinesFifo(c: Config, run: seq<State>, i: nat)
    requires ValidConfig(c) && IsRun(c, run) && Inv(c, run[0]) && i < |run|
    ensures var s := run[i];
      && Sent(s) <= |s.txPackets| && OnTap(s.tapOut, s.txPackets, Sent(s))
      && s.tx.reclaimed <= Used(s.tx) <= Avail(s.tx) <= s.tx.reclaimed + c.txq.num
      && s.txLast == UsedIdx(s.m, c.txq) == Used(s.tx) % TWO16
      && AvailIdx(s.m, c.txq) == Avail(s.tx) % TWO16
      && (forall k | 0 <= k < Used(s.tx) :: s.tx.done[k] == UsedElem(s.tx.heads[k], 0))
      && (forall k | s.tx.reclaimed <= k < Used(s.tx) ::
            UsedAt(s.m, c.txq, Slot(c.txq, k)) == UsedElem(s.tx.heads[k], 0))
  {
    RunKeepsInv(c, run, i);
    hide Next, PcOk, DriverOk, TxContents, RxContents, OnTap;
  }

  /** Step j publishes head k as a chain of at most 64 buffers in RAM that hold fewer than 65536 bytes. */
  ghost predicate PublishesChain(c: Config, s: State, s': State, k: nat, ds: seq<Desc>)
    requires Fits(|s'.m|, c.txq)
  {
    && Avail(s.tx) <= k < Avail(s'.tx)
    && IsChain(s'.m, c.txq, s'.tx.heads[k], ds) && AllInRam(s'.m, ds)
    && |ds| <= MAX_CHAIN && |Concat(s'.m, ds)| < PKT_BUF
  }

  lemma OnlyDriverPublishes(c: Config, who: Actor, s: State, s': State)
    requires Fits(|s.m|, c.txq) && Fits(|s.m|, c.rxq) && By(c, who, s, s') && !who.Driver?
    ensures s'.tx.heads == s.tx.heads
  {
    hide StepOk, Scatter, WriteUsedElem, WriteUsedIdx, Append, Gather, ChainInRam;
  }

  lemma DriverPacket(c: Config, s: State, s': State, k: nat)
    requires Fits(|s.m|, c.txq) && Fits(|s.m|, c.rxq) && DriverStep(c, s, s')
    requires |s.txPackets| == Avail(s.tx) && Used(s.tx) <= Avail(s.tx) <= k < Avail(s'.tx)
    ensures k < |s'.txPackets| && ChainInRam(s'.m, c.txq, s'.tx.heads[k], MAX_CHAIN)
    ensures s'.txPackets[k] == Gather(s'.m, c.txq, s'.tx.heads[k], MAX_CHAIN, [])
  {
    hide Gather, ChainInRam, TxTouches, RxReads, RxWrites, RxSupported, AvailOk;
  }

  /** A packet is what the gather takes of its chain when it is published. */
  lemma PublishedPacket(c: Config, s: State, s': State, k: nat)
    requires ValidConfig(c) && Inv(c, s) && |s.m| == |s'.m| == c.ram && Next(c, s, s')
    requires Avail(s.tx) <= k < Avail(s'.tx)
    ensures k < |s'.txPackets| && ChainInRam(s'.m, c.txq, s'.tx.heads[k], MAX_CHAIN)
    ensures s'.txPackets[k] == Gather(s'.m, c.txq, s'.tx.heads[k], MAX_CHAIN, [])
  {
    assert |s.txPackets| == Avail(s.tx) && Used(s.tx) <= Avail(s.tx) by {
      hide DriverOk, RxContents, PcOk, Traffic, RingOk;
    }
    hide Inv, DriverStep, DeviceStep, StepOk, Gather, ChainInRam;
    var who :| By(c, who, s, s');
    if !who.Driver? {
      OnlyDriverPublishes(c, who, s, s');
    }
    DriverPacket(c, s, s', k);
  }

  /** The frame for packet k, without its 12-byte header, is the entry of out after those of the packets
      before; nothing after the header, no entry. */
  ghost predicate SentAs(out: seq<seq<Byte>>, packets: seq<seq<Byte>>, k: nat, packet: seq<Byte>)
    requires k < |packets|
  {
    var at := Carrying(packets, k);
    && (|packet| <= 12 ==> Carrying(packets, k + 1) == at)
    && forall hdr, payload | packet == hdr + payload && |hdr| == 12 && payload != [] ::
         Carrying(packets, k + 1) == at + 1 <= |out| && out[at] == payload
  }

  /** On every run, whatever was interleaved and whatever the chain looks like: once a published chain has
      been sent, the frame right after those of the chains before it is exactly the bytes after the
      12-byte header in what the gather takes of its first 64 buffers, as they were when it was
      published; a chain with nothing after its header adds no frame. */
  lemma TxFramesAreTaken(c: Config, run: seq<State>, j: nat, k: nat, i: nat)
    requires ValidConfig(c) && IsRun(c, run) && Inv(c, run[0]) && j + 1 <= i < |run|
    requires Avail(run[j].tx) <= k < Avail(run[j + 1].tx) && k < Sent(run[i])
    ensures k < |run[i].txPackets|
    ensures var ds := Visited(run[j + 1].m, c.txq, run[j + 1].tx.heads[k], 64);
      AllEndInRam(run[j + 1].m, ds) && SentAs(run[i].tapOut, run[i].txPackets, k, Picked(run[j + 1].m, ds))
  {
    hide Inv, Next, OnTap, Gather, ChainInRam, Visited, Picked, AllEndInRam, SentAs;
    RunKeepsInv(c, run, j);
    RunKeepsInv(c, run, i);
    RunContinues(c, run, j + 1, i);
    PublishedPacket(c, run[j], run[j + 1], k);
    GatherPicks(run[j + 1].m, c.txq, run[j + 1].tx.heads[k]);
    InvTraffic(c, run[i]);
    FrameAt(run[i].tapOut, run[i].txPackets, Sent(run[i]), k);
  }

  /** For a chain of at most 64 buffers in RAM that hold fewer than 65536 bytes, that is all of them. */
  lemma TxFramesAreBuffers(c: Config, run: seq<State>, j: nat, k: nat, ds: seq<Desc>, i: nat)
    requires ValidConfig(c) && IsRun(c, run) && Inv(c, run[0]) && j + 1 <= i < |run|
    requires PublishesChain(c, run[j], run[j + 1], k, ds) && k < Sent(run[i])
    ensures k < |run[i].txPackets| && SentAs(run[i].tapOut, run[i].txPackets, k, Concat(run[j + 1].m, ds))
  {
    hide Inv, Next, OnTap, Gather, ChainInRam, IsChain, AllInRam, Concat, SentAs;
    RunKeepsInv(c, run, j);
    RunKeepsInv(c, run, i);
    RunContinues(c, run, j + 1, i);
    PublishedPacket(c, run[j], run[j + 1], k);
    GatherIsConcat(run[j + 1].m, c.txq, run[j + 1].tx.heads[k], ds);
    InvTraffic(c, run[i]);
    FrameAt(run[i].tapOut, run[i].txPackets, Sent(run[i]), k);
  }

  lemma FrameAt(out: seq<seq<Byte>>, ps: seq<seq<Byte>>, n: nat, k: nat)
    requires k < n <= |ps| && OnTap(out, ps, n)
    ensures SentAs(out, ps, k, ps[k])
  {
    CarryingGrows(ps, k + 1, n);
    forall hdr, payload | ps[k] == hdr + payload && |hdr| == 12 && payload != []
      ensures Carrying(ps, k + 1) == Carrying(ps, k) + 1 <= |out| && out[Carrying(ps, k)] == payload
    {
      assert (hdr + payload)[12..] == payload;
      assert Framed(out, ps, k);
    }
  }

  lemma InvTraffic(c: Config, s: State)
    requires ValidConfig(c) && Inv(c, s)
    ensures Sent(s) <= |s.txPackets| && OnTap(s.tapOut, s.txPackets, Sent(s))
  {
    hide MemOk, Fifo, PcOk, OnTap;
  }

  /** On every run no packet is dropped, duplicated or reordered on the way in, and each completed
      RX chain begins with a zero header and its packet, with used length 12 plus packet size,
      until the driver takes it back. */
  lemma RxRefinesFifo(c: Config, run: seq<State>, i: nat)
    requires ValidConfig(c) && IsRun(c, run) && Inv(c, run[0]) && i < |run|
    ensures var s := run[i];
      && s.arrived == s.delivered + InFlight(s.pc) + s.tapIn
      && |s.delivered| == Used(s.rx) && s.rx.reclaimed <= Used(s.rx) <= Avail(s.rx) <= s.rx.reclaimed + c.rxq.num
      && s.rxLast == UsedIdx(s.m, c.rxq) == Used(s.rx) % TWO16
      && (forall k | s.rx.reclaimed <= k < Used(s.rx) ::
            && UsedAt(s.m, c.rxq, Slot(c.rxq, k)).id == s.rx.heads[k]
            && UsedAt(s.m, c.rxq, Slot(c.rxq, k)).len == NET_HDR + |s.delivered[k]|
            && RxSupported(s.m, c.rxq, s.rx.heads[k], 0)
            && Zeros(NET_HDR) + s.delivered[k] <= RxBytes(s.m, c.rxq, s.rx.heads[k]))
  {
    RunKeepsInv(c, run, i);
    hide Next, PcOk, DriverOk, TxContents, RxSupported, RxBytes, OnTap;
  }

  // ---- Stopping and restarting --------------------------------------------

  /** The state a fresh thread starts from: both private indices come from used->idx. */
  function Attach(c: Config, s: State): State
    requires Fits(|s.m|, c.txq) && Fits(|s.m|, c.rxq)
  {
    s.(txLast := UsedIdx(s.m, c.txq), rxLast := UsedIdx(s.m, c.rxq), pc := TxHead)
  }

  /** Nothing sent but not completed, nothing read but not delivered. */
  predicate RestartPoint(s: State) {
    && (s.pc.TxElem? || s.pc.TxIdx? ==> Used(s.tx) < |s.txPackets| && |s.txPackets[Used(s.tx)]| <= NET_HDR)
    && !s.pc.RxFill? && !s.pc.RxElem? && !s.pc.RxIdx?
  }

  /** Replacing the thread continues the same FIFO, with no buffer skipped, sent or completed
      twice, exactly when it is stopped with nothing in flight; both loop heads qualify. Whatever is in
      the private indices t and r of the new thread does not matter: it finds them in memory. */
  lemma RestartContinues(c: Config, s: State, t: U16, r: U16)
    requires ValidConfig(c) && Inv(c, s) && |s.m| == c.ram
    ensures Inv(c, Attach(c, s.(txLast := t, rxLast := r))) <==> RestartPoint(s)
    ensures s.pc.TxHead? || s.pc.RxHead? ==> RestartPoint(s)
    ensures s.pc.TxHead? ==> Attach(c, s.(txLast := t, rxLast := r)) == s
  {
    assert Attach(c, s.(txLast := t, rxLast := r)) == Attach(c, s);
    assert s.txLast == UsedIdx(s.m, c.txq) && s.rxLast == UsedIdx(s.m, c.rxq);
    assert |s.txPackets| == Avail(s.tx);
    hide MemOk;
    RestartTraffic(c, s);
    hide Traffic;
  }

  /** The last of n + 1 packets can be taken off the claim exactly when it gave no frame. */
  lemma OnTapBack(out: seq<seq<Byte>>, ps: seq<seq<Byte>>, n: nat)
    requires n < |ps| && OnTap(out, ps, n + 1)
    ensures OnTap(out, ps, n) <==> |ps[n]| <= NET_HDR
  {
  }

  lemma RestartTraffic(c: Config, s: State)
    requires Fits(|s.m|, c.txq) && Fits(|s.m|, c.rxq) && Traffic(c, s) && PcOk(c, s) && |s.txPackets| == Avail(s.tx)
    ensures Traffic(c, Attach(c, s)) <==> RestartPoint(s)
  {
    hide Gather, ChainInRam, TxTouches, RxSupported, Holds, UsedAt, OnTap;
    if s.pc.TxElem? || s.pc.TxIdx? {
      OnTapBack(s.tapOut, s.txPackets, Used(s.tx));
    }
    assert |s.arrived| == |s.delivered| + |InFlight(s.pc)| + |s.tapIn|;
  }
}
