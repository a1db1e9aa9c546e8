/** Which bytes of guest memory each action of the net thread reads and writes, and that nothing else
    matters to it: its effect is a function of the bytes it reads. */
module ThreadAccesses {
  import opened Bytes
  import opened Virtqueue
  import opened NetDataPath

  /** The gather loop copies this buffer. */
  predicate Copies(m: Memory, d: Desc, out: seq<Byte>) {
    d.addr < |m| && d.len > 0 && |out| + d.len < PKT_BUF
  }

  predicate InDesc(q: Queue, i: nat, a: int)
    requires q.num >= 1
  {
    InBytes(a, q.desc + 16 * (i % q.num), 16)
  }

  /** The head of the RX chain the thread is about to fill. */
  function RxChain(c: Config, s: State): U16
    requires Fits(|s.m|, c.rxq)
  {
    AvailHead(s.m, c.rxq, s.rxLast % c.rxq.num)
  }

  predicate FillReads(m: Memory, q: Queue, head: U16, pkt: seq<Byte>, a: int)
    requires Fits(|m|, q)
  {
    InDesc(q, head, a) || (NeedsSecond(m, First(m, q, head), pkt) && InDesc(q, First(m, q, head).next, a))
  }

  predicate FillWrites(m: Memory, q: Queue, head: U16, pkt: seq<Byte>, a: int)
    requires Fits(|m|, q)
  {
    var d, d2 := First(m, q, head), Second(m, q, head);
    if !(d.addr < |m|) || !HasWrite(d) then false
    else if d.len >= NET_HDR + |pkt| then InBytes(a, d.addr, NET_HDR + |pkt|)
    else if HasNext(d) then
      || InBytes(a, d.addr, if d.len < NET_HDR then d.len else NET_HDR)
      || (d2.addr < |m| && d2.len >= |pkt| && InBytes(a, d2.addr, |pkt|))
    else false
  }

  predicate InIdx(ring: nat, a: int) {
    InBytes(a, ring + 2, 2)
  }

  /** The bytes the thread's next action reads. */
  predicate Reads(c: Config, s: State, a: int)
    requires Fits(|s.m|, c.txq) && Fits(|s.m|, c.rxq)
  {
    match s.pc
    case TxHead =>
      || InIdx(c.txq.driver, a)
      || (s.txLast != AvailIdx(s.m, c.txq) && InBytes(a, c.txq.driver + 4 + 2 * (s.txLast % c.txq.num), 2))
    case TxGather(_, cur, chain, out) =>
      chain < MAX_CHAIN &&
      var d := DescAt(s.m, c.txq, cur % c.txq.num);
      InDesc(c.txq, cur, a) || (Copies(s.m, d, out) && InBytes(a, d.addr, d.len))
    case TxSend(_, _) => false
    case TxElem(_) => InIdx(c.txq.device, a)
    case TxIdx(_) => InIdx(c.txq.device, a)
    case RxHead => InIdx(c.rxq.driver, a)
    case RxFill(pkt) =>
      || InBytes(a, c.rxq.driver + 4 + 2 * (s.rxLast % c.rxq.num), 2)
      || FillReads(s.m, c.rxq, RxChain(c, s), pkt, a)
    case RxElem(_, _) => InIdx(c.rxq.device, a)
    case RxIdx(_, _) => InIdx(c.rxq.device, a)
  }

  predicate InSlot(q: Queue, idx: U16, a: int)
    requires q.num >= 1
  {
    InBytes(a, q.device + 4 + 8 * (idx % q.num), 8)
  }

  /** The bytes it writes. */
  predicate Writes(c: Config, s: State, a: int)
    requires Fits(|s.m|, c.txq) && Fits(|s.m|, c.rxq)
  {
    match s.pc
    case TxElem(_) => InSlot(c.txq, UsedIdx(s.m, c.txq), a)
    case TxIdx(_) => InIdx(c.txq.device, a)
    case RxFill(pkt) => FillWrites(s.m, c.rxq, RxChain(c, s), pkt, a)
    case RxElem(_, _) => InSlot(c.rxq, UsedIdx(s.m, c.rxq), a)
    case RxIdx(_, _) => InIdx(c.rxq.device, a)
    case _ => false
  }

  /** On memory m' the action is possible too, does the same to everything but memory, and writes the
      same bytes to the same places. */
  predicate SameEffect(c: Config, s: State, m': Memory)
    requires StepOk(c, s) && |m'| == |s.m|
  {
    && StepOk(c, s.(m := m'))
    && var t, t' := DeviceStep(c, s), DeviceStep(c, s.(m := m'));
    && t' == t.(m := t'.m) && |t'.m| == |m'| == |t.m|
    && forall a | 0 <= a < |m'| ::
         (Writes(c, s.(m := m'), a) <==> Writes(c, s, a)) && t'.m[a] == if Writes(c, s, a) then t.m[a] else m'[a]
  }

  lemma SameGet16(m: Memory, m': Memory, o: nat)
    requires |m'| == |m| && o + 2 <= |m| && forall a | 0 <= a < |m| && InBytes(a, o, 2) :: m'[a] == m[a]
    ensures Get16(m', o) == Get16(m, o)
  {
    assert InBytes(o, o, 2) && InBytes(o + 1, o, 2);
  }

  lemma TxHeadFrame(c: Config, s: State, m': Memory)
    requires StepOk(c, s) && |m'| == |s.m| && s.pc.TxHead?
    requires forall a | 0 <= a < |m'| && Reads(c, s, a) :: m'[a] == s.m[a]
    ensures SameEffect(c, s, m')
  {
    SameGet16(s.m, m', c.txq.driver + 2);
    if s.txLast != AvailIdx(s.m, c.txq) {
      SameGet16(s.m, m', c.txq.driver + 4 + 2 * (s.txLast % c.txq.num));
    }
    hide Get16;
  }

  /** The action of one turn of the gather loop. */
  lemma GatherTurn(c: Config, s: State)
    requires StepOk(c, s) && s.pc.TxGather? && s.pc.chain < MAX_CHAIN
    ensures var d := DescAt(s.m, c.txq, s.pc.cur % c.txq.num);
      var out := Append(s.m, d, s.pc.out);
      DeviceStep(c, s) == s.(pc := if HasNext(d) then TxGather(s.pc.head, d.next, s.pc.chain + 1, out)
                                   else TxSend(s.pc.head, out))
    ensures forall a :: !Writes(c, s, a)
  {
    hide DescAt, Append, HasNext;
  }

  lemma AppendFrame(m: Memory, m': Memory, d: Desc, out: seq<Byte>)
    requires |m'| == |m| && EndsInRam(m, d)
    requires forall a | 0 <= a < |m| && Copies(m, d, out) && InBytes(a, d.addr, d.len) :: m'[a] == m[a]
    ensures Append(m', d, out) == Append(m, d, out)
  {
    if Copies(m, d, out) {
      assert m'[d.addr..d.addr + d.len] == m[d.addr..d.addr + d.len];
    }
  }

  lemma TxGatherFrame(c: Config, s: State, m': Memory)
    requires StepOk(c, s) && |m'| == |s.m| && s.pc.TxGather?
    requires forall a | 0 <= a < |m'| && Reads(c, s, a) :: m'[a] == s.m[a]
    ensures SameEffect(c, s, m')
  {
    if s.pc.chain < MAX_CHAIN {
      var d := DescAt(s.m, c.txq, s.pc.cur % c.txq.num);
      DescFrame(s.m, m', c.txq, s.pc.cur % c.txq.num);
      hide DescAt;
      AppendFrame(s.m, m', d, s.pc.out);
      GatherTurn(c, s);
      GatherTurn(c, s.(m := m'));
      hide DeviceStep, Writes, Append, Reads, Copies;
    }
  }

  lemma IdxReadFrame(m: Memory, m': Memory, q: Queue)
    requires Fits(|m|, q) && |m'| == |m| && forall a | 0 <= a < |m| && InIdx(q.device, a) :: m'[a] == m[a]
    ensures UsedIdx(m', q) == UsedIdx(m, q)
  {
    SameGet16(m, m', q.device + 2);
  }

  /** The element goes into the slot of the index read. */
  lemma ElemFrame(c: Config, s: State, m': Memory)
    requires StepOk(c, s) && |m'| == |s.m| && (s.pc.TxElem? || s.pc.RxElem?)
    requires forall a | 0 <= a < |m'| && Reads(c, s, a) :: m'[a] == s.m[a]
    ensures SameEffect(c, s, m')
  {
    IdxReadFrame(s.m, m', if s.pc.TxElem? then c.txq else c.rxq);
    hide UsedIdx, Write, Append, Scatter, DescAt, Frame, AvailIdx, AvailHead, FillReads, FillWrites, RxInRam;
  }

  /** The index read is incremented. */
  lemma IndexFrame(c: Config, s: State, m': Memory)
    requires StepOk(c, s) && |m'| == |s.m| && (s.pc.TxIdx? || s.pc.RxIdx?)
    requires forall a | 0 <= a < |m'| && Reads(c, s, a) :: m'[a] == s.m[a]
    ensures SameEffect(c, s, m')
  {
    IdxReadFrame(s.m, m', if s.pc.TxIdx? then c.txq else c.rxq);
    hide UsedIdx, Write, Append, Scatter, DescAt, Frame, AvailIdx, AvailHead, FillReads, FillWrites, RxInRam;
  }

  lemma RxHeadFrame(c: Config, s: State, m': Memory)
    requires StepOk(c, s) && |m'| == |s.m| && s.pc.RxHead?
    requires forall a | 0 <= a < |m'| && Reads(c, s, a) :: m'[a] == s.m[a]
    ensures SameEffect(c, s, m')
  {
    SameGet16(s.m, m', c.rxq.driver + 2);
    hide Get16;
  }

  /** With the same descriptors the scatter writes the same bytes to the same places. */
  lemma ScatterAt(m: Memory, m': Memory, q: Queue, head: U16, pkt: seq<Byte>, a: nat)
    requires Fits(|m|, q) && |m'| == |m| && RxInRam(m, q, head, pkt) && First(m', q, head) == First(m, q, head)
    requires NeedsSecond(m, First(m, q, head), pkt) ==> Second(m', q, head) == Second(m, q, head)
    requires a < |m|
    ensures RxInRam(m', q, head, pkt)
    ensures FillWrites(m', q, head, pkt, a) <==> FillWrites(m, q, head, pkt, a)
    ensures var f, f' := Scatter(m, q, head, pkt), Scatter(m', q, head, pkt);
      f'.total == f.total && |f'.m| == |f.m| == |m| &&
      f'.m[a] == if FillWrites(m, q, head, pkt, a) then f.m[a] else m'[a]
  {
    hide First, Second, Fits, Write, Zeros;
  }

  /** The scatter is a function of the descriptors it reads. */
  lemma ScatterFrame(m: Memory, m': Memory, q: Queue, head: U16, pkt: seq<Byte>)
    requires Fits(|m|, q) && |m'| == |m| && RxInRam(m, q, head, pkt)
    requires forall a | 0 <= a < |m| && FillReads(m, q, head, pkt, a) :: m'[a] == m[a]
    ensures RxInRam(m', q, head, pkt)
    ensures var f, f' := Scatter(m, q, head, pkt), Scatter(m', q, head, pkt);
      && f'.total == f.total && |f'.m| == |f.m| == |m|
      && forall a | 0 <= a < |m| ::
           && (FillWrites(m', q, head, pkt, a) <==> FillWrites(m, q, head, pkt, a))
           && f'.m[a] == if FillWrites(m, q, head, pkt, a) then f.m[a] else m'[a]
  {
    var d := First(m, q, head);
    DescFrame(m, m', q, head % q.num);
    if NeedsSecond(m, d, pkt) {
      DescFrame(m, m', q, d.next % q.num);
    }
    hide DescAt, Scatter, FillWrites, RxInRam, NeedsSecond, FillReads;
    ScatterAt(m, m', q, head, pkt, q.desc);
    forall a | 0 <= a < |m|
      ensures FillWrites(m', q, head, pkt, a) <==> FillWrites(m, q, head, pkt, a)
      ensures Scatter(m', q, head, pkt).m[a] ==
        if FillWrites(m, q, head, pkt, a) then Scatter(m, q, head, pkt).m[a] else m'[a]
    {
      ScatterAt(m, m', q, head, pkt, a);
    }
  }

  /** The action of filling an RX chain. */
  lemma FillAction(c: Config, s: State)
    requires StepOk(c, s) && s.pc.RxFill?
    ensures var head, pkt := RxChain(c, s), s.pc.pkt;
      && RxInRam(s.m, c.rxq, head, pkt)
      && var f := Scatter(s.m, c.rxq, head, pkt);
      DeviceStep(c, s) == s.(m := f.m, pc := if f.total > 0 then RxElem(head, pkt) else TxHead)
  {
    hide AvailHead, Scatter, RxInRam;
  }

  lemma FillActionWrites(c: Config, s: State, a: int)
    requires Fits(|s.m|, c.txq) && Fits(|s.m|, c.rxq) && s.pc.RxFill?
    ensures Writes(c, s, a) <==> FillWrites(s.m, c.rxq, RxChain(c, s), s.pc.pkt, a)
  {
    hide AvailHead, FillWrites;
  }

  lemma RxChainFrame(c: Config, s: State, m': Memory)
    requires StepOk(c, s) && |m'| == |s.m| && s.pc.RxFill?
    requires forall a | 0 <= a < |m'| && Reads(c, s, a) :: m'[a] == s.m[a]
    ensures RxChain(c, s.(m := m')) == RxChain(c, s)
    ensures forall a | 0 <= a < |m'| && FillReads(s.m, c.rxq, RxChain(c, s), s.pc.pkt, a) :: m'[a] == s.m[a]
  {
    SameGet16(s.m, m', c.rxq.driver + 4 + 2 * (s.rxLast % c.rxq.num));
    hide Get16, FillReads, RxInRam;
  }

  lemma RxFillOk(c: Config, s: State, m': Memory)
    requires StepOk(c, s) && |m'| == |s.m| && s.pc.RxFill?
    requires RxInRam(m', c.rxq, RxChain(c, s.(m := m')), s.pc.pkt)
    ensures StepOk(c, s.(m := m'))
  {
    hide RxInRam, AvailHead;
  }

  /** What filling does to everything but memory. */
  lemma FillSteps(c: Config, s: State, m': Memory)
    requires StepOk(c, s) && |m'| == |s.m| && s.pc.RxFill?
    requires forall a | 0 <= a < |m'| && Reads(c, s, a) :: m'[a] == s.m[a]
    ensures StepOk(c, s.(m := m'))
    ensures var t, t' := DeviceStep(c, s), DeviceStep(c, s.(m := m')); t' == t.(m := t'.m) && |t'.m| == |m'| == |t.m|
  {
    assert Fits(|s.m|, c.txq) && Fits(|s.m|, c.rxq);
    hide StepOk, DeviceStep, Writes, Reads, FillReads, FillWrites, RxInRam, Scatter, RxChain;
    RxChainFrame(c, s, m');
    FillAction(c, s);
    ScatterFrame(s.m, m', c.rxq, RxChain(c, s), s.pc.pkt);
    RxFillOk(c, s, m');
    FillAction(c, s.(m := m'));
  }

  /** And to each byte of it. */
  lemma FillBytes(c: Config, s: State, m': Memory, a: nat)
    requires StepOk(c, s) && StepOk(c, s.(m := m')) && |m'| == |s.m| && s.pc.RxFill? && a < |m'|
    requires forall a | 0 <= a < |m'| && Reads(c, s, a) :: m'[a] == s.m[a]
    ensures |DeviceStep(c, s.(m := m')).m| == |m'| == |DeviceStep(c, s).m|
    ensures Writes(c, s.(m := m'), a) <==> Writes(c, s, a)
    ensures DeviceStep(c, s.(m := m')).m[a] == if Writes(c, s, a) then DeviceStep(c, s).m[a] else m'[a]
  {
    assert Fits(|s.m|, c.txq) && Fits(|s.m|, c.rxq);
    hide StepOk, DeviceStep, Writes, Reads, FillReads, FillWrites, RxInRam, Scatter, RxChain;
    RxChainFrame(c, s, m');
    FillAction(c, s);
    FillActionWrites(c, s, a);
    ScatterFrame(s.m, m', c.rxq, RxChain(c, s), s.pc.pkt);
    FillAction(c, s.(m := m'));
    FillActionWrites(c, s.(m := m'), a);
  }

  lemma RxFillFrame(c: Config, s: State, m': Memory)
    requires StepOk(c, s) && |m'| == |s.m| && s.pc.RxFill?
    requires forall a | 0 <= a < |m'| && Reads(c, s, a) :: m'[a] == s.m[a]
    ensures SameEffect(c, s, m')
  {
    assert Fits(|s.m|, c.txq) && Fits(|s.m|, c.rxq);
    hide StepOk, DeviceStep, Writes, Reads;
    FillSteps(c, s, m');
    forall a | 0 <= a < |m'|
      ensures Writes(c, s.(m := m'), a) <==> Writes(c, s, a)
      ensures DeviceStep(c, s.(m := m')).m[a] == if Writes(c, s, a) then DeviceStep(c, s).m[a] else m'[a]
    {
      FillBytes(c, s, m', a);
    }
  }

  /** An action is a function of the bytes it reads. */
  lemma ActionFrame(c: Config, s: State, m': Memory)
    requires StepOk(c, s) && |m'| == |s.m|
    requires forall a | 0 <= a < |m'| && Reads(c, s, a) :: m'[a] == s.m[a]
    ensures SameEffect(c, s, m')
  {
    hide Reads, StepOk, SameEffect;
    match s.pc
    case TxHead => TxHeadFrame(c, s, m');
    case TxGather(_, _, _, _) => TxGatherFrame(c, s, m');
    case TxSend(_, _) => TxSendFrame(c, s, m');
    case TxElem(_) => ElemFrame(c, s, m');
    case TxIdx(_) => IndexFrame(c, s, m');
    case RxHead => RxHeadFrame(c, s, m');
    case RxFill(_) => RxFillFrame(c, s, m');
    case RxElem(_, _) => ElemFrame(c, s, m');
    case RxIdx(_, _) => IndexFrame(c, s, m');
  }

  lemma TxSendFrame(c: Config, s: State, m': Memory)
    requires StepOk(c, s) && |m'| == |s.m| && s.pc.TxSend?
    ensures SameEffect(c, s, m')
  {
  }

  /** On memory that agrees on the bytes an action reads, it reads the same bytes. */
  lemma ReadsFrame(c: Config, s: State, m': Memory, a: nat)
    requires StepOk(c, s) && |m'| == |s.m| && a < |m'|
    requires forall b | 0 <= b < |m'| && Reads(c, s, b) :: m'[b] == s.m[b]
    ensures Reads(c, s.(m := m'), a) <==> Reads(c, s, a)
  {
    match s.pc
    case TxHead => SameGet16(s.m, m', c.txq.driver + 2);
    case TxGather(_, cur, chain, _) =>
      if chain < MAX_CHAIN {
        DescFrame(s.m, m', c.txq, cur % c.txq.num);
      }
    case RxFill(pkt) =>
      RxChainFrame(c, s, m');
      FillReadsFrame(s.m, m', c.rxq, RxChain(c, s), pkt, a);
      hide FillReads, RxChain, StepOk;
    case _ =>
  }

  lemma FillReadsFrame(m: Memory, m': Memory, q: Queue, head: U16, pkt: seq<Byte>, a: nat)
    requires Fits(|m|, q) && |m'| == |m|
    requires forall b | 0 <= b < |m| && FillReads(m, q, head, pkt, b) :: m'[b] == m[b]
    ensures FillReads(m', q, head, pkt, a) <==> FillReads(m, q, head, pkt, a)
  {
    DescFrame(m, m', q, head % q.num);
    hide DescAt;
  }
}
