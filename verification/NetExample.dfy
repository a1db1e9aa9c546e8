/** A run the data path's theorems apply to: on two one-entry queues the driver publishes a TX chain
    that holds a header and one byte, and an RX chain with room for as much. The thread puts the byte
    on the TAP and completes the chain, and then delivers a packet that arrives there. */
module NetExample {
  import opened Bytes
  import opened Virtqueue
  import opened NetDataPath

  const CFG: Config := Config(94, Queue(1, 0, 16, 22), Queue(1, 34, 50, 56), 1)

  /** Descriptor 0 of the TX queue names the 13 bytes from 68 on, which end in 7, and descriptor 0 of
      the RX queue the 13 bytes after them, to be written by the device. */
  function Mem(avail: Byte): (m: Memory)
    ensures |m| == 94
  {
    seq(94, i =>
      if i == 0 then 68 else if i == 8 then 13 else if i == 34 then 81 else if i == 42 then 13 else if i == 46 then 2
      else if i == 18 || i == 52 then avail else if i == 80 then 7 else 0)
  }

  function Packet(): seq<Byte> {
    Zeros(NET_HDR) + [7]
  }

  function Published(): State {
    Boot(Mem(0)).(m := Mem(1), tx := Log([0], [], 0), rx := Log([0], [], 0), txPackets := [Packet()])
  }

  lemma Descriptor(avail: Byte)
    ensures DescAt(Mem(avail), CFG.txq, 0) == Desc(68, 13, 0, 0)
  {
  }

  lemma ChainHolds()
    ensures ChainInRam(Mem(1), CFG.txq, 0, MAX_CHAIN)
    ensures Gather(Mem(1), CFG.txq, 0, MAX_CHAIN, []) == Packet()
    ensures forall a :: TxTouches(Mem(1), CFG.txq, 0, MAX_CHAIN, a) ==> InBytes(a, 0, 16) || InBytes(a, 68, 13)
  {
    Descriptor(1);
    hide DescAt;
    assert Mem(1)[68..81] == Packet();
  }

  lemma RxChainHolds()
    ensures RxSupported(Mem(1), CFG.rxq, 0, CFG.maxPkt)
    ensures forall a :: RxReads(Mem(1), CFG.rxq, 0, a) ==> InBytes(a, 34, 16)
    ensures forall a :: RxWrites(Mem(1), CFG.rxq, 0, a) ==> InBytes(a, 81, 13)
  {
    assert DescAt(Mem(1), CFG.rxq, 0) == Desc(81, 13, 2, 0);
    hide DescAt, Mem;
  }

  lemma ChainsConform()
    ensures DriverOk(CFG, Mem(1), Log([0], [], 0), Log([0], [], 0))
  {
    ChainHolds();
    RxChainHolds();
    hide ChainInRam, Gather, TxTouches, Mem, RxReads, RxWrites, RxSupported;
  }

  /** A driver's first step on fresh queues: head 0 of each. */
  lemma FirstPublication(c: Config, m: Memory, m': Memory, pkt: seq<Byte>)
    requires Fits(|m|, c.txq) && Fits(|m|, c.rxq) && |m'| == |m|
    requires AvailOk(m', c.txq, Log([0], [], 0)) && AvailOk(m', c.rxq, Log([0], [], 0))
    requires DriverOk(c, m', Log([0], [], 0), Log([0], [], 0))
    requires forall a | 0 <= a < |m| && HostOwned(c, a) :: m'[a] == m[a]
    requires ChainInRam(m', c.txq, 0, MAX_CHAIN) && Gather(m', c.txq, 0, MAX_CHAIN, []) == pkt
    ensures DriverStep(c, Boot(m), Boot(m).(m := m', tx := Log([0], [], 0), rx := Log([0], [], 0), txPackets := [pkt]))
  {
    hide AvailOk, DriverOk, HostOwned, ChainInRam, Gather, TxTouches, RxReads, RxWrites;
  }

  lemma RingsPublished()
    ensures AvailOk(Mem(1), CFG.txq, Log([0], [], 0)) && AvailOk(Mem(1), CFG.rxq, Log([0], [], 0))
  {
  }

  lemma UsedRingsSame()
    ensures forall a | 0 <= a < 94 && HostOwned(CFG, a) :: Mem(1)[a] == Mem(0)[a]
  {
  }

  lemma DriverPublishes()
    ensures DriverStep(CFG, Boot(Mem(0)), Published())
  {
    hide *;
    RingsPublished();
    UsedRingsSame();
    ChainsConform();
    ChainHolds();
    ConfigFits();
    FirstPublication(CFG, Mem(0), Mem(1), Packet());
    PublishedIs();
  }

  lemma ConfigFits()
    ensures Fits(|Mem(0)|, CFG.txq) && Fits(|Mem(0)|, CFG.rxq)
  {
  }

  lemma PublishedIs()
    ensures Published() ==
      Boot(Mem(0)).(m := Mem(1), tx := Log([0], [], 0), rx := Log([0], [], 0), txPackets := [Packet()])
  {
  }

  /** The thread's actions for the chain, with what each leaves behind. */
  function Gathering(): State {
    Published().(pc := TxGather(0, 0, 0, []))
  }

  function Sending(): State {
    Published().(pc := TxSend(0, Packet()))
  }

  function Sent(): State {
    Published().(tapOut := [[7]], pc := TxElem(0))
  }

  /** s' is what the thread makes of s. */
  ghost predicate Acts(s: State, s': State) {
    |s.m| == |s'.m| == CFG.ram && StepOk(CFG, s) && s' == DeviceStep(CFG, s)
  }

  lemma Claims()
    ensures Acts(Published(), Gathering())
  {
    hide Gather, ChainInRam, Packet;
  }

  lemma Appends()
    ensures Append(Mem(1), Desc(68, 13, 0, 0), []) == Packet()
  {
    assert [] + Mem(1)[68..81] == Packet();
  }

  lemma LastDescriptor(c: Config, s: State, cur: U16, d: Desc, out: seq<Byte>)
    requires StepOk(c, s) && s.pc == TxGather(cur, cur, 0, [])
    requires d == DescAt(s.m, c.txq, cur % c.txq.num) && !HasNext(d)
    requires (d.addr < |s.m| ==> d.addr + d.len <= |s.m|) && out == Append(s.m, d, [])
    ensures DeviceStep(c, s) == s.(pc := TxSend(cur, out))
  {
    hide DescAt, Append, ChainInRam;
  }

  lemma GatherReady()
    ensures StepOk(CFG, Gathering()) && |Gathering().m| == CFG.ram && Gathering().m == Mem(1) && CFG.txq.num == 1
    ensures Gathering().pc == TxGather(0, 0, 0, []) && Sending() == Gathering().(pc := TxSend(0, Packet()))
  {
    Descriptor(1);
    hide Mem, DescAt, ChainInRam, Gather, Packet, TxTouches;
  }

  lemma Gathers()
    ensures Acts(Gathering(), Sending())
  {
    hide Mem, DescAt, ChainInRam, Gather, Append, Packet, TxTouches, DeviceStep, StepOk, Gathering, Sending, Published;
    GatherReady();
    Descriptor(1);
    Appends();
    LastDescriptor(CFG, Gathering(), 0, Desc(68, 13, 0, 0), Packet());
  }

  lemma Sends()
    ensures Acts(Sending(), Sent())
  {
    assert Packet()[NET_HDR..] == [7];
  }

  /** The byte is on the TAP, its chain completed, and the RX chain waits. */
  ghost predicate TxDone(s: State) {
    && s.pc.TxHead? && s.tapOut == [[7]] && s.tx.done == [UsedElem(0, 0)] && s.tx.heads == [0]
    && s.rx == Log([0], [], 0) && s.tapIn == [] && s.delivered == []
  }

  lemma Completes() returns (s: State, s': State)
    ensures Acts(Sent(), s) && Acts(s, s') && TxDone(s')
  {
    hide WriteUsedElem, WriteUsedIdx;
    s := DeviceStep(CFG, Sent());
    s' := DeviceStep(CFG, s);
  }

  lemma Starts()
    ensures ValidConfig(CFG) && Inv(CFG, Boot(Mem(0))) && |Boot(Mem(0)).m| == CFG.ram
  {
    hide Inv;
    BootInv(CFG, Mem(0));
  }

  lemma ActsIsNext(s: State, s': State)
    requires ValidConfig(CFG) && Acts(s, s')
    ensures Next(CFG, s, s')
  {
    hide DriverStep, StepOk, DeviceStep;
    assert By(CFG, Thread, s, s');
  }

  lemma TransmitRun(s0: State, s1: State, s2: State, s3: State, s4: State, s5: State, s6: State)
    requires ValidConfig(CFG) && |s0.m| == CFG.ram && DriverStep(CFG, s0, s1)
    requires Acts(s1, s2) && Acts(s2, s3) && Acts(s3, s4) && Acts(s4, s5) && Acts(s5, s6)
    ensures IsRun(CFG, [s0, s1, s2, s3, s4, s5, s6])
  {
    hide DriverStep, StepOk, DeviceStep, ValidConfig;
    ActsIsNext(s1, s2);
    ActsIsNext(s2, s3);
    ActsIsNext(s3, s4);
    ActsIsNext(s4, s5);
    ActsIsNext(s5, s6);
    assert By(CFG, Driver, s0, s1);
    hide Next;
  }

  /** One action of the thread, from anywhere in the invariant. */
  lemma ThreadActs(s: State) returns (s': State)
    requires ValidConfig(CFG) && Inv(CFG, s) && |s.m| == CFG.ram
    ensures StepOk(CFG, s) && s' == DeviceStep(CFG, s) && Acts(s, s') && Inv(CFG, s')
  {
    DeviceKeepsInv(CFG, s);
    s' := DeviceStep(CFG, s);
    hide Inv, StepOk, DeviceStep;
    SizeFixed(CFG, s');
  }

  /** With nothing to send, the thread turns to reception. */
  lemma TurnsToRx(s: State) returns (s': State)
    requires ValidConfig(CFG) && Inv(CFG, s) && |s.m| == CFG.ram && TxDone(s)
    ensures Acts(s, s') && Inv(CFG, s') && s' == s.(pc := RxHead)
  {
    s' := ThreadActs(s);
    TxHeadKeeps(CFG, s);
    hide Inv, StepOk;
  }

  lemma TakesPacket(s: State, pkt: seq<Byte>) returns (s': State)
    requires ValidConfig(CFG) && Inv(CFG, s) && |s.m| == CFG.ram && s.pc.RxHead? && s.tapIn == [pkt]
    requires Used(s.rx) < Avail(s.rx)
    ensures Acts(s, s') && Inv(CFG, s') && s' == s.(pc := RxFill(pkt), tapIn := [])
  {
    s' := ThreadActs(s);
    RxHeadKeeps(CFG, s);
    hide Inv, StepOk;
  }

  lemma FillsChain(s: State, pkt: seq<Byte>) returns (s': State)
    requires ValidConfig(CFG) && Inv(CFG, s) && |s.m| == CFG.ram && s.pc == RxFill(pkt)
    ensures Acts(s, s') && Inv(CFG, s') && s'.pc.RxElem? && s'.pc.pkt == pkt && s' == s.(m := s'.m, pc := s'.pc)
  {
    s' := ThreadActs(s);
    RxFillKeeps(CFG, s);
    hide Inv, StepOk, Scatter;
  }

  lemma WritesRxElem(s: State) returns (s': State)
    requires ValidConfig(CFG) && Inv(CFG, s) && |s.m| == CFG.ram && s.pc.RxElem?
    ensures Acts(s, s') && Inv(CFG, s') && |s'.m| == CFG.ram
    ensures s' == s.(m := s'.m, pc := RxIdx(s.pc.head, s.pc.pkt))
  {
    s' := ThreadActs(s);
    hide Inv, StepOk, WriteUsedElem, ValidConfig;
  }

  lemma WritesRxIdx(s: State) returns (s': State)
    requires ValidConfig(CFG) && Inv(CFG, s) && |s.m| == CFG.ram && s.pc.RxIdx?
    ensures Acts(s, s') && s'.delivered == s.delivered + [s.pc.pkt] && s'.tapOut == s.tapOut && s'.tx == s.tx
    ensures s'.rx.done == s.rx.done + [UsedElem(s.pc.head, NET_HDR + |s.pc.pkt|)]
  {
    s' := ThreadActs(s);
    hide Inv, StepOk, WriteUsedIdx, ValidConfig;
  }

  lemma CompletesRx(s: State, pkt: seq<Byte>) returns (s': State, s'': State)
    requires ValidConfig(CFG) && Inv(CFG, s) && |s.m| == CFG.ram && s.pc.RxElem? && s.pc.pkt == pkt
    ensures Acts(s, s') && Acts(s', s'') && s''.delivered == s.delivered + [pkt]
    ensures s''.tapOut == s.tapOut && s''.tx == s.tx
    ensures |s''.rx.done| == |s.rx.done| + 1 && s''.rx.done[|s.rx.done|].len == NET_HDR + |pkt|
  {
    hide *;
    s' := WritesRxElem(s);
    s'' := WritesRxIdx(s');
  }

  lemma ReceiveRun(s0: State, s1: State, s2: State, s3: State, s4: State, s5: State, s6: State, pkt: seq<Byte>)
    requires ValidConfig(CFG) && Acts(s0, s1) && 0 < |pkt| <= CFG.maxPkt && s2 == Arrive(s1, pkt)
    requires Acts(s2, s3) && Acts(s3, s4) && Acts(s4, s5) && Acts(s5, s6)
    ensures IsRun(CFG, [s0, s1, s2, s3, s4, s5, s6])
  {
    hide DriverStep, StepOk, DeviceStep, ValidConfig;
    ActsIsNext(s0, s1);
    assert By(CFG, Tap, s1, s2);
    ActsIsNext(s2, s3);
    ActsIsNext(s3, s4);
    ActsIsNext(s4, s5);
    ActsIsNext(s5, s6);
    hide Next;
  }

  /** A run from a fresh device that ends with the byte 7 on the TAP, the packet 9 delivered and both
      chains completed. */
  ghost predicate Delivers(run: seq<State>) {
    && ValidConfig(CFG) && IsRun(CFG, run) && Inv(CFG, run[0]) && run[0] == Boot(Mem(0))
    && var last := run[|run| - 1];
    && last.tapOut == [[7]] && last.tx.done == [UsedElem(0, 0)]
    && last.delivered == [[9]] && |last.rx.done| == 1 && last.rx.done[0].len == NET_HDR + 1
  }

  lemma RunsJoin(first: seq<State>, second: seq<State>)
    requires ValidConfig(CFG) && IsRun(CFG, first) && IsRun(CFG, second) && first[|first| - 1] == second[0]
    ensures IsRun(CFG, first + second[1..])
  {
    hide Next;
    var run := first + second[1..];
    forall i | 0 <= i < |run| - 1 ensures Next(CFG, run[i], run[i + 1]) {
      if i >= |first| - 1 {
        assert run[i] == second[i + 1 - |first|] && run[i + 1] == second[i + 2 - |first|];
      }
    }
  }

  lemma Transmits() returns (run: seq<State>)
    ensures ValidConfig(CFG) && IsRun(CFG, run) && Inv(CFG, run[0]) && run[0] == Boot(Mem(0))
    ensures TxDone(run[|run| - 1])
  {
    hide *;
    Starts();
    DriverPublishes();
    Claims();
    Gathers();
    Sends();
    var s, s' := Completes();
    TransmitRun(Boot(Mem(0)), Published(), Gathering(), Sending(), Sent(), s, s');
    run := [Boot(Mem(0)), Published(), Gathering(), Sending(), Sent(), s, s'];
  }

  lemma Receives(s: State) returns (run: seq<State>)
    requires ValidConfig(CFG) && Inv(CFG, s) && |s.m| == CFG.ram && TxDone(s)
    ensures IsRun(CFG, run) && run[0] == s && |run| > 1
    ensures var last := run[|run| - 1];
      && last.tapOut == [[7]] && last.tx.done == [UsedElem(0, 0)]
      && last.delivered == [[9]] && |last.rx.done| == 1 && last.rx.done[0].len == NET_HDR + 1
  {
    hide Inv, DeviceStep, StepOk, ValidConfig, Acts, IsRun;
    var pkt: seq<Byte> := [9];
    var s1 := TurnsToRx(s);
    ArrivalKeepsInv(CFG, s1, pkt);
    var s2 := Arrive(s1, pkt);
    var s3 := TakesPacket(s2, pkt);
    var s4 := FillsChain(s3, pkt);
    SizeFixed(CFG, s4);
    var s5, s6 := CompletesRx(s4, pkt);
    ReceiveRun(s, s1, s2, s3, s4, s5, s6, pkt);
    run := [s, s1, s2, s3, s4, s5, s6];
  }

  lemma OnePacketRun()
    ensures exists run: seq<State> :: Delivers(run)
  {
    hide Inv, Mem, Boot, Next, ValidConfig;
    var first := Transmits();
    var n := |first| - 1;
    RunKeepsInv(CFG, first, n);
    var second := Receives(first[n]);
    RunsJoin(first, second);
    var run := first + second[1..];
    assert run[|run| - 1] == second[|second| - 1];
    assert Delivers(run);
  }
}
