/** Progress of the net thread's two loops, on every run and however driver and TAP interleave: the TX
    loop drains its queue, the RX loop delivers what waits, and neither keeps the thread from the other
    for longer than its own work takes. */
module NetProgress {
  import opened Bytes
  import opened Virtqueue
  import opened NetDataPath

  // ---- A claimed TX chain ------------------------------------------------

  /** Thread actions left before the current TX chain is completed. */
  function TxRank(pc: Pc): int {
    match pc
    case TxGather(_, _, chain, _) => MAX_CHAIN - chain + 4
    case TxSend(_, _) => 3
    case TxElem(_) => 2
    case TxIdx(_) => 1
    case _ => 0
  }

  /** A thread action inside a chain brings its completion nearer, and the last one is the completion. */
  lemma TxAdvances(c: Config, s: State)
    requires ValidConfig(c) && Inv(c, s) && StepOk(c, s)
    ensures 0 <= TxRank(s.pc) <= 68
    ensures var s' := DeviceStep(c, s);
      && s'.tx.heads == s.tx.heads
      && (TxRank(s.pc) > 1 ==> 0 < TxRank(s'.pc) < TxRank(s.pc) && s'.tx == s.tx)
      && (TxRank(s.pc) == 1 ==>
            Used(s.tx) < Avail(s.tx) && s'.tx.done == s.tx.done + [UsedElem(s.tx.heads[Used(s.tx)], 0)])
  {
    hide MemOk, Traffic, Fifo;
  }

  /** The others leave the thread where it is and take nothing away. */
  lemma OthersTurn(c: Config, who: Actor, s: State, s': State)
    requires Fits(|s.m|, c.txq) && Fits(|s.m|, c.rxq) && By(c, who, s, s') && !who.Thread?
    ensures s'.pc == s.pc && s'.tx.done == s.tx.done && s'.delivered == s.delivered && s'.rx.done == s.rx.done
    ensures s.tx.heads <= s'.tx.heads && s.rx.heads <= s'.rx.heads && s.tapIn <= s'.tapIn
  {
    hide DriverOk, AvailOk, TxTouches, RxReads, RxWrites, Gather;
  }

  lemma ClaimedIsAvailable(c: Config, s: State)
    requires ValidConfig(c) && Inv(c, s) && TxRank(s.pc) > 0
    ensures TxRank(s.pc) <= 68 && Used(s.tx) < Avail(s.tx)
  {
    hide MemOk, Traffic, Fifo;
  }

  /** From s to s' the claimed chain came at least one action of the actor nearer, or was completed. */
  ghost predicate Nears(who: Actor, s: State, s': State) {
    && Used(s.tx) < Avail(s.tx) && s.tx.heads <= s'.tx.heads
    && if who.Thread? && TxRank(s.pc) == 1 then s'.tx.done == s.tx.done + [UsedElem(s.tx.heads[Used(s.tx)], 0)]
       else s'.tx.done == s.tx.done && 0 < TxRank(s'.pc) <= TxRank(s.pc) - (if who.Thread? then 1 else 0)
  }

  lemma StepNears(c: Config, who: Actor, s: State, s': State)
    requires ValidConfig(c) && Inv(c, s) && |s.m| == c.ram && By(c, who, s, s') && TxRank(s.pc) > 0
    ensures Inv(c, s') && Nears(who, s, s') && TxRank(s.pc) <= 68
  {
    hide Inv, DeviceStep, DriverStep, StepOk, TxRank;
    ClaimedIsAvailable(c, s);
    assert Next(c, s, s');
    NextKeepsInv(c, s, s');
    InvStepOk(c, s);
    TxAdvances(c, s);
    if !who.Thread? {
      OthersTurn(c, who, s, s');
    }
  }

  ghost predicate IsRunBy(c: Config, run: seq<State>, who: seq<Actor>)
    requires ValidConfig(c)
  {
    && |run| == |who| + 1
    && (forall i | 0 <= i < |run| :: |run[i].m| == c.ram)
    && (forall i | 0 <= i < |who| :: By(c, who[i], run[i], run[i + 1]))
  }

  function ThreadActions(who: seq<Actor>): nat {
    if who == [] then 0 else (if who[0].Thread? then 1 else 0) + ThreadActions(who[1..])
  }

  /** Step i, a thread action with fewer than n before it, appends e to the completions: up to there
      they are as at the start, and from there on e follows them. */
  ghost predicate CompletesAt(run: seq<State>, who: seq<Actor>, e: UsedElem, n: nat, i: nat) {
    && |run| == |who| + 1 && i < |who| && who[i].Thread? && ThreadActions(who[..i]) < n
    && (forall j | 0 <= j <= i :: run[j].tx.done == run[0].tx.done)
    && (forall j | i < j < |run| :: run[0].tx.done + [e] <= run[j].tx.done)
  }

  lemma RestOfRun(c: Config, run: seq<State>, who: seq<Actor>)
    requires ValidConfig(c) && IsRunBy(c, run, who) && who != []
    ensures IsRunBy(c, run[1..], who[1..])
  {
    hide By;
  }

  lemma {:induction false} RunByContinues(c: Config, run: seq<State>, who: seq<Actor>, j: nat)
    requires ValidConfig(c) && IsRunBy(c, run, who) && j < |run|
    ensures Continues(run[0], run[j])
  {
    hide By;
    if j > 0 {
      RunByContinues(c, run, who, j - 1);
      assert Next(c, run[j - 1], run[j]);
      NextContinues(c, run[j - 1], run[j]);
    }
  }

  /** A completion now. */
  lemma CompletesNow(c: Config, run: seq<State>, who: seq<Actor>, e: UsedElem, n: nat)
    requires ValidConfig(c) && IsRunBy(c, run, who) && who != [] && who[0].Thread? && n > 0
    requires run[1].tx.done == run[0].tx.done + [e]
    ensures CompletesAt(run, who, e, n, 0)
  {
    RestOfRun(c, run, who);
    hide IsRunBy;
    forall j | 0 < j < |run| ensures run[0].tx.done + [e] <= run[j].tx.done {
      RunByContinues(c, run[1..], who[1..], j - 1);
    }
  }

  lemma CompletesLater(run: seq<State>, who: seq<Actor>, e: UsedElem, n: nat, i: nat, m: nat)
    requires |run| == |who| + 1 > 1 && CompletesAt(run[1..], who[1..], e, n, i) && run[1].tx.done == run[0].tx.done
    requires m >= n + if who[0].Thread? then 1 else 0
    ensures CompletesAt(run, who, e, m, i + 1)
  {
    var rest := run[1..];
    assert who[..i + 1][1..] == who[1..][..i];
    assert forall j | 1 <= j < |run| :: run[j] == rest[j - 1];
  }

  /** Whatever the chain looks like, cyclic ones included, and however driver and TAP interleave: once a
      head is claimed, any run with at least as many thread actions as its rank, which is at most 68,
      completes it within them, and exactly once. */
  lemma {:induction false} TxProgress(c: Config, run: seq<State>, who: seq<Actor>)
    requires ValidConfig(c) && IsRunBy(c, run, who) && Inv(c, run[0])
    requires 0 < TxRank(run[0].pc) <= ThreadActions(who)
    ensures TxRank(run[0].pc) <= 68 && Used(run[0].tx) < Avail(run[0].tx)
    ensures exists i: nat :: CompletesAt(run, who, UsedElem(run[0].tx.heads[Used(run[0].tx)], 0), TxRank(run[0].pc), i)
    decreases |who|
  {
    hide Inv, By, TxRank, CompletesAt;
    var s, s' := run[0], run[1];
    StepNears(c, who[0], s, s');
    var e, n := UsedElem(s.tx.heads[Used(s.tx)], 0), TxRank(s.pc);
    if who[0].Thread? && n == 1 {
      CompletesNow(c, run, who, e, n);
    } else {
      RestOfRun(c, run, who);
      TxProgress(c, run[1..], who[1..]);
      var i: nat :| CompletesAt(run[1..], who[1..], e, TxRank(s'.pc), i);
      CompletesLater(run, who, e, TxRank(s'.pc), i, n);
    }
  }

  // ---- One turn of the thread ---------------------------------------------

  /** Where the thread goes from each point of its two loops, and what that adds to the logs. */
  lemma ThreadTurns(c: Config, s: State)
    requires ValidConfig(c) && Inv(c, s) && StepOk(c, s)
    ensures var s' := DeviceStep(c, s);
      && s'.tx.heads == s.tx.heads && s'.rx.heads == s.rx.heads
      && (s.pc.TxHead? ==> if Used(s.tx) < Avail(s.tx) then TxRank(s'.pc) == 68 else s'.pc.RxHead?)
      && (s.pc.TxIdx? ==> s'.pc.TxHead? && Used(s'.tx) == Used(s.tx) + 1)
      && (s.pc.RxHead? ==> if Used(s.rx) < Avail(s.rx) && s.tapIn != [] then s'.pc.RxFill? else s'.pc.TxHead?)
      && (s.pc.RxFill? ==> s'.pc.RxElem?)
      && (s.pc.RxElem? ==> s'.pc.RxIdx?)
      && (s.pc.RxIdx? ==> s'.pc.RxHead? && |s'.delivered| == |s.delivered| + 1)
      && (!s.pc.TxIdx? ==> s'.tx.done == s.tx.done)
      && (!s.pc.RxIdx? ==> s'.delivered == s.delivered && s'.rx == s.rx)
      && |InFlight(s'.pc)| + |s'.tapIn| + |s'.delivered| == |InFlight(s.pc)| + |s.tapIn| + |s.delivered|
  {
    hide Inv, Scatter, WriteUsedElem, WriteUsedIdx, Append, StepOk, ValidConfig;
    if s.pc.TxHead? {
      TxHeadKeeps(c, s);
    } else if s.pc.RxHead? {
      RxHeadKeeps(c, s);
    } else if s.pc.RxFill? {
      RxFillKeeps(c, s);
    }
  }

  /** 1 for an action of the thread. */
  function Cost(who: Actor): nat {
    if who.Thread? then 1 else 0
  }

  // ---- To the next TX completion, from anywhere ---------------------------

  /** Thread actions until the next available TX chain is completed, besides four for every packet
      delivered on the way. */
  function TxBudget(pc: Pc): int {
    match pc
    case TxHead => 69
    case RxHead => 70
    case RxFill(_) => 69
    case RxElem(_, _) => 68
    case RxIdx(_, _) => 67
    case _ => TxRank(pc)
  }

  /** s' is s one action of who nearer to the next TX completion. */
  ghost predicate TowardsTx(who: Actor, s: State, s': State) {
    && s'.tx.done == s.tx.done && s.tx.heads <= s'.tx.heads && |s.delivered| <= |s'.delivered|
    && TxBudget(s'.pc) + Cost(who) <= TxBudget(s.pc) + 4 * (|s'.delivered| - |s.delivered|)
  }

  lemma ThreadTowardsTx(c: Config, s: State)
    requires ValidConfig(c) && Inv(c, s) && StepOk(c, s) && TxRank(s.pc) == 0 && Used(s.tx) < Avail(s.tx)
    ensures TowardsTx(Thread, s, DeviceStep(c, s))
  {
    hide Inv, DeviceStep, StepOk, ValidConfig;
    RankIsPositive(c, s);
    ThreadTurns(c, s);
    ClaimedBudget(DeviceStep(c, s).pc);
    hide TxRank;
  }

  lemma TurnTowardsTx(c: Config, who: Actor, s: State, s': State)
    requires ValidConfig(c) && Inv(c, s) && |s.m| == c.ram && By(c, who, s, s')
    requires TxRank(s.pc) == 0 && Used(s.tx) < Avail(s.tx)
    ensures Inv(c, s') && TowardsTx(who, s, s')
  {
    hide Inv, DeviceStep, DriverStep, StepOk, TxRank, TxBudget;
    StepKeeps(c, who, s, s');
    if who.Thread? {
      ThreadTowardsTx(c, s);
    } else {
      OthersTurn(c, who, s, s');
    }
  }

  lemma StepKeeps(c: Config, who: Actor, s: State, s': State)
    requires ValidConfig(c) && Inv(c, s) && |s.m| == c.ram && By(c, who, s, s')
    ensures StepOk(c, s) && Inv(c, s')
  {
    hide Inv, DeviceStep, DriverStep, StepOk;
    assert Next(c, s, s');
    NextKeepsInv(c, s, s');
    InvStepOk(c, s);
  }

  lemma RankIsPositive(c: Config, s: State)
    requires ValidConfig(c) && Inv(c, s)
    ensures TxRank(s.pc) == 0 <==> s.pc.TxHead? || s.pc.RxHead? || s.pc.RxFill? || s.pc.RxElem? || s.pc.RxIdx?
    ensures TxRank(s.pc) >= 0 && 0 < TxBudget(s.pc) <= 70
  {
    hide MemOk, Traffic, Fifo;
  }

  lemma CompletesWeaken(run: seq<State>, who: seq<Actor>, e: UsedElem, n: nat, m: nat, i: nat)
    requires CompletesAt(run, who, e, n, i) && n <= m
    ensures CompletesAt(run, who, e, m, i)
  {
  }

  /** From any point of the thread's two loops: a run with enough thread actions, at most 70 and four more
      for every packet it delivers, completes the next available TX chain within them, and exactly
      once. So the RX loop returns to TX. */
  lemma {:induction false} TxCompletes(c: Config, run: seq<State>, who: seq<Actor>, n: nat)
    requires ValidConfig(c) && IsRunBy(c, run, who) && Inv(c, run[0]) && Used(run[0].tx) < Avail(run[0].tx)
    requires ThreadActions(who) >= n >= TxBudget(run[0].pc) + 4 * (|run[|who|].delivered| - |run[0].delivered|)
    ensures 0 < TxBudget(run[0].pc) <= 70
    ensures exists i: nat :: CompletesAt(run, who, UsedElem(run[0].tx.heads[Used(run[0].tx)], 0), n, i)
    decreases |who|
  {
    hide Inv, By, TxRank, TxBudget, CompletesAt, Continues, ValidConfig;
    var s := run[0];
    var e := UsedElem(s.tx.heads[Used(s.tx)], 0);
    DeliveredGrows(c, run, who);
    RankIsPositive(c, s);
    if TxRank(s.pc) > 0 {
      ClaimedBudget(s.pc);
      TxProgress(c, run, who);
      var i: nat :| CompletesAt(run, who, e, TxRank(s.pc), i);
      CompletesWeaken(run, who, e, TxRank(s.pc), n, i);
    } else {
      var rest, m := run[1..], n - Cost(who[0]);
      TurnTowardsTx(c, who[0], s, run[1]);
      RestOfRun(c, run, who);
      assert rest[|who| - 1] == run[|who|];
      TxCompletes(c, rest, who[1..], m);
      var i: nat :| CompletesAt(rest, who[1..], e, m, i);
      CompletesLater(run, who, e, m, i, n);
    }
  }

  lemma DeliveredGrows(c: Config, run: seq<State>, who: seq<Actor>)
    requires ValidConfig(c) && IsRunBy(c, run, who)
    ensures |run[0].delivered| <= |run[|who|].delivered| && Used(run[0].tx) <= Used(run[|who|].tx)
  {
    hide By, ValidConfig;
    RunByContinues(c, run, who, |who|);
  }

  lemma ClaimedBudget(pc: Pc)
    ensures TxRank(pc) > 0 ==> TxBudget(pc) == TxRank(pc)
  {
  }

  /** Packets that arrive. */
  function Arrivals(who: seq<Actor>): nat {
    if who == [] then 0 else (if who[0].Tap? then 1 else 0) + Arrivals(who[1..])
  }

  lemma OneArrival(c: Config, who: Actor, s: State, s': State)
    requires Fits(|s.m|, c.txq) && Fits(|s.m|, c.rxq) && By(c, who, s, s')
    ensures |s'.arrived| == |s.arrived| + if who.Tap? then 1 else 0
  {
    hide DriverOk, AvailOk, TxTouches, RxReads, RxWrites, Gather, StepOk, Scatter, WriteUsedElem, WriteUsedIdx, Append;
  }

  lemma {:induction false} ArrivalsCount(c: Config, run: seq<State>, who: seq<Actor>)
    requires ValidConfig(c) && IsRunBy(c, run, who)
    ensures |run[|who|].arrived| == |run[0].arrived| + Arrivals(who)
    decreases |who|
  {
    hide By;
    if who != [] {
      RestOfRun(c, run, who);
      OneArrival(c, who[0], run[0], run[1]);
      assert run[1..][|who| - 1] == run[|who|];
      ArrivalsCount(c, run[1..], who[1..]);
    }
  }

  lemma {:induction false} RunByKeepsInv(c: Config, run: seq<State>, who: seq<Actor>, j: nat)
    requires ValidConfig(c) && IsRunBy(c, run, who) && Inv(c, run[0]) && j < |run|
    ensures Inv(c, run[j])
  {
    hide By, Inv;
    if j > 0 {
      RunByKeepsInv(c, run, who, j - 1);
      StepKeeps(c, who[j - 1], run[j - 1], run[j]);
    }
  }

  /** A run delivers no more than what was under way or arrives, and no more than it finds RX buffers for. */
  lemma DeliveriesBounded(c: Config, run: seq<State>, who: seq<Actor>)
    requires ValidConfig(c) && IsRunBy(c, run, who) && Inv(c, run[0])
    ensures var s, s' := run[0], run[|who|];
      && |s'.delivered| - |s.delivered| <= |InFlight(s.pc)| + |s.tapIn| + Arrivals(who)
      && |s'.delivered| - |s.delivered| <= Avail(s'.rx) - Used(s.rx)
  {
    hide By;
    RunByKeepsInv(c, run, who, |who|);
    ArrivalsCount(c, run, who);
    hide IsRunBy;
    InvCounts(c, run[0]);
    InvCounts(c, run[|who|]);
  }

  lemma InvCounts(c: Config, s: State)
    requires ValidConfig(c) && Inv(c, s)
    ensures |s.arrived| == |s.delivered| + |InFlight(s.pc)| + |s.tapIn| && |s.delivered| == Used(s.rx) <= Avail(s.rx)
  {
    hide MemOk, PcOk, OnTap;
    assert |s.delivered + InFlight(s.pc) + s.tapIn| == |s.delivered| + |InFlight(s.pc)| + |s.tapIn|;
  }

  /** Hence within a number of thread actions that is fixed by the packets waiting and arriving, and also
      by the RX buffers the driver supplies: with no arrivals or no buffers RX cannot hold TX up. */
  lemma TxCompletesInTime(c: Config, run: seq<State>, who: seq<Actor>, k: nat, n: nat)
    requires ValidConfig(c) && IsRunBy(c, run, who) && Inv(c, run[0]) && Used(run[0].tx) < Avail(run[0].tx)
    requires || k == |InFlight(run[0].pc)| + |run[0].tapIn| + Arrivals(who)
             || k == Avail(run[|who|].rx) - Used(run[0].rx)
    requires ThreadActions(who) >= n >= 70 + 4 * k
    ensures exists i: nat :: CompletesAt(run, who, UsedElem(run[0].tx.heads[Used(run[0].tx)], 0), n, i)
  {
    hide By, Inv, TxBudget, CompletesAt, ValidConfig;
    DeliveriesBounded(c, run, who);
    RankIsPositive(c, run[0]);
    TxCompletes(c, run, who, n);
  }

  // ---- To the next delivery, from anywhere --------------------------------

  /** A packet is under way and an RX chain is there for it. */
  predicate Waiting(s: State) {
    Used(s.rx) < Avail(s.rx) && |InFlight(s.pc)| + |s.tapIn| > 0
  }

  /** Thread actions until the next delivery, besides 69 for every TX chain completed on the way. */
  function RxBudget(pc: Pc): int {
    match pc
    case RxIdx(_, _) => 1
    case RxElem(_, _) => 2
    case RxFill(_) => 3
    case RxHead => 4
    case TxHead => 74
    case _ => TxRank(pc) + 5
  }

  ghost predicate TowardsRx(who: Actor, s: State, s': State) {
    || |s'.delivered| > |s.delivered|
    || (&& s'.delivered == s.delivered && Waiting(s') && Used(s.tx) <= Used(s'.tx)
        && RxBudget(s'.pc) + Cost(who) <= RxBudget(s.pc) + 69 * (Used(s'.tx) - Used(s.tx)))
  }

  lemma ThreadTowardsRx(c: Config, s: State)
    requires ValidConfig(c) && Inv(c, s) && StepOk(c, s) && Waiting(s)
    ensures TowardsRx(Thread, s, DeviceStep(c, s))
  {
    hide Inv, DeviceStep, StepOk, ValidConfig;
    RankIsPositive(c, s);
    ThreadTurns(c, s);
    TxAdvances(c, s);
    ClaimedRxBudget(s.pc);
    ClaimedRxBudget(DeviceStep(c, s).pc);
    hide TxRank;
  }

  lemma ClaimedRxBudget(pc: Pc)
    ensures TxRank(pc) > 0 ==> RxBudget(pc) == TxRank(pc) + 5
    ensures pc.TxIdx? ==> TxRank(pc) == 1
  {
  }

  lemma TurnTowardsRx(c: Config, who: Actor, s: State, s': State)
    requires ValidConfig(c) && Inv(c, s) && |s.m| == c.ram && By(c, who, s, s') && Waiting(s)
    ensures Inv(c, s') && TowardsRx(who, s, s')
  {
    hide Inv, DeviceStep, DriverStep, StepOk, TxRank, RxBudget;
    StepKeeps(c, who, s, s');
    if who.Thread? {
      ThreadTowardsRx(c, s);
    } else {
      OthersTurn(c, who, s, s');
    }
  }

  /** From any point of the two loops: a run with enough thread actions, at most 74 and 69 more for every
      TX chain it completes, delivers the packet that waits. So the TX loop goes on to RX. */
  lemma {:induction false} RxDelivers(c: Config, run: seq<State>, who: seq<Actor>)
    requires ValidConfig(c) && IsRunBy(c, run, who) && Inv(c, run[0]) && Waiting(run[0])
    requires ThreadActions(who) >= RxBudget(run[0].pc) + 69 * (Used(run[|who|].tx) - Used(run[0].tx))
    ensures RxBudget(run[0].pc) <= 74
    ensures |run[0].delivered| < |run[0].arrived| && |run[0].delivered| < |run[|who|].delivered|
    ensures run[|who|].delivered[|run[0].delivered|] == run[0].arrived[|run[0].delivered|]
    decreases |who|
  {
    hide Inv, By, RxBudget, Waiting, ValidConfig;
    var s := run[0];
    DeliveredGrows(c, run, who);
    RxBudgetBound(c, s);
    if |s.delivered| == |run[|who|].delivered| {
      var rest := run[1..];
      TurnTowardsRx(c, who[0], s, run[1]);
      RestOfRun(c, run, who);
      assert rest[|who| - 1] == run[|who|];
      DeliveredGrows(c, rest, who[1..]);
      RxDelivers(c, rest, who[1..]);
    }
    NextDelivery(c, run, who);
  }

  lemma RxBudgetBound(c: Config, s: State)
    requires ValidConfig(c) && Inv(c, s) && Waiting(s)
    ensures 0 < RxBudget(s.pc) <= 74 && |s.delivered| < |s.arrived|
  {
    hide Inv, ValidConfig;
    RankIsPositive(c, s);
    InvCounts(c, s);
  }

  /** What is delivered is the head of what had arrived. */
  lemma NextDelivery(c: Config, run: seq<State>, who: seq<Actor>)
    requires ValidConfig(c) && IsRunBy(c, run, who) && Inv(c, run[0])
    requires |run[0].delivered| < |run[0].arrived| && |run[0].delivered| < |run[|who|].delivered|
    ensures run[|who|].delivered[|run[0].delivered|] == run[0].arrived[|run[0].delivered|]
  {
    hide By, Inv;
    RunByKeepsInv(c, run, who, |who|);
    RunByContinues(c, run, who, |who|);
    DeliveredArrived(c, run[|who|]);
  }

  lemma DeliveredArrived(c: Config, s: State)
    requires ValidConfig(c) && Inv(c, s)
    ensures s.delivered <= s.arrived
  {
    hide MemOk, PcOk, OnTap;
  }

  // ---- Both loops drain ---------------------------------------------------

  /** Thread actions, from inside the TX loop, until k chains are completed. */
  function TxCost(pc: Pc, k: nat): int {
    if k == 0 then 0 else if pc.TxHead? then 69 * k else 69 * (k - 1) + TxRank(pc)
  }

  /** The TX loop completes one available chain after the other, 69 thread actions at most for each,
      without turning to RX in between. */
  lemma {:induction false} TxDrains(c: Config, run: seq<State>, who: seq<Actor>, k: nat)
    requires ValidConfig(c) && IsRunBy(c, run, who) && Inv(c, run[0])
    requires run[0].pc.TxHead? || TxRank(run[0].pc) > 0
    requires k <= Avail(run[0].tx) - Used(run[0].tx) && ThreadActions(who) >= TxCost(run[0].pc, k)
    ensures Used(run[|who|].tx) >= Used(run[0].tx) + k
    decreases |who|
  {
    hide Inv, By, TxRank, ValidConfig;
    DeliveredGrows(c, run, who);
    if k > 0 {
      var s, s', rest := run[0], run[1], run[1..];
      TxDrainStep(c, who[0], s, s', k);
      RestOfRun(c, run, who);
      assert rest[|who| - 1] == run[|who|];
      TxDrains(c, rest, who[1..], k - (Used(s'.tx) - Used(s.tx)));
    }
  }

  lemma TxDrainStep(c: Config, who: Actor, s: State, s': State, k: nat)
    requires ValidConfig(c) && Inv(c, s) && |s.m| == c.ram && By(c, who, s, s')
    requires (s.pc.TxHead? || TxRank(s.pc) > 0) && 0 < k <= Avail(s.tx) - Used(s.tx)
    ensures Inv(c, s') && (s'.pc.TxHead? || TxRank(s'.pc) > 0)
    ensures Used(s.tx) <= Used(s'.tx) <= Used(s.tx) + 1 && Avail(s.tx) <= Avail(s'.tx)
    ensures TxCost(s'.pc, k - (Used(s'.tx) - Used(s.tx))) + Cost(who) <= TxCost(s.pc, k)
  {
    hide Inv, DeviceStep, DriverStep, StepOk;
    StepKeeps(c, who, s, s');
    if who.Thread? {
      ThreadTurns(c, s);
      TxAdvances(c, s);
    } else {
      OthersTurn(c, who, s, s');
    }
  }

  /** Thread actions, from inside the RX loop, until k packets are delivered. */
  function RxCost(pc: Pc, k: nat): int {
    if k == 0 then 0 else
    match pc
    case RxFill(_) => 4 * k - 1
    case RxElem(_, _) => 4 * k - 2
    case RxIdx(_, _) => 4 * k - 3
    case _ => 4 * k
  }

  predicate InRx(pc: Pc) {
    pc.RxHead? || pc.RxFill? || pc.RxElem? || pc.RxIdx?
  }

  /** The RX loop delivers the waiting packets one after the other while there are chains for them, four
      thread actions each, without turning to TX in between. */
  lemma {:induction false} RxDrains(c: Config, run: seq<State>, who: seq<Actor>, k: nat)
    requires ValidConfig(c) && IsRunBy(c, run, who) && Inv(c, run[0]) && InRx(run[0].pc)
    requires k <= |InFlight(run[0].pc)| + |run[0].tapIn| && k <= Avail(run[0].rx) - Used(run[0].rx)
    requires ThreadActions(who) >= RxCost(run[0].pc, k)
    ensures |run[|who|].delivered| >= |run[0].delivered| + k
    decreases |who|
  {
    hide Inv, By, ValidConfig, InFlight, InRx;
    DeliveredGrows(c, run, who);
    if k > 0 {
      var s, s', rest := run[0], run[1], run[1..];
      RxDrainStep(c, who[0], s, s', k);
      RestOfRun(c, run, who);
      assert rest[|who| - 1] == run[|who|];
      RxDrains(c, rest, who[1..], k - (|s'.delivered| - |s.delivered|));
    }
  }

  lemma RxDrainStep(c: Config, who: Actor, s: State, s': State, k: nat)
    requires ValidConfig(c) && Inv(c, s) && |s.m| == c.ram && By(c, who, s, s') && InRx(s.pc)
    requires 0 < k <= |InFlight(s.pc)| + |s.tapIn| && k <= Avail(s.rx) - Used(s.rx)
    ensures Inv(c, s') && |s.delivered| <= |s'.delivered| <= |s.delivered| + 1
    ensures var k' := k - (|s'.delivered| - |s.delivered|);
      && InRx(s'.pc) && k' <= |InFlight(s'.pc)| + |s'.tapIn| && k' <= Avail(s'.rx) - Used(s'.rx)
      && RxCost(s'.pc, k') + Cost(who) <= RxCost(s.pc, k)
  {
    hide Inv, DeviceStep, DriverStep, StepOk;
    StepKeeps(c, who, s, s');
    InvCounts(c, s);
    InvCounts(c, s');
    if who.Thread? {
      ThreadTurns(c, s);
    } else {
      OthersTurn(c, who, s, s');
    }
  }
}
