/** Split virtqueues in guest memory (section 2.7 of Virtio 1.2): ring accessors, the TX
    descriptor-chain gather, the RX scatter, and which bytes each of them depends on. */
module Virtqueue {
  import opened Bytes
  import opened Common

  const NET_HDR: nat := 12
  const PKT_BUF: nat := 65536
  const MAX_CHAIN: nat := 64

  type Memory = seq<Byte>

  /** A queue's size and the guest addresses of its three parts. */
  datatype Queue = Queue(num: nat, desc: nat, driver: nat, device: nat)
  datatype Desc = Desc(addr: U64, len: U32, flags: U16, next: U16)
  datatype UsedElem = UsedElem(id: U32, len: U32)

  predicate Fits(n: nat, q: Queue) {
    && q.num >= 1
    && q.desc + 16 * q.num <= n
    && q.driver + 4 + 2 * q.num <= n
    && q.device + 4 + 8 * q.num <= n
  }

  /** The ring slot of an unbounded count. */
  function Slot(q: Queue, k: nat): (i: nat)
    requires q.num >= 1
    ensures i < q.num
  {
    k % q.num
  }

  predicate HasNext(d: Desc) {
    d.flags % 2 == 1
  }

  predicate HasWrite(d: Desc) {
    d.flags / 2 % 2 == 1
  }

  function DescAt(m: Memory, q: Queue, i: nat): Desc
    requires Fits(|m|, q) && i < q.num
  {
    var b := q.desc + 16 * i;
    Desc(Get64(m, b), Get32(m, b + 8), Get16(m, b + 12), Get16(m, b + 14))
  }

  function AvailIdx(m: Memory, q: Queue): U16
    requires Fits(|m|, q)
  {
    Get16(m, q.driver + 2)
  }

  function AvailHead(m: Memory, q: Queue, i: nat): U16
    requires Fits(|m|, q) && i < q.num
  {
    Get16(m, q.driver + 4 + 2 * i)
  }

  function UsedIdx(m: Memory, q: Queue): U16
    requires Fits(|m|, q)
  {
    Get16(m, q.device + 2)
  }

  function UsedAt(m: Memory, q: Queue, i: nat): UsedElem
    requires Fits(|m|, q) && i < q.num
  {
    UsedElem(Get32(m, q.device + 4 + 8 * i), Get32(m, q.device + 8 + 8 * i))
  }

  predicate InBytes(a: int, base: nat, len: nat) {
    base <= a < base + len
  }

  predicate InAvail(q: Queue, a: int) {
    InBytes(a, q.driver, 4 + 2 * q.num)
  }

  predicate InUsed(q: Queue, a: int) {
    InBytes(a, q.device, 4 + 8 * q.num)
  }

  /** memcpy into guest memory. */
  function Write(m: Memory, at: nat, bytes: seq<Byte>): (r: Memory)
    requires at + |bytes| <= |m|
    ensures |r| == |m|
    ensures forall a | 0 <= a < |m| :: r[a] == if InBytes(a, at, |bytes|) then bytes[a - at] else m[a]
  {
    m[..at] + bytes + m[at + |bytes|..]
  }

  function WriteUsedElem(m: Memory, q: Queue, i: nat, e: UsedElem): (r: Memory)
    requires Fits(|m|, q) && i < q.num
    ensures |r| == |m|
  {
    Write(m, q.device + 4 + 8 * i, Put32(e.id) + Put32(e.len))
  }

  function WriteUsedIdx(m: Memory, q: Queue, idx: U16): (r: Memory)
    requires Fits(|m|, q)
    ensures |r| == |m|
  {
    Write(m, q.device + 2, Put16(idx))
  }

  // ---- Layout -------------------------------------------------------------

  /** A descriptor table entry: 64-bit address, 32-bit length, 16-bit flags, 16-bit next. */
  function DescBytes(d: Desc): seq<Byte> {
    Put64(d.addr) + Put32(d.len) + Put16(d.flags) + Put16(d.next)
  }

  /** Entry i of the table is found where the driver put it, field by field. */
  lemma DescLayout(m: Memory, q: Queue, i: nat, d: Desc)
    requires Fits(|m|, q) && i < q.num && At(m, q.desc + 16 * i, DescBytes(d))
    ensures DescAt(m, q, i) == d
  {
    hide Put16, Put32, Put64, Get16, Get32, Get64;
    var o := q.desc + 16 * i;
    AtSplit(m, o, Put64(d.addr) + Put32(d.len) + Put16(d.flags), Put16(d.next));
    AtSplit(m, o, Put64(d.addr) + Put32(d.len), Put16(d.flags));
    AtSplit(m, o, Put64(d.addr), Put32(d.len));
    At64(m, o, d.addr);
    At32(m, o + 8, d.len);
    At16(m, o + 12, d.flags);
    At16(m, o + 14, d.next);
  }

  /** Flag 1 says that the chain goes on and flag 2 that the device may write; other flags mean nothing
      here. */
  lemma DescFlags(d: Desc, goesOn: bool, writable: bool, other: nat)
    requires d.flags == (if goesOn then 1 else 0) + (if writable then 2 else 0) + 4 * other
    ensures HasNext(d) <==> goesOn
    ensures HasWrite(d) <==> writable
  {
  }

  /** The heads of an available ring, one after the other. */
  function HeadBytes(heads: seq<U16>): (r: seq<Byte>)
    ensures |r| == 2 * |heads|
  {
    if heads == [] then [] else Put16(heads[0]) + HeadBytes(heads[1..])
  }

  lemma {:induction false} HeadAt(m: Memory, o: nat, heads: seq<U16>, i: nat)
    requires At(m, o, HeadBytes(heads)) && i < |heads|
    ensures Get16(m, o + 2 * i) == heads[i]
    decreases i
  {
    hide Put16, Get16;
    AtSplit(m, o, Put16(heads[0]), HeadBytes(heads[1..]));
    if i == 0 {
      At16(m, o, heads[0]);
    } else {
      HeadAt(m, o + 2, heads[1..], i - 1);
    }
  }

  /** The available ring: flags, index, and the heads. */
  lemma AvailLayout(m: Memory, q: Queue, flags: U16, idx: U16, heads: seq<U16>, i: nat)
    requires Fits(|m|, q) && |heads| == q.num && i < q.num
    requires At(m, q.driver, Put16(flags) + Put16(idx) + HeadBytes(heads))
    ensures AvailIdx(m, q) == idx && AvailHead(m, q, i) == heads[i]
  {
    hide Put16, Get16, HeadBytes;
    AtSplit(m, q.driver, Put16(flags) + Put16(idx), HeadBytes(heads));
    AtSplit(m, q.driver, Put16(flags), Put16(idx));
    At16(m, q.driver + 2, idx);
    HeadAt(m, q.driver + 4, heads, i);
  }

  /** The used ring: the index after the flags, then eight bytes for each element, id and length. */
  lemma UsedLayout(m: Memory, q: Queue, i: nat, e: UsedElem, idx: U16)
    requires Fits(|m|, q) && i < q.num
    ensures At(WriteUsedElem(m, q, i, e), q.device + 4 + 8 * i, Put32(e.id) + Put32(e.len))
    ensures At(WriteUsedIdx(m, q, idx), q.device + 2, Put16(idx))
  {
    hide Put16, Put32;
  }

  lemma WrittenElem(m: Memory, q: Queue, i: nat, e: UsedElem)
    requires Fits(|m|, q) && i < q.num
    ensures var r := WriteUsedElem(m, q, i, e);
      && UsedAt(r, q, i) == e
      && UsedIdx(r, q) == UsedIdx(m, q)
      && (forall j | 0 <= j < q.num && j != i :: UsedAt(r, q, j) == UsedAt(m, q, j))
      && (forall a | 0 <= a < |m| && r[a] != m[a] :: InUsed(q, a))
  {
    var r := WriteUsedElem(m, q, i, e);
    var b := q.device + 4 + 8 * i;
    var w := Put32(e.id) + Put32(e.len);
    assert r[b] == w[0] && r[b + 1] == w[1] && r[b + 2] == w[2] && r[b + 3] == w[3];
    assert r[b + 4] == w[4] && r[b + 5] == w[5] && r[b + 6] == w[6] && r[b + 7] == w[7];
  }

  lemma WrittenIdx(m: Memory, q: Queue, idx: U16)
    requires Fits(|m|, q)
    ensures var r := WriteUsedIdx(m, q, idx);
      && UsedIdx(r, q) == idx
      && (forall j | 0 <= j < q.num :: UsedAt(r, q, j) == UsedAt(m, q, j))
      && (forall a | 0 <= a < |m| && r[a] != m[a] :: InUsed(q, a))
  {
  }

  // ---- Free-running indices -----------------------------------------------

  lemma ModAddMultiple(n: nat, m: nat, x: nat)
    requires n > 0
    ensures (n * m + x) % n == x % n
  {
    var y := n * m + x;
    assert y == n * (m + x / n) + x % n by {
      assert x == n * (x / n) + x % n;
      assert n * (m + x / n) == n * m + n * (x / n);
    }
    DivModUnique(n, m + x / n, x % n);
  }

  /** The slot of a wrapped 16-bit index is the slot of the unbounded count, for every count,
      exactly when the queue size divides 2^16. */
  lemma WrappedSlot(num: nat)
    requires num > 0
    ensures TWO16 % num == 0 <==> forall k: nat :: k % TWO16 % num == k % num
  {
    if TWO16 % num == 0 {
      forall k: nat ensures k % TWO16 % num == k % num {
        WrappedSlotAt(num, k);
      }
    } else {
      assert TWO16 % TWO16 % num == 0;
    }
  }

  lemma WrappedSlotAt(num: nat, k: nat)
    requires num > 0 && TWO16 % num == 0
    ensures k % TWO16 % num == k % num
  {
    var m, a := TWO16 / num, k / TWO16;
    assert TWO16 == num * m;
    assert k == TWO16 * a + k % TWO16;
    assert TWO16 * a == num * (m * a) by {
      assert num * m * a == num * (m * a);
    }
    ModAddMultiple(num, m * a, k % TWO16);
  }

  /** Two counts less than a queue apart use different slots. */
  lemma SlotsDistinct(num: nat, j: nat, k: nat)
    requires j < k < j + num
    ensures j % num != k % num
  {
    var a := j / num;
    var r := k - num * a;
    if r < num {
      DivModUnique(num, a, r);
    } else {
      assert k == num * (a + 1) + (r - num);
      DivModUnique(num, a + 1, r - num);
    }
  }

  /** With at most num buffers outstanding the wrapped indices differ exactly when the counts do. */
  lemma WrappedCompare(used: nat, avail: nat, num: nat)
    requires used <= avail <= used + num && num < TWO16
    ensures used % TWO16 == avail % TWO16 <==> used == avail
  {
  }

  // ---- TX: gather ---------------------------------------------------------

  /** A descriptor that points into RAM points entirely into it. */
  predicate EndsInRam(m: Memory, d: Desc) {
    d.addr < |m| ==> d.addr + d.len <= |m|
  }

  /** Every descriptor the gather loop visits points outside RAM or entirely inside it. */
  predicate ChainInRam(m: Memory, q: Queue, cur: U16, fuel: nat)
    requires Fits(|m|, q)
    decreases fuel
  {
    fuel == 0 ||
    var d := DescAt(m, q, cur % q.num);
    && EndsInRam(m, d)
    && (HasNext(d) ==> ChainInRam(m, q, d.next, fuel - 1))
  }

  /** One turn of the gather loop: append the buffer unless it is outside RAM, empty or too long. */
  function Append(m: Memory, d: Desc, out: seq<Byte>): seq<Byte>
    requires EndsInRam(m, d)
  {
    if d.addr < |m| && d.len > 0 && |out| + d.len < PKT_BUF then out + m[d.addr..d.addr + d.len] else out
  }

  function Gather(m: Memory, q: Queue, cur: U16, fuel: nat, out: seq<Byte>): seq<Byte>
    requires Fits(|m|, q) && ChainInRam(m, q, cur, fuel)
    decreases fuel
  {
    if fuel == 0 then out
    else
      var d := DescAt(m, q, cur % q.num);
      var out' := Append(m, d, out);
      if HasNext(d) then Gather(m, q, d.next, fuel - 1, out') else out'
  }

  /** The loop as written: at most 64 descriptors, whatever the chain looks like. */
  method GatherLoop(m: Memory, q: Queue, head: U16) returns (out: seq<Byte>)
    requires Fits(|m|, q) && ChainInRam(m, q, head, MAX_CHAIN)
    ensures out == Gather(m, q, head, MAX_CHAIN, [])
  {
    out := [];
    var cur: U16 := head;
    var chain := 0;
    while chain < MAX_CHAIN
      invariant 0 <= chain <= MAX_CHAIN
      invariant ChainInRam(m, q, cur, MAX_CHAIN - chain)
      invariant Gather(m, q, cur, MAX_CHAIN - chain, out) == Gather(m, q, head, MAX_CHAIN, [])
    {
      var d := DescAt(m, q, cur % q.num);
      out := Append(m, d, out);
      if !HasNext(d) {
        break;
      }
      cur := d.next;
      chain := chain + 1;
    }
  }

  /** Bytes the gather loop reads. */
  predicate TxTouches(m: Memory, q: Queue, cur: U16, fuel: nat, a: int)
    requires Fits(|m|, q)
    decreases fuel
  {
    fuel > 0 &&
    var d := DescAt(m, q, cur % q.num);
    || InBytes(a, q.desc + 16 * (cur % q.num), 16)
    || (d.addr < |m| && InBytes(a, d.addr, d.len))
    || (HasNext(d) && TxTouches(m, q, d.next, fuel - 1, a))
  }

  lemma DescFrame(m: Memory, m': Memory, q: Queue, i: nat)
    requires Fits(|m|, q) && |m'| == |m| && i < q.num
    requires forall a | 0 <= a < |m| && InBytes(a, q.desc + 16 * i, 16) :: m'[a] == m[a]
    ensures DescAt(m', q, i) == DescAt(m, q, i)
  {
  }

  lemma {:induction false} GatherFrame(m: Memory, m': Memory, q: Queue, cur: U16, fuel: nat, out: seq<Byte>)
    requires Fits(|m|, q) && |m'| == |m| && ChainInRam(m, q, cur, fuel)
    requires forall a | 0 <= a < |m| && TxTouches(m, q, cur, fuel, a) :: m'[a] == m[a]
    ensures ChainInRam(m', q, cur, fuel)
    ensures Gather(m', q, cur, fuel, out) == Gather(m, q, cur, fuel, out)
    ensures forall a :: TxTouches(m', q, cur, fuel, a) == TxTouches(m, q, cur, fuel, a)
    decreases fuel
  {
    hide DescAt;
    if fuel > 0 {
      DescFrame(m, m', q, cur % q.num);
      var d := DescAt(m, q, cur % q.num);
      if d.addr < |m| {
        assert m'[d.addr..d.addr + d.len] == m[d.addr..d.addr + d.len];
      }
      if HasNext(d) {
        GatherFrame(m, m', q, d.next, fuel - 1, Append(m, d, out));
      }
    }
  }

  /** ds is the chain that starts at head, in the standard's terms. */
  ghost predicate IsChain(m: Memory, q: Queue, head: U16, ds: seq<Desc>)
    requires Fits(|m|, q)
    decreases |ds|
  {
    && |ds| >= 1
    && ds[0] == DescAt(m, q, head % q.num)
    && (|ds| == 1 ==> !HasNext(ds[0]))
    && (|ds| > 1 ==> HasNext(ds[0]) && IsChain(m, q, ds[0].next, ds[1..]))
  }

  predicate AllInRam(m: Memory, ds: seq<Desc>) {
    forall i | 0 <= i < |ds| :: ds[i].addr < |m| && ds[i].addr + ds[i].len <= |m|
  }

  /** The chain's buffers, one after the other. */
  ghost function Concat(m: Memory, ds: seq<Desc>): seq<Byte>
    requires AllInRam(m, ds)
  {
    if ds == [] then [] else m[ds[0].addr..ds[0].addr + ds[0].len] + Concat(m, ds[1..])
  }

  lemma {:induction false} ChainIsInRam(m: Memory, q: Queue, head: U16, ds: seq<Desc>, fuel: nat)
    requires Fits(|m|, q) && IsChain(m, q, head, ds) && AllInRam(m, ds)
    ensures ChainInRam(m, q, head, fuel)
    decreases fuel
  {
    if fuel > 0 && |ds| > 1 {
      ChainIsInRam(m, q, ds[0].next, ds[1..], fuel - 1);
    }
  }

  lemma {:induction false} GatherFits(m: Memory, q: Queue, head: U16, ds: seq<Desc>, fuel: nat, out: seq<Byte>)
    requires Fits(|m|, q) && IsChain(m, q, head, ds) && AllInRam(m, ds) && |ds| <= fuel
    requires ChainInRam(m, q, head, fuel) && |out| + |Concat(m, ds)| < PKT_BUF
    ensures Gather(m, q, head, fuel, out) == out + Concat(m, ds)
    decreases fuel
  {
    hide DescAt;
    var d := ds[0];
    var buf := m[d.addr..d.addr + d.len];
    assert Concat(m, ds) == buf + Concat(m, ds[1..]);
    assert Append(m, d, out) == out + buf;
    if |ds| > 1 {
      GatherFits(m, q, d.next, ds[1..], fuel - 1, out + buf);
      assert out + buf + Concat(m, ds[1..]) == out + (buf + Concat(m, ds[1..]));
    } else {
      assert ds[1..] == [];
    }
  }

  lemma {:induction false} GatherShort(m: Memory, q: Queue, cur: U16, fuel: nat, out: seq<Byte>)
    requires Fits(|m|, q) && ChainInRam(m, q, cur, fuel) && |out| < PKT_BUF
    ensures |Gather(m, q, cur, fuel, out)| < PKT_BUF
    decreases fuel
  {
    hide DescAt;
    if fuel > 0 {
      var d := DescAt(m, q, cur % q.num);
      if HasNext(d) {
        GatherShort(m, q, d.next, fuel - 1, Append(m, d, out));
      }
    }
  }

  /** For a chain of at most 64 buffers inside RAM the gathered packet is the concatenation of
      the buffers exactly when they total less than 65536 bytes. */
  lemma GatherIsConcat(m: Memory, q: Queue, head: U16, ds: seq<Desc>)
    requires Fits(|m|, q) && IsChain(m, q, head, ds) && AllInRam(m, ds) && |ds| <= MAX_CHAIN
    ensures ChainInRam(m, q, head, MAX_CHAIN)
    ensures Gather(m, q, head, MAX_CHAIN, []) == Concat(m, ds) <==> |Concat(m, ds)| < PKT_BUF
  {
    ChainIsInRam(m, q, head, ds, MAX_CHAIN);
    GatherShort(m, q, head, MAX_CHAIN, []);
    if |Concat(m, ds)| < PKT_BUF {
      GatherFits(m, q, head, ds, MAX_CHAIN, []);
      assert [] + Concat(m, ds) == Concat(m, ds);
    }
  }

  /** The descriptors the gather loop visits from cur on, at most fuel of them. */
  ghost function Visited(m: Memory, q: Queue, cur: U16, fuel: nat): seq<Desc>
    requires Fits(|m|, q)
    decreases fuel
  {
    if fuel == 0 then []
    else
      var d := DescAt(m, q, cur % q.num);
      [d] + if HasNext(d) then Visited(m, q, d.next, fuel - 1) else []
  }

  predicate AllEndInRam(m: Memory, ds: seq<Desc>) {
    forall i | 0 <= i < |ds| :: EndsInRam(m, ds[i])
  }

  /** A buffer is taken if it starts in RAM and fits behind the n bytes already taken, with room to spare. */
  predicate Taken(m: Memory, d: Desc, n: nat) {
    d.addr < |m| && n + d.len < 65536
  }

  /** The buffers of these descriptors that are taken, one after the other. */
  ghost function Picked(m: Memory, ds: seq<Desc>): seq<Byte>
    requires AllEndInRam(m, ds)
  {
    if ds == [] then []
    else
      var p, d := Picked(m, ds[..|ds| - 1]), ds[|ds| - 1];
      assert EndsInRam(m, d);
      if Taken(m, d, |p|) then p + m[d.addr..d.addr + d.len] else p
  }

  lemma PickedNext(m: Memory, ds: seq<Desc>, d: Desc)
    requires AllEndInRam(m, ds) && EndsInRam(m, d)
    ensures AllEndInRam(m, ds + [d])
    ensures Picked(m, ds + [d]) == Append(m, d, Picked(m, ds))
  {
    assert (ds + [d])[..|ds|] == ds;
    if d.len == 0 && d.addr < |m| {
      assert Picked(m, ds) + m[d.addr..d.addr] == Picked(m, ds);
    }
  }

  lemma {:induction false} GatherContinues(m: Memory, q: Queue, cur: U16, fuel: nat, ds: seq<Desc>)
    requires Fits(|m|, q) && ChainInRam(m, q, cur, fuel) && AllEndInRam(m, ds)
    ensures var all := ds + Visited(m, q, cur, fuel);
      AllEndInRam(m, all) && Gather(m, q, cur, fuel, Picked(m, ds)) == Picked(m, all)
    decreases fuel
  {
    hide DescAt, Picked, AllEndInRam, EndsInRam, Append;
    if fuel == 0 {
      assert ds + [] == ds;
    } else {
      var d := DescAt(m, q, cur % q.num);
      PickedNext(m, ds, d);
      if HasNext(d) {
        GatherContinues(m, q, d.next, fuel - 1, ds + [d]);
        assert ds + [d] + Visited(m, q, d.next, fuel - 1) == ds + ([d] + Visited(m, q, d.next, fuel - 1));
      } else {
        assert ds + ([d] + []) == ds + [d];
      }
    }
  }

  /** On any chain, long, cyclic and partly outside RAM ones included: the packet is what is taken of the
      first 64 descriptors, in order; buffers that do not fit are passed over and later ones still
      considered. */
  lemma GatherPicks(m: Memory, q: Queue, head: U16)
    requires Fits(|m|, q) && ChainInRam(m, q, head, MAX_CHAIN)
    ensures var ds := Visited(m, q, head, 64);
      AllEndInRam(m, ds) && Gather(m, q, head, MAX_CHAIN, []) == Picked(m, ds)
  {
    hide Visited, Gather, Picked, ChainInRam, AllEndInRam;
    PickedNothing(m);
    GatherContinues(m, q, head, MAX_CHAIN, []);
    assert [] + Visited(m, q, head, 64) == Visited(m, q, head, 64);
  }

  lemma PickedNothing(m: Memory)
    ensures AllEndInRam(m, []) && Picked(m, []) == []
  {
  }

  /** The visited descriptors are a chain's own, as far as the loop goes. */
  lemma {:induction false} VisitedOfChain(m: Memory, q: Queue, head: U16, ds: seq<Desc>, fuel: nat)
    requires Fits(|m|, q) && IsChain(m, q, head, ds)
    ensures Visited(m, q, head, fuel) == if |ds| <= fuel then ds else ds[..fuel]
    decreases fuel
  {
    hide DescAt;
    if fuel > 0 && |ds| > 1 {
      VisitedOfChain(m, q, ds[0].next, ds[1..], fuel - 1);
      assert ds == [ds[0]] + ds[1..];
    }
  }

  // ---- RX: scatter --------------------------------------------------------

  function First(m: Memory, q: Queue, head: U16): Desc
    requires Fits(|m|, q)
  {
    DescAt(m, q, head % q.num)
  }

  function Second(m: Memory, q: Queue, head: U16): Desc
    requires Fits(|m|, q)
  {
    DescAt(m, q, First(m, q, head).next % q.num)
  }

  /** The scatter looks at the second descriptor: the first is usable but too small. */
  predicate NeedsSecond(m: Memory, d: Desc, pkt: seq<Byte>) {
    d.addr < |m| && HasWrite(d) && d.len < NET_HDR + |pkt| && HasNext(d)
  }

  /** The descriptors the scatter looks at do so. */
  predicate RxInRam(m: Memory, q: Queue, head: U16, pkt: seq<Byte>)
    requires Fits(|m|, q)
  {
    var d := First(m, q, head);
    EndsInRam(m, d) && (NeedsSecond(m, d, pkt) ==> EndsInRam(m, Second(m, q, head)))
  }

  function Zeros(n: nat): (r: seq<Byte>)
    ensures |r| == n
  {
    seq(n, _ => 0)
  }

  /** Guest memory after the copy, and the used length; 0 means the packet was given up. */
  datatype Filled = Filled(m: Memory, total: nat)

  /** One or two descriptors: a buffer with room for header and packet, else a header buffer
      followed by a data buffer. */
  function Scatter(m: Memory, q: Queue, head: U16, pkt: seq<Byte>): Filled
    requires Fits(|m|, q) && RxInRam(m, q, head, pkt)
  {
    var d, d2 := First(m, q, head), Second(m, q, head);
    if !(d.addr < |m|) || !HasWrite(d) then Filled(m, 0)
    else if d.len >= NET_HDR + |pkt| then
      Filled(Write(Write(m, d.addr, Zeros(NET_HDR)), d.addr + NET_HDR, pkt), NET_HDR + |pkt|)
    else if HasNext(d) then
      var hdrLen := if d.len < NET_HDR then d.len else NET_HDR;
      var m' := Write(m, d.addr, Zeros(hdrLen));
      if d2.addr < |m| && d2.len >= |pkt| then Filled(Write(m', d2.addr, pkt), NET_HDR + |pkt|)
      else Filled(m', 0)
    else Filled(m, 0)
  }

  /** The same, in place. The second descriptor is read after the header is cleared. */
  method ScatterInPlace(m: array<Byte>, q: Queue, head: U16, pkt: seq<Byte>) returns (total: nat)
    requires Fits(m.Length, q) && RxInRam(m[..], q, head, pkt)
    requires forall a :: RxReads(m[..], q, head, a) ==> !RxWrites(m[..], q, head, a)
    modifies m
    ensures Filled(m[..], total) == Scatter(old(m[..]), q, head, pkt)
  {
    ghost var m0 := m[..];
    var d := First(m[..], q, head);
    total := 0;
    if d.addr >= m.Length || !HasWrite(d) {
      return;
    }
    if d.len >= NET_HDR + |pkt| {
      Fill(m, d.addr, Zeros(NET_HDR));
      Fill(m, d.addr + NET_HDR, pkt);
      total := NET_HDR + |pkt|;
    } else if HasNext(d) {
      var hdrLen := if d.len < NET_HDR then d.len else NET_HDR;
      Fill(m, d.addr, Zeros(hdrLen));
      ghost var m1 := m[..];
      HeaderKeepsSecond(m0, q, head, hdrLen);
      var d2 := DescAt(m[..], q, d.next % q.num);
      if d2.addr < m.Length && d2.len >= |pkt| {
        Fill(m, d2.addr, pkt);
        total := NET_HDR + |pkt|;
      }
    }
  }

  /** Clearing the header does not disturb the second descriptor. */
  lemma HeaderKeepsSecond(m: Memory, q: Queue, head: U16, hdrLen: nat)
    requires Fits(|m|, q) && EndsInRam(m, First(m, q, head)) && HasNext(First(m, q, head))
    requires First(m, q, head).addr < |m| && hdrLen <= First(m, q, head).len
    requires forall a :: RxReads(m, q, head, a) ==> !RxWrites(m, q, head, a)
    ensures var m' := Write(m, First(m, q, head).addr, Zeros(hdrLen));
      DescAt(m', q, First(m, q, head).next % q.num) == Second(m, q, head)
  {
    var d := First(m, q, head);
    var m' := Write(m, d.addr, Zeros(hdrLen));
    forall a | 0 <= a < |m| && InBytes(a, q.desc + 16 * (d.next % q.num), 16) ensures m'[a] == m[a] {
      assert RxReads(m, q, head, a);
    }
    DescFrame(m, m', q, d.next % q.num);
  }

  method Fill(m: array<Byte>, at: nat, bytes: seq<Byte>)
    requires at + |bytes| <= m.Length
    modifies m
    ensures m[..] == Write(old(m[..]), at, bytes)
  {
    forall i | 0 <= i < |bytes| {
      m[at + i] := bytes[i];
    }
  }

  /** Descriptor bytes the scatter reads. */
  predicate RxReads(m: Memory, q: Queue, head: U16, a: int)
    requires Fits(|m|, q)
  {
    || InBytes(a, q.desc + 16 * (head % q.num), 16)
    || (HasNext(First(m, q, head)) && InBytes(a, q.desc + 16 * (First(m, q, head).next % q.num), 16))
  }

  /** Buffer bytes the scatter may write. */
  predicate RxWrites(m: Memory, q: Queue, head: U16, a: int)
    requires Fits(|m|, q)
  {
    var d, d2 := First(m, q, head), Second(m, q, head);
    InBytes(a, d.addr, d.len) || (HasNext(d) && InBytes(a, d2.addr, d2.len))
  }

  /** The two layouts the data path supports for packets of up to maxPkt bytes. */
  predicate RxSupported(m: Memory, q: Queue, head: U16, maxPkt: nat)
    requires Fits(|m|, q)
  {
    var d, d2 := First(m, q, head), Second(m, q, head);
    && HasWrite(d) && d.addr < |m| && d.addr + d.len <= |m|
    && (HasNext(d) ==> d2.addr < |m| && d2.addr + d2.len <= |m|
                       && (d.addr + d.len <= d2.addr || d2.addr + d2.len <= d.addr))
    && (d.len >= NET_HDR + maxPkt || (HasNext(d) && d.len == NET_HDR && d2.len >= maxPkt))
  }

  /** The chain's buffers, one after the other. */
  function RxBytes(m: Memory, q: Queue, head: U16): seq<Byte>
    requires Fits(|m|, q) && RxSupported(m, q, head, 0)
  {
    var d, d2 := First(m, q, head), Second(m, q, head);
    m[d.addr..d.addr + d.len] + (if HasNext(d) then m[d2.addr..d2.addr + d2.len] else [])
  }

  /** The chain begins with a zero header followed by pkt. */
  ghost predicate Holds(m: Memory, q: Queue, head: U16, pkt: seq<Byte>)
    requires Fits(|m|, q) && RxSupported(m, q, head, 0)
  {
    Zeros(NET_HDR) + pkt <= RxBytes(m, q, head)
  }

  lemma RxFrame(m: Memory, m': Memory, q: Queue, head: U16, maxPkt: nat)
    requires Fits(|m|, q) && |m'| == |m|
    requires forall a | 0 <= a < |m| && RxReads(m, q, head, a) :: m'[a] == m[a]
    ensures First(m', q, head) == First(m, q, head)
    ensures HasNext(First(m, q, head)) ==> Second(m', q, head) == Second(m, q, head)
    ensures RxSupported(m', q, head, maxPkt) == RxSupported(m, q, head, maxPkt)
    ensures forall a :: RxReads(m', q, head, a) == RxReads(m, q, head, a)
    ensures forall a :: RxWrites(m', q, head, a) == RxWrites(m, q, head, a)
  {
    DescFrame(m, m', q, head % q.num);
    if HasNext(First(m, q, head)) {
      DescFrame(m, m', q, First(m, q, head).next % q.num);
    }
  }

  lemma HoldsFrame(m: Memory, m': Memory, q: Queue, head: U16, pkt: seq<Byte>)
    requires Fits(|m|, q) && |m'| == |m| && RxSupported(m, q, head, 0) && Holds(m, q, head, pkt)
    requires forall a | 0 <= a < |m| && (RxReads(m, q, head, a) || RxWrites(m, q, head, a)) :: m'[a] == m[a]
    ensures RxSupported(m', q, head, 0) && Holds(m', q, head, pkt)
  {
    hide DescAt;
    RxFrame(m, m', q, head, 0);
    var d, d2 := First(m, q, head), Second(m, q, head);
    assert m'[d.addr..d.addr + d.len] == m[d.addr..d.addr + d.len];
    if HasNext(d) {
      assert m'[d2.addr..d2.addr + d2.len] == m[d2.addr..d2.addr + d2.len];
    }
    assert RxBytes(m', q, head) == RxBytes(m, q, head);
  }

  lemma SupportedWeaken(m: Memory, q: Queue, head: U16, maxPkt: nat, n: nat)
    requires Fits(|m|, q) && RxSupported(m, q, head, maxPkt) && n <= maxPkt
    ensures RxSupported(m, q, head, n)
  {
  }

  lemma OneBufferHolds(m: Memory, d: Desc, pkt: seq<Byte>)
    requires d.addr + d.len <= |m| && d.len >= NET_HDR + |pkt|
    ensures var m' := Write(Write(m, d.addr, Zeros(NET_HDR)), d.addr + NET_HDR, pkt);
      Zeros(NET_HDR) + pkt <= m'[d.addr..d.addr + d.len]
  {
  }

  lemma TwoBuffersHold(m: Memory, d: Desc, d2: Desc, pkt: seq<Byte>)
    requires d.addr + d.len <= |m| && d.len == NET_HDR
    requires d2.addr + d2.len <= |m| && d2.len >= |pkt|
    requires d.addr + d.len <= d2.addr || d2.addr + d2.len <= d.addr
    ensures var m' := Write(Write(m, d.addr, Zeros(NET_HDR)), d2.addr, pkt);
      Zeros(NET_HDR) + pkt <= m'[d.addr..d.addr + d.len] + m'[d2.addr..d2.addr + d2.len]
  {
    var m' := Write(Write(m, d.addr, Zeros(NET_HDR)), d2.addr, pkt);
    assert m'[d.addr..d.addr + d.len] == Zeros(NET_HDR);
    assert pkt <= m'[d2.addr..d2.addr + d2.len];
  }

  lemma ScatterStaysInside(m: Memory, q: Queue, head: U16, pkt: seq<Byte>)
    requires Fits(|m|, q) && RxInRam(m, q, head, pkt)
    ensures var f := Scatter(m, q, head, pkt);
      |f.m| == |m| && forall a | 0 <= a < |m| && f.m[a] != m[a] :: RxWrites(m, q, head, a)
  {
  }

  /** The chain can take pkt behind a header: in its first buffer, or with the packet in a second one. */
  predicate HasRoom(m: Memory, q: Queue, head: U16, pkt: seq<Byte>)
    requires Fits(|m|, q)
  {
    var d, d2 := First(m, q, head), Second(m, q, head);
    && HasWrite(d) && d.addr < |m|
    && (12 + |pkt| <= d.len || (HasNext(d) && d2.addr < |m| && |pkt| <= d2.len))
  }

  /** Exactly then the packet is delivered; a chain that is not writable is left as it was. */
  lemma DeliversIffRoom(m: Memory, q: Queue, head: U16, pkt: seq<Byte>)
    requires Fits(|m|, q) && RxInRam(m, q, head, pkt)
    ensures var f := Scatter(m, q, head, pkt);
      && f.total == (if HasRoom(m, q, head, pkt) then 12 + |pkt| else 0)
      && (!HasWrite(First(m, q, head)) ==> f.m == m)
  {
    hide DescAt, Write, Zeros;
  }

  lemma ScatterHolds(m: Memory, q: Queue, head: U16, pkt: seq<Byte>)
    requires Fits(|m|, q) && RxSupported(m, q, head, |pkt|) && RxInRam(m, q, head, pkt)
    ensures var m' := Scatter(m, q, head, pkt).m;
      var d, d2 := First(m, q, head), Second(m, q, head);
      && |m'| == |m| && Scatter(m, q, head, pkt).total == NET_HDR + |pkt|
      && Zeros(NET_HDR) + pkt <= m'[d.addr..d.addr + d.len] + if HasNext(d) then m'[d2.addr..d2.addr + d2.len] else []
  {
    hide DescAt;
    var d, d2 := First(m, q, head), Second(m, q, head);
    if d.len >= NET_HDR + |pkt| {
      OneBufferHolds(m, d, pkt);
    } else {
      TwoBuffersHold(m, d, d2, pkt);
    }
  }

  /** On a supported chain the scatter delivers a zero header and the packet, and touches only
      the chain's own buffers. */
  lemma ScatterDelivers(m: Memory, q: Queue, head: U16, pkt: seq<Byte>)
    requires Fits(|m|, q) && RxSupported(m, q, head, |pkt|) && RxInRam(m, q, head, pkt)
    requires forall a :: RxReads(m, q, head, a) ==> !RxWrites(m, q, head, a)
    ensures var f := Scatter(m, q, head, pkt);
      && f.total == NET_HDR + |pkt| && |f.m| == |m|
      && (forall a | 0 <= a < |m| && f.m[a] != m[a] :: RxWrites(m, q, head, a))
      && RxSupported(f.m, q, head, 0) && Holds(f.m, q, head, pkt)
  {
    hide Scatter, DescAt;
    ScatterStaysInside(m, q, head, pkt);
    RxFrame(m, Scatter(m, q, head, pkt).m, q, head, 0);
    SupportedWeaken(m, q, head, |pkt|, 0);
    hide RxReads, RxWrites, RxSupported, First, Second;
    ScatterHolds(m, q, head, pkt);
  }
}
