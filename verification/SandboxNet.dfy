/** The CRI network manager: TAP indices and IPv4 addresses for sandboxes. Names are represented by
    what they are printed from: "vmtapN" by N and a dotted address by its 32-bit value. */
module SandboxNet {
  import opened Bytes
  import opened Common

  const MAX_TAPS: nat := 4096

  /** Four address bytes, most significant first. */
  datatype Ip = Ip(b0: Byte, b1: Byte, b2: Byte, b3: Byte)

  function Value(ip: Ip): nat {
    0x100_0000 * ip.b0 + 0x1_0000 * ip.b1 + 0x100 * ip.b2 + ip.b3
  }

  /** A network address and the number of host bits; the host bits of base are clear, as
      net.ParseCIDR leaves them. */
  datatype Subnet = Subnet(base: Ip, hostBits: nat)

  predicate ValidSubnet(n: Subnet) {
    n.hostBits <= 32 && Value(n.base) % Pow2(n.hostBits) == 0
  }

  predicate Contains(n: Subnet, ip: Ip) {
    Value(ip) / Pow2(n.hostBits) == Value(n.base) / Pow2(n.hostBits)
  }

  function MaxHosts(n: Subnet): int {
    Pow2(n.hostBits) - 3
  }

  /** Byte by byte, each sum truncated to a byte; the top byte is never touched. */
  function AddOffset(base: Ip, offset: nat): Ip {
    Ip(base.b0,
       (base.b1 + offset / 0x1_0000 % 0x100) % 0x100,
       (base.b2 + offset / 0x100 % 0x100) % 0x100,
       (base.b3 + offset % 0x100) % 0x100)
  }

  /** An offset allocateIP can draw. */
  predicate Drawable(n: Subnet, offset: nat) {
    2 <= offset <= MaxHosts(n) + 1
  }

  // ---- Address arithmetic -------------------------------------------------

  lemma {:induction false} PowMonotone(a: nat, b: nat)
    requires a <= b
    ensures Pow2(a) <= Pow2(b)
    decreases b - a
  {
    if a < b {
      PowMonotone(a, b - 1);
    }
  }

  lemma PowValues()
    ensures Pow2(8) == 0x100 && Pow2(16) == 0x1_0000 && Pow2(24) == 0x100_0000
  {
    assert Pow2(8) == 256;
    PowAdd(8, 8);
    PowAdd(16, 8);
  }

  lemma MulAssoc(a: nat, b: nat, c: nat)
    ensures (a * b) * c == a * (b * c)
  {
  }

  lemma MulMonotone(d: nat, x: int, y: int)
    requires x <= y
    ensures d * x <= d * y
  {
  }

  lemma MulSub(d: nat, x: int, y: int)
    ensures d * (x - y) == d * x - d * y
  {
  }

  lemma PowValue1()
    ensures Pow2(1) == 2
  {
  }

  /** Below d * m, a multiple of d leaves room for anything less than d. */
  lemma RoomBelow(d: nat, m: int, e: int, r: nat)
    requires r < d && d * e < d * m
    ensures d * e + r < d * m
  {
    if e >= m {
      MulMonotone(d, m, e);
    } else {
      MulMonotone(d, e, m - 1);
      MulSub(d, m, 1);
    }
  }

  lemma Quotient(x: nat, d: nat) returns (q: nat)
    requires d > 0 && x % d == 0
    ensures x == d * q
  {
    q := x / d;
  }

  /** A byte whose low k bits are clear has room for them. */
  lemma ByteHasRoom(x: nat, hi: nat, b: Byte, r: nat, k: nat)
    requires k <= 8 && x == 0x100 * hi + b && x % Pow2(k) == 0 && r < Pow2(k)
    ensures b + r < 0x100
  {
    hide Pow2;
    var d, m := Pow2(k), Pow2(8 - k);
    PowAdd(k, 8 - k);
    PowValues();
    var q := Quotient(x, d);
    MulAssoc(d, m, hi);
    MulSub(d, q, m * hi);
    RoomBelow(d, m, q - m * hi, r);
  }

  lemma MultipleMod(d: nat, q: nat)
    requires d > 0
    ensures (d * q) % d == 0
  {
    DivModUnique(d, q, 0);
  }

  /** Clearing more than a byte clears the low byte and goes on above it. */
  lemma StripByte(x: nat, hi: nat, b: Byte, p: nat, d: nat)
    requires d > 0 && p == 0x100 * d && x == 0x100 * hi + b && x % p == 0
    ensures b == 0 && hi % d == 0
  {
    var q := Quotient(x, p);
    MulAssoc(0x100, d, q);
    assert hi == d * q;
    MultipleMod(d, q);
  }

  /** Without a carry the bytewise sum is the sum. */
  lemma SumOfBytes(base: Ip, offset: nat)
    requires offset < 0x100_0000
    requires base.b3 + offset % 0x100 < 0x100
    requires base.b2 + offset / 0x100 % 0x100 < 0x100
    requires base.b1 + offset / 0x1_0000 % 0x100 < 0x100
    ensures Value(AddOffset(base, offset)) == Value(base) + offset
  {
    var t, u := offset / 0x100, offset / 0x1_0000;
    assert u == t / 0x100 && u % 0x100 == u;
    assert offset == 0x100 * t + offset % 0x100 && t == 0x100 * u + t % 0x100;
  }

  /** When the offset fits below a boundary of the base, adding byte by byte never carries. */
  lemma NoCarry8(base: Ip, h: nat, offset: nat)
    requires h <= 8 && Value(base) % Pow2(h) == 0 && offset < Pow2(h)
    ensures Value(AddOffset(base, offset)) == Value(base) + offset
  {
    PowMonotone(h, 8);
    PowValues();
    hide Pow2, AddOffset;
    assert offset / 0x100 == 0 && offset / 0x1_0000 == 0;
    ByteHasRoom(Value(base), 0x1_0000 * base.b0 + 0x100 * base.b1 + base.b2, base.b3, offset, h);
    hide Value;
    SumOfBytes(base, offset);
  }

  /** The low byte of a base with more than eight host bits is clear. */
  lemma LowByteClear(x: nat, hi: nat, b: Byte, h: nat)
    requires h >= 8 && x == 0x100 * hi + b && x % Pow2(h) == 0
    ensures b == 0 && hi % Pow2(h - 8) == 0
  {
    hide Pow2;
    PowValues();
    PowAdd(8, h - 8);
    StripByte(x, hi, b, Pow2(h), Pow2(h - 8));
  }

  /** An offset below 2^h leaves less than 2^(h - k) above its low k bits. */
  lemma OffsetAbove(offset: nat, h: nat, k: nat, p: nat)
    requires k <= h && p == Pow2(k) && offset < Pow2(h)
    ensures offset / p < Pow2(h - k)
  {
    hide Pow2;
    PowAdd(k, h - k);
    var q, d := offset / p, Pow2(h - k);
    assert p * q <= offset;
    if q >= d {
      MulMonotone(p, d, q);
    }
  }

  lemma NoCarry16(base: Ip, h: nat, offset: nat)
    requires 8 < h <= 16 && Value(base) % Pow2(h) == 0 && offset < Pow2(h)
    ensures Value(AddOffset(base, offset)) == Value(base) + offset
  {
    hide Pow2, AddOffset;
    PowMonotone(h, 16);
    PowMonotone(h - 8, 8);
    PowValues();
    var hi := 0x100 * base.b0 + base.b1;
    LowByteClear(Value(base), 0x100 * hi + base.b2, base.b3, h);
    OffsetAbove(offset, h, 8, 0x100);
    ByteHasRoom(0x100 * hi + base.b2, hi, base.b2, offset / 0x100, h - 8);
    SumOfBytes(base, offset);
  }

  lemma NoCarry24(base: Ip, h: nat, offset: nat)
    requires 16 < h <= 24 && Value(base) % Pow2(h) == 0 && offset < Pow2(h)
    ensures Value(AddOffset(base, offset)) == Value(base) + offset
  {
    hide Pow2, AddOffset;
    PowMonotone(h, 24);
    PowMonotone(h - 16, 8);
    PowValues();
    var hi := 0x100 * base.b0 + base.b1;
    LowByteClear(Value(base), 0x100 * hi + base.b2, base.b3, h);
    LowByteClear(0x100 * hi + base.b2, hi, base.b2, h - 8);
    OffsetAbove(offset, h, 16, 0x1_0000);
    ByteHasRoom(hi, base.b0, base.b1, offset / 0x1_0000, h - 16);
    SumOfBytes(base, offset);
  }

  /** For up to 24 host bits the bytewise sum is base plus offset. */
  lemma NoCarry(n: Subnet, offset: nat)
    requires ValidSubnet(n) && n.hostBits <= 24 && offset < Pow2(n.hostBits)
    ensures Value(AddOffset(n.base, offset)) == Value(n.base) + offset
  {
    if n.hostBits <= 8 {
      NoCarry8(n.base, n.hostBits, offset);
    } else if n.hostBits <= 16 {
      NoCarry16(n.base, n.hostBits, offset);
    } else {
      NoCarry24(n.base, n.hostBits, offset);
    }
  }

  /** The fourth byte of an offset is lost. */
  lemma OffsetLost(base: Ip)
    ensures AddOffset(base, 0x100_0000) == base
  {
  }

  /** With more than 24 host bits, drawing 2^24 gives the network address itself. So the sum is right
      for every drawable offset exactly up to 24 host bits. */
  lemma SumExact(n: Subnet)
    requires ValidSubnet(n)
    ensures (forall offset: nat | Drawable(n, offset) ::
      Value(AddOffset(n.base, offset)) == Value(n.base) + offset) <==> n.hostBits <= 24
  {
    hide AddOffset, Value, Pow2;
    if n.hostBits <= 24 {
      forall offset: nat | Drawable(n, offset) ensures Value(AddOffset(n.base, offset)) == Value(n.base) + offset {
        NoCarry(n, offset);
      }
    } else {
      PowValues();
      PowAdd(24, 1);
      PowValue1();
      PowMonotone(25, n.hostBits);
      OffsetLost(n.base);
      assert Drawable(n, 0x100_0000);
    }
  }

  lemma SameBlock(x: nat, d: nat, r: nat)
    requires d > 0 && x % d == 0 && r < d
    ensures (x + r) / d == x / d
  {
    var q := x / d;
    assert x == d * q;
    DivModUnique(d, q, r);
  }

  /** A drawn address lies in the subnet and is none of network, network+1 and broadcast. */
  lemma DrawnIsUsable(n: Subnet, offset: nat)
    requires ValidSubnet(n) && n.hostBits <= 24 && Drawable(n, offset)
    ensures var ip := AddOffset(n.base, offset);
      && Contains(n, ip)
      && Value(n.base) + 1 < Value(ip) < Value(n.base) + Pow2(n.hostBits) - 1
  {
    NoCarry(n, offset);
    hide AddOffset, Pow2, Value;
    SameBlock(Value(n.base), Pow2(n.hostBits), offset);
  }

  lemma SameIp(x: Ip, y: Ip)
    requires Value(x) == Value(y)
    ensures x == y
  {
    LowByte(0x1_0000 * x.b0 + 0x100 * x.b1 + x.b2, x.b3, 0x1_0000 * y.b0 + 0x100 * y.b1 + y.b2, y.b3);
    LowByte(0x100 * x.b0 + x.b1, x.b2, 0x100 * y.b0 + y.b1, y.b2);
    LowByte(x.b0, x.b1, y.b0, y.b1);
  }

  lemma LowByte(h: nat, b: Byte, h': nat, b': Byte)
    requires 0x100 * h + b == 0x100 * h' + b'
    ensures h == h' && b == b'
  {
    DivModUnique(0x100, h, b);
    DivModUnique(0x100, h', b');
  }

  /** Conversely every address of the subnet but those three can be drawn. */
  lemma UsableIsDrawn(n: Subnet, ip: Ip)
    requires ValidSubnet(n) && n.hostBits <= 24
    requires Value(n.base) + 1 < Value(ip) < Value(n.base) + Pow2(n.hostBits) - 1
    ensures exists offset: nat :: Drawable(n, offset) && AddOffset(n.base, offset) == ip
  {
    hide AddOffset, Pow2, Value;
    var offset: nat := Value(ip) - Value(n.base);
    NoCarry(n, offset);
    SameIp(AddOffset(n.base, offset), ip);
    assert Drawable(n, offset);
  }

  // ---- The manager --------------------------------------------------------

  /** A usable address of the subnet that nobody holds. */
  ghost predicate FreshIp(n: Subnet, used: map<nat, string>, ip: Ip) {
    && Value(ip) !in used && Contains(n, ip)
    && exists offset: nat :: Drawable(n, offset) && ip == AddOffset(n.base, offset)
  }

  /** The address this draw names lies in the subnet and is free. */
  predicate Eligible(n: Subnet, used: map<nat, string>, draw: nat) {
    var ip := AddOffset(n.base, draw + 2);
    Contains(n, ip) && Value(ip) !in used
  }

  /** A loop's worth of values of rng.Intn(maxHosts). */
  predicate Draws(n: Subnet, draws: seq<nat>) {
    |draws| >= MaxHosts(n) && forall k | 0 <= k < |draws| :: draws[k] < MaxHosts(n)
  }

  class Manager {
    const subnet: Subnet
    var usedIps: map<nat, string>
    var usedTaps: map<nat, string>

    constructor (subnet: Subnet)
      ensures this.subnet == subnet && usedIps == map[] && usedTaps == map[]
    {
      this.subnet := subnet;
      usedIps, usedTaps := map[], map[];
    }

    /** The lowest free index, or nothing when all 4096 are taken. */
    method AllocateTap(id: string) returns (tap: Option<nat>)
      modifies this`usedTaps
      ensures tap.None? <==> forall i | 0 <= i < MAX_TAPS :: i in old(usedTaps)
      ensures tap.None? ==> usedTaps == old(usedTaps)
      ensures tap.Some? ==>
        tap.value < MAX_TAPS && tap.value !in old(usedTaps) && usedTaps == old(usedTaps)[tap.value := id]
      ensures tap.Some? ==> forall i | 0 <= i < tap.value :: i in old(usedTaps)
    {
      var i := 0;
      while i < MAX_TAPS
        invariant 0 <= i <= MAX_TAPS && usedTaps == old(usedTaps)
        invariant forall j | 0 <= j < i :: j in usedTaps
      {
        if i !in usedTaps {
          usedTaps := usedTaps[i := id];
          return Some(i);
        }
        i := i + 1;
      }
      return None;
    }

    /** Up to maxHosts random draws; draws[k] is what rng.Intn(maxHosts) returns the k-th time. */
    method AllocateIp(id: string, draws: seq<nat>) returns (ip: Option<Ip>)
      requires Draws(subnet, draws)
      modifies this`usedIps
      ensures ip.None? <==> forall k | 0 <= k < MaxHosts(subnet) :: !Eligible(subnet, old(usedIps), draws[k])
      ensures ip.None? ==> usedIps == old(usedIps)
      ensures ip.Some? ==> FreshIp(subnet, old(usedIps), ip.value) && usedIps == old(usedIps)[Value(ip.value) := id]
    {
      var attempt := 0;
      while attempt < MaxHosts(subnet)
        invariant 0 <= attempt && usedIps == old(usedIps)
        invariant forall k | 0 <= k < attempt && k < MaxHosts(subnet) :: !Eligible(subnet, usedIps, draws[k])
      {
        var offset := draws[attempt] + 2;
        var a := AddOffset(subnet.base, offset);
        if Contains(subnet, a) && Value(a) !in usedIps {
          assert Drawable(subnet, offset) && Eligible(subnet, usedIps, draws[attempt]);
          usedIps := usedIps[Value(a) := id];
          return Some(a);
        }
        attempt := attempt + 1;
      }
      return None;
    }

    /** A TAP and an address, or neither: an address that cannot be had gives the TAP back. */
    method SetupSandbox(id: string, draws: seq<nat>) returns (r: Option<(nat, Ip)>)
      requires Draws(subnet, draws)
      modifies this
      ensures r.None? <==>
        || (forall i | 0 <= i < MAX_TAPS :: i in old(usedTaps))
        || (forall k | 0 <= k < MaxHosts(subnet) :: !Eligible(subnet, old(usedIps), draws[k]))
      ensures r.None? ==> usedTaps == old(usedTaps) && usedIps == old(usedIps)
      ensures r.Some? ==>
        var (tap, ip) := r.value;
        && tap < MAX_TAPS && tap !in old(usedTaps) && usedTaps == old(usedTaps)[tap := id]
        && (forall i | 0 <= i < tap :: i in old(usedTaps))
        && FreshIp(subnet, old(usedIps), ip) && usedIps == old(usedIps)[Value(ip) := id]
    {
      var tap := AllocateTap(id);
      if tap.None? {
        return None;
      }
      var ip := AllocateIp(id, draws);
      if ip.None? {
        usedTaps := usedTaps - {tap.value};
        return None;
      }
      return Some((tap.value, ip.value));
    }

    /** Both entries go, whoever holds them; a missing one is ignored. */
    method TeardownSandbox(tap: Option<nat>, ip: Option<Ip>)
      modifies this
      ensures usedTaps == old(usedTaps) - (if tap.Some? then {tap.value} else {})
      ensures usedIps == old(usedIps) - (if ip.Some? then {Value(ip.value)} else {})
    {
      if tap.Some? {
        usedTaps := usedTaps - {tap.value};
      }
      if ip.Some? {
        usedIps := usedIps - {Value(ip.value)};
      }
    }
  }

  // ---- Runs ---------------------------------------------------------------

  /** Both pools, and who was given what and has not been stopped. */
  datatype World = World(taps: map<nat, string>, ips: map<nat, string>, live: map<string, (nat, Ip)>)

  datatype Event =
    | Setup(id: string, tap: nat, ip: Ip)  // a setup that succeeded
    | Failed(id: string)                   // one that did not
    | Stop(id: string)                     // teardown with the sandbox's own record

  /** The event is one the manager can produce in this world, and stops name a live sandbox. */
  ghost predicate Possible(n: Subnet, w: World, e: Event) {
    match e
    case Setup(id, tap, ip) => id !in w.live && tap < MAX_TAPS && tap !in w.taps && FreshIp(n, w.ips, ip)
    case Failed(_) => true
    case Stop(id) => id in w.live
  }

  function After(w: World, e: Event): World
    requires e.Stop? ==> e.id in w.live
  {
    match e
    case Setup(id, tap, ip) => World(w.taps[tap := id], w.ips[Value(ip) := id], w.live[id := (tap, ip)])
    case Failed(_) => w
    case Stop(id) => World(w.taps - {w.live[id].0}, w.ips - {Value(w.live[id].1)}, w.live - {id})
  }

  /** Every live sandbox owns its TAP and its address, which are usable, and nobody else owns anything. */
  ghost predicate Owned(n: Subnet, w: World) {
    && (forall id | id in w.live ::
          && w.live[id].0 in w.taps && w.taps[w.live[id].0] == id && w.live[id].0 < MAX_TAPS
          && Value(w.live[id].1) in w.ips && w.ips[Value(w.live[id].1)] == id
          && exists offset: nat :: Drawable(n, offset) && w.live[id].1 == AddOffset(n.base, offset))
    && (forall tap | tap in w.taps :: w.taps[tap] in w.live && w.live[w.taps[tap]].0 == tap)
    && (forall a | a in w.ips :: w.ips[a] in w.live && Value(w.live[w.ips[a]].1) == a)
  }

  lemma EventKeepsOwned(n: Subnet, w: World, e: Event)
    requires Owned(n, w) && Possible(n, w, e)
    ensures Owned(n, After(w, e))
  {
    hide Drawable, AddOffset, Contains;
  }

  ghost predicate IsRun(n: Subnet, ws: seq<World>, es: seq<Event>) {
    && |ws| == |es| + 1 && ws[0] == World(map[], map[], map[])
    && forall i | 0 <= i < |es| :: Possible(n, ws[i], es[i]) && ws[i + 1] == After(ws[i], es[i])
  }

  lemma {:induction false} RunKeepsOwned(n: Subnet, ws: seq<World>, es: seq<Event>, i: nat)
    requires IsRun(n, ws, es) && i < |ws|
    ensures Owned(n, ws[i])
  {
    hide Possible, After;
    if i > 0 {
      RunKeepsOwned(n, ws, es, i - 1);
      hide Owned;
      EventKeepsOwned(n, ws[i - 1], es[i - 1]);
    }
  }

  /** Owners have different TAPs and different addresses; up to 24 host bits no address is the network,
      network+1 or broadcast address. */
  lemma OwnersApart(n: Subnet, w: World, a: string, b: string)
    requires ValidSubnet(n) && Owned(n, w) && a in w.live && b in w.live && a != b
    ensures w.live[a].0 != w.live[b].0 && Value(w.live[a].1) != Value(w.live[b].1)
    ensures n.hostBits <= 24 ==> Contains(n, w.live[a].1)
    ensures n.hostBits <= 24 ==>
      Value(n.base) + 1 < Value(w.live[a].1) < Value(n.base) + Pow2(n.hostBits) - 1
  {
    hide Contains, AddOffset, Value, Pow2, ValidSubnet;
    var offset: nat :| Drawable(n, offset) && w.live[a].1 == AddOffset(n.base, offset);
    if n.hostBits <= 24 {
      DrawnIsUsable(n, offset);
    }
  }

  /** So it is over every sequence of setups, failed setups and stops by the holder. */
  lemma LiveSandboxesApart(n: Subnet, ws: seq<World>, es: seq<Event>, i: nat, a: string, b: string)
    requires ValidSubnet(n) && IsRun(n, ws, es) && i < |ws| && a in ws[i].live && b in ws[i].live && a != b
    ensures ws[i].live[a].0 != ws[i].live[b].0 && Value(ws[i].live[a].1) != Value(ws[i].live[b].1)
    ensures n.hostBits <= 24 ==> Contains(n, ws[i].live[a].1)
    ensures n.hostBits <= 24 ==>
      Value(n.base) + 1 < Value(ws[i].live[a].1) < Value(n.base) + Pow2(n.hostBits) - 1
  {
    RunKeepsOwned(n, ws, es, i);
    hide IsRun, Owned, Pow2;
    OwnersApart(n, ws[i], a, b);
  }

  /** The pools after a teardown with this record, which looks up no owner. */
  function TornDown(w: World, tap: Option<nat>, ip: Option<Ip>): World {
    w.(taps := w.taps - (if tap.Some? then {tap.value} else {}),
       ips := w.ips - (if ip.Some? then {Value(ip.value)} else {}))
  }

  /** A teardown for a sandbox that is not live, with whatever record, leaves everybody what they own
      exactly when nobody holds the TAP and the address it names: the owner check that is missing. */
  lemma StaleTeardownSafeIff(n: Subnet, w: World, tap: Option<nat>, ip: Option<Ip>)
    requires Owned(n, w)
    ensures Owned(n, TornDown(w, tap, ip)) <==>
      (tap.Some? ==> tap.value !in w.taps) && (ip.Some? ==> Value(ip.value) !in w.ips)
  {
    hide Drawable, AddOffset, Value;
    var w' := TornDown(w, tap, ip);
    if tap.Some? && tap.value in w.taps {
      var id := w.taps[tap.value];
      assert id in w'.live && w'.live[id].0 !in w'.taps;
    } else if ip.Some? && Value(ip.value) in w.ips {
      var id := w.ips[Value(ip.value)];
      assert id in w'.live && Value(w'.live[id].1) !in w'.ips;
    } else {
      assert w' == w;
    }
  }

  datatype Request = Start(id: string, draws: seq<nat>) | End(id: string)

  /** The manager's own methods take exactly those steps: a client that starts sandboxes under new
      names and stops each with its own record ends with every live sandbox owning what it was given. */
  method Serve(m: Manager, requests: seq<Request>) returns (live: map<string, (nat, Ip)>)
    requires m.usedTaps == map[] && m.usedIps == map[]
    requires forall r | r in requests && r.Start? :: Draws(m.subnet, r.draws)
    modifies m
    ensures Owned(m.subnet, World(m.usedTaps, m.usedIps, live))
  {
    hide Drawable, AddOffset, Contains, Value, Draws, Eligible;
    live := map[];
    for i := 0 to |requests|
      invariant Owned(m.subnet, World(m.usedTaps, m.usedIps, live))
    {
      ghost var w := World(m.usedTaps, m.usedIps, live);
      var r := requests[i];
      if r.Start? && r.id !in live {
        var got := m.SetupSandbox(r.id, r.draws);
        if got.Some? {
          live := live[r.id := got.value];
          EventKeepsOwned(m.subnet, w, Setup(r.id, got.value.0, got.value.1));
        }
      } else if r.End? && r.id in live {
        m.TeardownSandbox(Some(live[r.id].0), Some(live[r.id].1));
        live := live - {r.id};
        EventKeepsOwned(m.subnet, w, Stop(r.id));
      }
    }
  }

  /** Different draws name different addresses, and all of them are in the subnet. */
  lemma DrawsApart(n: Subnet, x: nat, y: nat)
    requires ValidSubnet(n) && n.hostBits <= 24 && x < MaxHosts(n) && y < MaxHosts(n)
    ensures x != y ==> Value(AddOffset(n.base, x + 2)) != Value(AddOffset(n.base, y + 2))
    ensures Contains(n, AddOffset(n.base, x + 2))
  {
    hide AddOffset, Value, Contains, Pow2;
    NoCarry(n, x + 2);
    NoCarry(n, y + 2);
    DrawnIsUsable(n, x + 2);
  }

  lemma EightOrMore(n: Subnet)
    requires n.hostBits >= 3
    ensures MaxHosts(n) >= 5
  {
    PowMonotone(3, n.hostBits);
    assert Pow2(3) == 8;
  }

  /** With at most one address taken, two different draws cannot both miss. */
  lemma OneIsEligible(n: Subnet, used: map<nat, string>, taken: nat, draws: seq<nat>)
    requires ValidSubnet(n) && 3 <= n.hostBits <= 24 && Draws(n, draws) && |draws| >= 2 && draws[0] != draws[1]
    requires used.Keys <= {taken}
    ensures exists k :: 0 <= k < MaxHosts(n) && Eligible(n, used, draws[k])
  {
    EightOrMore(n);
    hide Pow2, AddOffset, Value, Contains, ValidSubnet;
    DrawsApart(n, draws[0], draws[1]);
    DrawsApart(n, draws[1], draws[0]);
    assert Eligible(n, used, draws[0]) || Eligible(n, used, draws[1]);
  }

  /** Stopping a sandbox a second time takes the TAP from its next holder, because teardown looks up
      no owner: with sandbox a stopped, b set up, a stopped again and c set up, b and c share a TAP. */
  method StaleStop(m: Manager, draws: seq<nat>)
    returns (a: Option<(nat, Ip)>, b: Option<(nat, Ip)>, c: Option<(nat, Ip)>)
    requires m.usedTaps == map[] && m.usedIps == map[]
    requires ValidSubnet(m.subnet) && 3 <= m.subnet.hostBits <= 24
    requires Draws(m.subnet, draws) && |draws| >= 2 && draws[0] != draws[1]
    modifies m
    ensures a.Some? && b.Some? && c.Some? && b.value.0 == c.value.0
  {
    hide Eligible, Drawable, AddOffset, Contains, Value, Draws, Pow2;
    OneIsEligible(m.subnet, map[], 0, draws);
    assert 0 < MAX_TAPS && 0 !in m.usedTaps;
    a := m.SetupSandbox("a", draws);
    m.TeardownSandbox(Some(a.value.0), Some(a.value.1));
    assert m.usedTaps == map[] && m.usedIps == map[] && 0 !in m.usedTaps;
    b := m.SetupSandbox("b", draws);
    m.TeardownSandbox(Some(a.value.0), Some(a.value.1));
    OneIsEligible(m.subnet, m.usedIps, Value(b.value.1), draws);
    assert 0 !in m.usedTaps;
    c := m.SetupSandbox("c", draws);
  }
}
