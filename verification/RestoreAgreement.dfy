/** Every way of rebuilding RAM ends in the saved image: the copy pool under any schedule, the
    zero scan, the sparse copy, midway copy plus faults, and a fully faulted lazy restore. */
module RestoreAgreement {
  import opened Bytes
  import opened GuestMemory
  import opened DirtyBitmap
  import opened EagerRestore
  import CopyPool
  import LazyRestore

  /** Fresh memfd memory. */
  ghost function ZeroRam(n: nat): (r: Ram)
    ensures |r| == n && forall i | 0 <= i < n :: IsZero(r[i])
  {
    seq(n, _ => ZeroPage())
  }

  /** A bitmap copy onto dst is exact iff dst already agrees with the image on every clear page. */
  lemma OverlayExact(image: Ram, dst: Ram, bitmap: seq<Byte>)
    requires |dst| == |image| && Covers(bitmap, |image|)
    ensures Overlay(image, dst, bitmap, 0, |image|) == image <==>
      forall pg | 0 <= pg < |image| && !Dirty(bitmap, pg) :: dst[pg] == image[pg]
  {
    var r := Overlay(image, dst, bitmap, 0, |image|);
    if r == image {
      assert forall pg | 0 <= pg < |image| && !Dirty(bitmap, pg) :: dst[pg] == r[pg];
    }
  }

  /** Onto fresh memory: iff the bitmap is sound. */
  lemma OverlayFreshExact(image: Ram, bitmap: seq<Byte>)
    requires Covers(bitmap, |image|)
    ensures Overlay(image, ZeroRam(|image|), bitmap, 0, |image|) == image <==> Sound(bitmap, image)
  {
    OverlayExact(image, ZeroRam(|image|), bitmap);
    forall pg | 0 <= pg < |image| ensures IsZero(image[pg]) <==> ZeroRam(|image|)[pg] == image[pg] {
      ZeroPageUnique(image[pg]);
      ZeroPageUnique(ZeroRam(|image|)[pg]);
    }
  }

  /** The zero scan onto fresh memory needs no bitmap at all. */
  lemma ZeroScanExact(image: Ram)
    ensures OverlayNonZero(image, ZeroRam(|image|)) == image
  {
    forall pg | 0 <= pg < |image| ensures OverlayNonZero(image, ZeroRam(|image|))[pg] == image[pg] {
      ZeroPageUnique(image[pg]);
      ZeroPageUnique(ZeroRam(|image|)[pg]);
    }
  }

  lemma ScannedBitmapSound(image: Ram, bitmap: seq<Byte>)
    requires MarksNonZero(bitmap, image, |image|)
    ensures Covers(bitmap, |image|) && Sound(bitmap, image)
    ensures LazyRestore.ValidSnapshot(LazyRestore.Snapshot(image, bitmap))
    ensures LazyRestore.SoundSnapshot(LazyRestore.Snapshot(image, bitmap))
  {
  }

  /** The copy pool, for any number of workers and any schedule that finishes. */
  lemma PoolRestores(image: Ram, bitmap: seq<Byte>, n: nat, sched: seq<nat>)
    requires MarksNonZero(bitmap, image, |image|) && n > 0
    requires CopyPool.ValidJob(CopyPool.Job(image, bitmap))
    requires CopyPool.Scheduled(CopyPool.Init(ZeroRam(|image|), n), sched)
    requires CopyPool.AllDone(CopyPool.PoolRun(CopyPool.Job(image, bitmap), ZeroRam(|image|), n, sched))
    ensures CopyPool.PoolRun(CopyPool.Job(image, bitmap), ZeroRam(|image|), n, sched).dst == image
    ensures CopyPool.PoolRun(CopyPool.Job(image, bitmap), ZeroRam(|image|), n,
      sched).totalDirty == |NonZeroPages(image, |image|)|
  {
    ScannedBitmapSound(image, bitmap);
    OverlayFreshExact(image, bitmap);
    CopyPool.PoolResult(CopyPool.Job(image, bitmap), ZeroRam(|image|), n, sched);
    assert DirtyPages(bitmap, 0, |image|) == NonZeroPages(image, |image|);
  }

  /** All pages present. */
  ghost predicate FullyFaulted(s: LazyRestore.State) {
    forall pg | 0 <= pg < |s.ram| :: pg in s.present
  }

  lemma FullyFaultedShows(snap: LazyRestore.Snapshot, s: LazyRestore.State)
    requires LazyRestore.ValidSnapshot(snap) && LazyRestore.StateOk(snap, s) && FullyFaulted(s)
    ensures LazyRestore.Effective(snap, s) == s.ram
  {
  }

  /** Lazy restore: like eagerly restored RAM all along, and once every page is there RAM itself is the
      image with the guest's writes on it. */
  lemma LazyRestores(image: Ram, bitmap: seq<Byte>, ram: Ram, es: seq<LazyRestore.Event>)
    requires MarksNonZero(bitmap, image, |image|) && |ram| == |image|
    requires LazyRestore.ValidSnapshot(LazyRestore.Snapshot(image, bitmap))
    ensures var snap := LazyRestore.Snapshot(image, bitmap);
      && LazyRestore.LikeEager(snap, LazyRestore.Start(ram), es)
      && var s := LazyRestore.Run(snap, LazyRestore.Start(ram), es);
         FullyFaulted(s) ==> s.ram == LazyRestore.Replay(image, s.log)
  {
    var snap := LazyRestore.Snapshot(image, bitmap);
    ScannedBitmapSound(image, bitmap);
    LazyRestore.LazyRefinesEager(snap, ram, es);
    var s := LazyRestore.Run(snap, LazyRestore.Start(ram), es);
    if FullyFaulted(s) {
      FullyFaultedShows(snap, s);
    }
  }

  /** The pages an eager copy has touched: the dirty ones, or the non-zero ones without a bitmap. */
  ghost function Copied(image: Ram, bitmap: seq<Byte>): set<nat>
    requires bitmap == [] || Covers(bitmap, |image|)
  {
    if bitmap == [] then NonZeroPages(image, |image|) else DirtyPages(bitmap, 0, |image|)
  }

  ghost function EagerResult(image: Ram, bitmap: seq<Byte>, dst: Ram): Ram
    requires (bitmap == [] || Covers(bitmap, |image|)) && |dst| == |image|
  {
    if bitmap == [] then OverlayNonZero(image, dst) else Overlay(image, dst, bitmap, 0, |image|)
  }

  ghost function AfterMidwayCopy(image: Ram, bitmap: seq<Byte>): LazyRestore.State
    requires bitmap == [] || Covers(bitmap, |image|)
  {
    LazyRestore.MidwayStart(EagerResult(image, bitmap, ZeroRam(|image|)), Copied(image, bitmap))
  }

  /** Midway restore, with or without a bitmap: the same. */
  lemma MidwayRestores(image: Ram, bitmap: seq<Byte>, es: seq<LazyRestore.Event>)
    requires bitmap == [] || (Covers(bitmap, |image|) && Sound(bitmap, image))
    ensures var snap, s0 := LazyRestore.Snapshot(image, bitmap), AfterMidwayCopy(image, bitmap);
      && LazyRestore.StateOk(snap, s0)
      && LazyRestore.LikeEager(snap, s0, es)
      && var s := LazyRestore.Run(snap, s0, es);
         FullyFaulted(s) ==> s.ram == LazyRestore.Replay(image, s.log)
  {
    var snap, s0 := LazyRestore.Snapshot(image, bitmap), AfterMidwayCopy(image, bitmap);
    LazyRestore.MidwayRefinesEager(snap, EagerResult(image, bitmap, ZeroRam(|image|)), Copied(image, bitmap), es);
    var s := LazyRestore.Run(snap, s0, es);
    if FullyFaulted(s) {
      FullyFaultedShows(snap, s);
    }
  }

  /** The ways to rebuild RAM, with everything that is left open: how many copy workers and how their
      actions interleave, and which faults, accesses, pre-faults and worker steps happened so far. */
  datatype Path =
    | Pool(workers: nat, sched: seq<nat>)
    | ZeroScan
    | Sparse
    | Lazy(start: Ram, es: seq<LazyRestore.Event>)
    | Midway(withBitmap: bool, es: seq<LazyRestore.Event>)

  function MidwayBitmap(bitmap: seq<Byte>, withBitmap: bool): seq<Byte> {
    if withBitmap then bitmap else []
  }

  /** Where demand paging stands. */
  datatype Paging = Paging(snap: LazyRestore.Snapshot, mem: LazyRestore.State)

  ghost predicate PagingOk(g: Paging) {
    LazyRestore.ValidSnapshot(g.snap) && LazyRestore.StateOk(g.snap, g.mem)
  }

  /** The memory accessors see. */
  ghost function Seen(g: Paging): (m: Ram)
    requires PagingOk(g)
    ensures |m| == |g.snap.image|
  {
    LazyRestore.Effective(g.snap, g.mem)
  }

  /** Paging at this point of a lazy or midway restore, any number of pages still missing. */
  ghost function PagingOf(path: Path, image: Ram, bitmap: seq<Byte>): (g: Paging)
    requires Covers(bitmap, |image|) && (path.Lazy? || path.Midway?)
    requires path.Lazy? ==> |path.start| == |image|
    ensures PagingOk(g) && g.snap.image == image
  {
    match path
    case Lazy(start, es) =>
      var snap := LazyRestore.Snapshot(image, bitmap);
      Paging(snap, LazyRestore.Run(snap, LazyRestore.Start(start), es))
    case Midway(withBitmap, es) =>
      var b := MidwayBitmap(bitmap, withBitmap);
      var snap := LazyRestore.Snapshot(image, b);
      Paging(snap, LazyRestore.Run(snap, AfterMidwayCopy(image, b), es))
  }

  /** ram is the memory the guest and the net thread see on this path after the accesses in log: what
      an eager path has copied, or what is behind the faults of a lazy one. */
  ghost predicate RestoredBy(path: Path, image: Ram, bitmap: seq<Byte>, ram: Ram, log: seq<LazyRestore.Entry>)
    requires Covers(bitmap, |image|)
  {
    match path
    case Pool(n, sched) =>
      log == [] && n > 0 && CopyPool.Scheduled(CopyPool.Init(ZeroRam(|image|), n), sched)
      && var q := CopyPool.PoolRun(CopyPool.Job(image, bitmap), ZeroRam(|image|), n, sched);
      CopyPool.AllDone(q) && ram == q.dst
    case ZeroScan => log == [] && ram == OverlayNonZero(image, ZeroRam(|image|))
    case Sparse => log == [] && ram == Overlay(image, ZeroRam(|image|), bitmap, 0, |image|)
    case Lazy(start, _) =>
      |start| == |image| && var g := PagingOf(path, image, bitmap); log == g.mem.log && ram == Seen(g)
    case Midway(_, _) =>
      var g := PagingOf(path, image, bitmap); log == g.mem.log && ram == Seen(g)
  }

  ghost predicate LoggedInRam(image: Ram, log: seq<LazyRestore.Entry>) {
    forall i | 0 <= i < |log| :: LazyRestore.InRam(|image|, log[i].access.addr)
  }

  /** On every path, however it went and however far it got, memory is exactly the saved RAM with the
      completed writes on it, and every completed read returned that memory's byte. */
  lemma EveryPathRestores(path: Path, image: Ram, bitmap: seq<Byte>, ram: Ram, log: seq<LazyRestore.Entry>)
    requires MarksNonZero(bitmap, image, |image|) && Covers(bitmap, |image|)
    requires RestoredBy(path, image, bitmap, ram, log)
    ensures LoggedInRam(image, log) && LazyRestore.Faithful(image, log) && ram == LazyRestore.Replay(image, log)
  {
    ScannedBitmapSound(image, bitmap);
    match path
    case Pool(n, sched) => PoolRestores(image, bitmap, n, sched);
    case ZeroScan => ZeroScanExact(image);
    case Sparse => OverlayFreshExact(image, bitmap);
    case Lazy(start, es) => LazyRestores(image, bitmap, start, es);
    case Midway(withBitmap, es) => MidwayRestores(image, MidwayBitmap(bitmap, withBitmap), es);
  }

  /** Before the first completed write that is the saved RAM itself. */
  lemma EveryPathStarts(path: Path, image: Ram, bitmap: seq<Byte>, ram: Ram, log: seq<LazyRestore.Entry>)
    requires MarksNonZero(bitmap, image, |image|) && Covers(bitmap, |image|)
    requires RestoredBy(path, image, bitmap, ram, log) && LazyRestore.ReadsOnly(log)
    ensures ram == image
  {
    EveryPathRestores(path, image, bitmap, ram, log);
    LazyRestore.ReplayReads(image, log);
  }

  /** Save then copy back, as the code runs it: the scan's bitmap drives the copy worker. */
  method SaveAndCopy(ram: Ram, dst: array<Page>) returns (dirty: nat)
    requires dst.Length == |ram| && forall i | 0 <= i < |ram| :: IsZero(dst[i])
    modifies dst
    ensures dst[..] == ram
    ensures dirty == |NonZeroPages(ram, |ram|)|
  {
    var bitmap, count := BuildBitmap(ram);
    ghost var before := dst[..];
    var inside;
    dirty, inside := CopyAll(ram, dst, bitmap);
    OverlayExact(ram, before, bitmap);
    forall pg | 0 <= pg < |ram| && !Dirty(bitmap, pg) ensures before[pg] == ram[pg] {
      ZeroPageUnique(before[pg]);
      ZeroPageUnique(ram[pg]);
    }
    assert DirtyPages(bitmap, 0, |ram|) == NonZeroPages(ram, |ram|);
  }
}
