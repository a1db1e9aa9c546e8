/** Sequential copy loops that rebuild RAM from a snapshot: the coalescing copy of one
    256-page chunk, the bitmap-less zero scan, and the kernel-module benchmark's sparse copy. */
module EagerRestore {
  import opened Bytes
  import opened GuestMemory
  import opened DirtyBitmap

  const CHUNK_PAGES: nat := 256

  /** dst with the dirty pages of [lo, hi) replaced by the source's. */
  ghost function Overlay(src: Ram, dst: Ram, bitmap: seq<Byte>, lo: nat, hi: nat): (r: Ram)
    requires |src| == |dst| && Covers(bitmap, if hi < |src| then hi else |src|)
  {
    seq(|dst|, i requires 0 <= i < |dst| => if lo <= i < hi && Dirty(bitmap, i) then src[i] else dst[i])
  }

  /** The end of the run of set bits that starts at pg; inside says that no bit was looked up past the
      end of the bitmap. */
  method RunEnd(bitmap: seq<Byte>, start: nat, pgEnd: nat) returns (pg: nat, inside: bool)
    requires start < pgEnd && start < 8 * |bitmap| && Dirty(bitmap, start)
    ensures start < pg <= pgEnd && pg <= 8 * |bitmap| && forall i | start <= i < pg :: Dirty(bitmap, i)
    ensures inside ==> pg == pgEnd || (pg < 8 * |bitmap| && !Dirty(bitmap, pg))
    ensures !inside ==> pg == 8 * |bitmap| < pgEnd
  {
    pg := start;
    while pg < pgEnd
      invariant start <= pg <= pgEnd && pg <= 8 * |bitmap| && (pg == start ==> Dirty(bitmap, pg))
      invariant forall i | start <= i < pg :: Dirty(bitmap, i)
    {
      if pg >= 8 * |bitmap| {
        return pg, false;
      }
      if !Dirty(bitmap, pg) {
        return pg, true;
      }
      pg := pg + 1;
    }
    return pg, true;
  }

  lemma OverlayRun(src: Ram, before: Ram, now: Ram, bitmap: seq<Byte>, lo: nat, mid: nat, hi: nat)
    requires |src| == |before| && lo <= mid <= hi <= |src| && Covers(bitmap, hi)
    requires forall i | mid <= i < hi :: Dirty(bitmap, i)
    requires now == Overlay(src, before, bitmap, lo, mid)
    ensures now[..mid] + src[mid..hi] + now[hi..] == Overlay(src, before, bitmap, lo, hi)
  {
    hide Dirty;
  }

  lemma OverlaySkip(src: Ram, before: Ram, bitmap: seq<Byte>, lo: nat, pg: nat)
    requires |src| == |before| && lo <= pg < |src| && Covers(bitmap, pg + 1) && !Dirty(bitmap, pg)
    ensures Overlay(src, before, bitmap, lo, pg + 1) == Overlay(src, before, bitmap, lo, pg)
  {
  }

  /** memcpy of pages [lo, hi). */
  method CopyRun(src: Ram, dst: array<Page>, lo: nat, hi: nat)
    requires dst.Length == |src| && lo <= hi <= |src|
    modifies dst
    ensures dst[..] == old(dst[..lo]) + src[lo..hi] + old(dst[hi..])
  {
    forall i | lo <= i < hi {
      dst[i] := src[i];
    }
  }

  /** The inner loops of the copy worker on chunk ch: clear bits are skipped, a run of set bits is
      copied with one memcpy. A non-empty bitmap may be shorter than RAM, which nothing checks; inside
      says that the worker stayed within it. */
  method CopyChunk(src: Ram, dst: array<Page>, bitmap: seq<Byte>, ch: nat) returns (dirty: nat, inside: bool)
    requires dst.Length == |src| && ch * CHUNK_PAGES < |src|
    modifies dst
    ensures inside <==> Covers(bitmap, ChunkEnd(ch, |src|))
    ensures inside ==> dst[..] == Overlay(src, old(dst[..]), bitmap, ch * CHUNK_PAGES, ChunkEnd(ch, |src|))
    ensures inside ==> dirty == |DirtyPages(bitmap, ch * CHUNK_PAGES, ChunkEnd(ch, |src|))|
  {
    hide Dirty, Overlay;
    dirty, inside := 0, true;
    var pgStart, pgEnd := ch * CHUNK_PAGES, ChunkEnd(ch, |src|);
    var pg := pgStart;
    OverlayNothing(src, dst[..], bitmap, pgStart);
    while pg < pgEnd
      invariant pgStart <= pg <= pgEnd && inside && (pg == pgStart || pg <= 8 * |bitmap|)
      invariant pg <= 8 * |bitmap| ==> dst[..] == Overlay(src, old(dst[..]), bitmap, pgStart, pg)
      invariant pg <= 8 * |bitmap| ==> dirty == |DirtyPages(bitmap, pgStart, pg)|
    {
      if pg >= 8 * |bitmap| {
        return dirty, false;
      }
      if !Dirty(bitmap, pg) {
        DirtySkip(bitmap, pgStart, pg);
        OverlaySkip(src, old(dst[..]), bitmap, pgStart, pg);
        pg := pg + 1;
        continue;
      }
      var runStart := pg;
      pg, inside := RunEnd(bitmap, runStart, pgEnd);
      DirtyRun(bitmap, pgStart, runStart, pg);
      OverlayRun(src, old(dst[..]), dst[..], bitmap, pgStart, runStart, pg);
      if !inside {
        return;
      }
      dirty := dirty + (pg - runStart);
      CopyRun(src, dst, runStart, pg);
    }
  }

  lemma OverlayNothing(src: Ram, dst: Ram, bitmap: seq<Byte>, lo: nat)
    requires |src| == |dst|
    ensures lo <= 8 * |bitmap| ==> Overlay(src, dst, bitmap, lo, lo) == dst && DirtyPages(bitmap, lo, lo) == {}
  {
  }

  lemma OverlayJoin(src: Ram, dst: Ram, bitmap: seq<Byte>, mid: nat, hi: nat)
    requires |src| == |dst| && mid <= hi <= |src| && Covers(bitmap, hi)
    ensures Overlay(src, Overlay(src, dst, bitmap, 0, mid), bitmap, mid, hi) == Overlay(src, dst, bitmap, 0, hi)
    ensures |DirtyPages(bitmap, 0, hi)| == |DirtyPages(bitmap, 0, mid)| + |DirtyPages(bitmap, mid, hi)|
  {
    hide Dirty;
    assert DirtyPages(bitmap, 0, hi) == DirtyPages(bitmap, 0, mid) + DirtyPages(bitmap, mid, hi);
  }

  /** The first page of chunk ch, or the end of RAM. */
  function ChunkStart(ch: nat, totalPages: nat): nat {
    if ch * CHUNK_PAGES < totalPages then ch * CHUNK_PAGES else totalPages
  }

  /** The copy worker on its own: claim chunks until the counter passes the last one. */
  method CopyAll(src: Ram, dst: array<Page>, bitmap: seq<Byte>) returns (dirty: nat, inside: bool)
    requires dst.Length == |src|
    modifies dst
    ensures inside <==> Covers(bitmap, |src|)
    ensures inside ==> dst[..] == Overlay(src, old(dst[..]), bitmap, 0, |src|)
    ensures inside ==> dirty == |DirtyPages(bitmap, 0, |src|)|
  {
    hide Dirty, Overlay;
    dirty, inside := 0, true;
    var numChunks := (|src| + CHUNK_PAGES - 1) / CHUNK_PAGES;
    var ch := 0;
    OverlayNothing(src, dst[..], bitmap, 0);
    while ch < numChunks
      invariant 0 <= ch <= numChunks && inside && Covers(bitmap, ChunkStart(ch, |src|))
      invariant dst[..] == Overlay(src, old(dst[..]), bitmap, 0, ChunkStart(ch, |src|))
      invariant dirty == |DirtyPages(bitmap, 0, ChunkStart(ch, |src|))|
    {
      var d;
      d, inside := CopyChunk(src, dst, bitmap, ch);
      if !inside {
        return;
      }
      OverlayJoin(src, old(dst[..]), bitmap, ch * CHUNK_PAGES, ChunkEnd(ch, |src|));
      dirty := dirty + d;
      ch := ch + 1;
    }
  }

  /** dst with the source's non-zero pages copied over it. */
  ghost function OverlayNonZero(src: Ram, dst: Ram): (r: Ram)
    requires |src| == |dst|
  {
    seq(|dst|, i requires 0 <= i < |dst| => if IsZero(src[i]) then dst[i] else src[i])
  }

  /** The zero scan used when the snapshot carries no bitmap. */
  method ZeroScanRestore(src: Ram, dst: array<Page>)
    requires dst.Length == |src|
    modifies dst
    ensures dst[..] == OverlayNonZero(src, old(dst[..]))
  {
    for pg := 0 to |src|
      invariant forall i | 0 <= i < pg :: dst[i] == if IsZero(src[i]) then old(dst[i]) else src[i]
      invariant forall i | pg <= i < |src| :: dst[i] == old(dst[i])
    {
      var acc := OrReduce(src[pg]);
      if acc != 0 {
        dst[pg] := src[pg];
      }
    }
  }

  /** snap_bench's sparse_restore; the page count is clamped to the bits the bitmap has. */
  method SparseRestore(src: Ram, dst: array<Page>, bitmap: seq<Byte>)
    requires dst.Length == |src|
    modifies dst
    ensures dst[..] == Overlay(src, old(dst[..]), bitmap, 0, if |src| > 8 * |bitmap| then 8 * |bitmap| else |src|)
  {
    var pages := |src|;
    var maxPages := 8 * |bitmap|;
    if pages > maxPages {
      pages := maxPages;
    }
    for pg := 0 to pages
      invariant forall i | 0 <= i < pg :: dst[i] == if Dirty(bitmap, i) then src[i] else old(dst[i])
      invariant forall i | pg <= i < |src| :: dst[i] == old(dst[i])
    {
      if Dirty(bitmap, pg) {
        dst[pg] := src[pg];
      }
    }
  }

  function ChunkEnd(ch: nat, totalPages: nat): nat {
    if (ch + 1) * CHUNK_PAGES < totalPages then (ch + 1) * CHUNK_PAGES else totalPages
  }
}
