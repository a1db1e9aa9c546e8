/** The dirty-page bitmap: one bit per page, built by scanning RAM when a snapshot is saved. */
module DirtyBitmap {
  import opened Bytes
  import opened GuestMemory

  /** A bitmap that has a byte for every page. */
  predicate Covers(bitmap: seq<Byte>, pages: nat) {
    pages <= 8 * |bitmap|
  }

  predicate Dirty(bitmap: seq<Byte>, pg: nat)
    requires pg < 8 * |bitmap|
  {
    TestBit(bitmap[pg / 8], pg % 8)
  }

  /** A page of RAM whose bit is set. */
  predicate MarkedPage(bitmap: seq<Byte>, pages: nat, pg: nat)
    requires Covers(bitmap, pages)
  {
    pg < pages && Dirty(bitmap, pg)
  }

  /** bitmap[pg / 8] |= 1 << (pg & 7) sets the bit of page pg and no other. */
  function MarkDirty(bitmap: seq<Byte>, pg: nat): (r: seq<Byte>)
    requires pg < 8 * |bitmap|
    ensures |r| == |bitmap|
    ensures forall q | 0 <= q < 8 * |r| :: Dirty(r, q) <==> q == pg || Dirty(bitmap, q)
  {
    assert Pow2(8) == 256;
    SetBitWidth(bitmap[pg / 8], pg % 8, 8);
    var b := SetBit(bitmap[pg / 8], pg % 8);
    assert forall q | 0 <= q < 8 * |bitmap| && q / 8 == pg / 8 :: q % 8 == pg % 8 <==> q == pg;
    bitmap[pg / 8 := b]
  }

  /** Every page whose bit is clear is a zero page. */
  ghost predicate Sound(bitmap: seq<Byte>, ram: Ram)
    requires Covers(bitmap, |ram|)
  {
    forall pg | 0 <= pg < |ram| && !Dirty(bitmap, pg) :: IsZero(ram[pg])
  }

  ghost function DirtyPages(bitmap: seq<Byte>, lo: nat, hi: nat): set<nat>
    requires Covers(bitmap, hi)
  {
    set pg: nat | lo <= pg < hi && Dirty(bitmap, pg)
  }

  lemma DirtySkip(bitmap: seq<Byte>, lo: nat, pg: nat)
    requires lo <= pg && Covers(bitmap, pg + 1) && !Dirty(bitmap, pg)
    ensures DirtyPages(bitmap, lo, pg + 1) == DirtyPages(bitmap, lo, pg)
  {
  }

  /** A run of dirty pages adds its own length. */
  lemma {:induction false} DirtyRun(bitmap: seq<Byte>, lo: nat, mid: nat, hi: nat)
    requires lo <= mid <= hi && Covers(bitmap, hi) && forall i | mid <= i < hi :: Dirty(bitmap, i)
    ensures |DirtyPages(bitmap, lo, hi)| == |DirtyPages(bitmap, lo, mid)| + (hi - mid)
  {
    hide Dirty;
    if mid < hi {
      DirtyRun(bitmap, lo, mid, hi - 1);
      assert DirtyPages(bitmap, lo, hi) == DirtyPages(bitmap, lo, hi - 1) + {hi - 1};
    }
  }

  ghost function NonZeroPages(ram: Ram, hi: nat): set<nat>
    requires hi <= |ram|
  {
    set pg: nat | 0 <= pg < hi && !IsZero(ram[pg])
  }

  /** Among the first n pages exactly the non-zero ones are marked; no later bit is set. */
  ghost predicate MarksNonZero(bitmap: seq<Byte>, ram: Ram, n: nat)
    requires n <= |ram|
  {
    && |bitmap| == (|ram| + 7) / 8
    && forall q | 0 <= q < 8 * |bitmap| :: Dirty(bitmap, q) <==> q < n && !IsZero(ram[q])
  }

  lemma MarkStep(bitmap: seq<Byte>, ram: Ram, pg: nat)
    requires pg < |ram| && MarksNonZero(bitmap, ram, pg)
    ensures MarksNonZero(if IsZero(ram[pg]) then bitmap else MarkDirty(bitmap, pg), ram, pg + 1)
    ensures |NonZeroPages(ram, pg + 1)| == |NonZeroPages(ram, pg)| + if IsZero(ram[pg]) then 0 else 1
  {
    if IsZero(ram[pg]) {
      assert NonZeroPages(ram, pg + 1) == NonZeroPages(ram, pg);
    } else {
      assert NonZeroPages(ram, pg + 1) == NonZeroPages(ram, pg) + {pg};
    }
  }

  /** save_snapshot_file's scan: a bit is set exactly for the pages that are not zero. */
  method BuildBitmap(ram: Ram) returns (bitmap: seq<Byte>, dirtyCount: nat)
    ensures MarksNonZero(bitmap, ram, |ram|)
    ensures Covers(bitmap, |ram|) && Sound(bitmap, ram)
    ensures dirtyCount == |NonZeroPages(ram, |ram|)|
  {
    bitmap := seq((|ram| + 7) / 8, _ => 0);
    dirtyCount := 0;
    forall q | 0 <= q < 8 * |bitmap| ensures !Dirty(bitmap, q) {
      ZeroHasNoBits(q % 8);
    }
    for pg := 0 to |ram|
      invariant MarksNonZero(bitmap, ram, pg)
      invariant dirtyCount == |NonZeroPages(ram, pg)|
    {
      MarkStep(bitmap, ram, pg);
      var acc := OrReduce(ram[pg]);
      if acc != 0 {
        bitmap := MarkDirty(bitmap, pg);
        dirtyCount := dirtyCount + 1;
      }
    }
  }
}
