/** Guest RAM as a sequence of 4 KiB pages, and the OR-reduce zero test that both
    the snapshot writer and the bitmap-less restore run on each page. */
module GuestMemory {
  import opened Bytes

  const PAGE: nat := 4096

  type Page = p: seq<Byte> | |p| == PAGE ghost witness seq(PAGE, _ => 0)
  type Ram = seq<Page>

  ghost predicate IsZero(p: Page) {
    forall i | 0 <= i < PAGE :: p[i] == 0
  }

  ghost function ZeroPage(): (p: Page)
    ensures IsZero(p)
  {
    seq(PAGE, _ => 0)
  }

  lemma ZeroPageUnique(p: Page)
    ensures IsZero(p) <==> p == ZeroPage()
  {
  }

  /** The little-endian uint64_t at word index w. */
  function Word(p: Page, w: nat): (r: U64)
    requires w < PAGE / 8
    ensures r == 0 <==> forall i | 8 * w <= i < 8 * w + 8 :: p[i] == 0
  {
    var b := 8 * w;
    var r := Get64(p, b);
    assert r == 0 ==> p[b] == p[b+1] == p[b+2] == p[b+3] == p[b+4] == p[b+5] == p[b+6] == p[b+7] == 0;
    r
  }

  /** Eight consecutive words ORed together. */
  function OrEight(p: Page, w: nat): (r: nat)
    requires w + 8 <= PAGE / 8
    ensures r == 0 <==> forall i | 8 * w <= i < 8 * w + 64 :: p[i] == 0
  {
    var r := Or(Or(Or(Or(Or(Or(Or(Word(p, w), Word(p, w + 1)), Word(p, w + 2)), Word(p, w + 3)),
      Word(p, w + 4)), Word(p, w + 5)), Word(p, w + 6)), Word(p, w + 7));
    assert r == 0 <==> forall v | w <= v < w + 8 :: Word(p, v) == 0;
    assert forall i | 8 * w <= i < 8 * w + 64 :: w <= i / 8 < w + 8 && (Word(p, i / 8) == 0 ==> p[i] == 0);
    r
  }

  /** Eight words per round, folded with OR: zero exactly for the zero page. */
  method OrReduce(p: Page) returns (acc: nat)
    ensures acc == 0 <==> IsZero(p)
  {
    acc := 0;
    var w := 0;
    while w < PAGE / 8
      invariant 0 <= w <= PAGE / 8 && w % 8 == 0
      invariant acc == 0 <==> forall i | 0 <= i < 8 * w :: p[i] == 0
    {
      hide OrEight, Word, Or;
      acc := Or(acc, OrEight(p, w));
      w := w + 8;
    }
  }

  // ---- Pages and bytes ----------------------------------------------------

  /** Pages laid end to end. */
  function Flat(ram: Ram): (m: seq<Byte>)
    ensures |m| == PAGE * |ram|
  {
    if ram == [] then [] else ram[0] + Flat(ram[1..])
  }

  lemma {:induction false} FlatAt(ram: Ram, addr: nat)
    requires addr < PAGE * |ram|
    ensures Flat(ram)[addr] == ram[addr / PAGE][addr % PAGE]
  {
    if addr >= PAGE {
      FlatAt(ram[1..], addr - PAGE);
      assert (addr - PAGE) / PAGE == addr / PAGE - 1 && (addr - PAGE) % PAGE == addr % PAGE;
    }
  }

  /** Bytes cut into pages; a trailing part of a page is dropped. */
  function Pages(m: seq<Byte>): (ram: Ram)
    ensures |ram| == |m| / PAGE
    decreases |m|
  {
    if |m| < PAGE then [] else [m[..PAGE]] + Pages(m[PAGE..])
  }

  lemma {:induction false} PagesOfFlat(ram: Ram)
    ensures Pages(Flat(ram)) == ram
  {
    if ram != [] {
      PagesOfFlat(ram[1..]);
      var m := Flat(ram);
      assert m[..PAGE] == ram[0] && m[PAGE..] == Flat(ram[1..]);
    }
  }
}
