/** Machine integers and their little-endian encoding. */
module Bytes {
  import opened Common

  const TWO16: nat := 0x1_0000
  const TWO32: nat := 0x1_0000_0000
  const TWO64: nat := 0x1_0000_0000_0000_0000

  type Byte = x: int | 0 <= x < 0x100
  type U16 = x: int | 0 <= x < 0x1_0000
  type U32 = x: int | 0 <= x < 0x1_0000_0000
  type U64 = x: int | 0 <= x < 0x1_0000_0000_0000_0000

  function Put16(x: U16): (s: seq<Byte>)
    ensures |s| == 2
  {
    [x % 256, x / 256]
  }

  function Get16(s: seq<Byte>, off: nat): U16
    requires off + 2 <= |s|
  {
    (s[off] as int) + 256 * (s[off + 1] as int)
  }

  function Put32(x: U32): (s: seq<Byte>)
    ensures |s| == 4
  {
    Put16(x % TWO16) + Put16(x / TWO16)
  }

  function Get32(s: seq<Byte>, off: nat): U32
    requires off + 4 <= |s|
  {
    Get16(s, off) + TWO16 * Get16(s, off + 2)
  }

  function Put64(x: U64): (s: seq<Byte>)
    ensures |s| == 8
  {
    Put32(x % TWO32) + Put32(x / TWO32)
  }

  function Get64(s: seq<Byte>, off: nat): U64
    requires off + 8 <= |s|
  {
    Get32(s, off) + TWO32 * Get32(s, off + 4)
  }

  lemma At16(s: seq<Byte>, o: nat, x: U16)
    requires At(s, o, Put16(x))
    ensures Get16(s, o) == x
  {
    assert s[o + 0] == Put16(x)[0] && s[o + 1] == Put16(x)[1];
  }

  lemma At32(s: seq<Byte>, o: nat, x: U32)
    requires At(s, o, Put32(x))
    ensures Get32(s, o) == x
  {
    var lo, hi := Put16(x % TWO16), Put16(x / TWO16);
    AtPart(s, o, Put32(x), 0, lo);
    AtPart(s, o, Put32(x), 2, hi);
    At16(s, o, x % TWO16);
    At16(s, o + 2, x / TWO16);
  }

  lemma At64(s: seq<Byte>, o: nat, x: U64)
    requires At(s, o, Put64(x))
    ensures Get64(s, o) == x
  {
    hide Put32, Get32;
    AtPart(s, o, Put64(x), 0, Put32(x % TWO32));
    AtPart(s, o, Put64(x), 4, Put32(x / TWO32));
    At32(s, o, x % TWO32);
    At32(s, o + 4, x / TWO32);
  }

  /** Bitwise OR of two natural numbers. */
  function Or(x: nat, y: nat): (r: nat)
    ensures r == 0 <==> x == 0 && y == 0
  {
    if x == 0 && y == 0 then 0
    else (if x % 2 == 1 || y % 2 == 1 then 1 else 0) + 2 * Or(x / 2, y / 2)
  }

  function Pow2(n: nat): (r: nat)
    ensures r > 0
  {
    if n == 0 then 1 else 2 * Pow2(n - 1)
  }

  /** x & (1 << k), read as a truth value. */
  predicate TestBit(x: nat, k: nat) {
    if k == 0 then x % 2 == 1 else TestBit(x / 2, k - 1)
  }

  /** x | (1 << k): bit k becomes set, every other bit stays, and the width does not grow. */
  function SetBit(x: nat, k: nat): (r: nat)
    ensures forall j: nat :: TestBit(r, j) <==> j == k || TestBit(x, j)
  {
    if k == 0 then (if x % 2 == 1 then x else x + 1) else x % 2 + 2 * SetBit(x / 2, k - 1)
  }

  lemma {:induction false} SetBitWidth(x: nat, k: nat, w: nat)
    requires k < w && x < Pow2(w)
    ensures SetBit(x, k) < Pow2(w)
  {
    if k > 0 {
      SetBitWidth(x / 2, k - 1, w - 1);
    } else {
      assert Pow2(w) == 2 * Pow2(w - 1);
    }
  }

  lemma ZeroHasNoBits(k: nat)
    ensures !TestBit(0, k)
  {
  }

  lemma {:induction false} OrBits(x: nat, y: nat, k: nat)
    ensures TestBit(Or(x, y), k) <==> TestBit(x, k) || TestBit(y, k)
  {
    if x == 0 && y == 0 {
      ZeroHasNoBits(k);
    } else if k > 0 {
      OrBits(x / 2, y / 2, k - 1);
    }
  }

  lemma OrEven(lo: nat, m: nat)
    ensures Or(lo, 2 * m) == lo % 2 + 2 * Or(lo / 2, m)
  {
    assert 2 * m % 2 == 0 && 2 * m / 2 == m;
  }

  /** ORing a low part with a shifted high part adds them. */
  lemma {:induction false} OrDisjoint(lo: nat, hi: nat, k: nat)
    requires lo < Pow2(k)
    ensures Or(lo, hi * Pow2(k)) == lo + hi * Pow2(k)
  {
    hide Or;
    if k == 0 {
      OrZero(hi);
    } else {
      var m := hi * Pow2(k - 1);
      OrDisjoint(lo / 2, hi, k - 1);
      OrEven(lo, m);
      assert hi * Pow2(k) == 2 * m by {
        assert hi * (2 * Pow2(k - 1)) == 2 * m;
      }
    }
  }

  lemma {:induction false} OrZero(x: nat)
    ensures Or(0, x) == x
  {
    if x != 0 {
      OrZero(x / 2);
    }
  }

  lemma {:induction false} PowAdd(a: nat, b: nat)
    ensures Pow2(a + b) == Pow2(a) * Pow2(b)
  {
    if a > 0 {
      PowAdd(a - 1, b);
      assert Pow2(a) * Pow2(b) == 2 * (Pow2(a - 1) * Pow2(b));
    }
  }

  lemma Pow32()
    ensures Pow2(32) == TWO32
  {
    assert Pow2(8) == 256;
    PowAdd(8, 8);
    PowAdd(16, 16);
  }

  lemma MulAtLeast(n: nat, d: nat)
    requires d >= 1
    ensures n * d >= n
  {
  }

  /** Quotient and remainder are unique. */
  lemma DivModUnique(n: nat, q: int, r: nat)
    requires r < n
    ensures (n * q + r) / n == q && (n * q + r) % n == r
  {
    var x := n * q + r;
    var d := q - x / n;
    assert n * d == x % n - r by {
      assert x == n * (x / n) + x % n;
      assert n * d == n * q - n * (x / n);
    }
    if d >= 1 {
      MulAtLeast(n, d);
    }
  }
}
