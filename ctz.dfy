/** The count-trailing-zeros implementations of binary-gap.cpp, the
    population count they build on, and the count of trailing ones.

    Each implementation is proved against the same specification,
    `Bits.IsCtz`: its result r has bits 0 .. r-1 of x clear and bit r set,
    with 32 for the zero word. Since `Bits.CtzUnique` makes that count
    unique, all four implementations return the same value on every word. */
module Ctz {
  import opened Bits
  import opened Popcount

  // ---------------------------------------------------------------------
  // ctz_simple

  lemma Succ(b: bv32)
    requires b < 32
    ensures (b + 1) as int == b as int + 1
  {
  }

  /** One round of ctz_simple: a clear low bit extends the clear prefix. */
  lemma SimpleStep(x0: bv32, x: bv32, h: bv32, i: nat)
    requires i < 32 && x == Shr(x0, i) && AllClear(x0, 0, i)
    requires x & 1 != 1 && h == x >> 1
    ensures h == Shr(x0, i + 1) && AllClear(x0, 0, i + 1)
  {
    ExtendClear(x0, 0, i);
    ShrLast(x0, i);
  }

  /** Test the low bit and shift right, at most 32 times. */
  method CtzSimple(x0: bv32) returns (r: bv32)
    ensures r <= 32 && IsCtz(x0, r as int)
  {
    var x := x0;
    var bit: bv32 := 0;
    while bit < 32
      invariant bit <= 32
      invariant x == Shr(x0, bit as int)
      invariant AllClear(x0, 0, bit as int)
      decreases 32 - bit
    {
      if x & 1 == 1 {
        return bit;
      }
      var h := x >> 1;
      SimpleStep(x0, x, h, bit as int);
      Succ(bit);
      x := h;
      bit := bit + 1;
    }
    return 32;
  }

  // ---------------------------------------------------------------------
  // ctz_bits

  /** The population count of the mask below the lowest set bit. For zero,
      x & -x is 0 and the mask is the all-ones word, whose count is 32. */
  method CtzBits(x: bv32) returns (r: bv32)
    ensures r <= 32 && IsCtz(x, r as int)
  {
    r := Popcnt((x & -x) - 1);
    ghost var k := CtzExists(x);
    if k < 32 {
      LowestBit(x, k);
    } else {
      CtzAll(x);
      LowestBitZero();
    }
    PopCountMask(k);
  }

  // ---------------------------------------------------------------------
  // ctz_bsearch

  /** One halving step of ctz_bsearch: with x the input shifted right by n
      and the count k at least n, the low w bits of x are all clear exactly
      when k lies at or beyond n + w. */
  lemma SearchStep(x0: bv32, x: bv32, n: nat, k: int, w: nat)
    requires 0 < w && n + w <= 32
    requires x == Shr(x0, n) && IsCtz(x0, k) && n <= k
    ensures x & LowMask(w) == 0 <==> n + w <= k
  {
    LowBitsClear(x, w);
    if n + w <= k {
      forall i | 0 <= i < w
        ensures !Bit(x, i)
      {
        ShiftBit(x0, n, i);
      }
    } else {
      ShiftBit(x0, n, k - n);
    }
  }

  lemma SmallWord(n: int)
    requires 0 <= n <= 32
    ensures (n as bv32) as int == n && n as bv32 <= 32
  {
    var t := WordOf(n);
    assert (t as int) as bv32 == t;
  }

  /** The state of ctz_bsearch before a step: x is the input shifted right
      by n, and the count k lies in [n, n + span). */
  ghost predicate Searching(x0: bv32, x: bv32, n: nat, k: int, span: nat) {
    x == Shr(x0, n) && n <= k < n + span && n + span <= 32
  }

  /** A step of width w halves the span: when the low w bits of x are
      clear the count is in the upper half, and is reached by shifting
      them out; otherwise it is in the lower half. */
  lemma Halve(x0: bv32, x: bv32, n: nat, k: int, w: nat, m: bv32, h: bv32)
    requires 0 < w && m == LowMask(w) && h == Shr(x, w)
    requires IsCtz(x0, k) && Searching(x0, x, n, k, 2 * w)
    ensures x & m == 0 ==> Searching(x0, h, n + w, k, w)
    ensures x & m != 0 ==> Searching(x0, x, n, k, w)
  {
    SearchStep(x0, x, n, k, w);
    ShrShr(x0, n, w);
  }

  /** The value ctz_bsearch computes, step by step. */
  ghost function Bsearch(x0: bv32): int {
    if x0 == 0 then 32 else
    var (x1, n1) := BsearchStep(x0, 0, 0x0000_FFFF, 16, 16);
    var (x2, n2) := BsearchStep(x1, n1, 0x0000_00FF, 8, 8);
    var (x3, n3) := BsearchStep(x2, n2, 0x0000_000F, 4, 4);
    var (x4, n4) := BsearchStep(x3, n3, 0x0000_0003, 2, 2);
    if x4 & 0x0000_0001 == 0 then n4 + 1 else n4
  }

  /** One step of ctz_bsearch: when the bits of x under the mask m (the low
      w bits) are clear, shift them out and add w to the count n. */
  ghost function BsearchStep(x: bv32, n: int, m: bv32, t: bv32, w: nat): (bv32, int)
    requires t < 32
  {
    if x & m == 0 then (x >> t, n + w) else (x, n)
  }

  /** The state after the step of width w, with the machine's mask m and
      shift t: the step either shifted the clear low bits out or kept x. */
  lemma HalveWord(x0: bv32, k: int, w: nat, t: bv32, m: bv32,
                  x: bv32, n: nat, x': bv32, n': nat)
    requires 0 < w && t < 32 && t as int == w && m == ((1 as bv32) << t) - 1
    requires IsCtz(x0, k) && Searching(x0, x, n, k, 2 * w)
    requires if x & m == 0 then x' == x >> t && n' == n + w else x' == x && n' == n
    ensures Searching(x0, x', n', k, w)
  {
    MaskIsShift(t);
    ShiftIsShr(x, t);
    Halve(x0, x, n, k, w, m, x >> t);
  }

  /** A step of width w halves the span. */
  lemma StepHalves(x0: bv32, k: int, x: bv32, n: nat, m: bv32, t: bv32, w: nat)
    requires 0 < w && t < 32 && t as int == w && m == ((1 as bv32) << t) - 1
    requires IsCtz(x0, k) && Searching(x0, x, n, k, 2 * w)
    ensures BsearchStep(x, n, m, t, w).1 >= 0
    ensures Searching(x0, BsearchStep(x, n, m, t, w).0, BsearchStep(x, n, m, t, w).1, k, w)
  {
    var (x', n') := BsearchStep(x, n, m, t, w);
    HalveWord(x0, k, w, t, m, x, n, x', n');
  }

  /** The last step tests bit 0 alone and leaves the count in n'. */
  lemma LastStep(x0: bv32, k: int, x: bv32, n: nat, n': int)
    requires IsCtz(x0, k) && Searching(x0, x, n, k, 2)
    requires if x & 1 == 0 then n' == n + 1 else n' == n
    ensures n' == k
  {
    MaskIsShift(1);
    Halve(x0, x, n, k, 1, 1, x >> 1);
  }

  /** ctz_bsearch's value is the count of trailing zeros. */
  lemma BsearchIsCtz(x0: bv32)
    ensures IsCtz(x0, Bsearch(x0))
  {
    CtzAll(x0);
    if x0 != 0 {
      var k := CtzExists(x0);
      assert k < 32;
      assert Searching(x0, x0, 0, k, 32);
      var (x1, n1) := BsearchStep(x0, 0, 0x0000_FFFF, 16, 16);
      StepHalves(x0, k, x0, 0, 0x0000_FFFF, 16, 16);
      var (x2, n2) := BsearchStep(x1, n1, 0x0000_00FF, 8, 8);
      StepHalves(x0, k, x1, n1, 0x0000_00FF, 8, 8);
      var (x3, n3) := BsearchStep(x2, n2, 0x0000_000F, 4, 4);
      StepHalves(x0, k, x2, n2, 0x0000_000F, 4, 4);
      var (x4, n4) := BsearchStep(x3, n3, 0x0000_0003, 2, 2);
      StepHalves(x0, k, x3, n3, 0x0000_0003, 2, 2);
      LastStep(x0, k, x4, n4, if x4 & 0x0000_0001 == 0 then n4 + 1 else n4);
    }
  }

  /** Binary search for the lowest set bit: test the low 16, 8, 4, 2 and 1
      bits in turn, shifting them out when they are all clear. */
  method CtzBsearch(x0: bv32) returns (r: bv32)
    ensures r <= 32 && IsCtz(x0, r as int)
  {
    BsearchIsCtz(x0);
    var x := x0;
    if x == 0 {
      return 32;
    }
    var n := 0;
    if x & 0x0000_FFFF == 0 {
      n := n + 16;
      x := x >> 16;
    }
    if x & 0x0000_00FF == 0 {
      n := n + 8;
      x := x >> 8;
    }
    if x & 0x0000_000F == 0 {
      n := n + 4;
      x := x >> 4;
    }
    if x & 0x0000_0003 == 0 {
      n := n + 2;
      x := x >> 2;
    }
    if x & 0x0000_0001 == 0 {
      n := n + 1;
    }
    assert n == Bsearch(x0);
    SmallWord(n);
    return n as bv32;
  }

  // ---------------------------------------------------------------------
  // ctz_debruijn, which is also the program's ctz

  /** The De Bruijn sequence B(2, 5) as a 32-bit word. */
  const DeBruijn32: bv32 := 0x077C_B531

  /** index32: the position of the lowest set bit for each hash value. */
  const Index32: seq<bv32> := [
     0,  1, 28,  2, 29, 14, 24,  3, 30, 22, 20, 15, 25, 17,  4,  8,
    31, 27, 13, 23, 21, 19, 16,  7, 26, 12, 18,  6, 11,  5, 10,  9]

  /** The top five bits of y times the De Bruijn word, masked to 0 .. 31. */
  function DeBruijnHash(y: bv32): (h: bv32)
    ensures h < 32
  {
    ((y * DeBruijn32) >> 27) & 0x1F
  }

  /** The table inverts the hash on every single-bit word. */
  lemma TableInvertsHash(t: bv32)
    requires t < 32
    ensures Index32[DeBruijnHash((1 as bv32) << t)] == t
  {
  }

  /** Isolate the lowest set bit and look its position up by its hash. */
  function CtzDebruijn(x: bv32): bv32 {
    if x == 0 then 32 else Index32[DeBruijnHash(x & -x)]
  }

  lemma CtzDebruijnIsCtz(x: bv32)
    ensures IsCtz(x, CtzDebruijn(x) as int) && CtzDebruijn(x) <= 32
  {
    CtzAll(x);
    if x != 0 {
      var k := CtzExists(x);
      assert k < 32;
      LowestBit(x, k);
      var t := WordOf(k);
      PowIsShift(t);
      TableInvertsHash(t);
    }
  }

  /** Every implementation returns what ctz_debruijn returns: a value with
      the trailing-zero property is that function's value. */
  lemma CtzAgree(x: bv32, r: int)
    requires IsCtz(x, r)
    ensures r == CtzDebruijn(x) as int
  {
    CtzDebruijnIsCtz(x);
    CtzUnique(x, r, CtzDebruijn(x) as int);
  }

  // ---------------------------------------------------------------------
  // cto

  /** Trailing ones of x are the trailing zeros of its complement. */
  function Cto(x: bv32): bv32 {
    CtzDebruijn(!x)
  }

  lemma CtoIsCto(x: bv32)
    ensures IsCto(x, Cto(x) as int) && Cto(x) <= 32
    ensures Cto(x) == 32 <==> x == 0xFFFF_FFFF
  {
    CtzDebruijnIsCtz(!x);
    CtoOfComplement(x, Cto(x) as int);
    CtzAll(!x);
  }

  /** The ctz contract with the result counted by Num. */
  lemma CtzNum(x: bv32)
    ensures CtzDebruijn(x) <= 32 && IsCtz(x, Num(CtzDebruijn(x)))
  {
    CtzDebruijnIsCtz(x);
    NumIsValue(CtzDebruijn(x));
  }

  /** The cto contract with the result counted by Num. */
  lemma CtoNum(x: bv32)
    ensures Cto(x) <= 32 && IsCto(x, Num(Cto(x)))
  {
    CtoIsCto(x);
    NumIsValue(Cto(x));
  }

  /** The values main asserts for ctz. */
  lemma CtzExamples()
    ensures CtzDebruijn(0) == 32
    ensures CtzDebruijn(0x8000_0000) == 31
    ensures CtzDebruijn(0x0000_0F00) == 8
    ensures CtzDebruijn(1) == 0
    ensures CtzDebruijn(0xF) == 0
    ensures CtzDebruijn(0xFF) == 0
    ensures CtzDebruijn(0xFFFF_FFFF) == 0
  {
  }
}
