/** Bit-level vocabulary for 32-bit unsigned words.

    A word is a `bv32`, the C++ `unsigned` of the program (32 bits, 8-bit
    bytes). Bit positions, shift distances and bit counts in the
    specification are mathematical integers; `Shr` is the logical right
    shift by any number of places, defined one place at a time, and
    `ShiftIsShr` ties it to the machine shift `>>` by a word amount. */
module Bits {

  /** Logical right shift by k places, one place at a time; after 32 or
      more places nothing is left. */
  function Shr(x: bv32, k: nat): bv32
    decreases k
  {
    if k == 0 then x else Shr(x >> 1, k - 1)
  }

  /** Bit i of x, counting from the least significant bit; a word has no
      bits outside 0 .. 31. */
  predicate Bit(x: bv32, i: int) {
    0 <= i < 32 && Shr(x, i) & 1 == 1
  }

  /** Every bit of x at a position in [lo, hi) is clear. */
  ghost predicate AllClear(x: bv32, lo: int, hi: int) {
    forall m :: lo <= m < hi ==> !Bit(x, m)
  }

  /** Every bit of x at a position in [lo, hi) is set. */
  ghost predicate AllSet(x: bv32, lo: int, hi: int) {
    forall m :: lo <= m < hi ==> Bit(x, m)
  }

  /** The word whose k lowest bits are set and whose other bits are clear. */
  function LowMask(k: nat): bv32
    decreases k
  {
    if k == 0 then 0 else (LowMask(k - 1) << 1) | 1
  }

  /** The word with bit k set (zero once k reaches 32). */
  function Pow2(k: nat): bv32
    decreases k
  {
    if k == 0 then 1 else Pow2(k - 1) << 1
  }

  /** r is the count of trailing zero bits of x: bits 0 .. r-1 are clear
      and bit r is set, where r = 32 means that no bit is set. */
  ghost predicate IsCtz(x: bv32, r: int) {
    0 <= r <= 32 && AllClear(x, 0, r) && (r < 32 ==> Bit(x, r))
  }

  /** r is the count of trailing one bits of x: bits 0 .. r-1 are set and
      bit r is clear, where r = 32 means that every bit is set. */
  ghost predicate IsCto(x: bv32, r: int) {
    0 <= r <= 32 && AllSet(x, 0, r) && (r < 32 ==> !Bit(x, r))
  }

  /** The number of set bits among bits 0 .. k-1 of x. */
  function CountBelow(x: bv32, k: nat): nat
    decreases k
  {
    if k == 0 then 0 else CountBelow(x, k - 1) + (if Bit(x, k - 1) then 1 else 0)
  }

  /** The population count of x: how many of its 32 bits are set. */
  function PopCount(x: bv32): nat {
    CountBelow(x, 32)
  }

  // ---------------------------------------------------------------------
  // Shifts

  /** Two right shifts compose into one shift by the sum. */
  lemma {:induction false} ShrShr(x: bv32, a: nat, b: nat)
    ensures Shr(Shr(x, a), b) == Shr(x, a + b)
    decreases a
  {
    if a > 0 {
      ShrShr(x >> 1, a - 1, b);
      assert a - 1 + b == a + b - 1;
    }
  }

  /** One more place of shift is one more single-place shift at the end. */
  lemma {:induction false} ShrLast(x: bv32, k: nat)
    ensures Shr(x, k + 1) == Shr(x, k) >> 1
    decreases k
  {
    if k > 0 {
      ShrLast(x >> 1, k - 1);
    }
  }

  lemma ShiftStep(x: bv32, t: bv32)
    requires 0 < t < 32
    ensures (x >> (t - 1)) >> 1 == x >> t
  {
  }

  /** The machine shift by a word amount below 32 is Shr by its value. */
  lemma {:induction false} ShiftIsShr(x: bv32, t: bv32)
    requires t < 32
    ensures x >> t == Shr(x, t as int)
    decreases t
  {
    if t > 0 {
      var u := t - 1;
      ShiftIsShr(x, u);
      ShiftStep(x, t);
      ShrLast(x, u as int);
      assert u as int + 1 == t as int;
    }
  }

  /** The value of a word, counted up one at a time. It equals `t as int`
      (NumIsValue), but reasoning about it needs no conversion between
      words and integers. */
  function Num(t: bv32): nat
    decreases t
  {
    if t == 0 then 0 else Num(t - 1) + 1
  }

  lemma {:induction false} NumIsValue(t: bv32)
    requires t <= 32
    ensures Num(t) == t as int
    decreases t
  {
    if t > 0 {
      NumIsValue(t - 1);
      Pred(t);
    }
  }

  lemma Pred(t: bv32)
    requires 0 < t <= 32
    ensures (t - 1) as int + 1 == t as int
  {
  }

  /** The machine shift by a word amount below 32 is Shr by its count. */
  lemma {:induction false} ShiftIsShrNum(x: bv32, t: bv32)
    requires t < 32
    ensures x >> t == Shr(x, Num(t))
    decreases t
  {
    if t > 0 {
      var u := t - 1;
      ShiftIsShrNum(x, u);
      ShiftStep(x, t);
      ShrLast(x, Num(u));
    }
  }

  /** A word whose count is below 32 is below 32. */
  lemma NumBelow(t: bv32)
    requires t <= 32 && Num(t) < 32
    ensures t < 32
  {
    NumIsValue(t);
  }

  /** The word whose count is i. */
  lemma {:induction false} WordNum(i: nat) returns (t: bv32)
    requires i <= 32
    ensures t <= 32 && Num(t) == i
    decreases i
  {
    if i == 0 {
      t := 0;
    } else {
      var u := WordNum(i - 1);
      NumBelow(u);
      t := u + 1;
    }
  }

  lemma ShlShr(x: bv32, t: bv32)
    requires 0 < t < 32
    ensures ((x << 1) >> t) & 1 == (x >> (t - 1)) & 1
  {
  }

  /** A left shift by one place moves bit i - 1 up to bit i and clears
      bit 0. */
  lemma ShlBit(x: bv32, i: int)
    ensures Bit(x << 1, i) <==> 1 <= i < 32 && Bit(x, i - 1)
  {
    if 1 <= i < 32 {
      var t := WordNum(i);
      NumBelow(t);
      ShiftIsShrNum(x << 1, t);
      ShiftIsShrNum(x, t - 1);
      ShlShr(x, t);
    }
  }

  /** Shifting the zero word leaves zero. */
  lemma {:induction false} ShrOfZero(k: nat)
    ensures Shr(0, k) == 0
    decreases k
  {
    if k > 0 {
      ShrOfZero(k - 1);
    }
  }

  /** Shifting right by s moves bit s + i down to position i. */
  lemma ShiftBit(x: bv32, s: nat, i: nat)
    requires s + i < 32
    ensures Bit(Shr(x, s), i) == Bit(x, s + i)
  {
    ShrShr(x, s, i);
  }

  /** After 32 or more places nothing is left. */
  lemma ShrAll(x: bv32, k: nat)
    requires k >= 32
    ensures Shr(x, k) == 0
  {
    ShiftIsShr(x, 31);
    ShrLast(x, 31);
    ShrShr(x, 32, k - 32);
    ShrOfZero(k - 32);
  }

  /** Bit i of x shifted right by s is bit s + i of x, at any distance. */
  lemma ShiftedBit(x: bv32, s: nat, i: nat)
    ensures Bit(Shr(x, s), i) == Bit(x, s + i)
  {
    if s + i < 32 {
      ShiftBit(x, s, i);
    } else if i < 32 {
      ShrShr(x, s, i);
      ShrAll(x, s + i);
    }
  }

  /** A word amount t below 32 names the same bit as its value. */
  lemma BitAt(x: bv32, t: bv32)
    requires t < 32
    ensures Bit(x, t as int) <==> (x >> t) & 1 == 1
  {
    ShiftIsShr(x, t);
  }

  /** The word amount whose value is i. */
  lemma {:induction false} WordOf(i: nat) returns (t: bv32)
    requires i <= 32
    ensures t as int == i && t <= 32
    decreases i
  {
    if i == 0 {
      t := 0;
    } else {
      var u := WordOf(i - 1);
      t := u + 1;
    }
  }

  // ---------------------------------------------------------------------
  // Bits of combined words

  lemma XorStep(x: bv32, y: bv32)
    ensures (x ^ y) >> 1 == (x >> 1) ^ (y >> 1)
  {
  }

  lemma XorLow(x: bv32, y: bv32)
    ensures (x ^ y) & 1 == 1 <==> (x & 1 == 1) != (y & 1 == 1)
  {
  }

  /** Bit i of a word is bit i - 1 of the word shifted right once. */
  lemma BitStep(x: bv32, i: int)
    requires 0 < i < 32
    ensures Bit(x, i) == Bit(x >> 1, i - 1)
  {
  }

  lemma XorBitStep(x: bv32, y: bv32, a: bv32, b: bv32, i: int)
    requires 0 < i < 32 && a == x >> 1 && b == y >> 1
    requires Bit(a ^ b, i - 1) <==> Bit(a, i - 1) != Bit(b, i - 1)
    ensures Bit(x ^ y, i) <==> Bit(x, i) != Bit(y, i)
  {
    XorStep(x, y);
    BitStep(x ^ y, i);
    BitStep(x, i);
    BitStep(y, i);
  }

  /** A bit of an exclusive or is set when the bits of the operands differ. */
  lemma {:induction false} XorBit(x: bv32, y: bv32, i: int)
    requires 0 <= i < 32
    ensures Bit(x ^ y, i) <==> Bit(x, i) != Bit(y, i)
    decreases i
  {
    if i == 0 {
      XorLow(x, y);
    } else {
      var a, b := x >> 1, y >> 1;
      XorBit(a, b, i - 1);
      XorBitStep(x, y, a, b, i);
    }
  }

  lemma OnesLowBit(t: bv32)
    requires t < 32
    ensures (0xFFFF_FFFF as bv32 >> t) & 1 == 1
  {
  }

  /** The complement flips every bit. */
  lemma ComplementBit(x: bv32, i: int)
    ensures Bit(!x, i) <==> 0 <= i < 32 && !Bit(x, i)
  {
    if 0 <= i < 32 {
      var ones: bv32 := 0xFFFF_FFFF;
      assert !x == x ^ ones;
      XorBit(x, ones, i);
      var t := WordOf(i);
      BitAt(ones, t);
      OnesLowBit(t);
    }
  }

  /** The bits of the zero word are all clear. */
  lemma ZeroBits(i: int)
    ensures !Bit(0, i)
  {
    if 0 <= i {
      ShrOfZero(i);
    }
  }

  // ---------------------------------------------------------------------
  // Runs of bits

  /** A run of clear bits grows by one clear bit at its upper end. */
  lemma ExtendClear(x: bv32, lo: int, hi: int)
    requires AllClear(x, lo, hi) && !Bit(x, hi)
    ensures AllClear(x, lo, hi + 1)
  {
  }

  /** Clear low bits of Shr(x, s) are clear bits of x from position s on. */
  lemma WindowClear(x: bv32, s: nat, k: nat)
    requires s + k <= 32
    requires AllClear(Shr(x, s), 0, k)
    ensures AllClear(x, s, s + k)
  {
    forall m | s <= m < s + k
      ensures !Bit(x, m)
    {
      ShiftBit(x, s, m - s);
    }
  }

  /** Set low bits of Shr(x, s) are set bits of x from position s on. */
  lemma WindowSet(x: bv32, s: nat, k: nat)
    requires s + k <= 32
    requires AllSet(Shr(x, s), 0, k)
    ensures AllSet(x, s, s + k)
  {
    forall m | s <= m < s + k
      ensures Bit(x, m)
    {
      ShiftBit(x, s, m - s);
    }
  }

  // ---------------------------------------------------------------------
  // Masks

  lemma MaskStep(t: bv32)
    requires 0 < t <= 32
    ensures ((((1 as bv32) << (t - 1)) - 1) << 1) | 1 == ((1 as bv32) << t) - 1
  {
  }

  lemma PowStep(t: bv32)
    requires 0 < t < 32
    ensures ((1 as bv32) << (t - 1)) << 1 == (1 as bv32) << t
  {
  }

  /** LowMask by a word amount t is the machine expression (1 << t) - 1. */
  lemma {:induction false} MaskIsShift(t: bv32)
    requires t <= 32
    ensures LowMask(t as int) == ((1 as bv32) << t) - 1
    decreases t
  {
    if t > 0 {
      var u := t - 1;
      MaskIsShift(u);
      MaskStep(t);
      assert u as int + 1 == t as int;
    }
  }

  /** Pow2 by a word amount t below 32 is the machine expression 1 << t. */
  lemma {:induction false} PowIsShift(t: bv32)
    requires t < 32
    ensures Pow2(t as int) == (1 as bv32) << t
    decreases t
  {
    if t > 0 {
      var u := t - 1;
      PowIsShift(u);
      PowStep(t);
      assert u as int + 1 == t as int;
    }
  }

  lemma MaskStepWord(y: bv32, h: bv32, m: bv32)
    requires h == y >> 1
    ensures y & ((m << 1) | 1) == 0 <==> y & 1 == 0 && h & m == 0
  {
  }

  /** The bits 0 .. k-1 of y are its bit 0 and the bits 0 .. k-2 of
      h = y >> 1. */
  lemma ClearStep(y: bv32, h: bv32, k: nat)
    requires 0 < k <= 32 && h == y >> 1
    ensures AllClear(y, 0, k) <==> !Bit(y, 0) && AllClear(h, 0, k - 1)
  {
    forall i | 0 < i < k
      ensures Bit(y, i) == Bit(h, i - 1)
    {
      BitStep(y, i);
    }
    forall j | 0 <= j < k - 1
      ensures Bit(h, j) == Bit(y, j + 1)
    {
      BitStep(y, j + 1);
    }
  }

  /** The k lowest bits of y are all clear exactly when masking them out
      leaves zero. */
  lemma {:induction false} LowBitsClear(y: bv32, k: nat)
    requires k <= 32
    ensures y & LowMask(k) == 0 <==> AllClear(y, 0, k)
    decreases k
  {
    if k > 0 {
      var h := y >> 1;
      LowBitsClear(h, k - 1);
      MaskStepWord(y, h, LowMask(k - 1));
      ClearStep(y, h, k);
    }
  }

  /** A word is zero exactly when none of its 32 bits is set. */
  lemma ZeroIffNoBits(x: bv32)
    ensures x == 0 <==> AllClear(x, 0, 32)
  {
    LowBitsClear(x, 32);
    MaskIsShift(32);
  }

  /** When shifting right by s leaves zero, no bit at s or above is set. */
  lemma ShrZeroClear(x: bv32, s: nat)
    requires s <= 32 && Shr(x, s) == 0
    ensures AllClear(x, s, 32)
  {
    ZeroIffNoBits(Shr(x, s));
    WindowClear(x, s, 32 - s);
  }

  // ---------------------------------------------------------------------
  // Trailing zeros and ones

  /** Searching upwards from a clear prefix finds the trailing zero count. */
  lemma {:induction false} FirstSetFrom(x: bv32, k: int) returns (r: int)
    requires 0 <= k <= 32 && AllClear(x, 0, k)
    ensures IsCtz(x, r)
    decreases 32 - k
  {
    if k == 32 || Bit(x, k) {
      r := k;
    } else {
      ExtendClear(x, 0, k);
      r := FirstSetFrom(x, k + 1);
    }
  }

  /** Every word has a trailing zero count. */
  lemma CtzExists(x: bv32) returns (r: int)
    ensures IsCtz(x, r)
  {
    r := FirstSetFrom(x, 0);
  }

  /** The trailing zero count of a word is unique. */
  lemma CtzUnique(x: bv32, r1: int, r2: int)
    requires IsCtz(x, r1) && IsCtz(x, r2)
    ensures r1 == r2
  {
    assert r1 < r2 ==> !Bit(x, r1);
    assert r2 < r1 ==> !Bit(x, r2);
  }

  /** Exactly the zero word has 32 trailing zeros. */
  lemma CtzAll(x: bv32)
    ensures IsCtz(x, 32) <==> x == 0
  {
    ZeroIffNoBits(x);
  }

  /** The trailing ones of x are the trailing zeros of its complement. */
  lemma CtoOfComplement(x: bv32, r: int)
    ensures IsCtz(!x, r) <==> IsCto(x, r)
  {
    var y := !x;
    if IsCtz(y, r) {
      forall m | 0 <= m < r
        ensures Bit(x, m)
      {
        ComplementBit(x, m);
      }
      if r < 32 {
        ComplementBit(x, r);
      }
    }
    if IsCto(x, r) {
      forall m | 0 <= m < r
        ensures !Bit(y, m)
      {
        ComplementBit(x, m);
      }
      if r < 32 {
        ComplementBit(x, r);
      }
    }
  }

  lemma LowestBitWord(x: bv32, t: bv32)
    requires t < 32 && x & (((1 as bv32) << t) - 1) == 0 && (x >> t) & 1 == 1
    ensures x & -x == (1 as bv32) << t
  {
  }

  /** When x has r < 32 trailing zeros, x & -x keeps only bit r and
      (x & -x) - 1 is the mask of the r lowest bits. */
  lemma LowestBit(x: bv32, r: int)
    requires IsCtz(x, r) && r < 32
    ensures x & -x == Pow2(r)
    ensures (x & -x) - 1 == LowMask(r)
  {
    var t := WordOf(r);
    LowBitsClear(x, r);
    MaskIsShift(t);
    BitAt(x, t);
    PowIsShift(t);
    LowestBitWord(x, t);
  }

  /** For the zero word, (x & -x) - 1 has every bit set. */
  lemma LowestBitZero()
    ensures (0 as bv32 & -0) - 1 == LowMask(32)
  {
    MaskIsShift(32);
  }

  // ---------------------------------------------------------------------
  // Counting bits

  /** At most k of the k lowest bits are set. */
  lemma {:induction false} CountBelowBound(x: bv32, k: nat)
    ensures CountBelow(x, k) <= k
    decreases k
  {
    if k > 0 {
      CountBelowBound(x, k - 1);
    }
  }

  /** A word whose set bits below k are exactly those below r has
      min(k, r) of them. */
  lemma {:induction false} CountPrefix(x: bv32, k: nat, r: nat)
    requires forall i :: 0 <= i < k ==> (Bit(x, i) <==> i < r)
    ensures CountBelow(x, k) == if k <= r then k else r
    decreases k
  {
    if k > 0 {
      CountPrefix(x, k - 1, r);
    }
  }

  lemma MaskBitWord(u: bv32, t: bv32)
    requires u <= 32 && t < 32
    ensures ((((1 as bv32) << u) - 1) >> t) & 1 == 1 <==> t < u
  {
  }

  /** The set bits of LowMask(r) are exactly those below r. */
  lemma MaskBit(r: nat, i: int)
    requires r <= 32
    ensures Bit(LowMask(r), i) <==> 0 <= i < r
  {
    if 0 <= i < 32 {
      var u := WordOf(r);
      var t := WordOf(i);
      MaskIsShift(u);
      BitAt(LowMask(r), t);
      MaskBitWord(u, t);
    }
  }

  /** LowMask(r) has r set bits. */
  lemma PopCountMask(r: nat)
    requires r <= 32
    ensures PopCount(LowMask(r)) == r
  {
    forall i | 0 <= i < 32
      ensures Bit(LowMask(r), i) <==> i < r
    {
      MaskBit(r, i);
    }
    CountPrefix(LowMask(r), 32, r);
  }
}
