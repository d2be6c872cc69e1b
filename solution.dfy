/** `solution` of binary-gap.cpp: the length of the longest binary gap of
    a positive `int`, found by shifting runs of zero and one bits out of
    the word with the trailing-zero and trailing-one counts. */
module BinaryGap {
  import opened Bits
  import opened Ctz
  import opened Gap

  /** The C++ `int` argument: a 32-bit two's-complement integer. */
  newtype int32 = x: int | -0x8000_0000 <= x < 0x8000_0000

  /** What `solution` yields: the gap length it returns, or the
      `std::out_of_range` exception it throws for an argument below 1. */
  datatype Outcome = Value(gap: int) | OutOfRange

  // ---------------------------------------------------------------------
  // The conversion unsigned(N)

  /** 2 to the power m. */
  function TwoTo(m: nat): (p: nat)
    ensures p > 0
  {
    if m == 0 then 1 else 2 * TwoTo(m - 1)
  }

  /** The word holding the low 32 binary digits of k, built from its most
      significant digit down. */
  function Bin(k: nat): bv32
    decreases k
  {
    if k == 0 then 0 else (Bin(k / 2) << 1) | Digit(k)
  }

  /** The lowest binary digit of k, as a word. */
  function Digit(k: nat): (d: bv32)
    ensures d <= 1 && (d == 1 <==> k % 2 == 1)
  {
    if k % 2 == 1 then 1 else 0
  }

  /** `unsigned(N)`: the word whose value is N modulo 2^32. */
  function Unsigned(N: int32): bv32 {
    Bin(N as int % 0x1_0000_0000)
  }

  /** A non-negative `int` converts to the word of its own digits. */
  lemma UnsignedOf(N: int32)
    requires N >= 0
    ensures Unsigned(N) == Bin(N as int)
  {
    assert N as int % 0x1_0000_0000 == N as int;
  }

  lemma HalfOf(a: int, r: nat)
    ensures (2 * a + r) / 2 == a + r / 2
  {
  }

  lemma MulAtLeast(p: int, q: int)
    requires p > 0 && q >= 1
    ensures p * q >= p
  {
  }

  lemma DivOf(p: int, q: int, r: int)
    requires p > 0 && 0 <= r < p
    ensures (p * q + r) / p == q
  {
    var n := p * q + r;
    var d, m := n / p, n % p;
    assert p * (d - q) == r - m;
    if d > q {
      MulAtLeast(p, d - q);
    } else if d < q {
      MulAtLeast(p, q - d);
    }
  }

  lemma DivTwice(k: nat, p: nat)
    requires p > 0
    ensures k / 2 / p == k / (2 * p)
  {
    var q, r := k / (2 * p), k % (2 * p);
    assert k == 2 * (p * q) + r;
    HalfOf(p * q, r);
    DivOf(p, q, r / 2);
  }

  lemma AppendDigit(u: bv32, b: bv32)
    requires b <= 1 && u >> 31 == 0
    ensures ((u << 1) | b) >> 1 == u
  {
  }

  /** Below 2^m, no digit of k at m or above is set. */
  lemma {:induction false} BinHigh(k: nat, m: nat)
    requires m <= 32 && k < TwoTo(m)
    ensures Shr(Bin(k), m) == 0
    decreases m
  {
    if m == 0 {
    } else if k == 0 {
      ShrOfZero(m);
    } else {
      var u := Bin(k / 2);
      BinHigh(k / 2, m - 1);
      TopOfLow(u, m - 1);
      ShrShr(Bin(k), 1, m - 1);
      BinStepDown(k, u);
    }
  }

  lemma TopOfLow(u: bv32, m: nat)
    requires m <= 31 && Shr(u, m) == 0
    ensures u >> 31 == 0
  {
    ShrShr(u, m, 31 - m);
    ShrOfZero(31 - m);
    ShiftIsShr(u, 31);
  }

  lemma BinStepDown(k: nat, u: bv32)
    requires k > 0 && u == Bin(k / 2) && u >> 31 == 0
    ensures Shr(Bin(k), 1) == u
  {
    var d := Digit(k);
    assert Bin(k) == (u << 1) | d;
    AppendDigit(u, d);
    assert Shr(Bin(k), 1) == Bin(k) >> 1;
  }

  /** Bin(k) drops its lowest digit when shifted right by one place. */
  lemma BinHalf(k: nat)
    requires k < 0x1_0000_0000
    ensures Shr(Bin(k), 1) == Bin(k / 2)
  {
    var u := Bin(k / 2);
    TwoTo31();
    BinHigh(k / 2, 31);
    TopOfLow(u, 31);
    if k > 0 {
      BinStepDown(k, u);
    }
  }

  /** Bit i of Bin(k) is binary digit i of k. */
  lemma {:induction false} BinBit(k: nat, i: nat)
    requires k < 0x1_0000_0000
    ensures Bit(Bin(k), i) <==> i < 32 && k / TwoTo(i) % 2 == 1
    decreases i
  {
    if i > 0 {
      BinHalf(k);
      ShiftedBit(Bin(k), 1, i - 1);
      BinBit(k / 2, i - 1);
      DivTwice(k, TwoTo(i - 1));
    }
  }

  /** Bit i of unsigned(N) is binary digit i of N modulo 2^32. */
  lemma UnsignedBit(N: int32, i: nat)
    ensures Bit(Unsigned(N), i) <==> i < 32 && (N as int % 0x1_0000_0000) / TwoTo(i) % 2 == 1
  {
    BinBit(N as int % 0x1_0000_0000, i);
  }

  lemma {:induction false} BinNonZero(k: nat)
    requires 1 <= k < 0x1_0000_0000
    ensures Bin(k) != 0
    decreases k
  {
    if k % 2 == 0 {
      TwoTo31();
      BinNonZero(k / 2);
      BinHigh(k / 2, 31);
      ShiftIsShr(Bin(k / 2), 31);
    }
  }

  lemma TwoTo31()
    ensures TwoTo(31) == 0x8000_0000
  {
    assert TwoTo(8) == 0x100;
    assert TwoTo(16) == 0x1_0000;
    assert TwoTo(24) == 0x100_0000;
  }

  /** A positive `int` read as an `unsigned` is not zero and has its top
      bit clear. */
  lemma PositiveWord(N: int32)
    requires N >= 1
    ensures Unsigned(N) != 0 && !Bit(Unsigned(N), 31)
  {
    TwoTo31();
    BinHigh(N as int, 31);
    BinNonZero(N as int);
  }


  // ---------------------------------------------------------------------
  // The loop

  /** The trailing zeros of n = Shr(x, s), when n is not zero: they are
      the clear bits of x from s up to the next set bit. */
  lemma SkipZeros(x: bv32, s: nat, n: bv32, tz: int)
    requires s <= 32 && n == Shr(x, s) && n != 0 && IsCtz(n, tz)
    ensures tz < 32 && s + tz < 32
    ensures AllClear(x, s, s + tz) && Bit(x, s + tz)
  {
    CtzAll(n);
    ShiftedBit(x, s, tz);
    WindowClear(x, s, tz);
  }

  /** The trailing ones of n = Shr(x, s), where the top bit of x is clear:
      they are the set bits of x from s up to the next clear bit, so there
      are fewer than 32 of them. */
  lemma SkipOnes(x: bv32, s: nat, n: bv32, o: int)
    requires s <= 32 && n == Shr(x, s) && !Bit(x, 31) && IsCto(n, o)
    ensures o < 32 && s + o <= 32
    ensures AllSet(x, s, s + o) && !Bit(x, s + o)
    ensures Bit(x, s) ==> o > 0
  {
    ShiftedBit(x, s, 31);
    ShiftedBit(x, s, o);
    ShiftedBit(x, s, 0);
    if o > 0 {
      ShiftedBit(x, s, o - 1);
    }
    WindowSet(x, s, o);
  }

  /** The low bit of Shr(x, s) is bit s of x. */
  lemma LowBit(x: bv32, s: nat, n: bv32)
    requires n == Shr(x, s)
    ensures n & 1 == 0 <==> !Bit(x, s)
  {
    ShiftedBit(x, s, 0);
  }

  /** Shifting n = Shr(x, s) by t places, as the machine does, when the
      count of t is below 32. */
  lemma Advance(x: bv32, s: nat, n: bv32, t: bv32, n': bv32)
    requires t <= 32 && Num(t) < 32 && n == Shr(x, s) && n' == n >> t
    ensures t < 32 && n' == Shr(x, s + Num(t))
  {
    NumBelow(t);
    ShiftIsShrNum(n, t);
    ShrShr(x, s, Num(t));
  }

  /** The first trailing-zero and trailing-one shifts: neither shifts by 32
      places, and afterwards no gap has been passed. */
  lemma FirstRuns(x: bv32, z: bv32, n1: bv32, o: bv32, n2: bv32) returns (s: nat)
    requires x != 0 && !Bit(x, 31)
    requires z <= 32 && IsCtz(x, Num(z)) && n1 == x >> z
    requires o <= 32 && IsCto(n1, Num(o)) && n2 == n1 >> o
    ensures z < 32 && o < 32
    ensures 1 <= s <= 32 && n2 == Shr(x, s)
    ensures Bit(x, s - 1) && n2 & 1 == 0
    ensures LongestBelow(x, s, 0)
  {
    SkipZeros(x, 0, x, Num(z));
    Advance(x, 0, x, z, n1);
    SkipOnes(x, Num(z), n1, Num(o));
    Advance(x, Num(z), n1, o, n2);
    s := Num(z) + Num(o);
    NoGapInTrailingRuns(x, Num(z), Num(o));
    LowBit(x, s, n2);
  }

  /** One round of the loop: it shifts out the next run of zeros, a gap of
      length Num(tz), and the run of ones above it, by fewer than 32 places
      each. */
  lemma NextRuns(x: bv32, s: nat, n0: bv32, tz: bv32, n1: bv32, o: bv32, n2: bv32, g: int)
    returns (s': nat)
    requires !Bit(x, 31) && 1 <= s <= 32 && n0 == Shr(x, s)
    requires Bit(x, s - 1) && n0 & 1 == 0 && LongestBelow(x, s, g)
    requires n0 != 0 && tz <= 32 && IsCtz(n0, Num(tz)) && n1 == n0 >> tz
    requires o <= 32 && IsCto(n1, Num(o)) && n2 == n1 >> o
    ensures tz < 32 && o < 32
    ensures s < s' <= 32 && n2 == Shr(x, s')
    ensures Bit(x, s' - 1) && n2 & 1 == 0
    ensures LongestBelow(x, s', Max(Num(tz), g))
  {
    LowBit(x, s, n0);
    SkipZeros(x, s, n0, Num(tz));
    Advance(x, s, n0, tz, n1);
    var s1 := s + Num(tz);
    SkipOnes(x, s1, n1, Num(o));
    Advance(x, s1, n1, o, n2);
    ExtendLongest(x, s, Num(tz), Num(o), g);
    s' := s1 + Num(o);
    LowBit(x, s', n2);
  }

  /** The loop exits once nothing is left of the word above bit s. */
  lemma Finished(x: bv32, s: nat, g: int)
    requires s <= 32 && Shr(x, s) == 0 && LongestBelow(x, s, g)
    ensures IsLongestGap(x, g)
  {
    ShrZeroClear(x, s);
    NoGapAbove(x, s, g);
  }

  /** The longest binary gap of N, or OutOfRange when N is not positive.
      No shift distance reaches the word width, and at every loop head the
      low bit of n is clear. */
  method Solution(N: int32) returns (res: Outcome)
    ensures N < 1 <==> res == OutOfRange
    ensures N >= 1 ==> res.Value? && IsLongestGap(Unsigned(N), res.gap)
  {
    if N < 1 {
      return OutOfRange;
    }
    var n := Unsigned(N);
    ghost var x := n;
    PositiveWord(N);

    var z := CtzDebruijn(n);
    CtzNum(n);
    n := n >> z;
    ghost var n1 := n;
    var o := Cto(n);
    CtoNum(n);
    n := n >> o;
    ghost var s := FirstRuns(x, z, n1, o, n);
    assert z < 32 && o < 32;

    var max := 0;
    while n != 0
      invariant 1 <= s <= 32 && n == Shr(x, s)
      invariant Bit(x, s - 1) && n & 1 == 0
      invariant LongestBelow(x, s, max)
      decreases 32 - s
    {
      ghost var n0 := n;
      var tz := CtzDebruijn(n);
      CtzNum(n);
      ghost var g := max;
      max := Max(Num(tz), max);
      n := n >> tz;
      ghost var n1 := n;
      var o := Cto(n);
      CtoNum(n);
      n := n >> o;
      s := NextRuns(x, s, n0, tz, n1, o, n, g);
      assert tz < 32 && o < 32;
    }
    Finished(x, s, max);
    return Value(max);
  }

  // ---------------------------------------------------------------------
  // Properties of solution

  /** Doubling a positive `int` that stays in range doubles its word. */
  lemma UnsignedDouble(N: int32)
    requires 1 <= N <= 0x3FFF_FFFF
    ensures Unsigned(2 * N) == Unsigned(N) << 1
  {
    var k := N as int;
    UnsignedOf(N);
    UnsignedOf(2 * N);
    assert (2 * k) / 2 == k && Digit(2 * k) == 0;
    BinOf(2 * k, Bin(k));
  }

  /** solution(N) == solution(N << 1): appending a zero bit below N leaves
      its longest gap unchanged. */
  lemma ShiftInvariance(N: int32, g: int)
    requires 1 <= N <= 0x3FFF_FFFF
    ensures IsLongestGap(Unsigned(N), g) <==> IsLongestGap(Unsigned(2 * N), g)
  {
    PositiveWord(N);
    UnsignedDouble(N);
    LongestGapOfShift(Unsigned(N), g);
  }

  lemma DoubleFirst(n: int, p: nat)
    requires n >= 1 && p >= 1
    ensures n * (2 * p) == (2 * n) * p && 2 * n <= (2 * n) * p
  {
    MulAtLeast(2 * n, p);
  }

  /** solution(N) == solution(N << k) for every k that keeps N << k a
      positive `int`. */
  lemma {:induction false} ShiftInvarianceBy(N: int32, k: nat, g: int)
    requires 1 <= N && N as int * TwoTo(k) < 0x8000_0000
    ensures IsLongestGap(Unsigned(N), g) <==> IsLongestGap(Unsigned((N as int * TwoTo(k)) as int32), g)
    decreases k
  {
    if k > 0 {
      var n, p := N as int, TwoTo(k - 1);
      DoubleFirst(n, p);
      var M := 2 * N;
      ShiftInvariance(N, g);
      ShiftInvarianceBy(M, k - 1, g);
    }
  }

  // ---------------------------------------------------------------------
  // The values main asserts for solution

  /** Bits t .. t+k-1 of x are clear, read off the machine word. */
  lemma ClearBits(x: bv32, t: bv32, k: bv32)
    requires t < 32 && k <= 32 - t && (x >> t) & (((1 as bv32) << k) - 1) == 0
    ensures AllClear(x, t as int, t as int + k as int)
  {
    ShiftIsShr(x, t);
    MaskIsShift(k);
    LowBitsClear(x >> t, k as int);
    WindowClear(x, t as int, k as int);
  }

  /** Bits t .. t+k-1 of x are set: they are clear in its complement. */
  lemma SetBits(x: bv32, t: bv32, k: bv32)
    requires t < 32 && k <= 32 - t && ((!x) >> t) & (((1 as bv32) << k) - 1) == 0
    ensures AllSet(x, t as int, t as int + k as int)
  {
    ClearBits(!x, t, k);
    forall m | t as int <= m < t as int + k as int
      ensures Bit(x, m)
    {
      ComplementBit(x, m);
    }
  }

  /** One more binary digit of a literal. */
  lemma BinOf(k: nat, u: bv32)
    requires k > 0 && Bin(k / 2) == u
    ensures Bin(k) == (u << 1) | Digit(k)
  {
  }

  /** 2^m - 1 has its m lowest digits set. */
  lemma {:induction false} BinOnes(m: nat)
    ensures Bin(TwoTo(m) - 1) == LowMask(m)
    decreases m
  {
    if m > 0 {
      BinOnes(m - 1);
      assert (TwoTo(m) - 1) / 2 == TwoTo(m - 1) - 1;
    }
  }

  /** solution(9) == 2: 9 is 1001 in binary. */
  lemma Example9()
    ensures IsLongestGap(Unsigned(9), 2)
  {
    BinOf(1, 0); BinOf(2, 1); BinOf(4, 2); BinOf(9, 4);
    UnsignedOf(9);
    var x := Unsigned(9);
    assert x == 9;
    SetBits(x, 0, 1);
    NoGapInTrailingRuns(x, 0, 1);
    ClearBits(x, 1, 2);
    SetBits(x, 3, 1);
    ExtendLongest(x, 1, 2, 1, 0);
    ClearBits(x, 4, 28);
    NoGapAbove(x, 4, 2);
  }

  /** solution(529) == 4: 529 is 1000010001 in binary. */
  lemma Example529()
    ensures IsLongestGap(Unsigned(529), 4)
  {
    BinOf(1, 0); BinOf(2, 1); BinOf(4, 2); BinOf(8, 4); BinOf(16, 8);
    BinOf(33, 16); BinOf(66, 33); BinOf(132, 66); BinOf(264, 132); BinOf(529, 264);
    UnsignedOf(529);
    var x := Unsigned(529);
    assert x == 529;
    SetBits(x, 0, 1);
    NoGapInTrailingRuns(x, 0, 1);
    ClearBits(x, 1, 3);
    SetBits(x, 4, 1);
    ExtendLongest(x, 1, 3, 1, 0);
    ClearBits(x, 5, 4);
    SetBits(x, 9, 1);
    ExtendLongest(x, 5, 4, 1, 3);
    ClearBits(x, 10, 22);
    NoGapAbove(x, 10, 4);
  }

  /** solution(15) == 0: 15 is 1111 in binary. */
  lemma Example15()
    ensures IsLongestGap(Unsigned(15), 0)
  {
    BinOnes(4);
    assert TwoTo(4) == 16;
    MaskIsShift(4);
    UnsignedOf(15);
    var x := Unsigned(15);
    assert x == 15;
    SetBits(x, 0, 4);
    NoGapInTrailingRuns(x, 0, 4);
    ClearBits(x, 4, 28);
    NoGapAbove(x, 4, 0);
  }

  /** solution(32) == 0: 32 is 100000 in binary. */
  lemma Example32()
    ensures IsLongestGap(Unsigned(32), 0)
  {
    BinOf(1, 0); BinOf(2, 1); BinOf(4, 2); BinOf(8, 4); BinOf(16, 8); BinOf(32, 16);
    UnsignedOf(32);
    var x := Unsigned(32);
    assert x == 32;
    ClearBits(x, 0, 5);
    SetBits(x, 5, 1);
    NoGapInTrailingRuns(x, 5, 1);
    ClearBits(x, 6, 26);
    NoGapAbove(x, 6, 0);
  }

  /** solution(1041) == 5: 1041 is 10000010001 in binary. */
  lemma Example1041()
    ensures IsLongestGap(Unsigned(1041), 5)
  {
    BinOf(1, 0); BinOf(2, 1); BinOf(4, 2); BinOf(8, 4); BinOf(16, 8); BinOf(32, 16);
    BinOf(65, 32); BinOf(130, 65); BinOf(260, 130); BinOf(520, 260); BinOf(1041, 520);
    UnsignedOf(1041);
    var x := Unsigned(1041);
    assert x == 1041;
    SetBits(x, 0, 1);
    NoGapInTrailingRuns(x, 0, 1);
    ClearBits(x, 1, 3);
    SetBits(x, 4, 1);
    ExtendLongest(x, 1, 3, 1, 0);
    ClearBits(x, 5, 5);
    SetBits(x, 10, 1);
    ExtendLongest(x, 5, 5, 1, 3);
    ClearBits(x, 11, 21);
    NoGapAbove(x, 11, 5);
  }

  /** solution(2147483647) == 0: the largest `int` is 31 one bits. */
  lemma ExampleMaxInt()
    ensures IsLongestGap(Unsigned(0x7FFF_FFFF), 0)
  {
    BinOnes(31);
    TwoTo31();
    MaskIsShift(31);
    UnsignedOf(0x7FFF_FFFF);
    var x := Unsigned(0x7FFF_FFFF);
    assert x == 0x7FFF_FFFF;
    SetBits(x, 0, 31);
    NoGapInTrailingRuns(x, 0, 31);
    ClearBits(x, 31, 1);
    NoGapAbove(x, 31, 0);
  }

  /** The gap values main asserts for solution, from the problem
      statement: each call returns the longest gap proved above. */
  method MainAsserts() returns (a: Outcome, b: Outcome, c: Outcome, d: Outcome, e: Outcome, f: Outcome)
    ensures a == Value(2) && b == Value(4) && c == Value(0)
    ensures d == Value(0) && e == Value(5) && f == Value(0)
  {
    a := Solution(9);
    Example9();
    LongestGapUnique(Unsigned(9), a.gap, 2);
    b := Solution(529);
    Example529();
    LongestGapUnique(Unsigned(529), b.gap, 4);
    c := Solution(15);
    Example15();
    LongestGapUnique(Unsigned(15), c.gap, 0);
    d := Solution(32);
    Example32();
    LongestGapUnique(Unsigned(32), d.gap, 0);
    e := Solution(1041);
    Example1041();
    LongestGapUnique(Unsigned(1041), e.gap, 5);
    f := Solution(0x7FFF_FFFF);
    ExampleMaxInt();
    LongestGapUnique(Unsigned(0x7FFF_FFFF), f.gap, 0);
  }
}
