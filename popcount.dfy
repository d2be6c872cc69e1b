/** `broadcast` and the parallel bit-sum population count `popcnt` of
    binary-gap.cpp, for T = unsigned (32 bits).

    `popcnt` sums adjacent bits, then adjacent pairs, then adjacent
    quartets, so that each byte of the word holds the number of set bits
    of the same byte of the input; a multiplication by 0x01010101 then
    adds the four bytes into the top byte. The proof follows the same
    route: each byte of the third stage is shown to count its eight input
    bits, and the final multiply-and-shift is shown to add the bytes. */
module Popcount {
  import opened Bits

  /** A byte repeated in all four bytes of a word: the all-ones word
      divided by 0xff is 0x01010101, and multiplying it by b copies b
      into every byte. */
  function Broadcast(b: bv8): (r: bv32)
    ensures r == 0x0101_0101 * (b as bv32)
  {
    ((!(0 as bv32)) / 0xFF) * (b as bv32)
  }

  /** Every byte of the broadcast word is b. */
  lemma BroadcastBytes(b: bv8)
    ensures Broadcast(b) & 0xFF == b as bv32
    ensures (Broadcast(b) >> 8) & 0xFF == b as bv32
    ensures (Broadcast(b) >> 16) & 0xFF == b as bv32
    ensures Broadcast(b) >> 24 == b as bv32
  {
  }

  // The first three stages of popcnt, with the broadcast masks written out.

  /** Every 2-bit field of the result holds the sum of its two bits. */
  ghost function PairSums(x: bv32): bv32 {
    x - ((x >> 1) & 0x5555_5555)
  }

  /** Every 4-bit field of the result holds the sum of its two pairs. */
  ghost function QuartetSums(y: bv32): bv32 {
    (y & 0x3333_3333) + ((y >> 2) & 0x3333_3333)
  }

  /** Every byte of the result holds the sum of its two quartets. */
  ghost function ByteSums(y: bv32): bv32 {
    (y + (y >> 4)) & 0x0F0F_0F0F
  }

  /** Bit t of x as a number, taken with the machine shift. */
  ghost function BitValue(x: bv32, t: bv32): nat
    requires t < 32
  {
    if (x >> t) & 1 == 1 then 1 else 0
  }

  lemma Byte0(x0: bv32, x1: bv32, x2: bv32, y: bv32)
    requires x1 == PairSums(x0)
    requires x2 == QuartetSums(x1)
    requires y == ByteSums(x2)
    ensures (y & 0xFF) as int
      == BitValue(x0, 0) + BitValue(x0, 1) + BitValue(x0, 2) + BitValue(x0, 3)
       + BitValue(x0, 4) + BitValue(x0, 5) + BitValue(x0, 6) + BitValue(x0, 7)
  {
  }

  lemma Byte1(x0: bv32, x1: bv32, x2: bv32, y: bv32)
    requires x1 == PairSums(x0)
    requires x2 == QuartetSums(x1)
    requires y == ByteSums(x2)
    ensures ((y >> 8) & 0xFF) as int
      == BitValue(x0, 8) + BitValue(x0, 9) + BitValue(x0, 10) + BitValue(x0, 11)
       + BitValue(x0, 12) + BitValue(x0, 13) + BitValue(x0, 14) + BitValue(x0, 15)
  {
  }

  lemma Byte2(x0: bv32, x1: bv32, x2: bv32, y: bv32)
    requires x1 == PairSums(x0)
    requires x2 == QuartetSums(x1)
    requires y == ByteSums(x2)
    ensures ((y >> 16) & 0xFF) as int
      == BitValue(x0, 16) + BitValue(x0, 17) + BitValue(x0, 18) + BitValue(x0, 19)
       + BitValue(x0, 20) + BitValue(x0, 21) + BitValue(x0, 22) + BitValue(x0, 23)
  {
  }

  lemma Byte3(x0: bv32, x1: bv32, x2: bv32, y: bv32)
    requires x1 == PairSums(x0)
    requires x2 == QuartetSums(x1)
    requires y == ByteSums(x2)
    ensures (y >> 24) as int
      == BitValue(x0, 24) + BitValue(x0, 25) + BitValue(x0, 26) + BitValue(x0, 27)
       + BitValue(x0, 28) + BitValue(x0, 29) + BitValue(x0, 30) + BitValue(x0, 31)
  {
  }

  /** The high quartet of every byte of the third stage is clear. */
  lemma ByteSumsShape(x0: bv32, x1: bv32, x2: bv32, y: bv32)
    requires x1 == PairSums(x0)
    requires x2 == QuartetSums(x1)
    requires y == ByteSums(x2)
    ensures y & 0xF0F0_F0F0 == 0
  {
  }

  /** Multiplying by 0x01010101 and keeping the top byte adds the four
      bytes of a word whose bytes are below 16. */
  lemma SumOfBytes(y: bv32)
    requires y & 0xF0F0_F0F0 == 0
    ensures (y * 0x0101_0101) >> 24
      == ((y & 0xFF) + ((y >> 8) & 0xFF)) + (((y >> 16) & 0xFF) + (y >> 24))
  {
  }

  /** Adding small words does not wrap around. */
  lemma AddSmall(a: bv32, b: bv32)
    requires a <= 32 && b <= 32
    ensures (a + b) as int == a as int + b as int
  {
  }

  /** One more bit of the count, named by a word amount t with value k. */
  lemma CountStep(x: bv32, k: nat, t: bv32)
    requires t < 32 && t as int == k
    ensures CountBelow(x, k + 1) == CountBelow(x, k) + BitValue(x, t)
  {
    BitAt(x, t);
  }

  lemma CountFirst(x: bv32)
    ensures CountBelow(x, 1) == BitValue(x, 0)
  {
    BitAt(x, 0);
  }

  lemma CountByte0(x: bv32)
    ensures CountBelow(x, 8) == CountBelow(x, 1)
       + BitValue(x, 1) + BitValue(x, 2) + BitValue(x, 3)
       + BitValue(x, 4) + BitValue(x, 5) + BitValue(x, 6) + BitValue(x, 7)
  {
    CountStep(x, 1, 1); CountStep(x, 2, 2); CountStep(x, 3, 3);
    CountStep(x, 4, 4); CountStep(x, 5, 5); CountStep(x, 6, 6); CountStep(x, 7, 7);
  }

  lemma CountByte1(x: bv32)
    ensures CountBelow(x, 16) == CountBelow(x, 8)
       + BitValue(x, 8) + BitValue(x, 9) + BitValue(x, 10) + BitValue(x, 11)
       + BitValue(x, 12) + BitValue(x, 13) + BitValue(x, 14) + BitValue(x, 15)
  {
    CountStep(x, 8, 8); CountStep(x, 9, 9); CountStep(x, 10, 10); CountStep(x, 11, 11);
    CountStep(x, 12, 12); CountStep(x, 13, 13); CountStep(x, 14, 14); CountStep(x, 15, 15);
  }

  lemma CountByte2(x: bv32)
    ensures CountBelow(x, 24) == CountBelow(x, 16)
       + BitValue(x, 16) + BitValue(x, 17) + BitValue(x, 18) + BitValue(x, 19)
       + BitValue(x, 20) + BitValue(x, 21) + BitValue(x, 22) + BitValue(x, 23)
  {
    CountStep(x, 16, 16); CountStep(x, 17, 17); CountStep(x, 18, 18); CountStep(x, 19, 19);
    CountStep(x, 20, 20); CountStep(x, 21, 21); CountStep(x, 22, 22); CountStep(x, 23, 23);
  }

  lemma CountByte3(x: bv32)
    ensures CountBelow(x, 32) == CountBelow(x, 24)
       + BitValue(x, 24) + BitValue(x, 25) + BitValue(x, 26) + BitValue(x, 27)
       + BitValue(x, 28) + BitValue(x, 29) + BitValue(x, 30) + BitValue(x, 31)
  {
    CountStep(x, 24, 24); CountStep(x, 25, 25); CountStep(x, 26, 26); CountStep(x, 27, 27);
    CountStep(x, 28, 28); CountStep(x, 29, 29); CountStep(x, 30, 30); CountStep(x, 31, 31);
  }

  lemma ByteBounds(y: bv32)
    requires y & 0xF0F0_F0F0 == 0
    ensures y & 0xFF <= 15 && (y >> 8) & 0xFF <= 15
    ensures (y >> 16) & 0xFF <= 15 && y >> 24 <= 15
  {
  }

  /** For a word whose bytes are below 16, multiplying by 0x01010101 and
      keeping the top byte yields the sum of its four bytes. */
  lemma TotalOfBytes(y: bv32)
    requires y & 0xF0F0_F0F0 == 0
    ensures ((y * 0x0101_0101) >> 24) as int
      == (y & 0xFF) as int + ((y >> 8) & 0xFF) as int
       + ((y >> 16) & 0xFF) as int + (y >> 24) as int
  {
    var b0, b1, b2, b3 := y & 0xFF, (y >> 8) & 0xFF, (y >> 16) & 0xFF, y >> 24;
    SumOfBytes(y);
    ByteBounds(y);
    AddSmall(b0, b1);
    AddSmall(b2, b3);
    AddSmall(b0 + b1, b2 + b3);
  }

  lemma AtMost32(r: bv32)
    requires r as int <= 32
    ensures r <= 32
  {
  }

  /** The parallel bit sum computes the population count. */
  lemma SwarIsPopCount(x0: bv32, x1: bv32, x2: bv32, y: bv32)
    requires x1 == PairSums(x0)
    requires x2 == QuartetSums(x1)
    requires y == ByteSums(x2)
    ensures ((y * 0x0101_0101) >> 24) as int == PopCount(x0)
  {
    Byte0(x0, x1, x2, y);
    Byte1(x0, x1, x2, y);
    Byte2(x0, x1, x2, y);
    Byte3(x0, x1, x2, y);
    ByteSumsShape(x0, x1, x2, y);
    TotalOfBytes(y);
    CountFirst(x0);
    CountByte0(x0);
    CountByte1(x0);
    CountByte2(x0);
    CountByte3(x0);
  }

  lemma PairForm(x0: bv32, x1: bv32)
    requires x1 == x0 - ((x0 >> 1) & 0x5555_5555)
    ensures x1 == PairSums(x0)
  {
  }

  lemma QuartetForm(x1: bv32, x2: bv32)
    requires x2 == (x1 & 0x3333_3333) + ((x1 >> 2) & 0x3333_3333)
    ensures x2 == QuartetSums(x1)
  {
  }

  lemma ByteForm(x2: bv32, x3: bv32)
    requires x3 == (x2 + (x2 >> 4)) & 0x0F0F_0F0F
    ensures x3 == ByteSums(x2)
  {
  }

  /** The steps of popcnt, as the code writes them, compute the population
      count, and the count fits in the low six bits. */
  lemma PopcntSteps(x0: bv32, x1: bv32, x2: bv32, x3: bv32, r: bv32)
    requires x1 == x0 - ((x0 >> 1) & 0x5555_5555)
    requires x2 == (x1 & 0x3333_3333) + ((x1 >> 2) & 0x3333_3333)
    requires x3 == (x2 + (x2 >> 4)) & 0x0F0F_0F0F
    requires r == (x3 * 0x0101_0101) >> 24
    ensures r as int == PopCount(x0) && r <= 32
  {
    PairForm(x0, x1);
    QuartetForm(x1, x2);
    ByteForm(x2, x3);
    SwarIsPopCount(x0, x1, x2, x3);
    CountBelowBound(x0, 32);
    AtMost32(r);
  }

  // popcnt holds its masks in variables set from `broadcast`. The lemmas
  // below replace each such variable by its value, one stage at a time.

  /** The top byte of the product of y and m01. */
  ghost function TopByteOfProduct(y: bv32, m01: bv32): bv32 {
    (y * m01) >> 24
  }

  lemma TopByteCongr(y: bv32, m: bv32)
    requires m == 0x0101_0101
    ensures TopByteOfProduct(y, m) == TopByteOfProduct(y, 0x0101_0101)
  {
  }

  lemma PairMask(x0: bv32, x1: bv32, m: bv32)
    requires m == 0x5555_5555 && x1 == x0 - ((x0 >> 1) & m)
    ensures x1 == x0 - ((x0 >> 1) & 0x5555_5555)
  {
  }

  lemma QuartetMask(x1: bv32, x2: bv32, m: bv32)
    requires m == 0x3333_3333 && x2 == (x1 & m) + ((x1 >> 2) & m)
    ensures x2 == (x1 & 0x3333_3333) + ((x1 >> 2) & 0x3333_3333)
  {
  }

  lemma ByteMask(x2: bv32, x3: bv32, m: bv32)
    requires m == 0x0F0F_0F0F && x3 == (x2 + (x2 >> 4)) & m
    ensures x3 == (x2 + (x2 >> 4)) & 0x0F0F_0F0F
  {
  }

  lemma TopUnfold(x3: bv32, r: bv32, m: bv32)
    requires r == (x3 * m) >> 24
    ensures r == TopByteOfProduct(x3, m)
  {
  }

  lemma TopFold(x3: bv32)
    ensures TopByteOfProduct(x3, 0x0101_0101) == (x3 * 0x0101_0101) >> 24
  {
  }

  /** popcnt: the number of set bits of x0, which is at most 32. */
  method Popcnt(x0: bv32) returns (r: bv32)
    ensures r as int == PopCount(x0)
    ensures r <= 32
  {
    var b01 := Broadcast(0x01);
    var b55 := Broadcast(0x55);
    var b33 := Broadcast(0x33);
    var b0f := Broadcast(0x0F);
    var x := x0;
    x := x - ((x >> 1) & b55);
    ghost var x1 := x;
    x := (x & b33) + ((x >> 2) & b33);
    ghost var x2 := x;
    x := (x + (x >> 4)) & b0f;
    ghost var x3 := x;
    r := (x * b01) >> 24;
    PairMask(x0, x1, b55);
    QuartetMask(x1, x2, b33);
    ByteMask(x2, x3, b0f);
    TopUnfold(x3, r, b01);
    TopByteCongr(x3, b01);
    TopFold(x3);
    PopcntSteps(x0, x1, x2, x3, r);
  }
}
