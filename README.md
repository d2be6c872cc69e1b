# binary-gap in Dafny

This project models `binary-gap.cpp`. The program computes the longest
*binary gap* of a positive `int`: the longest run of zero bits that has a
one bit on each side. For example, 529 is `1000010001` in binary, so its
longest gap is 4. `solution` does this with two primitives:

- `ctz` counts trailing zero bits.
- `cto` counts trailing one bits; it is `ctz` of the complement.

It shifts the trailing zeros and then the trailing ones out of the word.
Each zero run that follows is a gap, and the longest one is kept.

The file gives four portable implementations of `ctz`:

- `ctz_simple`, a bit-by-bit loop.
- `ctz_bits`, a population count of the mask below the lowest set bit. It uses `popcnt`, a parallel bit sum whose masks come from `broadcast`.
- `ctz_bsearch`, a binary search.
- `ctz_debruijn`, a De Bruijn multiplication with a table. This is the one `ctz` is bound to.

The model has five modules:

- `Bits` (`bits.dfy`) is the bit vocabulary of 32-bit words.
  - `Shr` is a logical right shift by any number of places.
  - `Bit(x, i)` is bit i of x.
  - `AllClear` and `AllSet` say that every bit in a range is clear or set.
  - `IsCtz` and `IsCto` give the trailing-zero and trailing-one counts as properties.
  - `PopCount` is the number of set bits, counted bit by bit.
  - `Num` is the value of a small word, counted up one at a time.
  - The file also holds the lemmas tying machine shifts, masks and complements to these definitions.
- `Popcount` (`popcount.dfy`) models `broadcast` and `popcnt` for `T = unsigned`.
- `Ctz` (`ctz.dfy`) models the four `ctz` implementations and `cto`. The imperative ones are methods with loops or conditional updates, and the pure ones are functions. Every one is proved to return the `IsCtz` value, which is unique, so the implementations agree on every word.
- `Gap` (`gap.dfy`) is the specification of a binary gap and of the longest one, with the lemmas the loop of `solution` needs.
- `BinaryGap` (`solution.dfy`) models `solution`, the conversion `unsigned(N)` and the values asserted in `main`.
  - `Solution` returns `OutOfRange` exactly when N < 1. Otherwise it returns the longest gap of `unsigned(N)`.
  - In every round, neither shift reaches 32 places, and the low bit of `n` is clear at every loop head.

## Model

| member | source | states |
|---|---|---|
| Popcount.Broadcast | binary-gap.cpp:61-67 | broadcast(b), the all-ones word divided by 0xff then multiplied by b, equals 0x01010101 * b |
| Popcount.BroadcastBytes | binary-gap.cpp:61-67 | each of the four bytes of broadcast(b) is b |
| Popcount.SwarIsPopCount | binary-gap.cpp:82-91 | after the three summing stages, multiplying by 0x01010101 and shifting by 24 yields the number of set bits of the input |
| Popcount.Popcnt | binary-gap.cpp:71-92 | popcnt(x) is the number of set bits of x, and is at most 32 |
| Bits.PopCountMask | binary-gap.cpp:96-100 | the mask of the r lowest bits has exactly r set bits, which is what ctz_bits counts |
| Ctz.CtzSimple | binary-gap.cpp:47-56 | the result r is at most 32, bits 0 .. r-1 of x are clear and bit r is set; it is 32 only for 0 |
| Ctz.CtzBits | binary-gap.cpp:96-100 | popcnt((x & -x) - 1) is the trailing-zero count of x, 32 for 0 |
| Ctz.BsearchIsCtz | binary-gap.cpp:102-130 | the value the five halving tests compute is the trailing-zero count |
| Ctz.CtzBsearch | binary-gap.cpp:102-130 | ctz_bsearch returns the trailing-zero count, 32 for 0 |
| Ctz.TableInvertsHash | binary-gap.cpp:141-152 | for each single-bit word 1 << t, index32 at the De Bruijn hash of that word is t |
| Ctz.CtzDebruijnIsCtz | binary-gap.cpp:132-153 | ctz_debruijn returns the trailing-zero count, 32 for 0 |
| Bits.CtzUnique | binary-gap.cpp:197-200 | a word has only one trailing-zero count |
| Ctz.CtzAgree | binary-gap.cpp:197-200 | any value with the trailing-zero property equals ctz_debruijn's result, so each implementation `ctz` may be bound to returns the same value |
| Bits.CtoOfComplement | binary-gap.cpp:204-207 | the trailing-zero count of ~x is exactly the trailing-one count of x |
| Ctz.CtoIsCto | binary-gap.cpp:204-207 | cto(x) is the count of trailing one bits of x, and it is 32 exactly when x is 0xFFFFFFFF |
| Ctz.CtzExamples | binary-gap.cpp:243-249 | ctz of 0, 0x80000000, 0xF00, 1, 0xF, 0xFF and 0xFFFFFFFF is 32, 31, 8, 0, 0, 0 and 0 |
| BinaryGap.UnsignedBit | binary-gap.cpp:215 | bit i of unsigned(N) is binary digit i of N modulo 2^32 |
| BinaryGap.PositiveWord | binary-gap.cpp:211-215 | a positive `int` becomes a non-zero word with its top bit clear |
| BinaryGap.FirstRuns | binary-gap.cpp:217-218 | the first two shifts are by fewer than 32 places, and afterwards no gap has been passed |
| BinaryGap.NextRuns | binary-gap.cpp:222-227 | one round shifts by fewer than 32 places twice, and the zero run it measures extends the longest-gap-so-far invariant; the position strictly increases |
| BinaryGap.Solution | binary-gap.cpp:209-230 | OutOfRange exactly when N < 1; otherwise the result is the longest binary gap of unsigned(N), 0 when there is none |
| Gap.LongestGapUnique | binary-gap.cpp:209-230 | a word has one longest-gap length, so the result of solution is determined |
| Gap.ExtendLongest | binary-gap.cpp:223-226 | after a one bit, a run of tz zeros and a run of ones, the longest gap so far becomes max(tz, previous) |
| Gap.NoGapInTrailingRuns | binary-gap.cpp:217-218 | the trailing zeros and the trailing ones above them contain no gap |
| Gap.NoGapAbove | binary-gap.cpp:222 | once n is zero, no gap lies above the current position, so the longest gap so far is the longest gap |
| Gap.OneRunNoGap | binary-gap.cpp:304-306 | a word whose set bits form a single run has no gap |
| Gap.LongestGapOfShift | binary-gap.cpp:217 | shifting a word with a clear top bit left by one place neither adds nor removes a gap length, in both directions |
| BinaryGap.ShiftInvariance | binary-gap.cpp:209-230 | solution(2N) and solution(N) report the same longest gap when 2N is still an `int` |
| BinaryGap.ShiftInvarianceBy | binary-gap.cpp:209-230 | solution(N * 2^k) and solution(N) report the same longest gap whenever N * 2^k is still an `int` |
| BinaryGap.Example9 | binary-gap.cpp:254 | the longest gap of 9 is 2 |
| BinaryGap.Example529 | binary-gap.cpp:255 | the longest gap of 529 is 4 |
| BinaryGap.Example15 | binary-gap.cpp:256 | the longest gap of 15 is 0 |
| BinaryGap.Example32 | binary-gap.cpp:257 | the longest gap of 32 is 0 |
| BinaryGap.Example1041 | binary-gap.cpp:258 | the longest gap of 1041 is 5 |
| BinaryGap.ExampleMaxInt | binary-gap.cpp:260 | the longest gap of 2147483647 is 0 |
| BinaryGap.MainAsserts | binary-gap.cpp:254-260 | Solution returns 2, 4, 0, 0, 5 and 0 for 9, 529, 15, 32, 1041 and 2147483647 |

## Left out

- The platform `ctz` (binary-gap.cpp:157-193) is not modelled. It is `__builtin_ctz`, `_BitScanReverse` or `ffs`, all compiler or C library code. The `#else` binding to `ctz_debruijn` is modelled. The MSC branch calls `_BitScanReverse`, which reports the highest set bit rather than the lowest, so it would not meet `IsCtz`.
- The benchmark loop of `main` (binary-gap.cpp:235-241) and its total are not modelled. The total would need about 16 million evaluations of `solution`.
- The `count_gap_zeros` asserts of `main` after line 260 are not proved one by one. `Solution`'s contract, with `Gap.LongestGapUnique`, fixes each of them.
- The `static_assert`s on word and byte sizes are left out. The model fixes 32-bit words and 8-bit bytes.
- `std::out_of_range` is modelled as the `OutOfRange` outcome. Its message text is left out.
- `popcnt` and `broadcast` are templates. Only `T = unsigned` (`bv32`) is modelled, the one `ctz_bits` uses. The byte argument of `broadcast` is a `bv8`.
- Results of `ctz_debruijn` and `cto`: the source declares them `int`. In the model they are `bv32` words with the same value. `solution` takes the integer value of `tz` through `Bits.Num` where it calls `std::max`.
- `unsigned(N)` is modelled as `Unsigned(N)`, the binary expansion of N modulo 2^32, which is C++'s conversion rule. It is not modelled as a bit-pattern reinterpretation, but the two agree on every `int`.
- `ctz_bits` is a method and not a function in the model, because it calls `popcnt`, whose updates are modelled imperatively.
- Only the shifts in `solution` are proved to stay below 32 places, where C++ would be undefined. The shifts in the `ctz` implementations are by constants below 32 or, in `ctz_simple`, by one place.
