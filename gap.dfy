/** Binary gaps: the specification `solution` of binary-gap.cpp meets.

    A binary gap of a word is a maximal run of consecutive zero bits with
    a one bit on each side. It is given here by the positions i and j of
    the two bounding ones; its length is the number of zeros between them,
    j - i - 1. The longest gap of a word is the greatest such length, or 0
    when the word has no gap. */
module Gap {
  import opened Bits

  /** Bits i and j of x are set, at least one bit lies between them, and
      every bit between them is clear. */
  ghost predicate IsGap(x: bv32, i: int, j: int) {
    0 <= i && i + 1 < j < 32 && Bit(x, i) && Bit(x, j) && AllClear(x, i + 1, j)
  }

  /** g is the longest gap among those of x whose upper one lies below
      bit s: no such gap is longer, and unless g is 0 one has length g. */
  ghost predicate LongestBelow(x: bv32, s: int, g: int) {
    && g >= 0
    && (forall i, j :: IsGap(x, i, j) && j < s ==> j - i - 1 <= g)
    && (g > 0 ==> exists i, j :: IsGap(x, i, j) && j < s && j - i - 1 == g)
  }

  /** g is the length of the longest binary gap of x (0 if there is none). */
  ghost predicate IsLongestGap(x: bv32, g: int) {
    LongestBelow(x, 32, g)
  }

  /** A word has one longest gap length. */
  lemma LongestGapUnique(x: bv32, g1: int, g2: int)
    requires IsLongestGap(x, g1) && IsLongestGap(x, g2)
    ensures g1 == g2
  {
    if g1 > 0 {
      var i, j :| IsGap(x, i, j) && j < 32 && j - i - 1 == g1;
      assert g1 <= g2;
    }
    if g2 > 0 {
      var i, j :| IsGap(x, i, j) && j < 32 && j - i - 1 == g2;
      assert g2 <= g1;
    }
  }

  /** The lower one of a gap is the nearest set bit below the upper one:
      when bit a is set and bits a+1 .. j-1 are clear, a gap ending at j
      starts at a. */
  lemma GapStart(x: bv32, a: int, i: int, j: int)
    requires 0 <= a < j && Bit(x, a) && AllClear(x, a + 1, j)
    requires IsGap(x, i, j)
    ensures i == a
  {
    assert i < a ==> !Bit(x, a);
    assert a < i ==> !Bit(x, i);
  }

  /** No gap ends at j when bit j - 1 is set. */
  lemma NoGapAfterOne(x: bv32, i: int, j: int)
    requires 0 < j && Bit(x, j - 1)
    ensures !IsGap(x, i, j)
  {
    assert i + 1 < j ==> !Bit(x, j - 1) || !IsGap(x, i, j);
  }

  /** Before the first gap: when x has z trailing zeros followed by o ones,
      no gap ends below bit z + o. */
  lemma NoGapInTrailingRuns(x: bv32, z: int, o: int)
    requires 0 <= z && 1 <= o && z + o <= 32
    requires AllClear(x, 0, z) && AllSet(x, z, z + o)
    ensures LongestBelow(x, z + o, 0)
  {
    forall i, j | j < z + o
      ensures !IsGap(x, i, j)
    {
      if j == z {
        assert 0 <= i < z ==> !Bit(x, i);
      } else if j > z {
        NoGapAfterOne(x, i, j);
      }
    }
  }

  /** A word whose set bits form one contiguous run has no gap. */
  lemma OneRunNoGap(x: bv32, z: int, o: int)
    requires 0 <= z && 1 <= o && z + o <= 32
    requires AllClear(x, 0, z) && AllSet(x, z, z + o) && AllClear(x, z + o, 32)
    ensures IsLongestGap(x, 0)
  {
    NoGapInTrailingRuns(x, z, o);
    NoGapAbove(x, z + o, 0);
  }

  function Max(a: int, b: int): (m: int)
    ensures m >= a && m >= b && (m == a || m == b)
  {
    if a > b then a else b
  }

  /** Passing one more zero run and the one run above it: when bit s - 1
      is set, bits s .. s+tz-1 are clear and bits s+tz .. s+tz+o-1 are set,
      the one new gap ending below s + tz + o is the run of tz zeros. */
  lemma ExtendLongest(x: bv32, s: int, tz: int, o: int, g: int)
    requires 1 <= s && 1 <= tz && 1 <= o && s + tz + o <= 32
    requires Bit(x, s - 1) && AllClear(x, s, s + tz) && AllSet(x, s + tz, s + tz + o)
    requires LongestBelow(x, s, g)
    ensures LongestBelow(x, s + tz + o, Max(tz, g))
  {
    var e := s + tz + o;
    forall i, j | IsGap(x, i, j) && j < e
      ensures j - i - 1 <= Max(tz, g)
    {
      assert s <= j < s + tz ==> !Bit(x, j);
      if s + tz < j {
        NoGapAfterOne(x, i, j);
      } else if j == s + tz {
        GapStart(x, s - 1, i, j);
      }
    }
    if tz >= g {
      assert IsGap(x, s - 1, s + tz);
    } else {
      var i, j :| IsGap(x, i, j) && j < s && j - i - 1 == g;
      assert j < e;
    }
  }

  /** Once no bit at s or above is set, every gap ends below s. */
  lemma NoGapAbove(x: bv32, s: int, g: int)
    requires 0 <= s <= 32 && AllClear(x, s, 32) && LongestBelow(x, s, g)
    ensures IsLongestGap(x, g)
  {
    forall i, j | IsGap(x, i, j)
      ensures j < s
    {
      assert s <= j ==> !Bit(x, j);
    }
  }

  /** Shifting a word whose top bit is clear left by one place moves each
      gap up by one bit. */
  lemma GapOfShift(x: bv32, i: int, j: int)
    requires !Bit(x, 31)
    ensures IsGap(x << 1, i, j) <==> IsGap(x, i - 1, j - 1)
  {
    var y := x << 1;
    ShlBit(x, i);
    ShlBit(x, j);
    if AllClear(x, i, j - 1) {
      forall m | i + 1 <= m < j
        ensures !Bit(y, m)
      {
        ShlBit(x, m);
      }
    }
    if AllClear(y, i + 1, j) {
      forall m | i <= m < j - 1
        ensures !Bit(x, m)
      {
        ShlBit(x, m + 1);
      }
    }
  }

  /** A left shift by one place that loses no set bit keeps the longest
      gap. */
  lemma LongestGapOfShift(x: bv32, g: int)
    requires !Bit(x, 31)
    ensures IsLongestGap(x, g) <==> IsLongestGap(x << 1, g)
  {
    var y := x << 1;
    if IsLongestGap(x, g) {
      forall i, j | IsGap(y, i, j)
        ensures j - i - 1 <= g
      {
        GapOfShift(x, i, j);
      }
      if g > 0 {
        var i, j :| IsGap(x, i, j) && j < 32 && j - i - 1 == g;
        GapOfShift(x, i + 1, j + 1);
      }
    }
    if IsLongestGap(y, g) {
      forall i, j | IsGap(x, i, j)
        ensures j - i - 1 <= g
      {
        GapOfShift(x, i + 1, j + 1);
      }
      if g > 0 {
        var i, j :| IsGap(y, i, j) && j < 32 && j - i - 1 == g;
        GapOfShift(x, i, j);
      }
    }
  }
}
