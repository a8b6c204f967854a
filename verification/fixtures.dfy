/**
  The crate's unit tests for the modelled operations, restated as lemmas
  about the contracts of `Stats` and `Univariate`.
 */
module Fixtures {
  import opened Order
  import opened Stats
  import opened Univariate

  /** `test_median`: the median of 1, 3 (in either order) is 2. */
  lemma MedianOfTwoExample(v: seq<real>)
    requires multiset(v) == multiset{1.0, 3.0}
    ensures forall s | |s| == |v| && Sorted(s) && multiset(s) == multiset(v) :: MiddleOf(s) == 2.0
  {
  }

  /** `test_median`: the median of 1, 3, 5 (in any order) is 3. */
  lemma MedianOfThreeExample(v: seq<real>)
    requires multiset(v) == multiset{1.0, 3.0, 5.0}
    ensures forall s | |s| == |v| && Sorted(s) && multiset(s) == multiset(v) :: MiddleOf(s) == 3.0
  {
  }

  /** `test_median`: the median of 1, 3, 5, 7 (in any order) is 4. */
  lemma MedianOfFourExample(v: seq<real>)
    requires multiset(v) == multiset{1.0, 3.0, 5.0, 7.0}
    ensures forall s | |s| == |v| && Sorted(s) && multiset(s) == multiset(v) :: MiddleOf(s) == 4.0
  {
  }

  /**
    `test_qsort_sorted` and `test_qsort_reverse_sorted`: their ascending and
    descending inputs hold no repeated value, so `Quicksort`'s contract gives
    the strictly increasing order those tests assert.
   */
  lemma TestInputsDistinct(n: nat)
    ensures Distinct(seq(n, i => i as real))
    ensures Distinct(seq(n, i => (n - i) as real))
  {
  }

  /** `test_mode`: the only mode of a one-element sample is its element. */
  lemma SingletonMode<T>(a: T, x: T)
    ensures IsMode([a], x) <==> x == a
  {
  }

  datatype Color = Blue | Green | Yellow

  /** `test_mode_of_colors`: in Blue, Green, Yellow, Green the unique mode is Green. */
  lemma ColorsMode(x: Color)
    ensures IsMode([Blue, Green, Yellow, Green], x) <==> x == Green
  {
    var v := [Blue, Green, Yellow, Green];
    assert Occurrences(v, Blue) == 1;
    assert Occurrences(v, Green) == 2;
    assert Occurrences(v, Yellow) == 1;
  }

  /** Occurrences of `x` counted position by position, for evaluating literal integer samples. */
  function Count(v: seq<int>, x: int): nat {
    if |v| == 0 then 0 else (if v[0] == x then 1 else 0) + Count(v[1..], x)
  }

  lemma {:induction false} CountIsOccurrences(v: seq<int>, x: int)
    ensures Count(v, x) == Occurrences(v, x)
  {
    if |v| > 0 {
      assert v == [v[0]] + v[1..];
      CountIsOccurrences(v[1..], x);
    }
  }

  /** A value of the sample that occurs strictly more often than every other value is its only mode. */
  lemma ModeFromCounts(v: seq<int>, m: int, x: int)
    requires m in v
    requires forall y | y != m :: Count(v, y) < Count(v, m)
    ensures IsMode(v, x) <==> x == m
  {
    CountIsOccurrences(v, m);
    forall y | y in v
      ensures Occurrences(v, y) <= Occurrences(v, m)
    {
      CountIsOccurrences(v, y);
    }
    if x != m {
      CountIsOccurrences(v, x);
      assert Occurrences(v, x) < Occurrences(v, m);
    }
  }

  /** The integer sample of `test_mode`. */
  function IntegerSample(): seq<int> {
    [2, 4, 3, 5, 4, 6, 1, 1, 6, 4, 0, 0]
  }

  lemma IntegerSampleCountOfFour()
    ensures Count(IntegerSample(), 4) == 3
  {
  }

  lemma IntegerSampleCountOfZero()
    ensures Count(IntegerSample(), 0) == 2
  {
  }

  lemma IntegerSampleCountOfOne()
    ensures Count(IntegerSample(), 1) == 2
  {
  }

  lemma IntegerSampleCountOfSix()
    ensures Count(IntegerSample(), 6) == 2
  {
  }

  lemma IntegerSampleCountOfTwo()
    ensures Count(IntegerSample(), 2) == 1
  {
  }

  lemma IntegerSampleCountOfThree()
    ensures Count(IntegerSample(), 3) == 1
  {
  }

  lemma IntegerSampleCountOfFive()
    ensures Count(IntegerSample(), 5) == 1
  {
  }

  lemma IntegerSampleCountOfAbsent(y: int)
    requires y !in IntegerSample()
    ensures Count(IntegerSample(), y) == 0
  {
    CountIsOccurrences(IntegerSample(), y);
  }

  /** Every value other than 4 occurs at most twice in the sample. */
  lemma IntegerSampleCountOfRest(y: int)
    requires y != 4
    ensures Count(IntegerSample(), y) <= 2
  {
    if y == 0 {
      IntegerSampleCountOfZero();
    } else if y == 1 {
      IntegerSampleCountOfOne();
    } else if y == 6 {
      IntegerSampleCountOfSix();
    } else if y == 2 {
      IntegerSampleCountOfTwo();
    } else if y == 3 {
      IntegerSampleCountOfThree();
    } else if y == 5 {
      IntegerSampleCountOfFive();
    } else {
      IntegerSampleCountOfAbsent(y);
    }
  }

  /**
    `test_mode`: in 2, 4, 3, 5, 4, 6, 1, 1, 6, 4, 0, 0 the unique mode is 4
    (three occurrences; 0, 1 and 6 occur twice).
   */
  lemma IntegerSampleMode(x: int)
    ensures IsMode(IntegerSample(), x) <==> x == 4
  {
    var v := IntegerSample();
    IntegerSampleCountOfFour();
    forall y | y != 4
      ensures Count(v, y) < Count(v, 4)
    {
      IntegerSampleCountOfRest(y);
    }
    assert v[1] == 4;
    ModeFromCounts(v, 4, x);
  }
}
