/**
  Order facts over samples of reals: what "sorted" means, a reference sort the
  quicksort engine is compared against, and the rank counts that characterise a
  median independently of any sorting algorithm.
 */
module Order {

  /** Non-decreasing order: every earlier element is at most every later one. */
  predicate Sorted(s: seq<real>) {
    forall i, j | 0 <= i < j < |s| :: s[i] <= s[j]
  }

  /** Strictly increasing order. */
  predicate StrictlyIncreasing(s: seq<real>) {
    forall i, j | 0 <= i < j < |s| :: s[i] < s[j]
  }

  /** No two positions hold the same value. */
  predicate Distinct(s: seq<real>) {
    forall i, j | 0 <= i < j < |s| :: s[i] != s[j]
  }

  /** Number of copies of `x` in `s`. */
  function Copies(s: seq<real>, x: real): nat {
    multiset(s)[x]
  }

  /** Every position holds the same value. */
  predicate AllEqual(s: seq<real>) {
    forall i, j | 0 <= i < j < |s| :: s[i] == s[j]
  }

  /** A permutation of a sequence of equal values holds only that value. */
  lemma AllEqualPermutation(a: seq<real>, b: seq<real>)
    requires AllEqual(a) && multiset(a) == multiset(b)
    ensures AllEqual(b)
  {
    forall i | 0 <= i < |b|
      ensures b[i] == a[0]
    {
      assert b[i] in multiset(a);
      var k :| 0 <= k < |a| && a[k] == b[i];
      if k > 0 {
        assert a[0] == a[k];
      }
    }
  }

  /** Inserts `x` before the first element it does not exceed. */
  function Insert(x: real, s: seq<real>): (r: seq<real>)
    ensures |r| == |s| + 1
  {
    if |s| == 0 then [x]
    else if x <= s[0] then [x] + s
    else [s[0]] + Insert(x, s[1..])
  }

  /** Inserting into a sorted sequence keeps it sorted and adds exactly one occurrence of `x`. */
  lemma {:induction false} InsertSorted(x: real, s: seq<real>)
    requires Sorted(s)
    ensures Sorted(Insert(x, s))
    ensures multiset(Insert(x, s)) == multiset(s) + multiset{x}
    ensures Insert(x, s)[0] == x || (|s| > 0 && Insert(x, s)[0] == s[0])
  {
    if |s| > 0 && !(x <= s[0]) {
      var tail := Insert(x, s[1..]);
      InsertSorted(x, s[1..]);
      assert s == [s[0]] + s[1..];
      SortedCons(s[0], tail);
    } else if |s| > 0 {
      SortedCons(x, s);
    }
  }

  /** A head no larger than the first element of a sorted sequence extends it. */
  lemma SortedCons(h: real, t: seq<real>)
    requires Sorted(t) && (|t| > 0 ==> h <= t[0])
    ensures Sorted([h] + t)
  {
  }

  /**
    Reference sort (insertion sort). It shares no code with the quicksort
    engine; the two agree because a sorted permutation is unique.
   */
  function SortSpec(s: seq<real>): (r: seq<real>)
    ensures |r| == |s|
  {
    if |s| == 0 then [] else Insert(s[0], SortSpec(s[1..]))
  }

  /** The reference sort returns a sorted permutation of its input. */
  lemma {:induction false} SortSpecSorted(s: seq<real>)
    ensures Sorted(SortSpec(s))
    ensures multiset(SortSpec(s)) == multiset(s)
  {
    if |s| > 0 {
      SortSpecSorted(s[1..]);
      InsertSorted(s[0], SortSpec(s[1..]));
      assert s == [s[0]] + s[1..];
    }
  }

  /** The first element of a non-empty sorted sequence is its least element. */
  lemma SortedHeadIsLeast(s: seq<real>, x: real)
    requires Sorted(s) && x in s
    ensures s[0] <= x
  {
  }

  /** Two sorted sequences holding the same multiset of values are equal. */
  lemma {:induction false} SortedPermutationUnique(a: seq<real>, b: seq<real>)
    requires Sorted(a) && Sorted(b)
    requires multiset(a) == multiset(b)
    ensures a == b
  {
    if |a| == 0 {
      assert |multiset(b)| == 0;
    } else {
      assert |b| == |multiset(b)| == |multiset(a)| == |a|;
      assert a[0] in multiset(b);
      SortedHeadIsLeast(b, a[0]);
      assert b[0] in multiset(a);
      SortedHeadIsLeast(a, b[0]);
      assert a[0] == b[0];
      assert a == [a[0]] + a[1..];
      assert b == [b[0]] + b[1..];
      assert multiset(a) == multiset{a[0]} + multiset(a[1..]);
      assert multiset(b) == multiset{b[0]} + multiset(b[1..]);
      forall x
        ensures multiset(a[1..])[x] == multiset(b[1..])[x]
      {
        assert multiset(a)[x] == multiset(b)[x];
      }
      assert multiset(a[1..]) == multiset(b[1..]);
      SortedPermutationUnique(a[1..], b[1..]);
    }
  }

  /** Any sorted permutation of `s` is the reference sort of `s`. */
  lemma SortedPermutationIsSortSpec(s: seq<real>, r: seq<real>)
    requires Sorted(r) && multiset(r) == multiset(s)
    ensures r == SortSpec(s)
  {
    SortSpecSorted(s);
    SortedPermutationUnique(r, SortSpec(s));
  }

  /** In a sequence without repeated values every value occurs at most once. */
  lemma {:induction false} DistinctOccursOnce(s: seq<real>, x: real)
    requires Distinct(s)
    ensures multiset(s)[x] <= 1
  {
    if |s| > 0 {
      assert s == [s[0]] + s[1..];
      DistinctOccursOnce(s[1..], x);
      if x == s[0] {
        assert x !in s[1..];
      }
    }
  }

  /** A value found at two positions occurs at least twice. */
  lemma TwoPositions(s: seq<real>, i: nat, j: nat)
    requires i < j < |s| && s[i] == s[j]
    ensures multiset(s)[s[i]] >= 2
  {
    assert s == s[..i] + [s[i]] + s[i+1..j] + [s[j]] + s[j+1..];
  }

  /** Sorting a sample without repeated values yields a strictly increasing sequence. */
  lemma SortedDistinctIsStrict(v: seq<real>, r: seq<real>)
    requires Distinct(v) && Sorted(r) && multiset(r) == multiset(v)
    ensures StrictlyIncreasing(r)
  {
    forall i, j | 0 <= i < j < |r|
      ensures r[i] < r[j]
    {
      if r[i] == r[j] {
        TwoPositions(r, i, j);
        DistinctOccursOnce(v, r[i]);
        assert false;
      }
    }
  }

  /** Which side of a value an element is counted on. */
  datatype Side = Below | Above

  /** `y` lies strictly on the given side of `x`. */
  predicate OnSide(y: real, x: real, side: Side) {
    match side
    case Below => y < x
    case Above => y > x
  }

  /** Number of elements of `s` lying strictly on the given side of `x`. */
  function CountOn(s: seq<real>, x: real, side: Side): (n: nat)
    ensures n <= |s|
    ensures (forall k | 0 <= k < |s| :: !OnSide(s[k], x, side)) ==> n == 0
  {
    if |s| == 0 then 0
    else (if OnSide(s[0], x, side) then 1 else 0) + CountOn(s[1..], x, side)
  }

  lemma {:induction false} CountOnAppend(a: seq<real>, b: seq<real>, x: real, side: Side)
    ensures CountOn(a + b, x, side) == CountOn(a, x, side) + CountOn(b, x, side)
  {
    if |a| == 0 {
      assert a + b == b;
    } else {
      assert (a + b)[1..] == a[1..] + b;
      CountOnAppend(a[1..], b, x, side);
    }
  }

  /** Removing the element at `k` removes exactly one occurrence of it. */
  lemma RemoveAtMultiset(b: seq<real>, k: nat)
    requires k < |b|
    ensures multiset(b) == multiset(b[..k] + b[k+1..]) + multiset{b[k]}
  {
    assert b == b[..k] + [b[k]] + b[k+1..];
    calc {
      multiset(b);
      multiset(b[..k] + [b[k]] + b[k+1..]);
      multiset(b[..k]) + multiset([b[k]]) + multiset(b[k+1..]);
      multiset(b[..k]) + multiset(b[k+1..]) + multiset{b[k]};
      multiset(b[..k] + b[k+1..]) + multiset{b[k]};
    }
  }

  /** Removing the element at `k` lowers a count by one exactly when that element is counted. */
  lemma RemoveAtCount(b: seq<real>, k: nat, x: real, side: Side)
    requires k < |b|
    ensures CountOn(b, x, side) == CountOn(b[..k] + b[k+1..], x, side) + (if OnSide(b[k], x, side) then 1 else 0)
  {
    var tail := [b[k]] + b[k+1..];
    assert b == b[..k] + tail;
    CountOnAppend(b[..k], tail, x, side);
    assert tail[1..] == b[k+1..];
    CountOnAppend(b[..k], b[k+1..], x, side);
  }

  /** A count depends only on the multiset of the sequence, not on its order. */
  lemma {:induction false} CountOnPermutation(a: seq<real>, b: seq<real>, x: real, side: Side)
    requires multiset(a) == multiset(b)
    ensures CountOn(a, x, side) == CountOn(b, x, side)
  {
    if |a| == 0 {
      assert |multiset(b)| == 0;
    } else {
      assert a[0] in multiset(b);
      var k :| 0 <= k < |b| && b[k] == a[0];
      var rest := b[..k] + b[k+1..];
      RemoveAtMultiset(b, k);
      RemoveAtCount(b, k, x, side);
      assert a == [a[0]] + a[1..];
      assert multiset(a) == multiset(a[1..]) + multiset{a[0]};
      forall y
        ensures multiset(a[1..])[y] == multiset(rest)[y]
      {
        assert multiset(a)[y] == multiset(b)[y];
      }
      assert multiset(a[1..]) == multiset(rest);
      CountOnPermutation(a[1..], rest, x, side);
    }
  }

  /** Number of elements strictly below `x`. */
  function CountBelow(s: seq<real>, x: real): nat {
    CountOn(s, x, Below)
  }

  /** Number of elements strictly above `x`. */
  function CountAbove(s: seq<real>, x: real): nat {
    CountOn(s, x, Above)
  }

  lemma RankCountsPermutation(a: seq<real>, b: seq<real>, x: real)
    requires multiset(a) == multiset(b)
    ensures CountBelow(a, x) == CountBelow(b, x)
    ensures CountAbove(a, x) == CountAbove(b, x)
  {
    CountOnPermutation(a, b, x, Below);
    CountOnPermutation(a, b, x, Above);
  }

  /**
    If nothing from position `k` on is below `x`, at most `k` elements are
    below `x`; if nothing before `k` is above `x`, at most `|s| - k` are above.
   */
  lemma RankCountsSplit(s: seq<real>, k: nat, x: real)
    requires k <= |s|
    ensures (forall i | k <= i < |s| :: x <= s[i]) ==> CountBelow(s, x) <= k
    ensures (forall i | 0 <= i < k :: s[i] <= x) ==> CountAbove(s, x) <= |s| - k
  {
    assert s == s[..k] + s[k..];
    CountOnAppend(s[..k], s[k..], x, Below);
    CountOnAppend(s[..k], s[k..], x, Above);
  }
}
