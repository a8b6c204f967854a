/**
  The order-statistic engine of `src/stats_.rs`: randomized quicksort with the
  "hole" partition, and the median built on it.

  A mutable slice is modelled as a sequence that each operation takes and
  returns; the in-place writes of the Rust functions become sequence updates. Sample
  values are reals, so the order is total (no NaN). The random number generator is a
  caller-supplied stream of draws `rng`, read from position `k` on; every
  contract holds for every stream, as long as the nested calls of the sort
  fit on the stack (see `Quicksort`'s `depth`).
 */
module Stats {
  import opened Wrappers
  import opened Order

  /** The pivot index a random draw selects: the draw reduced modulo the length. */
  function PivotIndex(len: nat, draw: nat): (idx: nat)
    requires len > 0
    ensures idx < len
    ensures draw < len ==> idx == draw
  {
    draw % len
  }

  /** Swaps the element at the drawn index into slot 0. */
  function SelectPivot(v: seq<real>, draw: nat): (r: seq<real>)
    requires |v| > 0
    ensures |r| == |v|
    ensures r[0] == v[PivotIndex(|v|, draw)] && r[PivotIndex(|v|, draw)] == v[0]
    ensures forall k | 0 < k < |v| && k != PivotIndex(|v|, draw) :: r[k] == v[k]
    ensures multiset(r) == multiset(v)
  {
    var idx := PivotIndex(|v|, draw);
    v[0 := v[idx]][idx := v[0]]
  }

  /**
    Lomuto partition with a hole, around the element in slot 0. The pivot is
    copied out of slot 0 and the slot `j` is treated as a hole: each element
    below the pivot is written into the hole, the hole moves one to the right,
    and the element it lands on is copied back to where the small element was.
    The pivot finally fills the hole, whose index is returned.
   */
  method PartitionAtFront(s: seq<real>) returns (a: seq<real>, j: nat)
    requires |s| > 0
    ensures |a| == |s| && j < |a|
    ensures a[j] == s[0]
    ensures forall k | 0 <= k < j :: a[k] < a[j]
    ensures forall k | j < k < |a| :: a[j] <= a[k]
    ensures multiset(a) == multiset(s)
  {
    a := s;
    var pivot := a[0];
    var i := 0;
    j := 0;
    var end := |a| - 1;
    assert a[j := pivot] == s;
    while i < end
      invariant i <= end
      invariant HoleInvariant(a, s, pivot, i, j)
    {
      i := i + 1;
      if a[i] < pivot {
        ghost var before := a;
        a := a[j := a[i]];
        j := j + 1;
        a := a[i := a[j]];
        MoveIntoHole(before, s, pivot, i, j - 1, a);
      } else {
        SkipLarger(a, s, pivot, i, j);
      }
    }
    FillHole(a, s, pivot, j);
    a := a[j := pivot];
  }

  /**
    What the partition loop keeps after scanning up to `i` with the hole at
    `j`: everything before the hole is below the pivot, everything after it up
    to `i` is not, and putting the pivot into the hole gives back the
    multiset the loop started from.
   */
  ghost predicate HoleInvariant(a: seq<real>, s: seq<real>, pivot: real, i: nat, j: nat) {
    && |a| == |s| && j <= i < |a|
    && (forall k | 0 <= k < j :: a[k] < pivot)
    && (forall k | j < k <= i :: pivot <= a[k])
    && multiset(a[j := pivot]) == multiset(s)
  }

  /**
    The write-advance-copy step for an element below the pivot found at `i`
    keeps the invariant with the hole moved from `j` to `j + 1`.
   */
  lemma MoveIntoHole(a: seq<real>, s: seq<real>, pivot: real, i: nat, j: nat, c: seq<real>)
    requires 0 < i && HoleInvariant(a, s, pivot, i - 1, j)
    requires i < |a| && a[i] < pivot
    requires c == a[j := a[i]][i := a[j := a[i]][j + 1]]
    ensures HoleInvariant(c, s, pivot, i, j + 1)
  {
  }

  /** An element not below the pivot stays where it is, behind the hole. */
  lemma SkipLarger(a: seq<real>, s: seq<real>, pivot: real, i: nat, j: nat)
    requires 0 < i && HoleInvariant(a, s, pivot, i - 1, j)
    requires i < |a| && !(a[i] < pivot)
    ensures HoleInvariant(a, s, pivot, i, j)
  {
  }

  /** Writing the pivot into the final hole partitions the whole sequence around it. */
  lemma FillHole(a: seq<real>, s: seq<real>, pivot: real, j: nat)
    requires |a| > 0 && HoleInvariant(a, s, pivot, |a| - 1, j)
    ensures var r := a[j := pivot];
      && (forall k | 0 <= k < j :: r[k] < r[j])
      && (forall k | j < k < |r| :: r[j] <= r[k])
      && multiset(r) == multiset(s)
  {
  }

  /**
    `partition` of `src/stats_.rs`: swap a randomly drawn element to the front, then
    partition around it. Returns the pivot's final index.
   */
  method Partition(v: seq<real>, draw: nat) returns (a: seq<real>, j: nat)
    requires |v| > 0
    ensures |a| == |v| && j < |a|
    ensures a[j] == v[PivotIndex(|v|, draw)]
    ensures forall k | 0 <= k < j :: a[k] < a[j]
    ensures forall k | j < k < |a| :: a[j] <= a[k]
    ensures multiset(a) == multiset(v)
  {
    var front := SelectPivot(v, draw);
    a, j := PartitionAtFront(front);
  }

  /**
    Sorts `v` into non-decreasing order. Each partition consumes one draw of
    `rng`, starting at `k`; `used` is the position of the next unused draw.
    `depth` is the number of nested activations of the sort, this one
    included: the call stack the Rust `quicksort` needs for this run.
   */
  method Quicksort(v: seq<real>, rng: nat -> nat, k: nat) returns (r: seq<real>, used: nat, depth: nat)
    ensures Sorted(r)
    ensures multiset(r) == multiset(v) && |r| == |v|
    ensures r == SortSpec(v)
    ensures |v| <= 1 ==> r == v && used == k
    ensures Sorted(v) ==> r == v
    ensures Distinct(v) ==> StrictlyIncreasing(r)
    ensures DepthBounds(v, depth)
    decreases |v|
  {
    if |v| <= 1 {
      assert |multiset(v)| == |v|;
      return v, k, 1;
    }
    var a, p := Partition(v, rng(k));
    var left, k1, d1 := Quicksort(a[..p], rng, k + 1);
    var right, k2, d2 := Quicksort(a[p + 1..], rng, k1);
    r := left + [a[p]] + right;
    used := k2;
    depth := 1 + if d1 < d2 then d2 else d1;
    DepthStep(v, a, p, a[..p], a[p + 1..], d1, d2, depth);
    SortStep(v, a, p, left, right);
  }

  /**
    One partition step plus sorted sides gives a sorted permutation of the
    whole slice, which is therefore the reference sort of it.
   */
  lemma SortStep(v: seq<real>, a: seq<real>, p: nat, left: seq<real>, right: seq<real>)
    requires p < |a| && multiset(a) == multiset(v)
    requires forall k | 0 <= k < p :: a[k] < a[p]
    requires forall k | p < k < |a| :: a[p] <= a[k]
    requires Sorted(left) && multiset(left) == multiset(a[..p])
    requires Sorted(right) && multiset(right) == multiset(a[p + 1..])
    ensures var r := left + [a[p]] + right;
      && Sorted(r) && multiset(r) == multiset(v) && |r| == |v|
      && r == SortSpec(v)
      && (Sorted(v) ==> r == v)
      && (Distinct(v) ==> StrictlyIncreasing(r))
  {
    var r := left + [a[p]] + right;
    JoinAroundPivot(a, p, left, right);
    assert |r| == |multiset(r)| == |multiset(v)| == |v|;
    SortedPermutationIsSortSpec(v, r);
    if Sorted(v) {
      SortedPermutationUnique(r, v);
    }
    if Distinct(v) {
      SortedDistinctIsStrict(v, r);
    }
  }

  /**
    What the nesting depth of a sort of `v` satisfies: one activation for at
    most one element, otherwise between 2 and `|v|`; exactly `|v|` when all
    values are equal; and never fewer than the number of copies of any value.
   */
  ghost predicate DepthBounds(v: seq<real>, depth: nat) {
    && 1 <= depth
    && (|v| <= 1 ==> depth == 1)
    && (|v| > 1 ==> 2 <= depth <= |v|)
    && (|v| > 0 && AllEqual(v) ==> depth == |v|)
    && (forall x :: Copies(v, x) <= depth)
  }

  /** One partition step plus the depths of both sides gives the depth of the whole slice. */
  lemma DepthStep(v: seq<real>, a: seq<real>, p: nat, lo: seq<real>, hi: seq<real>, d1: nat, d2: nat, depth: nat)
    requires |v| > 1 && |a| == |v| && p < |a| && multiset(a) == multiset(v)
    requires forall k | 0 <= k < p :: a[k] < a[p]
    requires forall k | p < k < |a| :: a[p] <= a[k]
    requires lo == a[..p] && hi == a[p + 1..]
    requires DepthBounds(lo, d1) && DepthBounds(hi, d2)
    requires depth == 1 + if d1 < d2 then d2 else d1
    ensures DepthBounds(v, depth)
  {
    if AllEqual(v) {
      AllEqualPermutation(v, a);
      PartitionOfEqualValues(a, p);
    }
    DepthCoversCopies(v, a, p, lo, hi, d1, d2, depth);
  }

  /**
    In a slice of equal values nothing is below the pivot, so the partition
    leaves it in slot 0 and the right side holds all the other values.
   */
  lemma PartitionOfEqualValues(a: seq<real>, p: nat)
    requires p < |a| && AllEqual(a)
    requires forall k | 0 <= k < p :: a[k] < a[p]
    ensures p == 0 && AllEqual(a[p + 1..])
  {
    assert a[0] == a[p];
  }

  /**
    The copies of a value never straddle the pivot: a value below it has all
    its copies on the left, and any other value has none there, so at most one
    copy (the pivot itself) is outside the right side.
   */
  lemma CopiesOnOneSide(a: seq<real>, p: nat, x: real)
    requires p < |a|
    requires forall k | 0 <= k < p :: a[k] < a[p]
    requires forall k | p < k < |a| :: a[p] <= a[k]
    ensures multiset(a)[x] <= if x < a[p] then multiset(a[..p])[x] else 1 + multiset(a[p + 1..])[x]
  {
    assert a == a[..p] + [a[p]] + a[p + 1..];
    if x < a[p] {
      assert x !in a[p + 1..];
    } else {
      assert x !in a[..p];
    }
  }

  /**
    If each side's depth covers the copies of every value on that side, one
    more activation covers the copies of every value of the whole slice.
   */
  lemma DepthCoversCopies(v: seq<real>, a: seq<real>, p: nat, lo: seq<real>, hi: seq<real>, d1: nat, d2: nat, depth: nat)
    requires p < |a| && multiset(a) == multiset(v)
    requires forall k | 0 <= k < p :: a[k] < a[p]
    requires forall k | p < k < |a| :: a[p] <= a[k]
    requires lo == a[..p] && hi == a[p + 1..]
    requires forall x :: Copies(lo, x) <= d1
    requires forall x :: Copies(hi, x) <= d2
    requires d1 < depth && d2 < depth
    ensures forall x :: Copies(v, x) <= depth
  {
    forall x
      ensures Copies(v, x) <= depth
    {
      CopiesOnOneSide(a, p, x);
      assert Copies(v, x) == multiset(a)[x];
      assert Copies(lo, x) <= d1 && Copies(hi, x) <= d2;
    }
  }

  /**
    After partitioning `a` around index `p`, sorting each side in place and
    putting the pivot back between them yields a sorted permutation of `a`.
   */
  lemma JoinAroundPivot(a: seq<real>, p: nat, left: seq<real>, right: seq<real>)
    requires p < |a|
    requires forall k | 0 <= k < p :: a[k] < a[p]
    requires forall k | p < k < |a| :: a[p] <= a[k]
    requires Sorted(left) && multiset(left) == multiset(a[..p])
    requires Sorted(right) && multiset(right) == multiset(a[p + 1..])
    ensures Sorted(left + [a[p]] + right)
    ensures multiset(left + [a[p]] + right) == multiset(a)
  {
    assert a == a[..p] + [a[p]] + a[p + 1..];
    forall x | x in left
      ensures x < a[p]
    {
      assert x in multiset(a[..p]);
    }
    forall x | x in right
      ensures a[p] <= x
    {
      assert x in multiset(a[p + 1..]);
    }
    SortedAround(left, a[p], right);
  }

  /** Two sorted runs separated by a pivot that bounds them form a sorted sequence. */
  lemma SortedAround(left: seq<real>, pivot: real, right: seq<real>)
    requires Sorted(left) && Sorted(right)
    requires forall x | x in left :: x < pivot
    requires forall x | x in right :: pivot <= x
    ensures Sorted(left + [pivot] + right)
  {
    var s := left + [pivot] + right;
    forall i, j | 0 <= i < j < |s|
      ensures s[i] <= s[j]
    {
      if j < |left| {
        assert s[i] == left[i] && s[j] == left[j];
      } else if i < |left| {
        assert s[i] == left[i] && left[i] in left;
        if j > |left| {
          assert s[j] == right[j - |left| - 1] && right[j - |left| - 1] in right;
        }
      } else if i == |left| {
        assert s[j] == right[j - |left| - 1] && right[j - |left| - 1] in right;
      } else {
        assert s[i] == right[i - |left| - 1] && s[j] == right[j - |left| - 1];
      }
    }
  }

  /**
    The middle of a sorted working copy: the element at `len / 2` for an odd
    length, the mean of the elements at `len / 2 - 1` and `len / 2` otherwise.
   */
  function MiddleOf(s: seq<real>): (m: real)
    requires |s| > 0
    ensures Sorted(s) ==> s[0] <= m <= s[|s| - 1]
  {
    var mid := |s| / 2;
    if |s| % 2 == 1 then s[mid] else (s[mid] + s[mid - 1]) / 2.0
  }

  /**
    The middle of a sorted sequence is a median: at most half of the values lie
    strictly below it and at most half strictly above it.
   */
  lemma MiddleIsMedian(s: seq<real>)
    requires |s| > 0 && Sorted(s)
    ensures CountBelow(s, MiddleOf(s)) <= |s| / 2
    ensures CountAbove(s, MiddleOf(s)) <= |s| / 2
  {
    var mid := |s| / 2;
    var m := MiddleOf(s);
    if |s| % 2 == 1 {
      RankCountsSplit(s, mid, m);
      RankCountsSplit(s, mid + 1, m);
    } else {
      assert s[mid - 1] <= m <= s[mid];
      RankCountsSplit(s, mid, m);
    }
  }

  /**
    What `median` promises for a non-empty sample `v` and its result `m`: `m`
    is the middle of every sorted permutation of `v` (so it does not depend on
    how `v` was sorted); at most half of the values lie strictly below it and
    at most half strictly above; it is one of the values when the length is
    odd; and it lies between two of the values.
   */
  ghost predicate IsMedian(v: seq<real>, m: real) {
    && |v| > 0
    && (forall s | |s| == |v| && Sorted(s) && multiset(s) == multiset(v) :: m == MiddleOf(s))
    && CountBelow(v, m) <= |v| / 2 && CountAbove(v, m) <= |v| / 2
    && (|v| % 2 == 1 ==> m in v)
    && (exists i, j | 0 <= i < |v| && 0 <= j < |v| :: v[i] <= m <= v[j])
  }

  /** The middle of any sorted permutation of a non-empty sample is a median of the sample. */
  lemma MiddleOfSortedCopy(v: seq<real>, s: seq<real>)
    requires |v| > 0 && |s| == |v| && Sorted(s) && multiset(s) == multiset(v)
    ensures IsMedian(v, MiddleOf(s))
  {
    forall t | |t| == |v| && Sorted(t) && multiset(t) == multiset(v)
      ensures MiddleOf(s) == MiddleOf(t)
    {
      SortedPermutationUnique(t, s);
    }
    MiddleIsMedian(s);
    RankCountsPermutation(s, v, MiddleOf(s));
    assert s[|s| / 2] in multiset(v);
    assert s[0] in multiset(v);
    assert s[|s| - 1] in multiset(v);
  }

  /**
    Median of a sample. The sample is sorted in a private working copy; an
    empty sample, on which `median`'s `assert!` fails, gives `None`.
    The result is the middle of every sorted permutation of the sample, so it
    does not depend on the random draws (in particular it is
    `MiddleOf(SortSpec(v))`, see `MedianIsReference`).
   */
  method Median(v: seq<real>, rng: nat -> nat, k: nat) returns (r: Option<real>)
    ensures r.None? <==> |v| == 0
    ensures r.Some? ==> IsMedian(v, r.value)
  {
    if |v| == 0 {
      return None;
    }
    var scratch, _, _ := Quicksort(v, rng, k);
    MiddleOfSortedCopy(v, scratch);
    r := Some(MiddleOf(scratch));
  }

  /**
    The median's contract pins down the reference value: any value that is the
    middle of every sorted permutation of a non-empty sample is the middle of
    its reference sort.
   */
  lemma MedianIsReference(v: seq<real>, m: real)
    requires IsMedian(v, m)
    ensures m == MiddleOf(SortSpec(v))
  {
    SortSpecSorted(v);
  }
}
