/**
  The frequency-based mode of `src/univariate_.rs`, over a sample of any type
  with equality (the Rust crate asks for `Hash + Eq`; hashing is not modelled).
 */
module Univariate {
  import opened Wrappers

  /** Number of occurrences of `x` in `v`. */
  function Occurrences<T(==)>(v: seq<T>, x: T): nat {
    multiset(v)[x]
  }

  /** `x` is a mode of `v`: it occurs in `v` and no value occurs more often. */
  predicate IsMode<T(==)>(v: seq<T>, x: T) {
    x in v && forall y | y in v :: Occurrences(v, y) <= Occurrences(v, x)
  }

  /**
    The counting loop: one pass over the sample, inserting each value with
    count 0 the first time it is seen and incrementing its count.
   */
  method Frequencies<T(==)>(v: seq<T>) returns (counter: map<T, nat>)
    ensures counter.Keys == set x | x in v
    ensures forall x | x in counter :: counter[x] == Occurrences(v, x)
  {
    counter := map[];
    var i := 0;
    while i < |v|
      invariant 0 <= i <= |v|
      invariant counter.Keys == set x | x in v[..i]
      invariant forall x | x in counter :: counter[x] == multiset(v[..i])[x]
    {
      var x := v[i];
      var count := if x in counter then counter[x] else 0;
      assert v[..i + 1] == v[..i] + [x];
      counter := counter[x := count + 1];
      i := i + 1;
    }
    assert v[..i] == v;
  }

  /**
    Drains the frequency table and keeps an entry of largest count. The drain
    order is arbitrary, so the next key is chosen nondeterministically; like
    `max_by_key`, a later entry with an equal count replaces the current one.
   */
  method MaxByCount<T(==)>(counter: map<T, nat>) returns (r: Option<T>)
    ensures r.None? <==> counter.Keys == {}
    ensures r.Some? ==> r.value in counter
    ensures r.Some? ==> forall x | x in counter :: counter[x] <= counter[r.value]
  {
    r := None;
    var best := 0;
    var rest := counter.Keys;
    while rest != {}
      invariant rest <= counter.Keys
      invariant r.None? <==> rest == counter.Keys
      invariant r.Some? ==> r.value in counter && best == counter[r.value]
      invariant forall x | x in counter.Keys - rest :: counter[x] <= best
      decreases rest
    {
      var x :| x in rest;
      if r.None? || counter[x] >= best {
        r := Some(x);
        best := counter[x];
      }
      rest := rest - {x};
    }
  }

  /**
    Mode of a sample: `None` exactly for the empty sample, otherwise a value
    of maximal count. Which of several equally frequent values is returned is
    not specified.
   */
  method Mode<T(==)>(v: seq<T>) returns (r: Option<T>)
    ensures r.None? <==> |v| == 0
    ensures r.Some? ==> IsMode(v, r.value)
  {
    var counter := Frequencies(v);
    if |v| > 0 {
      assert v[0] in counter.Keys;
    }
    r := MaxByCount(counter);
  }

  /** All modes of a sample occur equally often: the unspecified tie-break only chooses among them. */
  lemma ModesShareCount<T>(v: seq<T>, x: T, y: T)
    requires IsMode(v, x) && IsMode(v, y)
    ensures Occurrences(v, x) == Occurrences(v, y)
  {
  }
}
