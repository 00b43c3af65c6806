/** The linear scans the feed screen performs over its local collections:
    `findIndex`/`find` (the first element matching a predicate) and
    `filter` (the order-preserving sub-sequence of matching elements). */
module RelationSet {
  import opened Wrappers

  /** Index of the first element satisfying `p`, as `Array.prototype.findIndex`
      (None where the source gets -1). */
  function FindFirst<T>(xs: seq<T>, p: T -> bool): (r: Option<nat>)
    ensures r.Some? ==> r.value < |xs| && p(xs[r.value])
    ensures r.Some? ==> forall j :: 0 <= j < r.value ==> !p(xs[j])
    ensures r.None? <==> forall j :: 0 <= j < |xs| ==> !p(xs[j])
  {
    if |xs| == 0 then None
    else if p(xs[0]) then Some(0)
    else match FindFirst(xs[1..], p)
      case None => None
      case Some(k) => Some(k + 1)
  }

  /** The elements of `xs` that satisfy `keep`, in their original order,
      as `Array.prototype.filter`. */
  function Filter<T>(xs: seq<T>, keep: T -> bool): (r: seq<T>)
    ensures |r| <= |xs|
    ensures forall i :: 0 <= i < |r| ==> r[i] in xs && keep(r[i])
    ensures forall j :: 0 <= j < |xs| && keep(xs[j]) ==> xs[j] in r
  {
    if |xs| == 0 then []
    else if keep(xs[0]) then [xs[0]] + Filter(xs[1..], keep)
    else Filter(xs[1..], keep)
  }

  /** Filtering distributes over concatenation: the kept elements keep
      their relative order. */
  lemma {:induction false} FilterAppend<T>(xs: seq<T>, ys: seq<T>, keep: T -> bool)
    ensures Filter(xs + ys, keep) == Filter(xs, keep) + Filter(ys, keep)
  {
    if |xs| == 0 {
      assert xs + ys == ys;
    } else {
      assert (xs + ys)[1..] == xs[1..] + ys;
      FilterAppend(xs[1..], ys, keep);
    }
  }

  /** Filtering keeps everything when every element is kept. */
  lemma {:induction false} FilterKeepsAll<T>(xs: seq<T>, keep: T -> bool)
    requires forall j :: 0 <= j < |xs| ==> keep(xs[j])
    ensures Filter(xs, keep) == xs
  {
    if |xs| > 0 {
      FilterKeepsAll(xs[1..], keep);
    }
  }

  /** Dropping every occurrence of one value removes exactly that value
      from the multiset of elements. */
  lemma {:induction false} FilterOutValue<T>(xs: seq<T>, v: T, keep: T -> bool)
    requires forall x :: keep(x) <==> x != v
    ensures multiset(Filter(xs, keep)) == multiset(xs)[v := 0]
  {
    if |xs| == 0 {
    } else {
      FilterOutValue(xs[1..], v, keep);
      assert xs == [xs[0]] + xs[1..];
    }
  }

  /** A sequence holds no value twice. */
  predicate NoDuplicates<T(==)>(xs: seq<T>) {
    forall i, j :: 0 <= i < j < |xs| ==> xs[i] != xs[j]
  }

  /** Filtering never introduces a duplicate. */
  lemma {:induction false} FilterNoDuplicates<T>(xs: seq<T>, keep: T -> bool)
    requires NoDuplicates(xs)
    ensures NoDuplicates(Filter(xs, keep))
  {
    if |xs| > 0 {
      FilterNoDuplicates(xs[1..], keep);
      var rest := Filter(xs[1..], keep);
      assert xs[0] !in xs[1..];
      assert xs[0] !in rest;
    }
  }
}
