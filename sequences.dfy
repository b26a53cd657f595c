/** Iterator idioms over sequences that several steps share. */
module Sequences {
  import opened Wrappers

  /** `iter().filter(keep).nth(0)`: the first element that passes `keep`. */
  function First<T>(xs: seq<T>, keep: T -> bool): (r: Option<T>)
    ensures r.Some? ==> r.value in xs && keep(r.value)
  {
    if xs == [] then None
    else if keep(xs[0]) then Some(xs[0])
    else First(xs[1..], keep)
  }

  /** `First` picks the element at the first index that passes. */
  lemma {:induction false} FirstIs<T>(xs: seq<T>, keep: T -> bool, i: nat)
    requires i < |xs| && keep(xs[i])
    requires forall j :: 0 <= j < i ==> !keep(xs[j])
    ensures First(xs, keep) == Some(xs[i])
  {
    if i > 0 {
      assert !keep(xs[0]);
      FirstIs(xs[1..], keep, i - 1);
    }
  }

  /** `First` finds nothing exactly when no element passes. */
  lemma {:induction false} FirstNone<T>(xs: seq<T>, keep: T -> bool)
    ensures First(xs, keep).None? <==> forall j :: 0 <= j < |xs| ==> !keep(xs[j])
  {
    if xs != [] {
      FirstNone(xs[1..], keep);
      assert forall j :: 1 <= j < |xs| ==> xs[j] == xs[1..][j - 1];
    }
  }

  /** Elements after the first that passes are never looked at. */
  lemma {:induction false} FirstPrefix<T>(xs: seq<T>, extra: seq<T>, keep: T -> bool)
    requires First(xs, keep).Some?
    ensures First(xs + extra, keep) == First(xs, keep)
  {
    assert (xs + extra)[0] == xs[0];
    if !keep(xs[0]) {
      assert (xs + extra)[1..] == xs[1..] + extra;
      FirstPrefix(xs[1..], extra, keep);
    }
  }

  /**
   * `filter_map`: the values `f` gives, in order, for the elements it does
   * not drop. Defined from the back, as a loop that pushes builds it.
   */
  function FilterMap<T, U>(xs: seq<T>, f: T -> Option<U>): seq<U>
  {
    if xs == [] then []
    else
      FilterMap(xs[..|xs| - 1], f) + match f(xs[|xs| - 1]) case Some(y) => [y] case None => []
  }

  /** What `FilterMap` keeps is exactly what `f` gives for some element. */
  lemma {:induction false} FilterMapMembers<T, U>(xs: seq<T>, f: T -> Option<U>, y: U)
    ensures y in FilterMap(xs, f) <==> exists i :: 0 <= i < |xs| && f(xs[i]) == Some(y)
  {
    if xs != [] {
      var n := |xs| - 1;
      FilterMapMembers(xs[..n], f, y);
      assert forall i :: 0 <= i < n ==> xs[..n][i] == xs[i];
    }
  }

  /** `FilterMap` keeps the order: it distributes over concatenation. */
  lemma {:induction false} FilterMapConcat<T, U>(a: seq<T>, b: seq<T>, f: T -> Option<U>)
    ensures FilterMap(a + b, f) == FilterMap(a, f) + FilterMap(b, f)
    decreases |b|
  {
    if b == [] {
      assert a + b == a;
    } else {
      assert (a + b)[..|a + b| - 1] == a + b[..|b| - 1];
      assert (a + b)[|a + b| - 1] == b[|b| - 1];
      FilterMapConcat(a, b[..|b| - 1], f);
    }
  }

  /** At most one value per element. */
  lemma {:induction false} FilterMapBound<T, U>(xs: seq<T>, f: T -> Option<U>)
    ensures |FilterMap(xs, f)| <= |xs|
  {
    if xs != [] {
      FilterMapBound(xs[..|xs| - 1], f);
    }
  }
}
