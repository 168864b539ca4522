/**
 * A loop that maps each row to an optional result, keeps the results that
 * exist in input order, and counts the rows it skips. The row-level step
 * is a parameter, so these facts hold for any such loop.
 */
module Filtering {
  import opened Optional

  /** The results kept from xs, in input order. */
  function Kept<T, U>(xs: seq<T>, f: T -> Option<U>): seq<U>
    decreases |xs|
  {
    if xs == [] then []
    else Kept(xs[..|xs| - 1], f) + match f(xs[|xs| - 1]) case None => [] case Some(y) => [y]
  }

  /** How many rows were skipped. */
  function Dropped<T, U>(xs: seq<T>, f: T -> Option<U>): nat
    decreases |xs|
  {
    if xs == [] then 0
    else Dropped(xs[..|xs| - 1], f) + if f(xs[|xs| - 1]).None? then 1 else 0
  }

  /** The input positions of the kept results. */
  function KeptAt<T, U>(xs: seq<T>, f: T -> Option<U>): seq<nat>
    decreases |xs|
  {
    if xs == [] then []
    else KeptAt(xs[..|xs| - 1], f) + if f(xs[|xs| - 1]).Some? then [|xs| - 1] else []
  }

  /** The results of a loop that keeps every row's result. */
  function Mapped<T, U>(xs: seq<T>, f: T -> U): seq<U>
    decreases |xs|
  {
    if xs == [] then [] else Mapped(xs[..|xs| - 1], f) + [f(xs[|xs| - 1])]
  }

  /** One more row: its result is appended. */
  lemma MappedStep<T, U>(xs: seq<T>, i: nat, f: T -> U)
    requires i < |xs|
    ensures Mapped(xs[..i + 1], f) == Mapped(xs[..i], f) + [f(xs[i])]
  {
    assert xs[..i + 1][..i] == xs[..i];
  }

  /** The k-th result is the step's result for the k-th row. */
  lemma {:induction false} MappedAt<T, U>(xs: seq<T>, f: T -> U)
    ensures |Mapped(xs, f)| == |xs|
    ensures forall k :: 0 <= k < |xs| ==> Mapped(xs, f)[k] == f(xs[k])
    decreases |xs|
  {
    if xs != [] {
      var init := xs[..|xs| - 1];
      MappedAt(init, f);
      assert forall k :: 0 <= k < |init| ==> xs[k] == init[k];
    }
  }

  /** One more row: its result, if any, is appended; otherwise the skip count grows. */
  lemma KeptStep<T, U>(xs: seq<T>, i: nat, f: T -> Option<U>)
    requires i < |xs|
    ensures Kept(xs[..i + 1], f) == Kept(xs[..i], f) + match f(xs[i]) case None => [] case Some(y) => [y]
    ensures Dropped(xs[..i + 1], f) == Dropped(xs[..i], f) + if f(xs[i]).None? then 1 else 0
  {
    assert xs[..i + 1][..i] == xs[..i];
  }

  /** Every row is kept or counted as skipped, never both. */
  lemma {:induction false} KeptCount<T, U>(xs: seq<T>, f: T -> Option<U>)
    ensures |Kept(xs, f)| + Dropped(xs, f) == |xs|
    decreases |xs|
  {
    if xs != [] {
      KeptCount(xs[..|xs| - 1], f);
    }
  }

  /** Kept positions lie inside xs and increase strictly: the results keep the rows' order. */
  lemma {:induction false} KeptAtIncreasing<T, U>(xs: seq<T>, f: T -> Option<U>)
    ensures forall k :: 0 <= k < |KeptAt(xs, f)| ==> KeptAt(xs, f)[k] < |xs|
    ensures forall k, l :: 0 <= k < l < |KeptAt(xs, f)| ==> KeptAt(xs, f)[k] < KeptAt(xs, f)[l]
    decreases |xs|
  {
    if xs != [] {
      KeptAtIncreasing(xs[..|xs| - 1], f);
    }
  }

  /** The k-th kept result is the step's result for the row at the k-th kept position. */
  lemma {:induction false} KeptAtSource<T, U>(xs: seq<T>, f: T -> Option<U>)
    ensures |KeptAt(xs, f)| == |Kept(xs, f)|
    ensures forall k :: 0 <= k < |KeptAt(xs, f)| ==>
              KeptAt(xs, f)[k] < |xs| && f(xs[KeptAt(xs, f)[k]]) == Some(Kept(xs, f)[k])
    decreases |xs|
  {
    if xs != [] {
      var init := xs[..|xs| - 1];
      KeptAtSource(init, f);
      var ks, ys := KeptAt(init, f), Kept(init, f);
      assert forall k :: 0 <= k < |ks| ==> xs[ks[k]] == init[ks[k]];
      match f(xs[|xs| - 1])
      case None =>
        assert KeptAt(xs, f) == ks && Kept(xs, f) == ys;
      case Some(y) =>
        assert KeptAt(xs, f) == ks + [|xs| - 1] && Kept(xs, f) == ys + [y];
    }
  }

  /** A row is kept if and only if the step has a result for it. */
  lemma {:induction false} KeptAtExactly<T, U>(xs: seq<T>, f: T -> Option<U>)
    ensures forall i :: 0 <= i < |xs| ==> (f(xs[i]).Some? <==> i in KeptAt(xs, f))
    decreases |xs|
  {
    if xs != [] {
      var init := xs[..|xs| - 1];
      KeptAtExactly(init, f);
      KeptAtIncreasing(init, f);
      forall i | 0 <= i < |xs| ensures f(xs[i]).Some? <==> i in KeptAt(xs, f) {
        if i < |init| {
          assert xs[i] == init[i];
        }
      }
    }
  }

  /** Every kept result is the step's result for some row. */
  lemma KeptFromSomeRow<T, U>(xs: seq<T>, f: T -> Option<U>, y: U)
    requires y in Kept(xs, f)
    ensures exists i :: 0 <= i < |xs| && f(xs[i]) == Some(y)
  {
    KeptAtSource(xs, f);
    var k :| 0 <= k < |Kept(xs, f)| && Kept(xs, f)[k] == y;
    assert f(xs[KeptAt(xs, f)[k]]) == Some(y);
  }
}
