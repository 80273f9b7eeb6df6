/**
 The "map, skipping failures" loop shape: walk a sequence left to right, turn
 each element into an optional value, and keep the values in order. Both
 loops of the outline parser (one over fragments, one over body lines) have
 this shape.
 */
module FilterMaps {

  datatype Option<+T> = None | Some(value: T)

  /** Number of elements of `xs` that satisfy `p`. */
  function CountWhere<A>(xs: seq<A>, p: A -> bool): nat {
    if |xs| == 0 then 0 else (if p(xs[0]) then 1 else 0) + CountWhere(xs[1..], p)
  }

  /** Apply `f` to each element of `xs` in order, keep what it produces and
      skip the elements it maps to `None`. */
  function FilterMap<A, B>(xs: seq<A>, f: A -> Option<B>): (r: seq<B>)
    ensures |r| <= |xs|
    ensures forall k :: 0 <= k < |r| ==> exists i :: 0 <= i < |xs| && f(xs[i]) == Some(r[k])
  {
    if |xs| == 0 then []
    else
      var rest := FilterMap(xs[1..], f);
      assert forall i :: 0 <= i < |xs[1..]| ==> xs[1..][i] == xs[i + 1];
      match f(xs[0])
      case Some(y) => [y] + rest
      case None => rest
  }

  /** Counting is additive over concatenation. */
  lemma {:induction false} CountWhereConcat<A>(a: seq<A>, b: seq<A>, p: A -> bool)
    ensures CountWhere(a + b, p) == CountWhere(a, p) + CountWhere(b, p)
    decreases |a|
  {
    if |a| > 0 {
      assert (a + b)[1..] == a[1..] + b;
      CountWhereConcat(a[1..], b, p);
    } else {
      assert a + b == b;
    }
  }

  /** Every element satisfies exactly one of a predicate and its negation. */
  lemma {:induction false} CountWhereComplement<A>(xs: seq<A>, p: A -> bool, q: A -> bool)
    requires forall x :: q(x) == !p(x)
    ensures CountWhere(xs, p) + CountWhere(xs, q) == |xs|
    decreases |xs|
  {
    if |xs| > 0 {
      CountWhereComplement(xs[1..], p, q);
    }
  }

  /** Filter-mapping is done piece by piece. */
  lemma {:induction false} FilterMapConcat<A, B>(a: seq<A>, b: seq<A>, f: A -> Option<B>)
    ensures FilterMap(a + b, f) == FilterMap(a, f) + FilterMap(b, f)
    decreases |a|
  {
    if |a| > 0 {
      assert (a + b)[1..] == a[1..] + b;
      assert (a + b)[0] == a[0];
      FilterMapConcat(a[1..], b, f);
    } else {
      assert a + b == b;
    }
  }

  /** One output per element that `f` keeps: when `p` says which elements
      `f` keeps, the output is as long as the number of those elements. */
  lemma {:induction false} FilterMapCount<A, B>(xs: seq<A>, f: A -> Option<B>, p: A -> bool)
    requires forall x :: f(x).Some? == p(x)
    ensures |FilterMap(xs, f)| == CountWhere(xs, p)
    decreases |xs|
  {
    if |xs| > 0 {
      FilterMapCount(xs[1..], f, p);
    }
  }

  /** Order is kept: the value produced for a kept element `xs[i]` sits at the
      position given by the number of kept elements before it. */
  lemma FilterMapOrder<A, B>(xs: seq<A>, f: A -> Option<B>, p: A -> bool, i: int)
    requires forall x :: f(x).Some? == p(x)
    requires 0 <= i < |xs| && p(xs[i])
    ensures var r := FilterMap(xs, f);
      CountWhere(xs[..i], p) < |r| && r[CountWhere(xs[..i], p)] == f(xs[i]).value
  {
    var tail := [xs[i]] + xs[i + 1..];
    assert xs == xs[..i] + tail;
    FilterMapConcat(xs[..i], tail, f);
    FilterMapCount(xs[..i], f, p);
    assert tail[1..] == xs[i + 1..];
    assert FilterMap(tail, f) == [f(xs[i]).value] + FilterMap(xs[i + 1..], f);
  }

  /** Nothing is produced exactly when `f` rejects every element. */
  lemma {:induction false} FilterMapEmpty<A, B>(xs: seq<A>, f: A -> Option<B>)
    ensures FilterMap(xs, f) == [] <==> forall i :: 0 <= i < |xs| ==> f(xs[i]).None?
    decreases |xs|
  {
    if |xs| > 0 {
      FilterMapEmpty(xs[1..], f);
      assert forall i :: 1 <= i < |xs| ==> xs[i] == xs[1..][i - 1];
    }
  }
}
