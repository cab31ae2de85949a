/**
 Mapping a partial function over a sequence and keeping the defined results,
 in order, together with the positions they come from.
 */
module Partial {
  import opened Wrappers

  /** The defined results of `f` over `xs`, in the order of `xs`. */
  function FilterMap<T, U>(f: T -> Option<U>, xs: seq<T>): (ys: seq<U>)
    ensures |ys| <= |xs|
  {
    if |xs| == 0 then []
    else
      var prev := FilterMap(f, xs[..|xs| - 1]);
      match f(xs[|xs| - 1])
      case None => prev
      case Some(y) => prev + [y]
  }

  /** The positions of `xs` where `f` is defined, in ascending order. */
  function Defined<T, U>(f: T -> Option<U>, xs: seq<T>): (idx: seq<nat>)
    ensures forall k :: 0 <= k < |idx| ==> idx[k] < |xs|
  {
    if |xs| == 0 then []
    else
      var prev := Defined(f, xs[..|xs| - 1]);
      if f(xs[|xs| - 1]).Some? then prev + [|xs| - 1] else prev
  }

  lemma FilterMapPair<T, U>(f: T -> Option<U>, a: T, b: T, x: U, y: U)
    requires f(a) == Some(x) && f(b) == Some(y)
    ensures FilterMap(f, [a, b]) == [x, y]
  {
    assert [a, b][..1] == [a] && [a][..0] == [];
  }

  lemma {:induction false} FilterMapAppend<T, U>(f: T -> Option<U>, a: seq<T>, b: seq<T>)
    ensures FilterMap(f, a + b) == FilterMap(f, a) + FilterMap(f, b)
  {
    if |b| == 0 {
      assert a + b == a;
    } else {
      var b' := b[..|b| - 1];
      assert (a + b)[..|a + b| - 1] == a + b';
      assert (a + b)[|a + b| - 1] == b[|b| - 1];
      FilterMapAppend(f, a, b');
    }
  }

  predicate Ascending(s: seq<nat>) {
    forall k, m :: 0 <= k < m < |s| ==> s[k] < s[m]
  }

  /** The positions are strictly ascending. */
  lemma {:induction false} DefinedAscending<T, U>(f: T -> Option<U>, xs: seq<T>)
    ensures Ascending(Defined(f, xs))
  {
    if |xs| > 0 {
      var n := |xs| - 1;
      var prev := Defined(f, xs[..n]);
      DefinedAscending(f, xs[..n]);
      if f(xs[n]).Some? {
        var idx := prev + [n];
        assert Defined(f, xs) == idx;
        forall k, m | 0 <= k < m < |idx| ensures idx[k] < idx[m] {
          assert idx[k] == prev[k] && prev[k] < |xs[..n]|;
          if m < |prev| { assert idx[m] == prev[m] && prev[k] < prev[m]; }
        }
      }
    }
  }

  /** A position is listed exactly when `f` is defined there. */
  lemma {:induction false} DefinedExactly<T, U>(f: T -> Option<U>, xs: seq<T>, i: int)
    requires 0 <= i < |xs|
    ensures i in Defined(f, xs) <==> f(xs[i]).Some?
  {
    var n := |xs| - 1;
    var init := xs[..n];
    var prev := Defined(f, init);
    if i < n {
      assert init[i] == xs[i];
      DefinedExactly(f, init, i);
      assert i in prev + [n] <==> i in prev;
    } else {
      assert forall k :: 0 <= k < |prev| ==> prev[k] < n;
      if f(xs[n]).Some? {
        assert (prev + [n])[|prev|] == n;
      }
    }
  }

  /** The k-th result is the value of `f` at the k-th defined position. */
  lemma {:induction false} FilterMapProvenance<T, U>(f: T -> Option<U>, xs: seq<T>)
    ensures |Defined(f, xs)| == |FilterMap(f, xs)|
    ensures forall k :: 0 <= k < |Defined(f, xs)| ==>
      f(xs[Defined(f, xs)[k]]) == Some(FilterMap(f, xs)[k])
  {
    if |xs| > 0 {
      var n := |xs| - 1;
      var init := xs[..n];
      FilterMapProvenance(f, init);
      var prev, prevYs := Defined(f, init), FilterMap(f, init);
      var idx, ys := Defined(f, xs), FilterMap(f, xs);
      forall k | 0 <= k < |idx|
        ensures f(xs[idx[k]]) == Some(ys[k])
      {
        if k < |prev| {
          assert idx[k] == prev[k] && ys[k] == prevYs[k];
          assert init[prev[k]] == xs[prev[k]];
        }
      }
    }
  }
}
