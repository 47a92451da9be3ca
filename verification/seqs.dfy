/** Sequence helpers the record-store layer is written with: Swift's `flatMap` over an
    Optional-returning closure and `filter`, with the order they keep made explicit. */
module Seqs {
  import opened Options

  /** No element occurs twice. */
  ghost predicate Distinct<T>(xs: seq<T>) {
    forall i, j :: 0 <= i < j < |xs| ==> xs[i] != xs[j]
  }

  /** `xs.flatMap(f)` with `f` returning an Optional: the present results, in the order of `xs`. */
  function FlatMap<A, B>(xs: seq<A>, f: A -> Option<B>): (r: seq<B>)
    ensures |r| <= |xs|
    ensures forall y :: y in r ==> exists i :: 0 <= i < |xs| && f(xs[i]) == Some(y)
    ensures forall i :: 0 <= i < |xs| && f(xs[i]).Some? ==> f(xs[i]).value in r
  {
    if |xs| == 0 then []
    else
      var rest := FlatMap(xs[1..], f);
      assert forall j :: 0 <= j < |rest| ==> exists i :: 1 <= i < |xs| && f(xs[i]) == Some(rest[j]) by {
        forall j | 0 <= j < |rest|
          ensures exists i :: 1 <= i < |xs| && f(xs[i]) == Some(rest[j])
        {
          var i' :| 0 <= i' < |xs[1..]| && f(xs[1..][i']) == Some(rest[j]);
          assert f(xs[i' + 1]) == Some(rest[j]);
        }
      }
      assert forall i :: 1 <= i < |xs| && f(xs[i]).Some? ==> f(xs[i]).value in rest by {
        forall i | 1 <= i < |xs| && f(xs[i]).Some?
          ensures f(xs[i]).value in rest
        {
          assert xs[1..][i - 1] == xs[i];
        }
      }
      match f(xs[0])
      case Some(y) =>
        var r := [y] + rest;
        assert forall j :: 1 <= j < |r| ==> r[j] == rest[j - 1];
        r
      case None => rest
  }

  /** The positions `p` with `lo <= p < |xs|` at which `f` yields a value, in increasing order. */
  function SomePositionsFrom<A, B>(xs: seq<A>, f: A -> Option<B>, lo: nat): (ps: seq<nat>)
    requires lo <= |xs|
    ensures forall p :: p in ps <==> lo <= p < |xs| && f(xs[p]).Some?
    ensures forall j :: 0 <= j < |ps| ==> lo <= ps[j] < |xs|
    ensures forall j, k :: 0 <= j < k < |ps| ==> ps[j] < ps[k]
    decreases |xs| - lo
  {
    if lo == |xs| then []
    else if f(xs[lo]).Some? then [lo] + SomePositionsFrom(xs, f, lo + 1)
    else SomePositionsFrom(xs, f, lo + 1)
  }

  /** The positions of `xs` at which `f` yields a value, in increasing order. */
  function SomePositions<A, B>(xs: seq<A>, f: A -> Option<B>): (ps: seq<nat>)
    ensures forall p :: p in ps <==> 0 <= p < |xs| && f(xs[p]).Some?
    ensures forall j :: 0 <= j < |ps| ==> ps[j] < |xs|
    ensures forall j, k :: 0 <= j < k < |ps| ==> ps[j] < ps[k]
  {
    SomePositionsFrom(xs, f, 0)
  }

  /** The present values of an optional, as a sequence of length at most one. */
  function Present<T>(o: Option<T>): (r: seq<T>)
    ensures o.None? <==> r == []
    ensures o.Some? ==> r == [o.value]
  {
    if o.Some? then [o.value] else []
  }

  /** One step of `flatMap`: the first element's result, then the rest's. */
  lemma FlatMapCons<A, B>(xs: seq<A>, f: A -> Option<B>)
    requires |xs| > 0
    ensures FlatMap(xs, f) == Present(f(xs[0])) + FlatMap(xs[1..], f)
  {
    match f(xs[0])
    case Some(y) => assert FlatMap(xs, f) == [y] + FlatMap(xs[1..], f);
    case None => assert FlatMap(xs, f) == FlatMap(xs[1..], f);
  }

  lemma {:induction false} FlatMapFromPositions<A, B>(xs: seq<A>, f: A -> Option<B>, lo: nat)
    requires lo <= |xs|
    ensures |FlatMap(xs[lo..], f)| == |SomePositionsFrom(xs, f, lo)|
    ensures forall j :: 0 <= j < |FlatMap(xs[lo..], f)| ==>
      f(xs[SomePositionsFrom(xs, f, lo)[j]]) == Some(FlatMap(xs[lo..], f)[j])
    decreases |xs| - lo
  {
    if lo < |xs| {
      FlatMapFromPositions(xs, f, lo + 1);
      var ys, rest, ps := xs[lo..], FlatMap(xs[lo + 1..], f), SomePositionsFrom(xs, f, lo + 1);
      assert ys[1..] == xs[lo + 1..] && ys[0] == xs[lo];
      FlatMapCons(ys, f);
      if f(xs[lo]).Some? {
        assert SomePositionsFrom(xs, f, lo) == [lo] + ps;
        assert FlatMap(ys, f) == [f(xs[lo]).value] + rest;
        ConsPosition(xs, f, lo, rest, ps);
      } else {
        assert SomePositionsFrom(xs, f, lo) == ps;
        assert FlatMap(ys, f) == rest;
      }
    }
  }

  /** The step of the induction above when `f` succeeds at `lo`: prefixing `lo` to the
      positions and `f`'s value there to the results keeps them paired. */
  lemma ConsPosition<A, B>(xs: seq<A>, f: A -> Option<B>, lo: nat, rest: seq<B>, ps: seq<nat>)
    requires lo < |xs| && f(xs[lo]).Some?
    requires |rest| == |ps|
    requires forall j :: 0 <= j < |ps| ==> ps[j] < |xs| && f(xs[ps[j]]) == Some(rest[j])
    ensures forall j :: 0 <= j < |ps| + 1 ==>
      ([lo] + ps)[j] < |xs| && f(xs[([lo] + ps)[j]]) == Some(([f(xs[lo]).value] + rest)[j])
  {
    forall j | 0 <= j < |ps| + 1
      ensures ([lo] + ps)[j] < |xs| && f(xs[([lo] + ps)[j]]) == Some(([f(xs[lo]).value] + rest)[j])
    {
      if j > 0 {
        assert ([lo] + ps)[j] == ps[j - 1];
        assert ([f(xs[lo]).value] + rest)[j] == rest[j - 1];
      }
    }
  }

  /** Order preservation of `flatMap`: its j-th result is the value at the j-th position where
      `f` succeeds, so the results are exactly the successes, in input order. */
  lemma FlatMapInOrder<A, B>(xs: seq<A>, f: A -> Option<B>)
    ensures |FlatMap(xs, f)| == |SomePositions(xs, f)|
    ensures forall j :: 0 <= j < |FlatMap(xs, f)| ==>
      f(xs[SomePositions(xs, f)[j]]) == Some(FlatMap(xs, f)[j])
  {
    FlatMapFromPositions(xs, f, 0);
    assert xs[0..] == xs;
  }

  /** When `f` succeeds everywhere, `flatMap` is a plain map. */
  lemma {:induction false} FlatMapAllSome<A, B>(xs: seq<A>, f: A -> Option<B>)
    requires forall i :: 0 <= i < |xs| ==> f(xs[i]).Some?
    ensures |FlatMap(xs, f)| == |xs|
    ensures forall j :: 0 <= j < |xs| ==> FlatMap(xs, f)[j] == f(xs[j]).value
  {
    if |xs| > 0 {
      var rest := FlatMap(xs[1..], f);
      assert |rest| == |xs| - 1 && forall j :: 0 <= j < |rest| ==> Some(rest[j]) == f(xs[1..][j]) by {
        assert forall i :: 0 <= i < |xs[1..]| ==> xs[1..][i] == xs[i + 1];
        FlatMapAllSome(xs[1..], f);
      }
      assert FlatMap(xs, f) == [f(xs[0]).value] + rest by {
        FlatMapCons(xs, f);
      }
      AllSomeStep(xs, f, rest);
    }
  }

  /** The step of the induction above: prefixing the first element's value to the values of
      the rest gives the values of all of `xs`. */
  lemma AllSomeStep<A, B>(xs: seq<A>, f: A -> Option<B>, rest: seq<B>)
    requires |xs| > 0 && f(xs[0]).Some?
    requires |rest| == |xs| - 1
    requires forall j :: 0 <= j < |rest| ==> Some(rest[j]) == f(xs[1..][j])
    ensures forall j :: 0 <= j < |xs| ==> Some(([f(xs[0]).value] + rest)[j]) == f(xs[j])
  {
    forall j | 0 <= j < |xs| ensures Some(([f(xs[0]).value] + rest)[j]) == f(xs[j]) {
      if j > 0 {
        assert ([f(xs[0]).value] + rest)[j] == rest[j - 1];
        assert xs[1..][j - 1] == xs[j];
      }
    }
  }

  /** The closure `flatMap` needs to express `filter`. */
  function Keep<A>(p: A -> bool): A -> Option<A> {
    x => if p(x) then Some(x) else None
  }

  /** `xs.filter(p)`: the elements satisfying `p`, in the order of `xs`. */
  function Filter<A>(xs: seq<A>, p: A -> bool): (r: seq<A>)
    ensures |r| <= |xs|
    ensures forall j :: 0 <= j < |r| ==> r[j] in xs && p(r[j])
    ensures forall i :: 0 <= i < |xs| && p(xs[i]) ==> xs[i] in r
  {
    var r := FlatMap(xs, Keep(p));
    assert forall j :: 0 <= j < |r| ==> r[j] in xs && p(r[j]) by {
      forall j | 0 <= j < |r| ensures r[j] in xs && p(r[j]) {
        var i :| 0 <= i < |xs| && Keep(p)(xs[i]) == Some(r[j]);
      }
    }
    assert forall i :: 0 <= i < |xs| && p(xs[i]) ==> xs[i] in r by {
      forall i | 0 <= i < |xs| && p(xs[i]) ensures xs[i] in r {
        assert Keep(p)(xs[i]).Some?;
      }
    }
    r
  }

  /** Order preservation of `filter`: its j-th element is `xs[ps[j]]`, where `ps` lists, in
      increasing order, exactly the positions whose element satisfies `p`. */
  lemma FilterInOrder<A>(xs: seq<A>, p: A -> bool)
    ensures var ps := SomePositions(xs, Keep(p));
      && |Filter(xs, p)| == |ps|
      && (forall q :: q in ps <==> 0 <= q < |xs| && p(xs[q]))
      && (forall j :: 0 <= j < |ps| ==> Filter(xs, p)[j] == xs[ps[j]])
  {
    FlatMapInOrder(xs, Keep(p));
    var ps := SomePositions(xs, Keep(p));
    forall q ensures q in ps <==> 0 <= q < |xs| && p(xs[q]) {
      if 0 <= q < |xs| {
        assert Keep(p)(xs[q]).Some? <==> p(xs[q]);
      }
    }
  }

  /** `flatMap` over three keys, spelled out. */
  lemma FlatMapOfThree<A, B>(xs: seq<A>, f: A -> Option<B>)
    requires |xs| == 3
    ensures FlatMap(xs, f) == Present(f(xs[0])) + (Present(f(xs[1])) + Present(f(xs[2])))
  {
    var ys := xs[1..];
    assert ys[0] == xs[1] && ys[1] == xs[2];
    FlatMapOfTwo(ys, f);
    FlatMapCons(xs, f);
  }

  lemma FlatMapOfTwo<A, B>(xs: seq<A>, f: A -> Option<B>)
    requires |xs| == 2
    ensures FlatMap(xs, f) == Present(f(xs[0])) + Present(f(xs[1]))
  {
    var ys := xs[1..];
    assert ys[0] == xs[1];
    FlatMapOfOne(ys, f);
    FlatMapCons(xs, f);
  }

  lemma FlatMapOfOne<A, B>(xs: seq<A>, f: A -> Option<B>)
    requires |xs| == 1
    ensures FlatMap(xs, f) == Present(f(xs[0]))
  {
    FlatMapCons(xs, f);
    assert xs[1..] == [];
  }

  /** Filters that agree on every element of `xs` keep the same elements. */
  lemma {:induction false} FilterCongruent<A>(xs: seq<A>, p: A -> bool, q: A -> bool)
    requires forall i :: 0 <= i < |xs| ==> p(xs[i]) == q(xs[i])
    ensures Filter(xs, p) == Filter(xs, q)
  {
    if |xs| > 0 {
      assert forall i :: 0 <= i < |xs[1..]| ==> p(xs[1..][i]) == q(xs[1..][i]) by {
        forall i | 0 <= i < |xs[1..]| ensures p(xs[1..][i]) == q(xs[1..][i]) {
          assert xs[1..][i] == xs[i + 1];
        }
      }
      FilterCongruent(xs[1..], p, q);
      FlatMapCons(xs, Keep(p));
      FlatMapCons(xs, Keep(q));
      assert Keep(p)(xs[0]) == Keep(q)(xs[0]);
    }
  }
}
