/** Generic sequence tools: mapping, filtering, collecting optional
    values, finding the first match, and the two loops the completeness
    checker runs (map until a stop, sort into two lists). */
module Seqs {

  datatype Option<T> = None | Some(value: T)

  /** `f` applied to every element, in order. */
  function Map<A, B>(f: A -> B, xs: seq<A>): (r: seq<B>)
    ensures |r| == |xs|
    decreases |xs|
  {
    if xs == [] then [] else [f(xs[0])] + Map(f, xs[1..])
  }

  lemma {:induction false} MapAt<A, B>(f: A -> B, xs: seq<A>, i: nat)
    requires i < |xs|
    ensures Map(f, xs)[i] == f(xs[i])
    decreases i
  {
    if i > 0 {
      MapAt(f, xs[1..], i - 1);
    }
  }

  /** A sequence that agrees with `f` at every position is the map. */
  lemma MapPointwise<A, B>(f: A -> B, xs: seq<A>, ys: seq<B>)
    requires |ys| == |xs|
    requires forall j :: 0 <= j < |xs| ==> ys[j] == f(xs[j])
    ensures ys == Map(f, xs)
  {
    forall j | 0 <= j < |xs|
      ensures Map(f, xs)[j] == ys[j]
    {
      MapAt(f, xs, j);
    }
  }

  lemma {:induction false} MapSuffix<A, B>(f: A -> B, xs: seq<A>, n: nat)
    requires n <= |xs|
    ensures Map(f, xs)[n..] == Map(f, xs[n..])
    decreases n
  {
    if n > 0 {
      MapSuffix(f, xs[1..], n - 1);
      assert xs[1..][n - 1..] == xs[n..];
    }
  }

  /** The index of the first element satisfying `p`, or the length when
      there is none. */
  function FirstWhere<T>(xs: seq<T>, p: T -> bool): (k: nat)
    ensures k <= |xs|
    ensures forall i :: 0 <= i < k ==> !p(xs[i])
    ensures k < |xs| ==> p(xs[k])
    decreases |xs|
  {
    if xs == [] || p(xs[0]) then 0 else 1 + FirstWhere(xs[1..], p)
  }

  /** Any index before which nothing satisfies `p` and at which `p` holds
      (or the sequence ends) is the first one. */
  lemma FirstWhereUnique<T>(xs: seq<T>, p: T -> bool, k: nat)
    requires k <= |xs|
    requires forall i :: 0 <= i < k ==> !p(xs[i])
    requires k < |xs| ==> p(xs[k])
    ensures FirstWhere(xs, p) == k
  {
  }

  lemma {:induction false} MapSnoc<A, B>(f: A -> B, xs: seq<A>, x: A)
    ensures Map(f, xs + [x]) == Map(f, xs) + [f(x)]
    decreases |xs|
  {
    if xs == [] {
      assert xs + [x] == [x];
    } else {
      assert (xs + [x])[1..] == xs[1..] + [x];
      MapSnoc(f, xs[1..], x);
    }
  }

  /** Mapping one more element of a prefix adds its image at the end. */
  lemma MapPrefix<A, B>(f: A -> B, xs: seq<A>, i: nat)
    requires i < |xs|
    ensures Map(f, xs[..i + 1]) == Map(f, xs[..i]) + [f(xs[i])]
  {
    assert xs[..i + 1] == xs[..i] + [xs[i]];
    MapSnoc(f, xs[..i], xs[i]);
  }

  /** The images under `f` of the elements of `xs`, up to (not including)
      the first whose image `stop` accepts. */
  method MapUntil<A, B>(xs: seq<A>, f: A -> B, stop: B -> bool) returns (ys: seq<B>)
    ensures |ys| <= |xs| && ys == Map(f, xs[..|ys|])
    ensures forall j :: 0 <= j < |ys| ==> !stop(f(xs[j]))
    ensures |ys| < |xs| ==> stop(f(xs[|ys|]))
  {
    ys := [];
    var i := 0;
    while i < |xs|
      invariant i <= |xs| && |ys| == i
      invariant ys == Map(f, xs[..i])
      invariant forall j :: 0 <= j < i ==> !stop(f(xs[j]))
    {
      var y := f(xs[i]);
      if stop(y) {
        break;
      }
      MapPrefix(f, xs, i);
      ys := ys + [y];
      i := i + 1;
    }
  }

  /** The values `f` yields on the elements of `xs`, in order, with the
      `None`s left out. */
  function Collect<A, B>(f: A -> Option<B>, xs: seq<A>): (r: seq<B>)
    ensures |r| <= |xs|
    decreases |xs|
  {
    if xs == [] then []
    else (match f(xs[0]) case None => [] case Some(y) => [y]) + Collect(f, xs[1..])
  }

  /** Two functions that agree on every element collect the same values. */
  lemma {:induction false} CollectAgree<A, B>(f: A -> Option<B>, g: A -> Option<B>, xs: seq<A>)
    requires forall i :: 0 <= i < |xs| ==> f(xs[i]) == g(xs[i])
    ensures Collect(f, xs) == Collect(g, xs)
    decreases |xs|
  {
    if xs != [] {
      CollectAgree(f, g, xs[1..]);
    }
  }

  /** Every collected value has each property all yielded values share. */
  lemma {:induction false} CollectPreserves<A, B>(f: A -> Option<B>, xs: seq<A>, p: B -> bool)
    requires forall i :: 0 <= i < |xs| ==> f(xs[i]).Some? ==> p(f(xs[i]).value)
    ensures forall i :: 0 <= i < |Collect(f, xs)| ==> p(Collect(f, xs)[i])
    decreases |xs|
  {
    if xs != [] {
      CollectPreserves(f, xs[1..], p);
    }
  }

  /** Nothing is collected exactly when `f` yields `None` everywhere. */
  lemma {:induction false} CollectEmpty<A, B>(f: A -> Option<B>, xs: seq<A>)
    ensures Collect(f, xs) == [] <==> forall i :: 0 <= i < |xs| ==> f(xs[i]).None?
    decreases |xs|
  {
    if xs != [] {
      CollectEmpty(f, xs[1..]);
      assert forall i :: 1 <= i < |xs| ==> xs[1..][i - 1] == xs[i];
    }
  }

  /** The elements satisfying `p`, in order. */
  function Filter<T>(xs: seq<T>, p: T -> bool): (r: seq<T>)
    ensures |r| <= |xs|
    decreases |xs|
  {
    if xs == [] then []
    else Filter(xs[..|xs| - 1], p) + (if p(xs[|xs| - 1]) then [xs[|xs| - 1]] else [])
  }

  lemma FilterSnoc<T>(xs: seq<T>, x: T, p: T -> bool)
    ensures Filter(xs + [x], p) == Filter(xs, p) + (if p(x) then [x] else [])
  {
    assert (xs + [x])[..|xs|] == xs;
  }

  /** Filtering distributes over concatenation. */
  lemma {:induction false} FilterConcat<T>(xs: seq<T>, ys: seq<T>, p: T -> bool)
    ensures Filter(xs + ys, p) == Filter(xs, p) + Filter(ys, p)
    decreases |ys|
  {
    if ys == [] {
      assert xs + ys == xs;
    } else {
      var init := ys[..|ys| - 1];
      var last := ys[|ys| - 1];
      assert ys == init + [last];
      assert xs + ys == (xs + init) + [last];
      FilterSnoc(xs + init, last, p);
      FilterSnoc(init, last, p);
      FilterConcat(xs, init, p);
    }
  }

  /** Nothing is kept exactly when no element satisfies `p`. */
  lemma {:induction false} FilterEmpty<T>(xs: seq<T>, p: T -> bool)
    ensures Filter(xs, p) == [] <==> forall i :: 0 <= i < |xs| ==> !p(xs[i])
    decreases |xs|
  {
    if xs != [] {
      FilterEmpty(xs[..|xs| - 1], p);
    }
  }

  /** The test "`f` gives `v`". */
  function Is<T, S(==)>(f: T -> S, v: S): T -> bool {
    x => f(x) == v
  }

  /** No element satisfies `p`. */
  predicate NoneOf<T>(xs: seq<T>, p: T -> bool) {
    forall i :: 0 <= i < |xs| ==> !p(xs[i])
  }

  /** Joining lists around one element keeps `p` false throughout. */
  lemma NoneOfJoin<T>(a: seq<T>, x: T, b: seq<T>, p: T -> bool)
    requires NoneOf(a, p) && !p(x) && NoneOf(b, p)
    ensures NoneOf(a + [x] + b, p)
  {
    var xs := a + [x] + b;
    forall i | 0 <= i < |xs|
      ensures !p(xs[i])
    {
      if i < |a| {
        assert xs[i] == a[i];
      } else if i > |a| {
        assert xs[i] == b[i - |a| - 1];
      }
    }
  }

  /** One pass over `xs` that collects, in order, the elements `f` sends to
      `a` and those it sends to `b`, and skips the rest. */
  method SortOut<T, S(==)>(xs: seq<T>, f: T -> S, a: S, b: S) returns (left: seq<T>, right: seq<T>)
    requires a != b
    ensures left == Filter(xs, Is(f, a))
    ensures right == Filter(xs, Is(f, b))
  {
    left, right := [], [];
    var i := 0;
    while i < |xs|
      invariant i <= |xs|
      invariant left == Filter(xs[..i], Is(f, a))
      invariant right == Filter(xs[..i], Is(f, b))
    {
      var x := xs[i];
      assert xs[..i + 1] == xs[..i] + [x];
      FilterSnoc(xs[..i], x, Is(f, a));
      FilterSnoc(xs[..i], x, Is(f, b));
      var v := f(x);
      if v == a {
        left := left + [x];
      } else if v == b {
        right := right + [x];
      }
      i := i + 1;
    }
    assert xs[..i] == xs;
  }

  /** An element is kept exactly when it is there and satisfies `p`. */
  lemma {:induction false} FilterMembers<T>(xs: seq<T>, p: T -> bool, x: T)
    ensures x in Filter(xs, p) <==> x in xs && p(x)
    decreases |xs|
  {
    if xs != [] {
      var init := xs[..|xs| - 1];
      FilterMembers(init, p, x);
      assert xs == init + [xs[|xs| - 1]];
    }
  }

  /** `xs` is `ys` with some elements left out, order kept. */
  predicate IsSubsequence<T(==)>(xs: seq<T>, ys: seq<T>)
    decreases |ys|
  {
    if xs == [] then true
    else if ys == [] then false
    else if xs[|xs| - 1] == ys[|ys| - 1] then IsSubsequence(xs[..|xs| - 1], ys[..|ys| - 1])
    else IsSubsequence(xs, ys[..|ys| - 1])
  }

  lemma {:induction false} FilterOrdered<T>(xs: seq<T>, p: T -> bool)
    ensures IsSubsequence(Filter(xs, p), xs)
    decreases |xs|
  {
    if xs != [] {
      var init := xs[..|xs| - 1];
      var last := xs[|xs| - 1];
      var prev := Filter(init, p);
      FilterOrdered(init, p);
      assert xs == init + [last];
      if p(last) {
        var r := prev + [last];
        assert r[..|r| - 1] == prev;
      } else {
        assert Filter(xs, p) == prev;
        SubsequenceExtend(prev, init, last);
      }
    }
  }

  /** Adding an element at the end of the longer sequence keeps a subsequence one. */
  lemma {:induction false} SubsequenceExtend<T>(xs: seq<T>, ys: seq<T>, y: T)
    requires IsSubsequence(xs, ys)
    ensures IsSubsequence(xs, ys + [y])
    decreases |ys|, 1
  {
    var zs := ys + [y];
    assert zs[..|zs| - 1] == ys;
    if xs != [] && xs[|xs| - 1] == y {
      SubsequenceDropLast(xs, ys);
    }
  }

  /** Dropping the last element of a subsequence keeps it one. */
  lemma {:induction false} SubsequenceDropLast<T>(xs: seq<T>, ys: seq<T>)
    requires xs != [] && IsSubsequence(xs, ys)
    ensures IsSubsequence(xs[..|xs| - 1], ys)
    decreases |ys|, 0
  {
    var init := xs[..|xs| - 1];
    var ys' := ys[..|ys| - 1];
    assert ys == ys' + [ys[|ys| - 1]];
    if xs[|xs| - 1] == ys[|ys| - 1] {
      SubsequenceExtend(init, ys', ys[|ys| - 1]);
    } else {
      SubsequenceDropLast(xs, ys');
      SubsequenceExtend(init, ys', ys[|ys| - 1]);
    }
  }

  /** When every element satisfies exactly one of three tests, the three
      filters share the elements out between them. */
  lemma {:induction false} FilterPartition<T>(xs: seq<T>, p: T -> bool, q: T -> bool, r: T -> bool)
    requires forall i :: 0 <= i < |xs| ==> (if p(xs[i]) then 1 else 0) + (if q(xs[i]) then 1 else 0) + (if r(xs[i]) then 1 else 0) == 1
    ensures |Filter(xs, p)| + |Filter(xs, q)| + |Filter(xs, r)| == |xs|
    decreases |xs|
  {
    if xs != [] {
      FilterPartition(xs[..|xs| - 1], p, q, r);
    }
  }
}
