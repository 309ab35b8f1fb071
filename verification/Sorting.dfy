/** What sort.Slice promises: a rearrangement in which no element is less than an earlier one. */
module Sorting {
  predicate Ordered<T>(xs: seq<T>, less: (T, T) -> bool) {
    forall i, j | 0 <= i < j < |xs| :: !less(xs[j], xs[i])
  }

  /** The comparison is a strict weak order, as sort.Slice demands. */
  ghost predicate StrictWeak<T(!new)>(less: (T, T) -> bool) {
    && (forall a, b :: less(a, b) ==> !less(b, a))
    && (forall a, b, c :: !less(a, b) && !less(b, c) ==> !less(a, c))
  }

  /** No two different elements of xs tie. */
  ghost predicate Tieless<T(!new)>(xs: seq<T>, less: (T, T) -> bool) {
    forall a, b :: a in xs && b in xs && !less(a, b) && !less(b, a) ==> a == b
  }

  function Insert<T>(x: T, xs: seq<T>, less: (T, T) -> bool): (r: seq<T>)
    ensures multiset(r) == multiset{x} + multiset(xs)
  {
    if xs == [] then [x]
    else if less(xs[0], x) then
      assert xs == [xs[0]] + xs[1..];
      [xs[0]] + Insert(x, xs[1..], less)
    else [x] + xs
  }

  function Sort<T>(xs: seq<T>, less: (T, T) -> bool): (r: seq<T>)
    ensures multiset(r) == multiset(xs)
  {
    if xs == [] then []
    else
      assert xs == [xs[0]] + xs[1..];
      Insert(xs[0], Sort(xs[1..], less), less)
  }

  lemma {:induction false} SameElements<T(!new)>(xs: seq<T>, ys: seq<T>)
    requires multiset(xs) == multiset(ys)
    ensures |xs| == |ys| && forall x :: x in xs <==> x in ys
  {
    assert |xs| == |multiset(xs)| && |ys| == |multiset(ys)|;
    forall x
      ensures x in xs <==> x in ys
    {
      assert x in xs <==> x in multiset(xs);
      assert x in ys <==> x in multiset(ys);
    }
  }

  lemma {:induction false} InsertOrdered<T(!new)>(x: T, xs: seq<T>, less: (T, T) -> bool)
    requires StrictWeak(less) && Ordered(xs, less)
    ensures Ordered(Insert(x, xs, less), less)
  {
    var r := Insert(x, xs, less);
    if xs == [] {
    } else if less(xs[0], x) {
      var rest := Insert(x, xs[1..], less);
      InsertOrdered(x, xs[1..], less);
      forall j | 0 < j < |r|
        ensures !less(r[j], r[0])
      {
        assert r[j] == rest[j - 1];
        assert rest[j - 1] in multiset(rest);
        assert rest[j - 1] == x || rest[j - 1] in xs[1..];
      }
    } else {
      forall j | 0 < j < |r|
        ensures !less(r[j], r[0])
      {
        assert r[j] == xs[j - 1];
        assert !less(xs[j - 1], xs[0]);
      }
    }
  }

  lemma {:induction false} SortOrdered<T(!new)>(xs: seq<T>, less: (T, T) -> bool)
    requires StrictWeak(less)
    ensures Ordered(Sort(xs, less), less)
  {
    hide StrictWeak;
    if xs == [] {
     
    } else {
      SortOrdered(xs[1..], less);
      InsertOrdered(xs[0], Sort(xs[1..], less), less);
    }
  }

  lemma {:induction false} OrderedHeads<T(!new)>(xs: seq<T>, ys: seq<T>, less: (T, T) -> bool)
    requires Ordered(xs, less) && Ordered(ys, less) && multiset(xs) == multiset(ys) && Tieless(xs, less)
    requires |xs| == |ys| > 0 && !less(xs[0], xs[0])
    ensures xs[0] == ys[0]
  {
    SameElements(xs, ys);
    assert xs[0] in xs && ys[0] in ys;
    var j :| 0 <= j < |ys| && ys[j] == xs[0];
    var i :| 0 <= i < |xs| && xs[i] == ys[0];
    assert i > 0 ==> !less(xs[i], xs[0]);
    assert j > 0 ==> !less(ys[j], ys[0]);
  }

  lemma {:induction false} TailMultiset<T(!new)>(xs: seq<T>)
    requires xs != []
    ensures multiset(xs[1..]) == multiset(xs) - multiset{xs[0]}
  {
    assert xs == [xs[0]] + xs[1..];
  }

  lemma {:induction false} OrderedTail<T(!new)>(xs: seq<T>, less: (T, T) -> bool)
    requires xs != [] && Ordered(xs, less)
    ensures Ordered(xs[1..], less)
    ensures Tieless(xs, less) ==> Tieless(xs[1..], less)
  {
    assert forall a :: a in xs[1..] ==> a in xs;
  }

  /** Without ties the promise determines the result, whatever the algorithm. */
  lemma {:induction false} OrderedUnique<T(!new)>(xs: seq<T>, ys: seq<T>, less: (T, T) -> bool)
    requires StrictWeak(less)
    requires Ordered(xs, less) && Ordered(ys, less) && multiset(xs) == multiset(ys) && Tieless(xs, less)
    ensures xs == ys
  {
    hide Ordered, Tieless, StrictWeak;
    SameLength(xs, ys);
    if xs != [] {
      Irreflexive(less, xs[0]);
      OrderedHeads(xs, ys, less);
      TailMultiset(xs);
      TailMultiset(ys);
      OrderedTail(xs, less);
      OrderedTail(ys, less);
      OrderedUnique(xs[1..], ys[1..], less);
      HeadTail(xs, ys);
    }
  }

  lemma {:induction false} HeadTail<T>(xs: seq<T>, ys: seq<T>)
    requires xs != [] && ys != [] && xs[0] == ys[0] && xs[1..] == ys[1..]
    ensures xs == ys
  {
    assert xs == [xs[0]] + xs[1..] && ys == [ys[0]] + ys[1..];
  }

  lemma {:induction false} SameLength<T>(xs: seq<T>, ys: seq<T>)
    requires multiset(xs) == multiset(ys)
    ensures |xs| == |ys|
  {
    assert |xs| == |multiset(xs)| && |ys| == |multiset(ys)|;
  }

  lemma Irreflexive<T(!new)>(less: (T, T) -> bool, a: T)
    requires StrictWeak(less)
    ensures !less(a, a)
  {
  }

  /** sort.Slice, known by its promise only. */
  method SortSlice<T(!new)>(xs: seq<T>, less: (T, T) -> bool) returns (ys: seq<T>)
    requires StrictWeak(less)
    ensures multiset(ys) == multiset(xs) && Ordered(ys, less)
  {
    SortOrdered(xs, less);
    ys := Sort(xs, less);
  }

  function Map<S, T>(f: S -> T, xs: seq<S>): (ys: seq<T>)
    ensures |ys| == |xs| && forall i | 0 <= i < |xs| :: ys[i] == f(xs[i])
  {
    if xs == [] then [] else [f(xs[0])] + Map(f, xs[1..])
  }

  lemma {:induction false} Without<T(!new)>(xs: seq<T>, j: nat)
    requires j < |xs|
    ensures multiset(xs) == multiset(xs[..j] + xs[j + 1..]) + multiset{xs[j]}
  {
    assert xs == xs[..j] + ([xs[j]] + xs[j + 1..]);
  }

  lemma {:induction false} IndexOf<T(!new)>(x: T, ys: seq<T>) returns (j: nat)
    requires x in multiset(ys)
    ensures j < |ys| && ys[j] == x
  {
    j :| 0 <= j < |ys| && ys[j] == x;
  }

  lemma {:induction false} MapFirst<S(!new), T(!new)>(f: S -> T, xs: seq<S>)
    requires xs != []
    ensures multiset(Map(f, xs)) == multiset(Map(f, xs[1..])) + multiset{f(xs[0])}
  {
    MapWithout(f, xs, 0);
    assert xs[..0] + xs[0 + 1..] == xs[1..];
  }

  /** Rearranging the arguments rearranges the results. */
  lemma {:induction false} MapMultiset<S(!new), T(!new)>(f: S -> T, xs: seq<S>, ys: seq<S>)
    requires multiset(xs) == multiset(ys)
    ensures multiset(Map(f, xs)) == multiset(Map(f, ys))
    decreases |xs|
  {
    hide Map;
    SameLength(xs, ys);
    if xs == [] {
      assert ys == xs;
    } else {
      assert xs[0] in multiset(xs);
      var j := IndexOf(xs[0], ys);
      var rest := ys[..j] + ys[j + 1..];
      RestMultiset(xs, ys, j);
      MapMultiset(f, xs[1..], rest);
      MapWithout(f, ys, j);
      MapFirst(f, xs);
    }
  }

  lemma {:induction false} RestMultiset<T(!new)>(xs: seq<T>, ys: seq<T>, j: nat)
    requires multiset(xs) == multiset(ys) && xs != [] && j < |ys| && ys[j] == xs[0]
    ensures multiset(xs[1..]) == multiset(ys[..j] + ys[j + 1..])
  {
    Without(ys, j);
    TailMultiset(xs);
  }

  lemma {:induction false} MapWithout<S(!new), T(!new)>(f: S -> T, xs: seq<S>, j: nat)
    requires j < |xs|
    ensures multiset(Map(f, xs)) == multiset(Map(f, xs[..j] + xs[j + 1..])) + multiset{f(xs[j])}
  {
    Without(Map(f, xs), j);
    assert Map(f, xs)[..j] + Map(f, xs)[j + 1..] == Map(f, xs[..j] + xs[j + 1..]);
  }
}
