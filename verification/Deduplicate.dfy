/** Dropping repeated addresses, servers and allowed IPs in place (conf/config.go). */
module Deduplicate {
  /** The elements whose text does not occur earlier. */
  function FirstOnes<T>(xs: seq<T>, text: T -> string): seq<T> {
    if xs == [] then []
    else
      var n := |xs| - 1;
      FirstOnes(xs[..n], text) + if exists i :: 0 <= i < n && text(xs[i]) == text(xs[n]) then [] else [xs[n]]
  }

  ghost predicate Distinct<T>(xs: seq<T>, text: T -> string) {
    forall i, j | 0 <= i < j < |xs| :: text(xs[i]) != text(xs[j])
  }

  /** Every text stays. */
  lemma {:induction false} TextsStay<T>(xs: seq<T>, text: T -> string, i: nat)
    requires i < |xs|
    ensures exists j :: 0 <= j < |FirstOnes(xs, text)| && text(FirstOnes(xs, text)[j]) == text(xs[i])
    decreases |xs|
  {
    var n := |xs| - 1;
    var all, rest := FirstOnes(xs, text), FirstOnes(xs[..n], text);
    assert forall j | 0 <= j < |rest| :: all[j] == rest[j];
    if i < n {
      TextsStay(xs[..n], text, i);
    } else if exists k :: 0 <= k < n && text(xs[k]) == text(xs[n]) {
      var k :| 0 <= k < n && text(xs[k]) == text(xs[n]);
      TextsStay(xs[..n], text, k);
    } else {
      assert all[|rest|] == xs[n];
    }
  }

  /** Nothing is made up. */
  lemma {:induction false} NothingNew<T>(xs: seq<T>, text: T -> string, j: nat)
    requires j < |FirstOnes(xs, text)|
    ensures exists i :: 0 <= i < |xs| && xs[i] == FirstOnes(xs, text)[j]
    decreases |xs|
  {
    var n := |xs| - 1;
    if j < |FirstOnes(xs[..n], text)| {
      NothingNew(xs[..n], text, j);
      var i :| 0 <= i < n && xs[..n][i] == FirstOnes(xs[..n], text)[j];
      assert xs[i] == FirstOnes(xs, text)[j];
    } else {
      assert xs[n] == FirstOnes(xs, text)[j];
    }
  }

  /** No text stays twice. */
  lemma {:induction false} FirstOnesDistinct<T>(xs: seq<T>, text: T -> string)
    ensures Distinct(FirstOnes(xs, text), text)
    decreases |xs|
  {
    if xs != [] {
      var n := |xs| - 1;
      FirstOnesDistinct(xs[..n], text);
      forall j | 0 <= j < |FirstOnes(xs[..n], text)|
        ensures exists i :: 0 <= i < n && text(xs[i]) == text(FirstOnes(xs[..n], text)[j])
      {
        NothingNew(xs[..n], text, j);
        var i :| 0 <= i < n && xs[..n][i] == FirstOnes(xs[..n], text)[j];
        assert text(xs[i]) == text(FirstOnes(xs[..n], text)[j]);
      }
    }
  }

  /** Distinct texts are left alone; so dropping repetitions twice is dropping them once. */
  lemma {:induction false} DistinctIsKept<T>(xs: seq<T>, text: T -> string)
    requires Distinct(xs, text)
    ensures FirstOnes(xs, text) == xs
  {
    if xs != [] {
      DistinctIsKept(xs[..|xs| - 1], text);
      assert xs == xs[..|xs| - 1] + [xs[|xs| - 1]];
    }
  }

  lemma {:induction false} Twice<T>(xs: seq<T>, text: T -> string)
    ensures FirstOnes(FirstOnes(xs, text), text) == FirstOnes(xs, text)
  {
    FirstOnesDistinct(xs, text);
    DistinctIsKept(FirstOnes(xs, text), text);
  }

  lemma {:induction false} FirstOnesEnd<T>(xs: seq<T>, x: T, text: T -> string)
    ensures FirstOnes(xs + [x], text)
         == FirstOnes(xs, text) + if exists i :: 0 <= i < |xs| && text(xs[i]) == text(x) then [] else [x]
  {
    var all := xs + [x];
    assert all[..|xs|] == xs;
    assert forall i | 0 <= i < |xs| :: all[i] == xs[i];
  }

  lemma NoneFirst<T>(text: T -> string)
    ensures FirstOnes<T>([], text) == []
  {
  }

  /** Compacts the array from the front; the first `n` elements are the result. */
  method Compact<T>(a: array<T>, text: T -> string) returns (n: nat)
    modifies a
    ensures n <= a.Length && a[..n] == FirstOnes(old(a[..]), text)
  {
    hide FirstOnes;
    ghost var xs := a[..];
    var seen: set<string> := {};
    n := 0;
    assert xs[..0] == [] && a[..0] == [];
    NoneFirst<T>(text);
    for k := 0 to a.Length
      invariant n <= k && a[..n] == FirstOnes(xs[..k], text) && a[k..] == xs[k..]
      invariant forall s :: s in seen <==> exists i :: 0 <= i < k && text(xs[i]) == s
    {
      var x := a[k];
      assert x == a[k..][0] == xs[k];
      assert xs[..k + 1] == xs[..k] + [x];
      FirstOnesEnd(xs[..k], x, text);
      var s := text(x);
      ghost var before := a[..n];
      if s in seen {
        ghost var i :| 0 <= i < k && text(xs[i]) == s;
        assert xs[..k][i] == xs[i];
        continue;
      }
      seen := seen + {s};
      a[n] := x;
      n := n + 1;
      assert a[..n] == before + [x];
    }
    assert xs[..a.Length] == xs;
  }
}
