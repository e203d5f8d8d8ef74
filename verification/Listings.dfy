/** A list that names the elements of a set once each. */
module Listings {
  ghost predicate ListsOnce<T(!new)>(xs: seq<T>, s: set<T>) {
    && (forall x :: x in xs <==> x in s)
    && (forall i, j :: 0 <= i < j < |xs| ==> xs[i] != xs[j])
  }

  lemma {:induction false} ListedOnce<T(!new)>(xs: seq<T>, s: set<T>)
    requires ListsOnce(xs, s)
    ensures |xs| == |s|
  {
    if xs == [] {
      assert s == {};
    } else {
      var rest := xs[1..];
      assert xs == [xs[0]] + rest;
      assert xs[0] !in rest by {
        assert forall k :: 0 <= k < |rest| ==> rest[k] == xs[k + 1];
      }
      ListedOnce(rest, s - {xs[0]});
    }
  }
}
