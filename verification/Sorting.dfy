// Python's sorted() on a set of distinct keys.
module Sorting {

  ghost predicate StrictlyAscending(s: seq<nat>) {
    forall i, j :: 0 <= i < j < |s| ==> s[i] < s[j]
  }

  lemma {:induction false} LeastExists(s: set<nat>) returns (x: nat)
    requires s != {}
    ensures x in s && forall y :: y in s ==> x <= y
  {
    x :| x in s;
    var rest := s - {x};
    assert forall y :: y in s ==> y == x || y in rest;
    if rest != {} {
      var y := LeastExists(rest);
      x := if x < y then x else y;
    }
  }

  function Least(s: set<nat>): (x: nat)
    requires s != {}
    ensures x in s && forall y :: y in s ==> x <= y
  {
    assert exists x :: x in s && forall y :: y in s ==> x <= y by {
      var x := LeastExists(s);
    }
    var x :| x in s && forall y :: y in s ==> x <= y;
    x
  }

  /** r lists the elements of s in ascending order. */
  ghost predicate SortedListOf(r: seq<nat>, s: set<nat>) {
    && StrictlyAscending(r)
    && (forall x :: x in r ==> x in s)
    && (forall x :: x in s ==> x in r)
  }

  /** Python's `sorted`, by repeated selection. */
  method SortKeys(s: set<nat>) returns (r: seq<nat>)
    ensures SortedListOf(r, s)
  {
    r := [];
    var rest := s;
    while rest != {}
      invariant StrictlyAscending(r)
      invariant forall x :: x in s <==> x in r || x in rest
      invariant forall x, y :: x in r && y in rest ==> x < y
      decreases |rest|
    {
      var x := Least(rest);
      assert forall k :: 0 <= k < |r| ==> r[k] in r;
      r, rest := r + [x], rest - {x};
    }
  }
}
