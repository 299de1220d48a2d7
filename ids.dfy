/**
 * Sets of identity values: picking an element, the least element, and the
 * ascending order in which the model lists query results.
 */
module Ids {
  ghost predicate StrictlyIncreasing(r: seq<int>) {
    forall i, j | 0 <= i < j < |r| :: r[i] < r[j]
  }

  lemma HasElement(s: set<int>)
    requires s != {}
    ensures exists x :: x in s
  {
    if forall x :: x !in s {
      assert false;
    }
  }

  lemma {:induction false} HasMinimum(s: set<int>)
    requires s != {}
    ensures exists m | m in s :: forall x | x in s :: m <= x
    decreases |s|
  {
    HasElement(s);
    var x :| x in s;
    var rest := s - {x};
    if rest == {} {
      forall y | y in s ensures x <= y {
        assert y == x || y in rest;
      }
    } else {
      HasMinimum(rest);
      var m :| m in rest && forall y | y in rest :: m <= y;
      var least := if x < m then x else m;
      forall y | y in s ensures least <= y {
        if y != x { assert y in rest; }
      }
      assert least in s;
    }
  }

  function Min(s: set<int>): (m: int)
    requires s != {}
    ensures m in s && forall x | x in s :: m <= x
  {
    HasMinimum(s);
    var m :| m in s && forall x | x in s :: m <= x;
    m
  }

  /** Putting a value below every element in front of a strictly increasing sequence keeps it strictly increasing. */
  lemma Prepend(m: int, rest: seq<int>)
    requires StrictlyIncreasing(rest) && forall x | x in rest :: m < x
    ensures StrictlyIncreasing([m] + rest)
  {
    var r := [m] + rest;
    forall i, j | 0 <= i < j < |r| ensures r[i] < r[j] {
      assert r[j] == rest[j - 1] && r[j] in rest;
      if i > 0 { assert r[i] == rest[i - 1]; }
    }
  }

  /** The ids of `s` in ascending order, each exactly once (the clustered-index order of a table). */
  function SortedIds(s: set<int>): (r: seq<int>)
    ensures |r| == |s|
    ensures forall x :: x in r <==> x in s
    ensures StrictlyIncreasing(r)
    decreases |s|
  {
    if s == {} then []
    else
      var m := Min(s);
      var rest := SortedIds(s - {m});
      var r := [m] + rest;
      assert |s - {m}| == |s| - 1;
      assert forall x :: x in r <==> x == m || x in rest;
      Prepend(m, rest);
      r
  }
}
