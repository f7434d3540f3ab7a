/** Descending order on triples: the `ORDER BY major DESC, minor DESC,
    patch DESC` of the catalog's queries, given a finite set of triples. */
module Sorting {
  import opened SemVer

  /** Every later element is strictly smaller than every earlier one. */
  predicate StrictlyDesc(s: seq<Triple>) {
    forall i, j | 0 <= i < j < |s| :: Lt(s[j], s[i])
  }

  lemma LtTransitive(a: Triple, b: Triple, c: Triple)
    requires Lt(a, b) && Lt(b, c)
    ensures Lt(a, c)
  {
  }

  lemma LtTotal(a: Triple, b: Triple)
    ensures a == b || Lt(a, b) || Lt(b, a)
  {
  }

  /** `m` is an element of `s` that every other element is below. */
  predicate IsMax(m: Triple, s: set<Triple>) {
    m in s && forall x | x in s :: x == m || Lt(x, m)
  }

  lemma {:induction false} MaxExists(s: set<Triple>)
    requires s != {}
    ensures exists m :: IsMax(m, s)
    decreases |s|
  {
    var y :| y in s;
    var rest := s - {y};
    if rest == {} {
      assert forall x | x in s :: x == y || x in rest;
      assert IsMax(y, s);
    } else {
      MaxExists(rest);
      var m :| IsMax(m, rest);
      var top := if Lt(m, y) then y else m;
      LtTotal(m, y);
      forall x | x in s
        ensures x == top || Lt(x, top)
      {
        if x != y {
          assert x in rest;
          if top == y && x != m {
            LtTransitive(x, m, y);
          }
        }
      }
      assert IsMax(top, s);
    }
  }

  /** The greatest triple of a non-empty set; `Lt` is a strict total order,
      so it is unique. */
  function Max(s: set<Triple>): (m: Triple)
    requires s != {}
    ensures m in s
    ensures forall x | x in s :: x == m || Lt(x, m)
  {
    MaxExists(s);
    var m :| IsMax(m, s);
    m
  }

  /** The elements of `s`, greatest first. */
  function SortDesc(s: set<Triple>): (r: seq<Triple>)
    ensures StrictlyDesc(r)
    ensures |r| == |s|
    ensures forall t :: t in r <==> t in s
    ensures forall i | 0 <= i < |r| :: r[i] in s
    decreases |s|
  {
    if s == {} then []
    else
      var m := Max(s);
      [m] + SortDesc(s - {m})
  }

  /** Two triples come out greatest first. */
  lemma SortDescPair(x: Triple, y: Triple)
    requires Lt(y, x)
    ensures SortDesc({x, y}) == [x, y]
  {
    assert Max({x, y}) == x;
    assert {x, y} - {x} == {y};
    assert Max({y}) == y;
    assert {y} - {y} == {};
  }
}
