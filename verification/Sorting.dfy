/** The ascending order of a set of handles: Python's `min` and `sorted`. */
module Sorting {
  ghost predicate IsMin(s: set<int>, m: int) {
    m in s && forall x <- s :: m <= x
  }

  lemma EmptyOrInhabited(s: set<int>)
    ensures s == {} <==> forall x :: x !in s
  {
    if forall x :: x !in s {
      assert s <= {};
    }
  }

  lemma {:induction false} MinExists(s: set<int>)
    requires s != {}
    ensures exists m :: IsMin(s, m)
  {
    EmptyOrInhabited(s);
    var x :| x in s;
    if s == {x} {
      assert IsMin(s, x);
    } else {
      MinExists(s - {x});
      var m :| IsMin(s - {x}, m);
      var n := if x < m then x else m;
      forall y <- s ensures n <= y {
        assert y == x || y in s - {x};
      }
      assert IsMin(s, n);
    }
  }

  function Min(s: set<int>): (m: int)
    requires s != {}
    ensures IsMin(s, m)
  {
    MinExists(s);
    var m :| m in s && forall x <- s :: m <= x;
    m
  }

  predicate Ascending(ks: seq<int>) {
    forall i, j | 0 <= i < j < |ks| :: ks[i] < ks[j]
  }

  /** `sorted(db.keys())`. */
  function Sorted(s: set<int>): (ks: seq<int>)
    ensures Ascending(ks)
    ensures forall x :: x in ks <==> x in s
    decreases |s|
  {
    if s == {} then []
    else
      var m := Min(s);
      [m] + Sorted(s - {m})
  }

  lemma {:induction false} SortedLength(s: set<int>)
    ensures |Sorted(s)| == |s|
    decreases |s|
  {
    if s != {} {
      SortedLength(s - {Min(s)});
    }
  }

  lemma FirstIsLeast(s: set<int>)
    ensures Sorted(s) != [] ==> forall x <- s :: Sorted(s)[0] <= x
  {
    var ks := Sorted(s);
    forall x <- s ensures ks != [] && ks[0] <= x {
      assert x in ks;
    }
  }
}
