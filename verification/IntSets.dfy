/** Finite sets of packet indices. */
module IntSets {

  function Range(lo: int, hi: int): (r: set<int>)
    ensures forall x :: x in r <==> lo <= x <= hi
    decreases hi - lo
  {
    if lo > hi then {} else {lo} + Range(lo + 1, hi)
  }

  lemma {:induction false} RangeSize(lo: int, hi: int)
    requires lo <= hi + 1
    ensures |Range(lo, hi)| == hi - lo + 1
    decreases hi - lo
  {
    if lo <= hi {
      RangeSize(lo, hi - 1);
      assert Range(lo, hi) == Range(lo, hi - 1) + {hi};
    }
  }

  /** The members greater than `bound`. */
  function Above(s: set<int>, bound: int): (r: set<int>)
    ensures forall x :: x in r <==> x in s && x > bound
  {
    set x | x in s && x > bound
  }

  lemma EmptyOrInhabited(s: set<int>)
    ensures s == {} || exists y :: y in s
  {
    if forall y :: y !in s {
    }
  }

  lemma {:induction false} HasMin(s: set<int>)
    requires s != {}
    ensures exists m :: m in s && forall x <- s :: m <= x
    decreases |s|
  {
    EmptyOrInhabited(s);
    var y :| y in s;
    var rest := s - {y};
    var k := y;
    if rest != {} {
      HasMin(rest);
      var m :| m in rest && forall x <- rest :: m <= x;
      k := if y < m then y else m;
    }
    forall x | x in s
      ensures k <= x
    {
      assert x == y || x in rest;
    }
  }

  ghost function Min(s: set<int>): (m: int)
    requires s != {}
    ensures m in s && forall x <- s :: m <= x
  {
    HasMin(s);
    var m :| m in s && forall x <- s :: m <= x;
    m
  }

  lemma MinIs(s: set<int>, m: int)
    requires m in s && forall x <- s :: m <= x
    ensures Min(s) == m
  {
  }

  lemma Smaller(a: set<int>, b: set<int>)
    ensures a < b ==> |a| < |b|
  {
    if a < b {
      assert |b| == |a| + |b - a|;
      assert b - a != {};
    }
  }
}
