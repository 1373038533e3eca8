/** The greatest element of a finite set of integers. */
module IntegerSets {
  lemma HasElement(s: set<int>)
    ensures s != {} ==> exists x :: x in s
  {
    if forall x :: x !in s {
      assert s == {};
    }
  }

  lemma {:induction false} MaxExists(s: set<int>)
    requires s != {}
    ensures exists m :: m in s && forall x | x in s :: x <= m
  {
    HasElement(s);
    var x :| x in s;
    var rest := s - {x};
    assert forall y | y in s :: y in rest || y == x;
    if rest == {} {
      assert forall y | y in s :: y <= x;
    } else {
      MaxExists(rest);
      var m :| m in rest && forall y | y in rest :: y <= m;
      var n := if m < x then x else m;
      assert n in s && forall y | y in s :: y <= n;
    }
  }

  function MaxOf(s: set<int>): (m: int)
    requires s != {}
    ensures m in s && forall x | x in s :: x <= m
  {
    MaxExists(s);
    var m :| m in s && forall x | x in s :: x <= m;
    m
  }
}
