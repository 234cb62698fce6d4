/** min() and max() of a set of integers. */
module Extremes {

  ghost predicate IsLeast(m: int, keys: set<int>) {
    m in keys && forall k | k in keys :: m <= k
  }

  ghost predicate IsGreatest(m: int, keys: set<int>) {
    m in keys && forall k | k in keys :: k <= m
  }

  lemma Element<T>(keys: set<T>) returns (x: T)
    requires keys != {}
    ensures x in keys
  {
    x :| x in keys;
  }

  lemma {:induction false} LeastExists(keys: set<int>)
    requires keys != {}
    ensures exists m :: IsLeast(m, keys)
    decreases |keys|
  {
    var x := Element(keys);
    var rest := keys - {x};
    assert forall k | k in keys :: k == x || k in rest;
    if rest == {} {
      assert IsLeast(x, keys);
    } else {
      LeastExists(rest);
      var m :| IsLeast(m, rest);
      assert IsLeast(if m < x then m else x, keys);
    }
  }

  lemma {:induction false} GreatestExists(keys: set<int>)
    requires keys != {}
    ensures exists m :: IsGreatest(m, keys)
    decreases |keys|
  {
    var x := Element(keys);
    var rest := keys - {x};
    assert forall k | k in keys :: k == x || k in rest;
    if rest == {} {
      assert IsGreatest(x, keys);
    } else {
      GreatestExists(rest);
      var m :| IsGreatest(m, rest);
      assert IsGreatest(if m > x then m else x, keys);
    }
  }

  function Least(keys: set<int>): (m: int)
    requires keys != {}
    ensures m in keys && forall k | k in keys :: m <= k
  {
    LeastExists(keys);
    assert exists m :: m in keys && forall k | k in keys :: m <= k by {
      var m :| IsLeast(m, keys);
    }
    var m :| m in keys && forall k | k in keys :: m <= k;
    m
  }

  function Greatest(keys: set<int>): (m: int)
    requires keys != {}
    ensures m in keys && forall k | k in keys :: k <= m
  {
    GreatestExists(keys);
    assert exists m :: m in keys && forall k | k in keys :: k <= m by {
      var m :| IsGreatest(m, keys);
    }
    var m :| m in keys && forall k | k in keys :: k <= m;
    m
  }
}
