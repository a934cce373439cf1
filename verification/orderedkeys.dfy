/** First and last keys, as ordered maps find them. */
module OrderedKeys {
  import opened Wrappers

  predicate IsLeast(m: int, keys: set<int>) {
    m in keys && forall k | k in keys :: m <= k
  }

  predicate IsGreatest(m: int, keys: set<int>) {
    m in keys && forall k | k in keys :: k <= m
  }

  lemma NotEmpty(keys: set<int>)
    requires keys != {}
    ensures exists k :: k in keys
  {
    assert (forall k :: k !in keys) ==> keys == {};
  }

  lemma {:induction false} LeastExists(keys: set<int>)
    requires keys != {}
    ensures exists m :: IsLeast(m, keys)
  {
    NotEmpty(keys);
    var x :| x in keys;
    var rest := keys - {x};
    if rest == {} {
      assert keys == {x};
      assert IsLeast(x, keys);
    } else {
      LeastExists(rest);
      var m :| IsLeast(m, rest);
      assert forall k | k in keys :: k == x || k in rest;
      assert IsLeast(if m <= x then m else x, keys);
    }
  }

  lemma {:induction false} GreatestExists(keys: set<int>)
    requires keys != {}
    ensures exists m :: IsGreatest(m, keys)
  {
    NotEmpty(keys);
    var x :| x in keys;
    var rest := keys - {x};
    if rest == {} {
      assert keys == {x};
      assert IsGreatest(x, keys);
    } else {
      GreatestExists(rest);
      var m :| IsGreatest(m, rest);
      assert forall k | k in keys :: k == x || k in rest;
      assert IsGreatest(if m <= x then x else m, keys);
    }
  }

  function Least(keys: set<int>): (r: Option<int>)
    ensures r.None? <==> keys == {}
    ensures r.Some? ==> IsLeast(r.value, keys)
  {
    if keys == {} then
      None
    else
      LeastExists(keys);
      var m :| m in keys && IsLeast(m, keys);
      Some(m)
  }

  function Greatest(keys: set<int>): (r: Option<int>)
    ensures r.None? <==> keys == {}
    ensures r.Some? ==> IsGreatest(r.value, keys)
  {
    if keys == {} then
      None
    else
      GreatestExists(keys);
      var m :| m in keys && IsGreatest(m, keys);
      Some(m)
  }

  /** The first key above a bound. */
  function LeastAbove(keys: set<int>, bound: int): (r: Option<int>)
    ensures r.None? ==> forall k | k in keys :: k <= bound
    ensures r.Some? ==> r.value in keys && r.value > bound && forall k | k in keys && k > bound :: r.value <= k
  {
    var above := set k | k in keys && k > bound;
    assert forall k | k in keys && k > bound :: k in above;
    Least(above)
  }

  /** The last key at or below a bound. */
  function GreatestUpTo(keys: set<int>, bound: int): (r: Option<int>)
    ensures r.None? ==> forall k | k in keys :: k > bound
    ensures r.Some? ==> r.value in keys && r.value <= bound && forall k | k in keys && k <= bound :: k <= r.value
  {
    var below := set k | k in keys && k <= bound;
    assert forall k | k in keys && k <= bound :: k in below;
    Greatest(below)
  }
}
