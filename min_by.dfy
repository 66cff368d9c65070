/** Python's builtin `min(xs, key=k)`, which every nearest-neighbour step of
    the route planners calls. Over a list it returns the FIRST element whose key
    is least; over a set it returns a least element in the set's iteration
    order, which the model leaves open. */
module MinBy {

  /** `min` over a list: the position of the first element with the least key. */
  method MinByList<T>(xs: seq<T>, key: T -> real) returns (p: nat)
    requires |xs| > 0
    ensures p < |xs|
    ensures forall k :: 0 <= k < |xs| ==> key(xs[p]) <= key(xs[k])
    ensures forall k :: 0 <= k < p ==> key(xs[p]) < key(xs[k])
  {
    p := 0;
    var k := 1;
    while k < |xs|
      invariant 1 <= k <= |xs| && p < k
      invariant forall j :: 0 <= j < k ==> key(xs[p]) <= key(xs[j])
      invariant forall j :: 0 <= j < p ==> key(xs[p]) < key(xs[j])
    {
      if key(xs[k]) < key(xs[p]) {
        p := k;
      }
      k := k + 1;
    }
  }

  /** `min` over a set (or over a list built from a set): some element with the
      least key. The set is walked in an unspecified order, as Python does. */
  method MinBySet<T>(xs: set<T>, key: T -> real) returns (m: T)
    requires xs != {}
    ensures m in xs
    ensures forall x :: x in xs ==> key(m) <= key(x)
  {
    m :| m in xs;
    var rest := xs - {m};
    while rest != {}
      invariant rest <= xs && m in xs
      invariant forall x :: x in xs && x !in rest ==> key(m) <= key(x)
      decreases rest
    {
      var x :| x in rest;
      if key(x) < key(m) {
        m := x;
      }
      rest := rest - {x};
    }
  }
}
