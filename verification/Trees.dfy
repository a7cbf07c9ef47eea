/**
  The two search trees of the extent index, as ordered sets of nodes.
  Rebalancing is library code; what matters is the order in which nodes are met.
 */
module Trees {
  import opened Extents

  /** start_tree is ordered by start; count_tree by descending length, then by start. */
  datatype Order = ByStart | ByCount

  predicate Before(k: Order, a: Extent, b: Extent) {
    match k
    case ByStart => a.start < b.start
    case ByCount => a.len > b.len || (a.len == b.len && a.start < b.start)
  }

  /** rb_first */
  method First(k: Order, t: set<Extent>) returns (r: Option<Extent>)
    ensures r.None? <==> t == {}
    ensures r.Some? ==> r.value in t && forall x :: x in t ==> !Before(k, x, r.value)
  {
    if t == {} {
      return None;
    }
    var e :| e in t;
    var todo := t - {e};
    while todo != {}
      invariant e in t && todo <= t
      invariant forall x :: x in t && x !in todo ==> !Before(k, x, e)
    {
      var x :| x in todo;
      todo := todo - {x};
      if Before(k, x, e) {
        e := x;
      }
    }
    return Some(e);
  }

  /** Every nonempty tree has a first node. */
  lemma {:induction false} FirstExists(k: Order, t: set<Extent>) returns (e: Extent)
    requires t != {}
    ensures e in t && forall x :: x in t ==> !Before(k, x, e)
    decreases t
  {
    e :| e in t;
    var rest := t - {e};
    if rest != {} {
      var f := FirstExists(k, rest);
      assert forall x :: x in t ==> x == e || !Before(k, x, f);
      if Before(k, f, e) {
        e := f;
      }
    } else {
      assert t == {e};
    }
  }

  /** rb_last */
  method Last(k: Order, t: set<Extent>) returns (r: Option<Extent>)
    ensures r.None? <==> t == {}
    ensures r.Some? ==> r.value in t && forall x :: x in t ==> !Before(k, r.value, x)
  {
    if t == {} {
      return None;
    }
    var e :| e in t;
    var todo := t - {e};
    while todo != {}
      invariant e in t && todo <= t
      invariant forall x :: x in t && x !in todo ==> !Before(k, e, x)
    {
      var x :| x in todo;
      todo := todo - {x};
      if Before(k, e, x) {
        e := x;
      }
    }
    return Some(e);
  }

  /** rb_next */
  method Next(k: Order, t: set<Extent>, e: Extent) returns (r: Option<Extent>)
    ensures r.None? <==> forall x :: x in t ==> !Before(k, e, x)
    ensures r.Some? ==> r.value in t && Before(k, e, r.value)
    ensures r.Some? ==> forall x :: x in t && Before(k, e, x) ==> !Before(k, x, r.value)
  {
    var after := set x | x in t && Before(k, e, x);
    assert forall x :: x in t && Before(k, e, x) ==> x in after;
    r := First(k, after);
  }

  /** rb_prev */
  method Prev(k: Order, t: set<Extent>, e: Extent) returns (r: Option<Extent>)
    ensures r.None? <==> forall x :: x in t ==> !Before(k, x, e)
    ensures r.Some? ==> r.value in t && Before(k, r.value, e)
    ensures r.Some? ==> forall x :: x in t && Before(k, x, e) ==> !Before(k, r.value, x)
  {
    var before := set x | x in t && Before(k, x, e);
    assert forall x :: x in t && Before(k, x, e) ==> x in before;
    r := Last(k, before);
  }

  /** rb_lookup: the node with the greatest start not above `v`. */
  method Lookup(t: set<Extent>, v: nat) returns (r: Option<Extent>)
    ensures r.None? <==> forall x :: x in t ==> v < x.start
    ensures r.Some? ==> r.value in t && r.value.start <= v
    ensures r.Some? ==> forall x :: x in t && x.start <= v ==> x.start <= r.value.start
  {
    var low := set x | x in t && x.start <= v;
    assert forall x :: x in t && x.start <= v ==> x in low;
    r := Last(ByStart, low);
    assert r.Some? ==> forall x :: x in low ==> !Before(ByStart, r.value, x);
  }

  /** rb_first of start_tree */
  method FirstStart(t: set<Extent>) returns (r: Option<Extent>)
    ensures r.None? <==> t == {}
    ensures r.Some? ==> r.value in t && forall x :: x in t ==> r.value.start <= x.start
  {
    r := First(ByStart, t);
    assert r.Some? ==> forall x :: x in t ==> !Before(ByStart, x, r.value);
  }

  /** rb_next in start_tree */
  method NextStart(t: set<Extent>, e: Extent) returns (r: Option<Extent>)
    ensures r.None? <==> forall x :: x in t ==> x.start <= e.start
    ensures r.Some? ==> r.value in t && e.start < r.value.start
    ensures r.Some? ==> forall x :: x in t && e.start < x.start ==> r.value.start <= x.start
  {
    r := Next(ByStart, t, e);
    assert forall x :: x in t ==> (Before(ByStart, e, x) <==> e.start < x.start);
    assert r.Some? ==> forall x :: x in t && Before(ByStart, e, x) ==> !Before(ByStart, x, r.value);
  }
}
