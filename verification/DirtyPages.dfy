/**
  log_replay in fslog.c: removal of duplicate entries from the dirty page table.
  Entries are freed by the inner of two enumerations of the same table.
 */
module DirtyPages {
  import opened Extents
  import opened RestartTable

  /** struct DIR_PAGE_ENTRY behind its first word. */
  datatype DirtyPage = DirtyPage(attr: nat, transferLen: nat, lcnsFollow: nat, vcn: nat, oldest: nat, lcns: seq<nat>)

  type Pages = map<nat, DirtyPage>

  /** Two entries stand for the same page. */
  predicate Same(m: Pages, x: nat, y: nat)
    requires x in m && y in m
  {
    m[x].attr == m[y].attr && m[x].vcn == m[y].vcn
  }

  /** Some entry of `m`, not after `d`, stands for the page of `x`, which comes later. */
  ghost predicate Represented(m0: Pages, m: Pages, x: nat, d: nat)
    requires x in m0
  {
    exists y :: y in m && y in m0 && y < x && y <= d && Same(m0, y, x)
  }

  /** Entries of `m` are entries of `m0`, changed in their oldest LSN only. */
  ghost predicate Thinned(m0: Pages, m: Pages) {
    forall x :: x in m ==> x in m0 && m[x] == m0[x].(oldest := m[x].oldest)
  }

  /** The oldest LSN kept for `x` is the least one of its page. */
  ghost predicate Oldest(m0: Pages, m: Pages, x: nat)
    requires x in m0 && x in m
  {
    && (forall y :: y in m0 && Same(m0, x, y) ==> m[x].oldest <= m0[y].oldest)
    && exists y :: y in m0 && Same(m0, x, y) && m[x].oldest == m0[y].oldest
  }

  /** No other entry of `m` stands for the page of `x`. */
  ghost predicate Alone(m0: Pages, m: Pages, x: nat)
    requires x in m0
  {
    forall y :: y in m && y in m0 && y != x ==> !Same(m0, x, y)
  }

  /** The outer enumeration stands at `c`: all entries up to there are alone and carry the least LSN. */
  ghost predicate Outer(m0: Pages, m: Pages, c: Option<nat>) {
    && Thinned(m0, m)
    && (forall x :: x in m0 && x !in m ==> c.Some? && Represented(m0, m, x, c.value))
    && (forall x :: x in m && x in m0 && !After(c, x) ==> Alone(m0, m, x) && Oldest(m0, m, x))
    && (forall x :: x in m && After(c, x) ==> x in m0 && m[x] == m0[x])
  }

  /** While entry `d` is worked on: what holds of the other entries. */
  ghost predicate Others(m0: Pages, m: Pages, d: nat) {
    && Thinned(m0, m) && d in m
    && (forall x :: x in m0 && x !in m ==> Represented(m0, m, x, d))
    && (forall x :: x in m && x in m0 && x < d ==> Alone(m0, m, x) && Oldest(m0, m, x))
    && (forall x :: x in m && d < x ==> x in m0 && m[x] == m0[x])
  }

  /** The inner enumeration stands at `n`: entry `d` has absorbed its duplicates up to there. */
  ghost predicate Absorbed(m0: Pages, m: Pages, d: nat, n: nat) {
    && d in m && d in m0 && d <= n
    && (forall y :: y in m && y in m0 && d != y <= n ==> !Same(m0, d, y))
    && (forall y :: y in m0 && Same(m0, d, y) && (y !in m || y <= n) ==> m[d].oldest <= m0[y].oldest)
    && (exists y :: y in m0 && Same(m0, d, y) && m[d].oldest == m0[y].oldest)
  }

  ghost predicate Inner(m0: Pages, m: Pages, d: nat, n: nat) {
    Others(m0, m, d) && Absorbed(m0, m, d, n)
  }

  lemma StartInner(m0: Pages, m: Pages, c: Option<nat>, d: nat)
    requires Outer(m0, m, c) && d in m && After(c, d) && forall x :: x in m && After(c, x) ==> d <= x
    ensures Inner(m0, m, d, d)
  {
    assert d in m0 && m[d] == m0[d] && Same(m0, d, d);
    forall x | x in m && x in m0 && x < d
      ensures Alone(m0, m, x) && Oldest(m0, m, x) && !Same(m0, d, x)
    {
      assert !After(c, x);
    }
    forall x | x in m0 && x !in m
      ensures Represented(m0, m, x, d) && !Same(m0, d, x)
    {
      var y :| y in m && y in m0 && y < x && y <= c.value && Same(m0, y, x);
      assert !After(c, y) && Alone(m0, m, y);
    }
  }

  lemma StepKeeps(m0: Pages, m: Pages, d: nat, n: nat, x: nat)
    requires Inner(m0, m, d, n) && x in m && n < x && forall z :: z in m && n < z ==> x <= z
    requires x in m0 && d in m0 && !Same(m0, d, x)
    ensures Inner(m0, m, d, x)
  {
    hide Others;
    forall y | y in m0 && Same(m0, d, y) && (y !in m || y <= x)
      ensures m[d].oldest <= m0[y].oldest
    {
      assert y != x;
    }
  }

  /** Freeing a later duplicate `x` of `d` and keeping the older LSN at `d`. */
  ghost predicate Frees(m: Pages, d: nat, x: nat, m1: Pages) {
    && d in m && x in m
    && m1 == m[d := m[d].(oldest := if m[x].oldest < m[d].oldest then m[x].oldest else m[d].oldest)] - {x}
  }

  lemma FreesAbsorbs(m0: Pages, m: Pages, d: nat, n: nat, x: nat, m1: Pages)
    requires Absorbed(m0, m, d, n) && x in m && n < x && forall z :: z in m && n < z ==> x <= z
    requires x in m0 && Same(m0, d, x) && m[x] == m0[x] && Frees(m, d, x, m1)
    ensures Absorbed(m0, m1, d, x)
  {
    if m[x].oldest < m[d].oldest {
      assert m1[d].oldest == m0[x].oldest;
    } else {
      var y :| y in m0 && Same(m0, d, y) && m[d].oldest == m0[y].oldest;
      assert m1[d].oldest == m0[y].oldest;
    }
  }

  lemma FreesOthers(m0: Pages, m: Pages, d: nat, x: nat, m1: Pages)
    requires Others(m0, m, d) && d < x && d in m0 && x in m0 && x in m && Same(m0, d, x) && Frees(m, d, x, m1)
    ensures Others(m0, m1, d)
  {
    hide Represented, Alone, Oldest, Same;
    assert forall y :: y in m1 ==> y in m && (y != d ==> m1[y] == m[y]);
    forall y | y in m0 && y !in m1
      ensures Represented(m0, m1, y, d)
    {
      FreesRepresented(m0, m, d, x, m1, y);
    }
    forall y | y in m1 && y in m0 && y < d
      ensures Alone(m0, m1, y) && Oldest(m0, m1, y)
    {
      FreesKept(m0, m, d, x, m1, y);
    }
  }

  lemma FreesRepresented(m0: Pages, m: Pages, d: nat, x: nat, m1: Pages, y: nat)
    requires d < x && d in m0 && x in m0 && x in m && Same(m0, d, x) && Frees(m, d, x, m1)
    requires y in m0 && y !in m1 && (y !in m ==> Represented(m0, m, y, d))
    ensures Represented(m0, m1, y, d)
  {
    if y == x {
      assert d in m1 && d < x;
    } else {
      var z :| z in m && z in m0 && z < y && z <= d && Same(m0, z, y);
      assert z in m1;
    }
  }

  lemma FreesKept(m0: Pages, m: Pages, d: nat, x: nat, m1: Pages, y: nat)
    requires d < x && Frees(m, d, x, m1) && y in m1 && y in m0 && y in m && y < d
    requires Alone(m0, m, y) && Oldest(m0, m, y)
    ensures Alone(m0, m1, y) && Oldest(m0, m1, y)
  {
    assert m1[y] == m[y];
  }

  lemma StepFrees(m0: Pages, m: Pages, d: nat, n: nat, x: nat, m1: Pages)
    requires Inner(m0, m, d, n) && x in m && n < x && forall z :: z in m && n < z ==> x <= z
    requires x in m0 && d in m0 && Same(m0, d, x) && Frees(m, d, x, m1)
    ensures Inner(m0, m1, d, x)
  {
    hide Absorbed, Represented, Alone, Oldest;
    AtLeast(m0, m, d, n);
    FreesOthers(m0, m, d, x, m1);
    FreesAbsorbs(m0, m, d, n, x, m1);
  }

  lemma AtLeast(m0: Pages, m: Pages, d: nat, n: nat)
    requires Absorbed(m0, m, d, n)
    ensures d <= n && d in m && d in m0
  {
  }

  lemma EndInner(m0: Pages, m: Pages, d: nat, n: nat)
    requires Inner(m0, m, d, n) && forall z :: z in m ==> z <= n
    ensures Outer(m0, m, Some(d))
  {
    assert d in m0;
    assert Alone(m0, m, d) && Oldest(m0, m, d);
  }

  /** What is left: one entry per page, the first of each group, with the group's least LSN. */
  ghost predicate Deduplicated(m0: Pages, m: Pages) {
    && Thinned(m0, m)
    && (forall x :: x in m0 ==> (x in m <==> forall y :: y in m0 && y < x ==> !Same(m0, y, x)))
    && (forall x :: x in m && x in m0 ==> Alone(m0, m, x) && Oldest(m0, m, x))
  }

  lemma EndOuter(m0: Pages, m: Pages, c: Option<nat>)
    requires Outer(m0, m, c) && forall z :: z in m ==> !After(c, z)
    ensures Deduplicated(m0, m)
  {
    forall x | x in m0
      ensures x in m <==> forall y :: y in m0 && y < x ==> !Same(m0, y, x)
    {
      if x in m {
        forall y | y in m0 && y < x
          ensures !Same(m0, y, x)
        {
          if y in m {
            assert Alone(m0, m, x);
          } else {
            var z :| z in m && z in m0 && z < y && z <= c.value && Same(m0, z, y);
            assert Alone(m0, m, x);
          }
        }
      } else {
        assert Represented(m0, m, x, c.value);
      }
    }
  }


  /** The entries an enumeration at `c` has yet to meet. */
  ghost function Ahead(m: Pages, c: Option<nat>): (r: set<nat>)
    ensures forall x :: x in r <==> x in m && After(c, x)
  {
    set x | x in m && After(c, x)
  }

  lemma Progress(m: Pages, m1: Pages, c: Option<nat>, x: nat)
    requires x in m && After(c, x) && forall y :: y in m1 ==> y in m
    ensures Ahead(m1, Some(x)) < Ahead(m, c)
  {
    assert x in Ahead(m, c) && x !in Ahead(m1, Some(x));
  }

  /** What the loops need to know about entries `d` and `x` that were found by enumeration. */
  lemma Facts(m0: Pages, m: Pages, d: nat, n: nat)
    requires Inner(m0, m, d, n)
    ensures d in m && d in m0 && d <= n && forall x :: x in m ==>
              x in m0 && m[x].attr == m0[x].attr && m[x].vcn == m0[x].vcn
  {
  }

  /** The inner loop: entry `d` absorbs every later entry for the same page. */
  method Absorb(t: Table<DirtyPage>, d: nat, ghost m0: Pages)
    requires t.Valid() && Inner(m0, t.View(), d, d)
    modifies t
    ensures t.Valid() && Outer(m0, t.View(), Some(d)) && t.slots.Keys == old(t.slots.Keys)
    ensures forall x :: x in t.View() ==> x in old(t.View())
  {
    hide FreeList, OffSet, Entries, Outer, Inner;
    Facts(m0, t.View(), d, d);
    t.EntryIsSlot(d);
    var n := d;
    while true
      invariant t.Valid() && n in t.slots && Inner(m0, t.View(), d, n) && t.slots.Keys == old(t.slots.Keys)
      invariant forall x :: x in t.View() ==> x in old(t.View())
      decreases Ahead(t.View(), Some(n))
    {
      ghost var m := t.View();
      Facts(m0, m, d, n);
      var next := t.Next(Some(n));
      if next.None? {
        EndInner(m0, m, d, n);
        break;
      }
      var x := next.value;
      t.EntryIsSlot(x);
      var a := t.Read(d);
      var b := t.Read(x);
      if b.attr == a.attr && b.vcn == a.vcn {
        if b.oldest < a.oldest {
          t.Write(d, a.(oldest := b.oldest));
        }
        t.Free(x);
        SameUpdate(m, d, a);
        StepFrees(m0, m, d, n, x, t.View());
      } else {
        StepKeeps(m0, m, d, n, x);
      }
      Progress(m, t.View(), Some(n), x);
      n := x;
    }
  }

  lemma SameUpdate(m: Pages, d: nat, a: DirtyPage)
    requires d in m && m[d] == a
    ensures m[d := a] == m && a.(oldest := a.oldest) == a
  {
  }

  lemma StartOuter(m0: Pages)
    ensures Outer(m0, m0, None)
  {
  }

  /** The nested enumeration of lines 4235-4250. */
  method Deduplicate(t: Table<DirtyPage>)
    requires t.Valid()
    modifies t
    ensures t.Valid() && Deduplicated(old(t.View()), t.View())
  {
    hide FreeList, OffSet, Entries, Outer, Inner, Deduplicated;
    ghost var m0 := t.View();
    var dp: Option<nat> := None;
    StartOuter(m0);
    while true
      invariant t.Valid() && (dp.Some? ==> dp.value in t.slots) && Outer(m0, t.View(), dp)
      decreases Ahead(t.View(), dp)
    {
      ghost var m := t.View();
      var next := t.Next(dp);
      if next.None? {
        EndOuter(m0, m, dp);
        break;
      }
      var d := next.value;
      StartInner(m0, m, dp, d);
      t.EntryIsSlot(d);
      Absorb(t, d, m0);
      Progress(m, t.View(), dp, d);
      dp := next;
    }
  }
}
