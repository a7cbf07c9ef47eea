/**
  Runs of open bits, and the sets of extents that describe them.

  A bit is "open" when it is free in the bitmap and lies outside the reserved zone.
  The extent index is judged against an open map: a sequence with one flag per bit.
 */
module Extents {

  datatype Option<+T> = None | Some(value: T)

  /** One node of the index: `len` bits from `start`. */
  datatype Extent = Extent(start: nat, len: nat) {
    function End(): nat { start + len }
  }

  predicate Open(o: seq<bool>, i: int) {
    0 <= i < |o| && o[i]
  }

  ghost predicate AllOpen(o: seq<bool>, lo: int, hi: int) {
    forall i :: lo <= i < hi ==> Open(o, i)
  }

  /** `e` is a run of open bits that cannot be extended on either side. */
  ghost predicate MaximalRun(o: seq<bool>, e: Extent) {
    && 0 < e.len
    && AllOpen(o, e.start, e.End())
    && !Open(o, e.start - 1)
    && !Open(o, e.End())
  }

  /** Every indexed extent is a maximal open run. */
  ghost predicate Sound(t: set<Extent>, o: seq<bool>) {
    forall e :: e in t ==> MaximalRun(o, e)
  }

  /** Every maximal open run is indexed. */
  ghost predicate Complete(t: set<Extent>, o: seq<bool>) {
    forall e :: MaximalRun(o, e) ==> e in t
  }

  /** `o1` is `o0` with the closed range [lo, hi) opened. */
  ghost predicate Opened(o0: seq<bool>, o1: seq<bool>, lo: int, hi: int) {
    && (forall i :: Open(o1, i) <==> Open(o0, i) || lo <= i < hi)
    && (forall i :: lo <= i < hi ==> !Open(o0, i))
  }

  /** Two maximal runs that share a bit are the same run. */
  lemma SameRun(o: seq<bool>, a: Extent, b: Extent, i: int)
    requires MaximalRun(o, a) && MaximalRun(o, b)
    requires a.start <= i < a.End() && b.start <= i < b.End()
    ensures a == b
  {
    assert a.start < b.start ==> Open(o, b.start - 1);
    assert b.start < a.start ==> Open(o, a.start - 1);
    assert a.End() < b.End() ==> Open(o, a.End());
    assert b.End() < a.End() ==> Open(o, b.End());
  }

  /** Every open bit lies in a maximal run. */
  lemma RunAt(o: seq<bool>, i: int) returns (e: Extent)
    requires Open(o, i)
    ensures MaximalRun(o, e) && e.start <= i < e.End()
  {
    var lo, hi := i, i + 1;
    while Open(o, lo - 1)
      decreases lo
      invariant 0 <= lo <= i && AllOpen(o, lo, i + 1)
    {
      lo := lo - 1;
    }
    while Open(o, hi)
      invariant i < hi <= |o| && AllOpen(o, lo, hi)
      decreases |o| - hi
    {
      hi := hi + 1;
    }
    e := Extent(lo, hi - lo);
  }

  /** Distinct extents of a sound index are disjoint and not even adjacent. */
  lemma Separated(t: set<Extent>, o: seq<bool>, a: Extent, b: Extent)
    requires Sound(t, o) && a in t && b in t && a != b
    ensures a.End() < b.start || b.End() < a.start
  {
    assert Open(o, a.start) && Open(o, b.start);
    if a.start <= b.start < a.End() {
      SameRun(o, a, b, b.start);
    } else if b.start <= a.start < b.End() {
      SameRun(o, a, b, a.start);
    }
  }

  ghost predicate Apart(t: set<Extent>) {
    && (forall a :: a in t ==> 0 < a.len)
    && forall a, b :: a in t && b in t && a != b ==> a.End() < b.start || b.End() < a.start
  }

  lemma SoundApart(t: set<Extent>, o: seq<bool>)
    requires Sound(t, o)
    ensures Apart(t)
  {
    forall a, b | a in t && b in t && a != b
      ensures a.End() < b.start || b.End() < a.start
    {
      Separated(t, o, a, b);
    }
  }

  /** A range of open bits lies inside a given maximal run or misses it, with a gap between. */
  lemma InsideOrApart(o: seq<bool>, e: Extent, lo: int, hi: int)
    requires MaximalRun(o, e) && lo < hi && AllOpen(o, lo, hi)
    ensures (e.start <= lo && hi <= e.End()) || hi < e.start || e.End() < lo
  {
    assert Open(o, lo);
    assert lo <= e.End() < hi ==> Open(o, e.End());
    assert lo < e.start <= hi ==> Open(o, e.start - 1);
  }

  /** Opening [lo, hi) leaves a run maximal unless the run touches that range. */
  lemma OpenedKeeps(o0: seq<bool>, o1: seq<bool>, lo: int, hi: int, e: Extent)
    requires Opened(o0, o1, lo, hi) && lo < hi
    requires MaximalRun(o0, e)
    ensures MaximalRun(o1, e) <==> e.End() != lo && e.start != hi
    ensures e.End() <= lo || hi <= e.start
  {
    assert Open(o0, e.start) && Open(o0, e.End() - 1);
    assert e.start <= lo < e.End() ==> Open(o0, lo);
    assert Open(o1, lo) && Open(o1, hi - 1);
  }

  /** The extents of `t` that do not end at `p`. */
  ghost function EndingElsewhere(t: set<Extent>, p: int): (r: set<Extent>)
    ensures forall e :: e in r <==> e in t && e.End() != p
  {
    set e | e in t && e.End() != p
  }

  /** The extents of `t` that do not start at `p`. */
  ghost function StartingElsewhere(t: set<Extent>, p: int): (r: set<Extent>)
    ensures forall e :: e in r <==> e in t && e.start != p
  {
    set e | e in t && e.start != p
  }

  /** Extents lie wholly before or wholly after a range that is about to be opened. */
  ghost predicate Clear(t: set<Extent>, lo: nat, hi: nat) {
    forall e :: e in t ==> e.End() <= lo || hi <= e.start
  }

  /** What a lookup at `lo` finds in an index that is clear of [lo, hi). */
  lemma LookupLeft(t: set<Extent>, lo: nat, hi: nat, found: Option<Extent>)
    requires Apart(t) && Clear(t, lo, hi) && lo < hi
    requires found.None? <==> forall x :: x in t ==> lo < x.start
    requires found.Some? ==> found.value in t && found.value.start <= lo
    requires found.Some? ==> forall x :: x in t && x.start <= lo ==> x.start <= found.value.start
    ensures found.Some? ==> 0 < found.value.len
    ensures forall x :: x in t && x.End() == lo ==> found == Some(x)
    ensures forall x :: x in t ==> (hi <= x.start <==> found.None? || found.value.start < x.start)
  {
    forall x | x in t && x.End() == lo
      ensures found == Some(x)
    {
      assert x.start <= lo;
    }
  }

  lemma NoneTouching(t: set<Extent>, p: int)
    ensures (forall e :: e in t ==> e.End() != p) ==> EndingElsewhere(t, p) == t
    ensures (forall e :: e in t ==> e.start != p) ==> StartingElsewhere(t, p) == t
  {
  }

  /** In a separated set, one extent is the only one with its start and the only one with its end. */
  lemma OnlyNeighbour(t: set<Extent>, e: Extent)
    requires Apart(t) && e in t
    ensures StartingElsewhere(t, e.start) == t - {e} == EndingElsewhere(t, e.End())
  {
  }

  /**
    Opening [lo, hi): replacing the extents that touch the range by the run around it
    keeps an index sound, and complete if it was complete.
   */
  lemma OpenedIndex(t: set<Extent>, kept: set<Extent>, o0: seq<bool>, o1: seq<bool>, lo: int, hi: int, n: Extent)
    requires Opened(o0, o1, lo, hi) && lo < hi
    requires Sound(t, o0) && kept == StartingElsewhere(EndingElsewhere(t, lo), hi)
    requires MaximalRun(o1, n) && n.start <= lo && hi <= n.End()
    ensures Sound(kept + {n}, o1)
    ensures Complete(t, o0) ==> Complete(kept + {n}, o1)
    ensures n !in kept
  {
    forall e | e in kept
      ensures MaximalRun(o1, e) && (e.End() < n.start || n.End() < e.start)
    {
      OpenedKeeps(o0, o1, lo, hi, e);
      Separated({e, n}, o1, e, n);
    }
    if Complete(t, o0) {
      forall r | MaximalRun(o1, r)
        ensures r in kept + {n}
      {
        if r != n {
          Separated({r, n}, o1, r, n);
          assert MaximalRun(o0, r);
        }
      }
    }
  }

  /** The run around a freshly opened range, when the index of the rest is complete. */
  lemma NeighboursIndexed(t: set<Extent>, o0: seq<bool>, o1: seq<bool>, lo: int, hi: int)
    requires Opened(o0, o1, lo, hi) && lo < hi && Complete(t, o0)
    ensures Open(o1, lo - 1) ==> exists e :: e in t && e.End() == lo
    ensures Open(o1, hi) ==> exists e :: e in t && e.start == hi
  {
    if Open(o1, lo - 1) {
      var e := RunAt(o0, lo - 1);
      assert lo < e.End() ==> Open(o0, lo);
    }
    if Open(o1, hi) {
      var e := RunAt(o0, hi);
      assert e.start < hi ==> Open(o0, hi - 1);
    }
  }

  function Piece(start: nat, end: nat): set<Extent>
    requires start <= end
  {
    if start < end then {Extent(start, end - start)} else {}
  }

  /**
    Closing [lo, hi) inside the indexed run `e`: the pieces of `e` left on both sides replace it.
   */
  lemma ClosedInside(t: set<Extent>, o0: seq<bool>, o1: seq<bool>, lo: nat, hi: nat, e: Extent)
    requires Opened(o1, o0, lo, hi) && lo < hi
    requires Sound(t, o0) && e in t && e.start <= lo && hi <= e.End()
    ensures Sound(CutSet(t, e, lo, hi), o1)
    ensures Complete(t, o0) ==> Complete(CutSet(t, e, lo, hi), o1)
  {
    var t1 := CutSet(t, e, lo, hi);
    forall x | x in t1
      ensures MaximalRun(o1, x)
    {
      if x in t - {e} {
        Separated(t, o0, x, e);
      } else if x in Piece(e.start, lo) {
        assert !Open(o1, lo);
      } else {
        assert !Open(o1, hi - 1);
      }
    }
    if Complete(t, o0) {
      forall r | MaximalRun(o1, r)
        ensures r in t1
      {
        ClosedRun(o0, o1, lo, hi, e, r);
      }
    }
  }

  /** A run that is maximal after closing [lo, hi) is a piece of `e` or was maximal before. */
  lemma ClosedRun(o0: seq<bool>, o1: seq<bool>, lo: nat, hi: nat, e: Extent, r: Extent)
    requires Opened(o1, o0, lo, hi) && lo < hi
    requires MaximalRun(o0, e) && e.start <= lo && hi <= e.End()
    requires MaximalRun(o1, r)
    ensures r in Piece(e.start, lo) + Piece(hi, e.End()) || (r != e && MaximalRun(o0, r))
  {
    assert Open(o1, r.start) && Open(o1, r.End() - 1);
    assert !Open(o1, lo) && !Open(o1, hi - 1);
    assert r.start < lo < r.End() ==> Open(o1, lo);
    assert e.start < lo && r.End() == lo ==> Open(o1, e.start);
    if e.start <= r.start < lo {
      PieceRun(o1, e.start, lo, r);
    } else if hi <= r.start < e.End() {
      PieceRun(o1, hi, e.End(), r);
    } else {
      InsideOrApart(o0, e, r.start, r.End());
    }
  }

  lemma PieceRun(o1: seq<bool>, lo: nat, hi: nat, r: Extent)
    requires MaximalRun(o1, r) && lo <= r.start < hi
    requires AllOpen(o1, lo, hi) && !Open(o1, hi) && !Open(o1, lo - 1)
    ensures r in Piece(lo, hi)
  {
    SameRun(o1, r, Extent(lo, hi - lo), r.start);
  }

  /** Closing a range whose run is not indexed leaves a sound index sound. */
  lemma ClosedOutside(t: set<Extent>, o0: seq<bool>, o1: seq<bool>, lo: nat, hi: nat)
    requires Opened(o1, o0, lo, hi) && lo < hi
    requires Sound(t, o0)
    requires forall e :: e in t ==> !(e.start <= lo && hi <= e.End())
    ensures Sound(t, o1)
    ensures !Complete(t, o0)
  {
    assert AllOpen(o0, lo, hi);
    forall e | e in t
      ensures MaximalRun(o1, e)
    {
      InsideOrApart(o0, e, lo, hi);
    }
    var r := RunAt(o0, lo);
    InsideOrApart(o0, r, lo, hi);
  }

  /** A larger set of extents loses soundness nowhere when some are dropped. */
  lemma SoundSubset(t: set<Extent>, s: set<Extent>, o: seq<bool>)
    requires Sound(t, o) && s <= t
    ensures Sound(s, o)
  {
  }

  /**
    An index that is exact for one choice of zone cannot be sound for a zone that
    covers some bit the index still offers.
   */
  lemma WrongZone(t: set<Extent>, o: seq<bool>, o': seq<bool>, i: int)
    requires Complete(t, o) && Open(o, i) && !Open(o', i)
    ensures !Sound(t, o')
  {
    var e := RunAt(o, i);
    assert !MaximalRun(o', e);
  }

  /** [lo, hi) grew to [bit, end) by joining exactly the extents of `t` that touch it. */
  ghost predicate Joined(t: set<Extent>, lo: nat, hi: nat, bit: nat, end: nat) {
    && bit <= lo && hi <= end
    && (if bit < lo then Extent(bit, lo - bit) in t else forall e :: e in t ==> e.End() != lo)
    && (if hi < end then Extent(hi, end - hi) in t else forall e :: e in t ==> e.start != hi)
  }

  /** The joined range is open, and maximal if the index was complete. */
  lemma JoinedRun(t: set<Extent>, o0: seq<bool>, o1: seq<bool>, lo: nat, hi: nat, bit: nat, end: nat)
    requires Opened(o0, o1, lo, hi) && lo < hi && Sound(t, o0) && Joined(t, lo, hi, bit, end)
    ensures bit <= lo && hi <= end <= |o1| && AllOpen(o1, bit, end)
    ensures Complete(t, o0) ==> MaximalRun(o1, Extent(bit, end - bit))
  {
    assert AllOpen(o1, bit, end);
    assert Open(o1, end - 1);
    if Complete(t, o0) {
      NeighboursIndexed(t, o0, o1, lo, hi);
    }
  }

  /** An extent that was joined into a longer range is shorter than it. */
  lemma JoinedShorter(t: set<Extent>, lo: nat, hi: nat, bit: nat, end: nat)
    requires Apart(t) && lo < hi && Joined(t, lo, hi, bit, end)
    ensures forall m :: m in t ==> m in StartingElsewhere(EndingElsewhere(t, lo), hi) || m.len < end - bit
  {
    assert bit < lo ==> forall m :: m in t && m.End() == lo ==> m == Extent(bit, lo - bit);
    assert hi < end ==> forall m :: m in t && m.start == hi ==> m == Extent(hi, end - hi);
  }

  lemma OpenedClear(t: set<Extent>, o0: seq<bool>, o1: seq<bool>, lo: int, hi: int)
    requires Opened(o0, o1, lo, hi) && lo < hi && Sound(t, o0)
    ensures Apart(t) && forall e :: e in t ==> e.End() <= lo || hi <= e.start
  {
    SoundApart(t, o0);
    forall e | e in t
      ensures e.End() <= lo || hi <= e.start
    {
      OpenedKeeps(o0, o1, lo, hi, e);
    }
  }

  /** `t` after [lo, hi) was cut out of its extent `e`. */
  ghost function CutSet(t: set<Extent>, e: Extent, lo: nat, hi: nat): set<Extent>
    requires e.start <= lo <= hi <= e.End()
  {
    t - {e} + Piece(e.start, lo) + Piece(hi, e.End())
  }

  lemma PiecesFresh(t: set<Extent>, e: Extent, lo: nat, hi: nat)
    requires Apart(t) && e in t && e.start <= lo < hi <= e.End()
    ensures e.start < lo ==> Extent(e.start, lo - e.start) !in t
    ensures hi < e.End() ==> Extent(hi, e.End() - hi) !in t
    ensures lo - e.start < e.len && e.End() - hi < e.len
  {
  }

  /** The longest length after a cut is a remaining extent's, if any remains. */
  lemma CutAttained(t: set<Extent>, e: Extent, lo: nat, hi: nat, m: nat)
    requires Apart(t) && e in t && e.start <= lo < hi <= e.End()
    requires forall x :: x in t - {e} ==> x.len <= m
    requires lo - e.start <= m && e.End() - hi <= m
    requires m == lo - e.start || m == e.End() - hi || exists x :: x in t - {e} && x.len == m
    ensures if m == 0 then CutSet(t, e, lo, hi) == {} else exists x :: x in CutSet(t, e, lo, hi) && x.len == m
  {
    var c := CutSet(t, e, lo, hi);
    if m == 0 {
      assert t - {e} == {};
    } else if m == lo - e.start {
      assert Extent(e.start, m) in c;
    } else if m == e.End() - hi {
      assert Extent(hi, m) in c;
    } else {
      var x :| x in t - {e} && x.len == m;
      assert x in c;
    }
  }

  lemma CutBounded(t: set<Extent>, e: Extent, lo: nat, hi: nat, m: nat)
    requires e.start <= lo < hi <= e.End()
    requires forall x :: x in t - {e} ==> x.len <= m
    requires lo - e.start <= m && e.End() - hi <= m
    ensures forall x :: x in CutSet(t, e, lo, hi) ==> x.len <= m
  {
  }

  /** A lookup at the start of an open range finds the run that holds the range, if that run is indexed. */
  lemma LookupOpen(t: set<Extent>, o: seq<bool>, lo: nat, hi: nat, found: Option<Extent>)
    requires Sound(t, o) && lo < hi && AllOpen(o, lo, hi)
    requires found.None? <==> forall x :: x in t ==> lo < x.start
    requires found.Some? ==> found.value in t && found.value.start <= lo
    requires found.Some? ==> forall x :: x in t && x.start <= lo ==> x.start <= found.value.start
    ensures found.Some? ==> hi <= found.value.End() || found.value.End() < lo
    ensures (found.Some? && hi <= found.value.End()) || forall e :: e in t ==> !(e.start <= lo && hi <= e.End())
    ensures forall x :: x in t && lo < x.start ==> hi < x.start
  {
    forall x | x in t
      ensures (x.start <= lo && hi <= x.End()) || hi < x.start || x.End() < lo
    {
      InsideOrApart(o, x, lo, hi);
    }
    SoundApart(t, o);
  }

  lemma OpenedOpen(o0: seq<bool>, o1: seq<bool>, lo: int, hi: int)
    requires Opened(o0, o1, lo, hi)
    ensures AllOpen(o1, lo, hi)
  {
  }

  // ----- building an index from left to right

  /**
    A scan has reached `p`: the last `tail` bits before `p` are the open run still being read, and `t`
    holds runs that ended before `p` - all of them, if `complete`.
   */
  ghost predicate Scanned(t: set<Extent>, complete: bool, o: seq<bool>, p: nat, tail: nat) {
    && tail <= p && AllOpen(o, p - tail, p) && !Open(o, p - tail - 1)
    && Sound(t, o) && (forall e :: e in t ==> e.End() < p)
    && (complete ==> forall e :: MaximalRun(o, e) && e.End() < p ==> e in t)
  }

  /** The scan met closed bits [p, q): the run being read, if any, is finished. */
  lemma ScanClosed(t: set<Extent>, complete: bool, o: seq<bool>, p: nat, tail: nat, q: nat, t': set<Extent>)
    requires Scanned(t, complete, o, p, tail) && p < q
    requires forall i :: p <= i < q ==> !Open(o, i)
    requires t' <= t + Piece(p - tail, p) && (complete ==> t' == t + Piece(p - tail, p))
    ensures Scanned(t', complete, o, q, 0)
  {
    forall e | complete && MaximalRun(o, e) && e.End() < q
      ensures e in t'
    {
      assert Open(o, e.End() - 1);
      assert e.End() <= p;
      if e.End() == p {
        assert tail > 0 by { assert Open(o, p - 1); }
        SameRun(o, e, Extent(p - tail, tail), p - 1);
      }
    }
  }

  /** The scan met open bits [p, f) and then a closed bit: one more run. */
  lemma ScanRun(t: set<Extent>, complete: bool, o: seq<bool>, p: nat, tail: nat, f: nat, t': set<Extent>)
    requires Scanned(t, complete, o, p, tail) && p < f && AllOpen(o, p, f) && !Open(o, f)
    requires t' <= t + {Extent(p - tail, f - (p - tail))}
    requires complete ==> t' == t + {Extent(p - tail, f - (p - tail))}
    ensures Scanned(t', complete, o, f + 1, 0)
  {
    var n := Extent(p - tail, f - (p - tail));
    assert MaximalRun(o, n) && Open(o, p);
    forall e | complete && MaximalRun(o, e) && e.End() < f + 1
      ensures e in t'
    {
      if e.End() >= p {
        assert Open(o, e.End() - 1);
        if p - tail < e.End() {
          SameRun(o, e, n, e.End() - 1);
        }
      }
    }
  }

  /** The scan met open bits [p, q) and goes on. */
  lemma ScanOpen(t: set<Extent>, complete: bool, o: seq<bool>, p: nat, tail: nat, q: nat)
    requires Scanned(t, complete, o, p, tail) && p <= q && AllOpen(o, p, q)
    ensures Scanned(t, complete, o, q, tail + (q - p))
  {
    forall e | complete && MaximalRun(o, e) && e.End() < q
      ensures e in t
    {
      assert p <= e.End() ==> Open(o, e.End());
    }
  }

  /** At the end of the map the run being read is finished, and the index is whole. */
  lemma ScanDone(t: set<Extent>, complete: bool, o: seq<bool>, tail: nat, t': set<Extent>)
    requires Scanned(t, complete, o, |o|, tail)
    requires t' <= t + Piece(|o| - tail, |o|) && (complete ==> t' == t + Piece(|o| - tail, |o|))
    ensures Sound(t', o) && (complete ==> Complete(t', o))
  {
    ScanClosed(t, complete, o, |o|, tail, |o| + 1, t');
    forall e | complete && MaximalRun(o, e)
      ensures e in t'
    {
      assert Open(o, e.End() - 1);
    }
  }

  /** On an exact index whose nodes are at most `m` long, no open range is longer than `m`. */
  lemma RangeBound(t: set<Extent>, o: seq<bool>, m: nat, lo: int, hi: int)
    requires Complete(t, o) && (forall e :: e in t ==> e.len <= m)
    requires lo < hi && AllOpen(o, lo, hi)
    ensures hi - lo <= m && t != {}
  {
    assert Open(o, lo);
    var r := RunAt(o, lo);
    InsideOrApart(o, r, lo, hi);
  }

  /** Some range of `n` open bits exists. */
  ghost predicate HasRange(o: seq<bool>, n: nat) {
    exists lo: int, hi: int :: hi - lo == n && AllOpen(o, lo, hi)
  }

  /** The index is one node that covers the whole map. */
  lemma WholeNode(t: set<Extent>, o: seq<bool>, e: Extent)
    requires Sound(t, o) && e in t && |o| <= e.len
    ensures e == Extent(0, |o|) && t == {e} && AllOpen(o, 0, |o|)
  {
    assert Open(o, e.start) && Open(o, e.End() - 1);
    forall x | x in t
      ensures x == e
    {
      assert MaximalRun(o, x);
      assert Open(o, x.start);
      SameRun(o, x, e, x.start);
    }
  }
}
