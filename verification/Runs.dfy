/**
  run.c: the runs of a file, a sorted array of pieces that maps virtual clusters to logical
  clusters or to nothing on disk (sparse).
 */
module Runs {
  import opened Extents
  import opened Kernel

  datatype Lcn = Sparse | At(n: nat)

  /** struct ntfs_run */
  datatype Piece = Piece(vcn: nat, len: nat, lcn: Lcn) {
    function End(): nat { vcn + len }
    predicate Holds(v: nat) { vcn <= v < End() }
    function Loc(v: nat): Lcn
      requires vcn <= v
    {
      if lcn.Sparse? then Sparse else At(lcn.n + (v - vcn))
    }
  }

  /** What the array maps `v` to: the first piece that holds it. */
  function Find(rs: seq<Piece>, v: nat): Option<Lcn> {
    if rs == [] then None else if rs[0].Holds(v) then Some(rs[0].Loc(v)) else Find(rs[1..], v)
  }

  /** Both arrays map every cluster alike. */
  ghost predicate Alike(a: seq<Piece>, b: seq<Piece>) {
    forall v: nat :: Find(a, v) == Find(b, v)
  }

  /** Pieces are not empty, sorted, and do not overlap. */
  ghost predicate Sorted(rs: seq<Piece>) {
    && (forall i :: 0 <= i < |rs| ==> 0 < rs[i].len)
    && forall i, j :: 0 <= i < j < |rs| ==> rs[i].End() <= rs[j].vcn
  }

  /** Sorted, except that piece `q` may reach into the ones behind it. */
  ghost predicate Loose(rs: seq<Piece>, q: nat) {
    && (forall i :: 0 <= i < |rs| ==> 0 < rs[i].len)
    && (forall i, j :: 0 <= i < j < |rs| && i != q ==> rs[i].End() <= rs[j].vcn)
    && (forall j :: q < j < |rs| ==> rs[q].vcn <= rs[j].vcn)
  }

  lemma {:induction false} FindConcat(a: seq<Piece>, b: seq<Piece>, v: nat)
    ensures Find(a + b, v) == if Find(a, v).Some? then Find(a, v) else Find(b, v)
    decreases |a|
  {
    if a == [] {
      assert a + b == b;
    } else {
      assert (a + b)[1..] == a[1..] + b;
      FindConcat(a[1..], b, v);
    }
  }

  /** Two pieces, spelled out. */
  lemma FindPair(r: Piece, n: Piece, v: nat)
    ensures Find([r, n], v) == if r.Holds(v) then Some(r.Loc(v)) else if n.Holds(v) then Some(n.Loc(v)) else None
    ensures Find([r], v) == if r.Holds(v) then Some(r.Loc(v)) else None
  {
    assert [r, n][1..] == [n] && [n][1..] == [] && [r][1..] == [];
    assert Find([n], v) == if n.Holds(v) then Some(n.Loc(v)) else None;
  }

  /** Replacing a stretch of the array by one that maps alike changes nothing. */
  lemma Replace(a: seq<Piece>, x: seq<Piece>, y: seq<Piece>, b: seq<Piece>)
    requires Alike(x, y)
    ensures Alike(a + x + b, a + y + b)
  {
    forall v: nat
      ensures Find(a + x + b, v) == Find(a + y + b, v)
    {
      FindConcat(a + x, b, v);
      FindConcat(a, x, v);
      FindConcat(a + y, b, v);
      FindConcat(a, y, v);
    }
  }

  lemma {:induction false} FindIn(rs: seq<Piece>, i: nat, v: nat)
    requires Sorted(rs) && i < |rs| && rs[i].Holds(v)
    ensures Find(rs, v) == Some(rs[i].Loc(v))
    decreases |rs|
  {
    if 0 < i {
      assert rs[0].End() <= rs[i].vcn;
      FindIn(rs[1..], i - 1, v);
    }
  }

  lemma {:induction false} FindOut(rs: seq<Piece>, v: nat)
    requires forall i :: 0 <= i < |rs| ==> !rs[i].Holds(v)
    ensures Find(rs, v) == None
    decreases |rs|
  {
    if rs != [] {
      FindOut(rs[1..], v);
    }
  }

  // ----- the three ways in which two neighbours are brought into order

  /** The next piece is covered: it goes. */
  lemma Covered(r: Piece, n: Piece)
    requires r.vcn <= n.vcn && n.End() <= r.End()
    ensures Alike([r, n], [r])
  {
    forall v: nat
      ensures Find([r, n], v) == Find([r], v)
    {
      FindPair(r, n, v);
    }
  }

  /** The next piece is partly covered: its start moves. */
  function Trim(n: Piece, dl: nat): Piece
    requires dl <= n.len
  {
    Piece(n.vcn + dl, n.len - dl, if n.lcn.Sparse? then Sparse else At(n.lcn.n + dl))
  }

  lemma Trimmed(r: Piece, n: Piece)
    requires r.vcn <= n.vcn <= r.End() < n.End()
    ensures Alike([r, n], [r, Trim(n, r.End() - n.vcn)])
  {
    forall v: nat
      ensures Find([r, n], v) == Find([r, Trim(n, r.End() - n.vcn)], v)
    {
      FindPair(r, n, v);
      FindPair(r, Trim(n, r.End() - n.vcn), v);
    }
  }

  /** The next piece goes on where this one ends, in the file and on disk. */
  ghost predicate Siblings(r: Piece, n: Piece) {
    n.vcn == r.End() && r.lcn.Sparse? == n.lcn.Sparse? && (n.lcn.At? ==> n.lcn.n == r.lcn.n + r.len)
  }

  lemma JoinSiblings(r: Piece, n: Piece)
    requires Siblings(r, n)
    ensures Alike([r, n], [r.(len := r.len + n.len)])
  {
    forall v: nat
      ensures Find([r, n], v) == Find([r.(len := r.len + n.len)], v)
    {
      FindPair(r, n, v);
      FindPair(r.(len := r.len + n.len), n, v);
    }
  }

  lemma LooseSorted(rs: seq<Piece>, q: nat)
    ensures Sorted(rs) ==> Loose(rs, q)
    ensures |rs| <= q + 1 && Loose(rs, q) ==> Sorted(rs)
    ensures q + 1 < |rs| && Loose(rs, q) && rs[q].End() <= rs[q + 1].vcn ==> Sorted(rs)
  {
    if q + 1 < |rs| && Loose(rs, q) && rs[q].End() <= rs[q + 1].vcn {
      forall j | q < j < |rs|
        ensures rs[q].End() <= rs[j].vcn
      {
        assert q + 1 < j ==> rs[q + 1].End() <= rs[j].vcn;
      }
    }
  }

  /** The array without piece `k`. */
  function Drop(rs: seq<Piece>, k: nat): (c: seq<Piece>)
    requires k < |rs|
    ensures |c| == |rs| - 1 && forall j :: 0 <= j < |c| ==> c[j] == rs[if j < k then j else j + 1]
  {
    rs[..k] + rs[k + 1..]
  }

  class RunsTree {
    var runs: seq<Piece>
    var memory: Memory      // set by the environment, never by the methods

    ghost predicate Valid()
      reads this
    {
      Sorted(runs)
    }

    constructor (m: Memory)
      ensures runs == [] && memory == m
    {
      runs, memory := [], m;
    }

    /** run_lookup: the index of the piece that holds `vcn`, or where such a piece would go. */
    method Lookup(vcn: nat) returns (found: bool, index: nat)
      requires Valid()
      ensures found ==> index < |runs| && runs[index].Holds(vcn)
      ensures !found ==> index <= |runs| && (0 < index ==> runs[index - 1].End() <= vcn)
                         && (index < |runs| ==> vcn < runs[index].vcn)
    {
      if |runs| == 0 {
        return false, 0;
      }
      var lo, hi := 0, |runs| - 1;
      var r := runs[0];
      if vcn < r.vcn {
        return false, 0;
      }
      if vcn < r.End() {
        return true, 0;
      }
      r := runs[hi];
      if vcn >= r.End() {
        return false, |runs|;
      }
      if vcn >= r.vcn {
        return true, hi;
      }
      while lo <= hi
        invariant 0 <= lo <= hi + 1 <= |runs|
        invariant 0 < lo ==> runs[lo - 1].End() <= vcn
        invariant hi + 1 < |runs| ==> vcn < runs[hi + 1].vcn
        decreases hi - lo
      {
        var mid := lo + (hi - lo) / 2;
        r := runs[mid];
        if vcn < r.vcn {
          hi := mid - 1;
        } else if vcn >= r.End() {
          lo := mid + 1;
        } else {
          return true, mid;
        }
      }
      return false, hi + 1;
    }

    /** One round of run_consolidate on pieces `i` and `i + 1`, which touch or overlap. */
    method Settle(i: nat) returns (next: Round)
      requires i + 1 < |runs| && runs[i + 1].vcn <= runs[i].End()
      requires Loose(runs, i) || Loose(runs, i + 1)
      modifies this`runs
      ensures Alike(runs, old(runs))
      ensures next.Again? ==> Loose(runs, i) && |runs| + 1 == |old(runs)|
      ensures next.Advance? ==> |runs| == |old(runs)| && Loose(runs, i + 1)
      ensures next.Stop? ==> |runs| == |old(runs)| && if old(Loose(runs, i)) then Sorted(runs) else runs == old(runs)
    {
      hide Find, Alike, Loose, Sorted, Drop;
      AlikeSelf(runs);
      ghost var rs := runs;
      var r, n := runs[i], runs[i + 1];
      if r.End() > n.vcn {
        if n.End() <= r.End() {
          DropCovered(runs, i);
          runs := Drop(runs, i + 1);
          return Again;
        }
        TrimOne(runs, i);
        n := Trim(n, r.End() - n.vcn);
        runs := runs[i + 1 := n];
        LooseSorted(runs, i + 1);
      }
      InOrder(runs, i);
      if n.lcn.Sparse? != r.lcn.Sparse? {
        return Advance;
      }
      if n.lcn.At? && n.lcn.n != r.lcn.n + r.len {
        return Stop;
      }
      JoinOne(runs, i);
      AlikeTrans(rs, runs, Drop(runs[i := r.(len := r.len + n.len)], i + 1));
      runs := Drop(runs[i := r.(len := r.len + n.len)], i + 1);
      return Again;
    }

    /**
      run_consolidate: bring the pieces from `index` on into order, joining neighbours that belong
      together. What the array maps does not change.
     */
    method Consolidate(index0: nat)
      requires Loose(runs, index0) || Loose(runs, index0 + 1)
      modifies this`runs
      ensures Alike(runs, old(runs))
      ensures Sorted(runs) || (runs == old(runs) && !Loose(runs, index0) && Loose(runs, index0 + 1))
    {
      hide Find, Alike;
      var index: nat := index0;
      AlikeSelf(runs);
      while index + 1 < |runs|
        invariant Alike(runs, old(runs))
        invariant Loose(runs, index) || (index == index0 && runs == old(runs) && Loose(runs, index + 1))
        decreases |runs| - index
      {
        LooseSorted(runs, index);
        if runs[index + 1].vcn > runs[index].End() {
          break;
        }
        ghost var before := runs;
        var next := Settle(index);
        AlikeTrans(old(runs), before, runs);
        if next.Stop? {
          LooseSorted(runs, index);
          return;
        }
        if next.Advance? {
          index := index + 1;
        }
      }
      LooseSorted(runs, index);
      LooseSorted(runs, index + 1);
    }
  
    /** Insert a piece at `index` (lines 358-417). */
    method InsertAt(index: nat, p: Piece) returns (ok: bool)
      requires index <= |runs|
      modifies this`runs
      ensures runs == if ok then Inserted(old(runs), index, p) else old(runs)
      ensures memory == Plenty ==> ok
    {
      ok := TryAlloc(memory);
      if ok {
        runs := Inserted(runs, index, p);
      }
    }

    /** Where run_add_entry starts: a piece to work on, or a place for a new one (lines 331-349). */
    method StartPoint(p: Piece) returns (inrange: bool, index: nat)
      requires Valid()
      ensures if inrange then index < |runs| && runs[index].vcn <= p.vcn <= runs[index].End()
                              && (runs[index].End() == p.vcn ==>
                                  Continues(runs[index], p) && Gap(runs, index + 1, p.vcn))
              else Gap(runs, index, p.vcn)
    {
      inrange, index := Lookup(p.vcn);
      if !inrange && 0 < index {
        var t := runs[index - 1];
        if t.End() == p.vcn && t.lcn.Sparse? == p.lcn.Sparse? && (p.lcn.Sparse? || p.lcn.n == t.lcn.n + t.len) {
          inrange, index := true, index - 1;
        }
      }
    }

    /**
      The first part of run_add_entry: put `p` in place. The array may then reach too far at `pos`,
      and a tail of an overwritten piece may have to be put back.
     */
    method PutInPlace(p: Piece) returns (ok: bool, pos: nat, inrange: bool, tail: Option<Piece>)
      requires Valid() && 0 < p.len
      modifies this`runs
      ensures ok ==> pos < |runs| && Loose(runs, pos) && Partly(old(runs), runs, p, tail)
      ensures memory == Plenty ==> ok
      ensures !ok ==> Valid() && forall v: nat :: v < p.vcn ==> Find(runs, v) == Find(old(runs), v)
      ensures Find(old(runs), p.vcn).None? ==> tail.None? && (!ok ==> runs == old(runs))
    {
      hide Find, Loose, Partly, Inserted, Gap;
      ok, tail := true, None;
      inrange, pos := StartPoint(p);
      ghost var rs := runs;
      if !inrange {
        NewPiece(rs, pos, p);
        GapInside(rs, pos, p.vcn);
        ok := InsertAt(pos, p);
        return;
      }
      var r := runs[pos];
      if Continues(r, p) {
        runs := runs[pos := r.(len := if r.End() < p.End() then p.End() - r.vcn else r.len)];
        Extended(rs, pos, p, runs);
        return;
      }
      tail := TailOf(r, p);
      FindIn(rs, pos, p.vcn);
      if r.vcn < p.vcn {
        SplitPiece(rs, pos, p);
        runs := runs[pos := r.(len := p.vcn - r.vcn)];
        ok := InsertAt(pos + 1, p);
        pos, inrange := pos + 1, false;
        return;
      }
      runs := runs[pos := Piece(r.vcn, if r.End() < p.End() then p.len else r.len, p.lcn)];
      Overwritten(rs, pos, p, runs);
    }

    /**
      run_add_entry: [vcn, vcn + len) maps to `lcn` on, everything else as before. `bound` is any
      cluster past all that is mapped; it limits the recursion for the tail.
     */
    method AddEntry(p: Piece, ghost bound: nat) returns (ok: bool)
      requires Valid() && 0 < p.len && p.End() <= bound && forall v: nat :: bound <= v ==> Find(runs, v).None?
      modifies this`runs
      ensures Valid() && (memory == Plenty ==> ok)
      ensures ok ==> forall v: nat :: Find(runs, v) == if p.Holds(v) then Some(p.Loc(v)) else Find(old(runs), v)
      ensures !ok ==> forall v: nat :: v < p.vcn ==> Find(runs, v) == Find(old(runs), v)
      ensures !ok && Find(old(runs), p.vcn).None? ==> runs == old(runs)
      decreases bound - p.vcn
    {
      hide Find, Loose, Partly, Sorted;
      ghost var rs := runs;
      var pos, inrange, tail;
      ok, pos, inrange, tail := PutInPlace(p);
      if !ok {
        return;
      }
      ghost var rs1 := runs;
      var index := pos;
      if inrange && 0 < index {
        index := index - 1;
      }
      Consolidate(index);
      ghost var rs2 := runs;
      EitherLoose(rs2, index);
      Consolidate(index + 1);
      AlikeTrans(rs1, rs2, runs);
      PartlyAlike(rs, rs1, runs, p, tail);
      ghost var rs3 := runs;
      if tail.Some? {
        TailFits(rs, rs3, p, tail.value, bound);
        ok := AddEntry(tail.value, bound);
      }
      Finish(rs, rs3, runs, p, tail, ok);
    }
  
    /** run_lookup_entry: where `vcn` is, how far that piece goes on, and the piece's index. */
    method LookupEntry(vcn: nat) returns (found: bool, lcn: Lcn, len: nat, index: nat)
      requires Valid()
      ensures found <==> Find(runs, vcn).Some?
      ensures found ==> index < |runs| && runs[index].Holds(vcn) && vcn + len == runs[index].End()
      ensures found ==> 0 < len && lcn == runs[index].Loc(vcn)
    {
      hide Find, Sorted;
      found, index := Lookup(vcn);
      lcn, len := Sparse, 0;
      if !found {
        GapFree(runs, index, vcn);
        return;
      }
      var r := runs[index];
      FindIn(runs, index, vcn);
      var gap := vcn - r.vcn;
      lcn := if r.lcn.Sparse? then Sparse else At(r.lcn.n + gap);
      len := r.len - gap;
    }

    /** run_truncate: forget everything from `vcn` on. */
    method Truncate(vcn: nat)
      requires Valid()
      modifies this`runs
      ensures Valid()
      ensures forall v: nat :: Find(runs, v) == if v < vcn then Find(old(runs), v) else None
    {
      hide Find;
      var found, index := Lookup(vcn);
      ghost var rs := runs;
      if found {
        runs := runs[index := runs[index].(len := vcn - runs[index].vcn)];
        if runs[index].len > 0 {
          index := index + 1;
        }
      }
      runs := runs[..index];
      Truncated(rs, runs, vcn);
    }
  }

  datatype Round = Again | Advance | Stop

  lemma AlikeSelf(a: seq<Piece>)
    ensures Alike(a, a)
  {
  }

  lemma AlikeTrans(a: seq<Piece>, b: seq<Piece>, c: seq<Piece>)
    requires Alike(a, b) || Alike(b, a)
    requires Alike(b, c) || Alike(c, b)
    ensures Alike(a, c) && Alike(c, a)
  {
  }

  /** Neighbours in order, with at most one of them reaching too far. */
  lemma InOrder(rs: seq<Piece>, i: nat)
    requires i + 1 < |rs| && rs[i].End() <= rs[i + 1].vcn && (Loose(rs, i) || Loose(rs, i + 1))
    ensures Loose(rs, i + 1) && (Loose(rs, i) ==> Sorted(rs))
  {
    LooseSorted(rs, i);
    LooseSorted(rs, i + 1);
  }

  lemma DropCovered(rs: seq<Piece>, i: nat)
    requires i + 1 < |rs| && (Loose(rs, i) || Loose(rs, i + 1))
    requires rs[i + 1].vcn < rs[i].End() && rs[i + 1].End() <= rs[i].End()
    ensures Alike(Drop(rs, i + 1), rs) && Loose(Drop(rs, i + 1), i)
  {
    hide Find;
    var a, r, n, b := rs[..i], rs[i], rs[i + 1], rs[i + 2..];
    assert Loose(rs, i);
    Covered(r, n);
    Replace(a, [r, n], [r], b);
    assert rs == a + [r, n] + b && Drop(rs, i + 1) == a + [r] + b;
  }

  lemma TrimOne(rs: seq<Piece>, i: nat)
    requires i + 1 < |rs| && (Loose(rs, i) || Loose(rs, i + 1))
    requires rs[i + 1].vcn < rs[i].End() < rs[i + 1].End()
    ensures var n := Trim(rs[i + 1], rs[i].End() - rs[i + 1].vcn);
            Alike(rs[i + 1 := n], rs) && Sorted(rs[i + 1 := n]) && Loose(rs, i)
  {
    hide Find;
    var a, r, n, b := rs[..i], rs[i], rs[i + 1], rs[i + 2..];
    assert Loose(rs, i);
    var n' := Trim(n, r.End() - n.vcn);
    Trimmed(r, n);
    Replace(a, [r, n], [r, n'], b);
    var rs' := rs[i + 1 := n'];
    assert rs == a + [r, n] + b && rs' == a + [r, n'] + b;
    forall x, y | 0 <= x < y < |rs'|
      ensures rs'[x].End() <= rs'[y].vcn
    {
      assert i + 1 < y ==> rs[i + 1].End() <= rs[y].vcn;
    }
  }

  lemma JoinOne(rs: seq<Piece>, i: nat)
    requires i + 1 < |rs| && (Loose(rs, i) || Loose(rs, i + 1)) && Siblings(rs[i], rs[i + 1])
    ensures var rs' := Drop(rs[i := rs[i].(len := rs[i].len + rs[i + 1].len)], i + 1);
            Alike(rs', rs) && Loose(rs', i)
  {
    hide Find, Loose;
    var a, r, n, b := rs[..i], rs[i], rs[i + 1], rs[i + 2..];
    JoinSiblings(r, n);
    JoinedLoose(rs, i);
    Replace(a, [r, n], [r.(len := r.len + n.len)], b);
    var rs' := Drop(rs[i := r.(len := r.len + n.len)], i + 1);
    assert rs == a + [r, n] + b && rs' == a + [r.(len := r.len + n.len)] + b;
  }

  lemma JoinedLoose(rs: seq<Piece>, i: nat)
    requires i + 1 < |rs| && (Loose(rs, i) || Loose(rs, i + 1)) && Siblings(rs[i], rs[i + 1])
    ensures Loose(Drop(rs[i := rs[i].(len := rs[i].len + rs[i + 1].len)], i + 1), i)
  {
  }

  // ----- the cases of run_add_entry

  function Inserted(rs: seq<Piece>, index: nat, p: Piece): seq<Piece>
    requires index <= |rs|
  {
    rs[..index] + [p] + rs[index..]
  }

  /** `p` maps on from piece `r` on disk, at whatever cluster of `r` or just behind it `p` starts. */
  predicate Continues(r: Piece, p: Piece) {
    && r.vcn <= p.vcn
    && (r.lcn.Sparse? == p.lcn.Sparse?) && (p.lcn.At? ==> p.lcn.n == r.lcn.n + (p.vcn - r.vcn))
  }

  /** `vcn` falls between the pieces before `index` and those from `index` on. */
  ghost predicate Gap(rs: seq<Piece>, index: nat, vcn: nat) {
    && index <= |rs|
    && (0 < index ==> rs[index - 1].End() <= vcn)
    && (index < |rs| ==> vcn < rs[index].vcn)
  }

  /** What is left of `r` behind `p`. */
  function TailOf(r: Piece, p: Piece): Option<Piece> {
    if r.vcn <= p.vcn && p.End() < r.End() then Some(Trim(r, p.End() - r.vcn)) else None
  }

  /** `p` is mapped; everything else as in `rs`, except what lies in the tail, which `rs` maps as the tail says. */
  ghost predicate Partly(rs: seq<Piece>, rs1: seq<Piece>, p: Piece, tail: Option<Piece>) {
    && (forall v: nat :: p.Holds(v) ==> Find(rs1, v) == Some(p.Loc(v)))
    && (forall v: nat :: !p.Holds(v) && !(tail.Some? && tail.value.Holds(v)) ==> Find(rs1, v) == Find(rs, v))
    && (tail.Some? ==> 0 < tail.value.len && tail.value.vcn == p.End())
    && (tail.Some? ==> forall v: nat :: tail.value.Holds(v) ==> Find(rs, v) == Some(tail.value.Loc(v)))
  }

  lemma FindAround(a: seq<Piece>, x: seq<Piece>, b: seq<Piece>, v: nat)
    ensures Find(a + x + b, v) == if Find(a, v).Some? then Find(a, v)
                                  else if Find(x, v).Some? then Find(x, v) else Find(b, v)
  {
    FindConcat(a + x, b, v);
    FindConcat(a, x, v);
  }

  /** Pieces before position `i` of a sorted array hold nothing from `rs[i].vcn` on. */
  lemma NothingBefore(rs: seq<Piece>, i: nat, vcn: nat, v: nat)
    requires Sorted(rs) && i <= |rs| && vcn <= v && (0 < i ==> rs[i - 1].End() <= vcn)
    ensures Find(rs[..i], v).None?
  {
    forall j | 0 <= j < i
      ensures !rs[..i][j].Holds(v)
    {
      assert j < i - 1 ==> rs[j].End() <= rs[i - 1].vcn;
    }
    FindOut(rs[..i], v);
  }

  lemma GapInside(rs: seq<Piece>, index: nat, vcn: nat)
    requires Gap(rs, index, vcn)
    ensures index <= |rs|
  {
  }

  lemma NewPiece(rs: seq<Piece>, index: nat, p: Piece)
    requires Sorted(rs) && Gap(rs, index, p.vcn) && 0 < p.len
    ensures index <= |rs| && index < |Inserted(rs, index, p)|
    ensures Loose(Inserted(rs, index, p), index) && Partly(rs, Inserted(rs, index, p), p, None)
  {
    hide Find;
    var rs1 := Inserted(rs, index, p);
    var a, b := rs[..index], rs[index..];
    assert rs == a + b;
    forall v: nat
      ensures Find(rs1, v) == if p.Holds(v) then Some(p.Loc(v)) else Find(rs, v)
    {
      FindAround(a, [p], b, v);
      FindConcat(a, b, v);
      FindPair(p, p, v);
      if p.Holds(v) {
        NothingBefore(rs, index, p.vcn, v);
      }
    }
    InsertedLoose(rs, index, p);
  }

  lemma InsertedLoose(rs: seq<Piece>, index: nat, p: Piece)
    requires Sorted(rs) && Gap(rs, index, p.vcn) && 0 < p.len
    ensures Loose(Inserted(rs, index, p), index)
  {
    var rs1 := Inserted(rs, index, p);
    assert forall j :: 0 <= j < |rs1| ==> rs1[j] == if j < index then rs[j] else if j == index then p else rs[j - 1];
    forall j | 0 <= j < index
      ensures rs[j].End() <= p.vcn
    {
      assert j < index - 1 ==> rs[j].End() <= rs[index - 1].vcn;
    }
    forall j | index <= j < |rs|
      ensures p.vcn <= rs[j].vcn
    {
      assert index < j ==> rs[index].End() <= rs[j].vcn;
    }
  }

  /** One piece `r` of the array is replaced by `r1`, which starts at the same cluster. */
  lemma OneReplaced(rs: seq<Piece>, pos: nat, r1: Piece, rs1: seq<Piece>)
    requires Sorted(rs) && pos < |rs| && r1.vcn == rs[pos].vcn && 0 < r1.len && rs1 == rs[pos := r1]
    ensures Loose(rs1, pos)
    ensures forall v: nat :: Find(rs1, v) == if r1.Holds(v) then Some(r1.Loc(v))
                                             else if rs[pos].Holds(v) then None else Find(rs, v)
    ensures forall v: nat :: rs[pos].Holds(v) ==> Find(rs, v) == Some(rs[pos].Loc(v))
  {
    hide Find;
    var a, r, b := rs[..pos], rs[pos], rs[pos + 1..];
    assert rs == a + [r] + b && rs1 == a + [r1] + b;
    forall v: nat
      ensures Find(rs1, v) == if r1.Holds(v) then Some(r1.Loc(v)) else if r.Holds(v) then None else Find(rs, v)
      ensures r.Holds(v) ==> Find(rs, v) == Some(r.Loc(v))
    {
      FindAround(a, [r], b, v);
      FindAround(a, [r1], b, v);
      FindPair(r, r1, v);
      FindPair(r1, r, v);
      if r.vcn <= v {
        NothingBefore(rs, pos, r.vcn, v);
      }
      if r.Holds(v) {
        NothingBehind(rs, pos, v);
      }
    }
  }

  lemma NothingBehind(rs: seq<Piece>, pos: nat, v: nat)
    requires Sorted(rs) && pos < |rs| && v < rs[pos].End()
    ensures Find(rs[pos + 1..], v).None?
  {
    var b := rs[pos + 1..];
    forall j | 0 <= j < |b|
      ensures !b[j].Holds(v)
    {
      assert b[j] == rs[pos + 1 + j];
    }
    FindOut(b, v);
  }

  lemma Extended(rs: seq<Piece>, pos: nat, p: Piece, rs1: seq<Piece>)
    requires Sorted(rs) && pos < |rs| && Continues(rs[pos], p) && p.vcn <= rs[pos].End() && 0 < p.len
    requires rs1 == rs[pos := rs[pos].(len := if rs[pos].End() < p.End() then p.End() - rs[pos].vcn else rs[pos].len)]
    ensures Loose(rs1, pos) && Partly(rs, rs1, p, None)
  {
    hide Find, Sorted, Loose;
    var r, r1 := rs[pos], rs1[pos];
    SortedLen(rs, pos);
    OneReplaced(rs, pos, r1, rs1);
  }

  lemma SortedLen(rs: seq<Piece>, pos: nat)
    requires Sorted(rs) && pos < |rs|
    ensures 0 < rs[pos].len
  {
  }

  lemma Overwritten(rs: seq<Piece>, pos: nat, p: Piece, rs1: seq<Piece>)
    requires Sorted(rs) && pos < |rs| && rs[pos].vcn == p.vcn && 0 < p.len
    requires rs1 == rs[pos := Piece(p.vcn, if rs[pos].End() < p.End() then p.len else rs[pos].len, p.lcn)]
    ensures Loose(rs1, pos) && Partly(rs, rs1, p, TailOf(rs[pos], p))
  {
    hide Find, Sorted, Loose;
    SortedLen(rs, pos);
    OneReplaced(rs, pos, rs1[pos], rs1);
  }

  lemma SplitPiece(rs: seq<Piece>, pos: nat, p: Piece)
    requires Sorted(rs) && pos < |rs| && rs[pos].vcn < p.vcn < rs[pos].End() && 0 < p.len
    ensures var r := rs[pos];
            var rs0 := rs[pos := r.(len := p.vcn - r.vcn)];
            && Sorted(rs0) && (forall v: nat :: v < p.vcn ==> Find(rs0, v) == Find(rs, v))
            && pos + 1 < |Inserted(rs0, pos + 1, p)|
            && Loose(Inserted(rs0, pos + 1, p), pos + 1) && Partly(rs, Inserted(rs0, pos + 1, p), p, TailOf(r, p))
  {
    hide Find;
    var r := rs[pos];
    var r0 := r.(len := p.vcn - r.vcn);
    var rs0 := rs[pos := r0];
    OneReplaced(rs, pos, r0, rs0);
    SplitSorted(rs, pos, p);
    NewPiece(rs0, pos + 1, p);
    SplitMaps(rs, rs0, Inserted(rs0, pos + 1, p), pos, p);
  }

  lemma SplitSorted(rs: seq<Piece>, pos: nat, p: Piece)
    requires Sorted(rs) && pos < |rs| && rs[pos].vcn < p.vcn < rs[pos].End()
    ensures var rs0 := rs[pos := rs[pos].(len := p.vcn - rs[pos].vcn)];
            Sorted(rs0) && Gap(rs0, pos + 1, p.vcn)
  {
  }

  lemma SplitMaps(rs: seq<Piece>, rs0: seq<Piece>, rs1: seq<Piece>, pos: nat, p: Piece)
    requires pos < |rs| && rs[pos].vcn < p.vcn < rs[pos].End()
    requires var r0 := rs[pos].(len := p.vcn - rs[pos].vcn);
             forall v: nat :: Find(rs0, v) == if r0.Holds(v) then Some(r0.Loc(v))
                                              else if rs[pos].Holds(v) then None else Find(rs, v)
    requires forall v: nat :: rs[pos].Holds(v) ==> Find(rs, v) == Some(rs[pos].Loc(v))
    requires Partly(rs0, rs1, p, None)
    ensures Partly(rs, rs1, p, TailOf(rs[pos], p))
    ensures forall v: nat :: v < p.vcn ==> Find(rs0, v) == Find(rs, v)
  {
    hide Find;
  }

  lemma PartlyAlike(rs: seq<Piece>, rs1: seq<Piece>, rs2: seq<Piece>, p: Piece, tail: Option<Piece>)
    requires Partly(rs, rs1, p, tail) && Alike(rs2, rs1)
    ensures Partly(rs, rs2, p, tail)
  {
    hide Find;
  }

  lemma TailFits(rs: seq<Piece>, rs3: seq<Piece>, p: Piece, tail: Piece, bound: nat)
    requires Partly(rs, rs3, p, Some(tail)) && 0 < p.len && p.End() <= bound
    requires forall v: nat :: bound <= v ==> Find(rs, v).None?
    ensures p.vcn < tail.vcn && tail.End() <= bound && 0 < tail.len
    ensures forall v: nat :: bound <= v ==> Find(rs3, v).None?
  {
    hide Find;
    assert tail.Holds(tail.End() - 1);
  }

  lemma Finish(rs: seq<Piece>, rs3: seq<Piece>, rs4: seq<Piece>, p: Piece, tail: Option<Piece>, ok: bool)
    requires Partly(rs, rs3, p, tail)
    requires tail.None? ==> ok && rs4 == rs3
    requires tail.Some? && ok ==>
               forall v: nat :: Find(rs4, v) == if tail.value.Holds(v) then Some(tail.value.Loc(v)) else Find(rs3, v)
    requires tail.Some? && !ok ==> forall v: nat :: v < tail.value.vcn ==> Find(rs4, v) == Find(rs3, v)
    ensures ok ==> forall v: nat :: Find(rs4, v) == if p.Holds(v) then Some(p.Loc(v)) else Find(rs, v)
    ensures !ok ==> forall v: nat :: v < p.vcn ==> Find(rs4, v) == Find(rs, v)
  {
    hide Find;
  }

  /** After a first round of consolidation, the second one can start. */
  lemma EitherLoose(rs: seq<Piece>, index: nat)
    requires Sorted(rs) || Loose(rs, index + 1)
    ensures Loose(rs, index + 1)
  {
    LooseSorted(rs, index + 1);
  }

  lemma GapFree(rs: seq<Piece>, index: nat, vcn: nat)
    requires Sorted(rs) && index <= |rs| && (0 < index ==> rs[index - 1].End() <= vcn)
    requires index < |rs| ==> vcn < rs[index].vcn
    ensures Find(rs, vcn).None?
  {
    forall j | 0 <= j < |rs|
      ensures !rs[j].Holds(vcn)
    {
      assert j < index - 1 ==> rs[j].End() <= rs[index - 1].vcn;
      assert index < j ==> rs[index].End() <= rs[j].vcn;
    }
    FindOut(rs, vcn);
  }

  /** `rs1` is `rs` up to `vcn`, the piece across `vcn` cut short. */
  lemma Truncated(rs: seq<Piece>, rs1: seq<Piece>, vcn: nat)
    requires Sorted(rs) && Sorted(rs1) && |rs1| <= |rs|
    requires forall j :: 0 <= j < |rs1| ==> rs1[j].vcn == rs[j].vcn && rs1[j].lcn == rs[j].lcn
    requires forall j :: 0 <= j < |rs1| ==> rs1[j].End() == if rs[j].End() < vcn then rs[j].End() else vcn
    requires forall j :: |rs1| <= j < |rs| ==> vcn <= rs[j].vcn
    ensures forall v: nat :: Find(rs1, v) == if v < vcn then Find(rs, v) else None
  {
    hide Find;
    forall v: nat
      ensures Find(rs1, v) == if v < vcn then Find(rs, v) else None
    {
      if j :| 0 <= j < |rs1| && rs1[j].Holds(v) {
        FindIn(rs1, j, v);
        FindIn(rs, j, v);
      } else {
        FindOut(rs1, v);
        if v < vcn {
          FindOut(rs, v);
        }
      }
    }
  }
}
