/**
  attrib.c: allocating clusters for an attribute in several fragments, with roll-back, and freeing
  them again. The cluster bitmap is taken by what its operations promise.
 */
module Clusters {
  import opened Extents
  import opened Kernel
  import opened Bits
  import opened Runs

  /** Some cluster in [lo, hi) of the file is on disk at `c`. */
  ghost predicate Target(rs: seq<Piece>, lo: nat, hi: nat, c: nat) {
    exists v: nat :: lo <= v < hi && Find(rs, v) == Some(At(c))
  }

  /** `b1` is `b0` with every cluster that [lo, hi) of the file is at free, and no other changed. */
  ghost predicate Freed(b0: seq<bool>, b1: seq<bool>, rs: seq<Piece>, lo: nat, hi: nat) {
    |b1| == |b0| && forall c: nat :: c < |b0| ==> b1[c] == (b0[c] && !Target(rs, lo, hi, c))
  }

  /** All of [lo, hi) is mapped. */
  ghost predicate Mapped(rs: seq<Piece>, lo: nat, hi: nat) {
    forall v: nat :: lo <= v < hi ==> Find(rs, v).Some?
  }

  /** How many of the clusters [lo, hi) of the file are on disk. */
  ghost function OnDisk(rs: seq<Piece>, lo: nat, hi: nat): nat {
    if lo < hi then OnDisk(rs, lo, hi - 1) + (if Find(rs, hi - 1).Some? && Find(rs, hi - 1).value.At? then 1 else 0)
    else 0
  }

  /** [lo, hi) of the file is on disk at `lcn` on, or nowhere. */
  ghost predicate Straight(rs: seq<Piece>, lo: nat, hi: nat, lcn: Lcn) {
    forall v: nat :: lo <= v < hi ==> Find(rs, v) == Some(Piece(lo, hi - lo, lcn).Loc(v))
  }

  lemma {:induction false} OnDiskStraight(rs: seq<Piece>, lo: nat, mid: nat, hi: nat, lcn: Lcn)
    requires lo <= mid <= hi && Straight(rs, mid, hi, lcn)
    ensures OnDisk(rs, lo, hi) == OnDisk(rs, lo, mid) + if lcn.At? then hi - mid else 0
    decreases hi
  {
    if mid < hi {
      assert Find(rs, hi - 1) == Some(Piece(mid, hi - mid, lcn).Loc(hi - 1));
      OnDiskStraight(rs, lo, mid, hi - 1, lcn);
    }
  }

  lemma FreedMore(b0: seq<bool>, b1: seq<bool>, b2: seq<bool>, rs: seq<Piece>, lo: nat, mid: nat, hi: nat, lcn: Lcn)
    requires lo <= mid <= hi && Freed(b0, b1, rs, lo, mid) && Straight(rs, mid, hi, lcn)
    requires |b2| == |b1|
    requires forall c: nat :: c < |b1| ==> b2[c] == (b1[c] && !(lcn.At? && lcn.n <= c < lcn.n + (hi - mid)))
    ensures Freed(b0, b2, rs, lo, hi)
  {
    hide Find;
    forall c: nat | c < |b0|
      ensures Target(rs, lo, hi, c) <==> Target(rs, lo, mid, c) || (lcn.At? && lcn.n <= c < lcn.n + (hi - mid))
    {
      if Target(rs, lo, hi, c) {
        var v: nat :| lo <= v < hi && Find(rs, v) == Some(At(c));
        assert v < mid ==> Target(rs, lo, mid, c);
      }
      if lcn.At? && lcn.n <= c < lcn.n + (hi - mid) {
        assert Find(rs, mid + (c - lcn.n)) == Some(At(c));
      }
    }
  }

  lemma FreedNone(b: seq<bool>, rs: seq<Piece>, lo: nat)
    ensures Freed(b, b, rs, lo, lo)
  {
  }

  /** A piece of a sorted array maps its own clusters. */
  lemma PieceStraight(rs: seq<Piece>, i: nat, lo: nat, hi: nat)
    requires Sorted(rs) && i < |rs| && rs[i].vcn <= lo <= hi <= rs[i].End()
    ensures Straight(rs, lo, hi, rs[i].Loc(lo))
  {
    hide Find;
    forall v: nat | lo <= v < hi
      ensures Find(rs, v) == Some(Piece(lo, hi - lo, rs[i].Loc(lo)).Loc(v))
    {
      FindIn(rs, i, v);
    }
  }

  /** Where piece `i` ends, the next piece goes on, or nothing does. */
  lemma BehindPiece(rs: seq<Piece>, i: nat)
    requires Sorted(rs) && i < |rs|
    requires i + 1 < |rs| ==> rs[i + 1].vcn != rs[i].End()
    ensures Find(rs, rs[i].End()).None?
  {
    GapFree(rs, i + 1, rs[i].End());
  }

  lemma MappedMore(rs: seq<Piece>, lo: nat, mid: nat, hi: nat, lcn: Lcn)
    requires lo <= mid <= hi && Mapped(rs, lo, mid) && Straight(rs, mid, hi, lcn)
    ensures Mapped(rs, lo, hi)
  {
    hide Find;
  }

  /** The cluster bitmap of the volume (true = used). */
  class Volume {
    var bits: seq<bool>
    const willing: bool     // some range is found whenever a cluster is free

    constructor (b: seq<bool>, w: bool)
      ensures bits == b && willing == w
    {
      bits, willing := b, w;
    }

    /** wnd_set_free. */
    method SetFree(lcn: nat, len: nat)
      requires lcn + len <= |bits|
      modifies this`bits
      ensures bits == Fill(old(bits), lcn, lcn + len, false)
    {
      bits := Fill(bits, lcn, lcn + len, false);
    }

    /** wnd_is_used. */
    method IsUsed(lcn: nat, len: nat) returns (r: bool)
      requires 0 < len
      ensures r <==> AllAre(bits, lcn, lcn + len, true)
    {
      if |bits| < lcn + len {
        return false;
      }
      var i := lcn;
      while i < lcn + len
        invariant lcn <= i <= lcn + len && AllAre(bits, lcn, i, true)
      {
        if !bits[i] {
          return false;
        }
        i := i + 1;
      }
      return true;
    }

    /** mark_as_free_ex: whatever is used in the range becomes free, piece by piece if need be. */
    method MarkAsFree(lcn0: nat, len0: nat)
      requires 0 < len0
      modifies this`bits
      ensures |bits| == |old(bits)|
      ensures forall c: nat :: c < |bits| ==> bits[c] == (old(bits[c]) && !(lcn0 <= c < lcn0 + len0))
    {
      var lcn, len := lcn0, len0;
      var used := IsUsed(lcn, len);
      if !used {
        var end := lcn + len;
        len := 0;
        var i := lcn0;
        while i < end
          invariant lcn0 <= i <= end && |bits| == |old(bits)| && len <= i
          invariant len != 0 ==> lcn0 <= lcn && lcn + len == i && AllAre(bits, lcn, i, true)
          invariant forall c: nat :: c < |bits| ==> bits[c] == (old(bits[c]) && !(lcn0 <= c < i - len))
          invariant len == 0 || i <= |bits|
        {
          var u := IsUsed(i, 1);
          if u {
            if len == 0 {
              lcn := i;
            }
            len := len + 1;
          } else if len != 0 {
            SetFree(lcn, len);
            len := 0;
          }
          i := i + 1;
        }
        if len == 0 {
          return;
        }
      }
      SetFree(lcn, len);
    }

    /** The first free cluster, or the number of clusters. */
    method FirstFree() returns (i: nat)
      ensures i <= |bits| && (i < |bits| ==> !bits[i]) && (i == |bits| ==> Zeroes(bits, 0, |bits|) == 0)
    {
      i := 0;
      while i < |bits|
        invariant i <= |bits| && Zeroes(bits, 0, i) == 0
      {
        if !bits[i] {
          return;
        }
        i := i + 1;
      }
    }

    /**
      ntfs_look_for_free_space: mark some free range of at most `want` clusters as used, or report an
      error and leave the bitmap alone. Which range is up to the index of free extents.
     */
    method LookForFreeSpace(want: nat, mft: bool) returns (err: int, lcn: nat, flen: nat)
      requires mft ==> 0 < want
      modifies this`bits
      ensures err == 0 ==> 0 < flen <= want && lcn + flen <= |old(bits)| && AllAre(old(bits), lcn, lcn + flen, false)
      ensures err == 0 ==> bits == Fill(old(bits), lcn, lcn + flen, true)
      ensures err != 0 ==> bits == old(bits)
      ensures willing && 0 < want && 0 < Zeroes(old(bits), 0, |old(bits)|) ==> err == 0
    {
      lcn, flen := *, *;
      if 0 < flen <= want && lcn + flen <= |bits| {
        var free := true;
        var i := lcn;
        while i < lcn + flen
          invariant lcn <= i <= lcn + flen && free == AllAre(bits, lcn, i, false)
        {
          free := free && !bits[i];
          i := i + 1;
        }
        if free {
          bits := Fill(bits, lcn, lcn + flen, true);
          return 0, lcn, flen;
        }
      }
      if willing && 0 < want {
        lcn := FirstFree();
        flen := 1;
        if lcn < |bits| {
          bits := Fill(bits, lcn, lcn + flen, true);
          return 0, lcn, flen;
        }
      }
      err := *;
      if err == 0 {
        err := ENOSPC;
      }
    }
  }

  /**
    run_deallocate_ex: free the clusters that [vcn0, vcn0 + len0) is at. Succeeds exactly when all of
    that is mapped; otherwise it frees what lies before the first hole and truncates the run.
    `till` is how far it came and `dn` how many clusters it freed.
   */
  method Deallocate(vol: Volume, run: RunsTree, vcn0: nat, len0: nat) returns (err: int, dn: nat, ghost till: nat)
    requires run.Valid()
    modifies vol`bits, run`runs
    ensures run.Valid()
    ensures err == 0 <==> Mapped(old(run.runs), vcn0, vcn0 + len0)
    ensures vcn0 <= till <= vcn0 + len0 && Mapped(old(run.runs), vcn0, till)
    ensures if err == 0 then till == vcn0 + len0 else till < vcn0 + len0 && Find(old(run.runs), till).None?
    ensures Freed(old(vol.bits), vol.bits, old(run.runs), vcn0, till) && dn == OnDisk(old(run.runs), vcn0, till)
    ensures err == 0 ==> run.runs == old(run.runs)
    ensures err != 0 ==> forall v: nat :: Find(run.runs, v) == if v < vcn0 then Find(old(run.runs), v) else None
  {
    hide Find, Sorted, Freed, Straight;
    err, dn, till := 0, 0, vcn0;
    FreedNone(vol.bits, run.runs, vcn0);
    if len0 == 0 {
      return;
    }
    var found, lcn, clen, idx := run.LookupEntry(vcn0);
    if found {
      found, dn, till := FreePieces(vol, run, vcn0, len0, lcn, clen, idx);
    }
    if !found {
      run.Truncate(vcn0);
      err := EINVAL;
    }
  }

  /** The loop of run_deallocate_ex over the pieces from `idx0` on; false is the way to `failed`. */
  method FreePieces(vol: Volume, run: RunsTree, vcn0: nat, len0: nat, lcn0: Lcn, clen0: nat, idx0: nat)
    returns (ok: bool, dn: nat, ghost till: nat)
    requires run.Valid() && 0 < len0 && idx0 < |run.runs|
    requires run.runs[idx0].Holds(vcn0) && vcn0 + clen0 == run.runs[idx0].End() && lcn0 == run.runs[idx0].Loc(vcn0)
    modifies vol`bits
    ensures vcn0 <= till <= vcn0 + len0 && Mapped(run.runs, vcn0, till)
    ensures if ok then till == vcn0 + len0 else till < vcn0 + len0 && Find(run.runs, till).None?
    ensures Freed(old(vol.bits), vol.bits, run.runs, vcn0, till) && dn == OnDisk(run.runs, vcn0, till)
  {
    hide Find, Sorted, Freed, Straight;
    var idx, vcn, lcn, clen := idx0, vcn0, lcn0, clen0;
    var len := len0;
    ghost var rs, b0 := run.runs, vol.bits;
    dn, till := 0, vcn0;
    FreedNone(b0, rs, vcn0);
    while true
      invariant run.runs == rs && idx < |rs| && 0 < len && 0 < clen && till == vcn
      invariant vcn + len == vcn0 + len0 && vcn0 <= vcn && Mapped(rs, vcn0, vcn)
      invariant rs[idx].Holds(vcn) && vcn + clen == rs[idx].End() && lcn == rs[idx].Loc(vcn)
      invariant Freed(b0, vol.bits, rs, vcn0, vcn) && dn == OnDisk(rs, vcn0, vcn)
      decreases |rs| - idx
    {
      if clen > len {
        clen := len;
      }
      ghost var b1 := vol.bits;
      PieceStraight(rs, idx, vcn, vcn + clen);
      if lcn.At? {
        vol.MarkAsFree(lcn.n, clen);
        dn := dn + clen;
      }
      FreedMore(b0, b1, vol.bits, rs, vcn0, vcn, vcn + clen, lcn);
      OnDiskStraight(rs, vcn0, vcn, vcn + clen, lcn);
      MappedMore(rs, vcn0, vcn, vcn + clen, lcn);
      till := vcn + clen;
      len := len - clen;
      if len == 0 {
        return true, dn, till;
      }
      var next := vcn + clen;
      idx := idx + 1;
      if idx == |run.runs| || run.runs[idx].vcn != next {
        BehindPiece(rs, idx - 1);
        return false, dn, till;
      }
      SortedLen(rs, idx);
      vcn, lcn, clen := run.runs[idx].vcn, run.runs[idx].lcn, run.runs[idx].len;
    }
  }

  // ----- attr_allocate_clusters

  /** The clusters are distinct and were all free in `b0`. */
  ghost predicate Fresh(b0: seq<bool>, cs: seq<nat>) {
    && (forall i :: 0 <= i < |cs| ==> cs[i] < |b0| && !b0[cs[i]])
    && forall i, j :: 0 <= i < j < |cs| ==> cs[i] != cs[j]
  }

  /** `b1` is `b0` with exactly the clusters `cs` used in addition. */
  ghost predicate Taken(b0: seq<bool>, b1: seq<bool>, cs: seq<nat>) {
    |b1| == |b0| && forall c: nat :: c < |b0| ==> (b1[c] <==> b0[c] || c in cs)
  }

  /** From `vcn0` on, the file is at the clusters `cs`, one by one. */
  ghost predicate Placed(rs: seq<Piece>, vcn0: nat, cs: seq<nat>) {
    forall i :: 0 <= i < |cs| ==> Find(rs, vcn0 + i) == Some(At(cs[i]))
  }

  /** Both arrays map every cluster outside [lo, hi) alike. */
  ghost predicate AlikeOutside(a: seq<Piece>, b: seq<Piece>, lo: nat, hi: nat) {
    forall v: nat :: !(lo <= v < hi) ==> Find(a, v) == Find(b, v)
  }

  /** Nothing is mapped from `vcn` on. */
  ghost predicate EmptyFrom(rs: seq<Piece>, vcn: nat) {
    forall v: nat :: vcn <= v ==> Find(rs, v).None?
  }

  /** The clusters lcn, lcn + 1, ... */
  ghost function Stretch(lcn: nat, len: nat): (cs: seq<nat>)
    ensures |cs| == len && forall i :: 0 <= i < len ==> cs[i] == lcn + i
  {
    seq(len, i requires 0 <= i => lcn + i)
  }

  lemma TakeMore(b0: seq<bool>, b1: seq<bool>, b2: seq<bool>, cs: seq<nat>, lcn: nat, len: nat)
    requires Fresh(b0, cs) && Taken(b0, b1, cs)
    requires lcn + len <= |b1| && AllAre(b1, lcn, lcn + len, false) && b2 == Fill(b1, lcn, lcn + len, true)
    ensures Fresh(b0, cs + Stretch(lcn, len)) && Taken(b0, b2, cs + Stretch(lcn, len))
  {
    var s := Stretch(lcn, len);
    forall i | 0 <= i < len
      ensures s[i] < |b0| && !b0[s[i]] && s[i] !in cs
    {
      assert !b1[s[i]];
    }
    forall c: nat | c < |b0|
      ensures b2[c] <==> b0[c] || c in cs + s
    {
      if lcn <= c < lcn + len {
        assert s[c - lcn] == c;
      }
      assert c in cs + s <==> c in cs || c in s;
    }
  }

  /** Adding a fragment behind what is placed. */
  lemma PlaceMore(rs0: seq<Piece>, rs1: seq<Piece>, rs2: seq<Piece>, vcn0: nat, cs: seq<nat>, lcn: nat, len: nat)
    requires Placed(rs1, vcn0, cs) && AlikeOutside(rs1, rs0, vcn0, vcn0 + |cs|)
    requires var p := Piece(vcn0 + |cs|, len, At(lcn));
             forall v: nat :: Find(rs2, v) == if p.Holds(v) then Some(p.Loc(v)) else Find(rs1, v)
    ensures Placed(rs2, vcn0, cs + Stretch(lcn, len)) && AlikeOutside(rs2, rs0, vcn0, vcn0 + |cs| + len)
  {
    hide Find;
  }

  /** The clusters that [vcn0, vcn0 + |cs|) is at are `cs`; freeing them gives the old bitmap back. */
  lemma GiveBack(b0: seq<bool>, b1: seq<bool>, b2: seq<bool>, rs: seq<Piece>, vcn0: nat, cs: seq<nat>)
    requires Fresh(b0, cs) && Taken(b0, b1, cs) && Placed(rs, vcn0, cs) && Freed(b1, b2, rs, vcn0, vcn0 + |cs|)
    ensures b2 == b0
  {
    hide Find;
    forall c: nat | c < |b0|
      ensures Target(rs, vcn0, vcn0 + |cs|, c) <==> c in cs
      ensures b2[c] == b0[c]
    {
      if c in cs {
        var i :| 0 <= i < |cs| && cs[i] == c;
        assert Find(rs, vcn0 + i) == Some(At(c));
      }
      if Target(rs, vcn0, vcn0 + |cs|, c) {
        var v: nat :| vcn0 <= v < vcn0 + |cs| && Find(rs, v) == Some(At(c));
        assert cs[v - vcn0] in cs;
      }
    }
  }

  lemma PlacedMapped(rs: seq<Piece>, vcn0: nat, cs: seq<nat>)
    requires Placed(rs, vcn0, cs)
    ensures Mapped(rs, vcn0, vcn0 + |cs|)
  {
    hide Find;
    forall v: nat | vcn0 <= v < vcn0 + |cs|
      ensures Find(rs, v).Some?
    {
      assert cs[v - vcn0] in cs;
    }
  }

  /** Marking a free range as used and freeing it again changes nothing. */
  lemma FillBack(b: seq<bool>, lo: nat, hi: nat)
    requires lo <= hi <= |b| && AllAre(b, lo, hi, false)
    ensures Fill(Fill(b, lo, hi, true), lo, hi, false) == b
  {
  }

  /** Past every piece of the array and past `at`. */
  lemma {:induction false} SomeBound(rs: seq<Piece>, at: nat) returns (bound: nat)
    ensures at <= bound && EmptyFrom(rs, bound)
    decreases |rs|
  {
    bound := at;
    if rs != [] {
      bound := SomeBound(rs[1..], at);
      bound := if bound < rs[0].End() then rs[0].End() else bound;
    }
  }

  /** The way out on an error: everything allocated so far is freed, and the run cut at `vcn0`. */
  method RollBack(vol: Volume, run: RunsTree, vcn0: nat, vcn: nat, ghost b0: seq<bool>,
                  ghost rs0: seq<Piece>, ghost cs: seq<nat>)
    requires run.Valid() && vcn == vcn0 + |cs|
    requires Fresh(b0, cs) && Taken(b0, vol.bits, cs) && Placed(run.runs, vcn0, cs)
    requires forall v: nat :: v < vcn0 ==> Find(run.runs, v) == Find(rs0, v)
    modifies vol`bits, run`runs
    ensures run.Valid() && vol.bits == b0
    ensures forall v: nat :: v < vcn0 ==> Find(run.runs, v) == Find(rs0, v)
    ensures if vcn0 < vcn then EmptyFrom(run.runs, vcn0) else run.runs == old(run.runs)
  {
    hide Find, Freed, Fresh, Taken, Placed, Mapped;
    if vcn0 < vcn {
      PlacedMapped(run.runs, vcn0, cs);
      ghost var rs, b1 := run.runs, vol.bits;
      var _, _, _ := Deallocate(vol, run, vcn0, vcn - vcn0);
      run.Truncate(vcn0);
      GiveBack(b0, b1, vol.bits, rs, vcn0, cs);
    } else {
      NothingTaken(b0, vol.bits, cs);
    }
  }

  lemma NothingTaken(b0: seq<bool>, b1: seq<bool>, cs: seq<nat>)
    requires cs == []
    ensures Taken(b0, b1, cs) <==> b1 == b0
    ensures Fresh(b0, cs)
  {
  }

  /** One fragment: free space is found, marked used and put into the run; or nothing has changed. */
  method Fragment(vol: Volume, run: RunsTree, vcn: nat, want: nat, mft: bool) returns (err: int, lcn: nat, flen: nat)
    requires run.Valid() && (mft ==> 0 < want)
    modifies vol`bits, run`runs
    ensures run.Valid()
    ensures err == 0 ==> 0 < flen <= want && lcn + flen <= |old(vol.bits)|
                         && AllAre(old(vol.bits), lcn, lcn + flen, false)
    ensures err == 0 ==> vol.bits == Fill(old(vol.bits), lcn, lcn + flen, true)
    ensures err == 0 ==> var p := Piece(vcn, flen, At(lcn));
                         forall v: nat :: Find(run.runs, v) == if p.Holds(v) then Some(p.Loc(v))
                           else Find(old(run.runs), v)
    ensures err != 0 ==> vol.bits == old(vol.bits) && forall v: nat :: v < vcn ==>
              Find(run.runs, v) == Find(old(run.runs), v)
    ensures err == ENOSPC || (err != 0 && Find(old(run.runs), vcn).None?) ==> run.runs == old(run.runs)
    ensures vol.willing && run.memory == Plenty && 0 < want && 0 < Zeroes(old(vol.bits), 0, |old(vol.bits)|) ==>
              err == 0
  {
    hide Find, Sorted;
    err, lcn, flen := vol.LookForFreeSpace(want, mft);
    if err != 0 {
      return;
    }
    ghost var bound := SomeBound(run.runs, vcn + flen);
    var ok := run.AddEntry(Piece(vcn, flen, At(lcn)), bound);
    if !ok {
      FillBack(old(vol.bits), lcn, lcn + flen);
      vol.SetFree(lcn, flen);
      err := ENOMEM;
    }
  }

  /** run->count - cnt >= fr, as a size_t comparison. */
  predicate TooManyFragments(count: nat, cnt: nat, fr: nat) {
    fr != 0 && (count - cnt) % 0x1_0000_0000_0000_0000 >= fr
  }

  /** The limit counts fragments added; 0 is no limit; and if the run has become shorter, the limit is met. */
  lemma FragmentLimit(count: nat, cnt: nat, fr: nat)
    requires count < TWO_64 && cnt < TWO_64 && fr < TWO_32
    ensures cnt <= count ==> (TooManyFragments(count, cnt, fr) <==> fr != 0 && cnt + fr <= count)
    ensures count < cnt && cnt - count <= TWO_32 ==> (TooManyFragments(count, cnt, fr) <==> fr != 0)
  {
  }

  /**
    attr_allocate_clusters: all or nothing. `cs` names the allocated clusters in the order of the
    file; `preOut` is what *pre_alloc holds afterwards.
   */
  method Allocate(vol: Volume, run: RunsTree, vcn0: nat, len0: nat, pre0: nat, mft: bool, fr: nat)
    returns (err: int, alen: nat, newLcn: nat, preOut: nat, ghost cs: seq<nat>)
    requires run.Valid() && (mft ==> 0 < len0)
    modifies vol`bits, run`runs
    ensures run.Valid()
    ensures err == 0 ==> Fresh(old(vol.bits), cs) && Taken(old(vol.bits), vol.bits, cs)
    ensures err == 0 ==> |cs| == alen && 0 < alen <= len0 + pre0 && newLcn == cs[0]
    ensures err == 0 ==> Placed(run.runs, vcn0, cs) && AlikeOutside(run.runs, old(run.runs), vcn0, vcn0 + alen)
    ensures err == 0 && alen < len0 ==> mft || TooManyFragments(|run.runs|, |old(run.runs)|, fr)
    ensures err != 0 ==> vol.bits == old(vol.bits) && forall v: nat :: v < vcn0 ==>
              Find(run.runs, v) == Find(old(run.runs), v)
    ensures err != 0 && cs != [] ==> EmptyFrom(run.runs, vcn0)
    ensures err != 0 && cs == [] && Find(old(run.runs), vcn0).None? ==> run.runs == old(run.runs)
    ensures err != 0 && EmptyFrom(old(run.runs), vcn0) ==> EmptyFrom(run.runs, vcn0)
    ensures preOut == pre0 || preOut == 0
    ensures err == 0 && alen > len0 ==> preOut == pre0
    ensures vol.willing && run.memory == Plenty && 0 < len0 <= Zeroes(old(vol.bits), 0, |old(vol.bits)|) ==> err == 0
  {
    hide Find, Sorted, Fresh, Taken, Placed, EmptyFrom, AlikeOutside, Freed, Mapped;
    var vcn, len, pre := vcn0, len0, pre0;
    var cnt := |run.runs|;
    ghost var b0, rs0 := vol.bits, run.runs;
    alen, newLcn, preOut, cs := 0, 0, pre0, [];
    NothingTaken(b0, b0, cs);
    NothingPlaced(rs0, vcn0);
    while true
      invariant run.Valid() && vcn == vcn0 + |cs| && 0 <= len && (mft ==>
                  0 < len) && len + |cs| == len0 && pre == preOut
      invariant pre == pre0 || pre == 0
      invariant Zeroes(vol.bits, 0, |vol.bits|) + |cs| == Zeroes(b0, 0, |b0|) && (0 < len0 ==> 0 < len)
      invariant Fresh(b0, cs) && Taken(b0, vol.bits, cs)
      invariant Placed(run.runs, vcn0, cs) && AlikeOutside(run.runs, rs0, vcn0, vcn)
      invariant if cs == [] then run.runs == rs0 else newLcn == cs[0]
      decreases len, pre
    {
      ghost var b1, rs1 := vol.bits, run.runs;
      var lcn, flen;
      err, lcn, flen := Fragment(vol, run, vcn, len + pre, mft);
      if err == ENOSPC && pre != 0 {
        pre, preOut := 0, 0;
        continue;
      }
      if err != 0 {
        StillPlaced(rs0, rs1, run.runs, vcn0, cs);
        RollBack(vol, run, vcn0, vcn, b0, rs0, cs);
        FailedEmpty(rs0, vcn0);
        return;
      }
      if vcn == vcn0 {
        newLcn := lcn;
      }
      TakeMore(b0, b1, vol.bits, cs, lcn, flen);
      FewerFree(b1, lcn, flen);
      PlaceMore(rs0, rs1, run.runs, vcn0, cs, lcn, flen);
      cs := cs + Stretch(lcn, flen);
      vcn := vcn + flen;
      if flen >= len || mft || TooManyFragments(|run.runs|, cnt, fr) {
        alen := vcn - vcn0;
        return;
      }
      len := len - flen;
    }
  }

  /** Taking a free range takes as many free clusters. */
  lemma FewerFree(b: seq<bool>, lcn: nat, len: nat)
    requires lcn + len <= |b| && AllAre(b, lcn, lcn + len, false)
    ensures Zeroes(Fill(b, lcn, lcn + len, true), 0, |b|) + len == Zeroes(b, 0, |b|)
  {
    ZeroesFill(b, 0, |b|, lcn, lcn + len, true);
  }

  lemma NothingPlaced(rs: seq<Piece>, vcn: nat)
    ensures Placed(rs, vcn, []) && AlikeOutside(rs, rs, vcn, vcn)
  {
  }

  /** What is mapped below the place of a failed fragment is still mapped. */
  lemma StillPlaced(rs0: seq<Piece>, rs1: seq<Piece>, rs2: seq<Piece>, vcn0: nat, cs: seq<nat>)
    requires Placed(rs1, vcn0, cs) && AlikeOutside(rs1, rs0, vcn0, vcn0 + |cs|)
    requires forall v: nat :: v < vcn0 + |cs| ==> Find(rs2, v) == Find(rs1, v)
    ensures Placed(rs2, vcn0, cs)
    ensures forall v: nat :: v < vcn0 ==> Find(rs2, v) == Find(rs0, v)
  {
    hide Find;
  }

  lemma FailedEmpty(rs: seq<Piece>, vcn: nat)
    ensures EmptyFrom(rs, vcn) ==> Find(rs, vcn).None?
  {
  }
}
