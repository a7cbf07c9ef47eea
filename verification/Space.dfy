/**
  fsntfs.c: looking for free clusters and giving them back, on the bitmap with its index. These are
  the operations that the allocation of clusters for attributes rests on; here they are shown to do
  what it relies on, and to keep the index.
 */
module Space {
  import opened Extents
  import opened Kernel
  import opened Bits
  import opened FreeIndex
  import opened Runs
  import opened Clusters

  const NTFS_MIN_MFT_ZONE: nat := 100

  /** A range was taken: it was free, is now used, and nothing else changed; or nothing changed. */
  ghost predicate TakenFrom(was: seq<bool>, now: seq<bool>, nbits: nat, want: nat, err: int, lcn: nat, len: nat) {
    if err == 0
    then && 0 < len <= want && lcn + len <= nbits <= |was| && AllAre(was, lcn, lcn + len, false)
         && now == Fill(was, lcn, lcn + len, true)
    else now == was
  }

  /** The zone is not moved, only made smaller. */
  ghost predicate InZone(zb: nat, ze: nat, zb0: nat, ze0: nat) {
    zb0 <= zb && ze <= ze0 && zb <= ze
  }

  /**
    wnd_find with BITMAP_FIND_MARK_AS_USED. `kept` says that the index answered and still describes the
    bitmap; otherwise nothing is promised. It is, unless the index was stale and the search left it or
    memory ran out.
   */
  method FindAndMark(w: WndBitmap, want: nat, hint: nat, full: bool)
    returns (err: int, lcn: nat, len: nat, kept: bool, ghost failed: bool)
    requires w.Ready() && w.Describes(w.Current()) && 0 < want
    modifies w
    ensures kept ==> w.Ready() && w.Describes(w.Current()) && w.nbits == old(w.nbits)
    ensures kept ==> w.zoneBit == old(w.zoneBit) && w.zoneEnd == old(w.zoneEnd)
    ensures kept ==> TakenFrom(old(w.disk), w.disk, w.nbits, want, err, lcn, len) && (err == 0 && full ==> len == want)
    ensures kept && err != 0 ==>
              w.uptodated == old(w.uptodated) && w.count == old(w.count) && w.totalZeroes == old(w.totalZeroes)
    ensures !kept ==> || (failed && old(w.uptodated) != 1)
                      || old(w.Now().Scans(want, hint, full)) || old(w.Now().ReachesZone(want, hint, full))
    ensures w.memory == old(w.memory) && (w.memory == Plenty ==> !failed)
    ensures old(w.uptodated) == 1 ==>
              kept && (err != 0 <==> old(w.nbits <= |w.disk|) && old(w.MapRefuses(want, hint, full)))
    ensures kept ==> (err != 0 <==> old(w.Now()).Refuses(want, hint, full))
    ensures kept && err == 0 && len < want ==> old(w.nbits <= |w.disk|) && !Open(old(w.Current()), lcn + len)
    ensures old(w.uptodated) == 1 && err == 0 ==> old(w.nbits <= |w.disk|) && old(w.MapPlaces(want, hint, full, lcn))
    ensures !failed && old(w.uptodated) == 1 && old(w.count) < w.MAX ==> w.uptodated == 1
    ensures old(w.uptodated) == 1 ==> w.count <= old(w.count) + 1
  {
    hide WndBitmap.Geometry, WndBitmap.Counters, WndBitmap.IndexTrees, WndBitmap.Describes, AllAre, OpenMap, Fill,
         HasRange, AllOpen, Snapshot.Scans, Snapshot.ReachesZone, Sound, Snapshot.Refuses, Snapshot.Places,
         WndBitmap.MapPlaces, WndBitmap.MapRefuses;
    WithinDisk(w);
    var r, clean;
    r, clean, failed := w.Find(want, hint, full, true);
    err, lcn, len, kept := ENOSPC, 0, 0, clean && (r.Found? || r.NoSpace?);
    if r.Found? {
      err, lcn, len := 0, r.pos, r.len;
    }
  }

  lemma WithinDisk(w: WndBitmap)
    requires w.Ready()
    ensures w.nbits <= |w.disk| && w.zoneBit <= w.zoneEnd <= w.nbits && AllAre(w.disk, w.zoneBit, w.zoneEnd, false)
  {
  }

  /** wnd_zone_set to a part of the zone: the index follows. */
  method ShrinkZone(w: WndBitmap, lcn: nat, len: nat) returns (ghost failed: bool)
    requires w.Ready() && w.Describes(w.Current())
    requires w.zoneBit <= lcn && lcn + len <= w.zoneEnd && len < w.zoneEnd - w.zoneBit
    modifies w
    ensures w.Ready() && w.Describes(w.Current()) && w.disk == old(w.disk) && w.nbits == old(w.nbits)
    ensures w.zoneBit == lcn && w.zoneEnd == lcn + len
    ensures !failed && old(w.count) + 1 < w.MAX ==> w.uptodated == old(w.uptodated)
    ensures w.memory == old(w.memory) && (w.memory == Plenty ==> !failed)
  {
    hide WndBitmap.Geometry, WndBitmap.Counters, WndBitmap.IndexTrees, AllAre, OpenMap, WndBitmap.Empties,
         Snapshot.Risky, Sound, Complete;
    WithinDisk(w);
    AllAreWithin(w.disk, w.zoneBit, w.zoneEnd, lcn, lcn + len, false);
    w.ShrinkNotRisky(lcn, len);
    if w.Empties(lcn, len, false) {
      w.EmptiesRisky(lcn, len, false);
    }
    if w.Empties(lcn, len, true) {
      w.EmptiesRisky(lcn, len, true);
    }
    var rescanned;
    ghost var lost;
    rescanned, failed, lost := w.ZoneSet(lcn, len);
    failed := failed || lost;
  }

  /** Take clusters from the front of the zone, for the MFT (lines 378-394). */
  method FromZone(w: WndBitmap, want: nat) returns (err: int, lcn: nat, len: nat, kept: bool, ghost failed: bool)
    requires w.Ready() && w.Describes(w.Current()) && 0 < want
    modifies w
    ensures w.Ready() && w.nbits == old(w.nbits) && TakenFrom(old(w.disk), w.disk, w.nbits, want, err, lcn, len)
    ensures InZone(w.zoneBit, w.zoneEnd, old(w.zoneBit), old(w.zoneEnd))
    ensures err == 0 ==> lcn == old(w.zoneBit) && w.zoneBit == lcn + len && w.zoneEnd == old(w.zoneEnd)
    ensures err == 0 <==> old(w.zoneBit < w.zoneEnd)
    ensures (kept ==> w.Describes(w.Current())) && (!kept ==> failed)
    ensures w.memory == old(w.memory) && (w.memory == Plenty ==> !failed)
  {
    hide WndBitmap.Geometry, WndBitmap.Counters, WndBitmap.IndexTrees, WndBitmap.Describes, AllAre, OpenMap, Fill,
         WndBitmap.CutFrom;
    err, lcn, len, kept, failed := ENOSPC, w.zoneBit, 0, true, false;
    WithinDisk(w);
    var zlen := w.zoneEnd - w.zoneBit;
    if zlen == 0 {
      return;
    }
    len := if want < zlen then want else zlen;
    AllAreWithin(w.disk, w.zoneBit, w.zoneEnd, lcn, lcn + len, false);
    failed := ShrinkZone(w, lcn + len, zlen - len);
    ghost var late;
    kept, late := w.SetUsed(lcn, len);
    failed := failed || late;
    err := 0;
  }

  /** The search at `hint` is refused, by what the bitmap has. */
  ghost predicate Refused(w: WndBitmap, want: nat, hint: nat)
    reads w
  {
    w.nbits <= |w.disk| && w.MapRefuses(want, if hint >= w.nbits then 0 else hint, false)
  }

  /** The zone is long enough to give something, and when it has, there is a run as long as wanted. */
  ghost predicate ZoneHelps(w: WndBitmap, want: nat)
    reads w
  {
    var zlen := w.zoneEnd - w.zoneBit;
    && w.nbits <= |w.disk| && NTFS_MIN_MFT_ZONE < zlen && want <= w.totalZeroes + zlen
    && HasRange(w.Cut(w.zoneBit, w.zoneBit + ZoneLeft(zlen, want)), want)
  }

  /** An exact index that refuses, beside a zone, is empty. */
  lemma OneNodeAtMost(w: WndBitmap, want: nat, hint: nat)
    requires w.Ready() && w.Describes(w.Current()) && w.uptodated == 1 && Refused(w, want, hint)
    ensures w.zoneBit < w.zoneEnd ==> w.count + 1 < w.MAX
  {
    hide WndBitmap.Counters, WndBitmap.IndexTrees, OpenMap, HasRange, AllOpen, Sound, Complete;
    WithinDisk(w);
    NotAllOpen(w);
    if w.zoneBit < w.zoneEnd {
      w.NothingToIndex();
      w.MaxBound();
    }
  }

  /** Beside a zone, not every bit is open. */
  lemma NotAllOpen(w: WndBitmap)
    requires w.Ready()
    ensures w.nbits <= |w.disk| && (w.zoneBit < w.zoneEnd ==> !AllOpen(w.Current(), 0, w.nbits))
  {
    hide WndBitmap.Geometry, WndBitmap.Counters, WndBitmap.IndexTrees, OpenMap;
    w.MapBits(w.Current());
    var first := Open(w.Current(), w.zoneBit);
  }

  /** How much of the zone stays when a request has to be served from it (lines 419-424). */
  function ZoneLeft(zlen: nat, want: nat): (r: nat)
    requires NTFS_MIN_MFT_ZONE < zlen
    ensures NTFS_MIN_MFT_ZONE <= r < zlen
    ensures zlen / 2 <= want <= zlen - NTFS_MIN_MFT_ZONE ==> zlen - r == want
    ensures want <= zlen / 2 <= zlen - NTFS_MIN_MFT_ZONE ==> zlen - r == zlen / 2
    ensures zlen - NTFS_MIN_MFT_ZONE < want || zlen - NTFS_MIN_MFT_ZONE < zlen / 2 ==> r == NTFS_MIN_MFT_ZONE
  {
    var trim := if want < zlen / 2 then zlen / 2 else if want > zlen then zlen else want;
    if zlen - trim < NTFS_MIN_MFT_ZONE then NTFS_MIN_MFT_ZONE else zlen - trim
  }

  /**
    ntfs_look_for_free_space: as long as the index answers (`kept`), a free range of at most `want`
    clusters is marked used, or nothing is; the zone only shrinks; and the index describes the bitmap.
    An up-to-date index answers unless memory runs out, and serves what the bitmap can serve, or what it
    can once the zone is cut.
   */
  method LookForFreeSpace(w: WndBitmap, hint: nat, want: nat, mft: bool)
    returns (err: int, lcn: nat, len: nat, kept: bool, ghost failed: bool)
    requires w.Ready() && w.Describes(w.Current()) && 0 < want
    modifies w
    ensures kept ==> w.Ready() && w.Describes(w.Current()) && w.nbits == old(w.nbits)
    ensures kept ==> TakenFrom(old(w.disk), w.disk, w.nbits, want, err, lcn, len)
    ensures kept ==> InZone(w.zoneBit, w.zoneEnd, old(w.zoneBit), old(w.zoneEnd))
    ensures w.memory == old(w.memory) && (w.memory == Plenty ==> !failed)
    ensures old(w.uptodated) == 1 && !failed ==> kept
    ensures kept && mft ==> (err == 0 <==> old(w.zoneBit < w.zoneEnd))
    ensures old(w.uptodated) == 1 && !mft && !old(Refused(w, want, hint)) ==>
              && kept && err == 0 && w.zoneBit == old(w.zoneBit) && w.zoneEnd == old(w.zoneEnd)
              && (!failed && old(w.count) < w.MAX ==> w.uptodated == 1) && w.count <= old(w.count) + 1
              && old(w.nbits <= |w.disk|) && (len < want ==> !Open(old(w.Current()), lcn + len))
              && old(w.MapPlaces(want, if hint >= w.nbits then 0 else hint, false, lcn))
    ensures old(w.uptodated) == 1 && !mft && old(Refused(w, want, hint)) && !failed ==>
              (err == 0 <==> old(ZoneHelps(w, want))) && (err == 0 ==> len == want)
  {
    hide WndBitmap.Geometry, WndBitmap.Counters, WndBitmap.IndexTrees, WndBitmap.Describes, AllAre, OpenMap, Fill,
         TakenFrom, Snapshot.Scans, Snapshot.ReachesZone, Snapshot.Refuses, HasRange, AllOpen;
    WithinDisk(w);
    ghost var exact := w.uptodated == 1;
    if mft {
      err, lcn, len, kept, failed := FromZone(w, want);
      return;
    }
    err, lcn, len, kept, failed := FindAndMark(w, want, if hint >= w.nbits then 0 else hint, false);
    if err == 0 || !kept {
      return;
    }
    NoneTaken(old(w.disk), w.disk, w.nbits, want, err, lcn, len);
    if exact {
      OneNodeAtMost(w, want, hint);
    }
    var zlen := w.zoneEnd - w.zoneBit;
    if want > w.totalZeroes + zlen || zlen <= NTFS_MIN_MFT_ZONE {
      return;
    }
    ghost var early := failed;
    ghost var more := ShrinkZone(w, w.zoneBit, ZoneLeft(zlen, want));
    NotAllOpen(w);
    err, lcn, len, kept, failed := FindAndMark(w, want, 0, true);
    failed := failed || early || more;
  }

  lemma NoneTaken(was: seq<bool>, now: seq<bool>, nbits: nat, want: nat, err: int, lcn: nat, len: nat)
    requires TakenFrom(was, now, nbits, want, err, lcn, len) && err != 0
    ensures now == was
  {
  }

  /** mark_as_free_ex on the bitmap with its index: whatever is used in the range becomes free. */
  method MarkAsFree(w: WndBitmap, lcn0: nat, len0: nat) returns (ghost failed: bool)
    requires w.Ready() && w.Describes(w.Current()) && 0 < len0 && lcn0 + len0 <= w.nbits
    modifies w
    ensures w.Ready() && w.Describes(w.Current()) && w.nbits == old(w.nbits) && |w.disk| == |old(w.disk)|
    ensures lcn0 + len0 <= |w.disk| && w.disk == Fill(old(w.disk), lcn0, lcn0 + len0, false)
    ensures w.memory == old(w.memory) && (w.memory == Plenty ==> !failed)
  {
    hide WndBitmap.Geometry, WndBitmap.Counters, WndBitmap.IndexTrees, WndBitmap.Describes, AllAre, OpenMap, Fill,
         WndBitmap.Untouched;
    WithinDisk(w);
    var used := w.IsUsed(lcn0, len0);
    if used {
      failed := w.SetFree(lcn0, len0);
      return;
    }
    var lcn, len: nat, end, i := lcn0, 0, lcn0 + len0, lcn0;
    failed := false;
    ghost var disk0 := w.disk;
    FillNothing(disk0, lcn0, false);
    while i < end
      invariant lcn0 <= i <= end == lcn0 + len0 <= w.nbits == old(w.nbits) <= |w.disk| == |disk0|
      invariant w.Ready() && w.Describes(w.Current()) && w.memory == old(w.memory) && (w.memory == Plenty ==> !failed)
      invariant len != 0 ==> lcn0 <= lcn && lcn + len == i && AllAre(w.disk, lcn, i, true)
      invariant len <= i - lcn0 && w.disk == Fill(disk0, lcn0, i - len, false)
    {
      var u := w.IsUsed(i, 1);
      if u {
        if len == 0 {
          lcn := i;
        }
        LongerUsed(w.disk, lcn, i, len);
        len := len + 1;
      } else {
        if len != 0 {
          ghost var before := w.disk;
          ghost var f := w.SetFree(lcn, len);
          failed := failed || f;
          ClearedOn(disk0, before, w.disk, lcn0, lcn, i);
        }
        FreeAnyway(disk0, w.disk, lcn0, i);
        len := 0;
      }
      i := i + 1;
    }
    if len != 0 {
      ghost var before := w.disk;
      ghost var f := w.SetFree(lcn, len);
      failed := failed || f;
      ClearedOn(disk0, before, w.disk, lcn0, lcn, i);
    }
  }

  lemma LongerUsed(s: seq<bool>, lcn: nat, i: nat, len: nat)
    requires AllAre(s, i, i + 1, true) && (if len == 0 then lcn == i else lcn <= i && AllAre(s, lcn, i, true))
    ensures AllAre(s, lcn, i + 1, true)
  {
  }

  /** Cleared up to `mid`, then from there to `hi`. */
  lemma ClearedOn(s0: seq<bool>, s1: seq<bool>, s2: seq<bool>, lo: nat, mid: nat, hi: nat)
    requires lo <= mid <= hi <= |s0| == |s1| && s1 == Fill(s0, lo, mid, false) && s2 == Fill(s1, mid, hi, false)
    ensures s2 == Fill(s0, lo, hi, false) && |s2| == |s0|
    ensures AllAre(s2, hi, hi + 1, true) ==> AllAre(s1, hi, hi + 1, true)
  {
    assert hi < |s0| ==> s2[hi] == s1[hi];
  }

  /** A bit that is not used needs no clearing. */
  lemma FreeAnyway(s0: seq<bool>, s1: seq<bool>, lo: nat, i: nat)
    requires lo <= i < |s0| && s1 == Fill(s0, lo, i, false) && !AllAre(s1, i, i + 1, true)
    ensures s1 == Fill(s0, lo, i + 1, false)
  {
  }

  // ----- attr_allocate_clusters on the indexed bitmap

  /** All clusters that [lo, hi) of the file is at are clusters of the volume. */
  ghost predicate InVolume(rs: seq<Piece>, lo: nat, hi: nat, nbits: nat) {
    forall v: nat :: lo <= v < hi && Find(rs, v).Some? && Find(rs, v).value.At? ==> Find(rs, v).value.n < nbits
  }

  lemma PieceInVolume(rs: seq<Piece>, lo: nat, hi: nat, a: nat, b: nat, lcn: Lcn, nbits: nat)
    requires InVolume(rs, lo, hi, nbits) && Straight(rs, a, b, lcn) && lo <= a < b <= hi
    ensures lcn.At? ==> lcn.n + (b - a) <= nbits
  {
    hide Find;
    assert Find(rs, b - 1) == Some(Piece(a, b - a, lcn).Loc(b - 1));
  }

  /** The loop of run_deallocate_ex, each piece given back to bitmap and index. */
  method FreePieces(w: WndBitmap, run: RunsTree, vcn0: nat, len0: nat, lcn0: Lcn, clen0: nat, idx0: nat)
    returns (ok: bool, dn: nat, ghost till: nat, ghost failed: bool)
    requires w.Ready() && w.Describes(w.Current()) && run.Valid() && 0 < len0 && idx0 < |run.runs|
    requires run.runs[idx0].Holds(vcn0) && vcn0 + clen0 == run.runs[idx0].End() && lcn0 == run.runs[idx0].Loc(vcn0)
    requires InVolume(run.runs, vcn0, vcn0 + len0, w.nbits)
    modifies w
    ensures w.Ready() && w.Describes(w.Current()) && w.nbits == old(w.nbits)
    ensures vcn0 <= till <= vcn0 + len0 && Mapped(run.runs, vcn0, till)
    ensures if ok then till == vcn0 + len0 else till < vcn0 + len0 && Find(run.runs, till).None?
    ensures Freed(old(w.disk), w.disk, run.runs, vcn0, till) && dn == OnDisk(run.runs, vcn0, till)
    ensures w.memory == old(w.memory) && (w.memory == Plenty ==> !failed)
  {
    hide Find, Sorted, Freed, Straight, InVolume, Mapped, WndBitmap.Geometry, WndBitmap.Counters, WndBitmap.IndexTrees,
         WndBitmap.Describes, OpenMap, Fill;
    var idx, vcn, lcn, clen := idx0, vcn0, lcn0, clen0;
    var len := len0;
    ghost var rs, b0, n := run.runs, w.disk, w.nbits;
    dn, till, failed := 0, vcn0, false;
    FreedNone(b0, rs, vcn0);
    NoneMapped(rs, vcn0);
    while true
      invariant run.runs == rs && idx < |rs| && 0 < len && 0 < clen && till == vcn
      invariant vcn + len == vcn0 + len0 && vcn0 <= vcn && Mapped(rs, vcn0, vcn)
      invariant rs[idx].Holds(vcn) && vcn + clen == rs[idx].End() && lcn == rs[idx].Loc(vcn)
      invariant Freed(b0, w.disk, rs, vcn0, vcn) && dn == OnDisk(rs, vcn0, vcn)
      invariant w.Ready() && w.Describes(w.Current()) && w.nbits == n && w.memory == old(w.memory)
      invariant w.memory == Plenty ==> !failed
      decreases |rs| - idx
    {
      if clen > len {
        clen := len;
      }
      PieceStraight(rs, idx, vcn, vcn + clen);
      PieceInVolume(rs, vcn0, vcn0 + len0, vcn, vcn + clen, lcn, n);
      ghost var b1 := w.disk;
      if lcn.At? {
        ghost var f := MarkAsFree(w, lcn.n, clen);
        failed := failed || f;
        dn := dn + clen;
      }
      FreedPiece(b0, b1, w.disk, rs, vcn0, vcn, vcn + clen, lcn);
      OnDiskStraight(rs, vcn0, vcn, vcn + clen, lcn);
      MappedMore(rs, vcn0, vcn, vcn + clen, lcn);
      till := vcn + clen;
      len := len - clen;
      if len == 0 {
        return true, dn, till, failed;
      }
      var next := vcn + clen;
      idx := idx + 1;
      if idx == |run.runs| || run.runs[idx].vcn != next {
        BehindPiece(rs, idx - 1);
        return false, dn, till, failed;
      }
      SortedLen(rs, idx);
      vcn, lcn, clen := run.runs[idx].vcn, run.runs[idx].lcn, run.runs[idx].len;
    }
  }

  lemma NoneMapped(rs: seq<Piece>, v: nat)
    ensures Mapped(rs, v, v)
  {
  }

  lemma FreedPiece(b0: seq<bool>, b1: seq<bool>, b2: seq<bool>, rs: seq<Piece>, lo: nat, mid: nat, hi: nat, lcn: Lcn)
    requires lo <= mid <= hi && Freed(b0, b1, rs, lo, mid) && Straight(rs, mid, hi, lcn)
    requires lcn.At? ==> lcn.n + (hi - mid) <= |b1| && b2 == Fill(b1, lcn.n, lcn.n + (hi - mid), false)
    requires lcn.Sparse? ==> b2 == b1
    ensures Freed(b0, b2, rs, lo, hi)
  {
    hide Find;
    FreedMore(b0, b1, b2, rs, lo, mid, hi, lcn);
  }

  /** run_deallocate_ex on the indexed bitmap. */
  method Deallocate(w: WndBitmap, run: RunsTree, vcn0: nat, len0: nat)
    returns (err: int, dn: nat, ghost till: nat, ghost failed: bool)
    requires w.Ready() && w.Describes(w.Current()) && run.Valid() && InVolume(run.runs, vcn0, vcn0 + len0, w.nbits)
    modifies w, run`runs
    ensures w.Ready() && w.Describes(w.Current()) && w.nbits == old(w.nbits) && run.Valid()
    ensures err == 0 <==> Mapped(old(run.runs), vcn0, vcn0 + len0)
    ensures vcn0 <= till <= vcn0 + len0 && Mapped(old(run.runs), vcn0, till)
    ensures if err == 0 then till == vcn0 + len0 else till < vcn0 + len0 && Find(old(run.runs), till).None?
    ensures Freed(old(w.disk), w.disk, old(run.runs), vcn0, till) && dn == OnDisk(old(run.runs), vcn0, till)
    ensures err == 0 ==> run.runs == old(run.runs)
    ensures err != 0 ==> forall v: nat :: Find(run.runs, v) == if v < vcn0 then Find(old(run.runs), v) else None
    ensures w.memory == old(w.memory) && (w.memory == Plenty ==> !failed)
  {
    hide Find, Sorted, Freed, Straight, InVolume, WndBitmap.Geometry, WndBitmap.Counters, WndBitmap.IndexTrees,
         WndBitmap.Describes, OpenMap;
    err, dn, till, failed := 0, 0, vcn0, false;
    FreedNone(w.disk, run.runs, vcn0);
    if len0 == 0 {
      return;
    }
    var found, lcn, clen, idx := run.LookupEntry(vcn0);
    if found {
      found, dn, till, failed := FreePieces(w, run, vcn0, len0, lcn, clen, idx);
    }
    if !found {
      run.Truncate(vcn0);
      err := EINVAL;
    }
  }

  /** One fragment: free space is found, marked used and put into the run; or nothing has changed. */
  method Fragment(w: WndBitmap, run: RunsTree, vcn: nat, hint: nat, want: nat, mft: bool)
    returns (err: int, lcn: nat, flen: nat, kept: bool, ghost failed: bool)
    requires w.Ready() && w.Describes(w.Current()) && run.Valid() && 0 < want
    modifies w, run`runs
    ensures run.Valid() && (kept ==> w.Ready() && w.Describes(w.Current()) && w.nbits == old(w.nbits))
    ensures kept ==> TakenFrom(old(w.disk), w.disk, w.nbits, want, err, lcn, flen)
    ensures kept && err == 0 ==>
              var p := Piece(vcn, flen, At(lcn));
              forall v: nat :: Find(run.runs, v) == if p.Holds(v) then Some(p.Loc(v)) else Find(old(run.runs), v)
    ensures kept && err != 0 ==> forall v: nat :: v < vcn ==> Find(run.runs, v) == Find(old(run.runs), v)
    ensures err == ENOSPC || (kept && err != 0 && Find(old(run.runs), vcn).None?) ==> run.runs == old(run.runs)
    ensures run.memory == Plenty && old(w.uptodated) == 1 && !mft && !old(Refused(w, want, hint)) ==>
              && kept && err == 0 && w.zoneBit == old(w.zoneBit) && w.zoneEnd == old(w.zoneEnd)
              && (!failed && old(w.count) < w.MAX ==> w.uptodated == 1) && w.count <= old(w.count) + 1
    ensures run.memory == Plenty && kept && mft ==> (err == 0 <==> old(w.zoneBit < w.zoneEnd))
    ensures kept && mft && err == ENOSPC ==> w.zoneBit == old(w.zoneBit) && w.zoneEnd == old(w.zoneEnd)
    ensures run.memory == Plenty && old(w.uptodated) == 1 && !mft && old(Refused(w, want, hint)) && !failed ==>
              (err == 0 <==> old(ZoneHelps(w, want)))
    ensures w.memory == old(w.memory) && (w.memory == Plenty ==> !failed)
  {
    hide Find, Sorted, WndBitmap.Geometry, WndBitmap.Counters, WndBitmap.IndexTrees, WndBitmap.Describes,
         OpenMap, AllAre, Fill, WndBitmap.Untouched;
    err, lcn, flen, kept, failed := LookForFreeSpace(w, hint, want, mft);
    if err != 0 || !kept {
      return;
    }
    ghost var bound := SomeBound(run.runs, vcn + flen);
    var ok := run.AddEntry(Piece(vcn, flen, At(lcn)), bound);
    if !ok {
      UsedNow(old(w.disk), lcn, lcn + flen);
      ghost var late := w.SetFree(lcn, flen);
      failed := failed || late;
      err := ENOMEM;
    }
  }

  lemma UsedNow(s: seq<bool>, lo: nat, hi: nat)
    requires lo <= hi <= |s| && AllAre(s, lo, hi, false)
    ensures AllAre(Fill(s, lo, hi, true), lo, hi, true) && Fill(Fill(s, lo, hi, true), lo, hi, false) == s
  {
  }

  /** The clusters lie in the volume. */
  ghost predicate Within(cs: seq<nat>, nbits: nat) {
    forall i :: 0 <= i < |cs| ==> cs[i] < nbits
  }

  /** The way out on an error: everything allocated so far goes back to bitmap and index, and the run is cut. */
  method RollBack(w: WndBitmap, run: RunsTree, vcn0: nat, vcn: nat,
                  ghost b0: seq<bool>, ghost rs0: seq<Piece>, ghost cs: seq<nat>) returns (ghost failed: bool)
    requires w.Ready() && w.Describes(w.Current()) && run.Valid() && vcn == vcn0 + |cs|
    requires Fresh(b0, cs) && Within(cs, w.nbits) && Taken(b0, w.disk, cs) && Placed(run.runs, vcn0, cs)
    requires forall v: nat :: v < vcn0 ==> Find(run.runs, v) == Find(rs0, v)
    modifies w, run`runs
    ensures w.Ready() && w.Describes(w.Current()) && w.nbits == old(w.nbits) && run.Valid() && w.disk == b0
    ensures forall v: nat :: v < vcn0 ==> Find(run.runs, v) == Find(rs0, v)
    ensures if vcn0 < vcn then EmptyFrom(run.runs, vcn0) else run.runs == old(run.runs)
    ensures w.memory == old(w.memory) && (w.memory == Plenty ==> !failed)
  {
    hide Find, Sorted, Freed, Fresh, Taken, Placed, Mapped, InVolume, Within, WndBitmap.Geometry, WndBitmap.Counters,
         WndBitmap.IndexTrees, WndBitmap.Describes, OpenMap;
    failed := false;
    if vcn0 < vcn {
      PlacedMapped(run.runs, vcn0, cs);
      PlacedInVolume(run.runs, vcn0, cs, w.nbits);
      ghost var rs, b1 := run.runs, w.disk;
      var err, dn;
      ghost var till;
      err, dn, till, failed := Deallocate(w, run, vcn0, vcn - vcn0);
      run.Truncate(vcn0);
      GiveBack(b0, b1, w.disk, rs, vcn0, cs);
    } else {
      Clusters.NothingTaken(b0, w.disk, cs);
    }
  }

  lemma PlacedInVolume(rs: seq<Piece>, vcn0: nat, cs: seq<nat>, nbits: nat)
    requires Placed(rs, vcn0, cs) && Within(cs, nbits)
    ensures InVolume(rs, vcn0, vcn0 + |cs|, nbits)
  {
    hide Find;
    forall v: nat | vcn0 <= v < vcn0 + |cs| && Find(rs, v).Some? && Find(rs, v).value.At?
      ensures Find(rs, v).value.n < nbits
    {
      assert cs[v - vcn0] in cs;
    }
  }

  /** What has been allocated so far: `cs`, taken from the bitmap `b0` and placed in the run from `vcn0` on. */
  ghost predicate Progress(b0: seq<bool>, b1: seq<bool>, nbits: nat, rs0: seq<Piece>, rs1: seq<Piece>,
                           vcn0: nat, cs: seq<nat>) {
    && Fresh(b0, cs) && Within(cs, nbits) && Taken(b0, b1, cs)
    && Placed(rs1, vcn0, cs) && AlikeOutside(rs1, rs0, vcn0, vcn0 + |cs|)
    && (cs == [] ==> rs1 == rs0)
  }

  lemma NoProgress(b0: seq<bool>, nbits: nat, rs0: seq<Piece>, vcn0: nat)
    ensures Progress(b0, b0, nbits, rs0, rs0, vcn0, [])
  {
    hide Find;
  }

  lemma OneMore(b0: seq<bool>, b1: seq<bool>, b2: seq<bool>, nbits: nat, rs0: seq<Piece>, rs1: seq<Piece>,
                rs2: seq<Piece>,
                vcn0: nat, cs: seq<nat>, want: nat, lcn: nat, len: nat)
    requires Progress(b0, b1, nbits, rs0, rs1, vcn0, cs) && TakenFrom(b1, b2, nbits, want, 0, lcn, len)
    requires var p := Piece(vcn0 + |cs|, len, At(lcn));
             forall v: nat :: Find(rs2, v) == if p.Holds(v) then Some(p.Loc(v)) else Find(rs1, v)
    ensures Progress(b0, b2, nbits, rs0, rs2, vcn0, cs + Stretch(lcn, len)) && |Stretch(lcn, len)| == len
    ensures 0 < len && Stretch(lcn, len)[0] == lcn
  {
    hide Find, Fresh, Taken, Placed, AlikeOutside;
    TakeMore(b0, b1, b2, cs, lcn, len);
    PlaceMore(rs0, rs1, rs2, vcn0, cs, lcn, len);
  }

  /** A failed fragment leaves what is below it. */
  lemma StillThere(b0: seq<bool>, b1: seq<bool>, nbits: nat, rs0: seq<Piece>, rs1: seq<Piece>,
                   rs2: seq<Piece>, vcn0: nat, cs: seq<nat>)
    requires Progress(b0, b1, nbits, rs0, rs1, vcn0, cs)
    requires forall v: nat :: v < vcn0 + |cs| ==> Find(rs2, v) == Find(rs1, v)
    ensures Fresh(b0, cs) && Within(cs, nbits) && Taken(b0, b1, cs) && Placed(rs2, vcn0, cs)
    ensures forall v: nat :: v < vcn0 ==> Find(rs2, v) == Find(rs0, v)
    ensures cs == [] ==> rs1 == rs0
  {
    hide Find, Fresh, Taken, Within;
    StillPlaced(rs0, rs1, rs2, vcn0, cs);
  }

  /**
    attr_allocate_clusters on the indexed bitmap: as long as the index answers (`kept`), all or nothing,
    and in both cases the index describes the bitmap afterwards.
   */
  method Allocate(w: WndBitmap, run: RunsTree, vcn0: nat, hint0: nat, len0: nat, pre0: nat, mft: bool, fr: nat)
    returns (err: int, alen: nat, newLcn: nat, preOut: nat, kept: bool, ghost cs: seq<nat>)
    requires w.Ready() && w.Describes(w.Current()) && run.Valid() && 0 < len0
    modifies w, run`runs
    ensures run.Valid() && (kept ==> w.Ready() && w.Describes(w.Current()) && w.nbits == old(w.nbits))
    ensures kept && err == 0 ==>
              && Progress(old(w.disk), w.disk, w.nbits, old(run.runs), run.runs, vcn0, cs)
              && |cs| == alen && 0 < alen <= len0 + pre0 && newLcn == cs[0]
              && (alen < len0 ==> mft || TooManyFragments(|run.runs|, |old(run.runs)|, fr))
    ensures kept && err != 0 ==>
              && w.disk == old(w.disk)
              && (forall v: nat :: v < vcn0 ==> Find(run.runs, v) == Find(old(run.runs), v))
              && (cs != [] ==> EmptyFrom(run.runs, vcn0))
              && (cs == [] && Find(old(run.runs), vcn0).None? ==> run.runs == old(run.runs))
    ensures !mft && run.memory == Plenty && w.memory == Plenty && old(Enough(w, len0)) ==> kept && err == 0
    ensures mft && run.memory == Plenty && kept ==> (err == 0 <==> old(w.zoneBit < w.zoneEnd))
  {
    hide Find, Sorted, Progress, Fresh, Taken, Placed, AlikeOutside, Within, TakenFrom, EmptyFrom, WndBitmap.Geometry,
         WndBitmap.Counters, WndBitmap.IndexTrees, WndBitmap.Describes, OpenMap;
    var vcn, len, pre, lcn := vcn0, len0, pre0, hint0;
    var cnt := |run.runs|;
    ghost var b0, rs0 := w.disk, run.runs;
    alen, newLcn, preOut, cs := 0, 0, pre0, [];
    ghost var sure := !mft && run.memory == Plenty && w.memory == Plenty && Enough(w, len0);
    NoProgress(b0, w.nbits, rs0, vcn0);
    while true
      invariant w.Ready() && w.Describes(w.Current()) && w.nbits == old(w.nbits) && run.Valid()
      invariant vcn == vcn0 + |cs| && 0 < len && len + |cs| == len0 && pre == preOut <= pre0
      invariant Progress(b0, w.disk, w.nbits, rs0, run.runs, vcn0, cs)
      invariant cs != [] ==> newLcn == cs[0]
      invariant w.memory == old(w.memory) && (sure ==> Enough(w, len))
      invariant mft ==> cs == [] && w.zoneBit == old(w.zoneBit) && w.zoneEnd == old(w.zoneEnd)
      decreases len, pre
    {
      ghost var b1, rs1, failed, was := w.disk, run.runs, false, w.Now();
      if sure {
        NotRefused(w, len, len + pre, lcn);
        CountsTrue(w);
      }
      var flen;
      err, lcn, flen, kept, failed := Fragment(w, run, vcn, lcn, len + pre, mft);
      if !kept {
        return;
      }
      if err == ENOSPC && pre != 0 {
        NoneTaken(b1, w.disk, w.nbits, len + pre, err, lcn, flen);
        pre, preOut := 0, 0;
        continue;
      }
      if err != 0 {
        NoneTaken(b1, w.disk, w.nbits, len + pre, err, lcn, flen);
        StillThere(b0, b1, w.nbits, rs0, rs1, run.runs, vcn0, cs);
        failed := RollBack(w, run, vcn0, vcn, b0, rs0, cs);
        return;
      }
      if vcn == vcn0 {
        newLcn := lcn;
      }
      OneMore(b0, b1, w.disk, w.nbits, rs0, rs1, run.runs, vcn0, cs, len + pre, lcn, flen);
      Length(b1, w.disk, w.nbits, len + pre, lcn, flen);
      cs := cs + Stretch(lcn, flen);
      vcn := vcn + flen;
      if flen >= len || mft || TooManyFragments(|run.runs|, cnt, fr) {
        alen := vcn - vcn0;
        return;
      }
      if sure {
        StillEnough(w, was, len, len + pre, lcn, flen);
      }
      len := len - flen;
    }
  }

  /**
    There are that many free bits outside the zone, not every bit of the bitmap is open, and the index is
    up to date and has room for as many extents more.
   */
  ghost predicate Enough(w: WndBitmap, n: nat)
    reads w
  {
    && w.nbits <= |w.disk| && n + (w.zoneEnd - w.zoneBit) <= w.totalZeroes
    && !AllOpen(w.Current(), 0, w.nbits) && w.uptodated == 1 && w.count + n < w.MAX
  }

  lemma CountsTrue(w: WndBitmap)
    requires w.Ready()
    ensures w.totalZeroes == Zeroes(w.disk, 0, w.nbits)
  {
  }

  lemma NotRefused(w: WndBitmap, n: nat, want: nat, hint: nat)
    requires w.Ready() && 0 < n && Enough(w, n)
    ensures !Refused(w, want, hint)
  {
    hide WndBitmap.Geometry, WndBitmap.IndexTrees, OpenMap, HasRange, AllOpen;
    w.OpenExists();
  }

  /** After `len` of them were taken, the rest is still there. */
  lemma StillEnough(w: WndBitmap, was: Snapshot, n: nat, want: nat, lcn: nat, len: nat)
    requires w.Ready() && TakenFrom(was.disk, w.disk, w.nbits, want, 0, lcn, len) && len < n
    requires was.nbits == w.nbits && was.zoneBit == w.zoneBit && was.zoneEnd == w.zoneEnd
    requires n + (was.zoneEnd - was.zoneBit) <= was.totalZeroes == Zeroes(was.disk, 0, was.nbits)
    requires w.uptodated == 1 && w.count + (n - len) < w.MAX
    ensures Enough(w, n - len)
  {
    hide WndBitmap.Geometry, WndBitmap.WindowCounts, WndBitmap.IndexTrees, OpenMap;
    ZeroesFill(was.disk, 0, w.nbits, lcn, lcn + len, true);
    w.MapBits(w.Current());
    assert w.disk[lcn] && !Open(w.Current(), lcn);
  }

  lemma Length(was: seq<bool>, now: seq<bool>, nbits: nat, want: nat, lcn: nat, len: nat)
    requires TakenFrom(was, now, nbits, want, 0, lcn, len)
    ensures 0 < len <= want
  {
  }
}
