/**
  bitmap.c: the free-space bitmap, its per-window counters and the index of free extents.

  The bitmap is cut into windows of W bits (one disk block each). The index holds some or all of
  the maximal runs of free bits outside the reserved zone, in two trees. `uptodated` is 1 when the
  index is believed complete and -1 when extents were dropped.
 */
module FreeIndex {
  import opened Extents
  import opened Kernel
  import opened Bits
  import opened Trees
  import opened BitFunc

  /**
    Outcome of a search. IntoZone is a range of free bits that reaches into the zone. Scan stands for
    the two places where a stale index sends the search over the bitmap itself (lines 1113-1288), which
    is not modelled.
   */
  datatype Answer = NoSpace | Found(pos: nat, len: nat) | IntoZone(pos: nat, len: nat) | Scan

  /** bytes_to_block(bitmap_size(n)): windows needed for `n` bits. */
  function Windows(w: nat, n: nat): int {
    if n == 0 || w == 0 then 0 else (n - 1) / w + 1
  }

  /** One request to the allocator. */
  datatype Request =
    | Free(bit: nat, bits: nat)
    | Use(bit: nat, bits: nat)
    | Search(toAlloc: nat, hint: nat, full: bool, mark: bool)
    | Grow(newBits: nat)
    | Zone(lcn: nat, len: nat)

  /** What requests and their promises depend on. */
  datatype Snapshot = Snapshot(disk: seq<bool>, nbits: nat, w: nat, zoneBit: nat, zoneEnd: nat, totalZeroes: nat,
                               startTree: set<Extent>, extentMax: nat, uptodated: int) {

    /** The open map: free bits outside the zone. */
    ghost function Map(): seq<bool>
      requires nbits <= |disk|
    {
      OpenMap(disk[..nbits], zoneBit, zoneEnd)
    }

    /** The index is sound, and exact if it claims to be up to date. */
    ghost predicate Indexed() {
      nbits <= |disk| && Sound(startTree, Map()) && (uptodated == 1 ==> Complete(startTree, Map()))
    }

    predicate BesideZone(lo: nat, hi: nat) {
      hi <= zoneBit || zoneEnd <= lo || zoneBit == zoneEnd
    }

    /** What the callers of the allocator promise for each request. */
    ghost predicate Allowed(q: Request) {
      match q
      case Free(bit, bits) => 0 < bits && bit + bits <= nbits && AllAre(disk, bit, bit + bits, true)
      case Use(bit, bits) =>
        0 < bits && bit + bits <= nbits && AllAre(disk, bit, bit + bits, false) && BesideZone(bit, bit + bits)
      case Search(toAlloc, _, _, _) => 0 < toAlloc
      case Grow(newBits) => 0 <= Windows(w, newBits) && Base(w, Windows(w, newBits)) <= |disk|
      case Zone(lcn, len) => lcn + len <= nbits && AllAre(disk, lcn, lcn + len, false)
    }

    /** Where a search starts: past the zone if the hint lies in it, from zero if that is out of bounds. */
    function Hint(hint: nat): nat {
      var h := if zoneBit <= hint < zoneEnd then zoneEnd else hint;
      if h >= nbits then 0 else h
    }

    predicate IsBiggest(e: Extent) {
      e in startTree && forall x :: x in startTree ==> !Before(ByCount, x, e)
    }

    /** The extent that holds the hint serves a search: with all it asks for, or, if that will do, with what it has. */
    predicate HintServes(toAlloc: nat, hint: nat, full: bool) {
      && Hint(hint) != 0
      && exists e :: e in startTree && e.start <= Hint(hint) && Hint(hint) + (if full then toAlloc else 1) <= e.End()
    }

    /** Where a search that finds something finds it: at the hint, or where the biggest extent starts. */
    ghost predicate Places(toAlloc: nat, hint: nat, full: bool, pos: nat) {
      if HintServes(toAlloc, hint, full) then pos == Hint(hint) else exists e :: IsBiggest(e) && pos == e.start
    }

    /**
      A search is refused: it must be served in full and there is too little, by the counts or by the
      biggest extent; or the index is up to date and empty, or is the whole bitmap and the hint is no use.
     */
    ghost predicate Refuses(toAlloc: nat, hint: nat, full: bool) {
      || (full && (toAlloc > totalZeroes - (zoneEnd - zoneBit) || toAlloc > extentMax))
      || (startTree == {} && uptodated == 1)
      || (!HintServes(toAlloc, hint, full) && RefusedByBiggest(toAlloc, full))
    }

    ghost predicate RefusedByBiggest(toAlloc: nat, full: bool) {
      exists e :: IsBiggest(e) && if e.len < nbits then full && e.len < toAlloc else uptodated == 1
    }

    /** The biggest extent is shorter than `n` and ends where the zone begins. */
    ghost predicate EndsAtZone(n: nat) {
      exists e :: IsBiggest(e) && e.len < n && e.End() == zoneBit < zoneEnd
    }

    /** A search of a stale index lengthens its biggest extent, which ends where the zone begins. */
    predicate ReachesZone(toAlloc: nat, hint: nat, full: bool) {
      && uptodated != 1 && !full && !HintServes(toAlloc, hint, full)
      && exists e :: e in startTree && IsBiggest(e) && e.len < toAlloc && e.len < extentMax
                     && e.End() == zoneBit < zoneEnd
    }

    /** A search of a stale index goes over the bitmap itself: no extent is indexed, or one that is the whole bitmap. */
    predicate Scans(toAlloc: nat, hint: nat, full: bool) {
      && uptodated != 1
      && (full ==> toAlloc <= totalZeroes - (zoneEnd - zoneBit) && toAlloc <= extentMax)
      && (startTree == {}
          || (startTree == {Extent(0, nbits)} && (Hint(hint) == 0 || (full && nbits < Hint(hint) + toAlloc))))
    }

    /** The bits around the free range [lcn, lcn + len) are used or out of bounds. */
    predicate WholeRun(lcn: nat, len: nat) {
      lcn + len <= nbits <= |disk| && (lcn == 0 || disk[lcn - 1]) && (lcn + len == nbits || disk[lcn + len])
    }

    /**
      Requests after which nothing is promised. Those that may empty a stale index and so make it scan
      the bitmap with the wrong zone: using the one extent that is left, by name or by a search that can
      take all of it; or setting a zone there. Moving a zone adds two cases: its only extent becomes the
      new zone, which is harmful if there is no memory to give the old zone back; or the index is stale,
      holds neighbours of the old zone only, and the new zone is the whole free run around the old one.
      And searches of a stale index that leave it: over the bitmap, or into the zone.
     */
    predicate Risky(q: Request) {
      match q
      case Use(bit, bits) => uptodated != 1 && zoneBit != zoneEnd && startTree == {Extent(bit, bits)}
      case Search(toAlloc, hint, full, mark) =>
        || Scans(toAlloc, hint, full)
        || (mark && ReachesZone(toAlloc, hint, full))
        || (mark && uptodated != 1 && zoneBit != zoneEnd
            && exists e :: e in startTree && startTree == {e} && e.len <= toAlloc && (full ==> e.len == toAlloc))
      case Zone(lcn, len) =>
        && 0 < len
        && if zoneBit == zoneEnd then startTree == {Extent(lcn, len)} && uptodated != 1
           else startTree == {Extent(lcn, len)}
                || (uptodated != 1 && (forall e :: e in startTree ==> e.End() == zoneBit || e.start == zoneEnd)
                    && lcn <= zoneBit && zoneEnd <= lcn + len && WholeRun(lcn, len))
      case _ => false
    }

    /** What a request does to bitmap and zone, `s` being the state after it. */
    ghost predicate Effect(q: Request, s: Snapshot) {
      && |s.disk| == |disk| && nbits <= |disk| && s.nbits <= |disk| && s.w == w
      && (q.Zone? || (s.zoneBit == zoneBit && s.zoneEnd == zoneEnd)) && (q.Grow? || s.nbits == nbits)
      && match q
         case Free(bit, bits) => bit + bits <= |disk| && s.disk == Fill(disk, bit, bit + bits, false)
         case Use(bit, bits) => bit + bits <= |disk| && s.disk == Fill(disk, bit, bit + bits, true)
         case Search(toAlloc, hint, full, mark) =>
           if mark && !Refuses(toAlloc, hint, full) then exists pos, len :: Took(toAlloc, hint, full, pos, len, s)
           else s.disk == disk
         case Grow(newBits) =>
           if newBits <= nbits || s.nbits == nbits then s.disk == disk && s.nbits == nbits
           else && s.nbits == newBits && (forall i :: 0 <= i < nbits ==> s.disk[i] == disk[i])
                && AllAre(s.disk, nbits, newBits, false)
         case Zone(lcn, len) => s.disk == disk && s.zoneBit == lcn && s.zoneEnd == lcn + len
    }

    /**
      A search took [pos, pos + len): free, in bounds, outside the zone, where it should, and no less
      than it could.
     */
    ghost predicate Took(toAlloc: nat, hint: nat, full: bool, pos: nat, len: nat, s: Snapshot) {
      && Places(toAlloc, hint, full, pos) && (len < toAlloc && nbits <= |disk| ==> !Open(Map(), pos + len))
      && 0 < len <= toAlloc && (full ==> len == toAlloc) && pos + len <= nbits <= |disk|
      && AllAre(disk, pos, pos + len, false) && BesideZone(pos, pos + len)
      && s.disk == Fill(disk, pos, pos + len, true)
    }
  }

  const SIZE_MAX: nat := 0xFFFF_FFFF_FFFF_FFFF

  class WndBitmap {
    const W: nat          // bits per window: 8 * s_blocksize
    const MAX: nat        // NTFS_MAX_WND_EXTENTS
    var disk: seq<bool>   // the blocks of the bitmap file, true = used; bits past nbits are arbitrary
    var nbits: nat
    var nwnd: nat
    var bitsLast: nat
    var freeBits: seq<nat>
    var totalZeroes: nat
    var zoneBit: nat
    var zoneEnd: nat
    var inited: bool
    var memory: Memory    // set by the environment, never by the methods

    var startTree: set<Extent>
    var countTree: set<Extent>
    var count: nat
    var extentMax: nat
    var extentMin: nat
    var uptodated: int

    function Now(): Snapshot
      reads this`disk, this`nbits, this`zoneBit, this`zoneEnd, this`totalZeroes, this`startTree, this`extentMax,
            this`uptodated
    {
      Snapshot(disk, nbits, W, zoneBit, zoneEnd, totalZeroes, startTree, extentMax, uptodated)
    }

    // ----- geometry and counters

    ghost predicate Geometry()
      reads this`disk, this`nbits, this`nwnd, this`bitsLast
    {
      && 8 <= W < TWO_16 && W % 8 == 0 && 2 <= MAX
      && (nwnd == 0 <==> nbits == 0)
      && (nwnd > 0 ==> 1 <= bitsLast <= W && nbits == Base(W, nwnd - 1) + bitsLast)
      && Base(W, nwnd) <= |disk|
      && nbits <= |disk|
    }

    /** wnd_bits */
    function WBits(iw: nat): nat
      reads this`nwnd, this`bitsLast
    {
      if iw + 1 == nwnd then bitsLast else W
    }

    /** The true number of free bits of a window. */
    ghost function WindowZeroes(iw: nat): nat
      reads this`disk, this`nwnd, this`bitsLast
    {
      Zeroes(disk, Base(W, iw), Base(W, iw) + WBits(iw))
    }

    /** Each cached window count is the true number of free bits of that window. */
    ghost predicate WindowCounts()
      reads this`disk, this`nwnd, this`bitsLast, this`freeBits
    {
      && |freeBits| == nwnd
      && forall iw {:trigger freeBits[iw]} :: 0 <= iw < nwnd ==> freeBits[iw] == WindowZeroes(iw)
    }

    ghost predicate Counters()
      reads this`disk, this`nbits, this`nwnd, this`bitsLast, this`freeBits, this`totalZeroes
    {
      WindowCounts() && totalZeroes == Zeroes(disk, 0, nbits)
    }

    ghost function Bitmap(): seq<bool>
      requires nbits <= |disk|
      reads this`disk, this`nbits
    {
      disk[..nbits]
    }

    lemma WindowInside(iw: nat)
      requires Geometry() && iw < nwnd
      ensures Base(W, iw) < Base(W, iw) + WBits(iw) <= nbits
      ensures Base(W, iw) + WBits(iw) <= Base(W, iw) + W == Base(W, iw + 1) <= |disk|
      ensures iw + 1 < nwnd ==> WBits(iw) == W
      ensures iw + 1 == nwnd ==> Base(W, iw) + WBits(iw) == nbits
    {
      if iw + 1 < nwnd {
        BaseOrder(W, iw, nwnd - 1);
        BaseOrder(W, iw + 1, nwnd);
      }
    }

    /** The window index computed from a bit position is in range. */
    lemma InWindow(iw: nat, pos: nat)
      requires Geometry() && Base(W, iw) <= pos < nbits
      ensures iw < nwnd
    {
      if 0 < nwnd {
        var last := nwnd - 1;
        if last < iw {
          BaseOrder(W, last, iw);
        }
      }
    }

    /** The head of every window loop: how many of the remaining bits lie in window `iw`. */
    method InThisWindow(iw: nat, wbit: nat, bits: nat) returns (wbits: nat, op: nat)
      requires Geometry() && 0 < bits && iw < nwnd
      requires wbit < W && Base(W, iw) + wbit + bits <= nbits
      ensures wbits == WBits(iw)
      ensures 0 < op <= bits && wbit + op <= wbits && wbits <= W
      ensures Base(W, iw) + wbits <= nbits <= |disk| && Base(W, iw + 1) == Base(W, iw) + W <= |disk|
      ensures op < bits ==> iw + 1 < nwnd && Base(W, iw) + wbit + op == Base(W, iw + 1)
    {
      WindowInside(iw);
      wbits := W;
      if iw + 1 == nwnd {
        wbits := bitsLast;
      }
      var tail := wbits - wbit;
      op := if tail < bits then tail else bits;
    }

    // ----- bitmap queries

    /** wnd_is_free_hlp */
    method IsFreeHlp(bit: nat, bits0: nat) returns (r: bool)
      requires Geometry() && WindowCounts() && bit + bits0 <= nbits
      ensures r <==> AllAre(disk, bit, bit + bits0, false)
    {
      hide AllAre, WindowCounts, Geometry, Base;
      DiskHolds();
      NothingThere(disk, bit + bits0, false);
      var bits: nat := bits0;
      var iw: nat, wbit: nat := FirstWindow(bit, bits);
      ghost var pos, end := bit, bit + bits0;
      while iw < nwnd && bits != 0
        invariant pos + bits == end <= nbits
        invariant bits != 0 ==> Base(W, iw) + wbit == pos && wbit < W && iw < nwnd
        invariant AllAre(disk, bit, end, false) <==> AllAre(disk, pos, end, false)
        decreases bits
      {
        var wbits, op := InThisWindow(iw, wbit, bits);
        AllAreJoin(disk, pos, pos + op, end, false);
        var clear := WindowBitsAre(iw, wbit, op, wbits, false);
        if !clear {
          return false;
        }
        bits, wbit, iw, pos := bits - op, 0, iw + 1, pos + op;
      }
      return true;
    }

    lemma DiskHolds()
      requires Geometry()
      ensures nbits <= |disk|
    {
    }

    /** The window of a bit and the bit's place in it. */
    method FirstWindow(bit: nat, bits: nat) returns (iw: nat, wbit: nat)
      requires Geometry() && bit + bits <= nbits
      ensures Base(W, iw) + wbit == bit && wbit < W
      ensures 0 < bits ==> iw < nwnd
    {
      BaseOf(W, bit);
      iw, wbit := bit / W, bit % W;
      if 0 < bits {
        InWindow(iw, bit);
      }
    }

    /** The cached count decides a uniform window; otherwise the window's bytes are tested. */
    method WindowBitsAre(iw: nat, wbit: nat, op: nat, wbits: nat, v: bool) returns (r: bool)
      requires Geometry() && WindowCounts() && iw < nwnd
      requires wbits == WBits(iw) && wbit + op <= wbits
      ensures r <==> AllAre(disk, Base(W, iw) + wbit, Base(W, iw) + wbit + op, v)
    {
      WindowInside(iw);
      var lo := Base(W, iw);
      if freeBits[iw] == (if v then 0 else wbits) {
        CountSkips(iw);
        AllAreWithin(disk, lo, lo + wbits, lo + wbit, lo + wbit + op, v);
        return true;
      }
      var addr: nat, wide: bool := *, *;
      var size := if wide then 8 else 4;
      var mem := ReadBlock(disk, lo, W, addr);
      PackedBits(mem, addr, disk, lo, W, wbit, wbit + op, v);
      if v {
        r := AreBitsSet(mem, size, 8 * addr + wbit, op);
      } else {
        r := AreBitsClear(mem, size, 8 * addr + wbit, op);
      }
    }

    /** What the cached count of a window says when the window is all free or all used. */
    lemma CountSkips(iw: nat)
      requires Geometry() && WindowCounts() && iw < nwnd
      ensures Base(W, iw) + WBits(iw) <= |disk|
      ensures freeBits[iw] == WBits(iw) <==> AllAre(disk, Base(W, iw), Base(W, iw) + WBits(iw), false)
      ensures freeBits[iw] == 0 <==> AllAre(disk, Base(W, iw), Base(W, iw) + WBits(iw), true)
    {
      WindowInside(iw);
      ZeroesExtremes(disk, Base(W, iw), Base(W, iw) + WBits(iw));
    }

    // ----- the extent index

    /** Both trees hold the same nodes and `count` is their number. */
    ghost predicate SameNodes()
      reads this`startTree, this`countTree, this`count
    {
      startTree == countTree && count == |startTree| <= MAX
    }

    /** In addition, no node is longer than extent_max. */
    ghost predicate TreesAgree()
      reads this`startTree, this`countTree, this`count, this`extentMax
    {
      SameNodes() && forall e :: e in startTree ==> e.len <= extentMax
    }

    ghost predicate MaxAttained()
      reads this`startTree, this`extentMax
    {
      if extentMax == 0 then startTree == {} else exists e :: e in startTree && e.len == extentMax
    }

    /** While no extent was dropped, extent_max is the length of a longest node. */
    ghost predicate IndexTrees()
      reads this`startTree, this`countTree, this`count, this`extentMax, this`uptodated
    {
      TreesAgree() && (uptodated != -1 ==> MaxAttained())
    }

    /** The index describes the open map `o`: soundly, and completely when it is up to date. */
    ghost predicate Describes(o: seq<bool>)
      reads this`startTree, this`uptodated
    {
      Sound(startTree, o) && (uptodated == 1 ==> Complete(startTree, o))
    }

    /** rb_erase from both trees. */
    method Erase(e: Extent)
      requires SameNodes() && e in startTree
      modifies this`startTree, this`countTree, this`count
      ensures SameNodes() && startTree == old(startTree) - {e}
      ensures count + 1 == old(count)
    {
      startTree := startTree - {e};
      countTree := countTree - {e};
      count := count - 1;
    }

    /** rb_insert_start and rb_insert_count. */
    method Insert(e: Extent)
      requires SameNodes() && e !in startTree && count < MAX
      modifies this`startTree, this`countTree, this`count
      ensures SameNodes() && startTree == old(startTree) + {e}
      ensures count == old(count) + 1
    {
      startTree := startTree + {e};
      countTree := countTree + {e};
      count := count + 1;
    }

    lemma NodesExist()
      requires SameNodes() && 0 < count
      ensures startTree == countTree && startTree != {}
    {
    }

    ghost predicate Smallest(t: set<Extent>, e: Extent) {
      forall x :: x in t ==> e.len <= x.len
    }

    /**
      What becomes of node `n` on its way into the trees `t0`: it is inserted; or, with the trees
      full, it takes the place of a smallest node unless it is no longer than that; or there is no
      memory for it.
     */
    ghost predicate Settled(t0: set<Extent>, n: Extent, t1: set<Extent>, failed: bool) {
      if failed then |t0| < MAX && t1 == t0
      else if |t0| < MAX then t1 == t0 + {n}
      else exists m :: m in t0 && Smallest(t0, m) && t1 == if m.len < n.len then t0 - {m} + {n} else t0
    }

    /** Lines 316-350 of wnd_add_free_ext: find a node for a fragment of `len` bits, or give up. */
    method MakeRoom(haveNode: bool, len: nat, build: bool) returns (room: bool, ghost failed: bool)
      requires SameNodes() && 2 <= MAX && (haveNode ==> count < MAX)
      modifies this`startTree, this`countTree, this`count, this`extentMin, this`uptodated
      ensures SameNodes() && (room ==> count < MAX)
      ensures uptodated == old(uptodated) || uptodated == -1
      ensures startTree <= old(startTree)
      ensures uptodated != -1 ==> room && startTree == old(startTree)
      ensures failed ==> !haveNode && !room && startTree == old(startTree) && old(count) < MAX
      ensures count <= old(count)
      ensures memory == Plenty ==> !failed
      ensures memory == Scarce && !haveNode && old(count) < MAX ==> failed
      ensures failed ==> uptodated == -1
      ensures old(count) < MAX && !failed ==> room && startTree == old(startTree) && uptodated == old(uptodated)
      ensures old(count) == MAX ==>
                exists m :: m in old(startTree) && Smallest(old(startTree), m) && (room <==> m.len < len)
                            && startTree == if room then old(startTree) - {m} else old(startTree)
    {
      hide SameNodes;
      failed := false;
      CountBound();
      if count >= MAX {
        uptodated := -1;
        NodesExist();
        var last := Last(ByCount, countTree);
        var e := last.value;
        LastIsSmallest(countTree, e);
        if len <= e.len {
          return false, false;
        }
        if build {
          var second := Prev(ByCount, countTree, e);
          HasPrevious(e);
          extentMin := second.value.len;
        }
        Erase(e);
      } else {
        if !haveNode {
          var ok := TryAlloc(memory);
          if !ok {
            uptodated := -1;
            return false, true;
          }
        }
        if build && len <= extentMin {
          extentMin := len;
        }
      }
      return true, false;
    }

    /** The last node of count_tree is a shortest one. */
    lemma LastIsSmallest(t: set<Extent>, e: Extent)
      requires e in t && forall x :: x in t ==> !Before(ByCount, e, x)
      ensures Smallest(t, e)
    {
    }

    /** The common tail of wnd_add_free_ext: insert the fragment, or drop it or a smaller one. */
    method InsertFragment(haveNode: bool, bit: nat, len: nat, build: bool) returns (ghost failed: bool)
      requires TreesAgree() && 2 <= MAX && 0 < len && (haveNode ==> count < MAX)
      requires uptodated != -1 ==> MaxAttained() || extentMax < len
      requires Extent(bit, len) !in startTree
      modifies this`startTree, this`countTree, this`count, this`extentMax, this`extentMin, this`uptodated
      ensures IndexTrees()
      ensures uptodated == old(uptodated) || uptodated == -1
      ensures startTree <= old(startTree) + {Extent(bit, len)}
      ensures uptodated != -1 ==> startTree == old(startTree) + {Extent(bit, len)}
      ensures Settled(old(startTree), Extent(bit, len), startTree, failed)
      ensures count <= old(count) + 1
      ensures failed ==> !haveNode && uptodated == -1 && startTree == old(startTree)
      ensures memory == Plenty ==> !failed
      ensures memory == Scarce && !haveNode && old(count) < MAX ==> failed
      ensures !failed && old(count) < MAX ==> uptodated == old(uptodated)
    {
      hide SameNodes, Smallest;
      CountIs();
      var room;
      room, failed := MakeRoom(haveNode, len, build);
      if room {
        if len > extentMax {
          extentMax := len;
        }
        Insert(Extent(bit, len));
        assert Extent(bit, len) in startTree;
      }
    }

    lemma CountIs()
      requires SameNodes()
      ensures count == |startTree| <= MAX
    {
    }

    lemma MaxBound()
      requires Geometry()
      ensures 2 <= MAX
    {
    }

    lemma CountBound()
      requires SameNodes()
      ensures count <= MAX
    {
    }

    /** With two nodes or more, the last node of count_tree has a predecessor. */
    lemma HasPrevious(e: Extent)
      requires SameNodes() && e in countTree && 2 <= count
      requires forall x :: x in countTree ==> !Before(ByCount, e, x)
      ensures exists x :: x in countTree && Before(ByCount, x, e)
    {
      assert countTree - {e} != {} by {
        assert countTree == (countTree - {e}) + {e};
      }
      var x :| x in countTree - {e};
      assert Before(ByCount, x, e) || Before(ByCount, e, x);
    }

    /** Extents were dropped only for want of memory, or because the trees are full. */
    ghost predicate Excused(starved: bool)
      reads this`uptodated, this`count
    {
      uptodated == -1 ==> starved || count == MAX
    }

    lemma StaysFull(t: set<Extent>, n: Extent, failed: bool)
      requires SameNodes() && Settled(t, n, startTree, failed) && |t| <= MAX && n !in t
      ensures |t| == MAX ==> count == MAX
    {
      if |t| == MAX {
        var m :| m in t && Smallest(t, m) && startTree == if m.len < n.len then t - {m} + {n} else t;
      }
    }

    /** wnd_add_free_ext(wnd, bit, len, true) */
    method BuildFreeExt(bit: nat, len: nat, ghost starved0: bool) returns (ghost starved: bool)
      requires IndexTrees() && 2 <= MAX && 0 < len && Extent(bit, len) !in startTree
      modifies this`startTree, this`countTree, this`count, this`extentMax, this`extentMin, this`uptodated
      ensures IndexTrees()
      ensures uptodated == old(uptodated) || uptodated == -1
      ensures startTree <= old(startTree) + {Extent(bit, len)}
      ensures uptodated != -1 ==> startTree == old(startTree) + {Extent(bit, len)}
      ensures old(Excused(starved0)) ==> Excused(starved)
      ensures memory == Plenty ==> starved == starved0
    {
      hide Settled;
      starved := starved0;
      CountIs();
      if count >= MAX && len <= extentMin {
        uptodated := -1;
        return;
      }
      ghost var t := startTree;
      ghost var failed := InsertFragment(false, bit, len, true);
      starved := starved0 || failed;
      StaysFull(t, Extent(bit, len), failed);
    }

    /** `next` is the first node of the tree at or after `p`. */
    ghost predicate FirstFrom(t: set<Extent>, p: nat, next: Option<Extent>) {
      && (next.Some? ==> next.value in t && p <= next.value.start)
      && forall x :: x in t && p <= x.start ==> next.Some? && next.value.start <= x.start
    }

    /** wnd_add_free_ext, looking left: take out the extent that ends at `bit0`, if it is indexed. */
    method MergeLeft(bit0: nat, len0: nat)
      returns (bit: nat, len: nat, haveNode: bool, next: Option<Extent>)
      requires SameNodes() && Apart(startTree) && 0 < len0 && Clear(startTree, bit0, bit0 + len0)
      modifies this`startTree, this`countTree, this`count
      ensures SameNodes() && startTree == EndingElsewhere(old(startTree), bit0)
      ensures FirstFrom(startTree, bit0 + len0, next)
      ensures bit <= bit0 && bit + len == bit0 + len0
      ensures if bit < bit0 then Extent(bit, bit0 - bit) in old(startTree)
              else forall e :: e in old(startTree) ==> e.End() != bit0
      ensures count <= old(count) && if haveNode then count < old(count) else startTree == old(startTree)
    {
      hide SameNodes;
      hide Apart, Clear;
      bit, len, haveNode := bit0, len0, false;
      ghost var t := startTree;
      NoneTouching(t, bit0);
      var before := Lookup(startTree, bit0);
      LookupLeft(t, bit0, bit0 + len0, before);
      if before.None? {
        next := FirstStart(startTree);
      } else {
        var e := before.value;
        next := NextStart(startTree, e);
        if e.End() == bit0 {
          OnlyNeighbour(t, e);
          bit, len := e.start, len + e.len;
          Erase(e);
          haveNode := true;
        }
      }
    }

    /** wnd_add_free_ext, looking right: take out every extent that the range reaches. */
    method MergeRight(end0: nat, len0: nat, next0: Option<Extent>)
      returns (len: nat, endIn: nat, taken: bool)
      requires SameNodes() && Apart(startTree) && FirstFrom(startTree, end0, next0)
      modifies this`startTree, this`countTree, this`count
      ensures SameNodes() && startTree == StartingElsewhere(old(startTree), end0)
      ensures end0 <= endIn && len - len0 == endIn - end0
      ensures if end0 < endIn then Extent(end0, endIn - end0) in old(startTree)
              else forall e :: e in old(startTree) ==> e.start != end0
      ensures count <= old(count) && if taken then count < old(count) else startTree == old(startTree)
    {
      hide SameNodes;
      len, endIn, taken := len0, end0, false;
      var next := next0;
      ghost var t := startTree;
      NoneTouching(t, end0);
      while next.Some?
        invariant SameNodes() && len - len0 == endIn - end0
        invariant FirstFrom(startTree, end0, next)
        invariant if taken then end0 < endIn && Extent(end0, endIn - end0) in t && count < old(count)
                                && startTree == StartingElsewhere(t, end0)
                  else endIn == end0 && startTree == t && count == old(count)
        decreases count
      {
        var e := next.value;
        if e.start > endIn {
          break;
        }
        assert !taken && e.start == end0;
        OnlyNeighbour(t, e);
        next := NextStart(startTree, e);
        len := len + (e.End() - endIn);
        endIn := e.End();
        Erase(e);
        taken := true;
      }
    }


    ghost predicate ZoneInside()
      reads this`zoneBit, this`zoneEnd, this`nbits, this`disk
    {
      zoneBit <= zoneEnd <= nbits <= |disk|
    }

    /** The open map of the bitmap with the current zone cut out. */
    ghost function Current(): seq<bool>
      requires nbits <= |disk|
      reads this`zoneBit, this`zoneEnd, this`nbits, this`disk
    {
      OpenMap(Bitmap(), zoneBit, zoneEnd)
    }

    /** The open map of the bitmap with no zone. */
    ghost function Uncut(): seq<bool>
      requires nbits <= |disk|
      reads this`nbits, this`disk
    {
      OpenMap(Bitmap(), 0, 0)
    }

    /**
      `o` is the map to use for a range [lo, hi) that is being added: ranges beside the zone see the
      zone as closed; the zone itself, when it is given back, does not.
     */
    ghost predicate MapFor(o: seq<bool>, lo: nat, hi: nat)
      reads this`zoneBit, this`zoneEnd, this`nbits, this`disk
      requires nbits <= |disk|
    {
      || (o == Current() && (zoneBit == zoneEnd || hi <= zoneBit || zoneEnd <= lo))
      || (o == Uncut() && (zoneBit == zoneEnd || (lo <= zoneBit && zoneEnd <= hi)))
    }

    /** Below `hi` and down to `lo`, the map and the bitmap say the same. */
    ghost predicate Agrees(o: seq<bool>, lo: nat, hi: nat)
      reads this`disk
    {
      hi <= |disk| && forall i :: lo <= i < hi ==> (Open(o, i) <==> !disk[i])
    }

    /** Check bits before `bit0`, down to the limit `ib`. */
    method ExtendLeft(bit0: nat, ib: nat, ghost o: seq<bool>) returns (bit: nat)
      requires Geometry() && WindowCounts() && ib <= bit0 <= nbits
      requires Agrees(o, ib, bit0) && !Open(o, ib - 1)
      ensures bit <= bit0 && AllOpen(o, bit, bit0) && !Open(o, bit - 1)
    {
      bit := bit0;
      while bit > ib
        invariant ib <= bit <= bit0 && AllOpen(o, bit, bit0)
      {
        var free := IsFreeHlp(bit - 1, 1);
        if !free {
          return;
        }
        bit := bit - 1;
      }
    }

    /** Check bits after `end0`, up to the limit `ib`. */
    method ExtendRight(end0: nat, ib: nat, ghost o: seq<bool>) returns (endIn: nat)
      requires Geometry() && WindowCounts() && end0 <= ib <= nbits
      requires Agrees(o, end0, ib) && !Open(o, ib)
      ensures end0 <= endIn && AllOpen(o, end0, endIn) && !Open(o, endIn)
    {
      endIn := end0;
      while endIn < ib
        invariant end0 <= endIn <= ib && AllOpen(o, end0, endIn)
      {
        var free := IsFreeHlp(endIn, 1);
        if !free {
          return;
        }
        endIn := endIn + 1;
      }
    }

    /** wnd_add_free_ext on a stale index: grow the range over free bits, but not across the zone. */
    method ExtendByBits(bit0: nat, end0: nat, ghost o: seq<bool>) returns (bit: nat, endIn: nat)
      requires Geometry() && WindowCounts() && ZoneInside()
      requires bit0 < end0 <= nbits && MapFor(o, bit0, end0) && AllOpen(o, bit0, end0)
      ensures bit <= bit0 && end0 <= endIn && MaximalRun(o, Extent(bit, endIn - bit))
    {
      hide Geometry, WindowCounts;
      var ib := if zoneBit == zoneEnd || bit0 < zoneEnd then 0 else zoneEnd;
      assert Open(o, bit0) && Open(o, end0 - 1);
      MapBits(o);
      bit := ExtendLeft(bit0, ib, o);
      ib := if zoneBit == zoneEnd || end0 > zoneBit then nbits else zoneBit;
      endIn := ExtendRight(end0, ib, o);
    }

    /** On either map, a bit is open exactly when it is free and not in a zone that the map cuts out. */
    lemma MapBits(o: seq<bool>)
      requires ZoneInside() && (o == Current() || o == Uncut())
      ensures forall i :: Open(o, i) ==> 0 <= i < nbits && !disk[i]
      ensures forall i :: 0 <= i < nbits && !(zoneBit <= i < zoneEnd) ==> (Open(o, i) <==> !disk[i])
      ensures o == Uncut() ==> forall i :: 0 <= i < nbits ==> (Open(o, i) <==> !disk[i])
      ensures o == Current() ==> forall i :: zoneBit <= i < zoneEnd ==> !Open(o, i)
    {
      assert forall i :: 0 <= i < nbits ==> Bitmap()[i] == disk[i];
    }

    /** Lines 250-289 of wnd_add_free_ext: both neighbours. */
    method MergeNeighbours(bit0: nat, len0: nat) returns (bit: nat, endIn: nat, haveNode: bool)
      requires SameNodes() && Apart(startTree) && 0 < len0 && Clear(startTree, bit0, bit0 + len0)
      modifies this`startTree, this`countTree, this`count
      ensures SameNodes()
      ensures startTree == StartingElsewhere(EndingElsewhere(old(startTree), bit0), bit0 + len0)
      ensures Joined(old(startTree), bit0, bit0 + len0, bit, endIn)
      ensures if haveNode then count < old(count) else startTree == old(startTree)
      ensures forall m :: m in old(startTree) ==> m in startTree || m.len < endIn - bit
    {
      hide SameNodes;
      ghost var t, end0 := startTree, bit0 + len0;
      var len, taken, next;
      bit, len, haveNode, next := MergeLeft(bit0, len0);
      assert forall e :: e in t && e.start == end0 ==> e in startTree;
      len, endIn, taken := MergeRight(bit0 + len0, len, next);
      haveNode := haveNode || taken;
      JoinedShorter(t, bit0, end0, bit, endIn);
    }

    /** wnd_add_free_ext up to the insertion: the whole run around the new range, neighbours taken out. */
    method RunAround(bit0: nat, len0: nat, ghost o0: seq<bool>, ghost o1: seq<bool>)
      returns (bit: nat, endIn: nat, haveNode: bool)
      requires Geometry() && WindowCounts() && ZoneInside() && TreesAgree()
      requires 0 < len0 && bit0 + len0 <= nbits
      requires Describes(o0) && Opened(o0, o1, bit0, bit0 + len0) && MapFor(o1, bit0, bit0 + len0)
      modifies this`startTree, this`countTree, this`count
      ensures TreesAgree() && (haveNode ==> count < MAX) && (haveNode <==> startTree != old(startTree))
      ensures startTree == StartingElsewhere(EndingElsewhere(old(startTree), bit0), bit0 + len0)
      ensures bit <= bit0 && bit0 + len0 <= endIn && MaximalRun(o1, Extent(bit, endIn - bit))
      ensures old(MaxAttained()) ==> MaxAttained() || extentMax < endIn - bit
    {
      hide Sound, Complete, Opened, MaximalRun, AllOpen, Apart, Joined, Geometry, WindowCounts, MapFor, SameNodes;
      ghost var t, end0 := startTree, bit0 + len0;
      CountIs();
      OpenedClear(t, o0, o1, bit0, end0);
      bit, endIn, haveNode := MergeNeighbours(bit0, len0);
      CountIs();
      JoinedRun(t, o0, o1, bit0, end0, bit, endIn);
      MapLength(o1, bit0, end0);
      MapForJoined(o1, bit0, end0, bit, endIn);
      if uptodated != 1 {
        bit, endIn := ExtendByBits(bit, endIn, o1);
      }
    }

    /**
      wnd_add_free_ext(wnd, bit, len, false): the bits [bit0, bit0 + len0) became open.
      Whatever is merged, extended, dropped or refused, the index describes the new map.
     */
    method AddFreeExt(bit0: nat, len0: nat, ghost o0: seq<bool>, ghost o1: seq<bool>) returns (ghost failed: bool)
      requires Geometry() && WindowCounts() && ZoneInside() && IndexTrees()
      requires 0 < len0 && bit0 + len0 <= nbits
      requires Describes(o0) && Opened(o0, o1, bit0, bit0 + len0) && MapFor(o1, bit0, bit0 + len0)
      modifies this`startTree, this`countTree, this`count, this`extentMax, this`extentMin, this`uptodated
      ensures IndexTrees() && Describes(o1)
      ensures uptodated == old(uptodated) || uptodated == -1
      ensures count <= old(count) + 1
      ensures var kept := StartingElsewhere(EndingElsewhere(old(startTree), bit0), bit0 + len0);
              && Given(kept, o1, bit0, bit0 + len0, startTree, failed)
              && (!failed && |kept| < MAX ==> uptodated == old(uptodated))
              && (memory == Scarce && kept == old(startTree) && |kept| < MAX ==> failed)
      ensures !failed && old(count) < MAX ==> uptodated == old(uptodated)
      ensures failed ==> startTree == old(startTree) && uptodated == -1
      ensures memory == Plenty ==> !failed
    {
      hide Sound, Complete, Opened, MaximalRun, Geometry, WindowCounts, MapFor, MaxAttained, Settled, Given,
           StartingElsewhere, EndingElsewhere, SameNodes;
      MaxBound();
      CountIs();
      ghost var t := startTree;
      var bit, endIn, haveNode := RunAround(bit0, len0, o0, o1);
      ghost var kept, n := startTree, Extent(bit, endIn - bit);
      FewerNodes(t, bit0, bit0 + len0);
      CountIs();
      OpenedIndex(t, kept, o0, o1, bit0, bit0 + len0, n);
      failed := InsertFragment(haveNode, bit, endIn - bit, false);
      SoundSubset(kept + {n}, startTree, o1);
      GivenBy(kept, o1, bit0, bit0 + len0, startTree, failed, n);
    }

    /** The run around [lo, hi) was given to the trees `kept`, with `t1` the outcome. */
    ghost predicate Given(kept: set<Extent>, o: seq<bool>, lo: nat, hi: nat, t1: set<Extent>, failed: bool) {
      exists n :: MaximalRun(o, n) && n.start <= lo && hi <= n.End() && n !in kept && Settled(kept, n, t1, failed)
    }

    lemma GivenBy(kept: set<Extent>, o: seq<bool>, lo: nat, hi: nat, t1: set<Extent>, failed: bool, n: Extent)
      requires MaximalRun(o, n) && n.start <= lo && hi <= n.End() && n !in kept && Settled(kept, n, t1, failed)
      ensures Given(kept, o, lo, hi, t1, failed)
    {
    }

    /**
      When a node is alone after a range was given back: no other node was left, and it is the run
      around the range.
     */
    lemma AloneAfter(kept: set<Extent>, o: seq<bool>, lo: nat, hi: nat, t1: set<Extent>, e: Extent)
      requires Given(kept, o, lo, hi, t1, false) && lo < hi && |kept| <= MAX && 2 <= MAX
      ensures t1 == {e} <==> kept == {} && MaximalRun(o, e) && e.start <= lo && hi <= e.End()
    {
      hide Smallest, MaximalRun;
      var n :| MaximalRun(o, n) && n.start <= lo && hi <= n.End() && n !in kept && Settled(kept, n, t1, false);
      if |kept| < MAX {
        assert t1 == kept + {n};
        if t1 == {e} {
          assert n in t1 && kept <= t1;
        }
        if MaximalRun(o, e) && e.start <= lo && hi <= e.End() {
          SameRun(o, e, n, lo);
        }
      } else {
        var m :| m in kept && Smallest(kept, m) && t1 == if m.len < n.len then kept - {m} + {n} else kept;
        assert |t1| == |kept|;
      }
    }

    lemma FewerNodes(t: set<Extent>, lo: nat, hi: nat)
      ensures var kept := StartingElsewhere(EndingElsewhere(t, lo), hi); kept <= t && |kept| <= |t|
    {
      SubsetSize(StartingElsewhere(EndingElsewhere(t, lo), hi), t);
    }

    lemma {:induction false} SubsetSize(a: set<Extent>, b: set<Extent>)
      requires a <= b
      ensures |a| <= |b|
      decreases b
    {
      if x :| x in b {
        SubsetSize(a - {x}, b - {x});
      }
    }

    /** Joining open neighbours does not carry a range across the zone. */
    lemma MapForJoined(o: seq<bool>, lo: nat, hi: nat, bit: nat, end: nat)
      requires ZoneInside() && MapFor(o, lo, hi) && bit <= lo < hi <= end <= nbits && AllOpen(o, bit, end)
      ensures MapFor(o, bit, end)
    {
      MapBits(o);
      assert bit < zoneEnd <= end ==> Open(o, zoneEnd - 1);
      assert bit <= zoneBit < end ==> Open(o, zoneBit);
    }

    lemma MapLength(o: seq<bool>, lo: nat, hi: nat)
      requires nbits <= |disk| && MapFor(o, lo, hi)
      ensures |o| == nbits
    {
    }

    // ----- taking a range out of the index

    /** Rekeying a node in place: it leaves with one key and comes back with another. */
    method Rekey(e: Extent, e': Extent)
      requires SameNodes() && e in startTree && e' !in startTree
      modifies this`startTree, this`countTree, this`count
      ensures SameNodes() && startTree == old(startTree) - {e} + {e'} && count == old(count)
    {
      startTree := startTree - {e} + {e'};
      countTree := countTree - {e} + {e'};
      assert |old(startTree) - {e}| == count - 1;
    }

    /** extent_max when node `e` is about to be cut into pieces of `len` and `newLen` bits. */
    method LowerMax(e: Extent, len: nat, newLen: nat)
      requires TreesAgree() && e in startTree && len < e.len && newLen < e.len
      modifies this`extentMax
      ensures len <= extentMax && newLen <= extentMax
      ensures forall x :: x in startTree - {e} ==> x.len <= extentMax
      ensures old(MaxAttained()) ==>
                || (exists x :: x in startTree - {e} && x.len == extentMax)
                || extentMax == len || extentMax == newLen
    {
      if e.len == extentMax {
        var prev := Prev(ByCount, countTree, e);
        if prev.None? {
          var next := Next(ByCount, countTree, e);
          var maxNew := if len < newLen then newLen else len;
          AfterFirst(countTree, e);
          if next.None? {
            extentMax := maxNew;
          } else {
            assert forall x :: x in countTree && Before(ByCount, e, x) ==> !Before(ByCount, x, next.value);
            extentMax := if next.value.len < maxNew then maxNew else next.value.len;
          }
        }
      }
    }

    lemma AfterFirst(t: set<Extent>, e: Extent)
      requires e in t && forall x :: x in t ==> !Before(ByCount, x, e)
      ensures forall x :: x in t && x != e ==> Before(ByCount, e, x)
    {
    }

    /** As Settled, for the right-hand piece of a node: it gives way only to a smallest node that is longer. */
    ghost predicate RightSettled(t0: set<Extent>, n: Extent, t1: set<Extent>, failed: bool) {
      if failed then |t0| < MAX && t1 == t0
      else if |t0| < MAX then t1 == t0 + {n}
      else exists m :: m in t0 && Smallest(t0, m) && t1 == if m.len > n.len then t0 else t0 - {m} + {n}
    }

    /** Lines 466-491 of wnd_remove_free_ext: insert the right-hand piece, or drop it or the smallest node. */
    method InsertRight(newKey: nat, newLen: nat) returns (ghost failed: bool)
      requires SameNodes() && 2 <= MAX && 0 < newLen && Extent(newKey, newLen) !in startTree
      modifies this`startTree, this`countTree, this`count, this`uptodated
      ensures SameNodes() && (uptodated == old(uptodated) || uptodated == -1)
      ensures startTree <= old(startTree) + {Extent(newKey, newLen)} && (0 < old(count) ==> 0 < count)
      ensures uptodated != -1 ==> startTree == old(startTree) + {Extent(newKey, newLen)}
      ensures old(count) < MAX && !failed ==>
                startTree == old(startTree) + {Extent(newKey, newLen)} && uptodated == old(uptodated)
      ensures old(count) <= count <= old(count) + 1 && (memory == Plenty ==> !failed)
      ensures memory == Scarce && old(count) < MAX ==> failed
      ensures RightSettled(old(startTree), Extent(newKey, newLen), startTree, failed)
    {
      hide SameNodes, Smallest;
      failed := false;
      CountIs();
      if count >= MAX {
        uptodated := -1;
        NodesExist();
        var last := Last(ByCount, countTree);
        LastIsSmallest(countTree, last.value);
        if last.value.len > newLen {
          return;
        }
        Erase(last.value);
      } else {
        var ok := TryAlloc(memory);
        if !ok {
          uptodated := -1;
          return true;
        }
      }
      Insert(Extent(newKey, newLen));
    }

    /**
      What becomes of node `e` when [bit, endIn) is cut out of it: both pieces stay; or, when that
      makes one node too many, the left piece stays and the right one takes the place of a smallest
      node unless it is shorter than that; or there is no memory for the right piece.
     */
    ghost predicate CutSettled(t0: set<Extent>, e: Extent, bit: nat, endIn: nat, t1: set<Extent>, failed: bool)
      requires e.start <= bit < endIn <= e.End()
    {
      if e.start < bit && endIn < e.End()
      then RightSettled(t0 - {e} + {Extent(e.start, bit - e.start)}, Extent(endIn, e.End() - endIn), t1, failed)
      else !failed && t1 == CutSet(t0, e, bit, endIn)
    }

    /** Lines 444-457: nothing is left of node `e` on one side at least. */
    method CutOneSide(e: Extent, bit: nat, endIn: nat)
      requires SameNodes() && e in startTree && e.start <= bit < endIn <= e.End()
               && (e.start == bit || endIn == e.End())
      requires e.start < bit ==> Extent(e.start, bit - e.start) !in startTree
      requires endIn < e.End() ==> Extent(endIn, e.End() - endIn) !in startTree
      modifies this`startTree, this`countTree, this`count
      ensures SameNodes() && startTree == CutSet(old(startTree), e, bit, endIn)
      ensures if e == Extent(bit, endIn - bit) then count + 1 == old(count) else count == old(count)
    {
      hide SameNodes;
      var len, newLen := bit - e.start, e.End() - endIn;
      if len == 0 {
        if newLen != 0 {
          Rekey(e, Extent(endIn, newLen));
        } else {
          Erase(e);
        }
        return;
      }
      Rekey(e, Extent(e.start, len));
    }

    /** Lines 458-491: pieces are left on both sides. */
    method CutBothSides(e: Extent, bit: nat, endIn: nat) returns (ghost failed: bool)
      requires SameNodes() && 2 <= MAX && e in startTree && e.start < bit < endIn < e.End()
      requires Extent(e.start, bit - e.start) !in startTree && Extent(endIn, e.End() - endIn) !in startTree
      modifies this`startTree, this`countTree, this`count, this`uptodated
      ensures SameNodes() && (uptodated == old(uptodated) || uptodated == -1)
      ensures startTree <= CutSet(old(startTree), e, bit, endIn)
      ensures uptodated != -1 ==> startTree == CutSet(old(startTree), e, bit, endIn)
      ensures !failed && old(count) < MAX ==>
                uptodated == old(uptodated) && startTree == CutSet(old(startTree), e, bit, endIn)
      ensures old(count) <= count <= old(count) + 1 && (memory == Plenty ==> !failed)
      ensures memory == Scarce && old(count) < MAX ==> failed
      ensures RightSettled(old(startTree) - {e} + {Extent(e.start, bit - e.start)},
                           Extent(endIn, e.End() - endIn), startTree, failed)
    {
      hide SameNodes, RightSettled;
      Rekey(e, Extent(e.start, bit - e.start));
      failed := InsertRight(endIn, e.End() - endIn);
    }

    /** Lines 444-491 of wnd_remove_free_ext: replace node `e` by what is left of it. */
    method CutNode(e: Extent, bit: nat, endIn: nat) returns (ghost failed: bool)
      requires SameNodes() && 2 <= MAX && e in startTree && e.start <= bit < endIn <= e.End()
      requires e.start < bit ==> Extent(e.start, bit - e.start) !in startTree
      requires endIn < e.End() ==> Extent(endIn, e.End() - endIn) !in startTree
      modifies this`startTree, this`countTree, this`count, this`uptodated
      ensures SameNodes() && (uptodated == old(uptodated) || uptodated == -1)
      ensures startTree <= CutSet(old(startTree), e, bit, endIn)
      ensures uptodated != -1 ==> startTree == CutSet(old(startTree), e, bit, endIn)
      ensures if e == Extent(bit, endIn - bit)
              then count + 1 == old(count) && uptodated == old(uptodated) && !failed else 0 < count
      ensures !failed && old(count) < MAX ==>
                uptodated == old(uptodated) && startTree == CutSet(old(startTree), e, bit, endIn)
      ensures old(count) <= count + 1 && count <= old(count) + 1 && (memory == Plenty ==> !failed)
      ensures memory == Scarce && old(count) < MAX && e.start < bit && endIn < e.End() ==> failed
      ensures CutSettled(old(startTree), e, bit, endIn, startTree, failed)
    {
      hide SameNodes, RightSettled, CutSet;
      failed := false;
      PositiveCount(e);
      if e.start < bit && endIn < e.End() {
        failed := CutBothSides(e, bit, endIn);
      } else {
        CutOneSide(e, bit, endIn);
      }
    }

    lemma PositiveCount(e: Extent)
      requires SameNodes() && e in startTree
      ensures 0 < count
    {
    }

    /** wnd_remove_free_ext for a range inside node `e`. */
    method CutInside(e: Extent, bit: nat, endIn: nat) returns (ghost failed: bool)
      requires IndexTrees() && Apart(startTree) && 2 <= MAX && e in startTree && e.start <= bit < endIn <= e.End()
      modifies this`startTree, this`countTree, this`count, this`extentMax, this`uptodated
      ensures IndexTrees() && (uptodated == old(uptodated) || uptodated == -1)
      ensures startTree <= CutSet(old(startTree), e, bit, endIn)
      ensures uptodated != -1 ==> startTree == CutSet(old(startTree), e, bit, endIn)
      ensures if e == Extent(bit, endIn - bit)
              then count + 1 == old(count) && uptodated == old(uptodated) && !failed else 0 < count
      ensures !failed && old(count) < MAX ==>
                uptodated == old(uptodated) && startTree == CutSet(old(startTree), e, bit, endIn)
      ensures old(count) <= count + 1 && count <= old(count) + 1 && (memory == Plenty ==> !failed)
      ensures memory == Scarce && old(count) < MAX && e.start < bit && endIn < e.End() ==> failed
      ensures CutSettled(old(startTree), e, bit, endIn, startTree, failed)
      ensures forall x :: x in CutSet(old(startTree), e, bit, endIn) ==> x.len <= extentMax
    {
      hide SameNodes, Apart, CutSet, CutSettled;
      ghost var t := startTree;
      PiecesFresh(t, e, bit, endIn);
      LowerMax(e, bit - e.start, e.End() - endIn);
      CutBounded(t, e, bit, endIn, extentMax);
      if uptodated != -1 {
        CutAttained(t, e, bit, endIn, extentMax);
      }
      failed := CutNode(e, bit, endIn);
    }

    /**
      What becomes of the extent that [lo, hi) is cut out of, if one is indexed. `extentMax` covers
      what is dropped.
     */
    ghost predicate CutFrom(t0: set<Extent>, lo: nat, hi: nat, t1: set<Extent>, failed: bool)
      requires lo < hi
      reads this`extentMax, this`memory
    {
      forall e :: e in t0 && e.start <= lo && hi <= e.End() ==>
        && CutSettled(t0, e, lo, hi, t1, failed)
        && (forall x :: x in CutSet(t0, e, lo, hi) ==> x.len <= extentMax)
        && (memory == Scarce && |t0| < MAX && e.start < lo && hi < e.End() ==> failed)
    }

    lemma CutFromOne(t0: set<Extent>, lo: nat, hi: nat, t1: set<Extent>, failed: bool, e: Extent)
      requires lo < hi && Apart(t0) && e in t0 && e.start <= lo && hi <= e.End()
      requires CutSettled(t0, e, lo, hi, t1, failed) && forall x :: x in CutSet(t0, e, lo, hi) ==> x.len <= extentMax
      requires memory == Scarce && |t0| < MAX && e.start < lo && hi < e.End() ==> failed
      ensures CutFrom(t0, lo, hi, t1, failed)
    {
      hide CutSettled, CutSet;
    }

    /** If the extent before the range does not reach it, no extent holds it. */
    lemma NoneHolds(t: set<Extent>, lo: nat, hi: nat, e: Extent)
      requires Apart(t) && e in t && e.End() < lo < hi && forall x :: x in t && x.start <= lo ==> x.start <= e.start
      ensures forall x :: x in t ==> !(x.start <= lo && hi <= x.End())
    {
    }

    lemma CutFromNone(t0: set<Extent>, lo: nat, hi: nat, t1: set<Extent>, failed: bool)
      requires lo < hi && forall e :: e in t0 ==> !(e.start <= lo && hi <= e.End())
      ensures CutFrom(t0, lo, hi, t1, failed)
    {
    }

    /**
      wnd_remove_free_ext without its closing rescan: the open bits [bit, bit + len) are being closed.
      The range lies inside one indexed extent or misses them all, so the two other branches of the
      original (a partial overlap, and the walk over later extents) never have anything to do.
     */
    method CutFreeExt(bit: nat, len: nat, ghost o0: seq<bool>, ghost o1: seq<bool>) returns (ghost failed: bool)
      requires IndexTrees() && 2 <= MAX && startTree != {}
      requires 0 < len && Describes(o0) && Opened(o1, o0, bit, bit + len)
      modifies this`startTree, this`countTree, this`count, this`extentMax, this`uptodated
      ensures IndexTrees() && Describes(o1)
      ensures uptodated == old(uptodated) || uptodated == -1
      ensures count == 0 <==> old(startTree) == {Extent(bit, len)}
      ensures count == 0 ==> uptodated == old(uptodated)
      ensures !failed && old(count) < MAX ==> uptodated == old(uptodated)
      ensures old(count) <= count + 1 && count <= old(count) + 1
      ensures (memory == Plenty ==> !failed) && (count == 0 ==> !failed)
      ensures CutFrom(old(startTree), bit, bit + len, startTree, failed)
    {
      hide Sound, Complete, Opened, AllOpen, SameNodes, MaxAttained, CutSet, Apart, CutSettled, RightSettled, CutFrom;
      ghost var t := startTree;
      CountOfOne(Extent(bit, len));
      failed := false;
      var endIn := bit + len;
      OpenedOpen(o1, o0, bit, endIn);
      var n := Lookup(startTree, bit);
      LookupOpen(t, o0, bit, endIn, n);
      if n.None? {
        Missed(t, o0, o1, bit, len);
        CutFromNone(t, bit, endIn, startTree, failed);
        return;
      }
      var e := n.value;
      if endIn <= e.End() {
        SoundApart(t, o0);
        ClosedInside(t, o0, o1, bit, endIn, e);
        OneNode(e);
        failed := CutInside(e, bit, endIn);
        SoundSubset(CutSet(t, e, bit, endIn), startTree, o1);
        CutFromOne(t, bit, endIn, startTree, failed, e);
      } else {
        assert bit > e.End();
        var n3 := NextStart(startTree, e);
        assert n3.Some? ==> endIn <= n3.value.start;
        Missed(t, o0, o1, bit, len);
        SoundApart(t, o0);
        NoneHolds(t, bit, endIn, e);
        CutFromNone(t, bit, endIn, startTree, failed);
      }
    }

    lemma Missed(t: set<Extent>, o0: seq<bool>, o1: seq<bool>, bit: nat, len: nat)
      requires SameNodes() && t == startTree != {} && 0 < len && Opened(o1, o0, bit, bit + len) && Sound(t, o0)
      requires forall e :: e in t ==> !(e.start <= bit && bit + len <= e.End())
      ensures Sound(t, o1) && !Complete(t, o0)
      ensures count != 0 && startTree != {Extent(bit, len)}
    {
      ClosedOutside(t, o0, o1, bit, bit + len);
    }

    lemma OneNode(e: Extent)
      requires SameNodes() && e in startTree
      ensures count == 1 <==> startTree == {e}
    {
      if count == 1 {
        assert |startTree - {e}| == 0;
        assert startTree == {e} + (startTree - {e});
      }
    }

    // ----- scanning the whole bitmap

    /** The scan of wnd_rescan has reached `p` with `tail` free bits pending. */
    ghost predicate Reached(o: seq<bool>, p: nat, tail: nat)
      reads this`startTree, this`countTree, this`count, this`extentMax, this`uptodated
    {
      && IndexTrees() && (uptodated == 0 || uptodated == -1)
      && Scanned(startTree, uptodated == 0, o, p, tail)
    }

    /** Closed bits from `p` to `q`: put the pending run, if any, into the index. */
    method CloseTail(p: nat, tail: nat, q: nat, ghost o: seq<bool>, ghost starved0: bool) returns (ghost starved: bool)
      requires Reached(o, p, tail) && 2 <= MAX && p < q && forall i :: p <= i < q ==> !Open(o, i)
      modifies this`startTree, this`countTree, this`count, this`extentMax, this`extentMin, this`uptodated
      ensures Reached(o, q, 0) && (old(Excused(starved0)) ==> Excused(starved))
      ensures memory == Plenty ==> starved == starved0
    {
      hide IndexTrees, Sound, MaximalRun, AllOpen;
      ghost var t, complete := startTree, uptodated == 0;
      starved := starved0;
      if tail > 0 {
        starved := BuildFreeExt(p - tail, tail, starved0);
      }
      ghost var complete' := uptodated == 0;
      FewerComplete(t, complete, complete', o, p, tail);
      ScanClosed(t, complete', o, p, tail, q, startTree);
    }

    lemma FewerComplete(t: set<Extent>, c: bool, c': bool, o: seq<bool>, p: nat, tail: nat)
      requires Scanned(t, c, o, p, tail) && (c' ==> c)
      ensures Scanned(t, c', o, p, tail)
    {
    }

    /** The loop of wnd_rescan over the bits [base, end) of one window, pending free bits carried over. */
    method ScanBits(base: nat, end: nat, tail0: nat, ghost o: seq<bool>, ghost starved0: bool)
      returns (tail: nat, ghost starved: bool)
      requires base < end <= nbits <= |disk| && 2 <= MAX
      requires Reached(o, base, tail0) && Agrees(o, base, end)
      modifies this`startTree, this`countTree, this`count, this`extentMax, this`extentMin, this`uptodated
      ensures Reached(o, end, tail) && (old(Excused(starved0)) ==> Excused(starved))
      ensures memory == Plenty ==> starved == starved0
    {
      hide IndexTrees, Scanned;
      starved := starved0;
      var wpos := base;
      tail := tail0;
      while wpos < end
        invariant base <= wpos <= end && Reached(o, wpos, tail) && (old(Excused(starved0)) ==> Excused(starved))
        invariant memory == Plenty ==> starved == starved0
        decreases end - wpos
      {
        var used := FindNext(disk, wpos, end, false);
        if used > wpos {
          starved := CloseTail(wpos, tail, used, o, starved);
          tail := 0;
        }
        wpos := used;
        if wpos >= end {
          break;
        }
        var frb := FindNext(disk, wpos, end, true);
        if frb >= end {
          ScanOpen(startTree, uptodated == 0, o, wpos, tail, end);
          tail := tail + (frb - wpos);
          wpos := end;
          break;
        }
        starved := AddRun(wpos, tail, frb, o, starved);
        wpos := frb + 1;
        tail := 0;
      }
    }

    /** A run that ends inside the window goes into the index with the bits carried over. */
    method AddRun(p: nat, tail: nat, f: nat, ghost o: seq<bool>, ghost starved0: bool) returns (ghost starved: bool)
      requires Reached(o, p, tail) && 2 <= MAX && p < f && AllOpen(o, p, f) && !Open(o, f)
      modifies this`startTree, this`countTree, this`count, this`extentMax, this`extentMin, this`uptodated
      ensures Reached(o, f + 1, 0) && (old(Excused(starved0)) ==> Excused(starved))
      ensures memory == Plenty ==> starved == starved0
    {
      hide IndexTrees, Sound, MaximalRun, AllOpen;
      ghost var t, complete := startTree, uptodated == 0;
      starved := BuildFreeExt(p - tail, f - (p - tail), starved0);
      ghost var complete' := uptodated == 0;
      FewerComplete(t, complete, complete', o, p, tail);
      ScanRun(t, complete', o, p, tail, f, startTree);
    }

    /** __bitmap_weight of the bits [lo, hi) */
    method Weight(lo: nat, hi: nat) returns (used: nat)
      requires lo <= hi <= |disk|
      ensures used == hi - lo - Zeroes(disk, lo, hi)
    {
      used := 0;
      var i := lo;
      while i < hi
        invariant lo <= i <= hi && used == i - lo - Zeroes(disk, lo, i)
      {
        if disk[i] {
          used := used + 1;
        }
        i := i + 1;
      }
    }

    /** One window of wnd_rescan: skipped by its cached count when that decides it, else counted and scanned. */
    method ScanWindow(iw: nat, tail0: nat, ghost o: seq<bool>, ghost starved0: bool)
      returns (tail: nat, ghost starved: bool)
      requires Geometry() && iw < nwnd == |freeBits| && o == Uncut() && Reached(o, Base(W, iw), tail0)
      requires freeBits[iw] == if inited then WindowZeroes(iw) else 0
      modifies this`startTree, this`countTree, this`count, this`extentMax, this`extentMin, this`uptodated,
               this`freeBits, this`totalZeroes
      ensures Reached(o, Base(W, iw) + WBits(iw), tail) && (old(Excused(starved0)) ==> Excused(starved))
      ensures memory == Plenty ==> starved == starved0
      ensures freeBits == old(freeBits)[iw := WindowZeroes(iw)]
      ensures totalZeroes == old(totalZeroes) + WindowZeroes(iw)
    {
      hide Geometry, Reached, Agrees, Uncut, Base, Zeroes, AllOpen;
      WindowInside(iw);
      MaxBound();
      DiskHolds();
      var lo, wbits := Base(W, iw), WBits(iw);
      UncutAgrees(lo, lo + wbits);
      UniformWindow(lo, lo + wbits, o);
      if inited {
        if freeBits[iw] == 0 {
          starved := CloseTail(lo, tail0, lo + wbits, o, starved0);
          return 0, starved;
        }
        if wbits == freeBits[iw] {
          PassOpen(lo, tail0, lo + wbits, o);
          totalZeroes := totalZeroes + wbits;
          return tail0 + wbits, starved0;
        }
      }
      var used := Weight(lo, lo + wbits);
      if used < wbits {
        var frb := wbits - used;
        freeBits := freeBits[iw := frb];
        totalZeroes := totalZeroes + frb;
      }
      tail, starved := ScanBits(lo, lo + wbits, tail0, o, starved0);
    }

    lemma PassOpen(lo: nat, tail: nat, hi: nat, o: seq<bool>)
      requires Reached(o, lo, tail) && lo <= hi && AllOpen(o, lo, hi)
      ensures Reached(o, hi, tail + (hi - lo))
    {
      hide IndexTrees, Scanned, AllOpen;
      ScanOpen(startTree, uptodated == 0, o, lo, tail, hi);
    }

    /** What an extreme count says about a stretch of the map. */
    lemma UniformWindow(lo: nat, hi: nat, o: seq<bool>)
      requires lo <= hi && Agrees(o, lo, hi)
      ensures hi <= |disk|
      ensures Zeroes(disk, lo, hi) == 0 ==> forall i :: lo <= i < hi ==> !Open(o, i)
      ensures Zeroes(disk, lo, hi) == hi - lo ==> AllOpen(o, lo, hi)
    {
      ZeroesExtremes(disk, lo, hi);
    }

    lemma UncutAgrees(lo: nat, hi: nat)
      requires nbits <= |disk| && hi <= nbits
      ensures Agrees(Uncut(), lo, hi)
    {
      assert forall i :: lo <= i < hi ==> Bitmap()[i] == disk[i];
    }

    /** Where the scan stands when window `iw` is next. */
    ghost function ScanPos(iw: nat): nat
      reads this`nwnd, this`nbits
    {
      if iw < nwnd then Base(W, iw) else nbits
    }

    lemma NextScanPos(iw: nat)
      requires Geometry() && iw < nwnd
      ensures ScanPos(iw) == Base(W, iw) && ScanPos(iw + 1) == Base(W, iw) + WBits(iw)
      ensures Zeroes(disk, 0, ScanPos(iw + 1)) == Zeroes(disk, 0, ScanPos(iw)) + WindowZeroes(iw)
    {
      WindowInside(iw);
      ZeroesSplit(disk, 0, Base(W, iw), Base(W, iw) + WBits(iw));
    }

    /** What the cached counts must be before a scan: right once initialised, all zero before that. */
    ghost predicate CountsBefore(from: nat)
      reads this`freeBits, this`nwnd, this`disk, this`bitsLast, this`inited
    {
      && |freeBits| == nwnd
      && forall j {:trigger freeBits[j]} :: from <= j < nwnd ==> freeBits[j] == if inited then WindowZeroes(j) else 0
    }

    ghost predicate CountsUpto(to: nat)
      reads this`freeBits, this`nwnd, this`disk, this`bitsLast
    {
      && to <= |freeBits| == nwnd
      && forall j {:trigger freeBits[j]} :: 0 <= j < to ==> freeBits[j] == WindowZeroes(j)
    }

    /** The window loop of wnd_rescan, run from empty trees. */
    method ScanAll(ghost o: seq<bool>) returns (tail: nat, ghost starved: bool)
      requires Geometry() && o == Uncut() && CountsBefore(0) && totalZeroes == 0 && Reached(o, 0, 0)
      modifies this`startTree, this`countTree, this`count, this`extentMax, this`extentMin, this`uptodated,
               this`freeBits, this`totalZeroes
      ensures Counters() && Reached(o, nbits, tail) && Geometry() && (old(uptodated) == 0 ==> Excused(starved))
      ensures memory == Plenty ==> !starved
    {
      hide Reached, Geometry, WindowZeroes, Base, Zeroes;
      var iw := 0;
      tail, starved := 0, false;
      ZeroWindows();
      while iw < nwnd
        invariant iw <= nwnd && Geometry() && CountsBefore(iw) && CountsUpto(iw)
        invariant totalZeroes == Zeroes(disk, 0, ScanPos(iw)) && Reached(o, ScanPos(iw), tail)
        invariant (old(uptodated) == 0 ==> Excused(starved)) && (memory == Plenty ==> !starved)
      {
        NextScanPos(iw);
        tail, starved := ScanWindow(iw, tail, o, starved);
        iw := iw + 1;
      }
    }

    lemma ZeroWindows()
      requires Geometry()
      ensures ScanPos(0) == 0 && Zeroes(disk, 0, 0) == 0
    {
    }

    // ----- rescan, removal and the zone, which call one another

    ghost predicate ZoneFree()
      reads this`disk, this`nbits, this`zoneBit, this`zoneEnd
    {
      ZoneInside() && AllAre(disk, zoneBit, zoneEnd, false)
    }

    /** Rank of a call in the cycle rescan -> zone set -> remove -> rescan: the inner rescan has no zone to set. */
    ghost function ZoneRank(): nat
      reads this`zoneBit, this`zoneEnd
    {
      if zoneBit != zoneEnd then 1 else 0
    }

    /** wnd_rescan up to the zone: index the whole bitmap from empty trees. */
    method ScanFresh() returns (ghost starved: bool)
      requires Geometry() && CountsBefore(0) && SameNodes() && startTree == {}
      modifies this`startTree, this`countTree, this`count, this`extentMax, this`extentMin, this`uptodated,
               this`freeBits, this`totalZeroes
      ensures Counters() && IndexTrees() && (uptodated == 1 || uptodated == -1)
      ensures nbits <= |disk| && Describes(Uncut()) && Excused(starved) && (memory == Plenty ==> !starved)
    {
      hide Describes, Geometry, Reached, IndexTrees, Counters;
      DiskHolds();
      MaxBound();
      uptodated, extentMax, extentMin, totalZeroes := 0, 0, SIZE_MAX, 0;
      ghost var o := Uncut();
      StartScan(o);
      var tail;
      tail, starved := ScanAll(o);
      starved := FinishScan(tail, o, starved);
    }

    /**
      wnd_rescan from empty trees. `clean` is false when cutting the zone out again emptied a stale
      index and scanned once more, while the zone was not set: then the index describes the whole bitmap.
     */
    method Rescan() returns (clean: bool, ghost starved: bool)
      requires Geometry() && ZoneFree() && CountsBefore(0) && SameNodes() && startTree == {}
      requires inited || zoneBit == zoneEnd
      modifies this`startTree, this`countTree, this`count, this`extentMax, this`extentMin, this`uptodated,
               this`freeBits, this`totalZeroes, this`zoneBit, this`zoneEnd
      ensures Counters() && IndexTrees() && (uptodated == 1 || uptodated == -1)
      ensures zoneBit == old(zoneBit) && zoneEnd == old(zoneEnd)
      ensures Describes(if clean then Current() else Uncut())
      ensures !clean ==> zoneBit != zoneEnd && starved
      ensures NearlyExcused(starved) && (zoneBit == zoneEnd ==> Excused(starved)) && (memory == Plenty ==> !starved)
      decreases ZoneRank(), 1
    {
      hide Describes, Geometry, AllAre, Counters, IndexTrees, CountsBefore, SameNodes, OpenMap;
      DiskHolds();
      ZoneOpened(zoneBit, zoneEnd);
      starved := ScanFresh();
      CountOfOne(Extent(zoneBit, zoneEnd - zoneBit));
      MaxBound();
      clean := true;
      if zoneBit != zoneEnd {
        var zlen := zoneEnd - zoneBit;
        zoneEnd := zoneBit;
        NothingThere(disk, zoneBit, false);
        ZoneOpened(zoneBit, zoneBit);
        var rescanned;
        ghost var failed, lost;
        rescanned, failed, lost := ZoneSet(zoneBit, zlen);
        clean := !rescanned;
        starved := starved || lost;
      }
    }

    /** As Excused, after one range was taken out. */
    ghost predicate NearlyExcused(starved: bool)
      reads this`uptodated, this`count
    {
      uptodated == -1 ==> starved || MAX <= count + 1
    }

    lemma CountOfOne(e: Extent)
      requires IndexTrees()
      ensures startTree == {e} ==> count == 1
      ensures count == |startTree| <= MAX
    {
    }

    lemma StartScan(o: seq<bool>)
      requires SameNodes() && startTree == {} && extentMax == 0 && uptodated == 0
      ensures Reached(o, 0, 0)
    {
    }

    /** The last run of the bitmap, and the verdict of the scan. */
    method FinishScan(tail: nat, ghost o: seq<bool>, ghost starved0: bool) returns (ghost starved: bool)
      requires Reached(o, nbits, tail) && 2 <= MAX && |o| == nbits
      modifies this`startTree, this`countTree, this`count, this`extentMax, this`extentMin, this`uptodated
      ensures IndexTrees() && Describes(o) && (uptodated == 1 || uptodated == -1)
      ensures old(Excused(starved0)) ==> Excused(starved)
      ensures memory == Plenty ==> starved == starved0
    {
      hide TreesAgree, MaxAttained, Sound, MaximalRun, AllOpen, Complete;
      ghost var t, complete := startTree, uptodated == 0;
      starved := starved0;
      if tail > 0 {
        starved := BuildFreeExt(nbits - tail, tail, starved0);
      }
      ghost var complete' := uptodated == 0;
      FewerComplete(t, complete, complete', o, nbits, tail);
      ScanDone(t, complete', o, tail, startTree);
      if uptodated == 0 {
        uptodated := 1;
      }
    }

    /** Everything but the contents of the index. */
    ghost predicate Ready()
      reads this`disk, this`nbits, this`nwnd, this`bitsLast, this`freeBits, this`totalZeroes, this`zoneBit,
            this`zoneEnd, this`inited, this`startTree, this`countTree, this`count, this`extentMax, this`uptodated
    {
      Geometry() && Counters() && ZoneFree() && inited && IndexTrees() && (uptodated == 1 || uptodated == -1)
    }

    /**
      wnd_remove_free_ext: the open bits [bit, bit + len) are being closed. When that empties a stale
      index, and only then, the bitmap is scanned again.
     */
    method RemoveFreeExt(bit: nat, len: nat, ghost o0: seq<bool>, ghost o1: seq<bool>)
      returns (rescanned: bool, clean: bool, ghost failed: bool)
      requires Ready() && startTree != {}
      requires 0 < len && Describes(o0) && Opened(o1, o0, bit, bit + len)
      modifies this`startTree, this`countTree, this`count, this`extentMax, this`extentMin, this`uptodated,
               this`freeBits, this`totalZeroes, this`zoneBit, this`zoneEnd
      ensures Ready() && zoneBit == old(zoneBit) && zoneEnd == old(zoneEnd)
      ensures rescanned <==> old(startTree) == {Extent(bit, len)} && old(uptodated) != 1
      ensures Describes(if !rescanned then o1 else if clean then Current() else Uncut())
      ensures rescanned && !clean ==> zoneBit != zoneEnd && failed
      ensures rescanned ==> NearlyExcused(failed) && (zoneBit == zoneEnd ==> Excused(failed))
      ensures !rescanned ==> count <= old(count) + 1
      ensures !rescanned ==> old(count) <= count + 1 && CutFrom(old(startTree), bit, bit + len, startTree, failed)
      ensures memory == Plenty ==> !failed
      ensures !rescanned && !failed && old(count) < MAX ==> uptodated == old(uptodated)
      decreases ZoneRank(), 2
    {
      hide Geometry, Counters, ZoneFree, IndexTrees, Describes, Opened, CutFrom;
      MaxBound();
      failed := CutFreeExt(bit, len, o0, o1);
      rescanned, clean := false, true;
      if count == 0 && 1 != uptodated {
        rescanned := true;
        NoNodes();
        clean, failed := Rescan();
      }
    }

    lemma NoNodes()
      requires IndexTrees() && Counters() && inited && count == 0
      ensures SameNodes() && startTree == {} && CountsBefore(0)
    {
      hide WindowZeroes;
    }

    /** The open map with [zb, ze) cut out. */
    ghost function Cut(zb: nat, ze: nat): seq<bool>
      requires nbits <= |disk|
      reads this`disk, this`nbits
    {
      OpenMap(Bitmap(), zb, ze)
    }

    lemma ZoneOpened(zb: nat, ze: nat)
      requires zb <= ze <= nbits <= |disk| && AllAre(disk, zb, ze, false)
      ensures Opened(Cut(zb, ze), Uncut(), zb, ze)
      ensures zb == ze ==> Cut(zb, ze) == Uncut()
    {
      assert forall i :: 0 <= i < nbits ==> Bitmap()[i] == disk[i];
      if zb == ze {
        assert Cut(zb, ze) == Uncut();
      }
    }

    /** An empty exact index means that no bit is open, whatever zone is cut out. */
    lemma NothingOpen(o: seq<bool>, zb: nat, ze: nat)
      requires nbits <= |disk| && Complete({}, Uncut()) && o == Cut(zb, ze)
      ensures Complete({}, o)
    {
      forall i
        ensures !Open(o, i)
      {
        if Open(Uncut(), i) {
          var r := RunAt(Uncut(), i);
        }
      }
      assert forall e :: MaximalRun(o, e) ==> Open(o, e.start);
    }

    /** What is left of the index when the zone's neighbours are merged into it. */
    ghost function BesideZone(): set<Extent>
      reads this`startTree, this`zoneBit, this`zoneEnd
    {
      StartingElsewhere(EndingElsewhere(startTree, zoneBit), zoneEnd)
    }

    /**
      Moving the zone to [lcn, lcn + len) empties a stale index. With no zone to give back: the new
      zone is all it holds. When the old zone cannot be given back for want of memory, which makes
      the index stale: likewise. Otherwise: it was stale, only neighbours of the old zone are
      indexed, and the new zone is the whole free run around the old one.
     */
    ghost predicate Empties(lcn: nat, len: nat, failed: bool)
      requires nbits <= |disk|
      reads this`startTree, this`uptodated, this`zoneBit, this`zoneEnd, this`nbits, this`disk
    {
      var e := Extent(lcn, len);
      && 0 < len
      && if failed then startTree == {e}
         else if zoneBit == zoneEnd then startTree == {e} && uptodated != 1
         else uptodated != 1 && BesideZone() == {} && MaximalRun(Uncut(), e) && e.start <= zoneBit && zoneEnd <= e.End()
    }

    /**
      Lines 1400-1405: give the old zone back. The index then holds [lcn, lcn + len) alone, and is
      stale, as Empties says.
     */
    method GiveZoneBack(ghost lcn: nat, ghost len: nat) returns (ghost failed: bool)
      requires Ready() && Describes(Current())
      modifies this`startTree, this`countTree, this`count, this`extentMax, this`extentMin, this`uptodated
      ensures Ready() && Describes(Uncut())
      ensures 0 < len && startTree == {Extent(lcn, len)} && uptodated != 1 <==>
                old(nbits <= |disk|) && old(Empties(lcn, len, failed))
      ensures old(zoneBit == zoneEnd) ==> !failed && count == old(count) && uptodated == old(uptodated)
      ensures !failed && old(count) < MAX ==> uptodated == old(uptodated)
      ensures count <= old(count) + 1 && (memory == Plenty ==> !failed)
    {
      hide Geometry, Counters, IndexTrees, Describes, AllAre, Opened, OpenMap, Given, MaximalRun, StartingElsewhere,
           EndingElsewhere;
      failed := false;
      DiskHolds();
      ghost var e, kept, o0, o := Extent(lcn, len), BesideZone(), Current(), Uncut();
      ZoneOpened(zoneBit, zoneEnd);
      var zlen := zoneEnd - zoneBit;
      if zlen > 0 {
        CountsOf();
        MaxBound();
        CountOfOne(e);
        FewerNodes(startTree, zoneBit, zoneEnd);
        failed := AddFreeExt(zoneBit, zlen, o0, o);
        if !failed {
          AloneAfter(kept, o, zoneBit, zoneEnd, startTree, e);
        }
      }
    }

    /**
      wnd_zone_set: give the old zone back to the index and take the new one out. If taking it out
      triggered a rescan, that rescan cut out the old zone (or none), not the new one. `failed` says
      that there was no memory to give the old zone back, `lost` that there was none later.
     */
    method ZoneSet(lcn: nat, len: nat) returns (rescanned: bool, ghost failed: bool, ghost lost: bool)
      requires Ready() && Describes(Current())
      requires lcn + len <= nbits && AllAre(disk, lcn, lcn + len, false)
      modifies this`startTree, this`countTree, this`count, this`extentMax, this`extentMin, this`uptodated,
               this`freeBits, this`totalZeroes, this`zoneBit, this`zoneEnd
      ensures Ready() && zoneBit == lcn && zoneEnd == lcn + len
      ensures !rescanned ==> Describes(Current())
      ensures rescanned ==> Describes(Cut(old(zoneBit), old(zoneEnd))) || (lost && Describes(Uncut()))
      ensures rescanned <==> old(nbits <= |disk|) && old(Empties(lcn, len, failed))
      ensures rescanned ==> NearlyExcused(lost) && (old(zoneBit == zoneEnd) ==> Excused(lost))
      ensures old(zoneBit == zoneEnd) ==> !failed && (!rescanned ==> old(count) <= count + 1)
      ensures old(zoneBit == zoneEnd) && !rescanned && !lost && old(count) < MAX ==> uptodated == old(uptodated)
      ensures !rescanned && !failed && !lost && old(count) + 1 < MAX ==> uptodated == old(uptodated)
      ensures memory == Plenty ==> !failed && !lost
      decreases ZoneRank(), 3
    {
      hide Geometry, Counters, IndexTrees, Describes, AllAre, Opened, OpenMap, Empties;
      rescanned, lost := false, false;
      DiskHolds();
      ghost var o, o1 := Uncut(), Cut(lcn, lcn + len);
      ZoneOpened(lcn, lcn + len);
      ZoneOpened(zoneBit, zoneEnd);
      failed := GiveZoneBack(lcn, len);
      if startTree != {} && len > 0 {
        var clean;
        rescanned, clean, lost := RemoveFreeExt(lcn, len, o, o1);
      } else {
        UnchangedZone(o, o1, lcn, len);
      }
      zoneBit := lcn;
      zoneEnd := lcn + len;
    }

    lemma CountsOf()
      requires Counters()
      ensures WindowCounts()
    {
    }

    lemma UnchangedZone(o: seq<bool>, o1: seq<bool>, lcn: nat, len: nat)
      requires nbits <= |disk| && o == Uncut() && o1 == Cut(lcn, lcn + len) && Describes(o)
      requires startTree == {} || (len == 0 && o1 == o)
      ensures Describes(o1)
    {
      hide Complete;
      if startTree == {} && uptodated == 1 {
        NothingOpen(o1, lcn, lcn + len);
      }
    }

    // ----- marking bits

    /** A change of bits inside window `iw` moves that window's count only. */
    lemma OtherWindows(disk': seq<bool>, iw: nat, j: nat, lo: nat, hi: nat, v: bool)
      requires Geometry() && iw < nwnd && j < nwnd && j != iw
      requires Base(W, iw) <= lo <= hi <= Base(W, iw) + WBits(iw) <= |disk|
      requires disk' == Fill(disk, lo, hi, v)
      ensures Zeroes(disk', Base(W, j), Base(W, j) + WBits(j)) == WindowZeroes(j)
    {
      WindowInside(j);
      WindowInside(iw);
      if j < iw {
        BaseOrder(W, j, iw);
      } else {
        BaseOrder(W, iw, j);
      }
      ZeroesSame(disk', disk, Base(W, j), Base(W, j) + WBits(j));
    }

    /** __bitmap_clear or __bitmap_set of `op` bits in window `iw`, with both counters. */
    method MarkInWindow(iw: nat, wbit: nat, op: nat, v: bool)
      requires Geometry() && Counters() && iw < nwnd && wbit + op <= WBits(iw)
      requires AllAre(disk, Base(W, iw) + wbit, Base(W, iw) + wbit + op, !v)
      modifies this`disk, this`freeBits, this`totalZeroes
      ensures Geometry() && Counters()
      ensures |old(disk)| == |disk| && Base(W, iw) + wbit + op <= |disk|
      ensures disk == Fill(old(disk), Base(W, iw) + wbit, Base(W, iw) + wbit + op, v)
    {
      hide Zeroes, Base, AllAre;
      WindowInside(iw);
      DiskHolds();
      var lo := Base(W, iw) + wbit;
      var hi := lo + op;
      ghost var disk' := Fill(disk, lo, hi, v);
      ZeroesFill(disk, Base(W, iw), Base(W, iw) + WBits(iw), lo, hi, v);
      ZeroesFill(disk, 0, nbits, lo, hi, v);
      forall j | 0 <= j < nwnd && j != iw
        ensures Zeroes(disk', Base(W, j), Base(W, j) + WBits(j)) == WindowZeroes(j)
      {
        OtherWindows(disk', iw, j, lo, hi, v);
      }
      disk := Fill(disk, lo, hi, v);
      if v {
        freeBits := freeBits[iw := freeBits[iw] - op];
        totalZeroes := totalZeroes - op;
      } else {
        freeBits := freeBits[iw := freeBits[iw] + op];
        totalZeroes := totalZeroes + op;
      }
    }

    /** The window loops of wnd_set_free (v = false) and wnd_set_used (v = true). */
    method MarkBits(bit: nat, bits0: nat, v: bool)
      requires Geometry() && Counters() && bit + bits0 <= nbits && AllAre(disk, bit, bit + bits0, !v)
      modifies this`disk, this`freeBits, this`totalZeroes
      ensures Geometry() && Counters() && |disk| == |old(disk)| && bit + bits0 <= |disk|
      ensures disk == Fill(old(disk), bit, bit + bits0, v)
    {
      hide Geometry, Counters, Base, Fill, AllAre;
      DiskHolds();
      ghost var disk0 := disk;
      FillNothing(disk, bit, v);
      var bits: nat := bits0;
      var iw: nat, wbit: nat := FirstWindow(bit, bits);
      ghost var pos: nat, end := bit, bit + bits0;
      while iw < nwnd && bits != 0
        invariant Geometry() && Counters() && bit <= pos && pos + bits == end <= nbits <= |disk| == |disk0|
        invariant bits != 0 ==> Base(W, iw) + wbit == pos && wbit < W && iw < nwnd
        invariant disk == Fill(disk0, bit, pos, v) && AllAre(disk, pos, end, !v)
        decreases bits
      {
        var wbits, op := InThisWindow(iw, wbit, bits);
        FillMore(disk0, disk, bit, pos, pos + op, end, v);
        MarkInWindow(iw, wbit, op, v);
        bits, wbit, iw, pos := bits - op, 0, iw + 1, pos + op;
      }
    }

    /** The open map before and after the bits [lo, hi), all outside the zone, were marked. */
    lemma MarkedMap(disk0: seq<bool>, lo: nat, hi: nat, v: bool)
      requires nbits <= |disk| == |disk0| && lo <= hi <= nbits && disk == Fill(disk0, lo, hi, v)
      requires AllAre(disk0, lo, hi, !v)
      requires hi <= zoneBit || zoneEnd <= lo || zoneBit == zoneEnd
      ensures var o0 := OpenMap(disk0[..nbits], zoneBit, zoneEnd);
              if v then Opened(Current(), o0, lo, hi) else Opened(o0, Current(), lo, hi)
    {
      assert forall i :: 0 <= i < nbits ==> Bitmap()[i] == disk[i] && disk0[..nbits][i] == disk0[i];
    }

    /** Marking bits outside the zone leaves the zone free. */
    lemma ZoneStays(disk0: seq<bool>, lo: nat, hi: nat, v: bool)
      requires zoneBit <= zoneEnd <= nbits <= |disk| == |disk0| && lo <= hi <= nbits && disk == Fill(disk0, lo, hi, v)
      requires AllAre(disk0, zoneBit, zoneEnd, false)
      requires v ==> hi <= zoneBit || zoneEnd <= lo || zoneBit == zoneEnd
      ensures ZoneFree()
    {
    }

    /** Bits that are in use lie outside the zone. */
    lemma UsedOutsideZone(lo: nat, hi: nat)
      requires ZoneFree() && lo < hi && AllAre(disk, lo, hi, true)
      ensures hi <= zoneBit || zoneEnd <= lo || zoneBit == zoneEnd
    {
      assert lo <= zoneBit < hi ==> disk[zoneBit];
      assert zoneBit <= lo < zoneEnd ==> disk[lo];
    }

    /** No node ends where the range begins or begins where it ends. */
    ghost predicate Untouched(t: set<Extent>, lo: nat, hi: nat) {
      forall e :: e in t ==> e.End() != lo && e.start != hi
    }

    lemma AllKept(t: set<Extent>, lo: nat, hi: nat)
      ensures Untouched(t, lo, hi) ==> StartingElsewhere(EndingElsewhere(t, lo), hi) == t
    {
    }

    /** wnd_set_free: used bits become free; the index follows. */
    method SetFree(bit: nat, bits: nat) returns (ghost failed: bool)
      requires Ready() && Describes(Current())
      requires 0 < bits && bit + bits <= nbits && AllAre(disk, bit, bit + bits, true)
      modifies this`disk, this`freeBits, this`totalZeroes,
               this`startTree, this`countTree, this`count, this`extentMax, this`extentMin, this`uptodated
      ensures Ready() && Describes(Current())
      ensures |disk| == |old(disk)| && disk == Fill(old(disk), bit, bit + bits, false)
      ensures !failed && old(count) < MAX ==> uptodated == old(uptodated)
      ensures failed ==> startTree == old(startTree) && uptodated == -1
      ensures memory == Plenty ==> !failed
      ensures memory == Scarce && old(count) < MAX && Untouched(old(startTree), bit, bit + bits) ==> failed
    {
      hide Geometry, Counters, IndexTrees, Describes, AllAre, Opened, OpenMap, Fill, Given, StartingElsewhere,
           EndingElsewhere, Untouched;
      DiskHolds();
      UsedOutsideZone(bit, bit + bits);
      ghost var disk0, o0 := disk, Current();
      CountOfOne(Extent(bit, bits));
      AllKept(startTree, bit, bit + bits);
      MarkBits(bit, bits, false);
      MarkedMap(disk0, bit, bit + bits, false);
      ZoneStays(disk0, bit, bit + bits, false);
      CountsOf();
      failed := AddFreeExt(bit, bits, o0, Current());
    }

    /**
      wnd_set_used: free bits outside the zone become used; the index follows. `clean` is false only
      when the range was all that a stale index held and the scan that followed ran out of memory and
      was repeated without the zone.
     */
    method SetUsed(bit: nat, bits: nat) returns (clean: bool, ghost failed: bool)
      requires Ready() && Describes(Current())
      requires 0 < bits && bit + bits <= nbits && AllAre(disk, bit, bit + bits, false)
      requires bit + bits <= zoneBit || zoneEnd <= bit || zoneBit == zoneEnd
      modifies this`disk, this`freeBits, this`totalZeroes, this`zoneBit, this`zoneEnd,
               this`startTree, this`countTree, this`count, this`extentMax, this`extentMin, this`uptodated
      ensures Ready() && zoneBit == old(zoneBit) && zoneEnd == old(zoneEnd)
      ensures |disk| == |old(disk)| && disk == Fill(old(disk), bit, bit + bits, true)
      ensures Describes(if clean then Current() else Uncut())
      ensures !clean ==> old(startTree) == {Extent(bit, bits)} && old(uptodated) != 1 && zoneBit != zoneEnd && failed
      ensures memory == Plenty ==> !failed
      ensures !failed && old(count) < MAX && old(uptodated) == 1 ==> uptodated == 1
      ensures old(uptodated) == 1 ==> count <= old(count) + 1
      ensures old(uptodated) == 1 ==> CutFrom(old(startTree), bit, bit + bits, startTree, failed)
    {
      hide Geometry, Counters, IndexTrees, AllAre, Opened, OpenMap, Fill, Sound, Complete, CutFrom;
      DiskHolds();
      clean, failed := true, false;
      ghost var disk0, o0 := disk, Current();
      MarkBits(bit, bits, true);
      MarkedMap(disk0, bit, bit + bits, true);
      ZoneStays(disk0, bit, bit + bits, true);
      if startTree != {} {
        var rescanned;
        rescanned, clean, failed := RemoveFreeExt(bit, bits, o0, Current());
        clean := clean || !rescanned;
      } else {
        EmptyIndex(o0, Current(), bit, bit + bits);
        CutFromNone(startTree, bit, bit + bits, startTree, failed);
      }
    }

    /** An empty index that is not exact is sound for any map. */
    lemma EmptyIndex(o0: seq<bool>, o1: seq<bool>, lo: int, hi: int)
      requires Opened(o1, o0, lo, hi) && lo < hi
      ensures !Complete({}, o0) && Sound({}, o1)
    {
      assert Open(o0, lo);
      var r := RunAt(o0, lo);
    }

    // ----- queries

    /** Either map is sound for the bitmap: what the index offers is free. */
    lemma OfferedIsFree(o: seq<bool>, e: Extent, lo: nat, hi: nat)
      requires ZoneInside() && (o == Current() || o == Uncut()) && Sound(startTree, o) && e in startTree
      requires e.start <= lo && hi <= e.End()
      ensures AllAre(disk, lo, hi, false)
    {
      MapBits(o);
      assert forall i :: lo <= i < hi ==> Open(o, i);
      assert Open(o, e.End() - 1);
    }

    /** wnd_is_free: the tree shortcut and the bitmap agree. */
    method IsFree(bit: nat, bits: nat) returns (r: bool)
      requires Ready() && (Describes(Current()) || Describes(Uncut()))
      requires 0 < bits && bit + bits <= nbits
      ensures r <==> AllAre(disk, bit, bit + bits, false)
    {
      hide Geometry, Counters, IndexTrees, AllAre, OpenMap, Sound, Complete;
      DiskHolds();
      CountsOf();
      if startTree != {} {
        var n := Lookup(startTree, bit);
        if n.Some? {
          var e := n.value;
          if bit < e.End() && bit + bits <= e.End() {
            OfferedIsFree(if Describes(Current()) then Current() else Uncut(), e, bit, bit + bits);
            return true;
          }
        }
      }
      r := IsFreeHlp(bit, bits);
    }

    /** wnd_is_used: the tree shortcut and the bitmap agree. */
    method IsUsed(bit: nat, bits0: nat) returns (r: bool)
      requires Ready() && (Describes(Current()) || Describes(Uncut()))
      requires 0 < bits0 && bit + bits0 <= nbits
      ensures r <==> AllAre(disk, bit, bit + bits0, true)
    {
      hide Geometry, Counters, IndexTrees, OpenMap, Sound, Complete;
      DiskHolds();
      CountsOf();
      if startTree != {} {
        var n := Lookup(startTree, bit + bits0 - 1);
        if n.Some? {
          var e := n.value;
          if e.End() > bit {
            ghost var i := if e.start < bit then bit else e.start;
            NodeNotEmpty(e);
            OfferedIsFree(if Describes(Current()) then Current() else Uncut(), e, i, i + 1);
            assert !disk[i];
            return false;
          }
        }
      }
      r := WindowsUsed(bit, bits0);
    }

    lemma NodeNotEmpty(e: Extent)
      requires nbits <= |disk| && (Describes(Current()) || Describes(Uncut())) && e in startTree
      ensures 0 < e.len
    {
    }

    /** The window loop of wnd_is_used. */
    method WindowsUsed(bit: nat, bits0: nat) returns (r: bool)
      requires Geometry() && WindowCounts() && bit + bits0 <= nbits
      ensures r <==> AllAre(disk, bit, bit + bits0, true)
    {
      hide AllAre, WindowCounts, Geometry, Base;
      DiskHolds();
      NothingThere(disk, bit + bits0, true);
      var bits: nat := bits0;
      var iw: nat, wbit: nat := FirstWindow(bit, bits);
      ghost var pos, end := bit, bit + bits0;
      while iw < nwnd && bits != 0
        invariant pos + bits == end <= nbits
        invariant bits != 0 ==> Base(W, iw) + wbit == pos && wbit < W && iw < nwnd
        invariant AllAre(disk, bit, end, true) <==> AllAre(disk, pos, end, true)
        decreases bits
      {
        var wbits, op := InThisWindow(iw, wbit, bits);
        AllAreJoin(disk, pos, pos + op, end, true);
        var used := WindowBitsAre(iw, wbit, op, wbits, true);
        if !used {
          return false;
        }
        bits, wbit, iw, pos := bits - op, 0, iw + 1, pos + op;
      }
      return true;
    }

    // ----- wnd_find on the index

    /** Try the extent that holds the hint (lines 1006-1057). */
    method AtHint(toAlloc: nat, hint: nat, full: bool) returns (r: Answer)
      requires startTree != {} && Apart(startTree) && forall e :: e in startTree ==> e.End() <= nbits
      ensures r.NoSpace? || r.Found?
      ensures r.Found? ==> r.pos == hint != 0 && r.len <= toAlloc && (full ==> r.len == toAlloc)
      ensures r.Found? ==> exists e :: e in startTree && e.start <= hint && hint + r.len <= e.End()
                                       && (r.len < toAlloc ==> hint + r.len == e.End())
      ensures r.Found? && 0 < toAlloc ==> 0 < r.len
      ensures 0 < toAlloc ==> (r.Found? <==>
                hint != 0 && exists e :: e in startTree && e.start <= hint
                                         && hint + (if full then toAlloc else 1) <= e.End())
      ensures startTree == {Extent(0, nbits)} && hint < nbits ==>
                (r.NoSpace? <==> hint == 0 || (full && nbits < hint + toAlloc))
    {
      if hint == 0 {
        return NoSpace;
      }
      var n := Lookup(startTree, hint);
      if n.None? {
        return NoSpace;
      }
      var e := n.value;
      if e.End() > hint {
        var len := e.End() - hint;
        if len >= toAlloc && hint + toAlloc <= nbits {
          return Found(hint, toAlloc);
        }
        if !full {
          if len > toAlloc {
            len := toAlloc;
          }
          if hint + len <= nbits {
            return Found(hint, len);
          }
        }
      }
      return NoSpace;
    }

    /** Allocate from the biggest extent (lines 1059-1108). */
    method FromBiggest(toAlloc0: nat, toAlloc: nat, full: bool) returns (r: Answer)
      requires Ready() && Describes(Current()) && startTree != {}
      requires 0 < toAlloc <= toAlloc0 && (full ==> toAlloc == toAlloc0)
      modifies this`extentMax
      ensures Ready() && extentMax <= old(extentMax)
      ensures uptodated == 1 ==> extentMax == old(extentMax)
      ensures r.Found? ==> 0 < r.len <= toAlloc && (full ==> r.len == toAlloc)
      ensures r.Found? ==> exists e :: Now().IsBiggest(e) && e.start == r.pos
                                       && r.len == if toAlloc < e.len then toAlloc else e.len
      ensures r.NoSpace? <==> Now().RefusedByBiggest(toAlloc0, full)
      ensures r.Scan? <==> uptodated != 1 && startTree == {Extent(0, nbits)}
      ensures r.IntoZone? <==> uptodated != 1 && !full && Now().EndsAtZone(toAlloc)
      ensures r.IntoZone? ==> Crosses(r.pos, r.len) && r.len <= toAlloc
    {
      hide SameNodes, Geometry, Counters, Sound, Complete, OpenMap, AllAre;
      NonEmptyTrees();
      NodesInside();
      var first := First(ByCount, countTree);
      var e := first.value;
      OneBiggest(e);
      WholeBitmap(e);
      if e.len != extentMax {
        extentMax := e.len;
      }
      if e.len < nbits {
        var len := toAlloc;
        if e.len >= toAlloc {
        } else if full {
          if e.len < toAlloc0 {
            return NoSpace;
          }
          len := e.len;
        } else if -1 != uptodated {
          len := e.len;
        } else {
          len := LengthenBiggest(e, toAlloc);
          if len != e.len {
            return IntoZone(e.start, len);
          }
        }
        if e.start + len > nbits {
          len := nbits - e.start;
        }
        return Found(e.start, len);
      }
      if uptodated == 1 {
        return NoSpace;
      }
      return Scan;
    }

    /** [pos, pos + len) is free and begins with an indexed extent that ends where the zone begins, inside the range. */
    ghost predicate Crosses(pos: nat, len: nat)
      reads this`startTree, this`zoneBit, this`zoneEnd, this`nbits, this`disk
    {
      && pos < zoneBit < zoneEnd && Extent(pos, zoneBit - pos) in startTree && zoneBit < pos + len <= nbits
      && AllAre(disk, pos, pos + len, false)
    }

    lemma NodesInside()
      requires ZoneInside() && Describes(Current())
      ensures forall e :: e in startTree ==> 0 < e.len && e.End() <= nbits
    {
      NodesFit(Current());
    }

    /** The first node of count_tree is the one biggest extent, and none is longer. */
    lemma OneBiggest(e: Extent)
      requires startTree == countTree && e in countTree && forall x :: x in countTree ==> !Before(ByCount, x, e)
      ensures Now().IsBiggest(e) && forall x :: Now().IsBiggest(x) ==> x == e
      ensures forall x :: x in startTree ==> x.len <= e.len
    {
      assert forall x :: x in startTree && x != e ==> Before(ByCount, e, x) || Before(ByCount, x, e);
    }

    /** When a search reaches the zone, said of the length that it is still after. */
    lemma ReachMeans(now: Snapshot, s: Snapshot, toAlloc0: nat, toAlloc: nat, hint: nat, full: bool)
      requires !full ==> toAlloc == if now.extentMax < toAlloc0 then now.extentMax else toAlloc0
      requires s == now.(extentMax := s.extentMax)
      ensures now.ReachesZone(toAlloc0, hint, full) <==>
                now.uptodated != 1 && !full && !now.HintServes(toAlloc0, hint, full) && s.EndsAtZone(toAlloc)
    {
      assert forall e :: now.IsBiggest(e) <==> s.IsBiggest(e);
    }

    /** A part of an indexed extent is open, and what ends with the extent ends with the run. */
    lemma PartOfNode(o: seq<bool>, pos: nat, len: nat, toAlloc: nat)
      requires Sound(startTree, o) && TreesAgree()
      requires exists e :: e in startTree && e.start <= pos && pos + len <= e.End()
                           && (len < toAlloc ==> pos + len == e.End())
      ensures AllOpen(o, pos, pos + len) && (len < toAlloc || extentMax <= len ==> !Open(o, pos + len))
    {
      var e :| e in startTree && e.start <= pos && pos + len <= e.End() && (len < toAlloc ==> pos + len == e.End());
      assert MaximalRun(o, e) && e.len <= extentMax;
    }

    lemma SameIndex(now: Snapshot, s: Snapshot, toAlloc: nat, full: bool)
      requires s == now.(extentMax := s.extentMax)
      ensures forall e :: now.IsBiggest(e) <==> s.IsBiggest(e)
      ensures now.RefusedByBiggest(toAlloc, full) <==> s.RefusedByBiggest(toAlloc, full)
      ensures forall e :: now.IsBiggest(e) ==> e in now.startTree
    {
      assert forall e :: now.IsBiggest(e) <==> s.IsBiggest(e);
    }

    /** A node as long as the bitmap is the only one. */
    lemma WholeBitmap(e: Extent)
      requires ZoneInside() && Describes(Current()) && e in startTree && forall x :: x in startTree ==> x.len <= e.len
      ensures nbits <= e.len <==> startTree == {Extent(0, nbits)}
    {
      NodesFit(Current());
      if nbits <= e.len {
        SoundApart(startTree, Current());
      }
    }

    lemma NonEmptyTrees()
      requires TreesAgree() && startTree != {}
      ensures startTree == countTree
    {
    }

    /** Nodes of a sound index are in bounds and open. */
    lemma NodesFit(o: seq<bool>)
      requires Sound(startTree, o) && |o| == nbits
      ensures forall e :: e in startTree ==> 0 < e.len && e.End() <= nbits && AllOpen(o, e.start, e.End())
    {
      assert forall e :: e in startTree ==> MaximalRun(o, e) && Open(o, e.End() - 1);
    }

    /** On an exact index, extent_max is the length of the longest open run. */
    lemma LongestRun(o: seq<bool>, n: nat)
      requires IndexTrees() && Describes(o) && uptodated == 1 && |o| == nbits && 0 < n
      ensures HasRange(o, n) <==> n <= extentMax
    {
      hide SameNodes;
      if n <= extentMax {
        var e :| e in startTree && e.len == extentMax;
        assert MaximalRun(o, e);
        assert AllOpen(o, e.start, e.start + n);
      }
      if HasRange(o, n) {
        var lo: int, hi: int :| hi - lo == n && AllOpen(o, lo, hi);
        RangeBound(startTree, o, extentMax, lo, hi);
      }
    }

    /** On an exact index, a node as long as the bitmap means that the whole bitmap is open. */
    lemma WholeOpen(o: seq<bool>)
      requires IndexTrees() && Describes(o) && uptodated == 1 && |o| == nbits
      ensures AllOpen(o, 0, nbits) <==> nbits <= extentMax
      ensures 0 < nbits <= extentMax ==> startTree == {Extent(0, nbits)}
    {
      hide SameNodes;
      if 0 < nbits {
        LongestRun(o, nbits);
        if nbits <= extentMax {
          var e :| e in startTree && e.len == extentMax;
          WholeNode(startTree, o, e);
        }
      }
    }

    /** The quick test by counts never refuses a request that fits. */
    lemma EnoughZeroes(n: nat)
      requires Counters() && ZoneFree() && HasRange(Current(), n) && 0 < n
      ensures n + (zoneEnd - zoneBit) <= totalZeroes
    {
      hide WindowCounts;
      var o := Current();
      var lo: int, hi: int :| hi - lo == n && AllOpen(o, lo, hi);
      MapBits(o);
      assert Open(o, lo) && Open(o, hi - 1);
      assert forall i :: lo <= i < hi ==> Open(o, i);
      assert AllAre(disk, lo, hi, false);
      if zoneBit == zoneEnd {
        FreeRangeCounted(disk, 0, nbits, lo, hi);
      } else if hi <= zoneBit {
        TwoFreeRanges(disk, nbits, lo, hi, zoneBit, zoneEnd);
      } else {
        assert zoneBit <= lo < zoneEnd ==> !Open(o, lo);
        assert lo < zoneBit < hi ==> !Open(o, zoneBit);
        TwoFreeRanges(disk, nbits, zoneBit, zoneEnd, lo, hi);
      }
    }

    /** With empty trees no hint serves and nothing is biggest. */
    lemma NoTreesNoAnswer(toAlloc: nat, hint: nat, full: bool)
      requires ZoneInside() && Describes(Current()) && IndexTrees()
      ensures startTree == {} ==> !Now().ReachesZone(toAlloc, hint, full) && !Now().RefusedByBiggest(toAlloc, full)
      ensures startTree != {} ==> 0 < extentMax
    {
      NodesFit(Current());
    }

    // ----- what the answers of an exact index say about the bitmap

    /** On an exact index the hint serves what the bitmap can serve there. */
    lemma ExactHint(toAlloc: nat, hint: nat, full: bool)
      requires ZoneInside() && Describes(Current()) && uptodated == 1 && 0 < toAlloc
      ensures var h, n := Now().Hint(hint), if full then toAlloc else 1;
              Now().HintServes(toAlloc, hint, full) <==> h != 0 && AllOpen(Current(), h, h + n)
    {
      var o, h, n := Current(), Now().Hint(hint), if full then toAlloc else 1;
      NodesFit(o);
      if h != 0 && AllOpen(o, h, h + n) {
        assert Open(o, h);
        var e := RunAt(o, h);
        InsideOrApart(o, e, h, h + n);
      }
    }

    /** On an exact index the biggest extent is a longest run. */
    lemma ExactBiggest(e: Extent)
      requires ZoneInside() && Describes(Current()) && uptodated == 1 && Now().IsBiggest(e)
      ensures MaximalRun(Current(), e) && forall n: nat :: HasRange(Current(), n) ==> n <= e.len
    {
      hide HasRange;
      var o := Current();
      forall n: nat | HasRange(o, n)
        ensures n <= e.len
      {
        LongestIs(o, e, n);
      }
    }

    lemma LongestIs(o: seq<bool>, e: Extent, n: nat)
      requires Complete(startTree, o) && Now().IsBiggest(e) && HasRange(o, n)
      ensures n <= e.len
    {
      var lo: int, hi: int :| hi - lo == n && AllOpen(o, lo, hi);
      assert forall x :: x in startTree ==> !Before(ByCount, x, e);
      if lo < hi {
        RangeBound(startTree, o, e.len, lo, hi);
      }
    }

    /** `pos` starts a run than which none is longer. */
    ghost predicate StartsLongest(o: seq<bool>, pos: nat) {
      exists e :: MaximalRun(o, e) && e.start == pos && forall n: nat :: HasRange(o, n) ==> n <= e.len
    }

    /** Where an exact index finds something: at the hint if the bitmap can serve it there, else at a longest run. */
    ghost predicate MapPlaces(toAlloc: nat, hint: nat, full: bool, pos: nat)
      reads this`disk, this`nbits, this`zoneBit, this`zoneEnd, this`totalZeroes, this`startTree, this`extentMax,
            this`uptodated
      requires nbits <= |disk|
    {
      var h, n := Now().Hint(hint), if full then toAlloc else 1;
      if h != 0 && AllOpen(Current(), h, h + n) then pos == h else StartsLongest(Current(), pos)
    }

    lemma ExactPlaces(toAlloc: nat, hint: nat, full: bool, pos: nat)
      requires ZoneInside() && Describes(Current()) && uptodated == 1 && 0 < toAlloc
      requires Now().Places(toAlloc, hint, full, pos)
      ensures MapPlaces(toAlloc, hint, full, pos)
    {
      hide Sound, Complete, MaximalRun, HasRange, AllOpen, Snapshot.HintServes, OpenMap, Snapshot.IsBiggest;
      ExactHint(toAlloc, hint, full);
      if !Now().HintServes(toAlloc, hint, full) {
        var e :| Now().IsBiggest(e) && pos == e.start;
        ExactBiggest(e);
      }
    }

    /** No run is long enough, or the bitmap is one run from end to end and the hint is no use. */
    ghost predicate MapRefuses(toAlloc: nat, hint: nat, full: bool)
      reads this`disk, this`nbits, this`zoneBit, this`zoneEnd, this`totalZeroes, this`startTree, this`extentMax,
            this`uptodated
      requires nbits <= |disk|
    {
      || !HasRange(Current(), if full then toAlloc else 1)
      || (AllOpen(Current(), 0, nbits)
          && (Now().Hint(hint) == 0 || (full && nbits < Now().Hint(hint) + toAlloc)))
    }

    /** If there are more free bits than the zone holds, some bit is open. */
    lemma OpenExists()
      requires Counters() && ZoneFree() && zoneEnd - zoneBit < totalZeroes
      ensures HasRange(Current(), 1)
    {
      hide WindowCounts;
      var o := Current();
      MapBits(o);
      if i: int :| Open(o, i) {
        assert AllOpen(o, i, i + 1);
        assert (i + 1) - i == 1;
      } else {
        ZeroesSplit(disk, 0, zoneBit, nbits);
        ZeroesSplit(disk, zoneBit, zoneEnd, nbits);
        ZeroesExtremes(disk, zoneBit, zoneEnd);
        assert forall i :: 0 <= i < nbits && !(zoneBit <= i < zoneEnd) ==> !Open(o, i);
        ZeroesExtremes(disk, 0, zoneBit);
        ZeroesExtremes(disk, zoneEnd, nbits);
      }
    }

    /** An exact index of a map with no open bit is empty. */
    lemma NothingToIndex()
      requires Ready() && Describes(Current()) && uptodated == 1 && !HasRange(Current(), 1)
      ensures count == 0
    {
      hide Geometry, Counters, OpenMap, HasRange, SameNodes;
      DiskHolds();
      NodesFit(Current());
      LongestRun(Current(), 1);
      BiggestIsMax();
      CountOfOne(Extent(0, 0));
    }

    /** When an exact index refuses: no run is long enough, or the bitmap is one run and the hint no use. */
    lemma ExactRefuses(toAlloc: nat, hint: nat, full: bool)
      requires Ready() && Describes(Current()) && uptodated == 1 && 0 < toAlloc
      ensures Now().Refuses(toAlloc, hint, full) <==> MapRefuses(toAlloc, hint, full)
    {
      hide Geometry, Counters, Sound, Complete, OpenMap, HasRange, AllOpen, SameNodes;
      DiskHolds();
      var o, n := Current(), if full then toAlloc else 1;
      NodesFit(o);
      LongestRun(o, n);
      WholeOpen(o);
      if full && HasRange(o, toAlloc) {
        EnoughZeroes(toAlloc);
      }
      BiggestIsMax();
      ExactHint(toAlloc, hint, full);
      WholeHint(o, Now().Hint(hint), n);
    }

    /** On a map that is open throughout, the hint serves what fits behind it. */
    lemma WholeHint(o: seq<bool>, h: nat, n: nat)
      requires |o| == nbits && 0 < n
      ensures AllOpen(o, 0, nbits) ==> (AllOpen(o, h, h + n) <==> h + n <= nbits)
    {
      if AllOpen(o, h, h + n) {
        assert Open(o, h + n - 1);
      }
    }

    /** On an exact index with nodes, the biggest node is as long as extent_max says. */
    lemma BiggestIsMax()
      requires IndexTrees() && uptodated == 1 && forall e :: e in startTree ==> 0 < e.len
      ensures startTree == {} <==> extentMax == 0
      ensures forall e :: Now().IsBiggest(e) ==> e.len == extentMax
      ensures startTree != {} ==> exists e :: Now().IsBiggest(e)
    {
      if startTree != {} {
        var e := FirstExists(ByCount, startTree);
        assert Now().IsBiggest(e);
      }
      forall e | Now().IsBiggest(e)
        ensures e.len == extentMax
      {
        assert e in startTree;
        var m :| m in startTree && m.len == extentMax;
        assert !Before(ByCount, m, e);
      }
    }

    /** wnd_find on the index, before any marking. */
    method Choose(toAlloc0: nat, hint0: nat, full: bool) returns (r: Answer)
      requires Ready() && 0 < toAlloc0 && Describes(Current())
      modifies this`extentMax
      ensures Ready() && Describes(Current())
      ensures r.Found? ==> 0 < r.len <= toAlloc0 && (full ==> r.len == toAlloc0)
      ensures r.Found? ==> AllOpen(Current(), r.pos, r.pos + r.len)
      ensures r.Found? && r.len < toAlloc0 ==> !Open(Current(), r.pos + r.len)
      ensures r.Found? ==> old(Now()).Places(toAlloc0, hint0, full, r.pos)
      ensures r.NoSpace? <==> old(Now()).Refuses(toAlloc0, hint0, full)
      ensures r.IntoZone? ==> Crosses(r.pos, r.len) && r.len <= toAlloc0
      ensures r.IntoZone? <==> old(Now().ReachesZone(toAlloc0, hint0, full))
      ensures r.Scan? <==> old(Now().Scans(toAlloc0, hint0, full))
    {
      hide Geometry, Counters, OpenMap, Sound, Complete, IndexTrees, MaximalRun, AllAre, Snapshot.IsBiggest,
           Snapshot.RefusedByBiggest, Snapshot.HintServes, AllOpen, Crosses;
      DiskHolds();
      NoTreesNoAnswer(toAlloc0, hint0, full);
      var toAlloc := toAlloc0;
      if full {
        if totalZeroes - (zoneEnd - zoneBit) < toAlloc0 {
          return NoSpace;
        }
        if toAlloc0 > extentMax {
          return NoSpace;
        }
      } else {
        if toAlloc > extentMax {
          toAlloc := extentMax;
        }
      }
      if startTree == {} {
        return if uptodated == 1 then NoSpace else Scan;
      }
      r := FromTrees(toAlloc0, toAlloc, hint0, full);
    }

    /** The hint, said of the open map. */
    method ServeHint(toAlloc0: nat, toAlloc: nat, hint0: nat, full: bool) returns (r: Answer)
      requires Ready() && Describes(Current()) && startTree != {}
      requires 0 < toAlloc <= toAlloc0 && (full ==> toAlloc == toAlloc0)
      requires !full ==> toAlloc == if extentMax < toAlloc0 then extentMax else toAlloc0
      ensures r.NoSpace? || r.Found?
      ensures r.Found? <==> Now().HintServes(toAlloc0, hint0, full)
      ensures r.Found? ==> r.pos == Now().Hint(hint0) && 0 < r.len <= toAlloc && (full ==> r.len == toAlloc)
      ensures r.Found? ==> AllOpen(Current(), r.pos, r.pos + r.len)
      ensures r.Found? && r.len < toAlloc0 ==> !Open(Current(), r.pos + r.len)
      ensures startTree == {Extent(0, nbits)} ==>
                (r.NoSpace? <==> Now().Hint(hint0) == 0 || (full && nbits < Now().Hint(hint0) + toAlloc0))
    {
      hide Geometry, Counters, OpenMap, Sound, Complete, IndexTrees, MaximalRun, AllAre, Apart, AllOpen,
           Snapshot.HintServes, TreesAgree;
      DiskHolds();
      ghost var o := Current();
      NodesFit(o);
      SoundApart(startTree, o);
      Agree();
      HintMeans(toAlloc0, toAlloc, hint0, full);
      r := AtHint(toAlloc, Now().Hint(hint0), full);
      if r.Found? {
        PartOfNode(o, r.pos, r.len, toAlloc);
      }
    }

    /** The biggest extent, said of the open map and of the state before. */
    method ServeBiggest(toAlloc0: nat, toAlloc: nat, full: bool) returns (r: Answer)
      requires Ready() && Describes(Current()) && startTree != {}
      requires 0 < toAlloc <= toAlloc0 && (full ==> toAlloc == toAlloc0)
      requires !full ==> toAlloc == if extentMax < toAlloc0 then extentMax else toAlloc0
      modifies this`extentMax
      ensures Ready() && Describes(Current())
      ensures r.Found? ==> 0 < r.len <= toAlloc && (full ==> r.len == toAlloc)
      ensures r.Found? ==> AllOpen(Current(), r.pos, r.pos + r.len)
      ensures r.Found? && r.len < toAlloc0 ==> !Open(Current(), r.pos + r.len)
      ensures r.Found? ==> exists e :: old(Now()).IsBiggest(e) && e.start == r.pos
      ensures r.IntoZone? ==> Crosses(r.pos, r.len) && r.len <= toAlloc
      ensures r.IntoZone? <==> uptodated != 1 && !full && Now().EndsAtZone(toAlloc)
      ensures r.Scan? <==> uptodated != 1 && startTree == {Extent(0, nbits)}
      ensures r.NoSpace? <==> old(Now()).RefusedByBiggest(toAlloc0, full)
    {
      hide Geometry, Counters, OpenMap, Sound, Complete, IndexTrees, MaximalRun, AllAre, Snapshot.IsBiggest,
           AllOpen, Crosses, Snapshot.EndsAtZone, Snapshot.RefusedByBiggest;
      DiskHolds();
      ghost var now := Now();
      r := FromBiggest(toAlloc0, toAlloc, full);
      SameIndex(now, Now(), toAlloc0, full);
      Agree();
      if r.Found? {
        PartOfNode(Current(), r.pos, r.len, toAlloc);
      }
    }

    /** The part of wnd_find from line 1006 on: the hint, then the biggest extent. */
    method FromTrees(toAlloc0: nat, toAlloc: nat, hint0: nat, full: bool) returns (r: Answer)
      requires Ready() && Describes(Current()) && startTree != {}
      requires 0 < toAlloc <= toAlloc0 && (full ==> toAlloc == toAlloc0 <= extentMax)
      requires !full ==> toAlloc == if extentMax < toAlloc0 then extentMax else toAlloc0
      modifies this`extentMax
      ensures Ready() && Describes(Current())
      ensures r.Found? ==> 0 < r.len <= toAlloc && (full ==> r.len == toAlloc)
      ensures r.Found? ==> AllOpen(Current(), r.pos, r.pos + r.len)
      ensures r.Found? && r.len < toAlloc0 ==> !Open(Current(), r.pos + r.len)
      ensures r.Found? ==> old(Now()).Places(toAlloc0, hint0, full, r.pos)
      ensures r.IntoZone? ==> Crosses(r.pos, r.len) && r.len <= toAlloc
      ensures r.IntoZone? <==> old(Now().ReachesZone(toAlloc0, hint0, full))
      ensures r.Scan? <==> uptodated != 1 && startTree == {Extent(0, nbits)}
                           && (Now().Hint(hint0) == 0 || (full && nbits < Now().Hint(hint0) + toAlloc0))
      ensures r.NoSpace? <==> old(Now()).RefusedByBiggest(toAlloc0, full)
                              && !old(Now().HintServes(toAlloc0, hint0, full))
    {
      hide Geometry, Counters, OpenMap, Sound, Complete, IndexTrees, AllAre, Snapshot.IsBiggest, AllOpen, Crosses,
           Snapshot.ReachesZone, Snapshot.EndsAtZone, Snapshot.RefusedByBiggest, Snapshot.HintServes;
      DiskHolds();
      ghost var now := Now();
      ReachMeans(now, now, toAlloc0, toAlloc, hint0, full);
      r := ServeHint(toAlloc0, toAlloc, hint0, full);
      if r.NoSpace? {
        r := ServeBiggest(toAlloc0, toAlloc, full);
        ReachMeans(now, Now(), toAlloc0, toAlloc, hint0, full);
      }
    }

    lemma HintMeans(toAlloc0: nat, toAlloc: nat, hint: nat, full: bool)
      requires full ==> toAlloc == toAlloc0
      ensures var h := Now().Hint(hint);
              Now().HintServes(toAlloc0, hint, full) <==>
                h != 0 && exists e :: e in startTree && e.start <= h && h + (if full then toAlloc else 1) <= e.End()
      ensures Now().Hint(hint) == 0 || Now().Hint(hint) < nbits
    {
    }

    lemma Agree()
      requires IndexTrees()
      ensures TreesAgree()
    {
    }

    /** An open range is free, in bounds and outside the zone. */
    lemma OpenMeansUsable(lo: nat, hi: nat)
      requires ZoneInside() && lo < hi && AllOpen(Current(), lo, hi)
      ensures hi <= nbits && AllAre(disk, lo, hi, false)
      ensures hi <= zoneBit || zoneEnd <= lo || zoneBit == zoneEnd
    {
      var o := Current();
      MapBits(o);
      assert Open(o, lo) && Open(o, hi - 1);
      assert forall i :: lo <= i < hi ==> Open(o, i);
      assert lo <= zoneBit < hi ==> Open(o, zoneBit);
    }

    /**
      wnd_find on the index: what it returns as found was free, in bounds and outside the zone, and is
      marked if asked for. On an exact index the answer "no space" is exact, but for one case: a request
      that the hint cannot serve, on a bitmap that is one free run from end to end. A stale index may
      be left in two ways, each with its exact condition: over the bitmap, of which nothing is said, or
      into the zone, which destroys the index if the bits are marked.
     */
    method Find(toAlloc: nat, hint: nat, full: bool, mark: bool) returns (r: Answer, clean: bool, ghost failed: bool)
      requires Ready() && 0 < toAlloc && Describes(Current())
      modifies this`disk, this`freeBits, this`totalZeroes, this`zoneBit, this`zoneEnd,
               this`startTree, this`countTree, this`count, this`extentMax, this`extentMin, this`uptodated
      ensures zoneBit == old(zoneBit) && zoneEnd == old(zoneEnd) && nbits <= |disk| == |old(disk)|
      ensures r.Found? ==> 0 < r.len <= toAlloc && (full ==> r.len == toAlloc)
      ensures r.Found? ==> r.pos + r.len <= nbits && AllAre(old(disk), r.pos, r.pos + r.len, false)
                           && Now().BesideZone(r.pos, r.pos + r.len)
      ensures disk == if mark && r.Found? then Fill(old(disk), r.pos, r.pos + r.len, true)
                      else if mark && r.IntoZone? && r.pos + r.len <= |old(disk)|
                      then Fill(old(disk), r.pos, r.pos + r.len, true) else old(disk)
      ensures r.IntoZone? <==> old(Now().ReachesZone(toAlloc, hint, full))
      ensures r.Scan? <==> old(Now().Scans(toAlloc, hint, full))
      ensures r.IntoZone? ==> r.len <= toAlloc && old(Crosses(r.pos, r.len))
      ensures r.IntoZone? && mark ==> !clean && !ZoneFree() && !Sound(startTree, Current())
      ensures r.IntoZone? && !mark ==> clean
      ensures !(mark && r.Found?) ==>
                && startTree == old(startTree) && count == old(count) && uptodated == old(uptodated)
                && (!r.IntoZone? ==> totalZeroes == old(totalZeroes))
      ensures !failed && old(count) < MAX && old(uptodated) == 1 ==> uptodated == 1
      ensures old(uptodated) == 1 ==> count <= old(count) + 1
      ensures !(r.IntoZone? && mark) ==> Ready() && Describes(if clean then Current() else Uncut())
      ensures r.Found? && r.len < toAlloc ==> !Open(old(Current()), r.pos + r.len)
      ensures r.Found? ==> old(Now()).Places(toAlloc, hint, full, r.pos)
      ensures r.NoSpace? <==> old(Now()).Refuses(toAlloc, hint, full)
      ensures old(uptodated) == 1 && r.Found? ==> old(MapPlaces(toAlloc, hint, full, r.pos))
      ensures old(uptodated) == 1 ==> clean && (r.NoSpace? || r.Found?)
      ensures !clean && !r.IntoZone? ==>
                mark && zoneBit != zoneEnd && failed && r.Found? && old(startTree) == {Extent(r.pos, r.len)}
      ensures memory == Plenty ==> !failed
      ensures old(uptodated) == 1 ==> (r.NoSpace? <==> old(MapRefuses(toAlloc, hint, full)))
    {
      hide Geometry, Counters, OpenMap, HasRange, Sound, Complete, IndexTrees, AllAre, Fill, Describes,
           Snapshot.ReachesZone, Snapshot.Scans, AllOpen, Snapshot.Places, Snapshot.Refuses, MapPlaces, MapRefuses;
      DiskHolds();
      clean, failed := true, false;
      ExactAnswers(toAlloc, hint, full);
      if uptodated == 1 {
        ExactRefuses(toAlloc, hint, full);
        forall pos: nat | Now().Places(toAlloc, hint, full, pos)
          ensures MapPlaces(toAlloc, hint, full, pos)
        {
          ExactPlaces(toAlloc, hint, full, pos);
        }
      }
      r := Choose(toAlloc, hint, full);
      if r.Found? {
        OpenMeansUsable(r.pos, r.pos + r.len);
        if mark {
          clean, failed := SetUsed(r.pos, r.len);
        }
      } else if r.IntoZone? {
        if mark {
          TakeIntoZone(r.pos, r.len);
          clean := false;
        } else if r.len > extentMax {
          label before:
          extentMax := r.len;
          RaisedMax@before(r.len);
        }
      }
    }

    /** An up-to-date index always answers. */
    lemma ExactAnswers(toAlloc: nat, hint: nat, full: bool)
      ensures uptodated == 1 ==> !Now().ReachesZone(toAlloc, hint, full) && !Now().Scans(toAlloc, hint, full)
    {
    }

    twostate lemma RaisedMax(len: nat)
      requires old(IndexTrees()) && uptodated != 1
               && unchanged(this`startTree, this`countTree, this`count, this`uptodated)
      requires extentMax == len >= old(extentMax) && (uptodated == 1 || uptodated == -1)
      ensures IndexTrees()
    {
    }

    /**
      wnd_set_used on a range that begins with an indexed extent and runs into the zone. The removal
      from the index finds that extent only partly covered by what is left of it and keeps it
      (lines 385-396 and 458-463): it is now used, and so is a part of the zone.
     */
    method TakeIntoZone(pos: nat, len: nat)
      requires Ready() && Describes(Current()) && Crosses(pos, len)
      modifies this`disk, this`freeBits, this`totalZeroes
      ensures Geometry() && Counters() && IndexTrees() && nbits <= |disk| == |old(disk)|
      ensures pos + len <= |old(disk)| && disk == Fill(old(disk), pos, pos + len, true)
      ensures !ZoneFree() && !Sound(startTree, Current())
    {
      hide Geometry, Counters, IndexTrees, OpenMap, Complete;
      DiskHolds();
      MarkBits(pos, len, true);
      MapBits(Current());
      var e := Extent(pos, zoneBit - pos);
      assert !Open(Current(), pos);
      assert disk[zoneBit];
    }

    /**
      The step of wnd_find that lengthens the biggest extent of a stale index over free bits
      (lines 1085-1095). It looks at the bitmap alone, so it stays out of the zone exactly when the
      extent does not end where a zone begins.
     */
    method LengthenBiggest(e: Extent, toAlloc: nat) returns (len: nat)
      requires Ready() && Describes(Current()) && e in startTree && e.len < toAlloc
      ensures len == e.len <==> !(e.End() == zoneBit && zoneBit < zoneEnd)
      ensures e.len <= len <= toAlloc && e.start + len <= nbits
      ensures AllAre(disk, e.start, e.start + len, false)
      ensures (e.start + len <= zoneBit || zoneEnd <= e.start || zoneBit == zoneEnd)
              <==> !(e.End() == zoneBit && zoneBit < zoneEnd)
    {
      hide Geometry, Counters, IndexTrees, Sound, Complete;
      DiskHolds();
      CountsOf();
      MapBits(Current());
      RunEdge(e);
      var maxCheck := if e.start + toAlloc > nbits then nbits else e.start + toAlloc;
      var op := e.End();
      while op < maxCheck
        invariant e.End() <= op <= maxCheck && AllAre(disk, e.start, op, false)
        invariant e.End() < op ==> !disk[e.End()]
      {
        var free := IsFreeHlp(op, 1);
        if !free {
          break;
        }
        op := op + 1;
      }
      len := op - e.start;
    }

    /** An indexed run is free, beside the zone, and stopped by the zone, a used bit or the end. */
    lemma RunEdge(e: Extent)
      requires ZoneInside() && Describes(Current()) && e in startTree
      ensures 0 < e.len && e.End() <= nbits && AllAre(disk, e.start, e.End(), false)
      ensures e.End() <= zoneBit || zoneEnd <= e.start || zoneBit == zoneEnd
      ensures e.End() == nbits || disk[e.End()] || (e.End() == zoneBit && zoneBit < zoneEnd)
    {
      assert MaximalRun(Current(), e);
      OpenMeansUsable(e.start, e.End());
      MapBits(Current());
    }

    // ----- growing the bitmap, and starting up

    /** Number of windows for `n` bits, and the bits of the last one. */
    method WindowsFor(n: nat) returns (nw: nat, last: nat)
      requires 0 < W
      ensures nw == 0 <==> n == 0
      ensures 1 <= last <= W && (0 < nw ==> n == Base(W, nw - 1) + last)
      ensures nw == Windows(W, n)
    {
      if n == 0 {
        return 0, W;
      }
      BaseOf(W, n - 1);
      nw, last := (n - 1) / W + 1, (n - 1) % W + 1;
    }

    /** Bits of window `iw` in a bitmap of `nw` windows. */
    ghost function BitsOf(iw: nat, nw: nat, last: nat): nat {
      if iw + 1 == nw then last else W
    }

    /** Counts while wnd_extend has cleared the new bits up to `pos`, in window `iw`. */
    ghost predicate Growing(iw: nat, pos: nat, nw: nat, last: nat)
      reads this`disk, this`freeBits, this`totalZeroes
    {
      && |freeBits| == nw && pos <= |disk| && totalZeroes == Zeroes(disk, 0, pos)
      && (forall j {:trigger freeBits[j]} :: 0 <= j < iw && j < nw ==>
            freeBits[j] == Zeroes(disk, Base(W, j), Base(W, j) + BitsOf(j, nw, last)))
      && (iw < nw ==> freeBits[iw] == Zeroes(disk, Base(W, iw), pos))
      && (forall j {:trigger freeBits[j]} :: iw < j < nw ==> freeBits[j] == 0)
    }

    /** One window of wnd_extend: clear from `pos` to the end of the block and count again. */
    method ClearWindow(iw: nat, pos: nat, nw: nat, last: nat)
      requires iw < nw && Growing(iw, pos, nw, last) && 1 <= last <= W
      requires Base(W, iw) <= pos <= Base(W, iw) + BitsOf(iw, nw, last) && Base(W, iw + 1) <= |disk|
      modifies this`disk, this`freeBits, this`totalZeroes
      ensures |disk| == |old(disk)| && disk == Fill(old(disk), pos, Base(W, iw + 1), false)
      ensures Growing(iw + 1, Base(W, iw) + BitsOf(iw, nw, last), nw, last)
    {
      hide Zeroes, Base;
      BaseStep(iw);
      var lo := Base(W, iw);
      var wbits := if iw + 1 == nw then last else W;
      var hi := lo + wbits;
      ghost var disk0 := disk;
      disk := Fill(disk, pos, lo + W, false);
      ClearedCounts(disk0, lo, pos, hi);
      ClearedCounts(disk0, 0, pos, hi);
      OlderWindows(disk0, iw, pos, nw, last);
      var used := Weight(lo, hi);
      var frb := wbits - used;
      totalZeroes := totalZeroes + frb - freeBits[iw];
      freeBits := freeBits[iw := frb];
      NothingFree(hi);
    }

    lemma BaseStep(iw: nat)
      ensures Base(W, iw + 1) == Base(W, iw) + W
    {
    }

    lemma ClearedCounts(disk0: seq<bool>, lo: nat, pos: nat, hi: nat)
      requires lo <= pos <= hi <= |disk| == |disk0|
      requires forall i :: lo <= i < pos ==> disk[i] == disk0[i]
      requires forall i :: pos <= i < hi ==> !disk[i]
      ensures Zeroes(disk, lo, hi) == Zeroes(disk0, lo, pos) + (hi - pos)
    {
      hide Zeroes;
      ZeroesSame(disk, disk0, lo, pos);
      ZeroesSplit(disk, lo, pos, hi);
      ZeroesExtremes(disk, pos, hi);
    }

    /** Clearing bits from `pos` on leaves the counts of earlier windows. */
    lemma OlderWindows(disk0: seq<bool>, iw: nat, pos: nat, nw: nat, last: nat)
      requires iw < nw && Base(W, iw) <= pos <= |disk| == |disk0| && last <= W
      requires forall i :: 0 <= i < pos ==> disk[i] == disk0[i]
      ensures forall j {:trigger Base(W, j)} :: 0 <= j < iw ==>
                Zeroes(disk, Base(W, j), Base(W, j) + BitsOf(j, nw, last))
                == Zeroes(disk0, Base(W, j), Base(W, j) + BitsOf(j, nw, last))
    {
      forall j {:trigger Base(W, j)} | 0 <= j < iw
        ensures Zeroes(disk, Base(W, j), Base(W, j) + BitsOf(j, nw, last))
                == Zeroes(disk0, Base(W, j), Base(W, j) + BitsOf(j, nw, last))
      {
        BaseOrder(W, j, iw);
        ZeroesSame(disk, disk0, Base(W, j), Base(W, j) + BitsOf(j, nw, last));
      }
    }

    lemma NothingFree(p: nat)
      ensures Zeroes(disk, p, p) == 0
    {
    }

    /** The loop of wnd_extend: zero the bits [from, to) window by window. */
    method ClearNew(from: nat, to: nat, iw0: nat, nw: nat, last: nat)
      requires from < to && Base(W, iw0) <= from < Base(W, iw0) + W && iw0 < nw && 1 <= last <= W
      requires to == Base(W, nw - 1) + last && Base(W, nw) <= |disk| && Growing(iw0, from, nw, last)
      modifies this`disk, this`freeBits, this`totalZeroes
      ensures |disk| == |old(disk)| && Growing(nw, to, nw, last)
      ensures forall i :: 0 <= i < from ==> disk[i] == old(disk[i])
      ensures AllAre(disk, from, to, false)
    {
      hide Growing, Base;
      var iw: nat, pos: nat := iw0, from;
      EndOfWindow(iw, nw, last);
      while iw < nw
        invariant iw0 <= iw <= nw && |disk| == |old(disk)| && Growing(iw, pos, nw, last)
        invariant from <= pos <= to <= |disk| && (iw == nw ==> pos == to)
        invariant iw < nw ==> Base(W, iw) <= pos <= Base(W, iw) + BitsOf(iw, nw, last) <= to
        invariant forall i :: 0 <= i < from ==> disk[i] == old(disk[i])
        invariant AllAre(disk, from, pos, false)
      {
        EndOfWindow(iw, nw, last);
        ClearWindow(iw, pos, nw, last);
        pos := Base(W, iw) + if iw + 1 == nw then last else W;
        iw := iw + 1;
        if iw < nw {
          EndOfWindow(iw, nw, last);
        }
      }
    }

    lemma EndOfWindow(iw: nat, nw: nat, last: nat)
      requires iw < nw && 1 <= last <= W
      ensures Base(W, iw) + BitsOf(iw, nw, last) <= Base(W, nw - 1) + last <= Base(W, nw)
      ensures Base(W, iw + 1) == Base(W, iw) + W <= Base(W, nw)
      ensures iw + 1 == nw ==> Base(W, iw) + BitsOf(iw, nw, last) == Base(W, nw - 1) + last
    {
      if iw + 1 < nw {
        BaseOrder(W, iw, nw - 1);
        BaseOrder(W, iw, nw);
      }
    }

    /** The counts of wnd_extend before its loop: old windows, then zeroes. */
    lemma StartGrowing(freeBits0: seq<nat>, iw0: nat, nw: nat, last: nat)
      requires Geometry() && |freeBits0| == nwnd <= nw == |freeBits| && freeBits0 == freeBits[..nwnd]
      requires forall j {:trigger freeBits0[j]} :: 0 <= j < nwnd ==> freeBits0[j] == WindowZeroes(j)
      requires forall j {:trigger freeBits[j]} :: nwnd <= j < nw ==> freeBits[j] == 0
      requires totalZeroes == Zeroes(disk, 0, nbits)
      requires Base(W, iw0) <= nbits < Base(W, iw0) + W && iw0 < nw && Base(W, nw - 1) + last > nbits
      ensures Growing(iw0, nbits, nw, last)
    {
      hide Zeroes, Geometry, Base;
      DiskHolds();
      Place(iw0);
      forall j {:trigger freeBits[j]} | 0 <= j < nwnd
        ensures freeBits[j] == WindowZeroes(j)
      {
        assert freeBits[j] == freeBits0[j];
      }
      if nwnd < nw {
        NothingFree(nbits);
      }
      FullUnless(nw, last);
    }

    /** The bitmap ends inside its last window or exactly at a window boundary. */
    lemma Place(iw0: nat)
      requires Geometry() && Base(W, iw0) <= nbits < Base(W, iw0) + W
      ensures (iw0 == nwnd && nbits == Base(W, iw0)) || (iw0 + 1 == nwnd && nbits == Base(W, iw0) + bitsLast)
      ensures iw0 == nwnd ==> nwnd == 0 || bitsLast == W
    {
      if 0 < nwnd {
        var l := nwnd - 1;
        if iw0 < l {
          BaseOrder(W, iw0, l);
        }
        if l + 1 < iw0 {
          BaseOrder(W, l + 1, iw0);
        }
      }
    }

    lemma FullUnless(nw: nat, last: nat)
      ensures forall j: nat :: j + 1 < nwnd && nwnd <= nw ==> WBits(j) == W == BitsOf(j, nw, last)
    {
    }

    /** kmalloc of the longer counts: may fail. */
    method AllocCounts() returns (ok: bool)
    {
      ok := *;
    }

    /** wnd_extend up to its call of wnd_add_free_ext: the new bits are free and counted. */
    method GrowBitmap(newBits: nat, nw: nat, last: nat) returns (ok: bool)
      requires Geometry() && Counters() && nbits < newBits
      requires 0 < nw && 1 <= last <= W && newBits == Base(W, nw - 1) + last && Base(W, nw) <= |disk|
      modifies this`disk, this`freeBits, this`totalZeroes, this`nbits, this`nwnd, this`bitsLast
      ensures Geometry() && Counters()
      ensures !ok ==> disk == old(disk) && nbits == old(nbits) && nw != old(nwnd)
      ensures ok ==> nbits == newBits && |disk| == |old(disk)|
      ensures ok ==> (forall i :: 0 <= i < old(nbits) ==> disk[i] == old(disk[i]))
                     && AllAre(disk, old(nbits), newBits, false)
    {
      hide Zeroes, Base, Growing, AllAre, Geometry, Counters;
      ok := true;
      DiskHolds();
      GeometryFacts();
      var iw0: nat, b0: nat := FirstWindow(nbits, 0);
      MoreWindows(iw0, nw, last);
      ghost var freeBits0 := freeBits;
      if nw != nwnd {
        ok := AllocCounts();
        if !ok {
          return;
        }
        freeBits := freeBits + seq(nw - nwnd, _ => 0);
      }
      StartGrowing(freeBits0, iw0, nw, last);
      ClearNew(nbits, newBits, iw0, nw, last);
      nbits, nwnd, bitsLast := newBits, nw, last;
      HasGrown();
    }

    lemma GeometryFacts()
      requires Geometry() && Counters()
      ensures 8 <= W < TWO_16 && W % 8 == 0 && 2 <= MAX
      ensures WindowCounts() && totalZeroes == Zeroes(disk, 0, nbits)
    {
    }

    lemma HasGrown()
      requires 8 <= W < TWO_16 && W % 8 == 0 && 2 <= MAX
      requires 0 < nwnd && 1 <= bitsLast <= W && nbits == Base(W, nwnd - 1) + bitsLast && Base(W, nwnd) <= |disk|
      requires Growing(nwnd, nbits, nwnd, bitsLast)
      ensures Geometry() && Counters()
    {
      hide Zeroes;
    }

    /** A longer bitmap has at least as many windows, and the old end lies inside them. */
    lemma MoreWindows(iw0: nat, nw: nat, last: nat)
      requires Geometry() && Base(W, iw0) <= nbits < Base(W, iw0) + W
      requires 0 < nw && 1 <= last <= W && nbits < Base(W, nw - 1) + last
      ensures iw0 < nw && nwnd <= nw
    {
      var l := nw - 1;
      if l < iw0 {
        BaseOrder(W, l, iw0);
      }
      Place(iw0);
    }

    /** The new bits open where the old map ended. */
    lemma GrownMap(disk0: seq<bool>, nbits0: nat)
      requires ZoneInside() && zoneEnd <= nbits0 <= nbits && nbits0 <= |disk0|
      requires (forall i :: 0 <= i < nbits0 ==> disk[i] == disk0[i]) && AllAre(disk, nbits0, nbits, false)
      ensures Opened(OpenMap(disk0[..nbits0], zoneBit, zoneEnd), Current(), nbits0, nbits)
      ensures AllAre(disk0, zoneBit, zoneEnd, false) ==> AllAre(disk, zoneBit, zoneEnd, false)
    {
      assert forall i :: 0 <= i < nbits0 ==> disk0[..nbits0][i] == disk0[i];
      assert forall i :: 0 <= i < nbits ==> Bitmap()[i] == disk[i];
    }

    /** wnd_extend: -EINVAL unless the bitmap grows, -ENOMEM without memory for the counts, else 0. */
    method Extend(newBits: nat) returns (err: int, ghost failed: bool)
      requires Ready() && Describes(Current())
      requires 0 <= Windows(W, newBits) && Base(W, Windows(W, newBits)) <= |disk|
      modifies this`disk, this`freeBits, this`totalZeroes, this`nbits, this`nwnd, this`bitsLast,
               this`startTree, this`countTree, this`count, this`extentMax, this`extentMin, this`uptodated
      ensures Ready() && Describes(Current())
      ensures err == EINVAL <==> newBits <= old(nbits)
      ensures err == ENOMEM ==> Windows(W, newBits) != old(nwnd)
      ensures err == 0 || err == ENOMEM || err == EINVAL
      ensures err != 0 ==> disk == old(disk) && nbits == old(nbits) && uptodated == old(uptodated)
      ensures !failed && old(count) < MAX ==> uptodated == old(uptodated)
      ensures memory == Plenty ==> !failed
      ensures err == 0 ==> nbits == newBits && |disk| == |old(disk)|
      ensures err == 0 ==> (forall i :: 0 <= i < old(nbits) ==> disk[i] == old(disk[i]))
                           && AllAre(disk, old(nbits), newBits, false)
    {
      hide Counters, IndexTrees, Describes, AllAre, OpenMap, Opened, Windows, Base, Given, StartingElsewhere,
           EndingElsewhere;
      if newBits <= nbits {
        return EINVAL, false;
      }
      ghost var disk0, o0 := disk, Current();
      var nbits0 := nbits;
      var nw, last := WindowsFor(newBits);
      var ok := GrowBitmap(newBits, nw, last);
      if !ok {
        return ENOMEM, false;
      }
      GrownMap(disk0, nbits0);
      CountsOf();
      failed := AddFreeExt(nbits0, newBits - nbits0, o0, Current());
      return 0, failed;
    }

    /** wnd_init: count and index a bitmap that is already on disk. */
    constructor (blocks: seq<bool>, n: nat, w: nat, max: nat, m: Memory)
      requires 8 <= w < TWO_16 && w % 8 == 0 && 2 <= max
      requires 0 <= Windows(w, n) && Base(w, Windows(w, n)) <= |blocks|
      ensures W == w && MAX == max && disk == blocks && nbits == n && zoneBit == zoneEnd == 0
      ensures Ready() && Describes(Current()) && memory == m && (m == Plenty ==> uptodated == 1 || count == MAX)
    {
      W, MAX := w, max;
      disk, nbits, totalZeroes, extentMax := blocks, n, n, SIZE_MAX;
      zoneBit, zoneEnd, inited, memory := 0, 0, false, m;
      startTree, countTree, count, extentMin, uptodated := {}, {}, 0, 0, 0;
      nwnd, bitsLast, freeBits := 0, w, [];
      new;
      Start();
    }

    /** wnd_init after the fields are set: geometry, counts, first scan. */
    method Start()
      requires 8 <= W < TWO_16 && W % 8 == 0 && 2 <= MAX && zoneBit == zoneEnd == 0 && !inited
      requires 0 <= Windows(W, nbits) && Base(W, Windows(W, nbits)) <= |disk|
      requires startTree == countTree == {} && count == 0
      modifies this`startTree, this`countTree, this`count, this`extentMax, this`extentMin, this`uptodated, this`nwnd,
               this`bitsLast, this`inited, this`freeBits, this`totalZeroes, this`zoneBit, this`zoneEnd
      ensures zoneBit == zoneEnd == 0 && Ready() && Describes(Current()) && (memory == Plenty ==> Excused(false))
    {
      hide Describes, Base, Zeroes, AllAre, Windows, OpenMap;
      var nw, last := WindowsFor(nbits);
      nwnd, bitsLast := nw, last;
      freeBits := seq(nw, _ => 0);
      BlocksHold(nw, last);
      NothingThere(disk, 0, false);
      var clean;
      ghost var starved;
      clean, starved := Rescan();
      inited := true;
    }

    lemma BlocksHold(nw: nat, last: nat)
      requires Base(W, nw) <= |disk| && 1 <= last <= W && (nw == 0 <==> nbits == 0)
      requires 0 < nw ==> nbits == Base(W, nw - 1) + last
      ensures nbits <= |disk|
    {
    }

    /** A move of the zone that empties a stale index is risky. */
    lemma EmptiesRisky(lcn: nat, len: nat, failed: bool)
      requires ZoneInside() && lcn + len <= nbits && Empties(lcn, len, failed) && (failed ==> zoneBit != zoneEnd)
      ensures Now().Risky(Zone(lcn, len))
    {
      MapBits(Uncut());
      if !failed && zoneBit != zoneEnd {
        assert forall e :: e in startTree ==> e !in BesideZone();
        assert 0 < lcn ==> !Open(Uncut(), lcn - 1);
        assert lcn + len < nbits ==> !Open(Uncut(), lcn + len);
      }
    }

    /** While the index is up to date, only one kind of request is risky: moving a zone to the only extent indexed. */
    lemma ExactNotRisky(q: Request)
      ensures uptodated == 1 ==> (Now().Risky(q) <==>
                q.Zone? && 0 < q.len && zoneBit != zoneEnd && startTree == {Extent(q.lcn, q.len)})
    {
    }

    /** With two extents indexed or more, so it is while no zone is set, and using bits is never risky. */
    lemma TwoNotRisky(q: Request)
      requires 2 <= |startTree|
      ensures zoneBit == zoneEnd || q.Use? || q.Free? || q.Grow? ==> !Now().Risky(q)
    {
    }

    /** Making a zone smaller, as every allocation from it does, is never risky. */
    lemma ShrinkNotRisky(lcn: nat, len: nat)
      requires ZoneInside() && Sound(startTree, Current())
      requires zoneBit <= lcn && lcn + len <= zoneEnd && len < zoneEnd - zoneBit
      ensures !Now().Risky(Zone(lcn, len))
    {
      MapBits(Current());
      var e := Extent(lcn, len);
      assert 0 < len && startTree == {e} ==> MaximalRun(Current(), e);
      var first := Open(Current(), lcn);
    }

    /**
      One request. Unless it was risky in the state that it met, geometry, counters, trees and zone are
      right afterwards, the index describes the bitmap, and the bitmap and the zone are as asked for.
      A risky request does harm only for want of memory, or if it is a zone that empties a stale index
      all by itself, or a search that leaves a stale index.
     */
    method Serve(q: Request) returns (clean: bool, ghost failed: bool)
      requires Ready() && Describes(Current()) && Now().Allowed(q)
      modifies this
      ensures clean ==> Ready() && Describes(Current()) && old(Now()).Effect(q, Now())
      ensures !clean ==> old(Now().Risky(q))
      ensures !clean ==> || failed
                         || (q.Zone? && old(nbits <= |disk|) && old(Empties(q.lcn, q.len, false)))
                         || (q.Search? && old(Now().Scans(q.toAlloc, q.hint, q.full)))
                         || (q.Search? && q.mark && old(Now().ReachesZone(q.toAlloc, q.hint, q.full)))
      ensures memory == old(memory) && (memory == Plenty ==> !failed)
    {
      hide Geometry, Counters, IndexTrees, Describes, AllAre, Fill, OpenMap, HasRange, Base, Windows, Empties,
           Snapshot.ReachesZone, Snapshot.Scans, Snapshot.Took;
      clean, failed := true, false;
      DiskHolds();
      match q {
        case Free(bit, bits) => failed := SetFree(bit, bits);
        case Use(bit, bits) => clean, failed := SetUsed(bit, bits);
        case Search(toAlloc, hint, full, mark) => clean, failed := ServeSearch(toAlloc, hint, full, mark);
        case Grow(newBits) => var err; err, failed := Extend(newBits);
        case Zone(lcn, len) => clean, failed := ServeZone(lcn, len);
      }
    }

    method ServeSearch(toAlloc: nat, hint: nat, full: bool, mark: bool) returns (clean: bool, ghost failed: bool)
      requires Ready() && Describes(Current()) && 0 < toAlloc
      modifies this`disk, this`freeBits, this`totalZeroes, this`zoneBit, this`zoneEnd,
               this`startTree, this`countTree, this`count, this`extentMax, this`extentMin, this`uptodated
      ensures clean ==> Ready() && Describes(Current()) && old(Now()).Effect(Search(toAlloc, hint, full, mark), Now())
      ensures !clean ==> old(Now().Risky(Search(toAlloc, hint, full, mark)))
      ensures !clean ==> || failed || old(Now().Scans(toAlloc, hint, full))
                         || (mark && old(Now().ReachesZone(toAlloc, hint, full)))
      ensures memory == Plenty ==> !failed
    {
      hide Geometry, Counters, IndexTrees, Describes, AllAre, Fill, OpenMap, HasRange, AllOpen, Sound, Complete,
           Snapshot.ReachesZone, Snapshot.Scans, Snapshot.Took, Snapshot.Refuses, Snapshot.Places, MapPlaces,
           MapRefuses;
      DiskHolds();
      ghost var now := Now();
      var r;
      r, clean, failed := Find(toAlloc, hint, full, mark);
      if r.Scan? {
        clean := false;
      }
      if r.Found? {
        TookRange(now, toAlloc, hint, full, r.pos, r.len, Now(), mark);
        ghost var e := Extent(r.pos, r.len);
        assert !clean ==> e in now.startTree && now.startTree == {e} && e.len <= toAlloc && (full ==> e.len == toAlloc);
      }
    }

    lemma TookRange(now: Snapshot, toAlloc: nat, hint: nat, full: bool, pos: nat, len: nat, s: Snapshot, mark: bool)
      requires 0 < len <= toAlloc && (full ==> len == toAlloc) && pos + len <= now.nbits <= |now.disk|
      requires AllAre(now.disk, pos, pos + len, false) && now.BesideZone(pos, pos + len)
      requires s.disk == if mark then Fill(now.disk, pos, pos + len, true) else now.disk
      requires now.Places(toAlloc, hint, full, pos) && (len < toAlloc ==> !Open(now.Map(), pos + len))
      ensures mark ==> now.Took(toAlloc, hint, full, pos, len, s)
    {
    }

    method ServeZone(lcn: nat, len: nat) returns (clean: bool, ghost failed: bool)
      requires Ready() && Describes(Current()) && lcn + len <= nbits && AllAre(disk, lcn, lcn + len, false)
      modifies this`startTree, this`countTree, this`count, this`extentMax, this`extentMin, this`uptodated,
               this`freeBits, this`totalZeroes, this`zoneBit, this`zoneEnd
      ensures clean ==> Ready() && Describes(Current()) && zoneBit == lcn && zoneEnd == lcn + len
      ensures !clean ==> old(Now().Risky(Zone(lcn, len)))
      ensures !clean ==> failed || (old(nbits <= |disk|) && old(Empties(lcn, len, false)))
      ensures memory == Plenty ==> !failed
    {
      hide Geometry, Counters, IndexTrees, Describes, AllAre, OpenMap, Empties, Snapshot.Risky;
      DiskHolds();
      if Empties(lcn, len, false) {
        EmptiesRisky(lcn, len, false);
      }
      if zoneBit != zoneEnd && Empties(lcn, len, true) {
        EmptiesRisky(lcn, len, true);
      }
      var rescanned;
      ghost var lost;
      rescanned, failed, lost := ZoneSet(lcn, len);
      clean, failed := !rescanned, failed || lost;
    }

    lemma IsIndexed()
      requires nbits <= |disk| && Describes(Current())
      ensures Now().Indexed()
    {
    }

    /**
      Any run of requests. `states` are the states it goes through: in each of them the request served
      was allowed, the index is sound, and it is exact if it claims to be up to date; and each state is
      what the request makes of the one before. The run ends early only at a request that is not allowed,
      or with one that was risky in the state it met and did harm; then nothing is said of the last state.
     */
    method Run(qs: seq<Request>) returns (done: nat, clean: bool, ghost states: seq<Snapshot>)
      requires Ready() && Describes(Current())
      modifies this
      ensures done <= |qs| && |states| == done + 1 && states[0] == old(Now()) && states[done] == Now()
      ensures forall k :: 0 <= k < done ==> states[k].Indexed() && states[k].Allowed(qs[k])
      ensures forall k :: 0 <= k < done && (clean || k + 1 < done) ==> states[k].Effect(qs[k], states[k + 1])
      ensures clean ==> Ready() && Now().Indexed() && (done < |qs| ==> !Now().Allowed(qs[done]))
      ensures !clean ==> 0 < done && states[done - 1].Risky(qs[done - 1])
    {
      hide Geometry, Counters, IndexTrees, Describes, OpenMap, AllAre, Empties, Snapshot.Allowed, Snapshot.Risky,
           Snapshot.Effect, Snapshot.Indexed, Snapshot.Scans, Snapshot.ReachesZone;
      done, clean, states := 0, true, [Now()];
      DiskHolds();
      IsIndexed();
      while done < |qs|
        invariant Ready() && Describes(Current()) && clean && done <= |qs| && |states| == done + 1
        invariant states[0] == old(Now()) && states[done] == Now() && Now().Indexed()
        invariant forall k :: 0 <= k < done ==> states[k].Indexed() && states[k].Allowed(qs[k])
        invariant forall k :: 0 <= k < done ==> states[k].Effect(qs[k], states[k + 1])
      {
        var allowed := IsAllowed(qs[done]);
        if !allowed {
          return;
        }
        ghost var failed;
        clean, failed := Serve(qs[done]);
        states := states + [Now()];
        done := done + 1;
        if !clean {
          return;
        }
        DiskHolds();
        IsIndexed();
      }
    }

    /** The only free bits are 0 and, perhaps, 2: two runs at most. */
    lemma TwoRuns(o: seq<bool>)
      requires Sound(startTree, o) && SameNodes() && |o| == 3 && !Open(o, 1)
      ensures count <= 2 && startTree <= {Extent(0, 1), Extent(2, 1)}
      ensures Complete(startTree, o) && Open(o, 0) && !Open(o, 2) ==> startTree == {Extent(0, 1)}
    {
      forall e | e in startTree
        ensures e == Extent(0, 1) || e == Extent(2, 1)
      {
        assert MaximalRun(o, e);
        assert Open(o, e.start) && Open(o, e.End() - 1);
        assert 1 < e.len ==> Open(o, e.start + 1);
      }
      SubsetSize(startTree, {Extent(0, 1), Extent(2, 1)});
      if Complete(startTree, o) && Open(o, 0) && !Open(o, 2) {
        assert MaximalRun(o, Extent(0, 1));
        assert Extent(2, 1) in startTree ==> MaximalRun(o, Extent(2, 1)) && Open(o, 2);
      }
    }

    /** Eight bits hold at most four runs. */
    lemma FewNodes()
      requires IndexTrees() && ZoneInside() && Describes(Current()) && nbits == 8
      ensures count <= 8
    {
      hide Complete;
      NodesFit(Current());
      SoundApart(startTree, Current());
      DistinctStarts(startTree, 8);
    }

    /** As many extents as starts. */
    lemma {:induction false} DistinctStarts(t: set<Extent>, n: nat)
      requires Apart(t) && forall e :: e in t ==> e.start < n
      ensures |t| <= n
      decreases n
    {
      if n == 0 {
        assert t == {};
      } else if e :| e in t && e.start == n - 1 {
        assert forall x :: x in t && x != e ==> x.start < n - 1;
        DistinctStarts(t - {e}, n - 1);
      } else {
        DistinctStarts(t, n - 1);
      }
    }

    lemma ZoneEmptyCut()
      requires nbits <= |disk|
      ensures Cut(0, 0) == Uncut()
    {
    }

    /** After a scan with no zone, an exact index offers bits of the zone: it is not sound. */
    lemma ZoneMissed()
      requires nbits <= |disk| && zoneBit < zoneEnd <= nbits && AllAre(disk, zoneBit, zoneEnd, false)
      requires Describes(Uncut()) && uptodated == 1
      ensures !Sound(startTree, Current())
    {
      assert Bitmap()[zoneBit] == disk[zoneBit];
      WrongZone(startTree, Uncut(), Current(), zoneBit);
    }

    /** The promise is decidable: a caller can check it before the call. */
    method IsAllowed(q: Request) returns (r: bool)
      requires Ready() && (Describes(Current()) || Describes(Uncut()))
      ensures r <==> Now().Allowed(q)
    {
      hide Geometry, Counters, IndexTrees, Describes, ZoneFree, OpenMap, AllAre;
      match q {
        case Free(bit, bits) =>
          r := false;
          if 0 < bits && bit + bits <= nbits {
            r := IsUsed(bit, bits);
          }
        case Use(bit, bits) =>
          r := false;
          if 0 < bits && bit + bits <= nbits && (bit + bits <= zoneBit || zoneEnd <= bit || zoneBit == zoneEnd) {
            r := IsFree(bit, bits);
          }
        case Search(toAlloc, _, _, _) =>
          r := 0 < toAlloc;
        case Grow(newBits) =>
          r := 0 <= Windows(W, newBits) && Base(W, Windows(W, newBits)) <= |disk|;
        case Zone(lcn, len) =>
          r := lcn + len <= nbits;
          if r && 0 < len {
            r := IsFree(lcn, len);
          } else if r {
            DiskHolds();
            NothingThere(disk, lcn, false);
          }
      }
    }
  }

  /** A sound and complete index of a map with two runs. */
  lemma JustTwo(t: set<Extent>, o: seq<bool>, a: Extent, b: Extent)
    requires Sound(t, o) && Complete(t, o) && MaximalRun(o, a) && MaximalRun(o, b)
    requires forall i :: Open(o, i) ==> a.start <= i < a.End() || b.start <= i < b.End()
    ensures t == {a, b}
  {
    forall e | e in t
      ensures e == a || e == b
    {
      assert MaximalRun(o, e) && Open(o, e.start);
      if a.start <= e.start < a.End() {
        SameRun(o, e, a, e.start);
      } else {
        SameRun(o, e, b, e.start);
      }
    }
  }

  /** Eight bits of which bit 3 alone is used, exactly indexed. */
  method EightBits() returns (w: WndBitmap)
    ensures fresh(w) && w.Ready() && w.Describes(w.Current()) && w.zoneBit == w.zoneEnd == 0 && w.nbits == 8
    ensures w.disk == [false, false, false, true, false, false, false, false] && w.MAX == 9 && w.uptodated == 1
    ensures w.startTree == {Extent(0, 3), Extent(4, 4)} && w.count == 2 && w.memory == Plenty
  {
    hide WndBitmap.Geometry, WndBitmap.Counters, WndBitmap.MaxAttained, OpenMap, Sound, Complete;
    var blocks := [false, false, false, true, false, false, false, false];
    assert Base(8, 1) == 8 && Windows(8, 8) == 1;
    w := new WndBitmap(blocks, 8, 8, 9, Plenty);
    w.FewNodes();
    w.MapBits(w.Current());
    JustTwo(w.startTree, w.Current(), Extent(0, 3), Extent(4, 4));
    w.CountOfOne(Extent(1, 2));
    assert |{Extent(0, 3), Extent(4, 4)}| == 2;
  }

  /** The same with the zone [1, 3). */
  method ZoneInFront() returns (w: WndBitmap)
    ensures fresh(w) && w.Ready() && w.Describes(w.Current()) && w.zoneBit == 1 && w.zoneEnd == 3 && w.nbits == 8
    ensures w.disk == [false, false, false, true, false, false, false, false] && w.MAX == 9 && w.uptodated == 1
    ensures w.startTree == {Extent(0, 1), Extent(4, 4)}
  {
    hide WndBitmap.Geometry, WndBitmap.Counters, WndBitmap.IndexTrees, OpenMap, Sound, Complete, MaximalRun;
    w := EightBits();
    assert Extent(0, 3) in w.startTree;
    var rescanned;
    ghost var failed, lost;
    rescanned, failed, lost := w.ZoneSet(1, 2);
    TwoLeft(w);
  }

  lemma TwoLeft(w: WndBitmap)
    requires w.ZoneInside() && w.Describes(w.Current()) && w.zoneBit == 1 && w.zoneEnd == 3 && w.nbits == 8
    requires w.disk == [false, false, false, true, false, false, false, false] && w.uptodated == 1
    ensures w.startTree == {Extent(0, 1), Extent(4, 4)}
  {
    hide OpenMap, Sound, Complete;
    w.MapBits(w.Current());
    JustTwo(w.startTree, w.Current(), Extent(0, 1), Extent(4, 4));
  }

  /** Bit 5 is used with no memory for the extent behind it, which is dropped, though extent_max has counted it. */
  method StaleBesideZone() returns (w: WndBitmap)
    ensures fresh(w) && w.Ready() && w.Describes(w.Current()) && w.zoneBit == 1 && w.zoneEnd == 3 && w.nbits == 8
    ensures w.startTree == {Extent(0, 1), Extent(4, 1)} && 2 <= w.extentMax && w.uptodated != 1
  {
    hide WndBitmap.Geometry, WndBitmap.Counters, OpenMap, WndBitmap.MaxAttained, AllAre, Sound, WndBitmap.RightSettled;
    w := ZoneInFront();
    w.memory := Scarce;
    ghost var t := w.startTree;
    w.CountOfOne(Extent(0, 0));
    assert |{Extent(0, 1), Extent(4, 4)}| == 2;
    Bit5Free(w.disk);
    var clean;
    ghost var failed;
    clean, failed := w.SetUsed(5, 1);
    DroppedRight(w, t, failed);
    Bits6And7(w);
  }

  lemma Bit5Free(s: seq<bool>)
    requires s == [false, false, false, true, false, false, false, false]
    ensures AllAre(s, 5, 6, false)
  {
  }

  lemma DroppedRight(w: WndBitmap, t: set<Extent>, failed: bool)
    requires t == {Extent(0, 1), Extent(4, 4)} && w.MAX == 9 && w.memory == Scarce
    requires w.CutFrom(t, 5, 6, w.startTree, failed)
    ensures w.startTree == {Extent(0, 1), Extent(4, 1)} && 2 <= w.extentMax
  {
    assert Extent(4, 4) in t;
    assert |t| == 2;
    assert Extent(6, 2) in CutSet(t, Extent(4, 4), 5, 6);
  }

  /** Bits 6 and 7 are a run that is not indexed. */
  lemma Bits6And7(w: WndBitmap)
    requires w.ZoneInside() && w.nbits == 8 && w.zoneBit == 1 && w.zoneEnd == 3 && w.Describes(w.Current())
    requires w.disk == Fill([false, false, false, true, false, false, false, false], 5, 6, true)
    requires w.startTree == {Extent(0, 1), Extent(4, 1)}
    ensures w.uptodated != 1
  {
    w.MapBits(w.Current());
    assert MaximalRun(w.Current(), Extent(6, 2));
  }

  /**
    A search takes bits of the zone. It starts at the biggest extent of that stale index, bit 0, and
    lengthens it: the zone is no longer free, and the index offers a bit that is used.
   */
  method ZoneTaken() returns (w: WndBitmap, r: Answer)
    ensures r == IntoZone(0, 2) && !w.ZoneFree() && w.nbits <= |w.disk| && !Sound(w.startTree, w.Current())
  {
    hide WndBitmap.Geometry, WndBitmap.Counters, OpenMap, Sound, Complete, WndBitmap.IndexTrees, AllAre, HasRange,
         AllOpen;
    w := StaleBesideZone();
    assert w.Now().IsBiggest(Extent(0, 1));
    assert w.Now().ReachesZone(2, 0, false);
    var clean;
    ghost var failed;
    r, clean, failed := w.Find(2, 0, false, true);
  }

  /** An exact index of a bitmap whose first bit alone is free. */
  method FirstState() returns (w: WndBitmap)
    ensures fresh(w) && w.Ready() && w.Describes(w.Current()) && w.zoneBit == w.zoneEnd == 0 && w.nbits == 3
            && w.MAX == 3
    ensures w.disk == [false, true, true, true, true, true, true, true]
    ensures w.startTree == {Extent(0, 1)} && w.count == 1
  {
    hide WndBitmap.Geometry, WndBitmap.Counters, OpenMap, Complete, Sound;
    var blocks := [false, true, true, true, true, true, true, true];
    assert Base(8, 1) == 8 && Windows(8, 3) == 1;
    w := new WndBitmap(blocks, 3, 8, 3, Plenty);
    w.MapBits(w.Current());
    w.TwoRuns(w.Current());
  }

  /**
    Setting the zone loses it. From an exact index of the bitmap 0 1 1, bit 2 is freed with no memory
    for its node: the index holds bit 0 alone and is stale. Then there is memory again, and bit 0
    becomes the zone. The scan that follows the removal of the only extent knows nothing of the new
    zone: the index ends up to date, and offers the zone.
   */
  method ZoneLost() returns (w: WndBitmap, rescanned: bool)
    ensures rescanned && w.Ready() && w.zoneBit == 0 && w.zoneEnd == 1
    ensures w.uptodated == 1 && !Sound(w.startTree, w.Current())
  {
    hide WndBitmap.Geometry, WndBitmap.Counters, OpenMap, WndBitmap.MaxAttained, Sound, Complete;
    w := FirstState();
    w.memory := Scarce;
    ghost var failed := w.SetFree(2, 1);
    w.memory := Plenty;
    ghost var lost;
    rescanned, failed, lost := w.ZoneSet(0, 1);
    w.ZoneEmptyCut();
    w.MapBits(w.Uncut());
    w.TwoRuns(w.Uncut());
    w.ZoneMissed();
  }
}
