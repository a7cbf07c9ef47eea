/**
  attrib.c: compressed files. A file is cut into frames of `cf` clusters; each frame is a number of
  clusters with data followed by sparse clusters.
 */
module Frames {
  import opened Extents
  import opened Kernel
  import opened Bits
  import opened Runs
  import opened Clusters

  ghost predicate Data(rs: seq<Piece>, v: nat) {
    Find(rs, v).Some? && Find(rs, v).value.At?
  }

  ghost predicate Hole(rs: seq<Piece>, v: nat) {
    Find(rs, v) == Some(Sparse)
  }

  /** The frame [vcn, vcn + cf) is `k` clusters of data, then sparse. */
  ghost predicate Shaped(rs: seq<Piece>, vcn: nat, cf: nat, k: nat) {
    && k <= cf
    && (forall v: nat :: vcn <= v < vcn + k ==> Data(rs, v))
    && forall v: nat :: vcn + k <= v < vcn + cf ==> Hole(rs, v)
  }

  /** A frame has at most one shape. */
  lemma OneShape(rs: seq<Piece>, vcn: nat, cf: nat, j: nat, k: nat)
    requires Shaped(rs, vcn, cf, j) && Shaped(rs, vcn, cf, k)
    ensures j == k
  {
    hide Find;
    var m: nat := vcn + if j < k then j else k;
    assert j != k ==> Hole(rs, m);
    assert j != k ==> Data(rs, m);
  }

  /** Data behind a sparse cluster: the frame has no shape. */
  lemma NoShape(rs: seq<Piece>, vcn: nat, cf: nat, v: nat, w: nat, k: nat)
    requires vcn <= v < w < vcn + cf && Hole(rs, v) && Data(rs, w)
    ensures !Shaped(rs, vcn, cf, k)
  {
    hide Find;
    assert v < vcn + k ==> !Data(rs, v);
    assert vcn + k <= w ==> !Hole(rs, w);
  }

  lemma StraightData(rs: seq<Piece>, lo: nat, hi: nat, lcn: Lcn)
    requires Straight(rs, lo, hi, lcn)
    ensures lcn.At? ==> forall v: nat :: lo <= v < hi ==> Data(rs, v)
    ensures lcn.Sparse? ==> forall v: nat :: lo <= v < hi ==> Hole(rs, v)
  {
    hide Find;
  }

  /** What the answer of attr_is_frame_compressed must be for a frame that is mapped throughout. */
  ghost predicate FrameAnswer(rs: seq<Piece>, vcn: nat, cf: nat, err: int, data: nat) {
    && (err == 0 <==> Hole(rs, vcn) || exists k :: Shaped(rs, vcn, cf, k))
    && (err == 0 ==> if Hole(rs, vcn) then data == 0 else Shaped(rs, vcn, cf, data))
  }

  /**
    attr_is_frame_compressed: how many clusters of data the frame at `vcn0` has. It reports an error
    exactly when data follows a hole. `alen` is the allocated length of the file.
   */
  method IsFrameCompressed(run: RunsTree, compressed: bool, vcn0: nat, cf: nat, alen: nat) returns (err: int, data: nat)
    requires run.Valid() && 0 < cf
    ensures !compressed ==> err == 0 && data == 0
    ensures compressed && Find(run.runs, vcn0).None? ==> err == EINVAL
    ensures compressed && vcn0 + cf <= alen && Mapped(run.runs, vcn0, vcn0 + cf) ==>
              FrameAnswer(run.runs, vcn0, cf, err, data)
  {
    hide Find, Sorted, Straight, Mapped, Shaped;
    err, data := 0, 0;
    if !compressed {
      return;
    }
    var found, lcn, clen, idx := run.LookupEntry(vcn0);
    if !found {
      NotMapped(run.runs, vcn0, vcn0 + cf, vcn0);
      return EINVAL, 0;
    }
    PieceStraight(run.runs, idx, vcn0, vcn0 + clen);
    StraightData(run.runs, vcn0, vcn0 + clen, lcn);
    if lcn.Sparse? {
      assert Hole(run.runs, vcn0);
      return;
    }
    assert Data(run.runs, vcn0);
    if clen >= cf {
      AllData(run.runs, vcn0, cf);
      return 0, cf;
    }
    err, data := CountData(run, vcn0, cf, alen, clen, idx);
  }

  lemma AllData(rs: seq<Piece>, vcn: nat, cf: nat)
    requires forall v: nat :: vcn <= v < vcn + cf ==> Data(rs, v)
    ensures Shaped(rs, vcn, cf, cf)
  {
  }

  /** The loop over the following pieces, once the first piece turned out to be data and too short. */
  method CountData(run: RunsTree, vcn0: nat, cf: nat, alen: nat, clen0: nat, idx0: nat) returns (err: int, data: nat)
    requires run.Valid() && idx0 < |run.runs| && run.runs[idx0].Holds(vcn0) && run.runs[idx0].lcn.At?
    requires vcn0 + clen0 == run.runs[idx0].End() && 0 < clen0 < cf
    requires forall v: nat :: vcn0 <= v < vcn0 + clen0 ==> Data(run.runs, v)
    ensures vcn0 + cf <= alen && Mapped(run.runs, vcn0, vcn0 + cf) ==> FrameAnswer(run.runs, vcn0, cf, err, data)
  {
    hide Find, Sorted, Straight, Mapped, Shaped;
    var slen, idx, clen := 0, idx0, clen0;
    var vcn := vcn0 + clen;
    err, data := 0, clen;
    assert Data(run.runs, vcn0);
    while vcn < alen
      invariant 0 <= idx < |run.runs| && 0 <= slen && vcn == run.runs[idx].End() && vcn == vcn0 + data + slen
                && data + slen < cf
      invariant 0 < data && err == 0
      invariant forall v: nat :: vcn0 <= v < vcn0 + data ==> Data(run.runs, v)
      invariant forall v: nat :: vcn0 + data <= v < vcn ==> Hole(run.runs, v)
      decreases alen - vcn
    {
      var next := vcn;
      idx := idx + 1;
      if idx == |run.runs| || run.runs[idx].vcn != next {
        BehindPiece(run.runs, idx - 1);
        NotMapped(run.runs, vcn0, vcn0 + cf, next);
        return EINVAL, data;
      }
      var r := run.runs[idx];
      clen := r.len;
      SortedLen(run.runs, idx);
      PieceStraight(run.runs, idx, vcn, vcn + clen);
      StraightData(run.runs, vcn, vcn + clen, r.lcn);
      if r.lcn.Sparse? {
        slen := slen + clen;
      } else {
        if slen != 0 {
          Misshaped(run.runs, vcn0, cf, vcn0 + data, vcn);
          return EINVAL, data;
        }
        data := data + clen;
      }
      if data + slen >= cf {
        ShapeFound(run.runs, vcn0, cf, data, slen);
        if slen == 0 {
          data := cf;
        }
        return 0, data;
      }
      vcn := vcn + clen;
    }
  }

  lemma NotMapped(rs: seq<Piece>, lo: nat, hi: nat, v: nat)
    requires lo <= v < hi && Find(rs, v).None?
    ensures !Mapped(rs, lo, hi)
  {
  }

  lemma Misshaped(rs: seq<Piece>, vcn: nat, cf: nat, v: nat, w: nat)
    requires vcn < v < w < vcn + cf && Data(rs, vcn) && Hole(rs, v) && Data(rs, w)
    ensures FrameAnswer(rs, vcn, cf, EINVAL, 0) && forall d: nat :: FrameAnswer(rs, vcn, cf, EINVAL, d)
  {
    hide Find, Shaped;
    forall k: nat
      ensures !Shaped(rs, vcn, cf, k)
    {
      NoShape(rs, vcn, cf, v, w, k);
    }
  }

  lemma ShapeFound(rs: seq<Piece>, vcn: nat, cf: nat, data: nat, slen: nat)
    requires 0 < data && cf <= data + slen && (data < cf || slen == 0)
    requires forall v: nat :: vcn <= v < vcn + data ==> Data(rs, v)
    requires forall v: nat :: vcn + data <= v < vcn + data + slen ==> Hole(rs, v)
    ensures FrameAnswer(rs, vcn, cf, 0, if slen == 0 then cf else data)
  {
    hide Find;
    var k := if slen == 0 then cf else data;
    assert Shaped(rs, vcn, cf, k);
    assert Data(rs, vcn);
  }

  // ----- attr_allocate_frame

  /** bytes_to_cluster: the least number of clusters that hold `size` bytes. */
  function BytesToCluster(cs: nat, size: nat): (n: nat)
    requires 0 < cs
    ensures size <= n * cs && forall m: nat :: size <= m * cs ==> n <= m
  {
    var n := (size + cs - 1) / cs;
    DivBounds(size + cs - 1, cs);
    assert forall m: nat :: size <= m * cs ==> n <= m by {
      forall m: nat | size <= m * cs
        ensures n <= m
      {
        if m < n {
          MulOrder(m + 1, n, cs);
        }
      }
    }
    n
  }

  lemma DivBounds(x: nat, d: nat)
    requires 0 < d
    ensures 0 <= x / d && (x / d) * d <= x < (x / d) * d + d
  {
  }

  lemma MulOrder(a: nat, b: nat, d: nat)
    requires a <= b
    ensures a * d <= b * d && (a - 1) * d == a * d - d
  {
  }

  /** The file's clusters are distinct, and all of them are marked used. */
  ghost predicate Owned(bits: seq<bool>, rs: seq<Piece>) {
    && (forall v: nat :: Data(rs, v) ==> Find(rs, v).value.n < |bits| && bits[Find(rs, v).value.n])
    && forall v: nat, w: nat :: Data(rs, v) && Data(rs, w) && Find(rs, v) == Find(rs, w) ==> v == w
  }

  lemma {:induction false} OnDiskSplit(rs: seq<Piece>, lo: nat, mid: nat, hi: nat)
    requires lo <= mid <= hi
    ensures OnDisk(rs, lo, hi) == OnDisk(rs, lo, mid) + OnDisk(rs, mid, hi)
    decreases hi
  {
    if mid < hi {
      OnDiskSplit(rs, lo, mid, hi - 1);
    }
  }

  lemma {:induction false} OnDiskAlike(a: seq<Piece>, b: seq<Piece>, lo: nat, hi: nat)
    requires forall v: nat :: lo <= v < hi ==> Find(a, v) == Find(b, v)
    ensures OnDisk(a, lo, hi) == OnDisk(b, lo, hi)
    decreases hi
  {
    if lo < hi {
      OnDiskAlike(a, b, lo, hi - 1);
    }
  }

  lemma {:induction false} OnDiskData(rs: seq<Piece>, lo: nat, hi: nat)
    requires lo <= hi
    ensures (forall v: nat :: lo <= v < hi ==> Data(rs, v)) ==> OnDisk(rs, lo, hi) == hi - lo
    ensures (forall v: nat :: lo <= v < hi ==> Hole(rs, v)) ==> OnDisk(rs, lo, hi) == 0
    decreases hi
  {
    if lo < hi {
      OnDiskData(rs, lo, hi - 1);
      var last := (Data(rs, hi - 1), Hole(rs, hi - 1));
    }
  }

  lemma ShapeOnDisk(rs: seq<Piece>, vcn: nat, cf: nat, k: nat)
    requires Shaped(rs, vcn, cf, k)
    ensures OnDisk(rs, vcn, vcn + cf) == k
  {
    hide Find;
    OnDiskSplit(rs, vcn, vcn + k, vcn + cf);
    OnDiskData(rs, vcn, vcn + k);
    OnDiskData(rs, vcn + k, vcn + cf);
  }

  /** Reshaping one frame changes the number of clusters on disk by the difference of the shapes. */
  lemma Reshaped(rs: seq<Piece>, rs1: seq<Piece>, vcn: nat, cf: nat, n: nat, j: nat, k: nat)
    requires vcn + cf <= n && Shaped(rs, vcn, cf, j) && Shaped(rs1, vcn, cf, k)
    requires AlikeOutside(rs1, rs, vcn, vcn + cf)
    ensures OnDisk(rs1, 0, n) == OnDisk(rs, 0, n) - j + k
  {
    hide Find, Shaped;
    ShapeOnDisk(rs, vcn, cf, j);
    ShapeOnDisk(rs1, vcn, cf, k);
    OnDiskSplit(rs, 0, vcn, n);
    OnDiskSplit(rs, vcn, vcn + cf, n);
    OnDiskSplit(rs1, 0, vcn, n);
    OnDiskSplit(rs1, vcn, vcn + cf, n);
    OnDiskAlike(rs1, rs, 0, vcn);
    OnDiskAlike(rs1, rs, vcn + cf, n);
  }

  /** The frame gives its last clusters of data back: they become sparse. */
  lemma Shrunk(b0: seq<bool>, b1: seq<bool>, rs: seq<Piece>, rs1: seq<Piece>, vcn: nat, cf: nat, j: nat, k: nat)
    requires Shaped(rs, vcn, cf, j) && k < j && Freed(b0, b1, rs, vcn + k, vcn + j)
    requires var p := Piece(vcn + k, j - k, Sparse);
             forall v: nat :: Find(rs1, v) == if p.Holds(v) then Some(p.Loc(v)) else Find(rs, v)
    ensures Shaped(rs1, vcn, cf, k) && AlikeOutside(rs1, rs, vcn, vcn + cf)
    ensures Owned(b0, rs) ==> Owned(b1, rs1)
  {
    hide Find;
    forall v: nat
      ensures Data(rs1, v) ==> Data(rs, v) && Find(rs1, v) == Find(rs, v) && !(vcn + k <= v < vcn + j)
      ensures vcn <= v < vcn + k ==> Data(rs1, v)
      ensures vcn + k <= v < vcn + cf ==> Hole(rs1, v)
    {
      assert vcn <= v < vcn + k ==> Data(rs, v);
      assert vcn + j <= v < vcn + cf ==> Hole(rs, v);
    }
    if Owned(b0, rs) {
      forall v: nat | Data(rs1, v)
        ensures Find(rs1, v).value.n < |b1| && b1[Find(rs1, v).value.n]
      {
        var c := Find(rs, v).value.n;
      }
    }
  }

  /** The frame gets new clusters of data behind the ones it has. */
  lemma Grown(b0: seq<bool>, b1: seq<bool>, rs: seq<Piece>, rs1: seq<Piece>, vcn: nat, cf: nat, j: nat, cs: seq<nat>)
    requires Shaped(rs, vcn, cf, j) && j + |cs| <= cf && Fresh(b0, cs) && Taken(b0, b1, cs)
    requires Placed(rs1, vcn + j, cs) && AlikeOutside(rs1, rs, vcn + j, vcn + j + |cs|)
    ensures Shaped(rs1, vcn, cf, j + |cs|) && AlikeOutside(rs1, rs, vcn, vcn + cf)
    ensures Owned(b0, rs) ==> Owned(b1, rs1)
  {
    hide Find;
    forall v: nat
      ensures vcn + j <= v < vcn + j + |cs| ==> Find(rs1, v) == Some(At(cs[v - (vcn + j)]))
      ensures vcn <= v < vcn + j + |cs| ==> Data(rs1, v)
      ensures vcn + j + |cs| <= v < vcn + cf ==> Hole(rs1, v)
    {
      assert vcn <= v < vcn + j ==> Data(rs, v);
      assert vcn + j + |cs| <= v < vcn + cf ==> Hole(rs, v);
      assert vcn + j <= v < vcn + j + |cs| ==> cs[v - (vcn + j)] in cs;
    }
    if Owned(b0, rs) {
      GrownOwned(b0, b1, rs, rs1, vcn + j, cs);
    }
  }

  lemma GrownOwned(b0: seq<bool>, b1: seq<bool>, rs: seq<Piece>, rs1: seq<Piece>, at: nat, cs: seq<nat>)
    requires Owned(b0, rs) && Fresh(b0, cs) && Taken(b0, b1, cs)
    requires AlikeOutside(rs1, rs, at, at + |cs|)
    requires forall v: nat :: at <= v < at + |cs| ==> Find(rs1, v) == Some(At(cs[v - at]))
    ensures Owned(b1, rs1)
  {
    hide Find;
    forall v: nat | Data(rs1, v)
      ensures Find(rs1, v).value.n < |b1| && b1[Find(rs1, v).value.n]
      ensures b0[Find(rs1, v).value.n] <==> !(at <= v < at + |cs|)
    {
      if at <= v < at + |cs| {
        assert cs[v - at] in cs;
      } else {
        assert Data(rs, v);
      }
    }
    forall v: nat, w: nat | Data(rs1, v) && Data(rs1, w) && Find(rs1, v) == Find(rs1, w)
      ensures v == w
    {
      if at <= v < at + |cs| {
        assert at <= w < at + |cs|;
      } else {
        assert !(at <= w < at + |cs|);
        assert Data(rs, v) && Data(rs, w);
      }
    }
  }

  lemma SizeChange(a: nat, j: nat, k: nat, cs: nat)
    requires j <= a
    ensures 0 <= a * cs - j * cs && a * cs - j * cs + k * cs == (a - j + k) * cs
  {
    MulOrder(j, a, cs);
  }

  /** The data attribute of a compressed file, `alen` clusters long. */
  class File {
    var run: RunsTree
    var totalSize: nat
    const alen: nat
    const cf: nat
    const clusterSize: nat

    constructor (r: RunsTree, total: nat, n: nat, frame: nat, size: nat)
      ensures run == r && totalSize == total && alen == n && cf == frame && clusterSize == size
    {
      run, totalSize, alen, cf, clusterSize := r, total, n, frame, size;
    }

    /** total_size is the size of what is on disk. */
    ghost predicate Accounted()
      reads this, run
    {
      totalSize == OnDisk(run.runs, 0, alen) * clusterSize
    }

    /** The part of attr_allocate_frame that gives clusters back: [vcn + len, vcn + data) becomes sparse. */
    method ShrinkFrame(vol: Volume, vcn: nat, data: nat, len: nat) returns (err: int)
      requires run.Valid() && len < data && Shaped(run.runs, vcn, cf, data)
      modifies vol`bits, run`runs
      ensures run.Valid()
      ensures Freed(old(vol.bits), vol.bits, old(run.runs), vcn + len, vcn + data)
      ensures err == 0 || (err == ENOMEM && run.memory != Plenty)
      ensures err != 0 ==> forall v: nat :: v < vcn + len ==> Find(run.runs, v) == Find(old(run.runs), v)
      ensures err == 0 ==> Shaped(run.runs, vcn, cf, len) && AlikeOutside(run.runs, old(run.runs), vcn, vcn + cf)
      ensures err == 0 && Owned(old(vol.bits), old(run.runs)) ==> Owned(vol.bits, run.runs)
    {
      hide Find, Sorted, Shaped, Freed, Owned, AlikeOutside;
      ghost var rs, b0 := run.runs, vol.bits;
      ShapeMapped(rs, vcn, cf, data, len);
      var dn;
      ghost var till;
      err, dn, till := Deallocate(vol, run, vcn + len, data - len);
      ghost var bound := SomeBound(rs, vcn + data);
      var ok := run.AddEntry(Piece(vcn + len, data - len, Sparse), bound);
      if !ok {
        return ENOMEM;
      }
      Shrunk(b0, vol.bits, rs, run.runs, vcn, cf, data, len);
    }

    /** The part that allocates: [vcn + data, vcn + len) gets clusters of its own. */
    method GrowFrame(vol: Volume, vcn: nat, data: nat, len: nat) returns (err: int, ghost cs: seq<nat>)
      requires run.Valid() && data < len <= cf && Shaped(run.runs, vcn, cf, data)
      modifies vol`bits, run`runs
      ensures run.Valid()
      ensures err == 0 ==> |cs| == len - data && Fresh(old(vol.bits), cs) && Taken(old(vol.bits), vol.bits, cs)
      ensures err == 0 ==> Shaped(run.runs, vcn, cf, len) && AlikeOutside(run.runs, old(run.runs), vcn, vcn + cf)
      ensures err == 0 && Owned(old(vol.bits), old(run.runs)) ==> Owned(vol.bits, run.runs)
      ensures err != 0 ==> vol.bits == old(vol.bits)
      ensures err != 0 ==> forall v: nat :: v < vcn + data ==> Find(run.runs, v) == Find(old(run.runs), v)
      ensures err != 0 && cs != [] ==> EmptyFrom(run.runs, vcn + data)
      ensures vol.willing && run.memory == Plenty && len - data <= Zeroes(old(vol.bits), 0, |old(vol.bits)|) ==>
                err == 0
    {
      hide Find, Sorted, Shaped, Freed, Owned, AlikeOutside, Fresh, Taken, Placed, EmptyFrom;
      ghost var rs, b0 := run.runs, vol.bits;
      var alen', lcn, pre;
      err, alen', lcn, pre, cs := Allocate(vol, run, vcn + data, len - data, 0, false, 0);
      if err == 0 {
        Grown(b0, vol.bits, rs, run.runs, vcn, cf, data, cs);
      }
    }

    /**
      attr_allocate_frame, up to the packing of the run: the frame at `vcn` gets as many clusters of
      data as `comprSize` bytes need, the rest of it is sparse. `k` is the shape it has before.
     */
    method AllocateFrame(vol: Volume, vcn: nat, comprSize: nat, ghost k: nat) returns (err: int, ghost cs: seq<nat>)
      requires run.Valid() && 0 < cf && 0 < clusterSize && vcn + cf <= alen && comprSize <= cf * clusterSize
      requires Shaped(run.runs, vcn, cf, k) && Accounted()
      modifies this`totalSize, vol`bits, run`runs
      ensures run == old(run) && run.Valid()
      ensures err == 0 ==> Accounted() && Shaped(run.runs, vcn, cf, BytesToCluster(clusterSize, comprSize))
      ensures err == 0 ==> AlikeOutside(run.runs, old(run.runs), vcn, vcn + cf)
      ensures err == 0 && Owned(old(vol.bits), old(run.runs)) ==> Owned(vol.bits, run.runs)
      ensures var len := BytesToCluster(clusterSize, comprSize);
              if len < k then Freed(old(vol.bits), vol.bits, old(run.runs), vcn + len, vcn + k)
              else if err == 0 then |cs| == len - k && Fresh(old(vol.bits), cs) && Taken(old(vol.bits), vol.bits, cs)
              else vol.bits == old(vol.bits)
      ensures err != 0 ==> totalSize == old(totalSize)
      ensures var len := BytesToCluster(clusterSize, comprSize);
              && (len <= k && run.memory == Plenty ==> err == 0)
              && (vol.willing && run.memory == Plenty && len - k <= Zeroes(old(vol.bits), 0, |old(vol.bits)|) ==>
                  err == 0)
      ensures var len := BytesToCluster(clusterSize, comprSize);
              err != 0 ==> forall v: nat :: v < vcn + (if len < k then len else k) ==>
                  Find(run.runs, v) == Find(old(run.runs), v)
    {
      hide Find, Sorted, Shaped, Freed, Owned, AlikeOutside, Fresh, Taken, Mapped, OnDisk;
      cs := [];
      ghost var rs := run.runs;
      var data;
      FrameMapped(rs, vcn, cf, k);
      err, data := IsFrameCompressed(run, true, vcn, cf, alen);
      OnlyAnswer(rs, vcn, cf, k, err, data);
      ShapeFits(rs, vcn, cf, k, alen);
      ghost var before := OnDisk(rs, 0, alen);
      var len := BytesToCluster(clusterSize, comprSize);
      SizeChange(before, data, len, clusterSize);
      var total: nat := totalSize - data * clusterSize;
      NothingTaken(vol.bits, vol.bits, cs);
      NothingPlaced(rs, vcn);
      if len == data {
        SameOutside(rs, vcn, vcn + cf);
        return;
      }
      if len < data {
        err := ShrinkFrame(vol, vcn, data, len);
      } else {
        err, cs := GrowFrame(vol, vcn, data, len);
      }
      if err == 0 {
        totalSize := total + len * clusterSize;
        Reshaped(rs, run.runs, vcn, cf, alen, data, len);
      }
    }
  }

  lemma SameOutside(rs: seq<Piece>, lo: nat, hi: nat)
    ensures AlikeOutside(rs, rs, lo, hi)
  {
  }

  lemma FrameMapped(rs: seq<Piece>, vcn: nat, cf: nat, k: nat)
    requires Shaped(rs, vcn, cf, k)
    ensures Mapped(rs, vcn, vcn + cf)
  {
    hide Find;
    forall v: nat | vcn <= v < vcn + cf
      ensures Find(rs, v).Some?
    {
      assert if v < vcn + k then Data(rs, v) else Hole(rs, v);
    }
  }

  /** Of a frame with shape `k`, the answer can only be `k`. */
  lemma OnlyAnswer(rs: seq<Piece>, vcn: nat, cf: nat, k: nat, err: int, data: nat)
    requires 0 < cf && Shaped(rs, vcn, cf, k) && FrameAnswer(rs, vcn, cf, err, data)
    ensures err == 0 && data == k
  {
    hide Find;
    if Hole(rs, vcn) {
      assert 0 < k ==> Data(rs, vcn);
    } else {
      OneShape(rs, vcn, cf, data, k);
    }
  }

  /** The data of one frame is part of the data of the file. */
  lemma ShapeFits(rs: seq<Piece>, vcn: nat, cf: nat, k: nat, n: nat)
    requires Shaped(rs, vcn, cf, k) && vcn + cf <= n
    ensures k <= OnDisk(rs, 0, n)
  {
    hide Find, Shaped;
    ShapeOnDisk(rs, vcn, cf, k);
    OnDiskSplit(rs, 0, vcn, n);
    OnDiskSplit(rs, vcn, vcn + cf, n);
  }

  lemma ShapeMapped(rs: seq<Piece>, vcn: nat, cf: nat, k: nat, from: nat)
    requires Shaped(rs, vcn, cf, k)
    ensures Mapped(rs, vcn + from, vcn + k)
  {
    hide Find;
    forall v: nat | vcn + from <= v < vcn + k
      ensures Find(rs, v).Some?
    {
      assert Data(rs, v);
    }
  }
}
