/**
  The bitmap itself: a sequence of flags (true = used), counting of free bits,
  and the kernel's bit-range helpers.
 */
module Bits {
  import opened Extents

  /** Number of free (zero) bits in [lo, hi). */
  function Zeroes(s: seq<bool>, lo: int, hi: int): nat
    decreases hi - lo
  {
    if 0 <= lo < hi <= |s| then Zeroes(s, lo, hi - 1) + (if s[hi - 1] then 0 else 1) else 0
  }

  /** `s` with the bits [lo, hi) set to `v`: __bitmap_set and __bitmap_clear. */
  function Fill(s: seq<bool>, lo: nat, hi: nat, v: bool): (r: seq<bool>)
    requires lo <= hi <= |s|
    ensures |r| == |s|
    ensures forall i :: 0 <= i < |s| ==> r[i] == if lo <= i < hi then v else s[i]
  {
    s[..lo] + seq(hi - lo, _ => v) + s[hi..]
  }

  /** The open map of a bitmap with the zone [zb, ze) cut out. */
  function OpenMap(bits: seq<bool>, zb: nat, ze: nat): (o: seq<bool>)
    ensures |o| == |bits|
    ensures forall i :: Open(o, i) <==> 0 <= i < |bits| && !bits[i] && !(zb <= i < ze)
  {
    seq(|bits|, i requires 0 <= i < |bits| => !bits[i] && !(zb <= i < ze))
  }

  /** The bits [lo, hi) are all `v`. */
  ghost predicate AllAre(s: seq<bool>, lo: int, hi: int, v: bool) {
    0 <= lo && hi <= |s| && forall i :: lo <= i < hi ==> s[i] == v
  }

  lemma AllAreJoin(s: seq<bool>, lo: int, mid: int, hi: int, v: bool)
    requires 0 <= lo <= mid <= hi <= |s|
    ensures AllAre(s, lo, hi, v) <==> AllAre(s, lo, mid, v) && AllAre(s, mid, hi, v)
  {
  }

  /** A free stretch and a used stretch do not overlap. */
  lemma NoOverlap(s: seq<bool>, lo: int, hi: int, p: int, q: int)
    requires AllAre(s, lo, hi, false) && AllAre(s, p, q, true) && lo < hi && p < q
    ensures hi <= p || q <= lo
  {
    var atLo := if 0 <= lo < |s| then s[lo] else false;
    var atP := if 0 <= p < |s| then s[p] else true;
  }

  lemma NothingThere(s: seq<bool>, p: nat, v: bool)
    requires p <= |s|
    ensures AllAre(s, p, p, v)
  {
  }

  lemma AllAreWithin(s: seq<bool>, lo: int, hi: int, a: int, b: int, v: bool)
    requires AllAre(s, lo, hi, v) && lo <= a <= b <= hi
    ensures AllAre(s, a, b, v)
  {
  }

  /** The first bit of window `iw`: iw << (s_blocksize_bits + 3), as the running sum the scans keep. */
  function Base(w: nat, iw: nat): nat {
    if iw == 0 then 0 else Base(w, iw - 1) + w
  }

  lemma {:induction false} BaseOrder(w: nat, a: nat, b: nat)
    requires a < b
    ensures Base(w, a) + w <= Base(w, b)
    decreases b
  {
    if a + 1 < b {
      BaseOrder(w, a, b - 1);
    }
  }

  /** Quotient and remainder of a position name its window and the offset in it. */
  lemma {:induction false} BaseOf(w: nat, pos: nat)
    requires 0 < w
    ensures 0 <= pos / w && Base(w, pos / w) + pos % w == pos && pos % w < w
    decreases pos
  {
    if w <= pos {
      assert (pos - w) / w == pos / w - 1 && (pos - w) % w == pos % w by {
        DivStep(pos - w, w);
      }
      BaseOf(w, pos - w);
    } else {
      assert pos / w == 0 && pos % w == pos by { SmallDiv(pos, w); }
    }
  }

  lemma SmallDiv(x: nat, w: nat)
    requires x < w
    ensures x / w == 0 && x % w == x
  {
  }

  lemma DivStep(x: nat, w: nat)
    requires 0 < w
    ensures (x + w) / w == x / w + 1 && (x + w) % w == x % w
  {
    var q, r := x / w, x % w;
    assert x + w == (q + 1) * w + r;
    DivUnique(x + w, w, q + 1, r);
  }

  lemma DivUnique(x: nat, w: nat, q: nat, r: nat)
    requires 0 < w && x == q * w + r && r < w
    ensures x / w == q && x % w == r
  {
    var q', r' := x / w, x % w;
    assert q' * w + r' == q * w + r;
    assert q < q' ==> (q + 1) * w <= q' * w;
    assert q' < q ==> (q' + 1) * w <= q * w;
  }

  lemma {:induction false} ZeroesSplit(s: seq<bool>, lo: nat, mid: nat, hi: nat)
    requires lo <= mid <= hi <= |s|
    ensures Zeroes(s, lo, hi) == Zeroes(s, lo, mid) + Zeroes(s, mid, hi)
    decreases hi
  {
    if mid < hi {
      ZeroesSplit(s, lo, mid, hi - 1);
    }
  }

  lemma {:induction false} ZeroesSame(s: seq<bool>, t: seq<bool>, lo: nat, hi: nat)
    requires hi <= |s| && hi <= |t| && forall i :: lo <= i < hi ==> s[i] == t[i]
    ensures Zeroes(s, lo, hi) == Zeroes(t, lo, hi)
    decreases hi
  {
    if lo < hi {
      ZeroesSame(s, t, lo, hi - 1);
    }
  }

  /** The two cached counts that let a scan skip a window say exactly what the skip assumes. */
  lemma {:induction false} ZeroesExtremes(s: seq<bool>, lo: nat, hi: nat)
    requires lo <= hi <= |s|
    ensures Zeroes(s, lo, hi) <= hi - lo
    ensures Zeroes(s, lo, hi) == 0 <==> AllAre(s, lo, hi, true)
    ensures Zeroes(s, lo, hi) == hi - lo <==> AllAre(s, lo, hi, false)
    decreases hi
  {
    if lo < hi {
      ZeroesExtremes(s, lo, hi - 1);
      AllAreJoin(s, lo, hi - 1, hi, true);
      AllAreJoin(s, lo, hi - 1, hi, false);
    }
  }

  /** Clearing `hi - lo` used bits (or setting as many free bits) moves the count by that many. */
  lemma ZeroesFill(s: seq<bool>, a: nat, b: nat, lo: nat, hi: nat, v: bool)
    requires a <= lo <= hi <= b <= |s|
    requires AllAre(s, lo, hi, !v)
    ensures Zeroes(Fill(s, lo, hi, v), a, b) == Zeroes(s, a, b) + if v then lo - hi else hi - lo
  {
    var r := Fill(s, lo, hi, v);
    ZeroesSplit(s, a, lo, b);
    ZeroesSplit(s, lo, hi, b);
    ZeroesSplit(r, a, lo, b);
    ZeroesSplit(r, lo, hi, b);
    ZeroesSame(r, s, a, lo);
    ZeroesSame(r, s, hi, b);
    ZeroesExtremes(s, lo, hi);
    ZeroesExtremes(r, lo, hi);
  }

  lemma FreeRangeCounted(s: seq<bool>, lo: nat, hi: nat, a: nat, b: nat)
    requires lo <= a <= b <= hi <= |s|
    requires AllAre(s, a, b, false)
    ensures b - a <= Zeroes(s, lo, hi)
  {
    ZeroesSplit(s, lo, a, hi);
    ZeroesSplit(s, a, b, hi);
    ZeroesExtremes(s, a, b);
  }

  /** Two disjoint free ranges are both counted. */
  lemma TwoFreeRanges(s: seq<bool>, n: nat, a: nat, b: nat, c: nat, d: nat)
    requires a <= b <= c <= d <= n <= |s|
    requires AllAre(s, a, b, false) && AllAre(s, c, d, false)
    ensures (b - a) + (d - c) <= Zeroes(s, 0, n)
  {
    ZeroesSplit(s, 0, b, n);
    FreeRangeCounted(s, 0, b, a, b);
    FreeRangeCounted(s, b, n, c, d);
  }

  /** find_next_zero_bit (v = false) and find_next_bit (v = true) on [lo, hi). */
  method FindNext(s: seq<bool>, lo: nat, hi: nat, v: bool) returns (p: nat)
    requires hi <= |s|
    ensures lo <= hi ==> lo <= p <= hi
    ensures hi < lo ==> p == hi
    ensures p < hi ==> s[p] == v
    ensures forall i :: lo <= i < p ==> s[i] != v
    ensures lo <= hi ==> AllAre(s, lo, p, !v)
    ensures p < hi ==> AllAre(s, p, p + 1, v)
  {
    if hi <= lo {
      return hi;
    }
    p := lo;
    while p < hi && s[p] != v
      invariant lo <= p <= hi
      invariant forall i :: lo <= i < p ==> s[i] != v
    {
      p := p + 1;
    }
  }

  lemma FillNothing(s: seq<bool>, p: nat, v: bool)
    requires p <= |s|
    ensures Fill(s, p, p, v) == s
  {
  }

  /** Filling [lo, mid), then [mid, to), of which the rest up to `hi` is still to be done. */
  lemma FillMore(s0: seq<bool>, s: seq<bool>, lo: nat, mid: nat, to: nat, hi: nat, v: bool)
    requires lo <= mid <= to <= hi <= |s0| && s == Fill(s0, lo, mid, v) && AllAre(s, mid, hi, !v)
    ensures Fill(s, mid, to, v) == Fill(s0, lo, to, v)
    ensures AllAre(s, mid, to, !v) && AllAre(Fill(s, mid, to, v), to, hi, !v)
  {
  }
}
