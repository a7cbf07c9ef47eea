/**
  wnd_scan of bitmap.c: first fit over a bitmap that is read one window at a time,
  with the free bits at the end of a window carried over to the next.
 */
module WndScan {
  import opened Extents
  import opened Bits
  import opened Kernel

  /** `s[pos]` starts `n` free bits. */
  ghost predicate FreeRun(s: seq<bool>, pos: int, n: nat) {
    AllAre(s, pos, pos + n, false)
  }

  /** No free run of the first `p` bits is longer than `m`. */
  ghost predicate NoneLonger(s: seq<bool>, p: nat, m: nat) {
    forall lo: int, hi: int :: 0 <= lo < hi <= p && AllAre(s, lo, hi, false) ==> hi - lo <= m
  }

  /** The `tail` bits before `p` are the exact free run that ends there. */
  ghost predicate Trailing(s: seq<bool>, p: nat, tail: nat) {
    tail <= p <= |s| && AllAre(s, p - tail, p, false) && (tail < p ==> s[p - tail - 1])
  }

  /** What is known when the first `p` bits were read without finding `toAlloc` free ones in a row. */
  ghost predicate ReadUpto(s: seq<bool>, p: nat, toAlloc: nat, tail: nat, bPos: nat, bLen: nat) {
    && Trailing(s, p, tail) && tail <= bLen < toAlloc
    && bPos + bLen <= p && AllAre(s, bPos, bPos + bLen, false) && NoneLonger(s, p, bLen)
  }

  /** Used bits after `p` end the run that was being read. */
  lemma SkipUsed(s: seq<bool>, p: nat, q: nat, toAlloc: nat, tail: nat, bPos: nat, bLen: nat)
    requires ReadUpto(s, p, toAlloc, tail, bPos, bLen) && p < q <= |s| && AllAre(s, p, q, true)
    ensures ReadUpto(s, q, toAlloc, 0, bPos, bLen)
  {
    forall lo: int, hi: int | 0 <= lo < hi <= q && AllAre(s, lo, hi, false)
      ensures hi - lo <= bLen
    {
      NoOverlap(s, lo, hi, p, q);
    }
  }

  /** Free bits [p, q), with a used bit or the end of what was read behind them. */
  lemma ReadFree(s: seq<bool>, p: nat, q: nat, toAlloc: nat, tail: nat, bPos: nat, bLen: nat, bPos': nat, bLen': nat)
    requires ReadUpto(s, p, toAlloc, tail, bPos, bLen) && p < q <= |s| && AllAre(s, p, q, false)
    requires var n := tail + (q - p); n < toAlloc && if bLen < n then bPos' == p - tail
             && bLen' == n else bPos' == bPos && bLen' == bLen
    ensures ReadUpto(s, q, toAlloc, tail + (q - p), bPos', bLen')
  {
    AllAreJoin(s, p - tail, p, q, false);
    forall lo: int, hi: int | 0 <= lo < hi <= q && AllAre(s, lo, hi, false)
      ensures hi - lo <= bLen'
    {
    }
  }

  /** Where the found run starts, no earlier run of that length exists. */
  lemma FirstOne(s: seq<bool>, p: nat, toAlloc: nat, tail: nat, bPos: nat, bLen: nat, q: int)
    requires ReadUpto(s, p, toAlloc, tail, bPos, bLen) && 0 <= q < p - tail
    ensures !FreeRun(s, q, toAlloc)
  {
  }

  /** wnd_scan on window [wbit, wbit + wend) of the bitmap `s`, from position `wpos0` of the window on. */
  method Scan(s: seq<bool>, wbit: nat, wpos0: nat, wend: nat, toAlloc: nat, tail0: nat, bPos0: nat, bLen0: nat)
    returns (found: Option<nat>, tail: nat, bPos: nat, bLen: nat)
    requires wpos0 <= wend && wbit + wend <= |s| && wend + toAlloc < TWO_32
    requires ReadUpto(s, wbit + wpos0, toAlloc, tail0, bPos0, bLen0)
    ensures found.Some? ==> FreeRun(s, found.value, toAlloc) && found.value + toAlloc <= wbit + wend
    ensures found.Some? ==> forall q :: 0 <= q < found.value ==> !FreeRun(s, q, toAlloc)
    ensures found.None? ==> ReadUpto(s, wbit + wend, toAlloc, tail, bPos, bLen)
  {
    hide ReadUpto, FreeRun;
    tail, bPos, bLen := tail0, bPos0, bLen0;
    var wpos: nat := wpos0;
    while wpos < wend
      invariant wpos <= wend && ReadUpto(s, wbit + wpos, toAlloc, tail, bPos, bLen)
      decreases wend - wpos
    {
      Facts(s, wbit + wpos, toAlloc, tail, bPos, bLen);
      var used := FindNext(s, wbit + wpos, wbit + wend, false);
      used := used - wbit;
      // the run carried over is never longer than the best one, so the two places
      // that would record it (lines 77-80 and 88-91) have nothing to do
      assert tail <= bLen;
      if used > wpos {
        SkipUsed(s, wbit + wpos, wbit + used, toAlloc, tail, bPos, bLen);
        wpos, tail := used, 0;
      }
      if used >= wend {
        return None, tail, bPos, bLen;
      }
      var freeBits, freeLen;
      freeBits, freeLen, bPos, bLen := ReadRun(s, wbit, wpos, wend, toAlloc, tail, bPos, bLen);
      if freeLen >= toAlloc {
        return Some(wbit + wpos - tail), tail, bPos, bLen;
      }
      tail := freeLen;
      if freeBits >= wend {
        return None, tail, bPos, bLen;
      }
      SkipUsed(s, wbit + freeBits, wbit + freeBits + 1, toAlloc, tail, bPos, bLen);
      wpos, tail := freeBits + 1, 0;
    }
    return None, tail, bPos, bLen;
  }

  /** Lines 99-107 of wnd_scan: read free bits from `wpos`, no more than are still wanted, and record the best. */
  method ReadRun(s: seq<bool>, wbit: nat, wpos: nat, wend: nat, toAlloc: nat, tail: nat, bPos0: nat, bLen0: nat)
    returns (freeBits: nat, freeLen: nat, bPos: nat, bLen: nat)
    requires wbit + wend <= |s| && wend + toAlloc < TWO_32 && wpos < wend
    requires ReadUpto(s, wbit + wpos, toAlloc, tail, bPos0, bLen0) && AllAre(s, wbit + wpos, wbit + wpos + 1, false)
    ensures wpos <= freeBits <= wend && tail <= wbit + wpos
    ensures freeLen >= toAlloc ==>
              wbit + wpos - tail + toAlloc <= wbit + wend && FreeRun(s, wbit + wpos - tail, toAlloc)
    ensures freeLen >= toAlloc ==> forall i :: 0 <= i < wbit + wpos - tail ==> !FreeRun(s, i, toAlloc)
    ensures freeLen < toAlloc ==> ReadUpto(s, wbit + freeBits, toAlloc, freeLen, bPos, bLen)
    ensures freeLen < toAlloc && freeBits < wend ==> AllAre(s, wbit + freeBits, wbit + freeBits + 1, true)
  {
    hide ReadUpto, FreeRun;
    Facts(s, wbit + wpos, toAlloc, tail, bPos0, bLen0);
    bPos, bLen := bPos0, bLen0;
    SmallDiv(wpos + toAlloc - tail, TWO_32);
    var end := (wpos + toAlloc - tail) % TWO_32;
    var at := FindNext(s, wbit + wpos, wbit + (if end < wend then end else wend), true);
    freeBits := at - wbit;
    freeLen := tail + freeBits - wpos;
    if bLen < freeLen {
      bPos, bLen := wbit + wpos - tail, freeLen;
    }
    if freeLen >= toAlloc {
      Fits(s, wbit + wpos, wbit + freeBits, toAlloc, tail, bPos0, bLen0);
    } else {
      ReadFree(s, wbit + wpos, wbit + freeBits, toAlloc, tail, bPos0, bLen0, bPos, bLen);
    }
  }

  lemma Facts(s: seq<bool>, p: nat, toAlloc: nat, tail: nat, bPos: nat, bLen: nat)
    requires ReadUpto(s, p, toAlloc, tail, bPos, bLen)
    ensures tail <= p <= |s| && tail <= bLen < toAlloc
  {
  }

  lemma Fits(s: seq<bool>, p: nat, q: nat, toAlloc: nat, tail: nat, bPos: nat, bLen: nat)
    requires ReadUpto(s, p, toAlloc, tail, bPos, bLen) && p <= q <= |s| && AllAre(s, p, q, false)
    requires tail + (q - p) == toAlloc
    ensures FreeRun(s, p - tail, toAlloc) && forall i :: 0 <= i < p - tail ==> !FreeRun(s, i, toAlloc)
  {
    AllAreJoin(s, p - tail, p, q, false);
    forall i | 0 <= i < p - tail
      ensures !FreeRun(s, i, toAlloc)
    {
      FirstOne(s, p, toAlloc, tail, bPos, bLen, i);
    }
  }

  /** Windows of the given sizes, fed in order from position 0: first fit over the whole bitmap. */
  method FirstFit(s: seq<bool>, sizes: seq<nat>, toAlloc: nat)
    returns (found: Option<nat>, tail: nat, bPos: nat, bLen: nat)
    requires 0 < toAlloc && Total(sizes) == |s| && forall k :: 0 <= k < |sizes| ==> sizes[k] + toAlloc < TWO_32
    ensures found.Some? ==> FreeRun(s, found.value, toAlloc) && forall q :: 0 <= q < found.value ==>
              !FreeRun(s, q, toAlloc)
    ensures found.None? ==> forall q :: !FreeRun(s, q, toAlloc)
    ensures found.None? ==> Trailing(s, |s|, tail) && NoneLonger(s, |s|, bLen) && FreeRun(s, bPos, bLen)
  {
    found, tail, bPos, bLen := None, 0, 0, 0;
    var k, wbit := 0, 0;
    while k < |sizes|
      invariant k <= |sizes| && wbit == Total(sizes[..k]) && wbit <= |s|
      invariant ReadUpto(s, wbit, toAlloc, tail, bPos, bLen)
    {
      TotalStep(sizes, k);
      found, tail, bPos, bLen := Scan(s, wbit, 0, sizes[k], toAlloc, tail, bPos, bLen);
      if found.Some? {
        return;
      }
      wbit, k := wbit + sizes[k], k + 1;
    }
    assert sizes[..k] == sizes;
    found := None;
    forall q
      ensures !FreeRun(s, q, toAlloc)
    {
      assert FreeRun(s, q, toAlloc) ==> AllAre(s, q, q + toAlloc, false);
    }
  }

  function Total(sizes: seq<nat>): nat {
    if sizes == [] then 0 else Total(sizes[..|sizes| - 1]) + sizes[|sizes| - 1]
  }

  lemma {:induction false} TotalStep(sizes: seq<nat>, k: nat)
    requires k < |sizes|
    ensures Total(sizes[..k + 1]) == Total(sizes[..k]) + sizes[k] <= Total(sizes)
    decreases |sizes| - k
  {
    assert sizes[..k + 1][..k] == sizes[..k];
    if k + 1 < |sizes| {
      TotalStep(sizes, k + 1);
    } else {
      assert sizes[..k + 1] == sizes;
    }
  }
}
