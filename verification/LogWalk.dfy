/**
  fslog.c: positions in the log. The log is a ring of pages; a record starts somewhere in the data
  area of a page and goes on in the data areas of the following pages. An LSN holds a position (in
  units of 8 bytes) in its low bits and a sequence number, the count of rounds, in its high bits.
 */
module LogWalk {
  import opened Bits
  import opened Extents
  import opened Kernel

  // ----- powers of two

  function Pow2(n: nat): (r: nat)
    ensures 0 < r
  {
    if n == 0 then 1 else 2 * Pow2(n - 1)
  }

  lemma {:induction false} Pow2Add(a: nat, b: nat)
    ensures Pow2(a + b) == Pow2(a) * Pow2(b)
    decreases b
  {
    if b != 0 {
      Pow2Add(a, b - 1);
      Shuffle(Pow2(a), Pow2(b - 1));
    }
  }

  lemma Shuffle(x: nat, y: nat)
    ensures 2 * (x * y) == x * (2 * y)
  {
  }

  lemma Pow2Small()
    ensures Pow2(3) == 8 && Pow2(4) == 16
  {
  }

  lemma Pow2Words()
    ensures Pow2(3) == 8 && Pow2(32) == TWO_32 && Pow2(64) == TWO_64
  {
    hide Pow2;
    Pow2Small();
    Pow2Add(4, 4);
    Pow2Add(8, 8);
    Pow2Add(16, 16);
    Pow2Add(32, 32);
  }

  /** A remainder of a remainder: the smaller modulus divides the larger one. */
  lemma ModMod(x: nat, d: nat, k: nat)
    requires 0 < d && 0 < k
    ensures 0 < d * k && (x % (d * k)) % d == x % d
  {
    assert 0 < d * k;
    var q, r := x / (d * k), x % (d * k);
    var q1, r1 := r / d, r % d;
    assert x == q * (d * k) + r && r == q1 * d + r1;
    Regroup(q, d, k, q1);
    assert 0 <= q && 0 <= q1;
    assert 0 <= q * k + q1;
    DivUnique(x, d, q * k + q1, r1);
  }

  lemma Regroup(q: int, d: int, k: int, q1: int)
    ensures q * (d * k) + q1 * d == (q * k + q1) * d
  {
  }

  /** Scaling both sides scales the remainder. */
  lemma ModScale(x: nat, m: nat, c: nat)
    requires 0 < m && 0 < c
    ensures 0 < m * c && (x * c) % (m * c) == (x % m) * c
  {
    var q, r := x / m, x % m;
    assert x == q * m + r;
    assert r * c < m * c by { Less(r, m, c); }
    assert x * c == q * (m * c) + r * c by { Spread(q, m, r, c); }
    DivUnique(x * c, m * c, q, r * c);
  }

  lemma Less(r: nat, m: nat, c: nat)
    requires r < m && 0 < c
    ensures r * c < m * c
  {
  }

  lemma Spread(q: nat, m: nat, r: nat, c: nat)
    ensures (q * m + r) * c == q * (m * c) + r * c
  {
  }

  lemma AddMultiple(x: nat, k: nat, d: nat)
    requires 0 < d
    ensures (x + k * d) % d == x % d && (x + k * d) / d == x / d + k
  {
    var q, r := x / d, x % d;
    assert x + k * d == (q + k) * d + r;
    DivUnique(x + k * d, d, q + k, r);
  }

  lemma Cancel(x: nat, a: nat, b: nat)
    requires 0 < b
    ensures (x * (a * b)) / b == x * a
  {
    assert x * (a * b) == (x * a) * b;
    DivUnique(x * (a * b), b, x * a, 0);
  }

  // ----- the log's geometry

  /**
    The fields of struct ntfs_log that positions depend on: file_data_bits, page_bits, l_size,
    first_page, data_off, record_header_len, oldest_lsn and the restart area's current_lsn.
   */
  datatype Log = Log(fdb: nat, pb: nat, size: nat, first: nat, dataOff: nat, hdrLen: nat, oldest: nat, current: nat) {
    function Quads(): nat { Pow2(fdb) }
    function Page(): nat { Pow2(pb) }

    predicate WellFormed() {
      && 3 <= pb <= fdb + 3 <= 31
      && size % Page() == 0 && first % Page() == 0 && 0 < first < size <= 8 * Quads()
      && dataOff % 8 == 0 && 0 < dataOff < Page() && hdrLen < TWO_16
    }
  }

  function Quotient(x: nat, d: nat): (q: nat)
    requires 0 < d
    ensures q == x / d
  {
    QuotNat(x, d);
    x / d
  }

  lemma QuotNat(x: nat, d: nat)
    requires 0 < d
    ensures 0 <= x / d
  {
  }

  function U32(x: nat): nat { x % TWO_32 }
  function U64(x: nat): nat { x % TWO_64 }

  /** lsn_to_vbo, with its two shifts of a 64-bit word. */
  function LsnToVbo(g: Log, lsn: nat): nat
    requires g.WellFormed()
  {
    U32(Quotient(U64(lsn * Pow2(64 - g.fdb)), Pow2(61 - g.fdb)))
  }

  /** vbo_to_lsn. */
  function VboToLsn(g: Log, off: nat, seq_: nat): nat
    requires g.WellFormed()
  {
    U64(off / 8 + U64(seq_ * Pow2(g.fdb)))
  }

  /** The low bits of the LSN are the position, in units of 8 bytes. */
  lemma VboOfLsn(g: Log, lsn: nat)
    requires g.WellFormed()
    ensures LsnToVbo(g, lsn) == 8 * (lsn % g.Quads()) < 8 * g.Quads() <= 0x8000_0000
  {
    hide Pow2;
    Pow2Words();
    Pow2Add(g.fdb, 64 - g.fdb);
    Pow2Add(3, 61 - g.fdb);
    Shifts(lsn, g.Quads(), Pow2(64 - g.fdb), Pow2(61 - g.fdb));
    RoundBound(g.fdb);
    InRound(lsn, g.Quads());
  }

  lemma InRound(lsn: nat, s: nat)
    requires 0 < s && 8 * s <= 0x8000_0000
    ensures U32(8 * (lsn % s)) == 8 * (lsn % s) < 8 * s
  {
    SmallDiv(8 * (lsn % s), TWO_32);
  }

  lemma Shifts(lsn: nat, s: nat, hi: nat, lo: nat)
    requires 0 < s && s * hi == TWO_64 && hi == 8 * lo && 0 < lo
    ensures U64(lsn * hi) / lo == 8 * (lsn % s)
  {
    ModScale(lsn, s, hi);
    Cancel(lsn % s, 8, lo);
  }

  lemma RoundBound(fdb: nat)
    requires fdb <= 28
    ensures 8 * Pow2(fdb) <= 0x8000_0000
  {
    hide Pow2;
    Pow2Grows(fdb, 28);
    Pow2Small();
    Pow2Add(4, 3);
    Pow2Add(7, 7);
    Pow2Add(14, 14);
  }

  lemma {:induction false} Pow2Grows(a: nat, b: nat)
    requires a <= b
    ensures Pow2(a) <= Pow2(b)
    decreases b
  {
    if a < b {
      Pow2Grows(a, b - 1);
    }
  }

  /** lsn_to_vbo(vbo_to_lsn(off, seq)) is `off`, for every sequence number, overflowing ones included. */
  lemma VboRoundTrip(g: Log, off: nat, seq_: nat)
    requires g.WellFormed() && off % 8 == 0 && off < 8 * g.Quads()
    ensures LsnToVbo(g, VboToLsn(g, off, seq_)) == off
  {
    hide Pow2;
    var s, k := g.Quads(), Pow2(64 - g.fdb);
    Pow2Words();
    Pow2Add(g.fdb, 64 - g.fdb);
    var x := off / 8 + U64(seq_ * s);
    ModMod(x, s, k);
    MultipleOf(seq_, s, k);
    var j :| U64(seq_ * s) == j * s && 0 <= j;
    AddMultiple(off / 8, j, s);
    SmallDiv(off / 8, s);
    VboOfLsn(g, VboToLsn(g, off, seq_));
  }

  lemma MultipleOf(q: nat, s: nat, k: nat)
    requires 0 < s && 0 < k && s * k == TWO_64
    ensures exists j: nat :: (q * s) % TWO_64 == j * s
  {
    assert q * s == s * q && TWO_64 == k * s;
    ModScale(q, k, s);
    assert (q * s) % TWO_64 == (q % k) * s;
  }

  /** An LSN is its position and its sequence number. */
  lemma LsnRoundTrip(g: Log, lsn: nat)
    requires g.WellFormed() && lsn < TWO_64
    ensures 0 <= lsn / g.Quads() && VboToLsn(g, LsnToVbo(g, lsn), lsn / g.Quads()) == lsn
  {
    hide Pow2, LsnToVbo, U64, U32;
    VboOfLsn(g, lsn);
    Reassemble(lsn, g.Quads(), 8 * (lsn % g.Quads()));
  }

  lemma Reassemble(lsn: nat, s: nat, vbo: nat)
    requires 0 < s && lsn < TWO_64 && vbo == 8 * (lsn % s)
    ensures 0 <= lsn / s && U64(vbo / 8 + U64((lsn / s) * s)) == lsn
  {
    var x := (lsn / s) * s;
    assert lsn == x + lsn % s && 0 <= x;
    assert vbo / 8 == lsn % s;
    SmallDiv(x, TWO_64);
    SmallDiv(lsn, TWO_64);
  }

  // ----- pages

  /** x & ~page_mask */
  function PageOf(g: Log, x: nat): nat { Down(x, g.Page()) }

  function Down(x: nat, p: nat): nat
    requires 0 < p
  {
    ModBelow(x, p);
    x - x % p
  }

  lemma ModBelow(x: nat, p: nat)
    requires 0 < p
    ensures 0 <= x % p <= x
  {
    if x < p {
      SmallDiv(x, p);
    }
  }

  /** lsn_to_page_off */
  function LsnToPageOff(g: Log, lsn: nat): nat { U32(U32(lsn) * 8) % g.Page() }

  /** next_page_off (sys_page_size and page_size are the same). */
  function NextPage(g: Log, off: nat): nat {
    if PageOf(g, off) + g.Page() >= g.size then g.first else PageOf(g, off) + g.Page()
  }

  /** The three ways the code takes a position out of an LSN agree. */
  lemma SamePosition(g: Log, lsn: nat)
    requires g.WellFormed()
    ensures var vbo := LsnToVbo(g, lsn);
            && U32(lsn * 8) % (8 * g.Quads()) == vbo
            && U32(lsn * 8) % g.Page() == vbo % g.Page() && LsnToPageOff(g, lsn) == vbo % g.Page()
  {
    hide Pow2;
    var s, y := g.Quads(), U32(lsn * 8);
    VboOfLsn(g, lsn);
    Pow2Words();
    Pow2Add(3, g.fdb);
    Pow2Add(g.fdb + 3, 29 - g.fdb);
    ModMod(lsn * 8, 8 * s, Pow2(29 - g.fdb));
    ModScale(lsn, s, 8);
    Pow2Add(g.pb, g.fdb + 3 - g.pb);
    ModMod(y, g.Page(), Pow2(g.fdb + 3 - g.pb));
    ModScale(lsn, TWO_32, 8);
    ModMod(lsn * 8, TWO_32, 8);
  }

  lemma InPage(b: nat, o: nat, p: nat)
    requires 0 < p && b % p == 0 && o < p
    ensures (b + o) % p == o
  {
    assert b == (b / p) * p;
    DivUnique(b + o, p, b / p, o);
  }

  /** x is this multiple of `p` and a remainder. */
  lemma DownMultiple(x: nat, p: nat)
    requires 0 < p
    ensures 0 <= x / p && Down(x, p) == (x / p) * p && x < Down(x, p) + p && Down(x, p) % p == 0
  {
    assert x == (x / p) * p + x % p;
    DivUnique((x / p) * p, p, x / p, 0);
  }

  lemma PageEnds(x: nat, size: nat, p: nat)
    requires 0 < p && size % p == 0 && x < size
    ensures Down(x, p) % p == 0 && (Down(x, p) + p) % p == 0 && Down(x, p) + p <= size
  {
    DownMultiple(x, p);
    DownMultiple(size, p);
    PageMultiple(Down(x, p), p);
    NextMultiple(x / p, size / p, p);
  }

  lemma NextMultiple(q: nat, m: nat, p: nat)
    requires q * p < m * p
    ensures q * p + p <= m * p
  {
    assert m <= q ==> m * p <= q * p;
    assert (q + 1) * p == q * p + p;
    assert (q + 1) * p <= m * p;
  }

  /** A page of records. */
  ghost predicate RecordPage(g: Log, b: nat) {
    b % g.Page() == 0 && g.first <= b < g.size && b + g.Page() <= g.size
  }

  lemma PageBase(g: Log, off: nat)
    requires g.WellFormed() && off < g.size
    ensures NextPage(g, off) % g.Page() == 0 && RecordPage(g, g.first)
    ensures g.first <= off ==> RecordPage(g, PageOf(g, off)) && RecordPage(g, NextPage(g, off))
  {
    hide Pow2;
    PageEnds(off, g.size, g.Page());
    PageEnds(g.first, g.size, g.Page());
    if g.first <= off {
      NotBelow(g.first, off, g.Page());
      if PageOf(g, off) + g.Page() < g.size {
        PageEnds(PageOf(g, off) + g.Page(), g.size, g.Page());
      }
    }
  }

  lemma NotBelow(b: nat, x: nat, p: nat)
    requires 0 < p && b % p == 0 && b <= x
    ensures b <= Down(x, p)
  {
    DownMultiple(x, p);
    DownMultiple(b, p);
    if Down(x, p) < b {
      NextMultiple(x / p, b / p, p);
    }
  }

  // ----- log order: the reference both walkers are held to

  /** Where the byte after the one at `off` is. */
  function Step(g: Log, off: nat): nat {
    if (off + 1) % g.Page() == 0 then NextPage(g, off) + g.dataOff else off + 1
  }

  /** Where the byte `n` places after the one at `off` is. */
  function Walk(g: Log, off: nat, n: nat): nat {
    if n == 0 then off else Step(g, Walk(g, off, n - 1))
  }

  lemma {:induction false} WalkAdd(g: Log, off: nat, a: nat, b: nat)
    ensures Walk(g, off, a + b) == Walk(g, Walk(g, off, a), b)
    decreases b
  {
    if b != 0 {
      WalkAdd(g, off, a, b - 1);
    }
  }

  /** Within a page, log order is file order. */
  lemma {:induction false} WalkInPage(g: Log, b: nat, o: nat, n: nat)
    requires b % g.Page() == 0 && o + n < g.Page()
    ensures Walk(g, b + o, n) == b + o + n
    decreases n
  {
    hide Pow2;
    if n != 0 {
      WalkInPage(g, b, o, n - 1);
      InPage(b, o + n, g.Page());
    }
  }

  /** Behind the last byte of a page comes the data area of the next page. */
  lemma WalkToNext(g: Log, b: nat, o: nat, n: nat)
    requires b % g.Page() == 0 && 0 < n && o + n == g.Page()
    ensures Walk(g, b + o, n) == NextPage(g, b) + g.dataOff
  {
    hide Pow2;
    WalkInPage(g, b, o, n - 1);
    InPage(b, o + n - 1, g.Page());
    InPage(b, 0, g.Page());
    PageMultiple(b, g.Page());
  }

  lemma PageMultiple(b: nat, p: nat)
    requires 0 < p && b % p == 0
    ensures (b + p) % p == 0
  {
    DivStep(b, p);
  }

  /**
    The offset of the last byte of the record at `lsn`, header included, whose length the code computes
    in 32 bits. For a length of 0 it is the byte before the record, if there is one.
   */
  function EndOf(g: Log, lsn: nat, dataLen: nat): nat
    requires g.WellFormed()
  {
    var vbo, n := LsnToVbo(g, lsn), U32(dataLen + g.hdrLen);
    if n != 0 then Walk(g, vbo, n - 1) else if vbo != 0 then vbo - 1 else TWO_32 - 1
  }

  /** final_log_off. */
  method FinalLogOff(g: Log, lsn: nat, dataLen0: nat) returns (end: nat)
    requires g.WellFormed()
    ensures end == EndOf(g, lsn, dataLen0)
  {
    hide Pow2, LsnToVbo, Down, PageOf, NextPage, Walk;
    ghost var vbo := LsnToVbo(g, lsn);
    SamePosition(g, lsn);
    SplitOff(g, vbo);
    var base := U32(lsn * 8);
    var page: nat := PageOf(g, base % (8 * g.Quads()));
    var pageOff: nat := base % g.Page();
    var n: nat := U32(dataLen0 + g.hdrLen);
    end := LastByte(g, page, pageOff, n);
  }

  lemma SplitOff(g: Log, vbo: nat)
    ensures PageOf(g, vbo) % g.Page() == 0 && PageOf(g, vbo) + vbo % g.Page() == vbo && vbo % g.Page() < g.Page()
  {
    hide Pow2;
    DownMultiple(vbo, g.Page());
  }

  lemma SplitPage(g: Log, vbo: nat)
    requires g.WellFormed() && g.first <= vbo < g.size
    ensures RecordPage(g, PageOf(g, vbo)) && PageOf(g, vbo) + vbo % g.Page() == vbo && vbo % g.Page() < g.Page()
  {
    hide Pow2;
    PageBase(g, vbo);
  }

  /** Wherever one is, the next page is a page of records or before them, inside the file. */
  lemma NextInFile(g: Log, off: nat)
    requires g.WellFormed()
    ensures NextPage(g, off) % g.Page() == 0 && NextPage(g, off) + g.Page() <= g.size
  {
    hide Pow2;
    DownMultiple(off, g.Page());
    PageEnds(g.first, g.size, g.Page());
    if PageOf(g, off) + g.Page() < g.size {
      PageMultiple(PageOf(g, off), g.Page());
      PageEnds(PageOf(g, off) + g.Page(), g.size, g.Page());
    }
  }

  /** The walk itself, once the position is known: `page` plus `o`. */
  method LastByte(g: Log, page0: nat, o: nat, n: nat) returns (end: nat)
    requires g.WellFormed() && page0 % g.Page() == 0 && o < g.Page()
    ensures end == if n != 0 then Walk(g, page0 + o, n - 1) else if page0 + o != 0 then page0 + o - 1 else TWO_32 - 1
  {
    hide Pow2, Down, PageOf, NextPage, Log.WellFormed, Log.Page;
    DataFits(g);
    var page, dataLen, tail: nat, pageOff: int := page0, n, g.Page() - o, o - 1;
    ghost var vbo := page + o;
    if dataLen > tail {
      WalkToNext(g, page, o, tail);
      dataLen := dataLen - tail;
      pageOff := g.dataOff - 1;
      page, dataLen := LastPage(g, vbo, page, n, dataLen);
      WalkInPage(g, page, g.dataOff, dataLen - 1);
      WalkAdd(g, vbo, n - dataLen, dataLen - 1);
    } else if dataLen != 0 {
      WalkInPage(g, page, o, dataLen - 1);
    }
    var sum := page + dataLen + pageOff;
    end := if sum < 0 then TWO_32 + sum else sum;
  }

  /** The loop of final_log_off: the page on which the last byte lies, and how many bytes are on it. */
  method LastPage(g: Log, ghost vbo: nat, page0: nat, ghost n: nat, dataLen0: nat) returns (page: nat, dataLen: nat)
    requires g.WellFormed() && page0 % g.Page() == 0 && 0 < dataLen0 <= n
    requires Walk(g, vbo, n - dataLen0) == NextPage(g, page0) + g.dataOff
    ensures page % g.Page() == 0 && 0 < dataLen <= g.Page() - g.dataOff && dataLen <= n
    ensures Walk(g, vbo, n - dataLen) == page + g.dataOff
  {
    hide Pow2, Walk, Down, PageOf, NextPage, Log.WellFormed, Log.Page;
    DataFits(g);
    page, dataLen := page0, dataLen0;
    var tail: nat := g.Page() - g.dataOff;
    while true
      invariant page % g.Page() == 0 && 0 < dataLen <= n
      invariant Walk(g, vbo, n - dataLen) == NextPage(g, page) + g.dataOff
      decreases dataLen
    {
      NextInFile(g, page);
      page := NextPage(g, page);
      if dataLen <= tail {
        break;
      }
      WalkToNext(g, page, g.dataOff, tail);
      WalkAdd(g, vbo, n - dataLen, tail);
      dataLen := dataLen - tail;
    }
  }

  // ----- read_log_rec_buf

  /** What the walkers look at in a page header: rhdr.lsn, last_end_lsn and the record-end flag. */
  datatype PageHdr = PageHdr(lsn: nat, lastEnd: nat, recordEnd: bool)

  lemma {:induction false} WalkStays(g: Log, off: nat, n: nat)
    requires g.WellFormed() && g.first <= off < g.size
    ensures g.first <= Walk(g, off, n) < g.size
    decreases n
  {
    hide Pow2;
    if n != 0 {
      WalkStays(g, off, n - 1);
      StepStays(g, Walk(g, off, n - 1));
    }
  }

  lemma StepStays(g: Log, off: nat)
    requires g.WellFormed() && g.first <= off < g.size
    ensures g.first <= Step(g, off) < g.size
  {
    hide Pow2;
    PageBase(g, off);
    PageEnds(off, g.size, g.Page());
    assert off + 1 == g.size ==> (off + 1) % g.Page() == 0;
  }

  /** The byte `k` places after `vbo`, in log order, is `x`. */
  ghost predicate ByteAt(g: Log, bytes: seq<Byte>, vbo: nat, k: nat, x: Byte) {
    Walk(g, vbo, k) < |bytes| && bytes[Walk(g, vbo, k)] == x
  }

  /** The buffer holds the bytes from the one `from` places after `vbo` on, in log order. */
  ghost predicate Copied(g: Log, bytes: seq<Byte>, vbo: nat, from: nat, buffer: seq<Byte>) {
    forall i :: 0 <= i < |buffer| ==> ByteAt(g, bytes, vbo, from + i, buffer[i])
  }

  /** The bytes [b + o, b + o + t) of one page are the next `t` in log order. */
  lemma CopyInPage(g: Log, bytes: seq<Byte>, vbo: nat, from: nat, buffer: seq<Byte>, b: nat, o: nat, t: nat)
    requires g.WellFormed() && RecordPage(g, b) && o + t <= g.Page() && |bytes| == g.size
    requires Copied(g, bytes, vbo, from, buffer) && (0 < t ==> Walk(g, vbo, from + |buffer|) == b + o)
    ensures Copied(g, bytes, vbo, from, buffer + bytes[b + o..b + o + t])
  {
    hide Pow2, Walk, Log.WellFormed, Log.Page, ByteAt;
    var t0 := |buffer|;
    var more := buffer + bytes[b + o..b + o + t];
    forall i | 0 <= i < |more|
      ensures ByteAt(g, bytes, vbo, from + i, more[i])
    {
      if i < t0 {
        assert more[i] == buffer[i];
      } else {
        assert more[i] == bytes[b + o + (i - t0)];
        CopyOne(g, bytes, vbo, from + t0, b, o, i - t0);
        assert from + t0 + (i - t0) == from + i;
      }
    }
  }

  lemma CopyOne(g: Log, bytes: seq<Byte>, vbo: nat, m: nat, b: nat, o: nat, k: nat)
    requires RecordPage(g, b) && o + k < g.Page() && Walk(g, vbo, m) == b + o && |bytes| == g.size
    ensures ByteAt(g, bytes, vbo, m + k, bytes[b + o + k])
  {
    hide Pow2, Walk;
    NextInPage(g, vbo, m, b, o, k);
  }

  lemma NextInPage(g: Log, vbo: nat, m: nat, b: nat, o: nat, k: nat)
    requires RecordPage(g, b) && o + k < g.Page() && Walk(g, vbo, m) == b + o
    ensures Walk(g, vbo, m + k) == b + o + k
  {
    hide Pow2, Walk;
    WalkAdd(g, vbo, m, k);
    WalkInPage(g, b, o, k);
  }

  lemma DataFits(g: Log)
    requires g.WellFormed()
    ensures 0 < g.dataOff < g.Page()
  {
  }

  /**
    The page that byte `k` of a record of `n` bytes is on can be read and has seen the record. If the
    record goes on behind that page, it is not the last one that ends there; if it ends here, the page
    says that a record ends, this one or a later one.
   */
  ghost predicate ByteLegible(g: Log, pages: map<nat, PageHdr>, lsn: nat, vbo: nat, k: nat, n: nat) {
    var p := PageOf(g, Walk(g, vbo, k));
    && p in pages && lsn <= pages[p].lsn
    && if k + 1 == n then pages[p].recordEnd && lsn <= pages[p].lastEnd
       else (Walk(g, vbo, k) + 1) % g.Page() == 0 ==> pages[p].lsn != pages[p].lastEnd
  }

  /** So it is for every byte of the record, its header included. */
  ghost predicate Legible(g: Log, pages: map<nat, PageHdr>, lsn: nat, vbo: nat, n: nat) {
    forall k: nat :: k < n ==> ByteLegible(g, pages, lsn, vbo, k, n)
  }

  /** Byte `s` is at offset `o` of page `b`; so is byte `k` a little further on. */
  lemma OnPage(g: Log, vbo: nat, s: nat, b: nat, o: nat, k: nat)
    requires RecordPage(g, b) && Walk(g, vbo, s) == b + o && s <= k && o + (k - s) < g.Page()
    ensures Walk(g, vbo, k) == b + o + (k - s) && PageOf(g, Walk(g, vbo, k)) == b
    ensures (Walk(g, vbo, k) + 1) % g.Page() == 0 <==> o + (k - s) + 1 == g.Page()
  {
    hide Pow2, Walk;
    NextInPage(g, vbo, s, b, o, k - s);
    assert s + (k - s) == k;
    InPage(b, o + (k - s), g.Page());
    if o + (k - s) + 1 < g.Page() {
      InPage(b, o + (k - s) + 1, g.Page());
    } else {
      PageMultiple(b, g.Page());
    }
  }

  lemma PageUnreadable(g: Log, pages: map<nat, PageHdr>, lsn: nat, vbo: nat, n: nat, s: nat, b: nat, o: nat)
    requires RecordPage(g, b) && Walk(g, vbo, s) == b + o && o < g.Page() && s < n
    requires b !in pages || lsn > pages[b].lsn
    ensures !Legible(g, pages, lsn, vbo, n)
  {
    hide Pow2, Walk, PageOf;
    OnPage(g, vbo, s, b, o, s);
    assert !ByteLegible(g, pages, lsn, vbo, s, n);
  }

  /** The record ends on this page. */
  lemma PageOfEnd(g: Log, pages: map<nat, PageHdr>, lsn: nat, vbo: nat, n: nat, s: nat, b: nat, o: nat)
    requires RecordPage(g, b) && Walk(g, vbo, s) == b + o && s < n && o + (n - s) <= g.Page()
    requires b in pages && lsn <= pages[b].lsn && forall k: nat :: k < s ==> ByteLegible(g, pages, lsn, vbo, k, n)
    ensures Legible(g, pages, lsn, vbo, n) <==> pages[b].recordEnd && lsn <= pages[b].lastEnd
  {
    hide Pow2, Walk, PageOf;
    OnPage(g, vbo, s, b, o, n - 1);
    if pages[b].recordEnd && lsn <= pages[b].lastEnd {
      forall k: nat | s <= k < n
        ensures ByteLegible(g, pages, lsn, vbo, k, n)
      {
        OnPage(g, vbo, s, b, o, k);
      }
    } else {
      assert !ByteLegible(g, pages, lsn, vbo, n - 1, n);
    }
  }

  /** The record goes on behind this page, on which byte `e - 1` is its last. */
  lemma PageGoesOn(g: Log, pages: map<nat, PageHdr>, lsn: nat, vbo: nat, n: nat, s: nat, b: nat, o: nat, e: nat)
    requires RecordPage(g, b) && Walk(g, vbo, s) == b + o && s < e < n && o + (e - s) == g.Page()
    requires b in pages && lsn <= pages[b].lsn && forall k: nat :: k < s ==> ByteLegible(g, pages, lsn, vbo, k, n)
    ensures pages[b].lsn == pages[b].lastEnd ==> !Legible(g, pages, lsn, vbo, n)
    ensures pages[b].lsn != pages[b].lastEnd ==> forall k: nat :: k < e ==> ByteLegible(g, pages, lsn, vbo, k, n)
  {
    hide Pow2, Walk, PageOf;
    OnPage(g, vbo, s, b, o, e - 1);
    if pages[b].lsn != pages[b].lastEnd {
      forall k: nat | s <= k < e
        ensures ByteLegible(g, pages, lsn, vbo, k, n)
      {
        OnPage(g, vbo, s, b, o, k);
      }
    } else {
      assert !ByteLegible(g, pages, lsn, vbo, e - 1, n);
    }
  }

  /** How many bytes of log a record spans: its header and its data, and its place if both are empty. */
  function Span(g: Log, dataLen: nat): nat { if g.hdrLen + dataLen == 0 then 1 else g.hdrLen + dataLen }

  /**
    read_log_rec_buf: succeeds exactly if the pages from the header to the last byte are legible, and
    then the buffer holds the client data of the record, byte by byte in log order. Pages that cannot be
    read are missing from `pages`.
   */
  method ReadLogRecBuf(g: Log, pages: map<nat, PageHdr>, bytes: seq<Byte>, lsn: nat, dataLen0: nat)
    returns (err: int, buffer: seq<Byte>)
    requires g.WellFormed() && |bytes| == g.size && g.first <= LsnToVbo(g, lsn) < g.size
    requires LsnToPageOff(g, lsn) + g.hdrLen <= g.Page()
    ensures err == 0 <==> Legible(g, pages, lsn, LsnToVbo(g, lsn), Span(g, dataLen0))
    ensures err == 0 ==> |buffer| == dataLen0 && Copied(g, bytes, LsnToVbo(g, lsn), g.hdrLen, buffer)
  {
    hide Pow2, LsnToVbo, LsnToPageOff, Down, PageOf, NextPage, Walk, Log.WellFormed, Log.Page, Copied, Legible,
         ByteLegible;
    DataFits(g);
    ghost var at := LsnToVbo(g, lsn);
    SamePosition(g, lsn);
    SplitPage(g, at);
    var vbo: nat := PageOf(g, LsnToVbo(g, lsn));
    var off: nat := LsnToPageOff(g, lsn) + g.hdrLen;
    var dataLen: nat := dataLen0;
    buffer := [];
    NothingCopied(g, bytes, at, g.hdrLen);
    StartOfData(g, vbo, LsnToPageOff(g, lsn));
    ghost var n, s: nat, o: nat := Span(g, dataLen0), 0, LsnToPageOff(g, lsn);
    FirstByte(g, at);
    while true
      invariant RecordPage(g, vbo) && off <= g.Page() && |buffer| + dataLen == dataLen0 && 0 <= dataLen
      invariant Copied(g, bytes, at, g.hdrLen, buffer)
      invariant Walk(g, at, g.hdrLen + |buffer|) == if off < g.Page() then vbo + off else NextPage(g, vbo) + g.dataOff
      invariant s < n && o < g.Page() && o <= off && Walk(g, at, s) == vbo + o
      invariant g.hdrLen + |buffer| == s + (off - o) && (0 < s ==> 0 < dataLen)
      invariant forall k: nat :: k < s ==> ByteLegible(g, pages, lsn, at, k, n)
      decreases dataLen + (if off < g.Page() then 0 else 1)
    {
      var tail: nat := g.Page() - off;
      if tail >= dataLen {
        tail := dataLen;
      }
      dataLen := dataLen - tail;
      if vbo !in pages {
        PageUnreadable(g, pages, lsn, at, n, s, vbo, o);
        return EIO, buffer;
      }
      var ph := pages[vbo];
      if lsn > ph.lsn {
        PageUnreadable(g, pages, lsn, at, n, s, vbo, o);
        return EINVAL, buffer;
      }
      CopyInPage(g, bytes, at, g.hdrLen, buffer, vbo, off, tail);
      OverPage(g, at, g.hdrLen + |buffer|, vbo, off, tail);
      buffer := buffer + bytes[vbo + off..vbo + off + tail];
      if dataLen == 0 {
        PageOfEnd(g, pages, lsn, at, n, s, vbo, o);
        return if !ph.recordEnd || lsn > ph.lastEnd then EINVAL else 0, buffer;
      }
      PageGoesOn(g, pages, lsn, at, n, s, vbo, o, g.hdrLen + |buffer|);
      if ph.lsn == ph.lastEnd || lsn > ph.lsn {
        return EINVAL, buffer;
      }
      PageBase(g, vbo);
      vbo := NextPage(g, vbo);
      off := g.dataOff;
      s, o := g.hdrLen + |buffer|, g.dataOff;
    }
  }

  lemma FirstByte(g: Log, vbo: nat)
    ensures Walk(g, vbo, 0) == vbo
  {
  }

  lemma NothingCopied(g: Log, bytes: seq<Byte>, vbo: nat, from: nat)
    ensures Copied(g, bytes, vbo, from, [])
  {
  }

  /** Where the data starts: behind the header, or on the next page if the header fills its page. */
  lemma StartOfData(g: Log, b: nat, o: nat)
    requires g.WellFormed() && RecordPage(g, b) && o < g.Page() && o + g.hdrLen <= g.Page()
    ensures Walk(g, b + o, g.hdrLen) == if o + g.hdrLen < g.Page() then b + o + g.hdrLen else NextPage(g, b) + g.dataOff
  {
    hide Pow2, NextPage;
    if o + g.hdrLen < g.Page() {
      WalkInPage(g, b, o, g.hdrLen);
    } else {
      WalkToNext(g, b, o, g.hdrLen);
    }
  }

  /** After the rest of a page has been read, log order goes on with the next page. */
  lemma OverPage(g: Log, at: nat, n: nat, b: nat, off: nat, t: nat)
    requires g.WellFormed() && RecordPage(g, b) && off + t <= g.Page()
    requires Walk(g, at, n) == if off < g.Page() then b + off else NextPage(g, b) + g.dataOff
    ensures off + t == g.Page() ==> Walk(g, at, n + t) == NextPage(g, b) + g.dataOff
  {
    hide Pow2, NextPage;
    if off + t == g.Page() && 0 < t {
      WalkToNext(g, b, off, t);
      WalkAdd(g, at, n, t);
    }
  }

  /** Both walkers end at the same byte: the last one copied lies where final_log_off says. */
  method LastCopied(g: Log, pages: map<nat, PageHdr>, bytes: seq<Byte>, lsn: nat, dataLen: nat)
    returns (err: int, buffer: seq<Byte>, end: nat)
    requires g.WellFormed() && |bytes| == g.size && g.first <= LsnToVbo(g, lsn) < g.size
    requires LsnToPageOff(g, lsn) + g.hdrLen <= g.Page() && 0 < dataLen && dataLen + g.hdrLen < TWO_32
    ensures err == 0 ==> end < |bytes| && |buffer| == dataLen && buffer[dataLen - 1] == bytes[end]
    ensures end == Walk(g, LsnToVbo(g, lsn), g.hdrLen + dataLen - 1)
  {
    hide Pow2, LsnToVbo, LsnToPageOff, Walk;
    err, buffer := ReadLogRecBuf(g, pages, bytes, lsn, dataLen);
    end := FinalLogOff(g, lsn, dataLen);
    SmallDiv(dataLen + g.hdrLen, TWO_32);
    assert end == Walk(g, LsnToVbo(g, lsn), g.hdrLen + (dataLen - 1));
    assert err == 0 ==> ByteAt(g, bytes, LsnToVbo(g, lsn), g.hdrLen + (dataLen - 1), buffer[dataLen - 1]);
  }

  // ----- next_log_lsn

  /** Offsets in the data area of a record page. */
  ghost predicate InData(g: Log, off: nat) {
    g.first <= off < g.size && g.dataOff <= off % g.Page()
  }

  /** How often the walk starts over at the first page. */
  function Rounds(g: Log, off: nat, n: nat): nat {
    if n == 0 then 0 else Rounds(g, off, n - 1) + if Walk(g, off, n) <= Walk(g, off, n - 1) then 1 else 0
  }

  /** One step goes up, never past another offset of the data area, or back to the first page. */
  lemma StepOrder(g: Log, x: nat, off: nat)
    requires g.WellFormed() && InData(g, x) && InData(g, off)
    ensures InData(g, Step(g, x)) && g.first + g.dataOff <= off
    ensures x < Step(g, x) || Step(g, x) == g.first + g.dataOff
    ensures x < off ==> x < Step(g, x) <= off
  {
    hide Pow2, Log.Page, Down;
    LowestData(g, off);
    StepStays(g, x);
    SplitPage(g, x);
    SplitPage(g, off);
    PageBase(g, x);
    if (x + 1) % g.Page() == 0 {
      InPage(NextPage(g, x), g.dataOff, g.Page());
      LastOfPage(g, x);
      if x < off {
        NotBelow(x + 1, off, g.Page());
      }
    } else {
      NotLastOfPage(g, x);
    }
  }

  lemma LowestData(g: Log, off: nat)
    requires g.WellFormed() && InData(g, off)
    ensures g.first + g.dataOff <= off
  {
    hide Pow2;
    PageBase(g, off);
    NotBelow(g.first, off, g.Page());
  }

  lemma LastOfPage(g: Log, x: nat)
    requires (x + 1) % g.Page() == 0
    ensures PageOf(g, x) + g.Page() == x + 1
  {
    hide Pow2;
    var p := g.Page();
    DownMultiple(x, p);
    if x % p + 1 < p {
      InPage(Down(x, p), x % p + 1, p);
    }
  }

  lemma NotLastOfPage(g: Log, x: nat)
    requires (x + 1) % g.Page() != 0
    ensures (x + 1) % g.Page() == x % g.Page() + 1
  {
    hide Pow2;
    var p := g.Page();
    DownMultiple(x, p);
    if x % p + 1 < p {
      InPage(Down(x, p), x % p + 1, p);
    } else {
      PageMultiple(Down(x, p), p);
    }
  }

  /** The walk does not come back to where it started. */
  ghost predicate NoOverrun(g: Log, off: nat, n: nat) {
    forall k: nat :: 1 <= k <= n ==> Walk(g, off, k) != off
  }

  /** A walk that does not overrun its start ends above it exactly when it has not started over. */
  lemma {:induction false} WalkRounds(g: Log, off: nat, n: nat)
    requires g.WellFormed() && InData(g, off) && NoOverrun(g, off, n)
    ensures InData(g, Walk(g, off, n)) && Rounds(g, off, n) <= 1
    ensures Rounds(g, off, n) == 0 ==> off + n <= Walk(g, off, n)
    ensures Rounds(g, off, n) == 1 ==> Walk(g, off, n) < off
    decreases n
  {
    hide Pow2, Step, InData;
    if n != 0 {
      WalkRounds(g, off, n - 1);
      StepOrder(g, Walk(g, off, n - 1), off);
      assert Walk(g, off, n) != off;
    }
  }

  function Align8(x: nat): nat { x + (8 - x % 8) % 8 }

  /**
    Where the record after this one starts: behind its end, or on the next page if this record is the
    last one on the page where it ends.
   */
  function Following(g: Log, end: nat, last: bool): nat {
    if last then NextPage(g, end) + g.dataOff else Align8(end)
  }

  /** The sequence number of an LSN. */
  function SeqOf(g: Log, lsn: nat): (q: nat)
    ensures q == lsn / g.Quads()
  {
    Quotient(lsn, g.Quads())
  }

  /** The sequence number next_log_lsn settles on. */
  function FollowingSeq(g: Log, lsn: nat, end: nat, last: bool): nat
    requires g.WellFormed()
  {
    SeqOf(g, lsn) + (if end <= LsnToVbo(g, lsn) then 1 else 0) + (if last && NextPage(g, end) == g.first then 1 else 0)
  }

  predicate InFile(g: Log, lsn: nat) { g.oldest <= lsn <= g.current }

  /**
    The LSN that follows the record at `lsn`; 0 if that is not in the file; nothing if the page where
    the record ends lies outside the file or cannot be read.
   */
  function NextLsn(g: Log, pages: map<nat, PageHdr>, lsn: nat, dataLen: nat): Option<nat>
    requires g.WellFormed()
  {
    var end := EndOf(g, lsn, dataLen);
    if end >= g.size || PageOf(g, end) !in pages then None else
    var next := RawNext(g, pages, lsn, dataLen);
    Some(if InFile(g, next) then next else 0)
  }

  /** The LSN that next_log_lsn computes, before it is checked against the file. */
  function RawNext(g: Log, pages: map<nat, PageHdr>, lsn: nat, dataLen: nat): nat
    requires g.WellFormed() && PageOf(g, EndOf(g, lsn, dataLen)) in pages
  {
    var end := EndOf(g, lsn, dataLen);
    var last := pages[PageOf(g, end)].lsn == lsn;
    VboToLsn(g, Following(g, end, last), FollowingSeq(g, lsn, end, last))
  }

  /** The LSN is reported if it is neither older than the oldest one nor younger than the current one. */
  lemma NextReported(g: Log, pages: map<nat, PageHdr>, lsn: nat, dataLen: nat)
    requires g.WellFormed() && NextLsn(g, pages, lsn, dataLen).Some?
    ensures var raw := RawNext(g, pages, lsn, dataLen);
            NextLsn(g, pages, lsn, dataLen).value == if raw < g.oldest || g.current < raw then 0 else raw
  {
    hide Pow2, EndOf, RawNext;
  }

  /** The same, without the limit of 64 bits. */
  function FullNext(g: Log, pages: map<nat, PageHdr>, lsn: nat, dataLen: nat): nat
    requires g.WellFormed() && PageOf(g, EndOf(g, lsn, dataLen)) in pages
  {
    var end := EndOf(g, lsn, dataLen);
    var last := pages[PageOf(g, end)].lsn == lsn;
    NonNegative(FollowingSeq(g, lsn, end, last), g.Quads());
    Following(g, end, last) / 8 + FollowingSeq(g, lsn, end, last) * g.Quads()
  }

  /** The LSN is the sum of position and sequence number, cut to 64 bits. */
  lemma LsnValue(g: Log, off: nat, q: nat)
    requires g.WellFormed()
    ensures 0 <= q * g.Quads() && VboToLsn(g, off, q) == (off / 8 + q * g.Quads()) % TWO_64
  {
    hide Pow2;
    var x := q * g.Quads();
    NonNegative(q, g.Quads());
    ModOfSum(off / 8, x);
  }

  lemma NonNegative(a: nat, b: nat)
    ensures 0 <= a * b
  {
  }

  lemma ModOfSum(a: nat, b: nat)
    ensures (a + b % TWO_64) % TWO_64 == (a + b) % TWO_64
  {
  }

  /** Where the next record starts is above this one, unless the sequence number goes up. */
  lemma FollowingAbove(g: Log, vbo: nat, end: nat, last: bool)
    requires g.WellFormed() && vbo % 8 == 0 && end < g.size
    ensures Following(g, end, last) <= 8 * g.Quads() + 7
    ensures vbo < end && !(last && NextPage(g, end) == g.first) ==> vbo / 8 < Following(g, end, last) / 8
  {
    hide Pow2, Log.Page, Log.Quads, NextPage, Align8;
    AlignAbove(vbo, end);
    if last {
      NextPageFits(g, end);
      assert vbo < end && NextPage(g, end) != g.first ==> vbo + 8 < NextPage(g, end) + g.dataOff;
    }
  }

  lemma AlignAbove(vbo: nat, end: nat)
    ensures Align8(end) <= end + 7 && (vbo % 8 == 0 && vbo < end ==> vbo / 8 < Align8(end) / 8)
  {
    var q, r := end / 8, end % 8;
    assert end == 8 * q + r && Align8(end) == if r == 0 then 8 * q else 8 * (q + 1);
  }

  lemma NextPageFits(g: Log, end: nat)
    requires g.WellFormed() && end < g.size
    ensures NextPage(g, end) + g.Page() <= g.size && 8 <= g.dataOff < g.Page()
    ensures NextPage(g, end) == g.first || end < NextPage(g, end)
  {
    hide Pow2, Log.Page, Log.Quads;
    DownMultiple(end, g.Page());
    PageBase(g, end);
    PageEnds(NextPage(g, end), g.size, g.Page());
    InPage(NextPage(g, end), 0, g.Page());
  }

  /** Ahead of the limit of 64 bits, the next LSN is above this one, by three rounds at most. */
  lemma FullIsGreater(g: Log, pages: map<nat, PageHdr>, lsn: nat, dataLen: nat)
    requires g.WellFormed() && EndOf(g, lsn, dataLen) < g.size && PageOf(g, EndOf(g, lsn, dataLen)) in pages
    ensures lsn < FullNext(g, pages, lsn, dataLen) <= lsn + 3 * g.Quads()
    ensures RawNext(g, pages, lsn, dataLen) == FullNext(g, pages, lsn, dataLen) % TWO_64
  {
    hide Pow2, LsnToVbo, VboToLsn, EndOf, Following, NextPage, PageOf, Log.Quads;
    var end := EndOf(g, lsn, dataLen);
    VboOfLsn(g, lsn);
    var vbo, last := LsnToVbo(g, lsn), pages[PageOf(g, end)].lsn == lsn;
    FollowingAbove(g, vbo, end, last);
    var q := FollowingSeq(g, lsn, end, last);
    LsnValue(g, Following(g, end, last), q);
    Greater(lsn, g.Quads(), q, Following(g, end, last) / 8);
    assert Following(g, end, last) / 8 <= g.Quads();
    NotFar(lsn, g.Quads(), q, Following(g, end, last) / 8);
  }

  lemma NotFar(lsn: nat, s: nat, q: nat, r: nat)
    requires 0 < s && q <= lsn / s + 2 && r <= s
    ensures r + q * s <= lsn + 3 * s
  {
    assert lsn == (lsn / s) * s + lsn % s;
    assert q * s <= (lsn / s + 2) * s;
    assert (lsn / s + 2) * s == (lsn / s) * s + 2 * s;
  }

  /**
    next_log_lsn goes forward: the next LSN is greater and in the file, or there is none, exactly
    unless the sum does not fit into 64 bits and what is left of it looks like an LSN of the file.
   */
  lemma NextIsGreater(g: Log, pages: map<nat, PageHdr>, lsn: nat, dataLen: nat)
    requires g.WellFormed() && lsn < TWO_64 && NextLsn(g, pages, lsn, dataLen).Some?
    ensures var next, full := NextLsn(g, pages, lsn, dataLen).value, FullNext(g, pages, lsn, dataLen);
            next == 0 || (lsn < next && InFile(g, next))
            <==> full < TWO_64 || !InFile(g, full - TWO_64) || full == TWO_64
  {
    hide Pow2, LsnToVbo, VboToLsn, EndOf, Following, NextPage, PageOf, FullNext, RawNext;
    FullIsGreater(g, pages, lsn, dataLen);
    VboOfLsn(g, lsn);
    WrapOnce(FullNext(g, pages, lsn, dataLen));
  }

  lemma WrapOnce(x: nat)
    requires x < 2 * TWO_64
    ensures x % TWO_64 == if x < TWO_64 then x else x - TWO_64
  {
  }

  /**
    A caller's test: the sequence number is not at its end, or the file's oldest LSN is past the first
    three rounds.
   */
  predicate Safe(g: Log, lsn: nat) {
    lsn < TWO_64 && (lsn + 3 * g.Quads() < TWO_64 || 3 * g.Quads() <= g.oldest)
  }

  lemma SafeIsGreater(g: Log, pages: map<nat, PageHdr>, lsn: nat, dataLen: nat)
    requires g.WellFormed() && Safe(g, lsn) && NextLsn(g, pages, lsn, dataLen).Some?
    ensures var next := NextLsn(g, pages, lsn, dataLen).value;
            next == 0 || (lsn < next && InFile(g, next))
  {
    hide Pow2, LsnToVbo, VboToLsn, EndOf, Following, NextPage, PageOf, FullNext, RawNext;
    FullIsGreater(g, pages, lsn, dataLen);
    NextIsGreater(g, pages, lsn, dataLen);
  }

  lemma Greater(lsn: nat, s: nat, q: nat, r: nat)
    requires 0 < s && lsn / s <= q && (q == lsn / s ==> lsn % s < r)
    ensures lsn < r + q * s
  {
    assert lsn == (lsn / s) * s + lsn % s;
    if lsn / s < q {
      assert (lsn / s + 1) * s <= q * s;
      assert (lsn / s + 1) * s == (lsn / s) * s + s;
    }
  }

  lemma {:induction false} RoundsAdd(g: Log, off: nat, a: nat, b: nat)
    ensures Rounds(g, off, a + b) == Rounds(g, off, a) + Rounds(g, Walk(g, off, a), b)
    decreases b
  {
    hide Pow2, Walk;
    if b != 0 {
      RoundsAdd(g, off, a, b - 1);
      WalkAdd(g, off, a, b);
      WalkAdd(g, off, a, b - 1);
    }
  }

  lemma {:induction false} RoundsInPage(g: Log, b: nat, o: nat, n: nat)
    requires b % g.Page() == 0 && o + n < g.Page()
    ensures Rounds(g, b + o, n) == 0
    decreases n
  {
    hide Pow2, Walk;
    if n != 0 {
      RoundsInPage(g, b, o, n - 1);
      WalkInPage(g, b, o, n);
      WalkInPage(g, b, o, n - 1);
    }
  }

  /** How many bytes on from `end` the data area of the next page starts. */
  function ToNextPage(g: Log, end: nat): nat { g.Page() - end % g.Page() }

  /** Going on to the next page counts one more round exactly if that page is the first one. */
  lemma OverToNext(g: Log, end: nat)
    requires g.WellFormed() && g.first <= end < g.size
    ensures 0 < ToNextPage(g, end) && Walk(g, end, ToNextPage(g, end)) == NextPage(g, end) + g.dataOff
    ensures Rounds(g, end, ToNextPage(g, end)) == if NextPage(g, end) == g.first then 1 else 0
  {
    hide Pow2, Walk, Log.WellFormed, Log.Page, Down;
    DataFits(g);
    SplitPage(g, end);
    var b, o := PageOf(g, end), end % g.Page();
    var n: nat := g.Page() - o;
    NextOfPage(g, end);
    WalkToNext(g, b, o, n);
    WalkInPage(g, b, o, n - 1);
    RoundsInPage(g, b, o, n - 1);
    assert NextPage(g, end) == g.first || end < NextPage(g, end) by { NextPageFits(g, end); }
    FirstIsFirst(g, end);
  }

  /** The first page of records is not behind any offset of the records. */
  lemma FirstIsFirst(g: Log, end: nat)
    requires g.WellFormed() && g.first <= end < g.size
    ensures g.first + g.dataOff <= PageOf(g, end) + g.Page() - 1
    ensures NextPage(g, end) != g.first ==> NextPage(g, end) == PageOf(g, end) + g.Page()
  {
    hide Pow2;
    DataFits(g);
    NotBelow(g.first, end, g.Page());
  }

  /**
    For a record that does not overrun its own start, the sequence number is exact: one more for each
    start over on the way to where the next record starts, be that behind this one or on the next page.
   */
  lemma SeqIsExact(g: Log, lsn: nat, dataLen: nat)
    requires g.WellFormed() && InData(g, LsnToVbo(g, lsn)) && 1 < dataLen + g.hdrLen < TWO_32
    requires NoOverrun(g, LsnToVbo(g, lsn), dataLen + g.hdrLen - 1)
    ensures var vbo, n := LsnToVbo(g, lsn), dataLen + g.hdrLen;
            var end := EndOf(g, lsn, dataLen);
            && end == Walk(g, vbo, n - 1)
            && FollowingSeq(g, lsn, end, false) == SeqOf(g, lsn) + Rounds(g, vbo, n - 1)
            && FollowingSeq(g, lsn, end, true) == SeqOf(g, lsn) + Rounds(g, vbo, n - 1 + ToNextPage(g, end))
            && Following(g, end, true) == Walk(g, vbo, n - 1 + ToNextPage(g, end))
  {
    hide Pow2, LsnToVbo, Walk, Rounds, NoOverrun, Log.WellFormed, Log.Quads, Log.Page, NextPage;
    SmallDiv(dataLen + g.hdrLen, TWO_32);
    var vbo, n := LsnToVbo(g, lsn), dataLen + g.hdrLen;
    WalkRounds(g, vbo, n - 1);
    var end := Walk(g, vbo, n - 1);
    OverToNext(g, end);
    RoundsAdd(g, vbo, n - 1, ToNextPage(g, end));
    WalkAdd(g, vbo, n - 1, ToNextPage(g, end));
  }

  // ----- where the next LSN points

  /** Pages and their data areas are aligned, so log order keeps offsets in step modulo 8. */
  lemma {:induction false} WalkInStep(g: Log, off: nat, n: nat)
    requires g.WellFormed()
    ensures Walk(g, off, n) % 8 == (off + n) % 8
    decreases n
  {
    hide Pow2, Step, Log.WellFormed;
    if n != 0 {
      WalkInStep(g, off, n - 1);
      StepInStep(g, Walk(g, off, n - 1));
      InStep(Walk(g, off, n - 1), off + n - 1);
    }
  }

  lemma InStep(x: nat, y: nat)
    requires x % 8 == y % 8
    ensures (x + 1) % 8 == (y + 1) % 8
  {
  }

  lemma StepInStep(g: Log, x: nat)
    requires g.WellFormed()
    ensures Step(g, x) % 8 == (x + 1) % 8
  {
    hide Pow2, NextPage, Log.WellFormed;
    if (x + 1) % g.Page() == 0 {
      NextInFile(g, x);
      PageIsQuads(g, x + 1);
      PageIsQuads(g, NextPage(g, x));
      QuadsAdd(g, NextPage(g, x));
    }
  }

  lemma QuadsAdd(g: Log, x: nat)
    requires g.WellFormed() && x % 8 == 0
    ensures (x + g.dataOff) % 8 == 0
  {
    hide Pow2;
  }

  lemma PageIsQuads(g: Log, x: nat)
    requires g.WellFormed() && x % g.Page() == 0
    ensures x % 8 == 0
  {
    hide Pow2;
    Pow2Small();
    Pow2Add(3, g.pb - 3);
    ModMod(x, 8, Pow2(g.pb - 3));
  }

  /** A length, rounded up to whole quad words. */
  function QuadLength(n: nat): nat { n + (8 - n % 8) % 8 }

  /**
    A record is followed by the LSN of the first quad word behind it, if that lies on the same page. But
    if its length is one more than a multiple of 8, the LSN is that of its own last byte.
   */
  lemma NextPoints(g: Log, lsn: nat, dataLen: nat, seq_: nat)
    requires g.WellFormed() && 0 < dataLen + g.hdrLen < TWO_32 && EndOf(g, lsn, dataLen) < g.size
    ensures var vbo, n := LsnToVbo(g, lsn), dataLen + g.hdrLen;
            var end := EndOf(g, lsn, dataLen);
            var next := LsnToVbo(g, VboToLsn(g, Following(g, end, false), seq_));
            && (n % 8 != 1 && Align8(end + 1) % g.Page() != 0 ==>
                  next == Walk(g, vbo, QuadLength(n)) == Align8(end + 1) && end < next <= end + 8)
            && (n % 8 == 1 ==> next == end)
  {
    hide Pow2, LsnToVbo, VboToLsn, Walk, Step, Align8, QuadLength, Log.WellFormed, Log.Quads;
    SmallDiv(dataLen + g.hdrLen, TWO_32);
    var vbo, n := LsnToVbo(g, lsn), dataLen + g.hdrLen;
    var end := Walk(g, vbo, n - 1);
    VboOfLsn(g, lsn);
    WalkInStep(g, vbo, n - 1);
    EndAligned(lsn % g.Quads(), n, end);
    if n % 8 == 1 {
      NotPastEnd(g, end);
      VboRoundTrip(g, end, seq_);
    } else if Align8(end + 1) % g.Page() != 0 {
      QuadOnPage(g, end, QuadLength(n) - n + 1);
      WalkAdd(g, vbo, n - 1, QuadLength(n) - n + 1);
      VboRoundTrip(g, Align8(end + 1), seq_);
    }
  }

  /** The last byte of a record that starts at quad word `q`, and the boundary behind it. */
  lemma EndAligned(q: nat, n: nat, end: nat)
    requires 0 < n && end % 8 == (8 * q + (n - 1)) % 8
    ensures n % 8 == 1 ==> Align8(end) == end && end % 8 == 0
    ensures n % 8 != 1 ==> Align8(end) == Align8(end + 1) == end + (QuadLength(n) - n + 1) && Align8(end + 1) % 8 == 0
    ensures n <= QuadLength(n) < n + 8
  {
    var r, o := n % 8, end % 8;
    assert o == if r == 0 then 7 else r - 1 by { Remainders(q, n); }
    assert (end + 1) % 8 == if o == 7 then 0 else o + 1;
    assert QuadLength(n) == if r == 0 then n else n + (8 - r);
    assert Align8(end) == if o == 0 then end else end + (8 - o);
  }

  lemma Remainders(q: nat, n: nat)
    requires 0 < n
    ensures (8 * q + (n - 1)) % 8 == if n % 8 == 0 then 7 else n % 8 - 1
  {
    assert (8 * q + (n - 1)) % 8 == (n - 1) % 8;
  }

  /** A quad word boundary that is no page boundary: the bytes before it are on the same page. */
  lemma QuadOnPage(g: Log, end: nat, k: nat)
    requires g.WellFormed() && end < g.size && 0 < k <= 8 && (end + k) % 8 == 0 && (end + k) % g.Page() != 0
    ensures Walk(g, end, k) == end + k && end + k < g.size && end + k < 8 * g.Quads()
  {
    hide Pow2, Walk, Log.Page;
    SplitOff(g, end);
    var b, o, p := PageOf(g, end), end % g.Page(), g.Page();
    PageEnds(end, g.size, p);
    PageInQuads(g);
    PageIsQuads(g, b);
    BelowBoundary(b, o, k, p);
    WalkInPage(g, b, o, k);
  }

  lemma PageInQuads(g: Log)
    requires g.WellFormed()
    ensures g.Page() % 8 == 0
  {
    hide Pow2;
    SelfMultiple(g.Page());
    PageIsQuads(g, g.Page());
  }

  lemma SelfMultiple(p: nat)
    requires 0 < p
    ensures p % p == 0
  {
  }

  lemma BelowBoundary(b: nat, o: nat, k: nat, p: nat)
    requires 0 < p && b % p == 0 && o < p && 0 < k <= 8 && (b + o + k) % p != 0
    requires b % 8 == 0 && p % 8 == 0 && (b + o + k) % 8 == 0
    ensures o + k < p
  {
    PageMultiple(b, p);
    QuadsLeft(b, o + k);
  }

  lemma QuadsLeft(b: nat, x: nat)
    requires b % 8 == 0 && (b + x) % 8 == 0
    ensures x % 8 == 0
  {
  }

  lemma NotPastEnd(g: Log, end: nat)
    requires g.WellFormed() && end < g.size
    ensures end < 8 * g.Quads()
  {
    hide Pow2;
  }

  /** next_log_lsn. */
  method NextLogLsn(g: Log, pages: map<nat, PageHdr>, lsn: nat, dataLen: nat) returns (err: int, next: nat)
    requires g.WellFormed()
    ensures err == 0 <==> NextLsn(g, pages, lsn, dataLen).Some?
    ensures err == 0 ==> next == NextLsn(g, pages, lsn, dataLen).value
  {
    hide Pow2, LsnToVbo, VboToLsn, NextPage, PageOf, SeqOf, Align8, EndOf;
    var vbo := LsnToVbo(g, lsn);
    var end := FinalLogOff(g, lsn, dataLen);
    var hdrOff := PageOf(g, end);
    var seq_: nat := SeqOf(g, lsn);
    next := 0;
    if end <= vbo {
      seq_ := seq_ + 1;
    }
    PageInFile(g, end);
    if hdrOff >= g.size || hdrOff !in pages {
      return EIO, next;
    }
    if lsn == pages[hdrOff].lsn {
      NextOfPage(g, end);
      hdrOff := NextPage(g, hdrOff);
      if hdrOff == g.first {
        seq_ := seq_ + 1;
      }
      vbo := hdrOff + g.dataOff;
    } else {
      vbo := Align8(end);
    }
    next := VboToLsn(g, vbo, seq_);
    if !InFile(g, next) {
      next := 0;
    }
    err := 0;
  }

  lemma PageInFile(g: Log, x: nat)
    requires g.WellFormed()
    ensures PageOf(g, x) < g.size <==> x < g.size
  {
    hide Pow2;
    DownMultiple(x, g.Page());
    if g.size <= x {
      NotBelow(g.size, x, g.Page());
    }
  }

  lemma NextOfPage(g: Log, x: nat)
    ensures NextPage(g, PageOf(g, x)) == NextPage(g, x)
  {
    hide Pow2;
    DownMultiple(x, g.Page());
  }

  // ----- find_client_next_lsn

  /** struct LFS_RECORD_HDR: `mine` when the record is a client record of the client that asks. */
  datatype Record = Record(lsn: nat, dataLen: nat, mine: bool)

  /**
    The log leads forward: the record found for an LSN of the file carries that LSN or a later one,
    and one from which next_log_lsn goes forward.
   */
  ghost predicate Forward(g: Log, records: map<nat, Record>)
    requires g.WellFormed()
  {
    forall lsn: nat {:trigger LsnToVbo(g, lsn)} :: InFile(g, lsn) && LsnToVbo(g, lsn) in records
      ==> lsn <= records[LsnToVbo(g, lsn)].lsn && Safe(g, records[LsnToVbo(g, lsn)].lsn)
  }

  /** Record `b` is what the log holds at `lsn`, the LSN that follows record `a`. */
  ghost predicate Follows(g: Log, pages: map<nat, PageHdr>, records: map<nat, Record>, a: Record, lsn: nat, b: Record)
    requires g.WellFormed()
  {
    && NextLsn(g, pages, a.lsn, a.dataLen) == Some(lsn)
    && lsn != 0 && LsnToVbo(g, lsn) in records && records[LsnToVbo(g, lsn)] == b
  }

  /**
    Each record of the chain is found at the LSN that follows the one before it, and carries a greater
    LSN than that one; only the last may be the client's.
   */
  ghost predicate Chain(g: Log, pages: map<nat, PageHdr>, records: map<nat, Record>, start: Record,
                        chain: seq<Record>, lsns: seq<nat>)
    requires g.WellFormed()
  {
    && |chain| == |lsns| + 1 && chain[0] == start
    && (forall i :: 0 <= i < |lsns| ==> Follows(g, pages, records, chain[i], lsns[i], chain[i + 1]))
    && (forall i :: 0 <= i < |lsns| ==> chain[i].lsn < lsns[i] <= chain[i + 1].lsn)
    && (forall i :: 0 < i < |lsns| ==> !chain[i].mine)
  }

  lemma ChainMore(g: Log, pages: map<nat, PageHdr>, records: map<nat, Record>, start: Record,
                  chain: seq<Record>, lsns: seq<nat>, lsn: nat, r: Record)
    requires g.WellFormed() && Chain(g, pages, records, start, chain, lsns)
    requires var last := chain[|chain| - 1];
             Follows(g, pages, records, last, lsn, r) && last.lsn < lsn <= r.lsn && (1 < |chain| ==> !last.mine)
    ensures Chain(g, pages, records, start, chain + [r], lsns + [lsn])
  {
    hide Follows, Log.WellFormed;
  }

  lemma ChainStart(g: Log, pages: map<nat, PageHdr>, records: map<nat, Record>, start: Record)
    requires g.WellFormed()
    ensures Chain(g, pages, records, start, [start], [])
  {
  }

  /** There is no going on from record `a`: the page where it ends, or the record at the next LSN, cannot be read. */
  ghost predicate DeadEnd(g: Log, pages: map<nat, PageHdr>, records: map<nat, Record>, a: Record)
    requires g.WellFormed()
  {
    var next := NextLsn(g, pages, a.lsn, a.dataLen);
    next.None? || (next.value != 0 && LsnToVbo(g, next.value) !in records)
  }

  /** One round of the loop: the record at the next LSN, or the end of the log. */
  method NextRecord(g: Log, pages: map<nat, PageHdr>, records: map<nat, Record>, hdr: Record)
    returns (err: int, lsn: nat, next: Option<Record>)
    requires g.WellFormed() && Forward(g, records) && Safe(g, hdr.lsn)
    ensures err == 0 && next.Some? ==> Follows(g, pages, records, hdr, lsn, next.value)
    ensures err == 0 && next.Some? ==> hdr.lsn < lsn <= next.value.lsn && lsn <= g.current && Safe(g, next.value.lsn)
    ensures err == 0 && next.None? ==> NextLsn(g, pages, hdr.lsn, hdr.dataLen) == Some(0)
    ensures err != 0 <==> DeadEnd(g, pages, records, hdr)
  {
    hide Pow2, LsnToVbo, NextLsn, Log.WellFormed;
    err, lsn := NextLogLsn(g, pages, hdr.lsn, hdr.dataLen);
    if err != 0 {
      return err, lsn, None;
    }
    SafeIsGreater(g, pages, hdr.lsn, hdr.dataLen);
    if lsn == 0 {
      return 0, 0, None;
    }
    var vbo := LsnToVbo(g, lsn);
    if vbo !in records {
      return EIO, lsn, None;
    }
    return 0, lsn, Some(records[vbo]);
  }

  /**
    find_client_next_lsn: go forward from record `start` to the next record of this client. The loop
    ends, and the chain of records that leads there has strictly increasing LSNs, none between being
    the client's.
   */
  method FindClientNextLsn(g: Log, pages: map<nat, PageHdr>, records: map<nat, Record>, start: Record)
    returns (err: int, lsn: nat, ghost chain: seq<Record>, ghost lsns: seq<nat>)
    requires g.WellFormed() && Forward(g, records) && Safe(g, start.lsn)
    ensures Chain(g, pages, records, start, chain, lsns)
    ensures var last := chain[|chain| - 1];
            if err == 0 && lsn != 0 then 0 < |lsns| && lsn == lsns[|lsns| - 1] && last.mine
            else lsn == 0 && (1 < |chain| ==> !last.mine)
    ensures var last := chain[|chain| - 1];
            err == 0 && lsn == 0 ==> NextLsn(g, pages, last.lsn, last.dataLen) == Some(0)
    ensures err != 0 ==> DeadEnd(g, pages, records, chain[|chain| - 1])
    ensures lsn != 0 ==> err == 0 && start.lsn < lsn <= g.current && LsnToVbo(g, lsn) in records
                         && records[LsnToVbo(g, lsn)].mine && lsn <= records[LsnToVbo(g, lsn)].lsn
  {
    hide Pow2, LsnToVbo, NextLsn, Safe, Log.WellFormed, Chain, Forward;
    var hdr := start;
    chain, lsns := [start], [];
    ChainStart(g, pages, records, start);
    while true
      invariant Chain(g, pages, records, start, chain, lsns) && |chain| == |lsns| + 1 && hdr == chain[|chain| - 1]
      invariant (1 < |chain| ==> !hdr.mine) && start.lsn <= hdr.lsn && Safe(g, hdr.lsn)
      decreases g.current + 1 - hdr.lsn
    {
      var next;
      err, lsn, next := NextRecord(g, pages, records, hdr);
      if err != 0 || next.None? {
        return err, 0, chain, lsns;
      }
      ChainMore(g, pages, records, start, chain, lsns, lsn, next.value);
      hdr := next.value;
      chain, lsns := chain + [hdr], lsns + [lsn];
      if hdr.mine {
        return 0, lsn, chain, lsns;
      }
    }
  }

  // ----- a log on which the loop does not end

  /** Eight pages of 512 bytes, the last four for records, with one page header and one record. */
  const SMALL: Log := Log(9, 9, 4096, 2048, 64, 48, 5120, 6000)
  const SMALL_PAGES: map<nat, PageHdr> := map[2048 := PageHdr(9999, 9999, true)]

  /** A record of 56 bytes that carries LSN 5384 (offset 2112, sequence number 10), though it is found at LSN 5391. */
  const STRAY: Record := Record(5384, 8, false)

  lemma Pow2Nine()
    ensures Pow2(9) == 512
  {
    hide Pow2;
    Pow2Small();
    Pow2Add(4, 4);
    Pow2Add(8, 1);
    assert Pow2(1) == 2 by { Pow2One(); }
  }

  lemma Pow2One()
    ensures Pow2(1) == 2
  {
    assert Pow2(0) == 1;
  }

  /**
    After that record comes LSN 5391, where the log holds the record itself: each round of the loop is
    like the one before.
   */
  lemma GoesRound()
    ensures SMALL.WellFormed() && !Forward(SMALL, map[2168 := STRAY])
    ensures Follows(SMALL, SMALL_PAGES, map[2168 := STRAY], STRAY, 5391, STRAY) && !STRAY.mine
  {
    hide Pow2, LsnToVbo, VboToLsn, Walk;
    Pow2Nine();
    assert SMALL.WellFormed();
    VboOfLsn(SMALL, 5384);
    VboOfLsn(SMALL, 5391);
    WalkInPage(SMALL, 2048, 64, 55);
    assert EndOf(SMALL, 5384, 8) == 2167;
    assert PageOf(SMALL, 2167) == 2048 && Align8(2167) == 2168 && SeqOf(SMALL, 5384) == 10;
    LsnValue(SMALL, 2168, 10);
    assert RawNext(SMALL, SMALL_PAGES, 5384, 8) == 5391;
  }
}
