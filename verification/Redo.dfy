/**
  fslog.c: the redo pass. Every log record that updates a dirty page is applied to its page if the
  page has not seen it yet, which the page's LSN tells. Pages are the bytes of a file record or an
  index buffer. What a guarded operation does to a page is left open: it either succeeds, or rejects
  the page and leaves it alone. Initialize and Deallocate, which do not look at the LSN, are spelled
  out.
 */
module Redo {
  import opened Extents
  import opened Kernel

  // ----- pages

  type Page = seq<Byte>

  const LSN: nat := 0x08            // offset of rhdr.lsn
  const SEQ: nat := 0x10            // offset of rec->seq
  const FLAGS: nat := 0x16          // offset of rec->flags
  const MIN_PAGE: nat := 0x30       // sizeof(struct MFT_REC)
  const FILE_SIGNATURE: nat := 0x454C_4946
  const BAAD_SIGNATURE: nat := 0x4441_4142
  const HOLE_SIGNATURE: nat := 0x454C_4F48
  const MFT_REC_FREE: nat := 16

  function Sign(x: Page): nat
    requires MIN_PAGE <= |x|
  {
    Le(x[0..4])
  }

  function Lsn(x: Page): nat
    requires MIN_PAGE <= |x|
  {
    Le(x[LSN..LSN + 8])
  }

  function SeqNo(x: Page): nat
    requires MIN_PAGE <= |x|
  {
    Le(x[SEQ..SEQ + 2])
  }

  /** memcpy of `data` to offset `off`. */
  function Write(x: Page, off: nat, data: seq<Byte>): (y: Page)
    requires off + |data| <= |x|
    ensures |y| == |x|
    ensures forall i :: 0 <= i < |x| ==> y[i] == if off <= i < off + |data| then data[i - off] else x[i]
  {
    x[..off] + data + x[off + |data|..]
  }

  /** The closing lines of do_action: rhdr.lsn is set. */
  function Stamp(x: Page, lsn: nat): (y: Page)
    requires MIN_PAGE <= |x|
    ensures |y| == |x|
  {
    Write(x, LSN, ToLe(lsn, 8))
  }

  lemma Stamped(x: Page, lsn: nat)
    requires MIN_PAGE <= |x| && lsn < TWO_64
    ensures Lsn(Stamp(x, lsn)) == lsn && Sign(Stamp(x, lsn)) == Sign(x) && SeqNo(Stamp(x, lsn)) == SeqNo(x)
  {
    var y := Stamp(x, lsn);
    assert y[LSN..LSN + 8] == ToLe(lsn, 8) && y[0..4] == x[0..4] && y[SEQ..SEQ + 2] == x[SEQ..SEQ + 2];
    Ranges();
    LeRoundTrip(lsn, 8);
  }

  // ----- records and what they do

  /**
    The operations by how they treat the page's LSN: most look at it first; Initialize copies its
    data to an offset of the record, and Deallocate marks the record unused and counts its sequence
    number up, both whatever the LSN is.
   */
  datatype Operation<Op> = Guarded(op: Op) | Initialize(off: nat, data: seq<Byte>) | Deallocate

  /** The parts of a log record that the redo loop looks at. */
  datatype Record<Op> = Record(lsn: nat, attr: nat, vcn: nat, updates: bool, cutShort: bool, skippable: bool,
                               page: nat, op: Operation<Op>)

  /** The volume: the size of a record, the template for new ones, how many there are, and the guarded operations. */
  datatype Meaning<!Op> = Meaning(size: nat, blank: Page, used: nat, apply: (Op, Page) -> Option<Page>)

  ghost predicate WellMade<Op(!new)>(m: Meaning<Op>) {
    && MIN_PAGE <= m.size == |m.blank|
    && forall op, x :: |x| == m.size && m.apply(op, x).Some? ==> |m.apply(op, x).value| == m.size
  }

  /**
    What analysis leaves: dirty pages with their oldest LSN, open attributes, mapped clusters; and the
    file records whose inode is in memory.
   */
  datatype Tables = Tables(dirty: map<(nat, nat), nat>, open: set<nat>, mapped: set<(nat, nat)>, cached: set<nat>)

  /** check_lsn. */
  predicate CheckLsn(x: Page, lsn: nat)
    requires MIN_PAGE <= |x|
  {
    Sign(x) != HOLE_SIGNATURE && lsn > Lsn(x)
  }

  /** The sequence number that mi_format_new gives record `p`, whose old contents are `x`. */
  function FormatSeq(used: nat, p: nat, x: Page): nat
    requires MIN_PAGE <= |x|
  {
    if p == 0 then 1
    else if p < MFT_REC_FREE then p
    else if p >= used || Sign(x) != FILE_SIGNATURE then 1
    else if SeqNo(x) + 1 == TWO_16 then 1
    else SeqNo(x) + 1
  }

  /** mi_format_new: the template with its own sequence number, in use. */
  function Formatted<Op>(m: Meaning<Op>, p: nat, x: Page): (y: Page)
    requires MIN_PAGE <= |x| && MIN_PAGE <= |m.blank|
    ensures |y| == |m.blank|
  {
    Write(Write(m.blank, SEQ, ToLe(FormatSeq(m.used, p, x), 2)), FLAGS, ToLe(1, 2))
  }

  /** The template in all but sequence number and flags; which sequence number it is given. */
  lemma FormattedMeans<Op>(m: Meaning<Op>, p: nat, x: Page)
    requires MIN_PAGE <= |x| && MIN_PAGE <= |m.blank|
    ensures var y := Formatted(m, p, x);
            && (forall i :: 0 <= i < |y| && !(SEQ <= i < SEQ + 2) && !(FLAGS <= i < FLAGS + 2) ==> y[i] == m.blank[i])
            && Le(y[FLAGS..FLAGS + 2]) == 1
            && (p == 0 ==> SeqNo(y) == 1) && (0 < p < 16 ==> SeqNo(y) == p)
            && (16 <= p && (m.used <= p || Sign(x) != FILE_SIGNATURE || SeqNo(x) == 0xFFFF) ==> SeqNo(y) == 1)
            && (16 <= p < m.used && Sign(x) == FILE_SIGNATURE && SeqNo(x) != 0xFFFF ==> SeqNo(y) == SeqNo(x) + 1)
  {
    hide Le, ToLe;
    var y, q := Formatted(m, p, x), FormatSeq(m.used, p, x);
    assert y[SEQ..SEQ + 2] == ToLe(q, 2) && y[FLAGS..FLAGS + 2] == ToLe(1, 2);
    Ranges();
    LeBound(x[SEQ..SEQ + 2]);
    LeRoundTrip(q, 2);
    LeRoundTrip(1, 2);
  }

  /** clear_rec_inuse and the count of the sequence number. */
  function Released(x: Page): (y: Page)
    requires MIN_PAGE <= |x|
    ensures |y| == |x|
  {
    var flags := Le(x[FLAGS..FLAGS + 2]);
    Write(Write(x, FLAGS, ToLe(flags - flags % 2, 2)), SEQ, ToLe((SeqNo(x) + 1) % TWO_16, 2))
  }

  /** do_action on the page a record is for. */
  function Action<Op(!new)>(m: Meaning<Op>, t: Tables, r: Record<Op>, x: Page): (y: Page)
    requires WellMade(m) && |x| == m.size
    ensures |y| == m.size
  {
    match r.op
    case Initialize(off, data) =>
      if off + |data| > m.size then x
      else Stamp(Write(if r.page in t.cached then x else Formatted(m, r.page, x), off, data), r.lsn)
    case Deallocate => Stamp(Released(x), r.lsn)
    case Guarded(op) =>
      if Sign(x) == BAAD_SIGNATURE || !CheckLsn(x, r.lsn) then x else
      match m.apply(op, x)
      case None => x
      case Some(y) => Stamp(y, r.lsn)
  }

  /** The record updates a page that the tables say may be out of date. */
  predicate Relevant<Op>(t: Tables, r: Record<Op>) {
    && r.updates && (r.attr, r.vcn) in t.dirty && t.dirty[(r.attr, r.vcn)] <= r.lsn
    && r.attr in t.open && (r.attr, r.vcn) in t.mapped && !r.cutShort && !r.skippable
  }

  /** What one record does to page `p`. */
  function Step<Op(!new)>(m: Meaning<Op>, t: Tables, r: Record<Op>, p: nat, x: Page): (y: Page)
    requires WellMade(m) && |x| == m.size
    ensures |y| == m.size
  {
    if Relevant(t, r) && r.page == p then Action(m, t, r, x) else x
  }

  /**
    A guarded record is applied: it updates pages, its page is dirty since an LSN that is not later, the
    attribute is open, the cluster mapped, something of the data is left, the operation does something; and
    the page is sound and has not seen it. Then the page is what the operation makes of it, stamped.
   */
  lemma Applied<Op(!new)>(m: Meaning<Op>, t: Tables, r: Record<Op>, x: Page)
    requires WellMade(m) && |x| == m.size && r.op.Guarded? && m.apply(r.op.op, x).Some?
    requires r.updates && (r.attr, r.vcn) in t.dirty && t.dirty[(r.attr, r.vcn)] <= r.lsn
    requires r.attr in t.open && (r.attr, r.vcn) in t.mapped && !r.cutShort && !r.skippable
    requires Sign(x) != BAAD_SIGNATURE && Sign(x) != HOLE_SIGNATURE && Lsn(x) < r.lsn
    ensures Step(m, t, r, r.page, x) == Stamp(m.apply(r.op.op, x).value, r.lsn)
  {
  }

  /** The unguarded operations are applied under the same conditions on the record, whatever the page's LSN. */
  lemma AppliedAnyway<Op(!new)>(m: Meaning<Op>, t: Tables, r: Record<Op>, x: Page)
    requires WellMade(m) && |x| == m.size
    requires r.updates && (r.attr, r.vcn) in t.dirty && t.dirty[(r.attr, r.vcn)] <= r.lsn
    requires r.attr in t.open && (r.attr, r.vcn) in t.mapped && !r.cutShort && !r.skippable
    ensures r.op.Deallocate? ==> Step(m, t, r, r.page, x) == Stamp(Released(x), r.lsn)
    ensures r.op.Initialize? && r.op.off + |r.op.data| <= m.size && r.page in t.cached ==>
              Step(m, t, r, r.page, x) == Stamp(Write(x, r.op.off, r.op.data), r.lsn)
    ensures r.op.Initialize? && r.op.off + |r.op.data| <= m.size && r.page !in t.cached ==>
              Step(m, t, r, r.page, x) == Stamp(Write(Formatted(m, r.page, x), r.op.off, r.op.data), r.lsn)
  {
  }

  /**
    A record is skipped: whatever it is, if its page is not dirty or dirty only since a later LSN, or
    it has nothing to do.
   */
  lemma Skipped<Op(!new)>(m: Meaning<Op>, t: Tables, r: Record<Op>, p: nat, x: Page)
    requires WellMade(m) && |x| == m.size
    requires || !r.updates || (r.attr, r.vcn) !in t.dirty || r.lsn < t.dirty[(r.attr, r.vcn)]
             || (r.attr, r.vcn) !in t.mapped || r.cutShort || r.skippable || r.page != p
    ensures Step(m, t, r, p, x) == x
  {
  }

  /** A guarded record leaves a page alone that is bad or a hole, that has seen it, or that its operation rejects. */
  lemma Refused<Op(!new)>(m: Meaning<Op>, t: Tables, r: Record<Op>, p: nat, x: Page)
    requires WellMade(m) && |x| == m.size && r.op.Guarded?
    requires || Sign(x) == BAAD_SIGNATURE || Sign(x) == HOLE_SIGNATURE || r.lsn <= Lsn(x)
             || m.apply(r.op.op, x).None?
    ensures Step(m, t, r, p, x) == x
  {
  }

  /** What Deallocate does: bit 0 of the flags is cleared, the sequence number counted up, all else kept. */
  lemma ReleasedMeans(x: Page)
    requires MIN_PAGE <= |x|
    ensures var y, flags := Released(x), Le(x[FLAGS..FLAGS + 2]);
            && Le(y[FLAGS..FLAGS + 2]) == (if flags % 2 == 1 then flags - 1 else flags)
            && SeqNo(y) == (if SeqNo(x) == 0xFFFF then 0 else SeqNo(x) + 1)
            && forall i :: 0 <= i < |x| && !(FLAGS <= i < FLAGS + 2) && !(SEQ <= i < SEQ + 2) ==> y[i] == x[i]
  {
    var y, flags := Released(x), Le(x[FLAGS..FLAGS + 2]);
    assert y[FLAGS..FLAGS + 2] == ToLe(flags - flags % 2, 2);
    Ranges();
    LeBound(x[FLAGS..FLAGS + 2]);
    LeRoundTrip(flags - flags % 2, 2);
    ReleasedSeq(x);
    SeqBound(x);
  }

  /** What a log does to page `p`. */
  function Run<Op(!new)>(m: Meaning<Op>, t: Tables, log: seq<Record<Op>>, p: nat, x: Page): (y: Page)
    requires WellMade(m) && |x| == m.size
    ensures |y| == m.size
  {
    if log == [] then x else Step(m, t, log[|log| - 1], p, Run(m, t, log[..|log| - 1], p, x))
  }

  ghost predicate Increasing<Op>(log: seq<Record<Op>>) {
    && (forall i :: 0 <= i < |log| ==> log[i].lsn < TWO_64)
    && forall i, j :: 0 <= i < j < |log| ==> log[i].lsn < log[j].lsn
  }

  lemma {:induction false} RunConcat<Op(!new)>(m: Meaning<Op>, t: Tables, a: seq<Record<Op>>,
                                               b: seq<Record<Op>>, p: nat, x: Page)
    requires WellMade(m) && |x| == m.size
    ensures Run(m, t, a + b, p, x) == Run(m, t, b, p, Run(m, t, a, p, x))
    decreases |b|
  {
    if b == [] {
      assert a + b == a;
    } else {
      assert (a + b)[..|a + b| - 1] == a + b[..|b| - 1];
      RunConcat(m, t, a, b[..|b| - 1], p, x);
    }
  }

  // ----- where a second pass changes nothing

  /** The record changes page `p` without a look at its LSN. */
  predicate Unguarded<Op>(m: Meaning<Op>, t: Tables, r: Record<Op>, p: nat) {
    && Relevant(t, r) && r.page == p
    && match r.op
       case Guarded(_) => false
       case Deallocate => true
       case Initialize(off, data) => off + |data| <= m.size
  }

  /**
    The record leaves page `p` with contents that do not depend on what it was: an Initialize of the
    whole record if the inode is in memory; otherwise one that either covers the sequence number or
    is for a record whose new sequence number is fixed.
   */
  predicate Rewrites<Op>(m: Meaning<Op>, t: Tables, r: Record<Op>, p: nat) {
    && Unguarded(m, t, r, p) && r.op.Initialize?
    && if p in t.cached then r.op.off == 0 && |r.op.data| == m.size
       else p < MFT_REC_FREE || p >= m.used || (r.op.off <= SEQ && SEQ + 2 <= r.op.off + |r.op.data|)
  }

  ghost predicate Rewritten<Op>(m: Meaning<Op>, t: Tables, log: seq<Record<Op>>, p: nat) {
    exists i :: 0 <= i < |log| && Rewrites(m, t, log[i], p)
  }

  /** No record changes page `p` without a look at its LSN. */
  ghost predicate AllGuarded<Op>(m: Meaning<Op>, t: Tables, log: seq<Record<Op>>, p: nat) {
    forall i :: 0 <= i < |log| ==> !Unguarded(m, t, log[i], p)
  }

  lemma FormattedAlike<Op(!new)>(m: Meaning<Op>, p: nat, x: Page, y: Page, off: nat, data: seq<Byte>)
    requires WellMade(m) && |x| == |y| == m.size && off + |data| <= m.size
    requires p < MFT_REC_FREE || p >= m.used || (off <= SEQ && SEQ + 2 <= off + |data|)
    ensures Write(Formatted(m, p, x), off, data) == Write(Formatted(m, p, y), off, data)
  {
  }

  lemma RewritesAlike<Op(!new)>(m: Meaning<Op>, t: Tables, r: Record<Op>, p: nat, x: Page, y: Page)
    requires WellMade(m) && |x| == |y| == m.size && Rewrites(m, t, r, p)
    ensures Step(m, t, r, p, x) == Step(m, t, r, p, y)
  {
    hide Formatted, Stamp;
    if p in t.cached {
      assert Write(x, 0, r.op.data) == r.op.data == Write(y, 0, r.op.data);
    } else {
      FormattedAlike(m, p, x, y, r.op.off, r.op.data);
    }
  }

  /** After a record that writes all of the page, it no longer matters what the page was. */
  lemma {:induction false} RewrittenAlike<Op(!new)>(m: Meaning<Op>, t: Tables, log: seq<Record<Op>>, p: nat,
                                                    x: Page, y: Page)
    requires WellMade(m) && |x| == |y| == m.size && Rewritten(m, t, log, p)
    ensures Run(m, t, log, p, x) == Run(m, t, log, p, y)
    decreases |log|
  {
    hide Step, Rewrites, WellMade;
    var n := |log| - 1;
    var r := log[n];
    if Rewrites(m, t, r, p) {
      RewritesAlike(m, t, r, p, Run(m, t, log[..n], p, x), Run(m, t, log[..n], p, y));
    } else {
      var i :| 0 <= i < |log| && Rewrites(m, t, log[i], p);
      assert log[..n][i] == log[i];
      RewrittenAlike(m, t, log[..n], p, x, y);
    }
  }

  /** What a record that is not unguarded does: nothing, or it is newer than the page and leaves its LSN there. */
  lemma GuardedStep<Op(!new)>(m: Meaning<Op>, t: Tables, r: Record<Op>, p: nat, x: Page)
    requires WellMade(m) && |x| == m.size && !Unguarded(m, t, r, p) && r.lsn < TWO_64
    ensures var y := Step(m, t, r, p, x);
            y == x || (Lsn(x) < r.lsn == Lsn(y) && Sign(x) != HOLE_SIGNATURE && Sign(x) != BAAD_SIGNATURE)
  {
    hide Stamp, Lsn, Sign;
    if Relevant(t, r) && r.page == p && r.op.Guarded? && m.apply(r.op.op, x).Some? {
      Stamped(m.apply(r.op.op, x).value, r.lsn);
    }
  }

  /** Records that the page has seen are skipped. */
  lemma {:induction false} SeenSkipped<Op(!new)>(m: Meaning<Op>, t: Tables, log: seq<Record<Op>>, p: nat, x: Page)
    requires WellMade(m) && |x| == m.size && AllGuarded(m, t, log, p)
    requires forall i :: 0 <= i < |log| ==> log[i].lsn <= Lsn(x) && log[i].lsn < TWO_64
    ensures Run(m, t, log, p, x) == x
    decreases |log|
  {
    hide Step, Unguarded, WellMade, Lsn, Sign;
    BigEnough(m);
    if log != [] {
      var n := |log| - 1;
      SeenSkipped(m, t, log[..n], p, x);
      GuardedStep(m, t, log[n], p, x);
    }
  }

  lemma BigEnough<Op(!new)>(m: Meaning<Op>)
    requires WellMade(m)
    ensures MIN_PAGE <= m.size
  {
  }

  /** Guarded operations alone: a second pass changes nothing. */
  lemma {:induction false} GuardedTwice<Op(!new)>(m: Meaning<Op>, t: Tables, log: seq<Record<Op>>, p: nat, x: Page)
    requires WellMade(m) && |x| == m.size && Increasing(log) && AllGuarded(m, t, log, p)
    ensures Run(m, t, log, p, Run(m, t, log, p, x)) == Run(m, t, log, p, x)
    decreases |log|
  {
    hide Step, Unguarded, WellMade, Lsn, Sign;
    BigEnough(m);
    if log != [] {
      var n := |log| - 1;
      var r, y := log[n], Run(m, t, log[..n], p, x);
      GuardedTwice(m, t, log[..n], p, x);
      var z := Step(m, t, r, p, y);
      GuardedStep(m, t, r, p, y);
      if z != y {
        SeenSkipped(m, t, log[..n], p, z);
        GuardedStep(m, t, r, p, z);
      }
    }
  }

  /**
    Redo is idempotent: on a page whose records are all guarded, or that the log writes anew
    somewhere, a second pass changes nothing.
   */
  lemma PassTwice<Op(!new)>(m: Meaning<Op>, t: Tables, log: seq<Record<Op>>, p: nat, x: Page)
    requires WellMade(m) && |x| == m.size && Increasing(log)
    requires Rewritten(m, t, log, p) || AllGuarded(m, t, log, p)
    ensures Run(m, t, log, p, Run(m, t, log, p, x)) == Run(m, t, log, p, x)
  {
    if Rewritten(m, t, log, p) {
      RewrittenAlike(m, t, log, p, Run(m, t, log, p, x), x);
    } else {
      GuardedTwice(m, t, log, p, x);
    }
  }

  /** What page `p` is after recoveries that were interrupted after so many records each. */
  function Interrupted<Op(!new)>(m: Meaning<Op>, t: Tables, log: seq<Record<Op>>, ks: seq<nat>, p: nat,
                                 x: Page): (y: Page)
    requires WellMade(m) && |x| == m.size && forall i :: 0 <= i < |ks| ==> ks[i] <= |log|
    ensures |y| == m.size
  {
    if ks == [] then x
    else Run(m, t, log[..ks[|ks| - 1]], p, Interrupted(m, t, log, ks[..|ks| - 1], p, x))
  }

  /** However often recovery was interrupted, a pass that gets through ends with what an uninterrupted one gives. */
  lemma {:induction false} Restarted<Op(!new)>(m: Meaning<Op>, t: Tables, log: seq<Record<Op>>, ks: seq<nat>,
                                               p: nat, x: Page)
    requires WellMade(m) && |x| == m.size && Increasing(log)
    requires Rewritten(m, t, log, p) || AllGuarded(m, t, log, p)
    requires forall i :: 0 <= i < |ks| ==> ks[i] <= |log|
    ensures Run(m, t, log, p, Interrupted(m, t, log, ks, p, x)) == Run(m, t, log, p, x)
    decreases |ks|
  {
    hide WellMade, Run, Unguarded;
    if ks != [] {
      var k, y := ks[|ks| - 1], Interrupted(m, t, log, ks[..|ks| - 1], p, x);
      Restarted(m, t, log, ks[..|ks| - 1], p, x);
      if Rewritten(m, t, log, p) {
        RewrittenAlike(m, t, log, p, Run(m, t, log[..k], p, y), y);
      } else {
        GuardedTwice(m, t, log[..k], p, y);
        assert log == log[..k] + log[k..];
        RunConcat(m, t, log[..k], log[k..], p, Run(m, t, log[..k], p, y));
        RunConcat(m, t, log[..k], log[k..], p, y);
      }
    }
  }

  // ----- where it does

  /** How often the log deallocates page `p`. */
  function Releases<Op>(t: Tables, log: seq<Record<Op>>, p: nat): nat {
    if log == [] then 0 else
    var r := log[|log| - 1];
    Releases(t, log[..|log| - 1], p) + if Relevant(t, r) && r.page == p && r.op.Deallocate? then 1 else 0
  }

  /** The record sets the sequence number of page `p` in another way than by counting it up for Deallocate. */
  predicate SetsSeq<Op>(m: Meaning<Op>, t: Tables, r: Record<Op>, p: nat) {
    && Unguarded(m, t, r, p) && r.op.Initialize?
    && (p !in t.cached || (SEQ < r.op.off + |r.op.data| && r.op.off < SEQ + 2))
  }

  /** Guarded operations leave the sequence number alone. */
  ghost predicate KeepsSeq<Op(!new)>(m: Meaning<Op>) {
    && WellMade(m)
    && forall op, x :: |x| == m.size && m.apply(op, x).Some? ==> SeqNo(m.apply(op, x).value) == SeqNo(x)
  }

  lemma ReleasedSeq(x: Page)
    requires MIN_PAGE <= |x|
    ensures SeqNo(Released(x)) == (SeqNo(x) + 1) % TWO_16
  {
    var y := Released(x);
    assert y[SEQ..SEQ + 2] == ToLe((SeqNo(x) + 1) % TWO_16, 2);
    Ranges();
    LeRoundTrip((SeqNo(x) + 1) % TWO_16, 2);
  }

  lemma SeqStep<Op(!new)>(m: Meaning<Op>, t: Tables, r: Record<Op>, p: nat, x: Page)
    requires KeepsSeq(m) && |x| == m.size && !SetsSeq(m, t, r, p) && r.lsn < TWO_64
    ensures SeqNo(Step(m, t, r, p, x))
            == if Relevant(t, r) && r.page == p && r.op.Deallocate? then (SeqNo(x) + 1) % TWO_16 else SeqNo(x)
  {
    hide Stamp, Released, SeqNo, Lsn, Sign;
    if Relevant(t, r) && r.page == p {
      match r.op
      case Deallocate =>
        ReleasedSeq(x);
        Stamped(Released(x), r.lsn);
      case Guarded(op) =>
        if m.apply(op, x).Some? {
          Stamped(m.apply(op, x).value, r.lsn);
        }
      case Initialize(off, data) =>
        if off + |data| <= m.size {
          SeqOutside(x, off, data);
          Stamped(Write(x, off, data), r.lsn);
        }
    }
  }

  lemma SeqOutside(x: Page, off: nat, data: seq<Byte>)
    requires MIN_PAGE <= |x| && off + |data| <= |x| && !(SEQ < off + |data| && off < SEQ + 2)
    ensures SeqNo(Write(x, off, data)) == SeqNo(x)
  {
    assert Write(x, off, data)[SEQ..SEQ + 2] == x[SEQ..SEQ + 2];
  }

  /** Each pass counts the sequence number of a deallocated record up again. */
  lemma {:induction false} ReleasedAgain<Op(!new)>(m: Meaning<Op>, t: Tables, log: seq<Record<Op>>, p: nat, x: Page)
    requires KeepsSeq(m) && |x| == m.size && forall i :: 0 <= i < |log| ==> log[i].lsn < TWO_64
    requires forall i :: 0 <= i < |log| ==> !SetsSeq(m, t, log[i], p)
    ensures SeqNo(Run(m, t, log, p, x)) == (SeqNo(x) + Releases(t, log, p)) % TWO_16
    decreases |log|
  {
    hide Step, SetsSeq, SeqNo;
    SeqBound(x);
    if log != [] {
      var n := |log| - 1;
      ReleasedAgain(m, t, log[..n], p, x);
      SeqStep(m, t, log[n], p, Run(m, t, log[..n], p, x));
    }
  }

  lemma SeqBound(x: Page)
    requires MIN_PAGE <= |x|
    ensures SeqNo(x) < TWO_16
  {
    Ranges();
    LeBound(x[SEQ..SEQ + 2]);
  }

  /** So a page that the log deallocates, and whose sequence number it does not set, is changed by a second pass. */
  lemma PassTwiceDiffers<Op(!new)>(m: Meaning<Op>, t: Tables, log: seq<Record<Op>>, p: nat, x: Page)
    requires KeepsSeq(m) && |x| == m.size && forall i :: 0 <= i < |log| ==> log[i].lsn < TWO_64
    requires (forall i :: 0 <= i < |log| ==> !SetsSeq(m, t, log[i], p)) && 0 < Releases(t, log, p) < TWO_16
    ensures Run(m, t, log, p, Run(m, t, log, p, x)) != Run(m, t, log, p, x)
  {
    hide Run, SetsSeq, SeqNo, Releases;
    ReleasedAgain(m, t, log, p, x);
    ReleasedAgain(m, t, log, p, Run(m, t, log, p, x));
  }

  /** The operation that counts byte `b` of a page up. */
  function CountUp(b: nat, y: Page): (z: Page)
    requires b < |y|
    ensures |z| == |y|
  {
    y[b := Up(y[b])]
  }

  function Up(x: Byte): Byte { if x == 255 then 0 else x + 1 }

  /** A volume whose one guarded operation counts byte `b` up. */
  function Counting<Op(!new)>(size: nat, b: nat): (m: Meaning<Op>)
    requires MIN_PAGE <= b < size
    ensures m.size == size == |m.blank|
    ensures forall op, y :: m.apply(op, y) == if |y| == size then Some(CountUp(b, y)) else None
  {
    Meaning(size, seq(size, _ => 0), 0, (op, y) => if |y| == size then Some(CountUp(b, y)) else None)
  }

  /**
    An Initialize that spares some byte behind the header of a record in memory, and a guarded operation
    after it, are not safe to repeat: each pass takes the LSN back to that of the Initialize and applies
    the operation again. Whatever the Initialize writes, there are an operation and a page on which a
    second pass changes the page.
   */
  lemma PartRepeats<Op(!new)>(t: Tables, i: Record<Op>, g: Record<Op>, p: nat, size: nat, b: nat)
    returns (m: Meaning<Op>, x: Page)
    requires MIN_PAGE <= b < size && i.lsn < g.lsn < TWO_64 && p in t.cached
    requires Relevant(t, i) && i.page == p && i.op.Initialize? && Relevant(t, g) && g.page == p && g.op.Guarded?
    requires 4 <= i.op.off && i.op.off + |i.op.data| <= size && !(i.op.off <= b < i.op.off + |i.op.data|)
    ensures WellMade(m) && m.size == size == |x| && Unguarded(m, t, i, p) && !Rewrites(m, t, i, p)
    ensures Run(m, t, [i, g], p, Run(m, t, [i, g], p, x)) != Run(m, t, [i, g], p, x)
  {
    hide Run, Action, Le;
    m, x := Counting(size, b), seq(size, _ => 0);
    LeZeroes(x[0..4]);
    var z := Run(m, t, [i, g], p, x);
    Counted(m, t, i, g, p, size, b, x);
    Counted(m, t, i, g, p, size, b, z);
  }

  /** One pass counts the byte up by one, whatever the page's LSN was, and leaves its signature. */
  lemma Counted<Op(!new)>(m: Meaning<Op>, t: Tables, i: Record<Op>, g: Record<Op>, p: nat, size: nat, b: nat, x: Page)
    requires MIN_PAGE <= b < size == |x| && m == Counting(size, b) && i.lsn < g.lsn < TWO_64 && p in t.cached
    requires Relevant(t, i) && i.page == p && i.op.Initialize? && Relevant(t, g) && g.page == p && g.op.Guarded?
    requires 4 <= i.op.off && i.op.off + |i.op.data| <= size && !(i.op.off <= b < i.op.off + |i.op.data|)
    requires Sign(x) == 0
    ensures WellMade(m) && Run(m, t, [i, g], p, x)[b] == Up(x[b]) && Sign(Run(m, t, [i, g], p, x)) == 0
  {
    hide Le, Run;
    TwoSteps(m, t, i, g, p, x);
    var y0 := Write(x, i.op.off, i.op.data);
    var y := Stamp(y0, i.lsn);
    assert y0[0..4] == x[0..4];
    Stamped(y0, i.lsn);
    var z0 := CountUp(b, y);
    assert z0[0..4] == y[0..4];
    Stamped(z0, g.lsn);
  }

  lemma TwoSteps<Op(!new)>(m: Meaning<Op>, t: Tables, a: Record<Op>, b: Record<Op>, p: nat, x: Page)
    requires WellMade(m) && |x| == m.size
    ensures Run(m, t, [a, b], p, x) == Step(m, t, b, p, Step(m, t, a, p, x))
  {
    var log := [a, b];
    assert log[..1] == [a] && [a][..0] == [];
    assert Run(m, t, [], p, x) == x;
    assert Run(m, t, [a], p, x) == Step(m, t, a, p, x);
  }

  // ----- which records reach a page

  /** The records a page with LSN `lsn` has not seen. */
  function Newer<Op>(log: seq<Record<Op>>, lsn: nat): seq<Record<Op>> {
    if log == [] then []
    else Newer(log[..|log| - 1], lsn) + if lsn < log[|log| - 1].lsn then [log[|log| - 1]] else []
  }

  /**
    Only records newer than the page matter, in their order; the LSN never goes down; holes and bad
    pages are never touched.
   */
  lemma {:induction false} OnlyNewer<Op(!new)>(m: Meaning<Op>, t: Tables, log: seq<Record<Op>>, p: nat, x: Page)
    requires WellMade(m) && |x| == m.size && Increasing(log) && AllGuarded(m, t, log, p)
    ensures Run(m, t, log, p, x) == Run(m, t, Newer(log, Lsn(x)), p, x)
    ensures Lsn(x) <= Lsn(Run(m, t, log, p, x))
    ensures Sign(x) == HOLE_SIGNATURE || Sign(x) == BAAD_SIGNATURE ==> Run(m, t, log, p, x) == x
    decreases |log|
  {
    hide Step, Unguarded, WellMade, Lsn, Sign;
    BigEnough(m);
    if log != [] {
      var n := |log| - 1;
      OnlyNewer(m, t, log[..n], p, x);
      var before, l := Newer(log[..n], Lsn(x)), [log[n]];
      RunConcat(m, t, before, l, p, x);
      assert l[|l| - 1] == log[n] && l[..|l| - 1] == [];
      assert before + [] == before;
      GuardedStep(m, t, log[n], p, Run(m, t, log[..n], p, x));
    }
  }

  // ----- the loop

  /** The metadata on disk. */
  class Disk<Op(!new)> {
    var pages: map<nat, Page>

    constructor (d: map<nat, Page>)
      ensures pages == d
    {
      pages := d;
    }

    ghost predicate Sized(m: Meaning<Op>)
      reads this
    {
      WellMade(m) && forall p :: p in pages ==> |pages[p]| == m.size
    }

    /** What is on disk after the first `k` records of the log. */
    ghost predicate After(m: Meaning<Op>, t: Tables, log: seq<Record<Op>>, k: nat, before: map<nat, Page>)
      requires WellMade(m) && forall p :: p in before ==> |before[p]| == m.size
      reads this
    {
      && k <= |log| && pages.Keys == before.Keys
      && forall p :: p in before ==> pages[p] == Run(m, t, log[..k], p, before[p])
    }

    /** The record is due, and names an attribute that is not open or a page that cannot be read. */
    ghost predicate Fails(t: Tables, r: Record<Op>)
      reads this
    {
      && r.updates && (r.attr, r.vcn) in t.dirty && t.dirty[(r.attr, r.vcn)] <= r.lsn
      && (r.attr in t.open ==> (r.attr, r.vcn) in t.mapped && !r.cutShort && !r.skippable && r.page !in pages)
    }

    /** One record; an error ends the pass. */
    method Replay(m: Meaning<Op>, t: Tables, r: Record<Op>) returns (err: int)
      requires Sized(m)
      modifies this
      ensures Sized(m) && pages.Keys == old(pages.Keys)
      ensures err == 0 ==> forall p :: p in pages ==> pages[p] == Step(m, t, r, p, old(pages[p]))
      ensures err != 0 ==> pages == old(pages)
      ensures err != 0 <==> old(Fails(t, r))
    {
      hide Action, WellMade;
      if !r.updates || (r.attr, r.vcn) !in t.dirty {
        return 0;
      }
      if r.lsn < t.dirty[(r.attr, r.vcn)] {
        return 0;
      }
      if r.attr !in t.open {
        return EINVAL;
      }
      if (r.attr, r.vcn) !in t.mapped || r.cutShort || r.skippable {
        return 0;
      }
      if r.page !in pages {
        return EIO;
      }
      pages := pages[r.page := Action(m, t, r, pages[r.page])];
      return 0;
    }

    /** The redo loop: every page gets what the log does to it, up to where an error ends the pass. */
    method RedoPass(m: Meaning<Op>, t: Tables, log: seq<Record<Op>>) returns (err: int, done: nat)
      requires Sized(m)
      modifies this
      ensures Sized(m) && After(m, t, log, done, old(pages))
      ensures err == 0 ==> done == |log|
      ensures err != 0 ==> done < |log| && Fails(t, log[done])
      ensures forall k :: 0 <= k < done ==> !Fails(t, log[k])
    {
      hide Step, WellMade;
      err, done := 0, 0;
      while done < |log|
        invariant done <= |log| && Sized(m) && After(m, t, log, done, old(pages)) && err == 0
        invariant forall k :: 0 <= k < done ==> !Fails(t, log[k])
      {
        ghost var now := pages;
        err := Replay(m, t, log[done]);
        if err != 0 {
          return;
        }
        assert log[..done + 1][..done] == log[..done];
        done := done + 1;
      }
    }
  }
}
