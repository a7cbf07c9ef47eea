/**
  The passes of log_replay in fslog.c over the transaction table: the analysis pass that fills it and
  the undo pass that empties it.
 */
module Recovery {
  import opened Extents
  import opened Kernel
  import opened RestartTable

  // ----- the transaction table

  datatype State = Uninitialized | Active | Prepared | Committed

  /** struct TRANSACTION_ENTRY behind its first word. */
  datatype Trans = Trans(state: State, first: nat, prev: nat, undoNext: nat)

  const TRANS_SIZE: nat := 0x28
  const INITIAL_NUMBER_TRANSACTIONS: nat := 5
  const NO_TRANS: Trans := Trans(Uninitialized, 0, 0, 0)

  /** What the analysis pass does with a redo operation, as far as transactions go. */
  datatype Redo = EndTopLevelAction | PrepareTransaction | CommitTransaction | ForgetTransaction | OtherRedo

  /** A log record; `checked` is the verdict of check_log_rec, `client` that it is a client record. */
  datatype Record = Record(lsn: nat, checked: bool, client: bool, id: nat, redo: Redo,
                           compensation: bool, undoNext: nat)

  function Get<T>(m: map<nat, T>, id: nat): Option<T> {
    if id in m then Some(m[id]) else None
  }

  /** The entry of a transaction after its record was noticed: created if need be, LSNs moved on. */
  function Touched(t: Option<Trans>, r: Record): Trans {
    (if t.Some? then t.value else Trans(Active, r.lsn, r.lsn, r.lsn))
      .(prev := r.lsn, undoNext := if r.compensation then r.undoNext else r.lsn)
  }

  /** What one record of a transaction does to that transaction's entry. */
  function StepOne(t: Option<Trans>, r: Record): Option<Trans> {
    match r.redo
    case EndTopLevelAction => Some(Touched(t, r).(undoNext := r.undoNext))
    case PrepareTransaction => Some(Touched(t, r).(state := Prepared))
    case CommitTransaction => Some(Touched(t, r).(state := Committed))
    case ForgetTransaction => None
    case OtherRedo => Some(Touched(t, r))
  }

  function Put<T>(m: map<nat, T>, id: nat, t: Option<T>): map<nat, T> {
    if t.Some? then m[id := t.value] else m - {id}
  }

  /** One record, on the map of all transactions. */
  function Step(m: map<nat, Trans>, r: Record): map<nat, Trans> {
    if r.client then Put(m, r.id, StepOne(Get(m, r.id), r)) else m
  }

  /** The log, folded over the map of transactions. */
  function Fold(m: map<nat, Trans>, log: seq<Record>): map<nat, Trans> {
    if log == [] then m else Step(Fold(m, log[..|log| - 1]), log[|log| - 1])
  }

  /** The analysis pass: `log` is what read_next_log_rec yields after the checkpoint. */
  method Analyze(start: Option<Table<Trans>>, log: seq<Record>, memory: Memory) returns (err: int, t: Table<Trans>)
    requires start.Some? ==> TransTable(start.value)
    requires forall k :: 0 <= k < |log| && log[k].checked ==> IsEntry(TRANS_SIZE, log[k].id)
    modifies if start.Some? then {start.value} else {}
    ensures err == 0 || err == EINVAL || err == ENOMEM
    ensures err == 0 ==> TransTable(t) && t.View() == Fold(if start.Some? then old(start.value.View()) else map[], log)
    ensures err == 0 ==> forall k :: 0 <= k < |log| ==> log[k].checked
    ensures err == EINVAL ==> exists k :: 0 <= k < |log| && !log[k].checked
    ensures err == ENOMEM ==>
              && (if start.Some? then old(start.value.memory) else memory) != Plenty
              && exists k :: 0 <= k < |log| && log[k].client
                             && StartBytes(if start.Some? then Some(old(start.value.Bytes())) else None) <= log[k].id
  {
    hide TransTable, Entries, Step;
    t := GetTable(start, memory);
    ghost var m0, used0, mem := t.View(), t.used, t.memory;
    err := 0;
    var k := 0;
    while k < |log|
      invariant k <= |log| && TransTable(t)
      invariant t.View() == Fold(m0, log[..k]) && forall j :: 0 <= j < k ==> log[j].checked
      invariant (start.None? ==> fresh(t)) && used0 <= t.used && t.memory == mem
    {
      var r := log[k];
      assert log[..k + 1][..k] == log[..k];
      if !r.checked {
        return EINVAL, t;
      }
      if r.client {
        ghost var n := t.used;
        var ok := Apply(t, r);
        if !ok {
          OffUpto(TRANS_SIZE, used0, n);
          return ENOMEM, t;
        }
      } else {
        NotClient(t.View(), r);
      }
      k := k + 1;
    }
    assert log[..k] == log;
  }

  /** How long the table is that the pass starts from: the one given, or a new one. */
  function StartBytes(bytes: Option<nat>): nat {
    if bytes.Some? then bytes.value else Off(TRANS_SIZE, INITIAL_NUMBER_TRANSACTIONS)
  }

  method GetTable(start: Option<Table<Trans>>, memory: Memory) returns (t: Table<Trans>)
    requires start.Some? ==> TransTable(start.value)
    ensures TransTable(t)
    ensures start.Some? ==> t == start.value
    ensures start.None? ==> fresh(t) && t.View() == map[] && t.used == INITIAL_NUMBER_TRANSACTIONS && t.memory == memory
  {
    if start.Some? {
      t := start.value;
    } else {
      t := new Table<Trans>(TRANS_SIZE, INITIAL_NUMBER_TRANSACTIONS, NO_TRANS, memory);
    }
  }

  ghost predicate TransTable(t: Table<Trans>)
    reads t
  {
    t.Valid() && t.esize == TRANS_SIZE && t.zero == NO_TRANS
  }

  /** Lines 4429-4449: find or allocate the entry and move its LSNs on. */
  method Touch(t: Table<Trans>, r: Record) returns (ok: bool, e: Trans)
    requires TransTable(t) && IsEntry(TRANS_SIZE, r.id)
    modifies t
    ensures TransTable(t)
    ensures ok ==> e == Touched(Get(old(t.View()), r.id), r) && t.View() == old(t.View())[r.id := e]
    ensures !ok ==> old(t.Bytes()) <= r.id && t.memory != Plenty
    ensures t.memory == old(t.memory) && old(t.used) <= t.used
  {
    hide Entries, IsEntry, FreeList, OffSet;
    ghost var m := t.View();
    ok, e := true, NO_TRANS;
    var holds := t.Holds(r.id);
    if !holds {
      ok := t.AllocFrom(r.id);
      if !ok {
        return;
      }
      e := t.Read(r.id);
      e := e.(state := Active, first := r.lsn);
    } else {
      e := t.Read(r.id);
    }
    e := e.(prev := r.lsn, undoNext := r.lsn);
    if r.compensation {
      e := e.(undoNext := r.undoNext);
    }
    t.Write(r.id, e);
    Overwritten(m, r.id, NO_TRANS, e);
  }

  /** One client record on the table (lines 4429-4449 and 4628-4646). */
  method Apply(t: Table<Trans>, r: Record) returns (ok: bool)
    requires TransTable(t) && IsEntry(TRANS_SIZE, r.id) && r.client
    modifies t
    ensures TransTable(t) && (ok ==> t.View() == Step(old(t.View()), r))
    ensures !ok ==> old(t.Bytes()) <= r.id && t.memory != Plenty
    ensures t.memory == old(t.memory) && old(t.used) <= t.used
  {
    hide Entries, IsEntry, FreeList, OffSet, Touched;
    ghost var m := t.View();
    var e;
    ok, e := Touch(t, r);
    if !ok || r.redo.OtherRedo? {
      return;
    }
    ghost var e0 := e;
    if r.redo.ForgetTransaction? {
      t.Free(r.id);
      Overwritten(m, r.id, e, e);
      return;
    }
    if r.redo.EndTopLevelAction? {
      e := e.(prev := r.lsn, undoNext := r.undoNext);
    } else if r.redo.PrepareTransaction? {
      e := e.(state := Prepared);
    } else {
      e := e.(state := Committed);
    }
    t.Write(r.id, e);
    Overwritten(m, r.id, e0, e);
    PrevIs(Get(m, r.id), r);
  }

  lemma Overwritten<T>(m: map<nat, T>, id: nat, a: T, b: T)
    ensures m[id := a][id := b] == m[id := b] && m[id := a] - {id} == m - {id}
  {
  }

  lemma PrevIs(t: Option<Trans>, r: Record)
    ensures Touched(t, r).prev == r.lsn
  {
  }

  lemma NotClient(m: map<nat, Trans>, r: Record)
    requires !r.client
    ensures Step(m, r) == m
  {
  }

  // ----- what the fold means

  /** The client records of one transaction, in log order. */
  function RecordsOf(log: seq<Record>, id: nat): seq<Record> {
    if log == [] then []
    else
      var r := log[|log| - 1];
      RecordsOf(log[..|log| - 1], id) + if r.client && r.id == id then [r] else []
  }

  function FoldOne(t: Option<Trans>, rs: seq<Record>): Option<Trans> {
    if rs == [] then t else StepOne(FoldOne(t, rs[..|rs| - 1]), rs[|rs| - 1])
  }

  /** A transaction's entry depends on its own records only. */
  lemma {:induction false} Independent(m: map<nat, Trans>, log: seq<Record>, id: nat)
    ensures Get(Fold(m, log), id) == FoldOne(Get(m, id), RecordsOf(log, id))
    decreases |log|
  {
    hide StepOne;
    if log != [] {
      var l, r := log[..|log| - 1], log[|log| - 1];
      Independent(m, l, id);
      var rs := RecordsOf(l, id);
      if r.client && r.id == id {
        assert (rs + [r])[..|rs|] == rs;
      } else {
        assert rs + [] == rs;
      }
    }
  }

  predicate Forgets(r: Record) { r.redo.ForgetTransaction? }

  /** The state that the last deciding one of these records gives, or the state before them. */
  function StateAfter(before: State, rs: seq<Record>): State {
    if rs == [] then before
    else if rs[|rs| - 1].redo.PrepareTransaction? then Prepared
    else if rs[|rs| - 1].redo.CommitTransaction? then Committed
    else StateAfter(before, rs[..|rs| - 1])
  }

  ghost predicate NeverForgotten(rs: seq<Record>) {
    forall j :: 0 <= j < |rs| ==> !Forgets(rs[j])
  }

  /** A transaction that is listed before these records and not forgotten by them keeps its first LSN. */
  lemma {:induction false} StillListed(t: Option<Trans>, rs: seq<Record>)
    requires t.Some? && NeverForgotten(rs)
    ensures var e := FoldOne(t, rs);
            e.Some? && e.value.first == t.value.first && e.value.state == StateAfter(t.value.state, rs)
    decreases |rs|
  {
    if rs != [] {
      StillListed(t, rs[..|rs| - 1]);
    }
  }

  /** Record `k` opens the transaction that is still listed at the end: nothing was listed before, no Forget follows. */
  ghost predicate Opens(listed: bool, rs: seq<Record>, k: nat) {
    && k < |rs| && (if k == 0 then !listed else Forgets(rs[k - 1]))
    && forall j :: k <= j < |rs| ==> !Forgets(rs[j])
  }

  /** From the record that opens a transaction, with no Forget after it, the entry is alive and keeps its first LSN. */
  lemma {:induction false} Alive(t: Option<Trans>, rs: seq<Record>, k: nat)
    requires Opens(t.Some?, rs, k)
    ensures var e := FoldOne(t, rs);
            e.Some? && e.value.first == rs[k].lsn && e.value.state == StateAfter(Active, rs[k..])
    decreases |rs|
  {
    var l := rs[..|rs| - 1];
    assert rs[k..][..|rs| - 1 - k] == l[k..];
    if k + 1 < |rs| {
      Alive(t, l, k);
    } else {
      assert rs[k..] == [rs[k]] && l[k..] == [];
      assert FoldOne(t, l).None?;
    }
  }

  lemma NothingFolded(t: Option<Trans>)
    ensures FoldOne(t, []) == t
  {
  }

  /** What the last record of a transaction leaves. */
  lemma LastDecides(t: Option<Trans>, rs: seq<Record>)
    requires rs != []
    ensures LastMeans(rs[|rs| - 1], FoldOne(t, rs))
  {
  }

  /**
    What a transaction's entry `e` after analysis is, read off its records and its entry `t` at the
    checkpoint. It is listed unless its last record forgets it. Its previous LSN is its last record's,
    and its undo goes on from there unless that record is a compensation or ends a top-level action,
    which redirect it. Its first LSN is that of the record that opened it, or the one it had; its
    state is what the last deciding record since then says, or else Active, or the one it had.
   */
  ghost predicate Means(t: Option<Trans>, rs: seq<Record>, e: Option<Trans>) {
    && (rs == [] ==> e == t)
    && (rs != [] ==> LastMeans(rs[|rs| - 1], e))
    && (forall k: nat :: Opens(t.Some?, rs, k) ==>
          e.Some? && e.value.first == rs[k].lsn && e.value.state == StateAfter(Active, rs[k..]))
    && (t.Some? && NeverForgotten(rs) ==>
          e.Some? && e.value.first == t.value.first && e.value.state == StateAfter(t.value.state, rs))
  }

  ghost predicate LastMeans(r: Record, e: Option<Trans>) {
    && (e.None? <==> Forgets(r))
    && (e.Some? ==> e.value.prev == r.lsn)
    && (e.Some? ==> e.value.undoNext == if r.compensation || r.redo.EndTopLevelAction? then r.undoNext else r.lsn)
  }

  lemma EntryMeans(t: Option<Trans>, rs: seq<Record>)
    ensures Means(t, rs, FoldOne(t, rs))
  {
    hide FoldOne, Forgets, StateAfter, LastMeans;
    NothingFolded(t);
    if rs != [] {
      LastDecides(t, rs);
    }
    if t.Some? && NeverForgotten(rs) {
      StillListed(t, rs);
    }
    forall k: nat | Opens(t.Some?, rs, k)
      ensures var e := FoldOne(t, rs);
              e.Some? && e.value.first == rs[k].lsn && e.value.state == StateAfter(Active, rs[k..])
    {
      Alive(t, rs, k);
    }
  }

  /** The transaction table after analysis: every transaction's entry is what its own records make of it. */
  lemma AnalysisMeaning(m: map<nat, Trans>, log: seq<Record>, id: nat)
    ensures Means(Get(m, id), RecordsOf(log, id), Get(Fold(m, log), id))
  {
    hide Fold, FoldOne, RecordsOf, Means;
    Independent(m, log, id);
    EntryMeans(Get(m, id), RecordsOf(log, id));
  }

  // ----- the undo pass

  predicate NeedsUndo(e: Trans) {
    e.state == Active && e.undoNext != 0
  }

  /** The part of `m` that an enumeration standing at `c` has yet to meet. */
  ghost function Rest<T>(m: map<nat, T>, c: Option<nat>): map<nat, T> {
    map off | off in m && After(c, off) :: m[off]
  }

  /** Meeting the next entry takes just that entry off the rest. */
  lemma RestNext<T>(m: map<nat, T>, c: Option<nat>, off: nat)
    requires off in m && After(c, off) && forall x :: x in Rest(m, c) ==> off <= x
    ensures Rest(m, Some(off)) == Rest(m, c) - {off}
  {
    assert forall x :: x in m && After(c, x) ==> x in Rest(m, c);
  }

  /** `undone` lists, in ascending order, the entries met so far that needed undo. */
  ghost predicate Undone(m: map<nat, Trans>, c: Option<nat>, undone: seq<nat>) {
    && (forall i, j :: 0 <= i < j < |undone| ==> undone[i] < undone[j])
    && (forall id :: id in undone ==> id in m && !After(c, id) && NeedsUndo(m[id]))
    && (forall id :: id in m && !After(c, id) && NeedsUndo(m[id]) ==> id in undone)
  }

  lemma UndoneNext(m: map<nat, Trans>, c: Option<nat>, undone: seq<nat>, off: nat)
    requires Undone(m, c, undone) && off in m && After(c, off) && forall x :: x in Rest(m, c) ==> off <= x
    ensures Undone(m, Some(off), if NeedsUndo(m[off]) then undone + [off] else undone)
  {
    assert forall x :: x in m && After(c, x) ==> x in Rest(m, c);
    forall i | 0 <= i < |undone|
      ensures undone[i] < off
    {
      assert undone[i] in undone;
    }
  }

  /**
    The undo pass: entries are freed while they are being enumerated. `undoable` says of which
    transactions the records can be read and undone (lines 5015-5100); the pass gets through exactly if
    all that need it are, and else ends at the first that is not.
   */
  method Undo(t: Table<Trans>, undoable: nat -> bool) returns (ok: bool, undone: seq<nat>)
    requires t.Valid()
    modifies t
    ensures t.Valid()
    ensures forall i, j :: 0 <= i < j < |undone| ==> undone[i] < undone[j]
    ensures forall id :: id in undone ==> id in old(t.View()) && NeedsUndo(old(t.View())[id])
    ensures ok ==> t.View() == map[]
    ensures ok <==> forall id :: id in old(t.View()) && NeedsUndo(old(t.View())[id]) ==> undoable(id)
    ensures forall id :: id in undone ==> undoable(id)
    ensures ok ==> forall id :: id in old(t.View()) && NeedsUndo(old(t.View())[id]) ==> id in undone
  {
    hide FreeList, OffSet, Entries;
    ghost var m := t.View();
    ok, undone := true, [];
    var c: Option<nat> := None;
    assert Rest(m, c) == m;
    while true
      invariant t.Valid() && (c.Some? ==> c.value in t.slots)
      invariant t.View() == Rest(m, c) && Undone(m, c, undone) && ok && forall id :: id in undone ==> undoable(id)
      decreases t.View().Keys
    {
      var e := t.Next(c);
      if e.None? {
        AllMet(m, c, undone);
        break;
      }
      var id := e.value;
      RestNext(m, c, id);
      UndoneNext(m, c, undone, id);
      var tr := t.Read(id);
      t.EntryIsSlot(id);
      if tr.state == Active && tr.undoNext != 0 {
        if !undoable(id) {
          return false, undone;
        }
        undone := undone + [id];
      }
      t.Free(id);
      c := e;
    }
  }

  lemma AllMet(m: map<nat, Trans>, c: Option<nat>, undone: seq<nat>)
    requires Undone(m, c, undone) && forall off :: off in Rest(m, c) ==> !After(c, off)
    ensures Rest(m, c) == map[]
    ensures forall id :: id in m && NeedsUndo(m[id]) ==> id in undone
  {
    assert forall x :: x in m && After(c, x) ==> x in Rest(m, c);
  }
}
