/**
  Restart tables of fslog.c: fixed-size entries in one block of memory, each either allocated or
  a link of a free list that is threaded through the entries themselves.
 */
module RestartTable {
  import opened Extents
  import opened Bits
  import opened Kernel

  const HDR: nat := 0x18                  // sizeof(struct RESTART_TABLE)
  const ALLOCATED: nat := 0xFFFF_FFFF     // RESTART_ENTRY_ALLOCATED
  const NO_GOAL: nat := 0xFFFF_FFFF       // ~0u

  /** An entry: its first word, and the rest. */
  datatype Slot<T> = Slot(next: nat, data: T)

  /** Offset of entry `i` from the start of the table. */
  function Off(esize: nat, i: nat): nat {
    HDR + Base(esize, i)
  }

  /** The link that follows position `k` of the free list. */
  function Link(chain: seq<nat>, k: nat): nat {
    if k + 1 < |chain| then chain[k + 1] else 0
  }

  ghost predicate Links<T>(slots: map<nat, Slot<T>>, chain: seq<nat>) {
    forall k :: 0 <= k < |chain| ==> chain[k] in slots && slots[chain[k]].next == Link(chain, k)
  }

  ghost predicate Distinct(chain: seq<nat>) {
    forall a, b :: 0 <= a < b < |chain| ==> chain[a] != chain[b]
  }

  /** The chain visits exactly the unallocated entries. */
  ghost predicate Visits<T(!new)>(slots: map<nat, Slot<T>>, chain: seq<nat>) {
    && (forall off :: off in slots && slots[off].next != ALLOCATED ==> off in chain)
    && (forall off :: off in chain ==> off in slots && slots[off].next != ALLOCATED)
  }

  /** Offsets are never mistaken for "none" or "allocated". */
  ghost predicate Offsets<T(!new)>(slots: map<nat, Slot<T>>) {
    forall off :: off in slots ==> HDR <= off < ALLOCATED
  }

  ghost predicate Ends(chain: seq<nat>, first: nat, last: nat) {
    && first == (if chain == [] then 0 else chain[0])
    && last == (if chain == [] then 0 else chain[|chain| - 1])
  }

  /**
    `chain` is the free list: it visits distinct entries, exactly the unallocated ones, each of
    which links to the next; `first` and `last` are its ends.
   */
  ghost predicate FreeList<T(!new)>(slots: map<nat, Slot<T>>, chain: seq<nat>, first: nat, last: nat) {
    Links(slots, chain) && Distinct(chain) && Visits(slots, chain) && Offsets(slots) && Ends(chain, first, last)
  }

  /** The allocated entries, by offset. */
  ghost function Entries<T>(slots: map<nat, Slot<T>>): map<nat, T> {
    map off | off in slots && slots[off].next == ALLOCATED :: slots[off].data
  }

  /** Only entry `off` changed between allocated and free, or its contents changed. */
  ghost predicate OnlyAt<T(!new)>(a: map<nat, Slot<T>>, b: map<nat, Slot<T>>, off: nat) {
    && a.Keys == b.Keys
    && forall x :: x in a && x != off ==>
         (a[x].next == ALLOCATED <==> b[x].next == ALLOCATED) && a[x].data == b[x].data
  }

  lemma EntriesFreed<T(!new)>(a: map<nat, Slot<T>>, b: map<nat, Slot<T>>, off: nat)
    requires OnlyAt(a, b, off) && off in b && b[off].next != ALLOCATED
    ensures Entries(b) == Entries(a) - {off}
  {
  }

  lemma EntriesPut<T(!new)>(a: map<nat, Slot<T>>, b: map<nat, Slot<T>>, off: nat)
    requires OnlyAt(a, b, off) && off in b && b[off].next == ALLOCATED
    ensures Entries(b) == Entries(a)[off := b[off].data]
  {
  }

  /** `b` is `a` with new first words at `off` and at most one other free entry. */
  lemma LinksUnder<T(!new)>(a: map<nat, Slot<T>>, b: map<nat, Slot<T>>, off: nat, chain: seq<nat>)
    requires Visits(a, chain) && a.Keys == b.Keys && off in a && a[off].next == ALLOCATED && b[off].next != ALLOCATED
    requires forall x :: x in a && x != off ==> (a[x].next == ALLOCATED <==> b[x].next == ALLOCATED)
    ensures Visits(b, [off] + chain) && Visits(b, chain + [off])
  {
    assert forall x :: x in [off] + chain <==> x == off || x in chain;
    assert forall x :: x in chain + [off] <==> x == off || x in chain;
  }

  lemma DistinctPush<T(!new)>(slots: map<nat, Slot<T>>, chain: seq<nat>, off: nat)
    requires Distinct(chain) && Visits(slots, chain) && off in slots && slots[off].next == ALLOCATED
    ensures Distinct([off] + chain) && Distinct(chain + [off])
  {
    assert off !in chain;
  }

  lemma FrontLinks<T(!new)>(slots: map<nat, Slot<T>>, chain: seq<nat>, first: nat, last: nat, off: nat, d: T)
    requires Links(slots, chain) && Ends(chain, first, last) && off !in chain && off in slots
    ensures Links(slots[off := Slot(first, d)], [off] + chain)
    ensures Ends([off] + chain, off, if chain == [] then off else last)
  {
    var slots', chain' := slots[off := Slot(first, d)], [off] + chain;
    forall k | 0 <= k < |chain'|
      ensures chain'[k] in slots' && slots'[chain'[k]].next == Link(chain', k)
    {
      assert 0 < k ==> chain'[k] == chain[k - 1] && chain[k - 1] in chain;
    }
  }

  lemma BackLinks<T(!new)>(slots: map<nat, Slot<T>>, chain: seq<nat>, first: nat, last: nat, off: nat, d: T,
                           slots1: map<nat, Slot<T>>)
    requires Links(slots, chain) && Distinct(chain) && Ends(chain, first, last) && off !in chain && off in slots
    requires chain != [] ==> last in slots
    requires slots1 == if chain != [] then slots[last := slots[last].(next := off)] else slots
    ensures Links(slots1[off := Slot(0, d)], chain + [off])
    ensures Ends(chain + [off], if chain != [] then first else off, off)
  {
    var slots', chain' := slots1[off := Slot(0, d)], chain + [off];
    forall k | 0 <= k < |chain'|
      ensures chain'[k] in slots' && slots'[chain'[k]].next == Link(chain', k)
    {
      assert k < |chain| ==> chain'[k] == chain[k] && chain[k] in chain;
      assert k + 1 < |chain| ==> chain[k] != chain[|chain| - 1];
    }
  }

  /** The ends of the list are entries of it. */
  lemma EndsInside<T(!new)>(slots: map<nat, Slot<T>>, chain: seq<nat>, first: nat, last: nat)
    requires FreeList(slots, chain, first, last)
    ensures (first == 0 <==> chain == []) && (last == 0 <==> chain == [])
    ensures chain != [] ==> first in slots && last in slots && slots[last].next == 0
    ensures first != ALLOCATED && last != ALLOCATED
    ensures forall off :: off in slots && slots[off].next == ALLOCATED ==> off !in chain
  {
    assert chain != [] ==> chain[0] in chain && chain[|chain| - 1] in chain;
    assert chain != [] ==> slots[chain[|chain| - 1]].next == Link(chain, |chain| - 1);
  }

  /** Entry `off`, allocated, becomes the head of the list. */
  lemma PushFront<T(!new)>(slots: map<nat, Slot<T>>, chain: seq<nat>, first: nat, last: nat, off: nat, d: T)
    requires FreeList(slots, chain, first, last) && off in slots && slots[off].next == ALLOCATED
    ensures FreeList(slots[off := Slot(first, d)], [off] + chain, off, if last == 0 then off else last)
    ensures OnlyAt(slots, slots[off := Slot(first, d)], off) && first != ALLOCATED
  {
    hide Links, Distinct, Visits, Ends;
    var slots' := slots[off := Slot(first, d)];
    EndsInside(slots, chain, first, last);
    DistinctPush(slots, chain, off);
    LinksUnder(slots, slots', off, chain);
    FrontLinks(slots, chain, first, last, off, d);
  }

  /** Entry `off`, allocated, becomes the tail of the list. */
  lemma PushBack<T(!new)>(slots: map<nat, Slot<T>>, chain: seq<nat>, first: nat, last: nat, off: nat, d: T,
                          slots1: map<nat, Slot<T>>)
    requires FreeList(slots, chain, first, last) && off in slots && slots[off].next == ALLOCATED
    requires last != 0 ==> last in slots
    requires slots1 == if last != 0 then slots[last := slots[last].(next := off)] else slots
    ensures FreeList(slots1[off := Slot(0, d)], chain + [off], if last != 0 then first else off, off)
    ensures OnlyAt(slots, slots1[off := Slot(0, d)], off)
  {
    hide Links, Distinct, Visits, Ends;
    var slots' := slots1[off := Slot(0, d)];
    EndsInside(slots, chain, first, last);
    DistinctPush(slots, chain, off);
    LinksUnder(slots, slots', off, chain);
    BackLinks(slots, chain, first, last, off, d, slots1);
  }

  function Without(chain: seq<nat>, k: nat): (c: seq<nat>)
    requires k < |chain|
    ensures |c| == |chain| - 1
    ensures forall j :: 0 <= j < |c| ==> c[j] == chain[if j < k then j else j + 1]
  {
    chain[..k] + chain[k + 1..]
  }

  lemma WithoutLink<T(!new)>(slots: map<nat, Slot<T>>, chain: seq<nat>, k: nat, d: T, slots1: map<nat, Slot<T>>, j: nat)
    requires Links(slots, chain) && Distinct(chain) && k < |chain| && j + 1 < |chain|
    requires slots1 == if k == 0 then slots
             else slots[chain[k - 1] := slots[chain[k - 1]].(next := slots[chain[k]].next)]
    ensures var slots', i := slots1[chain[k] := Slot(ALLOCATED, d)], if j < k then j else j + 1;
            && chain[i] in slots'
            && slots'[chain[i]].next == if i == k - 1 then Link(chain, k) else Link(chain, i)
  {
    var i := if j < k then j else j + 1;
    assert chain[i] in slots && slots[chain[i]].next == Link(chain, i) && chain[i] != chain[k];
    assert 0 < k && i != k - 1 ==> chain[i] != chain[k - 1];
    assert slots[chain[k]].next == Link(chain, k);
  }

  lemma WithoutLinks<T(!new)>(slots: map<nat, Slot<T>>, chain: seq<nat>, k: nat, d: T, slots1: map<nat, Slot<T>>)
    requires Links(slots, chain) && Distinct(chain) && k < |chain|
    requires slots1 == if k == 0 then slots
             else slots[chain[k - 1] := slots[chain[k - 1]].(next := slots[chain[k]].next)]
    ensures Links(slots1[chain[k] := Slot(ALLOCATED, d)], Without(chain, k))
  {
    hide Links, Distinct;
    var slots', chain' := slots1[chain[k] := Slot(ALLOCATED, d)], Without(chain, k);
    forall j | 0 <= j < |chain'|
      ensures chain'[j] in slots' && slots'[chain'[j]].next == Link(chain', j)
    {
      WithoutLink(slots, chain, k, d, slots1, j);
    }
    MakeLinks(slots', chain');
  }

  lemma MakeLinks<T(!new)>(slots: map<nat, Slot<T>>, chain: seq<nat>)
    requires forall k :: 0 <= k < |chain| ==> chain[k] in slots && slots[chain[k]].next == Link(chain, k)
    ensures Links(slots, chain)
  {
  }

  lemma WithoutEnds<T(!new)>(slots: map<nat, Slot<T>>, chain: seq<nat>, first: nat, last: nat, k: nat)
    requires Links(slots, chain) && Ends(chain, first, last) && k < |chain|
    ensures Ends(Without(chain, k), if k == 0 then slots[chain[0]].next else first,
                 if Without(chain, k) == [] then 0 else if k + 1 == |chain| then chain[k - 1] else last)
  {
    assert slots[chain[0]].next == Link(chain, 0);
  }

  /** Position `k` of the chain is taken out and its entry allocated. */
  lemma TakeOut<T(!new)>(slots: map<nat, Slot<T>>, chain: seq<nat>, first: nat, last: nat, k: nat, d: T,
                         slots1: map<nat, Slot<T>>)
    requires FreeList(slots, chain, first, last) && k < |chain|
    requires chain[k] in slots && (0 < k ==> chain[k - 1] in slots)
    requires slots1 == if k == 0 then slots
             else slots[chain[k - 1] := slots[chain[k - 1]].(next := slots[chain[k]].next)]
    ensures FreeList(slots1[chain[k] := Slot(ALLOCATED, d)], Without(chain, k),
                     if k == 0 then slots[chain[0]].next else first,
                     if Without(chain, k) == [] then 0 else if k + 1 == |chain| then chain[k - 1] else last)
    ensures OnlyAt(slots, slots1[chain[k] := Slot(ALLOCATED, d)], chain[k])
  {
    hide Links, Ends;
    WithoutLinks(slots, chain, k, d, slots1);
    WithoutEnds(slots, chain, first, last, k);
    TakenMembers(chain, k);
    WithoutDistinct(chain, k);
    FollowsFree(slots, chain, k);
  }

  /** The link of a free entry is never the allocated mark. */
  lemma FollowsFree<T(!new)>(slots: map<nat, Slot<T>>, chain: seq<nat>, k: nat)
    requires Links(slots, chain) && Visits(slots, chain) && Offsets(slots) && k < |chain|
    ensures chain[k] in slots && slots[chain[k]].next != ALLOCATED && chain[k] in chain
    ensures 0 < k ==> chain[k - 1] in slots && slots[chain[k - 1]].next != ALLOCATED && chain[k - 1] in chain
  {
  }

  lemma WithoutDistinct(chain: seq<nat>, k: nat)
    requires Distinct(chain) && k < |chain|
    ensures Distinct(Without(chain, k))
  {
    var chain' := Without(chain, k);
    forall a, b | 0 <= a < b < |chain'|
      ensures chain'[a] != chain'[b]
    {
      assert chain'[a] == chain[if a < k then a else a + 1] && chain'[b] == chain[if b < k then b else b + 1];
    }
  }

  lemma TakenMembers(chain: seq<nat>, k: nat)
    requires Distinct(chain) && k < |chain|
    ensures forall x :: x in Without(chain, k) <==> x in chain && x != chain[k]
  {
    var chain' := Without(chain, k);
    forall x | x in chain && x != chain[k]
      ensures x in chain'
    {
      var i :| 0 <= i < |chain| && chain[i] == x;
      assert chain'[if i < k then i else i - 1] == x;
    }
    forall x | x in chain'
      ensures x in chain && x != chain[k]
    {
      var j :| 0 <= j < |chain'| && chain'[j] == x;
      assert x == chain[if j < k then j else j + 1];
    }
  }

  // ----- fresh entries

  lemma OffUpto(esize: nat, a: nat, b: nat)
    requires a <= b
    ensures Off(esize, a) <= Off(esize, b)
  {
    if a < b {
      BaseOrder(esize, a, b);
    }
  }

  lemma OffOrder(esize: nat, a: nat, b: nat)
    requires a < b
    ensures Off(esize, a) + esize <= Off(esize, b)
  {
    BaseOrder(esize, a, b);
  }

  /** Table offsets fit in 32 bits and never reach the allocated mark. */
  lemma {:induction false} OffBound(esize: nat, i: nat)
    requires esize < TWO_16
    ensures HDR <= Off(esize, i) <= HDR + 0xFFFF * i
    decreases i
  {
    if 0 < i {
      OffBound(esize, i - 1);
    }
  }

  /** The offsets of the first `n` entries. */
  ghost function OffSet(esize: nat, n: nat): set<nat> {
    if n == 0 then {} else OffSet(esize, n - 1) + {Off(esize, n - 1)}
  }

  lemma {:induction false} OffSetHas(esize: nat, n: nat, i: nat)
    requires i < n
    ensures Off(esize, i) in OffSet(esize, n)
    decreases n
  {
    if i + 1 < n {
      OffSetHas(esize, n - 1, i);
    }
  }

  lemma {:induction false} OffSetIndex(esize: nat, n: nat, off: nat) returns (i: nat)
    requires off in OffSet(esize, n)
    ensures i < n && off == Off(esize, i)
    decreases n
  {
    if off in OffSet(esize, n - 1) {
      i := OffSetIndex(esize, n - 1, off);
    } else {
      i := n - 1;
    }
  }

  /** The next offset is new, and the set has as many members as entries. */
  lemma {:induction false} OffSetNew(esize: nat, n: nat)
    requires 0 < esize
    ensures Off(esize, n) !in OffSet(esize, n) && |OffSet(esize, n)| == n
    ensures OffSet(esize, n + 1) == OffSet(esize, n) + {Off(esize, n)}
    decreases n
  {
    if Off(esize, n) in OffSet(esize, n) {
      var i := OffSetIndex(esize, n, Off(esize, n));
      OffOrder(esize, i, n);
    }
    if 0 < n {
      OffSetNew(esize, n - 1);
    }
  }

  /** `vbo` is the offset of an entry that a table of at most 65535 entries can have. */
  ghost predicate IsEntry(esize: nat, vbo: nat) {
    exists i: nat :: i + 1 < TWO_16 && vbo == Off(esize, i)
  }

  lemma {:induction false} BaseDiff(w: nat, a: nat, b: nat)
    requires a <= b
    ensures Base(w, b) == Base(w, a) + Base(w, b - a)
    decreases b
  {
    if a < b {
      BaseDiff(w, a, b - 1);
    }
  }

  /** Dividing a whole number of entries by the entry size gives their number. */
  lemma BaseDiv(w: nat, k: nat)
    requires 0 < w
    ensures Base(w, k) / w == k
  {
    var x := Base(w, k);
    BaseOf(w, x);
    var q := x / w;
    if q < k {
      BaseOrder(w, q, k);
    }
    if k < q {
      BaseOrder(w, k, q);
    }
  }

  /** How many entries reach from the end of the table to the entry at `vbo`. */
  lemma EntriesMissing(esize: nat, used: nat, i: nat)
    requires 0 < esize
    ensures Off(esize, used) <= Off(esize, i) <==> used <= i
    ensures used <= i ==> (Off(esize, i) - Off(esize, used)) / esize == i - used
  {
    if used <= i {
      BaseDiff(esize, used, i);
      BaseDiv(esize, i - used);
    } else {
      OffOrder(esize, i, used);
    }
  }

  /** A new entry joins the list at its end. */
  lemma AppendNew<T(!new)>(slots: map<nat, Slot<T>>, chain: seq<nat>, first: nat, last: nat, off: nat, d: T,
                           slots': map<nat, Slot<T>>)
    requires FreeList(slots, chain, first, last) && off !in slots && HDR <= off < ALLOCATED
    requires last != 0 ==> last in slots
    requires slots' == (if last != 0 then slots[last := slots[last].(next := off)] else slots)[off := Slot(0, d)]
    ensures FreeList(slots', chain + [off], if last != 0 then first else off, off)
    ensures slots'.Keys == slots.Keys + {off} && Entries(slots') == Entries(slots)
  {
    hide Links, Distinct, Ends;
    var slots0 := slots[off := Slot(ALLOCATED, d)];
    StillLinked(slots, slots0, chain, off);
    var slots1 := if last != 0 then slots0[last := slots0[last].(next := off)] else slots0;
    assert slots1[off := Slot(0, d)] == slots';
    PushBack(slots0, chain, first, last, off, d, slots1);
    EntriesFreed(slots0, slots', off);
    EntriesPutNew(slots, off, d);
  }

  lemma EntriesPutNew<T(!new)>(slots: map<nat, Slot<T>>, off: nat, d: T)
    requires off !in slots
    ensures Entries(slots[off := Slot(ALLOCATED, d)]) - {off} == Entries(slots)
  {
  }

  lemma StillLinked<T(!new)>(slots: map<nat, Slot<T>>, slots0: map<nat, Slot<T>>, chain: seq<nat>, off: nat)
    requires Links(slots, chain) && Visits(slots, chain) && off !in slots
    requires slots0.Keys == slots.Keys + {off} && forall x :: x in slots ==> slots0[x] == slots[x]
    ensures Links(slots0, chain)
  {
  }

  ghost function Members(c: seq<nat>): set<nat> {
    set off | off in c
  }

  lemma {:induction false} MembersSize(c: seq<nat>)
    requires Distinct(c)
    ensures |Members(c)| == |c|
    decreases |c|
  {
    if c != [] {
      var d, x := c[..|c| - 1], c[|c| - 1];
      MembersSize(d);
      assert c == d + [x];
      assert Members(c) == Members(d) + {x};
      assert x !in d;
    }
  }

  /** Every entry is on the free list or allocated, not both. */
  lemma Split<T(!new)>(slots: map<nat, Slot<T>>, chain: seq<nat>)
    requires Visits(slots, chain)
    ensures |Entries(slots).Keys| + |Members(chain)| == |slots.Keys|
  {
    assert Entries(slots).Keys !! Members(chain);
    assert Entries(slots).Keys + Members(chain) == slots.Keys;
  }

  // ----- the table

  /** `off` comes after the cursor `c`; no cursor stands before the first entry. */
  predicate After(c: Option<nat>, off: nat) {
    c.None? || c.value < off
  }

  class Table<T(!new)> {
    const esize: nat
    const zero: T           // an entry's contents after memset(e, 0, esize)
    var slots: map<nat, Slot<T>>
    var used: nat
    var total: nat
    var firstFree: nat
    var lastFree: nat
    var freeGoal: nat
    var memory: Memory      // set by the environment, never by the methods
    ghost var chain: seq<nat>

    /** The free list is sound, and free entries plus allocated entries are all entries. */
    ghost predicate Valid()
      reads this
    {
      && 0 < esize < TWO_16 && used < TWO_16
      && slots.Keys == OffSet(esize, used)
      && FreeList(slots, chain, firstFree, lastFree)
      && total + |chain| == used
    }

    /** The allocated entries. */
    ghost function View(): map<nat, T>
      reads this`slots
    {
      Entries(slots)
    }

    /** bytes_per_rt */
    function Bytes(): nat
      reads this`used
    {
      Off(esize, used)
    }

    /** `total` counts the allocated entries. */
    lemma TotalCounts()
      requires Valid()
      ensures |View().Keys| == total
    {
      hide Links, OffSet, Ends, Distinct;
      OffSetNew(esize, used);
      MembersSize(chain);
      Split(slots, chain);
    }

    /** One more entry at the end, free and last in the list. */
    method AddEntry()
      requires Valid() && used + 1 < TWO_16
      modifies this`slots, this`used, this`firstFree, this`lastFree, this`chain
      ensures Valid() && View() == old(View()) && used == old(used) + 1 && chain == old(chain) + [Off(esize, old(used))]
    {
      hide FreeList, OffSet, Entries, Off;
      var off := Off(esize, used);
      OffSetNew(esize, used);
      OffBound(esize, used);
      EndsInside(slots, chain, firstFree, lastFree);
      ghost var slots0, chain0, first0, last0 := slots, chain, firstFree, lastFree;
      if lastFree != 0 {
        slots := slots[lastFree := slots[lastFree].(next := off)];
      } else {
        firstFree := off;
      }
      slots := slots[off := Slot(0, zero)];
      AppendNew(slots0, chain0, first0, last0, off, zero, slots);
      lastFree := off;
      used := used + 1;
      chain := chain + [off];
    }

    lemma StartsEmpty()
      requires 0 < esize < TWO_16 && slots == map[] && used == total == firstFree == lastFree == 0 && chain == []
      ensures Valid() && View() == map[]
    {
    }

    /** init_rsttbl */
    constructor (size: nat, n: nat, z: T, m: Memory)
      requires 0 < size < TWO_16 && 0 < n < TWO_16
      ensures Valid() && View() == map[] && used == n && total == 0 && esize == size && zero == z
      ensures freeGoal == NO_GOAL && memory == m
    {
      hide FreeList, OffSet, Entries, Off;
      esize, zero := size, z;
      slots, used, total, firstFree, lastFree, freeGoal, memory, chain := map[], 0, 0, 0, 0, NO_GOAL, m, [];
      new;
      StartsEmpty();
      while used < n
        invariant Valid() && View() == map[] && used <= n && total == 0 && freeGoal == NO_GOAL && memory == m
      {
        AddEntry();
      }
    }

    /** extend_rsttbl: `add` more entries at the end of the free list; nothing allocated is touched. */
    method Extend(add: nat, goal: nat) returns (ok: bool)
      requires Valid() && 0 < add && used + add < TWO_16
      modifies this
      ensures Valid() && View() == old(View()) && total == old(total)
      ensures if ok then used == old(used) + add && chain != [] else used == old(used) && chain == old(chain)
      ensures memory == old(memory) && (memory == Plenty ==> ok) && (memory == Scarce ==> !ok)
      ensures |old(chain)| <= |chain| && chain[..|old(chain)|] == old(chain)
      ensures freeGoal == if !ok then old(freeGoal) else if goal == NO_GOAL then NO_GOAL
              else (HDR + goal * esize) % TWO_32
    {
      hide FreeList, OffSet, Entries;
      ok := TryAlloc(memory);
      if !ok {
        return;
      }
      freeGoal := if goal == NO_GOAL then NO_GOAL else (HDR + goal * esize) % TWO_32;
      ghost var n := used + add;
      var left := add;
      while left > 0
        invariant Valid() && View() == old(View()) && total == old(total) && used + left == n
        invariant |old(chain)| <= |chain| && chain[..|old(chain)|] == old(chain) && memory == old(memory)
        invariant freeGoal == if goal == NO_GOAL then NO_GOAL else (HDR + goal * esize) % TWO_32
        invariant left < add ==> chain != []
      {
        AddEntry();
        left := left - 1;
      }
    }

    /** Memory at an allocated offset: zeroed by alloc, then written by the caller. */
    method Write(off: nat, d: T)
      requires Valid() && off in View()
      modifies this`slots
      ensures Valid() && View() == old(View())[off := d] && slots.Keys == old(slots.Keys)
    {
      hide OffSet, FreeList, Entries, OnlyAt;
      ghost var slots0 := slots;
      Rewritten(slots0, off, d, chain, firstFree, lastFree);
      slots := slots[off := Slot(ALLOCATED, d)];
    }

    /** Writing an allocated entry leaves the list alone. */
    static lemma Rewritten(a: map<nat, Slot<T>>, off: nat, d: T, c: seq<nat>, first: nat, last: nat)
      requires FreeList(a, c, first, last) && off in Entries(a)
      ensures var b := a[off := Slot(ALLOCATED, d)];
              FreeList(b, c, first, last) && Entries(b) == Entries(a)[off := d] && b.Keys == a.Keys
    {
      var b := a[off := Slot(ALLOCATED, d)];
      assert b.Keys == a.Keys;
      assert off !in c;
      LinksKept(a, b, c, off);
      EntriesPut(a, b, off);
    }

    static lemma LinksKept(a: map<nat, Slot<T>>, b: map<nat, Slot<T>>, c: seq<nat>, off: nat)
      requires Links(a, c) && Visits(a, c) && off in a && a[off].next == ALLOCATED && off !in c
      requires b.Keys == a.Keys && b[off].next == ALLOCATED && forall x :: x in a && x != off ==> b[x] == a[x]
      ensures Links(b, c) && Visits(b, c)
    {
    }

    /** free_rsttbl_idx: the entry goes to the head of the list below free_goal, to its tail otherwise. */
    method Free(off: nat)
      requires Valid() && off in View()
      modifies this`slots, this`total, this`firstFree, this`lastFree, this`chain
      ensures Valid() && View() == old(View()) - {off} && total + 1 == old(total)
      ensures slots.Keys == old(slots.Keys)
      ensures chain == if off < freeGoal then [off] + old(chain) else old(chain) + [off]
    {
      hide FreeList, OffSet;
      EndsInside(slots, chain, firstFree, lastFree);
      SomeAllocated(off);
      ghost var slots0, chain0, first0, last0 := slots, chain, firstFree, lastFree;
      ghost var d := slots[off].data;
      if off < freeGoal {
        PushFront(slots, chain, firstFree, lastFree, off, d);
        slots := slots[off := Slot(firstFree, slots[off].data)];
        firstFree := off;
        if lastFree == 0 {
          lastFree := off;
        }
        chain := [off] + chain;
      } else {
        ghost var slots1 := if lastFree != 0 then slots[lastFree := slots[lastFree].(next := off)] else slots;
        PushBack(slots, chain, firstFree, lastFree, off, d, slots1);
        if lastFree != 0 {
          slots := slots[lastFree := slots[lastFree].(next := off)];
        } else {
          firstFree := off;
        }
        lastFree := off;
        slots := slots[off := Slot(0, slots[off].data)];
        chain := chain + [off];
      }
      EntriesFreed(slots0, slots, off);
      total := total - 1;
    }

    lemma SomeAllocated(off: nat)
      requires Valid() && off in View()
      ensures 0 < total
    {
      TotalCounts();
    }

    /** alloc_rsttbl_idx: the head of the free list; the table grows by 16 entries when the list is empty. */
    method Alloc() returns (r: Option<nat>)
      requires Valid() && (firstFree == 0 ==> used + 16 < TWO_16)
      modifies this
      ensures Valid() && old(used) <= used
      ensures r.None? ==> View() == old(View()) && total == old(total) && old(firstFree) == 0
      ensures r.Some? ==> r.value !in old(View()) && View() == old(View())[r.value := zero]
      ensures r.Some? ==> total == old(total) + 1
      ensures memory == old(memory) && (memory == Plenty ==> r.Some?)
      ensures r.Some? && old(firstFree) != 0 ==> old(chain) == [r.value] + chain && used == old(used)
    {
      hide FreeList, OffSet, Entries;
      if firstFree == 0 {
        var ok := Extend(16, NO_GOAL);
        if !ok {
          return None;
        }
      }
      HeadIsFree();
      var off := firstFree;
      ghost var slots0 := slots;
      TakeOut(slots, chain, firstFree, lastFree, 0, zero, slots);
      firstFree := slots[off].next;
      slots := slots[off := Slot(ALLOCATED, zero)];
      chain := Without(chain, 0);
      EntriesPut(slots0, slots, off);
      if firstFree == 0 {
        lastFree := 0;
      }
      total := total + 1;
      return Some(off);
    }

    lemma HeadIsFree()
      requires Valid()
      ensures firstFree == 0 <==> chain == []
      ensures chain != [] ==> firstFree == chain[0] && firstFree in slots && firstFree !in View()
      ensures |chain| == 1 || (chain != [] ==> slots[firstFree].next != 0)
      ensures |chain| == 1 ==> slots[firstFree].next == 0
    {
      hide OffSet;
      EndsInside(slots, chain, firstFree, lastFree);
      if chain != [] {
        FollowsFree(slots, chain, 0);
        assert slots[chain[0]].next == Link(chain, 0);
        if 1 < |chain| {
          FollowsFree(slots, chain, 1);
        }
      }
    }

    /** The free entry at `vbo` has a place in the list. */
    lemma PlaceOf(vbo: nat) returns (k: nat)
      requires Valid() && vbo in slots && vbo !in View()
      ensures k < |chain| && chain[k] == vbo && chain != [] && firstFree == chain[0]
    {
      assert vbo in chain;
      k :| 0 <= k < |chain| && chain[k] == vbo;
    }

    /** What the walk over the list reads at position `j`. */
    lemma AtPosition(j: nat, k: nat)
      requires Valid() && j < k < |chain|
      ensures chain[j] in slots && slots[chain[j]].next == chain[j + 1] && chain[j + 1] in slots
    {
      assert slots[chain[j]].next == Link(chain, j);
    }

    lemma NotAllocated(j: nat)
      requires Valid() && j < |chain|
      ensures chain[j] !in View()
    {
      hide OffSet;
    }

    /** Only the last position of the list is the last free entry. */
    lemma LastPosition(k: nat)
      requires Valid() && k < |chain|
      ensures lastFree == chain[k] <==> k + 1 == |chain|
    {
      hide OffSet;
    }

    /** The walk of alloc_rsttbl_from_idx: find the predecessor of the free entry at `vbo`. It always gets there. */
    method Predecessor(vbo: nat) returns (lastOff: nat, ghost k: nat)
      requires Valid() && vbo in slots && vbo !in View() && firstFree != vbo
      ensures 0 < k < |chain| && chain[k] == vbo && chain[k - 1] == lastOff
      ensures lastOff in slots && lastOff !in View() && slots[lastOff].next == vbo
    {
      hide FreeList, OffSet, Entries;
      k := PlaceOf(vbo);
      var off := firstFree;
      lastOff := off;
      ghost var j: nat := 0;
      while off != vbo
        invariant j <= k && off == chain[j] && (0 < j ==> lastOff == chain[j - 1])
        decreases k - j
      {
        DistinctAt(j, k);
        AtPosition(j, k);
        lastOff := off;
        off := slots[lastOff].next;
        j := j + 1;
      }
      DistinctAt(j, k);
      AtPosition(k - 1, k);
      NotAllocated(k - 1);
    }

    /** Take the free entry at `vbo` out of the list, wherever it is, and allocate it. */
    method Unlink(vbo: nat)
      requires Valid() && vbo in slots && vbo !in View()
      modifies this
      ensures Valid() && View() == old(View())[vbo := zero] && total == old(total) + 1 && used == old(used)
      ensures memory == old(memory)
    {
      hide FreeList, OffSet, Entries;
      ghost var slots0, k := slots, 0;
      HeadIsFree();
      ghost var place := PlaceOf(vbo);
      var slots1 := slots;
      if firstFree == vbo {
        TakeOut(slots, chain, firstFree, lastFree, 0, zero, slots);
        firstFree := slots[vbo].next;
      } else {
        var lastOff;
        lastOff, k := Predecessor(vbo);
        KeepsFirst(k);
        LastPosition(k);
        slots1 := slots[lastOff := slots[lastOff].(next := slots[vbo].next)];
        TakeOut(slots, chain, firstFree, lastFree, k, zero, slots1);
        if lastFree == vbo {
          lastFree := lastOff;
        }
      }
      if firstFree == 0 {
        lastFree := 0;
      }
      slots := slots1[vbo := Slot(ALLOCATED, zero)];
      EntriesPut(slots0, slots, vbo);
      chain := Without(chain, k);
      total := total + 1;
    }

    lemma DistinctAt(j: nat, k: nat)
      requires Valid() && j < |chain| && k < |chain|
      ensures chain[j] == chain[k] <==> j == k
    {
      hide OffSet;
    }

    lemma KeepsFirst(k: nat)
      requires Valid() && k < |chain|
      ensures firstFree != 0 && chain[k] in slots && (0 < k ==> chain[k - 1] in slots)
    {
      hide OffSet;
      EndsInside(slots, chain, firstFree, lastFree);
      FollowsFree(slots, chain, k);
    }

    /** alloc_rsttbl_from_idx: the entry at `vbo`, after growing the table to it if need be. */
    method AllocFrom(vbo: nat) returns (ok: bool)
      requires Valid() && IsEntry(esize, vbo)
      modifies this
      ensures Valid() && old(used) <= used
      ensures !ok ==> View() == old(View()) && total == old(total) && used == old(used)
      ensures !ok ==> old(Bytes()) <= vbo && memory != Plenty
      ensures memory == old(memory) && (memory == Scarce && old(Bytes()) <= vbo ==> !ok)
      ensures ok ==> View() == if vbo in old(View()) then old(View()) else old(View())[vbo := zero]
      ensures ok ==> total == old(total) + if vbo in old(View()) then 0 else 1
    {
      hide FreeList, Off;
      var bytes := Bytes();
      ghost var i: nat :| i + 1 < TWO_16 && vbo == Off(esize, i);
      EntriesMissing(esize, used, i);
      if vbo >= bytes {
        ok := Extend((vbo - bytes) / esize + 1, bytes);
        if !ok {
          return;
        }
      }
      ok := true;
      OffSetHas(esize, used, i);
      if slots[vbo].next != ALLOCATED {
        Unlink(vbo);
      }
    }

    /** enum_rstbl: the next allocated entry after `c`, in ascending order. */
    method Next(c: Option<nat>) returns (r: Option<nat>)
      requires Valid() && (c.Some? ==> c.value in slots)
      ensures r.Some? ==> r.value in View() && After(c, r.value)
      ensures r.Some? ==> forall off :: off in View() && After(c, off) ==> r.value <= off
      ensures r.None? ==> forall off :: off in View() ==> !After(c, off)
    {
      hide FreeList, Off;
      var e := Off(esize, 0);
      ghost var i: nat := 0;
      if c.None? {
        if total == 0 {
          NoneAllocated();
          return None;
        }
      } else {
        ghost var j := OffSetIndex(esize, used, c.value);
        i := j + 1;
        Adjacent(esize, j);
        e := c.value + esize;
      }
      Beyond(c, i);
      var bprt := Bytes();
      while e < bprt
        invariant e == Off(esize, i) && After(c, e)
        invariant forall off :: off in View() && After(c, off) ==> e <= off
        decreases bprt - e
      {
        EntriesMissing(esize, used, i);
        OffSetHas(esize, used, i);
        if slots[e].next == ALLOCATED {
          return Some(e);
        }
        Adjacent(esize, i);
        Gap(i);
        e := e + esize;
        i := i + 1;
      }
      BelowEnd();
      return None;
    }

    lemma BelowEnd()
      requires Valid()
      ensures forall off :: off in View() ==> off < Bytes()
    {
      hide FreeList, Off;
      forall off | off in View()
        ensures off < Bytes()
      {
        var j := OffSetIndex(esize, used, off);
        EntriesMissing(esize, used, j);
      }
    }

    lemma NoneAllocated()
      requires Valid() && total == 0
      ensures View() == map[]
    {
      TotalCounts();
    }

    static lemma Adjacent(w: nat, i: nat)
      ensures Off(w, i) + w == Off(w, i + 1)
    {
    }

    lemma Beyond(c: Option<nat>, i: nat)
      requires Valid() && (c.None? ==> i == 0) && (c.Some? ==> 0 < i && c.value == Off(esize, i - 1))
      ensures forall off :: off in View() && After(c, off) ==> Off(esize, i) <= off
    {
      hide FreeList, Off;
      forall off | off in View() && After(c, off)
        ensures Off(esize, i) <= off
      {
        var j := OffSetIndex(esize, used, off);
        EntriesMissing(esize, i, j);
        if 0 < i {
          EntriesMissing(esize, i - 1, j);
          EntriesMissing(esize, j, i - 1);
        }
      }
    }

    /** Between two neighbouring offsets there is no entry. */
    lemma Gap(i: nat)
      requires Valid()
      ensures forall off :: off in View() && Off(esize, i) < off ==> Off(esize, i + 1) <= off
    {
      hide FreeList, Off;
      forall off | off in View() && Off(esize, i) < off
        ensures Off(esize, i + 1) <= off
      {
        var j := OffSetIndex(esize, used, off);
        EntriesMissing(esize, j, i);
        EntriesMissing(esize, i + 1, j);
      }
    }

    /** `vbo` lies in the table and its entry is allocated. */
    method Holds(vbo: nat) returns (r: bool)
      requires Valid() && IsEntry(esize, vbo)
      ensures r <==> vbo in View()
    {
      hide FreeList, Off;
      ghost var i: nat :| i + 1 < TWO_16 && vbo == Off(esize, i);
      BelowEnd();
      if vbo >= Bytes() {
        return false;
      }
      EntriesMissing(esize, used, i);
      OffSetHas(esize, used, i);
      r := slots[vbo].next == ALLOCATED;
    }

    method Read(off: nat) returns (d: T)
      requires off in View()
      ensures d == View()[off]
    {
      d := slots[off].data;
    }

    lemma EntryIsSlot(off: nat)
      requires off in View()
      ensures off in slots
    {
    }
  }
}
