/**
  attrlist.c: the attribute list of a file, entries of varying size packed one behind the other into
  a buffer of bytes.
 */
module AttrList {
  import opened Extents
  import opened Kernel

  // ----- entries

  const ENTRY: nat := 0x20
  const NAME: nat := 0x1A

  function SizeOf(b: seq<Byte>): nat
    requires ENTRY <= |b|
  {
    Le(b[4..6])
  }

  function TypeOf(b: seq<Byte>): nat
    requires ENTRY <= |b|
  {
    Le(b[0..4])
  }

  function VcnOf(b: seq<Byte>): nat
    requires ENTRY <= |b|
  {
    Le(b[8..16])
  }

  function RefOf(b: seq<Byte>): nat
    requires ENTRY <= |b|
  {
    Le(b[16..24])
  }

  function IdOf(b: seq<Byte>): nat
    requires ENTRY <= |b|
  {
    Le(b[24..26])
  }

  /** The checks of al_enumerate on what starts at a cursor: a whole entry that holds its name. */
  predicate Accept(b: seq<Byte>) {
    ENTRY <= |b| && ENTRY <= SizeOf(b) <= |b| && b[7] + NameBytes(b) <= SizeOf(b)
  }

  /**
    A cursor stands at an entry if there is room for the fixed part, and the size covers that and the
    name and fits.
   */
  lemma AcceptMeans(b: seq<Byte>, lo: nat, hi: nat, chars: nat, off: nat)
    requires 0x20 <= |b| ==> lo == b[4] && hi == b[5] && chars == b[6] && off == b[7]
    ensures Accept(b) <==> 0x20 <= |b| && 0x20 <= lo + 256 * hi <= |b| && off + 2 * chars <= lo + 256 * hi
  {
    if 0x20 <= |b| {
      var two := b[4..6];
      assert two[0] == b[4] && two[1..] == [b[5]] && Le(two[1..]) == hi;
    }
  }

  /** The length of the name in bytes. */
  function NameBytes(b: seq<Byte>): nat
    requires ENTRY <= |b|
  {
    var n: nat := b[6];
    2 * n
  }

  function NameOf(b: seq<Byte>): seq<Byte>
    requires Accept(b)
  {
    var off: nat := b[7];
    b[off..off + NameBytes(b)]
  }

  /** The bytes of exactly one entry. */
  predicate IsEntry(e: seq<Byte>) {
    Accept(e) && SizeOf(e) == |e|
  }

  type Entry = e: seq<Byte> | IsEntry(e) ghost witness Blank()

  /** An entry with an empty name and nothing in it. */
  ghost function Blank(): (e: seq<Byte>)
    ensures IsEntry(e)
  {
    var e: seq<Byte> := [0, 0, 0, 0] + ToLe(ENTRY, 2) + seq(26, _ => 0);
    LeRoundTrip(ENTRY, 2);
    assert e[4..6] == ToLe(ENTRY, 2);
    e
  }

  /** The entries that enumeration yields, each as its bytes. */
  function Parse(b: seq<Byte>): seq<Entry>
    decreases |b|
  {
    if !Accept(b) then [] else
    var e := b[..SizeOf(b)];
    HeadIsEntry(b);
    [e] + Parse(b[SizeOf(b)..])
  }

  /** What is left behind the last entry. */
  function Rest(b: seq<Byte>): seq<Byte>
    decreases |b|
  {
    if !Accept(b) then b else Rest(b[SizeOf(b)..])
  }

  function Flatten(es: seq<Entry>): seq<Byte> {
    if es == [] then [] else es[0] + Flatten(es[1..])
  }

  lemma HeadIsEntry(b: seq<Byte>)
    requires Accept(b)
    ensures IsEntry(b[..SizeOf(b)])
  {
    var e := b[..SizeOf(b)];
    assert e[4..6] == b[4..6];
  }

  lemma EntryInFront(e: Entry, t: seq<Byte>)
    ensures Accept(e + t) && SizeOf(e + t) == |e| && (e + t)[..|e|] == e && (e + t)[|e|..] == t
  {
    assert (e + t)[4..6] == e[4..6];
  }

  lemma ParseCons(e: Entry, t: seq<Byte>)
    ensures Parse(e + t) == [e] + Parse(t) && Rest(e + t) == Rest(t)
  {
    EntryInFront(e, t);
  }

  lemma ParseOne(e: Entry)
    ensures Flatten([e]) == e
  {
    var one := [e];
    assert one[1..] == [] && Flatten(one) == e + [];
  }

  /** Packing and enumerating are inverse, whatever follows. */
  lemma {:induction false} ParseFlatten(es: seq<Entry>, t: seq<Byte>)
    ensures Parse(Flatten(es) + t) == es + Parse(t) && Rest(Flatten(es) + t) == Rest(t)
    decreases |es|
  {
    hide IsEntry, Parse, Rest;
    if es == [] {
      assert Flatten(es) + t == t;
    } else {
      var b := Flatten(es[1..]) + t;
      assert Flatten(es) + t == es[0] + b;
      ParseCons(es[0], b);
      ParseFlatten(es[1..], t);
    }
  }

  lemma {:induction false} FlattenParse(b: seq<Byte>)
    ensures b == Flatten(Parse(b)) + Rest(b) && !Accept(Rest(b))
    decreases |b|
  {
    if Accept(b) {
      FlattenParse(b[SizeOf(b)..]);
      assert Parse(b)[1..] == Parse(b[SizeOf(b)..]);
      assert b == b[..SizeOf(b)] + b[SizeOf(b)..];
    }
  }

  lemma {:induction false} FlattenConcat(a: seq<Entry>, b: seq<Entry>)
    ensures Flatten(a + b) == Flatten(a) + Flatten(b)
    decreases |a|
  {
    if a == [] {
      assert a + b == b;
    } else {
      assert (a + b)[1..] == a[1..] + b;
      FlattenConcat(a[1..], b);
    }
  }

  /** Where entry `k` starts; where the last entry ends for k == |es|. */
  function Offset(es: seq<Entry>, k: nat): nat
    requires k <= |es|
  {
    |Flatten(es[..k])|
  }

  /** At the offset of entry `k`, what is left of the bytes yields what is left of the entries. */
  lemma AtOffset(b: seq<Byte>, k: nat)
    requires k <= |Parse(b)|
    ensures Offset(Parse(b), k) <= |b| && b[..Offset(Parse(b), k)] == Flatten(Parse(b)[..k])
    ensures b[Offset(Parse(b), k)..] == Flatten(Parse(b)[k..]) + Rest(b)
    ensures Parse(b[Offset(Parse(b), k)..]) == Parse(b)[k..]
  {
    hide IsEntry, Parse, Rest, Flatten, Accept;
    var es := Parse(b);
    FlattenParse(b);
    FlattenConcat(es[..k], es[k..]);
    assert es == es[..k] + es[k..];
    assert b == Flatten(es[..k]) + (Flatten(es[k..]) + Rest(b));
    NothingInRest(b);
    ParseFlatten(es[k..], Rest(b));
  }

  lemma NothingInRest(b: seq<Byte>)
    ensures Parse(Rest(b)) == []
  {
    FlattenParse(b);
  }

  /** The cursor moves from entry `k` to entry `k + 1`. */
  lemma CursorStep(b: seq<Byte>, k: nat)
    requires k < |Parse(b)|
    ensures var off := Offset(Parse(b), k);
            var e := Parse(b)[k];
            && off + |e| <= |b| && Accept(b[off..]) && SizeOf(b[off..]) == |e| && b[off..off + |e|] == e
            && Offset(Parse(b), k + 1) == off + |e|
  {
    var es := Parse(b);
    var off := Offset(es, k);
    AtOffset(b, k);
    assert es[..k + 1] == es[..k] + [es[k]];
    FlattenConcat(es[..k], [es[k]]);
    ParseOne(es[k]);
  }

  lemma CursorEnd(b: seq<Byte>)
    ensures Offset(Parse(b), |Parse(b)|) <= |b| && !Accept(b[Offset(Parse(b), |Parse(b)|)..])
  {
    AtOffset(b, |Parse(b)|);
    var t := b[Offset(Parse(b), |Parse(b)|)..];
    assert Parse(t) == [];
  }

  /** Inserting the bytes of an entry where an entry starts inserts it into what enumeration yields. */
  lemma InsertBytes(b: seq<Byte>, k: nat, e: Entry, c: seq<Byte>)
    requires k <= |Parse(b)|
    requires Offset(Parse(b), k) <= |b|
    requires c == b[..Offset(Parse(b), k)] + e + b[Offset(Parse(b), k)..]
    ensures Parse(c) == Parse(b)[..k] + [e] + Parse(b)[k..]
  {
    hide IsEntry, Parse, Rest, Flatten, Accept;
    var es := Parse(b);
    AtOffset(b, k);
    var t := b[Offset(es, k)..];
    assert c == Flatten(es[..k]) + (e + t);
    ParseFlatten(es[..k], e + t);
    ParseCons(e, t);
    assert Parse(c) == es[..k] + ([e] + Parse(t));
  }

  /** Removing the bytes of entry `k` removes it from what enumeration yields. */
  lemma RemoveBytes(b: seq<Byte>, k: nat, c: seq<Byte>)
    requires k < |Parse(b)|
    requires Offset(Parse(b), k) + |Parse(b)[k]| <= |b|
    requires c == b[..Offset(Parse(b), k)] + b[Offset(Parse(b), k) + |Parse(b)[k]|..]
    ensures Parse(c) == Parse(b)[..k] + Parse(b)[k + 1..]
  {
    hide IsEntry, Parse, Rest, Flatten, Accept, SizeOf;
    var es := Parse(b);
    AtOffset(b, k);
    AtOffset(b, k + 1);
    CursorStep(b, k);
    ParseFlatten(es[..k], b[Offset(es, k + 1)..]);
  }

  // ----- new entries

  /** al_aligned */
  function Aligned(size: nat): (r: nat)
    ensures size <= r < size + 1024
  {
    (size + 1023) / 1024 * 1024
  }

  /** le_size, for a name of so many bytes. */
  function LeSize(nameBytes: nat): (r: nat)
    ensures NAME + nameBytes <= r < NAME + nameBytes + 8 && r % 8 == 0
  {
    (NAME + nameBytes + 7) / 8 * 8
  }

  /** What al_add_le is asked to add. */
  datatype Fields = Fields(kind: nat, vcn: nat, ref: nat, id: nat, name: seq<Byte>) {
    predicate Fit() {
      kind < Range(4) && vcn < Range(8) && ref < Range(8) && id < Range(2) && |name| % 2 == 0 && |name| < 512
    }
  }

  /** The bytes that al_add_le writes; what follows up to the entry's size is padding. */
  function Header(f: Fields): (b: seq<Byte>)
    requires f.Fit()
    ensures |b| == NAME + |f.name|
  {
    ToLe(f.kind, 4) + ToLe(LeSize(|f.name|), 2) + [|f.name| / 2, NAME] + ToLe(f.vcn, 8) + ToLe(f.ref, 8)
      + ToLe(f.id, 2) + f.name
  }

  /** The entry says what was asked for. */
  ghost predicate Says(e: seq<Byte>, f: Fields) {
    IsEntry(e) && TypeOf(e) == f.kind && VcnOf(e) == f.vcn && RefOf(e) == f.ref && IdOf(e) == f.id
      && NameOf(e) == f.name
  }

  lemma HeaderSays(f: Fields, pad: seq<Byte>)
    requires f.Fit() && NAME + |f.name| + |pad| == LeSize(|f.name|)
    ensures Says(Header(f) + pad, f)
  {
    hide Le, ToLe, LeSize;
    var e := Header(f) + pad;
    assert e[0..4] == ToLe(f.kind, 4);
    assert e[4..6] == ToLe(LeSize(|f.name|), 2);
    assert e[8..16] == ToLe(f.vcn, 8);
    assert e[16..24] == ToLe(f.ref, 8);
    assert e[24..26] == ToLe(f.id, 2);
    assert e[6] == |f.name| / 2 && e[7] == NAME;
    assert e[NAME..NAME + |f.name|] == f.name;
    LeRoundTrip(f.kind, 4);
    assert Range(2) == 65536;
    LeRoundTrip(LeSize(|f.name|), 2);
    LeRoundTrip(f.vcn, 8);
    LeRoundTrip(f.ref, 8);
    LeRoundTrip(f.id, 2);
  }

  // ----- order and search

  /** ntfs_cmp_names, whose upper-case table is not part of the model. */
  type Compare = (seq<Byte>, seq<Byte>) -> int

  /** All entries of type `t` carry this name: where names are compared, they are equal. */
  ghost predicate OneName(es: seq<Entry>, t: nat, name: seq<Byte>, cmp: Compare)
  {
    forall i :: 0 <= i < |es| && TypeOf(es[i]) == t
                ==> NameBytes(es[i]) == |name| && (VcnOf(es[i]) == 0 ==> cmp(NameOf(es[i]), name) == 0)
  }

  /** Entries are sorted by type, and those of type `t` by VCN. */
  ghost predicate Ordered(es: seq<Entry>, t: nat)
  {
    forall i, j :: 0 <= i < j < |es| ==> Before(es[i], es[j], t)
  }

  ghost predicate Before(a: Entry, b: Entry, t: nat)
  {
    TypeOf(a) <= TypeOf(b) && (TypeOf(a) == t == TypeOf(b) ==> VcnOf(a) <= VcnOf(b))
  }

  /** One round of al_find_le_to_insert: go on behind this entry, or insert before it. */
  predicate GoesBehind(e: Entry, t: nat, name: seq<Byte>, vcn: nat, cmp: Compare)
  {
    if TypeOf(e) != t then TypeOf(e) < t
    else if VcnOf(e) == 0 && cmp(NameOf(e), name) != 0 then cmp(NameOf(e), name) < 0
    else VcnOf(e) < vcn
  }

  /** One round of al_find_ex. */
  datatype Verdict = Skip | GiveUp | Found | Remember

  function Look(e: Entry, t: nat, name: seq<Byte>, vcn: Option<nat>, cmp: Compare): Verdict
  {
    if TypeOf(e) < t then Skip
    else if TypeOf(e) > t then GiveUp
    else if NameBytes(e) != |name| then Skip
    else if VcnOf(e) == 0 && cmp(NameOf(e), name) < 0 then Skip
    else if VcnOf(e) == 0 && cmp(NameOf(e), name) > 0 then GiveUp
    else if vcn.None? || vcn.value == VcnOf(e) then Found
    else if vcn.value < VcnOf(e) then GiveUp
    else Remember
  }

  /** The place where an entry of this type and VCN belongs. */
  ghost predicate PlaceFor(es: seq<Entry>, k: nat, t: nat, vcn: nat)
  {
    && k <= |es|
    && (forall i :: 0 <= i < k ==> TypeOf(es[i]) < t || (TypeOf(es[i]) == t && VcnOf(es[i]) < vcn))
    && (k < |es| ==> TypeOf(es[k]) > t || (TypeOf(es[k]) == t && VcnOf(es[k]) >= vcn))
  }

  /** No entry of type `t` is a later segment: its entries are told apart by their names. */
  ghost predicate Unsegmented(es: seq<Entry>, t: nat) {
    forall i :: 0 <= i < |es| && TypeOf(es[i]) == t ==> VcnOf(es[i]) == 0
  }

  /** Behind all entries with a smaller name, and with the same name if it is for a later segment. */
  ghost predicate PlaceByName(es: seq<Entry>, k: nat, f: Fields, cmp: Compare) {
    && k <= |es|
    && (forall i :: 0 <= i < k ==>
          TypeOf(es[i]) < f.kind || (TypeOf(es[i]) == f.kind && (cmp(NameOf(es[i]), f.name) < 0
                                                                || (cmp(NameOf(es[i]), f.name) == 0 && 0 < f.vcn))))
    && (k < |es| ==>
          TypeOf(es[k]) > f.kind || (TypeOf(es[k]) == f.kind && (cmp(NameOf(es[k]), f.name) > 0
                                                                || (cmp(NameOf(es[k]), f.name) == 0 && f.vcn == 0))))
  }

  /** Once a name is greater, so are all that follow. */
  ghost predicate NamesAscend(es: seq<Entry>, t: nat, name: seq<Byte>, cmp: Compare) {
    forall i, j :: 0 <= i < j < |es| && TypeOf(es[i]) == t == TypeOf(es[j]) && cmp(NameOf(es[i]), name) > 0
                   ==> cmp(NameOf(es[j]), name) > 0
  }

  ghost predicate HasName(e: Entry, t: nat, name: seq<Byte>, cmp: Compare) {
    TypeOf(e) == t && NameBytes(e) == |name| && cmp(NameOf(e), name) == 0
  }

  /** The answer to a search by name from entry `k0` on: the first entry with that name, or there is none. */
  ghost predicate ByName(es: seq<Entry>, k0: nat, t: nat, name: seq<Byte>, cmp: Compare, j: Option<nat>) {
    match j
    case None => forall i :: k0 <= i < |es| ==> !HasName(es[i], t, name, cmp)
    case Some(j) => k0 <= j < |es| && HasName(es[j], t, name, cmp)
                    && forall i :: k0 <= i < j ==> !HasName(es[i], t, name, cmp)
  }

  /** Inserting at its place keeps the order. */
  lemma InsertOrdered(es: seq<Entry>, k: nat, e: Entry, t: nat, cs: seq<Entry>)
    requires TypeOf(e) == t && Ordered(es, t) && PlaceFor(es, k, t, VcnOf(e))
    requires cs == es[..k] + [e] + es[k..]
    ensures Ordered(cs, t)
  {
    hide TypeOf, VcnOf, IsEntry;
    forall i, j | 0 <= i < j < |cs|
      ensures Before(cs[i], cs[j], t)
    {
      assert k < j && k < |es| ==> j - 1 == k || Before(es[k], es[j - 1], t);
      assert i < k && j != k ==> Before(es[i], es[if j < k then j else j - 1], t);
      assert k < i ==> Before(es[i - 1], es[j - 1], t);
    }
  }

  // ----- the list in memory

  class List {
    var le: array<Byte>
    var size: nat
    var dirty: bool
    var memory: Memory      // set by the environment, never by the methods

    /** The buffer holds the list rounded up to whole kilobytes. */
    ghost predicate Valid()
      reads this
    {
      Aligned(size) <= le.Length
    }

    ghost function Bytes(): seq<Byte>
      reads this, le
      requires Valid()
    {
      le[..size]
    }

    ghost function Entries(): seq<Entry>
      reads this, le
      requires Valid()
    {
      Parse(Bytes())
    }

    constructor (b: seq<Byte>, m: Memory)
      ensures Valid() && fresh(le) && Bytes() == b && !dirty && memory == m
    {
      var a := new Byte[Aligned(|b|)];
      forall i | 0 <= i < |b| {
        a[i] := b[i];
      }
      le, size, dirty, memory := a, |b|, false, m;
      new;
      assert le[..size] == b;
    }

    /**
      al_enumerate: the entry after the one at `at`, or the first one. `k` is how many entries lie
      before the one asked for.
     */
    method Enumerate(at: Option<nat>, ghost k: nat) returns (r: Option<nat>)
      requires Valid() && k <= |Entries()|
      requires at == if k == 0 then None else Some(Offset(Entries(), k - 1))
      ensures r == if k < |Entries()| then Some(Offset(Entries(), k)) else None
    {
      hide Parse, IsEntry, Flatten;
      var b := le[..size];
      var off: nat := 0;
      if at.Some? {
        CursorStep(b, k - 1);
        off := at.value + SizeOf(b[at.value..]);
      } else {
        FirstOffset(Parse(b));
      }
      CursorAt(b, k);
      if !Accept(b[off..]) {
        return None;
      }
      return Some(off);
    }

    /**
      al_find_le_to_insert: an offset at which an entry starts or the last one ends; if all entries of
      the type share the name, the place where the new one belongs.
     */
    method FindToInsert(f: Fields, cmp: Compare) returns (off: nat, ghost k: nat)
      requires Valid()
      ensures k <= |Entries()| && off == Offset(Entries(), k)
      ensures exists i :: 0 <= i <= |Entries()| && off == Offset(Entries(), i)
      ensures OneName(Entries(), f.kind, f.name, cmp) && Ordered(Entries(), f.kind)
              ==> PlaceFor(Entries(), k, f.kind, f.vcn)
      ensures Unsegmented(Entries(), f.kind) ==> PlaceByName(Entries(), k, f, cmp)
    {
      hide Parse, IsEntry, Flatten, Accept, SizeOf, TypeOf, VcnOf, NameOf, NameBytes, Ordered, OneName, GoesBehind,
           PlaceFor, Offset, PlaceByName, Unsegmented;
      ghost var es := Entries();
      var at, prev: Option<nat> := None, None;
      k := 0;
      at := Enumerate(None, 0);
      while at.Some?
        invariant k <= |es| && at == (if k < |es| then Some(Offset(es, k)) else None)
        invariant prev == (if k == 0 then None else Some(Offset(es, k - 1)))
        invariant forall i :: 0 <= i < k ==> GoesBehind(es[i], f.kind, f.name, f.vcn, cmp)
        decreases |es| - k
      {
        var e := EntryAt(at.value, k);
        if !GoesBehind(e, f.kind, f.name, f.vcn, cmp) {
          PlaceFound(es, k, f, cmp);
          return at.value, k;
        }
        prev := at;
        k := k + 1;
        at := Enumerate(prev, k);
      }
      PlaceFound(es, k, f, cmp);
      FirstOffset(es);
      off := 0;
      if prev.Some? {
        var e := EntryAt(prev.value, k - 1);
        CursorStep(le[..size], k - 1);
        off := prev.value + |e|;
      }
    }

    /** The entry under a cursor. */
    method EntryAt(at: nat, ghost k: nat) returns (e: Entry)
      requires Valid() && k < |Entries()| && at == Offset(Entries(), k)
      ensures e == Entries()[k]
    {
      hide Parse, IsEntry, Flatten;
      var b := le[..size];
      CursorStep(b, k);
      e := b[at..at + SizeOf(b[at..])];
    }

    /**
      al_find_ex: search from entry `k0` on. If all entries of the type share the name and are in
      order: without a VCN the first entry of the type, with a VCN the segment with the greatest
      start not above it.
     */
    method FindEx(from: Option<nat>, t: nat, name: seq<Byte>, vcn: Option<nat>, cmp: Compare, ghost k0: nat)
      returns (r: Option<nat>, ghost j: nat)
      requires Valid() && k0 <= |Entries()|
      requires from == if k0 == 0 then None else Some(Offset(Entries(), k0 - 1))
      ensures r.Some? ==> k0 <= j < |Entries()| && r.value == Offset(Entries(), j)
                          && Matches(Entries()[j], t, name, vcn, cmp)
      ensures OneName(Entries(), t, name, cmp) && Ordered(Entries(), t)
              ==> Segment(Entries(), k0, t, vcn, if r.Some? then Some(j) else None)
      ensures Unsegmented(Entries(), t) && Ordered(Entries(), t) && NamesAscend(Entries(), t, name, cmp)
              && (vcn.None? || vcn.value == 0)
              ==> ByName(Entries(), k0, t, name, cmp, if r.Some? then Some(j) else None)
      ensures r.Some? ==> exists i :: 0 <= i < |Entries()| && r.value == Offset(Entries(), i)
                                      && Matches(Entries()[i], t, name, vcn, cmp)
    {
      hide Parse, IsEntry, Flatten, Accept, SizeOf, TypeOf, VcnOf, NameOf, NameBytes, Ordered, OneName, Look,
           Matches, Segment, Offset, Unsegmented, NamesAscend, ByName;
      ghost var es := Entries();
      ghost var k := k0;
      r, j := None, k0;
      var at := Enumerate(from, k0);
      while at.Some?
        invariant k0 <= k <= |es| && at == (if k < |es| then Some(Offset(es, k)) else None)
        invariant LookedAt(es, k0, k, t, name, vcn, cmp, if r.Some? then Some(j) else None)
        invariant r.Some? ==> k0 <= j < k && r.value == Offset(es, j) && Matches(es[j], t, name, vcn, cmp)
        decreases |es| - k
      {
        var e := EntryAt(at.value, k);
        var v := Look(e, t, name, vcn, cmp);
        LookMatches(e, t, name, vcn, cmp);
        if v == GiveUp {
          GaveUp(es, k0, k, t, name, vcn, cmp, if r.Some? then Some(j) else None);
          NameSought(es, k0, k, t, name, vcn, cmp, if r.Some? then Some(j) else None);
          return;
        }
        if v == Found {
          FoundIt(es, k0, k, t, name, vcn, cmp, if r.Some? then Some(j) else None);
          NameSought(es, k0, k, t, name, vcn, cmp, if r.Some? then Some(j) else None);
          return at, k;
        }
        if v == Remember {
          r, j := at, k;
        }
        k := k + 1;
        at := Enumerate(at, k);
      }
      RanOut(es, k0, t, name, vcn, cmp, if r.Some? then Some(j) else None);
      NameSought(es, k0, |es|, t, name, vcn, cmp, if r.Some? then Some(j) else None);
    }

    /** memmove within the buffer. */
    method Move(dst: nat, src: nat, len: nat)
      requires dst + len <= le.Length && src + len <= le.Length
      modifies le
      ensures le[dst..dst + len] == old(le[src..src + len])
      ensures le[..dst] == old(le[..dst]) && le[dst + len..] == old(le[dst + len..])
    {
      var t := le[src..src + len];
      forall i | 0 <= i < len {
        le[dst + i] := t[i];
      }
    }

    /** Make room for `sz` bytes at `off`, in a new buffer if the old one is too small (lines 296-309). */
    method OpenGap(off: nat, sz: nat) returns (ok: bool)
      requires Valid() && off <= size
      modifies this`le, le
      ensures if ok then (le == old(le) || fresh(le)) && Aligned(size + sz) <= le.Length
                         && le[..off] == old(le[..off]) && le[off + sz..size + sz] == old(le[off..size])
              else le == old(le) && le[..] == old(le[..])
      ensures !ok ==> memory != Plenty && Aligned(size) < size + sz
    {
      ok := true;
      if size + sz > Aligned(size) {
        ok := TryAlloc(memory);
        if ok {
          NewBuffer(off, sz);
        }
      } else {
        AlignedSame(size, sz);
        ghost var b := le[..];
        Move(off + sz, off, size - off);
        assert le[..off] == le[..off + sz][..off] == b[..off];
      }
    }

    /** The list copied into a new buffer, with a gap. */
    method NewBuffer(off: nat, sz: nat)
      requires Valid() && off <= size
      modifies this`le
      ensures fresh(le) && Aligned(size + sz) <= le.Length
      ensures le[..off] == old(le[..off]) && le[off + sz..size + sz] == old(le[off..size])
    {
      hide Aligned;
      AlignedMore(size, sz);
      AlignedMore(size, 0);
      ghost var front, back := le[..off], le[off..size];
      var a := new Byte[Aligned(size + sz)];
      forall i | 0 <= i < off {
        a[i] := le[i];
      }
      assert a[..off] == front;
      forall i | off <= i < size {
        a[i + sz] := le[i];
      }
      assert a[..off] == front;
      assert forall i :: 0 <= i < |back| ==> a[off + sz + i] == back[i];
      assert a[off + sz..size + sz] == back;
      le := a;
    }

    /** Write the fields of the new entry (lines 314-321). */
    method WriteEntry(off: nat, f: Fields, ghost end: nat)
      requires f.Fit() && off + LeSize(|f.name|) <= end <= le.Length
      modifies le
      ensures Says(le[off..off + LeSize(|f.name|)], f)
      ensures le[..off] == old(le[..off]) && le[off + LeSize(|f.name|)..end] == old(le[off + LeSize(|f.name|)..end])
    {
      hide Says, Header, LeSize;
      var h := Header(f);
      forall i | 0 <= i < |h| {
        le[off + i] := h[i];
      }
      ghost var sz := LeSize(|f.name|);
      HeaderSays(f, le[off + |h|..off + sz]);
      assert le[off..off + sz] == h + le[off + |h|..off + sz];
    }

    /**
      al_add_le: one entry more, or, if room or the attribute's size cannot be had, the list as it
      was. An error of the final write leaves the new entry in the list. `growErr` and `writeErr` are what
      attr_set_size and ntfs_sb_write_run answer.
     */
    method AddLe(f: Fields, cmp: Compare, nonRes: bool, growErr: int, writeErr: int)
      returns (err: int, at: nat, ghost added: bool, ghost k: nat, ghost e: Entry)
      requires Valid() && f.Fit()
      modifies this`le, this`size, this`dirty, le
      ensures Valid() && (le == old(le) || fresh(le))
      ensures err == 0 ==> added
      ensures added ==> growErr == 0 && err == if nonRes then writeErr else 0
      ensures !added ==> (growErr != 0 && err == growErr) || (err == ENOMEM && memory != Plenty && old(NeedsRoom(f)))
      ensures added ==> k <= |old(Entries())| && Says(e, f) && at == old(Offset(Entries(), k))
                        && Entries() == old(Entries())[..k] + [e] + old(Entries())[k..]
                        && at <= old(size) && Bytes() == old(Bytes()[..at]) + e + old(Bytes()[at..])
      ensures added && old(OneName(Entries(), f.kind, f.name, cmp) && Ordered(Entries(), f.kind))
              ==> PlaceFor(old(Entries()), k, f.kind, f.vcn) && Ordered(Entries(), f.kind)
      ensures added && old(OneName(Entries(), f.kind, f.name, cmp)) && cmp(f.name, f.name) == 0
              ==> OneName(Entries(), f.kind, f.name, cmp)
      ensures !added ==> Bytes() == old(Bytes()) && dirty == old(dirty)
      ensures added ==> dirty == (err != 0 || !nonRes)
    {
      hide Says, LeSize, Parse, IsEntry, OneName, Ordered, PlaceFor, Offset, Aligned;
      ghost var b := le[..size];
      at, k := FindToInsert(f, cmp);
      AtOffset(b, k);
      added := false;
      var oldSize, ok := size, false;
      ok, e := PutEntry(at, f);
      if !ok {
        return ENOMEM, at, added, k, e;
      }
      err := growErr;
      if err != 0 {
        TakeBack(at, e, LeSize(|f.name|), oldSize, b);
        return err, at, added, k, e;
      }
      added, dirty := true, true;
      InsertBytes(b, k, e, le[..size]);
      AddedInOrder(b, k, e, f, cmp, le[..size]);
      AddedOneName(b, k, e, f, cmp, le[..size]);
      if nonRes {
        err := writeErr;
        if err != 0 {
          return;
        }
        dirty := false;
      }
    }

    /** The new entry does not fit into the buffer. */
    ghost predicate NeedsRoom(f: Fields)
      reads this
    {
      Aligned(size) < size + LeSize(|f.name|)
    }

    /** Put a new entry at `off` (lines 296-321). */
    method PutEntry(off: nat, f: Fields) returns (ok: bool, ghost e: Entry)
      requires Valid() && f.Fit() && off <= size
      modifies this`le, this`size, le
      ensures Valid() && (le == old(le) || fresh(le))
      ensures ok ==> Says(e, f) && |e| == LeSize(|f.name|) && size == old(size) + |e|
                     && Bytes() == old(Bytes()[..off]) + e + old(Bytes()[off..])
      ensures !ok ==> Bytes() == old(Bytes()) && memory != Plenty && old(NeedsRoom(f))
    {
      hide Says, LeSize, IsEntry, Aligned;
      ghost var b := le[..size];
      e := Blank();
      AlignedMore(size, LeSize(|f.name|));
      ok := OpenGap(off, LeSize(|f.name|));
      if ok {
        e := FillGap(off, f, b);
      } else {
        assert le[..size] == le[..][..size];
      }
    }

    /** The gap becomes the new entry (lines 310-321). */
    method FillGap(off: nat, f: Fields, ghost b: seq<Byte>) returns (ghost e: Entry)
      requires f.Fit() && off <= size == |b| && Aligned(size + LeSize(|f.name|)) <= le.Length
      requires le[..off] == b[..off] && le[off + LeSize(|f.name|)..size + LeSize(|f.name|)] == b[off..]
      modifies this`size, le
      ensures Valid() && Says(e, f) && |e| == LeSize(|f.name|) && size == old(size) + |e|
              && Bytes() == b[..off] + e + b[off..]
    {
      hide Says, LeSize, IsEntry, Aligned;
      var sz: nat := LeSize(|f.name|);
      AlignedMore(size, sz);
      size := size + sz;
      WriteEntry(off, f, size);
      SaysEntry(le[off..off + sz], f);
      e := le[off..off + sz];
      Glued(le[..size], off, off + sz);
    }

    /** The way out if the attribute cannot grow (lines 326-328). */
    method TakeBack(off: nat, ghost e: Entry, sz: nat, oldSize: nat, ghost b: seq<Byte>)
      requires Valid() && sz == |e| && size == oldSize + sz && off <= oldSize == |b|
               && Bytes() == b[..off] + e + b[off..]
      modifies this`size, le
      ensures Valid() && Bytes() == b
    {
      hide IsEntry, Aligned;
      AlignedMore(oldSize, sz);
      ghost var c := le[..size];
      assert le[off + sz..size] == c[off + sz..] == b[off..];
      assert le[..off] == c[..off] == b[..off];
      Move(off, off + sz, oldSize - off);
      size := oldSize;
      assert le[..size] == le[..off] + le[off..size];
    }

    /** al_remove_le undoes al_add_le: whatever comes of adding an entry, removing it again gives the old list back. */
    method AddAndRemove(f: Fields, cmp: Compare, nonRes: bool, growErr: int, writeErr: int) returns (err: int)
      requires Valid() && f.Fit()
      modifies this`le, this`size, this`dirty, le
      ensures Valid() && Bytes() == old(Bytes()) && Entries() == old(Entries())
    {
      hide Says, LeSize, Parse, IsEntry, OneName, Ordered, PlaceFor, Aligned, Offset;
      ghost var b, es := Bytes(), Entries();
      var at, size0 := 0, size;
      ghost var added, k, e;
      err, at, added, k, e := AddLe(f, cmp, nonRes, growErr, writeErr);
      if size != size0 {
        SameOffset(es, k, e, Entries());
        ghost var c := Bytes();
        var ok := RemoveLe(Some(at), k);
        assert Bytes() == c[..at] + c[at + |e|..] == b;
      } else {
        EntrySize(e);
        assert added ==> |Bytes()| == |b| + |e|;
      }
    }

    /** al_remove_le: entry `k` goes, all others stay. */
    method RemoveLe(at: Option<nat>, ghost k: nat) returns (ok: bool)
      requires Valid() && (at.Some? ==> k < |Entries()| && at.value == Offset(Entries(), k))
      modifies this`le, this`size, this`dirty, le
      ensures Valid() && le == old(le) && ok == at.Some?
      ensures if ok then Entries() == old(Entries())[..k] + old(Entries())[k + 1..] && dirty
              else Bytes() == old(Bytes()) && dirty == old(dirty)
      ensures ok ==> at.value + |old(Entries())[k]| <= old(size)
      ensures ok ==> Bytes() == old(Bytes()[..at.value] + Bytes()[at.value + |Entries()[k]|..])
    {
      hide Parse, IsEntry, Offset, Aligned, Le, Flatten;
      if at.None? {
        return false;
      }
      ghost var b := le[..size];
      CursorStep(b, k);
      var sz := SizeOf(le[at.value..size]);
      AlignedMore(size - sz, sz);
      Move(at.value, at.value + sz, size - (at.value + sz));
      size := size - sz;
      dirty := true;
      assert le[..size] == b[..at.value] + b[at.value + sz..];
      RemoveBytes(b, k, le[..size]);
      ok := true;
    }
  }

  lemma Glued(a: seq<Byte>, i: nat, j: nat)
    requires i <= j <= |a|
    ensures a == a[..i] + a[i..j] + a[j..]
  {
  }

  lemma AlignedSame(size: nat, sz: nat)
    requires size + sz <= Aligned(size)
    ensures Aligned(size + sz) == Aligned(size)
  {
  }

  lemma AlignedMore(size: nat, sz: nat)
    ensures size + sz <= Aligned(size + sz) && Aligned(size) <= Aligned(size + sz)
  {
  }

  lemma SaysEntry(e: seq<Byte>, f: Fields)
    requires Says(e, f)
    ensures IsEntry(e)
  {
  }

  lemma AddedInOrder(b: seq<Byte>, k: nat, e: Entry, f: Fields, cmp: Compare, c: seq<Byte>)
    requires k <= |Parse(b)| && Says(e, f) && Parse(c) == Parse(b)[..k] + [e] + Parse(b)[k..]
    requires OneName(Parse(b), f.kind, f.name, cmp) && Ordered(Parse(b), f.kind) ==>
               PlaceFor(Parse(b), k, f.kind, f.vcn)
    ensures OneName(Parse(b), f.kind, f.name, cmp) && Ordered(Parse(b), f.kind) ==> Ordered(Parse(c), f.kind)
  {
    hide Parse, OneName, Ordered, PlaceFor;
    if OneName(Parse(b), f.kind, f.name, cmp) && Ordered(Parse(b), f.kind) {
      InsertOrdered(Parse(b), k, e, f.kind, Parse(c));
    }
  }

  /** The new entry has the name that all entries of its type share. */
  lemma AddedOneName(b: seq<Byte>, k: nat, e: Entry, f: Fields, cmp: Compare, c: seq<Byte>)
    requires k <= |Parse(b)| && Says(e, f) && Parse(c) == Parse(b)[..k] + [e] + Parse(b)[k..]
    ensures OneName(Parse(b), f.kind, f.name, cmp) && cmp(f.name, f.name) == 0 ==>
              OneName(Parse(c), f.kind, f.name, cmp)
  {
    hide Parse, TypeOf, VcnOf, RefOf, IdOf, SizeOf;
    if OneName(Parse(b), f.kind, f.name, cmp) && cmp(f.name, f.name) == 0 {
      var es, cs := Parse(b), Parse(c);
      NameSize(e);
      forall i | 0 <= i < |cs| && TypeOf(cs[i]) == f.kind
        ensures NameBytes(cs[i]) == |f.name| && (VcnOf(cs[i]) == 0 ==> cmp(NameOf(cs[i]), f.name) == 0)
      {
        assert i < k ==> cs[i] == es[i];
        assert i == k ==> cs[i] == e;
        assert k < i ==> cs[i] == es[i - 1];
      }
    }
  }

  /** Entries up to the new one start where they did. */
  lemma SameOffset(es: seq<Entry>, k: nat, e: Entry, cs: seq<Entry>)
    requires k <= |es| && cs == es[..k] + [e] + es[k..]
    ensures Offset(cs, k) == Offset(es, k) && cs[k] == e
  {
    assert cs[..k] == es[..k];
  }

  lemma EntrySize(e: Entry)
    ensures ENTRY <= |e|
  {
  }

  lemma NameSize(e: Entry)
    ensures NameBytes(e) == |NameOf(e)|
  {
  }

  lemma FirstOffset(es: seq<Entry>)
    ensures Offset(es, 0) == 0
  {
    assert es[..0] == [];
  }

  /** What al_enumerate sees at the offset of entry `k`: an entry, or the end. */
  lemma CursorAt(b: seq<Byte>, k: nat)
    requires k <= |Parse(b)|
    ensures Offset(Parse(b), k) <= |b| && (Accept(b[Offset(Parse(b), k)..]) <==> k < |Parse(b)|)
  {
    hide Parse, Flatten;
    if k < |Parse(b)| {
      CursorStep(b, k);
    } else {
      CursorEnd(b);
    }
  }

  lemma PlaceFound(es: seq<Entry>, k: nat, f: Fields, cmp: Compare)
    requires k <= |es| && forall i :: 0 <= i < k ==> GoesBehind(es[i], f.kind, f.name, f.vcn, cmp)
    requires k < |es| ==> !GoesBehind(es[k], f.kind, f.name, f.vcn, cmp)
    ensures OneName(es, f.kind, f.name, cmp) ==> PlaceFor(es, k, f.kind, f.vcn)
    ensures Unsegmented(es, f.kind) ==> PlaceByName(es, k, f, cmp)
  {
    hide TypeOf, VcnOf, NameOf, NameBytes, IsEntry;
  }

  /** What can be said of any entry al_find_ex returns. */
  ghost predicate Matches(e: Entry, t: nat, name: seq<Byte>, vcn: Option<nat>, cmp: Compare) {
    && TypeOf(e) == t && NameBytes(e) == |name| && (VcnOf(e) == 0 ==> cmp(NameOf(e), name) == 0)
    && (vcn.Some? ==> VcnOf(e) <= vcn.value)
  }

  /** The answer to a search from entry `k0` on. */
  ghost predicate Segment(es: seq<Entry>, k0: nat, t: nat, vcn: Option<nat>, j: Option<nat>) {
    match j
    case None => forall i :: k0 <= i < |es| && TypeOf(es[i]) == t ==> vcn.Some? && vcn.value < VcnOf(es[i])
    case Some(j) =>
      && k0 <= j < |es| && TypeOf(es[j]) == t
      && (vcn.None? ==> forall i :: k0 <= i < j ==> TypeOf(es[i]) != t)
      && (vcn.Some? ==> VcnOf(es[j]) <= vcn.value)
      && (vcn.Some? ==> forall i :: k0 <= i < |es| && TypeOf(es[i]) == t && VcnOf(es[i]) <= vcn.value
                                    ==> VcnOf(es[i]) <= VcnOf(es[j]))
  }

  /** Entries [k0, k) have been looked at, and `j` is the last one worth remembering. */
  ghost predicate LookedAt(es: seq<Entry>, k0: nat, k: nat, t: nat, name: seq<Byte>, vcn: Option<nat>,
                           cmp: Compare, j: Option<nat>) {
    && k0 <= k <= |es|
    && (forall i :: k0 <= i < k ==>
        Look(es[i], t, name, vcn, cmp) == Skip || Look(es[i], t, name, vcn, cmp) == Remember)
    && (j.None? ==> forall i :: k0 <= i < k ==> Look(es[i], t, name, vcn, cmp) == Skip)
    && (j.Some? ==> k0 <= j.value < k && Look(es[j.value], t, name, vcn, cmp) == Remember)
    && (j.Some? ==> forall i :: j.value < i < k ==> Look(es[i], t, name, vcn, cmp) == Skip)
  }

  lemma LookMatches(e: Entry, t: nat, name: seq<Byte>, vcn: Option<nat>, cmp: Compare)
    ensures Look(e, t, name, vcn, cmp) == Found || Look(e, t, name, vcn, cmp) == Remember ==>
              Matches(e, t, name, vcn, cmp)
  {
    hide TypeOf, VcnOf, NameOf, NameBytes, IsEntry;
  }

  /** For a type with one name, what a verdict means. */
  lemma LookMeans(es: seq<Entry>, i: nat, t: nat, name: seq<Byte>, vcn: Option<nat>, cmp: Compare)
    requires OneName(es, t, name, cmp) && i < |es|
    ensures match Look(es[i], t, name, vcn, cmp)
            case Skip => TypeOf(es[i]) < t
            case Remember => TypeOf(es[i]) == t && vcn.Some? && VcnOf(es[i]) < vcn.value
            case Found => TypeOf(es[i]) == t && (vcn.Some? ==> VcnOf(es[i]) == vcn.value)
            case GiveUp => TypeOf(es[i]) > t || (TypeOf(es[i]) == t && vcn.Some? && vcn.value < VcnOf(es[i]))
  {
    hide TypeOf, VcnOf, NameOf, NameBytes, IsEntry;
  }

  lemma LookedAtMeans(es: seq<Entry>, k0: nat, k: nat, t: nat, name: seq<Byte>, vcn: Option<nat>,
                      cmp: Compare, j: Option<nat>)
    requires OneName(es, t, name, cmp) && LookedAt(es, k0, k, t, name, vcn, cmp, j)
    ensures forall i :: k0 <= i < k ==> TypeOf(es[i]) <= t
    ensures forall i :: k0 <= i < k && TypeOf(es[i]) == t ==>
              j.Some? && i <= j.value && vcn.Some? && VcnOf(es[i]) < vcn.value
    ensures j.Some? ==> TypeOf(es[j.value]) == t && vcn.Some? && VcnOf(es[j.value]) < vcn.value
  {
    hide TypeOf, VcnOf, NameOf, NameBytes, OneName, Look;
    forall i | k0 <= i < k
      ensures TypeOf(es[i]) <= t
      ensures TypeOf(es[i]) == t ==> j.Some? && i <= j.value && vcn.Some? && VcnOf(es[i]) < vcn.value
    {
      LookMeans(es, i, t, name, vcn, cmp);
    }
    if j.Some? {
      LookMeans(es, j.value, t, name, vcn, cmp);
    }
  }

  /** What the search by name has come to when it stands at entry `k`. */
  lemma NameSought(es: seq<Entry>, k0: nat, k: nat, t: nat, name: seq<Byte>, vcn: Option<nat>, cmp: Compare,
                   j: Option<nat>)
    requires LookedAt(es, k0, k, t, name, vcn, cmp, j)
    ensures Unsegmented(es, t) && Ordered(es, t) && NamesAscend(es, t, name, cmp) && (vcn.None? || vcn.value == 0) ==>
              && (k < |es| && Look(es[k], t, name, vcn, cmp) == Found ==> ByName(es, k0, t, name, cmp, Some(k)))
              && (k == |es| || Look(es[k], t, name, vcn, cmp) == GiveUp ==> ByName(es, k0, t, name, cmp, j))
  {
    hide TypeOf, VcnOf, NameOf, NameBytes;
    if Unsegmented(es, t) && Ordered(es, t) && NamesAscend(es, t, name, cmp) && (vcn.None? || vcn.value == 0) {
      forall i | k0 <= i < k
        ensures Look(es[i], t, name, vcn, cmp) == Skip && !HasName(es[i], t, name, cmp)
      {
      }
      if k < |es| && Look(es[k], t, name, vcn, cmp) == GiveUp {
        forall i | k <= i < |es|
          ensures !HasName(es[i], t, name, cmp)
        {
          assert k < i ==> Before(es[k], es[i], t);
        }
      }
    }
  }

  lemma GaveUp(es: seq<Entry>, k0: nat, k: nat, t: nat, name: seq<Byte>, vcn: Option<nat>, cmp: Compare, j: Option<nat>)
    requires LookedAt(es, k0, k, t, name, vcn, cmp, j) && k < |es| && Look(es[k], t, name, vcn, cmp) == GiveUp
    ensures OneName(es, t, name, cmp) && Ordered(es, t) ==> Segment(es, k0, t, vcn, j)
  {
    hide TypeOf, VcnOf, NameOf, NameBytes, IsEntry, OneName, Look;
    if OneName(es, t, name, cmp) && Ordered(es, t) {
      LookedAtMeans(es, k0, k, t, name, vcn, cmp, j);
      LookMeans(es, k, t, name, vcn, cmp);
      assert forall i :: k < i < |es| ==> Before(es[k], es[i], t);
      assert j.Some? ==> forall i :: k0 <= i < j.value ==> Before(es[i], es[j.value], t);
    }
  }

  lemma FoundIt(es: seq<Entry>, k0: nat, k: nat, t: nat, name: seq<Byte>, vcn: Option<nat>, cmp: Compare,
                j: Option<nat>)
    requires LookedAt(es, k0, k, t, name, vcn, cmp, j) && k < |es| && Look(es[k], t, name, vcn, cmp) == Found
    ensures OneName(es, t, name, cmp) && Ordered(es, t) ==> Segment(es, k0, t, vcn, Some(k))
  {
    hide TypeOf, VcnOf, NameOf, NameBytes, IsEntry, OneName, Look;
    if OneName(es, t, name, cmp) && Ordered(es, t) {
      LookedAtMeans(es, k0, k, t, name, vcn, cmp, j);
      LookMeans(es, k, t, name, vcn, cmp);
    }
  }

  lemma RanOut(es: seq<Entry>, k0: nat, t: nat, name: seq<Byte>, vcn: Option<nat>, cmp: Compare, j: Option<nat>)
    requires LookedAt(es, k0, |es|, t, name, vcn, cmp, j)
    ensures OneName(es, t, name, cmp) && Ordered(es, t) ==> Segment(es, k0, t, vcn, j)
  {
    hide TypeOf, VcnOf, NameOf, NameBytes, IsEntry, OneName, Look;
    if OneName(es, t, name, cmp) && Ordered(es, t) {
      LookedAtMeans(es, k0, |es|, t, name, vcn, cmp, j);
      assert j.Some? ==> forall i :: k0 <= i < j.value ==> Before(es[i], es[j.value], t);
    }
  }
}
