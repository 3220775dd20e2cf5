/** x86-64 four-level page tables as values: the walk, and why the tree of tables acts like one flat
    map from pages to entries (section 4.5 of the Intel SDM, Volume 3A). */
module Paging {
  import opened Common

  type Word = bv64

  const PRESENT: Word := 0x1
  const WRITABLE: Word := 0x2
  const ADDRESS_MASK: Word := 0x000F_FFFF_FFFF_F000
  const PT_ENTRIES: nat := 512

  /** A physical address. */
  datatype Addr = Addr(bits: Word)

  predicate Present(e: Word) {
    e & PRESENT != 0
  }

  /** The frame an entry, or an address, lies in. */
  function Frame(e: Word): Addr {
    Addr(e & ADDRESS_MASK)
  }

  /** The nine address bits that index a table of the given level, 4 for the root and 1 for a leaf. */
  function Index(v: nat, level: nat): (i: nat)
    requires 1 <= level <= 4
    ensures i < PT_ENTRIES
  {
    match level
    case 4 => v / 0x80_0000_0000 % 512
    case 3 => v / 0x4000_0000 % 512
    case 2 => v / 0x20_0000 % 512
    case 1 => v / 0x1000 % 512
  }

  /** The address bits above the index of a level: what all pages below one table share. */
  function Prefix(v: nat, level: nat): nat
    requires level <= 4
  {
    match level
    case 4 => 0
    case 3 => v / 0x80_0000_0000 % 512
    case 2 => v / 0x4000_0000 % 0x4_0000
    case 1 => v / 0x20_0000 % 0x800_0000
    case 0 => v / 0x1000 % 0x10_0000_0000
  }

  /** Bits 12 to 47: the page of a virtual address. */
  function PageNumber(v: nat): nat {
    Prefix(v, 0)
  }

  /** The prefix of a level followed by the index of that level is the prefix of the level below. */
  lemma PrefixStep(v: nat, level: nat)
    requires 1 <= level <= 4
    ensures Prefix(v, level - 1) == 512 * Prefix(v, level) + Index(v, level)
  {
    match level
    case 4 =>
    case 3 => Digits(v / 0x4000_0000, 512); assert v / 0x4000_0000 / 512 == v / 0x80_0000_0000;
    case 2 => Digits(v / 0x20_0000, 0x4_0000); assert v / 0x20_0000 / 512 == v / 0x4000_0000;
    case 1 => Digits(v / 0x1000, 0x800_0000); assert v / 0x1000 / 512 == v / 0x20_0000;
  }

  /** The four table indexes are the digits to base 512 of the page number. */
  lemma IndexDigits(v: nat)
    ensures v / 4096 % 0x10_0000_0000 ==
      ((Index(v, 4) * 512 + Index(v, 3)) * 512 + Index(v, 2)) * 512 + Index(v, 1)
    ensures PageNumber(v) == v / 4096 % 0x10_0000_0000
  {
    PrefixStep(v, 4);
    PrefixStep(v, 3);
    PrefixStep(v, 2);
    PrefixStep(v, 1);
  }

  lemma Digits(x: nat, m: nat)
    requires m == 512 || m == 0x4_0000 || m == 0x800_0000
    ensures x % (512 * m) == 512 * (x / 512 % m) + x % 512
  {
  }

  // ----- memory -----

  /** The page-table frames of physical memory, by frame address. */
  type Tables = map<Addr, seq<Word>>

  /** The place of a table: the address space it belongs to, its level, and the prefix it serves. */
  datatype Place = Place(root: Addr, level: nat, prefix: nat)

  ghost predicate TableOk(mem: Tables, at: map<Addr, Place>, t: Addr)
    requires t in mem && t in at
  {
    && |mem[t]| == PT_ENTRIES && Frame(t.bits) == t && t.bits != 0
    && 1 <= at[t].level <= 4
    && (at[t].level == 4 ==> at[t].root == t && at[t].prefix == 0)
  }

  /** The entry that table t, of level 2 or above, has for v leads to the table placed below it. */
  ghost predicate ChildOk(mem: Tables, at: map<Addr, Place>, t: Addr, v: nat)
    requires t in mem && t in at && TableOk(mem, at, t) && at[t].level >= 2
  {
    var e := mem[t][Index(v, at[t].level)];
    Present(e) ==>
      && Frame(e) in mem && Frame(e) in at
      && at[Frame(e)] == Place(at[t].root, at[t].level - 1, Prefix(v, at[t].level - 1))
  }

  ghost predicate WellFormed(mem: Tables, at: map<Addr, Place>) {
    && mem.Keys == at.Keys
    && (forall t | t in mem :: TableOk(mem, at, t))
    && (forall t, v: nat | t in mem && at[t].level >= 2 && at[t].prefix == Prefix(v, at[t].level) ::
      ChildOk(mem, at, t, v))
  }

  ghost predicate Root(at: map<Addr, Place>, t: Addr) {
    t in at && at[t].level == 4
  }

  /** The leaf table and index that hold the entry of v, walking down from table t of some level. */
  function Slot(mem: Tables, t: Addr, level: nat, v: nat): Option<(Addr, nat)>
    requires 1 <= level <= 4
    decreases level
  {
    if t !in mem || |mem[t]| != PT_ENTRIES then None
    else if level == 1 then Some((t, Index(v, 1)))
    else
      var e := mem[t][Index(v, level)];
      if Present(e) then Slot(mem, Frame(e), level - 1, v) else None
  }

  /** The entry stored for v when it is present. */
  function Lookup(mem: Tables, t: Addr, level: nat, v: nat): Option<Word>
    requires 1 <= level <= 4
  {
    match Slot(mem, t, level, v)
    case Some((leaf, i)) =>
      if leaf in mem && i < |mem[leaf]| && Present(mem[leaf][i]) then Some(mem[leaf][i]) else None
    case None => None
  }

  lemma LookupStep(mem: Tables, t: Addr, level: nat, v: nat)
    requires 2 <= level <= 4 && t in mem && |mem[t]| == PT_ENTRIES
    ensures var e := mem[t][Index(v, level)];
      Lookup(mem, t, level, v) == if Present(e) then Lookup(mem, Frame(e), level - 1, v) else None
  {
  }

  /** A walk ends in a leaf table placed in the walked address space, under the prefix of v. */
  lemma {:induction false} SlotPlace(mem: Tables, at: map<Addr, Place>, t: Addr, level: nat, v: nat)
    requires WellFormed(mem, at) && t in mem && level == at[t].level && at[t].prefix == Prefix(v, level)
    ensures Slot(mem, t, level, v).Some? ==>
      var (leaf, i) := Slot(mem, t, level, v).value;
      leaf in mem && at[leaf] == Place(at[t].root, 1, Prefix(v, 1)) && i == Index(v, 1)
    decreases level
  {
    assert TableOk(mem, at, t);
    if level > 1 {
      assert ChildOk(mem, at, t, v);
      var e := mem[t][Index(v, level)];
      if Present(e) { SlotPlace(mem, at, Frame(e), level - 1, v); }
    }
  }

  /** Two pages share a leaf entry only if they are the same page of the same address space. */
  lemma SlotInjective(mem: Tables, at: map<Addr, Place>, r: Addr, v: nat, r': Addr, v': nat)
    requires WellFormed(mem, at) && Root(at, r) && Root(at, r')
    requires Slot(mem, r, 4, v).Some? && Slot(mem, r, 4, v) == Slot(mem, r', 4, v')
    ensures r == r' && PageNumber(v) == PageNumber(v')
  {
    assert TableOk(mem, at, r) && TableOk(mem, at, r');
    SlotPlace(mem, at, r, 4, v);
    SlotPlace(mem, at, r', 4, v');
    PrefixStep(v, 1);
    PrefixStep(v', 1);
  }

  lemma SamePageSamePath(v: nat, v': nat, level: nat)
    requires PageNumber(v) == PageNumber(v') && 1 <= level <= 4
    ensures Prefix(v, level) == Prefix(v', level) && Index(v, level) == Index(v', level)
    decreases level
  {
    if level > 1 { SamePageSamePath(v, v', level - 1); }
    PrefixStep(v, level);
    PrefixStep(v', level);
  }

  /** Addresses of one page take the same walk. */
  lemma {:induction false} SlotSamePage(mem: Tables, t: Addr, level: nat, v: nat, v': nat)
    requires 1 <= level <= 4 && PageNumber(v) == PageNumber(v')
    ensures Slot(mem, t, level, v) == Slot(mem, t, level, v') && Prefix(v, level) == Prefix(v', level)
    decreases level
  {
    SamePageSamePath(v, v', level);
    if level > 1 && t in mem && |mem[t]| == PT_ENTRIES {
      SlotSamePage(mem, Frame(mem[t][Index(v, level)]), level - 1, v, v');
    }
  }

  // ----- the two kinds of table update -----

  function SetEntry(mem: Tables, t: Addr, i: nat, e: Word): Tables
    requires t in mem && i < |mem[t]|
  {
    mem[t := mem[t][i := e]]
  }

  /** Writing a leaf entry moves no walk: every page keeps its slot. */
  lemma {:induction false} LeafWriteSlots(mem: Tables, at: map<Addr, Place>, leaf: Addr, i: nat, e: Word, t: Addr,
    level: nat, v: nat)
    requires WellFormed(mem, at) && leaf in mem && at[leaf].level == 1 && i < PT_ENTRIES
    requires t in mem && at[t].level == level && at[t].prefix == Prefix(v, level)
    ensures |mem[leaf]| == PT_ENTRIES
    ensures Slot(SetEntry(mem, leaf, i, e), t, level, v) == Slot(mem, t, level, v)
    decreases level
  {
    assert TableOk(mem, at, leaf) && TableOk(mem, at, t);
    if level > 1 {
      assert ChildOk(mem, at, t, v);
      assert t != leaf && SetEntry(mem, leaf, i, e)[t] == mem[t];
      var c := mem[t][Index(v, level)];
      if Present(c) { LeafWriteSlots(mem, at, leaf, i, e, Frame(c), level - 1, v); }
    }
  }

  lemma LeafWriteWellFormed(mem: Tables, at: map<Addr, Place>, leaf: Addr, i: nat, e: Word)
    requires WellFormed(mem, at) && leaf in mem && at[leaf].level == 1 && i < PT_ENTRIES
    ensures |mem[leaf]| == PT_ENTRIES && WellFormed(SetEntry(mem, leaf, i, e), at)
  {
    assert TableOk(mem, at, leaf);
    var mem' := SetEntry(mem, leaf, i, e);
    forall t | t in mem' ensures TableOk(mem', at, t) {
      assert TableOk(mem, at, t);
    }
    forall t, v: nat | t in mem' && at[t].level >= 2 && at[t].prefix == Prefix(v, at[t].level)
      ensures ChildOk(mem', at, t, v)
    {
      assert ChildOk(mem, at, t, v);
      assert t != leaf && mem'[t] == mem[t];
    }
  }

  /** Writing the entry of one page changes that page and no other, in any address space. */
  lemma LeafWriteLookup(mem: Tables, at: map<Addr, Place>, r: Addr, v: nat, e: Word, r': Addr, v': nat)
    requires WellFormed(mem, at) && Root(at, r) && Root(at, r')
    requires Slot(mem, r, 4, v).Some?
    ensures var (leaf, i) := Slot(mem, r, 4, v).value;
      && leaf in mem && i < |mem[leaf]|
      && Lookup(SetEntry(mem, leaf, i, e), r', 4, v') ==
           if r' == r && PageNumber(v') == PageNumber(v) then (if Present(e) then Some(e) else None)
           else Lookup(mem, r', 4, v')
  {
    hide Index;
    assert TableOk(mem, at, r) && TableOk(mem, at, r');
    SlotPlace(mem, at, r, 4, v);
    SlotPlace(mem, at, r', 4, v');
    var (leaf, i) := Slot(mem, r, 4, v).value;
    assert TableOk(mem, at, leaf);
    LeafWriteSlots(mem, at, leaf, i, e, r', 4, v');
    if r' == r && PageNumber(v') == PageNumber(v) {
      SlotSamePage(mem, r, 4, v, v');
    } else if Slot(mem, r', 4, v').Some? {
      if Slot(mem, r', 4, v') == Slot(mem, r, 4, v) { SlotInjective(mem, at, r, v, r', v'); }
    }
  }

  function ZeroTable(): (t: seq<Word>)
    ensures |t| == PT_ENTRIES && forall i | 0 <= i < PT_ENTRIES :: t[i] == 0
  {
    seq(PT_ENTRIES, _ => 0)
  }

  /** The entry that leads to the table in frame f. */
  function TableEntry(f: Addr): Word {
    f.bits | PRESENT | WRITABLE
  }

  function LeafEntry(phys: Word, flags: Word): Word {
    (phys & ADDRESS_MASK) | (flags & 0xFFF) | PRESENT
  }

  lemma TableEntryLeads(f: Addr)
    requires Frame(f.bits) == f
    ensures Present(TableEntry(f)) && Frame(TableEntry(f)) == f
  {
    var b := f.bits;
    assert (b & ADDRESS_MASK == b) ==> (b | PRESENT | WRITABLE) & ADDRESS_MASK == b;
  }

  /** The entry of a table has the present and the writable bit and no other flag. */
  lemma TableEntryFlags(f: Addr)
    requires Frame(f.bits) == f
    ensures TableEntry(f) & 0xFFF == 3
  {
    var b := f.bits;
    assert (b & ADDRESS_MASK == b) ==> (b | PRESENT | WRITABLE) & 0xFFF == 3;
  }

  /** A leaf entry is present and leads to the mapped frame, whatever the flags. */
  lemma LeafEntryLeads(phys: Word, flags: Word)
    ensures Present(LeafEntry(phys, flags)) && Frame(LeafEntry(phys, flags)) == Frame(phys)
    ensures LeafEntry(phys, flags) & 0xFFF == (flags & 0xFFF) | 1
    ensures LeafEntry(phys, flags) & 0xFFF0_0000_0000_0000 == 0
  {
  }

  /** Hang an empty table in frame f below entry i of table t. */
  function Grow(mem: Tables, t: Addr, i: nat, f: Addr): Tables
    requires t in mem && i < |mem[t]|
  {
    mem[f := ZeroTable()][t := mem[t][i := TableEntry(f)]]
  }

  lemma ZeroEntry()
    ensures !Present(0)
  {
  }

  lemma {:induction false} EmptyTableLookup(mem: Tables, t: Addr, level: nat, v: nat)
    requires 1 <= level <= 4 && t in mem && mem[t] == ZeroTable()
    ensures Lookup(mem, t, level, v) == None
  {
    ZeroEntry();
    assert mem[t][Index(v, level)] == 0;
  }

  /** A new empty table changes no translation. */
  lemma {:induction false} GrowLookup(mem: Tables, at: map<Addr, Place>, t: Addr, i: nat, f: Addr, u: Addr,
    level: nat, v: nat)
    requires WellFormed(mem, at) && t in mem && at[t].level >= 2 && i < PT_ENTRIES && |mem[t]| == PT_ENTRIES
    requires !Present(mem[t][i]) && f !in mem && Frame(f.bits) == f
    requires u in mem && at[u].level == level && at[u].prefix == Prefix(v, level)
    ensures Lookup(Grow(mem, t, i, f), u, level, v) == Lookup(mem, u, level, v)
    decreases level
  {
    var mem' := Grow(mem, t, i, f);
    assert TableOk(mem, at, u);
    if level > 1 {
      assert ChildOk(mem, at, u, v);
      var e := mem[u][Index(v, level)];
      LookupStep(mem, u, level, v);
      LookupStep(mem', u, level, v);
      if Present(e) {
        assert mem'[u][Index(v, level)] == e;
        GrowLookup(mem, at, t, i, f, Frame(e), level - 1, v);
      } else if u == t && Index(v, level) == i {
        TableEntryLeads(f);
        EmptyTableLookup(mem', f, level - 1, v);
      }
    }
  }

  function GrowPlaces(at: map<Addr, Place>, t: Addr, i: nat, f: Addr): map<Addr, Place>
    requires t in at && at[t].level >= 1
  {
    at[f := Place(at[t].root, at[t].level - 1, 512 * at[t].prefix + i)]
  }

  /** An entry that is still there leads where it led. */
  lemma ChildKept(mem: Tables, at: map<Addr, Place>, mem': Tables, at': map<Addr, Place>, u: Addr, v: nat)
    requires u in mem && u in at && TableOk(mem, at, u) && at[u].level >= 2 && ChildOk(mem, at, u, v)
    requires u in mem' && u in at' && TableOk(mem', at', u) && at'[u] == at[u]
    requires mem'[u][Index(v, at[u].level)] == mem[u][Index(v, at[u].level)]
    requires forall w | w in mem && w in at :: w in mem' && w in at' && at'[w] == at[w]
    ensures ChildOk(mem', at', u, v)
  {
  }

  /** The new entry leads to the new table. */
  lemma GrowChild(mem: Tables, at: map<Addr, Place>, t: Addr, f: Addr, v: nat)
    requires t in mem && t in at && TableOk(mem, at, t) && at[t].level >= 2 && at[t].prefix == Prefix(v, at[t].level)
    requires f !in mem && Frame(f.bits) == f
    requires TableOk(Grow(mem, t, Index(v, at[t].level), f), GrowPlaces(at, t, Index(v, at[t].level), f), t)
    ensures ChildOk(Grow(mem, t, Index(v, at[t].level), f), GrowPlaces(at, t, Index(v, at[t].level), f), t, v)
  {
    PrefixStep(v, at[t].level);
    TableEntryLeads(f);
  }

  lemma GrowWellFormed(mem: Tables, at: map<Addr, Place>, t: Addr, i: nat, f: Addr)
    requires WellFormed(mem, at) && t in mem && at[t].level >= 2 && i < PT_ENTRIES && |mem[t]| == PT_ENTRIES
    requires f !in mem && Frame(f.bits) == f && f.bits != 0
    ensures WellFormed(Grow(mem, t, i, f), GrowPlaces(at, t, i, f))
  {
    var mem', at' := Grow(mem, t, i, f), GrowPlaces(at, t, i, f);
    assert TableOk(mem, at, t);
    forall u | u in mem' ensures TableOk(mem', at', u) {
      if u != f { assert TableOk(mem, at, u); }
    }
    ZeroEntry();
    forall u, v: nat | u in mem' && at'[u].level >= 2 && at'[u].prefix == Prefix(v, at'[u].level)
      ensures ChildOk(mem', at', u, v)
    {
      if u == t && Index(v, at[t].level) == i {
        GrowChild(mem, at, t, f, v);
      } else if u != f {
        assert TableOk(mem, at, u) && ChildOk(mem, at, u, v);
        ChildKept(mem, at, mem', at', u, v);
      }
    }
  }

  /** A new address space is empty and changes no translation of the others. */
  lemma NewRootWellFormed(mem: Tables, at: map<Addr, Place>, f: Addr)
    requires WellFormed(mem, at) && f !in mem && Frame(f.bits) == f && f.bits != 0
    ensures WellFormed(mem[f := ZeroTable()], at[f := Place(f, 4, 0)])
  {
    var mem', at' := mem[f := ZeroTable()], at[f := Place(f, 4, 0)];
    forall u | u in mem' ensures TableOk(mem', at', u) {
      if u != f { assert TableOk(mem, at, u); }
    }
    ZeroEntry();
    forall u, v: nat | u in mem' && at'[u].level >= 2 && at'[u].prefix == Prefix(v, at'[u].level)
      ensures ChildOk(mem', at', u, v)
    {
      if u != f { assert ChildOk(mem, at, u, v); }
    }
  }

  lemma {:induction false} NewRootLookup(mem: Tables, at: map<Addr, Place>, f: Addr, u: Addr, level: nat, v: nat)
    requires WellFormed(mem, at) && f !in mem
    requires u in mem && at[u].level == level && at[u].prefix == Prefix(v, level)
    ensures Lookup(mem[f := ZeroTable()], u, level, v) == Lookup(mem, u, level, v)
    decreases level
  {
    assert TableOk(mem, at, u);
    if level > 1 {
      assert ChildOk(mem, at, u, v);
      var e := mem[u][Index(v, level)];
      if Present(e) { NewRootLookup(mem, at, f, Frame(e), level - 1, v); }
    }
  }

  // ----- the flat view -----

  /** A page of an address space. */
  datatype Page = Page(root: Addr, number: nat)

  /** The tree of tables acts like the flat map: a walk finds an entry exactly for the mapped pages,
      and finds the entry of that page. */
  ghost predicate Refines(mem: Tables, at: map<Addr, Place>, view: map<Page, Word>) {
    && (forall r, v: nat | Root(at, r) :: Lookup(mem, r, 4, v) == FlatLookup(view, r, v))
    && (forall p | p in view :: Root(at, p.root) && PageNumber(4096 * p.number) == p.number)
  }

  function FlatLookup(view: map<Page, Word>, r: Addr, v: nat): Option<Word> {
    if Page(r, PageNumber(v)) in view then Some(view[Page(r, PageNumber(v))]) else None
  }

  /** How many tables are still missing on the path of v. */
  function Missing(mem: Tables, t: Addr, level: nat, v: nat): nat
    requires 1 <= level <= 4
    decreases level
  {
    if level == 1 then 0
    else if t in mem && |mem[t]| == PT_ENTRIES && Present(mem[t][Index(v, level)])
    then Missing(mem, Frame(mem[t][Index(v, level)]), level - 1, v)
    else level - 1
  }

  lemma GrowRefines(mem: Tables, at: map<Addr, Place>, view: map<Page, Word>, t: Addr, i: nat, f: Addr)
    requires WellFormed(mem, at) && Refines(mem, at, view)
    requires t in mem && at[t].level >= 2 && i < PT_ENTRIES && |mem[t]| == PT_ENTRIES
    requires !Present(mem[t][i]) && f !in mem && Frame(f.bits) == f
    ensures Refines(Grow(mem, t, i, f), GrowPlaces(at, t, i, f), view)
  {
    var mem', at' := Grow(mem, t, i, f), GrowPlaces(at, t, i, f);
    assert TableOk(mem, at, t);
    forall r, v: nat | Root(at', r) ensures Lookup(mem', r, 4, v) == FlatLookup(view, r, v) {
      assert Root(at, r) && TableOk(mem, at, r);
      GrowLookup(mem, at, t, i, f, r, 4, v);
    }
  }

  lemma NewRootRefines(mem: Tables, at: map<Addr, Place>, view: map<Page, Word>, f: Addr)
    requires WellFormed(mem, at) && Refines(mem, at, view) && f !in mem
    ensures Refines(mem[f := ZeroTable()], at[f := Place(f, 4, 0)], view)
    ensures forall n: nat :: Page(f, n) !in view
  {
    var mem', at' := mem[f := ZeroTable()], at[f := Place(f, 4, 0)];
    forall r, v: nat | Root(at', r) ensures Lookup(mem', r, 4, v) == FlatLookup(view, r, v) {
      if r == f {
        EmptyTableLookup(mem', f, 4, v);
      } else {
        assert TableOk(mem, at, r);
        NewRootLookup(mem, at, f, r, 4, v);
      }
    }
  }

  /** Writing the leaf entry of a page updates the flat map at that page: a present entry maps the
      page to it, any other entry removes the page. */
  lemma LeafWriteRefines(mem: Tables, at: map<Addr, Place>, view: map<Page, Word>, r: Addr, v: nat, e: Word,
    view': map<Page, Word>)
    requires WellFormed(mem, at) && Refines(mem, at, view) && Root(at, r) && Slot(mem, r, 4, v).Some?
    requires var p := Page(r, PageNumber(v)); view' == if Present(e) then view[p := e] else view - {p}
    ensures var (leaf, i) := Slot(mem, r, 4, v).value;
      leaf in mem && i < |mem[leaf]| == PT_ENTRIES && WellFormed(SetEntry(mem, leaf, i, e), at) &&
        Refines(SetEntry(mem, leaf, i, e), at, view')
  {
    hide Slot, Present;
    var (leaf, i) := Slot(mem, r, 4, v).value;
    assert TableOk(mem, at, r);
    SlotPlace(mem, at, r, 4, v);
    LeafWriteWellFormed(mem, at, leaf, i, e);
    forall r', v': nat | Root(at, r')
      ensures Lookup(SetEntry(mem, leaf, i, e), r', 4, v') == FlatLookup(view', r', v')
    {
      LeafWriteLookup(mem, at, r, v, e, r', v');
    }
    PageNumberStable(v);
  }

  lemma PageNumberStable(v: nat)
    ensures PageNumber(4096 * PageNumber(v)) == PageNumber(v)
  {
  }

  /** A path without missing tables has a slot, and a page whose path misses tables is not mapped. */
  lemma {:induction false} MissingSlot(mem: Tables, at: map<Addr, Place>, t: Addr, level: nat, v: nat)
    requires WellFormed(mem, at) && t in mem && at[t].level == level && at[t].prefix == Prefix(v, level)
    ensures Missing(mem, t, level, v) == 0 <==> Slot(mem, t, level, v).Some?
    ensures Missing(mem, t, level, v) < level
    decreases level
  {
    assert TableOk(mem, at, t);
    if level > 1 {
      assert ChildOk(mem, at, t, v);
      var e := mem[t][Index(v, level)];
      if Present(e) { MissingSlot(mem, at, Frame(e), level - 1, v); }
    }
  }

  // ----- adding the tables of a path -----

  /** Tables, their places, and the frames the physical allocator can still hand out. */
  datatype Space = Space(mem: Tables, at: map<Addr, Place>, pool: seq<Addr>)

  ghost predicate PoolOk(s: Space) {
    && (forall i | 0 <= i < |s.pool| ::
      Frame(s.pool[i].bits) == s.pool[i] && s.pool[i].bits != 0 && s.pool[i] !in s.mem)
    && (forall i, j | 0 <= i < j < |s.pool| :: s.pool[i] != s.pool[j])
  }

  ghost predicate Sound(s: Space, view: map<Page, Word>) {
    PoolOk(s) && WellFormed(s.mem, s.at) && Refines(s.mem, s.at, view)
  }

  /** Table t, of the given level, is where the walk for v arrives. */
  ghost predicate OnPath(s: Space, t: Addr, level: nat, v: nat) {
    && t in s.mem && t in s.at && 1 <= level <= 4 && |s.mem[t]| == PT_ENTRIES
    && s.at[t].level == level && s.at[t].prefix == Prefix(v, level)
  }

  /** Go from table t one level down, hanging an empty table there when it is missing. */
  ghost function Descend(s: Space, t: Addr, level: nat, v: nat): (Space, Option<Addr>)
    requires 2 <= level <= 4
  {
    if !OnPath(s, t, level, v) then (s, None) else
      var i := Index(v, level);
      if Present(s.mem[t][i]) then (s, Some(Frame(s.mem[t][i])))
      else if s.pool == [] then (s, None)
      else (Space(Grow(s.mem, t, i, s.pool[0]), GrowPlaces(s.at, t, i, s.pool[0]), s.pool[1..]), Some(s.pool[0]))
  }

  /** Going down keeps every translation, whether it succeeds or not. */
  lemma DescendSound(s: Space, view: map<Page, Word>, t: Addr, level: nat, v: nat)
    requires Sound(s, view) && level >= 2 && OnPath(s, t, level, v)
    ensures Sound(Descend(s, t, level, v).0, view)
  {
    var i := Index(v, level);
    if !Present(s.mem[t][i]) && s.pool != [] {
      GrowWellFormed(s.mem, s.at, t, i, s.pool[0]);
      GrowRefines(s.mem, s.at, view, t, i, s.pool[0]);
    }
  }

  /** Going down arrives one level below on the same path and uses a frame per missing table. */
  lemma DescendArrives(s: Space, view: map<Page, Word>, t: Addr, level: nat, v: nat)
    requires Sound(s, view) && level >= 2 && OnPath(s, t, level, v)
    ensures var (s', below) := Descend(s, t, level, v);
      && (below.None? ==> s' == s && s.pool == [] && Missing(s.mem, t, level, v) > 0)
      && (below.Some? ==>
        && Leads(s'.mem, t, Index(v, level), below.value)
        && OnPath(s', below.value, level - 1, v)
        && Missing(s'.mem, below.value, level - 1, v) - |s'.pool| == Missing(s.mem, t, level, v) - |s.pool|)
  {
    assert ChildOk(s.mem, s.at, t, v);
    PrefixStep(v, level);
    var i := Index(v, level);
    if Present(s.mem[t][i]) {
      assert TableOk(s.mem, s.at, Frame(s.mem[t][i]));
    } else if s.pool != [] {
      TableEntryLeads(s.pool[0]);
    }
  }

  ghost predicate Leads(mem: Tables, t: Addr, i: nat, f: Addr) {
    t in mem && i < |mem[t]| == PT_ENTRIES && Present(mem[t][i]) && Frame(mem[t][i]) == f
  }

  /** Tables above the given level keep their content, and every table keeps its place. */
  ghost predicate KeepsAbove(s: Space, s': Space, level: nat) {
    && (forall u | u in s.mem && u in s.at :: u in s'.mem && u in s'.at && s'.at[u] == s.at[u])
    && (forall u | u in s.mem && u in s.at && s.at[u].level > level :: s'.mem[u] == s.mem[u])
    && (forall u :: Root(s'.at, u) <==> Root(s.at, u))
  }

  lemma DescendKeeps(s: Space, t: Addr, level: nat, v: nat)
    requires PoolOk(s) && s.mem.Keys == s.at.Keys && level >= 2 && OnPath(s, t, level, v)
    ensures KeepsAbove(s, Descend(s, t, level, v).0, level)
  {
  }

  /** Go all the way down to the leaf table. */
  ghost function PathDown(s: Space, t: Addr, level: nat, v: nat): (Space, Option<Addr>)
    requires 1 <= level <= 4
    decreases level
  {
    if level == 1 then (s, Some(t)) else
      var (s', below) := Descend(s, t, level, v);
      if below.None? then (s', None) else PathDown(s', below.value, level - 1, v)
  }

  /** Going all the way down keeps every translation, succeeds exactly when the pool covers the missing
      tables, and then ends in the leaf table of the page. */
  lemma {:induction false} PathDownSound(s: Space, view: map<Page, Word>, t: Addr, level: nat, v: nat)
    requires Sound(s, view) && OnPath(s, t, level, v)
    ensures var (s', pt) := PathDown(s, t, level, v);
      && Sound(s', view) && KeepsAbove(s, s', level)
      && (pt.Some? <==> Missing(s.mem, t, level, v) <= |s.pool|)
      && (pt.None? ==> s'.pool == []) && (pt.Some? ==> s'.pool == s.pool[Missing(s.mem, t, level, v)..])
      && (pt.Some? ==> Slot(s'.mem, t, level, v) == Some((pt.value, Index(v, 1))))
    decreases level
  {
    if level > 1 {
      DescendSound(s, view, t, level, v);
      DescendArrives(s, view, t, level, v);
      DescendKeeps(s, t, level, v);
      var (s', below) := Descend(s, t, level, v);
      if below.Some? {
        PathDownSound(s', view, below.value, level - 1, v);
        PathDownStep(s, s', t, level, v, below.value);
      }
    }
  }

  lemma PathDownStep(s: Space, s': Space, t: Addr, level: nat, v: nat, below: Addr)
    requires 2 <= level <= 4 && OnPath(s, t, level, v)
    requires Leads(s'.mem, t, Index(v, level), below) && KeepsAbove(s, s', level)
    requires KeepsAbove(s', PathDown(s', below, level - 1, v).0, level - 1)
    ensures var s'' := PathDown(s', below, level - 1, v).0;
      KeepsAbove(s, s'', level) && Slot(s''.mem, t, level, v) == Slot(s''.mem, below, level - 1, v)
  {
  }

  /** New tables occupy frames that were in the pool, and nothing is added to the pool. */
  ghost predicate TakesFromPool(s: Space, s': Space) {
    && (forall u | u in s'.mem :: u in s.mem || u in s.pool)
    && (forall f | f in s'.pool :: f in s.pool)
  }

  lemma {:induction false} PathDownTakes(s: Space, t: Addr, level: nat, v: nat)
    requires 1 <= level <= 4
    ensures TakesFromPool(s, PathDown(s, t, level, v).0)
    decreases level
  {
    if level > 1 {
      var (s', below) := Descend(s, t, level, v);
      assert s.pool != [] ==> s.pool[0] in s.pool;
      assert TakesFromPool(s, s');
      if below.Some? { PathDownTakes(s', below.value, level - 1, v); }
    }
  }
}
