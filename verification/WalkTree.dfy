/** Page tables entry by entry, as concurrent handlers read and write them: tables are nodes of a tree, and
    each entry is one word of shared memory. */
module WalkTree {
  import opened Common
  import P = Paging

  /** A page of an address space: the root of its tables and bits 0 to 47 of its page-aligned address. */
  datatype VPage = VPage(root: nat, addr: nat)

  predicate Aligned(p: VPage) {
    p.addr % 0x1000 == 0 && p.addr < 0x1_0000_0000_0000
  }

  /** A table: the root of an address space, or the n-th table that a handler has made. */
  datatype Node = Root(root: nat) | Table(id: nat)

  /** An entry of a table. */
  datatype Slot = Slot(node: Node, index: nat)

  /** Entries of upper tables lead to tables, entries of leaf tables to data frames. */
  type Links = map<Slot, nat>
  type Leaves = map<Slot, nat>

  /** The entry for a page in a table of the given level, 4 for the root and 1 for a leaf table. */
  function SlotAt(n: Node, p: VPage, level: nat): Slot {
    Slot(n, if 1 <= level <= 4 then P.Index(p.addr, level) else 0)
  }

  /** The table of a level on the path of a page. */
  function NodeAt(links: Links, p: VPage, level: nat): Option<Node>
    decreases 4 - level
  {
    if level >= 4 then Some(Root(p.root)) else
      match NodeAt(links, p, level + 1)
      case None => None
      case Some(n) => if SlotAt(n, p, level + 1) in links then Some(Table(links[SlotAt(n, p, level + 1)])) else None
  }

  /** The frame a page translates to. */
  function Lookup(links: Links, leaves: Leaves, p: VPage): Option<nat> {
    match NodeAt(links, p, 1)
    case None => None
    case Some(n) => if SlotAt(n, p, 1) in leaves then Some(leaves[SlotAt(n, p, 1)]) else None
  }

  /** No table hangs in two places. */
  ghost predicate Injective(links: Links) {
    forall a, b | a in links && b in links && links[a] == links[b] :: a == b
  }

  // ----- one path for one page -----

  lemma {:induction false} SameNode(links: Links, p: VPage, q: VPage, level: nat)
    requires Injective(links) && level <= 4 && NodeAt(links, p, level).Some?
    requires NodeAt(links, p, level) == NodeAt(links, q, level)
    ensures p.root == q.root && forall k | level < k <= 4 :: P.Index(p.addr, k) == P.Index(q.addr, k)
    decreases 4 - level
  {
    if level < 4 {
      var n, m := NodeAt(links, p, level + 1).value, NodeAt(links, q, level + 1).value;
      assert links[SlotAt(n, p, level + 1)] == links[SlotAt(m, q, level + 1)];
      SameNode(links, p, q, level + 1);
    }
  }

  lemma SameDigits(p: VPage, q: VPage)
    requires Aligned(p) && Aligned(q) && p.root == q.root
    requires forall k | 1 <= k <= 4 :: P.Index(p.addr, k) == P.Index(q.addr, k)
    ensures p == q
  {
    P.PrefixStep(p.addr, 4);
    P.PrefixStep(p.addr, 3);
    P.PrefixStep(p.addr, 2);
    P.PrefixStep(p.addr, 1);
    P.PrefixStep(q.addr, 4);
    P.PrefixStep(q.addr, 3);
    P.PrefixStep(q.addr, 2);
    P.PrefixStep(q.addr, 1);
    hide P.Index;
    assert P.Index(p.addr, 4) == P.Index(q.addr, 4) && P.Index(p.addr, 3) == P.Index(q.addr, 3);
    assert P.Index(p.addr, 2) == P.Index(q.addr, 2) && P.Index(p.addr, 1) == P.Index(q.addr, 1);
    assert P.Prefix(p.addr, 4) == P.Prefix(q.addr, 4);
    assert P.Prefix(p.addr, 0) == P.Prefix(q.addr, 0);
    WholeAddress(p.addr);
    WholeAddress(q.addr);
  }

  lemma WholeAddress(v: nat)
    requires v % 0x1000 == 0 && v < 0x1_0000_0000_0000
    ensures v == 0x1000 * P.Prefix(v, 0)
  {
  }

  /** Two pages share a leaf entry only if they are one page. */
  lemma LeafIsOne(links: Links, p: VPage, q: VPage)
    requires Injective(links) && Aligned(p) && Aligned(q)
    requires NodeAt(links, p, 1).Some? && NodeAt(links, q, 1).Some?
    requires SlotAt(NodeAt(links, p, 1).value, p, 1) == SlotAt(NodeAt(links, q, 1).value, q, 1)
    ensures p == q
  {
    SameNode(links, p, q, 1);
    SameDigits(p, q);
  }

  /** Below a missing table there is nothing. */
  lemma {:induction false} NothingBelow(links: Links, p: VPage, level: nat, below: nat)
    requires below < level <= 4 && NodeAt(links, p, level).Some?
    requires SlotAt(NodeAt(links, p, level).value, p, level) !in links
    ensures NodeAt(links, p, below).None?
    decreases level - below
  {
    if below + 1 < level { NothingBelow(links, p, level, below + 1); }
  }

  // ----- writing entries -----

  /** A table that no entry leads to and that has no entries. */
  ghost predicate Fresh(links: Links, leaves: Leaves, id: nat) {
    && (forall a | a in links :: links[a] != id && a.node != Table(id))
    && (forall a | a in leaves :: a.node != Table(id))
  }

  /** Hanging a fresh table into a missing entry adds that table to the paths through the entry. */
  lemma {:induction false} GrowNode(links: Links, a: Slot, id: nat, p: VPage, level: nat)
    requires level <= 4 && a !in links && a.node != Table(id)
    requires forall b | b in links :: b.node != Table(id) && links[b] != id
    ensures var n, n' := NodeAt(links, p, level), NodeAt(links[a := id], p, level);
      || n' == n
      || (level < 4 && n.None? && n' == Some(Table(id)) && NodeAt(links, p, level + 1) == Some(a.node)
          && SlotAt(a.node, p, level + 1) == a)
    decreases 4 - level
  {
    if level < 4 { GrowNode(links, a, id, p, level + 1); }
  }

  /** No translation changes. */
  lemma GrowLookup(links: Links, leaves: Leaves, a: Slot, id: nat, p: VPage)
    requires a !in links && a.node != Table(id) && Fresh(links, leaves, id)
    ensures Lookup(links[a := id], leaves, p) == Lookup(links, leaves, p)
  {
    GrowNode(links, a, id, p, 1);
  }

  /** Writing a leaf entry changes the translation of its page only. */
  lemma LeafLookup(links: Links, leaves: Leaves, p: VPage, f: nat, q: VPage)
    requires Injective(links) && Aligned(p) && Aligned(q) && NodeAt(links, p, 1).Some?
    ensures Lookup(links, leaves[SlotAt(NodeAt(links, p, 1).value, p, 1) := f], q) ==
      if q == p then Some(f) else Lookup(links, leaves, q)
  {
    if q != p && NodeAt(links, q, 1).Some? {
      if SlotAt(NodeAt(links, p, 1).value, p, 1) == SlotAt(NodeAt(links, q, 1).value, q, 1) { LeafIsOne(links, p, q); }
    }
  }

  // ----- missing tables -----

  /** How many tables the path of a page lacks below a table of the given level. */
  function MissingBelow(links: Links, p: VPage, level: nat): nat
    requires level <= 4
  {
    if level <= 1 then 0
    else MissingBelow(links, p, level - 1) + if NodeAt(links, p, level - 1).None? then 1 else 0
  }

  function Missing(links: Links, p: VPage): nat {
    MissingBelow(links, p, 4)
  }

  /** Once a table is missing, so are all below it. */
  lemma {:induction false} AllMissing(links: Links, p: VPage, level: nat)
    requires 1 <= level <= 4 && NodeAt(links, p, level).None?
    ensures MissingBelow(links, p, level) == level - 1
  {
    if level > 1 { AllMissing(links, p, level - 1); }
  }

  lemma {:induction false} NoneMissing(links: Links, p: VPage, level: nat)
    requires 1 <= level <= 4 && NodeAt(links, p, 1).Some?
    ensures MissingBelow(links, p, level) == 0 && NodeAt(links, p, level).Some?
    decreases level
  {
    if level > 1 { NoneMissing(links, p, level - 1); }
  }

  /** The page lacks the table that would hang in the given entry. */
  ghost predicate Lacks(links: Links, p: VPage, a: Slot) {
    a !in links && exists level: nat :: LacksAt(links, p, a, level)
  }

  ghost predicate LacksAt(links: Links, p: VPage, a: Slot, level: nat) {
    2 <= level <= 4 && NodeAt(links, p, level) == Some(a.node) && SlotAt(a.node, p, level) == a
  }

  /** A table that is missing after another was hung was missing before, or it is one that the new table
      would hold, whose own entry was missing. */
  lemma LackedBefore(links: Links, b: Slot, id: nat, p: VPage, a: Slot)
    requires b !in links && b.node != Table(id) && forall c | c in links :: c.node != Table(id) && links[c] != id
    requires Lacks(links[b := id], p, a)
    ensures if a.node == Table(id) then Lacks(links, p, b) else Lacks(links, p, a)
  {
    var level: nat :| LacksAt(links[b := id], p, a, level);
    GrowNode(links, b, id, p, level);
    if a.node == Table(id) {
      if level < 4 { NotThere(links, id, p, level); assert LacksAt(links, p, b, level + 1); }
    } else {
      assert LacksAt(links, p, a, level);
    }
  }

  lemma NotThere(links: Links, id: nat, p: VPage, level: nat)
    requires forall c | c in links :: links[c] != id
    ensures NodeAt(links, p, level) != Some(Table(id))
  {
  }
}
