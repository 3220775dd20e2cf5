/** Slab caches as a state: the lists of slabs, the free chain of each slab, the per-processor stack, and
    the objects in the hands of clients. */
module SlabState {
  import opened Common
  import opened SlabSpec

  const NULL: nat := 0

  /** A slab: the address of its first object, the chain of free objects, and the number not in it. */
  datatype Slab = Slab(base: nat, chain: seq<nat>, inUse: nat)

  datatype Cache = Cache(slabs: map<nat, Slab>, full: seq<nat>, partial: seq<nat>, free: seq<nat>, cpu: seq<nat>)

  function Object(g: Geometry, base: nat, i: nat): nat {
    base + i * g.size
  }

  // ----- operations -----

  /** The free chain of a new slab: each object is pushed in front of the one before. */
  function NewChain(g: Geometry, base: nat, n: nat): seq<nat> {
    if n == 0 then [] else [Object(g, base, n - 1)] + NewChain(g, base, n - 1)
  }

  /** Pop the chain of a slab on the partial list; a slab that becomes full moves to the full list. */
  function TakeFrom(c: Cache, g: Geometry, a: nat): (Cache, nat)
    requires a in c.slabs && c.slabs[a].chain != []
  {
    var s := c.slabs[a];
    var c1 := c.(slabs := c.slabs[a := Slab(s.base, s.chain[1..], s.inUse + 1)]);
    (if s.inUse + 1 == g.count then c1.(partial := Without(c.partial, a), full := [a] + c.full) else c1, s.chain[0])
  }

  /** The state in which an allocation finds a slab on the partial list: one of that list, else a wholly
      free one, else a new one. */
  function Ready(c: Cache, g: Geometry, page: nat, base: nat): Cache {
    if c.partial != [] then c
    else if c.free != [] then c.(free := c.free[1..], partial := [c.free[0]])
    else c.(slabs := c.slabs[page := Slab(base, NewChain(g, base, g.count), 0)], partial := [page])
  }

  /** No object is on the stack or in a slab that is not full. */
  predicate NoneFree(c: Cache) {
    c.cpu == [] && c.partial == [] && c.free == []
  }

  /** Allocation. page is the page for a new slab, NULL when there is none; NULL stands for failure. */
  function Alloc(c: Cache, g: Geometry, page: nat, base: nat): (Cache, nat) {
    if c.cpu != [] then (c.(cpu := c.cpu[..|c.cpu| - 1]), c.cpu[|c.cpu| - 1])
    else if c.partial == [] && c.free == [] && page == NULL then (c, NULL)
    else
      var r := Ready(c, g, page, base);
      if r.partial != [] && r.partial[0] in r.slabs && r.slabs[r.partial[0]].chain != []
      then TakeFrom(r, g, r.partial[0])
      else (c, NULL)
  }

  predicate Within(a: nat, o: nat) {
    a <= o < a + PAGE
  }

  /** The index of the first slab of a list whose page holds an address, or the length of the list. */
  function IndexOf(l: seq<nat>, o: nat): (i: nat)
    ensures i <= |l| && (i < |l| ==> Within(l[i], o))
    ensures forall j | 0 <= j < i :: !Within(l[j], o)
  {
    if l == [] || Within(l[0], o) then 0 else 1 + IndexOf(l[1..], o)
  }

  /** The slab of an object, searched on the full list, then on the partial list. */
  function FindSlab(c: Cache, o: nat): nat {
    var i := IndexOf(c.full, o);
    if i < |c.full| then c.full[i]
    else
      var j := IndexOf(c.partial, o);
      if j < |c.partial| then c.partial[j] else NULL
  }

  /** Push an object on its slab's chain; the slab moves when it was full or has become wholly free. */
  function PutBack(c: Cache, g: Geometry, a: nat, o: nat): Cache
    requires a in c.slabs && c.slabs[a].inUse > 0
  {
    var s := c.slabs[a];
    var c1 := c.(slabs := c.slabs[a := Slab(s.base, [o] + s.chain, s.inUse - 1)]);
    if s.inUse == g.count then c1.(full := Without(c.full, a), partial := [a] + c.partial)
    else if s.inUse == 1 then c1.(partial := Without(c.partial, a), free := [a] + c.free)
    else c1
  }

  /** Freeing: to the processor's stack while it has room and an array, otherwise to the slab. */
  function Free(c: Cache, g: Geometry, o: nat, stack: bool): Cache {
    if |c.cpu| < CPU_LIMIT && stack then c.(cpu := c.cpu + [o])
    else
      var a := FindSlab(c, o);
      if a in c.slabs && c.slabs[a].inUse > 0 then PutBack(c, g, a, o) else c
  }

  // ----- the invariant -----

  /** The objects of a slab lie inside its page. */
  predicate PageOk(g: Geometry, a: nat, base: nat) {
    a > 0 && a % PAGE == 0 && a < base && base + g.count * g.size <= a + PAGE
  }

  ghost predicate IsObject(g: Geometry, base: nat, o: nat) {
    exists i: nat :: i < g.count && o == Object(g, base, i)
  }

  /** The chain holds objects of the slab, none twice, and all but inUse of them. */
  ghost predicate SlabOk(g: Geometry, a: nat, s: Slab) {
    && PageOk(g, a, s.base) && NoDuplicates(s.chain) && |s.chain| + s.inUse == g.count
    && forall o | o in s.chain :: IsObject(g, s.base, o)
  }

  /** The page an address lies in. */
  function PageOf(o: nat): nat {
    o / PAGE * PAGE
  }

  /** An object of one of the slabs that is not in its slab's chain. */
  ghost predicate Out(c: Cache, g: Geometry, o: nat) {
    var a := PageOf(o);
    a in c.slabs && IsObject(g, c.slabs[a].base, o) && o !in c.slabs[a].chain
  }

  function Lists(c: Cache): seq<nat> {
    c.full + c.partial + c.free
  }

  /** A slab is on the full list without free objects, on the partial list with some, or on the free list
      with nothing in use. */
  ghost predicate Placed(c: Cache, a: nat)
    requires a in c.slabs
  {
    var s := c.slabs[a];
    || (a in c.full && a !in c.partial && a !in c.free && s.chain == [])
    || (a !in c.full && a in c.partial && a !in c.free && s.chain != [])
    || (a !in c.full && a !in c.partial && a in c.free && s.inUse == 0)
  }

  /** Every slab is on one list, once. */
  ghost predicate ListsOk(c: Cache) {
    && NoDuplicates(c.full) && NoDuplicates(c.partial) && NoDuplicates(c.free)
    && (forall a | a in c.full || a in c.partial || a in c.free :: a in c.slabs)
    && (forall a | a in c.slabs :: Placed(c, a))
  }

  /** Every object is in its slab's chain, on the processor's stack or with a client, and in one of them
      only. */
  ghost predicate Partition(c: Cache, g: Geometry, live: set<nat>) {
    && NoDuplicates(c.cpu) && (forall o | o in c.cpu :: Out(c, g, o) && o !in live)
    && (forall o | o in live :: Out(c, g, o))
    && (forall o | Out(c, g, o) :: o in c.cpu || o in live)
  }

  ghost predicate Inv(c: Cache, g: Geometry, live: set<nat>) {
    && g.count > 0 && g.size > 0 && (forall a | a in c.slabs :: SlabOk(g, a, c.slabs[a]))
    && ListsOk(c) && Partition(c, g, live) && |c.cpu| <= CPU_LIMIT
  }

  // ----- geometry of pages -----

  /** The page of an object is the slab it was cut from. */
  lemma ObjectPage(g: Geometry, a: nat, base: nat, o: nat)
    requires PageOk(g, a, base) && IsObject(g, base, o) && g.size > 0
    ensures PageOf(o) == a && Within(a, o)
  {
    var i: nat :| i < g.count && o == Object(g, base, i);
    RowEnds(i, g.count, g.size);
    SamePage(a, o);
  }

  lemma SamePage(a: nat, o: nat)
    requires a % PAGE == 0
    ensures Within(a, o) <==> PageOf(o) == a
  {
  }

  lemma ObjectsDiffer(g: Geometry, base: nat, i: nat, j: nat)
    requires g.size > 0 && i < j
    ensures Object(g, base, i) < Object(g, base, j)
  {
    RowEnds(i, j, g.size);
  }

  // ----- counting objects -----

  function Elements(l: seq<nat>): set<nat> {
    set x | x in l
  }

  lemma {:induction false} ElementsCount(l: seq<nat>)
    requires NoDuplicates(l)
    ensures |Elements(l)| == |l|
  {
    if l != [] {
      ElementsCount(l[1..]);
      assert Elements(l) == {l[0]} + Elements(l[1..]);
    }
  }

  ghost function Objects(g: Geometry, base: nat, n: nat): set<nat> {
    if n == 0 then {} else Objects(g, base, n - 1) + {Object(g, base, n - 1)}
  }

  lemma {:induction false} ObjectsAre(g: Geometry, base: nat, n: nat, o: nat)
    ensures o in Objects(g, base, n) <==> exists i: nat :: i < n && o == Object(g, base, i)
  {
    if n > 0 { ObjectsAre(g, base, n - 1, o); }
  }

  lemma {:induction false} ObjectsBelow(g: Geometry, base: nat, n: nat)
    requires g.size > 0
    ensures forall o | o in Objects(g, base, n) :: o < Object(g, base, n)
  {
    if n > 0 {
      ObjectsBelow(g, base, n - 1);
      ObjectsDiffer(g, base, n - 1, n);
    }
  }

  lemma {:induction false} ObjectsCount(g: Geometry, base: nat, n: nat)
    requires g.size > 0
    ensures |Objects(g, base, n)| == n
  {
    if n > 0 {
      ObjectsCount(g, base, n - 1);
      ObjectsBelow(g, base, n - 1);
    }
  }

  lemma SubsetCount(a: set<nat>, b: set<nat>)
    requires a <= b
    ensures |a| <= |b| && (|a| == |b| ==> a == b) && |b - a| == |b| - |a|
  {
    assert b == a + (b - a);
  }

  /** The objects of a slab outside its chain are as many as are in use. */
  lemma OutsideChain(g: Geometry, a: nat, s: Slab)
    requires SlabOk(g, a, s) && g.size > 0
    ensures Elements(s.chain) <= Objects(g, s.base, g.count)
    ensures |Objects(g, s.base, g.count) - Elements(s.chain)| == s.inUse
  {
    ObjectsCount(g, s.base, g.count);
    ElementsCount(s.chain);
    forall o | o in Elements(s.chain) ensures o in Objects(g, s.base, g.count) { ObjectsAre(g, s.base, g.count, o); }
    SubsetCount(Elements(s.chain), Objects(g, s.base, g.count));
  }

  /** A slab with an object outside its chain is in use, and not on the free list. */
  lemma OutMeansInUse(c: Cache, g: Geometry, live: set<nat>, o: nat)
    requires Inv(c, g, live) && Out(c, g, o)
    ensures var a := PageOf(o);
      a in c.slabs && c.slabs[a].inUse > 0 && a !in c.free && (a in c.full || a in c.partial)
  {
    var a := PageOf(o);
    var s := c.slabs[a];
    OutsideChain(g, a, s);
    ObjectsAre(g, s.base, g.count, o);
    assert o in Objects(g, s.base, g.count) - Elements(s.chain);
    assert Placed(c, a);
  }

  // ----- steps -----

  /** Slabs other than a are as before, and so is who holds their objects. */
  ghost predicate Elsewhere(c: Cache, c': Cache, a: nat) {
    && c'.slabs.Keys == c.slabs.Keys + {a} && c'.cpu == c.cpu
    && forall x | x in c.slabs && x != a :: c'.slabs[x] == c.slabs[x]
  }

  lemma OutElsewhere(c: Cache, c': Cache, g: Geometry, a: nat, o: nat)
    requires Elsewhere(c, c', a) && PageOf(o) != a
    ensures Out(c, g, o) <==> Out(c', g, o)
  {
  }

  /** Taking the first free object of a slab on the partial list. */
  lemma TakeSlab(c: Cache, g: Geometry, live: set<nat>, a: nat)
    requires Inv(c, g, live) && a in c.slabs && a in c.partial && c.slabs[a].chain != []
    ensures var (r, o) := TakeFrom(c, g, a);
      && Elsewhere(c, r, a) && SlabOk(g, a, r.slabs[a]) && PageOf(o) == a && Out(r, g, o) && !Out(c, g, o)
      && r.slabs[a].base == c.slabs[a].base && r.slabs[a].chain == c.slabs[a].chain[1..] && o == c.slabs[a].chain[0]
  {
    var s, o := c.slabs[a], c.slabs[a].chain[0];
    assert SlabOk(g, a, s) && o in s.chain;
    ObjectPage(g, a, s.base, o);
    assert forall x | x in s.chain[1..] :: x in s.chain && x != o;
  }

  lemma TakeLists(c: Cache, g: Geometry, live: set<nat>, a: nat)
    requires Inv(c, g, live) && a in c.slabs && a in c.partial && c.slabs[a].chain != []
    ensures ListsOk(TakeFrom(c, g, a).0)
  {
    var r := TakeFrom(c, g, a).0;
    WithoutFacts(c.partial, a);
    assert SlabOk(g, a, c.slabs[a]) && Placed(c, a);
    forall x | x in r.slabs ensures Placed(r, x) { assert Placed(c, x); }
  }

  /** An object popped from a chain was held by nobody, and nothing else changes hands. */
  lemma TakeSound(c: Cache, g: Geometry, live: set<nat>, a: nat)
    requires Inv(c, g, live) && a in c.slabs && a in c.partial && c.slabs[a].chain != []
    ensures var (r, o) := TakeFrom(c, g, a);
      o !in live && o !in c.cpu && Inv(r, g, live + {o}) && r.slabs.Keys == c.slabs.Keys
  {
    var (r, o) := TakeFrom(c, g, a);
    TakeSlab(c, g, live, a);
    TakeLists(c, g, live, a);
    forall x | Out(c, g, x) ensures Out(r, g, x) {
      if PageOf(x) != a { OutElsewhere(c, r, g, a, x); } else { ChainShrinks(c.slabs[a].chain, x); }
    }
    forall x | Out(r, g, x) ensures x == o || Out(c, g, x) {
      if PageOf(x) != a { OutElsewhere(c, r, g, a, x); } else { ChainShrinks(c.slabs[a].chain, x); }
    }
    assert forall x | x in r.slabs && x != a :: SlabOk(g, x, c.slabs[x]);
  }

  lemma ChainShrinks(chain: seq<nat>, x: nat)
    requires chain != []
    ensures x in chain <==> x == chain[0] || x in chain[1..]
  {
  }

  // ----- allocation -----

  lemma {:induction false} NewChainOk(g: Geometry, base: nat, n: nat)
    requires g.size > 0
    ensures |NewChain(g, base, n)| == n && NoDuplicates(NewChain(g, base, n))
    ensures forall o :: o in NewChain(g, base, n) <==> o in Objects(g, base, n)
  {
    if n > 0 {
      NewChainOk(g, base, n - 1);
      ObjectsBelow(g, base, n - 1);
      Cons(Object(g, base, n - 1), NewChain(g, base, n - 1));
    }
  }

  lemma NewSlabOk(g: Geometry, a: nat, base: nat)
    requires PageOk(g, a, base) && g.size > 0
    ensures SlabOk(g, a, Slab(base, NewChain(g, base, g.count), 0))
    ensures forall o :: IsObject(g, base, o) <==> o in NewChain(g, base, g.count)
  {
    NewChainOk(g, base, g.count);
    forall o: nat ensures IsObject(g, base, o) <==> o in NewChain(g, base, g.count) { ObjectsAre(g, base, g.count, o); }
  }

  lemma ReadyNew(c: Cache, g: Geometry, live: set<nat>, page: nat, base: nat)
    requires Inv(c, g, live) && c.partial == [] && c.free == [] && PageOk(g, page, base) && page !in c.slabs
    ensures var r := Ready(c, g, page, base); Inv(r, g, live) && r.slabs.Keys == c.slabs.Keys + {page}
  {
    var r := Ready(c, g, page, base);
    NewSlabOk(g, page, base);
    forall x | Out(c, g, x) ensures Out(r, g, x) { OutElsewhere(c, r, g, page, x); }
    forall x | Out(r, g, x) ensures Out(c, g, x) { if PageOf(x) != page { OutElsewhere(c, r, g, page, x); } }
    forall x | x in r.slabs ensures Placed(r, x) && SlabOk(g, x, r.slabs[x]) {
      if x != page { assert Placed(c, x) && SlabOk(g, x, c.slabs[x]); }
    }
  }

  lemma ReadyFree(c: Cache, g: Geometry, live: set<nat>, page: nat, base: nat)
    requires Inv(c, g, live) && c.partial == [] && c.free != []
    ensures var r := Ready(c, g, page, base); Inv(r, g, live) && r.slabs == c.slabs
  {
    var r := Ready(c, g, page, base);
    Cons(c.free[0], c.free[1..]);
    assert c.free == [c.free[0]] + c.free[1..];
    forall x | Out(c, g, x) ensures Out(r, g, x) {}
    forall x | Out(r, g, x) ensures Out(c, g, x) {}
    forall x | x in r.slabs ensures Placed(r, x) { assert Placed(c, x) && SlabOk(g, x, c.slabs[x]); }
  }

  /** A page can become a slab: free, page-aligned, with room for the objects. */
  ghost predicate Usable(c: Cache, g: Geometry, page: nat, base: nat) {
    page != NULL ==> PageOk(g, page, base) && page !in c.slabs
  }

  lemma ReadySound(c: Cache, g: Geometry, live: set<nat>, page: nat, base: nat)
    requires Inv(c, g, live) && Usable(c, g, page, base) && (c.partial != [] || c.free != [] || page != NULL)
    ensures var r := Ready(c, g, page, base);
      && Inv(r, g, live) && r.cpu == c.cpu
      && r.partial != [] && r.partial[0] in r.slabs && r.slabs[r.partial[0]].chain != []
      && r.slabs.Keys == c.slabs.Keys + if c.partial == [] && c.free == [] then {page} else {}
  {
    var r := Ready(c, g, page, base);
    if c.partial == [] {
      if c.free != [] { ReadyFree(c, g, live, page, base); } else { ReadyNew(c, g, live, page, base); }
    }
    assert r.partial[0] in r.partial;
    assert Placed(r, r.partial[0]);
  }

  lemma StackPop(c: Cache, g: Geometry, live: set<nat>)
    requires Inv(c, g, live) && c.cpu != []
    ensures var o := c.cpu[|c.cpu| - 1];
      o !in live && Inv(c.(cpu := c.cpu[..|c.cpu| - 1]), g, live + {o})
  {
    var o, r := c.cpu[|c.cpu| - 1], c.(cpu := c.cpu[..|c.cpu| - 1]);
    assert o in c.cpu;
    forall x | x in c.cpu ensures x == o || x in r.cpu {
      var i :| 0 <= i < |c.cpu| && c.cpu[i] == x;
      assert i < |c.cpu| - 1 ==> r.cpu[i] == x;
    }
    forall x | x in r.cpu ensures x in c.cpu && x != o {}
    forall x ensures Out(c, g, x) <==> Out(r, g, x) {}
    forall x | x in r.slabs ensures Placed(r, x) { assert Placed(c, x); }
  }

  /** Allocation fails exactly when no object is free and no page was found; otherwise it hands out an
      object that no client holds, and every other object stays with its holder. */
  lemma AllocSound(c: Cache, g: Geometry, live: set<nat>, page: nat, base: nat)
    requires Inv(c, g, live) && Usable(c, g, page, base)
    ensures var (r, o) := Alloc(c, g, page, base);
      && (o == NULL <==> NoneFree(c) && page == NULL)
      && (o == NULL ==> r == c)
      && (o != NULL ==> o !in live && Inv(r, g, live + {o}))
  {
    if c.cpu != [] {
      StackPop(c, g, live);
      assert c.cpu[|c.cpu| - 1] in c.cpu;
      OutNotNull(c, g, c.cpu[|c.cpu| - 1], live);
    } else if c.partial != [] || c.free != [] || page != NULL {
      ReadySound(c, g, live, page, base);
      var r := Ready(c, g, page, base);
      TakeSound(r, g, live, r.partial[0]);
      TakeSlab(r, g, live, r.partial[0]);
      OutNotNull(TakeFrom(r, g, r.partial[0]).0, g, TakeFrom(r, g, r.partial[0]).1,
        live + {TakeFrom(r, g, r.partial[0]).1});
    }
  }

  /** A new page becomes a slab exactly when no object was free. */
  lemma AllocPages(c: Cache, g: Geometry, live: set<nat>, page: nat, base: nat)
    requires Inv(c, g, live) && Usable(c, g, page, base)
    ensures var r := Alloc(c, g, page, base).0;
      && r.slabs.Keys == c.slabs.Keys + (if NoneFree(c) && page != NULL then {page} else {})
      && (c.cpu == [] ==> r.cpu == [])
  {
    if c.cpu == [] && (c.partial != [] || c.free != [] || page != NULL) {
      ReadySound(c, g, live, page, base);
      var r := Ready(c, g, page, base);
      TakeSlab(r, g, live, r.partial[0]);
    }
  }

  /** The first object in the chain of slab a is handed out and counted, and no other slab changes. */
  ghost predicate Popped(c: Cache, r: Cache, a: nat, o: nat) {
    && a in c.slabs && c.slabs[a].chain != [] && o == c.slabs[a].chain[0] && r.cpu == c.cpu
    && r.slabs == c.slabs[a := Slab(c.slabs[a].base, c.slabs[a].chain[1..], c.slabs[a].inUse + 1)]
  }

  /** Where an allocation looks: the top of the processor's stack, else the slab that heads the partial list, else
      the one that heads the free list, else a new page, of which the last object is handed out. */
  lemma AllocOrder(c: Cache, g: Geometry, live: set<nat>, page: nat, base: nat)
    requires Inv(c, g, live) && Usable(c, g, page, base)
    ensures var (r, o) := Alloc(c, g, page, base);
      && (c.cpu != [] ==> o == c.cpu[|c.cpu| - 1] && r == c.(cpu := c.cpu[..|c.cpu| - 1]))
      && (c.cpu == [] && c.partial != [] ==> Popped(c, r, c.partial[0], o))
      && (c.cpu == [] && c.partial == [] && c.free != [] ==> Popped(c, r, c.free[0], o))
      && (NoneFree(c) && page != NULL ==>
        && o == base + (g.count - 1) * g.size && r.cpu == [] && r.slabs.Keys == c.slabs.Keys + {page}
        && r.slabs[page].base == base && r.slabs[page].inUse == 1
        && forall x | x in c.slabs :: r.slabs[x] == c.slabs[x])
  {
    hide Inv;
    if c.cpu == [] && (c.partial != [] || c.free != [] || page != NULL) {
      ReadySound(c, g, live, page, base);
      var r := Ready(c, g, page, base);
      TakeSlab(r, g, live, r.partial[0]);
    }
  }

  lemma OutNotNull(c: Cache, g: Geometry, o: nat, live: set<nat>)
    requires Inv(c, g, live) && Out(c, g, o)
    ensures o != NULL
  {
    assert SlabOk(g, PageOf(o), c.slabs[PageOf(o)]);
  }

  // ----- freeing -----

  lemma {:induction false} IndexOfSlab(c: Cache, g: Geometry, l: seq<nat>, o: nat, a: nat)
    requires a % PAGE == 0 && Within(a, o) && forall x | x in l :: x % PAGE == 0
    ensures IndexOf(l, o) < |l| <==> a in l
    ensures IndexOf(l, o) < |l| ==> l[IndexOf(l, o)] == a
  {
    var i := IndexOf(l, o);
    SamePage(a, o);
    if i < |l| {
      assert l[i] in l;
      SamePage(l[i], o);
    }
    if a in l {
      var j :| 0 <= j < |l| && l[j] == a;
      assert i <= j;
    }
  }

  /** The search finds the slab of every object that is out. */
  lemma FindsSlab(c: Cache, g: Geometry, live: set<nat>, o: nat)
    requires Inv(c, g, live) && Out(c, g, o)
    ensures FindSlab(c, o) == PageOf(o) && PageOf(o) in c.slabs && c.slabs[PageOf(o)].inUse > 0 && PageOf(o) !in c.free
  {
    var a := PageOf(o);
    OutMeansInUse(c, g, live, o);
    assert SlabOk(g, a, c.slabs[a]);
    ObjectPage(g, a, c.slabs[a].base, o);
    forall x | x in c.full || x in c.partial ensures x % PAGE == 0 { assert x in c.slabs && SlabOk(g, x, c.slabs[x]); }
    IndexOfSlab(c, g, c.full, o, a);
    IndexOfSlab(c, g, c.partial, o, a);
  }

  lemma PutSlab(c: Cache, g: Geometry, live: set<nat>, o: nat)
    requires Inv(c, g, live) && Out(c, g, o) && c.slabs[PageOf(o)].inUse > 0
    ensures var r := PutBack(c, g, PageOf(o), o);
      && Elsewhere(c, r, PageOf(o)) && SlabOk(g, PageOf(o), r.slabs[PageOf(o)])
      && r.slabs[PageOf(o)].base == c.slabs[PageOf(o)].base
      && r.slabs[PageOf(o)].chain == [o] + c.slabs[PageOf(o)].chain
  {
    assert SlabOk(g, PageOf(o), c.slabs[PageOf(o)]);
    Cons(o, c.slabs[PageOf(o)].chain);
  }

  lemma PutLists(c: Cache, g: Geometry, live: set<nat>, o: nat)
    requires Inv(c, g, live) && Out(c, g, o) && c.slabs[PageOf(o)].inUse > 0 && PageOf(o) !in c.free
    ensures ListsOk(PutBack(c, g, PageOf(o), o))
  {
    var a, r := PageOf(o), PutBack(c, g, PageOf(o), o);
    WithoutFacts(c.full, a);
    WithoutFacts(c.partial, a);
    Cons(a, c.partial);
    Cons(a, c.free);
    assert SlabOk(g, a, c.slabs[a]) && Placed(c, a);
    forall x | x in r.slabs ensures Placed(r, x) { assert Placed(c, x); }
  }

  lemma PutBackSound(c: Cache, g: Geometry, live: set<nat>, o: nat)
    requires Inv(c, g, live) && o in live && c.slabs[PageOf(o)].inUse > 0 && PageOf(o) !in c.free
    ensures Inv(PutBack(c, g, PageOf(o), o), g, live - {o})
  {
    var a, r := PageOf(o), PutBack(c, g, PageOf(o), o);
    PutSlab(c, g, live, o);
    PutLists(c, g, live, o);
    Cons(o, c.slabs[a].chain);
    forall x | Out(c, g, x) && x != o ensures Out(r, g, x) { if PageOf(x) != a { OutElsewhere(c, r, g, a, x); } }
    forall x | Out(r, g, x) ensures Out(c, g, x) && x != o { if PageOf(x) != a { OutElsewhere(c, r, g, a, x); } }
    assert forall x | x in r.slabs && x != a :: SlabOk(g, x, c.slabs[x]);
  }

  lemma StackPush(c: Cache, g: Geometry, live: set<nat>, o: nat)
    requires Inv(c, g, live) && o in live && |c.cpu| < CPU_LIMIT
    ensures Inv(c.(cpu := c.cpu + [o]), g, live - {o})
  {
    var r := c.(cpu := c.cpu + [o]);
    assert o !in c.cpu;
    forall x ensures x in r.cpu <==> x in c.cpu || x == o { assert r.cpu[|c.cpu|] == o; InFront(c.cpu, o, x); }
    forall x ensures Out(c, g, x) <==> Out(r, g, x) {}
    forall x | x in r.slabs ensures Placed(r, x) { assert Placed(c, x); }
  }

  lemma InFront(l: seq<nat>, o: nat, x: nat)
    ensures x in l + [o] <==> x in l || x == o
  {
  }

  /** Freeing a live object always finds a place for it, and takes only that object from its client. */
  lemma FreeSound(c: Cache, g: Geometry, live: set<nat>, o: nat, stack: bool)
    requires Inv(c, g, live) && o in live
    ensures Inv(Free(c, g, o, stack), g, live - {o}) && Free(c, g, o, stack).slabs.Keys == c.slabs.Keys
  {
    if |c.cpu| < CPU_LIMIT && stack {
      StackPush(c, g, live, o);
    } else {
      FindsSlab(c, g, live, o);
      PutBackSound(c, g, live, o);
    }
  }

  /** Where a freed object goes: on top of the processor's stack while that holds fewer than sixteen, and otherwise
      in front of the chain of the slab in whose page it lies. A slab that was full then heads the partial list, and
      one that has become wholly free heads the free list. */
  lemma FreeOrder(c: Cache, g: Geometry, live: set<nat>, o: nat, stack: bool)
    requires Inv(c, g, live) && o in live
    ensures var r, a := Free(c, g, o, stack), o / 4096 * 4096;
      && (|c.cpu| < 16 && stack ==> r == c.(cpu := c.cpu + [o]))
      && (|c.cpu| >= 16 || !stack ==>
        && a in c.slabs && c.slabs[a].inUse > 0 && r.cpu == c.cpu
        && r.slabs == c.slabs[a := Slab(c.slabs[a].base, [o] + c.slabs[a].chain, c.slabs[a].inUse - 1)]
        && (c.slabs[a].inUse == g.count ==>
          a in c.full && r.full == Without(c.full, a) && r.partial == [a] + c.partial && r.free == c.free)
        && (c.slabs[a].inUse == 1 < g.count ==>
          a in c.partial && r.full == c.full && r.partial == Without(c.partial, a) && r.free == [a] + c.free)
        && (1 < c.slabs[a].inUse < g.count ==> r.full == c.full && r.partial == c.partial && r.free == c.free))
  {
    if |c.cpu| >= CPU_LIMIT || !stack {
      FindsSlab(c, g, live, o);
      var a := PageOf(o);
      assert Placed(c, a) && SlabOk(g, a, c.slabs[a]);
    }
  }

  // ----- accounting -----

  function SumInUse(slabs: map<nat, Slab>, l: seq<nat>): nat
    requires forall a | a in l :: a in slabs
  {
    if l == [] then 0 else SumInUse(slabs, l[..|l| - 1]) + slabs[l[|l| - 1]].inUse
  }

  /** The objects out of the slabs of a list. */
  ghost function OutOf(out: set<nat>, l: seq<nat>): set<nat> {
    set o | o in out && PageOf(o) in l
  }

  lemma OutOfOne(c: Cache, g: Geometry, out: set<nat>, a: nat)
    requires a in c.slabs && SlabOk(g, a, c.slabs[a]) && g.size > 0 && forall o :: o in out <==> Out(c, g, o)
    ensures |OutOf(out, [a])| == c.slabs[a].inUse
  {
    var s := c.slabs[a];
    OutsideChain(g, a, s);
    forall o ensures o in OutOf(out, [a]) <==> o in Objects(g, s.base, g.count) - Elements(s.chain) {
      ObjectsAre(g, s.base, g.count, o);
      if IsObject(g, s.base, o) { ObjectPage(g, a, s.base, o); }
    }
    assert OutOf(out, [a]) == Objects(g, s.base, g.count) - Elements(s.chain);
  }

  lemma {:induction false} SumIsOut(c: Cache, g: Geometry, out: set<nat>, l: seq<nat>)
    requires (forall a | a in c.slabs :: SlabOk(g, a, c.slabs[a])) && g.size > 0 && NoDuplicates(l)
    requires (forall o :: o in out <==> Out(c, g, o)) && forall a | a in l :: a in c.slabs
    ensures SumInUse(c.slabs, l) == |OutOf(out, l)|
  {
    if l != [] {
      var n := |l| - 1;
      SumIsOut(c, g, out, l[..n]);
      OutOfOne(c, g, out, l[n]);
      assert l == l[..n] + [l[n]];
      assert forall x :: x in l <==> x in l[..n] || x == l[n];
      assert OutOf(out, l) == OutOf(out, l[..n]) + OutOf(out, [l[n]]);
      assert OutOf(out, l[..n]) !! OutOf(out, [l[n]]);
    }
  }

  lemma ListsTogether(c: Cache)
    requires ListsOk(c)
    ensures NoDuplicates(Lists(c)) && forall a :: a in Lists(c) <==> a in c.slabs
  {
    var l := Lists(c);
    forall i, j | 0 <= i < j < |l| ensures l[i] != l[j] {
      var f, p := |c.full|, |c.full| + |c.partial|;
      assert l[i] == if i < f then c.full[i] else if i < p then c.partial[i - f] else c.free[i - p];
      assert l[j] == if j < f then c.full[j] else if j < p then c.partial[j - f] else c.free[j - p];
      assert l[i] in c.full || l[i] in c.partial || l[i] in c.free;
      assert Placed(c, l[i]);
    }
    forall a | a in c.slabs ensures a in l { assert Placed(c, a); }
  }

  /** The objects counted as in use by the slabs are those of the clients and those on the stack. */
  lemma InUseAccounts(c: Cache, g: Geometry, live: set<nat>)
    requires Inv(c, g, live)
    ensures (forall a | a in Lists(c) :: a in c.slabs) && SumInUse(c.slabs, Lists(c)) == |live| + |c.cpu|
  {
    ListsTogether(c);
    var out := live + Elements(c.cpu);
    assert forall o :: o in out <==> Out(c, g, o);
    SumIsOut(c, g, out, Lists(c));
    assert OutOf(out, Lists(c)) == out;
    ElementsCount(c.cpu);
    assert live !! Elements(c.cpu);
  }

  /** Every object of every slab has exactly one holder: its slab's chain, the processor's stack, or a
      client. */
  lemma OneHolder(c: Cache, g: Geometry, live: set<nat>, a: nat, i: nat)
    requires Inv(c, g, live) && a in c.slabs && i < g.count
    ensures var s := c.slabs[a];
      var o := Object(g, s.base, i);
      || (o in s.chain && o !in c.cpu && o !in live)
      || (o !in s.chain && o in c.cpu && o !in live)
      || (o !in s.chain && o !in c.cpu && o in live)
  {
    var s := c.slabs[a];
    var o := Object(g, s.base, i);
    assert SlabOk(g, a, s) && IsObject(g, s.base, o);
    ObjectPage(g, a, s.base, o);
    assert Out(c, g, o) <==> o !in s.chain;
  }

  // ----- runs -----

  /** A request: an allocation with the page a new slab would get, or the free of an object. */
  datatype Op = AllocOp(page: nat, base: nat) | FreeOp(object: nat, stack: bool)

  datatype History = History(cache: Cache, live: set<nat>, allocations: nat, frees: nat)

  ghost function Step(h: History, g: Geometry, op: Op): History {
    match op
    case AllocOp(page, base) =>
      var (c, o) := Alloc(h.cache, g, page, base);
      if o == NULL then h else History(c, h.live + {o}, h.allocations + 1, h.frees)
    case FreeOp(o, stack) => History(Free(h.cache, g, o, stack), h.live - {o}, h.allocations, h.frees + 1)
  }

  /** Clients free objects they hold; new slabs come from pages that are not slabs already. */
  ghost predicate Allowed(h: History, g: Geometry, op: Op) {
    match op
    case AllocOp(page, base) => Usable(h.cache, g, page, base)
    case FreeOp(o, _) => o in h.live
  }

  ghost predicate LegalRun(h: History, g: Geometry, ops: seq<Op>)
    decreases |ops|
  {
    ops == [] || (Allowed(h, g, ops[0]) && LegalRun(Step(h, g, ops[0]), g, ops[1..]))
  }

  ghost function Run(h: History, g: Geometry, ops: seq<Op>): History
    decreases |ops|
  {
    if ops == [] then h else Run(Step(h, g, ops[0]), g, ops[1..])
  }

  ghost predicate Sound(h: History, g: Geometry) {
    Inv(h.cache, g, h.live) && h.allocations == h.frees + |h.live|
  }

  lemma StepSound(h: History, g: Geometry, op: Op)
    requires Sound(h, g) && Allowed(h, g, op)
    ensures Sound(Step(h, g, op), g)
  {
    match op {
      case AllocOp(page, base) => AllocSound(h.cache, g, h.live, page, base);
      case FreeOp(o, stack) =>
        FreeSound(h.cache, g, h.live, o, stack);
        SubsetCount({o}, h.live);
    }
  }

  /** After any run, allocations less frees is the number of live objects, and the objects the slabs count
      as in use are the live ones and those on the processor's stack. */
  lemma {:induction false} RunSound(h: History, g: Geometry, ops: seq<Op>)
    requires Sound(h, g) && LegalRun(h, g, ops)
    ensures var r := Run(h, g, ops);
      && Sound(r, g) && (forall a | a in Lists(r.cache) :: a in r.cache.slabs)
      && SumInUse(r.cache.slabs, Lists(r.cache)) == r.allocations - r.frees + |r.cache.cpu|
    decreases |ops|
  {
    if ops == [] {
      InUseAccounts(h.cache, g, h.live);
    } else {
      StepSound(h, g, ops[0]);
      RunSound(Step(h, g, ops[0]), g, ops[1..]);
    }
  }
}
