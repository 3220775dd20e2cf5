/** Which spinlock of the memory manager is ever taken while another is held: the exact table. */
module LockNesting {
  import opened LockOrder

  datatype Nesting = Nesting(outer: Lock, inner: Lock)

  ghost function Under(held: set<Lock>, l: Lock): set<Nesting> {
    set h | h in held :: Nesting(h, l)
  }

  /** The pairs of locks of which the second is taken while the first is held. */
  ghost function Nestings(held: set<Lock>, t: seq<Event>): set<Nesting>
    decreases |t|
  {
    if t == [] then {}
    else match t[0]
      case Acquire(l) => Under(held, l) + Nestings(held + {l}, t[1..])
      case Release(l) => Nestings(held - {l}, t[1..])
  }

  /** The nestings of the code. */
  predicate Listed(n: Nesting) {
    match n.outer
    case Space(_) => n.inner.SlabLock? || n.inner == Zone(0) || n.inner == Zone(1)
    case SlabLock(_) => n.inner == Zone(0) || n.inner == Zone(1)
    case Fault(_) => n.inner == Zone(0) || n.inner == Zone(2)
    case CowTable => n.inner.RefLock? || n.inner == Zone(0)
    case PageCache => n.inner == Zone(0)
    case _ => false
  }

  // ----- nestings of composed traces -----

  lemma {:induction false} NestAppend(base: set<Lock>, held: set<Lock>, a: seq<Event>, b: seq<Event>)
    requires RisingOver(base, held, a)
    ensures Nestings(base + held, a + b) == Nestings(base + held, a) + Nestings(base, b)
    decreases |a|
  {
    if a == [] {
      assert a + b == b && base + held == base;
    } else {
      assert (a + b)[1..] == a[1..] + b;
      match a[0] {
        case Acquire(l) =>
          assert base + held + {l} == base + (held + {l});
          NestAppend(base, held + {l}, a[1..], b);
        case Release(l) =>
          assert base + held - {l} == base + (held - {l});
          NestAppend(base, held - {l}, a[1..], b);
      }
    }
  }

  lemma NestAround(base: set<Lock>, l: Lock, t: seq<Event>)
    requires RisingOver(base + {l}, {}, t)
    ensures Nestings(base, Around(l, t)) == Under(base, l) + Nestings(base + {l}, t)
  {
    var end := [Release(l)];
    NestAppend(base + {l}, {}, t, end);
    assert base + {l} + {} == base + {l};
    assert Around(l, t)[1..] == t + end;
    assert end[1..] == [];
  }

  // ----- balanced traces with listed nestings only -----

  /** Above locks that stay held, a trace that keeps the discipline and nests only as listed. */
  ghost predicate Fine(base: set<Lock>, t: seq<Event>) {
    RisingOver(base, {}, t) && forall n | n in Nestings(base, t) :: Listed(n)
  }

  lemma FineAppend(base: set<Lock>, a: seq<Event>, b: seq<Event>)
    requires Fine(base, a) && Fine(base, b)
    ensures Fine(base, a + b)
  {
    Append(base, {}, a, b);
    NestAppend(base, {}, a, b);
    assert base + {} == base;
  }

  lemma FineAround(base: set<Lock>, l: Lock, t: seq<Event>)
    requires Fine(base + {l}, t) && Above(base, l) && forall h | h in base :: Listed(Nesting(h, l))
    ensures Fine(base, Around(l, t))
  {
    AroundRises(base, l, t);
    NestAround(base, l, t);
  }

  lemma FinePair(base: set<Lock>, l: Lock)
    requires Above(base, l) && forall h | h in base :: Listed(Nesting(h, l))
    ensures Fine(base, Pair(l))
  {
    FineAround(base, l, []);
    assert Around(l, []) == Pair(l);
  }

  lemma {:induction false} FineTimes(base: set<Lock>, n: nat, t: seq<Event>)
    requires Fine(base, t)
    ensures Fine(base, Times(n, t))
  {
    if n > 0 {
      FineTimes(base, n - 1, t);
      FineAppend(base, t, Times(n - 1, t));
    }
  }

  /** Around one lock with none held. */
  lemma FineOuter(l: Lock, t: seq<Event>)
    requires Fine({l}, t)
    ensures Fine({}, Around(l, t))
  {
    assert {} + {l} == {l};
    FineAround({}, l, t);
  }

  lemma FineZones(base: set<Lock>, n: nat, z: nat)
    requires forall h | h in base :: !h.Zone? && Listed(Nesting(h, Zone(z)))
    ensures Fine(base, Pair(Zone(z))) && Fine(base, Times(n, Pair(Zone(z))))
  {
    FinePair(base, Zone(z));
    FineTimes(base, n, Pair(Zone(z)));
  }

  lemma FineStats(passes: nat)
    ensures Fine({}, Times(passes, EveryZone()))
  {
    FinePair({}, Zone(0));
    FinePair({}, Zone(1));
    FinePair({}, Zone(2));
    FineAppend({}, Pair(Zone(0)), Pair(Zone(1)));
    FineAppend({}, Pair(Zone(0)) + Pair(Zone(1)), Pair(Zone(2)));
    FineTimes({}, passes, EveryZone());
  }

  lemma FineAlloc(base: set<Lock>, c: nat, stack: bool, grow: bool)
    requires forall h | h in base :: h.Space?
    ensures Fine(base, AllocTrace(c, stack, grow))
  {
    FineZones(base + {SlabLock(c)}, 0, 1);
    FineAround(base, SlabLock(c), Maybe(grow, Pair(Zone(1))));
  }

  lemma FineFree(base: set<Lock>, c: nat, first: bool, stack: bool)
    requires forall h | h in base :: h.Space?
    ensures Fine(base, FreeTrace(c, first, stack))
  {
    FineZones(base, 0, 0);
    FinePair(base, SlabLock(c));
    FineAppend(base, Maybe(first, Pair(Zone(0))), Maybe(!stack, Pair(SlabLock(c))));
  }

  lemma FineCow(f: nat, entry: bool, found: bool)
    ensures Fine({}, EntryTrace(entry)) && Fine({}, Around(CowTable, Maybe(found, Pair(RefLock(f)))))
    ensures Fine({}, Pair(RefLock(f))) && Fine({}, Pair(Zone(0))) && Fine({}, Times(2, Pair(Zone(0))))
  {
    FineZones({CowTable}, 0, 0);
    FineOuter(CowTable, Maybe(entry, Pair(Zone(0))));
    FinePair({CowTable}, RefLock(f));
    FineOuter(CowTable, Maybe(found, Pair(RefLock(f))));
    FinePair({}, RefLock(f));
    FineZones({}, 2, 0);
  }

  lemma FineCowFault(f: nat, entry: bool, found: bool, copy: bool, failed: bool)
    ensures Fine({}, Trace(CowFault(f, entry, found, copy, failed)))
  {
    FineCow(f, entry, found);
    var retry := Maybe(failed, Pair(RefLock(f)));
    FineAppend({}, Pair(Zone(0)), retry);
    FineAppend({}, Pair(RefLock(f)), Maybe(copy, Pair(Zone(0)) + retry));
    FineAppend({}, EntryTrace(entry), Maybe(found, Pair(RefLock(f)) + Maybe(copy, Pair(Zone(0)) + retry)));
  }

  lemma FineDestroy(c: nat, n: nat)
    ensures Fine({}, Pair(CacheList) + Around(SlabLock(c), Times(n, Pair(Zone(0)))) + Pair(Zone(0)))
  {
    FinePair({}, CacheList);
    FinePair({}, Zone(0));
    FineZones({SlabLock(c)}, n, 0);
    FineOuter(SlabLock(c), Times(n, Pair(Zone(0))));
    FineAppend({}, Pair(CacheList), Around(SlabLock(c), Times(n, Pair(Zone(0)))));
    FineAppend({}, Pair(CacheList) + Around(SlabLock(c), Times(n, Pair(Zone(0)))), Pair(Zone(0)));
  }

  lemma FineRegister(s: nat, c: nat, table: bool, clash: bool, stack: bool, grow: bool)
    ensures Fine({}, Trace(Register(s, c, table, clash, stack, grow)))
  {
    var inner := Maybe(!clash, AllocTrace(c, stack, grow));
    FinePair({}, SpaceTable);
    FineAlloc({Space(s)}, c, stack, grow);
    FineOuter(Space(s), inner);
    FineAppend({}, Pair(SpaceTable), Maybe(table, Around(Space(s), inner)));
  }

  lemma FineUnregister(s: nat, c: nat, table: bool, found: bool, pages: nat, first: bool, stack: bool)
    ensures Fine({}, Trace(Unregister(s, c, table, found, pages, first, stack)))
  {
    var frees := Times(pages, Pair(Zone(0)));
    var inner := Maybe(found, frees + FreeTrace(c, first, stack));
    FinePair({}, SpaceTable);
    FineZones({Space(s)}, pages, 0);
    FineFree({Space(s)}, c, first, stack);
    FineAppend({Space(s)}, frees, FreeTrace(c, first, stack));
    FineOuter(Space(s), inner);
    FineAppend({}, Pair(SpaceTable), Maybe(table, Around(Space(s), inner)));
  }

  lemma FineFind(s: nat, table: bool)
    ensures Fine({}, Trace(FindRegion(s, table)))
  {
    FinePair({}, SpaceTable);
    FinePair({}, Space(s));
    FineAppend({}, Pair(SpaceTable), Maybe(table, Pair(Space(s))));
  }

  lemma FinePageFault(s: nat, r: nat, table: bool, locked: bool, mapped: bool, frames: nat)
    ensures Fine({}, Trace(PageFault(s, r, table, locked, mapped, frames)))
  {
    var inner := Maybe(!mapped, Pair(Zone(2)) + Times(frames, Pair(Zone(0))));
    FineFind(s, table);
    FineZones({Fault(r)}, 0, 2);
    FineZones({Fault(r)}, frames, 0);
    FineAppend({Fault(r)}, Pair(Zone(2)), Times(frames, Pair(Zone(0))));
    FineOuter(Fault(r), inner);
    FineAppend({}, Pair(SpaceTable) + Maybe(table, Pair(Space(s))), Maybe(locked, Around(Fault(r), inner)));
  }

  lemma FineCache(b: bool)
    ensures Fine({}, Pair(PageCache)) && Fine({}, Around(PageCache, Maybe(b, Pair(Zone(0)))))
    ensures Fine({}, EvictTrace(b))
  {
    FinePair({}, PageCache);
    FineZones({PageCache}, 2, 0);
    FineOuter(PageCache, Maybe(b, Pair(Zone(0))));
    FineOuter(PageCache, Maybe(b, Times(2, Pair(Zone(0)))));
  }

  lemma FineInsert(cached: bool, full: bool, victim: bool)
    ensures Fine({}, Trace(CacheInsert(cached, full, victim)))
  {
    FineCache(victim);
    FineCache(true);
    FineAppend({}, Pair(PageCache), EvictTrace(victim));
    FineAppend({}, Maybe(full, Pair(PageCache) + EvictTrace(victim)), Around(PageCache, Pair(Zone(0))));
  }

  lemma FineCreate(made: bool)
    ensures Fine({}, Trace(SlabCreate(made)))
  {
    FinePair({}, Zone(0));
    FinePair({}, CacheList);
    FineStats(2);
    FineAppend({}, Pair(Zone(0)), if made then Pair(CacheList) else Times(2, EveryZone()));
  }

  lemma FineCowMark(f: nat, entry: bool, found: bool)
    ensures Fine({}, Trace(CowMark(f, entry, found)))
  {
    FineCow(f, entry, found);
    FineAppend({}, EntryTrace(entry), Maybe(found, Pair(RefLock(f))));
  }

  lemma FineCowRelease(f: nat, found: bool, last: bool)
    ensures Fine({}, Trace(CowRelease(f, found, last)))
  {
    FineCow(f, last, found);
    FineAppend({}, Around(CowTable, Maybe(found, Pair(RefLock(f)))), Maybe(last, Times(2, Pair(Zone(0)))));
  }

  lemma FineTrace(op: Op)
    ensures Fine({}, Trace(op))
  {
    hide Fine;
    match op {
      case Pages(z) => FinePair({}, Zone(z));
      case Stats(passes) => FineStats(passes);
      case SlabCreate(made) => FineCreate(made);
      case SlabAlloc(c, stack, grow) => FineAlloc({}, c, stack, grow);
      case SlabFree(c, first, stack) => FineFree({}, c, first, stack);
      case SlabDestroy(c, slabs, stacks) => FineDestroy(c, slabs + stacks);
      case CowMark(f, entry, found) => FineCowMark(f, entry, found);
      case CowFault(f, entry, found, copy, failed) => FineCowFault(f, entry, found, copy, failed);
      case CowRelease(f, found, last) => FineCowRelease(f, found, last);
      case CowCount(f, found) => FineCow(f, false, found);
      case Register(s, c, table, clash, stack, grow) => FineRegister(s, c, table, clash, stack, grow);
      case FindRegion(s, table) => FineFind(s, table);
      case PageFault(s, r, table, locked, mapped, frames) => FinePageFault(s, r, table, locked, mapped, frames);
      case Unregister(s, c, table, found, pages, first, stack) =>
        FineUnregister(s, c, table, found, pages, first, stack);
      case CacheLookup => FineCache(false);
      case CacheInsert(cached, full, victim) => FineInsert(cached, full, victim);
      case CacheEvict(victim) => FineCache(victim);
      case CacheRemove(found) => FineCache(found);
    }
  }

  // ----- every nesting of the table occurs -----

  ghost predicate Occurs(n: Nesting) {
    exists op :: n in Nestings({}, Trace(op))
  }

  /** What a lock is taken around, behind a balanced prefix. */
  lemma Inside(prefix: seq<Event>, l: Lock, t: seq<Event>)
    requires RisingOver({}, {}, prefix) && RisingOver({l}, {}, t)
    ensures Nestings({}, prefix + Around(l, t)) >= Nestings({l}, t)
  {
    NestAppend({}, {}, prefix, Around(l, t));
    var none: set<Lock> := {};
    assert none + {l} == {l} && none + none == none;
    NestAround({}, l, t);
  }

  lemma Just(base: set<Lock>, l: Lock)
    requires Above(base, l)
    ensures RisingOver(base, {}, Pair(l)) && Nestings(base, Pair(l)) == Under(base, l)
  {
    PairRises(base, l);
    NestAround(base, l, []);
    assert Around(l, []) == Pair(l);
  }

  lemma Slabs(s: nat, c: nat)
    ensures Occurs(Nesting(Space(s), SlabLock(c))) && Occurs(Nesting(Space(s), Zone(1)))
    ensures Occurs(Nesting(SlabLock(c), Zone(1)))
  {
    var op := Register(s, c, true, false, false, true);
    var base := {Space(s)} + {SlabLock(c)};
    Just({}, SpaceTable);
    Just(base, Zone(1));
    NestAround({Space(s)}, SlabLock(c), Pair(Zone(1)));
    AllocRises({Space(s)}, c, false, true);
    Inside(Pair(SpaceTable), Space(s), AllocTrace(c, false, true));
    assert Nesting(SlabLock(c), Zone(1)) in Under(base, Zone(1)) && Nesting(Space(s), Zone(1)) in Under(base, Zone(1));
    assert Nestings({}, Trace(op)) >= Nestings({Space(s)}, AllocTrace(c, false, true));
  }

  lemma Unmaps(s: nat)
    ensures Occurs(Nesting(Space(s), Zone(0)))
  {
    var op := Unregister(s, 0, true, true, 1, false, true);
    Just({}, SpaceTable);
    Just({Space(s)}, Zone(0));
    var pages := Times(1, Pair(Zone(0)));
    assert Times(0, Pair(Zone(0))) == [] && pages == Pair(Zone(0)) + Times(0, Pair(Zone(0)));
    assert pages + FreeTrace(0, false, true) == Pair(Zone(0));
    Inside(Pair(SpaceTable), Space(s), Pair(Zone(0)));
    assert Nestings({}, Trace(op)) >= Nestings({Space(s)}, Pair(Zone(0)));
  }

  lemma Destroys(c: nat)
    ensures Occurs(Nesting(SlabLock(c), Zone(0)))
  {
    var op := SlabDestroy(c, 1, 0);
    Just({}, CacheList);
    Just({}, Zone(0));
    Just({SlabLock(c)}, Zone(0));
    assert Times(0, Pair(Zone(0))) == [] && Times(1, Pair(Zone(0))) == Pair(Zone(0)) + Times(0, Pair(Zone(0)));
    var first := Pair(CacheList) + Around(SlabLock(c), Pair(Zone(0)));
    Inside(Pair(CacheList), SlabLock(c), Pair(Zone(0)));
    FineDestroy(c, 1);
    NestedRises(SlabLock(c), Zone(0), true);
    Append({}, {}, Pair(CacheList), Around(SlabLock(c), Pair(Zone(0))));
    NestAppend({}, {}, first, Pair(Zone(0)));
    var none: set<Lock> := {};
    assert none + none == none && Trace(op) == first + Pair(Zone(0));
  }

  lemma Faults(r: nat)
    ensures Occurs(Nesting(Fault(r), Zone(0))) && Occurs(Nesting(Fault(r), Zone(2)))
  {
    var op := PageFault(0, r, false, true, false, 1);
    Just({}, SpaceTable);
    Just({Fault(r)}, Zone(0));
    Just({Fault(r)}, Zone(2));
    assert Times(0, Pair(Zone(0))) == [] && Times(1, Pair(Zone(0))) == Pair(Zone(0)) + Times(0, Pair(Zone(0)));
    var inner := Pair(Zone(2)) + Pair(Zone(0));
    Append({Fault(r)}, {}, Pair(Zone(2)), Pair(Zone(0)));
    NestAppend({Fault(r)}, {}, Pair(Zone(2)), Pair(Zone(0)));
    assert {Fault(r)} + {} == {Fault(r)};
    Inside(Pair(SpaceTable), Fault(r), inner);
    assert Trace(op) == Pair(SpaceTable) + Around(Fault(r), inner);
    assert Nestings({}, Trace(op)) >= Nestings({Fault(r)}, inner);
  }

  lemma Simple(l: Lock, m: Lock, op: Op)
    requires Rank(l) < Rank(m) && Trace(op) == Around(l, Pair(m))
    ensures Occurs(Nesting(l, m))
  {
    Just({l}, m);
    Inside([], l, Pair(m));
    assert [] + Around(l, Pair(m)) == Trace(op);
  }

  lemma Others(f: nat)
    ensures Occurs(Nesting(CowTable, Zone(0))) && Occurs(Nesting(CowTable, RefLock(f)))
    ensures Occurs(Nesting(PageCache, Zone(0)))
  {
    Simple(CowTable, Zone(0), CowMark(f, true, false));
    Simple(CowTable, RefLock(f), CowCount(f, true));
    Simple(PageCache, Zone(0), CacheRemove(true));
  }

  /** A lock is taken while another is held, by some operation on some path, exactly in these cases: a zone lock
      under the locks of an address space, a slab cache, a region, the reference table or the page cache, a slab
      cache's lock under that of an address space, and a reference entry's lock under that of the reference table;
      the zones are the unmovable one, the reclaimable one where slabs grow, and the movable one for faults. */
  lemma NestingTable(n: Nesting)
    ensures Occurs(n) <==> Listed(n)
  {
    if Occurs(n) {
      var op :| n in Nestings({}, Trace(op));
      FineTrace(op);
    } else if Listed(n) {
      match n.outer {
        case Space(s) =>
          Slabs(s, if n.inner.SlabLock? then n.inner.cache else 0);
          Unmaps(s);
        case SlabLock(c) =>
          Slabs(0, c);
          Destroys(c);
        case Fault(r) => Faults(r);
        case CowTable => Others(if n.inner.RefLock? then n.inner.frame else 0);
        case PageCache => Others(0);
      }
    }
  }
}
