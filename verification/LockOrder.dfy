/** The spinlocks of the memory manager: in which order operations take them, and why no set of threads
    can block each other for ever. */
module LockOrder {

  datatype Lock =
    | SpaceTable | CacheList | Space(space: nat) | Fault(region: nat) | CowTable | PageCache
    | SlabLock(cache: nat) | RefLock(frame: nat)
    | Zone(zone: nat)

  const RANKS: nat := 3

  function Rank(l: Lock): (r: nat)
    ensures r < RANKS
  {
    if l.Zone? then 2 else if l.SlabLock? || l.RefLock? then 1 else 0
  }

  datatype Event = Acquire(lock: Lock) | Release(lock: Lock)

  // ----- the discipline -----

  ghost predicate Above(held: set<Lock>, l: Lock) {
    forall h | h in held :: Rank(h) < Rank(l)
  }

  /** Above locks that stay held throughout, and from a set of held locks: every lock taken ranks above
      all held at that moment, only held locks are released, and none of the set is held at the end. */
  ghost predicate RisingOver(base: set<Lock>, held: set<Lock>, t: seq<Event>)
    decreases |t|
  {
    if t == [] then held == {}
    else match t[0]
      case Acquire(l) => Above(base + held, l) && RisingOver(base, held + {l}, t[1..])
      case Release(l) => l in held && l !in base && RisingOver(base, held - {l}, t[1..])
  }

  // ----- the traces of the operations -----

  function Pair(l: Lock): seq<Event> {
    [Acquire(l), Release(l)]
  }

  function Around(l: Lock, t: seq<Event>): seq<Event> {
    [Acquire(l)] + t + [Release(l)]
  }

  function Times(n: nat, t: seq<Event>): seq<Event> {
    if n == 0 then [] else t + Times(n - 1, t)
  }

  function Maybe(b: bool, t: seq<Event>): seq<Event> {
    if b then t else []
  }

  /** The operations, with the choices their branches make and the numbers of loop rounds. */
  datatype Op =
    | Pages(zone: nat)
    | Stats(passes: nat)
    | SlabCreate(made: bool)
    | SlabAlloc(cache: nat, stack: bool, grow: bool)
    | SlabFree(cache: nat, first: bool, stack: bool)
    | SlabDestroy(cache: nat, slabs: nat, stacks: nat)
    | CowMark(frame: nat, entry: bool, found: bool)
    | CowFault(frame: nat, entry: bool, found: bool, copy: bool, failed: bool)
    | CowRelease(frame: nat, found: bool, last: bool)
    | CowCount(frame: nat, found: bool)
    | Register(space: nat, cache: nat, table: bool, clash: bool, stack: bool, grow: bool)
    | FindRegion(space: nat, table: bool)
    | PageFault(space: nat, region: nat, table: bool, locked: bool, mapped: bool, frames: nat)
    | Unregister(space: nat, cache: nat, table: bool, found: bool, pages: nat, first: bool, stack: bool)
    | CacheLookup
    | CacheInsert(cached: bool, full: bool, victim: bool)
    | CacheEvict(victim: bool)
    | CacheRemove(found: bool)

  const UNMOVABLE: nat := 0
  const RECLAIMABLE: nat := 1
  const MOVABLE: nat := 2

  /** Reading one number of each zone, its lock held meanwhile. */
  function EveryZone(): seq<Event> {
    Pair(Zone(UNMOVABLE)) + Pair(Zone(RECLAIMABLE)) + Pair(Zone(MOVABLE))
  }

  function AllocTrace(cache: nat, stack: bool, grow: bool): seq<Event> {
    if stack then [] else Around(SlabLock(cache), Maybe(grow, Pair(Zone(RECLAIMABLE))))
  }

  function FreeTrace(cache: nat, first: bool, stack: bool): seq<Event> {
    Maybe(first, Pair(Zone(UNMOVABLE))) + Maybe(!stack, Pair(SlabLock(cache)))
  }

  function EntryTrace(entry: bool): seq<Event> {
    Around(CowTable, Maybe(entry, Pair(Zone(UNMOVABLE))))
  }

  function EvictTrace(victim: bool): seq<Event> {
    Around(PageCache, Maybe(victim, Times(2, Pair(Zone(UNMOVABLE)))))
  }

  function Trace(op: Op): seq<Event> {
    match op
    case Pages(z) => Pair(Zone(z))
    case Stats(passes) => Times(passes, EveryZone())
    case SlabCreate(made) => Pair(Zone(UNMOVABLE)) + (if made then Pair(CacheList) else Times(2, EveryZone()))
    case SlabAlloc(c, stack, grow) => AllocTrace(c, stack, grow)
    case SlabFree(c, first, stack) => FreeTrace(c, first, stack)
    case SlabDestroy(c, slabs, stacks) =>
      Pair(CacheList) + Around(SlabLock(c), Times(slabs + stacks, Pair(Zone(UNMOVABLE)))) + Pair(Zone(UNMOVABLE))
    case CowMark(f, entry, found) => EntryTrace(entry) + Maybe(found, Pair(RefLock(f)))
    case CowFault(f, entry, found, copy, failed) =>
      EntryTrace(entry) + Maybe(found,
        Pair(RefLock(f)) + Maybe(copy, Pair(Zone(UNMOVABLE)) + Maybe(failed, Pair(RefLock(f)))))
    case CowRelease(f, found, last) =>
      Around(CowTable, Maybe(found, Pair(RefLock(f)))) + Maybe(last, Times(2, Pair(Zone(UNMOVABLE))))
    case CowCount(f, found) => Around(CowTable, Maybe(found, Pair(RefLock(f))))
    case Register(s, c, table, clash, stack, grow) =>
      Pair(SpaceTable) + Maybe(table, Around(Space(s), Maybe(!clash, AllocTrace(c, stack, grow))))
    case FindRegion(s, table) => Pair(SpaceTable) + Maybe(table, Pair(Space(s)))
    case PageFault(s, r, table, locked, mapped, frames) =>
      Pair(SpaceTable) + Maybe(table, Pair(Space(s)))
        + Maybe(locked, Around(Fault(r), Maybe(!mapped, Pair(Zone(MOVABLE)) + Times(frames, Pair(Zone(UNMOVABLE))))))
    case Unregister(s, c, table, found, pages, first, stack) =>
      Pair(SpaceTable)
        + Maybe(table, Around(Space(s), Maybe(found, Times(pages, Pair(Zone(UNMOVABLE))) + FreeTrace(c, first, stack))))
    case CacheLookup => Pair(PageCache)
    case CacheInsert(cached, full, victim) =>
      if cached then Pair(PageCache)
      else Maybe(full, Pair(PageCache) + EvictTrace(victim)) + Around(PageCache, Pair(Zone(UNMOVABLE)))
    case CacheEvict(victim) => EvictTrace(victim)
    case CacheRemove(found) => Around(PageCache, Maybe(found, Pair(Zone(UNMOVABLE))))
  }

  // ----- every operation keeps the discipline -----

  lemma {:induction false} Append(base: set<Lock>, held: set<Lock>, a: seq<Event>, b: seq<Event>)
    requires RisingOver(base, held, a) && RisingOver(base, {}, b)
    ensures RisingOver(base, held, a + b)
    decreases |a|
  {
    if a == [] {
      assert a + b == b;
    } else {
      assert (a + b)[1..] == a[1..] + b;
      match a[0] {
        case Acquire(l) => Append(base, held + {l}, a[1..], b);
        case Release(l) => Append(base, held - {l}, a[1..], b);
      }
    }
  }

  /** A trace above a lock, ended by the release of that lock. */
  lemma {:induction false} Closing(base: set<Lock>, l: Lock, held: set<Lock>, t: seq<Event>)
    requires l !in base && l !in held && RisingOver(base + {l}, held, t)
    ensures RisingOver(base, held + {l}, t + [Release(l)])
    decreases |t|
  {
    var u := t + [Release(l)];
    if t == [] {
      assert u == [Release(l)] && held + {l} - {l} == {};
      assert RisingOver(base, {}, u[1..]);
    } else {
      assert u[1..] == t[1..] + [Release(l)];
      match t[0] {
        case Acquire(m) =>
          assert base + {l} + held == base + (held + {l});
          Closing(base, l, held + {m}, t[1..]);
          assert held + {m} + {l} == held + {l} + {m};
        case Release(m) =>
          Closing(base, l, held - {m}, t[1..]);
          assert held - {m} + {l} == held + {l} - {m};
      }
    }
  }

  lemma AroundRises(base: set<Lock>, l: Lock, t: seq<Event>)
    requires Above(base, l) && RisingOver(base + {l}, {}, t)
    ensures RisingOver(base, {}, Around(l, t))
  {
    Closing(base, l, {}, t);
    assert Around(l, t)[1..] == t + [Release(l)];
    assert base + {} == base && {} + {l} == {l};
  }

  lemma PairRises(base: set<Lock>, l: Lock)
    requires Above(base, l)
    ensures RisingOver(base, {}, Pair(l))
  {
    AroundRises(base, l, []);
    assert Around(l, []) == Pair(l);
  }

  lemma {:induction false} TimesRises(base: set<Lock>, n: nat, t: seq<Event>)
    requires RisingOver(base, {}, t)
    ensures RisingOver(base, {}, Times(n, t))
  {
    if n > 0 {
      TimesRises(base, n - 1, t);
      Append(base, {}, t, Times(n - 1, t));
    }
  }

  /** Everything below a zone lock may take one, any number of times. */
  lemma ZonesRise(base: set<Lock>, n: nat, z: nat)
    requires forall h | h in base :: !h.Zone?
    ensures RisingOver(base, {}, Pair(Zone(z))) && RisingOver(base, {}, Times(n, Pair(Zone(z))))
  {
    PairRises(base, Zone(z));
    TimesRises(base, n, Pair(Zone(z)));
  }

  lemma StatsRise(passes: nat)
    ensures RisingOver({}, {}, Times(passes, EveryZone()))
  {
    ZonesRise({}, 0, UNMOVABLE);
    ZonesRise({}, 0, RECLAIMABLE);
    ZonesRise({}, 0, MOVABLE);
    Append({}, {}, Pair(Zone(UNMOVABLE)), Pair(Zone(RECLAIMABLE)));
    Append({}, {}, Pair(Zone(UNMOVABLE)) + Pair(Zone(RECLAIMABLE)), Pair(Zone(MOVABLE)));
    TimesRises({}, passes, EveryZone());
  }

  lemma AllocRises(base: set<Lock>, c: nat, stack: bool, grow: bool)
    requires forall h | h in base :: Rank(h) == 0
    ensures RisingOver(base, {}, AllocTrace(c, stack, grow))
  {
    if !stack {
      ZonesRise(base + {SlabLock(c)}, 0, RECLAIMABLE);
      AroundRises(base, SlabLock(c), Maybe(grow, Pair(Zone(RECLAIMABLE))));
    }
  }

  lemma FreeRises(base: set<Lock>, c: nat, first: bool, stack: bool)
    requires forall h | h in base :: Rank(h) == 0
    ensures RisingOver(base, {}, FreeTrace(c, first, stack))
  {
    ZonesRise(base, 0, UNMOVABLE);
    PairRises(base, SlabLock(c));
    Append(base, {}, Maybe(first, Pair(Zone(UNMOVABLE))), Maybe(!stack, Pair(SlabLock(c))));
  }

  lemma EntryRises(entry: bool)
    ensures RisingOver({}, {}, EntryTrace(entry))
  {
    ZonesRise({CowTable}, 0, UNMOVABLE);
    assert {} + {CowTable} == {CowTable};
    AroundRises({}, CowTable, Maybe(entry, Pair(Zone(UNMOVABLE))));
  }

  lemma EvictRises(victim: bool)
    ensures RisingOver({}, {}, EvictTrace(victim))
  {
    ZonesRise({PageCache}, 2, UNMOVABLE);
    assert {} + {PageCache} == {PageCache};
    AroundRises({}, PageCache, Maybe(victim, Times(2, Pair(Zone(UNMOVABLE)))));
  }

  /** One lock taken around at most one lock that ranks above it. */
  lemma NestedRises(l: Lock, m: Lock, inner: bool)
    requires Rank(l) < Rank(m)
    ensures RisingOver({}, {}, Around(l, Maybe(inner, Pair(m))))
  {
    PairRises({l}, m);
    assert {} + {l} == {l};
    AroundRises({}, l, Maybe(inner, Pair(m)));
  }

  lemma CowFaultRises(f: nat, entry: bool, found: bool, copy: bool, failed: bool)
    ensures RisingOver({}, {}, Trace(CowFault(f, entry, found, copy, failed)))
  {
    EntryRises(entry);
    PairRises({}, RefLock(f));
    PairRises({}, Zone(UNMOVABLE));
    var retry := Maybe(failed, Pair(RefLock(f)));
    Append({}, {}, Pair(Zone(UNMOVABLE)), retry);
    Append({}, {}, Pair(RefLock(f)), Maybe(copy, Pair(Zone(UNMOVABLE)) + retry));
    Append({}, {}, EntryTrace(entry), Maybe(found, Pair(RefLock(f)) + Maybe(copy, Pair(Zone(UNMOVABLE)) + retry)));
  }

  lemma CowMarkRises(f: nat, entry: bool, found: bool)
    ensures RisingOver({}, {}, Trace(CowMark(f, entry, found)))
  {
    EntryRises(entry);
    PairRises({}, RefLock(f));
    Append({}, {}, EntryTrace(entry), Maybe(found, Pair(RefLock(f))));
  }

  lemma CowReleaseRises(f: nat, found: bool, last: bool)
    ensures RisingOver({}, {}, Trace(CowRelease(f, found, last)))
  {
    NestedRises(CowTable, RefLock(f), found);
    ZonesRise({}, 2, UNMOVABLE);
    Append({}, {}, Around(CowTable, Maybe(found, Pair(RefLock(f)))), Maybe(last, Times(2, Pair(Zone(UNMOVABLE)))));
  }

  lemma FindRises(s: nat, table: bool)
    ensures RisingOver({}, {}, Trace(FindRegion(s, table)))
  {
    PairRises({}, SpaceTable);
    PairRises({}, Space(s));
    Append({}, {}, Pair(SpaceTable), Maybe(table, Pair(Space(s))));
  }

  lemma DestroyRises(c: nat, n: nat)
    ensures RisingOver({}, {},
      Pair(CacheList) + Around(SlabLock(c), Times(n, Pair(Zone(UNMOVABLE)))) + Pair(Zone(UNMOVABLE)))
  {
    PairRises({}, CacheList);
    PairRises({}, Zone(UNMOVABLE));
    ZonesRise({SlabLock(c)}, n, UNMOVABLE);
    assert {} + {SlabLock(c)} == {SlabLock(c)};
    AroundRises({}, SlabLock(c), Times(n, Pair(Zone(UNMOVABLE))));
    Append({}, {}, Pair(CacheList), Around(SlabLock(c), Times(n, Pair(Zone(UNMOVABLE)))));
    Append({}, {}, Pair(CacheList) + Around(SlabLock(c), Times(n, Pair(Zone(UNMOVABLE)))), Pair(Zone(UNMOVABLE)));
  }

  lemma RegisterRises(s: nat, c: nat, table: bool, clash: bool, stack: bool, grow: bool)
    ensures RisingOver({}, {}, Trace(Register(s, c, table, clash, stack, grow)))
  {
    var inner := Maybe(!clash, AllocTrace(c, stack, grow));
    PairRises({}, SpaceTable);
    AllocRises({Space(s)}, c, stack, grow);
    assert {} + {Space(s)} == {Space(s)};
    AroundRises({}, Space(s), inner);
    Append({}, {}, Pair(SpaceTable), Maybe(table, Around(Space(s), inner)));
  }

  lemma UnregisterRises(s: nat, c: nat, table: bool, found: bool, pages: nat, first: bool, stack: bool)
    ensures RisingOver({}, {}, Trace(Unregister(s, c, table, found, pages, first, stack)))
  {
    var frees := Times(pages, Pair(Zone(UNMOVABLE)));
    var inner := Maybe(found, frees + FreeTrace(c, first, stack));
    PairRises({}, SpaceTable);
    ZonesRise({Space(s)}, pages, UNMOVABLE);
    FreeRises({Space(s)}, c, first, stack);
    Append({Space(s)}, {}, frees, FreeTrace(c, first, stack));
    assert {} + {Space(s)} == {Space(s)};
    AroundRises({}, Space(s), inner);
    Append({}, {}, Pair(SpaceTable), Maybe(table, Around(Space(s), inner)));
  }

  lemma PageFaultRises(s: nat, r: nat, table: bool, locked: bool, mapped: bool, frames: nat)
    ensures RisingOver({}, {}, Trace(PageFault(s, r, table, locked, mapped, frames)))
  {
    var inner := Maybe(!mapped, Pair(Zone(MOVABLE)) + Times(frames, Pair(Zone(UNMOVABLE))));
    PairRises({}, SpaceTable);
    PairRises({}, Space(s));
    ZonesRise({Fault(r)}, 0, MOVABLE);
    ZonesRise({Fault(r)}, frames, UNMOVABLE);
    Append({Fault(r)}, {}, Pair(Zone(MOVABLE)), Times(frames, Pair(Zone(UNMOVABLE))));
    assert {} + {Fault(r)} == {Fault(r)};
    AroundRises({}, Fault(r), inner);
    Append({}, {}, Pair(SpaceTable), Maybe(table, Pair(Space(s))));
    Append({}, {}, Pair(SpaceTable) + Maybe(table, Pair(Space(s))), Maybe(locked, Around(Fault(r), inner)));
  }

  lemma InsertRises(cached: bool, full: bool, victim: bool)
    ensures RisingOver({}, {}, Trace(CacheInsert(cached, full, victim)))
  {
    PairRises({}, PageCache);
    EvictRises(victim);
    NestedRises(PageCache, Zone(UNMOVABLE), true);
    Append({}, {}, Pair(PageCache), EvictTrace(victim));
    Append({}, {}, Maybe(full, Pair(PageCache) + EvictTrace(victim)), Around(PageCache, Pair(Zone(UNMOVABLE))));
  }

  /** Every operation, on every path, takes locks in strictly rising rank and releases all it took. */
  lemma TraceRises(op: Op)
    ensures RisingOver({}, {}, Trace(op))
  {
    match op {
      case Pages(z) => PairRises({}, Zone(z));
      case Stats(passes) => StatsRise(passes);
      case SlabCreate(made) =>
        PairRises({}, Zone(UNMOVABLE));
        PairRises({}, CacheList);
        StatsRise(2);
        Append({}, {}, Pair(Zone(UNMOVABLE)), if made then Pair(CacheList) else Times(2, EveryZone()));
      case SlabAlloc(c, stack, grow) => AllocRises({}, c, stack, grow);
      case SlabFree(c, first, stack) => FreeRises({}, c, first, stack);
      case SlabDestroy(c, slabs, stacks) => DestroyRises(c, slabs + stacks);
      case CowMark(f, entry, found) => CowMarkRises(f, entry, found);
      case CowFault(f, entry, found, copy, failed) => CowFaultRises(f, entry, found, copy, failed);
      case CowRelease(f, found, last) => CowReleaseRises(f, found, last);
      case CowCount(f, found) => NestedRises(CowTable, RefLock(f), found);
      case Register(s, c, table, clash, stack, grow) => RegisterRises(s, c, table, clash, stack, grow);
      case FindRegion(s, table) => FindRises(s, table);
      case PageFault(s, r, table, locked, mapped, frames) => PageFaultRises(s, r, table, locked, mapped, frames);
      case Unregister(s, c, table, found, pages, first, stack) =>
        UnregisterRises(s, c, table, found, pages, first, stack);
      case CacheLookup => PairRises({}, PageCache);
      case CacheInsert(cached, full, victim) => InsertRises(cached, full, victim);
      case CacheEvict(victim) => EvictRises(victim);
      case CacheRemove(found) => NestedRises(PageCache, Zone(UNMOVABLE), found);
    }
  }

  // ----- threads -----

  /** A thread: the locks it holds and the events it still has to go through. */
  datatype Thread = Thread(held: set<Lock>, rest: seq<Event>)

  function Program(ops: seq<Op>): seq<Event> {
    if ops == [] then [] else Trace(ops[0]) + Program(ops[1..])
  }

  lemma {:induction false} ProgramRises(ops: seq<Op>)
    ensures RisingOver({}, {}, Program(ops))
  {
    if ops != [] {
      TraceRises(ops[0]);
      ProgramRises(ops[1..]);
      Append({}, {}, Trace(ops[0]), Program(ops[1..]));
    }
  }

  type State = seq<Thread>

  ghost predicate Disciplined(t: Thread) {
    RisingOver({}, t.held, t.rest)
  }

  /** No lock is held by two threads, and every thread keeps the discipline. */
  ghost predicate Inv(s: State) {
    && (forall t | 0 <= t < |s| :: Disciplined(s[t]))
    && (forall t, u | 0 <= t < u < |s| :: s[t].held !! s[u].held)
  }

  /** A thread can take its next step unless it waits for a lock that is held. */
  ghost predicate Enabled(s: State, t: nat) {
    && t < |s| && s[t].rest != []
    && (s[t].rest[0].Acquire? ==> forall u | 0 <= u < |s| :: s[t].rest[0].lock !in s[u].held)
  }

  function Step(s: State, t: nat): State
    requires t < |s| && s[t].rest != []
  {
    var e := s[t].rest[0];
    s[t := Thread(if e.Acquire? then s[t].held + {e.lock} else s[t].held - {e.lock}, s[t].rest[1..])]
  }

  lemma StepKeeps(s: State, t: nat)
    requires Inv(s) && Enabled(s, t)
    ensures Inv(Step(s, t))
  {
    var s' := Step(s, t);
    forall u | 0 <= u < |s'| ensures Disciplined(s'[u]) { assert Disciplined(s[u]); }
  }

  /** Threads that run any operations, none started yet. */
  function Start(programs: seq<seq<Op>>): (s: State)
    ensures |s| == |programs|
  {
    seq(|programs|, i requires 0 <= i < |programs| => Thread({}, Program(programs[i])))
  }

  lemma StartSound(programs: seq<seq<Op>>)
    ensures Inv(Start(programs))
  {
    var s := Start(programs);
    forall t | 0 <= t < |s| ensures Disciplined(s[t]) { ProgramRises(programs[t]); }
  }

  // ----- no deadlock -----

  /** From a thread that is not done, follow the holders of the wanted locks, whose ranks rise, to one
      that can step. */
  lemma {:induction false} FindRunner(s: State, t: nat, rank: nat) returns (r: nat)
    requires Inv(s) && t < |s| && s[t].rest != [] && rank <= RANKS
    requires s[t].rest[0].Acquire? ==> Rank(s[t].rest[0].lock) >= rank
    ensures Enabled(s, r)
    decreases RANKS - rank
  {
    r := t;
    if !Enabled(s, t) {
      var l := s[t].rest[0].lock;
      var u: nat :| u < |s| && l in s[u].held;
      assert Disciplined(s[t]) && Disciplined(s[u]);
      r := FindRunner(s, u, Rank(l) + 1);
    }
  }

  /** In no reachable state is everyone blocked: while any thread has something left to do, some thread
      can step. */
  lemma NoDeadlock(s: State, t: nat)
    requires Inv(s) && t < |s| && s[t].rest != []
    ensures exists r :: Enabled(s, r)
  {
    var r := FindRunner(s, t, 0);
  }

  function Work(s: State): nat {
    if s == [] then 0 else |s[0].rest| + Work(s[1..])
  }

  lemma {:induction false} StepWorks(s: State, t: nat)
    requires t < |s| && s[t].rest != []
    ensures Work(Step(s, t)) == Work(s) - 1
  {
    if t > 0 {
      assert Step(s, t)[1..] == Step(s[1..], t - 1);
      StepWorks(s[1..], t - 1);
    } else {
      assert Step(s, t)[1..] == s[1..];
    }
  }

  /** A schedule picks a thread that can step, again and again. */
  ghost predicate Schedule(s: State, picks: seq<nat>)
    decreases |picks|
  {
    picks == [] || (Enabled(s, picks[0]) && Schedule(Step(s, picks[0]), picks[1..]))
  }

  ghost function After(s: State, picks: seq<nat>): State
    requires Schedule(s, picks)
    decreases |picks|
  {
    if picks == [] then s else After(Step(s, picks[0]), picks[1..])
  }

  /** Each step of a schedule does one unit of the work there was, and a schedule that cannot be continued
      has finished every thread, with no lock held. */
  lemma {:induction false} AlwaysFinishes(s: State, picks: seq<nat>)
    requires Inv(s) && Schedule(s, picks)
    ensures Inv(After(s, picks)) && |picks| + Work(After(s, picks)) == Work(s)
    ensures (forall r: nat :: !Enabled(After(s, picks), r)) ==>
      forall t | 0 <= t < |After(s, picks)| :: After(s, picks)[t] == Thread({}, [])
    decreases |picks|
  {
    if picks == [] {
      forall t | 0 <= t < |s| && (forall r: nat :: !Enabled(s, r)) ensures s[t] == Thread({}, []) {
        assert Disciplined(s[t]);
        if s[t].rest != [] { NoDeadlock(s, t); }
      }
    } else {
      StepKeeps(s, picks[0]);
      StepWorks(s, picks[0]);
      AlwaysFinishes(Step(s, picks[0]), picks[1..]);
    }
  }

  /** Any number of threads running any operations, in any interleaving: as long as one of them is not done,
      some thread can take a step. */
  lemma DeadlockFree(programs: seq<seq<Op>>, picks: seq<nat>, t: nat)
    requires Schedule(Start(programs), picks) && t < |After(Start(programs), picks)|
    requires After(Start(programs), picks)[t].rest != []
    ensures exists r :: Enabled(After(Start(programs), picks), r)
  {
    StartSound(programs);
    AlwaysFinishes(Start(programs), picks);
    NoDeadlock(After(Start(programs), picks), t);
  }
}
