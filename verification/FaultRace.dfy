/** Fault handlers of different regions on one page-table tree: when a table that one handler has hung can be
    overwritten by another. */
module FaultRace {
  import opened Common
  import opened WalkTree
  import opened FaultProtocol
  import opened FaultProgress
  import opened FaultOutcome

  /** Two pages of different demand-paged regions that lack one table. */
  ghost predicate Contend(s: State, p: VPage, q: VPage, a: Slot) {
    && WalkTree.Aligned(p) && WalkTree.Aligned(q) && Lacks(s.links, p, a) && Lacks(s.links, q, a)
    && var r, k := FindRegion(s.regions, p), FindRegion(s.regions, q);
    r != k && r < |s.regions| && k < |s.regions| && s.regions[r].demandPaged && s.regions[k].demandPaged
  }

  ghost predicate Contended(s: State) {
    exists p, q, a :: Contend(s, p, q, a)
  }

  /** No run takes a translation back or replaces it. */
  ghost predicate Lasting(s: State) {
    forall es: seq<Event>, more: seq<Event>, p |
      WalkTree.Aligned(p) && Translate(After(s, es), p).Some? ::
      Translate(After(After(s, es), more), p) == Translate(After(s, es), p)
  }

  ghost predicate AllRest(s: State) {
    forall t | 0 <= t < |s.threads| :: s.threads[t].pc in {Idle, Done}
  }

  // ----- without such pages -----

  /** A handler that finds missing what another builds shows two such pages. */
  lemma Uncontended(s: State, e: Event)
    requires Inv(s) && (!Contended(s) || |s.threads| < 2)
    ensures Free(s, e)
  {
    if e.Run? && e.thread < |s.threads| && s.threads[e.thread].pc == Walk && Here(s.threads[e.thread]) !in s.links {
      forall u: nat | u < |s.threads| && u != e.thread && Building(s.threads[u])
        ensures Here(s.threads[u]) != Here(s.threads[e.thread])
      {
        if Here(s.threads[u]) == Here(s.threads[e.thread]) { BothLack(s, e.thread, u); }
      }
    }
  }

  lemma BothLack(s: State, t: nat, u: nat)
    requires Inv(s) && t < |s.threads| && u < |s.threads| && t != u
    requires s.threads[t].pc == Walk && Building(s.threads[u]) && Here(s.threads[t]) == Here(s.threads[u])
    requires Here(s.threads[t]) !in s.links
    ensures Contended(s)
  {
    assert ThreadOk(s, t) && ThreadOk(s, u);
    FaultProtocol.MutualExclusion(s, t, u);
    var p, q, a := s.threads[t].page, s.threads[u].page, Here(s.threads[t]);
    assert LacksAt(s.links, p, a, s.threads[t].level);
    assert LacksAt(s.links, q, a, s.threads[u].level);
    assert Contend(s, p, q, a);
  }

  /** No event makes two pages contend. */
  lemma ContendedBefore(s: State, e: Event)
    requires Inv(s) && Contended(Next(s, e))
    ensures Contended(s)
  {
    var s' := Next(s, e);
    var p, q, a :| Contend(s', p, q, a);
    NextRegions(s, e);
    if s'.links == s.links {
      assert Contend(s, p, q, a);
    } else {
      NewLink(s, e);
      var th := s.threads[e.thread];
      LackedBefore(s.links, Here(th), th.made, p, a);
      LackedBefore(s.links, Here(th), th.made, q, a);
      hide Next, Inv, Lacks;
      assert Contend(s, p, q, if a.node == Table(th.made) then Here(th) else a);
    }
  }

  lemma NextRegions(s: State, e: Event)
    ensures Next(s, e).regions == s.regions
  {
    if e.Run? && e.thread < |s.threads| { AdvanceShared(s, e.thread); }
    hide Advance;
  }

  lemma NewLink(s: State, e: Event)
    requires Inv(s) && Next(s, e).links != s.links
    ensures e.Run? && e.thread < |s.threads|
    ensures var th := s.threads[e.thread];
      && Next(s, e).links == s.links[Here(th) := th.made]
      && Here(th) !in s.links && Here(th).node != Table(th.made)
      && forall c | c in s.links :: c.node != Table(th.made) && s.links[c] != th.made
  {
    OnlyRuns(s, e);
    assert ThreadOk(s, e.thread);
    OnlyHang(s, e.thread);
    hide Inv, Next, LockSide, FrameSide;
    NotThere(s.links, s.threads[e.thread].made, s.threads[e.thread].page, s.threads[e.thread].level);
  }

  lemma OnlyRuns(s: State, e: Event)
    requires Next(s, e).links != s.links
    ensures e.Run? && e.thread < |s.threads| && Next(s, e) == Advance(s, e.thread)
  {
    hide Advance;
  }

  lemma OnlyHang(s: State, t: nat)
    requires t < |s.threads| && Advance(s, t).links != s.links
    ensures s.threads[t].pc == Hang && Advance(s, t).links == s.links[Here(s.threads[t]) := s.threads[t].made]
  {
    hide Moved, Here;
  }

  lemma {:induction false} UncontendedRun(s: State, es: seq<Event>)
    requires Inv(s) && (!Contended(s) || |s.threads| < 2)
    ensures FreeRun(s, es) && Inv(After(s, es)) && (!Contended(After(s, es)) || |After(s, es).threads| < 2)
    decreases |es|
  {
    if es != [] {
      Uncontended(s, es[0]);
      EventKeeps(s, es[0]);
      if Contended(Next(s, es[0])) { ContendedBefore(s, es[0]); }
      hide Inv, Contended, Next, Free;
      UncontendedRun(Next(s, es[0]), es[1..]);
    }
  }

  /** Without two threads, or without two such pages, every translation lasts. */
  lemma UncontendedLasts(s: State)
    requires Inv(s) && (!Contended(s) || |s.threads| < 2)
    ensures Lasting(s)
  {
    forall es: seq<Event>, more: seq<Event>, p | WalkTree.Aligned(p) && Translate(After(s, es), p).Some?
      ensures Translate(After(After(s, es), more), p) == Translate(After(s, es), p)
    {
      UncontendedRun(s, es);
      UncontendedRun(After(s, es), more);
      NeverReplaced(After(s, es), more);
    }
  }

  // ----- with such pages -----

  lemma {:induction false} AfterAppend(s: State, a: seq<Event>, b: seq<Event>)
    ensures After(s, a + b) == After(After(s, a), b)
    decreases |a|
  {
    if a == [] {
      assert a + b == b;
    } else {
      assert (a + b)[1..] == a[1..] + b;
      AfterAppend(Next(s, a[0]), a[1..], b);
    }
  }

  lemma Once(s: State, e: Event)
    ensures After(s, [e]) == Next(s, e)
  {
    assert [e][1..] == [];
  }

  function Runs(t: nat, n: nat): seq<Event> {
    if n == 0 then [] else [Run(t)] + Runs(t, n - 1)
  }

  /** A thread by itself is a run. */
  lemma {:induction false} AloneRuns(s: State, t: nat, n: nat)
    requires t < |s.threads|
    ensures After(s, Runs(t, n)) == Alone(s, t, n)
    decreases n
  {
    if n > 0 {
      AdvanceThreads(s, t);
      AloneRuns(Advance(s, t), t, n - 1);
      AfterAppend(s, [Run(t)], Runs(t, n - 1));
      Once(s, Run(t));
    }
  }

  /** Only thread t, on its page, and the lock of region r have changed, apart from data frames. */
  ghost predicate Enters(s: State, s': State, t: nat, r: nat) {
    && t < |s.threads| == |s'.threads| && s'.threads == s.threads[t := s'.threads[t]]
    && s'.threads[t].page == s.threads[t].page && Fits(s', s'.threads[t])
    && s' == s.(threads := s'.threads, locks := s'.locks, owner := s'.owner, pool := s'.pool, role := s'.role,
                taken := s'.taken, zeroed := s'.zeroed)
    && |s'.locks| == |s.locks| && |s'.owner| == |s.owner|
    && (forall k | 0 <= k < |s.locks| && k != r :: s'.locks[k] == s.locks[k])
  }

  lemma EntersOn(s: State, s1: State, s2: State, t: nat, r: nat)
    requires Enters(s, s1, t, r) && Enters(s1, s2, t, r)
    ensures Enters(s, s2, t, r)
  {
    hide Fits;
  }

  /** Thread t is about to take a frame for the table missing at entry a. */
  ghost predicate AtMissing(s: State, t: nat, p: VPage, a: Slot, level: nat) {
    && t < |s.threads| && s.threads[t].pc == Grab && s.threads[t].page == p && s.threads[t].level == level
    && s.threads[t].node == a.node && Here(s.threads[t]) == a && Fits(s, s.threads[t])
  }

  /** The walk down to the missing entry. */
  lemma {:induction false} WalkDown(s: State, t: nat, a: Slot, level: nat) returns (n: nat)
    requires Stands(s, t, Walk) && s.threads[t].level >= level
    requires LacksAt(s.links, s.threads[t].page, a, level) && a !in s.links
    ensures var s' := Alone(s, t, n);
      && AtMissing(s', t, s.threads[t].page, a, level) && s' == At(s, t, s'.threads[t])
    decreases if t < |s.threads| then s.threads[t].level else 0
  {
    var th, s1 := s.threads[t], Advance(s, t);
    One(s, t);
    n := 1;
    if th.level > level {
      if Here(th) !in s.links { NothingBelow(s.links, th.page, th.level, level); }
      var more := WalkDown(s1, t, a, level);
      AloneAdd(s, t, 1, more);
      n := 1 + more;
    }
  }

  /** The handler up to the lock. */
  lemma ToLock(s: State, t: nat, r: nat) returns (n: nat)
    requires t < |s.threads| && Fits(s, s.threads[t]) && s.threads[t].pc == Find
    requires Translate(s, s.threads[t].page).None?
    requires FindRegion(s.regions, s.threads[t].page) == r < |s.regions| && s.regions[r].demandPaged
    ensures var s' := Alone(s, t, n);
      && Enters(s, s', t, r) && s'.threads[t].pc == TryLock && s'.threads[t].region == r
      && s'.pool == s.pool && s'.locks == s.locks
  {
    var s1 := Advance(s, t);
    One(s, t);
    FindStep(s, t);
    assert Translate(s1, s1.threads[t].page).None?;
    hide Advance, Translate, FindRegion;
    var look := LookAlone(s1, t, Look1);
    AloneAdd(s, t, 1, look);
    n := 1 + look;
  }

  /** The handler from the lock to its data frame. */
  lemma ToAlloc(s: State, t: nat) returns (n: nat)
    requires t < |s.threads| && Fits(s, s.threads[t]) && s.threads[t].pc == TryLock && s.locks[s.threads[t].region] == 0
    requires Translate(s, s.threads[t].page).None?
    ensures var s' := Alone(s, t, n);
      Enters(s, s', t, s.threads[t].region) && s'.threads[t].pc == Alloc && s'.pool == s.pool
  {
    var s1 := Advance(s, t);
    One(s, t);
    TakesLock(s, t);
    assert Translate(s1, s1.threads[t].page).None?;
    hide Advance, Translate;
    var look := LookAlone(s1, t, Look2);
    AloneAdd(s, t, 1, look);
    n := 1 + look;
    EntersOn(s, s1, Alone(s1, t, look), t, s.threads[t].region);
  }

  lemma TakesLock(s: State, t: nat)
    requires t < |s.threads| && Fits(s, s.threads[t]) && s.threads[t].pc == TryLock && s.locks[s.threads[t].region] == 0
    ensures var s' := Advance(s, t);
      Enters(s, s', t, s.threads[t].region) && Stands(s', t, Look2) && s'.pool == s.pool
  {
  }

  /** The handler from its data frame to the missing entry. */
  lemma ToMissing(s: State, t: nat, r: nat, a: Slot, level: nat) returns (n: nat)
    requires t < |s.threads| && Fits(s, s.threads[t]) && s.threads[t].pc == Alloc && s.pool != [] && TreeOk(s)
    requires LacksAt(s.links, s.threads[t].page, a, level) && a !in s.links
    ensures var s' := Alone(s, t, n);
      Enters(s, s', t, r) && AtMissing(s', t, s.threads[t].page, a, level) && |s'.pool| + 1 == |s.pool|
  {
    var s1 := Advance(s, t);
    Takes(s, t);
    TakesFrame(s, t, r);
    var s2 := Advance(s1, t);
    Fills(s1, t);
    FillsFrame(s1, t, r);
    One(s, t);
    One(s1, t);
    AloneAdd(s, t, 1, 1);
    EntersOn(s, s1, s2, t, r);
    hide Advance;
    var down := WalkDown(s2, t, a, level);
    AloneAdd(s, t, 2, down);
    n := 2 + down;
    EntersOn(s, s2, Alone(s2, t, down), t, r);
  }

  lemma TakesFrame(s: State, t: nat, r: nat)
    requires t < |s.threads| && Fits(s, s.threads[t]) && s.threads[t].pc == Alloc && s.pool != []
    ensures Enters(s, Advance(s, t), t, r) && |Advance(s, t).pool| + 1 == |s.pool|
  {
  }

  lemma FillsFrame(s: State, t: nat, r: nat)
    requires t < |s.threads| && Fits(s, s.threads[t]) && s.threads[t].pc == Fill
    ensures Enters(s, Advance(s, t), t, r) && Advance(s, t).pool == s.pool
  {
  }

  /** The whole way from the fault to the missing entry. */
  lemma ToBuilding(s: State, t: nat, r: nat, a: Slot, level: nat) returns (n: nat)
    requires t < |s.threads| && Fits(s, s.threads[t]) && s.threads[t].pc == Find && s.pool != [] && TreeOk(s)
    requires FindRegion(s.regions, s.threads[t].page) == r < |s.regions| == |s.locks| && s.regions[r].demandPaged
    requires s.locks[r] == 0 && LacksAt(s.links, s.threads[t].page, a, level) && a !in s.links
    ensures var s' := Alone(s, t, n);
      Enters(s, s', t, r) && AtMissing(s', t, s.threads[t].page, a, level) && |s'.pool| + 1 == |s.pool|
  {
    hide TreeOk, FindRegion, Advance, Alone, Enters, AtMissing, Translate, Fits;
    Unmapped(s, s.threads[t].page, a, level);
    var x := ToLock(s, t, r);
    var s1 := Alone(s, t, x);
    EntersFacts(s, s1, t, r);
    var y := ToAlloc(s1, t);
    var s2 := Alone(s1, t, y);
    EntersFacts(s1, s2, t, r);
    EntersOn(s, s1, s2, t, r);
    var z := ToMissing(s2, t, r, a, level);
    EntersOn(s, s2, Alone(s2, t, z), t, r);
    AloneAdd(s1, t, y, z);
    AloneAdd(s, t, x, y + z);
    n := x + (y + z);
  }

  lemma Unmapped(s: State, p: VPage, a: Slot, level: nat)
    requires LacksAt(s.links, p, a, level) && a !in s.links
    ensures Translate(s, p).None?
  {
    NothingBelow(s.links, p, level, 1);
  }

  lemma EntersFacts(s: State, s1: State, t: nat, r: nat)
    requires Enters(s, s1, t, r)
    ensures t < |s.threads| == |s1.threads| && Fits(s1, s1.threads[t]) && s1.threads[t].page == s.threads[t].page
    ensures s1.links == s.links && s1.regions == s.regions && (TreeOk(s) ==> TreeOk(s1))
    ensures forall p :: Translate(s1, p) == Translate(s, p)
  {
    hide Fits;
  }

  // ----- one handler returns, the other overwrites its table -----

  lemma {:induction false} MissingBound(links: Links, p: VPage, level: nat)
    requires 1 <= level <= 4
    ensures MissingBelow(links, p, level) <= level - 1
  {
    if level > 1 { MissingBound(links, p, level - 1); }
  }

  /** Thread t has come to the end of its handler; the other threads stand where they were, and no entry has
      been taken away. */
  ghost predicate Finished(s: State, s': State, t: nat) {
    && t < |s.threads| == |s'.threads| && s'.threads == s.threads[t := s'.threads[t]]
    && s'.regions == s.regions && |s'.locks| == |s.locks| && |s'.owner| == |s.owner| && TreeOk(s')
    && forall b | b in s.links :: b in s'.links && s'.links[b] == s.links[b]
  }

  lemma InstallsInTree(s: State, t: nat)
    requires Stands(s, t, Install) && s.threads[t].level == 1 && TreeOk(s)
    ensures Finished(s, Alone(s, t, 2), t) && Returned(Alone(s, t, 2), t, s.threads[t].page, true)
  {
    WalkedMade(s, s.threads[t].page, 1);
    InstallsTwice(s, t);
    Installs(s, t);
    hide Alone, Translate, TreeOk;
  }

  lemma InstallsTwice(s: State, t: nat)
    requires Stands(s, t, Install) && TreeOk(s) && Made(s.threads[t].node, s.built)
    ensures Finished(s, Alone(s, t, 2), t)
  {
    var s1 := Advance(s, t);
    One(s, t);
    AloneAdd(s, t, 1, 1);
    One(s1, t);
    LeafStep(s, t);
    UnlockStep(s1, t);
    hide Advance, Alone;
    FinishedOn(s, s1, Advance(s1, t), t);
  }

  lemma LeafStep(s: State, t: nat)
    requires Stands(s, t, Install) && TreeOk(s) && Made(s.threads[t].node, s.built)
    ensures var s' := Advance(s, t); Finished(s, s', t) && Fits(s', s'.threads[t]) && s'.threads[t].pc == Unlock
  {
    hide Injective, NodeAt;
  }

  lemma UnlockStep(s: State, t: nat)
    requires t < |s.threads| && Fits(s, s.threads[t]) && s.threads[t].pc == Unlock && TreeOk(s)
    ensures Finished(s, Advance(s, t), t)
  {
    hide Injective, Here;
  }

  /** Thread t is at a table of its page's path, with frames for the tables below. */
  ghost predicate OnTheWay(s: State, t: nat, p: VPage) {
    && t < |s.threads| && s.threads[t].page == p && TreeOk(s) && Covered(s, s.threads[t])
    && ((Stands(s, t, Install) && s.threads[t].level == 1) || (Stands(s, t, Walk) && s.threads[t].level >= 2))
  }

  /** The first handler hangs the missing table and follows it. */
  lemma FirstTable(s: State, t: nat, p: VPage, a: Slot, level: nat)
    requires AtMissing(s, t, p, a, level) && LacksAt(s.links, p, a, level) && a !in s.links && TreeOk(s) && s.spare >= 3
    ensures Finished(s, Alone(s, t, 3), t) && OnTheWay(Alone(s, t, 3), t, p)
  {
    var sb := At(s, t, s.threads[t].(pc := Walk));
    assert s == At(sb, t, sb.threads[t].(pc := Grab)) by { Rearmed(s, t); }
    Grabbed(sb, t);
    ThreeAlone(s, t);
    hide Advance, Alone;
    assert Stands(sb, t, Walk) && TreeOk(sb);
    HungTree(sb, t);
    MissingBound(s.links, p, level);
    assert Covered(sb, sb.threads[t]) by { hide TreeOk; }
    hide TreeOk, Hung, Covered, NodeAt;
  }

  lemma Rearmed(s: State, t: nat)
    requires t < |s.threads| && s.threads[t].pc == Grab
    ensures var sb := At(s, t, s.threads[t].(pc := Walk)); s == At(sb, t, sb.threads[t].(pc := Grab))
  {
    var sb := At(s, t, s.threads[t].(pc := Walk));
    assert sb.threads[t := sb.threads[t].(pc := Grab)] == s.threads;
  }

  lemma FinishedOn(s: State, s1: State, s2: State, t: nat)
    requires Finished(s, s1, t) && Finished(s1, s2, t)
    ensures Finished(s, s2, t)
  {
    hide TreeOk;
  }

  lemma EndedWalk(s: State, s1: State, t: nat)
    requires Walks(s, s1, t) && TreeOk(s1) && Ends(s1, t, true)
    ensures Finished(s, s1, t) && Stands(s1, t, Install) && s1.threads[t].level == 1
    ensures s1.threads[t].page == s.threads[t].page
  {
    hide TreeOk, NodeAt;
  }

  /** From the table below, through the rest of the walk, to the end. */
  lemma RestOfWalk(s: State, t: nat, p: VPage) returns (n: nat)
    requires OnTheWay(s, t, p)
    ensures Finished(s, Alone(s, t, n), t) && Returned(Alone(s, t, n), t, p, true)
  {
    hide Alone, Stands, TreeOk, Covered, Returned, Walks, Ends;
    var x := 0;
    if s.threads[t].level != 1 {
      x := WalkAlone(s, t);
      EndedWalk(s, Alone(s, t, x), t);
    } else {
      Nowhere(s, t);
    }
    InstallsAfter(s, Alone(s, t, x), t, x, p);
    n := x + 2;
  }

  lemma Nowhere(s: State, t: nat)
    requires t < |s.threads| && TreeOk(s) && Stands(s, t, Install)
    ensures Alone(s, t, 0) == s && Finished(s, s, t)
  {
    hide TreeOk, Stands, Advance;
    assert s.threads[t := s.threads[t]] == s.threads;
  }

  lemma InstallsAfter(s: State, s1: State, t: nat, x: nat, p: VPage)
    requires s1 == Alone(s, t, x) && Finished(s, s1, t) && Stands(s1, t, Install) && s1.threads[t].level == 1
    requires s1.threads[t].page == p
    ensures Finished(s, Alone(s, t, x + 2), t) && Returned(Alone(s, t, x + 2), t, p, true)
  {
    hide Alone, Stands, Returned;
    InstallsInTree(s1, t);
    FinishedOn(s, s1, Alone(s1, t, 2), t);
    AloneAdd(s, t, x, 2);
  }

  /** With frames for its tables the first handler maps its page and returns 0. */
  lemma Completes(s: State, t: nat, p: VPage, a: Slot, level: nat) returns (n: nat)
    requires AtMissing(s, t, p, a, level) && LacksAt(s.links, p, a, level) && a !in s.links && TreeOk(s) && s.spare >= 3
    ensures Finished(s, Alone(s, t, n), t) && Returned(Alone(s, t, n), t, p, true)
  {
    hide *;
    FirstTable(s, t, p, a, level);
    var x := RestOfWalk(Alone(s, t, 3), t, p);
    FinishedOn(s, Alone(s, t, 3), Alone(Alone(s, t, 3), t, x), t);
    AloneAdd(s, t, 3, x);
    n := 3 + x;
  }

  lemma ThreeAlone(s: State, t: nat)
    requires t < |s.threads|
    ensures |Advance(s, t).threads| == |Advance(Advance(s, t), t).threads| == |s.threads|
    ensures Alone(s, t, 3) == Advance(Advance(Advance(s, t), t), t)
  {
    AdvanceThreads(s, t);
    AdvanceThreads(Advance(s, t), t);
    One(Advance(Advance(s, t), t), t);
    hide Advance;
    assert Alone(s, t, 3) == Alone(Advance(s, t), t, 2) == Alone(Advance(Advance(s, t), t), t, 1);
  }

  /** Entries that stay keep the paths through them. */
  lemma {:induction false} PathKept(links: Links, links': Links, p: VPage, level: nat)
    requires level <= 4 && NodeAt(links, p, level).Some?
    requires forall b | b in links :: b in links' && links'[b] == links[b]
    ensures NodeAt(links', p, level) == NodeAt(links, p, level)
    decreases 4 - level
  {
    if level < 4 { PathKept(links, links', p, level + 1); }
  }

  /** A page below an entry that leads to a fresh table is not mapped. */
  lemma CutOff(links: Links, leaves: Leaves, a: Slot, id: nat, p: VPage, level: nat)
    requires 2 <= level <= 4 && NodeAt(links[a := id], p, level) == Some(a.node) && SlotAt(a.node, p, level) == a
    requires a.node != Table(id) && (forall b | b in links :: b.node != Table(id))
    requires forall b | b in leaves :: b.node != Table(id)
    ensures Lookup(links[a := id], leaves, p).None?
  {
    assert NodeAt(links[a := id], p, level - 1) == Some(Table(id));
    if level > 2 { NothingBelow(links[a := id], p, level - 1, 1); }
  }

  /** The second handler hangs its own table over the first one's. */
  lemma Overwrites(s: State, u: nat, q: VPage, a: Slot, k: nat, links: Links, p: VPage, level: nat)
    requires AtMissing(s, u, q, a, k) && TreeOk(s) && s.spare > 0
    requires LacksAt(links, p, a, level) && a !in links
    requires forall b | b in links :: b in s.links && s.links[b] == links[b]
    ensures Translate(Alone(s, u, 2), p).None?
  {
    var s1, s2 := Advance(s, u), Advance(Advance(s, u), u);
    One(s, u);
    One(s1, u);
    AloneAdd(s, u, 1, 1);
    assert s2.links == s.links[a := s.built] && s2.leaves == s.leaves by { Hangs(s, u, q, a, k); }
    hide Advance, AtMissing;
    PathKept(links, s.links, p, level);
    WalkedMade(s, p, level);
    PathKept(links, s2.links, p, level);
    CutOff(s.links, s.leaves, a, s.built, p, level);
  }

  lemma Hangs(s: State, u: nat, q: VPage, a: Slot, k: nat)
    requires AtMissing(s, u, q, a, k) && s.spare > 0
    ensures |Advance(s, u).threads| == |s.threads|
    ensures var s2 := Advance(Advance(s, u), u); s2.links == s.links[a := s.built] && s2.leaves == s.leaves
  {
  }

  // ----- the run -----

  lemma {:induction false} NumberNotIn(used: set<nat>) returns (n: nat)
    ensures forall x | x in used :: x < n
  {
    n := 0;
    if used != {} {
      var x :| x in used;
      var m := NumberNotIn(used - {x});
      n := if x < m then m else x + 1;
      forall y | y in used ensures y < n { assert y == x || y in used - {x}; }
    }
  }

  /** Handlers and page tables are as before; there are frames for both handlers and their tables. */
  ghost predicate Supplied(s: State, s': State) {
    && s'.threads == s.threads && s'.regions == s.regions && s'.locks == s.locks && s'.links == s.links
    && Inv(s') && |s'.pool| >= 2 && s'.spare >= 4
  }

  /** Other parts of the kernel give frames. */
  lemma Supply(s: State) returns (es: seq<Event>)
    requires Inv(s)
    ensures Supplied(s, After(s, es))
  {
    var f := NumberNotIn(s.role.Keys);
    var s1, s2 := Next(s, Give(f)), Next(Next(s, Give(f)), Give(f + 1));
    assert s1 == s.(pool := [f] + s.pool, role := s.role[f := Pooled]);
    assert s2 == s1.(pool := [f + 1] + s1.pool, role := s1.role[f + 1 := Pooled]);
    EventKeeps(s, Give(f));
    EventKeeps(s1, Give(f + 1));
    Once(s, Give(f));
    Once(s1, Give(f + 1));
    AfterAppend(s, [Give(f)], [Give(f + 1)]);
    hide Inv, After, Next;
    var more := GiveFrames(s2, 4);
    AfterAppend(s, [Give(f)] + [Give(f + 1)], more);
    es := [Give(f)] + [Give(f + 1)] + more;
  }

  lemma {:induction false} GiveFrames(s: State, n: nat) returns (es: seq<Event>)
    requires Inv(s)
    ensures After(s, es) == s.(spare := s.spare + n) && Inv(After(s, es))
    decreases n
  {
    es := [];
    if n > 0 {
      var s1 := s.(spare := s.spare + 1);
      assert Next(s, GiveSpare) == s1;
      EventKeeps(s, GiveSpare);
      hide Inv, Next;
      var more := GiveFrames(s1, n - 1);
      AfterAppend(s, [GiveSpare], more);
      Once(s, GiveSpare);
      es := [GiveSpare] + more;
    }
  }

  /** A fault on an idle thread brings it to the missing entry. */
  lemma Faults(s: State, t: nat, p: VPage, a: Slot, level: nat) returns (es: seq<Event>)
    requires t < |s.threads| && |s.locks| == |s.owner| == |s.regions| && s.threads[t].pc in {Idle, Done}
    requires WalkTree.Aligned(p) && s.pool != [] && TreeOk(s) && LacksAt(s.links, p, a, level) && a !in s.links
    requires var r := FindRegion(s.regions, p); r < |s.regions| && s.regions[r].demandPaged && s.locks[r] == 0
    ensures var s' := After(s, es);
      Enters(s.(threads := s'.threads), s', t, FindRegion(s.regions, p)) && AtMissing(s', t, p, a, level)
      && |s'.pool| + 1 == |s.pool| && |s'.threads| == |s.threads| && s'.threads == s.threads[t := s'.threads[t]]
  {
    var e := Begin(t, p.root, p.addr);
    var s1 := Next(s, e);
    Once(s, e);
    assert s1 == At(s, t, NewFault(p.root, p.addr)) && s1.threads[t].page == p;
    var n := ToBuilding(s1, t, FindRegion(s.regions, p), a, level);
    AloneRuns(s1, t, n);
    es := [e] + Runs(t, n);
    AfterAppend(s, [e], Runs(t, n));
    hide TreeOk, FindRegion, Translate, AtMissing;
  }

  /** The state in which both handlers have found the table missing. */
  ghost predicate BothMissing(s: State, p: VPage, q: VPage, a: Slot, level: nat, k: nat) {
    && AtMissing(s, 0, p, a, level) && AtMissing(s, 1, q, a, k) && TreeOk(s) && s.spare >= 4
    && LacksAt(s.links, p, a, level) && LacksAt(s.links, q, a, k) && a !in s.links
  }

  /** Both handlers come to the missing entry: they hold the locks of different regions. */
  lemma BothArrive(s: State, p: VPage, q: VPage, a: Slot, level: nat, k: nat) returns (es: seq<Event>)
    requires Inv(s) && AllRest(s) && |s.threads| >= 2 && Contend(s, p, q, a)
    requires LacksAt(s.links, p, a, level) && LacksAt(s.links, q, a, k)
    ensures BothMissing(After(s, es), p, q, a, level, k)
  {
    var x := Supply(s);
    var s1 := After(s, x);
    LocksFree(s1);
    var r, j := FindRegion(s1.regions, p), FindRegion(s1.regions, q);
    assert a !in s1.links && TreeOk(s1);
    hide TreeOk, FindRegion, LacksAt, Inv;
    var y := Faults(s1, 0, p, a, level);
    var s2 := After(s1, y);
    StillFree(s1, s2, r, j, p, a, level);
    var z := Faults(s2, 1, q, a, k);
    var s3 := After(s2, z);
    StillThere(s2, s3, j, p, a, level);
    AfterAppend(s1, y, z);
    AfterAppend(s, x, y + z);
    es := x + (y + z);
  }

  lemma LocksFree(s: State)
    requires LocksOk(s) && AllRest(s)
    ensures forall r | 0 <= r < |s.locks| :: s.locks[r] == 0
  {
    forall r: nat | r < |s.locks| ensures s.locks[r] == 0 { assert LockOk(s, r); }
  }

  /** The first handler leaves the second region and the page tables alone. */
  lemma StillFree(s: State, s': State, r: nat, j: nat, p: VPage, a: Slot, level: nat)
    requires |s.threads| >= 2 && |s'.threads| == |s.threads| && s'.threads == s.threads[0 := s'.threads[0]]
    requires Enters(s.(threads := s'.threads), s', 0, r) && AtMissing(s', 0, p, a, level) && |s'.pool| + 1 == |s.pool|
    requires TreeOk(s) && r != j && j < |s.locks| == |s.owner| == |s.regions| && s.locks[j] == 0 && |s.pool| >= 2
    ensures TreeOk(s') && s'.links == s.links && s'.regions == s.regions && s'.spare == s.spare && s'.pool != []
    ensures |s'.locks| == |s'.owner| == |s'.regions| && s'.locks[j] == 0 && s'.threads[1] == s.threads[1]
  {
    hide AtMissing;
  }

  /** The second handler leaves the first one where it is. */
  lemma StillThere(s: State, s': State, j: nat, p: VPage, a: Slot, level: nat)
    requires |s.threads| >= 2 && |s'.threads| == |s.threads| && s'.threads == s.threads[1 := s'.threads[1]]
    requires Enters(s.(threads := s'.threads), s', 1, j) && AtMissing(s, 0, p, a, level) && TreeOk(s)
    ensures TreeOk(s') && s'.links == s.links && s'.spare == s.spare && AtMissing(s', 0, p, a, level)
  {
  }

  /** A page that translates after the first run and no longer after the second. */
  ghost predicate Lost(s: State, es: seq<Event>, more: seq<Event>, p: VPage) {
    && WalkTree.Aligned(p) && Translate(After(s, es), p).Some? && Translate(After(After(s, es), more), p).None?
  }

  /** From there the first handler returns 0 with its page mapped; then the second hangs its own table over the
      first one's, and the page is gone, although neither lacked a frame. */
  lemma FromBoth(s: State, p: VPage, q: VPage, a: Slot, level: nat, k: nat) returns (es: seq<Event>, more: seq<Event>)
    requires BothMissing(s, p, q, a, level, k) && WalkTree.Aligned(p)
    ensures Returned(After(s, es), 0, p, true) && Lost(s, es, more, p)
  {
    var n := Completes(s, 0, p, a, level);
    AloneRuns(s, 0, n);
    var s1 := Alone(s, 0, n);
    es := Runs(0, n);
    var s2 := Next(s1, GiveSpare);
    Once(s1, GiveSpare);
    Kept(s, s1, q, a, k);
    hide TreeOk, Translate, AtMissing;
    Overwrites(s2, 1, q, a, k, s.links, p, level);
    AloneRuns(s2, 1, 2);
    more := [GiveSpare] + Runs(1, 2);
    AfterAppend(s1, [GiveSpare], Runs(1, 2));
  }

  lemma Kept(s: State, s1: State, q: VPage, a: Slot, k: nat)
    requires Finished(s, s1, 0) && AtMissing(s, 1, q, a, k)
    ensures var s2 := Next(s1, GiveSpare);
      && AtMissing(s2, 1, q, a, k) && TreeOk(s2) && s2.spare > 0 && s2.links == s1.links
  {
  }

  /** Two pages of different regions that lack one table, and two idle threads: a run exists in which one
      handler returns 0 with its page mapped and the other takes the translation back. */
  lemma TakenBack(s: State, p: VPage, q: VPage, a: Slot) returns (es: seq<Event>, more: seq<Event>)
    requires Inv(s) && AllRest(s) && |s.threads| >= 2 && Contend(s, p, q, a)
    ensures Returned(After(s, es), 0, p, true) && Lost(s, es, more, p)
  {
    var level: nat :| LacksAt(s.links, p, a, level);
    var k: nat :| LacksAt(s.links, q, a, k);
    var x := BothArrive(s, p, q, a, level, k);
    hide BothMissing, Inv;
    var y, z := FromBoth(After(s, x), p, q, a, level, k);
    AfterAppend(s, x, y);
    es, more := x + y, z;
  }

  /** Every translation lasts over every run if and only if there are fewer than two threads, or no two pages
      of different demand-paged regions lack one page table. */
  lemma LastingOnlyApart(s: State)
    requires Inv(s) && AllRest(s)
    ensures Lasting(s) <==> |s.threads| < 2 || !Contended(s)
  {
    if |s.threads| < 2 || !Contended(s) {
      UncontendedLasts(s);
    } else {
      var p, q, a :| Contend(s, p, q, a);
      var es, more := TakenBack(s, p, q, a);
      hide Inv, AllRest, Contended, Translate, After;
    }
  }

  /** Two neighbouring regions of a fresh address space, two threads: the pages on both sides of the border
      lack the same tables. */
  lemma TwoRegionsExample(frames: seq<nat>, spare: nat)
    requires forall i, j | 0 <= i < j < |frames| :: frames[i] != frames[j]
    ensures !Lasting(Start([Region(1, 0, 4096, true, false), Region(1, 4096, 8192, true, false)], 2, frames, spare))
  {
    hide Inv, Lasting;
    var regions := [Region(1, 0, 4096, true, false), Region(1, 4096, 8192, true, false)];
    var s := Start(regions, 2, frames, spare);
    var p, q, a := VPage(1, 0), VPage(1, 4096), Slot(Root(1), 0);
    StartSound(regions, 2, frames, spare);
    assert !Contains(regions[0], q) && Contains(regions[1], q) && Contains(regions[0], p);
    assert FindRegion(regions, p) == 0 && FindRegion(regions, q) == 1;
    assert LacksAt(s.links, p, a, 4) && LacksAt(s.links, q, a, 4);
    assert Contend(s, p, q, a);
    LastingOnlyApart(s);
  }
}
