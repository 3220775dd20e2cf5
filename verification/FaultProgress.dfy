/** Locks and progress of the fault handlers, over every run: nothing here depends on who builds which
    table. */
module FaultProgress {
  import opened Common
  import opened WalkTree
  import opened FaultProtocol

  /** The walk of a handler has a level to be at, and the entry it has written is there. */
  ghost predicate LevelOk(s: State, th: Thread) {
    && (th.pc in {Look1, Look2} ==> 1 <= th.level <= 4)
    && (th.pc in {Walk, Grab, Hang, Reread} ==> 2 <= th.level <= 4)
    && (th.pc == Reread ==> Here(th) in s.links)
  }

  ghost predicate Orderly(s: State) {
    && LocksOk(s)
    && (forall t: nat | t < |s.threads| :: LockSide(s, t) && LevelOk(s, s.threads[t]))
  }

  lemma InvIsOrderly(s: State)
    requires Inv(s)
    ensures Orderly(s)
  {
    forall t: nat | t < |s.threads| ensures LockSide(s, t) && LevelOk(s, s.threads[t]) { assert ThreadOk(s, t); }
  }

  // ----- every event keeps it -----

  lemma LockSideStays(s: State, s': State, t: nat, u: nat)
    requires t < |s.threads| == |s'.threads| && s'.threads == s.threads[t := s'.threads[t]] && s'.regions == s.regions
    requires |s'.locks| == |s.locks| && |s'.owner| == |s.owner| && s'.links.Keys >= s.links.Keys
    requires forall r: nat | r < |s.owner| :: s'.owner[r] == s.owner[r] || (s.owner[r] != u && s'.owner[r] != u)
    requires u < |s.threads| && u != t && LockSide(s, u) && LevelOk(s, s.threads[u])
    ensures LockSide(s', u) && LevelOk(s', s'.threads[u])
  {
    hide FindRegion, SlotAt;
  }

  lemma AdvanceShared(s: State, t: nat)
    requires t < |s.threads|
    ensures var s' := Advance(s, t);
      s'.regions == s.regions && |s'.locks| == |s.locks| && |s'.owner| == |s.owner| && s'.links.Keys >= s.links.Keys
  {
    hide Moved, Here;
    match s.threads[t].pc {
      case TryLock => case Alloc => case Fill => case Grab => case Hang => case Install => case Unlock => case _ =>
    }
  }

  /** The region and the part of the handler that thread t is in afterwards. */
  lemma SelfLocks(s: State, t: nat)
    requires LocksOk(s) && t < |s.threads| && LockSide(s, t)
    ensures var s' := Advance(s, t); t < |s'.threads| && LockSide(s', t)
  {
    AdvanceThreads(s, t);
    var th := s.threads[t];
    if th.pc == Find {
      FindLocks(s, t);
    } else if th.pc == TryLock || th.pc == Unlock {
      hide FindRegion;
    } else {
      NoLock(s, t);
      SameRegion(s, t);
      hide Advance, Moved, FindRegion;
    }
  }

  lemma FindLocks(s: State, t: nat)
    requires LocksOk(s) && t < |s.threads| && LockSide(s, t) && s.threads[t].pc == Find
    ensures var s' := Advance(s, t); t < |s'.threads| && LockSide(s', t)
  {
    var i := FindRegion(s.regions, s.threads[t].page);
    if i < |s.regions| { assert LockOk(s, i); }
    hide FindFrom, LockOk;
  }

  lemma SameRegion(s: State, t: nat)
    requires t < |s.threads| && Fits(s, s.threads[t]) && s.threads[t].pc != Find
    ensures var th, th' := s.threads[t], Moved(s, s.threads[t]);
      th'.page == th.page && th'.region == th.region && (InRegion(th') ==> InRegion(th))
  {
    hide Here;
  }

  lemma SelfLevel(s: State, t: nat)
    requires t < |s.threads| && Fits(s, s.threads[t]) && LevelOk(s, s.threads[t])
    ensures var s' := Advance(s, t); t < |s'.threads| && LevelOk(s', s'.threads[t])
  {
    AdvanceThreads(s, t);
    AdvanceShared(s, t);
    MovedLevel(s, s.threads[t]);
    if s.threads[t].pc == Hang { WrittenThere(s, t); }
    hide Advance, Moved, Here;
  }

  lemma MovedLevel(s: State, th: Thread)
    requires Fits(s, th) && LevelOk(s, th)
    ensures var th' := Moved(s, th);
      && (th'.pc in {Look1, Look2} ==> 1 <= th'.level <= 4)
      && (th'.pc in {Walk, Grab, Hang, Reread} ==> 2 <= th'.level <= 4)
      && (th'.pc == Reread ==> Here(th') == Here(th) && th.pc == Hang)
  {
    hide SlotAt, FindRegion;
  }

  lemma WrittenThere(s: State, t: nat)
    requires t < |s.threads| && Fits(s, s.threads[t]) && s.threads[t].pc == Hang
    ensures Here(s.threads[t]) in Advance(s, t).links
  {
  }

  lemma AdvanceLocks(s: State, t: nat)
    requires LocksOk(s) && t < |s.threads| && LockSide(s, t)
    ensures LocksOk(Advance(s, t))
  {
    var th, s' := s.threads[t], Advance(s, t);
    AdvanceThreads(s, t);
    if th.pc == TryLock && s.locks[th.region] == 0 {
      AcquireLocks(s, t);
    } else if th.pc == Unlock {
      UnlockLocks(s, t);
    } else {
      NoLock(s, t);
      LocksStay(s, s', t);
    }
  }

  lemma NoLock(s: State, t: nat)
    requires t < |s.threads| && LockSide(s, t) && s.threads[t].pc != Unlock
    requires s.threads[t].pc == TryLock ==> s.locks[s.threads[t].region] != 0
    ensures var s', th := Advance(s, t), s.threads[t];
      && s'.regions == s.regions && s'.locks == s.locks && s'.owner == s.owner && |s'.threads| == |s.threads|
      && InCritical(s'.threads[t]) == InCritical(th) && (InCritical(th) ==> s'.threads[t].region == th.region)
  {
    AdvanceThreads(s, t);
    SameCritical(s, s.threads[t]);
    hide Moved, Here, FindRegion;
  }

  lemma SameCritical(s: State, th: Thread)
    requires Fits(s, th) && th.pc != Unlock && (th.pc == TryLock ==> s.locks[th.region] != 0)
    ensures InCritical(Moved(s, th)) == InCritical(th) && (InCritical(th) ==> Moved(s, th).region == th.region)
  {
    hide Here, FindRegion;
  }

  /** Every event keeps locks and walks in order, whoever builds what. */
  lemma EventOrderly(s: State, e: Event)
    requires Orderly(s)
    ensures Orderly(Next(s, e)) && |Next(s, e).threads| == |s.threads|
  {
    var s' := Next(s, e);
    if e.Run? && e.thread < |s.threads| {
      RunOrderly(s, e.thread);
    } else if e.Begin? && e.thread < |s.threads| {
      BeginOrderly(s, e.thread, e.root, e.virt);
    } else {
      assert s' == s.(pool := s'.pool, role := s'.role, zeroed := s'.zeroed, spare := s'.spare);
      hide Next, FindRegion, Here;
      forall r: nat | r < |s.regions| ensures LockOk(s', r) { assert LockOk(s, r); }
    }
  }

  lemma RunOrderly(s: State, t: nat)
    requires Orderly(s) && t < |s.threads|
    ensures Orderly(Advance(s, t)) && |Advance(s, t).threads| == |s.threads|
  {
    var s' := Advance(s, t);
    AdvanceThreads(s, t);
    AdvanceShared(s, t);
    AdvanceLocks(s, t);
    SelfLocks(s, t);
    SelfLevel(s, t);
    hide Advance, LockSide, LevelOk, LocksOk;
    forall u: nat | u < |s.threads| ensures LockSide(s', u) && LevelOk(s', s'.threads[u]) {
      if u != t {
        OwnerMoves(s, t, u);
        LockSideStays(s, s', t, u);
      }
    }
  }

  lemma OwnerMoves(s: State, t: nat, u: nat)
    requires LocksOk(s) && t < |s.threads| && LockSide(s, t) && u != t
    ensures var s' := Advance(s, t);
      |s'.owner| == |s.owner| &&
      forall r: nat | r < |s.owner| :: s'.owner[r] == s.owner[r] || (s.owner[r] != u && s'.owner[r] != u)
  {
    var th := s.threads[t];
    if th.pc == TryLock { assert LockOk(s, th.region); }
    if th.pc != Unlock && !(th.pc == TryLock && s.locks[th.region] == 0) { NoLock(s, t); }
  }

  lemma BeginOrderly(s: State, t: nat, root: nat, virt: nat)
    requires Orderly(s) && t < |s.threads|
    ensures Orderly(Next(s, Begin(t, root, virt))) && |Next(s, Begin(t, root, virt)).threads| == |s.threads|
  {
    var s' := Next(s, Begin(t, root, virt));
    if s.threads[t].pc in {Idle, Done} && virt < 0x1_0000_0000_0000 {
      assert s' == At(s, t, NewFault(root, virt));
      hide Next;
      LocksStay(s, s', t);
      hide LockSide, LevelOk, LocksOk;
      forall u: nat | u < |s.threads| ensures LockSide(s', u) && LevelOk(s', s'.threads[u]) {
        if u != t { LockSideStays(s, s', t, u); } else { NewOrderly(s, t, root, virt); }
      }
    }
  }

  lemma NewOrderly(s: State, t: nat, root: nat, virt: nat)
    requires t < |s.threads| && LockSide(s, t)
    ensures var s' := At(s, t, NewFault(root, virt)); LockSide(s', t) && LevelOk(s', s'.threads[t])
  {
  }

  lemma {:induction false} RunsOrderly(s: State, es: seq<Event>)
    requires Orderly(s)
    ensures Orderly(After(s, es)) && |After(s, es).threads| == |s.threads|
    decreases |es|
  {
    if es != [] {
      EventOrderly(s, es[0]);
      RunsOrderly(Next(s, es[0]), es[1..]);
    }
  }

  /** Over every run two threads are never in the critical section of one region. */
  lemma MutualExclusion(s: State, es: seq<Event>, t: nat, u: nat)
    requires Orderly(s) && t < |s.threads| && u < |s.threads| && t != u
    ensures var s' := After(s, es);
      && t < |s'.threads| && u < |s'.threads|
      && !(InCritical(s'.threads[t]) && InCritical(s'.threads[u]) && s'.threads[t].region == s'.threads[u].region)
  {
    RunsOrderly(s, es);
    assert LockSide(After(s, es), t) && LockSide(After(s, es), u);
  }

  // ----- progress -----

  predicate Active(th: Thread) {
    th.pc !in {Idle, Done}
  }

  /** The lock that the thread is after is held. */
  predicate Blocked(s: State, th: Thread) {
    th.pc in {TryLock, Spin} && th.region < |s.locks| && s.locks[th.region] != 0
  }

  /** The thread is spinning, or about to fail to take a lock. */
  predicate Waits(s: State, th: Thread) {
    th.pc == Spin || Blocked(s, th)
  }

  /** How many accesses a handler has left at most, apart from those it spends waiting. */
  function Work(th: Thread): nat {
    match th.pc
    case Idle => 0
    case Done => 0
    case Find => 33
    case Look1 => 28 + th.level
    case TryLock => 28
    case Spin => 28
    case Look2 => 23 + th.level
    case Alloc => 23
    case Fill => 22
    case Walk => 4 * th.level + 5
    case Grab => 4 * th.level + 4
    case Hang => 4 * th.level + 3
    case Reread => 4 * th.level + 2
    case Install => 9
    case Unlock => 1
  }

  /** An access that is not spent waiting leaves less work; one that is leaves as much. */
  lemma WorkFalls(s: State, th: Thread)
    requires Fits(s, th) && LevelOk(s, th)
    ensures Active(th) && !Waits(s, th) ==> Work(Moved(s, th)) < Work(th)
    ensures !Active(th) || Waits(s, th) ==> Work(Moved(s, th)) == Work(th)
  {
    hide SlotAt, FindRegion;
  }

  function TotalWork(threads: seq<Thread>): nat {
    if threads == [] then 0 else TotalWork(threads[..|threads| - 1]) + Work(threads[|threads| - 1])
  }

  lemma {:induction false} TotalUpdate(threads: seq<Thread>, t: nat, th: Thread)
    requires t < |threads|
    ensures TotalWork(threads[t := th]) + Work(threads[t]) == TotalWork(threads) + Work(th)
  {
    hide Work;
    var n := |threads| - 1;
    if t < n {
      TotalUpdate(threads[..n], t, th);
      assert threads[t := th][..n] == threads[..n][t := th];
    } else {
      assert threads[t := th][..n] == threads[..n];
    }
  }

  /** The threads named make one access each, in turn. */
  function Steps(s: State, picks: seq<nat>): State
    decreases |picks|
  {
    if picks == [] then s else Steps(Next(s, Run(picks[0])), picks[1..])
  }

  /** How many of these accesses are not spent waiting. */
  function Useful(s: State, picks: seq<nat>): nat
    decreases |picks|
  {
    if picks == [] then 0 else
      Useful(Next(s, Run(picks[0])), picks[1..]) +
      if picks[0] < |s.threads| && Active(s.threads[picks[0]]) && !Waits(s, s.threads[picks[0]]) then 1 else 0
  }

  lemma StepWork(s: State, t: nat)
    requires Orderly(s) && t < |s.threads|
    ensures TotalWork(Advance(s, t).threads) + Work(s.threads[t]) == TotalWork(s.threads) + Work(Moved(s, s.threads[t]))
    ensures Fits(s, s.threads[t]) && LevelOk(s, s.threads[t])
  {
    assert LockSide(s, t);
    AdvanceThreads(s, t);
    TotalUpdate(s.threads, t, Moved(s, s.threads[t]));
  }

  /** Without new faults, every run spends at most the work of its handlers on accesses other than waiting. */
  lemma {:induction false} WorkBound(s: State, picks: seq<nat>)
    requires Orderly(s)
    ensures Useful(s, picks) + TotalWork(Steps(s, picks).threads) <= TotalWork(s.threads)
    decreases |picks|
  {
    if picks != [] {
      EventOrderly(s, Run(picks[0]));
      if picks[0] < |s.threads| {
        StepWork(s, picks[0]);
        WorkFalls(s, s.threads[picks[0]]);
      }
      hide Orderly, Advance, Moved, Work, Waits;
      WorkBound(Next(s, Run(picks[0])), picks[1..]);
    }
  }

  /** As long as some handler has not returned, there is one that does not wait for a held lock: a waiting
      one waits for a thread in the critical section. */
  lemma Progress(s: State, t: nat) returns (u: nat)
    requires Orderly(s) && t < |s.threads| && Active(s.threads[t])
    ensures u < |s.threads| && Active(s.threads[u]) && !Blocked(s, s.threads[u])
  {
    u := t;
    if Blocked(s, s.threads[t]) {
      assert LockSide(s, t);
      assert LockOk(s, s.threads[t].region);
      u := s.owner[s.threads[t].region];
    }
  }

  /** Such a handler leaves less work after at most two accesses: a spinning one first sees the lock free and
      then takes it. */
  lemma Proceeds(s: State, u: nat) returns (picks: seq<nat>)
    requires Orderly(s) && u < |s.threads| && Active(s.threads[u]) && !Blocked(s, s.threads[u])
    ensures Orderly(Steps(s, picks)) && TotalWork(Steps(s, picks).threads) < TotalWork(s.threads)
  {
    var s1 := Next(s, Run(u));
    EventOrderly(s, Run(u));
    StepWork(s, u);
    WorkFalls(s, s.threads[u]);
    picks := [u];
    assert Steps(s, [u]) == s1 by { assert [u][1..] == []; }
    if s.threads[u].pc == Spin {
      Released(s, u);
      EventOrderly(s1, Run(u));
      StepWork(s1, u);
      WorkFalls(s1, s1.threads[u]);
      picks := [u, u];
      assert [u, u] == [u] + [u];
      StepsAppend(s, [u], [u]);
      assert Steps(s1, [u]) == Next(s1, Run(u)) by { assert [u][1..] == []; }
    }
  }

  lemma Released(s: State, u: nat)
    requires u < |s.threads| && Fits(s, s.threads[u]) && s.threads[u].pc == Spin && !Blocked(s, s.threads[u])
    ensures var s' := Advance(s, u);
      u < |s'.threads| && s'.threads[u].pc == TryLock && !Waits(s', s'.threads[u])
  {
  }

  lemma {:induction false} StepsAppend(s: State, a: seq<nat>, b: seq<nat>)
    ensures Steps(s, a + b) == Steps(Steps(s, a), b)
    decreases |a|
  {
    if a == [] {
      assert a + b == b;
    } else {
      assert (a + b)[1..] == a[1..] + b;
      StepsAppend(Next(s, Run(a[0])), a[1..], b);
    }
  }

  /** From every state the handlers can all return. */
  lemma {:induction false} AllReturn(s: State) returns (picks: seq<nat>)
    requires Orderly(s)
    ensures forall t | 0 <= t < |Steps(s, picks).threads| :: !Active(Steps(s, picks).threads[t])
    decreases TotalWork(s.threads)
  {
    picks := [];
    if t: nat :| t < |s.threads| && Active(s.threads[t]) {
      var u := Progress(s, t);
      var first := Proceeds(s, u);
      var rest := AllReturn(Steps(s, first));
      picks := first + rest;
      StepsAppend(s, first, rest);
    }
  }
}
