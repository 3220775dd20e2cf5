/** A fault handler that is not disturbed: what it returns, and whether its page is mapped then. */
module FaultOutcome {
  import opened Common
  import opened WalkTree
  import opened FaultProtocol

  /** Thread t makes n accesses while the others rest. */
  function Alone(s: State, t: nat, n: nat): State
    decreases n
  {
    if n == 0 || t >= |s.threads| then s else Alone(Advance(s, t), t, n - 1)
  }

  lemma {:induction false} AloneAdd(s: State, t: nat, a: nat, b: nat)
    ensures Alone(s, t, a + b) == Alone(Alone(s, t, a), t, b)
    decreases a
  {
    hide Advance;
    if a > 0 && t < |s.threads| { AloneAdd(Advance(s, t), t, a - 1, b); }
  }

  lemma One(s: State, t: nat)
    requires t < |s.threads|
    ensures Alone(s, t, 1) == Advance(s, t)
  {
    assert Alone(Advance(s, t), t, 0) == Advance(s, t);
  }

  /** Thread t stands at the table of its level on the path of its page. */
  ghost predicate Stands(s: State, t: nat, pc: Pc) {
    && t < |s.threads| && Fits(s, s.threads[t]) && s.threads[t].pc == pc && 1 <= s.threads[t].level <= 4
    && NodeAt(s.links, s.threads[t].page, s.threads[t].level) == Some(s.threads[t].node)
  }

  /** Nothing but thread t has changed, and it is at pc with its page, region and frame. */
  ghost predicate Reaches(s: State, s': State, t: nat, pc: Pc) {
    && t < |s.threads| == |s'.threads| && s' == At(s, t, s'.threads[t])
    && s'.threads[t].pc == pc && s'.threads[t].page == s.threads[t].page && s'.threads[t].region == s.threads[t].region
    && s'.threads[t].frame == s.threads[t].frame && s'.threads[t].lost == s.threads[t].lost
  }

  /** A check of an unmapped page finds it unmapped. */
  lemma {:induction false} LookAlone(s: State, t: nat, pc: Pc) returns (n: nat)
    requires pc in {Look1, Look2} && Stands(s, t, pc) && Translate(s, s.threads[t].page).None?
    ensures Reaches(s, Alone(s, t, n), t, if pc == Look1 then TryLock else Alloc)
    decreases if t < |s.threads| then s.threads[t].level else 0
  {
    var th, s1 := s.threads[t], Advance(s, t);
    One(s, t);
    n := 1;
    if th.level > 1 && Here(th) in s.links {
      var more := LookAlone(s1, t, pc);
      n := 1 + more;
      AloneAdd(s, t, 1, more);
    }
  }

  /** What the walk may change. */
  ghost predicate Walks(s: State, s': State, t: nat) {
    && t < |s.threads| == |s'.threads| && Fits(s', s'.threads[t]) && s'.threads == s.threads[t := s'.threads[t]]
    && (forall a | a in s.links :: a in s'.links && s'.links[a] == s.links[a])
    && s' == s.(
      threads := s'.threads, links := s'.links, spare := s'.spare,
      built := s'.built, role := s'.role, leaks := s'.leaks)
    && s'.threads[t].page == s.threads[t].page && s'.threads[t].frame == s.threads[t].frame
    && s'.threads[t].region == s.threads[t].region
  }

  /** The walk has reached the leaf table, or has come to its end without one. */
  ghost predicate Ends(s: State, t: nat, reached: bool) {
    t < |s.threads| &&
    if reached then Stands(s, t, Install) && s.threads[t].level == 1
    else s.threads[t].pc == Unlock && s.threads[t].result == 0 && NodeAt(s.links, s.threads[t].page, 1).None?
  }

  /** The frames left cover the tables missing below the thread's table. */
  predicate Covered(s: State, th: Thread) {
    th.level <= 4 && MissingBelow(s.links, th.page, th.level) <= s.spare
  }

  lemma WalksOn(s: State, s1: State, s2: State, t: nat)
    requires Walks(s, s1, t) && Walks(s1, s2, t)
    ensures Walks(s, s2, t)
  {
  }

  /** The walk goes one table further. */
  lemma OneTable(s: State, t: nat) returns (n: nat)
    requires Stands(s, t, Walk) && s.threads[t].level >= 2 && TreeOk(s)
    requires Here(s.threads[t]) in s.links || s.spare > 0
    ensures var s', th := Alone(s, t, n), s.threads[t];
      && Stands(s', t, if th.level == 2 then Install else Walk) && s'.threads[t].level == th.level - 1
      && Walks(s, s', t) && TreeOk(s') && Covered(s', s'.threads[t]) == Covered(s, th)
  {
    if Here(s.threads[t]) in s.links {
      n := 1;
      One(s, t);
      Followed(s, t);
    } else {
      n := 4;
      Builds(s, t);
      HungTree(s, t);
    }
    hide *;
  }

  /** The walk of thread t reaches the leaf table exactly when the frames left cover the tables missing. */
  lemma {:induction false} WalkAlone(s: State, t: nat) returns (n: nat)
    requires Stands(s, t, Walk) && s.threads[t].level >= 2 && TreeOk(s)
    ensures Walks(s, Alone(s, t, n), t) && TreeOk(Alone(s, t, n)) && Ends(Alone(s, t, n), t, Covered(s, s.threads[t]))
    decreases if t < |s.threads| then s.threads[t].level else 0
  {
    var th := s.threads[t];
    if Here(th) !in s.links && s.spare == 0 {
      n := 2;
      Stops(s, t);
    } else {
      n := OneTable(s, t);
      var s1 := Alone(s, t, n);
      if th.level == 2 {
        AtLeaf(s1, t);
      } else {
        hide Advance, Alone, TreeOk, Walks, Covered, Here, Ends;
        var more := WalkAlone(s1, t);
        AloneAdd(s, t, n, more);
        WalksOn(s, s1, Alone(s1, t, more), t);
        n := n + more;
      }
    }
  }

  lemma AtLeaf(s: State, t: nat)
    requires Stands(s, t, Install) && s.threads[t].level == 1
    ensures Covered(s, s.threads[t]) && Ends(s, t, true)
  {
  }

  /** A present entry is followed. */
  lemma Followed(s: State, t: nat)
    requires Stands(s, t, Walk) && s.threads[t].level >= 2 && Here(s.threads[t]) in s.links && TreeOk(s)
    ensures var s', th := Advance(s, t), s.threads[t];
      && Stands(s', t, if th.level == 2 then Install else Walk) && s'.threads[t].level == th.level - 1
      && Walks(s, s', t) && TreeOk(s') && Covered(s', s'.threads[t]) == Covered(s, th)
  {
  }

  /** Without a frame the walk ends, and the page has no leaf table. */
  lemma Stops(s: State, t: nat)
    requires Stands(s, t, Walk) && s.threads[t].level >= 2 && Here(s.threads[t]) !in s.links && s.spare == 0
    ensures (TreeOk(s) ==> TreeOk(Alone(s, t, 2))) && Walks(s, Alone(s, t, 2), t)
    ensures Ends(Alone(s, t, 2), t, false) && !Covered(s, s.threads[t])
  {
    var th := s.threads[t];
    NothingBelow(s.links, th.page, th.level, th.level - 1);
    NothingBelow(s.links, th.page, th.level, 1);
    AloneAdd(s, t, 1, 1);
    One(s, t);
    One(Advance(s, t), t);
  }

  /** The state once thread t has hung the missing table and followed it. */
  function Hung(s: State, t: nat): State
    requires t < |s.threads| && s.spare > 0
  {
    var th := s.threads[t];
    At(s, t, Deeper(th.(made := s.built), s.built)).(
      links := s.links[Here(th) := s.built], spare := s.spare - 1, built := s.built + 1)
  }

  lemma Builds(s: State, t: nat)
    requires Stands(s, t, Walk) && s.threads[t].level >= 2 && Here(s.threads[t]) !in s.links && s.spare > 0
    ensures Alone(s, t, 4) == Hung(s, t)
  {
    var th := s.threads[t];
    var s1 := At(s, t, th.(pc := Grab));
    assert Advance(s, t) == s1;
    var s2, s3 := Advance(s1, t), Advance(Advance(s1, t), t);
    Grabbed(s, t);
    hide Advance, Hung;
    One(s, t);
    One(s1, t);
    One(s2, t);
    One(s3, t);
    AloneAdd(s, t, 1, 1);
    AloneAdd(s, t, 2, 1);
    AloneAdd(s, t, 3, 1);
  }

  /** A frame is taken for the table, the entry written, and read again. */
  lemma Grabbed(s: State, t: nat)
    requires t < |s.threads| && Fits(s, s.threads[t].(pc := Grab)) && s.spare > 0
    ensures var s1 := At(s, t, s.threads[t].(pc := Grab));
      && |Advance(s1, t).threads| == |Advance(Advance(s1, t), t).threads| == |s.threads|
      && Advance(Advance(Advance(s1, t), t), t) == Hung(s, t)
  {
    var th := s.threads[t];
    var s1 := At(s, t, th.(pc := Grab));
    var s2 := At(s, t, th.(pc := Hang, made := s.built)).(spare := s.spare - 1, built := s.built + 1);
    var s3 := At(s2, t, th.(pc := Reread, made := s.built)).(links := s.links[Here(th) := s.built]);
    assert Advance(s1, t) == s2 by { assert s1.threads[t := s2.threads[t]] == s2.threads; }
    assert Advance(s2, t) == s3 by { hide Here; }
    Reread3(s, t, s3);
    hide Advance, Hung;
  }

  lemma Reread3(s: State, t: nat, s3: State)
    requires t < |s.threads| && Fits(s, s.threads[t].(pc := Grab)) && s.spare > 0
    requires var th := s.threads[t];
      s3 == At(s, t, th.(pc := Reread, made := s.built)).(
        links := s.links[Here(th) := s.built], spare := s.spare - 1, built := s.built + 1)
    ensures Advance(s3, t) == Hung(s, t)
  {
    var th := s.threads[t];
    assert Here(s3.threads[t]) == Here(th);
    assert s3.threads[t := Deeper(th.(made := s.built), s.built)] == Hung(s, t).threads;
  }

  lemma HungTree(s: State, t: nat)
    requires Stands(s, t, Walk) && s.threads[t].level >= 2 && Here(s.threads[t]) !in s.links && s.spare > 0 && TreeOk(s)
    ensures var s', th := Hung(s, t), s.threads[t];
      && Stands(s', t, if th.level == 2 then Install else Walk) && s'.threads[t].level == th.level - 1
      && Walks(s, s', t) && TreeOk(s') && Covered(s', s'.threads[t]) == Covered(s, th)
  {
    var th, s' := s.threads[t], Hung(s, t);
    WalkedMade(s, th.page, th.level);
    HungOk(s, t);
    HungPath(s.links, th.page, th.level, Here(th), s.built);
    HungCovers(s.links, th.page, th.level, Here(th), s.built);
    hide TreeOk, NodeAt, MissingBelow, SlotAt;
  }

  lemma HungOk(s: State, t: nat)
    requires t < |s.threads| && TreeOk(s) && Made(s.threads[t].node, s.built) && s.spare > 0
    ensures TreeOk(Hung(s, t))
  {
  }

  lemma HungPath(links: Links, p: VPage, l: nat, a: Slot, id: nat)
    requires 2 <= l <= 4 && NodeAt(links, p, l) == Some(a.node) && SlotAt(a.node, p, l) == a && a !in links
    requires a.node != Table(id) && forall b | b in links :: b.node != Table(id) && links[b] != id
    ensures NodeAt(links[a := id], p, l - 1) == Some(Table(id))
  {
    GrowNode(links, a, id, p, l);
  }

  /** One table less is missing. */
  lemma HungCovers(links: Links, p: VPage, l: nat, a: Slot, id: nat)
    requires 2 <= l <= 4 && NodeAt(links, p, l) == Some(a.node) && SlotAt(a.node, p, l) == a && a !in links
    requires a.node != Table(id) && forall b | b in links :: b.node != Table(id) && links[b] != id
    ensures MissingBelow(links, p, l) == MissingBelow(links[a := id], p, l - 1) + 1
  {
    HungPath(links, p, l, a, id);
    NothingBelow(links, p, l, l - 1);
    AllMissing(links, p, l - 1);
    if l > 2 {
      NothingBelow(links[a := id], p, l - 1, l - 2);
      AllMissing(links[a := id], p, l - 2);
    }
  }

  // ----- the whole handler -----

  /** Thread t has returned 0, with its page mapped or not. */
  ghost predicate Returned(s: State, t: nat, p: VPage, mapped: bool) {
    t < |s.threads| && s.threads[t].pc == Done && s.threads[t].result == 0 && (Translate(s, p).Some? <==> mapped)
  }

  lemma Unlocks(s: State, t: nat)
    requires t < |s.threads| && Fits(s, s.threads[t]) && s.threads[t].pc == Unlock && s.threads[t].result == 0
    ensures Returned(Alone(s, t, 1), t, s.threads[t].page, Translate(s, s.threads[t].page).Some?)
  {
    One(s, t);
  }

  lemma Installs(s: State, t: nat)
    requires Stands(s, t, Install) && s.threads[t].level == 1
    ensures Returned(Alone(s, t, 2), t, s.threads[t].page, true)
  {
    var s1 := Advance(s, t);
    One(s, t);
    AloneAdd(s, t, 1, 1);
    assert Translate(s1, s.threads[t].page).Some?;
    Unlocks(s1, t);
  }

  lemma FromWalk(s: State, t: nat) returns (n: nat)
    requires Stands(s, t, Walk) && s.threads[t].level == 4 && TreeOk(s)
    ensures Returned(Alone(s, t, n), t, s.threads[t].page, Covered(s, s.threads[t]))
  {
    n := WalkAlone(s, t);
    var s1 := Alone(s, t, n);
    var more := if Covered(s, s.threads[t]) then 2 else 1;
    if more == 2 { Installs(s1, t); } else { Unlocks(s1, t); }
    AloneAdd(s, t, n, more);
    hide Alone, Covered, TreeOk;
    n := n + more;
  }

  lemma FromAlloc(s: State, t: nat) returns (n: nat)
    requires t < |s.threads| && Fits(s, s.threads[t]) && s.threads[t].pc == Alloc && s.pool != [] && TreeOk(s)
    ensures Returned(Alone(s, t, n), t, s.threads[t].page, Missing(s.links, s.threads[t].page) <= s.spare)
  {
    var s1 := Advance(s, t);
    Takes(s, t);
    var s2 := Advance(s1, t);
    Fills(s1, t);
    One(s, t);
    One(s1, t);
    AloneAdd(s, t, 1, 1);
    hide Advance, TreeOk, MissingBelow;
    assert Covered(s2, s2.threads[t]) <==> Missing(s.links, s.threads[t].page) <= s.spare;
    var more := FromWalk(s2, t);
    AloneAdd(s, t, 2, more);
    n := 2 + more;
  }

  lemma Takes(s: State, t: nat)
    requires t < |s.threads| && Fits(s, s.threads[t]) && s.threads[t].pc == Alloc && s.pool != [] && TreeOk(s)
    ensures var s' := Advance(s, t);
      && t < |s'.threads| && Fits(s', s'.threads[t]) && s'.threads[t].pc == Fill && TreeOk(s')
      && s'.threads[t].page == s.threads[t].page && s'.links == s.links && s'.spare == s.spare
  {
  }

  lemma Fills(s: State, t: nat)
    requires t < |s.threads| && Fits(s, s.threads[t]) && s.threads[t].pc == Fill && TreeOk(s)
    ensures var s' := Advance(s, t);
      && Stands(s', t, Walk) && s'.threads[t].level == 4 && TreeOk(s')
      && s'.threads[t].page == s.threads[t].page && s'.links == s.links && s'.spare == s.spare
  {
  }

  lemma FromTryLock(s: State, t: nat) returns (n: nat)
    requires t < |s.threads| && Fits(s, s.threads[t]) && s.threads[t].pc == TryLock && s.locks[s.threads[t].region] == 0
    requires s.pool != [] && TreeOk(s) && Translate(s, s.threads[t].page).None?
    ensures Returned(Alone(s, t, n), t, s.threads[t].page, Missing(s.links, s.threads[t].page) <= s.spare)
  {
    hide Reaches;
    var s1 := Advance(s, t);
    One(s, t);
    LockStep(s, t);
    hide Advance, TreeOk, Missing, Translate;
    var look := LookAlone(s1, t, Look2);
    var s2 := Alone(s1, t, look);
    LookedAlone(s1, s2, t, Alloc);
    var more := FromAlloc(s2, t);
    AloneAdd(s1, t, look, more);
    AloneAdd(s, t, 1, look + more);
    n := 1 + (look + more);
  }

  lemma LockStep(s: State, t: nat)
    requires t < |s.threads| && Fits(s, s.threads[t]) && s.threads[t].pc == TryLock && s.locks[s.threads[t].region] == 0
    requires TreeOk(s)
    ensures var s' := Advance(s, t);
      && Stands(s', t, Look2) && TreeOk(s') && s'.threads[t].page == s.threads[t].page
      && s'.links == s.links && s'.leaves == s.leaves && s'.spare == s.spare && s'.pool == s.pool
      && forall p :: Translate(s', p) == Translate(s, p)
  {
    hide Injective;
  }

  lemma LookedAlone(s: State, s': State, t: nat, pc: Pc)
    requires Reaches(s, s', t, pc) && Fits(s, s.threads[t]) && TreeOk(s) && InRegion(s.threads[t])
    ensures Fits(s', s'.threads[t]) && TreeOk(s') && s'.links == s.links && s'.spare == s.spare && s'.pool == s.pool
    ensures s'.locks == s.locks && forall p :: Translate(s', p) == Translate(s, p)
  {
    hide Injective;
  }

  /** The step that looks the region up. */
  lemma FindStep(s: State, t: nat)
    requires t < |s.threads| && Fits(s, s.threads[t]) && s.threads[t].pc == Find
    requires var r := FindRegion(s.regions, s.threads[t].page); r < |s.regions| && s.regions[r].demandPaged
    ensures var s' := Advance(s, t);
      && Stands(s', t, Look1) && s' == At(s, t, s'.threads[t]) && s'.threads[t].page == s.threads[t].page
      && s'.threads[t].region == FindRegion(s.regions, s.threads[t].page)
  {
    hide FindRegion;
  }

  lemma FromLook1(s: State, t: nat) returns (n: nat)
    requires Stands(s, t, Look1) && s.locks[s.threads[t].region] == 0
    requires s.pool != [] && TreeOk(s) && Translate(s, s.threads[t].page).None?
    ensures Returned(Alone(s, t, n), t, s.threads[t].page, Missing(s.links, s.threads[t].page) <= s.spare)
  {
    var look := LookAlone(s, t, Look1);
    var s1 := Alone(s, t, look);
    assert Fits(s1, s1.threads[t]) && TreeOk(s1) && s1.links == s.links && s1.spare == s.spare && s1.pool == s.pool;
    assert Translate(s1, s.threads[t].page).None? && s1.locks == s.locks;
    hide TreeOk, Missing, Translate, Advance;
    var more := FromTryLock(s1, t);
    AloneAdd(s, t, look, more);
    n := look + more;
  }

  /** A handler that finds its page in a demand-paged region, unmapped, with the lock free and a frame left,
      and is not disturbed, returns 0 in any case. Its page is then mapped if and only if the frames left
      for page tables covered the missing ones: otherwise the failure is silent. */
  lemma UndisturbedOutcome(s: State, t: nat) returns (n: nat)
    requires Inv(s) && t < |s.threads| && s.threads[t].pc == Find && s.pool != []
    requires Translate(s, s.threads[t].page).None?
    requires var r := FindRegion(s.regions, s.threads[t].page);
      r < |s.regions| == |s.locks| && s.regions[r].demandPaged && s.locks[r] == 0
    ensures Returned(Alone(s, t, n), t, s.threads[t].page, Missing(s.links, s.threads[t].page) <= s.spare)
  {
    assert ThreadOk(s, t);
    hide FramesOk, Refines, ThreadsOk, LocksOk, Accounts, Translate, FindRegion, FrameSide, WalkSide, TreeOk;
    n := FromFind(s, t);
  }

  lemma FromFind(s: State, t: nat) returns (n: nat)
    requires t < |s.threads| && Fits(s, s.threads[t]) && TreeOk(s) && s.threads[t].pc == Find && s.pool != []
    requires Translate(s, s.threads[t].page).None?
    requires var r := FindRegion(s.regions, s.threads[t].page);
      r < |s.regions| == |s.locks| && s.regions[r].demandPaged && s.locks[r] == 0
    ensures Returned(Alone(s, t, n), t, s.threads[t].page, Missing(s.links, s.threads[t].page) <= s.spare)
  {
    var s1 := Advance(s, t);
    One(s, t);
    FindStep(s, t);
    hide Advance, FindRegion;
    var more := FromLook1(s1, t);
    hide TreeOk, Translate;
    AloneAdd(s, t, 1, more);
    n := 1 + more;
  }

  /** A check of a mapped page finds it mapped. */
  lemma {:induction false} LookMapped(s: State, t: nat, pc: Pc) returns (n: nat)
    requires pc in {Look1, Look2} && Stands(s, t, pc) && Translate(s, s.threads[t].page).Some?
    ensures Reaches(s, Alone(s, t, n), t, if pc == Look1 then Done else Unlock) && Alone(s, t, n).threads[t].result == 0
    decreases if t < |s.threads| then s.threads[t].level else 0
  {
    var th, s1 := s.threads[t], Advance(s, t);
    One(s, t);
    n := 1;
    if th.level > 1 {
      if Here(th) !in s.links { NothingBelow(s.links, th.page, th.level, 1); }
      var more := LookMapped(s1, t, pc);
      n := 1 + more;
      AloneAdd(s, t, 1, more);
    }
  }

  /** Thread t has returned, and page tables, frames and lock words are as before. */
  ghost predicate Answers(s: State, s': State, t: nat, result: int) {
    && t < |s.threads| == |s'.threads| && s'.threads == s.threads[t := s'.threads[t]]
    && s'.threads[t].pc == Done && s'.threads[t].result == result
    && s'.links == s.links && s'.leaves == s.leaves && s'.pool == s.pool && s'.spare == s.spare
    && s'.locks == s.locks && s'.zeroed == s.zeroed && s'.table == s.table && s'.role == s.role
  }

  /** A fault outside the demand-paged regions is refused at once. */
  lemma UndisturbedRefusal(s: State, t: nat)
    requires t < |s.threads| && Fits(s, s.threads[t]) && s.threads[t].pc == Find
    requires var r := FindRegion(s.regions, s.threads[t].page); r == |s.regions| || !s.regions[r].demandPaged
    ensures Answers(s, Alone(s, t, 1), t, -1)
  {
    One(s, t);
  }

  /** A fault on a page that is mapped already is answered with 0, whoever holds the lock. */
  lemma UndisturbedMapped(s: State, t: nat) returns (n: nat)
    requires t < |s.threads| && Fits(s, s.threads[t]) && s.threads[t].pc == Find
    requires Translate(s, s.threads[t].page).Some?
    requires var r := FindRegion(s.regions, s.threads[t].page); r < |s.regions| && s.regions[r].demandPaged
    ensures Answers(s, Alone(s, t, n), t, 0)
  {
    var s1 := Advance(s, t);
    One(s, t);
    FindStep(s, t);
    hide Advance, FindRegion;
    var more := LookMapped(s1, t, Look1);
    AloneAdd(s, t, 1, more);
    n := 1 + more;
  }

  /** Without a data frame a fault on an unmapped page is answered with -1, and the lock is free again. */
  lemma UndisturbedEmpty(s: State, t: nat) returns (n: nat)
    requires Inv(s) && t < |s.threads| && s.threads[t].pc == Find && s.pool == []
    requires Translate(s, s.threads[t].page).None?
    requires var r := FindRegion(s.regions, s.threads[t].page);
      r < |s.regions| == |s.locks| && s.regions[r].demandPaged && s.locks[r] == 0
    ensures Answers(s, Alone(s, t, n), t, -1)
  {
    assert ThreadOk(s, t);
    hide FramesOk, Refines, ThreadsOk, LocksOk, Accounts, Translate, FindRegion, FrameSide, WalkSide, TreeOk;
    n := EmptyFromFind(s, t);
  }

  lemma EmptyFromFind(s: State, t: nat) returns (n: nat)
    requires t < |s.threads| && Fits(s, s.threads[t]) && TreeOk(s) && s.threads[t].pc == Find && s.pool == []
    requires Translate(s, s.threads[t].page).None?
    requires var r := FindRegion(s.regions, s.threads[t].page);
      r < |s.regions| == |s.locks| && s.regions[r].demandPaged && s.locks[r] == 0
    ensures Answers(s, Alone(s, t, n), t, -1)
  {
    var s1 := Advance(s, t);
    One(s, t);
    FindStep(s, t);
    hide Advance, FindRegion;
    var more := EmptyFromLook(s1, t);
    hide TreeOk, Translate;
    AloneAdd(s, t, 1, more);
    n := 1 + more;
  }

  lemma EmptyFromLook(s: State, t: nat) returns (n: nat)
    requires Stands(s, t, Look1) && TreeOk(s) && s.pool == [] && Translate(s, s.threads[t].page).None?
    requires s.locks[s.threads[t].region] == 0
    ensures Answers(s, Alone(s, t, n), t, -1)
  {
    var look := LookAlone(s, t, Look1);
    var s1 := Alone(s, t, look);
    assert Fits(s1, s1.threads[t]) && TreeOk(s1) && Translate(s1, s.threads[t].page).None?;
    hide TreeOk, Translate, Advance;
    var more := EmptyFromLock(s1, t);
    AloneAdd(s, t, look, more);
    n := look + more;
  }

  lemma EmptyFromLock(s: State, t: nat) returns (n: nat)
    requires t < |s.threads| && Fits(s, s.threads[t]) && s.threads[t].pc == TryLock && s.locks[s.threads[t].region] == 0
    requires s.pool == [] && TreeOk(s) && Translate(s, s.threads[t].page).None?
    ensures Answers(s, Alone(s, t, n), t, -1)
  {
    hide Here, NodeAt, Stands;
    var s1 := Advance(s, t);
    One(s, t);
    LockStep(s, t);
    LockTaken(s, t);
    hide Advance, TreeOk, Translate;
    var look := LookAlone(s1, t, Look2);
    var s2 := Alone(s1, t, look);
    NoFrame(s2, t);
    AloneAdd(s1, t, look, 2);
    AloneAdd(s, t, 1, look + 2);
    n := 1 + (look + 2);
    assert s.locks[s.threads[t].region := 1][s.threads[t].region := 0] == s.locks;
  }

  lemma LockTaken(s: State, t: nat)
    requires t < |s.threads| && Fits(s, s.threads[t]) && s.threads[t].pc == TryLock && s.locks[s.threads[t].region] == 0
    ensures var s' := Advance(s, t);
      && |s'.threads| == |s.threads| && s'.threads == s.threads[t := s'.threads[t]]
      && s'.threads[t].region == s.threads[t].region
      && s' == s.(threads := s'.threads, owner := s'.owner, locks := s.locks[s.threads[t].region := 1])
  {
  }

  lemma NoFrame(s: State, t: nat)
    requires t < |s.threads| && Fits(s, s.threads[t]) && s.threads[t].pc == Alloc && s.pool == []
    ensures var s' := Alone(s, t, 2);
      && |s'.threads| == |s.threads| && s'.threads == s.threads[t := s'.threads[t]]
      && s'.threads[t].pc == Done && s'.threads[t].result == -1
      && s' == s.(threads := s'.threads, owner := s'.owner, locks := s.locks[s.threads[t].region := 0])
  {
    One(s, t);
    One(Advance(s, t), t);
    AloneAdd(s, t, 1, 1);
  }

  /** One region, one thread, one data frame, no page tables yet: with three frames for tables the page is
      mapped, with fewer the handler returns 0 and it is not. */
  lemma SilentLossExample(spare: nat) returns (n: nat)
    requires spare <= 3
    ensures var s := Next(Start([Region(1, 0, 4096, true, false)], 1, [7], spare), Begin(0, 1, 0));
      Returned(Alone(s, 0, n), 0, VPage(1, 0), spare == 3)
  {
    var regions := [Region(1, 0, 4096, true, false)];
    var s := Start(regions, 1, [7], spare);
    StartSound(regions, 1, [7], spare);
    EventKeeps(s, Begin(0, 1, 0));
    var s1 := Next(s, Begin(0, 1, 0));
    assert s1.threads[0].page == VPage(1, 0) && FindRegion(regions, VPage(1, 0)) == 0;
    NothingBelow(s1.links, VPage(1, 0), 4, 3);
    AllMissing(s1.links, VPage(1, 0), 3);
    assert Missing(s1.links, VPage(1, 0)) == 3;
    NothingBelow(s1.links, VPage(1, 0), 4, 1);
    n := UndisturbedOutcome(s1, 0);
  }
}
