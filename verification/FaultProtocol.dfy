/** Concurrent demand faults: any number of threads run the fault handler, interleaved at every read or
    write of a page-table entry, a lock word or a frame pool, over one test-and-test-and-set spinlock per
    region. */
module FaultProtocol {
  import opened Common
  import opened WalkTree

  /** A registered region of an address space, with page-aligned bounds. */
  datatype Region = Region(root: nat, start: nat, end: nat, demandPaged: bool, zeroFill: bool)

  /** The next access of a handler. */
  datatype Pc =
    | Idle      // no fault in progress
    | Find      // look the region up
    | Look1     // first, unlocked check: read one entry of the path
    | TryLock   // compare-and-swap on the lock word
    | Spin      // wait until the lock word reads zero
    | Look2     // second check, under the lock: read one entry of the path
    | Alloc     // take a data frame
    | Fill      // zero the frame when asked to
    | Walk      // read one entry on the way to the leaf table
    | Grab      // it was missing: take and zero a frame for a table
    | Hang      // write the missing entry
    | Reread    // read it again
    | Install   // write the leaf entry
    | Unlock    // store zero to the lock word
    | Done      // returned

  /** A handler: its page and region, the data frame it holds, its result and whether it lost its frame; the
      table it has walked to, and the table it is about to hang. */
  datatype Thread = Thread(
    pc: Pc, page: VPage, region: nat, frame: nat, result: int, lost: bool, level: nat, node: Node, made: nat)

  /** Where a data frame is. */
  datatype Role = Pooled | HeldBy(t: nat) | MappedAt(p: VPage) | Leaked

  /** Shared memory and the threads: the lock words, the page-table entries, the free data frames and the
      number of frames left for tables. `built` names the tables made; `table`, `owner`, `role`, `taken`
      and `leaks` only record history. */
  datatype State = State(
    regions: seq<Region>,
    threads: seq<Thread>,
    locks: seq<nat>,
    links: Links,
    leaves: Leaves,
    pool: seq<nat>,
    spare: nat,
    built: nat,
    zeroed: set<nat>,
    table: map<VPage, nat>,
    owner: seq<int>,
    role: map<nat, Role>,
    taken: nat,
    leaks: nat)

  const NOBODY: int := -1

  predicate Contains(r: Region, p: VPage) {
    r.root == p.root && r.start <= p.addr < r.end
  }

  /** The first listed region that contains the page, or the number of regions. */
  function FindRegion(regions: seq<Region>, p: VPage): (i: nat)
    ensures i <= |regions| && (i < |regions| ==> Contains(regions[i], p))
    ensures forall j | 0 <= j < i :: !Contains(regions[j], p)
  {
    FindFrom(regions, p, 0)
  }

  function FindFrom(regions: seq<Region>, p: VPage, from: nat): (i: nat)
    requires from <= |regions|
    ensures from <= i <= |regions| && (i < |regions| ==> Contains(regions[i], p))
    ensures forall j | from <= j < i :: !Contains(regions[j], p)
    decreases |regions| - from
  {
    if from == |regions| || Contains(regions[from], p) then from else FindFrom(regions, p, from + 1)
  }

  /** What the page tables say. */
  function Translate(s: State, p: VPage): Option<nat> {
    Lookup(s.links, s.leaves, p)
  }

  // ----- steps -----

  function At(s: State, t: nat, th: Thread): State
    requires t < |s.threads|
  {
    s.(threads := s.threads[t := th])
  }

  /** A thread that starts to walk its page's path. */
  function FromRoot(th: Thread, pc: Pc): Thread {
    th.(pc := pc, level := 4, node := Root(th.page.root))
  }

  /** A thread that has followed an entry. */
  function Down(th: Thread, pc: Pc, id: nat): Thread {
    th.(pc := pc, level := if th.level > 0 then th.level - 1 else 0, node := Table(id))
  }

  /** The entry a walking thread is at. */
  function Here(th: Thread): Slot {
    SlotAt(th.node, th.page, th.level)
  }

  /** After an entry on the way to the leaf table: the next one, or the leaf entry. */
  function Deeper(th: Thread, id: nat): Thread {
    Down(th, if th.level <= 2 then Install else Walk, id)
  }

  predicate InRegion(th: Thread) {
    th.pc !in {Idle, Find, Done}
  }

  /** The thread's region has a lock. */
  predicate Fits(s: State, th: Thread) {
    |s.locks| == |s.owner| == |s.regions| && (InRegion(th) ==> th.region < |s.regions|)
  }

  /** The thread once the region of its page has been looked up. */
  function Found(s: State, th: Thread): Thread {
    var i := FindRegion(s.regions, th.page);
    if i == |s.regions| || !s.regions[i].demandPaged then th.(pc := Done, result := -1)
    else FromRoot(th.(region := i), Look1)
  }

  /** The thread once it has read one entry to see whether its page is mapped. */
  function Looked(s: State, th: Thread, mapped: Thread, unmapped: Thread): Thread {
    if th.level > 1 && Here(th) in s.links then Down(th, th.pc, s.links[Here(th)])
    else if th.level <= 1 && Here(th) in s.leaves then mapped
    else unmapped
  }

  /** The thread once it has read one entry on the way to the leaf table. */
  function Walked(s: State, th: Thread, missing: Thread): Thread {
    if Here(th) in s.links then Deeper(th, s.links[Here(th)]) else missing
  }

  /** The thread once it has made its next access. */
  function Moved(s: State, th: Thread): Thread
    requires Fits(s, th)
  {
    match th.pc
    case Idle => th
    case Done => th
    case Find => Found(s, th)
    case Look1 => Looked(s, th, th.(pc := Done, result := 0), th.(pc := TryLock))
    case TryLock => if s.locks[th.region] == 0 then FromRoot(th, Look2) else th.(pc := Spin)
    case Spin => if s.locks[th.region] == 0 then th.(pc := TryLock) else th
    case Look2 => Looked(s, th, th.(pc := Unlock, result := 0), th.(pc := Alloc))
    case Alloc => if s.pool == [] then th.(pc := Unlock, result := -1) else th.(pc := Fill, frame := s.pool[0])
    case Fill => FromRoot(th, Walk)
    case Walk => Walked(s, th, th.(pc := Grab))
    case Grab => if s.spare == 0 then th.(pc := Unlock, result := 0, lost := true) else th.(pc := Hang, made := s.built)
    case Hang => th.(pc := Reread)
    case Reread => Walked(s, th, th)
    case Install => th.(pc := Unlock, result := 0)
    case Unlock => th.(pc := Done)
  }

  /** A handler thread makes its next access; what it does to shared memory. When the frames for tables run
      out the entry is silently not written. */
  function Advance(s: State, t: nat): State
    requires t < |s.threads|
  {
    var th := s.threads[t];
    if !Fits(s, th) then s else
      var s' := At(s, t, Moved(s, th));
      match th.pc
      case TryLock =>
        if s.locks[th.region] == 0 then s'.(locks := s.locks[th.region := 1], owner := s.owner[th.region := t]) else s'
      case Alloc =>
        if s.pool == [] then s'
        else s'.(pool := s.pool[1..], role := s.role[s.pool[0] := HeldBy(t)], taken := s.taken + 1)
      case Fill => if s.regions[th.region].zeroFill then s'.(zeroed := s.zeroed + {th.frame}) else s'
      case Grab =>
        if s.spare == 0 then s'.(role := s.role[th.frame := Leaked], leaks := s.leaks + 1)
        else s'.(spare := s.spare - 1, built := s.built + 1)
      case Hang => s'.(links := s.links[Here(th) := th.made])
      case Install =>
        s'.(leaves := s.leaves[Here(th) := th.frame],
            table := s.table[th.page := th.frame], role := s.role[th.frame := MappedAt(th.page)])
      case Unlock => s'.(locks := s.locks[th.region := 0], owner := s.owner[th.region := NOBODY])
      case _ => s'
  }

  lemma AdvanceThreads(s: State, t: nat)
    requires t < |s.threads|
    ensures var s' := Advance(s, t);
      && |s'.threads| == |s.threads| && s'.threads == s.threads[t := s'.threads[t]]
      && (Fits(s, s.threads[t]) ==> s'.threads[t] == Moved(s, s.threads[t]))
  {
    hide Moved, Here, Fits;
    match s.threads[t].pc {
      case TryLock => case Alloc => case Fill => case Grab => case Hang => case Install => case Unlock => case _ =>
    }
  }

  datatype Event =
    | Begin(thread: nat, root: nat, virt: nat)   // a fault is raised on an idle thread, at a 48-bit address
    | Run(thread: nat)                           // a thread makes its next access
    | Dirty(page: VPage)                         // a program writes to a mapped page
    | Take                                       // another part of the kernel takes a data frame
    | Give(frame: nat)                           // or returns one
    | TakeSpare                                  // another part takes a frame that a table could use
    | GiveSpare                                  // or returns one

  function NewFault(root: nat, virt: nat): Thread {
    Thread(Find, VPage(root, virt - virt % 0x1000), 0, 0, 0, false, 4, Root(root), 0)
  }

  /** One event; an event that does not fit the state changes nothing. */
  function Next(s: State, e: Event): State {
    match e
    case Begin(t, root, virt) =>
      if t < |s.threads| && s.threads[t].pc in {Idle, Done} && virt < 0x1_0000_0000_0000
      then At(s, t, NewFault(root, virt))
      else s
    case Run(t) => if t < |s.threads| then Advance(s, t) else s
    case Dirty(p) => if p in s.table then s.(zeroed := s.zeroed - {s.table[p]}) else s
    case Take => if s.pool == [] then s else s.(pool := s.pool[1..], role := s.role - {s.pool[0]})
    case Give(f) => if f in s.role then s else s.(pool := [f] + s.pool, role := s.role[f := Pooled])
    case TakeSpare => if s.spare == 0 then s else s.(spare := s.spare - 1)
    case GiveSpare => s.(spare := s.spare + 1)
  }

  function After(s: State, es: seq<Event>): State
    decreases |es|
  {
    if es == [] then s else After(Next(s, es[0]), es[1..])
  }

  /** The thread has found an entry missing and has not written it yet. */
  predicate Building(th: Thread) {
    th.pc in {Grab, Hang}
  }

  /** No handler finds a table missing that another handler is about to hang. */
  ghost predicate Free(s: State, e: Event) {
    e.Run? && e.thread < |s.threads| && s.threads[e.thread].pc == Walk && Here(s.threads[e.thread]) !in s.links ==>
      forall u | 0 <= u < |s.threads| && u != e.thread && Building(s.threads[u]) ::
        Here(s.threads[u]) != Here(s.threads[e.thread])
  }

  ghost predicate FreeRun(s: State, es: seq<Event>)
    decreases |es|
  {
    es == [] || (Free(s, es[0]) && FreeRun(Next(s, es[0]), es[1..]))
  }

  // ----- invariant -----

  predicate InCritical(th: Thread) {
    th.pc in {Look2, Alloc, Fill, Walk, Grab, Hang, Reread, Install, Unlock}
  }

  predicate Holding(th: Thread) {
    th.pc in {Fill, Walk, Grab, Hang, Reread, Install}
  }

  predicate Walking(th: Thread) {
    th.pc in {Look1, Look2, Walk, Grab, Hang, Reread, Install}
  }

  /** The handler is in the region of its page, and its lock is its own exactly in the critical section. */
  ghost predicate LockSide(s: State, t: nat)
    requires t < |s.threads|
  {
    var th := s.threads[t];
    && Fits(s, th)
    && (InRegion(th) ==>
      && th.region == FindRegion(s.regions, th.page) && s.regions[th.region].demandPaged
      && (InCritical(th) <==> s.owner[th.region] == t))
  }

  /** Its page is not mapped from the second check on, it holds its frame, and its result is right. */
  ghost predicate FrameSide(s: State, t: nat)
    requires t < |s.threads|
  {
    var th := s.threads[t];
    && (th.pc == Alloc || Holding(th) ==> th.page !in s.table)
    && (Holding(th) ==> th.frame in s.role && s.role[th.frame] == HeldBy(t))
    && (Holding(th) && th.pc != Fill && th.region < |s.regions| && s.regions[th.region].zeroFill ==>
      th.frame in s.zeroed)
    && (th.pc in {Unlock, Done} ==>
      (th.result == 0 || th.result == -1) && (th.result == 0 && !th.lost ==> th.page in s.table))
    && (th.lost ==> s.leaks > 0)
  }

  /** A walking handler is at a table on the path of its page; a missing entry stays missing until it is
      written, and the table to hang is fresh. */
  ghost predicate WalkSide(s: State, th: Thread) {
    && (th.pc != Idle ==> WalkTree.Aligned(th.page))
    && (Walking(th) ==> 1 <= th.level <= 4 && NodeAt(s.links, th.page, th.level) == Some(th.node))
    && (th.pc in {Walk, Grab, Hang, Reread} ==> th.level >= 2)
    && (th.pc == Install ==> th.level == 1)
    && (Building(th) ==> Here(th) !in s.links)
    && (th.pc == Reread ==> Here(th) in s.links)
    && (th.pc == Hang ==> th.made < s.built && Fresh(s.links, s.leaves, th.made))
  }

  ghost predicate ThreadOk(s: State, t: nat)
    requires t < |s.threads|
  {
    LockSide(s, t) && FrameSide(s, t) && WalkSide(s, s.threads[t])
  }

  /** Two handlers do not build one entry, nor hang one table. */
  ghost predicate BuildersApart(a: Thread, b: Thread) {
    && (Building(a) && Building(b) ==> Here(a) != Here(b))
    && (a.pc == Hang && b.pc == Hang ==> a.made != b.made)
  }

  /** The lock word of a region is one exactly while its recorded owner is in the critical section. */
  ghost predicate LockOk(s: State, r: nat)
    requires r < |s.regions| == |s.locks| == |s.owner|
  {
    && (s.locks[r] == 0 <==> s.owner[r] == NOBODY) && s.locks[r] <= 1
    && (s.owner[r] != NOBODY ==>
      0 <= s.owner[r] < |s.threads| && InCritical(s.threads[s.owner[r]]) && s.threads[s.owner[r]].region == r)
  }

  ghost predicate LocksOk(s: State) {
    |s.regions| == |s.locks| == |s.owner| && forall r: nat | r < |s.regions| :: LockOk(s, r)
  }

  ghost predicate ThreadsOk(s: State) {
    && (forall t: nat | t < |s.threads| :: ThreadOk(s, t))
    && (forall t: nat, u: nat | t < |s.threads| && u < |s.threads| && t != u ::
      BuildersApart(s.threads[t], s.threads[u]))
  }

  /** Every data frame has one role: free, held by one thread, mapped at one page, or leaked. */
  ghost predicate FramesOk(s: State) {
    && (forall f :: f in s.pool <==> f in s.role && s.role[f] == Pooled)
    && (forall i, j | 0 <= i < j < |s.pool| :: s.pool[i] != s.pool[j])
    && (forall f, t: nat | f in s.role && s.role[f] == HeldBy(t) ::
      t < |s.threads| && Holding(s.threads[t]) && s.threads[t].frame == f)
    && (forall f, p | f in s.role && s.role[f] == MappedAt(p) :: p in s.table && s.table[p] == f)
    && (forall p | p in s.table :: s.table[p] in s.role && s.role[s.table[p]] == MappedAt(p))
  }

  predicate Made(n: Node, built: nat) {
    n.Table? ==> n.id < built
  }

  /** The tables form a tree of the tables made so far. */
  ghost predicate TreeOk(s: State) {
    && Injective(s.links)
    && (forall a | a in s.links :: s.links[a] < s.built && Made(a.node, s.built))
    && (forall a | a in s.leaves :: Made(a.node, s.built))
  }

  /** The page tables translate exactly the pages installed, to the frames installed for them. */
  ghost predicate Refines(s: State) {
    && (forall p | p in s.table :: WalkTree.Aligned(p))
    && (forall p | WalkTree.Aligned(p) :: Translate(s, p) == if p in s.table then Some(s.table[p]) else None)
  }

  function Holders(threads: seq<Thread>): nat {
    if threads == [] then 0
    else Holders(threads[..|threads| - 1]) + (if Holding(threads[|threads| - 1]) then 1 else 0)
  }

  ghost predicate Accounts(s: State) {
    s.taken == |s.table| + Holders(s.threads) + s.leaks
  }

  ghost predicate Inv(s: State) {
    LocksOk(s) && ThreadsOk(s) && FramesOk(s) && TreeOk(s) && Refines(s) && Accounts(s)
  }

  // ----- every step keeps it -----

  lemma {:induction false} HoldersUpdate(threads: seq<Thread>, t: nat, th: Thread)
    requires t < |threads|
    ensures Holders(threads[t := th]) ==
      Holders(threads) + (if Holding(th) then 1 else 0) - (if Holding(threads[t]) then 1 else 0)
  {
    var n := |threads| - 1;
    if t < n {
      HoldersUpdate(threads[..n], t, th);
      assert threads[t := th][..n] == threads[..n][t := th];
    } else {
      assert threads[t := th][..n] == threads[..n];
    }
  }

  /** Frames keep their roles while threads keep the frames they hold. */
  lemma FramesKept(s: State, s': State)
    requires FramesOk(s) && s'.pool == s.pool && s'.role == s.role && s'.table == s.table && |s'.threads| == |s.threads|
    requires forall u: nat | u < |s.threads| && Holding(s.threads[u]) ::
      Holding(s'.threads[u]) && s'.threads[u].frame == s.threads[u].frame
    ensures FramesOk(s')
  {
  }

  /** A step after which thread t builds nothing that another does, and the others stand as they did. */
  lemma OthersStand(s: State, s': State, t: nat)
    requires ThreadsOk(s) && t < |s.threads| == |s'.threads| && s'.threads == s.threads[t := s'.threads[t]]
    requires ThreadOk(s', t) && forall u: nat | u < |s.threads| && u != t ::
      ThreadOk(s', u) && BuildersApart(s'.threads[t], s.threads[u])
    ensures ThreadsOk(s')
  {
    hide ThreadOk;
    forall u: nat, v: nat | u < |s'.threads| && v < |s'.threads| && u != v
      ensures BuildersApart(s'.threads[u], s'.threads[v])
    {
      assert BuildersApart(s.threads[u], s.threads[v]);
      assert BuildersApart(s.threads[v], s.threads[u]);
    }
  }

  /** What other handlers depend on. */
  ghost predicate Undisturbed(s: State, s': State, t: nat) {
    && s'.regions == s.regions && s'.locks == s.locks && s'.owner == s.owner
    && s'.links == s.links && s'.leaves == s.leaves && s'.table == s.table
    && s'.built >= s.built && s'.zeroed >= s.zeroed && s'.leaks >= s.leaks
    && forall f, u: nat | u != t && f in s.role && s.role[f] == HeldBy(u) :: f in s'.role && s'.role[f] == HeldBy(u)
  }

  lemma OthersUndisturbed(s: State, s': State, t: nat, u: nat)
    requires t < |s.threads| == |s'.threads| && s'.threads == s.threads[t := s'.threads[t]] && Undisturbed(s, s', t)
    requires u < |s.threads| && u != t && ThreadOk(s, u)
    ensures ThreadOk(s', u)
  {
  }

  lemma LocksStay(s: State, s': State, t: nat)
    requires LocksOk(s) && t < |s.threads| == |s'.threads| && s'.threads == s.threads[t := s'.threads[t]]
    requires s'.regions == s.regions && s'.locks == s.locks && s'.owner == s.owner
    requires var th, th' := s.threads[t], s'.threads[t];
      InCritical(th') == InCritical(th) && (InCritical(th) ==> th'.region == th.region)
    ensures LocksOk(s')
  {
    hide InCritical;
    forall r: nat | r < |s'.regions| ensures LockOk(s', r) { assert LockOk(s, r); }
  }

  /** A step of thread t, without entering or leaving the critical section, that leaves the page tables
      alone. */
  lemma Quiet(s: State, s': State, t: nat)
    requires Inv(s) && t < |s.threads| == |s'.threads| && s'.threads == s.threads[t := s'.threads[t]]
    requires Undisturbed(s, s', t) && FramesOk(s') && Accounts(s') && ThreadOk(s', t)
    requires var th, th' := s.threads[t], s'.threads[t];
      InCritical(th') == InCritical(th) && (InCritical(th) ==> th'.region == th.region)
    requires forall u: nat | u < |s.threads| && u != t :: BuildersApart(s'.threads[t], s.threads[u])
    ensures Inv(s')
  {
    LocksStay(s, s', t);
    hide LocksOk, FramesOk, Accounts, InCritical, BuildersApart;
    assert TreeOk(s') && Refines(s') by {
      assert forall p :: Translate(s', p) == Translate(s, p);
      hide Translate, ThreadOk;
    }
    hide TreeOk, Refines;
    forall u: nat | u < |s.threads| && u != t ensures ThreadOk(s', u) {
      assert ThreadOk(s, u);
      OthersUndisturbed(s, s', t, u);
    }
    OthersStand(s, s', t);
  }

  /** A step that only moves thread t, without entering or leaving the critical section, taking or giving
      frames, or building what another builds. */
  ghost predicate Shifts(s: State, s': State, t: nat) {
    && t < |s.threads| == |s'.threads| && s' == At(s, t, s'.threads[t])
    && var th, th' := s.threads[t], s'.threads[t];
    && Holding(th') == Holding(th) && (Holding(th) ==> th'.frame == th.frame)
    && InCritical(th') == InCritical(th) && (InCritical(th) ==> th'.region == th.region)
    && forall u: nat | u < |s.threads| && u != t :: BuildersApart(th', s.threads[u])
  }

  lemma MoveOnly(s: State, s': State, t: nat)
    requires Inv(s) && Shifts(s, s', t) && ThreadOk(s', t)
    ensures Inv(s')
  {
    HoldersUpdate(s.threads, t, s'.threads[t]);
    FramesKept(s, s');
    hide ThreadOk, LocksOk, FramesOk, TreeOk, Refines, ThreadsOk, InCritical, BuildersApart;
    Quiet(s, s', t);
  }

  /** A handler at a missing entry has an unmapped page; at a leaf entry it is as the entry says. */
  lemma LookedAt(s: State, th: Thread)
    requires Refines(s) && Walking(th) && WalkSide(s, th)
    ensures th.level > 1 && Here(th) !in s.links ==> th.page !in s.table
    ensures th.level == 1 ==> (th.page in s.table <==> Here(th) in s.leaves)
  {
    assert Translate(s, th.page) == if th.page in s.table then Some(s.table[th.page]) else None;
    if th.level > 1 && Here(th) !in s.links { NothingBelow(s.links, th.page, th.level, 1); }
  }

  /** Following a present entry leads to the next table of the path. */
  lemma Followed(s: State, th: Thread, pc: Pc)
    requires Walking(th) && WalkSide(s, th) && th.level > 1 && Here(th) in s.links
    requires pc in {Look1, Look2} || (pc == Walk && th.level > 2) || (pc == Install && th.level == 2)
    ensures WalkSide(s, Down(th, pc, s.links[Here(th)]))
  {
  }

  lemma StepFind(s: State, t: nat)
    requires Inv(s) && t < |s.threads| && s.threads[t].pc == Find
    ensures Inv(Advance(s, t))
  {
    assert ThreadOk(s, t);
    FindOk(s, t);
    hide *;
    MoveOnly(s, Advance(s, t), t);
  }

  lemma FindOk(s: State, t: nat)
    requires LocksOk(s) && t < |s.threads| && ThreadOk(s, t) && s.threads[t].pc == Find
    ensures ThreadOk(Advance(s, t), t) && Shifts(s, Advance(s, t), t)
  {
    hide FrameSide, Fresh, NodeAt, FindFrom;
    var i := FindRegion(s.regions, s.threads[t].page);
    if i < |s.regions| {
      assert LockOk(s, i);
      assert s.owner[i] != t;
    }
    FindFrames(s, t);
    FindWalks(s, t);
    hide WalkSide, LockOk;
  }

  lemma FindWalks(s: State, t: nat)
    requires t < |s.threads| && WalkSide(s, s.threads[t]) && s.threads[t].pc == Find
    ensures WalkSide(Advance(s, t), Advance(s, t).threads[t])
  {
  }

  lemma FindFrames(s: State, t: nat)
    requires t < |s.threads| && FrameSide(s, t) && s.threads[t].pc == Find
    ensures FrameSide(Advance(s, t), t)
  {
  }

  lemma StepLook(s: State, t: nat)
    requires Inv(s) && t < |s.threads| && s.threads[t].pc in {Look1, Look2}
    ensures Inv(Advance(s, t))
  {
    assert ThreadOk(s, t);
    var th := s.threads[t];
    LookedAt(s, th);
    if th.level > 1 && Here(th) in s.links { Followed(s, th, th.pc); }
    LookOk(s, t);
    hide *;
    MoveOnly(s, Advance(s, t), t);
  }

  lemma LookOk(s: State, t: nat)
    requires t < |s.threads| && ThreadOk(s, t) && s.threads[t].pc in {Look1, Look2}
    requires var th := s.threads[t];
      && (th.level > 1 && Here(th) !in s.links ==> th.page !in s.table)
      && (th.level == 1 ==> (th.page in s.table <==> Here(th) in s.leaves))
      && (th.level > 1 && Here(th) in s.links ==> WalkSide(s, Down(th, th.pc, s.links[Here(th)])))
    ensures ThreadOk(Advance(s, t), t) && Shifts(s, Advance(s, t), t)
  {
    hide NodeAt;
    LookWalks(s, t);
    hide Here, WalkSide, FindRegion;
  }

  lemma LookWalks(s: State, t: nat)
    requires t < |s.threads| && Fits(s, s.threads[t]) && WalkSide(s, s.threads[t]) && s.threads[t].pc in {Look1, Look2}
    requires var th := s.threads[t];
      th.level > 1 && Here(th) in s.links ==> WalkSide(s, Down(th, th.pc, s.links[Here(th)]))
    ensures WalkSide(Advance(s, t), Advance(s, t).threads[t])
  {
    var th := s.threads[t];
    var th' := Advance(s, t).threads[t];
    assert Advance(s, t) == At(s, t, th');
    assert (Here(th) in s.links && th' == Down(th, th.pc, s.links[Here(th)])) ||
      th' == th.(pc := th'.pc, result := th'.result);
    hide Advance, Moved, Looked, NodeAt, Here, SlotAt, Fresh, Down;
  }

  lemma StepTryLock(s: State, t: nat)
    requires Inv(s) && t < |s.threads| && s.threads[t].pc == TryLock
    ensures Inv(Advance(s, t))
  {
    assert ThreadOk(s, t);
    var th := s.threads[t];
    assert LockOk(s, th.region);
    if s.locks[th.region] == 0 {
      Acquire(s, t);
    } else {
      MoveOnly(s, Advance(s, t), t);
    }
  }

  /** A successful compare-and-swap makes t the one owner of the lock. */
  lemma Acquire(s: State, t: nat)
    requires Inv(s) && t < |s.threads| && s.threads[t].pc == TryLock && s.threads[t].region < |s.locks|
    requires s.locks[s.threads[t].region] == 0
    ensures Inv(Advance(s, t))
  {
    assert ThreadOk(s, t);
    assert LockOk(s, s.threads[t].region);
    AcquireLocks(s, t);
    AcquireSelf(s, t);
    AcquireShape(s, t);
    hide ThreadOk, LockOk, Advance;
    Switch(s, Advance(s, t), t);
  }

  /** Only thread t and who owns which lock have changed; nobody else was or becomes an owner. */
  ghost predicate Switches(s: State, s': State, t: nat) {
    && t < |s.threads| == |s'.threads| && s'.threads == s.threads[t := s'.threads[t]]
    && s' == s.(threads := s'.threads, locks := s'.locks, owner := s'.owner)
    && |s'.locks| == |s.locks| && |s'.owner| == |s.owner|
    && (forall r: nat | r < |s.owner| ::
      s'.owner[r] == s.owner[r] || (s.owner[r] in {t, NOBODY} && s'.owner[r] in {t, NOBODY}))
    && !Holding(s.threads[t]) && !Holding(s'.threads[t]) && !Building(s'.threads[t])
  }

  lemma Switch(s: State, s': State, t: nat)
    requires Inv(s) && Switches(s, s', t) && LocksOk(s') && ThreadOk(s', t)
    ensures Inv(s')
  {
    hide ThreadOk, LocksOk, InCritical;
    HoldersUpdate(s.threads, t, s'.threads[t]);
    FramesKept(s, s');
    assert TreeOk(s') && Refines(s') by {
      assert forall p :: Translate(s', p) == Translate(s, p);
      hide Translate;
    }
    hide FramesOk, TreeOk, Refines;
    forall u: nat | u < |s.threads| && u != t ensures ThreadOk(s', u) { OwnersChange(s, s', t, u); }
    OthersStand(s, s', t);
  }

  lemma AcquireShape(s: State, t: nat)
    requires t < |s.threads| && LockSide(s, t) && s.threads[t].pc == TryLock && s.locks[s.threads[t].region] == 0
    requires s.owner[s.threads[t].region] == NOBODY
    ensures Switches(s, Advance(s, t), t)
  {
    hide FindRegion, Here;
  }

  lemma AcquireLocks(s: State, t: nat)
    requires LocksOk(s) && t < |s.threads| && LockSide(s, t) && s.threads[t].pc == TryLock
    requires s.locks[s.threads[t].region] == 0
    ensures LocksOk(Advance(s, t))
  {
    hide FindRegion;
    forall k: nat | k < |s.regions| ensures LockOk(Advance(s, t), k) { assert LockOk(s, k); }
  }

  lemma AcquireSelf(s: State, t: nat)
    requires t < |s.threads| && ThreadOk(s, t) && s.threads[t].pc == TryLock && s.locks[s.threads[t].region] == 0
    ensures ThreadOk(Advance(s, t), t)
  {
    hide Fresh, FindRegion;
  }

  /** A change of owner that is not to or from thread u leaves thread u as it stands. */
  lemma OwnersChange(s: State, s': State, t: nat, u: nat)
    requires t < |s.threads| == |s'.threads| && s'.threads == s.threads[t := s'.threads[t]]
    requires s' == s.(threads := s'.threads, locks := s'.locks, owner := s'.owner)
    requires |s'.locks| == |s.locks| && |s'.owner| == |s.owner|
    requires forall r: nat | r < |s.owner| :: s'.owner[r] == s.owner[r] || (s.owner[r] != u && s'.owner[r] != u)
    requires u < |s.threads| && u != t && ThreadOk(s, u)
    ensures ThreadOk(s', u)
  {
    hide Fresh, FindRegion, NodeAt;
  }

  lemma StepSpin(s: State, t: nat)
    requires Inv(s) && t < |s.threads| && s.threads[t].pc == Spin
    ensures Inv(Advance(s, t))
  {
    assert ThreadOk(s, t);
    MoveOnly(s, Advance(s, t), t);
  }

  lemma StepAlloc(s: State, t: nat)
    requires Inv(s) && t < |s.threads| && s.threads[t].pc == Alloc
    ensures Inv(Advance(s, t))
  {
    assert ThreadOk(s, t);
    if s.pool == [] {
      MoveOnly(s, Advance(s, t), t);
    } else {
      TakeFrame(s, t);
    }
  }

  /** Taking a frame moves it from the pool into the hands of t. */
  lemma TakeFrame(s: State, t: nat)
    requires Inv(s) && t < |s.threads| && s.threads[t].pc == Alloc && s.pool != []
    ensures Inv(Advance(s, t))
  {
    assert ThreadOk(s, t);
    var s' := Advance(s, t);
    assert s.pool[0] in s.pool;
    HoldersUpdate(s.threads, t, s'.threads[t]);
    TakeFrameFrames(s, t);
    TakeOk(s, t);
    hide ThreadOk, LocksOk, FramesOk, TreeOk, Refines, ThreadsOk, Undisturbed;
    Quiet(s, s', t);
  }

  lemma TakeOk(s: State, t: nat)
    requires t < |s.threads| && ThreadOk(s, t) && s.threads[t].pc == Alloc && s.pool != []
    requires s.pool[0] in s.role && s.role[s.pool[0]] == Pooled
    ensures Undisturbed(s, Advance(s, t), t) && ThreadOk(Advance(s, t), t)
  {
    hide SlotAt, FindRegion, Fresh, NodeAt;
  }

  lemma TakeFrameFrames(s: State, t: nat)
    requires t < |s.threads| && Fits(s, s.threads[t]) && FramesOk(s) && s.threads[t].pc == Alloc && s.pool != []
    ensures FramesOk(Advance(s, t))
  {
    assert s.pool[0] in s.pool;
    assert s.pool == [s.pool[0]] + s.pool[1..];
  }

  lemma StepFill(s: State, t: nat)
    requires Inv(s) && t < |s.threads| && s.threads[t].pc == Fill
    ensures Inv(Advance(s, t))
  {
    assert ThreadOk(s, t);
    FillShape(s, t);
    FillOk(s, t);
    HoldingOn(s, Advance(s, t), t);
    hide *;
    Quiet(s, Advance(s, t), t);
  }

  /** Thread t keeps its frame and stays in the critical section; frames keep their roles. */
  ghost predicate KeepsFrame(s: State, s': State, t: nat) {
    && t < |s.threads| == |s'.threads| && s'.threads == s.threads[t := s'.threads[t]]
    && Holding(s.threads[t]) && Holding(s'.threads[t]) && s'.threads[t].frame == s.threads[t].frame
    && InCritical(s'.threads[t]) == InCritical(s.threads[t]) && s'.threads[t].region == s.threads[t].region
    && s'.pool == s.pool && s'.role == s.role && s'.table == s.table && s'.taken == s.taken && s'.leaks == s.leaks
  }

  lemma HoldingOn(s: State, s': State, t: nat)
    requires FramesOk(s) && Accounts(s) && KeepsFrame(s, s', t)
    ensures FramesOk(s') && Accounts(s')
  {
    HoldersUpdate(s.threads, t, s'.threads[t]);
    FramesKept(s, s');
    hide FramesOk, Holding, InCritical;
  }

  lemma FillShape(s: State, t: nat)
    requires t < |s.threads| && LockSide(s, t) && s.threads[t].pc == Fill
    ensures var s' := Advance(s, t);
      && KeepsFrame(s, s', t)
      && InCritical(s'.threads[t]) == InCritical(s.threads[t])
      && (InCritical(s.threads[t]) ==> s'.threads[t].region == s.threads[t].region)
      && forall u: nat | u < |s.threads| && u != t :: BuildersApart(s'.threads[t], s.threads[u])
  {
    hide Here;
  }

  lemma FillOk(s: State, t: nat)
    requires t < |s.threads| && ThreadOk(s, t) && s.threads[t].pc == Fill
    ensures Undisturbed(s, Advance(s, t), t) && ThreadOk(Advance(s, t), t)
  {
    hide SlotAt, FindRegion, Fresh;
  }

  lemma StepWalk(s: State, t: nat)
    requires Inv(s) && t < |s.threads| && s.threads[t].pc in {Walk, Reread} && Free(s, Run(t))
    ensures Inv(Advance(s, t))
  {
    assert ThreadOk(s, t);
    var th := s.threads[t];
    if Here(th) in s.links { Followed(s, th, if th.level <= 2 then Install else Walk); }
    WalkOk(s, t);
    hide *;
    MoveOnly(s, Advance(s, t), t);
  }

  lemma WalkOk(s: State, t: nat)
    requires t < |s.threads| && ThreadOk(s, t) && s.threads[t].pc in {Walk, Reread} && Free(s, Run(t))
    requires var th := s.threads[t];
      Here(th) in s.links ==> WalkSide(s, Deeper(th, s.links[Here(th)]))
    ensures ThreadOk(Advance(s, t), t) && Shifts(s, Advance(s, t), t)
  {
    hide NodeAt, SlotAt, Fresh;
  }

  /** A frame for the table, or the silent failure that loses the data frame. */
  lemma StepGrab(s: State, t: nat)
    requires Inv(s) && t < |s.threads| && s.threads[t].pc == Grab
    ensures Inv(Advance(s, t))
  {
    assert ThreadOk(s, t);
    GrabOk(s, t);
    GrabFrames(s, t);
    forall u: nat | u < |s.threads| && u != t ensures BuildersApart(Advance(s, t).threads[t], s.threads[u]) {
      assert ThreadOk(s, u) && BuildersApart(s.threads[t], s.threads[u]);
      GrabApart(s, t, u);
    }
    hide *;
    Quiet(s, Advance(s, t), t);
  }

  lemma GrabApart(s: State, t: nat, u: nat)
    requires t < |s.threads| && Fits(s, s.threads[t]) && s.threads[t].pc == Grab && u < |s.threads|
    requires WalkSide(s, s.threads[u]) && BuildersApart(s.threads[t], s.threads[u])
    ensures t < |Advance(s, t).threads| && BuildersApart(Advance(s, t).threads[t], s.threads[u])
  {
    hide NodeAt, Fresh;
  }

  lemma GrabFrames(s: State, t: nat)
    requires FramesOk(s) && Accounts(s) && t < |s.threads| && LockSide(s, t) && FrameSide(s, t)
    requires s.threads[t].pc == Grab
    ensures var s', th := Advance(s, t), s.threads[t];
      && |s'.threads| == |s.threads| && s'.threads == s.threads[t := s'.threads[t]] && FramesOk(s') && Accounts(s')
      && InCritical(s'.threads[t]) == InCritical(th) && s'.threads[t].region == th.region
  {
    var s' := Advance(s, t);
    if s.spare == 0 {
      HoldersUpdate(s.threads, t, s'.threads[t]);
      LosesFrame(s, s', t);
      hide FramesOk, Here;
    } else {
      assert KeepsFrame(s, s', t) by { hide FramesOk, Here; }
      HoldingOn(s, s', t);
    }
  }

  lemma GrabOk(s: State, t: nat)
    requires t < |s.threads| && ThreadOk(s, t) && TreeOk(s) && s.threads[t].pc == Grab
    ensures Undisturbed(s, Advance(s, t), t) && ThreadOk(Advance(s, t), t)
  {
    hide NodeAt, SlotAt, FindRegion, Injective;
  }

  lemma LosesFrame(s: State, s': State, t: nat)
    requires FramesOk(s) && t < |s.threads| == |s'.threads| && Holding(s.threads[t]) && !Holding(s'.threads[t])
    requires s'.threads == s.threads[t := s'.threads[t]] && s'.pool == s.pool && s'.table == s.table
    requires var f := s.threads[t].frame; f in s.role && s.role[f] == HeldBy(t) && s'.role == s.role[f := Leaked]
    ensures FramesOk(s')
  {
    hide Holding;
  }

  /** Hanging a fresh table changes no translation and no path that is there. */
  lemma StepHang(s: State, t: nat)
    requires Inv(s) && t < |s.threads| && s.threads[t].pc == Hang
    ensures Inv(Advance(s, t))
  {
    assert ThreadOk(s, t);
    var th, s' := s.threads[t], Advance(s, t);
    HoldersUpdate(s.threads, t, s'.threads[t]);
    FramesKept(s, s');
    HangTree(s, t);
    HangSelf(s, t);
    LocksStay(s, s', t);
    forall u: nat | u < |s.threads| && u != t ensures ThreadOk(s', u) {
      assert ThreadOk(s, u) && BuildersApart(s.threads[t], s.threads[u]);
      HangOther(s, t, u);
    }
    hide ThreadOk, LocksOk, FramesOk, TreeOk, Refines;
    OthersStand(s, s', t);
  }

  lemma HangTree(s: State, t: nat)
    requires TreeOk(s) && Refines(s) && t < |s.threads| && ThreadOk(s, t) && s.threads[t].pc == Hang
    ensures TreeOk(Advance(s, t)) && Refines(Advance(s, t))
  {
    var th, s' := s.threads[t], Advance(s, t);
    NotThere(s.links, th.made, th.page, th.level);
    assert Made(th.node, s.built) by { WalkedMade(s, th.page, th.level); }
    assert s'.links == s.links[Here(th) := th.made] && s'.leaves == s.leaves && s'.table == s.table;
    hide Advance, LockSide, FrameSide;
    forall p | WalkTree.Aligned(p) ensures Translate(s', p) == Translate(s, p) {
      GrowLookup(s.links, s.leaves, Here(th), th.made, p);
    }
  }

  /** The tables of a path were made by handlers. */
  lemma WalkedMade(s: State, p: VPage, level: nat)
    requires TreeOk(s) && NodeAt(s.links, p, level).Some?
    ensures Made(NodeAt(s.links, p, level).value, s.built)
  {
  }

  lemma HangSelf(s: State, t: nat)
    requires t < |s.threads| && ThreadOk(s, t) && s.threads[t].pc == Hang
    ensures ThreadOk(Advance(s, t), t)
  {
    var th := s.threads[t];
    NotThere(s.links, th.made, th.page, th.level);
    GrowNode(s.links, Here(th), th.made, th.page, th.level);
    hide NodeAt;
  }

  lemma HangOther(s: State, t: nat, u: nat)
    requires t < |s.threads| && ThreadOk(s, t) && s.threads[t].pc == Hang && u < |s.threads| && u != t && ThreadOk(s, u)
    requires BuildersApart(s.threads[t], s.threads[u])
    ensures ThreadOk(Advance(s, t), u)
  {
    var th, s' := s.threads[t], Advance(s, t);
    NotThere(s.links, th.made, th.page, th.level);
    assert s'.threads[u] == s.threads[u] && Undisturbed(s.(links := s'.links), s', t);
    assert ThreadOk(s.(links := s'.links), u) by { LinkAdded(s, s'.links, Here(th), th.made, u); }
    OthersUndisturbed(s.(links := s'.links), s', t, u);
  }

  lemma LinkAdded(s: State, links: Links, a: Slot, id: nat, u: nat)
    requires u < |s.threads| && ThreadOk(s, u) && links == s.links[a := id] && a !in s.links && a.node != Table(id)
    requires Fresh(s.links, s.leaves, id)
    requires Building(s.threads[u]) ==> Here(s.threads[u]) != a
    requires s.threads[u].pc == Hang ==> s.threads[u].made != id && a.node != Table(s.threads[u].made)
    ensures ThreadOk(s.(links := links), u)
  {
    var th := s.threads[u];
    if Walking(th) { GrowNode(s.links, a, id, th.page, th.level); }
    hide NodeAt, FrameSide;
    FramesElsewhere(s, links, u);
  }

  lemma FramesElsewhere(s: State, links: Links, u: nat)
    requires u < |s.threads| && FrameSide(s, u)
    ensures FrameSide(s.(links := links), u)
  {
  }

  /** Writing the leaf entry maps the held frame at the page. */
  lemma StepInstall(s: State, t: nat)
    requires Inv(s) && t < |s.threads| && s.threads[t].pc == Install
    ensures Inv(Advance(s, t))
  {
    assert ThreadOk(s, t);
    var th, s' := s.threads[t], Advance(s, t);
    InstallAccounts(s, t);
    MapsFrame(s, s', t);
    InstallTree(s, t);
    LocksStay(s, s', t);
    InstallSelf(s, t);
    forall u: nat | u < |s.threads| && u != t ensures ThreadOk(s', u) {
      assert ThreadOk(s, u);
      InstallOther(s, t, u);
    }
    hide ThreadOk, LocksOk, FramesOk, TreeOk, Refines, Accounts;
    OthersStand(s, s', t);
  }

  lemma InstallTree(s: State, t: nat)
    requires TreeOk(s) && Refines(s) && t < |s.threads| && ThreadOk(s, t) && s.threads[t].pc == Install
    ensures TreeOk(Advance(s, t)) && Refines(Advance(s, t))
  {
    var th, s' := s.threads[t], Advance(s, t);
    WalkedMade(s, th.page, 1);
    assert s'.links == s.links && s'.leaves == s.leaves[Here(th) := th.frame] &&
      s'.table == s.table[th.page := th.frame];
    hide Advance, LockSide, FrameSide;
    forall p | WalkTree.Aligned(p) ensures Translate(s', p) == if p in s'.table then Some(s'.table[p]) else None {
      LeafLookup(s.links, s.leaves, th.page, th.frame, p);
    }
  }

  lemma InstallSelf(s: State, t: nat)
    requires t < |s.threads| && ThreadOk(s, t) && s.threads[t].pc == Install
    ensures ThreadOk(Advance(s, t), t)
  {
    hide NodeAt, FindRegion;
  }

  /** A handler of another page does not notice; one of the same page would be in the same critical section. */
  lemma InstallOther(s: State, t: nat, u: nat)
    requires t < |s.threads| && ThreadOk(s, t) && s.threads[t].pc == Install
    requires u < |s.threads| && u != t && ThreadOk(s, u)
    ensures ThreadOk(Advance(s, t), u)
  {
    InstallOtherWalks(s, t, u);
    hide WalkSide;
  }

  lemma InstallOtherWalks(s: State, t: nat, u: nat)
    requires t < |s.threads| && LockSide(s, t) && WalkSide(s, s.threads[t]) && s.threads[t].pc == Install
    requires u < |s.threads| && u != t && WalkSide(s, s.threads[u])
    ensures WalkSide(Advance(s, t), s.threads[u])
  {
    if s.threads[u].pc == Hang { NotThere(s.links, s.threads[u].made, s.threads[t].page, 1); }
  }

  lemma InstallAccounts(s: State, t: nat)
    requires t < |s.threads| && Fits(s, s.threads[t]) && s.threads[t].pc == Install && s.threads[t].page !in s.table
    requires Accounts(s)
    ensures Accounts(Advance(s, t))
  {
    var s', p := Advance(s, t), s.threads[t].page;
    HoldersUpdate(s.threads, t, s'.threads[t]);
    assert s'.table.Keys == s.table.Keys + {p};
  }

  lemma MapsFrame(s: State, s': State, t: nat)
    requires FramesOk(s) && t < |s.threads| == |s'.threads| && Holding(s.threads[t]) && !Holding(s'.threads[t])
    requires s'.threads == s.threads[t := s'.threads[t]] && s'.pool == s.pool
    requires var p, f := s.threads[t].page, s.threads[t].frame;
      && f in s.role && s.role[f] == HeldBy(t) && p !in s.table
      && s'.table == s.table[p := f] && s'.role == s.role[f := MappedAt(p)]
    ensures FramesOk(s')
  {
    hide Holding;
  }

  lemma StepUnlock(s: State, t: nat)
    requires Inv(s) && t < |s.threads| && s.threads[t].pc == Unlock
    ensures Inv(Advance(s, t))
  {
    assert ThreadOk(s, t);
    UnlockLocks(s, t);
    UnlockSelf(s, t);
    UnlockShape(s, t);
    hide ThreadOk, LockOk, Advance;
    Switch(s, Advance(s, t), t);
  }

  lemma UnlockShape(s: State, t: nat)
    requires t < |s.threads| && LockSide(s, t) && s.threads[t].pc == Unlock
    ensures Switches(s, Advance(s, t), t)
  {
    hide FindRegion, Here;
  }

  lemma UnlockLocks(s: State, t: nat)
    requires LocksOk(s) && t < |s.threads| && LockSide(s, t) && s.threads[t].pc == Unlock
    ensures LocksOk(Advance(s, t))
  {
    hide FindRegion;
    forall k: nat | k < |s.regions| ensures LockOk(Advance(s, t), k) { assert LockOk(s, k); }
  }

  lemma UnlockSelf(s: State, t: nat)
    requires t < |s.threads| && ThreadOk(s, t) && s.threads[t].pc == Unlock
    ensures ThreadOk(Advance(s, t), t)
  {
    hide NodeAt, FindRegion, Fresh;
  }

  lemma Resting(s: State, t: nat)
    requires t < |s.threads| && s.threads[t].pc in {Idle, Done}
    ensures Advance(s, t) == s
  {
    assert s.threads[t := s.threads[t]] == s.threads;
  }

  /** Each access of each thread keeps the invariant, as long as no handler finds a table missing that another
      is about to hang. */
  lemma StepKeeps(s: State, t: nat)
    requires Inv(s) && t < |s.threads| && Free(s, Run(t))
    ensures Inv(Advance(s, t)) && |Advance(s, t).threads| == |s.threads|
  {
    AdvanceThreads(s, t);
    if s.threads[t].pc in {Idle, Done} { Resting(s, t); }
    hide *;
    match s.threads[t].pc
    case Idle => case Done =>
    case Find => StepFind(s, t);
    case Look1 => StepLook(s, t);
    case TryLock => StepTryLock(s, t);
    case Spin => StepSpin(s, t);
    case Look2 => StepLook(s, t);
    case Alloc => StepAlloc(s, t);
    case Fill => StepFill(s, t);
    case Walk => StepWalk(s, t);
    case Grab => StepGrab(s, t);
    case Hang => StepHang(s, t);
    case Reread => StepWalk(s, t);
    case Install => StepInstall(s, t);
    case Unlock => StepUnlock(s, t);
  }

  // ----- events -----

  lemma BeginKeeps(s: State, t: nat, root: nat, virt: nat)
    requires Inv(s)
    ensures Inv(Next(s, Begin(t, root, virt)))
  {
    var s' := Next(s, Begin(t, root, virt));
    if t < |s.threads| && s.threads[t].pc in {Idle, Done} && virt < 0x1_0000_0000_0000 {
      assert ThreadOk(s, t);
      BeginOk(s, t, root, virt);
      hide *;
      MoveOnly(s, s', t);
    }
  }

  lemma BeginOk(s: State, t: nat, root: nat, virt: nat)
    requires t < |s.threads| && ThreadOk(s, t) && s.threads[t].pc in {Idle, Done} && virt < 0x1_0000_0000_0000
    ensures var s' := Next(s, Begin(t, root, virt)); Shifts(s, s', t) && ThreadOk(s', t)
  {
    var s' := Next(s, Begin(t, root, virt));
    assert s' == At(s, t, NewFault(root, virt));
    hide Next, NodeAt, Fresh, FindRegion;
  }

  /** Events that leave threads, locks and tables alone. */
  lemma PoolOrContents(s: State, s': State)
    requires Inv(s) && FramesOk(s')
    requires s' == s.(pool := s'.pool, role := s'.role, zeroed := s'.zeroed, spare := s'.spare)
    requires forall f, t: nat | f in s.role && s.role[f] == HeldBy(t) ::
      f in s'.role && s'.role[f] == HeldBy(t) && (f in s.zeroed ==> f in s'.zeroed)
    ensures Inv(s')
  {
    hide FramesOk, Holders, Injective, FindRegion, NodeAt, BuildersApart;
    assert forall p :: Translate(s', p) == Translate(s, p);
    hide Translate;
    forall u: nat | u < |s'.threads| ensures ThreadOk(s', u) { assert ThreadOk(s, u); }
    forall r: nat | r < |s'.regions| ensures LockOk(s', r) { assert LockOk(s, r); }
  }

  lemma TakeGiveFrames(s: State, e: Event)
    requires FramesOk(s) && (e.Take? || e.Give? || e.Dirty?)
    ensures FramesOk(Next(s, e))
  {
    if e.Take? && s.pool != [] {
      assert s.pool == [s.pool[0]] + s.pool[1..];
      assert s.pool[0] in s.pool;
    }
  }

  lemma TakeKeeps(s: State)
    requires Inv(s)
    ensures Inv(Next(s, Take))
  {
    TakeGiveFrames(s, Take);
    if s.pool != [] {
      assert s.pool[0] in s.pool;
      assert s.role[s.pool[0]] == Pooled;
      hide LocksOk, ThreadsOk, FramesOk, TreeOk, Refines, Accounts;
      PoolOrContents(s, Next(s, Take));
    }
  }

  lemma GiveKeeps(s: State, f: nat)
    requires Inv(s)
    ensures Inv(Next(s, Give(f)))
  {
    TakeGiveFrames(s, Give(f));
    hide LocksOk, ThreadsOk, FramesOk, TreeOk, Refines, Accounts;
    PoolOrContents(s, Next(s, Give(f)));
  }

  lemma DirtyKeeps(s: State, p: VPage)
    requires Inv(s)
    ensures Inv(Next(s, Dirty(p)))
  {
    TakeGiveFrames(s, Dirty(p));
    if p in s.table {
      assert s.role[s.table[p]] == MappedAt(p);
      hide LocksOk, ThreadsOk, FramesOk, TreeOk, Refines, Accounts;
      PoolOrContents(s, Next(s, Dirty(p)));
    }
  }

  lemma SpareKeeps(s: State, spare: nat)
    requires Inv(s)
    ensures Inv(s.(spare := spare))
  {
    SpareFrames(s, spare);
    hide LocksOk, ThreadsOk, FramesOk, TreeOk, Refines, Accounts;
    PoolOrContents(s, s.(spare := spare));
  }

  lemma SpareFrames(s: State, spare: nat)
    requires FramesOk(s)
    ensures FramesOk(s.(spare := spare))
  {
    hide Holding;
  }

  /** Every event that is not a handler finding missing what another builds keeps the invariant. */
  lemma EventKeeps(s: State, e: Event)
    requires Inv(s) && Free(s, e)
    ensures Inv(Next(s, e)) && |Next(s, e).threads| == |s.threads|
  {
    hide Inv, Advance;
    match e
    case Begin(t, root, virt) => BeginKeeps(s, t, root, virt);
    case Run(t) => if t < |s.threads| { StepKeeps(s, t); }
    case Dirty(p) => DirtyKeeps(s, p);
    case Take => TakeKeeps(s);
    case Give(f) => GiveKeeps(s, f);
    case TakeSpare => if s.spare > 0 { SpareKeeps(s, s.spare - 1); }
    case GiveSpare => SpareKeeps(s, s.spare + 1);
  }

  // ----- runs -----

  /** n idle threads, unlocked regions, nothing mapped, no page tables but the roots. */
  function Start(regions: seq<Region>, n: nat, frames: seq<nat>, spare: nat): State {
    State(
      regions, seq(n, _ => NewFault(0, 0).(pc := Idle)), seq(|regions|, _ => 0), map[], map[],
      frames, spare, 0, {}, map[],
      seq(|regions|, _ => NOBODY), map f | f in frames :: Pooled, 0, 0)
  }

  lemma {:induction false} NoHolders(threads: seq<Thread>)
    requires forall t | 0 <= t < |threads| :: !Holding(threads[t])
    ensures Holders(threads) == 0
  {
    if threads != [] { NoHolders(threads[..|threads| - 1]); }
  }

  lemma StartSound(regions: seq<Region>, n: nat, frames: seq<nat>, spare: nat)
    requires forall i, j | 0 <= i < j < |frames| :: frames[i] != frames[j]
    ensures Inv(Start(regions, n, frames, spare))
  {
    NoHolders(Start(regions, n, frames, spare).threads);
    NoTables(Start(regions, n, frames, spare));
  }

  lemma NoTables(s: State)
    requires s.links == map[] && s.leaves == map[] && s.table == map[]
    ensures Refines(s) && TreeOk(s)
  {
  }

  /** Whatever is mapped now was installed, and a translation that is there stays. */
  lemma InstalledOnce(s: State, e: Event)
    requires Inv(s) && Free(s, e)
    ensures forall p | WalkTree.Aligned(p) && Translate(s, p).Some? :: Translate(Next(s, e), p) == Translate(s, p)
  {
    EventKeeps(s, e);
    assert Refines(s) && Refines(Next(s, e));
    assert forall p | p in s.table ::
      p in Next(s, e).table && Next(s, e).table[p] == s.table[p] by { TableGrows(s, e); }
    hide Translate, Next, LocksOk, ThreadsOk, FramesOk, TreeOk, Accounts;
  }

  lemma TableGrows(s: State, e: Event)
    requires Inv(s)
    ensures forall p | p in s.table :: p in Next(s, e).table && Next(s, e).table[p] == s.table[p]
  {
    hide LocksOk, FramesOk, TreeOk, Refines, Accounts, WalkSide, LockSide;
    if e.Run? && e.thread < |s.threads| { assert ThreadOk(s, e.thread); }
  }

  /** Over a whole run in which no handler finds missing what another builds, every translation once
      installed stays as it is. */
  lemma {:induction false} NeverReplaced(s: State, es: seq<Event>)
    requires Inv(s) && FreeRun(s, es)
    ensures Inv(After(s, es)) && |After(s, es).threads| == |s.threads|
    ensures forall p | WalkTree.Aligned(p) && Translate(s, p).Some? :: Translate(After(s, es), p) == Translate(s, p)
    decreases |es|
  {
    if es != [] {
      EventKeeps(s, es[0]);
      InstalledOnce(s, es[0]);
      hide Inv, Next, Translate;
      NeverReplaced(Next(s, es[0]), es[1..]);
    }
  }

  /** No two pages ever translate to the same frame, and no mapped frame is still free or held. */
  lemma MappedApart(s: State, p: VPage, q: VPage, t: nat)
    requires Inv(s) && WalkTree.Aligned(p) && WalkTree.Aligned(q) && t < |s.threads|
    requires Translate(s, p).Some? && Translate(s, q).Some?
    ensures p != q ==> Translate(s, p) != Translate(s, q)
    ensures Translate(s, p).value !in s.pool && (Holding(s.threads[t]) ==> s.threads[t].frame != Translate(s, p).value)
  {
    assert ThreadOk(s, t);
    hide Translate, LocksOk, TreeOk, Accounts, WalkSide, LockSide;
  }

  /** Two threads are never in the critical section of one region. */
  lemma MutualExclusion(s: State, t: nat, u: nat)
    requires Inv(s) && t < |s.threads| && u < |s.threads| && t != u
    ensures !(InCritical(s.threads[t]) && InCritical(s.threads[u]) && s.threads[t].region == s.threads[u].region)
  {
    assert ThreadOk(s, t) && ThreadOk(s, u);
  }

  /** In every state that such a run reaches, the frames the handlers took are the pages that translate, the
      frames held between taking and installing, and the frames lost for want of page tables. */
  lemma FramesAccounted(regions: seq<Region>, n: nat, frames: seq<nat>, spare: nat, es: seq<Event>)
    requires forall i, j | 0 <= i < j < |frames| :: frames[i] != frames[j]
    requires FreeRun(Start(regions, n, frames, spare), es)
    ensures var s := After(Start(regions, n, frames, spare), es);
      && s.taken == |s.table| + Holders(s.threads) + s.leaks
      && forall p :: p in s.table <==> WalkTree.Aligned(p) && Translate(s, p).Some?
  {
    StartSound(regions, n, frames, spare);
    NeverReplaced(Start(regions, n, frames, spare), es);
    var s := After(Start(regions, n, frames, spare), es);
    assert Refines(s);
    hide Start, Translate, After;
  }

  /** A handler that returned 0 left its page mapped, unless it lost its frame for want of page
      tables; without losses the page is always mapped. */
  lemma ReturnedMapped(s: State, t: nat)
    requires Inv(s) && t < |s.threads| && s.threads[t].pc == Done
    ensures s.threads[t].result == 0 && s.leaks == 0 ==> Translate(s, s.threads[t].page).Some?
    ensures s.threads[t].result == 0 && !s.threads[t].lost ==> Translate(s, s.threads[t].page).Some?
  {
    assert ThreadOk(s, t);
    assert Refines(s);
  }

  /** The walk of a handler ends in one of two ways, and the handler goes on to return 0 in both: it writes
      the leaf entry and its page is mapped, or it needs a frame for a table when none is left, and its page is
      not mapped. */
  lemma InstallOutcome(s: State, t: nat)
    requires Inv(s) && t < |s.threads| && s.threads[t].pc in {Walk, Grab, Hang, Reread, Install}
    ensures var s', th := Advance(s, t), s.threads[t];
      && |s'.threads| == |s.threads|
      && (s'.threads[t].pc == Unlock <==> th.pc == Install || (th.pc == Grab && s.spare == 0))
      && (s'.threads[t].pc == Unlock ==>
        s'.threads[t].result == 0 && (Translate(s', th.page).Some? <==> th.pc == Install))
  {
    assert ThreadOk(s, t);
    AdvanceThreads(s, t);
    assert Refines(s);
    if s.threads[t].pc == Install { InstallTree(s, t); }
    if s.threads[t].pc == Grab { GrabTables(s, t); }
    hide Translate, Advance, Here, LocksOk, FramesOk, TreeOk, ThreadsOk, WalkSide;
  }

  lemma GrabTables(s: State, t: nat)
    requires t < |s.threads| && s.threads[t].pc == Grab
    ensures forall p :: Translate(Advance(s, t), p) == Translate(s, p)
  {
    hide Moved;
  }

  /** When the frame of a zero-filling region is installed, it has been zeroed. */
  lemma InstalledZeroed(s: State, t: nat)
    requires Inv(s) && t < |s.threads| && s.threads[t].pc == Install
    requires s.threads[t].region < |s.regions| && s.regions[s.threads[t].region].zeroFill
    ensures var s', p := Advance(s, t), s.threads[t].page;
      && Translate(s, p).None? && Translate(s', p) == Some(s.threads[t].frame) && s.threads[t].frame in s'.zeroed
  {
    assert ThreadOk(s, t);
    InstallTree(s, t);
    assert Refines(s) && Refines(Advance(s, t));
    hide Translate, NodeAt;
  }
}
