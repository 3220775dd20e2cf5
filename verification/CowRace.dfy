/** Copy-on-write faults of several threads, one access to shared memory at a time: when a page still
    reads as if it were private. */
module CowRace {
  import opened Common
  import opened Paging
  import opened CowSpec

  const PAGE_SIZE: nat := 4096

  /** Where a thread stands in the fault handler: the page, its entry as it was read, and how many bytes
      it has copied. */
  datatype Pc =
    | Resting
    | Entered(p: Page, e: Pte)
    | Owning(p: Page, e: Pte)
    | Allocating(p: Page, e: Pte)
    | Copying(p: Page, e: Pte, copy: Addr, i: nat)
    | Restoring(p: Page, e: Pte)

  /** Page entries, counts, the contents of all frames, the free frames, and the threads. */
  datatype System = System(
    view: map<Page, Pte>,
    counts: map<Addr, nat>,
    memory: map<Addr, Content>,
    pool: seq<Addr>,
    threads: seq<Pc>)

  /** A thread starts to handle a fault, a thread makes its next access, or some thread stores a byte; other
      parts of the kernel take frames from the pool and give frames of theirs to it. */
  datatype Event =
    | Fault(t: nat, p: Page)
    | Go(t: nat)
    | Store(p: Page, i: nat, b: Byte)
    | Take
    | Give(f: Addr, c: Content)

  function CountOf(s: System, f: Addr): nat {
    if f in s.counts then s.counts[f] else 0
  }

  /** A store reaches memory when the entry is writable. */
  predicate Stores(s: System, p: Page, i: nat) {
    p in s.view && s.view[p].writable && s.view[p].frame in s.memory && i < |s.memory[s.view[p].frame]|
  }

  predicate Enters(s: System, t: nat, p: Page) {
    t < |s.threads| && s.threads[t].Resting? && p in s.view && s.view[p].cow
  }

  /** The frame is not free, not mapped and not in the hands of a handler. */
  predicate Outside(s: System, f: Addr) {
    && f !in s.pool && (forall q | q in s.view :: s.view[q].frame != f)
    && forall t | 0 <= t < |s.threads| :: !On(s.threads[t], f) && (s.threads[t].Copying? ==> s.threads[t].copy != f)
  }

  predicate On(pc: Pc, f: Addr) {
    !pc.Resting? && pc.e.frame == f
  }

  function Step(s: System, ev: Event): System {
    match ev
    case Fault(t, p) => if Enters(s, t, p) then s.(threads := s.threads[t := Entered(p, s.view[p])]) else s
    case Go(t) => if t < |s.threads| then Advance(s, t) else s
    case Store(p, i, b) =>
      if Stores(s, p, i) then s.(memory := s.memory[s.view[p].frame := s.memory[s.view[p].frame][i := b]]) else s
    case Take => if s.pool == [] then s else s.(pool := s.pool[1..])
    case Give(f, c) =>
      if Outside(s, f) && |c| == PAGE_SIZE then s.(memory := s.memory[f := c], pool := [f] + s.pool) else s
  }

  function Advance(s: System, t: nat): System
    requires t < |s.threads|
  {
    match s.threads[t]
    case Resting => s
    case Entered(p, e) =>
      var n := CountOf(s, e.frame);
      s.(counts := s.counts[e.frame := Down(n)],
         threads := s.threads[t := if n == 1 then Owning(p, e) else Allocating(p, e)])
    case Owning(p, e) => s.(view := s.view[p := Owned(e)], threads := s.threads[t := Resting])
    case Allocating(p, e) =>
      if s.pool == [] then s.(threads := s.threads[t := Restoring(p, e)])
      else s.(pool := s.pool[1..], threads := s.threads[t := Copying(p, e, s.pool[0], 0)])
    case Copying(p, e, copy, i) =>
      if i < PAGE_SIZE then
        s.(memory := CopyByte(s.memory, e.frame, copy, i), threads := s.threads[t := Copying(p, e, copy, i + 1)])
      else s.(view := s.view[p := Owned(e).(frame := copy)], threads := s.threads[t := Resting])
    case Restoring(p, e) =>
      s.(counts := s.counts[e.frame := Up(CountOf(s, e.frame))], threads := s.threads[t := Resting])
  }

  function CopyByte(memory: map<Addr, Content>, from: Addr, to: Addr, i: nat): map<Addr, Content> {
    if from in memory && to in memory && i < |memory[from]| && i < |memory[to]|
    then memory[to := memory[to][i := memory[from][i]]]
    else memory
  }

  function After(s: System, es: seq<Event>): System
    decreases |es|
  {
    if es == [] then s else After(Step(s, es[0]), es[1..])
  }

  // ----- what pages read -----

  function Reads(s: System): map<Page, Content> {
    map p | p in s.view && s.view[p].frame in s.memory :: s.memory[s.view[p].frame]
  }

  /** Memory in which every page is private changes by stores only. */
  function Ideal(m: map<Page, Content>, s: System, ev: Event): map<Page, Content> {
    if ev.Store? && Stores(s, ev.p, ev.i) && ev.p in m && ev.i < |m[ev.p]| then m[ev.p := m[ev.p][ev.i := ev.b]] else m
  }

  function IdealRun(m: map<Page, Content>, s: System, es: seq<Event>): map<Page, Content>
    decreases |es|
  {
    if es == [] then m else IdealRun(Ideal(m, s, es[0]), Step(s, es[0]), es[1..])
  }

  /** Every page reads what it would read with private memory. */
  predicate Isolated(s: System, es: seq<Event>) {
    Reads(After(s, es)) == IdealRun(Reads(s), s, es)
  }

  // ----- what holds while no two threads handle faults on one frame -----

  /** The thread is between reading the count and writing the entry, with the count lowered. */
  predicate Lowered(pc: Pc) {
    pc.Owning? || pc.Allocating? || pc.Copying? || pc.Restoring?
  }

  ghost predicate LoweredOn(s: System, f: Addr) {
    exists t :: 0 <= t < |s.threads| && On(s.threads[t], f) && Lowered(s.threads[t])
  }

  ghost predicate CountOk(s: System, f: Addr) {
    CountOf(s, f) + (if LoweredOn(s, f) then 1 else 0) == |CowPages(s.view, f)|
  }

  ghost predicate MappingOk(s: System, p: Page)
    requires p in s.view
  {
    s.view[p].frame in s.memory && (s.view[p].cow <==> !s.view[p].writable) && s.view[p].frame !in s.pool
  }

  ghost predicate ViewOk(s: System) {
    && (forall p | p in s.view :: MappingOk(s, p))
    && (forall p, q | p in s.view && q in s.view && p != q && s.view[p].frame == s.view[q].frame :: s.view[p].cow)
    && |s.view| < U32
  }

  ghost predicate FramesOk(s: System) {
    && (forall f | f in s.memory :: |s.memory[f]| == PAGE_SIZE)
    && (forall f | f in s.pool :: f in s.memory)
    && (forall i, j | 0 <= i < j < |s.pool| :: s.pool[i] != s.pool[j])
  }

  /** A frame that a thread copies into: nobody else's, and equal to the source so far. */
  ghost predicate CopyOk(s: System, pc: Pc)
    requires pc.Copying?
  {
    && pc.copy in s.memory && pc.copy !in s.pool && pc.i <= PAGE_SIZE
    && (forall q | q in s.view :: s.view[q].frame != pc.copy)
    && pc.e.frame in s.memory && |s.memory[pc.copy]| == |s.memory[pc.e.frame]| == PAGE_SIZE
    && s.memory[pc.copy][..pc.i] == s.memory[pc.e.frame][..pc.i]
  }

  ghost predicate PcOk(s: System, pc: Pc) {
    pc.Resting? || (
      && pc.p in s.view && s.view[pc.p] == pc.e && pc.e.cow
      && (pc.Owning? ==> CowPages(s.view, pc.e.frame) == {pc.p})
      && (pc.Copying? ==> CopyOk(s, pc)))
  }

  ghost predicate PcsApart(a: Pc, b: Pc) {
    a.Resting? || b.Resting? || (a.e.frame != b.e.frame && (a.Copying? && b.Copying? ==> a.copy != b.copy))
  }

  ghost predicate ThreadsOk(s: System) {
    && (forall t | 0 <= t < |s.threads| :: PcOk(s, s.threads[t]))
    && (forall t, u | 0 <= t < |s.threads| && 0 <= u < |s.threads| && t != u :: PcsApart(s.threads[t], s.threads[u]))
  }

  ghost predicate Inv(s: System) {
    ViewOk(s) && FramesOk(s) && ThreadsOk(s) && forall f :: CountOk(s, f)
  }

  /** No other thread is handling a fault on the frame of the page. */
  ghost predicate Free(s: System, ev: Event) {
    ev.Fault? && Enters(s, ev.t, ev.p) ==> forall u | 0 <= u < |s.threads| :: !On(s.threads[u], s.view[ev.p].frame)
  }

  ghost predicate FreeRun(s: System, es: seq<Event>)
    decreases |es|
  {
    es == [] || (Free(s, es[0]) && FreeRun(Step(s, es[0]), es[1..]))
  }

  // ----- steps of one thread -----

  /** Thread t moves on, on the frame it was on or was free to enter; the others stay where they are. */
  ghost predicate Moves(s: System, s': System, t: nat, pc: Pc) {
    && t < |s.threads| && s'.threads == s.threads[t := pc]
    && forall u | 0 <= u < |s.threads| && u != t :: PcsApart(pc, s.threads[u]) && PcsApart(s.threads[u], pc)
  }

  /** Whether a lowered count belongs to thread t; no other thread is on its frame. */
  lemma LoweredByOne(s: System, t: nat, f: Addr)
    requires ThreadsOk(s) && t < |s.threads| && On(s.threads[t], f)
    ensures LoweredOn(s, f) <==> Lowered(s.threads[t])
  {
    assert forall u | 0 <= u < |s.threads| && u != t :: PcsApart(s.threads[t], s.threads[u]);
  }

  lemma LoweredByOthers(s: System, s': System, t: nat, pc: Pc, g: Addr)
    requires t < |s.threads| && s'.threads == s.threads[t := pc]
    requires On(pc, g) && Lowered(pc) <==> On(s.threads[t], g) && Lowered(s.threads[t])
    ensures LoweredOn(s', g) <==> LoweredOn(s, g)
  {
    if LoweredOn(s, g) {
      var u :| 0 <= u < |s.threads| && On(s.threads[u], g) && Lowered(s.threads[u]);
      assert On(s'.threads[u], g) && Lowered(s'.threads[u]);
    }
    if LoweredOn(s', g) {
      var u :| 0 <= u < |s'.threads| && On(s'.threads[u], g) && Lowered(s'.threads[u]);
      assert On(s.threads[u], g) && Lowered(s.threads[u]);
    }
  }

  /** The position of one thread changes, and nothing else. */
  lemma PcOnly(s: System, s': System, t: nat, pc: Pc)
    requires Inv(s) && Moves(s, s', t, pc) && s' == s.(threads := s'.threads) && PcOk(s', pc)
    requires forall g :: On(pc, g) && Lowered(pc) <==> On(s.threads[t], g) && Lowered(s.threads[t])
    ensures Inv(s') && Reads(s') == Reads(s)
  {
    forall u | 0 <= u < |s.threads| && u != t ensures PcOk(s', s'.threads[u]) { assert PcOk(s, s.threads[u]); }
    forall g ensures CountOk(s', g) {
      LoweredByOthers(s, s', t, pc, g);
      assert CountOk(s, g);
    }
  }

  lemma FaultKeeps(s: System, t: nat, p: Page)
    requires Inv(s) && Enters(s, t, p) && Free(s, Fault(t, p))
    ensures Inv(Step(s, Fault(t, p))) && Reads(Step(s, Fault(t, p))) == Reads(s)
  {
    PcOnly(s, Step(s, Fault(t, p)), t, Entered(p, s.view[p]));
  }

  /** What is known of a thread in the handler. */
  lemma Standing(s: System, t: nat)
    requires Inv(s) && t < |s.threads| && !s.threads[t].Resting?
    ensures PcOk(s, s.threads[t]) && MappingOk(s, s.threads[t].p)
    ensures forall u | 0 <= u < |s.threads| && u != t ::
      PcsApart(s.threads[t], s.threads[u]) && PcsApart(s.threads[u], s.threads[t])
  {
  }

  /** The counts after a step that lowers or restores the count of one frame. */
  lemma CountsMove(s: System, s': System, t: nat, pc: Pc, n: nat)
    requires Inv(s) && t < |s.threads| && !s.threads[t].Resting?
    requires s'.threads == s.threads[t := pc] && s'.view == s.view
    requires (forall g :: On(pc, g) ==> g == s.threads[t].e.frame) && s'.counts == s.counts[s.threads[t].e.frame := n]
    requires ThreadsOk(s') && n + (if Lowered(pc) then 1 else 0) == |CowPages(s.view, s.threads[t].e.frame)|
    requires Lowered(pc) ==> !pc.Resting? && pc.e.frame == s.threads[t].e.frame
    requires !Lowered(pc) ==> pc.Resting?
    ensures forall g :: CountOk(s', g)
  {
    var f := s.threads[t].e.frame;
    forall g ensures CountOk(s', g) {
      assert CountOk(s, g);
      if g == f {
        FrameCount(s, s', t, pc);
      } else {
        LoweredByOthers(s, s', t, pc, g);
      }
    }
  }

  lemma FrameCount(s: System, s': System, t: nat, pc: Pc)
    requires Inv(s) && t < |s.threads| && !s.threads[t].Resting? && s'.threads == s.threads[t := pc]
    requires Lowered(pc) ==> !pc.Resting? && pc.e.frame == s.threads[t].e.frame
    requires !Lowered(pc) ==> pc.Resting?
    ensures LoweredOn(s', s.threads[t].e.frame) <==> Lowered(pc)
  {
    var f := s.threads[t].e.frame;
    assert forall u | 0 <= u < |s.threads| && u != t :: PcsApart(s.threads[t], s.threads[u]);
    if Lowered(pc) { assert On(s'.threads[t], f); }
  }

  /** The page is one of the marked ones that its frame counts. */
  lemma Counted(s: System, t: nat)
    requires Inv(s) && t < |s.threads| && !s.threads[t].Resting?
    ensures var f := s.threads[t].e.frame;
      && 1 <= |CowPages(s.view, f)| < U32 && s.threads[t].p in CowPages(s.view, f)
      && CountOf(s, f) + (if Lowered(s.threads[t]) then 1 else 0) == |CowPages(s.view, f)|
      && (|CowPages(s.view, f)| == 1 ==> CowPages(s.view, f) == {s.threads[t].p})
  {
    var pc := s.threads[t];
    Standing(s, t);
    LoweredByOne(s, t, pc.e.frame);
    assert CountOk(s, pc.e.frame);
    SubsetSize({pc.p}, CowPages(s.view, pc.e.frame));
    CowPagesBound(s.view, pc.e.frame);
    forall q | q in CowPages(s.view, pc.e.frame) && |CowPages(s.view, pc.e.frame)| == 1 ensures q == pc.p {
      OnlyOne(s.view, pc.p, q, pc.e.frame);
    }
  }

  lemma EnteredKeeps(s: System, t: nat)
    requires Inv(s) && t < |s.threads| && s.threads[t].Entered?
    ensures Inv(Advance(s, t)) && Reads(Advance(s, t)) == Reads(s)
  {
    var s', f := Advance(s, t), s.threads[t].e.frame;
    Standing(s, t);
    Counted(s, t);
    SmallWord(CountOf(s, f) - 1, U32);
    forall u | 0 <= u < |s.threads| && u != t ensures PcOk(s', s'.threads[u]) { assert PcOk(s, s.threads[u]); }
    assert PcOk(s', s'.threads[t]);
    CountsMove(s, s', t, s'.threads[t], CountOf(s, f) - 1);
  }

  lemma RestoringKeeps(s: System, t: nat)
    requires Inv(s) && t < |s.threads| && s.threads[t].Restoring?
    ensures Inv(Advance(s, t)) && Reads(Advance(s, t)) == Reads(s)
  {
    var s', f := Advance(s, t), s.threads[t].e.frame;
    Counted(s, t);
    SmallWord(CountOf(s, f) + 1, U32);
    forall u | 0 <= u < |s.threads| && u != t ensures PcOk(s', s'.threads[u]) { assert PcOk(s, s.threads[u]); }
    CountsMove(s, s', t, Resting, CountOf(s, f) + 1);
  }

  lemma AllocatingKeeps(s: System, t: nat)
    requires Inv(s) && t < |s.threads| && s.threads[t].Allocating?
    ensures Inv(Advance(s, t)) && Reads(Advance(s, t)) == Reads(s)
  {
    var s', pc := Advance(s, t), s.threads[t];
    Standing(s, t);
    if s.pool == [] {
      PcOnly(s, s', t, Restoring(pc.p, pc.e));
    } else {
      TakenApart(s);
      forall u | 0 <= u < |s.threads| && u != t
        ensures PcOk(s', s'.threads[u]) && PcsApart(s'.threads[t], s'.threads[u])
      {
        assert PcOk(s, s.threads[u]);
      }
      assert s.memory[s.pool[0]][..0] == s.memory[pc.e.frame][..0];
      assert PcOk(s', s'.threads[t]);
      forall g ensures CountOk(s', g) {
        assert CountOk(s, g);
        LoweredByOthers(s, s', t, s'.threads[t], g);
      }
    }
  }

  lemma TakenApart(s: System)
    requires ViewOk(s) && FramesOk(s) && s.pool != []
    ensures var c, s' := s.pool[0], s.(pool := s.pool[1..]);
      && c in s.memory && c !in s'.pool && ViewOk(s') && FramesOk(s')
      && (forall f | f in s'.pool :: f in s.pool) && c in s.pool && forall q | q in s.view :: s.view[q].frame != c
  {
    assert forall p | p in s.view :: MappingOk(s, p);
  }

  // ----- the entry is written -----

  /** The page gets an unmarked entry whose frame no other page maps. */
  ghost predicate Installs(s: System, s': System, t: nat, e': Pte)
    requires t < |s.threads| && !s.threads[t].Resting?
  {
    && s' == s.(view := s.view[s.threads[t].p := e'], threads := s.threads[t := Resting])
    && e'.writable && !e'.cow && e'.frame in s.memory && e'.frame !in s.pool
    && (forall q | q in s.view && q != s.threads[t].p :: s.view[q].frame != e'.frame)
    && (forall u | 0 <= u < |s.threads| && u != t :: s.threads[u].Copying? ==> s.threads[u].copy != e'.frame)
  }

  lemma InstallView(s: System, s': System, t: nat, e': Pte)
    requires Inv(s) && t < |s.threads| && Lowered(s.threads[t]) && Installs(s, s', t, e')
    ensures ViewOk(s')
  {
    Standing(s, t);
    assert s'.view.Keys == s.view.Keys;
    assert |s'.view| == |s'.view.Keys| && |s.view| == |s.view.Keys|;
    forall q | q in s'.view ensures MappingOk(s', q) { assert MappingOk(s, q); }
  }

  lemma InstallThreads(s: System, s': System, t: nat, e': Pte)
    requires Inv(s) && t < |s.threads| && Lowered(s.threads[t]) && Installs(s, s', t, e')
    ensures ThreadsOk(s')
  {
    Standing(s, t);
    forall u | 0 <= u < |s.threads| && u != t ensures PcOk(s', s'.threads[u]) {
      var pc := s.threads[u];
      assert PcOk(s, pc) && PcsApart(s.threads[t], pc);
      if !pc.Resting? { CowPagesUpdate(s.view, s.threads[t].p, e', pc.e.frame); }
    }
  }

  lemma InstallCounts(s: System, s': System, t: nat, e': Pte)
    requires Inv(s) && t < |s.threads| && Lowered(s.threads[t]) && Installs(s, s', t, e')
    ensures forall g :: CountOk(s', g)
  {
    hide CopyOk, ViewOk, FramesOk;
    var pc := s.threads[t];
    Counted(s, t);
    FrameCount(s, s', t, Resting);
    forall g ensures CountOk(s', g) {
      assert CountOk(s, g);
      CowPagesUpdate(s.view, pc.p, e', g);
      if g != pc.e.frame {
        LoweredByOthers(s, s', t, Resting, g);
        assert pc.p !in CowPages(s.view, g);
      }
    }
  }

  lemma InstallKeeps(s: System, t: nat, e': Pte)
    requires Inv(s) && t < |s.threads| && Lowered(s.threads[t]) && Installs(s, Advance(s, t), t, e')
    requires s.threads[t].e.frame in s.memory && s.memory[e'.frame] == s.memory[s.threads[t].e.frame]
    ensures Inv(Advance(s, t)) && Reads(Advance(s, t)) == Reads(s)
  {
    var s' := Advance(s, t);
    InstallView(s, s', t, e');
    InstallThreads(s, s', t, e');
    InstallCounts(s, s', t, e');
    Standing(s, t);
    forall q | q in s.view ensures q in Reads(s) && q in Reads(s') && Reads(s')[q] == Reads(s)[q] {
      assert MappingOk(s, q) && MappingOk(s', q);
    }
  }

  lemma SharersMarked(s: System, p: Page, q: Page)
    requires ViewOk(s) && p in s.view && q in s.view && p != q && s.view[p].frame == s.view[q].frame
    ensures s.view[p].cow && q in CowPages(s.view, s.view[p].frame)
  {
  }

  /** The last page of a frame takes it over. */
  lemma OwningKeeps(s: System, t: nat)
    requires Inv(s) && t < |s.threads| && s.threads[t].Owning?
    ensures Inv(Advance(s, t)) && Reads(Advance(s, t)) == Reads(s)
  {
    var pc := s.threads[t];
    Standing(s, t);
    forall q | q in s.view && q != pc.p ensures s.view[q].frame != pc.e.frame {
      if s.view[q].frame == pc.e.frame { SharersMarked(s, pc.p, q); }
    }
    forall u | 0 <= u < |s.threads| && u != t && s.threads[u].Copying? ensures s.threads[u].copy != pc.e.frame {
      assert PcOk(s, s.threads[u]);
    }
    InstallKeeps(s, t, Owned(pc.e));
  }

  /** A page moves to its finished copy. */
  lemma CopiedKeeps(s: System, t: nat)
    requires Inv(s) && t < |s.threads| && s.threads[t].Copying? && s.threads[t].i == PAGE_SIZE
    ensures Inv(Advance(s, t)) && Reads(Advance(s, t)) == Reads(s)
  {
    var pc := s.threads[t];
    Standing(s, t);
    assert s.memory[pc.copy][..PAGE_SIZE] == s.memory[pc.copy] &&
      s.memory[pc.e.frame][..PAGE_SIZE] == s.memory[pc.e.frame];
    InstallKeeps(s, t, Owned(pc.e).(frame := pc.copy));
  }

  // ----- memory is written -----

  /** One byte of a frame changes. */
  ghost predicate Pokes(s: System, s': System, f: Addr, i: nat, b: Byte) {
    f in s.memory && i < |s.memory[f]| && s' == s.(memory := s.memory[f := s.memory[f][i := b]], threads := s'.threads)
  }

  lemma PokeKeeps(s: System, s': System, f: Addr, i: nat, b: Byte)
    requires ViewOk(s) && FramesOk(s) && Pokes(s, s', f, i, b)
    ensures ViewOk(s') && FramesOk(s')
  {
    forall q | q in s'.view ensures MappingOk(s', q) { assert MappingOk(s, q); }
  }

  /** A handler that neither copies from the frame nor into it does not notice. */
  lemma PokeUnseen(s: System, s': System, f: Addr, i: nat, b: Byte, pc: Pc)
    requires PcOk(s, pc) && Pokes(s, s', f, i, b)
    requires !pc.Resting? ==> pc.e.frame != f && (pc.Copying? ==> pc.copy != f)
    ensures PcOk(s', pc)
  {
  }

  lemma CopyByteKeeps(s: System, t: nat)
    requires Inv(s) && t < |s.threads| && s.threads[t].Copying? && s.threads[t].i < PAGE_SIZE
    ensures Inv(Advance(s, t)) && Reads(Advance(s, t)) == Reads(s)
  {
    hide ViewOk;
    var s', pc := Advance(s, t), s.threads[t];
    Standing(s, t);
    var b := s.memory[pc.e.frame][pc.i];
    assert pc.copy != pc.e.frame;
    assert Pokes(s, s', pc.copy, pc.i, b);
    PokeKeeps(s, s', pc.copy, pc.i, b);
    forall u | 0 <= u < |s.threads| && u != t
      ensures PcOk(s', s'.threads[u]) && PcsApart(s'.threads[t], s'.threads[u])
    {
      assert PcOk(s, s.threads[u]) && PcsApart(pc, s.threads[u]);
      PokeUnseen(s, s', pc.copy, pc.i, b, s.threads[u]);
    }
    OneMoreByte(s.memory[pc.copy], s.memory[pc.e.frame], pc.i);
    assert PcOk(s', s'.threads[t]);
    forall g ensures CountOk(s', g) {
      assert CountOk(s, g);
      LoweredByOthers(s, s', t, s'.threads[t], g);
    }
  }

  lemma OneMoreByte(to: Content, from: Content, i: nat)
    requires i < |to| == |from| && to[..i] == from[..i]
    ensures to[i := from[i]][..i + 1] == from[..i + 1]
  {
    assert to[i := from[i]][..i + 1] == to[..i] + [from[i]];
  }

  /** A store changes what its page reads, and nothing else. */
  lemma StoreKeeps(s: System, p: Page, i: nat, b: Byte)
    requires Inv(s) && Stores(s, p, i)
    ensures Inv(Step(s, Store(p, i, b))) && Reads(Step(s, Store(p, i, b))) == Ideal(Reads(s), s, Store(p, i, b))
  {
    var s', f := Step(s, Store(p, i, b)), s.view[p].frame;
    assert MappingOk(s, p);
    PokeKeeps(s, s', f, i, b);
    forall q | q in s.view && q != p ensures s.view[q].frame != f {
      if s.view[q].frame == f { SharersMarked(s, p, q); }
    }
    forall u | 0 <= u < |s.threads| ensures PcOk(s', s'.threads[u]) {
      assert PcOk(s, s.threads[u]);
      PokeUnseen(s, s', f, i, b, s.threads[u]);
    }
    forall g ensures CountOk(s', g) { assert CountOk(s, g) && (LoweredOn(s', g) <==> LoweredOn(s, g)); }
    StoreReads(s, p, i, b);
  }

  lemma EveryPageReads(s: System)
    requires ViewOk(s)
    ensures Reads(s).Keys == s.view.Keys && forall q | q in s.view :: Reads(s)[q] == s.memory[s.view[q].frame]
  {
    forall q | q in s.view ensures q in Reads(s) { assert MappingOk(s, q); }
  }

  lemma StoreReads(s: System, p: Page, i: nat, b: Byte)
    requires ViewOk(s) && ViewOk(Step(s, Store(p, i, b))) && Stores(s, p, i)
    requires forall q | q in s.view && q != p :: s.view[q].frame != s.view[p].frame
    ensures Reads(Step(s, Store(p, i, b))) == Ideal(Reads(s), s, Store(p, i, b))
  {
    var s', m := Step(s, Store(p, i, b)), Reads(s);
    EveryPageReads(s);
    EveryPageReads(s');
    assert Ideal(m, s, Store(p, i, b)) == m[p := m[p][i := b]];
    PageWritten(s, s', p, i, b);
  }

  lemma PageWritten(s: System, s': System, p: Page, i: nat, b: Byte)
    requires p in s.view && s.view[p].frame in s.memory && i < |s.memory[s.view[p].frame]|
    requires s'.view == s.view && s'.memory == s.memory[s.view[p].frame := s.memory[s.view[p].frame][i := b]]
    requires forall q | q in s.view && q != p :: s.view[q].frame != s.view[p].frame
    requires Reads(s).Keys == s.view.Keys && forall q | q in s.view :: Reads(s)[q] == s.memory[s.view[q].frame]
    requires Reads(s').Keys == s.view.Keys && forall q | q in s.view :: Reads(s')[q] == s'.memory[s.view[q].frame]
    ensures Reads(s') == Reads(s)[p := Reads(s)[p][i := b]]
  {
    hide *;
  }

  // ----- frames come and go -----

  lemma TakeKeeps(s: System)
    requires Inv(s) && s.pool != []
    ensures Inv(Step(s, Take)) && Reads(Step(s, Take)) == Reads(s)
  {
    var s' := Step(s, Take);
    TakenApart(s);
    forall u | 0 <= u < |s.threads| ensures PcOk(s', s'.threads[u]) { assert PcOk(s, s.threads[u]); }
    forall g ensures CountOk(s', g) { assert CountOk(s, g) && (LoweredOn(s', g) <==> LoweredOn(s, g)); }
  }

  lemma GiveKeeps(s: System, f: Addr, c: Content)
    requires Inv(s) && Outside(s, f) && |c| == PAGE_SIZE
    ensures Inv(Step(s, Give(f, c))) && Reads(Step(s, Give(f, c))) == Reads(s)
  {
    var s' := Step(s, Give(f, c));
    forall q | q in s'.view ensures MappingOk(s', q) { assert MappingOk(s, q); }
    forall u | 0 <= u < |s.threads| ensures PcOk(s', s'.threads[u]) { assert PcOk(s, s.threads[u]); }
    forall g ensures CountOk(s', g) { assert CountOk(s, g) && (LoweredOn(s', g) <==> LoweredOn(s, g)); }
    EveryPageReads(s);
    EveryPageReads(s');
  }

  // ----- every run -----

  lemma AdvanceKeeps(s: System, t: nat)
    requires Inv(s) && t < |s.threads|
    ensures Inv(Advance(s, t)) && Reads(Advance(s, t)) == Reads(s)
  {
    match s.threads[t]
    case Resting =>
    case Entered(p, e) => EnteredKeeps(s, t);
    case Owning(p, e) => OwningKeeps(s, t);
    case Allocating(p, e) => AllocatingKeeps(s, t);
    case Copying(p, e, copy, i) =>
      assert PcOk(s, s.threads[t]);
      if i < PAGE_SIZE { CopyByteKeeps(s, t); } else { CopiedKeeps(s, t); }
    case Restoring(p, e) => RestoringKeeps(s, t);
  }

  lemma StepKeeps(s: System, ev: Event)
    requires Inv(s) && Free(s, ev)
    ensures Inv(Step(s, ev)) && Reads(Step(s, ev)) == Ideal(Reads(s), s, ev)
  {
    match ev
    case Fault(t, p) => if Enters(s, t, p) { FaultKeeps(s, t, p); }
    case Go(t) => if t < |s.threads| { AdvanceKeeps(s, t); }
    case Store(p, i, b) => if Stores(s, p, i) { StoreKeeps(s, p, i, b); }
    case Take => if s.pool != [] { TakeKeeps(s); }
    case Give(f, c) => if Outside(s, f) && |c| == PAGE_SIZE { GiveKeeps(s, f, c); }
  }

  /** Over any run of any number of threads in which no fault starts on a frame that another handler is on,
      every page reads what it would read with private memory, and the counts stay exact. */
  lemma {:induction false} FreeRunIsolated(s: System, es: seq<Event>)
    requires Inv(s) && FreeRun(s, es)
    ensures Inv(After(s, es)) && Isolated(s, es)
    decreases |es|
  {
    if es != [] {
      StepKeeps(s, es[0]);
      FreeRunIsolated(Step(s, es[0]), es[1..]);
    }
  }

  // ----- two handlers on one page -----

  ghost predicate NoStores(es: seq<Event>) {
    forall i | 0 <= i < |es| :: !es[i].Store?
  }

  /** Threads that are in the handler go on; no fault starts. */
  ghost predicate OnlyGo(es: seq<Event>) {
    forall i | 0 <= i < |es| :: es[i].Go?
  }

  lemma {:induction false} AfterAppend(m: map<Page, Content>, s: System, a: seq<Event>, b: seq<Event>)
    ensures After(s, a + b) == After(After(s, a), b)
    ensures IdealRun(m, s, a + b) == IdealRun(IdealRun(m, s, a), After(s, a), b)
    decreases |a|
  {
    if a == [] {
      assert a + b == b;
    } else {
      assert (a + b)[1..] == a[1..] + b;
      AfterAppend(Ideal(m, s, a[0]), Step(s, a[0]), a[1..], b);
    }
  }

  lemma {:induction false} NothingStored(m: map<Page, Content>, s: System, es: seq<Event>)
    requires NoStores(es)
    ensures IdealRun(m, s, es) == m
    decreases |es|
  {
    if es != [] { NothingStored(m, Step(s, es[0]), es[1..]); }
  }

  lemma One(m: map<Page, Content>, s: System, ev: Event)
    ensures After(s, [ev]) == Step(s, ev) && IdealRun(m, s, [ev]) == Ideal(m, s, ev)
  {
    assert [ev][1..] == [];
  }

  lemma TwoMore(m: map<Page, Content>, s: System, a: Event, b: Event)
    ensures After(s, [a, b]) == Step(Step(s, a), b)
    ensures IdealRun(m, s, [a, b]) == Ideal(Ideal(m, s, a), Step(s, a), b)
  {
    assert [a, b] == [a] + [b];
    AfterAppend(m, s, [a], [b]);
    One(m, s, a);
    One(Ideal(m, s, a), Step(s, a), b);
  }

  /** The rest of the copy. */
  lemma {:induction false} CopyAll(s: System, t: nat) returns (es: seq<Event>)
    requires t < |s.threads| && s.threads[t].Copying? && s.threads[t].copy != s.threads[t].e.frame
    requires CopyOk(s, s.threads[t])
    ensures OnlyGo(es)
    ensures var pc := s.threads[t];
      After(s, es) == s.(
        memory := s.memory[pc.copy := s.memory[pc.e.frame]],
        threads := s.threads[t := Copying(pc.p, pc.e, pc.copy, PAGE_SIZE)])
    decreases PAGE_SIZE - s.threads[t].i
  {
    var pc := s.threads[t];
    es := [];
    if pc.i == PAGE_SIZE {
      assert s.memory[pc.copy][..PAGE_SIZE] == s.memory[pc.copy] &&
        s.memory[pc.e.frame][..PAGE_SIZE] == s.memory[pc.e.frame];
      assert s.threads[t := pc] == s.threads;
    } else {
      OneMoreByte(s.memory[pc.copy], s.memory[pc.e.frame], pc.i);
      var more := CopyAll(Step(s, Go(t)), t);
      es := [Go(t)] + more;
      AfterAppend(map[], s, [Go(t)], more);
      One(map[], s, Go(t));
    }
  }

  /** A handler that found other references takes a frame and fills it. */
  lemma Copies(s: System, t: nat) returns (es: seq<Event>)
    requires t < |s.threads| && s.threads[t].Allocating? && ViewOk(s) && FramesOk(s) && s.pool != []
    requires s.threads[t].p in s.view && s.view[s.threads[t].p].frame == s.threads[t].e.frame
    ensures OnlyGo(es)
    ensures var pc := s.threads[t];
      After(s, es) == s.(
        pool := s.pool[1..],
        memory := s.memory[s.pool[0] := s.memory[pc.e.frame]],
        threads := s.threads[t := Copying(pc.p, pc.e, s.pool[0], PAGE_SIZE)])
  {
    var pc, s1 := s.threads[t], Step(s, Go(t));
    TakenApart(s);
    assert MappingOk(s, pc.p);
    assert s.memory[s.pool[0]][..0] == s.memory[pc.e.frame][..0];
    var more := CopyAll(s1, t);
    es := [Go(t)] + more;
    AfterAppend(map[], s, [Go(t)], more);
    One(map[], s, Go(t));
    assert s.threads[t := s1.threads[t]][t := Copying(pc.p, pc.e, s.pool[0], PAGE_SIZE)] ==
      s.threads[t := Copying(pc.p, pc.e, s.pool[0], PAGE_SIZE)];
  }

  /** A handler with the count lowered comes to its end. */
  lemma Finishes(s: System, t: nat) returns (es: seq<Event>, g: Addr)
    requires t < |s.threads| && (s.threads[t].Owning? || (s.threads[t].Allocating? && s.pool != []))
    requires ViewOk(s) && FramesOk(s)
    requires s.threads[t].p in s.view && s.view[s.threads[t].p] == s.threads[t].e
    ensures OnlyGo(es) && g == if s.threads[t].Owning? then s.threads[t].e.frame else s.pool[0]
    ensures var pc := s.threads[t];
      After(s, es) == s.(
        view := s.view[pc.p := Owned(pc.e).(frame := g)],
        pool := if pc.Owning? then s.pool else s.pool[1..],
        memory := s.memory[g := s.memory[pc.e.frame]],
        threads := s.threads[t := Resting])
  {
    var pc := s.threads[t];
    assert MappingOk(s, pc.p);
    if pc.Owning? {
      es, g := [Go(t)], pc.e.frame;
      One(map[], s, Go(t));
      assert s.memory[g := s.memory[g]] == s.memory;
    } else {
      var copy := Copies(s, t);
      var s1 := After(s, copy);
      es, g := copy + [Go(t)], s.pool[0];
      AfterAppend(map[], s, copy, [Go(t)]);
      One(map[], s1, Go(t));
      assert s.threads[t := s1.threads[t]][t := Resting] == s.threads[t := Resting];
    }
  }

  lemma CopyLeavesOk(s: System, s': System)
    requires ViewOk(s) && FramesOk(s) && s.pool != []
    requires s'.view == s.view && s'.pool == s.pool[1..]
    requires exists f :: f in s.memory && s'.memory == s.memory[s.pool[0] := s.memory[f]]
    ensures ViewOk(s') && FramesOk(s')
  {
    TakenApart(s);
    forall q | q in s'.view ensures MappingOk(s', q) { assert MappingOk(s, q); }
  }

  // ----- a handler that is not interrupted -----

  /** The system is in the state that the specification of single operations describes. */
  ghost predicate Mirrors(s: System, z: State) {
    && z.view == s.view && z.pool == s.pool && (forall f :: CountOf(s, f) == Count(z, f))
    && (forall f | f in z.data :: f in s.memory && s.memory[f] == z.data[f])
    && forall p | p in s.view :: s.view[p].frame in z.data
  }

  /** By itself the handler does what the specified fault does, in every case. */
  lemma Uninterrupted(s: System, t: nat, p: Page, z: State) returns (es: seq<Event>)
    requires Inv(s) && Enters(s, t, p) && Mirrors(s, z) && s.view[p].frame in z.refs
    requires forall v | 0 <= v < |s.threads| :: s.threads[v].Resting?
    ensures Mirrors(After(s, es), CowSpec.Fault(z, p).0) && After(s, es).threads == s.threads
    ensures CowSpec.Fault(z, p).1 <==> After(s, es).view != s.view
  {
    var e := s.view[p];
    var n := CountOf(s, e.frame);
    EnteredCount(s, p);
    assert CountOf(s, e.frame) == Count(z, e.frame);
    var s2 := Step(Step(s, Fault(t, p)), Go(t));
    TwoMore(map[], s, Fault(t, p), Go(t));
    SameBase(s, s2);
    assert Owned(e) != e;
    assert forall g :: CountOf(s2, g) == if g == e.frame then Down(n) else CountOf(s, g);
    if n != 1 && s.pool == [] {
      GivesUp(s2, t, n);
      es := [Fault(t, p), Go(t)] + [Go(t), Go(t)];
      AfterAppend(map[], s, [Fault(t, p), Go(t)], [Go(t), Go(t)]);
      hide After, FramesOk, ViewOk, ThreadsOk, CountOk;
      assert After(s, es).threads == s.threads;
      assert CowSpec.Fault(z, p) == (z, false);
    } else {
      var more, g := Finishes(s2, t);
      es := [Fault(t, p), Go(t)] + more;
      AfterAppend(map[], s, [Fault(t, p), Go(t)], more);
      assert MappingOk(s, p);
      MirrorsFault(s, After(s, es), p, z, g);
    }
  }

  /** What the specified fault does when it succeeds. */
  lemma FaultResult(z: State, p: Page)
    requires p in z.view && z.view[p].cow && z.view[p].frame in z.refs
    requires Count(z, z.view[p].frame) == 1 || z.pool != []
    ensures var (z', ok), e := CowSpec.Fault(z, p), z.view[p];
      && ok && (forall g :: Count(z', g) == if g == e.frame then Down(Count(z, g)) else Count(z, g))
      && z'.view[p] == Owned(e).(frame := if Count(z, e.frame) == 1 then e.frame else z.pool[0])
      && z'.view == z.view[p := z'.view[p]] && z'.pool == (if Count(z, e.frame) == 1 then z.pool else z.pool[1..])
      && (e.frame in z.data ==>
        z'.data == if Count(z, e.frame) == 1 then z.data else z.data[z.pool[0] := z.data[e.frame]])
  {
    assert Down(1) == 0;
  }

  lemma MirrorsFault(s: System, s': System, p: Page, z: State, g: Addr)
    requires Mirrors(s, z) && p in s.view && s.view[p].cow && s.view[p].frame in z.refs
    requires var n := CountOf(s, s.view[p].frame);
      && (n == 1 || s.pool != []) && g == (if n == 1 then s.view[p].frame else s.pool[0])
      && s'.view == s.view[p := Owned(s.view[p]).(frame := g)] && s'.pool == (if n == 1 then s.pool else s.pool[1..])
      && s'.counts == s.counts[s.view[p].frame := Down(n)]
      && s.view[p].frame in s.memory && s'.memory == s.memory[g := s.memory[s.view[p].frame]]
    ensures Mirrors(s', CowSpec.Fault(z, p).0) && CowSpec.Fault(z, p).1
  {
    assert CountOf(s, s.view[p].frame) == Count(z, s.view[p].frame);
    FaultResult(z, p);
    hide CowSpec.Fault;
    var z' := CowSpec.Fault(z, p).0;
    forall h ensures CountOf(s', h) == Count(z', h) { assert CountOf(s, h) == Count(z, h); }
  }

  /** Without a frame for a copy the count is put back. */
  lemma GivesUp(s: System, t: nat, n: nat)
    requires t < |s.threads| && s.threads[t].Allocating? && s.pool == []
    requires n < U32 && CountOf(s, s.threads[t].e.frame) == Down(n)
    ensures After(s, [Go(t), Go(t)]) ==
      s.(counts := s.counts[s.threads[t].e.frame := n], threads := s.threads[t := Resting])
  {
    var th, f := s.threads[t], s.threads[t].e.frame;
    var s1 := s.(threads := s.threads[t := Restoring(th.p, th.e)]);
    UpDown(n);
    assert Step(s, Go(t)) == s1;
    assert Step(s1, Go(t)) == s.(counts := s.counts[f := n], threads := s.threads[t := Resting]) by {
      assert s1.threads[t := Resting] == s.threads[t := Resting];
    }
    hide Step;
    TwoMore(map[], s, Go(t), Go(t));
  }

  /** A store between the end of a copy and its installation is lost. */
  lemma StoreThenInstall(m: map<Page, Content>, s: System, x: nat, v: Byte)
    requires x < |s.threads| && s.threads[x].Copying? && s.threads[x].i == PAGE_SIZE && s.threads[x].copy in s.memory
    requires Stores(s, s.threads[x].p, 0) && s.view[s.threads[x].p].frame != s.threads[x].copy
    requires s.threads[x].p in m && m[s.threads[x].p] == s.memory[s.threads[x].copy]
    requires |m[s.threads[x].p]| > 0 && m[s.threads[x].p][0] != v
    ensures var es := [Store(s.threads[x].p, 0, v), Go(x)];
      Reads(After(s, es)) != IdealRun(m, s, es)
  {
    var p, c := s.threads[x].p, s.threads[x].copy;
    var s1 := Step(s, Store(p, 0, v));
    var s2 := Step(s1, Go(x));
    TwoMore(m, s, Store(p, 0, v), Go(x));
    assert s2.view[p].frame == c && s2.memory[c] == m[p];
    assert Reads(s2)[p] == m[p];
    assert m[p][0 := v][0] != m[p][0];
  }

  /** Both handlers are on one page, and one of them copies: what is stored after the other has finished is
      lost when the copy is installed. */
  lemma StoreLost(s: System, x: nat, y: nat) returns (es: seq<Event>)
    requires ViewOk(s) && FramesOk(s) && |s.pool| >= 2 && x < |s.threads| && y < |s.threads| && x != y
    requires s.threads[x].Allocating? && (s.threads[y].Owning? || s.threads[y].Allocating?)
    requires s.threads[x].p == s.threads[y].p && s.threads[x].e == s.threads[y].e
    requires s.threads[x].p in s.view && s.view[s.threads[x].p] == s.threads[x].e
    ensures !Isolated(s, es)
  {
    var p, f := s.threads[x].p, s.threads[x].e.frame;
    var m := Reads(s);
    EveryPageReads(s);
    TakenApart(s);
    var a := Copies(s, x);
    var s1 := After(s, a);
    CopyLeavesOk(s, s1);
    var b, g := Finishes(s1, y);
    var s2 := After(s1, b);
    assert MappingOk(s, p);
    var v: Byte := if s.memory[f][0] == 0 then 1 else 0;
    hide After, IdealRun, Reads, ViewOk, FramesOk;
    StoreThenInstall(m, s2, x, v);
    var c := [Store(p, 0, v), Go(x)];
    es := a + (b + c);
    AfterAppend(m, s, a, b + c);
    AfterAppend(m, s1, b, c);
    NothingStored(m, s, a);
    NothingStored(m, s1, b);
  }

  /** Two handlers enter with one page. */
  lemma BothLowered(s: System, t: nat, u: nat, p: Page)
    requires Inv(s) && t < |s.threads| && u < |s.threads| && t != u && s.threads[t].Resting? && s.threads[u].Resting?
    requires p in s.view && s.view[p].cow && forall v | 0 <= v < |s.threads| :: s.threads[v].Resting?
    ensures var s' := After(s, [Fault(t, p), Fault(u, p), Go(t), Go(u)]);
      && s' == s.(counts := s'.counts, threads := s'.threads) && |s'.threads| == |s.threads|
      && s'.threads[t] == (if CountOf(s, s.view[p].frame) == 1 then Owning(p, s.view[p]) else Allocating(p, s.view[p]))
      && s'.threads[u] == (if CountOf(s, s.view[p].frame) == 2 then Owning(p, s.view[p]) else Allocating(p, s.view[p]))
  {
    var e := s.view[p];
    var n := CountOf(s, e.frame);
    EnteredCount(s, p);
    var s1 := Step(s, Fault(t, p));
    var s2 := Step(s1, Fault(u, p));
    var s3 := Step(s2, Go(t));
    var s4 := Step(s3, Go(u));
    SmallWord(n - 1, U32);
    assert [Fault(t, p), Fault(u, p), Go(t), Go(u)] == [Fault(t, p), Fault(u, p)] + [Go(t), Go(u)];
    TwoMore(map[], s, Fault(t, p), Fault(u, p));
    TwoMore(map[], s2, Go(t), Go(u));
    AfterAppend(map[], s, [Fault(t, p), Fault(u, p)], [Go(t), Go(u)]);
  }

  lemma EnteredCount(s: System, p: Page)
    requires Inv(s) && p in s.view && s.view[p].cow && forall v | 0 <= v < |s.threads| :: s.threads[v].Resting?
    ensures 1 <= CountOf(s, s.view[p].frame) < U32
  {
    var f := s.view[p].frame;
    assert CountOk(s, f) && !LoweredOn(s, f);
    assert p in CowPages(s.view, f);
    SubsetSize({p}, CowPages(s.view, f));
    CowPagesBound(s.view, f);
  }

  /** Without a marked page no handler starts. */
  lemma {:induction false} NoneMarked(s: System, es: seq<Event>)
    requires forall p | p in s.view :: !s.view[p].cow
    requires forall v | 0 <= v < |s.threads| :: s.threads[v].Resting?
    ensures FreeRun(s, es)
    decreases |es|
  {
    if es != [] { NoneMarked(Step(s, es[0]), es[1..]); }
  }

  lemma {:induction false} OneThread(s: System, es: seq<Event>)
    requires |s.threads| < 2
    ensures FreeRun(s, es)
    decreases |es|
  {
    if es != [] { OneThread(Step(s, es[0]), es[1..]); }
  }

  /** Two frames that are free, or that other parts of the kernel may free: then every run keeps pages private
      if and only if there are fewer than two threads, or no marked page. */
  lemma IsolatedOnlyAlone(s: System, f: Addr, g: Addr)
    requires Inv(s) && (forall v | 0 <= v < |s.threads| :: s.threads[v].Resting?) && f != g
    requires (f in s.pool || Outside(s, f)) && (g in s.pool || Outside(s, g))
    ensures (forall es :: Isolated(s, es)) <==> |s.threads| < 2 || forall p | p in s.view :: !s.view[p].cow
  {
    if |s.threads| < 2 {
      forall es ensures Isolated(s, es) {
        OneThread(s, es);
        FreeRunIsolated(s, es);
      }
    } else if p :| p in s.view && s.view[p].cow {
      var given := TwoFrames(s, f, g);
      FreeRunIsolated(s, given);
      var more := NotIsolated(After(s, given), p);
      AfterAppend(Reads(s), s, given, more);
      NothingStored(Reads(s), s, given);
      assert !Isolated(s, given + more);
    } else {
      forall es ensures Isolated(s, es) {
        NoneMarked(s, es);
        FreeRunIsolated(s, es);
      }
    }
  }

  /** Other parts of the kernel free the two frames. */
  lemma TwoFrames(s: System, f: Addr, g: Addr) returns (es: seq<Event>)
    requires Inv(s) && (forall v | 0 <= v < |s.threads| :: s.threads[v].Resting?) && f != g
    requires (f in s.pool || Outside(s, f)) && (g in s.pool || Outside(s, g))
    ensures NoStores(es) && FreeRun(s, es)
    ensures var s' := After(s, es);
      |s'.pool| >= 2 && s'.view == s.view && s'.threads == s.threads
  {
    var c := seq(PAGE_SIZE, _ => 0 as Byte);
    var s1, s2 := Step(s, Give(f, c)), Step(Step(s, Give(f, c)), Give(g, c));
    es := [Give(f, c), Give(g, c)];
    TwoMore(map[], s, Give(f, c), Give(g, c));
    assert FreeRun(s, es) by {
      assert es[1..] == [Give(g, c)] && es[1..][1..] == [];
      assert FreeRun(s2, []) && FreeRun(s1, [Give(g, c)]);
    }
    assert f in s2.pool && g in s2.pool;
    TwoElements(s2.pool, f, g);
  }

  lemma TwoElements<T>(l: seq<T>, a: T, b: T)
    requires a in l && b in l && a != b
    ensures |l| >= 2
  {
    var i :| 0 <= i < |l| && l[i] == a;
    var j :| 0 <= j < |l| && l[j] == b;
    assert i != j;
  }

  /** The run in which a store is lost. */
  lemma NotIsolated(s: System, p: Page) returns (es: seq<Event>)
    requires Inv(s) && |s.pool| >= 2 && |s.threads| >= 2 && p in s.view && s.view[p].cow
    requires forall v | 0 <= v < |s.threads| :: s.threads[v].Resting?
    ensures !Isolated(s, es)
  {
    var enter := [Fault(0, p), Fault(1, p), Go(0), Go(1)];
    BothLowered(s, 0, 1, p);
    var s1 := After(s, enter);
    SameBase(s, s1);
    var x := if s1.threads[0].Allocating? then 0 else 1;
    var more := StoreLost(s1, x, 1 - x);
    es := enter + more;
    NothingStored(Reads(s), s, enter);
    AfterAppend(Reads(s), s, enter, more);
  }

  lemma SameBase(s: System, s1: System)
    requires ViewOk(s) && FramesOk(s) && s1 == s.(counts := s1.counts, threads := s1.threads)
    ensures ViewOk(s1) && FramesOk(s1) && Reads(s1) == Reads(s)
  {
    forall q | q in s1.view ensures MappingOk(s1, q) { assert MappingOk(s, q); }
  }

  // ----- handlers on different pages of one frame -----

  /** No fault starts on a page that another handler is on. */
  ghost predicate Separate(s: System, ev: Event) {
    ev.Fault? && Enters(s, ev.t, ev.p) ==>
      forall u | 0 <= u < |s.threads| && !s.threads[u].Resting? :: s.threads[u].p != ev.p
  }

  ghost predicate SeparateRun(s: System, es: seq<Event>)
    decreases |es|
  {
    es == [] || (Separate(s, es[0]) && SeparateRun(Step(s, es[0]), es[1..]))
  }

  /** Two marked pages of one frame. */
  ghost predicate Together(s: System, p: Page, q: Page) {
    p != q && p in s.view && q in s.view && s.view[p].cow && s.view[q].cow && s.view[p].frame == s.view[q].frame
  }

  ghost predicate AnyTogether(s: System) {
    exists p, q :: Together(s, p, q)
  }

  lemma SeparateIsFree(s: System, ev: Event)
    requires Inv(s) && Separate(s, ev) && !AnyTogether(s)
    ensures Free(s, ev)
  {
    if ev.Fault? && Enters(s, ev.t, ev.p) {
      forall u | 0 <= u < |s.threads| ensures !On(s.threads[u], s.view[ev.p].frame) {
        assert PcOk(s, s.threads[u]);
        assert !s.threads[u].Resting? ==> !Together(s, s.threads[u].p, ev.p);
      }
    }
  }

  lemma NotYetTogether(s: System, ev: Event)
    requires Inv(s) && !AnyTogether(s)
    ensures !AnyTogether(Step(s, ev))
  {
    var s' := Step(s, ev);
    forall p, q | Together(s', p, q) ensures Together(s, p, q) {
      MarkedBefore(s, ev, p);
      MarkedBefore(s, ev, q);
    }
  }

  lemma MarkedBefore(s: System, ev: Event, p: Page)
    requires Inv(s) && p in Step(s, ev).view && Step(s, ev).view[p].cow
    ensures p in s.view && s.view[p] == Step(s, ev).view[p]
  {
    if ev.Go? && ev.t < |s.threads| { assert PcOk(s, s.threads[ev.t]); }
  }

  lemma {:induction false} SeparateRunFree(s: System, es: seq<Event>)
    requires Inv(s) && SeparateRun(s, es) && !AnyTogether(s)
    ensures FreeRun(s, es)
    decreases |es|
  {
    if es != [] {
      SeparateIsFree(s, es[0]);
      StepKeeps(s, es[0]);
      NotYetTogether(s, es[0]);
      hide Inv, AnyTogether, Separate, Free, Step;
      SeparateRunFree(Step(s, es[0]), es[1..]);
    }
  }

  lemma {:induction false} SeparateAppend(s: System, a: seq<Event>, b: seq<Event>)
    requires SeparateRun(s, a) && SeparateRun(After(s, a), b)
    ensures SeparateRun(s, a + b)
    decreases |a|
  {
    if a == [] {
      assert a + b == b;
    } else {
      assert (a + b)[1..] == a[1..] + b;
      SeparateAppend(Step(s, a[0]), a[1..], b);
    }
  }

  lemma {:induction false} GoIsSeparate(s: System, es: seq<Event>)
    requires OnlyGo(es)
    ensures SeparateRun(s, es) && FreeRun(s, es) && NoStores(es)
    decreases |es|
  {
    if es != [] { GoIsSeparate(Step(s, es[0]), es[1..]); }
  }

  /** A fault starts while no thread is in the handler, and its thread goes on. */
  lemma FirstIsSeparate(s: System, t: nat, p: Page, es: seq<Event>)
    requires OnlyGo(es) && forall v | 0 <= v < |s.threads| :: s.threads[v].Resting?
    ensures SeparateRun(s, [Fault(t, p)] + es) && FreeRun(s, [Fault(t, p)] + es)
  {
    assert ([Fault(t, p)] + es)[1..] == es;
    GoIsSeparate(Step(s, Fault(t, p)), es);
  }

  /** A run that is isolated so far and goes wrong afterwards goes wrong. */
  lemma WrongAfter(s: System, es: seq<Event>, more: seq<Event>)
    requires Isolated(s, es) && !Isolated(After(s, es), more)
    ensures !Isolated(s, es + more)
  {
    AfterAppend(Reads(s), s, es, more);
  }

  /** One of more than two marked pages of a frame is copied out. */
  lemma CopyOneOut(s: System, r: Page) returns (es: seq<Event>)
    requires Inv(s) && |s.threads| > 0 && (forall v | 0 <= v < |s.threads| :: s.threads[v].Resting?)
    requires r in s.view && s.view[r].cow && |CowPages(s.view, s.view[r].frame)| > 1 && s.pool != []
    ensures SeparateRun(s, es) && FreeRun(s, es)
    ensures var s' := After(s, es);
      && Inv(s') && s'.threads == s.threads && s'.pool == s.pool[1..]
      && s'.view == s.view[r := Owned(s.view[r]).(frame := s.pool[0])]
  {
    var e := s.view[r];
    assert CountOk(s, e.frame) && !LoweredOn(s, e.frame);
    var s1 := Step(s, Fault(0, r));
    var s2 := Step(s1, Go(0));
    assert s2.threads[0] == Allocating(r, e) && s2 == s.(counts := s2.counts, threads := s2.threads);
    TwoMore(map[], s, Fault(0, r), Go(0));
    SameBase(s, s2);
    var more, g := Finishes(s2, 0);
    assert s2.threads[0 := Resting] == s.threads;
    es := [Fault(0, r)] + ([Go(0)] + more);
    assert es == [Fault(0, r), Go(0)] + more;
    AfterAppend(map[], s, [Fault(0, r), Go(0)], more);
    FirstIsSeparate(s, 0, r, [Go(0)] + more);
    FreeRunIsolated(s, es);
    hide Inv, Isolated, FreeRun, SeparateRun, CountOk, LoweredOn, ViewOk, FramesOk, After;
  }

  lemma CopiedOutCount(s: System, s': System, p: Page, q: Page, r: Page)
    requires Together(s, p, q) && r in CowPages(s.view, s.view[p].frame) && r != p && r != q
    requires r in s.view && exists c :: s'.view == s.view[r := Owned(s.view[r]).(frame := c)]
    ensures Together(s', p, q) && |CowPages(s'.view, s'.view[p].frame)| + 1 == |CowPages(s.view, s.view[p].frame)|
  {
    var f := s.view[p].frame;
    assert CowPages(s'.view, f) == CowPages(s.view, f) - {r};
  }

  lemma ThirdPage(s: System, p: Page, q: Page) returns (r: Page)
    requires Together(s, p, q) && |CowPages(s.view, s.view[p].frame)| > 2
    ensures r in CowPages(s.view, s.view[p].frame) && r != p && r != q
  {
    var c := CowPages(s.view, s.view[p].frame);
    if c - {p, q} == {} {
      assert c <= {p, q};
      SubsetSize(c, {p, q});
    }
    r :| r in c - {p, q};
  }

  /** The accesses by which p comes to be copied while q takes the frame over. */
  function Meanwhile(p: Page, q: Page): seq<Event> {
    [Fault(0, p), Go(0)] + ([Go(0), Fault(1, q)] + [Go(1), Go(1)])
  }

  /** Thread 0 has lowered the count of the frame and taken a frame for a copy of p. */
  function BeingCopied(s: System, p: Page): System
    requires p in s.view && |s.threads| > 0 && s.pool != []
  {
    s.(counts := s.counts[s.view[p].frame := 1], pool := s.pool[1..],
       threads := s.threads[0 := Copying(p, s.view[p], s.pool[0], 0)])
  }

  lemma StartsCopy(s: System, p: Page)
    requires |s.threads| > 0 && s.threads[0].Resting? && p in s.view && s.view[p].cow && s.pool != []
    requires CountOf(s, s.view[p].frame) == 2
    ensures After(s, [Fault(0, p), Go(0)]).threads == s.threads[0 := Allocating(p, s.view[p])]
    ensures Step(After(s, [Fault(0, p), Go(0)]), Go(0)) == BeingCopied(s, p)
  {
    var e := s.view[p];
    SmallWord(1, U32);
    var s1 := s.(threads := s.threads[0 := Entered(p, e)]);
    var s2 := s.(threads := s.threads[0 := Allocating(p, e)], counts := s.counts[e.frame := 1]);
    assert Step(s, Fault(0, p)) == s1 && Step(s1, Go(0)) == s2;
    TwoMore(map[], s, Fault(0, p), Go(0));
    assert s2.threads[0 := Copying(p, e, s.pool[0], 0)] == BeingCopied(s, p).threads;
  }

  /** The thread on q finds count one and makes the frame its own. */
  lemma TakesOver(s: System, q: Page)
    requires |s.threads| >= 2 && s.threads[1].Resting? && q in s.view && s.view[q].cow
    requires CountOf(s, s.view[q].frame) == 1
    ensures Step(s, Fault(1, q)).threads == s.threads[1 := Entered(q, s.view[q])]
    ensures After(Step(s, Fault(1, q)), [Go(1), Go(1)]) ==
      s.(view := s.view[q := Owned(s.view[q])], counts := s.counts[s.view[q].frame := 0])
  {
    var e := s.view[q];
    SmallWord(0, U32);
    var s1 := s.(threads := s.threads[1 := Entered(q, e)]);
    var s2 := s.(threads := s.threads[1 := Owning(q, e)], counts := s.counts[e.frame := 0]);
    var s3 := s.(view := s.view[q := Owned(e)], counts := s.counts[e.frame := 0]);
    assert Step(s, Fault(1, q)) == s1 && Step(s1, Go(1)) == s2;
    assert Step(s2, Go(1)) == s3 by { assert s2.threads[1 := Resting] == s.threads; }
    TwoMore(map[], s1, Go(1), Go(1));
  }

  /** Of the two pages of a frame p is being copied, its count already lowered, while q takes the frame over: the
      thread on q finds count one. */
  lemma TakesOverMeanwhile(s: System, p: Page, q: Page)
    requires |s.threads| >= 2 && (forall v | 0 <= v < |s.threads| :: s.threads[v].Resting?)
    requires Together(s, p, q) && CountOf(s, s.view[p].frame) == 2 && s.pool != []
    ensures SeparateRun(s, Meanwhile(p, q)) && NoStores(Meanwhile(p, q))
    ensures After(s, Meanwhile(p, q)) ==
      BeingCopied(s, p).(view := s.view[q := Owned(s.view[q])], counts := s.counts[s.view[p].frame := 0])
  {
    var s3 := BeingCopied(s, p);
    var s2 := After(s, [Fault(0, p), Go(0)]);
    StartsCopy(s, p);
    TakesOver(s3, q);
    assert Separate(s3, Fault(1, q));
    assert s3.counts[s.view[p].frame := 0] == s.counts[s.view[p].frame := 0];
    hide Step, Separate, BeingCopied;
    var s4 := Step(s3, Fault(1, q));
    GoIsSeparate(s4, [Go(1), Go(1)]);
    EntersApart(s2, s3, s4, Go(0), Fault(1, q), [Go(1), Go(1)]);
    assert ([Fault(0, p)] + [Go(0)]) == [Fault(0, p), Go(0)];
    FirstIsSeparate(s, 0, p, [Go(0)]);
    TwoMore(map[], s2, Go(0), Fault(1, q));
    AfterAppend(map[], s2, [Go(0), Fault(1, q)], [Go(1), Go(1)]);
    AfterAppend(map[], s, [Fault(0, p), Go(0)], [Go(0), Fault(1, q)] + [Go(1), Go(1)]);
    SeparateAppend(s, [Fault(0, p), Go(0)], [Go(0), Fault(1, q)] + [Go(1), Go(1)]);
  }

  lemma EntersApart(s: System, s1: System, s2: System, a: Event, b: Event, es: seq<Event>)
    requires Step(s, a) == s1 && Step(s1, b) == s2 && a.Go? && Separate(s1, b) && SeparateRun(s2, es)
    ensures SeparateRun(s, [a, b] + es)
  {
    hide Step;
    assert ([a, b] + es)[1..] == [b] + es && ([b] + es)[1..] == es;
    assert SeparateRun(s1, [b] + es);
    assert Separate(s, a);
  }

  /** The state in which p is being copied from a frame that q has become the owner of. */
  ghost predicate Exposed(s: System, p: Page, q: Page) {
    && |s.threads| > 0 && s.threads[0].Copying? && s.threads[0].p == p && s.threads[0].i == 0
    && p in s.view && q in s.view && p != q && s.view[p].frame == s.view[q].frame == s.threads[0].e.frame
    && s.view[q].writable && CopyOk(s, s.threads[0]) && s.threads[0].copy != s.threads[0].e.frame
  }

  /** What is stored to q meanwhile is what p reads once it has its copy. */
  lemma StoreSeen(s: System, p: Page, q: Page, v: Byte) returns (es: seq<Event>)
    requires Exposed(s, p, q)
    ensures SeparateRun(s, es) && p in Reads(s) && |Reads(s)[p]| == PAGE_SIZE
    ensures var s', m := After(s, es), Reads(s);
      && s'.threads == s.threads[0 := Resting] && p in Reads(s') && Reads(s')[p] == m[p][0 := v]
      && IdealRun(m, s, es) == m[q := m[q][0 := v]]
  {
    var m, th, f := Reads(s), s.threads[0], s.threads[0].e.frame;
    var s1 := Step(s, Store(q, 0, v));
    assert s1 == s.(memory := s.memory[f := s.memory[f][0 := v]]);
    assert s1.memory[th.copy][..0] == s1.memory[f][..0];
    var copy := CopyAll(s1, 0);
    var s2 := After(s1, copy);
    var s3 := Step(s2, Go(0));
    assert s3.threads == s.threads[0 := Resting];
    assert s3.view[p].frame == th.copy && s3.memory[th.copy] == s.memory[f][0 := v];
    assert Ideal(m, s, Store(q, 0, v)) == m[q := m[q][0 := v]];
    One(m, s, Store(q, 0, v));
    One(m[q := m[q][0 := v]], s2, Go(0));
    es := [Store(q, 0, v)] + (copy + [Go(0)]);
    hide Exposed, CopyOk, Step, Reads;
    GoIsSeparate(s1, copy + [Go(0)]);
    assert ([Store(q, 0, v)] + (copy + [Go(0)]))[1..] == copy + [Go(0)];
    AfterAppend(m[q := m[q][0 := v]], s1, copy, [Go(0)]);
    NothingStored(m[q := m[q][0 := v]], s1, copy);
    AfterAppend(m, s, [Store(q, 0, v)], copy + [Go(0)]);
  }

  /** Two pages of one frame, two threads, one free frame: a run with one handler on each page at whose end p reads
      a byte that was stored to q. */
  lemma TornCopy(s: System, p: Page, q: Page) returns (es: seq<Event>)
    requires Inv(s) && |s.threads| >= 2 && (forall v | 0 <= v < |s.threads| :: s.threads[v].Resting?)
    requires Together(s, p, q) && |CowPages(s.view, s.view[p].frame)| == 2 && s.pool != []
    ensures SeparateRun(s, es) && After(s, es).threads == s.threads && !Isolated(s, es)
    ensures p in Reads(s) && p in Reads(After(s, es)) && Reads(After(s, es))[p] != Reads(s)[p]
  {
    var m := Reads(s);
    assert CountOk(s, s.view[p].frame) && !LoweredOn(s, s.view[p].frame);
    TakesOverMeanwhile(s, p, q);
    var s1 := After(s, Meanwhile(p, q));
    assert ViewOk(s) && FramesOk(s);
    IsExposed(s, s1, p, q);
    assert s1.view.Keys == s.view.Keys;
    ReadsAlike(s, s1, p);
    assert s1.threads[0 := Resting] == s.threads;
    hide Inv, Exposed, Reads, Together, BeingCopied, Meanwhile;
    var v: Byte := if m[p][0] == 0 then 1 else 0;
    var rest := StoreSeen(s1, p, q, v);
    es := Meanwhile(p, q) + rest;
    NothingStored(m, s, Meanwhile(p, q));
    AfterAppend(m, s, Meanwhile(p, q), rest);
    SeparateAppend(s, Meanwhile(p, q), rest);
    assert m[p][0 := v][0] != m[p][0];
    assert p != q by { Different(s, p, q); }
  }

  lemma Different(s: System, p: Page, q: Page)
    requires Together(s, p, q)
    ensures p != q
  {
  }

  lemma IsExposed(s: System, s1: System, p: Page, q: Page)
    requires ViewOk(s) && FramesOk(s) && |s.threads| > 0 && Together(s, p, q) && s.pool != []
    requires s1 == BeingCopied(s, p).(view := s.view[q := Owned(s.view[q])], counts := s1.counts)
    ensures Exposed(s1, p, q)
  {
    assert MappingOk(s, p) && MappingOk(s, q);
    TakenApart(s);
    hide ViewOk;
    assert s.memory[s.pool[0]][..0] == s.memory[s.view[p].frame][..0];
    assert CopyOk(s1, s1.threads[0]) by { hide FramesOk; }
  }

  lemma ReadsAlike(s: System, s1: System, p: Page)
    requires ViewOk(s) && FramesOk(s) && p in s.view && s1.view.Keys == s.view.Keys && s1.memory == s.memory
    requires forall r | r in s.view :: s1.view[r].frame == s.view[r].frame
    ensures Reads(s1) == Reads(s) && p in Reads(s) && |Reads(s)[p]| == PAGE_SIZE
  {
    assert MappingOk(s, p);
    hide ViewOk;
  }

  /** A frame with more marked pages loses them one by one, each to a copy, until two are left. */
  lemma {:induction false} DownToTwo(s: System, p: Page, q: Page) returns (es: seq<Event>)
    requires Inv(s) && |s.threads| > 0 && (forall v | 0 <= v < |s.threads| :: s.threads[v].Resting?)
    requires Together(s, p, q) && |CowPages(s.view, s.view[p].frame)| <= |s.pool| + 1
    ensures SeparateRun(s, es) && Isolated(s, es)
    ensures var s' := After(s, es);
      && Inv(s') && s'.threads == s.threads && s'.pool != []
      && Together(s', p, q) && |CowPages(s'.view, s'.view[p].frame)| == 2
    decreases |s.pool|
  {
    TwoAtLeast(s, p, q);
    es := [];
    if |CowPages(s.view, s.view[p].frame)| > 2 {
      var r := ThirdPage(s, p, q);
      var first := CopyOneOut(s, r);
      var s1 := After(s, first);
      CopiedOutCount(s, s1, p, q, r);
      FreeRunIsolated(s, first);
      hide Inv, Isolated, Together, After;
      var more := DownToTwo(s1, p, q);
      es := first + more;
      AfterAppend(Reads(s), s, first, more);
      SeparateAppend(s, first, more);
      IsolatedOn(s, first, more);
    }
  }

  lemma TwoAtLeast(s: System, p: Page, q: Page)
    requires Together(s, p, q)
    ensures |CowPages(s.view, s.view[p].frame)| >= 2
  {
    SubsetSize({p, q}, CowPages(s.view, s.view[p].frame));
    assert |{p, q}| == 2;
  }

  lemma IsolatedOn(s: System, a: seq<Event>, b: seq<Event>)
    requires Isolated(s, a) && Isolated(After(s, a), b)
    ensures Isolated(s, a + b)
  {
    AfterAppend(Reads(s), s, a, b);
  }

  /** With a free frame for every page: the runs with at most one handler on a page all keep pages private if and
      only if there are fewer than two threads, or no two marked pages of one frame. */
  lemma TornOnlyIfShared(s: System)
    requires Inv(s) && |s.view| <= |s.pool| && forall v | 0 <= v < |s.threads| :: s.threads[v].Resting?
    ensures (forall es | SeparateRun(s, es) :: Isolated(s, es)) <==> |s.threads| < 2 || !AnyTogether(s)
  {
    if |s.threads| < 2 || !AnyTogether(s) {
      forall es | SeparateRun(s, es) ensures Isolated(s, es) {
        if |s.threads| < 2 { OneThread(s, es); } else { SeparateRunFree(s, es); }
        FreeRunIsolated(s, es);
      }
    } else {
      var p, q :| Together(s, p, q);
      CowPagesBound(s.view, s.view[p].frame);
      var first := DownToTwo(s, p, q);
      var more := TornCopy(After(s, first), p, q);
      hide Inv, Isolated, Together;
      SeparateAppend(s, first, more);
      WrongAfter(s, first, more);
    }
  }

  // ----- from the specification of single operations -----

  /** A state of that specification, with any contents in the free frames and n threads at rest. */
  function FromSpec(z: State, rest: Content, n: nat): System {
    System(
      z.view, map f | f in z.refs :: z.refs[f].count,
      map f | f in z.data.Keys + (set x | x in z.pool) :: if f in z.data then z.data[f] else rest,
      z.pool, seq(n, _ => Resting))
  }

  /** Its invariant is the starting point of the runs here. */
  lemma FromSpecSound(z: State, rest: Content, n: nat)
    requires CowSpec.Inv(z) && |rest| == PAGE_SIZE && forall f | f in z.data :: |z.data[f]| == PAGE_SIZE
    ensures var s := FromSpec(z, rest, n);
      Inv(s) && Mirrors(s, z) && forall v | 0 <= v < |s.threads| :: s.threads[v].Resting?
  {
    var s := FromSpec(z, rest, n);
    SpecView(z, rest, n);
    SpecFrames(z, rest, n);
    forall f ensures CountOk(s, f) && CountOf(s, f) == Count(z, f) {
      assert Count(z, f) == |CowPages(z.view, f)|;
    }
    SpecMirrors(z, rest, n);
    hide ViewOk, FramesOk, CountOk, Mirrors;
  }

  lemma SpecView(z: State, rest: Content, n: nat)
    requires CowSpec.MappingsOk(z) && CowSpec.SharingMarked(z) && CowSpec.FramesApart(z) && |z.view| < U32
    ensures ViewOk(FromSpec(z, rest, n))
  {
    var s := FromSpec(z, rest, n);
    forall p | p in s.view ensures MappingOk(s, p) { assert z.view[p].frame in z.data; }
    hide CowSpec.FramesApart, MappingOk;
  }

  lemma SpecFrames(z: State, rest: Content, n: nat)
    requires CowSpec.FramesApart(z) && |rest| == PAGE_SIZE && forall f | f in z.data :: |z.data[f]| == PAGE_SIZE
    ensures FramesOk(FromSpec(z, rest, n))
  {
  }

  lemma SpecMirrors(z: State, rest: Content, n: nat)
    requires CowSpec.MappingsOk(z)
    ensures Mirrors(FromSpec(z, rest, n), z)
  {
  }
}
