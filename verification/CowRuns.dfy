/** Runs of copy-on-write operations against the ideal memory in which every page is private. */
module CowRuns {
  import opened Common
  import opened Paging
  import opened CowSpec

  /** Requests on marked memory, and frames that other parts of the kernel take from or give to the pool. */
  datatype Op =
    | Map(page: Page, content: Content)
    | Share(src: Page, dst: Page)
    | Fault(page: Page)
    | Write(page: Page, index: nat, byte: Byte)
    | Release(page: Page)
    | TakeFrame
    | GiveFrame(frame: Addr)

  /** Fewer than 2^32 - 3 mappings, so that no 32-bit count can wrap; a given frame is nobody's. */
  ghost predicate Allowed(s: State, op: Op) {
    && |s.view| < U32 - 3
    && (op.GiveFrame? ==>
      && op.frame !in s.pool && op.frame !in s.data && forall f | f in s.refs :: s.refs[f].node != op.frame)
  }

  /** One request and whether it succeeded. */
  function Step(s: State, op: Op): (State, bool) {
    match op
    case Map(p, c) => CowSpec.MapFresh(s, p, c)
    case Share(src, dst) => CowSpec.Share(s, src, dst)
    case Fault(p) => CowSpec.Fault(s, p)
    case Write(p, i, b) => CowSpec.Write(s, p, i, b)
    case Release(p) => (CowSpec.Release(s, p), p in s.view)
    case TakeFrame => if s.pool == [] then (s, false) else (s.(pool := s.pool[1..]), true)
    case GiveFrame(f) => (s.(pool := [f] + s.pool), true)
  }

  // ----- the ideal -----

  type Memory = map<Page, Content>

  /** What a request does when every page has memory of its own: a fault does nothing, and sharing is
      a copy. */
  function Ideal(m: Memory, op: Op): Memory {
    match op
    case Map(p, c) => m[p := c]
    case Share(src, dst) => if src in m then m[dst := m[src]] else m
    case Fault(p) => m
    case Write(p, i, b) => if p in m && i < |m[p]| then m[p := m[p][i := b]] else m
    case Release(p) => m - {p}
    case TakeFrame => m
    case GiveFrame(f) => m
  }

  /** A request that succeeds does what it does in the ideal, one that fails does nothing. */
  function IdealStep(m: Memory, op: Op, ok: bool): Memory {
    if ok then Ideal(m, op) else m
  }

  lemma TakeFrameSound(s: State)
    requires Inv(s)
    ensures Inv(Step(s, TakeFrame).0) && Private(Step(s, TakeFrame).0) == Private(s)
  {
    hide MappingsOk, SharingMarked, NoLeak, CountsExact, Private;
    PoolOnly(s, Step(s, TakeFrame).0);
  }

  lemma GiveFrameSound(s: State, f: Addr)
    requires Inv(s) && Allowed(s, GiveFrame(f))
    ensures Inv(Step(s, GiveFrame(f)).0) && Private(Step(s, GiveFrame(f)).0) == Private(s)
  {
    hide MappingsOk, SharingMarked, NoLeak, CountsExact, Private;
    PoolOnly(s, Step(s, GiveFrame(f)).0);
  }

  lemma PoolOnly(s: State, s1: State)
    requires MappingsOk(s) && SharingMarked(s) && NoLeak(s) && CountsExact(s)
    requires s1.view == s.view && s1.refs == s.refs && s1.data == s.data
    ensures MappingsOk(s1) && SharingMarked(s1) && NoLeak(s1) && CountsExact(s1) && Private(s1) == Private(s)
  {
    SameFramesNoLeak(s, s1);
    SamePrivate(s, s1);
    forall g ensures CowSpec.Count(s1, g) == |CowPages(s1.view, g)| {
      assert CowSpec.Count(s, g) == |CowPages(s.view, g)|;
    }
  }

  lemma ShareRefines(s: State, src: Page, dst: Page)
    requires Inv(s) && |s.view| < U32 - 3
    ensures var (s1, ok) := CowSpec.Share(s, src, dst);
      Inv(s1) && Private(s1) == IdealStep(Private(s), Share(src, dst), ok)
  {
    ShareSound(s, src, dst);
    MappedReads(s);
  }

  lemma WriteRefines(s: State, p: Page, i: nat, b: Byte)
    requires Inv(s)
    ensures var (s1, ok) := CowSpec.Write(s, p, i, b);
      Inv(s1) && Private(s1) == IdealStep(Private(s), Write(p, i, b), ok)
  {
    WriteSound(s, p, i, b);
    MappedReads(s);
    IdealWrite(Private(s), Private(CowSpec.Write(s, p, i, b).0), p, i, b, CowSpec.Write(s, p, i, b).1);
  }

  lemma IdealWrite(m: Memory, m': Memory, p: Page, i: nat, b: Byte, ok: bool)
    requires ok ==> p in m && i < |m[p]|
    requires m' == if ok then m[p := m[p][i := b]] else m
    ensures m' == IdealStep(m, Write(p, i, b), ok)
  {
  }

  lemma ReleaseRefines(s: State, p: Page)
    requires Inv(s)
    ensures Inv(CowSpec.Release(s, p))
    ensures Private(CowSpec.Release(s, p)) == IdealStep(Private(s), Release(p), p in s.view)
  {
    if p in s.view { ReleaseSound(s, p); }
    IdealRelease(Private(s), Private(CowSpec.Release(s, p)), p, p in s.view);
  }

  lemma IdealRelease(m: Memory, m': Memory, p: Page, ok: bool)
    requires m' == if ok then m - {p} else m
    ensures m' == IdealStep(m, Release(p), ok)
  {
  }

  /** Every mapped page reads something. */
  lemma MappedReads(s: State)
    requires MappingsOk(s)
    ensures Private(s).Keys == s.view.Keys
  {
  }

  /** One request refines the ideal. */
  lemma StepRefines(s: State, op: Op)
    requires Inv(s) && Allowed(s, op)
    ensures Inv(Step(s, op).0) && Private(Step(s, op).0) == IdealStep(Private(s), op, Step(s, op).1)
  {
    match op
    case Map(p, c) => MapFreshSound(s, p, c);
    case Share(src, dst) => ShareRefines(s, src, dst);
    case Fault(p) => FaultSound(s, p);
    case Write(p, i, b) => WriteRefines(s, p, i, b);
    case Release(p) => ReleaseRefines(s, p);
    case TakeFrame => TakeFrameSound(s);
    case GiveFrame(f) => GiveFrameSound(s, f);
  }

  ghost predicate Legal(s: State, ops: seq<Op>)
    decreases |ops|
  {
    ops == [] || (Allowed(s, ops[0]) && Legal(Step(s, ops[0]).0, ops[1..]))
  }

  ghost function Run(s: State, ops: seq<Op>): State
    decreases |ops|
  {
    if ops == [] then s else Run(Step(s, ops[0]).0, ops[1..])
  }

  /** The ideal run with the same outcomes as the real one. */
  ghost function IdealRun(m: Memory, s: State, ops: seq<Op>): Memory
    decreases |ops|
  {
    if ops == [] then m
    else IdealRun(IdealStep(m, ops[0], Step(s, ops[0]).1), Step(s, ops[0]).0, ops[1..])
  }

  /** Over any run, every page reads what it would read with private memory, the counts are exact, and
      a frame mapped more than once is read-only everywhere. */
  lemma {:induction false} RunRefines(s: State, ops: seq<Op>)
    requires Inv(s) && Legal(s, ops)
    ensures Inv(Run(s, ops))
    ensures Private(Run(s, ops)) == IdealRun(Private(s), s, ops)
    decreases |ops|
  {
    if ops != [] {
      StepRefines(s, ops[0]);
      RunRefines(Step(s, ops[0]).0, ops[1..]);
    }
  }

  /** The frames held after a request: all that were held, but for a frame taken or given. */
  ghost function HeldStep(held: set<Addr>, s: State, op: Op): set<Addr> {
    match op
    case TakeFrame => if s.pool == [] then held else held - {s.pool[0]}
    case GiveFrame(f) => held + {f}
    case _ => held
  }

  ghost function Held(held: set<Addr>, s: State, ops: seq<Op>): set<Addr>
    decreases |ops|
  {
    if ops == [] then held else Held(HeldStep(held, s, ops[0]), Step(s, ops[0]).0, ops[1..])
  }

  lemma StepConserves(s: State, op: Op)
    requires Inv(s) && Allowed(s, op)
    ensures Frames(Step(s, op).0) == HeldStep(Frames(s), s, op)
  {
    hide Frames, FramesApart, MappingsOk, SharingMarked, NoLeak, CountsExact;
    hide CowSpec.MapFresh, CowSpec.Share, CowSpec.Fault, CowSpec.Write, CowSpec.Release;
    match op
    case Map(p, c) => MapFreshConserves(s, p, c);
    case Share(src, dst) => ShareConserves(s, src, dst);
    case Fault(p) => FaultConserves(s, p);
    case Write(p, i, b) => WriteConserves(s, p, i, b);
    case Release(p) => ReleaseConserves(s, p);
    case TakeFrame => if s.pool != [] { TakenOnce(s); }
    case GiveFrame(f) => GivenOnce(s, f);
  }

  lemma TakenOnce(s: State)
    requires FramesApart(s) && s.pool != []
    ensures Frames(s.(pool := s.pool[1..])) == Frames(s) - {s.pool[0]}
  {
    FirstFree(s.pool);
    assert s.pool[0] in s.pool;
  }

  lemma GivenOnce(s: State, f: Addr)
    ensures Frames(s.(pool := [f] + s.pool)) == Frames(s) + {f}
  {
    assert FreeFrames([f] + s.pool) == {f} + FreeFrames(s.pool);
  }

  /** No run loses a frame or makes one up: what is free, what holds page contents and what stores counts are
      together the frames of the start, less those taken and with those given. */
  lemma {:induction false} RunConserves(s: State, ops: seq<Op>)
    requires Inv(s) && Legal(s, ops)
    ensures Frames(Run(s, ops)) == Held(Frames(s), s, ops)
    decreases |ops|
  {
    if ops != [] {
      StepRefines(s, ops[0]);
      StepConserves(s, ops[0]);
      RunConserves(Step(s, ops[0]).0, ops[1..]);
    }
  }

  /** In every state of a run the count of a frame is the number of its marked mappings, and when two
      pages share a frame neither can be written without a fault. */
  lemma RunCounts(s: State, ops: seq<Op>, f: Addr, p: Page, q: Page)
    requires Inv(s) && Legal(s, ops)
    ensures CowSpec.Count(Run(s, ops), f) == |CowPages(Run(s, ops).view, f)|
    ensures var v := Run(s, ops).view;
      p in v && q in v && p != q && v[p].frame == v[q].frame == f ==>
        !v[p].writable && !v[q].writable && CowSpec.Count(Run(s, ops), f) >= 2
  {
    hide *;
    RunRefines(s, ops);
    TwiceMapped(Run(s, ops), f, p, q);
  }

  lemma TwiceMapped(s: State, f: Addr, p: Page, q: Page)
    requires Inv(s)
    ensures CowSpec.Count(s, f) == |CowPages(s.view, f)|
    ensures p in s.view && q in s.view && p != q && s.view[p].frame == s.view[q].frame == f ==>
      !s.view[p].writable && !s.view[q].writable && CowSpec.Count(s, f) >= 2
  {
    hide CowSpec.Count;
    if p in s.view && q in s.view && p != q && s.view[p].frame == s.view[q].frame == f {
      assert s.view[q].frame == s.view[p].frame && s.view[q].cow;
      SubsetSize({p, q}, CowPages(s.view, f));
    }
  }

  /** The empty start satisfies the invariant, so the theorems above cover every run from it. */
  lemma StartSound(frames: seq<Addr>)
    requires forall i, j | 0 <= i < j < |frames| :: frames[i] != frames[j]
    ensures Inv(State(map[], map[], map[], frames))
  {
    var s := State(map[], map[], map[], frames);
    forall f ensures CowSpec.Count(s, f) == |CowPages(s.view, f)| {
      assert CowPages(s.view, f) == {};
    }
  }
}
