/** Copy-on-write as a value: page entries, reference counts, frame contents and the free frames, and
    what each operation does to them. */
module CowSpec {
  import opened Common
  import opened Paging


  type Content = seq<Byte>

  /** The parts of a page-table entry that copy-on-write reads and changes. */
  datatype Pte = Pte(frame: Addr, present: bool, writable: bool, cow: bool)

  /** The count kept for a frame, and the frame that stores the count itself. */
  datatype Ref = Ref(count: nat, node: Addr)

  datatype State = State(
    view: map<Page, Pte>,
    refs: map<Addr, Ref>,
    data: map<Addr, Content>,
    pool: seq<Addr>)

  /** The entry after marking: read-only and flagged. */
  function Shared(e: Pte): Pte {
    e.(writable := false, cow := true)
  }

  /** The entry after a fault: writable, flag cleared, same frame. */
  function Owned(e: Pte): Pte {
    e.(writable := true, cow := false)
  }

  /** A new writable mapping. */
  function Fresh(f: Addr): Pte {
    Pte(f, true, true, false)
  }

  // ----- operations -----

  /** Counters are 32 bits wide and wrap around. */
  function Up(c: nat): (r: nat)
    ensures r < U32
  {
    (c + 1) % U32
  }

  function Down(c: nat): (r: nat)
    ensures r < U32
  {
    (c - 1) % U32
  }

  lemma UpDown(c: nat)
    requires c < U32
    ensures Up(Down(c)) == c
  {
    if c == 0 { assert Down(c) == U32 - 1; }
  }

  function Count(s: State, f: Addr): nat {
    if f in s.refs then s.refs[f].count else 0
  }

  function SetCount(s: State, f: Addr, n: nat): State
    requires f in s.refs
  {
    s.(refs := s.refs[f := s.refs[f].(count := n)])
  }

  /** Find the reference entry of a frame, or make one with count zero; this takes a frame. */
  function GetRef(s: State, f: Addr): (State, bool) {
    if f in s.refs then (s, true)
    else if s.pool == [] then (s, false)
    else (s.(refs := s.refs[f := Ref(0, s.pool[0])], pool := s.pool[1..]), true)
  }

  function Mark(s: State, p: Page): (State, bool) {
    if p !in s.view then (s, false) else
      var e := s.view[p];
      var (s1, ok) := GetRef(s, e.frame);
      if !ok then (s1, false)
      else (SetCount(s1, e.frame, Up(s1.refs[e.frame].count)).(view := s1.view[p := Shared(e)]), true)
  }

  /** Move page p from frame f, which has other references, to a free frame with a copy. */
  function CopyOut(s: State, p: Page, e: Pte): (State, bool)
    requires e.frame in s.refs
  {
    if s.pool == [] then (s, false)
    else (SetCount(s, e.frame, Down(s.refs[e.frame].count)).(
            view := s.view[p := Owned(e).(frame := s.pool[0])],
            data := s.data[s.pool[0] := if e.frame in s.data then s.data[e.frame] else []],
            pool := s.pool[1..]), true)
  }

  function Fault(s: State, p: Page): (State, bool) {
    if p !in s.view || !s.view[p].cow then (s, false) else
      var e := s.view[p];
      var (s1, ok) := GetRef(s, e.frame);
      if !ok then (s1, false)
      else if s1.refs[e.frame].count == 1 then (SetCount(s1, e.frame, 0).(view := s1.view[p := Owned(e)]), true)
      else CopyOut(s1, p, e)
  }

  function Increment(s: State, f: Addr): State {
    var (s1, ok) := GetRef(s, f);
    if ok then SetCount(s1, f, Up(s1.refs[f].count)) else s1
  }

  /** Count one reference less; at zero the frame and its reference entry go back to the pool. */
  function Decrement(s: State, f: Addr): State {
    if f !in s.refs then s else
      var c := Down(s.refs[f].count);
      if c != 0 then SetCount(s, f, c)
      else s.(refs := s.refs - {f}, data := s.data - {f}, pool := [s.refs[f].node, f] + s.pool)
  }

  // ----- what the callers do with them -----

  /** Map a page to a frame of its own. */
  function MapFresh(s: State, p: Page, c: Content): (State, bool) {
    if p in s.view || s.pool == [] then (s, false)
    else (s.(view := s.view[p := Fresh(s.pool[0])],
             data := s.data[s.pool[0] := c], pool := s.pool[1..]), true)
  }

  /** Map dst to the frame of src and mark both mappings; when marking runs out of frames dst is
      unmapped again. A mapping that is already marked is not marked twice. */
  function Share(s: State, src: Page, dst: Page): (State, bool) {
    if src !in s.view || dst in s.view then (s, false) else
      var e := s.view[src];
      var s1 := s.(view := s.view[dst := Fresh(e.frame)]);
      var (s2, ok) := if e.cow then (s1, true) else Mark(s1, src);
      if !ok then (s2.(view := s2.view - {dst}), false) else Mark(s2, dst)
  }

  function Store(s: State, p: Page, i: nat, b: Byte): State
    requires p in s.view && s.view[p].frame in s.data && i < |s.data[s.view[p].frame]|
  {
    s.(data := s.data[s.view[p].frame := s.data[s.view[p].frame][i := b]])
  }

  /** A store: directly when the page is writable, after a fault when it is marked. */
  function Write(s: State, p: Page, i: nat, b: Byte): (State, bool) {
    var (s1, ok) := if p in s.view && !s.view[p].writable then Fault(s, p) else (s, true);
    if !ok || p !in s1.view || !s1.view[p].writable then (s1, false) else
      var f := s1.view[p].frame;
      if f in s1.data && i < |s1.data[f]| then (Store(s1, p, i, b), true) else (s1, false)
  }

  /** Unmap a page and give up its frame: by reference count when marked, directly otherwise. */
  function Release(s: State, p: Page): State {
    if p !in s.view then s else
      var e := s.view[p];
      var s1 := s.(view := s.view - {p});
      if e.cow then Decrement(s1, e.frame)
      else s1.(data := s1.data - {e.frame}, pool := [e.frame] + s1.pool)
  }

  // ----- invariant -----

  ghost function CowPages(view: map<Page, Pte>, f: Addr): set<Page> {
    set p | p in view && view[p].cow && view[p].frame == f
  }

  /** Every stored count is the number of marked mappings of its frame. */
  ghost predicate CountsExact(s: State) {
    forall f :: Count(s, f) == |CowPages(s.view, f)|
  }

  /** Every mapping is present and has contents; exactly the marked ones are read-only. */
  ghost predicate MappingsOk(s: State) {
    forall p | p in s.view ::
      s.view[p].present && s.view[p].frame in s.data && (s.view[p].cow <==> !s.view[p].writable)
  }

  /** A frame mapped more than once is marked everywhere. */
  ghost predicate SharingMarked(s: State) {
    forall p, q | p in s.view && q in s.view && p != q && s.view[p].frame == s.view[q].frame :: s.view[p].cow
  }

  /** Data frames are exactly the mapped ones. */
  ghost predicate NoLeak(s: State) {
    forall f | f in s.data :: exists p :: p in s.view && s.view[p].frame == f
  }

  /** Free frames, data frames and reference entries never overlap. */
  ghost predicate FramesApart(s: State) {
    && (forall i, j | 0 <= i < j < |s.pool| :: s.pool[i] != s.pool[j])
    && (forall f | f in s.pool :: f !in s.data)
    && (forall f | f in s.refs :: s.refs[f].node !in s.pool && s.refs[f].node !in s.data)
    && (forall f, g | f in s.refs && g in s.refs && f != g :: s.refs[f].node != s.refs[g].node)
  }

  ghost predicate Inv(s: State) {
    MappingsOk(s) && SharingMarked(s) && NoLeak(s) && FramesApart(s) && CountsExact(s) && |s.view| < U32 - 1
  }

  /** What each page reads: its own private memory. */
  ghost function Private(s: State): map<Page, Content> {
    map p | p in s.view && s.view[p].frame in s.data :: s.data[s.view[p].frame]
  }

  // ----- counting marked mappings -----

  lemma CowPagesUpdate(view: map<Page, Pte>, p: Page, e: Pte, f: Addr)
    ensures CowPages(view[p := e], f) ==
      if e.cow && e.frame == f then CowPages(view, f) + {p} else CowPages(view, f) - {p}
  {
  }

  lemma CowPagesRemove(view: map<Page, Pte>, p: Page, f: Addr)
    ensures CowPages(view - {p}, f) == CowPages(view, f) - {p}
  {
  }

  lemma CowPagesBound(view: map<Page, Pte>, f: Addr)
    ensures |CowPages(view, f)| <= |view|
  {
    SubsetSize(CowPages(view, f), view.Keys);
  }

  lemma {:induction false} SubsetSize<T>(a: set<T>, b: set<T>)
    requires a <= b
    ensures |a| <= |b|
  {
    if a != {} {
      var x :| x in a;
      SubsetSize(a - {x}, b - {x});
    }
  }

  /** With one marked mapping it is the only one. */
  lemma OnlyOne(view: map<Page, Pte>, p: Page, q: Page, f: Addr)
    requires p in CowPages(view, f) && q in CowPages(view, f) && |CowPages(view, f)| == 1
    ensures p == q
  {
    SubsetSize({p, q}, CowPages(view, f));
    assert p != q ==> |{p, q}| == 2;
  }

  // ----- reference entries -----

  /** Making a reference entry takes a frame out of the pool and changes no count. */
  lemma GetRefSound(s: State, f: Addr)
    requires FramesApart(s)
    ensures var (s1, ok) := GetRef(s, f);
      && FramesApart(s1) && s1.view == s.view && s1.data == s.data
      && (forall g :: Count(s1, g) == Count(s, g))
      && (ok ==> f in s1.refs) && (!ok ==> s1 == s && s.pool == [])
  {
  }

  /** Every count but that of one frame is as before, and so is where every count is stored. */
  ghost predicate OthersCounted(refs: map<Addr, Ref>, refs': map<Addr, Ref>, f: Addr) {
    forall g | g != f :: (g in refs <==> g in refs') && (g in refs ==> refs'[g] == refs[g])
  }

  /** One reference more: the count of the frame goes up by one modulo 2^32. A frame without an entry gets one,
      with count one, in the first free frame; when none is free nothing changes. */
  lemma IncrementEffect(s: State, f: Addr)
    requires FramesApart(s)
    ensures var s1 := Increment(s, f);
      && FramesApart(s1) && s1.view == s.view && s1.data == s.data && OthersCounted(s.refs, s1.refs, f)
      && Count(s1, f) == (if f in s.refs || s.pool != [] then (Count(s, f) + 1) % 0x1_0000_0000 else 0)
      && (f in s.refs ==> s1.pool == s.pool && f in s1.refs && s1.refs[f].node == s.refs[f].node)
      && (f !in s.refs && s.pool != [] ==> s1.pool == s.pool[1..] && f in s1.refs && s1.refs[f] == Ref(1, s.pool[0]))
      && (f !in s.refs && s.pool == [] ==> s1 == s)
  {
    hide FramesApart;
    GetRefSound(s, f);
    IncrementApart(s, f);
  }

  lemma IncrementApart(s: State, f: Addr)
    requires FramesApart(s)
    ensures FramesApart(Increment(s, f))
  {
    GetRefSound(s, f);
  }

  /** One reference less: without an entry nothing happens; the last reference gives back the frame and the frame
      of its count; any other count goes down by one modulo 2^32, so that a count of zero becomes 2^32 - 1. */
  lemma DecrementEffect(s: State, f: Addr)
    requires FramesApart(s) && (f in s.refs ==> s.refs[f].count < U32)
    requires f in s.refs && s.refs[f].count == 1 ==> f in s.data
    ensures var s1 := Decrement(s, f);
      && FramesApart(s1) && s1.view == s.view && OthersCounted(s.refs, s1.refs, f)
      && (f !in s.refs ==> s1 == s)
      && (f in s.refs && Count(s, f) == 1 ==>
        f !in s1.refs && s1.data == s.data - {f} && s1.pool == [s.refs[f].node, f] + s.pool)
      && (f in s.refs && Count(s, f) != 1 ==>
        && s1.data == s.data && s1.pool == s.pool && f in s1.refs && s1.refs[f].node == s.refs[f].node
        && Count(s1, f) == if Count(s, f) == 0 then 0xFFFF_FFFF else Count(s, f) - 1)
  {
  }

  /** A decrement undoes the increment before it if and only if the frame was counted at least once. */
  lemma DecrementUndoes(s: State, f: Addr)
    requires f in s.refs && s.refs[f].count < U32
    ensures Decrement(Increment(s, f), f) == s <==> Count(s, f) != 0
  {
    var s1 := Increment(s, f);
    if Count(s, f) != 0 {
      assert Down(s1.refs[f].count) == s.refs[f].count;
      assert s1.refs[f := s1.refs[f].(count := s.refs[f].count)] == s.refs;
    } else {
      assert f !in Decrement(s1, f).refs;
    }
  }

  /** Marking flags the page, makes it read-only and adds one to the count of its frame. */
  lemma MarkEffect(s: State, p: Page)
    requires FramesApart(s) && p in s.view
    ensures var (s1, ok) := Mark(s, p);
      && FramesApart(s1) && s1.data == s.data
      && (ok <==> s.view[p].frame in s.refs || s.pool != [])
      && (!ok ==> s1 == s)
      && (ok ==>
        && s1.view == s.view[p := s.view[p].(writable := false, cow := true)] && s.view[p].frame in s1.refs
        && s1.pool == (if s.view[p].frame in s.refs then s.pool else s.pool[1..])
        && forall g ::
          Count(s1, g) == if g == s.view[p].frame then (Count(s, g) + 1) % 0x1_0000_0000 else Count(s, g))
  {
    GetRefSound(s, s.view[p].frame);
  }

  /** Marking keeps the counts exact if and only if the page was not marked before and the 32-bit
      counter does not wrap. */
  lemma MarkExact(s: State, p: Page)
    requires FramesApart(s) && CountsExact(s) && p in s.view && Mark(s, p).1
    ensures CountsExact(Mark(s, p).0) <==> !s.view[p].cow && |CowPages(s.view, s.view[p].frame)| + 1 < U32
  {
    hide FramesApart, Mark, GetRef, SetCount;
    var e := s.view[p];
    var f := e.frame;
    var s1 := Mark(s, p).0;
    MarkEffect(s, p);
    MarkedPages(s, p);
    assert Count(s, f) == |CowPages(s.view, f)|;
    if e.cow {
      assert CowPages(s.view, f) + {p} == CowPages(s.view, f);
      assert Count(s1, f) != |CowPages(s1.view, f)|;
    } else {
      assert |CowPages(s1.view, f)| == |CowPages(s.view, f)| + 1;
      if |CowPages(s.view, f)| + 1 < U32 {
        forall g ensures Count(s1, g) == |CowPages(s1.view, g)| {
          assert Count(s, g) == |CowPages(s.view, g)|;
        }
      } else {
        assert Count(s1, f) != |CowPages(s1.view, f)|;
      }
    }
  }

  /** The only page of a frame, marked a second time: the frame counts two, and a fault that was free
      before needs a frame for a copy and fails. */
  lemma SecondMarking(p: Page, f: Addr, node: Addr)
    requires f != node
    ensures var s := State(map[p := Pte(f, true, false, true)], map[f := Ref(1, node)], map[f := []], []);
      var (s1, ok) := Mark(s, p);
      && Inv(s) && ok && s1.view == s.view
      && Count(s1, f) == 2 && CowPages(s1.view, f) == {p}
      && Fault(s, p).1 && !Fault(s1, p).1
  {
    var s := State(map[p := Pte(f, true, false, true)], map[f := Ref(1, node)], map[f := []], []);
    forall g ensures Count(s, g) == |CowPages(s.view, g)| {
      assert CowPages(s.view, g) == if g == f then {p} else {};
    }
  }

  lemma MarkedPages(s: State, p: Page)
    requires FramesApart(s) && p in s.view && Mark(s, p).1
    ensures var s1, f := Mark(s, p).0, s.view[p].frame;
      forall g :: CowPages(s1.view, g) == if g == f then CowPages(s.view, f) + {p} else CowPages(s.view, g)
  {
    var e := s.view[p];
    MarkEffect(s, p);
    forall g
      ensures CowPages(Mark(s, p).0.view, g) ==
        if g == e.frame then CowPages(s.view, g) + {p} else CowPages(s.view, g)
    {
      CowPagesUpdate(s.view, p, Shared(e), g);
    }
  }

  // ----- each operation against private memory -----

  /** Is the page the only one mapped to its frame? */
  ghost predicate Sole(s: State, p: Page)
    requires p in s.view
  {
    forall q | q in s.view && q != p :: s.view[q].frame != s.view[p].frame
  }

  lemma CountOneSole(s: State, p: Page)
    requires Inv(s) && p in s.view && s.view[p].cow
    ensures Count(s, s.view[p].frame) >= 1
    ensures Count(s, s.view[p].frame) == 1 <==> Sole(s, p)
  {
    var f := s.view[p].frame;
    assert Count(s, f) == |CowPages(s.view, f)|;
    SubsetSize({p}, CowPages(s.view, f));
    if Sole(s, p) { assert CowPages(s.view, f) == {p}; }
    if |CowPages(s.view, f)| == 1 {
      forall q | q in s.view && q != p ensures s.view[q].frame != f {
        if s.view[q].frame == f {
          assert s.view[q].cow && q in CowPages(s.view, f);
          OnlyOne(s.view, p, q, f);
        }
      }
    }
  }

  /** Page p keeps its frame and becomes writable; the count of the frame drops to zero. */
  ghost predicate TakesOver(s: State, s1: State, p: Page)
    requires p in s.view
  {
    && s1.view == s.view[p := s.view[p].(writable := true, cow := false)] && s1.data == s.data && s1.pool == s.pool
    && (forall g :: Count(s1, g) == if g == s.view[p].frame then 0 else Count(s, g))
  }

  /** Page p moves to a free frame with a copy of the contents; the old frame loses one reference. */
  ghost predicate MovesToCopy(s: State, s1: State, p: Page)
    requires p in s.view && s.view[p].frame in s.data
  {
    && s.pool != [] && s1.pool == s.pool[1..]
    && s1.view == s.view[p := Pte(s.pool[0], s.view[p].present, true, false)]
    && s1.data == s.data[s.pool[0] := s.data[s.view[p].frame]]
    && (forall g :: Count(s1, g) == if g == s.view[p].frame then Count(s, g) - 1 else Count(s, g))
  }

  /** A fault succeeds exactly on a marked page whose frame is its own or for which a free frame is
      left; it takes the frame over in the first case and moves to a copy in the second. */
  lemma FaultEffect(s: State, p: Page)
    requires Inv(s)
    ensures Fault(s, p).1 <==> p in s.view && s.view[p].cow && (Sole(s, p) || s.pool != [])
    ensures !Fault(s, p).1 ==> Fault(s, p).0 == s
    ensures Fault(s, p).1 ==> FramesApart(Fault(s, p).0)
    ensures Fault(s, p).1 && Sole(s, p) ==> TakesOver(s, Fault(s, p).0, p)
    ensures Fault(s, p).1 && !Sole(s, p) ==> s.view[p].frame in s.data && MovesToCopy(s, Fault(s, p).0, p)
  {
    if p in s.view && s.view[p].cow {
      var f := s.view[p].frame;
      CountOneSole(s, p);
      CowPagesBound(s.view, f);
      assert Count(s, f) == |CowPages(s.view, f)|;
      FaultCases(s, p);
    }
  }

  lemma FaultCases(s: State, p: Page)
    requires FramesApart(s) && p in s.view && s.view[p].cow && s.view[p].frame in s.data
    requires 1 <= Count(s, s.view[p].frame) < U32
    ensures var c := Count(s, s.view[p].frame);
      var (s1, ok) := Fault(s, p);
      && (ok <==> c == 1 || s.pool != []) && (!ok ==> s1 == s) && (ok ==> FramesApart(s1))
      && (ok && c == 1 ==> TakesOver(s, s1, p)) && (ok && c != 1 ==> MovesToCopy(s, s1, p))
  {
  }

  /** A fault on a marked page that nobody counts: the page moves to a copy all the same, and the count of its old
      frame wraps to 2^32 - 1. It fails when no frame is left for the copy after the entry has taken one, which
      the entry then keeps. */
  lemma FaultUncounted(s: State, p: Page)
    requires FramesApart(s) && p in s.view && s.view[p].cow && s.view[p].frame in s.data
    requires Count(s, s.view[p].frame) == 0
    ensures var f, (s1, ok) := s.view[p].frame, Fault(s, p);
      var need := if f in s.refs then 0 else 1;
      && (ok <==> |s.pool| > need)
      && (|s.pool| >= need ==> f in s1.refs && (f !in s.refs ==> s1.refs[f].node == s.pool[0]))
      && (!ok ==>
        && s1.view == s.view && s1.data == s.data && Count(s1, f) == 0
        && s1.pool == (if |s.pool| >= need then s.pool[need..] else s.pool))
      && (ok ==>
        && Count(s1, f) == 0xFFFF_FFFF && s1.pool == s.pool[need + 1..]
        && s1.view == s.view[p := Pte(s.pool[need], s.view[p].present, true, false)]
        && s1.data == s.data[s.pool[need] := s.data[f]])
  {
    GetRefSound(s, s.view[p].frame);
    assert Down(0) == 0xFFFF_FFFF;
  }

  /** A fault keeps the invariant and changes no page's memory, whether it succeeds or not. After a
      successful fault the page is writable and shares its frame with no other page. */
  lemma FaultSound(s: State, p: Page)
    requires Inv(s)
    ensures var (s1, ok) := Fault(s, p);
      && Inv(s1) && Private(s1) == Private(s)
      && (ok ==> p in s1.view && s1.view[p].writable && !s1.view[p].cow && Sole(s1, p))
  {
    FaultEffect(s, p);
    var (s1, ok) := Fault(s, p);
    if ok {
      assert s1.view.Keys == s.view.Keys;
      if Sole(s, p) { TakesOverSound(s, s1, p); } else { MovesToCopySound(s, s1, p); }
    }
  }

  /** What a completed fault leaves behind. */
  ghost predicate Settled(s: State, s1: State, p: Page) {
    && MappingsOk(s1) && SharingMarked(s1) && NoLeak(s1) && CountsExact(s1) && Private(s1) == Private(s)
    && p in s1.view && s1.view[p].writable && !s1.view[p].cow && Sole(s1, p)
  }

  lemma TakesOverSound(s: State, s1: State, p: Page)
    requires Inv(s) && p in s.view && s.view[p].cow && Sole(s, p) && TakesOver(s, s1, p)
    ensures Settled(s, s1, p)
  {
    SameFramesNoLeak(s, s1);
    TakesOverCounts(s, s1, p);
    TakesOverMappings(s, s1, p);
  }

  lemma TakesOverMappings(s: State, s1: State, p: Page)
    requires MappingsOk(s) && SharingMarked(s) && p in s.view && Sole(s, p) && TakesOver(s, s1, p)
    ensures MappingsOk(s1) && SharingMarked(s1) && Sole(s1, p) && Private(s1) == Private(s)
  {
    SamePrivate(s, s1);
  }

  lemma SamePrivate(s: State, s1: State)
    requires s1.view.Keys == s.view.Keys
    requires forall q | q in s.view :: s.view[q].frame in s.data && s1.view[q].frame in s1.data
    requires forall q | q in s.view :: s1.data[s1.view[q].frame] == s.data[s.view[q].frame]
    ensures Private(s1) == Private(s)
  {
    assert Private(s1).Keys == s1.view.Keys && Private(s).Keys == s.view.Keys;
  }

  /** Only page p reads differently. */
  lemma OnePageChanged(s: State, s1: State, p: Page, c: Content)
    requires s1.view.Keys == s.view.Keys + {p}
    requires forall q | q in s.view :: s.view[q].frame in s.data
    requires forall q | q in s1.view :: s1.view[q].frame in s1.data
    requires forall q | q in s.view && q != p :: s1.data[s1.view[q].frame] == s.data[s.view[q].frame]
    requires s1.data[s1.view[p].frame] == c
    ensures Private(s1) == Private(s)[p := c]
  {
    assert Private(s1).Keys == s1.view.Keys && Private(s).Keys == s.view.Keys;
  }

  lemma TakesOverCounts(s: State, s1: State, p: Page)
    requires CountsExact(s) && p in s.view && Sole(s, p) && TakesOver(s, s1, p)
    ensures CountsExact(s1)
  {
    forall g ensures Count(s1, g) == |CowPages(s1.view, g)| {
      CowPagesUpdate(s.view, p, s1.view[p], g);
      assert Count(s, g) == |CowPages(s.view, g)|;
      if g == s.view[p].frame { assert CowPages(s1.view, g) == {}; } else { assert p !in CowPages(s.view, g); }
    }
  }

  lemma SameFramesNoLeak(s: State, s1: State)
    requires NoLeak(s) && s1.data.Keys <= s.data.Keys && s.view.Keys <= s1.view.Keys
    requires forall q | q in s.view :: s1.view[q].frame == s.view[q].frame
    ensures NoLeak(s1)
  {
    forall f | f in s1.data ensures exists r :: r in s1.view && s1.view[r].frame == f {
      var r :| r in s.view && s.view[r].frame == f;
      assert r in s1.view && s1.view[r].frame == f;
    }
  }

  lemma MovesToCopySound(s: State, s1: State, p: Page)
    requires Inv(s) && p in s.view && s.view[p].cow && !Sole(s, p) && s.view[p].frame in s.data && MovesToCopy(s, s1, p)
    ensures Settled(s, s1, p)
  {
    assert s.pool[0] in s.pool;
    MovesToCopyNoLeak(s, s1, p);
    MovesToCopyCounts(s, s1, p);
    MovesToCopyMappings(s, s1, p);
  }

  lemma MovesToCopyMappings(s: State, s1: State, p: Page)
    requires MappingsOk(s) && SharingMarked(s) && p in s.view && s.view[p].frame in s.data && MovesToCopy(s, s1, p)
    requires s.pool[0] !in s.data
    ensures MappingsOk(s1) && SharingMarked(s1) && Sole(s1, p) && Private(s1) == Private(s)
  {
    MovesToCopyMarks(s, s1, p);
    hide SharingMarked;
    SamePrivate(s, s1);
  }

  lemma MovesToCopyMarks(s: State, s1: State, p: Page)
    requires MappingsOk(s) && SharingMarked(s) && p in s.view && s.view[p].frame in s.data && MovesToCopy(s, s1, p)
    requires s.pool[0] !in s.data
    ensures SharingMarked(s1) && Sole(s1, p)
  {
    forall q | q in s.view ensures s.view[q].frame != s.pool[0] && (q != p ==> s1.view[q] == s.view[q]) { }
  }

  lemma MovesToCopyCounts(s: State, s1: State, p: Page)
    requires CountsExact(s) && p in s.view && s.view[p].cow && s.view[p].frame in s.data && MovesToCopy(s, s1, p)
    ensures CountsExact(s1)
  {
    forall g ensures Count(s1, g) == |CowPages(s1.view, g)| {
      CowPagesUpdate(s.view, p, s1.view[p], g);
      assert Count(s, g) == |CowPages(s.view, g)|;
      if g == s.view[p].frame { assert p in CowPages(s.view, g); } else { assert p !in CowPages(s.view, g); }
    }
  }

  lemma MovesToCopyNoLeak(s: State, s1: State, p: Page)
    requires NoLeak(s) && p in s.view && !Sole(s, p) && s.view[p].frame in s.data && MovesToCopy(s, s1, p)
    ensures NoLeak(s1)
  {
    var other :| other in s.view && other != p && s.view[other].frame == s.view[p].frame;
    forall f | f in s1.data ensures exists r :: r in s1.view && s1.view[r].frame == f {
      if f == s.pool[0] {
        assert s1.view[p].frame == f;
      } else {
        var r :| r in s.view && s.view[r].frame == f;
        var w := if r == p then other else r;
        assert w in s1.view && s1.view[w].frame == f;
      }
    }
  }

  /** Mapping a page to a frame of its own gives it the contents and changes no other page. */
  lemma MapFreshSound(s: State, p: Page, c: Content)
    requires Inv(s) && |s.view| < U32 - 2
    ensures var (s1, ok) := MapFresh(s, p, c);
      && Inv(s1) && (ok <==> p !in s.view && s.pool != [])
      && Private(s1) == if ok then Private(s)[p := c] else Private(s)
  {
    if p !in s.view && s.pool != [] { MapFreshWorks(s, MapFresh(s, p, c).0, p, s.pool[0], c); }
  }

  lemma MapFreshWorks(s: State, s1: State, p: Page, f: Addr, c: Content)
    requires Inv(s) && |s.view| < U32 - 2 && s.pool != [] && f == s.pool[0] && p !in s.view
    requires s1.view == s.view[p := Fresh(f)] && s1.data == s.data[f := c]
    requires s1.pool == s.pool[1..] && s1.refs == s.refs
    ensures Inv(s1) && Private(s1) == Private(s)[p := c]
  {
    MapFreshApart(s, s1, p, f, c);
    MapFreshMappings(s, s1, p, f, c);
    MapFreshTables(s, s1, p, f, c);
  }

  lemma MapFreshTables(s: State, s1: State, p: Page, f: Addr, c: Content)
    requires NoLeak(s) && CountsExact(s) && p !in s.view
    requires s1.view == s.view[p := Fresh(f)] && s1.data == s.data[f := c] && s1.refs == s.refs
    ensures NoLeak(s1) && CountsExact(s1)
  {
    MapFreshNoLeak(s, s1, p, f);
    UnmarkedCounts(s, s1, p, Fresh(f));
  }

  lemma MapFreshApart(s: State, s1: State, p: Page, f: Addr, c: Content)
    requires FramesApart(s) && s.pool != [] && f == s.pool[0] && p !in s.view
    requires s1.view == s.view[p := Fresh(f)] && s1.data == s.data[f := c]
    requires s1.pool == s.pool[1..] && s1.refs == s.refs
    ensures f !in s.data && FramesApart(s1) && |s1.view| == |s.view| + 1
  {
    assert f in s.pool;
    OneMoreKey(s.view, p, Fresh(f));
  }

  lemma MapFreshMappings(s: State, s1: State, p: Page, f: Addr, c: Content)
    requires MappingsOk(s) && SharingMarked(s) && p !in s.view && f !in s.data
    requires s1.view == s.view[p := Fresh(f)] && s1.data == s.data[f := c]
    ensures MappingsOk(s1) && SharingMarked(s1) && Private(s1) == Private(s)[p := c]
  {
    assert forall q | q in s.view :: s.view[q].frame != f && s1.view[q] == s.view[q];
    OnePageChanged(s, s1, p, c);
  }

  lemma MapFreshNoLeak(s: State, s1: State, p: Page, f: Addr)
    requires NoLeak(s) && p !in s.view
    requires s1.view == s.view[p := Fresh(f)] && s1.data.Keys == s.data.Keys + {f}
    ensures NoLeak(s1)
  {
    forall g | g in s1.data ensures exists r :: r in s1.view && s1.view[r].frame == g {
      if g == f {
        assert s1.view[p].frame == g;
      } else {
        var r :| r in s.view && s.view[r].frame == g;
        assert r in s1.view && s1.view[r].frame == g;
      }
    }
  }

  /** Adding an unmarked page, or none, leaves the counts exact. */
  lemma UnmarkedCounts(s: State, s1: State, p: Page, e: Pte)
    requires CountsExact(s) && s1.refs == s.refs && p !in s.view && !e.cow && s1.view == s.view[p := e]
    ensures CountsExact(s1)
  {
    forall g ensures Count(s1, g) == |CowPages(s1.view, g)| {
      CowPagesUpdate(s.view, p, e, g);
      assert Count(s, g) == |CowPages(s.view, g)|;
      assert p !in CowPages(s.view, g);
    }
  }

  /** A store changes the writer's view of that byte and nothing else that any page can see. It
      succeeds exactly when the page is mapped, the byte exists, and the page has its frame to itself
      or a frame is left for a copy. */
  lemma WriteSound(s: State, p: Page, i: nat, b: Byte)
    requires Inv(s)
    ensures var (s1, ok) := Write(s, p, i, b);
      && Inv(s1)
      && (ok <==> p in s.view && i < |Private(s)[p]| && (Sole(s, p) || s.pool != []))
      && Private(s1) == if ok then Private(s)[p := Private(s)[p][i := b]] else Private(s)
  {
    if p in s.view {
      if s.view[p].writable {
        StoreSound(s, p, i, b);
      } else {
        FaultSound(s, p);
        FaultEffect(s, p);
        var (s1, ok) := Fault(s, p);
        if ok { StoreSound(s1, p, i, b); }
      }
    }
  }

  lemma StoreSound(s: State, p: Page, i: nat, b: Byte)
    requires Inv(s) && p in s.view && s.view[p].writable
    ensures s.view[p].frame in s.data && Sole(s, p)
    ensures i < |s.data[s.view[p].frame]| ==>
      Inv(Store(s, p, i, b)) && Private(Store(s, p, i, b)) == Private(s)[p := Private(s)[p][i := b]]
  {
    var f := s.view[p].frame;
    if i < |s.data[f]| {
      var s1 := Store(s, p, i, b);
      SameFramesNoLeak(s, s1);
      StoreKeeps(s, s1, f);
      StorePrivate(s, p, i, b);
    }
  }

  lemma StorePrivate(s: State, p: Page, i: nat, b: Byte)
    requires MappingsOk(s) && p in s.view && Sole(s, p) && i < |s.data[s.view[p].frame]|
    ensures Private(Store(s, p, i, b)) == Private(s)[p := Private(s)[p][i := b]]
  {
    OnePageChanged(s, Store(s, p, i, b), p, s.data[s.view[p].frame][i := b]);
  }

  lemma StoreKeeps(s: State, s1: State, f: Addr)
    requires MappingsOk(s) && SharingMarked(s) && CountsExact(s) && FramesApart(s) && f in s.data
    requires s1.view == s.view && s1.refs == s.refs && s1.pool == s.pool && s1.data.Keys == s.data.Keys
    ensures MappingsOk(s1) && SharingMarked(s1) && CountsExact(s1) && FramesApart(s1)
  {
    forall g ensures Count(s1, g) == |CowPages(s1.view, g)| {
      assert Count(s, g) == |CowPages(s.view, g)|;
    }
  }

  // ----- giving a page up -----

  /** Page p is gone; its frame is gone too exactly when no other page maps it. */
  ghost predicate GivesUp(s: State, s1: State, p: Page)
    requires p in s.view
  {
    var e := s.view[p];
    && s1.view == s.view - {p}
    && s1.data == (if Sole(s, p) then s.data - {e.frame} else s.data)
    && (forall g :: Count(s1, g) == if e.cow && g == e.frame then Count(s, g) - 1 else Count(s, g))
  }

  lemma ReleaseCases(s: State, p: Page)
    requires FramesApart(s) && p in s.view && s.view[p].frame in s.data
    requires s.view[p].cow ==> 1 <= Count(s, s.view[p].frame) < U32 && (Count(s, s.view[p].frame) == 1 <==> Sole(s, p))
    requires !s.view[p].cow ==> Sole(s, p)
    ensures FramesApart(Release(s, p)) && GivesUp(s, Release(s, p), p)
    ensures s.view[p].frame in Release(s, p).pool <==> Sole(s, p)
  {
  }

  lemma GivesUpCounts(s: State, s1: State, p: Page)
    requires CountsExact(s) && p in s.view && GivesUp(s, s1, p)
    ensures CountsExact(s1)
  {
    forall g ensures Count(s1, g) == |CowPages(s1.view, g)| {
      CowPagesRemove(s.view, p, g);
      assert Count(s, g) == |CowPages(s.view, g)|;
      if s.view[p].cow && g == s.view[p].frame {
        assert p in CowPages(s.view, g);
      } else {
        assert p !in CowPages(s.view, g);
      }
    }
  }

  lemma GivesUpMappings(s: State, s1: State, p: Page)
    requires MappingsOk(s) && SharingMarked(s) && p in s.view && GivesUp(s, s1, p)
    ensures MappingsOk(s1) && SharingMarked(s1) && Private(s1) == Private(s) - {p}
  {
    assert forall q | q in s1.view :: s1.view[q] == s.view[q];
    assert Private(s1).Keys == s1.view.Keys && Private(s).Keys == s.view.Keys;
  }

  lemma GivesUpNoLeak(s: State, s1: State, p: Page)
    requires NoLeak(s) && p in s.view && GivesUp(s, s1, p)
    ensures NoLeak(s1) && |s1.view| <= |s.view|
  {
    SubsetSize(s1.view.Keys, s.view.Keys);
    forall f | f in s1.data ensures exists r :: r in s1.view && s1.view[r].frame == f {
      var r :| r in s.view && s.view[r].frame == f;
      if r == p {
        var w :| w in s.view && w != p && s.view[w].frame == f;
        assert w in s1.view && s1.view[w].frame == f;
      } else {
        assert r in s1.view && s1.view[r].frame == f;
      }
    }
  }

  /** cow_decrement_ref after the page is unmapped: the invariant holds afterwards if and only if the
      page was marked, and the frame goes back to the pool if and only if it was marked and the last
      one. For an unmarked page the frame is lost, and a count that is kept for it wraps around. */
  lemma DecrementAfterUnmap(s: State, p: Page)
    requires Inv(s) && p in s.view
    ensures var e := s.view[p];
      var s1 := Decrement(s.(view := s.view - {p}), e.frame);
      && (Inv(s1) <==> e.cow)
      && (e.frame in s1.pool <==> e.cow && Sole(s, p))
      && (e.frame in s1.data <==> !(e.cow && Sole(s, p)))
      && (e.cow ==> s1 == Release(s, p))
      && (!e.cow && e.frame in s.refs ==> Count(s1, e.frame) == U32 - 1)
  {
    var e := s.view[p];
    ReleaseSound(s, p);
    if !e.cow { UnmarkedIsLost(s, p); }
  }

  lemma UnmarkedIsLost(s: State, p: Page)
    requires Inv(s) && p in s.view && !s.view[p].cow
    ensures var f := s.view[p].frame;
      var s1 := Decrement(s.(view := s.view - {p}), f);
      !NoLeak(s1) && f in s1.data && f !in s1.pool && (f in s.refs ==> Count(s1, f) == U32 - 1)
  {
    var f := s.view[p].frame;
    assert Count(s, f) == |CowPages(s.view, f)|;
    assert CowPages(s.view, f) == {};
    assert Down(0) == U32 - 1;
  }

  /** Unmapping a page and giving up its reference changes no other page, and the frame goes back to
      the pool exactly when its last mapping goes. */
  lemma ReleaseSound(s: State, p: Page)
    requires Inv(s) && p in s.view
    ensures Inv(Release(s, p)) && Private(Release(s, p)) == Private(s) - {p}
    ensures s.view[p].frame in Release(s, p).pool <==> Sole(s, p)
    ensures s.view[p].frame in Release(s, p).data <==> !Sole(s, p)
  {
    if s.view[p].cow {
      CountOneSole(s, p);
      CowPagesBound(s.view, s.view[p].frame);
      assert Count(s, s.view[p].frame) == |CowPages(s.view, s.view[p].frame)|;
    }
    ReleaseCases(s, p);
    var s1 := Release(s, p);
    GivesUpCounts(s, s1, p);
    GivesUpMappings(s, s1, p);
    GivesUpNoLeak(s, s1, p);
  }

  // ----- sharing -----

  /** Both pages map the frame, read-only and marked; the count covers both. */
  ghost predicate SharesFrame(s: State, s1: State, src: Page, dst: Page)
    requires src in s.view
  {
    var e := s.view[src];
    && s1.view == s.view[src := Shared(e)][dst := Shared(Fresh(e.frame))] && s1.data == s.data
    && (forall g :: Count(s1, g) == if g == e.frame then Count(s, g) + (if e.cow then 1 else 2) else Count(s, g))
  }

  /** When the frame is already counted, only dst is marked. */
  lemma ShareMarked(s: State, src: Page, dst: Page)
    requires FramesApart(s) && src in s.view && dst !in s.view && s.view[src].cow && Shared(s.view[src]) == s.view[src]
    requires s.view[src].frame in s.refs && Count(s, s.view[src].frame) + 2 < U32
    ensures Share(s, src, dst).1 && FramesApart(Share(s, src, dst).0) && SharesFrame(s, Share(s, src, dst).0, src, dst)
  {
    var e := s.view[src];
    var mapped := s.(view := s.view[dst := Fresh(e.frame)]);
    MarkEffect(mapped, dst);
    assert s.view[src := Shared(e)] == s.view;
  }

  /** Otherwise both mappings are marked, and the second marking cannot fail. */
  lemma ShareUnmarked(s: State, src: Page, dst: Page)
    requires FramesApart(s) && src in s.view && dst !in s.view && !s.view[src].cow
    requires Count(s, s.view[src].frame) + 2 < U32
    ensures Share(s, src, dst).1 <==> s.view[src].frame in s.refs || s.pool != []
    ensures !Share(s, src, dst).1 ==> Share(s, src, dst).0 == s
    ensures Share(s, src, dst).1 ==> FramesApart(Share(s, src, dst).0) && SharesFrame(s, Share(s, src, dst).0, src, dst)
  {
    var e := s.view[src];
    var mapped := s.(view := s.view[dst := Fresh(e.frame)]);
    assert mapped.view - {dst} == s.view;
    MarkEffect(mapped, src);
    var (s2, ok) := Mark(mapped, src);
    if ok {
      MarkEffect(s2, dst);
      TwoMarks(s, mapped, s2, Mark(s2, dst).0, src, dst);
    }
  }

  lemma TwoMarks(s: State, m: State, s2: State, s3: State, src: Page, dst: Page)
    requires src in s.view && dst !in s.view && !s.view[src].cow && Count(s, s.view[src].frame) + 2 < U32
    requires m == s.(view := s.view[dst := Fresh(s.view[src].frame)])
    requires s2.view == m.view[src := Shared(s.view[src])] && s3.view == s2.view[dst := Shared(s2.view[dst])]
    requires s3.data == s2.data == m.data
    requires forall g :: Count(s2, g) == if g == s.view[src].frame then Up(Count(m, g)) else Count(m, g)
    requires forall g :: Count(s3, g) == if g == s.view[src].frame then Up(Count(s2, g)) else Count(s2, g)
    ensures SharesFrame(s, s3, src, dst)
  {
    forall g ensures Count(m, g) == Count(s, g) { }
    var e := s.view[src];
    assert s2.view[dst] == Fresh(e.frame);
    assert s3.view == s.view[src := Shared(e)][dst := Shared(Fresh(e.frame))];
  }

  lemma SharesFrameCounts(s: State, s1: State, src: Page, dst: Page)
    requires CountsExact(s) && src in s.view && dst !in s.view && SharesFrame(s, s1, src, dst)
    ensures CountsExact(s1)
  {
    var e := s.view[src];
    forall g ensures Count(s1, g) == |CowPages(s1.view, g)| {
      CowPagesUpdate(s.view, src, Shared(e), g);
      CowPagesUpdate(s.view[src := Shared(e)], dst, Shared(Fresh(e.frame)), g);
      assert Count(s, g) == |CowPages(s.view, g)|;
      assert dst !in CowPages(s.view, g) && (src in CowPages(s.view, g) <==> e.cow && g == e.frame);
    }
  }

  lemma SharesFrameMappings(s: State, s1: State, src: Page, dst: Page)
    requires MappingsOk(s) && SharingMarked(s) && src in s.view && dst !in s.view && SharesFrame(s, s1, src, dst)
    ensures MappingsOk(s1) && SharingMarked(s1)
  {
    assert forall q | q in s.view && q != src :: s1.view[q] == s.view[q];
  }

  lemma SharesFrameReads(s: State, s1: State, src: Page, dst: Page)
    requires MappingsOk(s) && NoLeak(s) && src in s.view && dst !in s.view && SharesFrame(s, s1, src, dst)
    ensures NoLeak(s1) && |s1.view| == |s.view| + 1
    ensures Private(s1) == Private(s)[dst := Private(s)[src]]
  {
    hide NoLeak;
    OneMoreKey(s.view, dst, s1.view[dst]);
    assert s1.view.Keys == s.view.Keys + {dst};
    assert forall q | q in s.view :: s1.view[q].frame == s.view[q].frame;
    SameFramesNoLeak(s, s1);
    OnePageChanged(s, s1, dst, s.data[s.view[src].frame]);
  }

  lemma SharesFrameSound(s: State, s1: State, src: Page, dst: Page)
    requires Inv(s) && |s.view| < U32 - 3 && src in s.view && dst !in s.view
    requires FramesApart(s1) && SharesFrame(s, s1, src, dst)
    ensures Inv(s1) && Private(s1) == Private(s)[dst := Private(s)[src]]
  {
    SharesFrameCounts(s, s1, src, dst);
    SharesFrameMappings(s, s1, src, dst);
    SharesFrameReads(s, s1, src, dst);
  }

  /** Sharing gives dst the contents of src and changes no other page; without a frame for the
      reference entry it changes nothing. */
  lemma ShareSound(s: State, src: Page, dst: Page)
    requires Inv(s) && |s.view| < U32 - 3
    ensures var (s1, ok) := Share(s, src, dst);
      && Inv(s1) && (ok ==> src in s.view)
      && (ok <==> src in s.view && dst !in s.view && (s.view[src].frame in s.refs || s.pool != []))
      && Private(s1) == if ok then Private(s)[dst := Private(s)[src]] else Private(s)
  {
    if src in s.view && dst !in s.view {
      ShareEffect(s, src, dst);
      var (s1, ok) := Share(s, src, dst);
      if ok { SharesFrameSound(s, s1, src, dst); }
    }
  }

  lemma ShareEffect(s: State, src: Page, dst: Page)
    requires Inv(s) && |s.view| < U32 - 3 && src in s.view && dst !in s.view
    ensures Share(s, src, dst).1 <==> s.view[src].frame in s.refs || s.pool != []
    ensures !Share(s, src, dst).1 ==> Share(s, src, dst).0 == s
    ensures Share(s, src, dst).1 ==> FramesApart(Share(s, src, dst).0) && SharesFrame(s, Share(s, src, dst).0, src, dst)
  {
    var f := s.view[src].frame;
    CowPagesBound(s.view, f);
    assert Count(s, f) == |CowPages(s.view, f)|;
    if s.view[src].cow {
      CountOneSole(s, src);
      ShareMarked(s, src, dst);
    } else {
      ShareUnmarked(s, src, dst);
    }
  }

  // ----- conservation of frames -----

  ghost function FreeFrames(pool: seq<Addr>): set<Addr> {
    set f | f in pool
  }

  ghost function Nodes(refs: map<Addr, Ref>): set<Addr> {
    set f | f in refs :: refs[f].node
  }

  /** The free frames, the frames with page contents and the frames that store counts. */
  ghost function Frames(s: State): set<Addr> {
    FreeFrames(s.pool) + s.data.Keys + Nodes(s.refs)
  }

  lemma FirstFree(pool: seq<Addr>)
    requires pool != []
    ensures FreeFrames(pool) == {pool[0]} + FreeFrames(pool[1..])
  {
    assert pool == [pool[0]] + pool[1..];
  }

  lemma NodesUpdate(refs: map<Addr, Ref>, f: Addr, r: Ref)
    requires f !in refs || refs[f].node == r.node
    ensures Nodes(refs[f := r]) == Nodes(refs) + {r.node}
  {
    assert forall g | g in refs && g != f :: refs[f := r][g] == refs[g];
    assert refs[f := r][f] == r;
    forall x | x in Nodes(refs) ensures x in Nodes(refs[f := r]) {
      var g :| g in refs && refs[g].node == x;
      assert refs[f := r][g].node == x;
    }
  }

  lemma NodesRemove(refs: map<Addr, Ref>, f: Addr)
    requires f in refs && forall g | g in refs && g != f :: refs[g].node != refs[f].node
    ensures Nodes(refs) == Nodes(refs - {f}) + {refs[f].node}
  {
    assert forall g | g in refs && g != f :: (refs - {f})[g] == refs[g];
  }

  lemma GetRefConserves(s: State, f: Addr)
    ensures Frames(GetRef(s, f).0) == Frames(s)
  {
    if f !in s.refs && s.pool != [] {
      FirstFree(s.pool);
      NodesUpdate(s.refs, f, Ref(0, s.pool[0]));
    }
  }

  lemma SetCountConserves(s: State, f: Addr, n: nat)
    requires f in s.refs
    ensures Frames(SetCount(s, f, n)) == Frames(s)
  {
    NodesUpdate(s.refs, f, s.refs[f].(count := n));
  }

  lemma MarkConserves(s: State, p: Page)
    ensures Frames(Mark(s, p).0) == Frames(s)
  {
    if p in s.view {
      var f := s.view[p].frame;
      var s1 := GetRef(s, f).0;
      GetRefConserves(s, f);
      if GetRef(s, f).1 { SetCountConserves(s1, f, Up(s1.refs[f].count)); }
    }
  }

  lemma FaultConserves(s: State, p: Page)
    ensures Frames(Fault(s, p).0) == Frames(s)
  {
    if p in s.view && s.view[p].cow {
      var f := s.view[p].frame;
      var s1 := GetRef(s, f).0;
      GetRefConserves(s, f);
      if GetRef(s, f).1 {
        SetCountConserves(s1, f, 0);
        SetCountConserves(s1, f, Down(s1.refs[f].count));
        if s1.pool != [] { FirstFree(s1.pool); }
      }
    }
  }

  lemma DecrementConserves(s: State, f: Addr)
    requires FramesApart(s) && (f in s.refs && Down(s.refs[f].count) == 0 ==> f in s.data)
    ensures Frames(Decrement(s, f)) == Frames(s)
  {
    if f in s.refs {
      var c := Down(s.refs[f].count);
      if c != 0 {
        SetCountConserves(s, f, c);
      } else {
        NodesRemove(s.refs, f);
        assert FreeFrames([s.refs[f].node, f] + s.pool) == {s.refs[f].node, f} + FreeFrames(s.pool);
        assert s.data.Keys == (s.data - {f}).Keys + {f};
      }
    }
  }

  lemma ReleaseConserves(s: State, p: Page)
    requires FramesApart(s) && MappingsOk(s)
    ensures Frames(Release(s, p)) == Frames(s)
  {
    if p in s.view {
      var e := s.view[p];
      var s1 := s.(view := s.view - {p});
      if e.cow {
        DecrementConserves(s1, e.frame);
      } else {
        assert FreeFrames([e.frame] + s.pool) == {e.frame} + FreeFrames(s.pool);
        assert s.data.Keys == (s.data - {e.frame}).Keys + {e.frame};
      }
    }
  }

  lemma ShareConserves(s: State, src: Page, dst: Page)
    ensures Frames(Share(s, src, dst).0) == Frames(s)
  {
    if src in s.view && dst !in s.view {
      var e := s.view[src];
      var s1 := s.(view := s.view[dst := Fresh(e.frame)]);
      MarkConserves(s1, src);
      MarkConserves(if e.cow then s1 else Mark(s1, src).0, dst);
    }
  }

  lemma MapFreshConserves(s: State, p: Page, c: Content)
    ensures Frames(MapFresh(s, p, c).0) == Frames(s)
  {
    if s.pool != [] { FirstFree(s.pool); }
  }

  lemma WriteConserves(s: State, p: Page, i: nat, b: Byte)
    ensures Frames(Write(s, p, i, b).0) == Frames(s)
  {
    FaultConserves(s, p);
  }
}
