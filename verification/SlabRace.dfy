/** The stack of free objects, which threads use without a lock, one memory access at a time: when an
    object can reach two threads. */
module SlabRace {
  import opened Common

  const LIMIT: nat := 16
  const SLOTS: nat := 512

  /** Where a thread stands: the accesses of a pop after its test, and of a push after its test. The
      numbers are what it has read of `available`. */
  datatype Pc =
    | Idle
    | PopLoad
    | PopStore(n: nat)
    | PopIndex
    | PopFetch(n: nat)
    | PushIndex(o: nat)
    | PushWrite(o: nat, n: nat)
    | PushLoad(o: nat)
    | PushStore(o: nat, n: nat)

  /** A thread and the objects it was handed. */
  datatype Thread = Thread(pc: Pc, held: set<nat>)

  datatype State = State(objects: seq<nat>, available: nat, threads: seq<Thread>)

  /** A thread starts a pop, starts to push an object it holds, or makes its next access. */
  datatype Event =
    | Pop(t: nat)
    | Push(t: nat, o: nat)
    | Go(t: nat)

  function With(s: State, t: nat, th: Thread): State
    requires t < |s.threads|
  {
    s.(threads := s.threads[t := th])
  }

  /** One access. A test that fails leads to the locked path, which is not part of this module. */
  function Step(s: State, e: Event): State {
    if e.t >= |s.threads| then s else
      var th := s.threads[e.t];
      match e
      case Pop(t) => if th.pc.Idle? && s.available > 0 then With(s, t, th.(pc := PopLoad)) else s
      case Push(t, o) =>
        if th.pc.Idle? && o in th.held && s.available < LIMIT
        then With(s, t, Thread(PushIndex(o), th.held - {o}))
        else s
      case Go(t) => Advance(s, t)
  }

  function Advance(s: State, t: nat): State
    requires t < |s.threads|
  {
    var th := s.threads[t];
    match th.pc
    case Idle => s
    case PopLoad => With(s, t, th.(pc := PopStore(s.available)))
    case PopStore(n) => With(s.(available := (n - 1) % U32), t, th.(pc := PopIndex))
    case PopIndex => With(s, t, th.(pc := PopFetch(s.available)))
    case PopFetch(n) => With(s, t, Thread(Idle, th.held + if n < |s.objects| then {s.objects[n]} else {}))
    case PushIndex(o) => With(s, t, th.(pc := PushWrite(o, s.available)))
    case PushWrite(o, n) =>
      With(s.(objects := if n < |s.objects| then s.objects[n := o] else s.objects), t, th.(pc := PushLoad(o)))
    case PushLoad(o) => With(s, t, th.(pc := PushStore(o, s.available)))
    case PushStore(o, n) => With(s.(available := (n + 1) % U32), t, th.(pc := Idle))
  }

  function Run(s: State, es: seq<Event>): State
    decreases |es|
  {
    if es == [] then s else Run(Step(s, es[0]), es[1..])
  }

  // ----- who has an object -----

  /** The object between the stack and the thread. */
  function Transit(s: State, pc: Pc): set<nat> {
    match pc
    case Idle => {}
    case PopLoad => {}
    case PopStore(_) => {}
    case PopIndex => if s.available < |s.objects| then {s.objects[s.available]} else {}
    case PopFetch(_) => if s.available < |s.objects| then {s.objects[s.available]} else {}
    case PushIndex(o) => {o}
    case PushWrite(o, _) => {o}
    case PushLoad(o) => {o}
    case PushStore(o, _) => {o}
  }

  function Owns(s: State, t: nat): set<nat>
    requires t < |s.threads|
  {
    s.threads[t].held + Transit(s, s.threads[t].pc)
  }

  ghost predicate OnStack(s: State, x: nat) {
    exists i :: 0 <= i < s.available && i < |s.objects| && s.objects[i] == x
  }

  /** The object is on the stack, with a thread, or on the way. */
  ghost predicate Has(s: State, x: nat) {
    OnStack(s, x) || exists t: nat :: t < |s.threads| && x in Owns(s, t)
  }

  /** No two threads hold one object. */
  ghost predicate HeldApart(s: State) {
    forall t, u | 0 <= t < u < |s.threads| :: s.threads[t].held !! s.threads[u].held
  }

  ghost predicate AllIdle(s: State) {
    forall t | 0 <= t < |s.threads| :: s.threads[t].pc.Idle?
  }

  // ----- what holds while operations do not overlap -----

  ghost predicate PcOk(s: State, pc: Pc)
    requires s.available <= LIMIT && |s.objects| == SLOTS
  {
    match pc
    case Idle => true
    case PopLoad => s.available > 0
    case PopStore(n) => n == s.available > 0
    case PopIndex => s.available < LIMIT
    case PopFetch(n) => n == s.available < LIMIT
    case PushIndex(_) => s.available < LIMIT
    case PushWrite(_, n) => n == s.available < LIMIT
    case PushLoad(o) => s.available < LIMIT && s.objects[s.available] == o
    case PushStore(o, n) => n == s.available < LIMIT && s.objects[s.available] == o
  }

  ghost predicate ThreadOk(s: State, t: nat)
    requires s.available <= LIMIT && |s.objects| == SLOTS && t < |s.threads|
  {
    var th := s.threads[t];
    PcOk(s, th.pc) && th.held !! Transit(s, th.pc) && forall x | x in Owns(s, t) :: !OnStack(s, x)
  }

  ghost predicate StackOk(s: State) {
    && |s.objects| == SLOTS && s.available <= LIMIT
    && forall i, j | 0 <= i < j < s.available :: s.objects[i] != s.objects[j]
  }

  ghost predicate OwnersApart(s: State) {
    forall t, u | 0 <= t < u < |s.threads| :: Owns(s, t) !! Owns(s, u)
  }

  /** Every object is in one place. */
  ghost predicate Inv(s: State) {
    StackOk(s) && OwnersApart(s) && forall t | 0 <= t < |s.threads| :: ThreadOk(s, t)
  }

  /** Only thread t is in the middle of an operation, if any is. */
  ghost predicate Alone(s: State, t: nat) {
    forall u | 0 <= u < |s.threads| && u != t :: s.threads[u].pc.Idle?
  }

  /** What a step of thread t may change: its own objects and those on the stack, none made, none lost,
      none taken from another thread. */
  ghost predicate Exchanges(s: State, s': State, t: nat)
    requires t < |s.threads|
  {
    && |s'.threads| == |s.threads| && (forall u | 0 <= u < |s.threads| && u != t :: s'.threads[u] == s.threads[u])
    && forall x :: OnStack(s', x) || x in Owns(s', t) <==> OnStack(s, x) || x in Owns(s, t)
  }

  lemma ExchangeKeeps(s: State, s': State, t: nat)
    requires Inv(s) && t < |s.threads| && Alone(s, t) && StackOk(s') && Exchanges(s, s', t) && ThreadOk(s', t)
    ensures Inv(s') && forall x :: Has(s', x) <==> Has(s, x)
  {
    hide OnStack;
    forall u | 0 <= u < |s.threads| && u != t
      ensures Owns(s', u) == Owns(s, u) == s.threads[u].held && Owns(s', u) !! Owns(s', t) && ThreadOk(s', u)
    {
      assert ThreadOk(s, u) && ThreadOk(s, t);
      assert if u < t then Owns(s, u) !! Owns(s, t) else Owns(s, t) !! Owns(s, u);
    }
    assert forall u, v | 0 <= u < v < |s.threads| && u != t && v != t ::
      Owns(s', u) == Owns(s, u) && Owns(s', v) == Owns(s, v);
    forall x ensures Has(s', x) <==> Has(s, x) { ExchangeHas(s, s', t, x); }
  }

  lemma ExchangeHas(s: State, s': State, t: nat, x: nat)
    requires t < |s.threads| == |s'.threads|
    requires forall u | 0 <= u < |s.threads| && u != t :: Owns(s', u) == Owns(s, u)
    requires OnStack(s', x) || x in Owns(s', t) <==> OnStack(s, x) || x in Owns(s, t)
    ensures Has(s', x) <==> Has(s, x)
  {
    hide OnStack;
    if u: nat :| u < |s.threads| && x in Owns(s, u) && u != t { assert x in Owns(s', u); }
    if u: nat :| u < |s.threads| && x in Owns(s', u) && u != t { assert x in Owns(s, u); }
  }

  /** An access of a thread that is alone keeps every object in one place. */
  lemma AdvanceKeeps(s: State, t: nat)
    requires Inv(s) && t < |s.threads| && Alone(s, t)
    ensures Inv(Advance(s, t)) && forall x :: Has(Advance(s, t), x) <==> Has(s, x)
  {
    var th, s' := s.threads[t], Advance(s, t);
    assert ThreadOk(s, t);
    match th.pc {
      case Idle =>
      case PopLoad => ReadKeeps(s, s', t);
      case PopStore(n) => PopStoreKeeps(s, t);
      case PopIndex => ReadKeeps(s, s', t);
      case PopFetch(n) => ReadKeeps(s, s', t);
      case PushIndex(o) => ReadKeeps(s, s', t);
      case PushWrite(o, n) => PushWriteKeeps(s, t);
      case PushLoad(o) => ReadKeeps(s, s', t);
      case PushStore(o, n) => PushStoreKeeps(s, t);
    }
  }

  /** The shared words stay as they are. */
  lemma ReadKeeps(s: State, s': State, t: nat)
    requires Inv(s) && t < |s.threads| && Alone(s, t)
    requires |s'.threads| == |s.threads| && s' == With(s, t, s'.threads[t]) && Owns(s', t) == Owns(s, t)
    requires s'.threads[t].held !! Transit(s', s'.threads[t].pc) && PcOk(s', s'.threads[t].pc)
    ensures Inv(s') && forall x :: Has(s', x) <==> Has(s, x)
  {
    assert ThreadOk(s, t);
    assert forall x :: OnStack(s', x) <==> OnStack(s, x);
    ExchangeKeeps(s, s', t);
  }

  lemma PopStoreKeeps(s: State, t: nat)
    requires Inv(s) && t < |s.threads| && Alone(s, t) && s.threads[t].pc.PopStore?
    ensures Inv(Advance(s, t)) && forall x :: Has(Advance(s, t), x) <==> Has(s, x)
  {
    var s' := Advance(s, t);
    assert ThreadOk(s, t);
    var k := s.available - 1;
    SmallWord(k, U32);
    var top := s.objects[k];
    assert OnStack(s, top);
    forall x ensures OnStack(s, x) <==> OnStack(s', x) || x == top {
      if OnStack(s, x) {
        var i :| 0 <= i < s.available && s.objects[i] == x;
        assert i < k ==> OnStack(s', x);
      }
    }
    assert !OnStack(s', top);
    assert Owns(s', t) == Owns(s, t) + {top};
    ExchangeKeeps(s, s', t);
  }

  lemma PushWriteKeeps(s: State, t: nat)
    requires Inv(s) && t < |s.threads| && Alone(s, t) && s.threads[t].pc.PushWrite?
    ensures Inv(Advance(s, t)) && forall x :: Has(Advance(s, t), x) <==> Has(s, x)
  {
    var s' := Advance(s, t);
    assert ThreadOk(s, t);
    forall x ensures OnStack(s, x) <==> OnStack(s', x) {
      if i :| 0 <= i < s.available && s.objects[i] == x { assert s'.objects[i] == x; }
      if i :| 0 <= i < s.available && s'.objects[i] == x { assert s.objects[i] == x; }
    }
    ExchangeKeeps(s, s', t);
  }

  lemma PushStoreKeeps(s: State, t: nat)
    requires Inv(s) && t < |s.threads| && Alone(s, t) && s.threads[t].pc.PushStore?
    ensures Inv(Advance(s, t)) && forall x :: Has(Advance(s, t), x) <==> Has(s, x)
  {
    var s' := Advance(s, t);
    assert ThreadOk(s, t);
    SmallWord(s.available + 1, U32);
    var o := s.objects[s.available];
    forall x ensures OnStack(s', x) <==> OnStack(s, x) || x == o {
      if i :| 0 <= i < s.available && s.objects[i] == x { assert s'.objects[i] == x; }
      if x == o { assert s'.objects[s.available] == x; }
    }
    assert !OnStack(s, o);
    assert Owns(s, t) == Owns(s', t) + {o};
    ExchangeKeeps(s, s', t);
  }

  /** Steps of operations that do not overlap keep every object in one place. */
  lemma StepKeeps(s: State, e: Event)
    requires Inv(s) && Alone(s, e.t)
    ensures Inv(Step(s, e)) && forall x :: Has(Step(s, e), x) <==> Has(s, x)
  {
    if Step(s, e) != s {
      assert ThreadOk(s, e.t);
      match e
      case Pop(t) => ReadKeeps(s, Step(s, e), t);
      case Push(t, o) =>
        assert s.threads[t].held == s.threads[t].held - {o} + {o};
        ReadKeeps(s, Step(s, e), t);
      case Go(t) => AdvanceKeeps(s, t);
    }
  }

  /** Whoever makes an access is alone in the middle of an operation. */
  ghost predicate Serial(s: State, es: seq<Event>)
    decreases |es|
  {
    es == [] || (Alone(s, es[0].t) && Serial(Step(s, es[0]), es[1..]))
  }

  /** Over any run of any number of threads whose operations do not overlap, no object is held twice or
      is still on the stack, none is lost and none appears. */
  lemma {:induction false} SerialRunSound(s: State, es: seq<Event>)
    requires Inv(s) && Serial(s, es)
    ensures Inv(Run(s, es)) && HeldApart(Run(s, es)) && forall x :: Has(Run(s, es), x) <==> Has(s, x)
    decreases |es|
  {
    if es == [] {
      forall t, u | 0 <= t < u < |s.threads| ensures s.threads[t].held !! s.threads[u].held {
        assert Owns(s, t) !! Owns(s, u);
      }
    } else {
      StepKeeps(s, es[0]);
      SerialRunSound(Step(s, es[0]), es[1..]);
    }
  }

  // ----- operations that overlap -----

  /** Two pops that keep step with each other. */
  function Overlap(t: nat, u: nat): seq<Event> {
    [Pop(t), Pop(u), Go(t), Go(u), Go(t), Go(u), Go(t), Go(u), Go(t), Go(u)]
  }

  /** The same access by two threads in turn. */
  lemma TwoSteps(s: State, a: Event, b: Event, es: seq<Event>)
    ensures Run(s, [a, b] + es) == Run(Step(Step(s, a), b), es)
  {
    assert ([a, b] + es)[1..] == [b] + es;
    assert ([b] + es)[1..] == es;
  }

  /** Both threads at the same access. */
  function Both(s: State, t: nat, u: nat, pc: Pc): State
    requires t < |s.threads| && u < |s.threads|
  {
    With(With(s, t, s.threads[t].(pc := pc)), u, s.threads[u].(pc := pc))
  }

  /** From every state with an object on the stack, two threads in step are both handed the object on
      top of it. */
  lemma OverlapHandsOutTwice(s: State, t: nat, u: nat)
    requires t < |s.threads| && u < |s.threads| && t != u && s.threads[t].pc.Idle? && s.threads[u].pc.Idle?
    requires 0 < s.available <= LIMIT && |s.objects| == SLOTS
    ensures var s', top := Run(s, Overlap(t, u)), s.objects[s.available - 1];
      |s'.threads| == |s.threads| && top in s'.threads[t].held && top in s'.threads[u].held
  {
    var n := s.available;
    var go := [Go(t), Go(u)];
    var s3 := Both(s, t, u, PopIndex).(available := n - 1);
    var s4 := Both(s, t, u, PopFetch(n - 1)).(available := n - 1);
    LoadsAndStores(s, t, u, go + (go + []));
    assert Overlap(t, u) == [Pop(t), Pop(u)] + (go + (go + (go + (go + []))));
    TwoSteps(s3, Go(t), Go(u), go + []);
    assert Step(Step(s3, Go(t)), Go(u)) == s4;
    TwoSteps(s4, Go(t), Go(u), []);
  }

  /** The first half of two pops in step: both read the same number and write it less one. */
  lemma LoadsAndStores(s: State, t: nat, u: nat, es: seq<Event>)
    requires t < |s.threads| && u < |s.threads| && t != u && s.threads[t].pc.Idle? && s.threads[u].pc.Idle?
    requires 0 < s.available <= LIMIT
    ensures var go := [Go(t), Go(u)];
      Run(s, [Pop(t), Pop(u)] + (go + (go + es))) == Run(Both(s, t, u, PopIndex).(available := s.available - 1), es)
  {
    hide Run;
    var n := s.available;
    SmallWord(n - 1, U32);
    var go := [Go(t), Go(u)];
    var s1, s2 := Both(s, t, u, PopLoad), Both(s, t, u, PopStore(n));
    TwoSteps(s, Pop(t), Pop(u), go + (go + es));
    assert Step(Step(s, Pop(t)), Pop(u)) == s1;
    TwoSteps(s1, Go(t), Go(u), go + es);
    assert Step(Step(s1, Go(t)), Go(u)) == s2;
    TwoSteps(s2, Go(t), Go(u), es);
    assert Step(Step(s2, Go(t)), Go(u)) == Both(s, t, u, PopIndex).(available := n - 1);
  }

  lemma {:induction false} RunAppend(s: State, a: seq<Event>, b: seq<Event>)
    ensures Run(s, a + b) == Run(Run(s, a), b)
    decreases |a|
  {
    if a == [] {
      assert a + b == b;
    } else {
      assert (a + b)[1..] == a[1..] + b;
      RunAppend(Step(s, a[0]), a[1..], b);
    }
  }

  /** A push that nobody interrupts puts the object on top of the stack and takes it from the thread. */
  lemma PushOnce(s: State, t: nat, x: nat)
    requires t < |s.threads| && s.threads[t].pc.Idle? && x in s.threads[t].held
    requires s.available < LIMIT && |s.objects| == SLOTS
    ensures Run(s, [Push(t, x), Go(t), Go(t), Go(t), Go(t)]) ==
      State(s.objects[s.available := x], s.available + 1, s.threads[t := Thread(Idle, s.threads[t].held - {x})])
  {
    var n, th := s.available, Thread(Idle, s.threads[t].held - {x});
    SmallWord(n + 1, U32);
    var s1 := With(s, t, th.(pc := PushIndex(x)));
    var s2 := With(s, t, th.(pc := PushWrite(x, n)));
    var s3 := With(s.(objects := s.objects[n := x]), t, th.(pc := PushLoad(x)));
    var s4 := With(s.(objects := s.objects[n := x]), t, th.(pc := PushStore(x, n)));
    var s5 := With(s.(objects := s.objects[n := x], available := n + 1), t, th);
    assert Step(s, Push(t, x)) == s1 && Step(s1, Go(t)) == s2 && Step(s2, Go(t)) == s3;
    assert Step(s3, Go(t)) == s4 && Step(s4, Go(t)) == s5;
    assert Run(s4, [Go(t)]) == s5;
    TwoSteps(s2, Go(t), Go(t), [Go(t)]);
    TwoSteps(s, Push(t, x), Go(t), [Go(t), Go(t), Go(t)]);
    assert [Go(t), Go(t)] + [Go(t)] == [Go(t), Go(t), Go(t)];
    assert [Push(t, x), Go(t)] + [Go(t), Go(t), Go(t)] == [Push(t, x), Go(t), Go(t), Go(t), Go(t)];
  }

  lemma {:induction false} ThreadsStay(s: State, es: seq<Event>)
    ensures |Run(s, es).threads| == |s.threads|
    decreases |es|
  {
    if es != [] { ThreadsStay(Step(s, es[0]), es[1..]); }
  }

  /** Without an object nothing happens. */
  lemma {:induction false} NothingToDo(s: State, es: seq<Event>)
    requires AllIdle(s) && s.available == 0 && forall t | 0 <= t < |s.threads| :: s.threads[t].held == {}
    ensures Run(s, es) == s
    decreases |es|
  {
    if es != [] { NothingToDo(s, es[1..]); }
  }

  /** Some run hands an object out twice if and only if there are two threads and an object. */
  lemma SafeOnlyAlone(s: State)
    requires Inv(s) && AllIdle(s)
    ensures (forall es :: HeldApart(Run(s, es))) <==> |s.threads| < 2 || forall x :: !Has(s, x)
  {
    if |s.threads| < 2 {
      forall es ensures HeldApart(Run(s, es)) { ThreadsStay(s, es); }
    } else if x :| Has(s, x) {
      TwiceHanded(s, x);
    } else {
      NoObjects(s);
      forall es ensures HeldApart(Run(s, es)) { NothingToDo(s, es); }
    }
  }

  lemma FirstOnStack(s: State)
    requires StackOk(s) && s.available > 0
    ensures Has(s, s.objects[0])
  {
    assert OnStack(s, s.objects[0]);
  }

  lemma NoObjects(s: State)
    requires Inv(s) && forall x :: !Has(s, x)
    ensures s.available == 0 && (forall t | 0 <= t < |s.threads| :: s.threads[t].held == {}) && HeldApart(s)
  {
    if s.available > 0 { FirstOnStack(s); }
    forall t | 0 <= t < |s.threads| ensures s.threads[t].held == {} {
      if x :| x in s.threads[t].held { assert x in Owns(s, t) && Has(s, x); }
    }
  }

  /** The run that hands an object out twice. */
  lemma TwiceHanded(s: State, x: nat)
    requires Inv(s) && AllIdle(s) && |s.threads| >= 2 && Has(s, x)
    ensures exists es :: !HeldApart(Run(s, es))
  {
    hide Run;
    if s.available > 0 {
      OverlapHandsOutTwice(s, 0, 1);
      assert !HeldApart(Run(s, Overlap(0, 1)));
    } else {
      var t: nat :| t < |s.threads| && x in Owns(s, t);
      var push := [Push(t, x), Go(t), Go(t), Go(t), Go(t)];
      PushOnce(s, t, x);
      var s1 := Run(s, push);
      OverlapHandsOutTwice(s1, 0, 1);
      RunAppend(s, push, Overlap(0, 1));
      assert !HeldApart(Run(s, push + Overlap(0, 1)));
    }
  }

  // ----- leaving the stack -----

  /** The number of objects on the stack is in range, and so is every index at which a thread is about to
      read or write the stack page. */
  ghost predicate InBounds(s: State) {
    && s.available <= LIMIT
    && forall t | 0 <= t < |s.threads| ::
      && (s.threads[t].pc.PopFetch? ==> s.threads[t].pc.n < |s.objects|)
      && (s.threads[t].pc.PushWrite? ==> s.threads[t].pc.n < |s.objects|)
  }

  lemma InvInBounds(s: State)
    requires Inv(s)
    ensures InBounds(s)
  {
    forall t | 0 <= t < |s.threads|
      ensures (s.threads[t].pc.PopFetch? ==> s.threads[t].pc.n < |s.objects|)
      ensures (s.threads[t].pc.PushWrite? ==> s.threads[t].pc.n < |s.objects|)
    {
      assert ThreadOk(s, t);
    }
  }

  /** A single thread never overlaps with itself. */
  lemma {:induction false} OneThreadRuns(s: State, es: seq<Event>)
    requires Inv(s) && |s.threads| < 2
    ensures Inv(Run(s, es))
    decreases |es|
  {
    if es != [] {
      if es[0].t < |s.threads| { StepKeeps(s, es[0]); }
      ThreadsStay(s, [es[0]]);
      assert Run(s, [es[0]]) == Step(s, es[0]) by { assert [es[0]][1..] == []; }
      OneThreadRuns(Step(s, es[0]), es[1..]);
    }
  }

  /** A pop that nobody interrupts takes the object on top of the stack and hands it to the thread. */
  lemma PopOnce(s: State, t: nat)
    requires t < |s.threads| && s.threads[t].pc.Idle? && 0 < s.available <= LIMIT && |s.objects| == SLOTS
    ensures Run(s, [Pop(t), Go(t), Go(t), Go(t), Go(t)]) ==
      State(s.objects, s.available - 1,
        s.threads[t := Thread(Idle, s.threads[t].held + {s.objects[s.available - 1]})])
  {
    var n, th := s.available, s.threads[t];
    SmallWord(n - 1, U32);
    var s1 := With(s, t, th.(pc := PopLoad));
    var s2 := With(s, t, th.(pc := PopStore(n)));
    var s3 := With(s, t, th.(pc := PopIndex)).(available := n - 1);
    var s4 := With(s, t, th.(pc := PopFetch(n - 1))).(available := n - 1);
    var s5 := With(s, t, Thread(Idle, th.held + {s.objects[n - 1]})).(available := n - 1);
    assert Step(s, Pop(t)) == s1 && Step(s1, Go(t)) == s2 && Step(s2, Go(t)) == s3;
    assert Step(s3, Go(t)) == s4 && Step(s4, Go(t)) == s5;
    assert [Pop(t), Go(t)] + ([Go(t), Go(t)] + [Go(t)]) == [Pop(t), Go(t), Go(t), Go(t), Go(t)];
    TwoSteps(s, Pop(t), Go(t), [Go(t), Go(t)] + [Go(t)]);
    TwoSteps(s2, Go(t), Go(t), [Go(t)]);
    assert Run(s4, [Go(t)]) == s5;
  }

  /** All objects but one are popped. */
  lemma {:induction false} PopToOne(s: State) returns (es: seq<Event>)
    requires AllIdle(s) && |s.threads| > 0 && 0 < s.available <= LIMIT && |s.objects| == SLOTS
    ensures var s' := Run(s, es);
      AllIdle(s') && s'.available == 1 && |s'.objects| == SLOTS && |s'.threads| == |s.threads|
    decreases s.available
  {
    es := [];
    if s.available > 1 {
      var pop := [Pop(0), Go(0), Go(0), Go(0), Go(0)];
      PopOnce(s, 0);
      hide Run, AllIdle;
      var more := PopToOne(Run(s, pop));
      RunAppend(s, pop, more);
      es := pop + more;
    }
  }

  /** Two threads that pop the last object, both testing before either counts: the number of objects wraps to
      2^32 - 1, and the second thread goes on to read the stack there. */
  lemma LastPoppedTwice(s: State, t: nat, u: nat)
    requires t < |s.threads| && u < |s.threads| && t != u && s.threads[t].pc.Idle? && s.threads[u].pc.Idle?
    requires s.available == 1
    ensures var s' := Run(s, [Pop(t), Pop(u), Go(t), Go(t), Go(u), Go(u), Go(u)]);
      s'.available == U32 - 1 && |s'.threads| == |s.threads| && s'.threads[u].pc == PopFetch(U32 - 1)
  {
    var s1 := Both(s, t, u, PopLoad);
    var s2 := With(With(s, t, s.threads[t].(pc := PopIndex)), u, s.threads[u].(pc := PopLoad)).(available := 0);
    var s3 := With(With(s, t, s.threads[t].(pc := PopIndex)), u, s.threads[u].(pc := PopIndex)).(available := U32 - 1);
    assert Step(Step(s, Pop(t)), Pop(u)) == s1;
    assert Step(Step(s1, Go(t)), Go(t)) == s2;
    assert (0 - 1) % U32 == U32 - 1;
    assert Step(Step(s2, Go(u)), Go(u)) == s3;
    var end := [Go(u)];
    assert [Pop(t), Pop(u)] + ([Go(t), Go(t)] + ([Go(u), Go(u)] + end)) ==
      [Pop(t), Pop(u), Go(t), Go(t), Go(u), Go(u), Go(u)];
    TwoSteps(s, Pop(t), Pop(u), [Go(t), Go(t)] + ([Go(u), Go(u)] + end));
    TwoSteps(s1, Go(t), Go(t), [Go(u), Go(u)] + end);
    TwoSteps(s2, Go(u), Go(u), end);
    assert Run(s3, end) == Step(s3, Go(u));
  }

  /** Some run leaves the stack if and only if there are two threads and an object. */
  lemma InBoundsOnlyAlone(s: State)
    requires Inv(s) && AllIdle(s)
    ensures (forall es :: InBounds(Run(s, es))) <==> |s.threads| < 2 || forall x :: !Has(s, x)
  {
    if |s.threads| < 2 {
      forall es ensures InBounds(Run(s, es)) {
        OneThreadRuns(s, es);
        InvInBounds(Run(s, es));
      }
    } else if x :| Has(s, x) {
      var es := OutOfBounds(s, x);
    } else {
      NoObjects(s);
      forall es ensures InBounds(Run(s, es)) {
        NothingToDo(s, es);
        InvInBounds(s);
      }
    }
  }

  /** The run that leaves the stack. */
  lemma OutOfBounds(s: State, x: nat) returns (es: seq<Event>)
    requires Inv(s) && AllIdle(s) && |s.threads| >= 2 && Has(s, x)
    ensures Run(s, es).available == U32 - 1 && !InBounds(Run(s, es))
  {
    var first := [];
    if s.available == 0 {
      var t: nat :| t < |s.threads| && x in Owns(s, t);
      first := [Push(t, x), Go(t), Go(t), Go(t), Go(t)];
      PushOnce(s, t, x);
    }
    hide Run;
    var s1 := Run(s, first);
    assert first == [] ==> s1 == s by { NothingRun(s); }
    var down := PopToOne(s1);
    var s2 := Run(s1, down);
    var last := [Pop(0), Pop(1), Go(0), Go(0), Go(1), Go(1), Go(1)];
    assert s2.threads[0].pc.Idle? && s2.threads[1].pc.Idle?;
    LastPoppedTwice(s2, 0, 1);
    RunAppend(s1, down, last);
    RunAppend(s, first, down + last);
    es := first + (down + last);
  }

  lemma NothingRun(s: State)
    ensures Run(s, []) == s
  {
  }

  // ----- the start -----

  /** Any distinct objects on the stack, and idle threads that hold nothing. */
  lemma StartSound(objects: seq<nat>, available: nat, n: nat)
    requires |objects| == SLOTS && available <= LIMIT
    requires forall i, j | 0 <= i < j < available :: objects[i] != objects[j]
    ensures var s := State(objects, available, seq(n, _ => Thread(Idle, {}))); Inv(s) && AllIdle(s)
  {
  }
}
