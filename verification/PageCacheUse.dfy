/** Which key the page cache evicts, compared with the key used least recently. */
module PageCacheUse {
  import opened PageCacheSpec

  // ----- the record of uses -----

  /** A use of a key: its insertion, or a hit. */
  datatype Use = Inserted(key: Key) | Hit(key: Key)

  /** The use an operation makes, if it makes one. */
  function UseOf(s: State, op: Op): seq<Use> {
    if !Stamps(s, op) then [] else if op.LookupOp? then [Hit(op.key)] else [Inserted(op.key)]
  }

  /** The uses of a run in order. */
  function Uses(s: State, max: nat, ops: seq<Op>): seq<Use>
    decreases |ops|
  {
    if ops == [] then [] else UseOf(s, ops[0]) + Uses(Step(s, max, ops[0]), max, ops[1..])
  }

  /** The position of the last use of a key in the record, or -1. */
  function LastUse(log: seq<Use>, k: Key): (i: int)
    ensures -1 <= i < |log| && (i >= 0 ==> log[i].key == k)
    ensures forall j | i < j < |log| :: log[j].key != k
  {
    if log == [] then -1
    else if log[|log| - 1].key == k then |log| - 1
    else LastUse(log[..|log| - 1], k)
  }

  /** The key is used again after a position of the record. */
  ghost predicate UsedAfter(log: seq<Use>, k: Key, t: int) {
    exists j: nat :: t < j < |log| && log[j].key == k
  }

  /** Every other cached key has been used since this one was. */
  ghost predicate LeastRecent(items: seq<Item>, log: seq<Use>, k: Key) {
    forall i | 0 <= i < |items| && items[i].key != k :: UsedAfter(log, items[i].key, LastUse(log, k))
  }

  /** The stamps alone single the item out: no other has an earlier one. */
  ghost predicate EarliestStamp(items: seq<Item>, v: nat)
    requires v < |items|
  {
    forall i | 0 <= i < |items| && i != v :: items[v].used < items[i].used
  }

  // ----- stamps are positions in the record -----

  /** The two times kept for a key are positions of its uses: its insertion, and its last use. */
  ghost predicate Traced(log: seq<Use>, k: Key, t: Stamped) {
    && t.born <= t.used < |log| && log[t.born] == Inserted(k) && log[t.used].key == k
    && (forall j | t.used < j < |log| :: log[j].key != k)
    && (log[t.used].Inserted? ==> t.used == t.born)
  }

  ghost predicate AllTraced(log: seq<Use>, p: Plain) {
    p.clock == |log| && forall k | k in p.pages :: Traced(log, k, p.pages[k])
  }

  lemma OtherUse(log: seq<Use>, u: Use, k: Key, t: Stamped)
    requires Traced(log, k, t) && u.key != k
    ensures Traced(log + [u], k, t)
  {
  }

  lemma LookupTraced(log: seq<Use>, p: Plain, k: Key)
    requires AllTraced(log, p)
    ensures AllTraced(if k in p.pages then log + [Hit(k)] else log, PlainLookup(p, k))
  {
    if k in p.pages {
      var q := PlainLookup(p, k);
      forall x | x in q.pages ensures Traced(log + [Hit(k)], x, q.pages[x]) {
        assert Traced(log, x, p.pages[x]);
        if x != k { OtherUse(log, Hit(k), x, p.pages[x]); }
      }
    }
  }

  lemma InsertTraced(log: seq<Use>, p: Plain, max: nat, k: Key, page: nat, room: bool)
    requires AllTraced(log, p)
    ensures AllTraced(
      if page != 0 && k !in p.pages && room then log + [Inserted(k)] else log, PlainInsert(p, max, k, page, room))
  {
    var kept := PlainRoom(p, max);
    assert forall x | x in kept.pages :: x in p.pages && kept.pages[x] == p.pages[x];
    if page != 0 && k !in p.pages && room {
      var q := PlainInsert(p, max, k, page, room);
      forall x | x in q.pages ensures Traced(log + [Inserted(k)], x, q.pages[x]) {
        if x != k { OtherUse(log, Inserted(k), x, p.pages[x]); }
      }
    }
  }

  lemma StepTraced(log: seq<Use>, s: State, born: seq<nat>, p: Plain, max: nat, op: Op)
    requires AllTraced(log, p) && Agrees(s.items, born, p)
    ensures AllTraced(log + UseOf(s, op), PlainStep(p, max, op))
  {
    assert log + [] == log;
    match op {
      case LookupOp(k) =>
        Resident(s.items, born, p, k);
        LookupTraced(log, p, k);
      case InsertOp(k, page, room) =>
        Resident(s.items, born, p, k);
        InsertTraced(log, p, max, k, page, room);
      case EvictOp =>
      case RemoveOp(_) =>
    }
  }

  lemma Regroup(a: seq<Use>, b: seq<Use>, c: seq<Use>)
    ensures a + b + c == a + (b + c)
  {
  }

  lemma {:induction false} RunTraced(log: seq<Use>, s: State, born: seq<nat>, p: Plain, max: nat, ops: seq<Op>)
    returns (born': seq<nat>)
    requires AllTraced(log, p) && Agrees(s.items, born, p) && p.clock == s.clock
    ensures AllTraced(log + Uses(s, max, ops), PlainRun(p, max, ops))
    ensures Agrees(Run(s, max, ops).items, born', PlainRun(p, max, ops))
    decreases |ops|
  {
    if ops == [] {
      assert log + [] == log;
      born' := born;
    } else {
      var op := ops[0];
      StepTraced(log, s, born, p, max, op);
      var b := StepAgrees(s, born, p, max, op);
      born' := RunTraced(log + UseOf(s, op), Step(s, max, op), b, PlainStep(p, max, op), max, ops[1..]);
      Regroup(log, UseOf(s, op), Uses(Step(s, max, op), max, ops[1..]));
    }
  }

  // ----- the victim -----

  /** The stamp of an item is the position of its key's last use. */
  lemma StampIsLastUse(items: seq<Item>, born: seq<nat>, p: Plain, log: seq<Use>, i: nat)
    requires Agrees(items, born, p) && AllTraced(log, p) && i < |items|
    ensures LastUse(log, items[i].key) == items[i].used
  {
    assert Matches(items, born, p, i) && Traced(log, items[i].key, p.pages[items[i].key]);
  }

  lemma StampsDecide(items: seq<Item>, born: seq<nat>, p: Plain, log: seq<Use>, v: nat)
    requires Agrees(items, born, p) && AllTraced(log, p) && v < |items|
    ensures LeastRecent(items, log, items[v].key) <==> EarliestStamp(items, v)
  {
    forall i: nat | i < |items| && i != v
      ensures UsedAfter(log, items[i].key, LastUse(log, items[v].key)) <==> items[v].used < items[i].used
    {
      StampIsLastUse(items, born, p, log, i);
      StampIsLastUse(items, born, p, log, v);
      assert log[items[i].used].key == items[i].key;
    }
    assert forall i | 0 <= i < |items| && i != v :: items[i].key != items[v].key;
  }

  lemma FromEmpty(max: nat, ops: seq<Op>) returns (born: seq<nat>, p: Plain)
    ensures Agrees(Run(EMPTY, max, ops).items, born, p) && AllTraced(Uses(EMPTY, max, ops), p)
  {
    EmptyAgrees();
    p := PlainRun(NO_PAGES, max, ops);
    born := RunTraced([], EMPTY, [], NO_PAGES, max, ops);
    assert [] + Uses(EMPTY, max, ops) == Uses(EMPTY, max, ops);
  }

  /** After any run, the item that the next eviction takes has the earliest stamp if and only if every other
      cached key was inserted or hit after the victim's last use. */
  lemma VictimLeastRecent(max: nat, ops: seq<Op>)
    requires Run(EMPTY, max, ops).items != []
    ensures var items, log := Run(EMPTY, max, ops).items, Uses(EMPTY, max, ops);
      && (EarliestStamp(items, |items| - 1) <==> LeastRecent(items, log, items[|items| - 1].key))
      && forall i | 0 <= i < |items| :: items[i].used == LastUse(log, items[i].key)
  {
    var items, log := Run(EMPTY, max, ops).items, Uses(EMPTY, max, ops);
    var born, p := FromEmpty(max, ops);
    forall i: nat | i < |items| ensures items[i].used == LastUse(log, items[i].key) {
      StampIsLastUse(items, born, p, log, i);
    }
    StampsDecide(items, born, p, log, |items| - 1);
  }

  lemma NeverHit(items: seq<Item>, born: seq<nat>, p: Plain, log: seq<Use>)
    requires Agrees(items, born, p) && AllTraced(log, p) && items != []
    requires var t := LastUse(log, items[|items| - 1].key); t >= 0 && log[t].Inserted?
    ensures LeastRecent(items, log, items[|items| - 1].key)
  {
    var n := |items| - 1;
    StampIsLastUse(items, born, p, log, n);
    assert Matches(items, born, p, n) && Traced(log, items[n].key, p.pages[items[n].key]);
    forall i | 0 <= i < |items| && i != n ensures items[n].used < items[i].used { assert Matches(items, born, p, i); }
    StampsDecide(items, born, p, log, n);
  }

  /** A victim whose last use was its insertion, so that no lookup has hit it since, is always the key used
      least recently. */
  lemma NeverHitMeansLeastRecent(max: nat, ops: seq<Op>)
    requires Run(EMPTY, max, ops).items != []
    requires var items, log := Run(EMPTY, max, ops).items, Uses(EMPTY, max, ops);
      var t := LastUse(log, items[|items| - 1].key);
      t >= 0 && log[t].Inserted?
    ensures var items, log := Run(EMPTY, max, ops).items, Uses(EMPTY, max, ops);
      LeastRecent(items, log, items[|items| - 1].key)
  {
    var born, p := FromEmpty(max, ops);
    NeverHit(Run(EMPTY, max, ops).items, born, p, Uses(EMPTY, max, ops));
  }

  // ----- a run in which it is not -----

  /** Insert a, insert b, look a up, insert c into a cache of two pages: a goes, although b is the key used
      least recently. */
  lemma HitDoesNotSave(a: Key, b: Key, c: Key)
    requires a != b && a != c && b != c
    ensures var ops := [InsertOp(a, 1, true), InsertOp(b, 2, true), LookupOp(a)];
      var s := Run(EMPTY, 2, ops);
      && s.items == [Item(b, 2, 1), Item(a, 1, 2)] && !EarliestStamp(s.items, 1)
      && !LeastRecent(s.items, Uses(EMPTY, 2, ops), a)
      && Lookup(Step(s, 2, InsertOp(c, 3, true)).items, a) == 0
  {
    var ops := [InsertOp(a, 1, true), InsertOp(b, 2, true), LookupOp(a)];
    var s1 := Step(EMPTY, 2, ops[0]);
    assert s1.items == [Item(a, 1, 0)];
    var s2 := Step(s1, 2, ops[1]);
    assert s2.items == [Item(b, 2, 1), Item(a, 1, 0)];
    var s3 := Step(s2, 2, ops[2]);
    assert Find(s2.items, a) == 1 by { assert s2.items[1..] == [Item(a, 1, 0)]; }
    assert s3.items == [Item(b, 2, 1), Item(a, 1, 2)];
    assert ops[1..] == [ops[1], ops[2]] && ops[1..][1..] == [ops[2]] && ops[1..][1..][1..] == [];
    assert Run(s2, 2, [ops[2]]) == Run(s3, 2, []) == s3;
    assert Run(s1, 2, ops[1..]) == Run(s2, 2, [ops[2]]);
    assert Run(EMPTY, 2, ops) == Run(s1, 2, ops[1..]);
    VictimLeastRecent(2, ops);
    assert s3.items[1].key == a;
    var s4 := Step(s3, 2, InsertOp(c, 3, true));
    assert s3.items[1..] == [Item(a, 1, 2)] && Find(s3.items, c) == 2;
    assert s4.items == [Item(c, 3, 3), Item(b, 2, 1)];
    assert s4.items[1..] == [Item(b, 2, 1)];
  }
}
