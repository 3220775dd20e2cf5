/** Insertion into the page cache by several threads: a full cache is unlocked for the eviction, and the
    key is not searched again. */
module PageCacheRace {
  import opened PageCacheSpec

  /** Where a thread stands: it may have found the cache full and dropped the lock, and may have evicted. */
  datatype Pc =
    | Resting
    | Full(key: Key, page: nat)
    | Ready(key: Key, page: nat)

  datatype World = World(cache: State, threads: seq<Pc>)

  /** What happens under one hold of the lock. */
  datatype Event =
    | Begin(thread: nat, key: Key, page: nat, room: bool)
    | Evicts(thread: nat)
    | Adds(thread: nat, room: bool)
    | Other(op: Op)

  function Add(c: State, k: Key, page: nat, room: bool): State {
    if room then State([Item(k, page, c.clock)] + c.items, c.clock + 1) else c
  }

  function At(w: World, t: nat): Pc {
    if t < |w.threads| then w.threads[t] else Resting
  }

  function Put(w: World, c: State, t: nat, pc: Pc): World
    requires t < |w.threads|
  {
    World(c, w.threads[t := pc])
  }

  /** One hold of the lock. An event that does not fit where its thread stands changes nothing. */
  function Advance(w: World, max: nat, e: Event): World {
    match e
    case Begin(t, k, page, room) =>
      if t >= |w.threads| || At(w, t) != Resting || page == 0 || Find(w.cache.items, k) < |w.cache.items| then w
      else if |w.cache.items| >= max then Put(w, w.cache, t, Full(k, page))
      else Put(w, Add(w.cache, k, page, room), t, Resting)
    case Evicts(t) =>
      if At(w, t).Full? then Put(w, Step(w.cache, max, EvictOp), t, Ready(At(w, t).key, At(w, t).page)) else w
    case Adds(t, room) =>
      if At(w, t).Ready? then Put(w, Add(w.cache, At(w, t).key, At(w, t).page, room), t, Resting) else w
    case Other(op) =>
      if op.InsertOp? then w else w.(cache := Step(w.cache, max, op))
  }

  function Go(w: World, max: nat, es: seq<Event>): World
    decreases |es|
  {
    if es == [] then w else Go(Advance(w, max, es[0]), max, es[1..])
  }

  function Start(n: nat): World {
    World(EMPTY, seq(n, _ => Resting))
  }

  /** A thread that is not interrupted inserts as one step does. */
  lemma Uninterrupted(w: World, max: nat, t: nat, k: Key, page: nat, room: bool)
    requires t < |w.threads| && w.threads[t] == Resting
    ensures Go(w, max, [Begin(t, k, page, room), Evicts(t), Adds(t, room)]) ==
      w.(cache := Step(w.cache, max, InsertOp(k, page, room)))
  {
    var w1 := Advance(w, max, Begin(t, k, page, room));
    var w2 := Advance(w1, max, Evicts(t));
    var w3 := Advance(w2, max, Adds(t, room));
    Three(w, max, Begin(t, k, page, room), Evicts(t), Adds(t, room));
    assert w.threads[t := Resting] == w.threads;
  }

  lemma Three(w: World, max: nat, a: Event, b: Event, c: Event)
    ensures Go(w, max, [a, b, c]) == Advance(Advance(Advance(w, max, a), max, b), max, c)
  {
    assert [a, b, c][1..] == [b, c] && [b, c][1..] == [c];
    assert Go(Advance(Advance(w, max, a), max, b), max, [c]) == Advance(Advance(Advance(w, max, a), max, b), max, c);
  }

  lemma {:induction false} GoAppend(w: World, max: nat, a: seq<Event>, b: seq<Event>)
    ensures Go(w, max, a + b) == Go(Go(w, max, a), max, b)
    decreases |a|
  {
    if a == [] {
      assert a + b == b;
    } else {
      assert (a + b)[1..] == a[1..] + b;
      GoAppend(Advance(w, max, a[0]), max, a[1..], b);
    }
  }

  // ----- how far the size can exceed its limit -----

  /** The threads that have evicted for an item they have not added yet. */
  function Pending(threads: seq<Pc>): nat {
    if threads == [] then 0 else Pending(threads[..|threads| - 1]) + if threads[|threads| - 1].Ready? then 1 else 0
  }

  lemma {:induction false} PendingUpdate(threads: seq<Pc>, t: nat, pc: Pc)
    requires t < |threads|
    ensures Pending(threads[t := pc]) + (if threads[t].Ready? then 1 else 0) ==
      Pending(threads) + if pc.Ready? then 1 else 0
    ensures Pending(threads) <= |threads| && (!threads[t].Ready? ==> Pending(threads) < |threads|)
  {
    var n := |threads| - 1;
    PendingBound(threads[..n]);
    if t < n {
      assert threads[t := pc][..n] == threads[..n][t := pc];
      PendingUpdate(threads[..n], t, pc);
    } else {
      assert threads[t := pc][..n] == threads[..n];
    }
  }

  lemma {:induction false} PendingBound(threads: seq<Pc>)
    ensures Pending(threads) <= |threads|
  {
    if threads != [] { PendingBound(threads[..|threads| - 1]); }
  }

  function AtLeastOne(max: nat): nat {
    if max == 0 then 1 else max
  }

  /** Every thread beyond the first may hold room that another one has filled. */
  ghost predicate Bounded(w: World, max: nat) {
    |w.cache.items| + Pending(w.threads) < AtLeastOne(max) + |w.threads|
  }

  lemma AdvanceBounded(w: World, max: nat, e: Event)
    requires Bounded(w, max)
    ensures Bounded(Advance(w, max, e), max) && |Advance(w, max, e).threads| == |w.threads|
  {
    match e
    case Begin(t, k, page, room) =>
      if t < |w.threads| {
        PendingUpdate(w.threads, t, Full(k, page));
        PendingUpdate(w.threads, t, Resting);
      }
    case Evicts(t) =>
      if At(w, t).Full? { PendingUpdate(w.threads, t, Ready(At(w, t).key, At(w, t).page)); }
    case Adds(t, room) =>
      if At(w, t).Ready? { PendingUpdate(w.threads, t, Resting); }
    case Other(op) =>
  }

  lemma {:induction false} GoBounded(w: World, max: nat, es: seq<Event>)
    requires Bounded(w, max)
    ensures Bounded(Go(w, max, es), max) && |Go(w, max, es).threads| == |w.threads|
    decreases |es|
  {
    if es != [] {
      AdvanceBounded(w, max, es[0]);
      GoBounded(Advance(w, max, es[0]), max, es[1..]);
    }
  }

  lemma {:induction false} NonePending(threads: seq<Pc>)
    requires forall t | 0 <= t < |threads| :: !threads[t].Ready?
    ensures Pending(threads) == 0
  {
    if threads != [] { NonePending(threads[..|threads| - 1]); }
  }

  /** Over any run of n threads the cache never holds more than its limit and n - 1 items on top. */
  lemma SizeBound(max: nat, n: nat, es: seq<Event>)
    requires n > 0
    ensures |Go(Start(n), max, es).cache.items| <= AtLeastOne(max) + n - 1
  {
    NonePending(Start(n).threads);
    GoBounded(Start(n), max, es);
  }

  /** The items have keys among the first m. */
  ghost predicate KeysIn(items: seq<Item>, ks: seq<Key>, m: nat)
    requires m <= |ks|
  {
    forall i | 0 <= i < |items| :: items[i].key in ks[..m]
  }

  ghost predicate Distinct(ks: seq<Key>) {
    forall i, j | 0 <= i < j < |ks| :: ks[i] != ks[j]
  }

  lemma NextIsNew(items: seq<Item>, ks: seq<Key>, m: nat)
    requires Distinct(ks) && m < |ks| && KeysIn(items, ks, m)
    ensures Find(items, ks[m]) == |items|
  {
    assert ks[m] !in ks[..m];
  }

  /** The first j threads have evicted, the others rest, and the cache is full. */
  ghost predicate Waiting(w: World, max: nat, n: nat, j: nat) {
    && |w.cache.items| == max && |w.threads| == n
    && forall t | 0 <= t < n :: if t < j then w.threads[t].Ready? else w.threads[t] == Resting
  }

  lemma {:induction false} Fill(max: nat, n: nat, m: nat, ks: seq<Key>) returns (es: seq<Event>)
    requires n > 0 && m <= max && m <= |ks| && Distinct(ks)
    ensures Waiting(Go(Start(n), max, es), m, n, 0) && KeysIn(Go(Start(n), max, es).cache.items, ks, m)
  {
    es := [];
    if m > 0 {
      var before := Fill(max, n, m - 1, ks);
      var w := Go(Start(n), max, before);
      NextIsNew(w.cache.items, ks, m - 1);
      var e := Begin(n - 1, ks[m - 1], 1, true);
      es := before + [e];
      GoAppend(Start(n), max, before, [e]);
      assert Go(w, max, [e]) == Advance(w, max, e);
      assert ks[m - 1] == ks[..m][m - 1];
      assert forall k | k in ks[..m - 1] :: k in ks[..m];
    }
  }

  /** One more thread finds the cache full and evicts, and the last thread takes the room it made. */
  lemma Round(w: World, max: nat, n: nat, j: nat, ks: seq<Key>, m: nat) returns (es: seq<Event>)
    requires max > 0 && Waiting(w, max, n, j) && j + 1 < n && Distinct(ks) && m + 2 <= |ks|
    requires KeysIn(w.cache.items, ks, m)
    ensures Waiting(Go(w, max, es), max, n, j + 1) && KeysIn(Go(w, max, es).cache.items, ks, m + 2)
  {
    var a, b, c := Begin(j, ks[m], 1, true), Evicts(j), Begin(n - 1, ks[m + 1], 1, true);
    es := [a, b, c];
    Three(w, max, a, b, c);
    NextIsNew(w.cache.items, ks, m);
    EvictThenNew(w.cache.items, ks, m, w.cache.clock);
    hide Go, Distinct, KeysIn, Find;
    var left := w.cache.items[..max - 1];
    var w1 := w.(threads := w.threads[j := Full(ks[m], 1)]);
    assert Advance(w, max, a) == w1;
    var w2 := World(State(left, w.cache.clock), w.threads[j := Ready(ks[m], 1)]);
    assert Advance(w1, max, b) == w2;
    assert Advance(w2, max, c).cache.items == [Item(ks[m + 1], 1, w.cache.clock)] + left;
  }

  /** The key after the next is new to what an eviction leaves. */
  lemma EvictThenNew(items: seq<Item>, ks: seq<Key>, m: nat, time: nat)
    requires Distinct(ks) && m + 2 <= |ks| && items != [] && KeysIn(items, ks, m)
    ensures Find(items[..|items| - 1], ks[m + 1]) == |items| - 1
    ensures KeysIn([Item(ks[m + 1], 1, time)] + items[..|items| - 1], ks, m + 2)
  {
    assert forall k | k in ks[..m] :: k in ks[..m + 1] && k in ks[..m + 2];
    NextIsNew(items[..|items| - 1], ks, m + 1);
    assert ks[m + 1] == ks[..m + 2][m + 1];
  }

  lemma {:induction false} Rounds(max: nat, n: nat, j: nat, ks: seq<Key>) returns (es: seq<Event>)
    requires max > 0 && j < n && Distinct(ks) && max + 2 * j <= |ks|
    ensures Waiting(Go(Start(n), max, es), max, n, j) && KeysIn(Go(Start(n), max, es).cache.items, ks, max + 2 * j)
  {
    if j == 0 {
      es := Fill(max, n, max, ks);
    } else {
      var before := Rounds(max, n, j - 1, ks);
      var more := Round(Go(Start(n), max, before), max, n, j - 1, ks, max + 2 * (j - 1));
      es := before + more;
      GoAppend(Start(n), max, before, more);
    }
  }

  /** The waiting threads add their items. */
  lemma {:induction false} AddAll(w: World, max: nat, j: nat) returns (es: seq<Event>)
    requires j <= |w.threads| && forall t | 0 <= t < j :: w.threads[t].Ready?
    ensures |Go(w, max, es).cache.items| == |w.cache.items| + j
    decreases j
  {
    es := [];
    if j > 0 {
      var e := Adds(j - 1, true);
      var more := AddAll(Advance(w, max, e), max, j - 1);
      es := [e] + more;
      GoAppend(w, max, [e], more);
      assert Go(w, max, [e]) == Advance(w, max, e);
    }
  }

  /** With room for nothing every thread finds the cache full, evicts nothing and waits. */
  lemma {:induction false} AllWait(n: nat, j: nat) returns (es: seq<Event>)
    requires j <= n
    ensures var w := Go(Start(n), 0, es);
      && w.cache == EMPTY && |w.threads| == n
      && forall t | 0 <= t < n :: if t < j then w.threads[t].Ready? else w.threads[t] == Resting
  {
    es := [];
    if j > 0 {
      var before := AllWait(n, j - 1);
      var w := Go(Start(n), 0, before);
      var a, b := Begin(j - 1, Key(0, 0), 1, true), Evicts(j - 1);
      es := before + [a, b];
      GoAppend(Start(n), 0, before, [a, b]);
      TwoHolds(w, 0, a, b);
      assert Advance(w, 0, a) == Put(w, EMPTY, j - 1, Full(Key(0, 0), 1));
      assert Advance(Advance(w, 0, a), 0, b).threads == w.threads[j - 1 := Ready(Key(0, 0), 1)];
    }
  }

  lemma TwoHolds(w: World, max: nat, a: Event, b: Event)
    ensures Go(w, max, [a, b]) == Advance(Advance(w, max, a), max, b)
  {
    assert [a, b] == [a] + [b];
    GoAppend(w, max, [a], [b]);
    assert Go(w, max, [a]) == Advance(w, max, a);
    assert Go(Advance(w, max, a), max, [b]) == Advance(Advance(w, max, a), max, b);
  }

  /** The bound is reached, whatever the limit and the number of threads. */
  lemma BoundReached(max: nat, n: nat, ks: seq<Key>) returns (es: seq<Event>)
    requires n > 0 && Distinct(ks) && max + 2 * (n - 1) <= |ks|
    ensures |Go(Start(n), max, es).cache.items| == AtLeastOne(max) + n - 1
  {
    var before, j := [], n;
    if max == 0 {
      before := AllWait(n, n);
    } else {
      before := Rounds(max, n, n - 1, ks);
      j := n - 1;
    }
    var more := AddAll(Go(Start(n), max, before), max, j);
    es := before + more;
    GoAppend(Start(n), max, before, more);
  }

  // ----- one key twice -----

  /** Two threads insert one key into a full cache, each before the other has added it: it is cached twice,
      and one removal does not remove it. */
  lemma InsertedTwice(w: World, max: nat, t: nat, u: nat, k: Key, p: nat, q: nat) returns (es: seq<Event>)
    requires t < |w.threads| && u < |w.threads| && t != u && w.threads[t] == Resting && w.threads[u] == Resting
    requires |w.cache.items| >= max && Find(w.cache.items, k) == |w.cache.items| && p != 0 && q != 0
    ensures Inserting(es, k)
    ensures var items := Go(w, max, es).cache.items;
      !UniqueKeys(items) && Lookup(items, k) == q && Lookup(Remove(items, k), k) == p
  {
    var a, b, c := Begin(t, k, p, true), Begin(u, k, q, true), Evicts(t);
    var d, e, f := Evicts(u), Adds(t, true), Adds(u, true);
    es := [a, b, c] + [d, e, f];
    GoAppend(w, max, [a, b, c], [d, e, f]);
    Three(w, max, a, b, c);
    Three(Go(w, max, [a, b, c]), max, d, e, f);
    hide Go, UniqueKeys;
    var w1 := Advance(Advance(w, max, a), max, b);
    var rest, time := Evict(Evict(w.cache.items)), w.cache.clock;
    assert w1 == w.(threads := w.threads[t := Full(k, p)][u := Full(k, q)]);
    var w2 := Advance(Advance(w1, max, c), max, d);
    hide Find;
    assert w2 == World(State(rest, time), w.threads[t := Ready(k, p)][u := Ready(k, q)]);
    AddedTwice(rest, k, Item(k, p, time), Item(k, q, time + 1));
  }

  lemma AddedTwice(rest: seq<Item>, k: Key, a: Item, b: Item)
    requires a.key == b.key == k
    ensures var items := [b] + ([a] + rest);
      !UniqueKeys(items) && Lookup(items, k) == b.page && Lookup(Remove(items, k), k) == a.page
  {
    var items := [b] + ([a] + rest);
    assert items[0].key == items[1].key;
    assert Remove(items, k) == [a] + rest;
  }

  /** Only insertions of the key go on. */
  ghost predicate Inserting(es: seq<Event>, k: Key) {
    forall i | 0 <= i < |es| :: !es[i].Other? && (es[i].Begin? ==> es[i].key == k)
  }

  /** With room in the cache the first insertion adds the key, and every other one finds it. */
  lemma {:induction false} RoomMeansOnce(w: World, max: nat, k: Key, es: seq<Event>)
    requires (forall t | 0 <= t < |w.threads| :: w.threads[t] == Resting) && UniqueKeys(w.cache.items)
    requires |w.cache.items| < max || Find(w.cache.items, k) < |w.cache.items|
    requires Inserting(es, k)
    ensures UniqueKeys(Go(w, max, es).cache.items)
    decreases |es|
  {
    if es != [] {
      assert Inserting(es[1..], k);
      RoomMeansOnce(Advance(w, max, es[0]), max, k, es[1..]);
    }
  }

  /** Two threads are about to insert a key that is not cached: some interleaving caches it twice if and
      only if the cache is full. */
  lemma TwiceOnlyIfFull(w: World, max: nat, t: nat, u: nat, k: Key)
    requires t < |w.threads| && u < |w.threads| && t != u && forall v | 0 <= v < |w.threads| :: w.threads[v] == Resting
    requires UniqueKeys(w.cache.items) && Find(w.cache.items, k) == |w.cache.items|
    ensures (exists es :: Inserting(es, k) && !UniqueKeys(Go(w, max, es).cache.items)) <==> |w.cache.items| >= max
  {
    if |w.cache.items| >= max {
      var es := InsertedTwice(w, max, t, u, k, 1, 2);
    } else {
      forall es | Inserting(es, k) ensures UniqueKeys(Go(w, max, es).cache.items) { RoomMeansOnce(w, max, k, es); }
    }
  }
}
