/** The page cache as a list of items, newest first, each stamped with its last use; and as a plain map
    that forgets the key inserted first. */
module PageCacheSpec {

  type Word = bv64

  datatype Key = Key(file: Word, offset: Word)

  /** A cached page and the time of its last use. */
  datatype Item = Item(key: Key, page: nat, used: nat)

  // ----- operations -----

  /** The index of a key, or the number of items. */
  function Find(items: seq<Item>, k: Key): (i: nat)
    ensures i <= |items| && (i < |items| ==> items[i].key == k)
    ensures forall j | 0 <= j < i :: items[j].key != k
  {
    if items == [] || items[0].key == k then 0 else 1 + Find(items[1..], k)
  }

  /** The page cached for a key; 0 when there is none. */
  function Lookup(items: seq<Item>, k: Key): nat {
    var i := Find(items, k);
    if i < |items| then items[i].page else 0
  }

  /** A hit stamps the item and moves nothing. */
  function Touch(items: seq<Item>, k: Key, time: nat): (r: seq<Item>)
    ensures |r| == |items|
  {
    var i := Find(items, k);
    if i < |items| then items[i := items[i].(used := time)] else items
  }

  function Evict(items: seq<Item>): seq<Item> {
    if items == [] then [] else items[..|items| - 1]
  }

  /** Make room for one more item when the cache is full. */
  function MakeRoom(items: seq<Item>, max: nat): seq<Item> {
    if |items| >= max then Evict(items) else items
  }

  /** Insertion, and whether it reports success. room says whether a frame for the entry was found. */
  function Insert(items: seq<Item>, max: nat, k: Key, page: nat, room: bool, time: nat): (seq<Item>, bool) {
    if page == 0 then (items, false)
    else if Find(items, k) < |items| then (items, true)
    else if room then ([Item(k, page, time)] + MakeRoom(items, max), true)
    else (MakeRoom(items, max), false)
  }

  function Remove(items: seq<Item>, k: Key): seq<Item> {
    var i := Find(items, k);
    if i < |items| then items[..i] + items[i + 1..] else items
  }

  // ----- invariants -----

  ghost predicate UniqueKeys(items: seq<Item>) {
    forall i, j | 0 <= i < j < |items| :: items[i].key != items[j].key
  }

  ghost predicate NoZero(items: seq<Item>) {
    forall i | 0 <= i < |items| :: items[i].page != 0
  }

  ghost predicate Inv(items: seq<Item>, max: nat) {
    UniqueKeys(items) && NoZero(items) && |items| <= if max == 0 then 1 else max
  }

  lemma InsertKeepsInv(items: seq<Item>, max: nat, k: Key, page: nat, room: bool, time: nat)
    requires Inv(items, max)
    ensures Inv(Insert(items, max, k, page, room, time).0, max)
  {
    var r := MakeRoom(items, max);
    assert forall i | 0 <= i < |r| :: r[i] == items[i];
    assert page != 0 && Find(items, k) == |items| ==>
      [Item(k, page, time)] + r == Insert(items, max, k, page, true, time).0;
  }

  lemma RemoveKeepsInv(items: seq<Item>, max: nat, k: Key)
    requires Inv(items, max)
    ensures Inv(Remove(items, k), max)
  {
  }

  lemma TouchKeepsInv(items: seq<Item>, max: nat, k: Key, time: nat)
    requires Inv(items, max)
    ensures Inv(Touch(items, k, time), max)
  {
  }

  // ----- the plain map -----

  /** What is cached for a key, and the times of its insertion and of its last use. */
  datatype Stamped = Stamped(page: nat, born: nat, used: nat)

  datatype Plain = Plain(pages: map<Key, Stamped>, clock: nat)

  ghost predicate IsOldest(pages: map<Key, Stamped>, k: Key) {
    k in pages && forall x | x in pages && x != k :: Older(pages, k, x)
  }

  ghost predicate Older(pages: map<Key, Stamped>, a: Key, b: Key) {
    a in pages && b in pages && pages[a].born < pages[b].born
  }

  ghost function Forget(pages: map<Key, Stamped>): map<Key, Stamped> {
    if exists k :: IsOldest(pages, k) then
      var k :| IsOldest(pages, k);
      pages - {k}
    else pages
  }

  ghost function PlainRoom(p: Plain, max: nat): Plain {
    if |p.pages| >= max then p.(pages := Forget(p.pages)) else p
  }

  ghost function PlainInsert(p: Plain, max: nat, k: Key, page: nat, room: bool): Plain {
    if page == 0 || k in p.pages then p
    else
      var kept := PlainRoom(p, max);
      if room then Plain(kept.pages[k := Stamped(page, p.clock, p.clock)], p.clock + 1) else kept
  }

  ghost function PlainLookup(p: Plain, k: Key): Plain {
    if k in p.pages then Plain(p.pages[k := p.pages[k].(used := p.clock)], p.clock + 1) else p
  }

  datatype Op = LookupOp(key: Key) | InsertOp(key: Key, page: nat, room: bool) | EvictOp | RemoveOp(key: Key)

  /** The cache and the counter behind the time stamps, which every hit and every new item advances. */
  datatype State = State(items: seq<Item>, clock: nat)

  /** Whether an operation stamps an item: a hit, or the insertion of a new item. */
  predicate Stamps(s: State, op: Op) {
    match op
    case LookupOp(k) => Find(s.items, k) < |s.items|
    case InsertOp(k, page, room) => page != 0 && Find(s.items, k) == |s.items| && room
    case EvictOp => false
    case RemoveOp(_) => false
  }

  function ItemsAfter(s: State, max: nat, op: Op): seq<Item> {
    match op
    case LookupOp(k) => Touch(s.items, k, s.clock)
    case InsertOp(k, page, room) => Insert(s.items, max, k, page, room, s.clock).0
    case EvictOp => Evict(s.items)
    case RemoveOp(k) => Remove(s.items, k)
  }

  function Step(s: State, max: nat, op: Op): State {
    State(ItemsAfter(s, max, op), if Stamps(s, op) then s.clock + 1 else s.clock)
  }

  ghost function PlainStep(p: Plain, max: nat, op: Op): Plain {
    match op
    case LookupOp(k) => PlainLookup(p, k)
    case InsertOp(k, page, room) => PlainInsert(p, max, k, page, room)
    case EvictOp => p.(pages := Forget(p.pages))
    case RemoveOp(k) => p.(pages := p.pages - {k})
  }

  // ----- the list refines the map -----

  /** Item i has the page, the age and the last use that the map records for its key. */
  ghost predicate Matches(items: seq<Item>, born: seq<nat>, p: Plain, i: nat)
    requires i < |items| == |born|
  {
    && items[i].key in p.pages && p.pages[items[i].key] == Stamped(items[i].page, born[i], items[i].used)
    && born[i] <= items[i].used < p.clock
  }

  /** The list and the map hold the same pages, and the list is sorted by age, newest first. */
  ghost predicate Agrees(items: seq<Item>, born: seq<nat>, p: Plain) {
    && |items| == |born|
    && UniqueKeys(items)
    && (forall i | 0 <= i < |items| :: Matches(items, born, p, i))
    && (forall k | k in p.pages :: Find(items, k) < |items|)
    && (forall i, j | 0 <= i < j < |born| :: born[i] > born[j])
  }

  ghost function Keys(items: seq<Item>): set<Key> {
    set i | 0 <= i < |items| :: items[i].key
  }

  lemma {:induction false} KeysCount(items: seq<Item>)
    requires UniqueKeys(items)
    ensures |Keys(items)| == |items|
  {
    if items != [] {
      var n := |items| - 1;
      KeysCount(items[..n]);
      assert Keys(items) == Keys(items[..n]) + {items[n].key};
    }
  }

  lemma AgreesCount(items: seq<Item>, born: seq<nat>, p: Plain)
    requires Agrees(items, born, p)
    ensures |p.pages| == |items|
  {
    KeysCount(items);
    assert p.pages.Keys == Keys(items) by {
      forall k | k in p.pages ensures k in Keys(items) { assert items[Find(items, k)].key == k; }
      forall k | k in Keys(items) ensures k in p.pages {
        var i :| 0 <= i < |items| && items[i].key == k;
        assert Matches(items, born, p, i);
      }
    }
  }

  /** A page is found under a key exactly when the map has one. */
  lemma LookupAgrees(items: seq<Item>, born: seq<nat>, p: Plain, k: Key)
    requires Agrees(items, born, p)
    ensures Lookup(items, k) == if k in p.pages then p.pages[k].page else 0
  {
    var i := Find(items, k);
    if i < |items| { assert Matches(items, born, p, i); }
  }

  lemma FindIsIndex(items: seq<Item>, i: nat)
    requires UniqueKeys(items) && i < |items|
    ensures Find(items, items[i].key) == i
  {
  }

  lemma DropKeepsOrder(items: seq<Item>, born: seq<nat>, i: nat)
    requires |items| == |born| && i < |items| && UniqueKeys(items)
    requires forall m, n | 0 <= m < n < |born| :: born[m] > born[n]
    ensures UniqueKeys(items[..i] + items[i + 1..])
    ensures var b := born[..i] + born[i + 1..]; forall m, n | 0 <= m < n < |b| :: b[m] > b[n]
  {
  }

  lemma FindAfterDrop(items: seq<Item>, i: nat, k: Key)
    requires i < |items| && Find(items, k) < |items| && items[i].key != k
    ensures Find(items[..i] + items[i + 1..], k) < |items| - 1
  {
    var f := Find(items, k);
    FindHit(items[..i] + items[i + 1..], k, if f < i then f else f - 1);
  }

  lemma FindHit(items: seq<Item>, k: Key, i: nat)
    requires i < |items| && items[i].key == k
    ensures Find(items, k) <= i
  {
  }

  /** Dropping item i from the list is dropping its key from the map. */
  lemma DropAgrees(items: seq<Item>, born: seq<nat>, p: Plain, i: nat)
    requires Agrees(items, born, p) && i < |items|
    ensures Agrees(items[..i] + items[i + 1..], born[..i] + born[i + 1..], p.(pages := p.pages - {items[i].key}))
  {
    var r, b, q := items[..i] + items[i + 1..], born[..i] + born[i + 1..], p.(pages := p.pages - {items[i].key});
    DropKeepsOrder(items, born, i);
    forall j | 0 <= j < |r| ensures Matches(r, b, q, j) {
      assert Matches(items, born, p, if j < i then j else j + 1);
    }
    forall k | k in q.pages ensures Find(r, k) < |r| { FindAfterDrop(items, i, k); }
  }

  lemma OldestUnique(pages: map<Key, Stamped>, a: Key, b: Key)
    requires IsOldest(pages, a) && IsOldest(pages, b)
    ensures a == b
  {
    assert a != b ==> Older(pages, a, b);
  }

  /** The last item is the oldest key of the map, and the only one. */
  lemma LastIsOldest(items: seq<Item>, born: seq<nat>, p: Plain)
    requires Agrees(items, born, p) && items != []
    ensures Forget(p.pages) == p.pages - {items[|items| - 1].key}
  {
    var n := |items| - 1;
    var last := items[n].key;
    assert Matches(items, born, p, n);
    forall x | x in p.pages && x != last ensures Older(p.pages, last, x) {
      var f := Find(items, x);
      assert items[f].key == x && Matches(items, born, p, f);
    }
    assert IsOldest(p.pages, last);
    forall k | IsOldest(p.pages, k) ensures k == last { OldestUnique(p.pages, k, last); }
  }

  /** Each eviction removes exactly the earliest inserted key. */
  lemma EvictAgrees(items: seq<Item>, born: seq<nat>, p: Plain) returns (b: seq<nat>)
    requires Agrees(items, born, p)
    ensures Agrees(Evict(items), b, p.(pages := Forget(p.pages)))
  {
    if items == [] {
      assert forall k :: k !in p.pages;
      assert p.(pages := Forget(p.pages)) == p;
      b := born;
    } else {
      var n := |items| - 1;
      LastIsOldest(items, born, p);
      DropAgrees(items, born, p, n);
      assert Evict(items) == items[..n] + items[n + 1..];
      b := born[..n] + born[n + 1..];
    }
  }

  lemma ConsAgrees(items: seq<Item>, born: seq<nat>, p: Plain, k: Key, page: nat)
    requires Agrees(items, born, p) && k !in p.pages
    ensures Agrees([Item(k, page, p.clock)] + items, [p.clock] + born,
      Plain(p.pages[k := Stamped(page, p.clock, p.clock)], p.clock + 1))
  {
    var r, b := [Item(k, page, p.clock)] + items, [p.clock] + born;
    var q := Plain(p.pages[k := Stamped(page, p.clock, p.clock)], p.clock + 1);
    forall j | 0 <= j < |r| ensures Matches(r, b, q, j) {
      if j > 0 { assert Matches(items, born, p, j - 1); }
    }
    forall i, j | 0 <= i < j < |r| ensures r[i].key != r[j].key && b[i] > b[j] {
      assert Matches(items, born, p, j - 1);
      if i > 0 { assert items[i - 1].key != items[j - 1].key; }
    }
    forall x | x in q.pages ensures Find(r, x) < |r| {
      if x != k { assert items[Find(items, x)].key == x; }
    }
  }

  lemma RoomAgrees(items: seq<Item>, born: seq<nat>, p: Plain, max: nat) returns (b: seq<nat>)
    requires Agrees(items, born, p)
    ensures Agrees(MakeRoom(items, max), b, PlainRoom(p, max))
    ensures PlainRoom(p, max).pages.Keys <= p.pages.Keys && PlainRoom(p, max).clock == p.clock
  {
    AgreesCount(items, born, p);
    b := born;
    if |items| >= max { b := EvictAgrees(items, born, p); }
  }

  lemma Resident(items: seq<Item>, born: seq<nat>, p: Plain, k: Key)
    requires Agrees(items, born, p)
    ensures Find(items, k) < |items| <==> k in p.pages
  {
    if Find(items, k) < |items| { assert Matches(items, born, p, Find(items, k)); }
  }

  lemma InsertAgrees(items: seq<Item>, born: seq<nat>, p: Plain, max: nat, k: Key, page: nat, room: bool)
    returns (b: seq<nat>)
    requires Agrees(items, born, p)
    ensures Agrees(Insert(items, max, k, page, room, p.clock).0, b, PlainInsert(p, max, k, page, room))
  {
    Resident(items, born, p, k);
    b := born;
    if page != 0 && k !in p.pages {
      b := RoomAgrees(items, born, p, max);
      if room {
        ConsAgrees(MakeRoom(items, max), b, PlainRoom(p, max), k, page);
        b := [p.clock] + b;
      }
    }
  }

  lemma TouchAgrees(items: seq<Item>, born: seq<nat>, p: Plain, k: Key)
    requires Agrees(items, born, p)
    ensures Agrees(Touch(items, k, p.clock), born, PlainLookup(p, k))
  {
    Resident(items, born, p, k);
    var i := Find(items, k);
    if i < |items| {
      var r, q := Touch(items, k, p.clock), PlainLookup(p, k);
      forall j | 0 <= j < |r| ensures Matches(r, born, q, j) { assert Matches(items, born, p, j); }
      forall x | x in q.pages ensures Find(r, x) < |r| { FindHit(r, x, Find(items, x)); }
    }
  }

  /** Each operation keeps list and plain map in agreement, and advances both clocks alike. */
  lemma StepAgrees(s: State, born: seq<nat>, p: Plain, max: nat, op: Op) returns (born': seq<nat>)
    requires Agrees(s.items, born, p) && p.clock == s.clock
    ensures Agrees(Step(s, max, op).items, born', PlainStep(p, max, op))
    ensures PlainStep(p, max, op).clock == Step(s, max, op).clock
  {
    match op {
      case LookupOp(k) =>
        Resident(s.items, born, p, k);
        TouchAgrees(s.items, born, p, k);
        born' := born;
      case InsertOp(k, page, room) =>
        Resident(s.items, born, p, k);
        born' := InsertAgrees(s.items, born, p, max, k, page, room);
      case EvictOp =>
        born' := EvictAgrees(s.items, born, p);
      case RemoveOp(k) =>
        born' := RemoveAgrees(s.items, born, p, k);
    }
  }

  lemma RemoveAgrees(items: seq<Item>, born: seq<nat>, p: Plain, k: Key) returns (born': seq<nat>)
    requires Agrees(items, born, p)
    ensures Agrees(Remove(items, k), born', p.(pages := p.pages - {k}))
  {
    var i := Find(items, k);
    if i < |items| {
      DropAgrees(items, born, p, i);
      born' := born[..i] + born[i + 1..];
    } else {
      Resident(items, born, p, k);
      assert p.pages - {k} == p.pages;
      born' := born;
    }
  }

  // ----- runs -----

  const EMPTY: State := State([], 0)
  const NO_PAGES: Plain := Plain(map[], 0)

  function Run(s: State, max: nat, ops: seq<Op>): State
    decreases |ops|
  {
    if ops == [] then s else Run(Step(s, max, ops[0]), max, ops[1..])
  }

  ghost function PlainRun(p: Plain, max: nat, ops: seq<Op>): Plain
    decreases |ops|
  {
    if ops == [] then p else PlainRun(PlainStep(p, max, ops[0]), max, ops[1..])
  }

  lemma {:induction false} RunAgrees(s: State, born: seq<nat>, p: Plain, max: nat, ops: seq<Op>)
    returns (born': seq<nat>)
    requires Agrees(s.items, born, p) && p.clock == s.clock
    ensures Agrees(Run(s, max, ops).items, born', PlainRun(p, max, ops))
    decreases |ops|
  {
    if ops == [] {
      born' := born;
    } else {
      var b := StepAgrees(s, born, p, max, ops[0]);
      born' := RunAgrees(Step(s, max, ops[0]), b, PlainStep(p, max, ops[0]), max, ops[1..]);
    }
  }

  lemma EmptyAgrees()
    ensures Agrees(EMPTY.items, [], NO_PAGES) && EMPTY.clock == NO_PAGES.clock
  {
  }

  /** After any run from the empty cache, every lookup answers as a plain map would whose only way to
      forget is to drop the key inserted first: a lookup never saves a key from eviction. */
  lemma CacheIsPlainMap(max: nat, ops: seq<Op>, k: Key)
    ensures var p := PlainRun(NO_PAGES, max, ops).pages;
      Lookup(Run(EMPTY, max, ops).items, k) == if k in p then p[k].page else 0
  {
    EmptyAgrees();
    var born := RunAgrees(EMPTY, [], NO_PAGES, max, ops);
    LookupAgrees(Run(EMPTY, max, ops).items, born, PlainRun(NO_PAGES, max, ops), k);
  }

  /** Keys stay unique and the size within max(1, max). */
  lemma {:induction false} RunInv(s: State, max: nat, ops: seq<Op>)
    requires Inv(s.items, max)
    ensures Inv(Run(s, max, ops).items, max)
    decreases |ops|
  {
    if ops != [] {
      match ops[0] {
        case LookupOp(k) => TouchKeepsInv(s.items, max, k, s.clock);
        case InsertOp(k, page, room) => InsertKeepsInv(s.items, max, k, page, room, s.clock);
        case EvictOp =>
        case RemoveOp(k) => RemoveKeepsInv(s.items, max, k);
      }
      RunInv(Step(s, max, ops[0]), max, ops[1..]);
    }
  }

  /** Insertion of a page reports success exactly when the key is cached afterwards; the page itself is
      taken only if the key was not cached before. */
  lemma InsertOutcome(items: seq<Item>, max: nat, k: Key, page: nat, room: bool, time: nat)
    requires UniqueKeys(items) && NoZero(items) && page != 0
    ensures var (r, ok) := Insert(items, max, k, page, room, time);
      && (ok <==> Lookup(r, k) != 0)
      && (Lookup(items, k) == 0 && ok ==> Lookup(r, k) == page)
      && (Lookup(items, k) != 0 ==> r == items)
  {
    var m := MakeRoom(items, max);
    assert forall i | 0 <= i < |m| :: m[i] == items[i];
  }

  // ----- accounting for pages -----

  /** How often a page is cached. */
  ghost function Cached(items: seq<Item>, x: nat): nat {
    if items == [] then 0 else Cached(items[..|items| - 1], x) + One(items[|items| - 1].page == x)
  }

  ghost function One(b: bool): nat {
    if b then 1 else 0
  }

  ghost function Places(items: seq<Item>, x: nat): set<nat> {
    set i: nat | i < |items| && items[i].page == x
  }

  /** That is the number of items that hold it. */
  lemma {:induction false} CachedCounts(items: seq<Item>, x: nat)
    ensures Cached(items, x) == |Places(items, x)|
  {
    if items != [] {
      var n := |items| - 1;
      CachedCounts(items[..n], x);
      assert Places(items, x) == Places(items[..n], x) + if items[n].page == x then {n} else {};
    }
  }

  lemma {:induction false} CachedAppend(a: seq<Item>, b: seq<Item>, x: nat)
    ensures Cached(a + b, x) == Cached(a, x) + Cached(b, x)
  {
    if b == [] {
      assert a + b == a;
    } else {
      assert (a + b)[..|a + b| - 1] == a + b[..|b| - 1];
      CachedAppend(a, b[..|b| - 1], x);
    }
  }

  lemma {:induction false} CachedDrop(items: seq<Item>, i: nat, x: nat)
    requires i < |items|
    ensures Cached(items, x) == Cached(items[..i] + items[i + 1..], x) + One(items[i].page == x)
  {
    var n, r := |items| - 1, items[..i] + items[i + 1..];
    if i == n {
      assert r == items[..n];
    } else {
      CachedDrop(items[..n], i, x);
      assert r[..|r| - 1] == items[..n][..i] + items[..n][i + 1..];
    }
  }

  /** Whether an operation takes a page over from its caller. */
  ghost predicate Takes(items: seq<Item>, op: Op, x: nat) {
    op.InsertOp? && op.page == x != 0 && op.room && Find(items, op.key) == |items|
  }

  /** Whether an operation frees a page: that of the evicted item. */
  ghost predicate Frees(items: seq<Item>, max: nat, op: Op, x: nat) {
    && items != [] && items[|items| - 1].page == x
    && (op.EvictOp? || (op.InsertOp? && op.page != 0 && Find(items, op.key) == |items| && |items| >= max))
  }

  /** Whether an operation leaves a page to its caller: that of the item removed by key. */
  ghost predicate Returns(items: seq<Item>, op: Op, x: nat) {
    op.RemoveOp? && Find(items, op.key) < |items| && items[Find(items, op.key)].page == x
  }

  lemma RoomAccounts(items: seq<Item>, max: nat, x: nat)
    ensures Cached(items, x) == Cached(MakeRoom(items, max), x)
      + One(|items| >= max && items != [] && items[|items| - 1].page == x)
  {
  }

  lemma {:induction false} TouchAccounts(items: seq<Item>, i: nat, time: nat, x: nat)
    requires i < |items|
    ensures Cached(items[i := items[i].(used := time)], x) == Cached(items, x)
  {
    var n, r := |items| - 1, items[i := items[i].(used := time)];
    if i == n {
      assert r[..n] == items[..n];
    } else {
      assert r[..n] == items[..n][i := items[i].(used := time)];
      TouchAccounts(items[..n], i, time, x);
    }
  }

  lemma StepAccounts(s: State, max: nat, op: Op, x: nat)
    ensures Cached(s.items, x) + One(Takes(s.items, op, x))
      == Cached(Step(s, max, op).items, x) + One(Frees(s.items, max, op, x)) + One(Returns(s.items, op, x))
  {
    match op {
      case LookupOp(k) => if Find(s.items, k) < |s.items| { TouchAccounts(s.items, Find(s.items, k), s.clock, x); }
      case InsertOp(k, page, room) => InsertAccounts(s.items, max, k, page, room, s.clock, x);
      case EvictOp =>
      case RemoveOp(k) => if Find(s.items, k) < |s.items| { CachedDrop(s.items, Find(s.items, k), x); }
    }
  }

  lemma InsertAccounts(items: seq<Item>, max: nat, k: Key, page: nat, room: bool, time: nat, x: nat)
    ensures var op := InsertOp(k, page, room);
      Cached(items, x) + One(Takes(items, op, x)) ==
        Cached(Insert(items, max, k, page, room, time).0, x) + One(Frees(items, max, op, x))
  {
    RoomAccounts(items, max, x);
    CachedAppend([Item(k, page, time)], MakeRoom(items, max), x);
    assert Cached([Item(k, page, time)], x) == One(page == x);
  }

  ghost function TakenBy(s: State, max: nat, ops: seq<Op>, x: nat): nat
    decreases |ops|
  {
    if ops == [] then 0 else One(Takes(s.items, ops[0], x)) + TakenBy(Step(s, max, ops[0]), max, ops[1..], x)
  }

  ghost function GivenUp(s: State, max: nat, ops: seq<Op>, x: nat): nat
    decreases |ops|
  {
    if ops == [] then 0
    else
      One(Frees(s.items, max, ops[0], x)) + One(Returns(s.items, ops[0], x))
        + GivenUp(Step(s, max, ops[0]), max, ops[1..], x)
  }

  /** Over any run, every page taken is still cached or was given up, once. */
  lemma {:induction false} PagesConserved(s: State, max: nat, ops: seq<Op>, x: nat)
    ensures Cached(s.items, x) + TakenBy(s, max, ops, x) == Cached(Run(s, max, ops).items, x) + GivenUp(s, max, ops, x)
    decreases |ops|
  {
    if ops != [] {
      StepAccounts(s, max, ops[0], x);
      PagesConserved(Step(s, max, ops[0]), max, ops[1..], x);
    }
  }
}
