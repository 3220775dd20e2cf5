/** The page cache as it runs: entries chained in hash buckets and linked into one list by age, both
    changed in place. */
module PageCache {
  import opened Common
  import opened PageCacheSpec

  const NULL: nat := 0
  const BUCKETS: nat := 1024

  datatype Entry = Entry(item: Item, hashNext: nat, next: nat, prev: nat)

  function Hash(k: Key): (h: nat)
    ensures h < BUCKETS
  {
    HashBits(k.file, k.offset)
  }

  function HashBits(file: Word, offset: Word): (h: nat)
    ensures h < BUCKETS
  {
    (((file ^ (offset >> 12)) * 2654435761) & 0x3FF) as nat
  }

  // ----- links -----

  function After(l: seq<nat>, i: int): nat {
    if 0 <= i + 1 < |l| then l[i + 1] else NULL
  }

  function Before(l: seq<nat>, i: int): nat {
    if 0 < i <= |l| then l[i - 1] else NULL
  }

  function Drop(l: seq<nat>, i: nat): seq<nat>
    requires i < |l|
  {
    l[..i] + l[i + 1..]
  }

  lemma DropFacts(l: seq<nat>, i: nat)
    requires NoDuplicates(l) && i < |l|
    ensures NoDuplicates(Drop(l, i)) && l[i] !in Drop(l, i)
    ensures forall x :: x in Drop(l, i) <==> x in l && x != l[i]
  {
    var r := Drop(l, i);
    forall x | x in l && x != l[i] ensures x in r {
      var j :| 0 <= j < |l| && l[j] == x;
      assert r[if j < i then j else j - 1] == x;
    }
  }

  ghost predicate HashNode(ents: map<nat, Entry>, c: seq<nat>, i: nat)
    requires i < |c|
  {
    c[i] in ents && ents[c[i]].hashNext == After(c, i)
  }

  ghost predicate ChainOk(ents: map<nat, Entry>, head: nat, c: seq<nat>) {
    head == After(c, -1) && forall i | 0 <= i < |c| :: HashNode(ents, c, i)
  }

  ghost predicate Chained(ents: map<nat, Entry>, table: seq<nat>, chains: seq<seq<nat>>) {
    |table| == |chains| == BUCKETS && forall b | 0 <= b < BUCKETS :: ChainOk(ents, table[b], chains[b])
  }

  ghost predicate ListNode(ents: map<nat, Entry>, l: seq<nat>, i: nat)
    requires i < |l|
  {
    l[i] in ents && ents[l[i]].next == After(l, i) && ents[l[i]].prev == Before(l, i)
  }

  ghost predicate Listed(ents: map<nat, Entry>, head: nat, tail: nat, l: seq<nat>) {
    head == After(l, -1) && tail == Before(l, |l|) && forall i | 0 <= i < |l| :: ListNode(ents, l, i)
  }

  /** Chain b holds entries of the cache whose keys hash to b, each once. */
  ghost predicate Bucket(ents: map<nat, Entry>, c: seq<nat>, b: nat) {
    NoDuplicates(c) && forall a | a in c :: a in ents && Hash(ents[a].item.key) == b
  }

  /** Every entry but x is in the chain of its key's hash, and x is in none. */
  ghost predicate Filed(ents: map<nat, Entry>, chains: seq<seq<nat>>, x: nat)
    requires |chains| == BUCKETS
  {
    && (forall b | 0 <= b < BUCKETS :: Bucket(ents, chains[b], b) && x !in chains[b])
    && (forall a | a in ents && a != x :: a in chains[Hash(ents[a].item.key)])
  }

  /** The same entries are on the list. */
  ghost predicate Indexed(ents: map<nat, Entry>, l: seq<nat>, x: nat) {
    NoDuplicates(l) && forall a :: a in l <==> a in ents && a != x
  }

  ghost function Items(ents: map<nat, Entry>, l: seq<nat>): (r: seq<Item>)
    requires forall a | a in l :: a in ents
    ensures |r| == |l|
  {
    seq(|l|, i requires 0 <= i < |l| => ents[l[i]].item)
  }

  // ----- changing links -----

  /** Only list links differ. */
  ghost predicate SameHash(ents: map<nat, Entry>, ents': map<nat, Entry>) {
    && ents.Keys == ents'.Keys
    && forall a | a in ents :: ents'[a].item == ents[a].item && ents'[a].hashNext == ents[a].hashNext
  }

  /** Only chain links differ. */
  ghost predicate SameList(ents: map<nat, Entry>, ents': map<nat, Entry>) {
    && ents.Keys == ents'.Keys
    && forall a | a in ents ::
      ents'[a].item == ents[a].item && ents'[a].next == ents[a].next && ents'[a].prev == ents[a].prev
  }

  /** What the chains, and what the list, depend on. */
  ghost predicate SameBuckets(ents: map<nat, Entry>, ents': map<nat, Entry>) {
    && ents.Keys == ents'.Keys
    && forall a | a in ents :: ents'[a].item.key == ents[a].item.key && ents'[a].hashNext == ents[a].hashNext
  }

  ghost predicate SameLinks(ents: map<nat, Entry>, ents': map<nat, Entry>) {
    && ents.Keys == ents'.Keys
    && forall a | a in ents :: ents'[a].next == ents[a].next && ents'[a].prev == ents[a].prev
  }

  lemma HashKept(ents: map<nat, Entry>, ents': map<nat, Entry>, table: seq<nat>, chains: seq<seq<nat>>, x: nat)
    requires SameBuckets(ents, ents') && Chained(ents, table, chains) && Filed(ents, chains, x)
    ensures Chained(ents', table, chains) && Filed(ents', chains, x)
  {
    forall b | 0 <= b < BUCKETS ensures ChainOk(ents', table[b], chains[b]) && Bucket(ents', chains[b], b) {
      assert ChainOk(ents, table[b], chains[b]) && Bucket(ents, chains[b], b);
      forall i | 0 <= i < |chains[b]| ensures HashNode(ents', chains[b], i) { assert HashNode(ents, chains[b], i); }
    }
  }

  lemma ListKept(ents: map<nat, Entry>, ents': map<nat, Entry>, head: nat, tail: nat, l: seq<nat>, x: nat)
    requires SameLinks(ents, ents') && Listed(ents, head, tail, l) && Indexed(ents, l, x)
    ensures Listed(ents', head, tail, l) && Indexed(ents', l, x)
  {
    forall i | 0 <= i < |l| ensures ListNode(ents', l, i) { assert ListNode(ents, l, i); }
  }

  /** Unlinking entry i of a list. */
  lemma ListDrop(ents: map<nat, Entry>, ents': map<nat, Entry>, head: nat, tail: nat, l: seq<nat>, i: nat)
    requires Listed(ents, head, tail, l) && NoDuplicates(l) && NULL !in l && i < |l|
    requires forall a | a in l && a != l[i] && a != Before(l, i) && a != After(l, i) ::
      a in ents && a in ents' && ents'[a] == ents[a]
    requires Before(l, i) != NULL ==>
      Before(l, i) in ents && Before(l, i) in ents' && ents'[Before(l, i)] == ents[Before(l, i)].(next := After(l, i))
    requires After(l, i) != NULL ==>
      After(l, i) in ents && After(l, i) in ents' && ents'[After(l, i)] == ents[After(l, i)].(prev := Before(l, i))
    ensures Listed(ents', if i == 0 then After(l, i) else head, if i == |l| - 1 then Before(l, i) else tail, Drop(l, i))
  {
    var r := Drop(l, i);
    forall j | 0 <= j < |r| ensures ListNode(ents', r, j) {
      var k := if j < i then j else j + 1;
      assert ListNode(ents, l, k) && r[j] == l[k] && l[k] in l;
      assert i > 0 ==> Before(l, i) in l;
      assert i + 1 < |l| ==> After(l, i) in l;
    }
  }

  function SetNext(ents: map<nat, Entry>, a: nat, next: nat): map<nat, Entry>
    requires a == NULL || a in ents
  {
    if a == NULL then ents else ents[a := ents[a].(next := next)]
  }

  function SetPrev(ents: map<nat, Entry>, a: nat, prev: nat): map<nat, Entry>
    requires a == NULL || a in ents
  {
    if a == NULL then ents else ents[a := ents[a].(prev := prev)]
  }

  function Spliced(ents: map<nat, Entry>, a: nat, before: nat, after: nat): map<nat, Entry>
    requires a in ents && (before == NULL || before in ents) && (after == NULL || after in ents)
  {
    var m := SetPrev(SetNext(ents, before, after), after, before);
    m[a := m[a].(next := NULL, prev := NULL)]
  }

  lemma SplicedOut(ents: map<nat, Entry>, head: nat, tail: nat, l: seq<nat>, j: nat)
    requires Listed(ents, head, tail, l) && Indexed(ents, l, NULL) && NULL !in ents && j < |l|
    ensures l[j] in ents && ents[l[j]].prev == Before(l, j) && ents[l[j]].next == After(l, j)
    ensures (Before(l, j) == NULL <==> j == 0) && (After(l, j) == NULL <==> j == |l| - 1)
    ensures (j > 0 ==> Before(l, j) in ents) && (j < |l| - 1 ==> After(l, j) in ents)
    ensures var r := Spliced(ents, l[j], Before(l, j), After(l, j));
      && SameHash(ents, r) && Indexed(r, Drop(l, j), l[j])
      && Listed(r, if j == 0 then After(l, j) else head, if j == |l| - 1 then Before(l, j) else tail, Drop(l, j))
  {
    assert ListNode(ents, l, j) && l[j] in l;
    assert j > 0 ==> l[j - 1] in l;
    assert j + 1 < |l| ==> l[j + 1] in l;
    DropFacts(l, j);
    ListDrop(ents, Spliced(ents, l[j], Before(l, j), After(l, j)), head, tail, l, j);
  }

  /** Taking entry i out of chain b. */
  lemma ChainDrop(ents: map<nat, Entry>, ents': map<nat, Entry>, head: nat, c: seq<nat>, i: nat)
    requires ChainOk(ents, head, c) && NoDuplicates(c) && i < |c|
    requires forall a | a in c && (i == 0 || a != c[i - 1]) :: a in ents' && a in ents && ents'[a] == ents[a]
    requires i > 0 ==> c[i - 1] in ents' && ents'[c[i - 1]].hashNext == After(c, i)
    ensures ChainOk(ents', if i == 0 then After(c, i) else head, Drop(c, i))
  {
    var r := Drop(c, i);
    forall j | 0 <= j < |r| ensures HashNode(ents', r, j) {
      var k := if j < i then j else j + 1;
      assert HashNode(ents, c, k) && r[j] == c[k] && c[k] in c;
    }
  }

  /** Forgetting an entry that is in neither index. */
  lemma Forgotten(ents: map<nat, Entry>, table: seq<nat>, chains: seq<seq<nat>>, head: nat, tail: nat, l: seq<nat>,
    x: nat)
    requires Chained(ents, table, chains) && Filed(ents, chains, x) && Listed(ents, head, tail, l)
    requires Indexed(ents, l, x)
    requires NULL !in ents
    ensures Chained(ents - {x}, table, chains) && Filed(ents - {x}, chains, NULL)
    ensures Listed(ents - {x}, head, tail, l) && Indexed(ents - {x}, l, NULL)
    ensures Items(ents - {x}, l) == Items(ents, l)
  {
    var ents' := ents - {x};
    forall b | 0 <= b < BUCKETS
      ensures ChainOk(ents', table[b], chains[b]) && Bucket(ents', chains[b], b) && NULL !in chains[b]
    {
      assert ChainOk(ents, table[b], chains[b]) && Bucket(ents, chains[b], b) && x !in chains[b];
      forall i | 0 <= i < |chains[b]| ensures HashNode(ents', chains[b], i) {
        assert HashNode(ents, chains[b], i) && chains[b][i] in chains[b];
      }
    }
    forall i | 0 <= i < |l| ensures ListNode(ents', l, i) { assert ListNode(ents, l, i) && l[i] in l; }
  }

  // ----- frames -----

  /** The frames of entries, the pages they cache and the free frames are all different. */
  ghost predicate Apart(ents: map<nat, Entry>, pool: set<nat>) {
    && NULL !in pool && NULL !in ents && ents.Keys !! pool
    && (forall a | a in ents :: PageApart(ents, pool, a))
    && (forall a, c | a in ents && c in ents && a != c :: ents[a].item.page != ents[c].item.page)
  }

  ghost predicate PageApart(ents: map<nat, Entry>, pool: set<nat>, a: nat)
    requires a in ents
  {
    ents[a].item.page != NULL && ents[a].item.page !in pool && ents[a].item.page !in ents
  }

  /** The pages and frames that belong to the cache or are free. */
  ghost function Frames(ents: map<nat, Entry>, pool: set<nat>): set<nat> {
    pool + ents.Keys + set a | a in ents :: ents[a].item.page
  }

  ghost predicate SamePages(ents: map<nat, Entry>, ents': map<nat, Entry>) {
    ents.Keys == ents'.Keys && forall a | a in ents :: ents'[a].item == ents[a].item
  }

  lemma PagesKept(ents: map<nat, Entry>, ents': map<nat, Entry>, l: seq<nat>, pool: set<nat>)
    requires SamePages(ents, ents') && forall a | a in l :: a in ents
    ensures Items(ents', l) == Items(ents, l) && Frames(ents', pool) == Frames(ents, pool)
    ensures Apart(ents, pool) ==> Apart(ents', pool)
  {
    if Apart(ents, pool) {
      forall a | a in ents' ensures PageApart(ents', pool, a) { assert PageApart(ents, pool, a); }
    }
  }

  /** The entry with its time of last use set. */
  function Restamped(e: Entry, time: nat): Entry {
    e.(item := e.item.(used := time))
  }

  lemma StampFrames(ents: map<nat, Entry>, pool: set<nat>, a: nat, time: nat)
    requires Apart(ents, pool) && a in ents
    ensures Apart(ents[a := Restamped(ents[a], time)], pool)
    ensures Frames(ents[a := Restamped(ents[a], time)], pool) == Frames(ents, pool)
  {
    var ents' := ents[a := Restamped(ents[a], time)];
    forall x | x in ents' ensures PageApart(ents', pool, x) { assert PageApart(ents, pool, x); }
    assert forall x | x in ents :: ents'[x].item.page == ents[x].item.page;
  }

  lemma StampIndexes(ents: map<nat, Entry>, table: seq<nat>, chains: seq<seq<nat>>, head: nat, tail: nat, l: seq<nat>,
      a: nat, time: nat)
    requires Chained(ents, table, chains) && Filed(ents, chains, NULL)
    requires Listed(ents, head, tail, l) && Indexed(ents, l, NULL)
    requires a in ents
    ensures var ents' := ents[a := Restamped(ents[a], time)];
      && Chained(ents', table, chains) && Filed(ents', chains, NULL)
      && Listed(ents', head, tail, l) && Indexed(ents', l, NULL)
  {
    ListKept(ents, ents[a := Restamped(ents[a], time)], head, tail, l, NULL);
    HashKept(ents, ents[a := Restamped(ents[a], time)], table, chains, NULL);
  }

  /** Stamping an entry stamps its item. */
  lemma StampItems(ents: map<nat, Entry>, l: seq<nat>, j: nat, time: nat)
    requires Indexed(ents, l, NULL) && j < |l| && UniqueKeys(Items(ents, l)) && l[j] in ents
    ensures var ents' := ents[l[j] := Restamped(ents[l[j]], time)];
      && (forall x | x in l :: x in ents') && Items(ents', l) == Items(ents, l)[j := Items(ents, l)[j].(used := time)]
      && UniqueKeys(Items(ents', l))
  {
    var ents', items := ents[l[j] := Restamped(ents[l[j]], time)], Items(ents, l);
    assert Items(ents', l) == items[j := items[j].(used := time)];
  }

  lemma StampFacts(ents: map<nat, Entry>, table: seq<nat>, chains: seq<seq<nat>>, head: nat, tail: nat, l: seq<nat>,
      pool: set<nat>, j: nat, time: nat)
    requires Chained(ents, table, chains) && Filed(ents, chains, NULL)
    requires Listed(ents, head, tail, l) && Indexed(ents, l, NULL)
    requires Apart(ents, pool) && UniqueKeys(Items(ents, l)) && j < |l| && l[j] in ents
    ensures var ents' := ents[l[j] := Restamped(ents[l[j]], time)];
      && Chained(ents', table, chains) && Filed(ents', chains, NULL)
      && Listed(ents', head, tail, l) && Indexed(ents', l, NULL)
      && Apart(ents', pool) && Frames(ents', pool) == Frames(ents, pool)
      && Items(ents', l) == Items(ents, l)[j := Items(ents, l)[j].(used := time)] && UniqueKeys(Items(ents', l))
  {
    StampIndexes(ents, table, chains, head, tail, l, l[j], time);
    StampFrames(ents, pool, l[j], time);
    StampItems(ents, l, j, time);
  }

  lemma DropItem(ents: map<nat, Entry>, l: seq<nat>, j: nat)
    requires j < |l| && (forall a | a in l :: a in ents) && UniqueKeys(Items(ents, l))
    ensures forall a | a in Drop(l, j) :: a in ents
    ensures Items(ents, Drop(l, j)) == Items(ents, l)[..j] + Items(ents, l)[j + 1..]
    ensures UniqueKeys(Items(ents, Drop(l, j)))
  {
    forall a | a in Drop(l, j) ensures a in l {
      var k :| 0 <= k < |Drop(l, j)| && Drop(l, j)[k] == a;
      assert l[if k < j then k else k + 1] == a;
    }
  }

  lemma ItemsWithout(ents: map<nat, Entry>, ents': map<nat, Entry>, l: seq<nat>, j: nat)
    requires SamePages(ents, ents') && Indexed(ents, l, NULL) && UniqueKeys(Items(ents, l)) && j < |l|
    ensures forall a | a in Drop(l, j) :: a in ents'
    ensures Items(ents', Drop(l, j)) == Items(ents, l)[..j] + Items(ents, l)[j + 1..]
    ensures UniqueKeys(Items(ents', Drop(l, j)))
  {
    DropItem(ents, l, j);
    PagesKept(ents, ents', Drop(l, j), {});
  }

  lemma ItemsLeft(ents0: map<nat, Entry>, ents: map<nat, Entry>, l: seq<nat>, j: nat, r: seq<nat>)
    requires SamePages(ents0, ents) && Indexed(ents0, l, NULL) && UniqueKeys(Items(ents0, l))
    requires j < |l| && r == Drop(l, j)
    requires Indexed(ents, r, l[j])
    ensures Indexed(ents - {l[j]}, r, NULL)
    ensures Items(ents - {l[j]}, r) == Items(ents0, l)[..j] + Items(ents0, l)[j + 1..]
    ensures UniqueKeys(Items(ents - {l[j]}, r))
  {
    ItemsWithout(ents0, ents, l, j);
    assert Items(ents - {l[j]}, r) == Items(ents, r);
  }

  /** Where the entry of a key stands in the list. */
  lemma Position(ents: map<nat, Entry>, l: seq<nat>, a: nat) returns (j: nat)
    requires Indexed(ents, l, NULL) && UniqueKeys(Items(ents, l)) && a in ents && a != NULL
    ensures j < |l| && l[j] == a && Find(Items(ents, l), ents[a].item.key) == j
  {
    assert a in l;
    j :| 0 <= j < |l| && l[j] == a;
    FindIsIndex(Items(ents, l), j);
  }

  lemma TouchAt(items: seq<Item>, j: nat, time: nat)
    requires UniqueKeys(items) && j < |items|
    ensures Touch(items, items[j].key, time) == items[j := items[j].(used := time)]
    ensures Lookup(items, items[j].key) == items[j].page
  {
    FindIsIndex(items, j);
  }

  lemma NoPosition(ents: map<nat, Entry>, l: seq<nat>, k: Key)
    requires Indexed(ents, l, NULL) && forall a | a in ents :: ents[a].item.key != k
    ensures Find(Items(ents, l), k) == |l|
  {
    var i := Find(Items(ents, l), k);
    assert forall j | 0 <= j < |l| :: l[j] in l && Items(ents, l)[j].key != k;
  }

  lemma FreeBoth(ents: map<nat, Entry>, pool: set<nat>, a: nat)
    requires Apart(ents, pool) && a in ents
    ensures Apart(ents - {a}, pool + {a, ents[a].item.page})
    ensures Frames(ents - {a}, pool + {a, ents[a].item.page}) == Frames(ents, pool)
  {
    forall x | x in ents - {a}
      ensures PageApart(ents - {a}, pool + {a, ents[a].item.page}, x)
    {
      assert PageApart(ents, pool, x);
    }
    assert PageApart(ents, pool, a);
  }

  lemma FreeEntry(ents: map<nat, Entry>, pool: set<nat>, a: nat)
    requires Apart(ents, pool) && a in ents
    ensures Apart(ents - {a}, pool + {a}) && ents[a].item.page !in Frames(ents - {a}, pool + {a})
    ensures Frames(ents - {a}, pool + {a}) == Frames(ents, pool) - {ents[a].item.page}
  {
    forall x | x in ents - {a} ensures PageApart(ents - {a}, pool + {a}, x) { assert PageApart(ents, pool, x); }
    assert PageApart(ents, pool, a);
  }

  /** A 64-bit counter goes up. */
  function Bump(n: nat): nat {
    (n + 1) % U64
  }

  class Cache {
    const max: nat
    var table: seq<nat>
    const ready: bool
    var ents: map<nat, Entry>
    var head: nat
    var tail: nat
    var total: nat
    var hits: nat
    var misses: nat
    var clock: nat
    var pool: set<nat>
    ghost var chains: seq<seq<nat>>
    ghost var lru: seq<nat>

    /** Both indexes are in order; entry hx is out of its chain and entry lx off the list. */
    ghost predicate Linked(hx: nat, lx: nat)
      reads this
    {
      && NULL !in ents && |chains| == BUCKETS
      && Chained(ents, table, chains) && Filed(ents, chains, hx)
      && Listed(ents, head, tail, lru) && Indexed(ents, lru, lx)
    }

    ghost predicate Valid()
      reads this
    {
      && Linked(NULL, NULL) && total == |lru| && Apart(ents, pool) && UniqueKeys(Items(ents, lru))
      && (!ready ==> total == 0)
    }

    /** What is cached, newest first. */
    ghost function Contents(): seq<Item>
      requires Valid()
      reads this
    {
      Items(ents, lru)
    }

    /** page_cache_init: one frame becomes the hash table; without it the cache stays unusable. */
    constructor (maxPages: nat, frames: set<nat>)
      requires NULL !in frames
      ensures Valid() && Contents() == [] && max == maxPages && (ready <==> frames != {})
      ensures pool <= frames && |pool| == if ready then |frames| - 1 else 0
    {
      max := maxPages;
      table := seq(BUCKETS, _ => NULL);
      ents, head, tail, total := map[], NULL, NULL, 0;
      hits, misses, clock := 0, 0, 0;
      chains, lru := seq(BUCKETS, _ => []), [];
      if frames == {} {
        ready, pool := false, {};
      } else {
        var f :| f in frames;
        ready, pool := true, frames - {f};
      }
    }

    /** Walk the chain of a key; prev is the entry in front of the one found. */
    method Search(k: Key) returns (a: nat, prev: nat, ghost n: nat)
      requires Valid()
      ensures n <= |chains[Hash(k)]| && a == After(chains[Hash(k)], n - 1) && prev == Before(chains[Hash(k)], n)
      ensures a != NULL ==> a in ents && ents[a].item.key == k && n < |chains[Hash(k)]|
      ensures a == NULL ==> forall x | x in ents :: ents[x].item.key != k
    {
      hide Listed;
      ghost var c := chains[Hash(k)];
      assert ChainOk(ents, table[Hash(k)], c) && Bucket(ents, c, Hash(k)) && NULL !in c;
      a, prev, n := table[Hash(k)], NULL, 0;
      while a != NULL
        invariant n <= |c| && a == After(c, n - 1) && prev == Before(c, n)
        invariant forall j | 0 <= j < n :: c[j] in ents && ents[c[j]].item.key != k
        decreases |c| - n
      {
        assert HashNode(ents, c, n);
        if ents[a].item.key == k { return; }
        prev, a, n := a, ents[a].hashNext, n + 1;
      }
      forall x | x in ents ensures ents[x].item.key != k {
        if Hash(ents[x].item.key) == Hash(k) { assert x in c; }
      }
    }

    /** Walk a chain to a given entry. */
    method SearchEntry(b: nat, victim: nat) returns (prev: nat, ghost n: nat)
      requires Resident(b, victim)
      ensures n < |chains[b]| && chains[b][n] == victim && prev == Before(chains[b], n)
    {
      ghost var c := chains[b];
      assert ChainOk(ents, table[b], c) && Bucket(ents, c, b) && NULL !in c;
      var a := table[b];
      prev, n := NULL, 0;
      while a != victim
        invariant n <= |c| && a == After(c, n - 1) && prev == Before(c, n) && victim !in c[..n]
        decreases |c| - n
      {
        assert HashNode(ents, c, n);
        prev, a, n := a, ents[a].hashNext, n + 1;
      }
    }

    ghost predicate Resident(b: nat, victim: nat)
      reads this
    {
      Linked(NULL, victim) && b < BUCKETS && victim in chains[b] && victim != NULL
    }

    /** Take an entry out of its chain, given the one in front of it. */
    method UnlinkHash(b: nat, a: nat, prev: nat, ghost n: nat, ghost lx: nat)
      requires Linked(NULL, lx) && b < BUCKETS && n < |chains[b]| && chains[b][n] == a && prev == Before(chains[b], n)
      modifies this`ents, this`chains, this`table
      ensures Linked(a, lx) && SameList(old(ents), ents)
    {
      ghost var c, ents0, table0, chains0 := chains[b], ents, table, chains;
      assert ChainOk(ents0, table0[b], c) && Bucket(ents0, c, b) && NULL !in c && HashNode(ents0, c, n);
      assert n > 0 ==> c[n - 1] in c;
      if prev == NULL {
        table := table[b := ents[a].hashNext];
      } else {
        ents := ents[prev := ents[prev].(hashNext := ents[a].hashNext)];
      }
      chains := chains[b := Drop(c, n)];
      ListKept(ents0, ents, head, tail, lru, lx);
      ChainDrop(ents0, ents, table0[b], c, n);
      UnlinkKeeps(ents0, ents, table0, table, chains0, b, n);
    }

    method RewriteAround(a: nat)
      requires a in ents && (ents[a].prev == NULL || ents[a].prev in ents)
      requires ents[a].next == NULL || ents[a].next in ents
      modifies this`ents, this`head, this`tail
      ensures var before, after := old(ents)[a].prev, old(ents)[a].next;
        && ents == Spliced(old(ents), a, before, after)
        && head == (if before == NULL then after else old(head)) && tail == if after == NULL then before else old(tail)
    {
      var before, after := ents[a].prev, ents[a].next;
      if before != NULL { ents := ents[before := ents[before].(next := after)]; } else { head := after; }
      if after != NULL { ents := ents[after := ents[after].(prev := before)]; } else { tail := before; }
      ents := ents[a := ents[a].(next := NULL, prev := NULL)];
    }

    /** lru_remove: unlink an entry from its neighbours. */
    method ListRemove(a: nat, ghost j: nat, ghost hx: nat)
      requires Linked(hx, NULL) && j < |lru| && lru[j] == a
      modifies this`ents, this`lru, this`head, this`tail
      ensures Linked(hx, a) && SameHash(old(ents), ents) && lru == Drop(old(lru), j)
    {
      hide Chained, Filed, Listed;
      SplicedOut(ents, head, tail, lru, j);
      HashKept(ents, Spliced(ents, a, ents[a].prev, ents[a].next), table, chains, hx);
      RewriteAround(a);
      lru := Drop(lru, j);
    }

    method RewriteHead(a: nat)
      requires a in ents && (head == NULL || head in ents)
      modifies this`ents, this`head, this`tail
      ensures ents == Pushed(old(ents), a, old(head)) && head == a && tail == if old(tail) == NULL then a else old(tail)
    {
      ents := ents[a := ents[a].(next := head, prev := NULL)];
      if head != NULL { ents := ents[head := ents[head].(prev := a)]; }
      head := a;
      if tail == NULL { tail := a; }
    }

    /** lru_add_to_head. */
    method AddToHead(a: nat)
      requires Linked(NULL, a) && a in ents
      modifies this`ents, this`lru, this`head, this`tail
      ensures Linked(NULL, NULL) && SameHash(old(ents), ents) && lru == [a] + old(lru)
    {
      assert |lru| > 0 ==> ListNode(ents, lru, 0) && lru[0] in lru;
      ListPush(ents, head, tail, lru, a);
      HashKept(ents, Pushed(ents, a, head), table, chains, NULL);
      RewriteHead(a);
      lru := [a] + lru;
    }

    // ----- operations -----

    /** page_cache_lookup: a hit stamps the entry and moves nothing. */
    method LookupPage(k: Key) returns (page: nat)
      requires Valid()
      modifies this`ents, this`hits, this`misses, this`clock
      ensures Valid() && lru == old(lru) && page == Lookup(old(Contents()), k)
      ensures Contents() == Touch(old(Contents()), k, old(clock)) && Frames(ents, pool) == old(Frames(ents, pool))
      ensures clock == if page != 0 then (old(clock) + 1) % 0x1_0000_0000_0000_0000 else old(clock)
      ensures hits == if page != 0 then (old(hits) + 1) % 0x1_0000_0000_0000_0000 else old(hits)
      ensures misses == if page == 0 && ready then (old(misses) + 1) % 0x1_0000_0000_0000_0000 else old(misses)
    {
      hide Chained, Filed, Listed;
      page := 0;
      if ready {
        var a, prev, n := Search(k);
        if a == NULL {
          NoPosition(ents, lru, k);
          misses := Bump(misses);
        } else {
          page := Hit(a);
        }
      }
    }

    method Hit(a: nat) returns (page: nat)
      requires Valid() && a in ents
      modifies this`ents, this`hits, this`clock
      ensures Valid() && lru == old(lru) && page == Lookup(old(Contents()), old(ents)[a].item.key) != 0
      ensures Contents() == Touch(old(Contents()), old(ents)[a].item.key, old(clock))
      ensures Frames(ents, pool) == old(Frames(ents, pool))
      ensures clock == Bump(old(clock)) && hits == Bump(old(hits))
    {
      hide Chained, Filed, Listed;
      ghost var j := Position(ents, lru, a);
      assert PageApart(ents, pool, a);
      TouchAt(Contents(), j, clock);
      page := ents[a].item.page;
      var time := clock;
      hits, clock := Bump(hits), Bump(clock);
      Stamp(a, time, j);
    }

    method Stamp(a: nat, time: nat, ghost j: nat)
      requires Valid() && j < |lru| && lru[j] == a && a in ents
      modifies this`ents
      ensures Valid() && Frames(ents, pool) == old(Frames(ents, pool))
      ensures Contents() == old(Contents())[j := old(Contents())[j].(used := time)]
    {
      StampFacts(ents, table, chains, head, tail, lru, pool, j, time);
      ents := ents[a := Restamped(ents[a], time)];
    }

    /** page_cache_evict_lru: drop the last entry of the list, its page and its frame. */
    method EvictLru()
      requires Valid()
      modifies this`ents, this`lru, this`head, this`tail, this`chains, this`total, this`pool, this`table
      ensures Valid() && Contents() == Evict(old(Contents())) && Frames(ents, pool) == old(Frames(ents, pool))
      ensures pool == old(pool)
        + if old(lru) == [] then {} else {old(lru)[|old(lru)| - 1], old(Contents())[|old(lru)| - 1].page}
    {
      assert |lru| > 0 ==> lru[|lru| - 1] in lru;
      if ready && tail != NULL { EvictTail(tail); }
    }

    method EvictTail(victim: nat)
      requires Valid() && ready && lru != [] && victim == lru[|lru| - 1] && victim in ents
      modifies this`ents, this`lru, this`head, this`tail, this`chains, this`total, this`pool, this`table
      ensures Valid() && Contents() == Evict(old(Contents())) && Frames(ents, pool) == old(Frames(ents, pool))
      ensures pool == old(pool) + {victim, old(ents)[victim].item.page}
    {
      hide Chained, Filed, Listed;
      ghost var ents0, l0, j, items := ents, lru, |lru| - 1, Contents();
      assert Evict(items) == items[..j] + items[j + 1..] && items[j].page == ents[victim].item.page;
      Unhook(victim, j);
      var page := ents[victim].item.page;
      PagesKept(ents0, ents, lru, pool);
      FreeBoth(ents, pool, victim);
      ItemsLeft(ents0, ents, l0, j, lru);
      Discard(victim, {victim, page});
    }

    /** Take an entry off the list, then out of its chain. */
    method Unhook(a: nat, ghost j: nat)
      requires Linked(NULL, NULL) && j < |lru| && lru[j] == a
      modifies this`ents, this`lru, this`head, this`tail, this`chains, this`table
      ensures Linked(a, a) && SamePages(old(ents), ents) && lru == Drop(old(lru), j)
    {
      assert a in lru;
      ListRemove(a, j, NULL);
      var b := Hash(ents[a].item.key);
      var prev, n := SearchEntry(b, a);
      UnlinkHash(b, a, prev, n, a);
    }

    /** Take an entry out of its chain, then off the list. */
    method UnhookFound(b: nat, a: nat, prev: nat, ghost n: nat, ghost j: nat)
      requires Linked(NULL, NULL) && b < BUCKETS && n < |chains[b]| && chains[b][n] == a && prev == Before(chains[b], n)
      requires j < |lru| && lru[j] == a
      modifies this`ents, this`lru, this`head, this`tail, this`chains, this`table
      ensures Linked(a, a) && SamePages(old(ents), ents) && lru == Drop(old(lru), j)
    {
      UnlinkHash(b, a, prev, n, NULL);
      ListRemove(a, j, a);
    }

    /** Give back an entry that is in neither index. */
    method Discard(a: nat, freed: set<nat>)
      requires Linked(a, a) && total == |lru| + 1 && ready && Apart(ents - {a}, pool + freed)
      requires Indexed(ents - {a}, lru, NULL) && UniqueKeys(Items(ents - {a}, lru))
      modifies this`ents, this`total, this`pool
      ensures Valid() && ents == old(ents) - {a} && pool == old(pool) + freed
    {
      Forgotten(ents, table, chains, head, tail, lru, a);
      total := total - 1;
      pool := pool + freed;
      ents := ents - {a};
    }

    /** page_cache_remove: drop the entry of a key; the page stays with the caller. */
    method RemoveKey(k: Key)
      requires Valid()
      modifies this`ents, this`lru, this`head, this`tail, this`chains, this`total, this`pool, this`table
      ensures Valid() && Contents() == Remove(old(Contents()), k)
      ensures Frames(ents, pool) == old(Frames(ents, pool)) - {Lookup(old(Contents()), k)}
    {
      if ready {
        var a, prev, n := Search(k);
        if a != NULL {
          ghost var j := Position(ents, lru, a);
          RemoveFound(Hash(k), a, prev, n, j);
        } else {
          NoPosition(ents, lru, k);
        }
      }
    }

    method RemoveFound(b: nat, a: nat, prev: nat, ghost n: nat, ghost j: nat)
      requires Valid() && ready && a in ents && j < |lru| && lru[j] == a
      requires b < BUCKETS && n < |chains[b]| && a == chains[b][n] && prev == Before(chains[b], n)
      modifies this`ents, this`lru, this`head, this`tail, this`chains, this`total, this`pool, this`table
      ensures Valid() && Contents() == old(Contents())[..j] + old(Contents())[j + 1..]
      ensures Frames(ents, pool) == old(Frames(ents, pool)) - {old(ents)[a].item.page}
    {
      hide Chained, Filed, Listed;
      ghost var ents0, l0 := ents, lru;
      UnhookFound(b, a, prev, n, j);
      PagesKept(ents0, ents, lru, pool);
      FreeEntry(ents, pool, a);
      ItemsLeft(ents0, ents, l0, j, lru);
      Discard(a, {a});
    }

    /** Put an entry in front of its chain. */
    method PushHash(b: nat, a: nat)
      requires Linked(a, a) && a in ents && b == Hash(ents[a].item.key)
      modifies this`ents, this`chains, this`table
      ensures Linked(NULL, a) && SameList(old(ents), ents) && lru == old(lru)
    {
      PushFacts(ents, table, chains, b, a);
      ListKept(ents, ents[a := ents[a].(hashNext := table[b])], head, tail, lru, a);
      ents := ents[a := ents[a].(hashNext := table[b])];
      table := table[b := a];
      chains := chains[b := [a] + chains[b]];
    }

    /** Fill in a new entry and put it into both indexes. */
    method AddEntry(f: nat, k: Key, page: nat)
      requires Linked(NULL, NULL) && f != NULL && f !in ents
      modifies this`ents, this`lru, this`head, this`tail, this`chains, this`clock, this`table
      ensures Linked(NULL, NULL) && lru == [f] + old(lru)
      ensures SamePages(old(ents)[f := Entry(Item(k, page, old(clock)), NULL, NULL, NULL)], ents)
      ensures clock == Bump(old(clock))
    {
      NewEntry(ents, table, chains, head, tail, lru, f, Entry(Item(k, page, clock), NULL, NULL, NULL));
      ents := ents[f := Entry(Item(k, page, clock), NULL, NULL, NULL)];
      clock := Bump(clock);
      PushHash(Hash(k), f);
      AddToHead(f);
    }

    /** Take a free frame for the entry of a page, if there is one. */
    method AddPage(k: Key, page: nat) returns (ok: bool)
      requires Valid() && ready && Find(Contents(), k) == |Contents()| && page != NULL && page !in Frames(ents, pool)
      modifies this`ents, this`lru, this`head, this`tail, this`chains, this`total, this`pool, this`clock, this`table
      ensures Valid() && ok == (old(pool) != {}) && clock == if ok then Bump(old(clock)) else old(clock)
      ensures Contents() == if ok then [Item(k, page, old(clock))] + old(Contents()) else old(Contents())
      ensures Frames(ents, pool) == old(Frames(ents, pool)) + if ok then {page} else {}
    {
      if pool == {} { return false; }
      var f :| f in pool;
      ghost var ents0, l0, pool0, e := ents, lru, pool, Entry(Item(k, page, clock), NULL, NULL, NULL);
      pool := pool - {f};
      AddEntry(f, k, page);
      total := total + 1;
      AddFacts(ents0, ents, l0, lru, pool0, f, e);
      ok := true;
    }

    /** page_cache_insert. */
    method InsertPage(k: Key, page: nat) returns (ok: bool)
      requires Valid()
      requires page != NULL && page in Frames(ents, pool) ==> Lookup(Contents(), k) != NULL
      modifies this`ents, this`lru, this`head, this`tail, this`chains, this`total, this`pool, this`clock, this`table
      ensures Valid()
      ensures !ready ==> !ok && Contents() == old(Contents())
      ensures ready ==> (Contents(), ok) == Insert(old(Contents()), max, k, page, old(HasRoom()), old(clock))
      ensures clock ==
        if ready && page != 0 && old(HasRoom()) && forall i | 0 <= i < |old(Contents())| :: old(Contents())[i].key != k
        then (old(clock) + 1) % 0x1_0000_0000_0000_0000 else old(clock)
      ensures Frames(ents, pool) == old(Frames(ents, pool))
        + if ready && Takes(old(Contents()), InsertOp(k, page, old(HasRoom())), page) then {page} else {}
    {
      hide Chained, Filed, Listed;
      ok := false;
      if ready && page != NULL {
        var a, prev, n := Search(k);
        if a != NULL {
          ghost var j := Position(ents, lru, a);
          ok := true;
        } else {
          NoPosition(ents, lru, k);
          ok := InsertNew(k, page);
        }
      }
    }

    /** Whether a frame for a new entry can be found, once a full cache has evicted its last item. */
    ghost predicate HasRoom()
      requires Valid()
      reads this
    {
      pool != {} || (|lru| >= max && lru != [])
    }

    method InsertNew(k: Key, page: nat) returns (ok: bool)
      requires Valid() && ready && Find(Contents(), k) == |Contents()| && page != NULL && page !in Frames(ents, pool)
      modifies this`ents, this`lru, this`head, this`tail, this`chains, this`total, this`pool, this`clock, this`table
      ensures Valid() && ok == old(HasRoom()) && clock == if ok then Bump(old(clock)) else old(clock)
      ensures Contents() ==
        if ok then [Item(k, page, old(clock))] + MakeRoom(old(Contents()), max)
        else MakeRoom(old(Contents()), max)
      ensures Frames(ents, pool) == old(Frames(ents, pool)) + if ok then {page} else {}
    {
      if total >= max {
        FindInPrefix(Contents(), k, |Evict(Contents())|);
        EvictLru();
      }
      ok := AddPage(k, page);
    }
  }

  /** An entry that is in neither index yet. */
  lemma NewEntry(ents: map<nat, Entry>, table: seq<nat>, chains: seq<seq<nat>>, head: nat, tail: nat, l: seq<nat>,
    f: nat, e: Entry)
    requires Chained(ents, table, chains) && Filed(ents, chains, NULL)
    requires Listed(ents, head, tail, l) && Indexed(ents, l, NULL)
    requires NULL !in ents && f !in ents && f != NULL
    ensures Chained(ents[f := e], table, chains) && Filed(ents[f := e], chains, f)
    ensures Listed(ents[f := e], head, tail, l) && Indexed(ents[f := e], l, f)
  {
    var ents' := ents[f := e];
    forall b | 0 <= b < BUCKETS
      ensures ChainOk(ents', table[b], chains[b]) && Bucket(ents', chains[b], b) && f !in chains[b]
    {
      assert ChainOk(ents, table[b], chains[b]) && Bucket(ents, chains[b], b);
      forall i | 0 <= i < |chains[b]| ensures HashNode(ents', chains[b], i) {
        assert HashNode(ents, chains[b], i) && chains[b][i] in chains[b];
      }
    }
    forall i | 0 <= i < |l| ensures ListNode(ents', l, i) { assert ListNode(ents, l, i) && l[i] in l; }
    forall a | a in ents' && a != f ensures a in chains[Hash(ents'[a].item.key)] { assert a in ents; }
  }

  lemma PushFacts(ents: map<nat, Entry>, table: seq<nat>, chains: seq<seq<nat>>, b: nat, a: nat)
    requires Chained(ents, table, chains) && Filed(ents, chains, a) && a in ents
    requires b == Hash(ents[a].item.key) && NULL !in ents
    ensures var ents' := ents[a := ents[a].(hashNext := table[b])];
      && Chained(ents', table[b := a], chains[b := [a] + chains[b]]) && Filed(ents', chains[b := [a] + chains[b]], NULL)
      && SameList(ents, ents')
  {
    var ents', table', chains' :=
      ents[a := ents[a].(hashNext := table[b])], table[b := a], chains[b := [a] + chains[b]];
    forall h | 0 <= h < BUCKETS
      ensures ChainOk(ents', table'[h], chains'[h]) && Bucket(ents', chains'[h], h) && NULL !in chains'[h]
    {
      assert ChainOk(ents, table[h], chains[h]) && Bucket(ents, chains[h], h) && a !in chains[h];
      if h == b {
        forall i | 0 <= i < |chains'[h]| ensures HashNode(ents', chains'[h], i) {
          if i > 0 { assert HashNode(ents, chains[h], i - 1) && chains[h][i - 1] in chains[h]; }
        }
      } else {
        forall i | 0 <= i < |chains[h]| ensures HashNode(ents', chains[h], i) {
          assert HashNode(ents, chains[h], i) && chains[h][i] in chains[h];
        }
      }
    }
    forall x | x in ents' ensures x in chains'[Hash(ents'[x].item.key)] {
      if x == a {
        assert chains'[b][0] == a;
      } else {
        assert x in chains[Hash(ents[x].item.key)];
        InTail(a, chains[b], x);
      }
    }
  }

  lemma InTail(a: nat, c: seq<nat>, x: nat)
    ensures x in c ==> x in [a] + c
  {
  }

  lemma ItemsPush(ents: map<nat, Entry>, ents': map<nat, Entry>, l: seq<nat>, f: nat)
    requires (forall a | a in l :: a in ents) && f in ents' && forall a | a in ents :: a in ents' && ents'[a] == ents[a]
    ensures forall a | a in [f] + l :: a in ents'
    ensures Items(ents', [f] + l) == [ents'[f].item] + Items(ents, l)
  {
  }

  lemma ConsUnique(items: seq<Item>, item: Item)
    requires UniqueKeys(items) && Find(items, item.key) == |items|
    ensures UniqueKeys([item] + items)
  {
  }

  lemma FindInPrefix(items: seq<Item>, k: Key, n: nat)
    requires Find(items, k) == |items| && n <= |items|
    ensures Find(items[..n], k) == n
  {
    assert forall i | 0 <= i < n :: items[..n][i] == items[i];
  }

  lemma NewFrames(ents: map<nat, Entry>, pool: set<nat>, f: nat, e: Entry)
    requires Apart(ents, pool) && f in pool && e.item.page != NULL && e.item.page !in Frames(ents, pool)
    ensures Apart(ents[f := e], pool - {f}) && Frames(ents[f := e], pool - {f}) == Frames(ents, pool) + {e.item.page}
  {
    var ents', pool' := ents[f := e], pool - {f};
    forall a | a in ents' ensures PageApart(ents', pool', a) { if a != f { assert PageApart(ents, pool, a); } }
    assert forall a | a in ents :: ents'[a].item.page in Frames(ents, pool);
    assert forall a | a in ents :: ents[a].item.page == ents'[a].item.page && a in ents';
  }

  lemma AddFacts(ents: map<nat, Entry>, ents': map<nat, Entry>, l: seq<nat>, l': seq<nat>, pool: set<nat>, f: nat,
    e: Entry)
    requires (forall a | a in l :: a in ents) && UniqueKeys(Items(ents, l)) && Find(Items(ents, l), e.item.key) == |l|
    requires Apart(ents, pool) && f in pool && e.item.page != NULL && e.item.page !in Frames(ents, pool)
    requires SamePages(ents[f := e], ents') && l' == [f] + l
    ensures forall a | a in l' :: a in ents'
    ensures Items(ents', l') == [e.item] + Items(ents, l) && UniqueKeys(Items(ents', l'))
    ensures Apart(ents', pool - {f}) && Frames(ents', pool - {f}) == Frames(ents, pool) + {e.item.page}
  {
    NewFrames(ents, pool, f, e);
    ItemsPush(ents, ents[f := e], l, f);
    ConsUnique(Items(ents, l), e.item);
    PagesKept(ents[f := e], ents', l', pool - {f});
  }

  function Pushed(ents: map<nat, Entry>, a: nat, head: nat): map<nat, Entry>
    requires a in ents && (head == NULL || head in ents)
  {
    SetPrev(ents[a := ents[a].(next := head, prev := NULL)], head, a)
  }

  lemma ListPush(ents: map<nat, Entry>, head: nat, tail: nat, l: seq<nat>, a: nat)
    requires Listed(ents, head, tail, l) && Indexed(ents, l, a) && a in ents && NULL !in ents
    requires head == NULL || head in ents
    ensures var ents' := Pushed(ents, a, head);
      && Listed(ents', a, if tail == NULL then a else tail, [a] + l) && Indexed(ents', [a] + l, NULL)
      && SameHash(ents, ents')
  {
    var ents', r := Pushed(ents, a, head), [a] + l;
    assert |l| > 0 ==> l[0] in l && l[|l| - 1] in l;
    forall j | 0 <= j < |r| ensures ListNode(ents', r, j) {
      if j > 0 { assert ListNode(ents, l, j - 1) && l[j - 1] in l; }
    }
  }

  /** The other chains do not notice that an entry leaves chain b. */
  lemma UnlinkKeeps(ents: map<nat, Entry>, ents': map<nat, Entry>, table: seq<nat>, table': seq<nat>,
    chains: seq<seq<nat>>, b: nat, n: nat)
    requires Chained(ents, table, chains) && Filed(ents, chains, NULL) && NULL !in ents
    requires b < BUCKETS && n < |chains[b]|
    requires SameList(ents, ents') && forall a | a in ents && a !in chains[b] :: ents'[a] == ents[a]
    requires |table'| == BUCKETS && forall h | 0 <= h < BUCKETS && h != b :: table'[h] == table[h]
    requires ChainOk(ents', table'[b], Drop(chains[b], n))
    ensures Chained(ents', table', chains[b := Drop(chains[b], n)])
    ensures Filed(ents', chains[b := Drop(chains[b], n)], chains[b][n])
  {
    hide ChainOk, NoDuplicates;
    var a, chains' := chains[b][n], chains[b := Drop(chains[b], n)];
    assert Bucket(ents, chains[b], b) && a in chains[b];
    DropFacts(chains[b], n);
    forall h | 0 <= h < BUCKETS && h != b
      ensures ChainOk(ents', table'[h], chains'[h]) && Bucket(ents', chains'[h], h) && a !in chains'[h]
    {
      assert ChainOk(ents, table[h], chains[h]) && Bucket(ents, chains[h], h);
      OtherChain(ents, ents', table[h], chains[h], chains[b], h, b);
    }
    assert Bucket(ents', chains'[b], b) && a !in chains'[b];
    forall x | x in ents' && x != a
      ensures x in chains'[Hash(ents'[x].item.key)]
    {
      assert x in chains[Hash(ents[x].item.key)];
    }
  }

  lemma OtherChain(ents: map<nat, Entry>, ents': map<nat, Entry>, first: nat, l: seq<nat>, lb: seq<nat>, h: nat, b: nat)
    requires ChainOk(ents, first, l) && Bucket(ents, l, h) && Bucket(ents, lb, b) && h != b
    requires SameList(ents, ents') && forall a | a in ents && a !in lb :: ents'[a] == ents[a]
    ensures ChainOk(ents', first, l) && Bucket(ents', l, h) && forall a | a in lb :: a !in l
  {
    forall i | 0 <= i < |l| ensures HashNode(ents', l, i) {
      assert HashNode(ents, l, i) && l[i] in l;
    }
  }
}
