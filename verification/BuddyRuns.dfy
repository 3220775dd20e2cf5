/** The greedy start state of a zone, and what holds after any run of allocations and frees. */
module BuddyRuns {
  import opened Bits
  import opened Common
  import opened Tiling
  import opened BuddySpec

  // ----- start state -----

  /** The largest order, from o downwards, that fits into the remaining pages and is aligned. */
  function GreedyOrder(cur: nat, remaining: nat, o: nat): (k: nat)
    ensures k <= o
  {
    if o > 0 && (Pow2(o) > remaining || And(cur, Pow2(o) - 1) != 0) then GreedyOrder(cur, remaining, o - 1) else o
  }

  lemma {:induction false} GreedyOrderLargest(cur: nat, remaining: nat, o: nat)
    requires remaining > 0
    ensures var k := GreedyOrder(cur, remaining, o);
      && Pow2(k) <= remaining && Aligned(cur, k)
      && (k < o ==> Pow2(k + 1) > remaining || !Aligned(cur, k + 1))
    decreases o
  {
    AndMask(cur, o);
    if o > 0 && (Pow2(o) > remaining || And(cur, Pow2(o) - 1) != 0) {
      GreedyOrderLargest(cur, remaining, o - 1);
    }
  }

  function Pages(t: Tile): seq<Tile> {
    seq(Pow2(t.order), _ => t)
  }

  function EmptyLists(n: nat): (ls: FreeLists)
    ensures |ls| == n && forall k | 0 <= k < n :: ls[k] == []
  {
    if n == 0 then [] else EmptyLists(n - 1) + [[]]
  }

  const EmptyZone: Zone := Zone([], EmptyLists(MAX_ORDER + 1))

  /** The tiling after placing a block of order o behind the pages of ts. */
  function Append(ts: seq<Tile>, o: nat): seq<Tile> {
    ts + Pages(Tile(|ts|, o, true))
  }

  function PlaceOne(z: Zone, o: nat): Zone
    requires |z.lists| == MAX_ORDER + 1 && o <= MAX_ORDER
  {
    Zone(Append(z.tiles, o), Push(z.lists, o, |z.tiles|))
  }

  /** The greedy loop, continuing after the pages already placed. */
  function Place(z: Zone, n: nat): Zone
    requires |z.lists| == MAX_ORDER + 1
    decreases n - |z.tiles|
  {
    var cur := |z.tiles|;
    if cur >= n then z else
      var o := GreedyOrder(cur, n - cur, MAX_ORDER);
      Place(PlaceOne(z, o), n)
  }

  /** No placed block could have been larger. */
  ghost predicate Greedy(ts: seq<Tile>, n: nat) {
    forall p: nat, o: nat | FreeAt(ts, p, o) && o < MAX_ORDER :: !Aligned(p, o + 1) || p + Pow2(o + 1) > n
  }

  ghost predicate AllFree(ts: seq<Tile>) {
    forall x | 0 <= x < |ts| :: ts[x].free
  }

  lemma {:induction false} CountAllFree(ts: seq<Tile>)
    requires AllFree(ts)
    ensures CountFree(ts) == |ts|
  {
    if ts != [] { CountAllFree(ts[..|ts| - 1]); }
  }

  lemma AppendCoherent(ts: seq<Tile>, o: nat)
    requires Coherent(ts) && Aligned(|ts|, o) && o <= MAX_ORDER
    ensures var us := Append(ts, o);
      && Coherent(us)
      && (forall q: nat, k: nat :: FreeAt(us, q, k) <==> FreeAt(ts, q, k) || (q == |ts| && k == o))
  {
    var t := Tile(|ts|, o, true);
    var us := Append(ts, o);
    forall x | 0 <= x < |us| ensures us[x] == if x < |ts| then ts[x] else t { }
    forall x | 0 <= x < |us| ensures Covers(us[x], x) && Fits(us[x], |us|) { }
    forall x, y | 0 <= x < |us| && 0 <= y < |us| && Covers(us[x], y) ensures us[y] == us[x] {
      if x < |ts| { assert Fits(ts[x], |ts|); }
    }
  }

  lemma AppendCoalesced(ts: seq<Tile>, o: nat, n: nat)
    requires Coherent(ts) && Coalesced(ts) && Greedy(ts, n)
    requires Aligned(|ts|, o) && o <= MAX_ORDER && |ts| + Pow2(o) <= n
    ensures Coalesced(Append(ts, o))
  {
    AppendCoherent(ts, o);
    BuddyShape(|ts|, o);
    OneMoreFree(ts, Append(ts, o), |ts|, o);
  }

  lemma AppendGreedy(ts: seq<Tile>, o: nat, n: nat)
    requires Coherent(ts) && Greedy(ts, n) && |ts| < n && o == GreedyOrder(|ts|, n - |ts|, MAX_ORDER)
    ensures Aligned(|ts|, o) && |ts| + Pow2(o) <= n && Greedy(Append(ts, o), n)
  {
    GreedyOrderLargest(|ts|, n - |ts|, MAX_ORDER);
    AppendCoherent(ts, o);
  }

  lemma PlaceStep(z: Zone, n: nat, o: nat)
    requires Inv(z) && AllFree(z.tiles) && Greedy(z.tiles, n) && |z.tiles| < n
    requires o == GreedyOrder(|z.tiles|, n - |z.tiles|, MAX_ORDER)
    ensures var next := PlaceOne(z, o);
      Inv(next) && AllFree(next.tiles) && Greedy(next.tiles, n) && |next.tiles| == |z.tiles| + Pow2(o) <= n
  {
    var ts := z.tiles;
    AppendGreedy(ts, o, n);
    AppendCoherent(ts, o);
    AppendCoalesced(ts, o, n);
    PushAgrees(z, Append(ts, o), o, |ts|);
    CountAllFree(ts);
    CountAllFree(Append(ts, o));
  }

  lemma {:induction false} PlaceSound(z: Zone, n: nat)
    requires Inv(z) && AllFree(z.tiles) && Greedy(z.tiles, n) && |z.tiles| <= n
    ensures var r := Place(z, n); Inv(r) && AllFree(r.tiles) && |r.tiles| == n
    decreases n - |z.tiles|
  {
    if |z.tiles| < n {
      var o := GreedyOrder(|z.tiles|, n - |z.tiles|, MAX_ORDER);
      PlaceStep(z, n, o);
      PlaceSound(PlaceOne(z, o), n);
    }
  }

  lemma {:induction false} EmptyWeight(n: nat)
    requires n <= MAX_ORDER + 1
    ensures Weight(EmptyZone.lists, n) == 0
  {
    if n > 0 { EmptyWeight(n - 1); }
  }

  /** The zone the greedy loop builds: sound, all n pages free. */
  function InitZone(n: nat): (z: Zone)
    ensures Inv(z) && AllFree(z.tiles) && |z.tiles| == n
  {
    EmptyWeight(MAX_ORDER + 1);
    PlaceSound(EmptyZone, n);
    Place(EmptyZone, n)
  }

  /** The greedy loop hands nothing out and accounts for every page. */
  lemma InitAccounts(n: nat)
    ensures CountFree(InitZone(n).tiles) == n == Weight(InitZone(n).lists, MAX_ORDER + 1)
    ensures Live(InitZone(n).tiles) == {}
  {
    CountAllFree(InitZone(n).tiles);
  }

  // ----- runs -----

  /** A client's request: an allocation, or the free of a live block with its own order. */
  datatype Op = Alloc(order: nat) | Free(start: nat, order: nat)

  predicate Allowed(z: Zone, op: Op) {
    op.Free? ==> UsedAt(z.tiles, op.start, op.order)
  }

  function Apply(z: Zone, op: Op): Zone
    requires |z.lists| == MAX_ORDER + 1
  {
    match op
    case Alloc(order) => AllocPages(z, order).0
    case Free(start, order) => if order > MAX_ORDER then z else MergeUp(z, start, order)
  }

  /** One request keeps the zone sound, and the live blocks change by exactly the one requested. */
  lemma ApplySound(z: Zone, op: Op)
    requires Inv(z) && Allowed(z, op)
    ensures Inv(Apply(z, op)) && |Apply(z, op).tiles| == |z.tiles|
    ensures op.Alloc? && AllocPages(z, op.order).1.None? ==> Live(Apply(z, op).tiles) == Live(z.tiles)
    ensures op.Alloc? && AllocPages(z, op.order).1.Some? ==>
      var t := Tile(AllocPages(z, op.order).1.value, op.order, false);
      t !in Live(z.tiles) && Live(Apply(z, op).tiles) == Live(z.tiles) + {t}
    ensures op.Free? ==>
      var t := Tile(op.start, op.order, false);
      t in Live(z.tiles) && Live(Apply(z, op).tiles) == Live(z.tiles) - {t}
  {
    match op
    case Alloc(order) =>
      AllocSound(z, order);
      var (w, r) := AllocPages(z, order);
      if r.Some? { TakesLive(z.tiles, w.tiles, Tile(r.value, order, false)); }
    case Free(start, order) =>
      assert Fits(z.tiles[start], |z.tiles|);
      FreeSound(z, start, order);
      TakesLive(MergeUp(z, start, order).tiles, z.tiles, Tile(start, order, false));
  }

  ghost predicate Legal(z: Zone, ops: seq<Op>)
    requires Inv(z)
    decreases |ops|
  {
    ops == [] || (Allowed(z, ops[0]) && (ApplySound(z, ops[0]); Legal(Apply(z, ops[0]), ops[1..])))
  }

  ghost function Run(z: Zone, ops: seq<Op>): Zone
    requires Inv(z) && Legal(z, ops)
    decreases |ops|
  {
    if ops == [] then z else
      ApplySound(z, ops[0]);
      Run(Apply(z, ops[0]), ops[1..])
  }

  lemma {:induction false} RunSound(z: Zone, ops: seq<Op>)
    requires Inv(z) && Legal(z, ops)
    ensures Inv(Run(z, ops)) && |Run(z, ops).tiles| == |z.tiles|
    decreases |ops|
  {
    if ops != [] {
      ApplySound(z, ops[0]);
      RunSound(Apply(z, ops[0]), ops[1..]);
    }
  }

  lemma LiveTile(ts: seq<Tile>, us: seq<Tile>, x: nat)
    requires Coherent(ts) && Coherent(us) && |ts| == |us| && Live(ts) <= Live(us)
    requires x < |ts| && !ts[x].free
    ensures us[x] == ts[x]
  {
    assert ts[x] in Live(us);
    var y :| 0 <= y < |us| && us[y] == ts[x];
    assert Covers(us[y], x);
  }

  lemma LiveDeterminesUse(ts: seq<Tile>, us: seq<Tile>)
    requires Coherent(ts) && Coherent(us) && |ts| == |us| && Live(ts) == Live(us)
    ensures SameUse(ts, us)
  {
    forall x | 0 <= x < |ts| ensures ts[x].free == us[x].free {
      if !ts[x].free { LiveTile(ts, us, x); }
      if !us[x].free { LiveTile(us, ts, x); }
    }
  }

  /** The free lists of each order hold the same blocks. */
  ghost predicate SameFreeSets(z: Zone, w: Zone)
    requires |z.lists| == MAX_ORDER + 1 && |w.lists| == MAX_ORDER + 1
  {
    && (forall o: nat, p: nat | o <= MAX_ORDER :: p in z.lists[o] <==> p in w.lists[o])
    && (forall o | 0 <= o <= MAX_ORDER :: |z.lists[o]| == |w.lists[o]|)
  }

  /** After any run the free blocks depend only on the blocks still live, not on the history. */
  lemma HistoryIndependent(n: nat, ops: seq<Op>, ops': seq<Op>)
    requires Legal(InitZone(n), ops) && Legal(InitZone(n), ops')
    requires Live(Run(InitZone(n), ops).tiles) == Live(Run(InitZone(n), ops').tiles)
    ensures Inv(Run(InitZone(n), ops)) && Inv(Run(InitZone(n), ops'))
    ensures SameFreeSets(Run(InitZone(n), ops), Run(InitZone(n), ops'))
  {
    var z, w := Run(InitZone(n), ops), Run(InitZone(n), ops');
    RunSound(InitZone(n), ops);
    RunSound(InitZone(n), ops');
    LiveDeterminesUse(z.tiles, w.tiles);
    SameUseSameLists(z, w);
  }

  /** Once every allocated block has been freed, in whatever sequence, the zone lists the free blocks
      that the greedy loop built and all pages are free. */
  lemma FreedAllRestoresInit(n: nat, ops: seq<Op>)
    requires Legal(InitZone(n), ops)
    requires Live(Run(InitZone(n), ops).tiles) == {}
    ensures Inv(Run(InitZone(n), ops)) && CountFree(Run(InitZone(n), ops).tiles) == n
    ensures SameFreeSets(Run(InitZone(n), ops), InitZone(n))
  {
    InitAccounts(n);
    HistoryIndependent(n, ops, []);
    RunSound(InitZone(n), ops);
    var ts := Run(InitZone(n), ops).tiles;
    LiveDeterminesUse(ts, InitZone(n).tiles);
    CountSame(ts, InitZone(n).tiles);
  }

  /** In any run an allocation fails only when no aligned run of the wanted size is free. */
  lemma NoFalseOutOfMemory(n: nat, ops: seq<Op>, order: nat)
    requires Legal(InitZone(n), ops) && order <= MAX_ORDER
    ensures |Run(InitZone(n), ops).lists| == MAX_ORDER + 1
    ensures AllocPages(Run(InitZone(n), ops), order).1.None? <==>
      forall p: nat :: !FreeRun(Run(InitZone(n), ops).tiles, p, order)
  {
    RunSound(InitZone(n), ops);
    AllocSound(Run(InitZone(n), ops), order);
  }
}
