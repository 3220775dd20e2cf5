/** One buddy zone as a value: what allocating and freeing do to the free lists, and why. */
module BuddySpec {
  import opened Bits
  import opened Common
  import opened Tiling

  type FreeLists = seq<seq<nat>>

  /** The tiling of the zone's pages and the free list of each order, head first. */
  datatype Zone = Zone(tiles: seq<Tile>, lists: FreeLists)

  /** List o holds exactly the starts of the free blocks of order o, each once. */
  ghost predicate Agree(z: Zone) {
    && |z.lists| == MAX_ORDER + 1
    && (forall o | 0 <= o <= MAX_ORDER :: NoDuplicates(z.lists[o]))
    && (forall o: nat, p: nat | o <= MAX_ORDER :: p in z.lists[o] <==> FreeAt(z.tiles, p, o))
  }

  /** Pages held by the lists of the orders below n. */
  function Weight(lists: FreeLists, n: nat): nat
    requires n <= |lists|
  {
    if n == 0 then 0 else Weight(lists, n - 1) + |lists[n - 1]| * Pow2(n - 1)
  }

  ghost predicate Inv(z: Zone) {
    && Coherent(z.tiles)
    && Coalesced(z.tiles)
    && Agree(z)
    && Weight(z.lists, MAX_ORDER + 1) == CountFree(z.tiles)
  }

  // ----- list steps -----

  function Push(lists: FreeLists, o: nat, p: nat): FreeLists
    requires o < |lists|
  {
    lists[o := [p] + lists[o]]
  }

  function Drop(lists: FreeLists, o: nat, p: nat): FreeLists
    requires o < |lists|
  {
    lists[o := Without(lists[o], p)]
  }

  // ----- operations -----

  /** The first order from o upwards whose list is not empty, or one past the last order. */
  function FindOrder(lists: FreeLists, o: nat): (k: nat)
    requires |lists| == MAX_ORDER + 1 && o <= MAX_ORDER + 1
    ensures o <= k <= MAX_ORDER + 1 && (k <= MAX_ORDER ==> lists[k] != [])
    ensures forall j | o <= j < k :: lists[j] == []
    decreases MAX_ORDER + 1 - o
  {
    if o <= MAX_ORDER && lists[o] == [] then FindOrder(lists, o + 1) else o
  }

  /** Take free block (p, o) off its list and into the hand. */
  function Unlist(z: Zone, p: nat, o: nat): Zone
    requires o < |z.lists|
  {
    Zone(Paint(z.tiles, Tile(p, o, false)), Drop(z.lists, o, p))
  }

  /** Put the block in hand on its list. */
  function Enlist(z: Zone, p: nat, o: nat): Zone
    requires o < |z.lists|
  {
    Zone(Paint(z.tiles, Tile(p, o, true)), Push(z.lists, o, p))
  }

  /** Where the union of a block and its buddy starts. */
  function Lower(p: nat, o: nat): nat {
    if BuddyOf(p, o) < p then BuddyOf(p, o) else p
  }

  /** Take the buddy of the block in hand off its list and join the two. */
  function Join(z: Zone, p: nat, o: nat): Zone
    requires o < |z.lists|
  {
    Zone(Paint(z.tiles, Tile(Lower(p, o), o + 1, false)), Drop(z.lists, o, BuddyOf(p, o)))
  }

  /** Halve the block in hand, of order o + 1, and list its upper half. */
  function Halve(z: Zone, p: nat, o: nat): Zone
    requires |z.lists| == MAX_ORDER + 1 && o < MAX_ORDER
  {
    Zone(Split(z.tiles, p, o), Push(z.lists, o, p + Pow2(o)))
  }

  /** Halve the block in hand from order cur down to the wanted one, listing each upper half. */
  function SplitDown(z: Zone, p: nat, cur: nat, order: nat): Zone
    requires |z.lists| == MAX_ORDER + 1 && order <= cur <= MAX_ORDER
    decreases cur
  {
    if cur == order then z else SplitDown(Halve(z, p, cur - 1), p, cur - 1, order)
  }

  function AllocPages(z: Zone, order: nat): (Zone, Option<nat>)
    requires |z.lists| == MAX_ORDER + 1
  {
    if order > MAX_ORDER then (z, None) else
      var cur := FindOrder(z.lists, order);
      if cur > MAX_ORDER then (z, None) else
        var p := z.lists[cur][0];
        (SplitDown(Unlist(z, p, cur), p, cur, order), Some(p))
  }

  /** Join the block in hand with its buddy as long as the buddy is listed, then list the result. */
  function MergeUp(z: Zone, p: nat, cur: nat): Zone
    requires |z.lists| == MAX_ORDER + 1 && cur <= MAX_ORDER
    decreases MAX_ORDER - cur
  {
    if cur < MAX_ORDER && BuddyOf(p, cur) in z.lists[cur] then MergeUp(Join(z, p, cur), Lower(p, cur), cur + 1)
    else Enlist(z, p, cur)
  }

  // ----- effect on pages -----

  /** From ts to us exactly the pages of block t pass from free to used. */
  ghost predicate Takes(ts: seq<Tile>, us: seq<Tile>, t: Tile) {
    && |ts| == |us| && !t.free && Fits(t, |ts|)
    && (forall x | 0 <= x < |ts| && Covers(t, x) :: us[x] == t && ts[x].free)
    && (forall x | 0 <= x < |ts| && !Covers(t, x) :: us[x].free == ts[x].free && (!ts[x].free ==> us[x] == ts[x]))
  }

  lemma TakesLive(ts: seq<Tile>, us: seq<Tile>, t: Tile)
    requires Coherent(ts) && Takes(ts, us, t)
    ensures t !in Live(ts)
    ensures Live(us) == Live(ts) + {t}
  {
    assert Covers(t, t.start) && us[t.start] == t;
    assert t in Live(us);
    forall v | v in Live(us) ensures v in Live(ts) + {t} {
      var x :| 0 <= x < |us| && !us[x].free && us[x] == v;
      if !Covers(t, x) { assert ts[x] == v; }
    }
    forall v | v in Live(ts) ensures v in Live(us) {
      var x :| 0 <= x < |ts| && !ts[x].free && ts[x] == v;
      assert us[x] == v;
    }
  }

  lemma TakesCount(ts: seq<Tile>, us: seq<Tile>, t: Tile)
    requires Takes(ts, us, t)
    ensures CountFree(ts) == CountFree(us) + Pow2(t.order)
  {
    CountChange(ts, us, t.start, Pow2(t.order));
  }

  // ----- free-list bookkeeping -----

  lemma {:induction false} WeightChange(ls: FreeLists, ms: FreeLists, o: nat, n: nat)
    requires |ls| == |ms| && o < |ls| && n <= |ls|
    requires |ms[o]| == |ls[o]| + 1 && forall k | 0 <= k < |ls| && k != o :: ls[k] == ms[k]
    ensures Weight(ms, n) == Weight(ls, n) + (if o < n then Pow2(o) else 0)
  {
    if n > 0 { WeightChange(ls, ms, o, n - 1); }
  }

  /** Listing one more block, or unlisting one, keeps lists and tiling in agreement. */
  lemma PushAgrees(z: Zone, us: seq<Tile>, o: nat, p: nat)
    requires Agree(z) && o <= MAX_ORDER && !FreeAt(z.tiles, p, o)
    requires forall q: nat, k: nat :: FreeAt(us, q, k) <==> FreeAt(z.tiles, q, k) || (q == p && k == o)
    ensures Agree(Zone(us, Push(z.lists, o, p)))
    ensures Weight(Push(z.lists, o, p), MAX_ORDER + 1) == Weight(z.lists, MAX_ORDER + 1) + Pow2(o)
  {
    assert p !in z.lists[o];
    WeightChange(z.lists, Push(z.lists, o, p), o, MAX_ORDER + 1);
  }

  lemma DropAgrees(z: Zone, us: seq<Tile>, o: nat, p: nat)
    requires Agree(z) && o <= MAX_ORDER && FreeAt(z.tiles, p, o)
    requires forall q: nat, k: nat :: FreeAt(us, q, k) <==> FreeAt(z.tiles, q, k) && !(q == p && k == o)
    ensures Agree(Zone(us, Drop(z.lists, o, p)))
    ensures Weight(Drop(z.lists, o, p), MAX_ORDER + 1) + Pow2(o) == Weight(z.lists, MAX_ORDER + 1)
  {
    assert p in z.lists[o];
    WithoutFacts(z.lists[o], p);
    WeightChange(Drop(z.lists, o, p), z.lists, o, MAX_ORDER + 1);
  }

  lemma OneMoreFree(ts: seq<Tile>, us: seq<Tile>, p: nat, o: nat)
    requires Coalesced(ts) && Coherent(us) && FreeAt(us, p, o)
    requires forall q: nat, k: nat :: FreeAt(us, q, k) <==> FreeAt(ts, q, k) || (q == p && k == o)
    requires o < MAX_ORDER ==> !FreeAt(ts, BuddyOf(p, o), o)
    ensures Coalesced(us)
  {
    assert Fits(us[p], |us|);
    BuddyShape(p, o);
    forall q: nat, k: nat | k < MAX_ORDER && FreeAt(us, q, k) ensures !FreeAt(us, BuddyOf(q, k), k) {
      assert Fits(us[q], |us|);
      BuddyShape(q, k);
    }
  }

  // ----- single steps -----

  /** Unlisting a free block to hold it. */
  lemma TakeStep(z: Zone, p: nat, o: nat)
    requires Inv(z) && FreeAt(z.tiles, p, o) && o <= MAX_ORDER
    ensures Inv(Unlist(z, p, o)) && UsedAt(Unlist(z, p, o).tiles, p, o)
    ensures Takes(z.tiles, Unlist(z, p, o).tiles, Tile(p, o, false))
  {
    var t := Tile(p, o, false);
    var us := Paint(z.tiles, t);
    PaintOver(z.tiles, p, o, true, false);
    assert Covers(t, p) && us[p] == t;
    assert Fits(z.tiles[p], |us|);
    forall x | 0 <= x < |us| && Covers(t, x) ensures z.tiles[x].free {
      assert Covers(z.tiles[p], x) && z.tiles[x] == z.tiles[p];
    }
    forall q: nat, k: nat ensures FreeAt(us, q, k) <==> FreeAt(z.tiles, q, k) && !(q == p && k == o) { }
    DropAgrees(z, us, o, p);
    TakesCount(z.tiles, us, t);
  }

  /** Listing the block in hand when its buddy is not free. */
  lemma GiveStep(z: Zone, p: nat, o: nat)
    requires Inv(z) && UsedAt(z.tiles, p, o) && o <= MAX_ORDER
    requires o < MAX_ORDER ==> !FreeAt(z.tiles, BuddyOf(p, o), o)
    ensures Inv(Enlist(z, p, o)) && Takes(Enlist(z, p, o).tiles, z.tiles, Tile(p, o, false))
  {
    var t := Tile(p, o, true);
    var us := Paint(z.tiles, t);
    PaintOver(z.tiles, p, o, false, true);
    assert Covers(t, p) && us[p] == t;
    assert Fits(z.tiles[p], |us|);
    forall x | 0 <= x < |us| && Covers(t, x) ensures z.tiles[x] == Tile(p, o, false) {
      assert Covers(z.tiles[p], x);
    }
    forall q: nat, k: nat ensures FreeAt(us, q, k) <==> FreeAt(z.tiles, q, k) || (q == p && k == o) { }
    PushAgrees(z, us, o, p);
    TakesCount(us, z.tiles, Tile(p, o, false));
    OneMoreFree(z.tiles, us, p, o);
  }

  lemma SplitCount(ts: seq<Tile>, p: nat, o: nat)
    requires Coherent(ts) && UsedAt(ts, p, o + 1)
    ensures CountFree(Split(ts, p, o)) == CountFree(ts) + Pow2(o)
  {
    var us, h := Split(ts, p, o), p + Pow2(o);
    SplitPages(ts, p, o);
    forall x | 0 <= x < |us|
      ensures if h <= x < h + Pow2(o) then us[x].free && !ts[x].free else us[x].free == ts[x].free
    {
      if Covers(ts[p], x) { assert ts[x] == ts[p]; }
    }
    CountChange(us, ts, h, Pow2(o));
  }

  /** Halving the block in hand. */
  lemma SplitStep(z: Zone, p: nat, o: nat)
    requires Inv(z) && UsedAt(z.tiles, p, o + 1) && o < MAX_ORDER
    ensures Inv(Halve(z, p, o)) && UsedAt(Halve(z, p, o).tiles, p, o)
  {
    SplitCoherent(z.tiles, p, o);
    SplitAgrees(z, p, o);
    SplitCoalesced(z.tiles, p, o);
    SplitCount(z.tiles, p, o);
  }

  lemma SplitAgrees(z: Zone, p: nat, o: nat)
    requires Coherent(z.tiles) && Agree(z) && UsedAt(z.tiles, p, o + 1) && o < MAX_ORDER
    ensures Agree(Halve(z, p, o))
    ensures Weight(Halve(z, p, o).lists, MAX_ORDER + 1) == Weight(z.lists, MAX_ORDER + 1) + Pow2(o)
  {
    UpperHalf(z.tiles, p, o);
    SplitCoherent(z.tiles, p, o);
    PushAgrees(z, Split(z.tiles, p, o), o, p + Pow2(o));
  }

  lemma SplitCoalesced(ts: seq<Tile>, p: nat, o: nat)
    requires Coherent(ts) && Coalesced(ts) && UsedAt(ts, p, o + 1)
    ensures Coalesced(Split(ts, p, o))
  {
    hide Covers;
    UpperHalf(ts, p, o);
    SplitCoherent(ts, p, o);
    OneMoreFree(ts, Split(ts, p, o), p + Pow2(o), o);
  }

  lemma UpperHalf(ts: seq<Tile>, p: nat, o: nat)
    requires Coherent(ts) && UsedAt(ts, p, o + 1)
    ensures BuddyOf(p + Pow2(o), o) == p && !FreeAt(ts, p + Pow2(o), o) && !FreeAt(ts, p, o)
  {
    assert Fits(ts[p], |ts|) && Covers(ts[p], p + Pow2(o));
    AlignedHalves(p, o);
    BuddyShape(p + Pow2(o), o);
  }

  /** Joining the block in hand with its free buddy. */
  lemma MergeStep(z: Zone, p: nat, o: nat)
    requires Inv(z) && UsedAt(z.tiles, p, o) && o < MAX_ORDER && FreeAt(z.tiles, BuddyOf(p, o), o)
    ensures Inv(Join(z, p, o)) && UsedAt(Join(z, p, o).tiles, Lower(p, o), o + 1)
  {
    var b, us := BuddyOf(p, o), Join(z, p, o).tiles;
    MergeCoherent(z.tiles, p, o, b, Lower(p, o));
    forall q: nat, k: nat ensures FreeAt(us, q, k) <==> FreeAt(z.tiles, q, k) && !(q == b && k == o) { }
    DropAgrees(z, us, o, b);
    MergeCount(z.tiles, us, p, o, b);
  }

  lemma MergeCount(ts: seq<Tile>, us: seq<Tile>, p: nat, o: nat, b: nat)
    requires Coherent(ts) && UsedAt(ts, p, o) && o < MAX_ORDER && b == BuddyOf(p, o) && FreeAt(ts, b, o)
    requires us == Paint(ts, Tile(Lower(p, o), o + 1, false))
    ensures CountFree(ts) == CountFree(us) + Pow2(o)
  {
    MergePages(ts, p, o, b, Lower(p, o));
    assert Fits(ts[b], |ts|);
    forall x | 0 <= x < |us|
      ensures if b <= x < b + Pow2(o) then ts[x].free && !us[x].free else ts[x].free == us[x].free
    {
      if Covers(ts[b], x) { assert ts[x] == ts[b]; }
      else if Covers(ts[p], x) { assert ts[x] == ts[p]; }
    }
    CountChange(ts, us, b, Pow2(o));
  }

  // ----- whole operations -----

  /** Halving keeps the zone sound and hands out exactly the wanted block, nothing else. */
  lemma {:induction false} SplitDownSound(z0: Zone, z: Zone, p: nat, cur: nat, order: nat)
    requires Inv(z) && order <= cur <= MAX_ORDER && UsedAt(z.tiles, p, cur)
    requires Takes(z0.tiles, z.tiles, Tile(p, cur, false))
    ensures var r := SplitDown(z, p, cur, order);
      Inv(r) && Takes(z0.tiles, r.tiles, Tile(p, order, false))
    decreases cur
  {
    if cur > order {
      SplitStep(z, p, cur - 1);
      SplitTakes(z0.tiles, z.tiles, p, cur - 1);
      SplitDownSound(z0, Halve(z, p, cur - 1), p, cur - 1, order);
    }
  }

  lemma SplitTakes(ts: seq<Tile>, us: seq<Tile>, p: nat, o: nat)
    requires Coherent(us) && UsedAt(us, p, o + 1) && Takes(ts, us, Tile(p, o + 1, false))
    ensures Takes(ts, Split(us, p, o), Tile(p, o, false))
  {
    SplitPages(us, p, o);
    var t := Tile(p, o, false);
    forall x | 0 <= x < |us| && Covers(t, x) ensures Split(us, p, o)[x] == t && ts[x].free {
      assert Covers(us[p], x);
    }
    forall x | 0 <= x < |us| && !Covers(t, x)
      ensures Split(us, p, o)[x].free == ts[x].free && (!ts[x].free ==> Split(us, p, o)[x] == ts[x])
    {
      if Covers(us[p], x) { assert Covers(Tile(p + Pow2(o), o, true), x); }
    }
  }

  /** Allocation. It keeps the zone sound; it fails, changing nothing, exactly when no aligned run of
      2^order free pages is left; otherwise it gives the head of the first sufficient list and the
      pages of that one block, all free before, are the only ones whose use changes. */
  lemma AllocSound(z: Zone, order: nat)
    requires Inv(z)
    ensures Inv(AllocPages(z, order).0)
    ensures AllocPages(z, order).1.None? <==> order > MAX_ORDER || !exists p: nat :: FreeRun(z.tiles, p, order)
    ensures AllocPages(z, order).1.None? ==> AllocPages(z, order).0 == z
    ensures AllocPages(z, order).1.Some? ==>
      Takes(z.tiles, AllocPages(z, order).0.tiles, Tile(AllocPages(z, order).1.value, order, false))
  {
    if order <= MAX_ORDER {
      RunIffBlock(z.tiles, order);
      var cur := FindOrder(z.lists, order);
      if cur <= MAX_ORDER {
        var p := z.lists[cur][0];
        assert p in z.lists[cur];
        assert FreeAt(z.tiles, p, cur);
        TakeStep(z, p, cur);
        SplitDownSound(z, Unlist(z, p, cur), p, cur, order);
      } else {
        forall q: nat, k: nat | order <= k <= MAX_ORDER ensures !FreeAt(z.tiles, q, k) {
          assert z.lists[k] == [];
        }
      }
    }
  }

  /** The block in hand, at (p, cur), has absorbed the freed block t and otherwise only free pages. */
  ghost predicate Absorbing(ts: seq<Tile>, us: seq<Tile>, t: Tile, p: nat, cur: nat) {
    && |ts| == |us| && !t.free && Fits(t, |ts|) && UsedAt(us, p, cur)
    && (forall x | 0 <= x < |ts| && Covers(t, x) :: ts[x] == t && Covers(us[p], x))
    && (forall x | 0 <= x < |ts| && !Covers(t, x) && Covers(us[p], x) :: ts[x].free)
    && (forall x | 0 <= x < |ts| && !Covers(us[p], x) :: us[x].free == ts[x].free && (!ts[x].free ==> us[x] == ts[x]))
  }

  /** Merging keeps the zone sound and returns exactly the freed block's pages. */
  lemma {:induction false} MergeUpSound(z0: Zone, z: Zone, t: Tile, p: nat, cur: nat)
    requires Inv(z) && cur <= MAX_ORDER && Absorbing(z0.tiles, z.tiles, t, p, cur)
    ensures Inv(MergeUp(z, p, cur)) && Takes(MergeUp(z, p, cur).tiles, z0.tiles, t)
    decreases MAX_ORDER - cur
  {
    if cur < MAX_ORDER && BuddyOf(p, cur) in z.lists[cur] {
      assert FreeAt(z.tiles, BuddyOf(p, cur), cur);
      MergeStep(z, p, cur);
      MergeAbsorbs(z0.tiles, z.tiles, t, p, cur);
      var next := Join(z, p, cur);
      MergeUpSound(z0, next, t, Lower(p, cur), cur + 1);
      assert MergeUp(z, p, cur) == MergeUp(next, Lower(p, cur), cur + 1);
    } else {
      GiveStep(z, p, cur);
      EnlistReturns(z0.tiles, z.tiles, t, p, cur);
      assert MergeUp(z, p, cur) == Enlist(z, p, cur);
    }
  }

  lemma MergeAbsorbs(ts: seq<Tile>, us: seq<Tile>, t: Tile, p: nat, o: nat)
    requires Coherent(us) && o < MAX_ORDER && Absorbing(ts, us, t, p, o) && FreeAt(us, BuddyOf(p, o), o)
    ensures Absorbing(ts, Paint(us, Tile(Lower(p, o), o + 1, false)), t, Lower(p, o), o + 1)
  {
    var b := BuddyOf(p, o);
    MergePages(us, p, o, b, Lower(p, o));
    MergeCoherent(us, p, o, b, Lower(p, o));
    forall x | 0 <= x < |ts| && Covers(us[b], x) ensures us[x] == us[b] { }
  }

  lemma EnlistReturns(ts: seq<Tile>, us: seq<Tile>, t: Tile, p: nat, o: nat)
    requires Coherent(us) && Absorbing(ts, us, t, p, o)
    ensures Takes(Paint(us, Tile(p, o, true)), ts, t)
  {
    forall x | 0 <= x < |us| ensures Covers(Tile(p, o, true), x) <==> Covers(us[p], x) { }
  }

  /** Freeing a live block keeps the zone sound and returns exactly that block's pages. */
  lemma FreeSound(z: Zone, p: nat, order: nat)
    requires Inv(z) && UsedAt(z.tiles, p, order)
    ensures order <= MAX_ORDER
    ensures Inv(MergeUp(z, p, order)) && Takes(MergeUp(z, p, order).tiles, z.tiles, Tile(p, order, false))
  {
    assert Fits(z.tiles[p], |z.tiles|);
    assert forall x | 0 <= x < |z.tiles| && Covers(z.tiles[p], x) :: z.tiles[x] == z.tiles[p];
    MergeUpSound(z, z, Tile(p, order, false), p, order);
  }

  /** Two sound zones with the same pages in use list the same free blocks, order by order. */
  lemma SameUseSameLists(z: Zone, w: Zone)
    requires Inv(z) && Inv(w) && SameUse(z.tiles, w.tiles)
    ensures forall o: nat, p: nat | o <= MAX_ORDER :: p in z.lists[o] <==> p in w.lists[o]
    ensures forall o | 0 <= o <= MAX_ORDER :: |z.lists[o]| == |w.lists[o]|
  {
    Canonical(z.tiles, w.tiles);
    forall o: nat | o <= MAX_ORDER ensures |z.lists[o]| == |w.lists[o]| {
      SameElementsSameLength(z.lists[o], w.lists[o]);
    }
  }

  lemma {:induction false} SameElementsSameLength(s: seq<nat>, t: seq<nat>)
    requires NoDuplicates(s) && NoDuplicates(t) && forall q: nat :: q in s <==> q in t
    ensures |s| == |t|
  {
    if s != [] || t != [] {
      var q := if s != [] then s[0] else t[0];
      assert q in s && q in t;
      WithoutFacts(s, q);
      WithoutFacts(t, q);
      SameElementsSameLength(Without(s, q), Without(t, q));
    }
  }

  lemma TakesDetermines(ts: seq<Tile>, ts': seq<Tile>, us: seq<Tile>, t: Tile)
    requires Takes(ts, us, t) && Takes(ts', us, t)
    ensures SameUse(ts', ts)
  {
  }

  lemma FreeUndoesTake(z: Zone, w: Zone, p: nat, order: nat)
    requires Inv(z) && Inv(w) && Takes(z.tiles, w.tiles, Tile(p, order, false))
    ensures order <= MAX_ORDER && |MergeUp(w, p, order).lists| == MAX_ORDER + 1
    ensures forall o: nat, q: nat | o <= MAX_ORDER :: q in MergeUp(w, p, order).lists[o] <==> q in z.lists[o]
  {
    var t := Tile(p, order, false);
    assert Covers(t, p) && w.tiles[p] == t;
    FreeSound(w, p, order);
    var r := MergeUp(w, p, order);
    TakesDetermines(z.tiles, r.tiles, w.tiles, t);
    SameUseSameLists(r, z);
  }

  /** Freeing what was just allocated brings back the same free lists, order by order. */
  lemma FreeUndoesAlloc(z: Zone, order: nat)
    requires Inv(z) && AllocPages(z, order).1.Some?
    ensures var (w, r) := AllocPages(z, order);
      && order <= MAX_ORDER && |w.lists| == MAX_ORDER + 1 && |MergeUp(w, r.value, order).lists| == MAX_ORDER + 1
      && forall o: nat, p: nat | o <= MAX_ORDER :: p in MergeUp(w, r.value, order).lists[o] <==> p in z.lists[o]
  {
    AllocSound(z, order);
    var (w, r) := AllocPages(z, order);
    FreeUndoesTake(z, w, r.value, order);
  }

  // ----- which block, and the lists afterwards -----

  /** One block joined the list of an order, at its head. */
  ghost predicate Gained(before: FreeLists, after: FreeLists, o: nat, p: nat)
    requires o < |before| && o < |after|
  {
    after[o] == [p] + before[o]
  }

  /** One block left the list of an order. */
  ghost predicate Lost(before: FreeLists, after: FreeLists, o: nat)
    requires o < |before| && o < |after|
  {
    exists b: nat :: b in before[o] && after[o] == Without(before[o], b)
  }

  ghost predicate Same(before: FreeLists, after: FreeLists, o: nat)
    requires o < |before| && o < |after|
  {
    after[o] == before[o]
  }

  lemma Later(a: FreeLists, b: FreeLists, c: FreeLists, o: nat, p: nat)
    requires o < |a| && o < |b| && o < |c|
    ensures Same(a, b, o) && Gained(b, c, o, p) ==> Gained(a, c, o, p)
    ensures Gained(a, b, o, p) && Same(b, c, o) ==> Gained(a, c, o, p)
    ensures Same(a, b, o) && Same(b, c, o) ==> Same(a, c, o)
  {
  }

  lemma Unchanged(ls: FreeLists)
    ensures forall j: nat | j < |ls| :: Same(ls, ls, j)
  {
  }

  lemma HalveLists(z: Zone, p: nat, o: nat)
    requires |z.lists| == MAX_ORDER + 1 && o < MAX_ORDER
    ensures var ls := Halve(z, p, o).lists;
      && |ls| == MAX_ORDER + 1 && Gained(z.lists, ls, o, p + Pow2(o))
      && forall j: nat | j <= MAX_ORDER && j != o :: Same(z.lists, ls, j)
  {
  }

  lemma {:induction false} SplitDownLists(z: Zone, p: nat, cur: nat, order: nat)
    requires |z.lists| == MAX_ORDER + 1 && order <= cur <= MAX_ORDER
    ensures var ls := SplitDown(z, p, cur, order).lists;
      && |ls| == MAX_ORDER + 1
      && (forall j: nat | order <= j < cur :: Gained(z.lists, ls, j, p + Pow2(j)))
      && (forall j: nat | j < order || cur <= j <= MAX_ORDER :: Same(z.lists, ls, j))
    decreases cur
  {
    hide Halve, Gained, Same, Pow2;
    if cur == order {
      Unchanged(z.lists);
    } else {
      var z1 := Halve(z, p, cur - 1);
      HalveLists(z, p, cur - 1);
      SplitDownLists(z1, p, cur - 1, order);
      var ls := SplitDown(z, p, cur, order).lists;
      assert ls == SplitDown(z1, p, cur - 1, order).lists;
      forall j: nat | j <= MAX_ORDER
        ensures order <= j < cur ==> Gained(z.lists, ls, j, p + Pow2(j))
        ensures j < order || cur <= j ==> Same(z.lists, ls, j)
      {
        Later(z.lists, z1.lists, ls, j, p + Pow2(j));
      }
    }
  }

  lemma HeadUnlisted(z: Zone, k: nat)
    requires |z.lists| == MAX_ORDER + 1 && k <= MAX_ORDER && |z.lists[k]| > 0
    ensures var ls := Unlist(z, z.lists[k][0], k).lists;
      && |ls| == MAX_ORDER + 1 && ls[k] == z.lists[k][1..]
      && forall j: nat | j <= MAX_ORDER && j != k :: Same(z.lists, ls, j)
  {
  }

  /** The block handed out is the head of the first list that is not empty. That list loses its head, and every
      order below it down to the wanted one lists the upper half that was split off there. */
  lemma AllocTakesHead(z: Zone, order: nat) returns (k: nat)
    requires |z.lists| == 11 && order <= 10
    ensures order <= k <= 11 && (forall j: nat | order <= j < k :: |z.lists[j]| == 0) && (k <= 10 ==> |z.lists[k]| > 0)
    ensures AllocPages(z, order).1 == if k == 11 then None else Some(z.lists[k][0])
    ensures var ls := AllocPages(z, order).0.lists;
      k <= 10 ==>
        && |ls| == 11 && ls[k] == z.lists[k][1..]
        && (forall j: nat | order <= j < k :: Gained(z.lists, ls, j, z.lists[k][0] + Pow2(j)))
        && (forall j: nat | j < order || k < j <= 10 :: Same(z.lists, ls, j))
  {
    k := FindOrder(z.lists, order);
    if k <= MAX_ORDER { HeadSplit(z, order, k); }
    hide SplitDown, Unlist, Gained, Same, Pow2;
  }

  lemma HeadSplit(z: Zone, order: nat, k: nat)
    requires |z.lists| == MAX_ORDER + 1 && order <= k <= MAX_ORDER && |z.lists[k]| > 0
    ensures var p := z.lists[k][0];
      var ls := SplitDown(Unlist(z, p, k), p, k, order).lists;
      && |ls| == MAX_ORDER + 1 && ls[k] == z.lists[k][1..]
      && (forall j: nat | order <= j < k :: Gained(z.lists, ls, j, p + Pow2(j)))
      && (forall j: nat | j < order || k < j <= MAX_ORDER :: Same(z.lists, ls, j))
  {
    hide SplitDown, Unlist, Gained, Pow2;
    var p := z.lists[k][0];
    var z1 := Unlist(z, p, k);
    HeadUnlisted(z, k);
    SplitDownLists(z1, p, k, order);
    var ls := SplitDown(z1, p, k, order).lists;
    assert Same(z1.lists, ls, k);
    forall j: nat | j <= MAX_ORDER && j != k
      ensures order <= j < k ==> Gained(z.lists, ls, j, p + Pow2(j))
      ensures j < order || k < j ==> Same(z.lists, ls, j)
    {
      Later(z.lists, z1.lists, ls, j, p + Pow2(j));
    }
  }

  /** The freed block, joined with its buddies, is at the head of the list of order k, whose buddy is not
      listed; the lists of the orders below lost the buddy that was absorbed there. */
  lemma {:induction false} FreeListsHead(z: Zone, p: nat, order: nat) returns (k: nat, q: nat)
    requires |z.lists| == 11 && order <= 10
    ensures order <= k <= 10 && |MergeUp(z, p, order).lists| == 11
    ensures var ls := MergeUp(z, p, order).lists;
      && Gained(z.lists, ls, k, q)
      && (forall j: nat | order <= j < k :: Lost(z.lists, ls, j))
      && (forall j: nat | j < order || k < j <= 10 :: Same(z.lists, ls, j))
    ensures k < 10 ==> BuddyOf(q, k) !in z.lists[k]
    decreases 10 - order
  {
    if order < MAX_ORDER && BuddyOf(p, order) in z.lists[order] {
      var z1 := Join(z, p, order);
      assert Lost(z.lists, z1.lists, order);
      assert forall j: nat | j <= MAX_ORDER && j != order :: Same(z.lists, z1.lists, j);
      k, q := FreeListsHead(z1, Lower(p, order), order + 1);
      var ls := MergeUp(z1, Lower(p, order), order + 1).lists;
      assert MergeUp(z, p, order).lists == ls;
      hide Join, MergeUp;
      assert Same(z1.lists, ls, order);
      assert Same(z.lists, z1.lists, k);
      forall j: nat | order < j < k ensures Lost(z.lists, ls, j) {
        assert Same(z.lists, z1.lists, j) && Lost(z1.lists, ls, j);
      }
      forall j: nat | j < order || k < j <= MAX_ORDER ensures Same(z.lists, ls, j) {
        assert Same(z.lists, z1.lists, j) && Same(z1.lists, ls, j);
      }
    } else {
      k, q := order, p;
      assert Gained(z.lists, MergeUp(z, p, order).lists, order, p);
      assert forall j: nat | j <= MAX_ORDER && j != order :: Same(z.lists, MergeUp(z, p, order).lists, j);
    }
  }
}
