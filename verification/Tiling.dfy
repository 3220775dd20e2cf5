/** Tilings of a page range by aligned power-of-two blocks: the abstract state of one buddy zone.
    A tiling records for every page the block that holds it, so two blocks can never overlap and no
    page can be without a block; what has to be proved is that each recorded block is whole. */
module Tiling {
  import opened Bits

  const MAX_ORDER: nat := 10

  datatype Tile = Tile(start: nat, order: nat, free: bool)

  predicate Covers(t: Tile, x: int) {
    t.start <= x < t.start + Pow2(t.order)
  }

  predicate Fits(t: Tile, n: nat) {
    t.order <= MAX_ORDER && Aligned(t.start, t.order) && t.start + Pow2(t.order) <= n
  }

  /** Every page lies in an aligned block inside the range, and all pages of a block agree on it. */
  ghost predicate Coherent(ts: seq<Tile>) {
    && (forall x | 0 <= x < |ts| :: Covers(ts[x], x) && Fits(ts[x], |ts|))
    && (forall x, y | 0 <= x < |ts| && 0 <= y < |ts| && Covers(ts[x], y) :: ts[y] == ts[x])
  }

  predicate FreeAt(ts: seq<Tile>, p: nat, order: nat) {
    p < |ts| && ts[p] == Tile(p, order, true)
  }

  predicate UsedAt(ts: seq<Tile>, p: nat, order: nat) {
    p < |ts| && ts[p] == Tile(p, order, false)
  }

  function BuddyOf(p: nat, order: nat): nat {
    Xor(p, Pow2(order))
  }

  /** No two buddies of the same order below the maximum are both free. */
  ghost predicate Coalesced(ts: seq<Tile>) {
    forall p: nat, o: nat | o < MAX_ORDER && FreeAt(ts, p, o) :: !FreeAt(ts, BuddyOf(p, o), o)
  }

  /** The blocks handed out and not yet freed. */
  ghost function Live(ts: seq<Tile>): set<Tile> {
    set x | 0 <= x < |ts| && !ts[x].free :: ts[x]
  }

  /** Pages p .. p + 2^order are an aligned run inside the range with no page in use. */
  ghost predicate FreeRun(ts: seq<Tile>, p: nat, order: nat) {
    && Aligned(p, order) && p + Pow2(order) <= |ts|
    && forall x | p <= x < p + Pow2(order) :: ts[x].free
  }

  /** The same pages are in use in both tilings. */
  ghost predicate SameUse(ts: seq<Tile>, us: seq<Tile>) {
    |ts| == |us| && forall x | 0 <= x < |ts| :: ts[x].free == us[x].free
  }

  function CountFree(ts: seq<Tile>): nat {
    if ts == [] then 0 else CountFree(ts[..|ts| - 1]) + (if ts[|ts| - 1].free then 1 else 0)
  }

  // ----- the three ways the allocator changes a tiling -----

  /** All pages of t now belong to t. */
  function Paint(ts: seq<Tile>, t: Tile): (us: seq<Tile>)
    ensures |us| == |ts|
    ensures forall x | 0 <= x < |ts| :: us[x] == if Covers(t, x) then t else ts[x]
  {
    seq(|ts|, x requires 0 <= x < |ts| => if Covers(t, x) then t else ts[x])
  }

  /** The used block (p, order + 1) becomes a used lower and a free upper half. */
  function Split(ts: seq<Tile>, p: nat, order: nat): seq<Tile> {
    Paint(Paint(ts, Tile(p, order, false)), Tile(p + Pow2(order), order, true))
  }

  // ----- geometry -----

  lemma BuddyShape(p: nat, o: nat)
    requires Aligned(p, o)
    ensures Aligned(BuddyOf(p, o), o) && BuddyOf(p, o) != p && BuddyOf(BuddyOf(p, o), o) == p
    ensures Aligned(p, o + 1) ==> BuddyOf(p, o) == p + Pow2(o) && !Aligned(p + Pow2(o), o + 1)
    ensures !Aligned(p, o + 1) ==> p >= Pow2(o) && BuddyOf(p, o) == p - Pow2(o) && Aligned(p - Pow2(o), o + 1)
  {
    XorPow2(p, o);
    if Aligned(p, o + 1) {
      AlignedHalves(p, o);
      XorPow2(p + Pow2(o), o);
    } else {
      AlignedUpper(p, o);
      AlignedHalves(p - Pow2(o), o);
      XorPow2(p - Pow2(o), o);
    }
  }

  /** The block holding the start of an aligned position of its own order starts there. */
  lemma TileStart(ts: seq<Tile>, p: nat, o: nat)
    requires Coherent(ts) && p < |ts| && Aligned(p, o)
    ensures ts[p].order == o ==> ts[p].start == p
    ensures ts[p].order < o ==> ts[p].start == p
    ensures ts[p].order >= o ==> forall x | p <= x < p + Pow2(o) :: x < |ts| && ts[x] == ts[p]
  {
    var t := ts[p];
    assert Covers(t, p) && Fits(t, |ts|);
    if t.order <= o {
      Overlap(t.start, t.order, p, o, p);
    }
    if t.order >= o {
      Overlap(p, o, t.start, t.order, p);
      forall x | p <= x < p + Pow2(o) ensures x < |ts| && ts[x] == t {
        assert Covers(t, x);
      }
    }
  }

  /** In a coalesced tiling a free aligned run always lies inside one free block. */
  lemma {:induction false} RunInOneBlock(ts: seq<Tile>, p: nat, o: nat)
    requires Coherent(ts) && Coalesced(ts) && o <= MAX_ORDER && FreeRun(ts, p, o)
    ensures p < |ts| && ts[p].free && ts[p].order >= o
    decreases o
  {
    if o > 0 {
      var h := Pow2(o - 1);
      AlignedHalves(p, o - 1);
      RunInOneBlock(ts, p, o - 1);
      RunInOneBlock(ts, p + h, o - 1);
      if ts[p].order == o - 1 {
        TileStart(ts, p, o - 1);
        if ts[p + h].order >= o {
          var t := ts[p + h];
          assert Covers(t, p + h) && Fits(t, |ts|);
          Overlap(p, o, t.start, t.order, p + h);
          assert Covers(t, p);
        } else {
          TileStart(ts, p + h, o - 1);
          BuddyShape(p, o - 1);
          assert FreeAt(ts, p, o - 1) && FreeAt(ts, BuddyOf(p, o - 1), o - 1);
        }
        assert false;
      }
    }
  }

  /** A run of free pages exists for an order exactly when a free block of at least that order does. */
  lemma RunIffBlock(ts: seq<Tile>, o: nat)
    requires Coherent(ts) && Coalesced(ts) && o <= MAX_ORDER
    ensures (exists p: nat :: FreeRun(ts, p, o)) <==> (exists q: nat, k: nat :: o <= k <= MAX_ORDER && FreeAt(ts, q, k))
  {
    if p: nat :| FreeRun(ts, p, o) {
      RunInOneBlock(ts, p, o);
      var t := ts[p];
      assert Covers(t, p) && Covers(t, t.start);
      assert FreeAt(ts, t.start, t.order);
    }
    if q: nat, k: nat :| o <= k <= MAX_ORDER && FreeAt(ts, q, k) {
      Pow2Mono(o, k);
      AlignedLess(q, o, k);
      forall x | q <= x < q + Pow2(o) ensures ts[x].free {
        assert Covers(ts[q], x);
      }
      assert FreeRun(ts, q, o);
    }
  }

  lemma {:induction false} AlignedLess(p: nat, n: nat, m: nat)
    requires n <= m && Aligned(p, m)
    ensures Aligned(p, n)
  {
    if n > 0 { AlignedLess(p / 2, n - 1, m - 1); }
  }

  /** Two coalesced tilings with the same pages in use have the same free blocks: the free set
      depends on what is allocated and on nothing else. */
  lemma Canonical(ts: seq<Tile>, us: seq<Tile>)
    requires Coherent(ts) && Coalesced(ts) && Coherent(us) && Coalesced(us) && SameUse(ts, us)
    ensures forall p: nat, o: nat :: FreeAt(ts, p, o) <==> FreeAt(us, p, o)
  {
    forall p: nat, o: nat ensures FreeAt(ts, p, o) <==> FreeAt(us, p, o) {
      if FreeAt(ts, p, o) { SameBlock(ts, us, p, o); }
      if FreeAt(us, p, o) { SameBlock(us, ts, p, o); }
    }
  }

  lemma SameBlock(ts: seq<Tile>, us: seq<Tile>, p: nat, o: nat)
    requires Coherent(ts) && Coalesced(ts) && Coherent(us) && Coalesced(us) && SameUse(ts, us)
    requires FreeAt(ts, p, o)
    ensures FreeAt(us, p, o)
  {
    TileIsRun(ts, p);
    assert FreeRun(us, p, o);
    RunInOneBlock(us, p, o);
    var q, k := us[p].start, us[p].order;
    assert Covers(us[p], p) && Covers(us[p], q) && us[q] == us[p];
    TileIsRun(us, q);
    assert FreeRun(ts, q, k);
    RunInOneBlock(ts, q, k);
    Pow2Mono(o, k);
    TileStart(ts, q, k);
    assert ts[p] == ts[q];
    TileStart(us, p, o);
  }

  lemma TileIsRun(ts: seq<Tile>, p: nat)
    requires Coherent(ts) && p < |ts| && FreeAt(ts, p, ts[p].order)
    ensures FreeRun(ts, p, ts[p].order)
  {
    forall x | p <= x < p + Pow2(ts[p].order) ensures x < |ts| && ts[x].free {
      assert Fits(ts[p], |ts|) && Covers(ts[p], x);
    }
  }

  // ----- what the operations keep -----

  /** Rearranging the pages of one region that consists of whole blocks keeps a tiling coherent. */
  lemma Rearranged(ts: seq<Tile>, us: seq<Tile>, region: Tile)
    requires Coherent(ts) && |us| == |ts|
    requires forall x | 0 <= x < |ts| && Covers(region, x) ::
      Covers(us[x], x) && Fits(us[x], |ts|) && forall y | Covers(us[x], y) :: 0 <= y < |us| && us[y] == us[x]
    requires forall x | 0 <= x < |ts| && !Covers(region, x) ::
      us[x] == ts[x] && forall y | Covers(ts[x], y) :: !Covers(region, y)
    ensures Coherent(us)
  {
    forall x, y | 0 <= x < |us| && 0 <= y < |us| && Covers(us[x], y) ensures us[y] == us[x] {
      if !Covers(region, x) { assert ts[y] == ts[x]; }
    }
  }

  /** No block outside a region of whole blocks reaches into it. */
  lemma Outside(ts: seq<Tile>, region: Tile, x: nat)
    requires Coherent(ts) && x < |ts| && !Covers(region, x)
    requires forall y | Covers(region, y) :: 0 <= y < |ts| && forall z | Covers(ts[y], z) :: Covers(region, z)
    ensures forall y | Covers(ts[x], y) :: !Covers(region, y)
  {
    forall y | Covers(ts[x], y) ensures !Covers(region, y) {
      assert Fits(ts[x], |ts|);
      if Covers(region, y) { assert false; }
    }
  }

  /** A used block may change to free and back without disturbing the tiling. */
  lemma PaintOver(ts: seq<Tile>, p: nat, o: nat, was: bool, now: bool)
    requires Coherent(ts) && p < |ts| && ts[p] == Tile(p, o, was)
    ensures Coherent(Paint(ts, Tile(p, o, now)))
    ensures forall q: nat, k: nat :: q != p ==>
      (FreeAt(Paint(ts, Tile(p, o, now)), q, k) <==> FreeAt(ts, q, k))
  {
    var t := Tile(p, o, now);
    var us := Paint(ts, t);
    assert Fits(ts[p], |ts|);
    forall x | 0 <= x < |ts| && !Covers(t, x) ensures forall y | Covers(ts[x], y) :: !Covers(t, y) {
      Outside(ts, t, x);
    }
    Rearranged(ts, us, t);
    forall q: nat, k: nat | q != p ensures FreeAt(us, q, k) <==> FreeAt(ts, q, k) {
      if q < |ts| && Covers(ts[p], q) { assert ts[q] == ts[p]; }
    }
  }

  lemma SplitPages(ts: seq<Tile>, p: nat, o: nat)
    requires Coherent(ts) && UsedAt(ts, p, o + 1)
    ensures Fits(Tile(p, o, false), |ts|) && Fits(Tile(p + Pow2(o), o, true), |ts|)
    ensures Split(ts, p, o)[p] == Tile(p, o, false) && FreeAt(Split(ts, p, o), p + Pow2(o), o)
    ensures forall x | 0 <= x < |ts| ::
      && (Covers(Tile(p + Pow2(o), o, true), x) ==> Split(ts, p, o)[x] == Tile(p + Pow2(o), o, true))
      && (Covers(Tile(p, o, false), x) ==> Split(ts, p, o)[x] == Tile(p, o, false))
      && (!Covers(ts[p], x) ==> Split(ts, p, o)[x] == ts[x])
  {
    assert Fits(ts[p], |ts|);
    AlignedHalves(p, o);
  }

  lemma SplitCoherent(ts: seq<Tile>, p: nat, o: nat)
    requires Coherent(ts) && UsedAt(ts, p, o + 1)
    ensures Coherent(Split(ts, p, o)) && UsedAt(Split(ts, p, o), p, o)
    ensures FreeAt(Split(ts, p, o), p + Pow2(o), o)
    ensures forall q: nat, k: nat :: FreeAt(Split(ts, p, o), q, k) <==>
      FreeAt(ts, q, k) || (q == p + Pow2(o) && k == o)
  {
    var us, t := Split(ts, p, o), ts[p];
    var lo, hi := Tile(p, o, false), Tile(p + Pow2(o), o, true);
    SplitPages(ts, p, o);
    assert forall x :: Covers(t, x) <==> Covers(lo, x) || Covers(hi, x);
    forall x | 0 <= x < |ts| && !Covers(t, x) ensures us[x] == ts[x] && forall y | Covers(ts[x], y) :: !Covers(t, y) {
      Outside(ts, t, x);
    }
    Rearranged(ts, us, t);
    forall q: nat, k: nat ensures FreeAt(us, q, k) <==> FreeAt(ts, q, k) || (q == hi.start && k == o) {
      if q < |ts| && Covers(t, q) { assert ts[q] == t; }
    }
  }

  lemma MergePages(ts: seq<Tile>, p: nat, o: nat, b: nat, m: nat)
    requires Coherent(ts) && o < MAX_ORDER && UsedAt(ts, p, o) && FreeAt(ts, b, o)
    requires b == BuddyOf(p, o) && m == if b < p then b else p
    ensures Fits(Tile(m, o + 1, false), |ts|)
    ensures forall x :: Covers(Tile(m, o + 1, false), x) <==> Covers(ts[p], x) || Covers(ts[b], x)
    ensures forall x | Covers(Tile(m, o + 1, false), x) :: 0 <= x < |ts| && (ts[x] == ts[p] || ts[x] == ts[b])
  {
    assert Fits(ts[p], |ts|) && Fits(ts[b], |ts|);
    BuddyShape(p, o);
    var t := Tile(m, o + 1, false);
    assert forall x :: Covers(t, x) <==> Covers(ts[p], x) || Covers(ts[b], x);
    forall x | Covers(t, x) ensures 0 <= x < |ts| && (ts[x] == ts[p] || ts[x] == ts[b]) {
      if Covers(ts[p], x) { assert ts[x] == ts[p]; } else { assert ts[x] == ts[b]; }
    }
  }

  /** A used block and its free buddy become their used parent. */
  lemma MergeCoherent(ts: seq<Tile>, p: nat, o: nat, b: nat, m: nat)
    requires Coherent(ts) && o < MAX_ORDER && UsedAt(ts, p, o) && FreeAt(ts, b, o)
    requires b == BuddyOf(p, o) && m == if b < p then b else p
    ensures Coherent(Paint(ts, Tile(m, o + 1, false))) && UsedAt(Paint(ts, Tile(m, o + 1, false)), m, o + 1)
    ensures forall q: nat, k: nat :: FreeAt(Paint(ts, Tile(m, o + 1, false)), q, k) <==> FreeAt(ts, q, k) && q != b
  {
    var t := Tile(m, o + 1, false);
    var us := Paint(ts, t);
    MergePages(ts, p, o, b, m);
    forall x | 0 <= x < |ts| && !Covers(t, x) ensures forall y | Covers(ts[x], y) :: !Covers(t, y) {
      Outside(ts, t, x);
    }
    Rearranged(ts, us, t);
    forall q: nat, k: nat ensures FreeAt(us, q, k) <==> FreeAt(ts, q, k) && q != b {
      if q < |ts| && Covers(t, q) { assert ts[q] == ts[p] || ts[q] == ts[b]; }
    }
  }

  /** Turning one block of w pages from one use to another moves the free count by w. */
  lemma {:induction false} CountChange(ts: seq<Tile>, us: seq<Tile>, a: nat, w: nat)
    requires |ts| == |us|
    requires forall x | 0 <= x < |ts| :: if a <= x < a + w then ts[x].free && !us[x].free else ts[x].free == us[x].free
    ensures CountFree(ts) == CountFree(us) + (if |ts| <= a then 0 else if |ts| <= a + w then |ts| - a else w)
  {
    if |ts| > 0 {
      CountChange(ts[..|ts| - 1], us[..|us| - 1], a, w);
    }
  }

  lemma {:induction false} CountSame(ts: seq<Tile>, us: seq<Tile>)
    requires SameUse(ts, us)
    ensures CountFree(ts) == CountFree(us)
  {
    CountChange(ts, us, 0, 0);
  }
}
