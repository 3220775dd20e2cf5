/** The buddy allocator as it runs: list nodes inside the free pages, per-order counters and an
    allocation bitmap, all changed in place. */
module Buddy {
  import opened Bits
  import opened Common
  import opened Tiling
  import opened BuddySpec
  import opened BuddyRuns

  const PAGE_SIZE: nat := 4096
  const NULL: int := -1

  // ----- allocation bitmap -----

  function Mask(k: nat): bv8
    requires k < 8
  {
    (1 as bv8) << k
  }

  predicate ByteBit(b: bv8, k: nat)
    requires k < 8
  {
    (b >> k) & 1 == 1
  }

  lemma MaskValue(k: nat)
    requires k < 8
    ensures Mask(k) == [1 as bv8, 2, 4, 8, 16, 32, 64, 128][k]
  {
    if k == 0 {} else if k == 1 {} else if k == 2 {} else if k == 3 {}
    else if k == 4 {} else if k == 5 {} else if k == 6 {} else {}
  }

  lemma ByteBitMask(b: bv8, k: nat)
    requires k < 8
    ensures ByteBit(b, k) <==> b & Mask(k) != 0
  {
    if k == 0 {} else if k == 1 {} else if k == 2 {} else if k == 3 {}
    else if k == 4 {} else if k == 5 {} else if k == 6 {} else {}
  }

  lemma MaskedByte(b: bv8, m: bv8, n: bv8)
    requires m == n || m & n == 0
    ensures (b | m) & n != 0 <==> m & n != 0 || b & n != 0
    ensures m == n ==> (b & !m) & n == 0
    ensures m & n == 0 ==> (b & !m) & n == b & n
  {
  }

  /** Setting or clearing one bit of a byte leaves its other bits alone. */
  lemma ByteUpdate(b: bv8, j: nat, k: nat)
    requires j < 8 && k < 8
    ensures ByteBit(b | Mask(k), j) <==> j == k || ByteBit(b, j)
    ensures ByteBit(b & !Mask(k), j) <==> j != k && ByteBit(b, j)
  {
    ByteBitMask(b, j);
    ByteBitMask(b | Mask(k), j);
    ByteBitMask(b & !Mask(k), j);
    Masks(j, k);
    MaskedByte(b, Mask(k), Mask(j));
  }

  lemma Masks(j: nat, k: nat)
    requires j < 8 && k < 8
    ensures Mask(j) != 0 && (j == k <==> Mask(j) == Mask(k)) && (j != k ==> Mask(k) & Mask(j) == 0)
  {
    MaskValue(j);
    MaskValue(k);
  }

  /** Pages past the end of the bitmap read as clear. */
  predicate Bit(bits: seq<bv8>, page: nat) {
    page / 8 < |bits| && ByteBit(bits[page / 8], page % 8)
  }

  method SetAllocationBit(bitmap: array<bv8>, page: nat)
    modifies bitmap
    ensures forall q: nat :: Bit(bitmap[..], q) <==> Bit(old(bitmap[..]), q) || (q == page && q / 8 < bitmap.Length)
  {
    var i := page / 8;
    if i < bitmap.Length {
      ghost var before := bitmap[..];
      bitmap[i] := bitmap[i] | Mask(page % 8);
      forall q: nat ensures Bit(bitmap[..], q) <==> Bit(before, q) || q == page {
        if q / 8 == i { ByteUpdate(before[i], q % 8, page % 8); }
      }
    }
  }

  method ClearAllocationBit(bitmap: array<bv8>, page: nat)
    modifies bitmap
    ensures forall q: nat :: Bit(bitmap[..], q) <==> Bit(old(bitmap[..]), q) && q != page
  {
    var i := page / 8;
    if i < bitmap.Length {
      ghost var before := bitmap[..];
      bitmap[i] := bitmap[i] & !Mask(page % 8);
      forall q: nat ensures Bit(bitmap[..], q) <==> Bit(before, q) && q != page {
        if q / 8 == i { ByteUpdate(before[i], q % 8, page % 8); }
      }
    }
  }

  method TestAllocationBit(bitmap: array<bv8>, page: nat) returns (b: bool)
    ensures b == Bit(bitmap[..], page)
  {
    var i := page / 8;
    b := i < bitmap.Length && ByteBit(bitmap[i], page % 8);
  }

  /** Within its range the bitmap marks the starts of the live blocks, except the block in hand. */
  ghost predicate Marks(bits: seq<bv8>, ts: seq<Tile>, hand: int) {
    forall q: nat | q < |ts| && q / 8 < |bits| ::
      Bit(bits, q) <==> ts[q].start == q && !ts[q].free && q != hand
  }

  // ----- doubly linked lists threaded through the free pages -----

  function After(l: seq<nat>, i: nat): int {
    if i + 1 < |l| then l[i + 1] else NULL
  }

  function Before(l: seq<nat>, i: nat): int {
    if 0 < i <= |l| then l[i - 1] else NULL
  }

  ghost predicate Linked(next: seq<int>, prev: seq<int>, l: seq<nat>, i: nat)
    requires i < |l|
  {
    l[i] < |next| == |prev| && next[l[i]] == After(l, i) && prev[l[i]] == Before(l, i)
  }

  /** The nodes of l, in order, are linked in both directions from head. */
  ghost predicate Chain(head: int, next: seq<int>, prev: seq<int>, l: seq<nat>) {
    && head == (if l == [] then NULL else l[0])
    && forall i | 0 <= i < |l| :: Linked(next, prev, l, i)
  }

  ghost predicate Chains(heads: seq<int>, next: seq<int>, prev: seq<int>, lists: FreeLists) {
    && |heads| == |lists|
    && forall o | 0 <= o < |lists| :: Chain(heads[o], next, prev, lists[o])
  }

  ghost predicate Disjoint(lists: FreeLists) {
    && (forall o | 0 <= o < |lists| :: NoDuplicates(lists[o]))
    && (forall o, k, p: nat | 0 <= o < k < |lists| :: !(p in lists[o] && p in lists[k]))
  }

  ghost predicate Unlisted(lists: FreeLists, p: nat) {
    forall o | 0 <= o < |lists| :: p !in lists[o]
  }

  lemma AgreeDisjoint(z: Zone)
    requires Agree(z)
    ensures Disjoint(z.lists)
  {
    forall o, k, p: nat | 0 <= o < k < |z.lists| ensures !(p in z.lists[o] && p in z.lists[k]) {
      assert p in z.lists[o] <==> FreeAt(z.tiles, p, o);
      assert p in z.lists[k] <==> FreeAt(z.tiles, p, k);
    }
  }

  lemma UsedUnlisted(z: Zone, p: nat)
    requires Agree(z) && (p < |z.tiles| ==> z.tiles[p].start != p || !z.tiles[p].free)
    ensures Unlisted(z.lists, p)
  {
    forall o: nat | o < |z.lists| ensures p !in z.lists[o] {
      assert p in z.lists[o] <==> FreeAt(z.tiles, p, o);
    }
  }

  lemma ChainFrame(head: int, next: seq<int>, prev: seq<int>, next': seq<int>, prev': seq<int>, l: seq<nat>)
    requires Chain(head, next, prev, l) && |next'| == |prev'| == |next| == |prev|
    requires forall x | 0 <= x < |next| && x in l :: next'[x] == next[x] && prev'[x] == prev[x]
    ensures Chain(head, next', prev', l)
  {
    forall i | 0 <= i < |l| ensures Linked(next', prev', l, i) {
      assert Linked(next, prev, l, i) && l[i] in l;
    }
  }

  /** Linking p in front of a list puts exactly p at its head. */
  lemma ChainPush(head: int, next: seq<int>, prev: seq<int>, next': seq<int>, prev': seq<int>, l: seq<nat>, p: nat)
    requires Chain(head, next, prev, l) && NoDuplicates(l) && p !in l && p < |next| == |prev|
    requires next' == next[p := head] && (l != [] ==> l[0] < |prev|)
    requires prev' == if l == [] then prev[p := NULL] else prev[p := NULL][l[0] := p]
    ensures Chain(p, next', prev', [p] + l)
  {
    var m := [p] + l;
    forall i | 0 <= i < |m| ensures Linked(next', prev', m, i) {
      if i > 0 {
        assert Linked(next, prev, l, i - 1) && m[i] == l[i - 1] && l[i - 1] in l;
        assert After(m, i) == After(l, i - 1);
        assert i > 1 ==> l[i - 1] != l[0] && Before(m, i) == Before(l, i - 1);
      }
    }
  }

  /** Bypassing node i in both directions unlinks exactly that node. */
  lemma ChainDrop(head: int, next: seq<int>, prev: seq<int>, next': seq<int>, prev': seq<int>, l: seq<nat>, i: nat)
    requires Chain(head, next, prev, l) && NoDuplicates(l) && i < |l| && |next| == |prev|
    requires l[i] < |next|
    requires i > 0 ==> l[i - 1] < |next|
    requires i + 1 < |l| ==> l[i + 1] < |prev|
    requires next' == (if i > 0 then next[l[i - 1] := After(l, i)] else next)[l[i] := NULL]
    requires prev' == (if i + 1 < |l| then prev[l[i + 1] := Before(l, i)] else prev)[l[i] := NULL]
    ensures Chain(if i == 0 then After(l, 0) else head, next', prev', l[..i] + l[i + 1..])
  {
    var m := l[..i] + l[i + 1..];
    forall j | 0 <= j < |m| ensures Linked(next', prev', m, j) {
      var k := if j < i then j else j + 1;
      assert Linked(next, prev, l, k) && m[j] == l[k] && l[k] != l[i];
      assert After(m, j) == if k + 1 == i then After(l, i) else After(l, k);
      assert Before(m, j) == if k == i + 1 then Before(l, i) else Before(l, k);
      assert i > 0 && k != i - 1 ==> l[k] != l[i - 1];
      assert i + 1 < |l| && k != i + 1 ==> l[k] != l[i + 1];
    }
  }

  method ListAdd(heads: array<int>, next: array<int>, prev: array<int>, o: nat, p: nat, ghost lists: FreeLists)
    requires heads != next && heads != prev && next != prev && next.Length == prev.Length
    requires Chains(heads[..], next[..], prev[..], lists) && Disjoint(lists)
    requires o < |lists| && p < next.Length && Unlisted(lists, p)
    modifies heads, next, prev
    ensures Chains(heads[..], next[..], prev[..], Push(lists, o, p))
  {
    ghost var l, heads0, next0, prev0 := lists[o], heads[..], next[..], prev[..];
    assert Chain(heads0[o], next0, prev0, l);
    assert l != [] ==> Linked(next0, prev0, l, 0) && l[0] in l;
    var head := heads[o];
    next[p] := head;
    prev[p] := NULL;
    if head != NULL {
      prev[head] := p;
    }
    heads[o] := p;
    ChainPush(heads0[o], next0, prev0, next[..], prev[..], l, p);
    forall k | 0 <= k < |lists| && k != o ensures Chain(heads[k], next[..], prev[..], lists[k]) {
      assert p !in lists[k];
      ChainFrame(heads0[k], next0, prev0, next[..], prev[..], lists[k]);
    }
  }

  /** What the links of node i say, in either direction. */
  lemma Neighbours(heads: seq<int>, next: seq<int>, prev: seq<int>, o: nat, lists: FreeLists, i: nat)
    requires Chains(heads, next, prev, lists) && o < |lists| && i < |lists[o]| && |next| == |prev|
    ensures var l := lists[o];
      && |heads| == |lists| && l[i] < |next| && next[l[i]] == After(l, i) && prev[l[i]] == Before(l, i)
      && (i > 0 ==> l[i - 1] < |next|) && (i + 1 < |l| ==> l[i + 1] < |next|)
  {
    var l := lists[o];
    assert Chain(heads[o], next, prev, l) && Linked(next, prev, l, i);
    assert i > 0 ==> Linked(next, prev, l, i - 1);
    assert i + 1 < |l| ==> Linked(next, prev, l, i + 1);
  }

  /** Bypassing one node of list o unlinks it and leaves the other lists as they were. */
  lemma ChainsDrop(heads: seq<int>, next: seq<int>, prev: seq<int>, heads': seq<int>, next': seq<int>, prev': seq<int>,
    o: nat, lists: FreeLists, i: nat)
    requires Chains(heads, next, prev, lists) && Disjoint(lists) && |next| == |prev|
    requires o < |lists| && i < |lists[o]| && lists[o][i] < |next| && |heads| == |lists|
    requires i > 0 ==> lists[o][i - 1] < |next|
    requires i + 1 < |lists[o]| ==> lists[o][i + 1] < |next|
    requires next' == var l := lists[o]; (if i > 0 then next[l[i - 1] := After(l, i)] else next)[l[i] := NULL]
    requires prev' == var l := lists[o]; (if i + 1 < |l| then prev[l[i + 1] := Before(l, i)] else prev)[l[i] := NULL]
    requires heads' == if i == 0 then heads[o := After(lists[o], 0)] else heads
    ensures Chains(heads', next', prev', Drop(lists, o, lists[o][i]))
  {
    var l := lists[o];
    assert Chain(heads[o], next, prev, l) && l[i] in l;
    WithoutIndex(l, i);
    ChainDrop(heads[o], next, prev, next', prev', l, i);
    forall k | 0 <= k < |lists| && k != o ensures Chain(heads'[k], next', prev', lists[k]) {
      assert i > 0 ==> l[i - 1] in l;
      assert i + 1 < |l| ==> l[i + 1] in l;
      ChainFrame(heads[k], next, prev, next', prev', lists[k]);
    }
  }

  method ListRemove(heads: array<int>, next: array<int>, prev: array<int>, o: nat, p: nat, ghost lists: FreeLists)
    requires heads != next && heads != prev && next != prev && next.Length == prev.Length
    requires Chains(heads[..], next[..], prev[..], lists) && Disjoint(lists)
    requires o < |lists| && p in lists[o]
    modifies heads, next, prev
    ensures Chains(heads[..], next[..], prev[..], Drop(lists, o, p))
  {
    hide Chains, Disjoint;
    ghost var l, heads0, next0, prev0 := lists[o], heads[..], next[..], prev[..];
    ghost var i: nat :| i < |l| && l[i] == p;
    Neighbours(heads0, next0, prev0, o, lists, i);
    var before, after := prev[p], next[p];
    if before != NULL {
      next[before] := after;
    } else {
      heads[o] := after;
    }
    if after != NULL {
      prev[after] := before;
    }
    next[p] := NULL;
    prev[p] := NULL;
    ChainsDrop(heads0, next0, prev0, heads[..], next[..], prev[..], o, lists, i);
  }

  // ----- one zone -----

  /** The free lists, counters and list nodes of one zone; z is its abstract state. */
  class BuddyZone {
    const heads: array<int>
    const counts: array<nat>
    const next: array<int>
    const prev: array<int>
    var totalPages: nat
    var freePages: nat
    ghost var z: Zone

    ghost const Repr: set<object>

    ghost predicate Shape(pages: nat)
      reads this
    {
      && {this, heads, counts, next, prev} <= Repr
      && heads != next && heads != prev && next != prev
      && heads.Length == counts.Length == MAX_ORDER + 1
      && next.Length == prev.Length == totalPages == pages
    }

    /** Lists and counters in memory are those of the given abstract lists. */
    ghost predicate Stores(lists: FreeLists)
      reads this, heads, counts, next, prev
    {
      && Chains(heads[..], next[..], prev[..], lists)
      && |lists| == counts.Length
      && forall o | 0 <= o < |lists| :: counts[o] == |lists[o]|
    }

    ghost predicate Valid()
      reads this, heads, counts, next, prev
    {
      Shape(|z.tiles|) && Inv(z) && Stores(z.lists) && freePages == CountFree(z.tiles)
    }

    /** Put block p at the head of list o and count it. */
    method AddBlock(o: nat, p: nat, ghost w: Zone)
      requires Shape(totalPages) && Stores(w.lists) && Agree(w)
      requires o <= MAX_ORDER && p < totalPages
      requires p < |w.tiles| ==> w.tiles[p].start != p || !w.tiles[p].free
      modifies heads, counts, next, prev
      ensures Stores(Push(w.lists, o, p))
    {
      AgreeDisjoint(w);
      UsedUnlisted(w, p);
      ListAdd(heads, next, prev, o, p, w.lists);
      counts[o] := counts[o] + 1;
    }

    /** Take block p out of list o and the count. */
    method RemoveBlock(o: nat, p: nat, ghost w: Zone)
      requires Shape(totalPages) && Stores(w.lists) && Agree(w)
      requires o <= MAX_ORDER && p in w.lists[o]
      modifies heads, counts, next, prev
      ensures Stores(Drop(w.lists, o, p))
    {
      AgreeDisjoint(w);
      WithoutFacts(w.lists[o], p);
      ListRemove(heads, next, prev, o, p, w.lists);
      counts[o] := counts[o] - 1;
    }

    /** The greedy start state; a zone of no pages has empty lists. */
    constructor (pages: nat)
      ensures Valid() && z == InitZone(pages) && totalPages == pages && AllFree(z.tiles)
      ensures fresh(Repr)
    {
      heads := new int[MAX_ORDER + 1](_ => NULL);
      counts := new nat[MAX_ORDER + 1](_ => 0);
      next := new int[pages](_ => NULL);
      prev := new int[pages](_ => NULL);
      totalPages := pages;
      freePages := pages;
      Repr := {this, heads, counts, next, prev};
      new;
      assert fresh(heads) && fresh(counts) && fresh(next) && fresh(prev);
      ghost var w := Populate();
      z := w;
    }

    method Populate() returns (ghost w: Zone)
      requires Shape(totalPages)
      requires Stores(EmptyZone.lists)
      modifies heads, counts, next, prev
      ensures w == InitZone(totalPages) && Inv(w) && AllFree(w.tiles) && Stores(w.lists)
      ensures |w.tiles| == CountFree(w.tiles) == totalPages
    {
      w := EmptyZone;
      var cur, remaining := 0, totalPages;
      EmptyWeight(MAX_ORDER + 1);
      while remaining > 0
        invariant cur + remaining == totalPages && cur == |w.tiles|
        invariant Inv(w) && AllFree(w.tiles) && Greedy(w.tiles, totalPages)
        invariant Place(w, totalPages) == InitZone(totalPages)
        invariant Stores(w.lists)
      {
        var order := LargestFit(cur, remaining);
        PlaceStep(w, totalPages, order);
        AddBlock(order, cur, w);
        w := PlaceOne(w, order);
        cur := cur + Pow2(order);
        remaining := remaining - Pow2(order);
      }
      CountAllFree(w.tiles);
    }
  
    /** The part of Valid that holds while a block is in hand and freePages is not yet adjusted. */
    ghost predicate Sound()
      reads this, heads, counts, next, prev
    {
      Shape(|z.tiles|) && Inv(z) && Stores(z.lists)
    }

    method Take(p: nat, o: nat)
      requires Sound() && o <= MAX_ORDER && FreeAt(z.tiles, p, o)
      modifies this`z, heads, counts, next, prev
      ensures Sound() && UsedAt(z.tiles, p, o)
      ensures z == Unlist(old(z), p, o)
    {
      TakeStep(z, p, o);
      assert p in z.lists[o];
      RemoveBlock(o, p, z);
      z := Unlist(z, p, o);
    }

    method HalveOnce(p: nat, o: nat)
      requires Sound() && o < MAX_ORDER && UsedAt(z.tiles, p, o + 1)
      modifies this`z, heads, counts, next, prev
      ensures Sound() && z == Halve(old(z), p, o) && UsedAt(z.tiles, p, o)
    {
      SplitStep(z, p, o);
      UpperHalfFits(z.tiles, p, o);
      AddBlock(o, p + Pow2(o), z);
      z := Halve(z, p, o);
    }

    method HalveDown(p: nat, from: nat, order: nat)
      requires Sound() && order <= from <= MAX_ORDER && UsedAt(z.tiles, p, from)
      modifies this`z, heads, counts, next, prev
      ensures Sound() && z == SplitDown(old(z), p, from, order)
    {
      var cur := from;
      while cur > order
        invariant order <= cur <= MAX_ORDER && Sound() && UsedAt(z.tiles, p, cur)
        invariant SplitDown(z, p, cur, order) == SplitDown(old(z), p, from, order)
      {
        cur := cur - 1;
        HalveOnce(p, cur);
      }
    }

    /** Search upwards for a block, unlist it and halve it down to the wanted order. */
    method AllocPages(order: nat) returns (r: Option<nat>)
      requires Valid()
      modifies this`z, this`freePages, heads, counts, next, prev
      ensures Valid()
      ensures (z, r) == BuddySpec.AllocPages(old(z), order)
    {
      if order > MAX_ORDER {
        return None;
      }
      var cur := FirstNonEmpty(order);
      if cur > MAX_ORDER {
        return None;
      }
      AllocSound(z, order);
      var p := Head(cur);
      TakeAndHalve(p, cur, order);
      freePages := freePages - Pow2(order);
      r := Some(p);
    }

    method Head(o: nat) returns (p: nat)
      requires Sound() && o <= MAX_ORDER && z.lists[o] != []
      ensures p == z.lists[o][0] && FreeAt(z.tiles, p, o)
    {
      assert Chain(heads[o], next[..], prev[..], z.lists[o]);
      p := heads[o];
      assert p in z.lists[o];
    }

    method TakeAndHalve(p: nat, cur: nat, order: nat)
      requires Sound() && order <= cur <= MAX_ORDER && FreeAt(z.tiles, p, cur)
      modifies this`z, heads, counts, next, prev
      ensures Sound() && CountFree(old(z.tiles)) == CountFree(z.tiles) + Pow2(order)
      ensures z == SplitDown(Unlist(old(z), p, cur), p, cur, order)
    {
      TakeStep(z, p, cur);
      ghost var z0 := z;
      Take(p, cur);
      SplitDownSound(z0, z, p, cur, order);
      HalveDown(p, cur, order);
      TakesCount(z0.tiles, z.tiles, Tile(p, order, false));
    }

    method FirstNonEmpty(order: nat) returns (cur: nat)
      requires Valid() && order <= MAX_ORDER
      ensures cur == FindOrder(z.lists, order)
    {
      cur := order;
      while cur <= MAX_ORDER && heads[cur] == NULL
        invariant cur <= MAX_ORDER + 1 && FindOrder(z.lists, cur) == FindOrder(z.lists, order)
      {
        assert Chain(heads[cur], next[..], prev[..], z.lists[cur]);
        cur := cur + 1;
      }
      if cur <= MAX_ORDER {
        assert Chain(heads[cur], next[..], prev[..], z.lists[cur]);
      }
    }

    /** Walk list o looking for block b. */
    method Listed(o: nat, b: nat) returns (found: bool)
      requires Shape(|z.tiles|) && Stores(z.lists) && o <= MAX_ORDER
      ensures found == (b in z.lists[o])
    {
      ghost var l := z.lists[o];
      ghost var i := 0;
      assert Chain(heads[o], next[..], prev[..], l);
      var current := heads[o];
      while current != NULL
        invariant 0 <= i <= |l| && current == (if i < |l| then l[i] else NULL)
        invariant b !in l[..i]
        decreases |l| - i
      {
        assert Linked(next[..], prev[..], l, i);
        if current == b {
          return true;
        }
        current := next[current];
        i := i + 1;
      }
      return false;
    }

    /** The bitmap is not one of the zone's own arrays. */
    ghost predicate Apart(bitmap: array<bv8>) {
      bitmap !in Repr
    }

    /** Is the buddy at page b inside the zone and free? First the bitmap is asked, then the list. */
    method BuddyIsFree(b: nat, ghost p: nat, cur: nat, memoryStart: nat, memorySize: nat, bitmap: array<bv8>)
      returns (free: bool)
      requires Sound() && cur < MAX_ORDER && UsedAt(z.tiles, p, cur) && b != p && Marks(bitmap[..], z.tiles, p)
      requires totalPages == (memorySize + PAGE_SIZE - 1) / PAGE_SIZE
      ensures free == (b in z.lists[cur])
    {
      assert b in z.lists[cur] <==> FreeAt(z.tiles, b, cur);
      var buddyAddr := memoryStart + b * PAGE_SIZE;
      if buddyAddr >= memoryStart + memorySize {
        return false;
      }
      var taken := TestAllocationBit(bitmap, (buddyAddr - memoryStart) / PAGE_SIZE);
      if taken {
        return false;
      }
      free := Listed(cur, b);
    }

    method Join(ghost p: nat, cur: nat, b: nat, bitmap: array<bv8>)
      requires Sound() && cur < MAX_ORDER && UsedAt(z.tiles, p, cur) && Marks(bitmap[..], z.tiles, p) && Apart(bitmap)
      requires b == BuddyOf(p, cur) && b in z.lists[cur]
      modifies this`z, heads, counts, next, prev
      ensures Sound() && z == BuddySpec.Join(old(z), p, cur)
      ensures UsedAt(z.tiles, Lower(p, cur), cur + 1) && Marks(bitmap[..], z.tiles, Lower(p, cur))
    {
      assert FreeAt(z.tiles, b, cur);
      MergeStep(z, p, cur);
      MergeMarks(bitmap[..], z.tiles, p, cur);
      RemoveBlock(cur, b, z);
      assert bitmap[..] == old(bitmap[..]);
      z := BuddySpec.Join(z, p, cur);
    }

    /** One round of merging; m is the block in hand afterwards. */
    method MergeOnce(currentAddr: nat, ghost p: nat, cur: nat, memoryStart: nat, memorySize: nat, bitmap: array<bv8>)
      returns (merged: bool, addr: nat, ghost m: nat)
      requires Sound() && cur < MAX_ORDER && UsedAt(z.tiles, p, cur) && Marks(bitmap[..], z.tiles, p) && Apart(bitmap)
      requires totalPages == (memorySize + PAGE_SIZE - 1) / PAGE_SIZE
      requires currentAddr == memoryStart + p * PAGE_SIZE
      modifies this`z, heads, counts, next, prev
      ensures Sound() && Marks(bitmap[..], z.tiles, m) && addr == memoryStart + m * PAGE_SIZE
      ensures merged == (BuddyOf(p, cur) in old(z.lists)[cur])
      ensures !merged ==> z == old(z) && m == p
      ensures merged ==>
        m == Lower(p, cur) && UsedAt(z.tiles, m, cur + 1) && z == BuddySpec.Join(old(z), p, cur)
    {
      addr, m := currentAddr, p;
      var page := (currentAddr - memoryStart) / PAGE_SIZE;
      assert page == p;
      var b := BuddyOf(page, cur);
      BuddyDiffers(z.tiles, p, cur);
      merged := BuddyIsFree(b, p, cur, memoryStart, memorySize, bitmap);
      if merged {
        m := Lower(p, cur);
        Join(p, cur, b, bitmap);
        var buddyAddr := memoryStart + b * PAGE_SIZE;
        if currentAddr > buddyAddr {
          addr := buddyAddr;
        }
      }
    }

    /** Join the block with its buddies while they are free. */
    method MergeAll(address: nat, ghost page: nat, order: nat, memoryStart: nat, memorySize: nat, bitmap: array<bv8>)
      returns (currentAddr: nat, ghost p: nat, cur: nat)
      requires Sound() && order <= MAX_ORDER && UsedAt(z.tiles, page, order) && Marks(bitmap[..], z.tiles, page)
      requires totalPages == (memorySize + PAGE_SIZE - 1) / PAGE_SIZE
      requires address == memoryStart + page * PAGE_SIZE && Apart(bitmap)
      modifies this`z, heads, counts, next, prev
      ensures Sound() && cur <= MAX_ORDER && UsedAt(z.tiles, p, cur) && currentAddr == memoryStart + p * PAGE_SIZE
      ensures MergeUp(old(z), page, order) == Enlist(z, p, cur)
    {
      currentAddr, p, cur := address, page, order;
      var merged := true;
      while merged && cur < MAX_ORDER
        invariant cur <= MAX_ORDER && Sound() && UsedAt(z.tiles, p, cur) && Marks(bitmap[..], z.tiles, p)
        invariant currentAddr == memoryStart + p * PAGE_SIZE
        invariant MergeUp(z, p, cur) == MergeUp(old(z), page, order)
        invariant !merged ==> BuddyOf(p, cur) !in z.lists[cur]
        decreases MAX_ORDER - cur, merged
      {
        merged, currentAddr, p := MergeOnce(currentAddr, p, cur, memoryStart, memorySize, bitmap);
        if merged {
          cur := cur + 1;
        }
      }
    }

    /** Join the block with its buddies while they are free, then list the result. */
    method FreePages(address: nat, ghost page: nat, order: nat, memoryStart: nat, memorySize: nat, bitmap: array<bv8>)
      requires Valid() && UsedAt(z.tiles, page, order) && address == memoryStart + page * PAGE_SIZE
      requires totalPages == (memorySize + PAGE_SIZE - 1) / PAGE_SIZE
      requires Marks(bitmap[..], z.tiles, page) && Apart(bitmap)
      modifies this`z, this`freePages, heads, counts, next, prev
      ensures Valid() && order <= MAX_ORDER && z == MergeUp(old(z), page, order)
      ensures Takes(z.tiles, old(z.tiles), Tile(page, order, false))
    {
      FreeSound(z, page, order);
      ghost var z0 := z;
      ghost var p;
      var currentAddr, cur;
      currentAddr, p, cur := MergeAll(address, page, order, memoryStart, memorySize, bitmap);
      assert (currentAddr - memoryStart) / PAGE_SIZE == p;
      AddBlock(cur, (currentAddr - memoryStart) / PAGE_SIZE, z);
      z := Enlist(z, p, cur);
      assert z == MergeUp(z0, page, order);
      TakesCount(z.tiles, z0.tiles, Tile(page, order, false));
      freePages := freePages + Pow2(order);
    }
  }

  lemma OnlyPopulated(z: Zone, w: Zone, p: nat, order: nat)
    requires Takes(z.tiles, w.tiles, Tile(p, order, false))
    ensures |z.tiles| > 0
  {
    assert Covers(Tile(p, order, false), p);
  }

  lemma PageAddress(address: nat, start: nat)
    requires start <= address && address % PAGE_SIZE == 0 && start % PAGE_SIZE == 0
    ensures address == start + (address - start) / PAGE_SIZE * PAGE_SIZE
  {
  }

  /** The address of a live block passes every check made on a free request. */
  lemma BlockAddress(z: Zone, p: nat, order: nat, address: nat, start: nat, size: nat)
    requires Inv(z) && UsedAt(z.tiles, p, order) && |z.tiles| == (size + PAGE_SIZE - 1) / PAGE_SIZE
    requires start % PAGE_SIZE == 0 && address == start + p * PAGE_SIZE
    ensures order <= MAX_ORDER && start <= address < start + size && address % PAGE_SIZE == 0
    ensures (address - start) / PAGE_SIZE == p
  {
    assert Fits(z.tiles[p], |z.tiles|);
  }

  lemma BuddyDiffers(ts: seq<Tile>, p: nat, o: nat)
    requires Coherent(ts) && UsedAt(ts, p, o)
    ensures BuddyOf(p, o) != p
  {
    assert Fits(ts[p], |ts|);
    BuddyShape(p, o);
  }

  lemma UpperHalfFits(ts: seq<Tile>, p: nat, o: nat)
    requires Coherent(ts) && UsedAt(ts, p, o + 1)
    ensures p + Pow2(o) < |ts| && ts[p + Pow2(o)] == ts[p]
  {
    assert Fits(ts[p], |ts|) && Covers(ts[p], p + Pow2(o));
  }

  /** Merging keeps the bitmap right: neither half of the merged block has its bit set. */
  lemma MergeMarks(bits: seq<bv8>, ts: seq<Tile>, p: nat, o: nat)
    requires Coherent(ts) && o < MAX_ORDER && UsedAt(ts, p, o) && FreeAt(ts, BuddyOf(p, o), o)
    requires Marks(bits, ts, p)
    ensures Marks(bits, Paint(ts, Tile(Lower(p, o), o + 1, false)), Lower(p, o))
  {
    MergePages(ts, p, o, BuddyOf(p, o), Lower(p, o));
  }

  /** The largest order that fits the remaining pages at this position. */
  method LargestFit(cur: nat, remaining: nat) returns (order: nat)
    ensures order == GreedyOrder(cur, remaining, MAX_ORDER)
  {
    order := MAX_ORDER;
    var orderPages := Pow2(order);
    while order > 0 && (orderPages > remaining || And(cur, orderPages - 1) != 0)
      invariant order <= MAX_ORDER && orderPages == Pow2(order)
      invariant GreedyOrder(cur, remaining, order) == GreedyOrder(cur, remaining, MAX_ORDER)
    {
      order := order - 1;
      orderPages := Pow2(order);
    }
  }

  // ----- the allocator -----

  const BITMAP_BYTES: nat := 1024 * 1024
  const UNMOVABLE: nat := 0

  /** The block taken gets its bit; no other live block starts in its pages. */
  lemma AllocMarks(bits: seq<bv8>, bits': seq<bv8>, ts: seq<Tile>, us: seq<Tile>, t: Tile)
    requires Coherent(us) && Takes(ts, us, t) && Marks(bits, ts, NULL) && |bits'| == |bits|
    requires forall q: nat :: Bit(bits', q) <==> Bit(bits, q) || (q == t.start && q / 8 < |bits|)
    ensures Marks(bits', us, NULL)
  {
  }

  method NewBitmap() returns (bitmap: array<bv8>)
    ensures fresh(bitmap) && bitmap.Length == BITMAP_BYTES
    ensures forall q: nat :: !Bit(bitmap[..], q)
  {
    bitmap := new bv8[BITMAP_BYTES](_ => 0);
    forall q: nat ensures !Bit(bitmap[..], q) {
      if q / 8 < bitmap.Length { ByteBitMask(bitmap[q / 8], q % 8); }
    }
  }

  lemma ClearMarks(bits: seq<bv8>, ts: seq<Tile>)
    requires AllFree(ts) && forall q: nat :: !Bit(bits, q)
    ensures Marks(bits, ts, NULL)
  {
  }

  lemma FreeMarks(bits: seq<bv8>, ts: seq<Tile>, us: seq<Tile>, t: Tile)
    requires Coherent(us) && Takes(ts, us, t) && Marks(bits, us, t.start)
    ensures Marks(bits, ts, NULL)
  {
    assert Covers(t, t.start);
  }

  /** Three zones over one physical range; only the unmovable zone is given its pages. */
  class BuddyAllocator {
    const memoryStart: nat
    const memorySize: nat
    const bitmap: array<bv8>
    const unmovable: BuddyZone
    const reclaimable: BuddyZone
    const movable: BuddyZone

    ghost predicate Separate() {
      && unmovable.Repr !! reclaimable.Repr && unmovable.Repr !! movable.Repr && reclaimable.Repr !! movable.Repr
      && bitmap !in unmovable.Repr && bitmap !in reclaimable.Repr && bitmap !in movable.Repr
    }

    ghost predicate ZonesValid()
      reads unmovable, unmovable.heads, unmovable.counts, unmovable.next, unmovable.prev
      reads reclaimable, reclaimable.heads, reclaimable.counts, reclaimable.next, reclaimable.prev
      reads movable, movable.heads, movable.counts, movable.next, movable.prev
    {
      && unmovable.Valid() && unmovable.totalPages == (memorySize + PAGE_SIZE - 1) / PAGE_SIZE
      && reclaimable.Valid() && reclaimable.totalPages == 0
      && movable.Valid() && movable.totalPages == 0
    }

    ghost predicate Valid()
      reads bitmap
      reads unmovable, unmovable.heads, unmovable.counts, unmovable.next, unmovable.prev
      reads reclaimable, reclaimable.heads, reclaimable.counts, reclaimable.next, reclaimable.prev
      reads movable, movable.heads, movable.counts, movable.next, movable.prev
    {
      && memoryStart > 0 && memoryStart % PAGE_SIZE == 0
      && Separate() && ZonesValid()
      && bitmap.Length == BITMAP_BYTES && Marks(bitmap[..], unmovable.z.tiles, NULL)
    }

    constructor (start: nat, size: nat)
      requires start > 0 && start % PAGE_SIZE == 0
      ensures Valid() && memoryStart == start && memorySize == size
      ensures unmovable.z == InitZone((size + PAGE_SIZE - 1) / PAGE_SIZE)
    {
      var bits := NewBitmap();
      memoryStart, memorySize, bitmap := start, size, bits;
      unmovable := new BuddyZone((size + PAGE_SIZE - 1) / PAGE_SIZE);
      reclaimable := new BuddyZone(0);
      movable := new BuddyZone(0);
      new;
      ClearMarks(bitmap[..], unmovable.z.tiles);
    }

    /** Allocate 2^order pages from a zone; an unknown zone type means the unmovable zone. That zone hands out
        one new block exactly when the order is at most ten and an aligned run of free pages exists; the other
        two, which got no pages, never do. */
    method AllocPages(order: nat, zoneType: nat) returns (address: nat)
      requires Valid()
      modifies bitmap, unmovable.Repr, reclaimable.Repr, movable.Repr
      ensures Valid() && reclaimable.z == old(reclaimable.z) && movable.z == old(movable.z)
      ensures zoneType == 1 || zoneType == 2 ==> address == 0
      ensures zoneType != 1 && zoneType != 2 ==>
        (address == 0 <==> order > 10 || forall p: nat :: !FreeRun(old(unmovable.z.tiles), p, order))
      ensures address == 0 ==> unmovable.z == old(unmovable.z) && bitmap[..] == old(bitmap[..])
      ensures address != 0 ==> exists p: nat ::
        address == memoryStart + p * 4096 && Takes(old(unmovable.z.tiles), unmovable.z.tiles, Tile(p, order, false))
      ensures zoneType != 1 && zoneType != 2 ==> unmovable.z == BuddySpec.AllocPages(old(unmovable.z), order).0
    {
      address := 0;
      if order <= MAX_ORDER {
        var zone := unmovable;
        if zoneType == 1 {
          zone := reclaimable;
        } else if zoneType == 2 {
          zone := movable;
        }
        var r := AllocFrom(zone, order);
        if r.Some? {
          address := memoryStart + r.value * PAGE_SIZE;
        }
      }
    }

    method AllocFrom(zone: BuddyZone, order: nat) returns (r: Option<nat>)
      requires Valid() && zone in {unmovable, reclaimable, movable} && order <= MAX_ORDER
      modifies bitmap, zone.Repr
      ensures Valid() && reclaimable.z == old(reclaimable.z) && movable.z == old(movable.z)
      ensures zone != unmovable ==> r.None?
      ensures zone == unmovable ==> (unmovable.z, r) == BuddySpec.AllocPages(old(unmovable.z), order)
      ensures zone == unmovable ==> (r.None? <==> forall p: nat :: !FreeRun(old(unmovable.z.tiles), p, order))
      ensures r.None? ==> unmovable.z == old(unmovable.z) && bitmap[..] == old(bitmap[..])
      ensures r.Some? ==> Takes(old(unmovable.z.tiles), unmovable.z.tiles, Tile(r.value, order, false))
    {
      AllocSound(zone.z, order);
      ghost var z0 := zone.z;
      assert zone != unmovable ==> z0.tiles == [];
      r := AllocMarking(zone, order);
      assert zone.z == BuddySpec.AllocPages(z0, order).0;
    }

    /** Allocation in a zone, with the bit of the new block set. */
    method AllocMarking(zone: BuddyZone, order: nat) returns (r: Option<nat>)
      requires Valid() && zone in {unmovable, reclaimable, movable} && order <= MAX_ORDER
      modifies bitmap, zone.Repr
      ensures Valid() && (zone.z, r) == BuddySpec.AllocPages(old(zone.z), order)
      ensures r.None? ==> bitmap[..] == old(bitmap[..])
    {
      hide Inv, Chains, CountFree;
      ghost var z0 := zone.z;
      AllocSound(z0, order);
      r := AllocKeeping(zone, order);
      ghost var z1 := zone.z;
      if r.Some? {
        OnlyPopulated(z0, z1, r.value, order);
        MarkBlock(r.value, order, z0.tiles);
      }
      assert zone.z == z1;
    }

    /** Set the bit of a block that the populated zone has just handed out. */
    method MarkBlock(p: nat, ghost order: nat, ghost ts: seq<Tile>)
      requires Separate() && ZonesValid() && bitmap.Length == BITMAP_BYTES
      requires Marks(bitmap[..], ts, NULL) && Takes(ts, unmovable.z.tiles, Tile(p, order, false))
      modifies bitmap
      ensures ZonesValid() && Marks(bitmap[..], unmovable.z.tiles, NULL)
    {
      ghost var bits := bitmap[..];
      SetAllocationBit(bitmap, p);
      AllocMarks(bits, bitmap[..], ts, unmovable.z.tiles, Tile(p, order, false));
    }

    method AllocKeeping(zone: BuddyZone, order: nat) returns (r: Option<nat>)
      requires Separate() && ZonesValid() && zone in {unmovable, reclaimable, movable} && order <= MAX_ORDER
      modifies zone.Repr
      ensures ZonesValid() && (zone.z, r) == BuddySpec.AllocPages(old(zone.z), order)
      ensures bitmap[..] == old(bitmap[..])
      ensures zone != unmovable ==> unmovable.z == old(unmovable.z)
    {
      hide Inv, Chains, CountFree, BuddySpec.AllocPages;
      r := zone.AllocPages(order);
    }

    /** Free a live block with its own order: the pages of exactly that block become free. A request with an
        order above ten, or an address that is zero, outside the memory or not page-aligned, changes nothing. */
    method FreePages(address: nat, order: nat)
      requires Valid()
      requires
        order <= 10 && address != 0 && memoryStart <= address < memoryStart + memorySize && address % 4096 == 0 ==>
        UsedAt(unmovable.z.tiles, (address - memoryStart) / 4096, order)
      modifies bitmap, unmovable.Repr
      ensures Valid() && reclaimable.z == old(reclaimable.z) && movable.z == old(movable.z)
      ensures
        order > 10 || address == 0 || address < memoryStart || address >= memoryStart + memorySize
        || address % 4096 != 0 ==>
        unmovable.z == old(unmovable.z) && bitmap[..] == old(bitmap[..])
      ensures forall p: nat | UsedAt(old(unmovable.z.tiles), p, order) && address == memoryStart + p * 4096 ::
        && Takes(unmovable.z.tiles, old(unmovable.z.tiles), Tile(p, order, false))
        && order <= MAX_ORDER && unmovable.z == MergeUp(old(unmovable.z), p, order)
    {
      ghost var ts := unmovable.z.tiles;
      forall p: nat | UsedAt(ts, p, order) && address == memoryStart + p * PAGE_SIZE
        ensures order <= MAX_ORDER && address < memoryStart + memorySize && (address - memoryStart) / PAGE_SIZE == p
        ensures address % PAGE_SIZE == 0
      {
        BlockAddress(unmovable.z, p, order, address, memoryStart, memorySize);
      }
      if order > MAX_ORDER || address == 0 { return; }
      if address < memoryStart || address >= memoryStart + memorySize { return; }
      if address % PAGE_SIZE != 0 { return; }
      PageAddress(address, memoryStart);
      ClearAllocationBit(bitmap, (address - memoryStart) / PAGE_SIZE);
      FreeKeeping(address, (address - memoryStart) / PAGE_SIZE, order);
    }

    method FreeKeeping(address: nat, ghost page: nat, order: nat)
      requires Separate() && ZonesValid() && UsedAt(unmovable.z.tiles, page, order)
      requires Marks(bitmap[..], unmovable.z.tiles, page) && address == memoryStart + page * PAGE_SIZE
      modifies unmovable.Repr
      ensures ZonesValid() && order <= MAX_ORDER && unmovable.z == MergeUp(old(unmovable.z), page, order)
      ensures Takes(unmovable.z.tiles, old(unmovable.z.tiles), Tile(page, order, false))
      ensures Marks(bitmap[..], unmovable.z.tiles, NULL)
    {
      ghost var ts, bits := unmovable.z.tiles, bitmap[..];
      unmovable.FreePages(address, page, order, memoryStart, memorySize, bitmap);
      assert bitmap[..] == bits;
      FreeMarks(bits, unmovable.z.tiles, ts, Tile(page, order, false));
    }

    /** The free pages over all zones: the pages of the unmovable zone that no live block holds. */
    method GetFreePages() returns (total: nat)
      requires Valid()
      ensures total == CountFree(unmovable.z.tiles) == Weight(unmovable.z.lists, MAX_ORDER + 1)
    {
      total := unmovable.freePages + reclaimable.freePages + movable.freePages;
    }

    /** The number of free blocks of an order. */
    method GetOrderStats(order: nat) returns (count: nat)
      requires Valid()
      ensures count == if order <= MAX_ORDER then |unmovable.z.lists[order]| else 0
    {
      count := 0;
      if order <= MAX_ORDER {
        ListedMeansPages(reclaimable.z, order);
        ListedMeansPages(movable.z, order);
        count := unmovable.counts[order] + reclaimable.counts[order] + movable.counts[order];
      }
    }
  }

  lemma ListedMeansPages(z: Zone, o: nat)
    requires Agree(z) && o <= MAX_ORDER
    ensures z.lists[o] != [] ==> z.tiles != []
  {
    if z.lists[o] != [] {
      var p := z.lists[o][0];
      assert p in z.lists[o] && FreeAt(z.tiles, p, o);
    }
  }

  /** Allocating and freeing again brings every free list back, and the same blocks are live as before. */
  method AllocThenFree(a: BuddyAllocator, order: nat) returns (address: nat)
    requires a.Valid()
    modifies a.bitmap, a.unmovable.Repr, a.reclaimable.Repr, a.movable.Repr
    ensures a.Valid() && |a.unmovable.z.lists| == |old(a.unmovable.z.lists)| == 11
    ensures address == 0 <==> order > 10 || forall p: nat :: !FreeRun(old(a.unmovable.z.tiles), p, order)
    ensures forall o: nat, p: nat | o <= 10 :: p in a.unmovable.z.lists[o] <==> p in old(a.unmovable.z.lists)[o]
    ensures Live(a.unmovable.z.tiles) == Live(old(a.unmovable.z.tiles))
  {
    address := a.AllocPages(order, 0);
    if address != 0 {
      ghost var p: nat :| address == a.memoryStart + p * 4096
        && Takes(old(a.unmovable.z.tiles), a.unmovable.z.tiles, Tile(p, order, false));
      FreeTaken(a, address, order, p, old(a.unmovable.z));
    }
  }

  method FreeTaken(a: BuddyAllocator, address: nat, order: nat, ghost p: nat, ghost z0: Zone)
    requires a.Valid() && Inv(z0) && address == a.memoryStart + p * 4096 && order <= 10
    requires Takes(z0.tiles, a.unmovable.z.tiles, Tile(p, order, false))
    modifies a.bitmap, a.unmovable.Repr
    ensures a.Valid() && |a.unmovable.z.lists| == |z0.lists| == 11
    ensures forall o: nat, q: nat | o <= 10 :: q in a.unmovable.z.lists[o] <==> q in z0.lists[o]
    ensures Live(a.unmovable.z.tiles) == Live(z0.tiles)
  {
    ghost var z1 := a.unmovable.z;
    assert Covers(Tile(p, order, false), p) && UsedAt(z1.tiles, p, order);
    hide Takes, Chains, CountFree;
    a.FreePages(address, order);
    GivenBack(z0, z1, a.unmovable.z, Tile(p, order, false));
  }

  lemma GivenBack(z0: Zone, z1: Zone, z2: Zone, t: Tile)
    requires Inv(z0) && Inv(z2) && Takes(z0.tiles, z1.tiles, t) && Takes(z2.tiles, z1.tiles, t)
    ensures forall o: nat, p: nat | o <= MAX_ORDER :: p in z2.lists[o] <==> p in z0.lists[o]
    ensures Live(z2.tiles) == Live(z0.tiles)
  {
    TakesDetermines(z0.tiles, z2.tiles, z1.tiles, t);
    SameUseSameLists(z0, z2);
    TakesLive(z0.tiles, z1.tiles, t);
    TakesLive(z2.tiles, z1.tiles, t);
  }
}
