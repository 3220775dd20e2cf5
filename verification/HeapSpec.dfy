/** The kernel heap as a list of blocks in address order: what allocating and freeing do to it. */
module HeapSpec {
  import opened Common

  const BLOCK_HEADER: nat := 32
  const ALLOC_HEADER: nat := 12
  const MIN_SPLIT: nat := 16

  /** A block: the address of its header, the bytes behind the header, and whether it is free. */
  datatype Block = Block(addr: nat, size: nat, free: bool)

  function End(b: Block): nat {
    b.addr + BLOCK_HEADER + b.size
  }

  function Align16(n: nat): nat {
    (n + 15) % U64 / 16 * 16
  }

  /** The bytes a request needs behind the block header, in 64-bit arithmetic. */
  function TotalSize(size: nat): nat {
    Align16((ALLOC_HEADER + size) % U64)
  }

  /** The computed size leaves room for the request if and only if the additions do not wrap. */
  lemma TotalSizeCovers(size: nat)
    requires size < U64
    ensures TotalSize(size) >= 12 + size <==> size + 27 < U64
    ensures size + 27 < U64 ==> TotalSize(size) < size + 28
    ensures TotalSize(size) % 16 == 0
  {
  }

  // ----- block lists -----

  /** The blocks lie one behind the other from start to end, with no gap and no overlap. */
  ghost predicate Tiles(bs: seq<Block>, start: nat, end: nat) {
    && |bs| > 0 && bs[0].addr == start && End(bs[|bs| - 1]) == end
    && forall i | 0 <= i < |bs| - 1 :: bs[i + 1].addr == End(bs[i])
  }

  predicate BothFree(bs: seq<Block>, i: nat)
    requires i + 1 < |bs|
  {
    bs[i].free && bs[i + 1].free
  }

  /** No two neighbours are both free. */
  ghost predicate Coalesced(bs: seq<Block>) {
    forall i | 0 <= i < |bs| - 1 :: !BothFree(bs, i)
  }

  ghost predicate Ok(bs: seq<Block>, start: nat, end: nat) {
    Tiles(bs, start, end) && Coalesced(bs)
  }

  /** The blocks handed out. */
  ghost function Used(bs: seq<Block>): set<Block> {
    set i | 0 <= i < |bs| && !bs[i].free :: bs[i]
  }

  /** Replace the blocks i .. j by others. */
  function Splice(bs: seq<Block>, i: nat, j: nat, middle: seq<Block>): seq<Block>
    requires i <= j <= |bs|
  {
    bs[..i] + middle + bs[j..]
  }

  // ----- operations -----

  /** The first free block with enough room, searching from index i. */
  function FirstFit(bs: seq<Block>, total: nat, i: nat): (k: nat)
    requires i <= |bs|
    ensures i <= k <= |bs| && (k < |bs| ==> bs[k].free && bs[k].size >= total)
    ensures forall j | i <= j < k :: !(bs[j].free && bs[j].size >= total)
    decreases |bs| - i
  {
    if i == |bs| || (bs[i].free && bs[i].size >= total) then i else FirstFit(bs, total, i + 1)
  }

  /** The blocks that replace a free block when the first total bytes of it are handed out: the rest
      becomes a free block of its own when a header and sixteen bytes fit. */
  function Carve(b: Block, total: nat): seq<Block>
    requires b.size >= total
  {
    if b.size >= total + BLOCK_HEADER + MIN_SPLIT then
      [Block(b.addr, total, false), Block(b.addr + BLOCK_HEADER + total, b.size - total - BLOCK_HEADER, true)]
    else [b.(free := false)]
  }

  /** Allocation: the new block list and the address of the block handed out. */
  function Malloc(bs: seq<Block>, total: nat): (seq<Block>, Option<nat>) {
    var k := FirstFit(bs, total, 0);
    if k == |bs| then (bs, None) else (Splice(bs, k, k + 1, Carve(bs[k], total)), Some(bs[k].addr))
  }

  /** Join block i with its right neighbour. */
  function JoinNext(bs: seq<Block>, i: nat): seq<Block>
    requires i + 1 < |bs|
  {
    Splice(bs, i, i + 2, [bs[i].(size := bs[i].size + BLOCK_HEADER + bs[i + 1].size)])
  }

  /** Join block i with its right neighbour if that is free. */
  function MergeRight(bs: seq<Block>, i: nat): (r: seq<Block>)
    requires i < |bs|
    ensures i < |r|
  {
    if i + 1 < |bs| && bs[i + 1].free then JoinNext(bs, i) else bs
  }

  /** Merge block i with its right neighbour, then the left neighbour with it. */
  function Coalesce(bs: seq<Block>, i: nat): seq<Block>
    requires i < |bs|
  {
    var right := MergeRight(bs, i);
    if i > 0 && right[i - 1].free then MergeRight(right, i - 1) else right
  }

  /** Freeing block i: mark it and coalesce around it. */
  function Free(bs: seq<Block>, i: nat): seq<Block>
    requires i < |bs|
  {
    Coalesce(bs[i := bs[i].(free := true)], i)
  }

  // ----- what they keep -----

  lemma SpliceTiles(bs: seq<Block>, start: nat, end: nat, i: nat, j: nat, middle: seq<Block>)
    requires Tiles(bs, start, end) && i < j <= |bs| && |middle| > 0 && Tiles(middle, bs[i].addr, End(bs[j - 1]))
    ensures Tiles(Splice(bs, i, j, middle), start, end)
  {
    var r := Splice(bs, i, j, middle);
    var m := |middle|;
    forall k | 0 <= k < |r| - 1 ensures r[k + 1].addr == End(r[k]) {
      if k + 1 < i {
        assert r[k] == bs[k] && r[k + 1] == bs[k + 1];
      } else if k + 1 == i {
        assert r[k] == bs[k] && r[k + 1] == middle[0] && bs[k + 1].addr == End(bs[k]);
      } else if k + 1 < i + m {
        assert r[k] == middle[k - i] && r[k + 1] == middle[k - i + 1];
      } else if k + 1 == i + m {
        assert r[k] == middle[m - 1] && r[k + 1] == bs[j] && bs[j - 1 + 1].addr == End(bs[j - 1]);
      } else {
        var q := k - i - m + j;
        assert r[k] == bs[q] && r[k + 1] == bs[q + 1];
      }
    }
  }

  lemma {:induction false} AddressesRise(bs: seq<Block>, start: nat, end: nat, i: nat, j: nat)
    requires Tiles(bs, start, end) && i < j < |bs|
    ensures End(bs[i]) <= bs[j].addr
    decreases j
  {
    if i + 1 < j { AddressesRise(bs, start, end, i, j - 1); }
    assert bs[j - 1 + 1].addr == End(bs[j - 1]);
  }

  lemma {:induction false} InsideHeap(bs: seq<Block>, start: nat, end: nat, i: nat)
    requires Tiles(bs, start, end) && i < |bs|
    ensures start <= bs[i].addr && End(bs[i]) <= end
  {
    if i > 0 { AddressesRise(bs, start, end, 0, i); }
    if i < |bs| - 1 { AddressesRise(bs, start, end, i, |bs| - 1); }
  }

  lemma UsedAppend(a: seq<Block>, b: seq<Block>)
    ensures Used(a + b) == Used(a) + Used(b)
  {
    forall v | v in Used(a) + Used(b) ensures v in Used(a + b) {
      if v in Used(a) {
        var i :| 0 <= i < |a| && !a[i].free && a[i] == v;
        assert (a + b)[i] == v;
      } else {
        var i :| 0 <= i < |b| && !b[i].free && b[i] == v;
        assert (a + b)[|a| + i] == v;
      }
    }
  }

  lemma UsedSplice(bs: seq<Block>, i: nat, j: nat, middle: seq<Block>)
    requires i <= j <= |bs|
    ensures Used(Splice(bs, i, j, middle)) == Used(bs[..i]) + Used(middle) + Used(bs[j..])
    ensures Used(bs) == Used(bs[..i]) + Used(bs[i..j]) + Used(bs[j..])
  {
    UsedAppend(bs[..i] + middle, bs[j..]);
    UsedAppend(bs[..i], middle);
    UsedAppend(bs[..i] + bs[i..j], bs[j..]);
    UsedAppend(bs[..i], bs[i..j]);
    assert bs == bs[..i] + bs[i..j] + bs[j..];
  }

  lemma UsedOne(b: Block)
    ensures Used([b]) == if b.free then {} else {b}
  {
    if !b.free { assert [b][0] in Used([b]); }
  }

  /** The block cut off a free block for a request. */
  function Taken(b: Block, total: nat): Block
    requires b.size >= total
  {
    Carve(b, total)[0]
  }

  lemma CarveFacts(b: Block, total: nat)
    requires b.free && b.size >= total
    ensures Tiles(Carve(b, total), b.addr, End(b)) && Coalesced(Carve(b, total))
    ensures Used(Carve(b, total)) == {Taken(b, total)} && !Taken(b, total).free
    ensures total <= Taken(b, total).size < total + 48 && Taken(b, total).addr == b.addr
    ensures |Carve(b, total)| == 1 || (|Carve(b, total)| == 2 && Carve(b, total)[1].size >= 16)
  {
    var c := Carve(b, total);
    UsedOne(c[0]);
    if |c| == 2 {
      UsedOne(c[1]);
      assert c == [c[0]] + [c[1]];
      UsedAppend([c[0]], [c[1]]);
    }
  }

  /** Allocation keeps the heap tiled and coalesced. A block is handed out of the first free block with
      room; the other blocks in use stay as they are. */
  lemma MallocSound(bs: seq<Block>, start: nat, end: nat, total: nat)
    requires Ok(bs, start, end) && Malloc(bs, total).1.Some?
    ensures Ok(Malloc(bs, total).0, start, end)
    ensures var k := FirstFit(bs, total, 0);
      && k < |bs| && bs[k].addr == Malloc(bs, total).1.value
      && Used(Malloc(bs, total).0) == Used(bs) + {Taken(bs[k], total)} && Taken(bs[k], total) !in Used(bs)
  {
    var k := FirstFit(bs, total, 0);
    CarveFacts(bs[k], total);
    SpliceTiles(bs, start, end, k, k + 1, Carve(bs[k], total));
    CarveCoalesced(bs, k, total);
    UsedSplice(bs, k, k + 1, Carve(bs[k], total));
    assert bs[k..k + 1] == [bs[k]];
    UsedOne(bs[k]);
    TakenIsNew(bs, start, end, k, total);
  }

  lemma CarveCoalesced(bs: seq<Block>, k: nat, total: nat)
    requires Coalesced(bs) && k < |bs| && bs[k].free && bs[k].size >= total
    ensures Coalesced(Splice(bs, k, k + 1, Carve(bs[k], total)))
  {
    var c := Carve(bs[k], total);
    var r := Splice(bs, k, k + 1, c);
    forall i | 0 <= i < |r| - 1 ensures !BothFree(r, i) {
      if i + 1 < k {
        assert r[i] == bs[i] && r[i + 1] == bs[i + 1] && !BothFree(bs, i);
      } else if i + 1 == k || i == k {
        assert r[k] == c[0] && !c[0].free;
      } else {
        var q := i - |c| + 1;
        assert r[i + 1] == bs[q + 1] && !BothFree(bs, q);
        assert if i == k + 1 && |c| == 2 then q == k else r[i] == bs[q];
      }
    }
  }

  lemma TakenIsNew(bs: seq<Block>, start: nat, end: nat, k: nat, total: nat)
    requires Tiles(bs, start, end) && k < |bs| && bs[k].free && bs[k].size >= total
    ensures Taken(bs[k], total) !in Used(bs)
  {
    forall i | 0 <= i < |bs| && !bs[i].free ensures bs[i].addr != bs[k].addr {
      if i < k { AddressesRise(bs, start, end, i, k); } else { AddressesRise(bs, start, end, k, i); }
    }
  }

  /** A run of bytes for a header and total bytes that no block in use touches. */
  ghost predicate FreeBytes(bs: seq<Block>, start: nat, end: nat, x: nat, total: nat) {
    && start <= x && x + BLOCK_HEADER + total <= end
    && forall b | b in Used(bs) :: End(b) <= x || x + BLOCK_HEADER + total <= b.addr
  }

  lemma {:induction false} BlockAt(bs: seq<Block>, start: nat, end: nat, x: nat, n: nat) returns (i: nat)
    requires Tiles(bs, start, end) && n < |bs| && start <= x < End(bs[n])
    ensures i <= n && bs[i].addr <= x < End(bs[i])
  {
    if bs[n].addr <= x {
      i := n;
    } else {
      assert n > 0;
      assert bs[n - 1 + 1].addr == End(bs[n - 1]);
      i := BlockAt(bs, start, end, x, n - 1);
    }
  }

  /** Allocation fails only when no free run of bytes is large enough: free memory is never split
      between neighbouring free blocks. */
  lemma MallocFailsOnlyWhenFull(bs: seq<Block>, start: nat, end: nat, total: nat)
    requires Ok(bs, start, end)
    ensures Malloc(bs, total).1.None? <==> forall x: nat :: !FreeBytes(bs, start, end, x, total)
  {
    var k := FirstFit(bs, total, 0);
    if k < |bs| {
      InsideHeap(bs, start, end, k);
      forall b | b in Used(bs) ensures End(b) <= bs[k].addr || bs[k].addr + BLOCK_HEADER + total <= b.addr {
        var i :| 0 <= i < |bs| && !bs[i].free && bs[i] == b;
        if i < k { AddressesRise(bs, start, end, i, k); } else { AddressesRise(bs, start, end, k, i); }
      }
      assert FreeBytes(bs, start, end, bs[k].addr, total);
    } else {
      forall x: nat ensures !FreeBytes(bs, start, end, x, total) {
        if FreeBytes(bs, start, end, x, total) { RunMeansFit(bs, start, end, x, total); }
      }
    }
  }

  lemma RunMeansFit(bs: seq<Block>, start: nat, end: nat, x: nat, total: nat)
    requires Ok(bs, start, end) && FreeBytes(bs, start, end, x, total)
    ensures FirstFit(bs, total, 0) < |bs|
  {
    var i := BlockAt(bs, start, end, x, |bs| - 1);
    RunInBlock(bs, start, end, x, total, i);
  }

  lemma RunInBlock(bs: seq<Block>, start: nat, end: nat, x: nat, total: nat, i: nat)
    requires Ok(bs, start, end) && FreeBytes(bs, start, end, x, total) && i < |bs| && bs[i].addr <= x < End(bs[i])
    ensures bs[i].free && bs[i].size >= total
  {
    assert forall k | 0 <= k < |bs| && !bs[k].free :: bs[k] in Used(bs);
    assert i + 1 < |bs| ==> !BothFree(bs, i);
    assert if i + 1 < |bs| then bs[i + 1].addr == End(bs[i]) else End(bs[i]) == end;
  }

  // ----- freeing -----

  /** Neighbours that are both free occur at most next to block i. */
  ghost predicate CoalescedExcept(bs: seq<Block>, i: nat) {
    forall k | 0 <= k < |bs| - 1 && k != i && k + 1 != i :: !BothFree(bs, k)
  }

  lemma JoinNextSound(bs: seq<Block>, start: nat, end: nat, i: nat)
    requires Tiles(bs, start, end) && i + 1 < |bs| && bs[i].free && bs[i + 1].free
    ensures Tiles(JoinNext(bs, i), start, end) && Used(JoinNext(bs, i)) == Used(bs)
  {
    var j := bs[i].(size := bs[i].size + BLOCK_HEADER + bs[i + 1].size);
    assert bs[i + 1].addr == End(bs[i]);
    SpliceTiles(bs, start, end, i, i + 2, [j]);
    UsedSplice(bs, i, i + 2, [j]);
    UsedOne(j);
    assert bs[i..i + 2] == [bs[i]] + [bs[i + 1]];
    UsedAppend([bs[i]], [bs[i + 1]]);
    UsedOne(bs[i]);
    UsedOne(bs[i + 1]);
  }

  /** Merging with the right neighbour settles the right side of block i. */
  lemma MergeRightSound(bs: seq<Block>, start: nat, end: nat, i: nat)
    requires Tiles(bs, start, end) && i < |bs| && bs[i].free && CoalescedExcept(bs, i)
    ensures var r := MergeRight(bs, i);
      && Tiles(r, start, end) && Used(r) == Used(bs) && r[i].free && r[i].addr == bs[i].addr
      && CoalescedExcept(r, i) && (i + 1 < |r| ==> !r[i + 1].free)
      && (forall k | 0 <= k < i :: r[k] == bs[k])
  {
    if i + 1 < |bs| && bs[i + 1].free {
      JoinNextSound(bs, start, end, i);
      var r := JoinNext(bs, i);
      assert forall k | i < k < |r| :: r[k] == bs[k + 1];
      assert forall k | 0 <= k < i :: r[k] == bs[k];
      forall k | 0 <= k < |r| - 1 && k != i && k + 1 != i ensures !BothFree(r, k) {
        assert !BothFree(bs, if k < i then k else k + 1);
      }
      assert i + 2 < |bs| ==> !BothFree(bs, i + 1);
    }
  }

  lemma MarkFree(bs: seq<Block>, start: nat, end: nat, i: nat)
    requires Ok(bs, start, end) && i < |bs| && !bs[i].free
    ensures var m := bs[i := bs[i].(free := true)];
      Tiles(m, start, end) && CoalescedExcept(m, i) && Used(m) == Used(bs) - {bs[i]}
  {
    var m := bs[i := bs[i].(free := true)];
    forall k | 0 <= k < |m| - 1 && k != i && k + 1 != i ensures !BothFree(m, k) { assert !BothFree(bs, k); }
    forall v | v in Used(bs) && v != bs[i] ensures v in Used(m) {
      var k :| 0 <= k < |bs| && !bs[k].free && bs[k] == v;
      assert m[k] == v;
    }
    forall v | v in Used(m) ensures v in Used(bs) && v != bs[i] {
      var k :| 0 <= k < |m| && !m[k].free && m[k] == v;
      assert bs[k] == v && k != i;
      if k < i { AddressesRise(bs, start, end, k, i); } else { AddressesRise(bs, start, end, i, k); }
    }
  }

  /** Freeing a block in use keeps the heap tiled and coalesced and gives back that block alone. */
  lemma FreeSound(bs: seq<Block>, start: nat, end: nat, i: nat)
    requires Ok(bs, start, end) && i < |bs| && !bs[i].free
    ensures Ok(Free(bs, i), start, end) && Used(Free(bs, i)) == Used(bs) - {bs[i]}
  {
    var marked := bs[i := bs[i].(free := true)];
    MarkFree(bs, start, end, i);
    MergeRightSound(marked, start, end, i);
    var right := MergeRight(marked, i);
    if i > 0 && right[i - 1].free {
      assert i > 1 ==> !BothFree(bs, i - 2) && right[i - 2] == bs[i - 2];
      MergeLeft(right, start, end, i);
    }
  }

  lemma MergeLeft(bs: seq<Block>, start: nat, end: nat, i: nat)
    requires Tiles(bs, start, end) && 0 < i < |bs| && bs[i - 1].free && bs[i].free
    requires CoalescedExcept(bs, i) && (i + 1 < |bs| ==> !bs[i + 1].free)
    ensures Ok(MergeRight(bs, i - 1), start, end) && Used(MergeRight(bs, i - 1)) == Used(bs)
  {
    JoinNextSound(bs, start, end, i - 1);
    var r := JoinNext(bs, i - 1);
    forall k | 0 <= k < |r| - 1 ensures !BothFree(r, k) {
      if k + 1 < i - 1 {
        assert r[k] == bs[k] && r[k + 1] == bs[k + 1] && !BothFree(bs, k);
      } else if k + 1 == i - 1 {
        assert r[k] == bs[k] && !BothFree(bs, k);
      } else {
        assert r[k + 1] == bs[k + 2];
        assert k > i - 1 ==> r[k] == bs[k + 1] && !BothFree(bs, k + 1);
      }
    }
  }

  /** With nothing in use the heap is the one free block it started as. */
  lemma NothingUsedOneBlock(bs: seq<Block>, start: nat, end: nat)
    requires Ok(bs, start, end) && Used(bs) == {}
    ensures end >= start + BLOCK_HEADER && bs == [Block(start, end - start - BLOCK_HEADER, true)]
  {
    assert forall k | 0 <= k < |bs| && !bs[k].free :: bs[k] in Used(bs);
    assert |bs| > 1 ==> !BothFree(bs, 0);
  }

  // ----- the blocks in use determine the rest -----

  lemma SameAddress(bs: seq<Block>, start: nat, end: nat, i: nat, b: Block)
    requires Tiles(bs, start, end) && i < |bs| && b in Used(bs) && b.addr == bs[i].addr
    ensures b == bs[i]
  {
    var k :| 0 <= k < |bs| && !bs[k].free && bs[k] == b;
    if k < i { AddressesRise(bs, start, end, k, i); }
    if i < k { AddressesRise(bs, start, end, i, k); }
  }

  /** Behind a free block comes a block in use or the end of the heap; so the free block of one list does not
      end before that of another with the same blocks in use. */
  lemma FreeEndsAlike(bs: seq<Block>, cs: seq<Block>, start: nat, end: nat, i: nat)
    requires Ok(bs, start, end) && Ok(cs, start, end) && Used(bs) == Used(cs) && i < |bs| && i < |cs|
    requires bs[i].addr == cs[i].addr && bs[i].free && cs[i].free
    ensures End(cs[i]) >= End(bs[i])
  {
    if End(cs[i]) < End(bs[i]) {
      InsideHeap(bs, start, end, i);
      assert i + 1 < |cs| && cs[i + 1].addr == End(cs[i]);
      assert !BothFree(cs, i) && cs[i + 1] in Used(bs);
      var k :| 0 <= k < |bs| && !bs[k].free && bs[k] == cs[i + 1];
      if k < i { AddressesRise(bs, start, end, k, i); }
      if i < k { AddressesRise(bs, start, end, i, k); }
    }
  }

  lemma SameBlockAt(bs: seq<Block>, cs: seq<Block>, start: nat, end: nat, i: nat)
    requires Ok(bs, start, end) && Ok(cs, start, end) && Used(bs) == Used(cs) && i < |bs| && i < |cs|
    requires bs[i].addr == cs[i].addr
    ensures bs[i] == cs[i]
  {
    if !bs[i].free {
      assert bs[i] in Used(cs);
      SameAddress(cs, start, end, i, bs[i]);
    } else if !cs[i].free {
      assert cs[i] in Used(bs);
      SameAddress(bs, start, end, i, cs[i]);
    } else {
      FreeEndsAlike(bs, cs, start, end, i);
      FreeEndsAlike(cs, bs, start, end, i);
    }
  }

  lemma {:induction false} SamePrefix(bs: seq<Block>, cs: seq<Block>, start: nat, end: nat, n: nat)
    requires Ok(bs, start, end) && Ok(cs, start, end) && Used(bs) == Used(cs) && n <= |bs| && n <= |cs|
    ensures forall i | 0 <= i < n :: bs[i] == cs[i]
  {
    if n > 0 {
      SamePrefix(bs, cs, start, end, n - 1);
      assert n > 1 ==> bs[n - 2 + 1].addr == End(bs[n - 2]) && cs[n - 2 + 1].addr == End(cs[n - 2]);
      SameBlockAt(bs, cs, start, end, n - 1);
    }
  }

  lemma NotShorter(bs: seq<Block>, cs: seq<Block>, start: nat, end: nat)
    requires Tiles(bs, start, end) && Tiles(cs, start, end) && |bs| <= |cs|
    requires forall i | 0 <= i < |bs| :: bs[i] == cs[i]
    ensures |bs| == |cs|
  {
    if |bs| < |cs| {
      assert cs[|bs| - 1 + 1].addr == End(cs[|bs| - 1]);
      InsideHeap(cs, start, end, |bs|);
    }
  }

  /** Two heaps in order with the same blocks in use are the same heap, whatever their histories. */
  lemma UsedDetermines(bs: seq<Block>, cs: seq<Block>, start: nat, end: nat)
    requires Ok(bs, start, end) && Ok(cs, start, end) && Used(bs) == Used(cs)
    ensures bs == cs
  {
    SamePrefix(bs, cs, start, end, if |bs| <= |cs| then |bs| else |cs|);
    if |bs| <= |cs| { NotShorter(bs, cs, start, end); } else { NotShorter(cs, bs, start, end); }
  }

  // ----- runs -----

  /** A request: an allocation, or the free of the block in use at an address. */
  datatype Op = MallocOp(size: nat) | FreeOp(addr: nat)

  /** The index of the block in use at an address, or the number of blocks. */
  function IndexOf(bs: seq<Block>, addr: nat, i: nat): (k: nat)
    requires i <= |bs|
    ensures i <= k <= |bs| && (k < |bs| ==> bs[k].addr == addr && !bs[k].free)
    ensures k == |bs| ==> forall j | i <= j < |bs| :: !(bs[j].addr == addr && !bs[j].free)
    decreases |bs| - i
  {
    if i == |bs| || (bs[i].addr == addr && !bs[i].free) then i else IndexOf(bs, addr, i + 1)
  }

  function Apply(bs: seq<Block>, op: Op): seq<Block> {
    match op
    case MallocOp(size) => if size == 0 then bs else Malloc(bs, TotalSize(size)).0
    case FreeOp(addr) => var i := IndexOf(bs, addr, 0); if i < |bs| then Free(bs, i) else bs
  }

  function Run(bs: seq<Block>, ops: seq<Op>): seq<Block>
    decreases |ops|
  {
    if ops == [] then bs else Run(Apply(bs, ops[0]), ops[1..])
  }

  /** What a request does to the blocks in use. A free takes out exactly the block at its address, if one is in
      use there. An allocation of n bytes adds exactly one block, of the least multiple of sixteen that holds
      twelve bytes more and at most 47 bytes on top, unless n is zero or no run of free bytes is large enough. */
  lemma ApplyEffect(bs: seq<Block>, start: nat, end: nat, op: Op)
    requires Ok(bs, start, end)
    ensures Ok(Apply(bs, op), start, end)
    ensures op.FreeOp? ==> forall b | b in Used(bs) && b.addr == op.addr :: Used(Apply(bs, op)) == Used(bs) - {b}
    ensures op.FreeOp? && (forall b | b in Used(bs) :: b.addr != op.addr) ==> Apply(bs, op) == bs
    ensures op.MallocOp? && (op.size == 0 || forall x: nat :: !FreeBytes(bs, start, end, x, TotalSize(op.size))) ==>
      Apply(bs, op) == bs
    ensures op.MallocOp? && op.size != 0 && (exists x: nat :: FreeBytes(bs, start, end, x, TotalSize(op.size))) ==>
      exists b: Block :: b !in Used(bs) && Used(Apply(bs, op)) == Used(bs) + {b}
        && TotalSize(op.size) <= b.size < TotalSize(op.size) + 48
  {
    match op
    case MallocOp(size) =>
      var total := TotalSize(size);
      MallocFailsOnlyWhenFull(bs, start, end, total);
      if size != 0 && Malloc(bs, total).1.Some? {
        MallocSound(bs, start, end, total);
        CarveFacts(bs[FirstFit(bs, total, 0)], total);
      }
    case FreeOp(addr) =>
      var i := IndexOf(bs, addr, 0);
      if i < |bs| {
        FreeSound(bs, start, end, i);
        forall b | b in Used(bs) && b.addr == addr ensures b == bs[i] { SameAddress(bs, start, end, i, b); }
        assert bs[i] in Used(bs);
      } else {
        assert forall j | 0 <= j < |bs| && !bs[j].free :: bs[j].addr != addr;
      }
  }

  lemma {:induction false} RunSound(bs: seq<Block>, start: nat, end: nat, ops: seq<Op>)
    requires Ok(bs, start, end)
    ensures Ok(Run(bs, ops), start, end)
    decreases |ops|
  {
    if ops != [] {
      var op := ops[0];
      ApplyEffect(bs, start, end, op);
      RunSound(Apply(bs, op), start, end, ops[1..]);
    }
  }

  /** After any run of requests from the initial single block, once nothing is in use the heap is that
      single block again. */
  lemma FreedAllRestoresHeap(start: nat, size: nat, ops: seq<Op>)
    requires size >= BLOCK_HEADER
    requires Used(Run([Block(start, size - BLOCK_HEADER, true)], ops)) == {}
    ensures Run([Block(start, size - BLOCK_HEADER, true)], ops) == [Block(start, size - BLOCK_HEADER, true)]
  {
    var bs := [Block(start, size - BLOCK_HEADER, true)];
    RunSound(bs, start, start + size, ops);
    NothingUsedOneBlock(Run(bs, ops), start, start + size);
  }

  // ----- payloads -----

  /** The bytes a client may use: behind both headers. */
  function Payload(b: Block): nat {
    b.addr + BLOCK_HEADER + ALLOC_HEADER
  }

  /** Payloads of different blocks in use, their headers included, never overlap. */
  lemma PayloadsApart(bs: seq<Block>, start: nat, end: nat, b: Block, c: Block)
    requires Ok(bs, start, end) && b in Used(bs) && c in Used(bs) && b != c
    ensures End(b) <= c.addr || End(c) <= b.addr
    ensures start <= b.addr && End(b) <= end
  {
    var i :| 0 <= i < |bs| && !bs[i].free && bs[i] == b;
    var j :| 0 <= j < |bs| && !bs[j].free && bs[j] == c;
    InsideHeap(bs, start, end, i);
    if i < j { AddressesRise(bs, start, end, i, j); } else { AddressesRise(bs, start, end, j, i); }
  }

  /** The payload handed out has the requested room if the size computation does not wrap, and, in a heap
      of 64-bit addresses, only if it does not. */
  lemma PayloadRoom(bs: seq<Block>, start: nat, end: nat, size: nat)
    requires Ok(bs, start, end) && size < U64 && Malloc(bs, TotalSize(size)).1.Some?
    ensures var b := Taken(bs[FirstFit(bs, TotalSize(size), 0)], TotalSize(size));
      && b in Used(Malloc(bs, TotalSize(size)).0)
      && Payload(b) == b.addr + 44
      && (size + 27 < U64 ==> Payload(b) + size <= End(b))
      && (end <= U64 ==> (Payload(b) + size <= End(b) <==> size + 27 < U64))
  {
    var k := FirstFit(bs, TotalSize(size), 0);
    MallocSound(bs, start, end, TotalSize(size));
    TotalSizeCovers(size);
    CarveFacts(bs[k], TotalSize(size));
    InsideHeap(bs, start, end, k);
  }

  /** The largest request of all is granted by any heap with a free block: it is given sixteen bytes. */
  lemma WrappedRequest(start: nat, free: nat)
    requires free >= 64
    ensures TotalSize(U64 - 1) == 16
    ensures var bs := [Block(start, free, true)];
      Malloc(bs, TotalSize(U64 - 1)) ==
        ([Block(start, 16, false), Block(start + BLOCK_HEADER + 16, free - 16 - BLOCK_HEADER, true)], Some(start))
  {
    var bs := [Block(start, free, true)];
    assert FirstFit(bs, 16, 0) == 0;
    assert Splice(bs, 0, 1, Carve(bs[0], 16)) == Carve(bs[0], 16);
  }
}
