/** The kernel heap as it runs: block headers linked in both directions inside the heap, a second
    header in front of every payload, and the bytes of the payloads. */
module Heap {
  import opened Common
  import opened HeapSpec

  const NULL: nat := 0
  const MAGIC: nat := 0xDEAD_BEEF
  const FROM_HEAP: nat := 2

  datatype Header = Header(size: nat, free: bool, next: nat, prev: nat)

  datatype AllocHeader = AllocHeader(magic: nat, size: nat, flags: nat)

  // ----- header links -----

  function NextOf(bs: seq<Block>, i: nat): nat {
    if i + 1 < |bs| then bs[i + 1].addr else NULL
  }

  function PrevOf(bs: seq<Block>, i: nat): nat {
    if 0 < i <= |bs| then bs[i - 1].addr else NULL
  }

  ghost predicate Node(hdr: map<nat, Header>, bs: seq<Block>, i: nat)
    requires i < |bs|
  {
    bs[i].addr in hdr && hdr[bs[i].addr] == Header(bs[i].size, bs[i].free, NextOf(bs, i), PrevOf(bs, i))
  }

  /** The headers in memory describe the block list and link it in both directions. */
  ghost predicate Linked(hdr: map<nat, Header>, bs: seq<Block>) {
    forall i | 0 <= i < |bs| :: Node(hdr, bs, i)
  }

  ghost predicate SameHeader(hdr: map<nat, Header>, hdr': map<nat, Header>, a: nat) {
    a in hdr && a in hdr' && hdr'[a] == hdr[a]
  }

  /** Replacing blocks i .. j by others that start at the same address needs, outside them, only the
      back link of the block behind. */
  lemma Relink(hdr: map<nat, Header>, hdr': map<nat, Header>, bs: seq<Block>, i: nat, j: nat, middle: seq<Block>)
    requires Linked(hdr, bs) && i < j <= |bs| && |middle| > 0 && middle[0].addr == bs[i].addr
    requires forall k | 0 <= k < |bs| && (k < i || k > j) :: SameHeader(hdr, hdr', bs[k].addr)
    requires j < |bs| ==> bs[j].addr in hdr && bs[j].addr in hdr'
    requires j < |bs| ==> hdr'[bs[j].addr] == hdr[bs[j].addr].(prev := middle[|middle| - 1].addr)
    requires forall q | i <= q < i + |middle| :: Node(hdr', Splice(bs, i, j, middle), q)
    ensures Linked(hdr', Splice(bs, i, j, middle))
  {
    var r, m := Splice(bs, i, j, middle), |middle|;
    forall k | 0 <= k < |r| ensures Node(hdr', r, k) {
      if k < i {
        assert Node(hdr, bs, k) && r[k] == bs[k] && SameHeader(hdr, hdr', bs[k].addr);
        assert NextOf(r, k) == NextOf(bs, k) && PrevOf(r, k) == PrevOf(bs, k);
      } else if k < i + m {
        assert Node(hdr', r, k);
      } else {
        var q := k - i - m + j;
        assert Node(hdr, bs, q) && r[k] == bs[q] && (q > j ==> SameHeader(hdr, hdr', bs[q].addr));
        assert NextOf(r, k) == NextOf(bs, q);
        assert PrevOf(r, k) == if q == j then middle[m - 1].addr else PrevOf(bs, q);
      }
    }
  }

  lemma AddressesDiffer(bs: seq<Block>, start: nat, end: nat, k: nat)
    requires Tiles(bs, start, end) && k < |bs|
    ensures forall i | 0 <= i < |bs| && i != k :: bs[i].addr != bs[k].addr && !(bs[k].addr <= bs[i].addr < End(bs[k]))
  {
    forall i | 0 <= i < |bs| && i != k ensures bs[i].addr != bs[k].addr && !(bs[k].addr <= bs[i].addr < End(bs[k])) {
      if i < k { AddressesRise(bs, start, end, i, k); } else { AddressesRise(bs, start, end, k, i); }
    }
  }

  /** Setting the free flag of one header changes that block alone. */
  lemma FlagLinks(hdr: map<nat, Header>, bs: seq<Block>, start: nat, end: nat, k: nat, free: bool)
    requires Tiles(bs, start, end) && Linked(hdr, bs) && k < |bs| && Node(hdr, bs, k)
    ensures Linked(hdr[bs[k].addr := hdr[bs[k].addr].(free := free)], bs[k := bs[k].(free := free)])
  {
    var hdr', r := hdr[bs[k].addr := hdr[bs[k].addr].(free := free)], bs[k := bs[k].(free := free)];
    AddressesDiffer(bs, start, end, k);
    forall i | 0 <= i < |r| ensures Node(hdr', r, i) {
      assert Node(hdr, bs, i);
      assert NextOf(r, i) == NextOf(bs, i) && PrevOf(r, i) == PrevOf(bs, i);
    }
  }

  /** The pieces split_block leaves of a block. */
  function Pieces(b: Block, total: nat): seq<Block>
    requires b.size >= total
  {
    if b.size >= total + BLOCK_HEADER + MIN_SPLIT then
      [Block(b.addr, total, b.free), Block(b.addr + BLOCK_HEADER + total, b.size - total - BLOCK_HEADER, true)]
    else [b]
  }

  /** The headers with the back link of the block behind index j set. */
  function BackLink(hdr: map<nat, Header>, next: nat, prev: nat): map<nat, Header>
    requires next == NULL || next in hdr
  {
    if next == NULL then hdr else hdr[next := hdr[next].(prev := prev)]
  }

  lemma SplitLinks(hdr: map<nat, Header>, bs: seq<Block>, start: nat, end: nat, k: nat, total: nat)
    requires start > 0 && Tiles(bs, start, end) && Linked(hdr, bs) && k < |bs| && Node(hdr, bs, k)
    requires bs[k].size >= total + BLOCK_HEADER + MIN_SPLIT
    requires NextOf(bs, k) == NULL || NextOf(bs, k) in hdr
    ensures var b, n := bs[k].addr, bs[k].addr + BLOCK_HEADER + total;
      var h := BackLink(hdr[n := Header(bs[k].size - total - BLOCK_HEADER, true, NextOf(bs, k), b)], NextOf(bs, k), n);
      Linked(h[b := Header(total, bs[k].free, n, PrevOf(bs, k))], Splice(bs, k, k + 1, Pieces(bs[k], total)))
  {
    var b, n, m := bs[k].addr, bs[k].addr + BLOCK_HEADER + total, Pieces(bs[k], total);
    var h := BackLink(hdr[n := Header(bs[k].size - total - BLOCK_HEADER, true, NextOf(bs, k), b)], NextOf(bs, k), n);
    var hdr' := h[b := Header(total, bs[k].free, n, PrevOf(bs, k))];
    var r := Splice(bs, k, k + 1, m);
    AddressesDiffer(bs, start, end, k);
    if k + 1 < |bs| { AddressesDiffer(bs, start, end, k + 1); }
    forall i | 0 <= i < |bs| && (i < k || i > k + 1)
      ensures SameHeader(hdr, hdr', bs[i].addr)
    {
      assert Node(hdr, bs, i);
    }
    if k + 1 < |bs| { assert Node(hdr, bs, k + 1); }
    assert r[k] == m[0] && r[k + 1] == m[1];
    assert k + 1 < |bs| ==> r[k + 2] == bs[k + 1];
    assert Node(hdr', r, k);
    assert Node(hdr', r, k + 1);
    Relink(hdr, hdr', bs, k, k + 1, m);
  }

  /** Unlinking the right neighbour joins it to block k. */
  lemma JoinLinks(hdr: map<nat, Header>, bs: seq<Block>, start: nat, end: nat, k: nat)
    requires start > 0 && Tiles(bs, start, end) && Linked(hdr, bs) && k + 1 < |bs| && Node(hdr, bs, k)
    requires NextOf(bs, k + 1) == NULL || NextOf(bs, k + 1) in hdr
    ensures var b, nx := bs[k].addr, NextOf(bs, k + 1);
      var h := hdr[b := Header(bs[k].size + BLOCK_HEADER + bs[k + 1].size, bs[k].free, nx, PrevOf(bs, k))];
      Linked(BackLink(h, nx, b), JoinNext(bs, k))
  {
    var b, nx := bs[k].addr, NextOf(bs, k + 1);
    var j := bs[k].(size := bs[k].size + BLOCK_HEADER + bs[k + 1].size);
    var h := hdr[b := Header(j.size, bs[k].free, nx, PrevOf(bs, k))];
    var hdr' := BackLink(h, nx, b);
    var r := Splice(bs, k, k + 2, [j]);
    AddressesDiffer(bs, start, end, k);
    if k + 2 < |bs| { AddressesDiffer(bs, start, end, k + 2); }
    forall i | 0 <= i < |bs| && (i < k || i > k + 2)
      ensures SameHeader(hdr, hdr', bs[i].addr)
    {
      assert Node(hdr, bs, i);
    }
    if k + 2 < |bs| { assert Node(hdr, bs, k + 2); }
    assert r[k] == j && (k + 2 < |bs| ==> r[k + 1] == bs[k + 2]);
    assert Node(hdr', r, k);
    Relink(hdr, hdr', bs, k, k + 2, [j]);
  }

  /** The header in front of the payload of a block in use records the requested size. */
  ghost predicate AllocOk(allocs: map<nat, AllocHeader>, b: Block) {
    var a := b.addr + BLOCK_HEADER;
    a in allocs && allocs[a].magic == MAGIC && allocs[a].flags == FROM_HEAP && ALLOC_HEADER + allocs[a].size <= b.size
  }

  ghost predicate Recorded(allocs: map<nat, AllocHeader>, used: set<Block>) {
    forall b | b in used :: AllocOk(allocs, b)
  }

  lemma RecordOne(allocs: map<nat, AllocHeader>, used: set<Block>, t: Block, n: nat)
    requires Recorded(allocs, used) && n + ALLOC_HEADER <= t.size && forall b | b in used :: b.addr != t.addr
    ensures Recorded(allocs[t.addr + BLOCK_HEADER := AllocHeader(MAGIC, n, FROM_HEAP)], used + {t})
  {
    forall b | b in used + {t} ensures AllocOk(allocs[t.addr + BLOCK_HEADER := AllocHeader(MAGIC, n, FROM_HEAP)], b) {
      assert b != t ==> AllocOk(allocs, b);
    }
  }

  /** No run of bytes for a block header and total bytes lies outside the blocks in use. */
  ghost predicate Full(bs: seq<Block>, start: nat, end: nat, total: nat) {
    forall x: nat :: !FreeBytes(bs, start, end, x, total)
  }

  /** The header in front of the payload at p says that it is an allocation of n bytes from the heap. */
  ghost predicate Says(allocs: map<nat, AllocHeader>, n: nat, p: nat) {
    p >= 12 && p - 12 in allocs && allocs[p - 12] == AllocHeader(0xDEAD_BEEF, n, 2)
  }

  /** One block more is in use: the payload at p begins 44 bytes into it and has room for n bytes. */
  ghost predicate OneMore(used: set<Block>, used': set<Block>, n: nat, p: nat) {
    exists b: Block :: b !in used && used' == used + {b} && b.addr + 44 == p && 12 + n <= b.size
  }

  /** One block less is in use, the one with the payload at p. */
  ghost predicate OneLess(used: set<Block>, used': set<Block>, p: nat) {
    exists b: Block | b in used :: used' == used - {b} && b.addr + 44 == p
  }

  /** The block with the payload at p has given way to one with room for n bytes and its payload at q. */
  ghost predicate OneForAnother(used: set<Block>, used': set<Block>, p: nat, n: nat, q: nat) {
    exists b, c: Block | b in used && c !in used ::
      used' == used + {c} - {b} && b.addr + 44 == p && c.addr + 44 == q && 12 + n <= c.size
  }

  lemma MoreThenLess(used: set<Block>, used1: set<Block>, used2: set<Block>, p: nat, n: nat, q: nat)
    requires OneMore(used, used1, n, q) && OneLess(used1, used2, p) && p != q
    ensures OneForAnother(used, used2, p, n, q)
  {
    var c: Block :| c !in used && used1 == used + {c} && c.addr + 44 == q && 12 + n <= c.size;
    var b: Block :| b in used1 && used2 == used1 - {b} && b.addr + 44 == p;
    assert b in used && used2 == used + {c} - {b};
  }

  // ----- the heap -----

  class KernelHeap {
    const start: nat
    const size: nat
    var hdr: map<nat, Header>
    var allocs: map<nat, AllocHeader>
    const bytes: array<Byte>
    ghost var blocks: seq<Block>

    /** The headers in memory are the block list, and the blocks tile the heap. */
    ghost predicate Laid()
      reads this
    {
      start > 0 && bytes.Length == size < U32 && Tiles(blocks, start, start + size) && Linked(hdr, blocks)
    }

    ghost predicate Shape()
      reads this
    {
      Laid() && Coalesced(blocks)
    }

    ghost predicate Valid()
      reads this
    {
      Shape() && Recorded(allocs, Used(blocks))
    }

    /** heap_init: one free block over the whole range. */
    constructor (heapStart: nat, heapSize: nat)
      requires heapStart > 0 && BLOCK_HEADER <= heapSize < U32
      ensures Valid() && start == heapStart && size == heapSize
      ensures blocks == [Block(heapStart, heapSize - BLOCK_HEADER, true)]
    {
      start, size := heapStart, heapSize;
      bytes := new Byte[heapSize](_ => 0);
      hdr := map[heapStart := Header(heapSize - BLOCK_HEADER, true, NULL, NULL)];
      allocs := map[];
      blocks := [Block(heapStart, heapSize - BLOCK_HEADER, true)];
    }

    /** Bytes that a header occupies are overwritten when it is written. */
    method Clobber(a: nat, n: nat)
      requires start <= a && a + n <= start + bytes.Length
      modifies bytes
      ensures forall k | 0 <= k < bytes.Length && !(a <= start + k < a + n) :: bytes[k] == old(bytes[k])
    {
      for k := 0 to n
        invariant forall j | 0 <= j < bytes.Length && !(a <= start + j < a + n) :: bytes[j] == old(bytes[j])
      {
        bytes[a - start + k] := 0;
      }
    }

    /** Walk the list to the first free block with enough room; NULL when there is none. */
    method Search(total: nat) returns (b: nat, ghost k: nat)
      requires Shape()
      ensures k == FirstFit(blocks, total, 0)
      ensures b == (if k < |blocks| then blocks[k].addr else NULL) && (b == NULL <==> k == |blocks|)
      ensures b != NULL <==> FirstFit(blocks, total, 0) < |blocks|
      ensures b != NULL ==> b == blocks[FirstFit(blocks, total, 0)].addr
    {
      k := 0;
      b := start;
      while b != NULL && !(hdr[b].free && hdr[b].size >= total)
        invariant k <= |blocks| && b == (if k < |blocks| then blocks[k].addr else NULL)
        invariant b != NULL ==> k < |blocks| && Node(hdr, blocks, k)
        invariant FirstFit(blocks, total, k) == FirstFit(blocks, total, 0)
        decreases |blocks| - k
      {
        b := hdr[b].next;
        k := k + 1;
        if k < |blocks| { assert Node(hdr, blocks, k); }
      }
      if k < |blocks| { InsideHeap(blocks, start, start + size, k); }
    }

    /** split_block: cut a block in two when a header and sixteen bytes fit behind the wanted size. */
    method SplitBlock(b: nat, total: nat, ghost k: nat)
      requires Laid() && k < |blocks| && blocks[k].addr == b && blocks[k].size >= total
      modifies this`hdr, bytes
      ensures Linked(hdr, Splice(blocks, k, k + 1, Pieces(blocks[k], total)))
      ensures BytesOutside(old(bytes[..]), bytes[..], b - start, End(blocks[k]) - start)
    {
      InsideHeap(blocks, start, start + size, k);
      assert Node(hdr, blocks, k);
      if k + 1 < |blocks| { assert Node(hdr, blocks, k + 1); }
      if hdr[b].size >= total + BLOCK_HEADER + MIN_SPLIT {
        SplitLinks(hdr, blocks, start, start + size, k, total);
        var n, next := b + BLOCK_HEADER + total, hdr[b].next;
        Clobber(n, BLOCK_HEADER);
        hdr := hdr[n := Header(hdr[b].size - total - BLOCK_HEADER, true, next, b)];
        if next != NULL { hdr := hdr[next := hdr[next].(prev := n)]; }
        hdr := hdr[b := Header(total, hdr[b].free, n, hdr[b].prev)];
      } else {
        assert Splice(blocks, k, k + 1, Pieces(blocks[k], total)) == blocks;
      }
    }

    /** Cut a free block down to the wanted size and mark it used. */
    method Carve(b: nat, total: nat, ghost k: nat)
      requires Shape() && k < |blocks| && blocks[k].addr == b && blocks[k].free && blocks[k].size >= total
      modifies this`hdr, this`blocks, bytes
      ensures Shape() && blocks == Splice(old(blocks), k, k + 1, HeapSpec.Carve(old(blocks)[k], total))
      ensures BytesOutside(old(bytes[..]), bytes[..], b - start, End(old(blocks)[k]) - start)
    {
      ghost var bs, mid := blocks, Splice(blocks, k, k + 1, Pieces(blocks[k], total));
      CarveOk(bs, start, start + size, k, total);
      PiecesTile(bs, start, start + size, k, total);
      SplitBlock(b, total, k);
      assert Node(hdr, mid, k);
      FlagLinks(hdr, mid, start, start + size, k, false);
      hdr := hdr[b := hdr[b].(free := false)];
      blocks := mid[k := mid[k].(free := false)];
    }

    /** Absorb the right neighbour of a free block if it is free too. */
    method MergeNext(b: nat, ghost k: nat)
      requires Laid() && k < |blocks| && blocks[k].addr == b && blocks[k].free
      modifies this`hdr, this`blocks
      ensures Laid() && blocks == MergeRight(old(blocks), k)
    {
      ghost var bs := blocks;
      InsideHeap(bs, start, start + size, k);
      assert Node(hdr, bs, k);
      var next := hdr[b].next;
      if k + 1 < |bs| { assert Node(hdr, bs, k + 1); }
      if next != NULL && hdr[next].free {
        AddressesDiffer(bs, start, start + size, k);
        if k + 2 < |bs| { assert Node(hdr, bs, k + 2); }
        JoinLinks(hdr, bs, start, start + size, k);
        JoinNextSound(bs, start, start + size, k);
        var far := hdr[next].next;
        hdr := hdr[b := hdr[b].(size := hdr[b].size + BLOCK_HEADER + hdr[next].size, next := far)];
        if far != NULL { hdr := hdr[far := hdr[far].(prev := b)]; }
        blocks := JoinNext(bs, k);
      }
    }

    method CoalesceBlock(b: nat, ghost k: nat)
      requires Laid() && k < |blocks| && blocks[k].addr == b && blocks[k].free
      modifies this`hdr, this`blocks
      ensures Laid() && blocks == Coalesce(old(blocks), k)
    {
      MergeNext(b, k);
      assert Node(hdr, blocks, k);
      var prev := hdr[b].prev;
      if k > 0 {
        assert Node(hdr, blocks, k - 1);
        InsideHeap(blocks, start, start + size, k - 1);
      }
      if prev != NULL && hdr[prev].free { MergeNext(prev, k - 1); }
    }

    // ----- the allocator's interface -----

    /** The address of a payload in use. */
    ghost predicate Live(p: nat)
      reads this
    {
      exists b | b in Used(blocks) :: b.addr + 44 == p
    }

    /** The index of the block whose payload is in use at an address. */
    ghost function Index(p: nat): (k: nat)
      requires Shape() && Live(p)
      reads this
      ensures k < |blocks| && !blocks[k].free && blocks[k].addr + 44 == p && blocks[k] in Used(blocks)
      ensures k == IndexOf(blocks, p - BLOCK_HEADER - ALLOC_HEADER, 0)
    {
      var b :| b in Used(blocks) && b.addr + 44 == p;
      IndexOf(blocks, b.addr, 0)
    }

    /** Carve the block for a request out of free block k and fill in the header of its payload. */
    method HandOut(b: nat, n: nat, total: nat, ghost k: nat)
      requires Valid() && k < |blocks| && blocks[k].addr == b && blocks[k].free
      requires blocks[k].size >= total >= ALLOC_HEADER + n
      requires Used(Splice(blocks, k, k + 1, HeapSpec.Carve(blocks[k], total))) ==
        Used(blocks) + {Taken(blocks[k], total)} && Taken(blocks[k], total) !in Used(blocks)
      modifies this`hdr, this`allocs, this`blocks, bytes
      ensures Valid() && blocks == Splice(old(blocks), k, k + 1, HeapSpec.Carve(old(blocks)[k], total))
      ensures Given(n, b + 44)
      ensures AllKept(old(allocs), allocs, old(bytes[..]), bytes[..], start, old(Used(blocks)))
    {
      ghost var bs, used, t, before := blocks, Used(blocks), Taken(blocks[k], total), bytes[..];
      InsideHeap(bs, start, start + size, k);
      ApartFromFree(bs, start, start + size, k);
      CarveFacts(bs[k], total);
      Carve(b, total, k);
      assert Used(blocks) == used + {t};
      Clobber(b + BLOCK_HEADER, ALLOC_HEADER);
      SmallWord(n, U32);
      RecordOne(allocs, used, t, n);
      KeepOthers(allocs, before, bytes[..], start, used, bs[k], AllocHeader(MAGIC, n, FROM_HEAP));
      allocs := allocs[b + BLOCK_HEADER := AllocHeader(MAGIC, n % U32, FROM_HEAP)];
    }

    /** Blocks, payload headers and payload bytes are as before. */
    twostate predicate Unchanged()
      reads this, bytes
    {
      blocks == old(blocks) && allocs == old(allocs) && bytes[..] == old(bytes[..])
    }

    /** No run of bytes outside the blocks in use holds both headers and n bytes, rounded up to sixteen. */
    ghost predicate NoRoom(n: nat)
      reads this
    {
      Full(blocks, start, start + size, (n + 27) / 16 * 16)
    }

    /** A new block is in use for the payload at p, and the header in front of the payload says so. */
    twostate predicate Given(n: nat, p: nat)
      reads this
    {
      OneMore(old(Used(blocks)), Used(blocks), n, p) && Says(allocs, n, p)
    }

    /** One block less is in use, the one with the payload at p. */
    twostate predicate Freed(p: nat)
      reads this
    {
      OneLess(old(Used(blocks)), Used(blocks), p)
    }

    /** The block with the payload at p has given way to one with room for n bytes and its payload at q. */
    twostate predicate Exchanged(p: nat, n: nat, q: nat)
      reads this
    {
      OneForAnother(old(Used(blocks)), Used(blocks), p, n, q) && Says(allocs, n, q)
    }

    /** What kmalloc does: hand out the payload of the first free block with room, leaving every payload
        in use alone, or return NULL and change nothing. */
    twostate predicate Allocated(n: nat, p: nat)
      reads this, bytes
    {
      && blocks == Apply(old(blocks), MallocOp(n))
      && AllKept(old(allocs), allocs, old(bytes[..]), bytes[..], start, old(Used(blocks)))
      && (p == 0 <==> n == 0 || old(NoRoom(n))) && (p == 0 ==> Unchanged()) && (p != 0 ==> Given(n, p))
      && (p != 0 ==>
        && p >= BLOCK_HEADER + ALLOC_HEADER && Malloc(old(blocks), TotalSize(n)).1.Some?
        && Malloc(old(blocks), TotalSize(n)).1.value == p - BLOCK_HEADER - ALLOC_HEADER)
    }

    /** kmalloc on the heap route. */
    method Kmalloc(n: nat) returns (p: nat)
      requires Valid() && n + ALLOC_HEADER + 15 < U64
      modifies this`hdr, this`allocs, this`blocks, bytes
      ensures Valid() && Allocated(n, p)
    {
      hide Tiles, Linked, Recorded, FreeBytes, OneMore, Says;
      p := NULL;
      if n == 0 {
        NothingChanged(allocs, bytes[..], start, Used(blocks));
        return;
      }
      var total := TotalSize(n);
      TotalSizeIs(n);
      MallocFailsOnlyWhenFull(blocks, start, start + size, total);
      var b, k := Search(total);
      if b == NULL {
        NothingChanged(allocs, bytes[..], start, Used(blocks));
        return;
      }
      MallocSound(blocks, start, start + size, total);
      TotalSizeCovers(n);
      HandOut(b, n, total, k);
      p := b + BLOCK_HEADER + ALLOC_HEADER;
    }

    /** The header read in front of an address: the one recorded there, or else whatever the memory
        happens to hold. */
    function HeaderAt(p: nat, raw: AllocHeader): AllocHeader
      reads this
    {
      if p >= ALLOC_HEADER && p - ALLOC_HEADER in allocs then allocs[p - ALLOC_HEADER] else raw
    }

    /** An address with the magic number in front of it only if it is a payload in use. */
    ghost predicate Handle(p: nat, raw: AllocHeader)
      reads this
    {
      HeaderAt(p, raw).magic == MAGIC ==> Live(p)
    }

    /** kfree: frees exactly the block of a payload in use; NULL and an address without the magic number
        in front of it are ignored. */
    method Kfree(p: nat, raw: AllocHeader)
      requires Valid() && (p == NULL || Handle(p, raw))
      modifies this`hdr, this`blocks
      ensures Valid()
      ensures p == NULL || HeaderAt(p, raw).magic != MAGIC ==> blocks == old(blocks) && hdr == old(hdr)
      ensures p != NULL && HeaderAt(p, raw).magic == MAGIC ==> Freed(p)
      ensures p != NULL && HeaderAt(p, raw).magic == MAGIC ==>
        (p >= BLOCK_HEADER + ALLOC_HEADER && blocks == Apply(old(blocks), FreeOp(p - BLOCK_HEADER - ALLOC_HEADER)))
    {
      if p == NULL || HeaderAt(p, raw).magic != MAGIC { return; }
      FreePayload(p);
    }

    method FreePayload(p: nat)
      requires Valid() && Live(p)
      modifies this`hdr, this`blocks
      ensures Valid() && Freed(p)
      ensures p >= BLOCK_HEADER + ALLOC_HEADER && blocks == Apply(old(blocks), FreeOp(p - BLOCK_HEADER - ALLOC_HEADER))
    {
      hide Free, Freed, Tiles;
      ghost var k := Index(p);
      var h, b := p - ALLOC_HEADER, p - BLOCK_HEADER - ALLOC_HEADER;
      assert Apply(blocks, FreeOp(b)) == Free(blocks, k);
      assert AllocOk(allocs, blocks[k]);
      if allocs[h].flags == FROM_HEAP { FreeBlock(b, k); }
    }

    method FreeBlock(b: nat, ghost k: nat)
      requires Valid() && k < |blocks| && blocks[k].addr == b && !blocks[k].free
      modifies this`hdr, this`blocks
      ensures Valid() && blocks == Free(old(blocks), k) && Freed(b + 44)
    {
      InUse(blocks, k);
      FreeSound(blocks, start, start + size, k);
      MarkFree(blocks, start, start + size, k);
      assert Node(hdr, blocks, k);
      FlagLinks(hdr, blocks, start, start + size, k, true);
      hdr := hdr[b := hdr[b].(free := true)];
      blocks := blocks[k := blocks[k].(free := true)];
      CoalesceBlock(b, k);
    }

    method CopyBytes(d: nat, s: nat, n: nat)
      requires start <= d && d + n <= start + bytes.Length && start <= s && s + n <= start + bytes.Length
      requires d + n <= s || s + n <= d
      modifies bytes
      ensures Copied(old(bytes[..]), bytes[..], s - start, d - start, n)
      ensures BytesOutside(old(bytes[..]), bytes[..], d - start, d - start + n)
    {
      for i := 0 to n
        invariant forall j | d - start <= j < d - start + i :: bytes[j] == old(bytes[j - d + s])
        invariant forall j | 0 <= j < bytes.Length && !(d - start <= j < d - start + n) :: bytes[j] == old(bytes[j])
      {
        bytes[d - start + i] := bytes[s - start + i];
      }
    }

    /** The payload at p has moved to q, a new allocation of n bytes, with its len bytes of contents; the block it
        had is freed. */
    twostate predicate Moved(p: nat, len: nat, n: nat, q: nat)
      reads this, bytes
    {
      && Exchanged(p, n, q)
      && p >= BLOCK_HEADER + ALLOC_HEADER
      && blocks == Apply(Apply(old(blocks), MallocOp(n)), FreeOp(p - BLOCK_HEADER - ALLOC_HEADER))
      && Copied(old(bytes[..]), bytes[..], p - start, q - start, len)
    }

    /** Move a payload to a larger block. When none is found, nothing changes; otherwise the old
        contents are copied, the old block is freed and every other payload in use keeps its bytes. */
    method Grow(p: nat, len: nat, n: nat) returns (q: nat)
      requires Valid() && Live(p) && p - ALLOC_HEADER in allocs
      requires allocs[p - ALLOC_HEADER].size == len < n && n + ALLOC_HEADER + 15 < U64
      modifies this`hdr, this`allocs, this`blocks, bytes
      ensures Valid()
      ensures old(NoRoom(n)) <==> q == 0
      ensures q == 0 ==> Unchanged()
      ensures q != 0 ==> Moved(p, len, n, q)
      ensures OthersKept(old(allocs), allocs, old(bytes[..]), bytes[..], start, old(Used(blocks)),
        p - BLOCK_HEADER - ALLOC_HEADER)
    {
      hide OneMore, OneLess, OneForAnother, Used, Apart, Tiles, Linked, Coalesced, Recorded, Says;
      hide Malloc, TotalSize, AllKept, OthersKept, Copied, NoRoom;
      ghost var bs, before, heads := blocks, bytes[..], allocs;
      ghost var i := LiveHeader(p);
      ghost var used, ob := Used(bs), bs[i];
      q := Kmalloc(n);
      if q == NULL {
        KeptButOne(heads, allocs, before, bytes[..], start, used, p - BLOCK_HEADER - ALLOC_HEADER);
        return;
      }
      RoomApart(bs, blocks, start, start + size, n, i);
      ghost var used1 := Used(blocks);
      Move(p, q, len, n, heads, before, used, ob);
      MoreThenLess(used, used1, Used(blocks), p, n, q);
    }

    /** krealloc: grows by moving, keeps the payload in place when it is large enough, and leaves
        everything as it was when there is no room or no magic number in front of the address. */
    method Krealloc(p: nat, n: nat, raw: AllocHeader) returns (q: nat)
      requires Valid() && (p == NULL || Handle(p, raw)) && n + ALLOC_HEADER + 15 < U64
      modifies this`hdr, this`allocs, this`blocks, bytes
      ensures Valid()
      ensures p == NULL ==> Allocated(n, q)
      ensures p != NULL && old(HeaderAt(p, raw)).magic != MAGIC ==> q == NULL && Unchanged()
      ensures p != NULL && old(HeaderAt(p, raw)).magic == MAGIC ==> Resized(p, n, q)
    {
      if p != NULL && HeaderAt(p, raw).magic == MAGIC { ghost var _ := LiveHeader(p); }
      if p == NULL {
        q := Kmalloc(n);
      } else if n == 0 {
        Kfree(p, raw);
        q := NULL;
      } else if HeaderAt(p, raw).magic != MAGIC {
        q := NULL;
      } else if n <= allocs[p - ALLOC_HEADER].size {
        q := p;
      } else {
        q := Grow(p, allocs[p - ALLOC_HEADER].size, n);
      }
    }

    /** A payload in use has its header recorded. */
    lemma LiveHeader(p: nat) returns (i: nat)
      requires Valid() && Live(p)
      ensures p >= BLOCK_HEADER + ALLOC_HEADER && p - ALLOC_HEADER in allocs && allocs[p - ALLOC_HEADER].magic == MAGIC
      ensures i < |blocks| && !blocks[i].free && blocks[i] in Used(blocks) && p == Payload(blocks[i])
      ensures ALLOC_HEADER + allocs[p - ALLOC_HEADER].size <= blocks[i].size
    {
      i := Index(p);
      assert AllocOk(allocs, blocks[i]);
    }

    /** What krealloc does to a payload in use. */
    twostate predicate Resized(p: nat, n: nat, q: nat)
      reads this, bytes
    {
      && p >= BLOCK_HEADER + ALLOC_HEADER && p - ALLOC_HEADER in old(allocs)
      && var b, len := p - BLOCK_HEADER - ALLOC_HEADER, old(allocs)[p - ALLOC_HEADER].size;
      && (n == 0 ==> q == NULL && Freed(p) && blocks == Apply(old(blocks), FreeOp(b)) && bytes[..] == old(bytes[..]))
      && (0 < n <= len ==> q == p && Unchanged())
      && (n > len && old(NoRoom(n)) ==> q == NULL && Unchanged())
      && (n > len && !old(NoRoom(n)) ==>
        Moved(p, len, n, q) && OthersKept(old(allocs), allocs, old(bytes[..]), bytes[..], start, old(Used(blocks)), b))
    }

    /** kcalloc: fails when the product does not fit in 64 bits, and otherwise allocates that many
        zero bytes. */
    method Kcalloc(num: nat, each: nat) returns (p: nat)
      requires Valid() && num < U64 && each < U64 && (num * each + ALLOC_HEADER + 15 < U64 || num * each >= U64)
      modifies this`hdr, this`allocs, this`blocks, bytes
      ensures Valid()
      ensures num * each >= U64 ==> p == NULL && Unchanged()
      ensures num * each < U64 ==> blocks == Apply(old(blocks), MallocOp(num * each))
      ensures p == 0 <==> num * each >= U64 || num * each == 0 || old(NoRoom(num * each))
      ensures if p == 0 then Unchanged() else Given(num * each, p)
      ensures p != NULL ==> Zeroed(bytes[..], p - start, num * each)
      ensures AllKept(old(allocs), allocs, old(bytes[..]), bytes[..], start, old(Used(blocks)))
    {
      var total := 0;
      if num != 0 && each != 0 {
        ProductFits(num, each);
        total := num * each % U64;
        if total / num != each {
          NothingChanged(allocs, bytes[..], start, Used(blocks));
          return NULL;
        }
        SmallProduct(num, each);
      }
      p := AllocateZeroed(total);
    }

    method AllocateZeroed(n: nat) returns (p: nat)
      requires Valid() && n + ALLOC_HEADER + 15 < U64
      modifies this`hdr, this`allocs, this`blocks, bytes
      ensures Valid() && blocks == Apply(old(blocks), MallocOp(n))
      ensures p == 0 <==> n == 0 || old(NoRoom(n))
      ensures if p == 0 then Unchanged() else Given(n, p)
      ensures p != NULL ==> Zeroed(bytes[..], p - start, n)
      ensures AllKept(old(allocs), allocs, old(bytes[..]), bytes[..], start, old(Used(blocks)))
    {
      ghost var bs, used, before, heads := blocks, Used(blocks), bytes[..], allocs;
      p := Kmalloc(n);
      if p == NULL { return; }
      assert Malloc(bs, TotalSize(n)).1.Some?;
      ghost var middle, heads' := bytes[..], allocs;
      RoomFor(bs, blocks, start, start + size, n);
      ZeroFill(p, n);
      KeepThen(heads, heads', before, middle, bytes[..], start, used, p - BLOCK_HEADER - ALLOC_HEADER, n, p, n);
    }

    method ZeroFill(p: nat, n: nat)
      requires start <= p && p + n <= start + bytes.Length
      modifies bytes
      ensures Zeroed(bytes[..], p - start, n) && BytesOutside(old(bytes[..]), bytes[..], p - start, p - start + n)
    {
      for i := 0 to n
        invariant forall j | p - start <= j < p - start + i :: bytes[j] == 0
        invariant forall j | 0 <= j < bytes.Length && !(p - start <= j < p - start + n) :: bytes[j] == old(bytes[j])
      {
        bytes[p - start + i] := 0;
      }
    }

    /** Copy a payload into a new one and free its block. */
    method Move(p: nat, q: nat, len: nat, n: nat, ghost heads: map<nat, AllocHeader>, ghost before: seq<Byte>,
        ghost used: set<Block>, ghost ob: Block)
      requires Valid() && Live(p) && p == Payload(ob) && ob in used && ALLOC_HEADER + len <= ob.size && len <= n
      requires start <= p && p + len <= start + size && start <= q && q + n <= start + size
      requires (p + len <= q || q + len <= p)
      requires q >= BLOCK_HEADER + ALLOC_HEADER && Apart(used, q - BLOCK_HEADER - ALLOC_HEADER, q + n)
      requires AllKept(heads, allocs, before, bytes[..], start, used)
      modifies this`hdr, this`blocks, bytes
      ensures Valid() && Freed(p) && blocks == Apply(old(blocks), FreeOp(p - BLOCK_HEADER - ALLOC_HEADER))
      ensures Copied(before, bytes[..], p - start, q - start, len)
      ensures OthersKept(heads, allocs, before, bytes[..], start, used, p - BLOCK_HEADER - ALLOC_HEADER)
    {
      ghost var middle := bytes[..];
      CopyBytes(q, p, len);
      GrowKeeps(heads, allocs, before, middle, bytes[..], start, used, ob,
        q - BLOCK_HEADER - ALLOC_HEADER, n, p, q, len);
      FreePayload(p);
    }
  }

  lemma InUse(bs: seq<Block>, k: nat)
    requires k < |bs| && !bs[k].free
    ensures bs[k] in Used(bs)
  {
  }

  lemma TotalSizeIs(n: nat)
    requires n + 27 < U64
    ensures TotalSize(n) == (n + 27) / 16 * 16
  {
  }

  /** The bytes of a block and the header in front of its payload are the same before and after. */
  ghost predicate Kept(allocs: map<nat, AllocHeader>, allocs': map<nat, AllocHeader>, before: seq<Byte>,
      after: seq<Byte>, start: nat, b: Block)
  {
    var a := b.addr + BLOCK_HEADER;
    && a in allocs && a in allocs' && allocs'[a] == allocs[a] && |after| == |before|
    && forall k | 0 <= k < |before| && b.addr <= start + k < End(b) :: after[k] == before[k]
  }

  lemma KeepOthers(allocs: map<nat, AllocHeader>, before: seq<Byte>, after: seq<Byte>, start: nat, used: set<Block>,
      t: Block, h: AllocHeader)
    requires Recorded(allocs, used) && Apart(used, t.addr, End(t))
    requires BytesOutside(before, after, t.addr - start, End(t) - start)
    ensures AllKept(allocs, allocs[t.addr + BLOCK_HEADER := h], before, after, start, used)
  {
    forall b | b in used ensures Kept(allocs, allocs[t.addr + BLOCK_HEADER := h], before, after, start, b) {
      assert AllocOk(allocs, b);
    }
  }

  ghost predicate AllKept(allocs: map<nat, AllocHeader>, allocs': map<nat, AllocHeader>, before: seq<Byte>,
      after: seq<Byte>, start: nat, used: set<Block>)
  {
    forall b | b in used :: Kept(allocs, allocs', before, after, start, b)
  }

  /** No block of a set touches the addresses lo .. hi. */
  ghost predicate Apart(used: set<Block>, lo: nat, hi: nat) {
    forall b | b in used :: End(b) <= lo || hi <= b.addr
  }

  /** All blocks in use but the one at an address keep their bytes and header. */
  ghost predicate OthersKept(allocs: map<nat, AllocHeader>, allocs': map<nat, AllocHeader>, before: seq<Byte>,
      after: seq<Byte>, start: nat, used: set<Block>, but: nat)
  {
    forall b | b in used && b.addr != but :: Kept(allocs, allocs', before, after, start, b)
  }

  lemma KeptButOne(allocs: map<nat, AllocHeader>, allocs': map<nat, AllocHeader>, before: seq<Byte>,
      after: seq<Byte>, start: nat, used: set<Block>, but: nat)
    requires AllKept(allocs, allocs', before, after, start, used)
    ensures OthersKept(allocs, allocs', before, after, start, used, but)
  {
  }

  ghost predicate Copied(before: seq<Byte>, after: seq<Byte>, s: int, d: int, n: nat) {
    && 0 <= s && s + n <= |before| && 0 <= d && d + n <= |after|
    && forall i | d <= i < d + n :: after[i] == before[i - d + s]
  }

  /** The block handed out has room for the request, and no block in use before touches it. */
  lemma RoomFor(bs: seq<Block>, bs': seq<Block>, start: nat, end: nat, n: nat)
    requires Ok(bs, start, end) && n + ALLOC_HEADER + 15 < U64
    requires Malloc(bs, TotalSize(n)).1.Some? && bs' == Malloc(bs, TotalSize(n)).0
    ensures var t := Malloc(bs, TotalSize(n)).1.value;
      && start <= t && t + BLOCK_HEADER + ALLOC_HEADER + n <= end
      && Apart(Used(bs), t, t + BLOCK_HEADER + ALLOC_HEADER + n)
  {
    MallocSound(bs, start, end, TotalSize(n));
    PayloadRoom(bs, start, end, n);
    var t := Taken(bs[FirstFit(bs, TotalSize(n), 0)], TotalSize(n));
    forall b | b in Used(bs) ensures End(b) <= t.addr || End(t) <= b.addr { PayloadsApart(bs', start, end, b, t); }
    InsideHeap(bs, start, end, FirstFit(bs, TotalSize(n), 0));
    CarveFacts(bs[FirstFit(bs, TotalSize(n), 0)], TotalSize(n));
  }

  lemma RoomApart(bs: seq<Block>, bs': seq<Block>, start: nat, end: nat, n: nat, i: nat)
    requires Ok(bs, start, end) && n + ALLOC_HEADER + 15 < U64 && i < |bs| && !bs[i].free
    requires Malloc(bs, TotalSize(n)).1.Some? && bs' == Malloc(bs, TotalSize(n)).0
    ensures bs[i] in Used(bs') && start <= bs[i].addr && End(bs[i]) <= end
    ensures var t := Malloc(bs, TotalSize(n)).1.value;
      && start <= t && t + BLOCK_HEADER + ALLOC_HEADER + n <= end
      && Apart(Used(bs), t, t + BLOCK_HEADER + ALLOC_HEADER + n)
      && (End(bs[i]) <= t || t + BLOCK_HEADER + ALLOC_HEADER + n <= bs[i].addr)
  {
    RoomFor(bs, bs', start, end, n);
    MallocSound(bs, start, end, TotalSize(n));
    InUse(bs, i);
    InsideHeap(bs, start, end, i);
    assert bs[i] in Used(bs');
  }

  /** Bytes written inside a new payload belong to no block in use before. */
  lemma KeepThen(allocs: map<nat, AllocHeader>, allocs': map<nat, AllocHeader>, before: seq<Byte>, middle: seq<Byte>,
      after: seq<Byte>, start: nat, used: set<Block>, t: nat, n: nat, q: nat, len: nat)
    requires AllKept(allocs, allocs', before, middle, start, used) && len <= n
    requires Apart(used, t, t + BLOCK_HEADER + ALLOC_HEADER + n) && q == t + BLOCK_HEADER + ALLOC_HEADER
    requires BytesOutside(middle, after, q - start, q - start + len)
    ensures AllKept(allocs, allocs', before, after, start, used)
  {
    forall c | c in used ensures Kept(allocs, allocs', before, after, start, c) {
      assert Kept(allocs, allocs', before, middle, start, c);
    }
  }

  lemma GrowKeeps(allocs: map<nat, AllocHeader>, allocs': map<nat, AllocHeader>, before: seq<Byte>, middle: seq<Byte>,
      after: seq<Byte>, start: nat, used: set<Block>, b: Block, t: nat, n: nat, p: nat, q: nat, len: nat)
    requires AllKept(allocs, allocs', before, middle, start, used) && b in used
    requires ALLOC_HEADER + len <= b.size && len <= n
    requires Apart(used, t, t + BLOCK_HEADER + ALLOC_HEADER + n)
    requires q == t + BLOCK_HEADER + ALLOC_HEADER && p == Payload(b)
    requires BytesOutside(middle, after, q - start, q - start + len) && Copied(middle, after, p - start, q - start, len)
    ensures Copied(before, after, p - start, q - start, len)
    ensures OthersKept(allocs, allocs', before, after, start, used, p - BLOCK_HEADER - ALLOC_HEADER)
  {
    assert Kept(allocs, allocs', before, middle, start, b);
    KeepThen(allocs, allocs', before, middle, after, start, used, t, n, q, len);
  }

  lemma NothingChanged(allocs: map<nat, AllocHeader>, bytes: seq<Byte>, start: nat, used: set<Block>)
    requires Recorded(allocs, used)
    ensures AllKept(allocs, allocs, bytes, bytes, start, used)
  {
    forall b | b in used ensures Kept(allocs, allocs, bytes, bytes, start, b) { assert AllocOk(allocs, b); }
  }

  ghost predicate Zeroed(bytes: seq<Byte>, at: int, n: nat) {
    0 <= at && at + n <= |bytes| && forall i | at <= i < at + n :: bytes[i] == 0
  }

  /** The division test finds every product that does not fit, and no other. */
  lemma ProductFits(num: nat, each: nat)
    requires 0 < num < U64 && 0 < each < U64
    ensures num * each % U64 / num == each <==> num * each < U64
  {
    var x := num * each;
    if x < U64 {
      SmallProduct(num, each);
      Quotient(num, each);
    } else {
      assert x % U64 < x;
      SmallerQuotient(num, each, x % U64);
    }
  }

  lemma Quotient(num: nat, each: nat)
    requires num > 0
    ensures num * each / num == each
  {
    var q := num * each / num;
    assert num * each == num * q + num * each % num;
    if q < each { AtLeastOnce(num, each - q); }
  }

  lemma AtLeastOnce(num: nat, k: nat)
    requires k > 0
    ensures num * k >= num
  {
    assert num * k == num * (k - 1) + num;
  }

  lemma SmallerQuotient(num: nat, each: nat, x: nat)
    requires num > 0 && x < num * each
    ensures x / num != each
  {
    assert x == num * (x / num) + x % num;
  }

  lemma SmallProduct(num: nat, each: nat)
    requires num * each < U64
    ensures num * each % U64 == num * each
  {
  }

  lemma ApartFromFree(bs: seq<Block>, start: nat, end: nat, k: nat)
    requires Tiles(bs, start, end) && k < |bs| && bs[k].free
    ensures Apart(Used(bs), bs[k].addr, End(bs[k]))
  {
    forall b | b in Used(bs) ensures End(b) <= bs[k].addr || End(bs[k]) <= b.addr {
      var i :| 0 <= i < |bs| && !bs[i].free && bs[i] == b;
      if i < k { AddressesRise(bs, start, end, i, k); } else { AddressesRise(bs, start, end, k, i); }
    }
  }

  lemma PiecesTile(bs: seq<Block>, start: nat, end: nat, k: nat, total: nat)
    requires Tiles(bs, start, end) && k < |bs| && bs[k].free && bs[k].size >= total
    ensures var mid := Splice(bs, k, k + 1, Pieces(bs[k], total));
      && Tiles(mid, start, end)
      && mid[k := mid[k].(free := false)] == Splice(bs, k, k + 1, HeapSpec.Carve(bs[k], total))
  {
    SpliceTiles(bs, start, end, k, k + 1, Pieces(bs[k], total));
  }

  ghost predicate BytesOutside(before: seq<Byte>, after: seq<Byte>, lo: int, hi: int) {
    |before| == |after| && forall k | 0 <= k < |before| && !(lo <= k < hi) :: after[k] == before[k]
  }

  lemma CarveOk(bs: seq<Block>, start: nat, end: nat, k: nat, total: nat)
    requires Ok(bs, start, end) && k < |bs| && bs[k].free && bs[k].size >= total
    ensures Ok(Splice(bs, k, k + 1, HeapSpec.Carve(bs[k], total)), start, end)
  {
    CarveFacts(bs[k], total);
    SpliceTiles(bs, start, end, k, k + 1, HeapSpec.Carve(bs[k], total));
    CarveCoalesced(bs, k, total);
  }
}
