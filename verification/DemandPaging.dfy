/** Demand paging over the virtual memory manager: the table of address spaces, region lists, the
    fault handler as one thread runs it, and the removal of a region with its pages. */
module DemandPaging {
  import opened Common
  import opened Paging
  import opened Vmm
  import R = Regions

  const MAX_ADDRESS_SPACES: nat := 256
  const VM_FLAG_DEMAND_PAGED: nat := 1
  const MAP_FLAGS: Word := 0x7

  datatype AddressSpace = AddressSpace(root: Addr, regions: seq<R.Region>)

  /** Page k of a region that starts at the given address. */
  function PageAt(root: Addr, start: nat, k: nat): Page {
    Page(root, PageNumber(start + R.PAGE_SIZE * k))
  }

  ghost function FirstPages(root: Addr, start: nat, n: nat): set<Page> {
    set k | 0 <= k < n :: PageAt(root, start, k)
  }

  /** The frames given back when the first n pages of a region are removed, last one first. */
  ghost function Returned(view: map<Page, Word>, root: Addr, start: nat, n: nat): seq<Addr> {
    if n == 0 then [] else
      var p := PageAt(root, start, n - 1);
      (if p in view && p !in FirstPages(root, start, n - 1) then [Frame(view[p])] else []) +
        Returned(view, root, start, n - 1)
  }

  /** How many pages a region has; the loop over it takes none when the end is not past the start. */
  function PageCount(r: R.Region): nat {
    if r.start < r.end then (r.end - r.start) / R.PAGE_SIZE else 0
  }

  ghost function PagesOf(root: Addr, r: R.Region): set<Page> {
    FirstPages(root, r.start, PageCount(r))
  }

  ghost function FramesOf(view: map<Page, Word>, root: Addr, r: R.Region): seq<Addr> {
    Returned(view, root, r.start, PageCount(r))
  }

  /** No two pages share a frame. */
  ghost predicate Exclusive(view: map<Page, Word>) {
    forall p, q | p in view && q in view && p != q :: Frame(view[p]) != Frame(view[q])
  }

  lemma OneMorePage(view: map<Page, Word>, pool: seq<Addr>, root: Addr, start: nat, k: nat)
    ensures var p, left := PageAt(root, start, k), view - FirstPages(root, start, k);
      && view - FirstPages(root, start, k + 1) == left - {p}
      && Returned(view, root, start, k + 1) + pool ==
           (if p in left then [Frame(left[p])] else []) + (Returned(view, root, start, k) + pool)
  {
    assert FirstPages(root, start, k + 1) == FirstPages(root, start, k) + {PageAt(root, start, k)};
  }

  /** The returned frames are exactly those mapped in the region, each once. */
  lemma {:induction false} ReturnedFrames(view: map<Page, Word>, root: Addr, start: nat, n: nat)
    requires Exclusive(view)
    ensures forall f :: f in Returned(view, root, start, n) <==>
      exists p :: p in FirstPages(root, start, n) && p in view && Frame(view[p]) == f
    ensures forall i, j | 0 <= i < j < |Returned(view, root, start, n)| ::
      Returned(view, root, start, n)[i] != Returned(view, root, start, n)[j]
  {
    if n > 0 {
      ReturnedFrames(view, root, start, n - 1);
      var p := PageAt(root, start, n - 1);
      assert FirstPages(root, start, n) == FirstPages(root, start, n - 1) + {p};
      if p in view && p !in FirstPages(root, start, n - 1) {
        var rest := Returned(view, root, start, n - 1);
        assert Frame(view[p]) !in rest;
        assert Returned(view, root, start, n) == [Frame(view[p])] + rest;
        assert forall i | 0 <= i < |rest| :: rest[i] in rest;
      }
    }
  }

  lemma SamePageNumber(x: nat, y: nat)
    requires x < 0x1_0000_0000_0000 && y < 0x1_0000_0000_0000
    ensures PageNumber(x) == PageNumber(y) <==> x / 4096 == y / 4096
  {
    assert x / 4096 < 0x10_0000_0000 && y / 4096 < 0x10_0000_0000;
  }

  /** Every address inside a region lies on one of its pages. */
  lemma InsideOnPage(root: Addr, r: R.Region, x: nat)
    requires R.RegionOk(r) && R.Contains(r, x)
    ensures Page(root, PageNumber(x)) in PagesOf(root, r)
  {
    var n, k := PageCount(r), (x - r.start) / R.PAGE_SIZE;
    assert r.end == r.start + R.PAGE_SIZE * n;
    assert k < n && (r.start + R.PAGE_SIZE * k) / 0x1000 == x / 0x1000;
    assert PageAt(root, r.start, k) == Page(root, PageNumber(x));
  }

  /** In 48-bit address spaces no address outside a region lies on one of its pages. */
  lemma OutsideOffPage(root: Addr, r: R.Region, x: nat)
    requires R.RegionOk(r) && r.end <= 0x1_0000_0000_0000 && x < 0x1_0000_0000_0000
    requires Page(root, PageNumber(x)) in PagesOf(root, r)
    ensures R.Contains(r, x)
  {
    var n := PageCount(r);
    assert r.end == r.start + R.PAGE_SIZE * n;
    var k :| 0 <= k < n && PageAt(root, r.start, k) == Page(root, PageNumber(x));
    SamePageNumber(r.start + R.PAGE_SIZE * k, x);
  }

  /** An aligned frame that is neither a page table nor free for one. */
  ghost predicate FrameOk(mem: set<Addr>, pool: seq<Addr>, f: Addr) {
    Frame(f.bits) == f && f.bits != 0 && f !in mem && f !in pool
  }

  ghost predicate Unmapped(view: map<Page, Word>, f: Addr) {
    forall p | p in view :: Frame(view[p]) != f
  }

  /** Mapped frames are mapped once and neither free nor page tables. The frames for pages come from a zone
      of their own; frames given back go to the zone of the page tables. */
  ghost predicate FramesApart(view: map<Page, Word>, mem: set<Addr>, pool: seq<Addr>, frames: seq<Addr>) {
    && Exclusive(view)
    && (forall p | p in view :: FrameOk(mem, pool, Frame(view[p])))
    && (forall i, j | 0 <= i < j < |frames| :: frames[i] != frames[j])
    && (forall f | f in frames :: FrameOk(mem, pool, f) && Unmapped(view, f))
  }

  lemma ReleaseKeeps(view: map<Page, Word>, mem: set<Addr>, pool: seq<Addr>, frames: seq<Addr>, p: Page)
    requires FramesApart(view, mem, pool, frames) && p in view
    ensures FramesApart(view - {p}, mem, [Frame(view[p])] + pool, frames)
    ensures FrameOk(mem, pool, Frame(view[p]))
  {
    var left, free := view - {p}, [Frame(view[p])] + pool;
    assert FrameOk(mem, pool, Frame(view[p]));
    forall q | q in left ensures FrameOk(mem, free, Frame(left[q])) { assert FrameOk(mem, pool, Frame(view[q])); }
    forall f | f in frames ensures FrameOk(mem, free, f) && Unmapped(left, f) {
      assert FrameOk(mem, pool, f) && Unmapped(view, f);
    }
  }

  /** The page is mapped to the frame, present, writable and for user code, at the price of the missing page tables,
      if the pool covers them; otherwise no page is mapped and the pool is used up. */
  ghost predicate Installed(view: map<Page, Word>, pool: seq<Addr>, view': map<Page, Word>, pool': seq<Addr>,
      missing: nat, p: Page, f: Addr)
  {
    if missing <= |pool| then view' == view[p := LeafEntry(f.bits, 7)] && pool' == pool[missing..]
    else view' == view && pool' == []
  }

  lemma InstallKeeps(view: map<Page, Word>, mem: set<Addr>, pool: seq<Addr>, frames: seq<Addr>, view': map<Page, Word>,
      mem': set<Addr>, pool': seq<Addr>, missing: nat, p: Page)
    requires FramesApart(view, mem, pool, frames) && frames != [] && p !in view
    requires Installed(view, pool, view', pool', missing, p, frames[0])
    requires (forall u | u in mem' :: u in mem || u in pool) && forall f | f in pool' :: f in pool
    ensures FramesApart(view', mem', pool', frames[1..])
  {
    var f, rest := frames[0], frames[1..];
    LeafEntryLeads(f.bits, 7);
    assert f in frames && FrameOk(mem, pool, f) && Unmapped(view, f);
    forall g | g in rest ensures g in frames && g != f {
      var i :| 0 <= i < |rest| && rest[i] == g;
      assert frames[i + 1] == g;
    }
    forall q | q in view' ensures FrameOk(mem', pool', Frame(view'[q])) {
      if q in view { assert FrameOk(mem, pool, Frame(view[q])); }
    }
    forall g | g in rest ensures FrameOk(mem', pool', g) && Unmapped(view', g) {
      assert FrameOk(mem, pool, g) && Unmapped(view, g);
    }
  }

  // ----- the subsystem -----

  class DemandPager {
    const vmm: VirtualMemory
    var spaces: seq<AddressSpace>
    var frames: seq<Addr>

    ghost predicate FramesOk()
      reads this, vmm
    {
      FramesApart(vmm.view, vmm.mem.Keys, vmm.pool, frames)
    }

    ghost predicate SpacesOk()
      reads this
    {
      && |spaces| <= MAX_ADDRESS_SPACES
      && (forall i, j | 0 <= i < j < |spaces| :: spaces[i].root != spaces[j].root)
      && (forall k | 0 <= k < |spaces| :: R.Aligned(spaces[k].regions))
    }

    /** The address space is known, or there is room for one more. */
    ghost predicate HasSlot(root: Addr)
      reads this
    {
      |spaces| < 256 || exists k :: 0 <= k < |spaces| && spaces[k].root == root
    }

    ghost predicate Valid()
      reads this, vmm
    {
      vmm.Valid() && FramesOk() && SpacesOk()
    }

    /** The region list of an address space; an unknown one has none. */
    ghost function RegionsOf(root: Addr): seq<R.Region>
      reads this
    {
      RegionsIn(spaces, root)
    }

    constructor (memory: VirtualMemory, pages: seq<Addr>)
      requires memory.Valid() && memory.view == map[]
      requires forall i, j | 0 <= i < j < |pages| :: pages[i] != pages[j]
      requires forall f | f in pages :: FrameOk(memory.mem.Keys, memory.pool, f)
      ensures Valid() && vmm == memory && spaces == [] && frames == pages
    {
      vmm, spaces, frames := memory, [], pages;
    }

    /** Find the slot of an address space, or open one while there is room. */
    method GetAddressSpace(root: Addr) returns (i: int)
      requires SpacesOk()
      modifies this`spaces
      ensures SpacesOk()
      ensures i == -1 || 0 <= i < |spaces|
      ensures i != -1 ==> spaces[i].root == root && spaces[i].regions == RegionsIn(old(spaces), root)
      ensures forall r :: RegionsOf(r) == RegionsIn(old(spaces), r)
      ensures i == -1 <==> !old(HasSlot(root))
      ensures i == -1 ==> RegionsIn(old(spaces), root) == []
    {
      var k := 0;
      while k < |spaces|
        invariant 0 <= k <= |spaces|
        invariant forall j | 0 <= j < k :: spaces[j].root != root
      {
        if spaces[k].root == root {
          RegionsAt(spaces, k);
          return k;
        }
        k := k + 1;
      }
      NoRegions(spaces, root);
      if |spaces| < MAX_ADDRESS_SPACES {
        i := |spaces|;
        forall r ensures RegionsIn(spaces + [AddressSpace(root, [])], r) == RegionsIn(spaces, r) {
          RegionsAppend(spaces, root, r);
        }
        spaces := spaces + [AddressSpace(root, [])];
      } else {
        i := -1;
      }
    }
  
    method SetRegions(k: nat, regions: seq<R.Region>)
      requires SpacesOk() && k < |spaces| && R.Aligned(regions)
      modifies this`spaces
      ensures SpacesOk() && |spaces| == |old(spaces)|
      ensures forall r :: RegionsOf(r) == if r == old(spaces)[k].root then regions else RegionsIn(old(spaces), r)
    {
      ghost var before := spaces;
      spaces := spaces[k := spaces[k].(regions := regions)];
      forall r ensures RegionsOf(r) == if r == before[k].root then regions else RegionsIn(before, r) {
        RegionsUpdate(before, k, regions, r);
      }
    }

    /** Register a region: in a table in order it is accepted exactly when it is not empty, clear of every region,
        and there is room for it and for its address space; `room` says whether a region record could be allocated. */
    method RegisterRegion(root: Addr, start: nat, size: nat, flags: nat, room: bool) returns (r: int)
      requires Valid() && start < U64 && size < U64
      modifies this`spaces
      ensures Valid() && (r == 0 || r == -1)
      ensures var (regions, answer) := R.Register(RegionsIn(old(spaces), root), start, size, flags, room);
        && (r == 0 <==> root.bits != 0 && old(HasSlot(root)) && answer == 0)
        && RegionsOf(root) == if r == 0 then regions else RegionsIn(old(spaces), root)
      ensures var lo, hi := start / 4096 * 4096, (start + size + 4095) % U64 / 4096 * 4096;
        && (R.TableOk(RegionsIn(old(spaces), root)) ==>
          (r == 0 <==>
            root.bits != 0 && old(HasSlot(root)) && size > 0 && room && R.Clear(RegionsIn(old(spaces), root), lo, hi)))
        && (r == 0 ==> RegionsOf(root) == [R.Region(lo, hi, flags)] + RegionsIn(old(spaces), root))
        && (r != 0 ==> RegionsOf(root) == RegionsIn(old(spaces), root))
      ensures forall q | q != root :: RegionsOf(q) == RegionsIn(old(spaces), q)
    {
      if R.TableOk(RegionsOf(root)) { R.RegisterAccepts(RegionsOf(root), start, size, flags, room); }
      if root.bits == 0 || size == 0 {
        return -1;
      }
      var alignedStart := R.AlignDown(start);
      var alignedEnd := R.RegionEnd(start, size);
      var k := GetAddressSpace(root);
      if k == -1 {
        return -1;
      }
      var regions := spaces[k].regions;
      var n := 0;
      while n < |regions|
        invariant 0 <= n <= |regions|
        invariant forall j | 0 <= j < n :: !R.Overlaps(regions[j], alignedStart, alignedEnd)
      {
        if R.Overlaps(regions[n], alignedStart, alignedEnd) {
          return -1;
        }
        n := n + 1;
      }
      if !room {
        return -1;
      }
      R.RegisterAligned(regions, start, size, flags);
      SetRegions(k, [R.Region(alignedStart, alignedEnd, flags)] + regions);
      r := 0;
    }

    /** The first region that contains the address. */
    method FindRegion(root: Addr, virt: nat) returns (r: Option<R.Region>)
      requires Valid()
      modifies this`spaces
      ensures Valid() && forall q :: RegionsOf(q) == RegionsIn(old(spaces), q)
      ensures r == R.Find(RegionsIn(old(spaces), root), virt)
      ensures r.None? ==> forall q | q in RegionsIn(old(spaces), root) :: !(q.start <= virt < q.end)
      ensures r.Some? ==> r.value in RegionsIn(old(spaces), root) && r.value.start <= virt < r.value.end
    {
      R.FindFirst(RegionsOf(root), virt);
      var k := GetAddressSpace(root);
      if k == -1 {
        return None;
      }
      var regions := spaces[k].regions;
      var n := 0;
      assert regions[0..] == regions;
      while n < |regions|
        invariant 0 <= n <= |regions| && R.Find(regions[n..], virt) == R.Find(regions, virt)
      {
        assert regions[n..][1..] == regions[n + 1..];
        if R.Contains(regions[n], virt) {
          return Some(regions[n]);
        }
        n := n + 1;
      }
      r := None;
    }

    /** The first region on the list that holds the address is demand-paged. */
    ghost predicate Serves(root: Addr, x: nat)
      reads this
    {
      var rs := RegionsOf(root);
      exists k | 0 <= k < |rs| :: rs[k].start <= x < rs[k].end && rs[k].flags % 2 == 1
        && forall j | 0 <= j < k :: !(rs[j].start <= x < rs[j].end)
    }

    /** Handle a fault as a single thread. It succeeds exactly when the page lies in a demand-paged region
        and is mapped already or a frame is left; a mapped page and a refused fault change nothing.
        Otherwise one frame is taken, and the page mapped to it if and only if the frames left for page
        tables cover the missing ones; if not, the frame is lost and zero returned all the same. */
    method HandleFault(root: Addr, virt: nat) returns (r: int)
      requires Valid() && vmm.IsRoot(root)
      modifies this`spaces, this`frames, vmm
      ensures Valid() && (r == 0 || r == -1) && forall q :: RegionsOf(q) == RegionsIn(old(spaces), q)
      ensures var p, page := Page(root, virt / 4096 % 0x10_0000_0000), virt / 4096 * 4096;
        && (r == 0 <==> old(Serves(root, page)) && (p in old(vmm.view) || old(frames) != []))
        && (p in old(vmm.view) || r == -1 ==>
          vmm.view == old(vmm.view) && vmm.pool == old(vmm.pool) && frames == old(frames))
        && (r == 0 && p !in old(vmm.view) ==>
          && frames == old(frames)[1..]
          && Installed(old(vmm.view), old(vmm.pool), vmm.view, vmm.pool,
            Missing(old(vmm.mem), root, 4, page), p, old(frames)[0]))
    {
      var page := R.AlignDown(virt);
      hide Sound, Missing, FramesApart;
      R.FindFirst(RegionsOf(root), page);
      IndexDigits(page);
      var region := FindRegion(root, page);
      if region.None? {
        return -1;
      }
      if region.value.flags % 2 != VM_FLAG_DEMAND_PAGED {
        return -1;
      }
      var existing := vmm.GetPhysicalAddress(root, page);
      if existing.Some? {
        return 0;
      }
      if frames == [] {
        return -1;
      }
      MapNext(root, page);
      r := 0;
    }

    /** Map a page to the next frame. */
    method MapNext(root: Addr, page: nat)
      requires Valid() && vmm.IsRoot(root) && frames != [] && Page(root, PageNumber(page)) !in vmm.view
      modifies this`frames, vmm
      ensures Valid() && frames == old(frames)[1..]
      ensures Installed(old(vmm.view), old(vmm.pool), vmm.view, vmm.pool, Missing(old(vmm.mem), root, 4, page),
        Page(root, PageNumber(page)), old(frames)[0])
    {
      hide Sound, FramesApart;
      var f := frames[0];
      ghost var view0, mem0, pool0, frames0 := vmm.view, vmm.mem.Keys, vmm.pool, frames;
      ghost var missing := Missing(vmm.mem, root, 4, page);
      frames := frames[1..];
      vmm.MapPage(root, page, f.bits, MAP_FLAGS);
      InstallKeeps(view0, mem0, pool0, frames0, vmm.view, vmm.mem.Keys, vmm.pool, missing,
        Page(root, PageNumber(page)));
    }

    /** Unmap every page of a region and give its frame back: afterwards no page of it is mapped, every
        other page of every address space is as before, and exactly the frames that were mapped there
        are back in the pool. */
    method ReleasePages(root: Addr, r: R.Region)
      requires Valid() && vmm.IsRoot(root) && r.start % R.PAGE_SIZE == 0 && r.end % R.PAGE_SIZE == 0
      modifies vmm`mem, vmm`view, vmm`pool
      ensures Valid()
      ensures vmm.view == old(vmm.view) - PagesOf(root, r)
      ensures vmm.pool == FramesOf(old(vmm.view), root, r) + old(vmm.pool)
    {
      if r.start < r.end {
        ReleaseRange(root, r.start, r.end, PageCount(r));
      } else {
        assert PagesOf(root, r) == {};
      }
    }

    method ReleaseRange(root: Addr, start: nat, end: nat, ghost n: nat)
      requires Valid() && vmm.IsRoot(root) && end == start + R.PAGE_SIZE * n
      modifies vmm`mem, vmm`view, vmm`pool
      ensures Valid()
      ensures vmm.view == old(vmm.view) - FirstPages(root, start, n)
      ensures vmm.pool == Returned(old(vmm.view), root, start, n) + old(vmm.pool)
    {
      ghost var k, view0, pool0 := 0, vmm.view, vmm.pool;
      var addr := start;
      assert FirstPages(root, start, 0) == {};
      while addr < end
        invariant k <= n && addr == start + R.PAGE_SIZE * k
        invariant Valid() && vmm.IsRoot(root)
        invariant vmm.view == view0 - FirstPages(root, start, k)
        invariant vmm.pool == Returned(view0, root, start, k) + pool0
        decreases n - k
      {
        ReleaseNext(root, addr, start, k, view0, pool0);
        addr := addr + R.PAGE_SIZE;
        k := k + 1;
      }
      assert k == n;
    }

    method ReleaseNext(root: Addr, addr: nat, ghost start: nat, ghost k: nat, ghost view0: map<Page, Word>,
      ghost pool0: seq<Addr>)
      requires Valid() && vmm.IsRoot(root) && addr == start + R.PAGE_SIZE * k
      requires vmm.view == view0 - FirstPages(root, start, k) && vmm.pool == Returned(view0, root, start, k) + pool0
      modifies vmm`mem, vmm`view, vmm`pool
      ensures Valid() && vmm.IsRoot(root)
      ensures vmm.view == view0 - FirstPages(root, start, k + 1)
      ensures vmm.pool == Returned(view0, root, start, k + 1) + pool0
    {
      OneMorePage(view0, pool0, root, start, k);
      ReleasePage(root, addr, start, k);
    }

    method ReleasePage(root: Addr, addr: nat, ghost start: nat, ghost k: nat)
      requires Valid() && vmm.IsRoot(root) && addr == start + R.PAGE_SIZE * k
      modifies vmm`mem, vmm`view, vmm`pool
      ensures Valid()
      ensures var p := PageAt(root, start, k);
        && vmm.view == old(vmm.view) - {p}
        && vmm.pool == (if p in old(vmm.view) then [Frame(old(vmm.view)[p])] else []) + old(vmm.pool)
    {
      var phys := vmm.GetPhysicalAddress(root, addr);
      if phys.Some? {
        ReleaseKeeps(vmm.view, vmm.mem.Keys, vmm.pool, frames, PageAt(root, start, k));
        vmm.UnmapPage(root, addr);
        vmm.FreeFrame(phys.value.0);
      }
    }

    /** Remove the region that starts at the given page, with all its pages. */
    method UnregisterRegion(root: Addr, start: nat)
      requires Valid() && vmm.IsRoot(root)
      modifies this`spaces, vmm`mem, vmm`view, vmm`pool
      ensures Valid()
      ensures forall q | q != root :: RegionsOf(q) == RegionsIn(old(spaces), q)
      ensures RegionsOf(root) == R.Remove(RegionsIn(old(spaces), root), R.AlignDown(start)).0
      ensures var r := R.Remove(RegionsIn(old(spaces), root), R.AlignDown(start)).1;
        && vmm.view == (if r.None? then old(vmm.view) else old(vmm.view) - PagesOf(root, r.value))
        && vmm.pool == (if r.None? then old(vmm.pool) else FramesOf(old(vmm.view), root, r.value) + old(vmm.pool))
    {
      AlignedIn(spaces, root);
      R.RemoveAligned(RegionsOf(root), R.AlignDown(start));
      var removed := TakeRegion(root, R.AlignDown(start));
      if removed.Some? {
        ReleasePages(root, removed.value);
      }
    }

    method TakeRegion(root: Addr, start: nat) returns (removed: Option<R.Region>)
      requires SpacesOk()
      modifies this`spaces
      ensures SpacesOk()
      ensures forall q | q != root :: RegionsOf(q) == RegionsIn(old(spaces), q)
      ensures (RegionsOf(root), removed) == R.Remove(RegionsIn(old(spaces), root), start)
    {
      var k := GetAddressSpace(root);
      if k == -1 {
        return None;
      }
      var rest;
      R.RemoveAligned(spaces[k].regions, start);
      rest, removed := TakeOut(spaces[k].regions, start);
      if removed.Some? {
        SetRegions(k, rest);
      }
    }
  }

  /** Take the first region with the given start out of a list. */
  method TakeOut(regions: seq<R.Region>, start: nat) returns (rest: seq<R.Region>, removed: Option<R.Region>)
    ensures (rest, removed) == R.Remove(regions, start)
    ensures removed.None? ==> rest == regions
  {
    var n := 0;
    assert regions[0..] == regions && [] + R.Remove(regions, start).0 == R.Remove(regions, start).0;
    while n < |regions| && regions[n].start != start
      invariant 0 <= n <= |regions|
      invariant R.Remove(regions, start) ==
        (regions[..n] + R.Remove(regions[n..], start).0, R.Remove(regions[n..], start).1)
    {
      assert regions[n..][1..] == regions[n + 1..];
      assert regions[..n] + ([regions[n]] + R.Remove(regions[n + 1..], start).0) ==
        regions[..n + 1] + R.Remove(regions[n + 1..], start).0;
      n := n + 1;
    }
    if n < |regions| {
      assert regions[n..][1..] == regions[n + 1..];
      rest, removed := regions[..n] + regions[n + 1..], Some(regions[n]);
    } else {
      assert regions[n..] == [] && regions[..n] + [] == regions;
      rest, removed := regions, None;
    }
  }

  ghost function RegionsIn(spaces: seq<AddressSpace>, root: Addr): seq<R.Region> {
    if spaces == [] then [] else if spaces[0].root == root then spaces[0].regions else RegionsIn(spaces[1..], root)
  }

  lemma {:induction false} AlignedIn(spaces: seq<AddressSpace>, root: Addr)
    requires forall k | 0 <= k < |spaces| :: R.Aligned(spaces[k].regions)
    ensures R.Aligned(RegionsIn(spaces, root))
  {
    if spaces != [] && spaces[0].root != root { AlignedIn(spaces[1..], root); }
  }

  lemma {:induction false} RegionsAt(spaces: seq<AddressSpace>, k: nat)
    requires k < |spaces| && forall i, j | 0 <= i < j < |spaces| :: spaces[i].root != spaces[j].root
    ensures RegionsIn(spaces, spaces[k].root) == spaces[k].regions
  {
    if k > 0 { RegionsAt(spaces[1..], k - 1); }
  }

  lemma {:induction false} NoRegions(spaces: seq<AddressSpace>, root: Addr)
    requires forall i | 0 <= i < |spaces| :: spaces[i].root != root
    ensures RegionsIn(spaces, root) == []
  {
    if spaces != [] { NoRegions(spaces[1..], root); }
  }

  lemma {:induction false} RegionsAppend(spaces: seq<AddressSpace>, root: Addr, r: Addr)
    ensures RegionsIn(spaces + [AddressSpace(root, [])], r) == RegionsIn(spaces, r)
  {
    if spaces != [] {
      RegionsAppend(spaces[1..], root, r);
      assert (spaces + [AddressSpace(root, [])])[1..] == spaces[1..] + [AddressSpace(root, [])];
    }
  }

  lemma {:induction false} RegionsUpdate(spaces: seq<AddressSpace>, k: nat, regions: seq<R.Region>, r: Addr)
    requires k < |spaces| && forall i, j | 0 <= i < j < |spaces| :: spaces[i].root != spaces[j].root
    ensures RegionsIn(spaces[k := spaces[k].(regions := regions)], r) ==
      if r == spaces[k].root then regions else RegionsIn(spaces, r)
  {
    if k > 0 {
      assert spaces[k := spaces[k].(regions := regions)][1..] == spaces[1..][k - 1 := spaces[k].(regions := regions)];
      RegionsUpdate(spaces[1..], k - 1, regions, r);
    }
  }
}
