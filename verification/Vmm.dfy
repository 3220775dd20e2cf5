/** Address spaces: four-level page tables changed in place over a pool of physical frames. */
module Vmm {
  import opened Common
  import opened Paging

  /** Physical memory as the virtual memory manager uses it: page-table frames and the frames the
      physical allocator can still hand out. `at` and `view` are the abstract reading of the tables. */
  class VirtualMemory {
    var mem: Tables
    var pool: seq<Addr>
    ghost var at: map<Addr, Place>
    ghost var view: map<Page, Word>

    ghost function S(): Space
      reads this
    {
      Space(mem, at, pool)
    }

    ghost predicate Valid()
      reads this
    {
      Sound(S(), view)
    }

    ghost predicate IsRoot(r: Addr)
      reads this
    {
      Root(at, r)
    }

    constructor (frames: seq<Addr>)
      requires forall i | 0 <= i < |frames| :: Frame(frames[i].bits) == frames[i] && frames[i].bits != 0
      requires forall i, j | 0 <= i < j < |frames| :: frames[i] != frames[j]
      ensures Valid() && pool == frames && view == map[] && mem == map[]
    {
      mem, pool, at, view := map[], frames, map[], map[];
    }

    /** One frame from the pool, or none when it is empty. */
    method AllocFrame() returns (f: Option<Addr>)
      requires Valid()
      modifies this`pool
      ensures Valid()
      ensures f == if old(pool) == [] then None else Some(old(pool)[0])
      ensures pool == if old(pool) == [] then [] else old(pool)[1..]
      ensures f.Some? ==> f.value !in pool && f.value !in mem && Frame(f.value.bits) == f.value && f.value.bits != 0
    {
      if pool == [] {
        return None;
      }
      f := Some(pool[0]);
      pool := pool[1..];
    }

    /** A fresh, empty root table. */
    method CreateAddressSpace() returns (r: Option<Addr>)
      requires Valid()
      modifies this
      ensures Valid() && view == old(view)
      ensures r.None? <==> old(pool) == []
      ensures r.None? ==> mem == old(mem) && at == old(at) && pool == old(pool)
      ensures r.Some? ==>
        && !Root(old(at), r.value) && pool == old(pool)[1..]
        && (forall q :: IsRoot(q) <==> Root(old(at), q) || q == r.value)
        && (forall n: nat :: Page(r.value, n) !in view)
    {
      r := AllocFrame();
      if r.Some? {
        var f := r.value;
        NewRootWellFormed(mem, at, f);
        NewRootRefines(mem, at, view, f);
        mem, at := mem[f := ZeroTable()], at[f := Place(f, 4, 0)];
      }
    }

    /** The table below the entry that table t has for v; when it is missing an empty one is hung there,
        if a frame is left. No translation changes. */
    method GetOrAlloc(t: Addr, i: nat, ghost v: nat) returns (below: Option<Addr>)
      requires Valid() && t in at && at[t].level >= 2 && OnPath(S(), t, at[t].level, v) && i == Index(v, at[t].level)
      modifies this`mem, this`pool, this`at
      ensures Valid() && (S(), below) == Descend(old(S()), t, old(at)[t].level, v)
    {
      DescendSound(S(), view, t, at[t].level, v);
      var e := mem[t][i];
      if !Present(e) {
        var frame := AllocFrame();
        if frame.None? {
          return None;
        }
        var f := frame.value;
        TableEntryLeads(f);
        at := GrowPlaces(at, t, i, f);
        var table := mem[t];
        mem := mem[f := ZeroTable()];
        mem := mem[t := table[i := TableEntry(f)]];
        e := TableEntry(f);
      }
      below := Some(Frame(e));
    }

    /** Store an entry in the leaf slot of a page. */
    method StoreLeaf(root: Addr, virt: nat, leaf: Addr, i: nat, e: Word)
      requires Valid() && IsRoot(root) && Slot(mem, root, 4, virt) == Some((leaf, i))
      modifies this`mem, this`view
      ensures Valid()
      ensures view ==
        if Present(e) then old(view)[Page(root, PageNumber(virt)) := e]
        else old(view) - {Page(root, PageNumber(virt))}
      ensures mem.Keys == old(mem).Keys
    {
      ghost var p := Page(root, PageNumber(virt));
      ghost var view' := if Present(e) then view[p := e] else view - {p};
      LeafWriteRefines(mem, at, view, root, virt, e, view');
      mem := mem[leaf := mem[leaf][i := e]];
      view := view';
    }

    /** Map one page. The page gets the new entry when enough frames are left for the tables missing on
        its path; otherwise no translation changes. No other page changes in any address space. */
    method MapPage(root: Addr, virt: nat, phys: Word, flags: Word)
      requires Valid() && IsRoot(root)
      modifies this
      ensures Valid() && (forall q :: IsRoot(q) <==> Root(old(at), q))
      ensures Missing(old(mem), root, 4, virt) <= |old(pool)| ==>
        (view == old(view)[Page(root, PageNumber(virt)) := LeafEntry(phys, flags)]
          && pool == old(pool)[Missing(old(mem), root, 4, virt)..])
      ensures Missing(old(mem), root, 4, virt) > |old(pool)| ==> view == old(view) && pool == []
      ensures TakesFromPool(old(S()), S())
    {
      hide Slot, Missing, PathDown, OnPath, PageNumber;
      assert TableOk(mem, at, root);
      PathDownTakes(S(), root, 4, virt);
      PathDownSound(S(), view, root, 4, virt);
      var pt := PathTo(root, virt);
      if pt.None? {
        return;
      }
      LeafEntryLeads(phys, flags);
      StoreLeaf(root, virt, pt.value, Index(virt, 1), LeafEntry(phys, flags));
    }

    /** The leaf table of a page, with the missing tables on its path added. */
    method PathTo(root: Addr, virt: nat) returns (pt: Option<Addr>)
      requires Valid() && OnPath(S(), root, 4, virt)
      modifies this`mem, this`pool, this`at
      ensures Valid() && (S(), pt) == PathDown(old(S()), root, 4, virt)
    {
      DescendArrives(S(), view, root, 4, virt);
      var pdpt := GetOrAlloc(root, Index(virt, 4), virt);
      if pdpt.None? {
        return None;
      }
      pt := PathBelow(pdpt.value, virt);
    }

    method PathBelow(pdpt: Addr, virt: nat) returns (pt: Option<Addr>)
      requires Valid() && OnPath(S(), pdpt, 3, virt)
      modifies this`mem, this`pool, this`at
      ensures Valid() && (S(), pt) == PathDown(old(S()), pdpt, 3, virt)
    {
      DescendArrives(S(), view, pdpt, 3, virt);
      var pd := GetOrAlloc(pdpt, Index(virt, 3), virt);
      if pd.None? {
        return None;
      }
      ghost var s2 := S();
      pt := GetOrAlloc(pd.value, Index(virt, 2), virt);
      assert PathDown(s2, pd.value, 2, virt) == (S(), pt);
    }

    /** The place of a page's leaf entry, if its path has no missing table. */
    method LeafSlot(root: Addr, virt: nat) returns (slot: Option<(Addr, nat)>)
      requires Valid() && IsRoot(root)
      ensures slot == Slot(mem, root, 4, virt)
      ensures slot.Some? ==> slot.value.0 in mem && slot.value.1 < |mem[slot.value.0]| == PT_ENTRIES
      ensures slot.None? ==> Page(root, PageNumber(virt)) !in view
    {
      assert TableOk(mem, at, root) && ChildOk(mem, at, root, virt);
      SlotPlace(mem, at, root, 4, virt);
      assert Lookup(mem, root, 4, virt) == FlatLookup(view, root, virt);
      var e := mem[root][Index(virt, 4)];
      if !Present(e) {
        return None;
      }
      var pdpt := Frame(e);
      assert TableOk(mem, at, pdpt) && ChildOk(mem, at, pdpt, virt);
      e := mem[pdpt][Index(virt, 3)];
      if !Present(e) {
        return None;
      }
      var pd := Frame(e);
      assert TableOk(mem, at, pd) && ChildOk(mem, at, pd, virt);
      assert Slot(mem, pdpt, 3, virt) ==
        if Present(mem[pd][Index(virt, 2)]) then Slot(mem, Frame(mem[pd][Index(virt, 2)]), 1, virt) else None;
      e := mem[pd][Index(virt, 2)];
      if !Present(e) {
        return None;
      }
      var pt := Frame(e);
      assert TableOk(mem, at, pt);
      slot := Some((pt, Index(virt, 1)));
    }

    /** Unmap one page; no other page changes in any address space. */
    method UnmapPage(root: Addr, virt: nat)
      requires Valid() && IsRoot(root)
      modifies this`mem, this`view
      ensures Valid() && mem.Keys == old(mem).Keys
      ensures view == old(view) - {Page(root, PageNumber(virt))}
    {
      var slot := LeafSlot(root, virt);
      if slot.Some? {
        ZeroEntry();
        StoreLeaf(root, virt, slot.value.0, slot.value.1, 0);
      }
    }

    /** The frame and offset a virtual address translates to, or none when its page is not mapped. */
    method GetPhysicalAddress(root: Addr, virt: nat) returns (phys: Option<(Addr, nat)>)
      requires Valid() && IsRoot(root)
      ensures phys == var p := Page(root, PageNumber(virt));
        if p in view then Some((Frame(view[p]), virt % 4096)) else None
    {
      var slot := LeafSlot(root, virt);
      if slot.None? {
        return None;
      }
      assert Lookup(mem, root, 4, virt) == FlatLookup(view, root, virt);
      var e := mem[slot.value.0][slot.value.1];
      phys := if Present(e) then Some((Frame(e), virt % 4096)) else None;
    }

    /** Return a frame that no table uses to the pool. */
    method FreeFrame(f: Addr)
      requires Valid() && f !in mem && f !in pool && Frame(f.bits) == f && f.bits != 0
      modifies this`pool
      ensures Valid() && pool == [f] + old(pool)
    {
      pool := [f] + pool;
    }
  }
}
