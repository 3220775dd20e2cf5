/** A slab cache as it runs: its slabs and lists changed in place, over a supply of pages that may run
    out. */
module SlabAllocator {
  import opened Common
  import opened SlabSpec
  import opened SlabState

  ghost predicate Pages(frames: set<nat>) {
    forall p | p in frames :: p > 0 && p % PAGE == 0
  }

  ghost function Held(slabs: set<nat>, home: nat, stackPage: nat): set<nat> {
    slabs + {home} + if stackPage == NULL then {} else {stackPage}
  }

  /** The pages of the cache are all different, and not free. */
  ghost predicate Supplied(pool: set<nat>, slabs: set<nat>, home: nat, stackPage: nat) {
    && Pages(pool) && pool !! Held(slabs, home, stackPage) && home !in slabs && home != stackPage && home > 0
    && (stackPage != NULL ==> stackPage !in slabs)
  }

  /** A free page may have become a slab. */
  ghost predicate PageMoves(pool: set<nat>, slabs: set<nat>, pool': set<nat>, slabs': set<nat>, page: nat) {
    || (page == NULL && pool' == pool && slabs' == slabs)
    || (page in pool && pool' == pool - {page} && slabs' == slabs + {page})
  }

  lemma SlabPage(pool: set<nat>, slabs: set<nat>, pool': set<nat>, slabs': set<nat>, home: nat, stackPage: nat,
    page: nat)
    requires Supplied(pool, slabs, home, stackPage) && PageMoves(pool, slabs, pool', slabs', page)
    ensures Supplied(pool', slabs', home, stackPage)
    ensures pool' + Held(slabs', home, stackPage) == pool + Held(slabs, home, stackPage)
  {
  }

  /** A free page has room for the objects behind the slab header, whatever the colour. */
  lemma NewPageUsable(c: Cache, g: Geometry, align: nat, page: nat, colour: nat)
    requires Colourable(g, align) && page > 0 && page % PAGE == 0 && page !in c.slabs
    ensures Usable(c, g, page, ObjectAt(g, page, colour, 0))
  {
  }

  class SlabCache {
    const g: Geometry
    const align: nat
    const home: nat
    var colorNext: nat
    var slabs: map<nat, Slab>
    var full: seq<nat>
    var partial: seq<nat>
    var free: seq<nat>
    var cpu: seq<nat>
    var stackPage: nat
    var allocations: nat
    var frees: nat
    var hits: nat
    var pool: set<nat>
    ghost var live: set<nat>

    ghost function S(): Cache
      reads this
    {
      Cache(slabs, full, partial, free, cpu)
    }

    /** The pages the cache holds: its own, that of the processor's stack, and its slabs. */
    ghost function Taken(): set<nat>
      reads this
    {
      Held(slabs.Keys, home, stackPage)
    }

    ghost predicate Supply()
      reads this
    {
      Supplied(pool, slabs.Keys, home, stackPage) && (cpu != [] ==> stackPage != NULL)
    }

    ghost predicate Valid()
      reads this
    {
      && Inv(S(), g, live) && Supply() && allocations == frees + |live|
      && Colourable(g, align)
    }

    constructor (frames: set<nat>, page: nat, n: nat, a: nat)
      requires 0 < n <= PAGE && Alignment(a) && Pages(frames) && page in frames
      ensures Legal(n, a) ==> Valid()
      ensures live == {} && pool == frames - {page} && Taken() == {page} && align == a && g == MakeGeometry(n, a)
    {
      g, align, home := MakeGeometry(n, a), a, page;
      colorNext, slabs, full, partial, free := 0, map[], [], [], [];
      cpu, stackPage, allocations, frees, hits := [], NULL, 0, 0, 0;
      pool, live := frames - {page}, {};
      if Legal(n, a) { LegalColours(n, a); }
    }

    /** slab_cache_create: refuses sizes that are zero or above a page, and fails without a page for the
        cache. An alignment of zero stands for eight. Sizes that leave no byte of the page for colouring,
        or do not fit behind the slab header, are let through; the cache is fit for use when they do not
        occur. */
    static method Create(frames: set<nat>, n: nat, a: nat) returns (cache: SlabCache?)
      requires Pages(frames) && (a == 0 || Alignment(a))
      ensures cache == null <==> n == 0 || n > PAGE || frames == {}
      ensures cache != null ==> fresh(cache) && cache.live == {} && cache.pool + cache.Taken() == frames
      ensures cache != null ==> 0 < n <= PAGE && cache.g == MakeGeometry(n, if a == 0 then 8 else a)
      ensures cache != null && Legal(n, if a == 0 then 8 else a) ==> cache.Valid()
    {
      if n == 0 || n > PAGE || frames == {} { return null; }
      var align := if a == 0 then 8 else a;
      var page :| page in frames;
      cache := new SlabCache(frames, page, n, align);
    }

    ghost function BaseOf(page: nat): nat
      requires Slack(g) != 0
      reads this
    {
      ObjectAt(g, page, colorNext, 0)
    }

    /** slab_create: a new slab of the next colour, its objects chained last to first; NULL when there is
        no page. It is on no list yet. */
    method CreateSlab() returns (page: nat)
      requires Valid()
      modifies this`slabs, this`colorNext, this`pool
      ensures page == NULL ==>
        old(pool) == {} && slabs == old(slabs) && pool == old(pool) && colorNext == old(colorNext)
      ensures page != NULL ==> page in old(pool) && pool == old(pool) - {page}
      ensures page != NULL ==> colorNext == (old(colorNext) + 1) % 8
      ensures page != NULL ==>
        slabs == old(slabs)[page := Slab(old(BaseOf(page)), NewChain(g, old(BaseOf(page)), g.count), 0)]
    {
      if pool == {} { return NULL; }
      page :| page in pool;
      pool := pool - {page};
      var base := page + HEADER + Shift(Slack(g), colorNext);
      colorNext := (colorNext + 1) % 8;
      var chain := [];
      for i := 0 to g.count
        invariant chain == NewChain(g, base, i)
      {
        chain := [base + i * g.size] + chain;
      }
      slabs := slabs[page := Slab(base, chain, 0)];
    }

    /** slab_alloc_from_slab. */
    method AllocFromSlab(a: nat) returns (o: nat)
      requires a in slabs
      modifies this`slabs
      ensures var s := old(slabs)[a];
        && (s.chain == [] ==> o == NULL && slabs == old(slabs))
        && (s.chain != [] ==> o == s.chain[0] && slabs == old(slabs)[a := Slab(s.base, s.chain[1..], s.inUse + 1)])
    {
      var s := slabs[a];
      if s.chain == [] { return NULL; }
      o := s.chain[0];
      slabs := slabs[a := Slab(s.base, s.chain[1..], s.inUse + 1)];
    }

    /** slab_move_to_list: find a slab on one list, unlink it, and push it on another. */
    method MoveToList(from: seq<nat>, to: seq<nat>, a: nat) returns (from': seq<nat>, to': seq<nat>)
      requires a in from
      ensures from' == Without(from, a) && to' == [a] + to
    {
      var i := 0;
      while from[i] != a
        invariant i < |from| && a in from[i..] && a !in from[..i]
        decreases |from| - i
      {
        i := i + 1;
      }
      WithoutIndex(from, i);
      from' := from[..i] + from[i + 1..];
      to' := [a] + to;
    }

    /** Hand out an object of the first slab on the partial list. */
    method TakePartial() returns (o: nat)
      requires partial != [] && partial[0] in slabs && slabs[partial[0]].chain != []
      modifies this`slabs, this`partial, this`full
      ensures (S(), o) == TakeFrom(old(S()), g, old(partial)[0])
    {
      var a := partial[0];
      o := AllocFromSlab(a);
      if slabs[a].inUse == g.count {
        partial, full := MoveToList(partial, full, a);
      }
    }

    /** Allocation without the processor's stack: a partial slab, else a free one, else a new one. */
    method TakeFromLists() returns (o: nat, ghost page: nat)
      requires Valid() && cpu == []
      modifies this`slabs, this`full, this`partial, this`free, this`pool, this`colorNext
      ensures page != NULL || pool == old(pool)
      ensures page == NULL ||
        (page in old(pool) && pool == old(pool) - {page} && old(partial) == [] && old(free) == [])
      ensures page == NULL && old(partial) == [] && old(free) == [] ==> old(pool) == {}
      ensures (S(), o) == Alloc(old(S()), g, page, old(BaseOf(page)))
    {
      hide Inv;
      ghost var c, colour := S(), colorNext;
      page := NULL;
      if partial != [] {
        ReadySound(c, g, live, NULL, 0);
        o := TakePartial();
      } else if free != [] {
        ReadySound(c, g, live, NULL, 0);
        partial, free := [free[0]] + partial, free[1..];
        assert S() == Ready(c, g, NULL, 0);
        o := TakePartial();
      } else {
        var newSlab := CreateSlab();
        page := newSlab;
        o := NULL;
        if newSlab != NULL {
          NewPageUsable(c, g, align, newSlab, colour);
          ReadySound(c, g, live, newSlab, old(BaseOf(newSlab)));
          partial := [newSlab] + partial;
          assert S() == Ready(c, g, newSlab, old(BaseOf(newSlab)));
          o := TakePartial();
        }
      }
    }

    /** slab_alloc: hands out an object no client holds. It fails exactly when no object is free and there
        is no page for a new slab. */
    method SlabAlloc() returns (o: nat, ghost page: nat)
      requires Valid()
      modifies this
      ensures Valid() && pool + Taken() == old(pool + Taken())
      ensures page == NULL || page in old(pool)
      ensures (S(), o) == Alloc(old(S()), g, page, old(BaseOf(page)))
      ensures o == NULL <==> NoneFree(old(S())) && old(pool) == {}
      ensures o == NULL ==> live == old(live)
      ensures o != NULL ==> o !in old(live) && live == old(live) + {o}
      ensures allocations == old(allocations) + (if o == NULL then 0 else 1) && frees == old(frees)
      ensures hits == old(hits) + (if old(cpu) == [] then 0 else 1)
    {
      hide Inv, Alloc;
      o, page := TakeSafely();
      if o != NULL { CountOut(o); }
    }

    /** The object, not yet counted as handed out. */
    method TakeSafely() returns (o: nat, ghost page: nat)
      requires Valid()
      modifies this`slabs, this`full, this`partial, this`free, this`pool, this`colorNext, this`cpu, this`hits
      ensures Supply() && pool + Taken() == old(pool + Taken())
      ensures page == NULL || page in old(pool)
      ensures (S(), o) == Alloc(old(S()), g, page, old(BaseOf(page)))
      ensures o == NULL <==> NoneFree(old(S())) && old(pool) == {}
      ensures if o == NULL then S() == old(S()) else o !in live && Inv(S(), g, live + {o})
      ensures hits == old(hits) + (if old(cpu) == [] then 0 else 1)
    {
      ghost var c, colour, frames := S(), colorNext, pool;
      o, page := Take();
      AllocSound(c, g, live, page, ObjectAt(g, page, colour, 0));
      SlabPage(frames, c.slabs.Keys, pool, slabs.Keys, home, stackPage, page);
    }

    method CountOut(o: nat)
      requires Inv(S(), g, live + {o}) && o !in live && Supply() && allocations == frees + |live|
      requires Colourable(g, align)
      modifies this`allocations, this`live
      ensures Valid() && live == old(live) + {o} && allocations == old(allocations) + 1
    {
      OneMore(live, o);
      allocations := allocations + 1;
      live := live + {o};
    }

    /** The object, without the statistics. */
    method Take() returns (o: nat, ghost page: nat)
      requires Valid()
      modifies this`slabs, this`full, this`partial, this`free, this`pool, this`colorNext, this`cpu, this`hits
      ensures PageMoves(old(pool), old(slabs.Keys), pool, slabs.Keys, page) && (cpu != [] ==> stackPage != NULL)
      ensures Usable(old(S()), g, page, old(BaseOf(page)))
      ensures NoneFree(old(S())) ==> (page == NULL <==> old(pool) == {})
      ensures (S(), o) == Alloc(old(S()), g, page, old(BaseOf(page)))
      ensures hits == old(hits) + (if old(cpu) == [] then 0 else 1)
    {
      page := NULL;
      if |cpu| > 0 {
        o := cpu[|cpu| - 1];
        cpu := cpu[..|cpu| - 1];
        hits := hits + 1;
      } else {
        ghost var c, colour := S(), colorNext;
        o, page := TakeFromLists();
        if page != NULL { NewPageUsable(c, g, align, page, colour); }
        AllocPages(c, g, live, page, ObjectAt(g, page, colour, 0));
      }
    }

    /** Put a freed object on the processor's stack, which gets its page when it is first used. */
    method PushStack(o: nat) returns (stacked: bool)
      requires Supply()
      modifies this`cpu, this`stackPage, this`pool
      ensures Supply() && pool + Taken() == old(pool + Taken())
      ensures stacked == (|old(cpu)| < CPU_LIMIT && (old(stackPage) != NULL || old(pool) != {}))
      ensures cpu == if stacked then old(cpu) + [o] else old(cpu)
    {
      stacked := false;
      if |cpu| < CPU_LIMIT {
        if stackPage == NULL && pool != {} {
          var page :| page in pool;
          StackPageMoves(pool, slabs.Keys, home, page);
          pool, stackPage := pool - {page}, page;
        }
        if stackPage != NULL {
          cpu := cpu + [o];
          stacked := true;
        }
      }
    }

    method FindInList(l: seq<nat>, o: nat) returns (a: nat)
      ensures a == if IndexOf(l, o) < |l| then l[IndexOf(l, o)] else NULL
    {
      var i := 0;
      while i < |l|
        invariant i <= |l| && IndexOf(l, o) == i + IndexOf(l[i..], o)
      {
        if l[i] <= o < l[i] + PAGE { return l[i]; }
        i := i + 1;
      }
      a := NULL;
    }

    /** slab_find_for_object: the full list, then the partial list. */
    method FindForObject(o: nat) returns (a: nat)
      requires NULL !in full
      ensures a == FindSlab(S(), o)
    {
      a := FindInList(full, o);
      if a == NULL {
        a := FindInList(partial, o);
      }
    }

    /** slab_free_to_slab, and the move between lists. */
    method PutOnSlab(a: nat, o: nat)
      requires a in slabs && slabs[a].inUse > 0
      requires slabs[a].inUse == g.count ==> a in full
      requires slabs[a].inUse != g.count ==> a in partial
      modifies this`slabs, this`full, this`partial, this`free
      ensures S() == PutBack(old(S()), g, a, o)
    {
      var s := slabs[a];
      var wasFull := s.inUse == g.count;
      slabs := slabs[a := Slab(s.base, [o] + s.chain, s.inUse - 1)];
      if wasFull {
        full, partial := MoveToList(full, partial, a);
      } else if slabs[a].inUse == 0 {
        partial, free := MoveToList(partial, free, a);
      }
    }

    method FreeToSlab(o: nat)
      requires Inv(S(), g, live) && o in live
      modifies this`slabs, this`full, this`partial, this`free
      ensures S() == Free(old(S()), g, o, false)
    {
      FindsSlab(S(), g, live, o);
      WhereFound(S(), g, live, o);
      var a := FindForObject(o);
      PutOnSlab(a, o);
    }

    /** slab_free: an object of a client goes to the processor's stack or back to its slab. */
    method SlabFree(o: nat)
      requires Valid() && (o == NULL || o in live)
      modifies this
      ensures Valid() && pool + Taken() == old(pool + Taken())
      ensures o == NULL ==> S() == old(S()) && live == old(live)
      ensures o != NULL ==>
        S() == Free(old(S()), g, o, old(stackPage) != NULL || old(pool) != {}) && live == old(live) - {o}
      ensures frees == old(frees) + (if o == NULL then 0 else 1) && allocations == old(allocations)
      ensures hits == old(hits)
    {
      hide Inv, Free;
      if o != NULL {
        FreeObject(o);
        CountIn(o);
      }
    }

    /** Take the object back, not yet counted as freed. */
    method FreeObject(o: nat)
      requires Valid() && o in live
      modifies this`slabs, this`full, this`partial, this`free, this`cpu, this`stackPage, this`pool
      ensures Supply() && pool + Taken() == old(pool + Taken())
      ensures S() == Free(old(S()), g, o, old(stackPage) != NULL || old(pool) != {}) && Inv(S(), g, live - {o})
    {
      FreeSound(S(), g, live, o, stackPage != NULL || pool != {});
      var stacked := PushStack(o);
      if !stacked { FreeToSlab(o); }
    }

    method CountIn(o: nat)
      requires Inv(S(), g, live - {o}) && o in live && Supply() && allocations == frees + |live| && Colourable(g, align)
      modifies this`frees, this`live
      ensures Valid() && live == old(live) - {o} && frees == old(frees) + 1
    {
      OneMore(live - {o}, o);
      assert live - {o} + {o} == live;
      frees := frees + 1;
      live := live - {o};
    }

    /** Give the pages of one list back. */
    method FreeList(l: seq<nat>, freed: seq<nat>, ghost before: set<nat>) returns (freed': seq<nat>)
      requires pool == before + Elements(freed)
      modifies this`pool
      ensures freed' == freed + l && pool == before + Elements(freed')
    {
      freed' := freed;
      for i := 0 to |l|
        invariant freed' == freed + l[..i] && pool == before + Elements(freed')
      {
        assert l[..i + 1] == l[..i] + [l[i]];
        freed' := freed' + [l[i]];
        pool := pool + {l[i]};
      }
      assert l[..|l|] == l;
    }

    /** slab_cache_destroy: every page the cache holds goes back to the supply, each exactly once. */
    method Destroy() returns (freed: seq<nat>)
      requires Valid()
      modifies this`pool
      ensures NoDuplicates(freed) && Elements(freed) == Taken() && pool == old(pool) + Taken()
    {
      ListsTogether(S());
      EveryPageOnce(S(), stackPage, home);
      freed := FreePages();
    }

    /** The slabs of the three lists in turn, then the page of the stack, then that of the cache. */
    method FreePages() returns (freed: seq<nat>)
      modifies this`pool
      ensures freed == Order(S(), stackPage, home) && pool == old(pool) + Elements(freed)
    {
      ghost var before := pool;
      freed := FreeList(full, [], before);
      freed := FreeList(partial, freed, before);
      freed := FreeList(free, freed, before);
      if stackPage != NULL { freed := FreeList([stackPage], freed, before); }
      freed := FreeList([home], freed, before);
    }
  }

  lemma StackPageMoves(pool: set<nat>, slabs: set<nat>, home: nat, page: nat)
    requires Supplied(pool, slabs, home, NULL) && page in pool
    ensures Supplied(pool - {page}, slabs, home, page)
    ensures pool - {page} + Held(slabs, home, page) == pool + Held(slabs, home, NULL)
  {
  }

  lemma WhereFound(c: Cache, g: Geometry, live: set<nat>, o: nat)
    requires Inv(c, g, live) && Out(c, g, o)
    ensures NULL !in c.full
    ensures var a := PageOf(o);
      && a in c.slabs && (c.slabs[a].inUse == g.count ==> a in c.full)
      && (c.slabs[a].inUse > 0 && c.slabs[a].inUse != g.count ==> a in c.partial)
  {
    var a := PageOf(o);
    assert SlabOk(g, a, c.slabs[a]) && Placed(c, a);
    forall x | x in c.full ensures x != NULL { assert SlabOk(g, x, c.slabs[x]); }
  }

  /** The pages in the order in which they are freed. */
  ghost function Order(c: Cache, stackPage: nat, home: nat): seq<nat> {
    Lists(c) + (if stackPage == NULL then [] else [stackPage]) + [home]
  }

  lemma EveryPageOnce(c: Cache, stackPage: nat, home: nat)
    requires NoDuplicates(Lists(c)) && (forall a :: a in Lists(c) <==> a in c.slabs)
    requires home !in c.slabs && home != stackPage && (stackPage != NULL ==> stackPage !in c.slabs)
    ensures NoDuplicates(Order(c, stackPage, home))
    ensures Elements(Order(c, stackPage, home)) == Held(c.slabs.Keys, home, stackPage)
  {
  }

  lemma OneMore(s: set<nat>, x: nat)
    requires x !in s
    ensures |s + {x}| == |s| + 1
  {
  }
}
