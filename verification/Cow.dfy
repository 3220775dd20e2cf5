/** Copy-on-write as it runs: bit operations on page-table entries, and reference entries in hash
    chains, over the virtual memory manager. */
module Cow {
  import opened Common
  import opened Paging
  import opened Vmm
  import opened CowSpec

  const COW_FLAG_MASK: Word := 0x200
  const COW_HASH_SIZE: nat := 1024
  const PAGE_SIZE: nat := 4096

  // ----- entries: what the bit operations mean -----

  function Decode(e: Word): Pte {
    Pte(Frame(e), Present(e), e & WRITABLE != 0, e & COW_FLAG_MASK != 0)
  }

  lemma MarkBits(e: Word)
    ensures Decode((e & !WRITABLE) | COW_FLAG_MASK) == Shared(Decode(e))
  {
    assert ((e & !WRITABLE) | COW_FLAG_MASK) & ADDRESS_MASK == e & ADDRESS_MASK;
  }

  lemma OwnBits(e: Word)
    ensures Decode((e | WRITABLE) & !COW_FLAG_MASK) == Owned(Decode(e))
  {
    assert ((e | WRITABLE) & !COW_FLAG_MASK) & ADDRESS_MASK == e & ADDRESS_MASK;
  }

  lemma CopyBits(b: Word, e: Word)
    ensures Decode((b & ADDRESS_MASK) | (e & 0xFFF)) == Decode(e).(frame := Frame(b))
  {
    assert ((b & ADDRESS_MASK) | (e & 0xFFF)) & ADDRESS_MASK == b & ADDRESS_MASK;
    assert ((b & ADDRESS_MASK) | (e & 0xFFF)) & PRESENT == e & PRESENT;
    assert ((b & ADDRESS_MASK) | (e & 0xFFF)) & WRITABLE == e & WRITABLE;
    assert ((b & ADDRESS_MASK) | (e & 0xFFF)) & COW_FLAG_MASK == e & COW_FLAG_MASK;
  }

  lemma TakenFlags(b: Word, e: Word)
    ensures ((e | WRITABLE) & !COW_FLAG_MASK) & 0xFFF == (e & 0xDFF) | 0x2
    ensures ((((b & ADDRESS_MASK) | (e & 0xFFF)) | WRITABLE) & !COW_FLAG_MASK) & 0xFFF == (e & 0xDFF) | 0x2
  {
  }

  /** Only the mapping of p has changed. Of the flags in its entry e the writable bit is set and the mark bit
      cleared, and the other ten are as before. */
  ghost predicate TakenBack(view: map<Page, Word>, before: map<Page, Word>, p: Page, e: Word) {
    p in view && view == before[p := view[p]] && view[p] & 0xFFF == (e & 0xDFF) | 0x2
  }

  lemma EntryTaken(before: map<Page, Word>, p: Page, e: Word, e': Word)
    requires e' & 0xFFF == (e & 0xDFF) | 0x2
    ensures TakenBack(before[p := e'], before, p, e)
  {
  }

  /** The entry of the copy: the new frame, writable, no longer marked. */
  lemma CopyEntry(copy: Addr, e: Word)
    requires Frame(copy.bits) == copy
    ensures Decode((((copy.bits & ADDRESS_MASK) | (e & 0xFFF)) | WRITABLE) & !COW_FLAG_MASK) ==
      Owned(Decode(e)).(frame := copy)
    ensures Owned(Decode(e)).present == Decode(e).present
  {
    hide Decode, Frame;
    CopyBits(copy.bits, e);
    OwnBits((copy.bits & ADDRESS_MASK) | (e & 0xFFF));
  }

  /** The parts of every mapping that copy-on-write looks at. */
  ghost function DecodeView(view: map<Page, Word>): map<Page, Pte> {
    map p | p in view :: Decode(view[p])
  }

  lemma DecodeUpdate(view: map<Page, Word>, p: Page, e: Word)
    ensures DecodeView(view[p := e]) == DecodeView(view)[p := Decode(e)]
  {
  }

  // ----- reference entries in hash chains -----

  datatype PageRef = PageRef(physical: Addr, count: nat, node: Addr)

  function Hash(f: Addr): (h: nat)
    ensures h < COW_HASH_SIZE
  {
    HashBits(f.bits)
  }

  function HashBits(b: Word): (h: nat)
    ensures h < COW_HASH_SIZE
  {
    ((b >> 12) & 0x3FF) as nat
  }

  /** Entry i of chain h is the entry of its frame, in the right chain. */
  ghost predicate EntryOk(chain: seq<PageRef>, h: nat, refs: map<Addr, Ref>, i: nat)
    requires i < |chain|
  {
    var r := chain[i];
    Hash(r.physical) == h && r.physical in refs && refs[r.physical] == Ref(r.count, r.node)
  }

  ghost predicate ChainOk(chain: seq<PageRef>, h: nat, refs: map<Addr, Ref>) {
    && (forall i | 0 <= i < |chain| :: EntryOk(chain, h, refs, i))
    && (forall i, j | 0 <= i < j < |chain| :: chain[i].physical != chain[j].physical)
  }

  ghost predicate InChain(chain: seq<PageRef>, f: Addr) {
    exists i :: 0 <= i < |chain| && chain[i].physical == f
  }

  /** The chains hold exactly the entries of refs, each in the chain of its hash, once. */
  ghost predicate ChainsOk(chains: seq<seq<PageRef>>, refs: map<Addr, Ref>) {
    && |chains| == COW_HASH_SIZE
    && (forall h: nat | h < COW_HASH_SIZE :: ChainOk(chains[h], h, refs))
    && (forall f | f in refs :: InChain(chains[Hash(f)], f))
  }

  /** A new entry at the head of its chain. */
  lemma ChainInsert(chains: seq<seq<PageRef>>, refs: map<Addr, Ref>, r: PageRef)
    requires ChainsOk(chains, refs) && r.physical !in refs
    ensures ChainsOk(
      chains[Hash(r.physical) := [r] + chains[Hash(r.physical)]],
      refs[r.physical := Ref(r.count, r.node)])
  {
    var k := Hash(r.physical);
    var chains', refs' := chains[k := [r] + chains[k]], refs[r.physical := Ref(r.count, r.node)];
    forall h: nat | h < COW_HASH_SIZE ensures ChainOk(chains'[h], h, refs') {
      assert ChainOk(chains[h], h, refs);
      forall i: nat | i < |chains'[h]| ensures EntryOk(chains'[h], h, refs', i) {
        if h == k {
          if i > 0 { assert EntryOk(chains[h], h, refs, i - 1); }
        } else {
          assert EntryOk(chains[h], h, refs, i);
        }
      }
      forall i, j | 0 <= i < j < |chains'[h]| ensures chains'[h][i].physical != chains'[h][j].physical {
        if h == k { assert EntryOk(chains[h], h, refs, j - 1); }
      }
    }
    forall f | f in refs' ensures InChain(chains'[Hash(f)], f) {
      if f == r.physical {
        assert chains'[k][0].physical == f;
      } else {
        var i :| 0 <= i < |chains[Hash(f)]| && chains[Hash(f)][i].physical == f;
        assert Hash(f) == k ==> chains'[k][i + 1].physical == f;
      }
    }
  }

  /** A new count in the entry of a frame. */
  lemma ChainSetCount(chains: seq<seq<PageRef>>, refs: map<Addr, Ref>, k: nat, n: nat, c: nat)
    requires ChainsOk(chains, refs) && k < COW_HASH_SIZE && n < |chains[k]|
    ensures var r := chains[k][n];
      && r.physical in refs && Hash(r.physical) == k && refs[r.physical] == Ref(r.count, r.node)
      && ChainsOk(chains[k := chains[k][n := r.(count := c)]], refs[r.physical := refs[r.physical].(count := c)])
  {
    var r := chains[k][n];
    assert ChainOk(chains[k], k, refs) && EntryOk(chains[k], k, refs, n);
    var chains', refs' :=
      chains[k := chains[k][n := r.(count := c)]], refs[r.physical := refs[r.physical].(count := c)];
    forall h: nat | h < COW_HASH_SIZE ensures ChainOk(chains'[h], h, refs') {
      assert ChainOk(chains[h], h, refs);
      forall i: nat | i < |chains'[h]| ensures EntryOk(chains'[h], h, refs', i) {
        assert EntryOk(chains[h], h, refs, i);
        assert h == k && i != n ==> chains[h][i].physical != r.physical;
      }
    }
    forall f | f in refs' ensures InChain(chains'[Hash(f)], f) {
      var i :| 0 <= i < |chains[Hash(f)]| && chains[Hash(f)][i].physical == f;
      assert chains'[Hash(f)][i].physical == f;
    }
  }

  /** Unlinking the entry of a frame. */
  lemma ChainRemove(chains: seq<seq<PageRef>>, refs: map<Addr, Ref>, k: nat, n: nat)
    requires ChainsOk(chains, refs) && k < COW_HASH_SIZE && n < |chains[k]|
    ensures ChainsOk(chains[k := chains[k][..n] + chains[k][n + 1..]], refs - {chains[k][n].physical})
  {
    var gone := chains[k][n].physical;
    var chains', refs' := chains[k := chains[k][..n] + chains[k][n + 1..]], refs - {gone};
    assert ChainOk(chains[k], k, refs) && EntryOk(chains[k], k, refs, n);
    forall h: nat | h < COW_HASH_SIZE ensures ChainOk(chains'[h], h, refs') {
      assert ChainOk(chains[h], h, refs);
      forall i: nat | i < |chains'[h]| ensures EntryOk(chains'[h], h, refs', i) {
        var j := if h == k && i >= n then i + 1 else i;
        assert EntryOk(chains[h], h, refs, j) && chains'[h][i] == chains[h][j];
        assert h == k ==> chains[h][j].physical != gone;
      }
    }
    forall f | f in refs' ensures InChain(chains'[Hash(f)], f) {
      var i :| 0 <= i < |chains[Hash(f)]| && chains[Hash(f)][i].physical == f;
      var j := if Hash(f) == k && i > n then i - 1 else i;
      assert chains'[Hash(f)][j].physical == f;
    }
  }

  // ----- the subsystem -----

  class CopyOnWrite {
    const vmm: VirtualMemory
    const chains: array<seq<PageRef>>
    var data: map<Addr, Content>
    ghost var refs: map<Addr, Ref>

    ghost function S(): State
      reads this, vmm
    {
      State(DecodeView(vmm.view), refs, data, vmm.pool)
    }

    /** An aligned frame that no page table occupies. */
    ghost predicate FrameOk(f: Addr)
      reads vmm
    {
      Frame(f.bits) == f && f.bits != 0 && f !in vmm.mem
    }

    ghost predicate FramesOk()
      reads this, vmm
    {
      && (forall f | f in data :: FrameOk(f) && |data[f]| == PAGE_SIZE)
      && (forall f | f in refs :: FrameOk(refs[f].node) && refs[f].count < U32)
    }

    ghost predicate Valid()
      reads this, vmm, chains
    {
      vmm.Valid() && ChainsOk(chains[..], refs) && FramesApart(S()) && FramesOk()
    }

    constructor (memory: VirtualMemory)
      requires memory.Valid() && memory.view == map[]
      ensures Valid() && vmm == memory && S() == State(map[], map[], map[], memory.pool)
    {
      vmm := memory;
      chains := new seq<PageRef>[COW_HASH_SIZE](_ => []);
      data, refs := map[], map[];
    }

    /** The position of a frame's entry in its chain, or the chain's length when there is none. */
    method Find(f: Addr) returns (n: nat)
      requires Valid()
      ensures n <= |chains[Hash(f)]|
      ensures f in refs <==> n < |chains[Hash(f)]|
      ensures n < |chains[Hash(f)]| ==>
        chains[Hash(f)][n].physical == f && refs[f] == Ref(chains[Hash(f)][n].count, chains[Hash(f)][n].node)
    {
      var chain := chains[Hash(f)];
      assert ChainOk(chains[..][Hash(f)], Hash(f), refs);
      n := 0;
      while n < |chain| && chain[n].physical != f
        invariant n <= |chain| && forall i | 0 <= i < n :: chain[i].physical != f
      {
        n := n + 1;
      }
      if n < |chain| { assert EntryOk(chain, Hash(f), refs, n); }
      if f in refs { assert InChain(chains[..][Hash(f)], f); }
    }

    /** Find the reference entry of a frame or make one at the head of its chain. */
    method GetRef(f: Addr) returns (ok: bool, n: nat)
      requires Valid()
      modifies this`refs, chains, vmm`pool
      ensures Valid() && (S(), ok) == CowSpec.GetRef(old(S()), f)
      ensures ok ==> n < |chains[Hash(f)]| && chains[Hash(f)][n].physical == f && f in refs
      ensures ok ==> chains[Hash(f)][n].count == refs[f].count
      ensures vmm.mem == old(vmm.mem) && vmm.view == old(vmm.view)
    {
      n := Find(f);
      ok := true;
      if n == |chains[Hash(f)]| {
        ok := NewEntry(f);
        n := 0;
      }
    }

    /** Make an entry with count zero at the head of a chain. */
    method NewEntry(f: Addr) returns (ok: bool)
      requires Valid() && f !in refs
      modifies this`refs, chains, vmm`pool
      ensures Valid() && (S(), ok) == CowSpec.GetRef(old(S()), f)
      ensures ok ==> |chains[Hash(f)]| > 0 && chains[Hash(f)][0].physical == f
      ensures ok ==> f in refs && chains[Hash(f)][0].count == refs[f].count
      ensures vmm.mem == old(vmm.mem) && vmm.view == old(vmm.view)
    {
      hide Sound, FramesApart, EntryOk, ChainOk, InChain;
      GetRefSound(S(), f);
      var frame := vmm.AllocFrame();
      ok := frame.Some?;
      if ok {
        var r := PageRef(f, 0, frame.value);
        ChainInsert(chains[..], refs, r);
        chains[Hash(f)] := [r] + chains[Hash(f)];
        refs := refs[f := Ref(0, frame.value)];
      }
    }

    /** Store a count in an entry. */
    method SetCountAt(f: Addr, n: nat, c: nat)
      requires Valid() && n < |chains[Hash(f)]| && chains[Hash(f)][n].physical == f && c < U32
      modifies this`refs, chains
      ensures Valid() && f in old(refs) && S() == CowSpec.SetCount(old(S()), f, c)
      ensures |chains[Hash(f)]| == |old(chains[Hash(f)])| && chains[Hash(f)][n] == old(chains[Hash(f)][n]).(count := c)
    {
      hide EntryOk, InChain, Sound, DecodeView;
      ChainSetCount(chains[..], refs, Hash(f), n, c);
      chains[Hash(f)] := chains[Hash(f)][n := chains[Hash(f)][n].(count := c)];
      refs := refs[f := refs[f].(count := c)];
    }

    /** The entry stored for a page, when its path is complete and the entry present. */
    method Entry(root: Addr, virt: nat) returns (slot: Option<(Addr, nat)>, e: Word)
      requires Valid() && vmm.IsRoot(root)
      ensures slot.Some? <==> Page(root, PageNumber(virt)) in S().view
      ensures slot.Some? ==> slot == Slot(vmm.mem, root, 4, virt) && vmm.view[Page(root, PageNumber(virt))] == e
      ensures slot.Some? ==> S().view[Page(root, PageNumber(virt))] == Decode(e) && Decode(e).present
    {
      slot, e := None, 0;
      var pte := vmm.LeafSlot(root, virt);
      if pte.Some? {
        assert Lookup(vmm.mem, root, 4, virt) == FlatLookup(vmm.view, root, virt);
        e := vmm.mem[pte.value.0][pte.value.1];
        if Present(e) {
          slot := pte;
        }
      }
    }

    /** Write a present entry back. */
    method SetEntry(root: Addr, virt: nat, slot: (Addr, nat), e: Word)
      requires Valid() && vmm.IsRoot(root) && Slot(vmm.mem, root, 4, virt) == Some(slot) && Decode(e).present
      modifies vmm`mem, vmm`view
      ensures Valid()
      ensures S() == old(S()).(view := old(S()).view[Page(root, PageNumber(virt)) := Decode(e)])
      ensures vmm.view == old(vmm.view)[Page(root, PageNumber(virt)) := e]
    {
      hide Sound, EntryOk, ChainOk, InChain, Frame, Present;
      DecodeUpdate(vmm.view, Page(root, PageNumber(virt)), e);
      vmm.StoreLeaf(root, virt, slot.0, slot.1, e);
    }

    method CountUp(f: Addr) returns (ok: bool)
      requires Valid()
      modifies this`refs, chains, vmm`pool
      ensures Valid() && ok == CowSpec.GetRef(old(S()), f).1 && S() == CowSpec.Increment(old(S()), f)
      ensures vmm.mem == old(vmm.mem) && vmm.view == old(vmm.view)
    {
      var n;
      ok, n := GetRef(f);
      if ok {
        SetCountAt(f, n, Up(chains[Hash(f)][n].count));
      }
    }

    /** Mark a page as copy-on-write; -1 when it is not mapped or no reference entry can be made. */
    method MarkPage(root: Addr, virt: nat) returns (r: int)
      requires Valid() && (root.bits != 0 ==> vmm.IsRoot(root))
      modifies this`refs, chains, vmm
      ensures Valid() && (r == 0 || r == -1)
      ensures root.bits == 0 ==> r == -1 && S() == old(S())
      ensures root.bits != 0 ==> (S(), r == 0) == CowSpec.Mark(old(S()), Page(root, PageNumber(virt)))
      ensures var p := Page(root, PageNumber(virt));
        r == 0 ==> p in old(vmm.view) && vmm.view == old(vmm.view)[p := (old(vmm.view)[p] & !0x2) | 0x200]
    {
      if root.bits == 0 {
        return -1;
      }
      var slot, entry := Entry(root, virt);
      if slot.None? {
        return -1;
      }
      var ok := MarkEntry(root, virt, slot.value, entry);
      r := if ok then 0 else -1;
    }

    method MarkEntry(root: Addr, virt: nat, slot: (Addr, nat), entry: Word) returns (ok: bool)
      requires Valid() && vmm.IsRoot(root) && Slot(vmm.mem, root, 4, virt) == Some(slot) && Decode(entry).present
      requires Page(root, PageNumber(virt)) in S().view && S().view[Page(root, PageNumber(virt))] == Decode(entry)
      modifies this`refs, chains, vmm
      ensures Valid() && (S(), ok) == CowSpec.Mark(old(S()), Page(root, PageNumber(virt)))
      ensures ok ==> vmm.view == old(vmm.view)[Page(root, PageNumber(virt)) := (entry & !0x2) | 0x200]
    {
      hide Sound, FramesApart, ChainsOk;
      ok := CountUp(Frame(entry));
      if ok {
        MarkBits(entry);
        SetEntry(root, virt, slot, (entry & !WRITABLE) | COW_FLAG_MASK);
      }
    }

    /** Handle a write fault on a marked page; -1 when the page is not marked or frames ran out. */
    method HandleFault(root: Addr, virt: nat) returns (r: int)
      requires Valid() && vmm.IsRoot(root)
      requires var p := Page(root, PageNumber(virt)); p in S().view ==> S().view[p].frame in data
      modifies this, chains, vmm
      ensures Valid() && (r == 0 || r == -1)
      ensures (S(), r == 0) == CowSpec.Fault(old(S()), Page(root, PageNumber(virt)))
      ensures var p := Page(root, PageNumber(virt));
        r == 0 ==> p in old(vmm.view) && TakenBack(vmm.view, old(vmm.view), p, old(vmm.view)[p])
    {
      var slot, entry := Entry(root, virt);
      if slot.None? || entry & COW_FLAG_MASK == 0 {
        return -1;
      }
      var ok := FaultOn(root, virt, slot.value, entry);
      r := if ok then 0 else -1;
    }

    method FaultOn(root: Addr, virt: nat, slot: (Addr, nat), entry: Word) returns (ok: bool)
      requires Valid() && vmm.IsRoot(root) && Slot(vmm.mem, root, 4, virt) == Some(slot)
      requires Decode(entry).present && Decode(entry).cow
      requires Page(root, PageNumber(virt)) in S().view && S().view[Page(root, PageNumber(virt))] == Decode(entry)
      requires Frame(entry) in data
      modifies this, chains, vmm
      ensures Valid() && (S(), ok) == CowSpec.Fault(old(S()), Page(root, PageNumber(virt)))
      ensures ok ==> TakenBack(vmm.view, old(vmm.view), Page(root, PageNumber(virt)), entry)
    {
      hide Sound, FramesApart, DecodeView, CowSpec.CopyOut;
      var f := Frame(entry);
      var n;
      ok, n := GetRef(f);
      if ok {
        if chains[Hash(f)][n].count == 1 {
          SetCountAt(f, n, 0);
          OwnBits(entry);
          TakenFlags(entry, entry);
          SetEntry(root, virt, slot, (entry | WRITABLE) & !COW_FLAG_MASK);
        } else {
          ok := MoveToCopy(root, virt, slot, entry, f, n);
        }
      }
    }

    /** Give the page a frame of its own with a copy of the contents; without a frame the count that
        was already lowered is restored. */
    method MoveToCopy(root: Addr, virt: nat, slot: (Addr, nat), entry: Word, f: Addr, n: nat) returns (ok: bool)
      requires Valid() && vmm.IsRoot(root) && Slot(vmm.mem, root, 4, virt) == Some(slot) && Decode(entry).present
      requires f == Frame(entry) && n < |chains[Hash(f)]| && chains[Hash(f)][n].physical == f
      requires f in refs && refs[f].count == chains[Hash(f)][n].count && f in data
      modifies this, chains, vmm
      ensures Valid() && (S(), ok) == CowSpec.CopyOut(old(S()), Page(root, PageNumber(virt)), Decode(entry))
      ensures ok ==> TakenBack(vmm.view, old(vmm.view), Page(root, PageNumber(virt)), entry)
    {
      hide Sound, DecodeView, EntryOk, ChainOk, InChain, Slot;
      var count := chains[Hash(f)][n].count;
      SetCountAt(f, n, Down(count));
      var frame := vmm.AllocFrame();
      ok := frame.Some?;
      if ok {
        InstallCopy(root, virt, slot, entry, frame.value);
      } else {
        RestoreCount(f, n, old(refs), old(S()));
      }
    }

    method RestoreCount(f: Addr, n: nat, ghost refs0: map<Addr, Ref>, ghost s0: State)
      requires Valid() && n < |chains[Hash(f)]| && chains[Hash(f)][n].physical == f
      requires f in refs0 && f in refs && refs0[f].count < U32 && chains[Hash(f)][n].count == Down(refs0[f].count)
      requires refs == refs0[f := refs0[f].(count := Down(refs0[f].count))]
      requires S() == s0.(refs := refs) && s0.refs == refs0
      modifies this`refs, chains
      ensures Valid() && S() == s0
    {
      UpDown(refs0[f].count);
      CountRestored(refs0, f, Down(refs0[f].count));
      SetCountAt(f, n, Up(chains[Hash(f)][n].count));
    }

    /** Fill a free frame with the contents of the page's frame and let the entry lead to it. */
    method InstallCopy(root: Addr, virt: nat, slot: (Addr, nat), entry: Word, copy: Addr)
      requires Valid() && vmm.IsRoot(root) && Slot(vmm.mem, root, 4, virt) == Some(slot) && Decode(entry).present
      requires Frame(entry) in data && copy !in data && copy !in vmm.pool && FrameOk(copy)
      requires forall g | g in refs :: refs[g].node != copy
      modifies this`data, vmm`mem, vmm`view
      ensures Valid()
      ensures S() == old(S()).(
        view := old(S()).view[Page(root, PageNumber(virt)) := Owned(Decode(entry)).(frame := copy)],
        data := old(data)[copy := old(data)[Frame(entry)]])
      ensures TakenBack(vmm.view, old(vmm.view), Page(root, PageNumber(virt)), entry)
    {
      hide ChainsOk, Sound;
      hide DecodeView, Decode, TakenBack;
      var page := CopyPage(data[Frame(entry)]);
      data := data[copy := page];
      CopyEntry(copy, entry);
      ghost var before, e := vmm.view, (((copy.bits & ADDRESS_MASK) | (entry & 0xFFF)) | WRITABLE) & !COW_FLAG_MASK;
      TakenFlags(copy.bits, entry);
      EntryTaken(before, Page(root, PageNumber(virt)), entry, e);
      SetEntry(root, virt, slot, (((copy.bits & ADDRESS_MASK) | (entry & 0xFFF)) | WRITABLE) & !COW_FLAG_MASK);
    }

    /** Copy a page byte by byte. */
    method CopyPage(source: Content) returns (target: Content)
      requires |source| == PAGE_SIZE
      ensures target == source
    {
      target := [];
      for i := 0 to PAGE_SIZE
        invariant target == source[..i]
      {
        target := target + [source[i]];
      }
    }

    /** The count of a frame has gone up by one modulo 2^32; a frame without an entry has got one, with count one, in
        the first free frame, unless none was free. */
    twostate predicate Incremented(f: Addr)
      reads this, vmm
    {
      && OthersCounted(old(refs), refs, f)
      && (f in old(refs) ==> f in refs && refs[f].count == (old(refs)[f].count + 1) % 0x1_0000_0000)
      && (f in old(refs) ==> vmm.pool == old(vmm.pool) && refs[f].node == old(refs)[f].node)
      && (f !in old(refs) && old(vmm.pool) != [] ==>
        f in refs && refs[f] == Ref(1, old(vmm.pool)[0]) && vmm.pool == old(vmm.pool)[1..])
      && (f !in old(refs) && old(vmm.pool) == [] ==> refs == old(refs) && vmm.pool == [])
    }

    /** A frame without an entry is left alone; a count of one is gone, with its frame and its entry; any other count
        has gone down by one modulo 2^32. */
    twostate predicate Decremented(f: Addr)
      reads this, vmm
    {
      && OthersCounted(old(refs), refs, f)
      && (f !in old(refs) ==> refs == old(refs) && data == old(data) && vmm.pool == old(vmm.pool))
      && (f in old(refs) && old(refs)[f].count == 1 ==>
        f !in refs && data == old(data) - {f} && vmm.pool == [old(refs)[f].node, f] + old(vmm.pool))
      && (f in old(refs) && old(refs)[f].count != 1 ==>
        && data == old(data) && vmm.pool == old(vmm.pool) && f in refs && refs[f].node == old(refs)[f].node
        && refs[f].count == if old(refs)[f].count == 0 then 0xFFFF_FFFF else old(refs)[f].count - 1)
    }

    /** Count one more reference. */
    method IncrementRef(phys: Word)
      requires Valid()
      modifies this`refs, chains, vmm`pool
      ensures Valid() && S() == CowSpec.Increment(old(S()), PageFrame(phys))
      ensures Incremented(Addr(phys & !0xFFF)) && vmm.view == old(vmm.view) && data == old(data)
    {
      hide PageFrame, Sound, FramesApart, CowSpec.Increment, CowSpec.GetRef, ChainsOk, DecodeView;
      PageFrameBits(phys);
      IncrementEffect(S(), PageFrame(phys));
      var _ := CountUp(PageFrame(phys));
    }

    /** Drop one reference; the last one frees the frame and its entry. */
    method DecrementRef(phys: Word)
      requires Valid()
      requires PageFrame(phys) in refs && refs[PageFrame(phys)].count == 1 ==> PageFrame(phys) in data
      modifies this, chains, vmm`pool
      ensures Valid() && S() == CowSpec.Decrement(old(S()), PageFrame(phys))
      ensures Decremented(Addr(phys & !0xFFF)) && vmm.view == old(vmm.view)
    {
      hide PageFrame, Sound, FramesApart, CowSpec.Decrement, ChainsOk, DecodeView;
      PageFrameBits(phys);
      DecrementEffect(S(), PageFrame(phys));
      CountDown(PageFrame(phys));
    }

    method CountDown(f: Addr)
      requires Valid() && (f in refs && refs[f].count == 1 ==> f in data)
      modifies this, chains, vmm`pool
      ensures Valid() && S() == CowSpec.Decrement(old(S()), f) && vmm.view == old(vmm.view)
    {
      var n := Find(f);
      if n < |chains[Hash(f)]| {
        var r := chains[Hash(f)][n];
        if Down(r.count) == 0 {
          FreeEntry(f, n);
        } else {
          SetCountAt(f, n, Down(r.count));
        }
      }
    }

    /** The last mapping is gone: unlink the entry, free the frame and the entry. */
    method FreeEntry(f: Addr, n: nat)
      requires Valid() && n < |chains[Hash(f)]| && chains[Hash(f)][n].physical == f && f in data && f in refs
      requires refs[f].node == chains[Hash(f)][n].node
      modifies this`refs, this`data, chains, vmm`pool
      ensures Valid()
      ensures S() == old(S()).(
        refs := old(refs) - {f}, data := old(data) - {f}, pool := [old(refs)[f].node, f] + old(vmm.pool))
    {
      hide Sound, FramesApart, ChainOk, EntryOk, InChain;
      FreeEntryApart(S(), f);
      var node := chains[Hash(f)][n].node;
      Remove(f, n);
      FreeDataFrame(f);
      vmm.FreeFrame(node);
    }

    /** Unlink the entry of a frame from its chain. */
    method Remove(f: Addr, n: nat)
      requires Valid() && n < |chains[Hash(f)]| && chains[Hash(f)][n].physical == f
      modifies this`refs, chains
      ensures Valid() && S() == old(S()).(refs := old(refs) - {f})
    {
      ChainRemove(chains[..], refs, Hash(f), n);
      chains[Hash(f)] := chains[Hash(f)][..n] + chains[Hash(f)][n + 1..];
      refs := refs - {f};
    }

    method FreeDataFrame(f: Addr)
      requires Valid() && f in data
      modifies this`data, vmm`pool
      ensures Valid() && S() == old(S()).(data := old(data) - {f}, pool := [f] + old(vmm.pool))
    {
      data := data - {f};
      vmm.FreeFrame(f);
    }

    /** The count of a frame, zero when there is no entry. */
    method GetRefCount(phys: Word) returns (count: nat)
      requires Valid()
      ensures count == CowSpec.Count(S(), PageFrame(phys))
      ensures var f := Addr(phys & !0xFFF);
        if f in refs then count == refs[f].count else count == 0
    {
      var f := PageFrame(phys);
      var n := Find(f);
      count := if n < |chains[Hash(f)]| then chains[Hash(f)][n].count else 0;
    }
  }

  /** The frames of an entry and of the page it counts are apart from the free frames, and stay so when
      both are freed. */
  lemma FreeEntryApart(s: State, f: Addr)
    requires FramesApart(s) && f in s.refs && f in s.data
    ensures f !in s.pool && s.refs[f].node !in [f] + s.pool
    ensures FramesApart(s.(refs := s.refs - {f}))
    ensures FramesApart(s.(refs := s.refs - {f}, data := s.data - {f}, pool := [f] + s.pool))
    ensures FramesApart(s.(refs := s.refs - {f}, data := s.data - {f}, pool := [s.refs[f].node] + ([f] + s.pool)))
    ensures [s.refs[f].node] + ([f] + s.pool) == [s.refs[f].node, f] + s.pool
  {
  }

  lemma CountRestored(refs: map<Addr, Ref>, f: Addr, c: nat)
    requires f in refs
    ensures var lowered := refs[f := refs[f].(count := c)];
      lowered[f := lowered[f].(count := refs[f].count)] == refs
  {
  }

  /** The frame of an address: its low twelve bits cleared. */
  function PageFrame(phys: Word): Addr {
    Addr(phys & 0xFFFF_FFFF_FFFF_F000)
  }

  /** An address is its frame and its offset in it. */
  lemma PageFrameBits(phys: Word)
    ensures PageFrame(phys) == Addr(phys & !0xFFF)
    ensures PageFrame(phys).bits & 0xFFF == 0 && PageFrame(phys).bits | (phys & 0xFFF) == phys
  {
  }
}
