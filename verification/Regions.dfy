/** The region list of one address space: registration, lookup and removal. */
module Regions {
  import opened Common

  const PAGE_SIZE: nat := 4096

  datatype Region = Region(start: nat, end: nat, flags: nat)

  /** Clear the low twelve bits. */
  function AlignDown(x: nat): nat {
    x - x % PAGE_SIZE
  }

  /** The end of a requested range rounded up to a page, in 64-bit arithmetic. */
  function RegionEnd(start: nat, size: nat): nat {
    AlignDown((start + size + PAGE_SIZE - 1) % U64)
  }

  /** The overlap test on a new range: it starts in the region, or ends in it, or encloses it. */
  predicate Overlaps(r: Region, start: nat, end: nat) {
    || (start >= r.start && start < r.end)
    || (end > r.start && end <= r.end)
    || (start <= r.start && end >= r.end)
  }

  predicate Contains(r: Region, x: nat) {
    r.start <= x < r.end
  }

  /** On non-empty ranges the three-way test is exactly intersection. */
  lemma OverlapsMeansShared(r: Region, start: nat, end: nat)
    requires r.start < r.end && start < end
    ensures Overlaps(r, start, end) <==> exists x: nat :: Contains(r, x) && start <= x < end
  {
    if Overlaps(r, start, end) {
      var x := if start >= r.start then start else r.start;
      assert Contains(r, x) && start <= x < end;
    }
  }

  /** A region left empty by a request that wrapped still refuses every range that starts no later and ends no
      sooner than it, and no other. */
  lemma EmptyRegionRefuses(r: Region, start: nat, end: nat)
    requires r.end <= r.start
    ensures Overlaps(r, start, end) <==> start <= r.start && r.end <= end
  {
  }

  /** The region covers every requested byte exactly when the end does not wrap around 2^64. */
  lemma CoversRequest(start: nat, size: nat)
    requires start < U64 && 0 < size < U64
    ensures
      (forall x: nat | start <= x < start + size ::
        Contains(Region(AlignDown(start), RegionEnd(start, size), 0), x)) <==>
      start + size + PAGE_SIZE - 1 < U64
  {
    var sum := start + size + PAGE_SIZE - 1;
    if sum >= U64 {
      assert sum % U64 <= sum - U64;
      assert !Contains(Region(AlignDown(start), RegionEnd(start, size), 0), start + size - 1);
    } else {
      assert sum % U64 == sum;
      assert AlignDown(sum) >= start + size;
    }
  }

  ghost predicate Apart(r: Region, q: Region) {
    r.end <= q.start || q.end <= r.start
  }

  ghost predicate RegionOk(r: Region) {
    r.start < r.end && r.start % PAGE_SIZE == 0 && r.end % PAGE_SIZE == 0
  }

  /** Both ends of every region lie on page boundaries. */
  ghost predicate Aligned(rs: seq<Region>) {
    forall i | 0 <= i < |rs| :: rs[i].start % PAGE_SIZE == 0 && rs[i].end % PAGE_SIZE == 0
  }

  /** Regions are non-empty, page-aligned and pairwise disjoint. */
  ghost predicate TableOk(rs: seq<Region>) {
    && (forall i | 0 <= i < |rs| :: RegionOk(rs[i]))
    && (forall i, j | 0 <= i < j < |rs| :: Apart(rs[i], rs[j]))
  }

  predicate AnyOverlap(rs: seq<Region>, start: nat, end: nat) {
    exists i :: 0 <= i < |rs| && Overlaps(rs[i], start, end)
  }

  /** Registration: an empty size or an overlap is refused; `room` says whether a region record could
      be allocated. */
  function Register(rs: seq<Region>, start: nat, size: nat, flags: nat, room: bool): (seq<Region>, int) {
    if size == 0 || AnyOverlap(rs, AlignDown(start), RegionEnd(start, size)) || !room then (rs, -1)
    else ([Region(AlignDown(start), RegionEnd(start, size), flags)] + rs, 0)
  }

  /** Registration keeps the table in order if and only if the rounded range is not empty, which holds
      in particular whenever the end does not wrap. */
  lemma RegisterKeepsTable(rs: seq<Region>, start: nat, size: nat, flags: nat, room: bool)
    requires TableOk(rs) && start < U64 && size < U64
    ensures Register(rs, start, size, flags, room).1 == 0 ==>
      (TableOk(Register(rs, start, size, flags, room).0) <==> AlignDown(start) < RegionEnd(start, size))
    ensures Register(rs, start, size, flags, room).1 != 0 ==> Register(rs, start, size, flags, room).0 == rs
    ensures size > 0 && start + size + PAGE_SIZE - 1 < U64 ==> AlignDown(start) < RegionEnd(start, size)
  {
    var n := Region(AlignDown(start), RegionEnd(start, size), flags);
    DownAligned(start);
    DownAligned((start + size + PAGE_SIZE - 1) % U64);
    if size > 0 && start + size + PAGE_SIZE - 1 < U64 { CoversRequest(start, size); }
    hide AlignDown, RegionEnd, Overlaps;
    if Register(rs, start, size, flags, room).1 == 0 { AddedInOrder(n, rs); }
  }

  /** No region holds an address of a range, nor its first or its last. */
  ghost predicate Clear(rs: seq<Region>, start: nat, end: nat) {
    forall i | 0 <= i < |rs| :: ClearOf(rs[i], start, end)
  }

  ghost predicate ClearOf(r: Region, start: nat, end: nat) {
    forall x: nat | Contains(r, x) :: x != start && x + 1 != end && !(start <= x < end)
  }

  lemma ClearOfMeansNoOverlap(r: Region, start: nat, end: nat)
    requires r.start < r.end
    ensures ClearOf(r, start, end) <==> !Overlaps(r, start, end)
  {
    if Overlaps(r, start, end) {
      var x: nat := if r.start <= start < r.end then start else if r.start < end <= r.end then end - 1 else r.start;
      assert Contains(r, x);
    }
  }

  lemma ClearMeansNoOverlap(rs: seq<Region>, start: nat, end: nat)
    requires forall i | 0 <= i < |rs| :: rs[i].start < rs[i].end
    ensures Clear(rs, start, end) <==> !AnyOverlap(rs, start, end)
  {
    forall i | 0 <= i < |rs| ensures ClearOf(rs[i], start, end) <==> !Overlaps(rs[i], start, end) {
      ClearOfMeansNoOverlap(rs[i], start, end);
    }
  }

  /** When a registration is accepted: the size is not zero, a record can be allocated, and no region of the table
      holds an address of the requested range rounded to pages, where a range that wraps counts by its first and
      its last address. The table then has one region more, in front, with the rounded bounds and the flags. */
  lemma RegisterAccepts(rs: seq<Region>, start: nat, size: nat, flags: nat, room: bool)
    requires TableOk(rs)
    ensures var lo, hi := start / 4096 * 4096, (start + size + 4095) % U64 / 4096 * 4096;
      Register(rs, start, size, flags, room) ==
        if size > 0 && room && Clear(rs, lo, hi) then ([Region(lo, hi, flags)] + rs, 0) else (rs, -1)
  {
    assert forall i | 0 <= i < |rs| :: RegionOk(rs[i]);
    ClearMeansNoOverlap(rs, AlignDown(start), RegionEnd(start, size));
  }

  /** A range that does not wrap is clear of the table when it shares no address with any region. */
  lemma ClearMeansDisjoint(rs: seq<Region>, start: nat, size: nat)
    requires size > 0 && start + size + 4095 < U64
    ensures var lo, hi := start / 4096 * 4096, (start + size + 4095) % U64 / 4096 * 4096;
      && lo <= start && start + size <= hi && start < lo + 4096 && hi < start + size + 4096
      && (Clear(rs, lo, hi) <==> forall r, x: nat | r in rs && Contains(r, x) :: !(lo <= x < hi))
  {
    var lo, hi := start / 4096 * 4096, (start + size + 4095) % U64 / 4096 * 4096;
    assert forall r | r in rs :: (forall x: nat | Contains(r, x) :: !(lo <= x < hi)) ==> ClearOf(r, lo, hi);
  }

  /** A page-aligned range that overlaps no region joins the table exactly when it is not empty. */
  lemma AddedInOrder(n: Region, rs: seq<Region>)
    requires TableOk(rs) && n.start % PAGE_SIZE == 0 && n.end % PAGE_SIZE == 0 && !AnyOverlap(rs, n.start, n.end)
    ensures TableOk([n] + rs) <==> n.start < n.end
  {
    var rs' := [n] + rs;
    if n.start < n.end {
      forall i, j | 0 <= i < j < |rs'| ensures Apart(rs'[i], rs'[j]) {
        assert !Overlaps(rs[j - 1], n.start, n.end);
        if i > 0 { assert Apart(rs[i - 1], rs[j - 1]); }
      }
      forall i | 0 <= i < |rs'| ensures RegionOk(rs'[i]) { assert i > 0 ==> RegionOk(rs[i - 1]); }
    } else {
      assert !RegionOk(rs'[0]);
    }
  }

  /** A request at the top of the address space that is accepted although nothing is registered. */
  lemma WrappedRegistration()
    ensures Register([], 0x1000, U64 - 0x1000, 1, true) == ([Region(0x1000, 0, 1)], 0)
    ensures !TableOk([Region(0x1000, 0, 1)])
  {
    var none: seq<Region> := [];
    assert !AnyOverlap(none, 0x1000, 0);
    assert RegionEnd(0x1000, U64 - 0x1000) == 0 && AlignDown(0x1000) == 0x1000;
    assert [Region(0x1000, 0, 1)] + none == [Region(0x1000, 0, 1)];
    assert !RegionOk([Region(0x1000, 0, 1)][0]);
  }

  /** The first region on the list that contains the address. */
  function Find(rs: seq<Region>, x: nat): Option<Region> {
    if rs == [] then None else if Contains(rs[0], x) then Some(rs[0]) else Find(rs[1..], x)
  }

  /** In any list the answer is the first region that contains the address, if there is one. */
  lemma {:induction false} FindFirst(rs: seq<Region>, x: nat)
    ensures match Find(rs, x)
      case None => forall k | 0 <= k < |rs| :: !(rs[k].start <= x < rs[k].end)
      case Some(r) => exists k | 0 <= k < |rs| ::
        rs[k] == r && r.start <= x < r.end && forall j | 0 <= j < k :: !(rs[j].start <= x < rs[j].end)
  {
    if rs != [] && !Contains(rs[0], x) {
      FindFirst(rs[1..], x);
      if Find(rs[1..], x).Some? {
        var r := Find(rs[1..], x).value;
        var k :| 0 <= k < |rs[1..]| && rs[1..][k] == r && r.start <= x < r.end
          && forall j | 0 <= j < k :: !(rs[1..][j].start <= x < rs[1..][j].end);
        forall j | 0 <= j < k + 1 ensures !(rs[j].start <= x < rs[j].end) {
          if j > 0 { assert rs[j] == rs[1..][j - 1]; }
        }
        assert rs[k + 1] == r;
      } else {
        forall k | 0 <= k < |rs| ensures !(rs[k].start <= x < rs[k].end) {
          if k > 0 { assert rs[k] == rs[1..][k - 1]; }
        }
      }
    }
  }

  /** In a table in order the answer is the one region that contains the address, whatever the order
      of the list. */
  lemma {:induction false} FindTheOne(rs: seq<Region>, x: nat, r: Region)
    requires TableOk(rs)
    ensures Find(rs, x) == Some(r) <==> r in rs && Contains(r, x)
  {
    if rs != [] {
      assert TableOk(rs[1..]);
      FindTheOne(rs[1..], x, r);
      if Contains(rs[0], x) && r in rs && Contains(r, x) {
        var i :| 0 <= i < |rs| && rs[i] == r;
        assert i > 0 ==> Apart(rs[0], rs[i]);
      }
    }
  }

  /** Remove the first region that starts at the given page. */
  function Remove(rs: seq<Region>, start: nat): (seq<Region>, Option<Region>) {
    if rs == [] then (rs, None)
    else if rs[0].start == start then (rs[1..], Some(rs[0]))
    else var (rest, r) := Remove(rs[1..], start); ([rs[0]] + rest, r)
  }

  /** The first k entries do not have the given start; entry k is r, which has. */
  predicate FirstAt(rs: seq<Region>, start: nat, k: nat, r: Region) {
    k < |rs| && rs[k] == r && r.start == start && forall j | 0 <= j < k :: rs[j].start != start
  }

  /** In any list removal takes out the first region with that start, and nothing when there is none. */
  lemma {:induction false} RemoveFirst(rs: seq<Region>, start: nat)
    ensures match Remove(rs, start).1
      case None => Remove(rs, start).0 == rs && forall k | 0 <= k < |rs| :: rs[k].start != start
      case Some(r) => exists k: nat :: FirstAt(rs, start, k, r) && Remove(rs, start).0 == rs[..k] + rs[k + 1..]
  {
    if rs != [] {
      var rest := rs[1..];
      if rs[0].start == start {
        assert FirstAt(rs, start, 0, rs[0]) && rs[1..] == rs[..0] + rs[0 + 1..];
      } else {
        RemoveFirst(rest, start);
        if Remove(rest, start).1.Some? {
          var r := Remove(rest, start).1.value;
          var k: nat :| FirstAt(rest, start, k, r) && Remove(rest, start).0 == rest[..k] + rest[k + 1..];
          assert FirstAt(rs, start, k + 1, r);
          ConsWithout(rs, k);
        }
      }
    }
  }

  lemma ConsWithout(rs: seq<Region>, k: nat)
    requires k + 1 < |rs|
    ensures [rs[0]] + (rs[1..][..k] + rs[1..][k + 1..]) == rs[..k + 1] + rs[k + 1 + 1..]
  {
  }

  lemma {:induction false} RemoveElements(rs: seq<Region>, start: nat)
    requires TableOk(rs)
    ensures var (rest, r) := Remove(rs, start);
      && (r.None? ==> rest == rs && forall q | q in rs :: q.start != start)
      && (r.Some? ==> r.value in rs && r.value.start == start)
      && (forall q :: q in rest <==> q in rs && r != Some(q))
  {
    if rs != [] {
      assert rs == [rs[0]] + rs[1..];
      assert TableOk(rs[1..]);
      RemoveElements(rs[1..], start);
      if rs[0].start == start {
        assert forall i | 1 <= i < |rs| :: Apart(rs[0], rs[i]) && RegionOk(rs[i]) && RegionOk(rs[0]);
      }
    }
  }

  /** Removal takes out the one region that starts there and keeps the others in order. */
  lemma {:induction false} RemoveKeepsTable(rs: seq<Region>, start: nat)
    requires TableOk(rs)
    ensures TableOk(Remove(rs, start).0)
    ensures Remove(rs, start).1.Some? ==> RegionOk(Remove(rs, start).1.value)
  {
    if rs != [] {
      assert TableOk(rs[1..]) && RegionOk(rs[0]);
      RemoveKeepsTable(rs[1..], start);
      if rs[0].start != start {
        RemoveElements(rs[1..], start);
        assert rs == [rs[0]] + rs[1..];
        ConsKeepsTable(rs[0], rs[1..], Remove(rs[1..], start).0);
      }
    }
  }

  lemma ConsKeepsTable(r: Region, all: seq<Region>, rest: seq<Region>)
    requires TableOk([r] + all) && TableOk(rest) && forall q | q in rest :: q in all
    ensures TableOk([r] + rest)
  {
    assert RegionOk(([r] + all)[0]);
    forall j | 0 <= j < |rest| ensures Apart(r, rest[j]) {
      assert rest[j] in all;
      var k :| 0 <= k < |all| && all[k] == rest[j];
      assert Apart(([r] + all)[0], ([r] + all)[k + 1]);
    }
  }

  lemma DownAligned(x: nat)
    ensures AlignDown(x) % PAGE_SIZE == 0
  {
    assert AlignDown(x) == x / PAGE_SIZE * PAGE_SIZE;
  }

  /** Registration and removal keep every region on page boundaries, even when a request wraps. */
  lemma RegisterAligned(rs: seq<Region>, start: nat, size: nat, flags: nat)
    requires Aligned(rs)
    ensures Aligned([Region(AlignDown(start), RegionEnd(start, size), flags)] + rs)
  {
    DownAligned(start);
    DownAligned((start + size + PAGE_SIZE - 1) % U64);
  }

  lemma {:induction false} RemoveAligned(rs: seq<Region>, start: nat)
    requires Aligned(rs)
    ensures Aligned(Remove(rs, start).0)
    ensures var r := Remove(rs, start).1;
      r.Some? ==> r.value.start % PAGE_SIZE == 0 && r.value.end % PAGE_SIZE == 0
  {
    if rs != [] && rs[0].start != start { RemoveAligned(rs[1..], start); }
  }
}
