/** Slab caches: how the objects of a slab lie in its page. */
module SlabSpec {
  import opened Common

  const PAGE: nat := 4096
  const HEADER: nat := 32
  const CPU_LIMIT: nat := 16
  const COLOUR: nat := 64

  /** The size of an object and the number of objects in a slab. */
  datatype Geometry = Geometry(size: nat, count: nat)

  /** Alignments are powers of two: rounding clears the bits below one. */
  predicate Alignment(align: nat) {
    align == 1 || (align > 1 && align % 2 == 0 && Alignment(align / 2))
  }

  /** The size rounded up: the low bits of size + align - 1 cleared. */
  function AlignUp(n: nat, align: nat): (r: nat)
    requires Alignment(align)
    ensures n <= r < n + align && r % align == 0
  {
    Remainder(n + align - 1, align);
    Whole((n + align - 1) / align, align);
    n + align - 1 - (n + align - 1) % align
  }

  /** Objects of a size behind the slab header, but at least one. */
  function Fit(size: nat): nat
    requires size > 0
  {
    var fit := (PAGE - HEADER) / size;
    if fit == 0 then 1 else fit
  }

  function MakeGeometry(n: nat, align: nat): Geometry
    requires n > 0 && Alignment(align)
  {
    Geometry(AlignUp(n, align), Fit(AlignUp(n, align)))
  }

  /** The bytes of a page that are left for colouring, in unsigned 64-bit arithmetic. */
  function Slack(g: Geometry): nat {
    (PAGE - HEADER - g.count * g.size) % U64
  }

  function Shift(slack: nat, colour: nat): (r: nat)
    requires slack > 0
    ensures r < slack
  {
    colour * COLOUR % slack
  }

  /** The address of an object in a slab of a given colour. */
  function ObjectAt(g: Geometry, slab: nat, colour: nat, i: nat): nat
    requires Slack(g) != 0
  {
    slab + HEADER + Shift(Slack(g), colour) + i * g.size
  }

  // ----- the size of the slack -----

  lemma FitSmall(size: nat)
    requires 0 < size <= PAGE - HEADER
    ensures Fit(size) > 0 && Fit(size) * size + (PAGE - HEADER) % size == PAGE - HEADER
  {
    var fit := (PAGE - HEADER) / size;
    assert PAGE - HEADER == size * fit + (PAGE - HEADER) % size;
  }

  lemma FitLarge(size: nat)
    requires size > PAGE - HEADER
    ensures Fit(size) == 1
  {
  }

  lemma SlackSmall(size: nat)
    requires 0 < size <= PAGE - HEADER
    ensures Slack(Geometry(size, Fit(size))) == (PAGE - HEADER) % size
  {
    FitSmall(size);
    SmallWord((PAGE - HEADER) % size, U64);
  }

  lemma SlackLarge(size: nat)
    requires PAGE - HEADER < size < U64
    ensures Slack(Geometry(size, Fit(size))) == U64 + PAGE - HEADER - size
  {
    FitLarge(size);
    SmallWord(U64 + PAGE - HEADER - size, U64);
    assert (PAGE - HEADER - size) % U64 == U64 + PAGE - HEADER - size;
  }

  /** The colour computation divides by zero exactly when the objects fill the page to the last byte. */
  lemma SlackIsZero(n: nat, align: nat)
    requires 0 < n <= PAGE && Alignment(align) && align <= U64 / 2
    ensures var size := AlignUp(n, align);
      Slack(MakeGeometry(n, align)) == 0 <==> size <= PAGE - HEADER && (PAGE - HEADER) % size == 0
  {
    var size := AlignUp(n, align);
    if size <= PAGE - HEADER { SlackSmall(size); } else { SlackLarge(size); }
  }

  /** Two of the sizes for which the heap asks for a cache have no bytes left to colour with. */
  lemma SlackIsZeroExamples()
    ensures Slack(MakeGeometry(16, 16)) == 0 && MakeGeometry(16, 16) == Geometry(16, 254)
    ensures Slack(MakeGeometry(32, 16)) == 0 && MakeGeometry(32, 16) == Geometry(32, 127)
  {
    assert Alignment(16);
  }

  // ----- where the objects lie -----

  /** A geometry the layout is made for: objects that fit a page and leave bytes to colour with. */
  ghost predicate Legal(n: nat, align: nat) {
    && 0 < n <= PAGE && Alignment(align)
    && MakeGeometry(n, align).size <= PAGE - HEADER && Slack(MakeGeometry(n, align)) != 0
  }

  ghost predicate Colourable(g: Geometry, align: nat) {
    && Alignment(align) && g.size > 0 && g.size % align == 0 && g.count > 0 && Slack(g) > 0
    && g.count * g.size + Slack(g) == PAGE - HEADER
  }

  lemma LegalColours(n: nat, align: nat)
    requires Legal(n, align)
    ensures Colourable(MakeGeometry(n, align), align) && n <= MakeGeometry(n, align).size
  {
    FitSmall(AlignUp(n, align));
    SlackSmall(AlignUp(n, align));
  }

  lemma RowEnds(i: nat, count: nat, size: nat)
    requires i < count
    ensures i * size + size <= count * size
  {
    assert (count - i - 1) * size >= 0;
    assert count * size == i * size + size + (count - i - 1) * size;
  }

  /** Objects lie behind the slab header, inside the page, and one behind the other. */
  lemma ObjectInside(g: Geometry, align: nat, slab: nat, colour: nat, i: nat)
    requires Colourable(g, align) && i < g.count
    ensures slab + HEADER <= ObjectAt(g, slab, colour, i) && ObjectAt(g, slab, colour, i) + g.size <= slab + PAGE
  {
    RowEnds(i, g.count, g.size);
  }

  lemma ObjectsApart(g: Geometry, slab: nat, colour: nat, j: nat, i: nat)
    requires Slack(g) != 0 && j < i
    ensures ObjectAt(g, slab, colour, j) + g.size <= ObjectAt(g, slab, colour, i)
  {
    RowEnds(j, i, g.size);
  }

  lemma Remainder(x: nat, m: nat)
    requires m > 0
    ensures x == m * (x / m) + x % m && x / m * m <= x
  {
  }

  lemma NoMultipleBelow(m: nat, k: int)
    requires m > 0 && 0 <= m * k < m
    ensures k == 0
  {
    if k > 0 { AtLeastOnce(m, k); }
    if k < 0 { AtLeastOnce(m, -k); }
  }

  lemma AtLeastOnce(m: int, k: int)
    requires m > 0 && k > 0
    ensures m * k >= m
  {
    assert m * (k - 1) >= 0;
  }

  lemma Whole(q: nat, m: nat)
    requires m > 0
    ensures (m * q) % m == 0
  {
    var x := m * q;
    Remainder(x, m);
    Apart(m, q, x / m);
    NoMultipleBelow(m, q - x / m);
  }

  lemma Apart(m: int, a: int, b: int)
    ensures m * (a - b) == m * a - m * b
  {
  }

  /** A multiple of an aligned number is aligned. */
  lemma MultipleAligned(k: nat, n: nat, align: nat)
    requires align > 0 && n % align == 0
    ensures (k * n) % align == 0
  {
    var u := n / align;
    Remainder(n, align);
    Regroup(align, u, k);
    Whole(u * k, align);
  }

  lemma Regroup(a: nat, b: nat, c: nat)
    ensures c * (a * b) == a * (b * c)
  {
  }

  /** The sum of aligned numbers is aligned. */
  lemma SumAligned(a: nat, b: nat, align: nat)
    requires align > 0 && a % align == 0 && b % align == 0
    ensures (a + b) % align == 0
  {
    Remainder(a, align);
    Remainder(b, align);
    assert align * (a / align) + align * (b / align) == align * (a / align + b / align);
    Whole(a / align + b / align, align);
  }

  lemma DifferenceAligned(a: nat, b: nat, align: nat)
    requires align > 0 && a % align == 0 && b % align == 0 && b <= a
    ensures (a - b) % align == 0
  {
    Remainder(a, align);
    Remainder(b, align);
    var p, q := a / align, b / align;
    Apart(align, p, q);
    if p < q {
      Apart(align, q, p);
      AtLeastOnce(align, q - p);
    }
    Whole(p - q, align);
  }

  /** A smaller power of two divides a larger one. */
  lemma {:induction false} PowersDivide(a: nat, b: nat)
    requires Alignment(a) && Alignment(b) && a <= b
    ensures b % a == 0
  {
    if a > 1 {
      PowersDivide(a / 2, b / 2);
      Remainder(b / 2, a / 2);
      assert b == a * (b / 2 / (a / 2));
      Whole(b / 2 / (a / 2), a);
    }
  }

  lemma ShiftAligned(slack: nat, colour: nat, align: nat)
    requires Alignment(align) && align <= HEADER && slack > 0 && slack % align == 0
    ensures Shift(slack, colour) % align == 0
  {
    var x := colour * COLOUR;
    PowersDivide(align, COLOUR);
    MultipleAligned(colour, COLOUR, align);
    MultipleAligned(x / slack, slack, align);
    Remainder(x, slack);
    DifferenceAligned(x, x / slack * slack, align);
  }

  /** The first colour shifts the objects by nothing, and each colour by 64 bytes more than the one before, modulo
      the bytes that are left for colouring. */
  lemma ShiftSteps(slack: nat, colour: nat)
    requires slack > 0
    ensures Shift(slack, 0) == 0 && Shift(slack, colour + 1) == (Shift(slack, colour) + 64) % slack
  {
    var x := colour * COLOUR;
    Remainder(x, slack);
    SameRemainder(x % slack + COLOUR, x / slack, slack);
    assert (colour + 1) * COLOUR == x / slack * slack + (x % slack + COLOUR);
  }

  lemma {:induction false} SameRemainder(y: nat, k: nat, m: nat)
    requires m > 0
    ensures (k * m + y) % m == y % m
  {
    if k > 0 {
      SameRemainder(y, k - 1, m);
      assert k * m + y == (k - 1) * m + y + m;
      OnceMore((k - 1) * m + y, m);
    }
  }

  lemma OnceMore(y: nat, m: nat)
    requires m > 0
    ensures (y + m) % m == y % m
  {
    Remainder(y, m);
    Remainder(y + m, m);
    var q := (y + m) / m - y / m;
    assert m * q == m + y % m - (y + m) % m;
    Multiple(m, q);
  }

  lemma Multiple(m: nat, q: int)
    ensures q <= 0 ==> m * q <= 0
    ensures q >= 2 ==> m * q >= 2 * m
  {
    if q >= 2 { assert m * q == 2 * m + m * (q - 2); }
  }

  lemma ObjectAligned(g: Geometry, align: nat, slab: nat, colour: nat, i: nat)
    requires Colourable(g, align) && slab % PAGE == 0 && align <= HEADER
    ensures ObjectAt(g, slab, colour, i) % align == 0
  {
    PowersDivide(align, HEADER);
    PowersDivide(align, PAGE);
    MultipleAligned(g.count, g.size, align);
    DifferenceAligned(PAGE, HEADER, align);
    DifferenceAligned(PAGE - HEADER, g.count * g.size, align);
    ShiftAligned(Slack(g), colour, align);
    MultipleAligned(i, g.size, align);
    Remainder(slab, PAGE);
    MultipleAligned(slab / PAGE, PAGE, align);
    SumAligned(slab, HEADER, align);
    SumAligned(slab + HEADER, Shift(Slack(g), colour), align);
    SumAligned(slab + HEADER + Shift(Slack(g), colour), i * g.size, align);
  }

  /** For every legal size, alignment and colour, an object lies behind the slab header, inside the page,
      aligned up to the size of that header, and apart from every other object. */
  lemma LayoutSound(n: nat, align: nat, slab: nat, colour: nat, i: nat)
    requires Legal(n, align) && i < MakeGeometry(n, align).count
    ensures var g := MakeGeometry(n, align);
      var o := ObjectAt(g, slab, colour, i);
      && n <= g.size && slab + HEADER <= o && o + g.size <= slab + PAGE
      && (slab % PAGE == 0 && align <= HEADER ==> o % align == 0)
      && (forall j | 0 <= j < i :: ObjectAt(g, slab, colour, j) + g.size <= o)
  {
    var g := MakeGeometry(n, align);
    LegalColours(n, align);
    ObjectInside(g, align, slab, colour, i);
    forall j | 0 <= j < i ensures ObjectAt(g, slab, colour, j) + g.size <= ObjectAt(g, slab, colour, i) {
      ObjectsApart(g, slab, colour, j, i);
    }
    if slab % PAGE == 0 && align <= HEADER { ObjectAligned(g, align, slab, colour, i); }
  }

  /** The objects of a page have the alignment asked for if and only if that is at most 32: the slab
      header shifts them by its own size. */
  lemma AlignedUpToHeader(n: nat, align: nat, slab: nat)
    requires Legal(n, align) && slab % PAGE == 0
    ensures (forall colour: nat, i: nat | i < MakeGeometry(n, align).count ::
              ObjectAt(MakeGeometry(n, align), slab, colour, i) % align == 0) <==> align <= HEADER
  {
    var g := MakeGeometry(n, align);
    LegalColours(n, align);
    hide ObjectAt, Colourable, MakeGeometry;
    if align <= HEADER {
      forall colour: nat, i: nat | i < g.count ensures ObjectAt(g, slab, colour, i) % align == 0 {
        ObjectAligned(g, align, slab, colour, i);
      }
    } else {
      FirstObjectOff(g, align, slab);
    }
  }

  lemma FirstObjectOff(g: Geometry, align: nat, slab: nat)
    requires Colourable(g, align) && HEADER < align && slab % PAGE == 0
    ensures ObjectAt(g, slab, 0, 0) == slab + HEADER && ObjectAt(g, slab, 0, 0) % align != 0
  {
    if g.size < align { SmallWord(g.size, align); }
    RowEnds(0, g.count, g.size);
    PowersDivide(align, PAGE);
    Remainder(slab, PAGE);
    MultipleAligned(slab / PAGE, PAGE, align);
    SmallWord(0, Slack(g));
    if (slab + HEADER) % align == 0 {
      DifferenceAligned(slab + HEADER, slab, align);
      SmallWord(HEADER, align);
    }
  }

  /** Where the colour is defined, the objects stay inside the page exactly when one fits behind the
      header: the largest sizes the creation check lets through run over the end of the page. */
  lemma InsideOnlyIfFits(n: nat, align: nat, slab: nat)
    requires 0 < n <= PAGE && Alignment(align) && Slack(MakeGeometry(n, align)) != 0
    ensures var g := MakeGeometry(n, align);
      (forall colour: nat, i: nat | i < g.count :: ObjectAt(g, slab, colour, i) + g.size <= slab + PAGE) <==>
        g.size <= PAGE - HEADER
  {
    var g := MakeGeometry(n, align);
    if g.size <= PAGE - HEADER {
      LegalColours(n, align);
      forall colour: nat, i: nat | i < g.count ensures ObjectAt(g, slab, colour, i) + g.size <= slab + PAGE {
        ObjectInside(g, align, slab, colour, i);
      }
    } else {
      FitLarge(g.size);
      TooLarge(g, slab);
    }
  }

  lemma TooLarge(g: Geometry, slab: nat)
    requires g.size > PAGE - HEADER && Slack(g) != 0
    ensures ObjectAt(g, slab, 0, 0) + g.size > slab + PAGE
  {
  }

  /** An object of one page, which creation accepts: it starts behind the header and ends 32 bytes
      inside the next page. */
  lemma PageSizedObjectRunsOver(slab: nat)
    ensures MakeGeometry(PAGE, 8) == Geometry(PAGE, 1) && Slack(MakeGeometry(PAGE, 8)) == U64 - HEADER
    ensures ObjectAt(MakeGeometry(PAGE, 8), slab, 0, 0) + PAGE == slab + PAGE + HEADER
  {
    assert AlignUp(PAGE, 8) == PAGE;
  }
}
