/** The Region record: one segment of the image being segmented, with its
    statistics, its bounding box and the ordered list of adjacent regions.
    Neighbours are referred to by id, which the region table keeps unique. */
module Regions {

  /** Modulus of std::size_t, in which the box coordinates are kept. */
  const SizeModulus: nat := 0x1_0000_0000_0000_0000

  function Wrap64(x: int): (w: nat)
    ensures w < SizeModulus
    ensures 0 <= x < SizeModulus ==> w == x
  {
    x % SizeModulus
  }

  /** Half-open bounding box [xStart, xBound) x [yStart, yBound); x runs
      along columns and y along lines. */
  datatype Box = Box(xStart: nat, yStart: nat, xBound: nat, yBound: nat)

  predicate InBox(b: Box, lin: nat, col: nat)
  {
    b.yStart <= lin < b.yBound && b.xStart <= col < b.xBound
  }

  datatype Region = Region(
    id: nat,
    size: nat,
    box: Box,
    mean: seq<real>,
    variance: seq<real>,
    cv: seq<real>,
    neighbours: seq<nat>)

  predicate NoDuplicates(s: seq<nat>)
  {
    forall i, j :: 0 <= i < j < |s| ==> s[i] != s[j]
  }

  function Zeros(n: nat): (z: seq<real>)
    ensures |z| == n && forall i :: 0 <= i < n ==> z[i] == 0.0
  {
    if n == 0 then [] else Zeros(n - 1) + [0.0]
  }

  /** Region::Region: a single-pixel region with no neighbours yet. */
  function NewRegion(id: nat, pixel: seq<real>, lin: nat, col: nat): (r: Region)
    ensures r.id == id && r.size == 1 && r.mean == pixel && r.neighbours == []
    ensures forall l: nat, c: nat :: InBox(r.box, l, c) <==> l == lin && c == col
    ensures |r.variance| == |r.cv| == |pixel| == NBands(r)
    ensures forall b :: 0 <= b < |pixel| ==> r.variance[b] == 0.0 && r.cv[b] == 0.0
  {
    Region(id, 1, Box(col, lin, col + 1, lin + 1), pixel, Zeros(|pixel|), Zeros(|pixel|), [])
  }

  // ---------------------------------------------------------------------
  // Bounding-box algebra
  // ---------------------------------------------------------------------

  function ScaleStart(start: nat, scale: nat): (s: nat)
    ensures start == 0 ==> s == 0
    ensures start > 0 && start * scale <= SizeModulus ==> s + 1 == start * scale || (scale == 0 && s == SizeModulus - 1)
  {
    if start == 0 then 0 else Wrap64(start * scale - 1)
  }

  function ScaleBound(bound: nat, scale: nat, max: nat): (b: nat)
    ensures b <= max
    ensures bound * scale < SizeModulus ==> b == if bound * scale <= max then bound * scale else max
  {
    var scaled := Wrap64(bound * scale);
    if scaled <= max then scaled else max
  }

  /** Region::updateBounds(scale, maxLin, maxCol): maps the box of a coarse
      level onto the next finer one. Every non-zero start is moved to
      start*scale-1, one cell before the image of the old start, and every
      bound is scaled and clipped to the image size. The arithmetic is the
      unsigned 64-bit arithmetic of std::size_t. */
  function UpdateBoundsScaled(r: Region, scale: nat, maxLin: nat, maxCol: nat): (r': Region)
    ensures r' == r.(box := r'.box)
    ensures r'.box.xBound <= maxCol && r'.box.yBound <= maxLin
    ensures r.box.xStart == 0 ==> r'.box.xStart == 0
    ensures r.box.yStart == 0 ==> r'.box.yStart == 0
    ensures scale >= 1 && r.box.xStart * scale <= SizeModulus && r.box.xStart > 0 ==> r'.box.xStart == r.box.xStart * scale - 1
    ensures scale >= 1 && r.box.yStart * scale <= SizeModulus && r.box.yStart > 0 ==> r'.box.yStart == r.box.yStart * scale - 1
    ensures r.box.xBound * scale < SizeModulus ==>
      r'.box.xBound == if r.box.xBound * scale <= maxCol then r.box.xBound * scale else maxCol
    ensures r.box.yBound * scale < SizeModulus ==>
      r'.box.yBound == if r.box.yBound * scale <= maxLin then r.box.yBound * scale else maxLin
  {
    r.(box := Box(
      ScaleStart(r.box.xStart, scale),
      ScaleStart(r.box.yStart, scale),
      ScaleBound(r.box.xBound, scale, maxCol),
      ScaleBound(r.box.yBound, scale, maxLin)))
  }

  lemma MulMonotone(a: nat, b: nat, s: nat)
    requires a <= b
    ensures a * s <= b * s
  {
  }

  /** Cell v of a coarse grid maps to the block starting at v * scale on
      the fine grid; d is the offset within that block. */
  function Upscaled(v: nat, scale: nat, d: nat): nat
  {
    v * scale + d
  }

  /** Without wrap-around, the rescaled box covers the image of every cell
      of the old box: cell (lin, col) becomes the scale x scale block at
      (lin*scale, col*scale), and every cell of that block that lies in the
      image lies in the new box. */
  lemma {:induction false} UpscaledBoxCovers(r: Region, scale: nat, maxLin: nat, maxCol: nat, lin: nat, col: nat, dl: nat, dc: nat)
    requires scale >= 1
    requires r.box.xBound * scale < SizeModulus && r.box.yBound * scale < SizeModulus
    requires InBox(r.box, lin, col)
    requires dl < scale && dc < scale
    requires Upscaled(lin, scale, dl) < maxLin && Upscaled(col, scale, dc) < maxCol
    ensures InBox(UpdateBoundsScaled(r, scale, maxLin, maxCol).box, Upscaled(lin, scale, dl), Upscaled(col, scale, dc))
  {
    AxisCovers(r.box.xStart, r.box.xBound, scale, maxCol, col, dc);
    AxisCovers(r.box.yStart, r.box.yBound, scale, maxLin, lin, dl);
  }

  /** One axis of UpscaledBoxCovers: the image of v, offset by d < scale,
      lies between the rescaled start and the rescaled, clipped bound. */
  lemma {:induction false} AxisCovers(start: nat, bound: nat, scale: nat, max: nat, v: nat, d: nat)
    requires scale >= 1 && bound * scale < SizeModulus
    requires start <= v < bound && d < scale && Upscaled(v, scale, d) < max
    ensures ScaleStart(start, scale) <= Upscaled(v, scale, d) < ScaleBound(bound, scale, max)
  {
    MulMonotone(start, v, scale);
    MulMonotone(v + 1, bound, scale);
    MulMonotone(start, bound, scale);
  }

  /** Region::updateBounds(region): grows the box to the smallest box
      holding both boxes; nothing else of either region changes. */
  function UpdateBoundsUnion(r: Region, other: Region): (r': Region)
    ensures r' == r.(box := r'.box)
    ensures forall l: nat, c: nat :: InBox(r.box, l, c) || InBox(other.box, l, c) ==> InBox(r'.box, l, c)
    ensures forall b: Box :: Encloses(b, r.box) && Encloses(b, other.box) ==> Encloses(b, r'.box)
    ensures Encloses(r'.box, r.box) && Encloses(r'.box, other.box)
  {
    var x := UpdateXBound(UpdateXStart(r, other.box.xStart), other.box.xBound);
    UpdateYBound(UpdateYStart(x, other.box.yStart), other.box.yBound)
  }

  /** Box `outer` has every start at or before and every bound at or after
      those of `inner`. */
  predicate Encloses(outer: Box, inner: Box)
  {
    outer.xStart <= inner.xStart && outer.yStart <= inner.yStart &&
    inner.xBound <= outer.xBound && inner.yBound <= outer.yBound
  }

  /** Region::updateXStart: the start moves to x only if x lies before it. */
  function UpdateXStart(r: Region, x: nat): (r': Region)
    ensures r' == r.(box := r.box.(xStart := r'.box.xStart))
    ensures r'.box.xStart <= r.box.xStart && r'.box.xStart <= x
    ensures r'.box.xStart == r.box.xStart || r'.box.xStart == x
  {
    r.(box := r.box.(xStart := if x < r.box.xStart then x else r.box.xStart))
  }

  /** Region::updateYStart. */
  function UpdateYStart(r: Region, y: nat): (r': Region)
    ensures r' == r.(box := r.box.(yStart := r'.box.yStart))
    ensures r'.box.yStart <= r.box.yStart && r'.box.yStart <= y
    ensures r'.box.yStart == r.box.yStart || r'.box.yStart == y
  {
    r.(box := r.box.(yStart := if y < r.box.yStart then y else r.box.yStart))
  }

  /** Region::updateXBound: the bound moves to x only if x lies beyond it. */
  function UpdateXBound(r: Region, x: nat): (r': Region)
    ensures r' == r.(box := r.box.(xBound := r'.box.xBound))
    ensures r'.box.xBound >= r.box.xBound && r'.box.xBound >= x
    ensures r'.box.xBound == r.box.xBound || r'.box.xBound == x
  {
    r.(box := r.box.(xBound := if x > r.box.xBound then x else r.box.xBound))
  }

  /** Region::updateYBound. */
  function UpdateYBound(r: Region, y: nat): (r': Region)
    ensures r' == r.(box := r.box.(yBound := r'.box.yBound))
    ensures r'.box.yBound >= r.box.yBound && r'.box.yBound >= y
    ensures r'.box.yBound == r.box.yBound || r'.box.yBound == y
  {
    r.(box := r.box.(yBound := if y > r.box.yBound then y else r.box.yBound))
  }

  /** Extending a box by the same start or bound twice is the same as once. */
  lemma ExtendIdempotent(r: Region, x: nat, y: nat)
    ensures UpdateXStart(UpdateXStart(r, x), x) == UpdateXStart(r, x)
    ensures UpdateYStart(UpdateYStart(r, y), y) == UpdateYStart(r, y)
    ensures UpdateXBound(UpdateXBound(r, x), x) == UpdateXBound(r, x)
    ensures UpdateYBound(UpdateYBound(r, y), y) == UpdateYBound(r, y)
  {
  }

  /** The union is idempotent and commutative on boxes. */
  lemma UnionLaws(r: Region, other: Region)
    ensures UpdateBoundsUnion(r, r) == r
    ensures UpdateBoundsUnion(r, other).box == UpdateBoundsUnion(other, r).box
  {
  }

  // ---------------------------------------------------------------------
  // Neighbour list
  // ---------------------------------------------------------------------

  /** Region::isNeighbour. */
  predicate IsNeighbour(r: Region, n: nat)
  {
    n in r.neighbours
  }

  /** Region::addNeighbour: appends n unless it is already listed. */
  function AddNeighbour(r: Region, n: nat): (r': Region)
    ensures r' == r.(neighbours := r'.neighbours)
    ensures IsNeighbour(r', n)
    ensures forall m :: IsNeighbour(r', m) <==> IsNeighbour(r, m) || m == n
    ensures IsNeighbour(r, n) ==> r' == r
    ensures !IsNeighbour(r, n) ==> r'.neighbours == r.neighbours + [n]
    ensures NoDuplicates(r.neighbours) ==> NoDuplicates(r'.neighbours)
  {
    if IsNeighbour(r, n) then r else r.(neighbours := r.neighbours + [n])
  }

  /** Adding the same neighbour twice is the same as adding it once. */
  lemma AddNeighbourIdempotent(r: Region, n: nat)
    ensures AddNeighbour(AddNeighbour(r, n), n) == AddNeighbour(r, n)
  {
  }

  /** The list with every occurrence of n removed, the rest in order
      (std::list::remove). */
  function Without(s: seq<nat>, n: nat): (t: seq<nat>)
    ensures forall m :: m in t <==> m in s && m != n
    ensures |t| <= |s|
  {
    if s == [] then [] else (if s[0] == n then [] else [s[0]]) + Without(s[1..], n)
  }

  lemma {:induction false} WithoutAppend(a: seq<nat>, b: seq<nat>, n: nat)
    ensures Without(a + b, n) == Without(a, n) + Without(b, n)
  {
    if a == [] {
      assert a + b == b;
    } else {
      assert (a + b)[0] == a[0];
      assert (a + b)[1..] == a[1..] + b;
      WithoutAppend(a[1..], b, n);
    }
  }

  lemma {:induction false} WithoutAbsent(s: seq<nat>, n: nat)
    requires n !in s
    ensures Without(s, n) == s
  {
    if s != [] {
      assert s == [s[0]] + s[1..];
      WithoutAbsent(s[1..], n);
    }
  }

  lemma {:induction false} WithoutKeepsNoDuplicates(s: seq<nat>, n: nat)
    requires NoDuplicates(s)
    ensures NoDuplicates(Without(s, n))
  {
    if s != [] {
      WithoutKeepsNoDuplicates(s[1..], n);
      assert s[0] !in s[1..];
    }
  }

  /** Region::removeNeighbour: n is no longer a neighbour; every other
      neighbour stays. */
  function RemoveNeighbour(r: Region, n: nat): (r': Region)
    ensures r' == r.(neighbours := r'.neighbours)
    ensures !IsNeighbour(r', n)
    ensures forall m :: m != n ==> (IsNeighbour(r', m) <==> IsNeighbour(r, m))
    ensures NoDuplicates(r.neighbours) ==> NoDuplicates(r'.neighbours)
  {
    WithoutKeepsNoDuplicatesAll(r.neighbours, n);
    r.(neighbours := Without(r.neighbours, n))
  }

  lemma WithoutKeepsNoDuplicatesAll(s: seq<nat>, n: nat)
    ensures NoDuplicates(s) ==> NoDuplicates(Without(s, n))
  {
    if NoDuplicates(s) { WithoutKeepsNoDuplicates(s, n); }
  }

  /** Removing n from p + [n] + q (n listed once) leaves p + q: the other
      neighbours keep their relative order. */
  lemma RemoveNeighbourKeepsOrder(r: Region, n: nat, p: seq<nat>, q: seq<nat>)
    requires r.neighbours == p + [n] + q && n !in p && n !in q
    ensures RemoveNeighbour(r, n).neighbours == p + q
  {
    WithoutMiddle(p, n, q);
  }

  lemma WithoutMiddle(p: seq<nat>, n: nat, q: seq<nat>)
    requires n !in p && n !in q
    ensures Without(p + [n] + q, n) == p + q
  {
    var front := p + [n];
    WithoutAppend(p, [n], n);
    WithoutAbsent(p, n);
    assert Without([n], n) == [];
    assert Without(front, n) == p;
    WithoutAppend(front, q, n);
    WithoutAbsent(q, n);
  }

  /** Removing a neighbour that was just added restores the list. */
  lemma AddThenRemove(r: Region, n: nat)
    requires !IsNeighbour(r, n)
    ensures RemoveNeighbour(AddNeighbour(r, n), n) == r
  {
    WithoutAppend(r.neighbours, [n], n);
    WithoutAbsent(r.neighbours, n);
    assert Without([n], n) == [];
  }

  /** Region::getNBands: the number of bands is the length of the mean. */
  function NBands(r: Region): nat
  {
    |r.mean|
  }
}
