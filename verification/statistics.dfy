/** MultiSeg::updateRegionStatistics and MultiSeg::resizeRegions: the two
    steps that carry the region table from one pyramid level to the next
    finer one. resizeRegions maps every bounding box onto the finer grid;
    updateRegionStatistics then recomputes each region's size, mean,
    variance and coefficient of variation from the pixels of the new level
    and drops the regions left without a cell. */
module Statistics {
  import opened Results
  import opened Sums
  import opened Regions
  import opened Adjacency
  import opened Segmentation
  import Splitting

  type Cell = (nat, nat)

  /** Row-major order of the cells, the order of the scan over a box. */
  predicate Before(a: Cell, b: Cell)
  {
    a.0 < b.0 || (a.0 == b.0 && a.1 < b.1)
  }

  /** The labels cover the box. */
  predicate Covers(labels: seq<seq<nat>>, box: Box)
  {
    box.yBound <= |labels| && forall l :: 0 <= l < |labels| ==> box.xBound <= |labels[l]|
  }

  /** The cells labelled x met by the scan of the box from (lin, col) on,
      in the order they are met. */
  function Scan(labels: seq<seq<nat>>, x: nat, box: Box, lin: nat, col: nat): (cs: seq<Cell>)
    requires Covers(labels, box) && box.yStart <= lin && box.xStart <= col
    ensures forall i :: 0 <= i < |cs| ==>
      InBox(box, cs[i].0, cs[i].1) && labels[cs[i].0][cs[i].1] == x && Splitting.Ahead(lin, col, cs[i].0, cs[i].1)
    ensures forall l: nat, c: nat :: InBox(box, l, c) && Splitting.Ahead(lin, col, l, c) && labels[l][c] == x ==> (l, c) in cs
    ensures forall i, j :: 0 <= i < j < |cs| ==> Before(cs[i], cs[j])
    decreases box.yBound - lin, box.xBound - col
  {
    if lin >= box.yBound then []
    else if col >= box.xBound then Scan(labels, x, box, lin + 1, box.xStart)
    else
      var rest := Scan(labels, x, box, lin, col + 1);
      if labels[lin][col] == x then [(lin, col)] + rest else rest
  }

  function Elems(cs: seq<Cell>): set<Cell>
  {
    set c | c in cs
  }

  /** A strictly ordered sequence lists each of its cells once. */
  lemma {:induction false} SortedCard(cs: seq<Cell>)
    requires forall i, j :: 0 <= i < j < |cs| ==> Before(cs[i], cs[j])
    ensures |Elems(cs)| == |cs|
  {
    if cs != [] {
      SortedCard(cs[1..]);
      assert Elems(cs) == {cs[0]} + Elems(cs[1..]);
      assert cs[0] !in Elems(cs[1..]) by {
        forall j | 1 <= j < |cs| ensures cs[j] != cs[0] {
          assert Before(cs[0], cs[j]);
        }
      }
    }
  }

  /** When every label lies in its region's box, the scan of x's box meets
      exactly the cells labelled x, each once. */
  lemma ScanFindsAll(s: Seg, x: nat)
    requires LabelsLive(s) && x in s.regions && Covers(s.labels, s.regions[x].box)
    ensures var box := s.regions[x].box; var cs := Scan(s.labels, x, box, box.yStart, box.xStart);
      Elems(cs) == Splitting.CellsOf(s, {x}) && |cs| == |Splitting.CellsOf(s, {x})|
  {
    var box := s.regions[x].box;
    var cs := Scan(s.labels, x, box, box.yStart, box.xStart);
    forall cell | cell in Splitting.CellsOf(s, {x}) ensures cell in Elems(cs) {
      var (l, c) := cell;
      assert InBox(s.regions[s.labels[l][c]].box, l, c);
    }
    SortedCard(cs);
  }

  // ---------------------------------------------------------------------
  // The statistics of one region
  // ---------------------------------------------------------------------

  /** The pixels of the cells, in the same order. */
  function PixelsAt(image: Pixels, cs: seq<Cell>): (ps: seq<seq<real>>)
    requires forall i :: 0 <= i < |cs| ==> cs[i].0 < |image| && cs[i].1 < |image[cs[i].0]|
    ensures |ps| == |cs| && forall i :: 0 <= i < |cs| ==> ps[i] == image[cs[i].0][cs[i].1]
  {
    seq(|cs|, i requires 0 <= i < |cs| => image[cs[i].0][cs[i].1])
  }

  predicate Banded(ps: seq<seq<real>>, nBands: nat)
  {
    forall i :: 0 <= i < |ps| ==> |ps[i]| == nBands
  }

  /** Band b of every pixel. */
  function Band(ps: seq<seq<real>>, b: nat): (xs: seq<real>)
    requires forall i :: 0 <= i < |ps| ==> b < |ps[i]|
    ensures |xs| == |ps| && forall i :: 0 <= i < |ps| ==> xs[i] == ps[i][b]
  {
    seq(|ps|, i requires 0 <= i < |ps| => ps[i][b])
  }

  /** The squared deviations of band b from m. */
  function Squares(ps: seq<seq<real>>, b: nat, m: real): (xs: seq<real>)
    requires forall i :: 0 <= i < |ps| ==> b < |ps[i]|
    ensures |xs| == |ps| && forall i :: 0 <= i < |ps| ==> xs[i] >= 0.0
    ensures forall i :: 0 <= i < |ps| ==> (xs[i] == 0.0 <==> ps[i][b] == m)
  {
    seq(|ps|, i requires 0 <= i < |ps| => Square(ps[i][b] - m))
  }

  function Mul(a: real, b: real): (p: real)
    ensures a > 0.0 && b > 0.0 ==> p > 0.0
    ensures a == 0.0 ==> p == 0.0
  {
    a * b
  }

  /** d squared, as the product of |d| with itself. */
  function Square(d: real): (q: real)
    ensures q >= 0.0 && (q == 0.0 <==> d == 0.0)
  {
    var e := if d >= 0.0 then d else -d;
    Mul(e, e)
  }

  /** The mean of every band. */
  function Mean(ps: seq<seq<real>>, nBands: nat): (mean: seq<real>)
    requires |ps| >= 1 && Banded(ps, nBands)
    ensures |mean| == nBands
  {
    seq(nBands, b requires 0 <= b < nBands => Sum(Band(ps, b)) / |ps| as real)
  }

  /** The variance of every band over the samples, around the given mean. */
  function Variance(samples: seq<seq<real>>, mean: seq<real>): (v: seq<real>)
    requires |samples| >= 1 && Banded(samples, |mean|)
    ensures |v| == |mean| && forall b :: 0 <= b < |mean| ==> v[b] >= 0.0
  {
    seq(|mean|, b requires 0 <= b < |mean| => BandVariance(samples, b, mean[b]))
  }

  function BandVariance(samples: seq<seq<real>>, b: nat, m: real): (v: real)
    requires |samples| >= 1 && forall i :: 0 <= i < |samples| ==> b < |samples[i]|
    ensures v >= 0.0
  {
    var xs := Squares(samples, b, m);
    SumNonNegative(xs);
    Sum(xs) / |samples| as real
  }

  /** The coefficient of variation of every band: sqrt(variance) / mean,
      and 0 for a band of mean 0. */
  function CV(variance: seq<real>, mean: seq<real>, sqrt: real -> real): (cv: seq<real>)
    requires |variance| == |mean|
    ensures |cv| == |mean|
    ensures forall b :: 0 <= b < |mean| && mean[b] == 0.0 ==> cv[b] == 0.0
  {
    seq(|mean|, b requires 0 <= b < |mean| => if mean[b] != 0.0 then sqrt(variance[b]) / mean[b] else 0.0)
  }

  /** The number of samples kept: a pixel is kept while fewer than
      nSamples + 1 are. */
  function SampleCount(size: nat, nSamples: nat): (k: nat)
    ensures k <= size && (size >= 1 ==> k >= 1)
    ensures size <= nSamples ==> k == size
  {
    if size <= nSamples + 1 then size else nSamples + 1
  }

  /** The box and the grid agree. */
  predicate Framed(s: Seg, image: Pixels, box: Box)
  {
    Shaped(s) && PixelsShaped(image, s.nLines, s.nCols, s.nBands) && box.yBound <= s.nLines && box.xBound <= s.nCols
  }

  /** The cells of r's box labelled with r's id, in scan order. */
  function RegionCells(s: Seg, image: Pixels, r: Region): (cs: seq<Cell>)
    requires Framed(s, image, r.box)
    ensures forall i :: 0 <= i < |cs| ==> InBox(r.box, cs[i].0, cs[i].1) && s.labels[cs[i].0][cs[i].1] == r.id
    ensures forall l: nat, c: nat :: InBox(r.box, l, c) && s.labels[l][c] == r.id ==> (l, c) in cs
    ensures forall i, j :: 0 <= i < j < |cs| ==> Before(cs[i], cs[j])
  {
    Scan(s.labels, r.id, r.box, r.box.yStart, r.box.xStart)
  }

  /** The new statistics of r from the pixels of its cells: the size and
      the mean over every pixel, the variance over the first samples and
      the coefficient of variation from both. */
  function Summarise(r: Region, ps: seq<seq<real>>, nBands: nat, sqrt: real -> real, nSamples: nat): (r': Region)
    requires |ps| >= 1 && Banded(ps, nBands)
    ensures r' == r.(size := r'.size, mean := r'.mean, variance := r'.variance, cv := r'.cv)
    ensures r'.size == |ps| && NBands(r') == |r'.variance| == |r'.cv| == nBands
    ensures forall b :: 0 <= b < nBands ==> r'.variance[b] >= 0.0
  {
    var mean := Mean(ps, nBands);
    var variance := Variance(ps[..SampleCount(|ps|, nSamples)], mean);
    r.(size := |ps|, mean := mean, variance := variance, cv := CV(variance, mean, sqrt))
  }

  /** Every band of the mean lies between the least and the greatest value
      of that band. */
  lemma SummaryMeanWithin(r: Region, ps: seq<seq<real>>, nBands: nat, sqrt: real -> real, nSamples: nat, b: nat, lo: real, hi: real)
    requires |ps| >= 1 && Banded(ps, nBands) && b < nBands
    requires forall i :: 0 <= i < |ps| ==> lo <= ps[i][b] <= hi
    ensures lo <= Summarise(r, ps, nBands, sqrt, nSamples).mean[b] <= hi
  {
    var xs := Band(ps, b);
    AverageBetween(xs, lo, hi);
  }

  /** Equal pixels give their value as the mean and zero spread. */
  lemma SummaryUniform(r: Region, ps: seq<seq<real>>, nBands: nat, sqrt: real -> real, nSamples: nat, v: seq<real>)
    requires |ps| >= 1 && Banded(ps, nBands) && |v| == nBands
    requires forall i :: 0 <= i < |ps| ==> ps[i] == v
    requires sqrt(0.0) == 0.0
    ensures var m := Summarise(r, ps, nBands, sqrt, nSamples);
      m.mean == v && m.variance == Zeros(nBands) && m.cv == Zeros(nBands)
  {
    var m := Summarise(r, ps, nBands, sqrt, nSamples);
    forall b | 0 <= b < nBands ensures m.mean[b] == v[b] {
      SummaryMeanWithin(r, ps, nBands, sqrt, nSamples, b, v[b], v[b]);
    }
    var samples := ps[..SampleCount(|ps|, nSamples)];
    forall b | 0 <= b < nBands ensures m.variance[b] == 0.0 {
      SumZero(Squares(samples, b, v[b]));
    }
  }

  /** The body of the loop of updateRegionStatistics for region r: the scan
      of its box for the cells labelled with its id, then its new
      statistics; nothing when the scan finds no cell. */
  function Measure(s: Seg, image: Pixels, sqrt: real -> real, nSamples: nat, r: Region): (m: Option<Region>)
    requires Framed(s, image, r.box)
    ensures m.Some? ==> m.value == r.(size := m.value.size, mean := m.value.mean, variance := m.value.variance, cv := m.value.cv)
    ensures m.Some? ==> m.value.size >= 1 && NBands(m.value) == |m.value.variance| == |m.value.cv| == s.nBands
    ensures m.Some? ==> forall b :: 0 <= b < s.nBands ==> m.value.variance[b] >= 0.0
    ensures m.None? <==> forall l: nat, c: nat :: InBox(r.box, l, c) ==> s.labels[l][c] != r.id
  {
    var cs := RegionCells(s, image, r);
    if cs == [] then None
    else
      assert InBox(r.box, cs[0].0, cs[0].1) && s.labels[cs[0].0][cs[0].1] == r.id;
      Some(Summarise(r, PixelsAt(image, cs), s.nBands, sqrt, nSamples))
  }

  /** With every label inside its region's box, a region is dropped
      exactly when no cell carries its id, and otherwise its new size is
      the number of cells that do. */
  lemma MeasureCounts(s: Seg, image: Pixels, sqrt: real -> real, nSamples: nat, x: nat)
    requires LabelsLive(s) && x in s.regions && s.regions[x].id == x && Framed(s, image, s.regions[x].box)
    ensures Measure(s, image, sqrt, nSamples, s.regions[x]).None? <==> Splitting.CellsOf(s, {x}) == {}
    ensures Measure(s, image, sqrt, nSamples, s.regions[x]).Some? ==>
      Measure(s, image, sqrt, nSamples, s.regions[x]).value.size == |Splitting.CellsOf(s, {x})|
  {
    ScanFindsAll(s, x);
  }

  /** Every band of the new mean lies between the least and the greatest
      value of that band over the region's cells. */
  lemma MeanWithin(s: Seg, image: Pixels, sqrt: real -> real, nSamples: nat, r: Region, b: nat, lo: real, hi: real)
    requires Framed(s, image, r.box) && Measure(s, image, sqrt, nSamples, r).Some? && b < s.nBands
    requires forall l: nat, c: nat :: InBox(r.box, l, c) && s.labels[l][c] == r.id ==> lo <= image[l][c][b] <= hi
    ensures lo <= Measure(s, image, sqrt, nSamples, r).value.mean[b] <= hi
  {
    var cs := RegionCells(s, image, r);
    var ps := PixelsAt(image, cs);
    assert forall i :: 0 <= i < |ps| ==> lo <= ps[i][b] <= hi by {
      forall i | 0 <= i < |ps| ensures lo <= ps[i][b] <= hi {
        assert InBox(r.box, cs[i].0, cs[i].1);
      }
    }
    SummaryMeanWithin(r, ps, s.nBands, sqrt, nSamples, b, lo, hi);
  }

  /** A region whose cells all hold the same pixel v gets v as its mean,
      zero variance and zero coefficient of variation. */
  lemma UniformRegion(s: Seg, image: Pixels, sqrt: real -> real, nSamples: nat, r: Region, v: seq<real>)
    requires Framed(s, image, r.box) && Measure(s, image, sqrt, nSamples, r).Some? && |v| == s.nBands
    requires forall l: nat, c: nat :: InBox(r.box, l, c) && s.labels[l][c] == r.id ==> image[l][c] == v
    requires sqrt(0.0) == 0.0
    ensures var m := Measure(s, image, sqrt, nSamples, r).value;
      m.mean == v && m.variance == Zeros(s.nBands) && m.cv == Zeros(s.nBands)
  {
    var cs := RegionCells(s, image, r);
    var ps := PixelsAt(image, cs);
    assert forall i :: 0 <= i < |ps| ==> ps[i] == v by {
      forall i | 0 <= i < |ps| ensures ps[i] == v {
        assert InBox(r.box, cs[i].0, cs[i].1);
      }
    }
    SummaryUniform(r, ps, s.nBands, sqrt, nSamples, v);
  }

  // ---------------------------------------------------------------------
  // The pass over the table
  // ---------------------------------------------------------------------

  /** Every box fits the grid and the image. */
  ghost predicate Ready(s: Seg, image: Pixels)
  {
    Valid(s) && PixelsShaped(image, s.nLines, s.nCols, s.nBands)
  }

  /** The new entry of region y once the pass has seen it. */
  function Measured(s0: Seg, image: Pixels, sqrt: real -> real, nSamples: nat, y: nat): Option<Region>
    requires y in s0.regions && Framed(s0, image, s0.regions[y].box)
  {
    Measure(s0, image, sqrt, nSamples, s0.regions[y])
  }

  /** Of the ids handled, exactly those whose region found a cell are
      live; every id not handled yet is live. */
  ghost predicate HandledKeys(s0: Seg, image: Pixels, sqrt: real -> real, nSamples: nat, s: Seg, done: set<nat>)
    requires Ready(s0, image)
  {
    forall y :: y in s.regions <==> y in s0.regions && (y in done ==> Measured(s0, image, sqrt, nSamples, y).Some?)
  }

  /** The handled regions carry their measured statistics, the others
      their old ones. */
  ghost predicate HandledStats(s0: Seg, image: Pixels, sqrt: real -> real, nSamples: nat, s: Seg, done: set<nat>)
    requires Ready(s0, image) && HandledKeys(s0, image, sqrt, nSamples, s, done)
  {
    forall y :: y in s.regions ==>
      Splitting.Statistics(s.regions[y]) ==
      Splitting.Statistics(if y in done then Measured(s0, image, sqrt, nSamples, y).value else s0.regions[y])
  }

  /** Two regions adjacent before the pass and still live are still
      adjacent. */
  ghost predicate KeepsLinks(t0: Table, t: Table)
  {
    forall y, z :: y in t && z in t && Adjacent(t0, y, z) ==> Adjacent(t, y, z)
  }

  /** s is s0 after the pass has handled the ids in done, over the same
      grid and labels. */
  ghost predicate Handled(s0: Seg, image: Pixels, sqrt: real -> real, nSamples: nat, s: Seg, done: set<nat>)
    requires Ready(s0, image)
  {
    s == s0.(regions := s.regions) &&
    HandledKeys(s0, image, sqrt, nSamples, s, done) &&
    HandledStats(s0, image, sqrt, nSamples, s, done) &&
    KeepsLinks(s0.regions, s.regions)
  }

  /** One turn of the loop: region x is measured, and removed (with its
      neighbours linked to one another) when it has no cell left. */
  function Step(s: Seg, image: Pixels, sqrt: real -> real, nSamples: nat, x: nat): (s': Seg)
    requires Ready(s, image) && x in s.regions
  {
    match Measure(s, image, sqrt, nSamples, s.regions[x])
    case None => s.(regions := RemoveRegion(s.regions, x, true))
    case Some(r) => s.(regions := s.regions[x := r])
  }

  /** Measuring depends on a region's id and box only, not on its
      neighbours. */
  lemma MeasureIgnoresNeighbours(s: Seg, s0: Seg, image: Pixels, sqrt: real -> real, nSamples: nat, r: Region, r0: Region)
    requires s == s0.(regions := s.regions) && Framed(s0, image, r0.box)
    requires Splitting.Statistics(r) == Splitting.Statistics(r0)
    ensures Framed(s, image, r.box)
    ensures Measure(s, image, sqrt, nSamples, r).Some? == Measure(s0, image, sqrt, nSamples, r0).Some?
    ensures Measure(s, image, sqrt, nSamples, r).Some? ==>
      Splitting.Statistics(Measure(s, image, sqrt, nSamples, r).value) == Splitting.Statistics(Measure(s0, image, sqrt, nSamples, r0).value)
  {
    assert r.id == r0.id && r.box == r0.box;
  }

  /** Dropping a region that owns no cell keeps the segmentation valid. */
  lemma RemoveEmptyValid(s: Seg, x: nat)
    requires Valid(s) && x in s.regions && Splitting.CellsOf(s, {x}) == {}
    ensures Valid(s.(regions := RemoveRegion(s.regions, x, true)))
  {
    var t' := RemoveRegion(s.regions, x, true);
    RemoveRegionLinked(s.regions, x, true);
    forall l, c | 0 <= l < s.nLines && 0 <= c < s.nCols
      ensures s.labels[l][c] in t' && InBox(t'[s.labels[l][c]].box, l, c)
    {
      assert (l, c) !in Splitting.CellsOf(s, {x});
    }
  }

  /** Replacing a region's statistics keeps the segmentation valid. */
  lemma ReplaceValid(s: Seg, x: nat, r: Region)
    requires Valid(s) && x in s.regions
    requires r == s.regions[x].(size := r.size, mean := r.mean, variance := r.variance, cv := r.cv)
    requires r.size >= 1 && NBands(r) == s.nBands
    ensures Valid(s.(regions := s.regions[x := r]))
  {
    ReplaceKeepsLinks(s.regions, x, r);
  }

  /** The measure of x in s is the one the pass was to find from s0. */
  lemma StepMeasure(s0: Seg, image: Pixels, sqrt: real -> real, nSamples: nat, s: Seg, done: set<nat>, x: nat)
    requires Ready(s0, image) && Ready(s, image) && Handled(s0, image, sqrt, nSamples, s, done)
    requires x in s.regions && x !in done
    ensures x in s0.regions
    ensures Measure(s, image, sqrt, nSamples, s.regions[x]).Some? == Measured(s0, image, sqrt, nSamples, x).Some?
    ensures Measure(s, image, sqrt, nSamples, s.regions[x]).Some? ==>
      Splitting.Statistics(Measure(s, image, sqrt, nSamples, s.regions[x]).value) == Splitting.Statistics(Measured(s0, image, sqrt, nSamples, x).value)
  {
    assert HandledStats(s0, image, sqrt, nSamples, s, done);
    MeasureIgnoresNeighbours(s, s0, image, sqrt, nSamples, s.regions[x], s0.regions[x]);
  }

  /** A region without cells is removed. */
  lemma StepRemoves(s0: Seg, image: Pixels, sqrt: real -> real, nSamples: nat, s: Seg, done: set<nat>, x: nat)
    requires Ready(s0, image) && Ready(s, image) && Handled(s0, image, sqrt, nSamples, s, done)
    requires x in s.regions && x !in done && Measure(s, image, sqrt, nSamples, s.regions[x]).None?
    ensures Ready(s.(regions := RemoveRegion(s.regions, x, true)), image)
    ensures Handled(s0, image, sqrt, nSamples, s.(regions := RemoveRegion(s.regions, x, true)), done + {x})
  {
    var s' := s.(regions := RemoveRegion(s.regions, x, true));
    StepMeasure(s0, image, sqrt, nSamples, s, done, x);
    MeasureCounts(s, image, sqrt, nSamples, x);
    RemoveEmptyValid(s, x);
    RemoveRegionLinked(s.regions, x, true);
    assert HandledKeys(s0, image, sqrt, nSamples, s', done + {x});
    assert HandledStats(s0, image, sqrt, nSamples, s', done + {x}) by {
      assert HandledStats(s0, image, sqrt, nSamples, s, done);
    }
  }

  /** A region with cells gets its measured statistics. */
  lemma StepMeasures(s0: Seg, image: Pixels, sqrt: real -> real, nSamples: nat, s: Seg, done: set<nat>, x: nat)
    requires Ready(s0, image) && Ready(s, image) && Handled(s0, image, sqrt, nSamples, s, done)
    requires x in s.regions && x !in done && Measure(s, image, sqrt, nSamples, s.regions[x]).Some?
    ensures var r := Measure(s, image, sqrt, nSamples, s.regions[x]).value;
      Ready(s.(regions := s.regions[x := r]), image) &&
      Handled(s0, image, sqrt, nSamples, s.(regions := s.regions[x := r]), done + {x})
  {
    var r := Measure(s, image, sqrt, nSamples, s.regions[x]).value;
    var s' := s.(regions := s.regions[x := r]);
    StepMeasure(s0, image, sqrt, nSamples, s, done, x);
    ReplaceValid(s, x, r);
    ReplaceKeepsLinks(s.regions, x, r);
    assert HandledKeys(s0, image, sqrt, nSamples, s', done + {x}) by {
      assert HandledKeys(s0, image, sqrt, nSamples, s, done);
      assert s'.regions.Keys == s.regions.Keys;
    }
    assert HandledStats(s0, image, sqrt, nSamples, s', done + {x}) by {
      assert HandledStats(s0, image, sqrt, nSamples, s, done);
      forall y | y in s'.regions && y != x ensures s'.regions[y] == s.regions[y] && (y in done + {x} <==> y in done) {
      }
    }
  }

  /** The ids the loop has handled before position i. */
  function Seen(order: seq<nat>, i: nat): set<nat>
    requires i <= |order|
  {
    set k | 0 <= k < i :: order[k]
  }

  lemma SeenNext(order: seq<nat>, i: nat)
    requires i < |order| && forall j, k :: 0 <= j < k < |order| ==> order[j] != order[k]
    ensures Seen(order, i + 1) == Seen(order, i) + {order[i]}
    ensures forall k :: i < k < |order| ==> order[k] !in Seen(order, i + 1)
    ensures order[i] !in Seen(order, i)
  {
    assert Seen(order, i + 1) == Seen(order, i) + {order[i]};
  }

  /** What holds before turn i of the loop: the ids are distinct, those
      before i are handled and those from i on are still live. */
  ghost predicate LoopAt(s0: Seg, image: Pixels, sqrt: real -> real, nSamples: nat, s: Seg, order: seq<nat>, i: nat)
  {
    i <= |order| && (forall j, k :: 0 <= j < k < |order| ==> order[j] != order[k]) &&
    Ready(s0, image) && Ready(s, image) && Handled(s0, image, sqrt, nSamples, s, Seen(order, i)) &&
    (forall k :: i <= k < |order| ==> order[k] in s.regions)
  }

  /** The loop of updateRegionStatistics over the ids in order from i on. */
  function UpdateFrom(s0: Seg, image: Pixels, sqrt: real -> real, nSamples: nat, s: Seg, order: seq<nat>, i: nat): (s': Seg)
    requires LoopAt(s0, image, sqrt, nSamples, s, order, i)
    ensures LoopAt(s0, image, sqrt, nSamples, s', order, |order|)
    decreases |order| - i
  {
    if i == |order| then s
    else
      StepLoopPre(s0, image, sqrt, nSamples, s, order, i);
      UpdateFrom(s0, image, sqrt, nSamples, Step(s, image, sqrt, nSamples, order[i]), order, i + 1)
  }

  /** One turn of the loop re-establishes what the next turn needs. */
  lemma StepLoopPre(s0: Seg, image: Pixels, sqrt: real -> real, nSamples: nat, s: Seg, order: seq<nat>, i: nat)
    requires LoopAt(s0, image, sqrt, nSamples, s, order, i) && i < |order|
    ensures order[i] in s.regions && Ready(s, image)
    ensures LoopAt(s0, image, sqrt, nSamples, Step(s, image, sqrt, nSamples, order[i]), order, i + 1)
  {
    SeenNext(order, i);
    var x := order[i];
    if Measure(s, image, sqrt, nSamples, s.regions[x]).None? {
      StepRemoves(s0, image, sqrt, nSamples, s, Seen(order, i), x);
    } else {
      StepMeasures(s0, image, sqrt, nSamples, s, Seen(order, i), x);
    }
    StepKeepsRest(s, image, sqrt, nSamples, order, i);
  }

  /** The ids still to come stay live across a turn. */
  lemma StepKeepsRest(s: Seg, image: Pixels, sqrt: real -> real, nSamples: nat, order: seq<nat>, i: nat)
    requires i < |order| && forall j, k :: 0 <= j < k < |order| ==> order[j] != order[k]
    requires Ready(s, image) && forall k :: i <= k < |order| ==> order[k] in s.regions
    ensures forall k :: i + 1 <= k < |order| ==> order[k] in Step(s, image, sqrt, nSamples, order[i]).regions
  {
  }

  /** MultiSeg::updateRegionStatistics: every region is measured in
      ascending id order; one without a cell is removed with link set, the
      others get their new statistics. The result is a valid segmentation
      over the same labels whose regions are exactly the ids some cell
      carries, each sized by its number of cells; boxes, ids and the
      adjacency between surviving regions are kept. */
  function UpdateRegionStatistics(s: Seg, image: Pixels, sqrt: real -> real, nSamples: nat): (s': Seg)
    requires Valid(s) && PixelsShaped(image, s.nLines, s.nCols, s.nBands)
    ensures Valid(s') && s' == s.(regions := s'.regions)
    ensures forall y :: y in s'.regions <==> y in s.regions && Splitting.CellsOf(s, {y}) != {}
    ensures forall y :: y in s'.regions ==>
      Measure(s, image, sqrt, nSamples, s.regions[y]).Some? &&
      Splitting.Statistics(s'.regions[y]) == Splitting.Statistics(Measure(s, image, sqrt, nSamples, s.regions[y]).value) &&
      s'.regions[y].size == |Splitting.CellsOf(s, {y})|
    ensures KeepsLinks(s.regions, s'.regions)
  {
    var order := SortedIds(s.regions.Keys);
    assert Seen(order, 0) == {};
    assert LoopAt(s, image, sqrt, nSamples, s, order, 0);
    var s' := UpdateFrom(s, image, sqrt, nSamples, s, order, 0);
    UpdateEnds(s, image, sqrt, nSamples, s', order);
    s'
  }

  lemma SeenAll(ids: set<nat>)
    ensures Seen(SortedIds(ids), |SortedIds(ids)|) == ids
  {
    var order := SortedIds(ids);
    forall y | y in ids ensures y in Seen(order, |order|) {
      var k :| 0 <= k < |order| && order[k] == y;
    }
  }

  lemma UpdateEnds(s: Seg, image: Pixels, sqrt: real -> real, nSamples: nat, s': Seg, order: seq<nat>)
    requires Ready(s, image) && order == SortedIds(s.regions.Keys)
    requires Handled(s, image, sqrt, nSamples, s', Seen(order, |order|))
    ensures forall y :: y in s'.regions <==> y in s.regions && Splitting.CellsOf(s, {y}) != {}
    ensures forall y :: y in s'.regions ==>
      Measure(s, image, sqrt, nSamples, s.regions[y]).Some? &&
      Splitting.Statistics(s'.regions[y]) == Splitting.Statistics(Measure(s, image, sqrt, nSamples, s.regions[y]).value) &&
      s'.regions[y].size == |Splitting.CellsOf(s, {y})|
  {
    SeenAll(s.regions.Keys);
    assert HandledKeys(s, image, sqrt, nSamples, s', s.regions.Keys);
    assert HandledStats(s, image, sqrt, nSamples, s', s.regions.Keys);
    forall y | y in s.regions ensures y in s'.regions <==> Splitting.CellsOf(s, {y}) != {} {
      MeasureCounts(s, image, sqrt, nSamples, y);
    }
    forall y | y in s'.regions
      ensures Measure(s, image, sqrt, nSamples, s.regions[y]).Some? &&
        Splitting.Statistics(s'.regions[y]) == Splitting.Statistics(Measure(s, image, sqrt, nSamples, s.regions[y]).value) &&
        s'.regions[y].size == |Splitting.CellsOf(s, {y})|
    {
      MeasureCounts(s, image, sqrt, nSamples, y);
      assert Splitting.Statistics(s'.regions[y]).size == s'.regions[y].size;
    }
  }

  // ---------------------------------------------------------------------
  // Resizing
  // ---------------------------------------------------------------------

  /** MultiSeg::resizeRegions: Region::updateBounds(2, nLines, nCols) on
      every region, where nLines x nCols is the size of the finer level. */
  function ResizeRegions(t: Table, nLines: nat, nCols: nat): (t': Table)
    ensures t'.Keys == t.Keys
    ensures forall x :: x in t ==> t'[x] == t[x].(box := t'[x].box) && t'[x].box.yBound <= nLines && t'[x].box.xBound <= nCols
    ensures Linked(t) ==> Linked(t')
  {
    var t' := map x | x in t :: UpdateBoundsScaled(t[x], 2, nLines, nCols);
    assert forall x, y :: Adjacent(t', x, y) <==> Adjacent(t, x, y);
    t'
  }

  /** The label grid of the finer level when every coarse cell is copied
      onto the 2 x 2 block under it. */
  function Upsample(labels: seq<seq<nat>>, nLines: nat, nCols: nat): (up: seq<seq<nat>>)
    requires forall l :: 0 <= l < nLines ==> l / 2 < |labels| && forall c :: 0 <= c < nCols ==> c / 2 < |labels[l / 2]|
    ensures |up| == nLines && forall l :: 0 <= l < nLines ==> |up[l]| == nCols
    ensures forall l: nat, c: nat :: 0 <= l < nLines && 0 <= c < nCols ==> up[l][c] == labels[l / 2][c / 2]
  {
    seq(nLines, l requires 0 <= l < nLines => seq(nCols, c requires 0 <= c < nCols => labels[l / 2][c / 2]))
  }

  /** Resizing keeps every label inside its region's box: with the coarse
      labels copied onto 2 x 2 blocks of a grid at most twice as large,
      each fine cell still lies in the rescaled box of its region, so the
      scans of updateRegionStatistics find all of a region's cells. */
  lemma ResizeKeepsLabelsLive(s: Seg, nLines: nat, nCols: nat)
    requires LabelsLive(s) && Fitted(s)
    requires nLines <= 2 * s.nLines && nCols <= 2 * s.nCols
    requires 2 * s.nLines < SizeModulus && 2 * s.nCols < SizeModulus
    ensures var up := Upsample(s.labels, nLines, nCols);
      LabelsLive(Seg(nLines, nCols, s.nBands, up, ResizeRegions(s.regions, nLines, nCols)))
  {
    var up := Upsample(s.labels, nLines, nCols);
    var t' := ResizeRegions(s.regions, nLines, nCols);
    forall l, c | 0 <= l < nLines && 0 <= c < nCols ensures up[l][c] in t' && InBox(t'[up[l][c]].box, l, c) {
      var x := s.labels[l / 2][c / 2];
      assert InBox(s.regions[x].box, l / 2, c / 2);
      UpscaledBoxCovers(s.regions[x], 2, nLines, nCols, l / 2, c / 2, l % 2, c % 2);
    }
  }
}
