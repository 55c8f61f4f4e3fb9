/** The state of MultiSeg at one pyramid level: the label grid (the
    labelled image), the region table with its adjacency, and the
    operations on it that every pass of the engine uses: initialisation,
    the choice of the closest neighbour, and the merge of two regions. */
module Segmentation {
  import opened Results
  import opened Regions
  import opened Adjacency
  import Mergers
  import Utils

  /** std::string::npos, the label of a cell whose region is being split. */
  const NoRegion: nat := 0xFFFF_FFFF_FFFF_FFFF

  /** DBL_MAX, (2 - 2^-52) * 2^1023: where getClosestRegion's scan starts,
      and what getCV answers from an empty table. */
  const MaxDoubleValue: real := 179769313486231570814527423731704356798070567525844996598917476803157260780028538760589558632766878171540458953514382464234321326889464182768467546703537516986049910576551282076245490090389328944075868508455133942304583236903222948165808559332123348274797826204144723168738177180919299881250404026184124858368.0

  /** The pixels of one level: image[lin][col] holds the selected bands. */
  type Pixels = seq<seq<seq<real>>>

  predicate PixelsShaped(image: Pixels, nLines: nat, nCols: nat, nBands: nat)
  {
    |image| == nLines &&
    forall l :: 0 <= l < nLines ==> |image[l]| == nCols && forall c :: 0 <= c < nCols ==> |image[l][c]| == nBands
  }

  /** labels[lin][col] is the id of the region owning the cell. */
  datatype Seg = Seg(nLines: nat, nCols: nat, nBands: nat, labels: seq<seq<nat>>, regions: Table)

  predicate Shaped(s: Seg)
  {
    |s.labels| == s.nLines && forall l :: 0 <= l < s.nLines ==> |s.labels[l]| == s.nCols
  }

  /** Every cell carries the id of a live region whose box holds it. */
  ghost predicate LabelsLive(s: Seg)
  {
    Shaped(s) &&
    forall l, c :: 0 <= l < s.nLines && 0 <= c < s.nCols ==>
      s.labels[l][c] in s.regions && InBox(s.regions[s.labels[l][c]].box, l, c)
  }

  /** Every region is non-empty, has the image's bands and a box inside
      the grid. */
  ghost predicate Fitted(s: Seg)
  {
    forall x :: x in s.regions ==>
      s.regions[x].size >= 1 && NBands(s.regions[x]) == s.nBands &&
      s.regions[x].box.xBound <= s.nCols && s.regions[x].box.yBound <= s.nLines
  }

  ghost predicate Valid(s: Seg)
  {
    Shaped(s) && Linked(s.regions) && LabelsLive(s) && Fitted(s)
  }

  // ---------------------------------------------------------------------
  // Initialisation
  // ---------------------------------------------------------------------

  /** Ids of the 4-neighbours of (lin, col) in the order initializeRegions
      links them: the cell above and the cell to the left are linked when
      (lin, col) is created, the cell to the right and the cell below when
      they are. */
  function Grid4(lin: nat, col: nat, nLines: nat, nCols: nat): seq<nat>
  {
    (if lin > 0 then [Utils.GenerateId(lin - 1, col, nCols)] else []) +
    (if col > 0 then [Utils.GenerateId(lin, col - 1, nCols)] else []) +
    (if col + 1 < nCols then [Utils.GenerateId(lin, col + 1, nCols)] else []) +
    (if lin + 1 < nLines then [Utils.GenerateId(lin + 1, col, nCols)] else [])
  }

  /** (l1, c1) and (l2, c2) share a side. */
  predicate FourNeighbours(l1: nat, c1: nat, l2: nat, c2: nat)
  {
    (l1 == l2 && (c1 == c2 + 1 || c2 == c1 + 1)) || (c1 == c2 && (l1 == l2 + 1 || l2 == l1 + 1))
  }

  predicate InGrid(lin: nat, col: nat, nLines: nat, nCols: nat)
  {
    lin < nLines && col < nCols
  }

  /** The neighbour ids are the cell's own id shifted by one line or one
      column. */
  lemma Grid4Ids(lin: nat, col: nat, nCols: nat)
    ensures lin > 0 ==> Utils.GenerateId(lin - 1, col, nCols) == Utils.GenerateId(lin, col, nCols) - nCols
    ensures Utils.GenerateId(lin + 1, col, nCols) == Utils.GenerateId(lin, col, nCols) + nCols
    ensures col > 0 ==> Utils.GenerateId(lin, col - 1, nCols) == Utils.GenerateId(lin, col, nCols) - 1
    ensures Utils.GenerateId(lin, col + 1, nCols) == Utils.GenerateId(lin, col, nCols) + 1
  {
    if lin > 0 {
      assert (lin - 1) * nCols == lin * nCols - nCols;
    }
    assert (lin + 1) * nCols == lin * nCols + nCols;
  }

  lemma Grid4Meaning(lin: nat, col: nat, nLines: nat, nCols: nat, l: nat, c: nat)
    requires InGrid(lin, col, nLines, nCols) && InGrid(l, c, nLines, nCols)
    ensures Utils.GenerateId(l, c, nCols) in Grid4(lin, col, nLines, nCols) <==> FourNeighbours(lin, col, l, c)
  {
    var id := Utils.GenerateId(l, c, nCols);
    if lin > 0 && id == Utils.GenerateId(lin - 1, col, nCols) {
      Utils.GenerateIdInjective(l, c, lin - 1, col, nCols);
    }
    if col > 0 && id == Utils.GenerateId(lin, col - 1, nCols) {
      Utils.GenerateIdInjective(l, c, lin, col - 1, nCols);
    }
    if col + 1 < nCols && id == Utils.GenerateId(lin, col + 1, nCols) {
      Utils.GenerateIdInjective(l, c, lin, col + 1, nCols);
    }
    if lin + 1 < nLines && id == Utils.GenerateId(lin + 1, col, nCols) {
      Utils.GenerateIdInjective(l, c, lin + 1, col, nCols);
    }
  }

  /** The list is strictly increasing (so duplicate-free), misses the
      cell itself, and holds only ids of the grid. */
  lemma Grid4Facts(lin: nat, col: nat, nLines: nat, nCols: nat)
    requires InGrid(lin, col, nLines, nCols)
    ensures forall i, j :: 0 <= i < j < |Grid4(lin, col, nLines, nCols)| ==>
      Grid4(lin, col, nLines, nCols)[i] < Grid4(lin, col, nLines, nCols)[j]
    ensures NoDuplicates(Grid4(lin, col, nLines, nCols))
    ensures Utils.GenerateId(lin, col, nCols) !in Grid4(lin, col, nLines, nCols)
    ensures forall k :: 0 <= k < |Grid4(lin, col, nLines, nCols)| ==> Grid4(lin, col, nLines, nCols)[k] < nLines * nCols
  {
    Grid4Ids(lin, col, nCols);
    var id := Utils.GenerateId(lin, col, nCols);
    var g := Grid4(lin, col, nLines, nCols);
    MulMonotone(lin + 1, nLines, nCols);
    if lin + 1 < nLines {
      MulMonotone(lin + 2, nLines, nCols);
      assert Utils.GenerateId(lin + 1, col, nCols) < (lin + 2) * nCols;
    }
    assert id < (lin + 1) * nCols;
  }

  lemma DecodeInGrid(id: nat, nLines: nat, nCols: nat)
    requires id < nLines * nCols
    ensures nCols > 0 && InGrid(Utils.DecodeId(id, nCols).0, Utils.DecodeId(id, nCols).1, nLines, nCols)
  {
    var (lin, col) := Utils.DecodeId(id, nCols);
    if lin >= nLines {
      MulMonotone(nLines, lin, nCols);
    }
  }

  /** The single-pixel region initializeRegions creates for the cell with
      this id, with its final neighbour list. */
  function InitialRegion(image: Pixels, nLines: nat, nCols: nat, nBands: nat, id: nat): (r: Region)
    requires PixelsShaped(image, nLines, nCols, nBands) && id < nLines * nCols
  {
    DecodeInGrid(id, nLines, nCols);
    var (lin, col) := Utils.DecodeId(id, nCols);
    NewRegion(id, image[lin][col], lin, col).(neighbours := Grid4(lin, col, nLines, nCols))
  }

  /** MultiSeg::initializeRegions: one region per cell, labelled with its
      own id, linked to its 4-neighbours. */
  function InitializeRegions(image: Pixels, nLines: nat, nCols: nat, nBands: nat): (s: Seg)
    requires PixelsShaped(image, nLines, nCols, nBands)
    ensures s.nLines == nLines && s.nCols == nCols && s.nBands == nBands && Shaped(s)
  {
    Seg(nLines, nCols, nBands,
      seq(nLines, l requires 0 <= l < nLines => seq(nCols, c requires 0 <= c < nCols => Utils.GenerateId(l, c, nCols))),
      map id | 0 <= id < nLines * nCols :: InitialRegion(image, nLines, nCols, nBands, id))
  }

  /** The region of cell (lin, col) has id lin*nCols+col, labels that cell,
      holds exactly that cell and its pixel, and its neighbours are the
      cell's 4-neighbours. */
  lemma InitialCell(image: Pixels, nLines: nat, nCols: nat, nBands: nat, lin: nat, col: nat)
    requires PixelsShaped(image, nLines, nCols, nBands) && InGrid(lin, col, nLines, nCols)
    ensures var s := InitializeRegions(image, nLines, nCols, nBands);
      var id := Utils.GenerateId(lin, col, nCols);
      s.labels[lin][col] == id && id in s.regions &&
      s.regions[id] == NewRegion(id, image[lin][col], lin, col).(neighbours := Grid4(lin, col, nLines, nCols))
  {
    var id := Utils.GenerateId(lin, col, nCols);
    MulMonotone(lin + 1, nLines, nCols);
    Utils.DecodeGenerate(lin, col, nCols);
  }

  /** Two cells' regions are adjacent exactly when the cells share a side. */
  lemma InitialAdjacency(image: Pixels, nLines: nat, nCols: nat, nBands: nat)
    requires PixelsShaped(image, nLines, nCols, nBands)
    ensures var t := InitializeRegions(image, nLines, nCols, nBands).regions;
      forall l1, c1, l2, c2 :: InGrid(l1, c1, nLines, nCols) && InGrid(l2, c2, nLines, nCols) ==>
        (Adjacent(t, Utils.GenerateId(l1, c1, nCols), Utils.GenerateId(l2, c2, nCols)) <==> FourNeighbours(l1, c1, l2, c2))
  {
    var t := InitializeRegions(image, nLines, nCols, nBands).regions;
    forall l1, c1, l2, c2 | InGrid(l1, c1, nLines, nCols) && InGrid(l2, c2, nLines, nCols)
      ensures Adjacent(t, Utils.GenerateId(l1, c1, nCols), Utils.GenerateId(l2, c2, nCols)) <==> FourNeighbours(l1, c1, l2, c2)
    {
      InitialCell(image, nLines, nCols, nBands, l1, c1);
      Grid4Meaning(l1, c1, nLines, nCols, l2, c2);
    }
  }

  /** The facts Valid needs about one initial region. */
  lemma InitialKey(image: Pixels, nLines: nat, nCols: nat, nBands: nat, x: nat)
    requires PixelsShaped(image, nLines, nCols, nBands) && x < nLines * nCols
    ensures var t := InitializeRegions(image, nLines, nCols, nBands).regions;
      x in t && t[x].id == x && NoDuplicates(t[x].neighbours) && !Adjacent(t, x, x) &&
      t[x].size >= 1 && NBands(t[x]) == nBands && t[x].box.xBound <= nCols && t[x].box.yBound <= nLines &&
      forall y :: Adjacent(t, x, y) ==> Adjacent(t, y, x)
  {
    var t := InitializeRegions(image, nLines, nCols, nBands).regions;
    DecodeInGrid(x, nLines, nCols);
    var (lin, col) := Utils.DecodeId(x, nCols);
    Utils.DecodeGenerate(lin, col, nCols);
    InitialCell(image, nLines, nCols, nBands, lin, col);
    Grid4Facts(lin, col, nLines, nCols);
    forall y | Adjacent(t, x, y) ensures Adjacent(t, y, x) {
      DecodeInGrid(y, nLines, nCols);
      var (l2, c2) := Utils.DecodeId(y, nCols);
      Utils.DecodeGenerate(l2, c2, nCols);
      InitialCell(image, nLines, nCols, nBands, l2, c2);
      Grid4Meaning(lin, col, nLines, nCols, l2, c2);
      Grid4Meaning(l2, c2, nLines, nCols, lin, col);
    }
  }

  /** Exactly nLines * nCols regions exist, and the state is consistent:
      the table is linked, every cell is labelled with a live region whose
      box holds it, and every region fits the grid. */
  lemma InitializeRegionsValid(image: Pixels, nLines: nat, nCols: nat, nBands: nat)
    requires PixelsShaped(image, nLines, nCols, nBands)
    ensures var s := InitializeRegions(image, nLines, nCols, nBands);
      (forall id: nat :: id in s.regions <==> id < nLines * nCols) && Valid(s)
  {
    var s := InitializeRegions(image, nLines, nCols, nBands);
    var t := s.regions;
    forall x | x in t
      ensures t[x].id == x && NoDuplicates(t[x].neighbours) && !Adjacent(t, x, x)
      ensures forall y :: Adjacent(t, x, y) ==> Adjacent(t, y, x)
      ensures t[x].size >= 1 && NBands(t[x]) == nBands && t[x].box.xBound <= nCols && t[x].box.yBound <= nLines
    {
      InitialKey(image, nLines, nCols, nBands, x);
    }
    forall l, c | 0 <= l < nLines && 0 <= c < nCols
      ensures s.labels[l][c] in t && InBox(t[s.labels[l][c]].box, l, c)
    {
      InitialCell(image, nLines, nCols, nBands, l, c);
    }
  }

  // ---------------------------------------------------------------------
  // Merging two regions
  // ---------------------------------------------------------------------

  /** MultiSeg::updateLabelledImage(region, merged): inside `box`, cells
      labelled `from` take the label `to`; no other cell changes. */
  function Relabel(labels: seq<seq<nat>>, box: Box, from: nat, to: nat): (labels': seq<seq<nat>>)
    ensures |labels'| == |labels| && forall l :: 0 <= l < |labels| ==> |labels'[l]| == |labels[l]|
    ensures forall l, c :: 0 <= l < |labels| && 0 <= c < |labels[l]| ==>
      (labels'[l][c] == to <==> labels[l][c] == to || (labels[l][c] == from && InBox(box, l, c)))
    ensures forall l, c :: 0 <= l < |labels| && 0 <= c < |labels[l]| && labels'[l][c] != to ==>
      labels'[l][c] == labels[l][c]
  {
    seq(|labels|, l requires 0 <= l < |labels| =>
      seq(|labels[l]|, c requires 0 <= c < |labels[l]| =>
        if InBox(box, l, c) && labels[l][c] == from then to else labels[l][c]))
  }

  /** Replacing an entry by one with the same id and neighbours keeps the
      adjacency, and so the consistency, of the table. */
  lemma ReplaceKeepsLinks(t: Table, a: nat, r: Region)
    requires a in t && r.id == a && r.neighbours == t[a].neighbours
    ensures forall x, y :: Adjacent(t[a := r], x, y) <==> Adjacent(t, x, y)
    ensures Linked(t) ==> Linked(t[a := r])
  {
    var t' := t[a := r];
    forall x, y ensures Adjacent(t', x, y) <==> Adjacent(t, x, y) {
      assert x in t ==> t'[x].neighbours == t[x].neighbours;
    }
  }

  /** EuclideanMerger::merge(a, b), updateNeighborhoodAfterMerge(a, b),
      updateLabelledImage(a, b) and the erase of b from the table: the
      sequence every merge of the engine performs. Region a survives. */
  function MergePair(s: Seg, a: nat, b: nat): (s': Seg)
    requires Valid(s) && a in s.regions && b in s.regions && a != b
    ensures s'.nLines == s.nLines && s'.nCols == s.nCols && s'.nBands == s.nBands
    ensures s'.regions.Keys == s.regions.Keys - {b}
  {
    var ra, rb := s.regions[a], s.regions[b];
    var merged := Mergers.EuclideanMerge(ra, rb);
    s.(regions := Contract(s.regions[a := merged], a, b), labels := Relabel(s.labels, rb.box, b, a))
  }

  /** The survivor a has the combined size, the size-weighted means and a
      box holding both boxes; every other region keeps all but its
      neighbour list; b's cells now carry a and no other label changes. */
  lemma MergePairEffect(s: Seg, a: nat, b: nat)
    requires Valid(s) && a in s.regions && b in s.regions && a != b
    ensures var s' := MergePair(s, a, b); var ra, rb := s.regions[a], s.regions[b];
      s'.regions[a].size == ra.size + rb.size &&
      s'.regions[a].mean == Mergers.WeightedMeans(ra, rb) &&
      Encloses(s'.regions[a].box, ra.box) && Encloses(s'.regions[a].box, rb.box)
    ensures var s' := MergePair(s, a, b);
      forall x :: x in s'.regions && x != a ==> s'.regions[x] == s.regions[x].(neighbours := s'.regions[x].neighbours)
    ensures var s' := MergePair(s, a, b);
      forall l, c :: 0 <= l < s.nLines && 0 <= c < s.nCols ==>
        s'.labels[l][c] == if s.labels[l][c] == b then a else s.labels[l][c]
    ensures |MergePair(s, a, b).regions| == |s.regions| - 1
  {
    var s' := MergePair(s, a, b);
    var merged := Mergers.EuclideanMerge(s.regions[a], s.regions[b]);
    assert s'.regions[a] == merged.(neighbours := s'.regions[a].neighbours);
    assert s'.regions.Keys == s.regions.Keys - {b};
  }

  /** The merge keeps the state consistent, nothing lists b any more, and
      the new adjacency is the old one with b folded into a. */
  lemma MergePairValid(s: Seg, a: nat, b: nat)
    requires Valid(s) && a in s.regions && b in s.regions && a != b
    ensures Valid(MergePair(s, a, b))
    ensures forall x :: x in MergePair(s, a, b).regions ==> !IsNeighbour(MergePair(s, a, b).regions[x], b)
    ensures forall x, y :: x != b && y != b ==>
      (Adjacent(MergePair(s, a, b).regions, x, y) <==>
        x != y && (Adjacent(s.regions, x, y) || (x == a && Adjacent(s.regions, b, y)) || (y == a && Adjacent(s.regions, x, b))))
  {
    var ra, rb := s.regions[a], s.regions[b];
    var merged := Mergers.EuclideanMerge(ra, rb);
    var t1 := s.regions[a := merged];
    ReplaceKeepsLinks(s.regions, a, merged);
    ContractLinked(t1, a, b);
    MergePairEffect(s, a, b);
    MergePairLabels(s, a, b);
    MergePairFitted(s, a, b);
  }

  /** After the merge every cell still carries a live region whose box
      holds it. */
  lemma MergePairLabels(s: Seg, a: nat, b: nat)
    requires Valid(s) && a in s.regions && b in s.regions && a != b
    ensures LabelsLive(MergePair(s, a, b))
  {
    var s' := MergePair(s, a, b);
    MergePairEffect(s, a, b);
    forall l, c | 0 <= l < s.nLines && 0 <= c < s.nCols
      ensures s'.labels[l][c] in s'.regions && InBox(s'.regions[s'.labels[l][c]].box, l, c)
    {
      var x := s.labels[l][c];
      assert InBox(s.regions[x].box, l, c);
    }
  }

  /** After the merge every region still fits the grid. */
  lemma MergePairFitted(s: Seg, a: nat, b: nat)
    requires Valid(s) && a in s.regions && b in s.regions && a != b
    ensures Fitted(MergePair(s, a, b))
  {
    var s' := MergePair(s, a, b);
    var ra, rb := s.regions[a], s.regions[b];
    MergePairEffect(s, a, b);
    var grid := Box(0, 0, s.nCols, s.nLines);
    assert Encloses(grid, ra.box) && Encloses(grid, rb.box);
    assert Encloses(grid, s'.regions[a].box) by {
      assert s'.regions[a].box == UpdateBoundsUnion(ra, rb).box;
    }
  }

  // ---------------------------------------------------------------------
  // Choosing the closest neighbour
  // ---------------------------------------------------------------------

  /** What the engine asks of the merger: the merge predicate under a
      given euclidean_distance_threshold, the pixel-to-region
      dissimilarity, and the homogeneity test under a given cv_threshold. */
  datatype Criterion = Criterion(
    accepts: (real, Region, Region) -> bool,
    dissimilarity: (seq<real>, Region) -> real,
    homogeneous: (real, Region) -> bool)

  /** The merge test the engine asks of merger m: predicate(r1, r2) after
      setParam("euclidean_distance_threshold", t). An answer the merger
      cannot give (a fault) reads as a refusal. */
  function AcceptsBy(m: Mergers.Merger, dist: Mergers.Dist, t: real, r1: Region, r2: Region): bool
  {
    var m' := Mergers.SetParam(m, "euclidean_distance_threshold", t);
    if NBands(r1) == NBands(r2) && forall b :: 0 <= b < NBands(r1) ==> Mergers.PredicateDefined(m', b, r1, r2) then
      var res := Mergers.Predicate(m', dist, r1, r2);
      res.Ok? && res.value
    else false
  }

  /** getDissimilarity(p, r) of merger m; a fault reads as distance 0. */
  function DissimilarityBy(m: Mergers.Merger, dist: Mergers.Dist, p: seq<real>, r: Region): real
  {
    if |p| == |r.mean| && forall b :: 0 <= b < |p| ==> Mergers.Routes(m, b) then
      var res := Mergers.Dissimilarity(m, dist, p, r);
      if res.Ok? then res.value else 0.0
    else 0.0
  }

  /** isHomogenous(r) of merger m after setParam("cv_threshold", t); a
      fault reads as not homogeneous. */
  function HomogeneousBy(m: Mergers.Merger, t: real, r: Region): bool
  {
    var m' := Mergers.SetParam(m, "cv_threshold", t);
    if NBands(r) <= |r.cv| && forall b :: 0 <= b < NBands(r) ==> Mergers.Routes(m', b) then
      var res := Mergers.IsHomogeneous(m', r);
      res.Ok? && res.value
    else false
  }

  /** The criterion merger m gives the engine, with the numerical library
      dist. */
  function CriterionOf(m: Mergers.Merger, dist: Mergers.Dist): Criterion
  {
    Criterion(
      (t: real, r1: Region, r2: Region) => AcceptsBy(m, dist, t, r1, r2),
      (p: seq<real>, r: Region) => DissimilarityBy(m, dist, p, r),
      (t: real, r: Region) => HomogeneousBy(m, t, r))
  }

  /** With the engine's default merger, a strict EuclideanMerger, two
      regions merge under threshold t exactly when they have bands and
      their means differ by at most t in every band; a region is
      homogeneous under t exactly when it has bands and its coefficient of
      variation is at most t in every band; and the dissimilarity of a
      pixel is its L1 distance to the region mean. */
  lemma EuclideanCriterion(params: Mergers.Params, dist: Mergers.Dist, t: real, r1: Region, r2: Region, p: seq<real>)
    requires NBands(r1) == NBands(r2) && NBands(r1) <= |r1.cv| && |p| == |r1.mean|
    ensures var crit := CriterionOf(Mergers.Leaf(Mergers.Euclidean, params, true), dist);
      (crit.accepts(t, r1, r2) <==>
        (NBands(r1) > 0 && forall b :: 0 <= b < NBands(r1) ==> Mergers.Abs(r1.mean[b] - r2.mean[b]) <= t)) &&
      (crit.homogeneous(t, r1) <==> NBands(r1) > 0 && forall b :: 0 <= b < NBands(r1) ==> r1.cv[b] <= t) &&
      crit.dissimilarity(p, r1) == Mergers.L1Distance(p, r1.mean)
  {
    var m := Mergers.Leaf(Mergers.Euclidean, params, true);
    var ma := Mergers.SetParam(m, "euclidean_distance_threshold", t);
    var mh := Mergers.SetParam(m, "cv_threshold", t);
    var vals := Mergers.BandPredicates(ma, dist, r1, r2);
    forall b | 0 <= b < NBands(r1)
      ensures vals[b].Ok? && (vals[b].value <==> Mergers.Abs(r1.mean[b] - r2.mean[b]) <= t)
    {
      assert vals[b] == Mergers.EuclideanBand(ma.params, r1, r2, b);
    }
    Mergers.PredicateMeaning(ma, dist, r1, r2);
    var hs := Mergers.BandHomogeneities(mh, r1);
    forall b | 0 <= b < NBands(r1)
      ensures hs[b].Ok? && (hs[b].value <==> r1.cv[b] <= t)
    {
      assert hs[b] == Mergers.HomogeneousBand(mh.params, r1, b);
    }
    Mergers.IsHomogeneousMeaning(mh, r1);
    Mergers.EuclideanDissimilarityIsL1(params, true, dist, p, r1);
  }

  /** The engine's switches: m_enableMutualBestFitting, m_growUntilStop
      and m_considerRegionVsRegion. */
  datatype Options = Options(mutualBestFit: bool, growUntilStop: bool, considerRegionVsRegion: bool)

  /** The values MultiSeg's constructor gives the switches. */
  const DefaultOptions := Options(true, true, true)

  /** getClosestRegions' test of one neighbour n of r: region-vs-region
      pairs are skipped unless considered, the rest must pass the
      predicate. */
  predicate Eligible(crit: Criterion, threshold: real, opts: Options, r: Region, n: Region)
  {
    !(r.size > 1 && n.size > 1 && !opts.considerRegionVsRegion) && crit.accepts(threshold, r, n)
  }

  /** Every listed id is live and has as many bands as r. */
  predicate Comparable(t: Table, r: Region, ns: seq<nat>)
  {
    forall k :: 0 <= k < |ns| ==> ns[k] in t && NBands(t[ns[k]]) == NBands(r)
  }

  /** MultiSeg::getClosestRegions: the eligible neighbours, in list order. */
  function Candidates(t: Table, crit: Criterion, threshold: real, opts: Options, r: Region, ns: seq<nat>): (cs: seq<nat>)
    requires Comparable(t, r, ns)
    ensures Comparable(t, r, cs) && |cs| <= |ns|
    ensures forall n :: n in cs <==> n in ns && n in t && Eligible(crit, threshold, opts, r, t[n])
    ensures NoDuplicates(ns) ==> NoDuplicates(cs)
  {
    if ns == [] then []
    else
      var rest := Candidates(t, crit, threshold, opts, r, ns[1..]);
      assert forall n :: n in ns <==> n == ns[0] || n in ns[1..];
      if Eligible(crit, threshold, opts, r, t[ns[0]]) then [ns[0]] + rest else rest
  }

  /** idx lists increasing positions of ns holding the elements of cs in
      turn: cs is a subsequence of ns. */
  ghost predicate Embeds(idx: seq<nat>, cs: seq<nat>, ns: seq<nat>)
  {
    |idx| == |cs| &&
    (forall k :: 0 <= k < |idx| ==> idx[k] < |ns| && ns[idx[k]] == cs[k]) &&
    (forall k, k' :: 0 <= k < k' < |idx| ==> idx[k] < idx[k'])
  }

  /** Positions one further on. */
  function Shift(idx: seq<nat>): (idx': seq<nat>)
    ensures |idx'| == |idx| && forall k :: 0 <= k < |idx| ==> idx'[k] == idx[k] + 1
  {
    seq(|idx|, k requires 0 <= k < |idx| => idx[k] + 1)
  }

  /** A subsequence of the tail is one of the whole list. */
  lemma EmbedsSkip(idx: seq<nat>, cs: seq<nat>, ns: seq<nat>)
    requires ns != [] && Embeds(idx, cs, ns[1..])
    ensures Embeds(Shift(idx), cs, ns)
  {
  }

  /** The head before a subsequence of the tail is one of the whole
      list. */
  lemma EmbedsTake(idx: seq<nat>, cs: seq<nat>, ns: seq<nat>)
    requires ns != [] && Embeds(idx, cs, ns[1..])
    ensures Embeds([0] + Shift(idx), [ns[0]] + cs, ns)
  {
    var idx', cs' := [0] + Shift(idx), [ns[0]] + cs;
    forall k | 0 <= k < |idx'| ensures idx'[k] < |ns| && ns[idx'[k]] == cs'[k] {
      if k > 0 {
        assert idx'[k] == idx[k - 1] + 1 && cs'[k] == cs[k - 1];
      }
    }
  }

  /** The candidates keep the order of the neighbour list. */
  lemma {:induction false} CandidatesInOrder(t: Table, crit: Criterion, threshold: real, opts: Options, r: Region, ns: seq<nat>)
    requires Comparable(t, r, ns)
    ensures exists idx :: Embeds(idx, Candidates(t, crit, threshold, opts, r, ns), ns)
  {
    if ns == [] {
      assert Embeds([], Candidates(t, crit, threshold, opts, r, ns), ns);
    } else {
      var rest := Candidates(t, crit, threshold, opts, r, ns[1..]);
      CandidatesInOrder(t, crit, threshold, opts, r, ns[1..]);
      var idx :| Embeds(idx, rest, ns[1..]);
      if Eligible(crit, threshold, opts, r, t[ns[0]]) {
        EmbedsTake(idx, rest, ns);
        assert Candidates(t, crit, threshold, opts, r, ns) == [ns[0]] + rest;
        assert Embeds([0] + Shift(idx), Candidates(t, crit, threshold, opts, r, ns), ns);
      } else {
        EmbedsSkip(idx, rest, ns);
        assert Embeds(Shift(idx), Candidates(t, crit, threshold, opts, r, ns), ns);
      }
    }
  }

  /** The distance getClosestRegion compares (getSquaredEuclideanDistance,
      which sums absolute differences of the means). */
  function Distances(t: Table, r: Region, cs: seq<nat>): (ds: seq<real>)
    requires Comparable(t, r, cs)
    ensures |ds| == |cs|
    ensures forall k :: 0 <= k < |cs| ==> ds[k] == Mergers.L1Distance(r.mean, t[cs[k]].mean)
  {
    seq(|cs|, k requires 0 <= k < |cs| => Mergers.L1Distance(r.mean, t[cs[k]].mean))
  }

  /** A scan for the first minimum from position k on, `best` being the
      position of the current minimum: a later value replaces it only
      when strictly smaller. */
  function ScanMin(ds: seq<real>, k: nat, best: nat): (i: nat)
    requires best < k <= |ds|
    requires forall j :: 0 <= j < k ==> ds[best] <= ds[j]
    requires forall j :: 0 <= j < best ==> ds[best] < ds[j]
    ensures i < |ds|
    ensures forall j :: 0 <= j < |ds| ==> ds[i] <= ds[j]
    ensures forall j :: 0 <= j < i ==> ds[i] < ds[j]
    decreases |ds| - k
  {
    if k == |ds| then best
    else ScanMin(ds, k + 1, if ds[k] < ds[best] then k else best)
  }

  /** The position of the first minimum. */
  function FirstMin(ds: seq<real>): (i: nat)
    requires |ds| > 0
    ensures i < |ds|
    ensures forall j :: 0 <= j < |ds| ==> ds[i] <= ds[j]
    ensures forall j :: 0 <= j < i ==> ds[i] < ds[j]
  {
    ScanMin(ds, 1, 0)
  }

  /** Being a minimum that every earlier value strictly exceeds pins the
      position down: FirstMin is the only such position. */
  lemma FirstMinUnique(ds: seq<real>, i: nat)
    requires i < |ds|
    requires forall j :: 0 <= j < |ds| ==> ds[i] <= ds[j]
    requires forall j :: 0 <= j < i ==> ds[i] < ds[j]
    ensures i == FirstMin(ds)
  {
  }

  /** What getClosestRegion's loop has seen before position k: no pick
      while every distance so far is at least DBL_MAX, otherwise the first
      position of the least distance, which is below DBL_MAX. */
  ghost predicate ScanSoFar(ds: seq<real>, k: nat, best: Option<nat>, least: real)
    requires k <= |ds|
  {
    match best
    case None => least == MaxDoubleValue && forall j :: 0 <= j < k ==> MaxDoubleValue <= ds[j]
    case Some(i) =>
      i < k && least == ds[i] && least < MaxDoubleValue &&
      (forall j :: 0 <= j < k ==> least <= ds[j]) && (forall j :: 0 <= j < i ==> least < ds[j])
  }

  /** getClosestRegion's loop from position k on: `least` starts at
      DBL_MAX and a distance replaces it only when strictly smaller. No
      pick comes out exactly when no distance is below DBL_MAX; otherwise
      the pick is the first position of the least distance. */
  function ClosestScan(ds: seq<real>, k: nat, best: Option<nat>, least: real): (b: Option<nat>)
    requires k <= |ds| && ScanSoFar(ds, k, best, least)
    ensures b.None? <==> forall j :: 0 <= j < |ds| ==> MaxDoubleValue <= ds[j]
    ensures b.Some? ==> b.value < |ds| && ds[b.value] < MaxDoubleValue
    ensures b.Some? ==> forall j :: 0 <= j < |ds| ==> ds[b.value] <= ds[j]
    ensures b.Some? ==> forall j :: 0 <= j < b.value ==> ds[b.value] < ds[j]
    decreases |ds| - k
  {
    if k == |ds| then best
    else if ds[k] < least then ClosestScan(ds, k + 1, Some(k), ds[k])
    else ClosestScan(ds, k + 1, best, least)
  }

  /** The loop, started from DBL_MAX, finds the first minimum exactly when
      that minimum is below DBL_MAX, and nothing otherwise. */
  lemma ClosestScanAgrees(ds: seq<real>)
    requires |ds| > 0
    ensures ClosestScan(ds, 0, None, MaxDoubleValue) ==
      if ds[FirstMin(ds)] < MaxDoubleValue then Some(FirstMin(ds)) else None
  {
    var b := ClosestScan(ds, 0, None, MaxDoubleValue);
    if b.Some? {
      FirstMinUnique(ds, b.value);
    }
  }

  /** No candidate is closer to r than DBL_MAX, where getClosestRegion's
      scan starts. */
  predicate BeyondMax(t: Table, r: Region, cs: seq<nat>)
  {
    Comparable(t, r, cs) &&
    forall k :: 0 <= k < |cs| ==> MaxDoubleValue <= Mergers.L1Distance(r.mean, t[cs[k]].mean)
  }

  /** getClosestRegion once its candidates are known: none for no
      candidate, the only one without a distance check, and otherwise the
      first of least distance, unless no distance is below DBL_MAX, when
      the scan keeps its null pick. */
  function Pick(t: Table, r: Region, cs: seq<nat>): (c: Option<nat>)
    requires Comparable(t, r, cs)
    ensures c.None? <==> |cs| == 0 || (|cs| >= 2 && BeyondMax(t, r, cs))
    ensures |cs| == 1 ==> c == Some(cs[0])
    ensures c.Some? ==> c.value in cs
  {
    if |cs| == 0 then None
    else if |cs| == 1 then Some(cs[0])
    else
      match ClosestScan(Distances(t, r, cs), 0, None, MaxDoubleValue)
      case None => None
      case Some(i) => Some(cs[i])
  }

  /** The pick is a candidate of least distance, strictly closer than
      every candidate listed before it. */
  lemma PickClosest(t: Table, r: Region, cs: seq<nat>)
    requires Comparable(t, r, cs) && Pick(t, r, cs).Some?
    ensures var c := Pick(t, r, cs).value;
      exists i :: 0 <= i < |cs| && cs[i] == c &&
        (forall j :: 0 <= j < |cs| ==> Mergers.L1Distance(r.mean, t[c].mean) <= Mergers.L1Distance(r.mean, t[cs[j]].mean)) &&
        (forall j :: 0 <= j < i ==> Mergers.L1Distance(r.mean, t[c].mean) < Mergers.L1Distance(r.mean, t[cs[j]].mean))
  {
    var ds := Distances(t, r, cs);
    var i := if |cs| == 1 then 0 else ClosestScan(ds, 0, None, MaxDoubleValue).value;
    assert cs[i] == Pick(t, r, cs).value;
  }

  /** Every neighbour a consistent table lists is live. */
  lemma NeighboursComparable(s: Seg, x: nat)
    requires Valid(s) && x in s.regions
    ensures Comparable(s.regions, s.regions[x], s.regions[x].neighbours)
  {
    forall k | 0 <= k < |s.regions[x].neighbours|
      ensures s.regions[x].neighbours[k] in s.regions
    {
      assert Adjacent(s.regions, x, s.regions[x].neighbours[k]);
    }
  }

  /** MultiSeg::getClosestRegion(region, true): the closest of all
      neighbours; none when there is no neighbour, or when there are two
      or more and none is closer than DBL_MAX. */
  function Nearest(s: Seg, x: nat): (c: Option<nat>)
    requires Valid(s) && x in s.regions
    ensures c.Some? ==> Adjacent(s.regions, x, c.value) && c.value != x
    ensures var ns := s.regions[x].neighbours;
      c.None? <==> ns == [] || (|ns| >= 2 && BeyondMax(s.regions, s.regions[x], ns))
  {
    NeighboursComparable(s, x);
    assert !Adjacent(s.regions, x, x);
    Pick(s.regions, s.regions[x], s.regions[x].neighbours)
  }

  /** MultiSeg::getClosestRegions(region) for a live x: its neighbours
      that pass the test, in list order. */
  function EligibleNeighbours(s: Seg, crit: Criterion, threshold: real, opts: Options, x: nat): (cs: seq<nat>)
    requires Valid(s) && x in s.regions
    ensures Comparable(s.regions, s.regions[x], cs)
    ensures forall n :: n in cs <==> Adjacent(s.regions, x, n) && Eligible(crit, threshold, opts, s.regions[x], s.regions[n])
  {
    NeighboursComparable(s, x);
    Candidates(s.regions, crit, threshold, opts, s.regions[x], s.regions[x].neighbours)
  }

  /** MultiSeg::getClosestRegion(region): the closest of the neighbours
      getClosestRegions keeps; none when no neighbour is eligible, or when
      two or more are and none of them is closer than DBL_MAX. */
  function Closest(s: Seg, crit: Criterion, threshold: real, opts: Options, x: nat): (c: Option<nat>)
    requires Valid(s) && x in s.regions
    ensures c.Some? ==> Adjacent(s.regions, x, c.value) && c.value != x
    ensures c.Some? ==> Eligible(crit, threshold, opts, s.regions[x], s.regions[c.value])
    ensures (forall n :: Adjacent(s.regions, x, n) ==> !Eligible(crit, threshold, opts, s.regions[x], s.regions[n])) ==> c.None?
    ensures var cs := EligibleNeighbours(s, crit, threshold, opts, x);
      c.None? <==> cs == [] || (|cs| >= 2 && BeyondMax(s.regions, s.regions[x], cs))
  {
    var cs := EligibleNeighbours(s, crit, threshold, opts, x);
    assert !Adjacent(s.regions, x, x);
    assert cs != [] ==> cs[0] in cs;
    Pick(s.regions, s.regions[x], cs)
  }

  // ---------------------------------------------------------------------
  // Iteration order of the region table
  // ---------------------------------------------------------------------

  lemma {:induction false} LeastExists(s: set<nat>)
    requires s != {}
    ensures exists m :: m in s && IsLeast(s, m)
    decreases |s|
  {
    var y :| y in s;
    var rest := s - {y};
    if rest == {} {
      forall x | x in s ensures y <= x {
        assert x == y || x in rest;
      }
      assert IsLeast(s, y);
    } else {
      LeastExists(rest);
      var m :| m in rest && IsLeast(rest, m);
      var least := if y < m then y else m;
      forall x | x in s ensures least <= x {
        if x != y {
          assert x in rest;
        }
      }
      assert IsLeast(s, least);
    }
  }

  predicate IsLeast(s: set<nat>, m: nat)
  {
    forall x :: x in s ==> m <= x
  }

  /** The least id of a non-empty set. */
  function Least(s: set<nat>): (m: nat)
    requires s != {}
    ensures m in s && forall x :: x in s ==> m <= x
  {
    LeastExists(s);
    var m :| m in s && IsLeast(s, m);
    m
  }

  /** The ids of a std::map in its iteration order: ascending. */
  function SortedIds(s: set<nat>): (ids: seq<nat>)
    ensures |ids| == |s|
    ensures forall x :: x in ids <==> x in s
    ensures forall i, j :: 0 <= i < j < |ids| ==> ids[i] < ids[j]
    decreases |s|
  {
    if s == {} then []
    else
      var m := Least(s);
      var rest := SortedIds(s - {m});
      assert forall x :: x in [m] + rest <==> x == m || x in rest;
      [m] + rest
  }
}
