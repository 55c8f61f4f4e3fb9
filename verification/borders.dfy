/** The border adjustment of MultiSeg (adjustRegionBorders): every cell of
    a region that touches another region is compared, together with that
    touching cell, against both regions; when the region wins both cells,
    the touching cell is moved into it. A set of cells already decided
    keeps a pair from being revisited. Statistics are left stale here and
    recomputed afterwards by the engine. */
module Borders {
  import opened Results
  import opened Regions
  import opened Adjacency
  import opened Segmentation

  /** BorderPixelType: the side of the cell on which the other cell lies. */
  datatype Side = Top | Bottom | Right | Left

  /** A cell next to the one being examined, and the side it lies on. */
  datatype Probe = Probe(lin: nat, col: nat, side: Side)

  /** The probe really lies on its side of (lin, col). */
  predicate Beside(lin: nat, col: nat, p: Probe)
  {
    match p.side
    case Left => p.lin == lin && p.col + 1 == col
    case Right => p.lin == lin && p.col == col + 1
    case Top => p.lin + 1 == lin && p.col == col
    case Bottom => p.lin == lin + 1 && p.col == col
  }

  /** The order in which isBorderPixel looks at the four sides. */
  function Rank(side: Side): nat
  {
    match side
    case Left => 0
    case Right => 1
    case Top => 2
    case Bottom => 3
  }

  /** The cells isBorderPixel looks at: left, right, top and bottom, each
      only when it lies inside the grid. */
  function Probes(lin: nat, col: nat, nLines: nat, nCols: nat): (ps: seq<Probe>)
    requires InGrid(lin, col, nLines, nCols)
    ensures forall i :: 0 <= i < |ps| ==>
      Beside(lin, col, ps[i]) && InGrid(ps[i].lin, ps[i].col, nLines, nCols)
    ensures forall i, j :: 0 <= i < j < |ps| ==> Rank(ps[i].side) < Rank(ps[j].side)
    ensures forall l: nat, c: nat :: InGrid(l, c, nLines, nCols) && FourNeighbours(lin, col, l, c) ==>
      exists i :: 0 <= i < |ps| && ps[i].lin == l && ps[i].col == c
  {
    var ps := (if col > 0 then [Probe(lin, col - 1, Left)] else []) +
      (if col + 1 < nCols then [Probe(lin, col + 1, Right)] else []) +
      (if lin > 0 then [Probe(lin - 1, col, Top)] else []) +
      (if lin + 1 < nLines then [Probe(lin + 1, col, Bottom)] else []);
    forall l: nat, c: nat | InGrid(l, c, nLines, nCols) && FourNeighbours(lin, col, l, c)
      ensures exists i :: 0 <= i < |ps| && ps[i].lin == l && ps[i].col == c
    {
      var p :| p in ps && p.lin == l && p.col == c;
    }
    ps
  }

  predicate Inside(s: Seg, p: Probe)
  {
    InGrid(p.lin, p.col, s.nLines, s.nCols)
  }

  /** The label of the probed cell. */
  function LabelAt(s: Seg, p: Probe): nat
    requires Shaped(s) && Inside(s, p)
  {
    s.labels[p.lin][p.col]
  }

  /** The first probe whose cell carries a label other than id. */
  function FirstOther(s: Seg, ps: seq<Probe>, id: nat): (r: Option<Probe>)
    requires Shaped(s) && forall i :: 0 <= i < |ps| ==> Inside(s, ps[i])
    ensures r.None? <==> forall i :: 0 <= i < |ps| ==> LabelAt(s, ps[i]) == id
    ensures r.Some? ==> exists i :: (0 <= i < |ps| && ps[i] == r.value && LabelAt(s, ps[i]) != id &&
      forall j :: 0 <= j < i ==> LabelAt(s, ps[j]) == id)
  {
    if ps == [] then None
    else if LabelAt(s, ps[0]) != id then Some(ps[0])
    else
      var r := FirstOther(s, ps[1..], id);
      assert forall i :: 0 < i < |ps| ==> ps[i] == ps[1..][i - 1];
      assert r.Some? ==> exists i :: (0 <= i < |ps| && ps[i] == r.value && LabelAt(s, ps[i]) != id &&
        forall j :: 0 <= j < i ==> LabelAt(s, ps[j]) == id)
      by {
        if r.Some? {
          var i :| 0 <= i < |ps| - 1 && ps[1..][i] == r.value && LabelAt(s, ps[1..][i]) != id &&
            forall j :: 0 <= j < i ==> LabelAt(s, ps[1..][j]) == id;
          assert ps[i + 1] == r.value;
        }
      }
      r
  }

  /** MultiSeg::isBorderPixel: the first neighbouring cell, in the order
      left, right, top, bottom, that belongs to another region; nothing
      when every neighbouring cell inside the grid shares the label id. */
  function IsBorderPixel(s: Seg, lin: nat, col: nat, id: nat): (r: Option<Probe>)
    requires Shaped(s) && InGrid(lin, col, s.nLines, s.nCols)
    ensures r.None? <==> forall l: nat, c: nat :: InGrid(l, c, s.nLines, s.nCols) && FourNeighbours(lin, col, l, c) ==> s.labels[l][c] == id
    ensures r.Some? ==> Inside(s, r.value) && Beside(lin, col, r.value) && LabelAt(s, r.value) != id
  {
    var ps := Probes(lin, col, s.nLines, s.nCols);
    var r := FirstOther(s, ps, id);
    assert r.Some? ==> FourNeighbours(lin, col, r.value.lin, r.value.col) by {
      if r.Some? {
        var i :| 0 <= i < |ps| && ps[i] == r.value && LabelAt(s, ps[i]) != id;
        assert Beside(lin, col, ps[i]);
      }
    }
    r
  }

  /** The probe is the first side, in isBorderPixel's order, whose cell
      carries another label: every side looked at before it agrees. */
  lemma BorderPixelFirst(s: Seg, lin: nat, col: nat, id: nat)
    requires Shaped(s) && InGrid(lin, col, s.nLines, s.nCols)
    requires IsBorderPixel(s, lin, col, id).Some?
    ensures var p := IsBorderPixel(s, lin, col, id).value;
      forall q :: q in Probes(lin, col, s.nLines, s.nCols) && Rank(q.side) < Rank(p.side) ==> LabelAt(s, q) == id
  {
    var ps := Probes(lin, col, s.nLines, s.nCols);
    var p := IsBorderPixel(s, lin, col, id).value;
    var i :| 0 <= i < |ps| && ps[i] == p && LabelAt(s, ps[i]) != id &&
      forall j :: 0 <= j < i ==> LabelAt(s, ps[j]) == id;
    forall q | q in ps && Rank(q.side) < Rank(p.side) ensures LabelAt(s, q) == id {
      var j :| 0 <= j < |ps| && ps[j] == q;
      assert j < i;
    }
  }

  // ---------------------------------------------------------------------
  // Deciding a border pair
  // ---------------------------------------------------------------------

  /** Where computeBorderDestiny sends the pair: to the first region (the
      one being scanned), to the second (the neighbour), or nowhere
      (std::string::npos). */
  datatype Destiny = ToFirst | ToSecond | Undecided

  /** MultiSeg::computeBorderDestiny for pixel A of region rA and pixel B
      of region rB. */
  function BorderDestiny(crit: Criterion, pixelA: seq<real>, rA: Region, pixelB: seq<real>, rB: Region): (d: Destiny)
    ensures d == ToFirst <==>
      crit.dissimilarity(pixelA, rA) < crit.dissimilarity(pixelA, rB) &&
      crit.dissimilarity(pixelB, rB) >= crit.dissimilarity(pixelB, rA)
    ensures d == ToSecond <==>
      crit.dissimilarity(pixelA, rA) > crit.dissimilarity(pixelA, rB) &&
      crit.dissimilarity(pixelB, rB) <= crit.dissimilarity(pixelB, rA)
  {
    var vAa := crit.dissimilarity(pixelA, rA);
    var vBa := crit.dissimilarity(pixelA, rB);
    var vBb := crit.dissimilarity(pixelB, rB);
    var vAb := crit.dissimilarity(pixelB, rA);
    if vAa < vBa && vBb >= vAb then ToFirst
    else if vAa > vBa && vBb <= vAb then ToSecond
    else Undecided
  }

  /** A region strictly closer to both pixels wins the pair, and a pair
      is left undecided when pixel A is equally close to both regions. */
  lemma DestinyOfCloser(crit: Criterion, pixelA: seq<real>, rA: Region, pixelB: seq<real>, rB: Region)
    ensures (crit.dissimilarity(pixelA, rA) < crit.dissimilarity(pixelA, rB) &&
      crit.dissimilarity(pixelB, rA) < crit.dissimilarity(pixelB, rB)) ==>
      BorderDestiny(crit, pixelA, rA, pixelB, rB) == ToFirst
    ensures (crit.dissimilarity(pixelA, rB) < crit.dissimilarity(pixelA, rA) &&
      crit.dissimilarity(pixelB, rB) < crit.dissimilarity(pixelB, rA)) ==>
      BorderDestiny(crit, pixelA, rA, pixelB, rB) == ToSecond
    ensures crit.dissimilarity(pixelA, rA) == crit.dissimilarity(pixelA, rB) ==>
      BorderDestiny(crit, pixelA, rA, pixelB, rB) == Undecided
  {
  }

  function Swapped(d: Destiny): Destiny
  {
    match d
    case ToFirst => ToSecond
    case ToSecond => ToFirst
    case Undecided => Undecided
  }

  /** Without ties the decision does not depend on which region is
      scanned: exchanging the roles of the two cells exchanges the
      outcome. (With ties it may: the two tests are not mirror images.) */
  lemma DestinySymmetric(crit: Criterion, pixelA: seq<real>, rA: Region, pixelB: seq<real>, rB: Region)
    requires crit.dissimilarity(pixelA, rA) != crit.dissimilarity(pixelA, rB)
    requires crit.dissimilarity(pixelB, rA) != crit.dissimilarity(pixelB, rB)
    ensures BorderDestiny(crit, pixelB, rB, pixelA, rA) == Swapped(BorderDestiny(crit, pixelA, rA, pixelB, rB))
  {
  }

  // ---------------------------------------------------------------------
  // Adjusting one cell
  // ---------------------------------------------------------------------

  /** The box update for a cell won on the given side: updateYStart for
      the top, updateYBound for the bottom, updateXStart for the left and
      updateXBound for the right. */
  function Extend(r: Region, p: Probe): (r': Region)
    ensures r' == r.(box := r'.box) && Encloses(r'.box, r.box)
    ensures forall l: nat, c: nat :: InBox(r.box, l, c) && Beside(l, c, p) ==> InBox(r'.box, p.lin, p.col)
  {
    match p.side
    case Top => UpdateYStart(r, p.lin)
    case Bottom => UpdateYBound(r, p.lin + 1)
    case Left => UpdateXStart(r, p.col)
    case Right => UpdateXBound(r, p.col + 1)
  }

  /** The state being adjusted and the set of cells already decided. */
  datatype Adjusting = Adjusting(seg: Seg, done: set<(nat, nat)>)

  /** Only boxes grow and neighbour lists gain entries; the statistics
      are left as they were. */
  predicate Grown(r: Region, r': Region)
  {
    r' == r.(box := r'.box, neighbours := r'.neighbours) && Encloses(r'.box, r.box) &&
    forall n :: n in r.neighbours ==> IsNeighbour(r', n)
  }

  /** What every step of the adjustment keeps: the state stays
      consistent with the same regions, which only grow; adjacency only
      grows; the decided set only grows; a cell changes label at most
      once, only when it was not yet decided, and then becomes decided;
      and the region it joins is adjacent to the one it left. */
  ghost predicate Adjusts(s: Seg, done: set<(nat, nat)>, s': Seg, done': set<(nat, nat)>)
  {
    Shaped(s) && Valid(s') &&
    s'.nLines == s.nLines && s'.nCols == s.nCols && s'.nBands == s.nBands &&
    s'.regions.Keys == s.regions.Keys && done <= done' &&
    (forall y :: y in s.regions ==> Grown(s.regions[y], s'.regions[y])) &&
    (forall y, z :: Adjacent(s.regions, y, z) ==> Adjacent(s'.regions, y, z)) &&
    (forall l, c :: 0 <= l < s.nLines && 0 <= c < s.nCols && s'.labels[l][c] != s.labels[l][c] ==>
      (l, c) in done' && (l, c) !in done && Adjacent(s'.regions, s'.labels[l][c], s.labels[l][c]))
  }

  lemma AdjustsNothing(s: Seg, done: set<(nat, nat)>)
    requires Valid(s)
    ensures Adjusts(s, done, s, done)
  {
  }

  lemma AdjustsCompose(s: Seg, d: set<(nat, nat)>, s1: Seg, d1: set<(nat, nat)>, s2: Seg, d2: set<(nat, nat)>)
    requires Adjusts(s, d, s1, d1) && Adjusts(s1, d1, s2, d2)
    ensures Adjusts(s, d, s2, d2)
  {
    forall l, c | 0 <= l < s.nLines && 0 <= c < s.nCols && s2.labels[l][c] != s.labels[l][c]
      ensures (l, c) in d2 && (l, c) !in d && Adjacent(s2.regions, s2.labels[l][c], s.labels[l][c])
    {
      if s1.labels[l][c] != s.labels[l][c] {
        assert (l, c) in d1;
        assert Adjacent(s1.regions, s1.labels[l][c], s.labels[l][c]);
      }
    }
  }

  /** The linking step: region x and the neighbour region n are made
      neighbours both ways unless x already lists n. */
  function Link(t: Table, x: nat, n: nat): (t': Table)
    requires x in t && n in t
  {
    if IsNeighbour(t[x], n) then t else LinkPair(t, x, n)
  }

  lemma LinkFacts(t: Table, x: nat, n: nat)
    requires Linked(t) && x in t && n in t && x != n
    ensures Linked(Link(t, x, n)) && SameRegions(t, Link(t, x, n)) && Link(t, x, n).Keys == t.Keys
    ensures forall y, z :: Adjacent(Link(t, x, n), y, z) <==> Adjacent(t, y, z) || (y == x && z == n) || (y == n && z == x)
    ensures forall y :: y in t ==> Grown(t[y], Link(t, x, n)[y])
  {
    var t' := Link(t, x, n);
    if !IsNeighbour(t[x], n) {
      LinkPairFacts(t, x, n);
    }
    forall y | y in t ensures Grown(t[y], t'[y]) {
      forall m | IsNeighbour(t[y], m) ensures IsNeighbour(t'[y], m) {
        assert Adjacent(t, y, m);
      }
    }
  }

  /** Linking two regions alone changes no label and keeps the
      segmentation valid. */
  lemma LinkAdjusts(s: Seg, x: nat, n: nat, done: set<(nat, nat)>, done': set<(nat, nat)>)
    requires Valid(s) && x in s.regions && n in s.regions && x != n && done <= done'
    ensures Adjusts(s, done, s.(regions := Link(s.regions, x, n)), done')
  {
    LinkFacts(s.regions, x, n);
  }

  /** The body of the scan of adjustRegionBorders for cell (lin, col) of
      region x. */
  function AdjustCell(s: Seg, image: Pixels, crit: Criterion, x: nat, lin: nat, col: nat, done: set<(nat, nat)>): (a: Adjusting)
    requires Valid(s) && x in s.regions && PixelsShaped(image, s.nLines, s.nCols, s.nBands)
    requires InGrid(lin, col, s.nLines, s.nCols)
    ensures Adjusts(s, done, a.seg, a.done)
    ensures forall l, c :: 0 <= l < s.nLines && 0 <= c < s.nCols && a.seg.labels[l][c] != s.labels[l][c] ==>
      FourNeighbours(lin, col, l, c) && a.seg.labels[l][c] == x && s.labels[lin][col] == x
    ensures (lin, col) in done || s.labels[lin][col] != x ==> a == Adjusting(s, done)
  {
    if (lin, col) in done || s.labels[lin][col] != x then Adjusting(s, done)
    else
      match IsBorderPixel(s, lin, col, x)
      case None =>
        AdjustsNothing(s, done);
        Adjusting(s, done)
      case Some(p) =>
        if (p.lin, p.col) in done then
          AdjustsNothing(s, done);
          Adjusting(s, done)
        else
          var n := LabelAt(s, p);
          var t := Link(s.regions, x, n);
          LinkFacts(s.regions, x, n);
          var decided := done + {(lin, col), (p.lin, p.col)};
          match CellDestiny(s, image, crit, x, lin, col, p)
          case Undecided =>
            LinkAdjusts(s, x, n, done, decided);
            Adjusting(s.(regions := t), decided)
          case ToSecond =>
            LinkAdjusts(s, x, n, done, done);
            Adjusting(s.(regions := t), done)
          case ToFirst =>
            var s' := Won(s, x, p, t);
            WonAdjusts(s, x, p, t, done, decided);
            Adjusting(s', decided)
  }

  /** What the cell step decides: nothing without a border neighbour or
      when that neighbour was decided before; otherwise the neighbour takes
      label x exactly when the destiny goes to x, no label changes in the
      other outcomes, and both cells count as decided unless the destiny
      goes to the neighbour. */
  lemma AdjustCellDestiny(s: Seg, image: Pixels, crit: Criterion, x: nat, lin: nat, col: nat, done: set<(nat, nat)>)
    requires Valid(s) && x in s.regions && PixelsShaped(image, s.nLines, s.nCols, s.nBands)
    requires InGrid(lin, col, s.nLines, s.nCols)
    ensures var a := AdjustCell(s, image, crit, x, lin, col, done);
      (lin, col) !in done && s.labels[lin][col] == x && IsBorderPixel(s, lin, col, x).None? ==> a == Adjusting(s, done)
    ensures var a := AdjustCell(s, image, crit, x, lin, col, done);
      (lin, col) !in done && s.labels[lin][col] == x && IsBorderPixel(s, lin, col, x).Some? ==>
      var p := IsBorderPixel(s, lin, col, x).value;
      var d := CellDestiny(s, image, crit, x, lin, col, p);
      ((p.lin, p.col) in done ==> a == Adjusting(s, done)) &&
      ((p.lin, p.col) !in done ==>
        (a.seg.labels[p.lin][p.col] == x <==> d == ToFirst) &&
        (d != ToFirst ==> a.seg.labels == s.labels) &&
        (d == ToSecond ==> a.done == done) &&
        (d != ToSecond ==> a.done == done + {(lin, col), (p.lin, p.col)}))
  {
    if (lin, col) !in done && s.labels[lin][col] == x && IsBorderPixel(s, lin, col, x).Some? {
      var p := IsBorderPixel(s, lin, col, x).value;
      if (p.lin, p.col) !in done && CellDestiny(s, image, crit, x, lin, col, p) == ToFirst {
        WonLabels(s, x, p, Link(s.regions, x, LabelAt(s, p)));
      }
    }
  }

  /** computeBorderDestiny for cell (lin, col) of x and the probed cell
      p, on the statistics of the two regions once they are linked. */
  function CellDestiny(s: Seg, image: Pixels, crit: Criterion, x: nat, lin: nat, col: nat, p: Probe): Destiny
    requires Valid(s) && x in s.regions && PixelsShaped(image, s.nLines, s.nCols, s.nBands)
    requires InGrid(lin, col, s.nLines, s.nCols) && Inside(s, p) && LabelAt(s, p) != x
  {
    var n := LabelAt(s, p);
    LinkFacts(s.regions, x, n);
    var t := Link(s.regions, x, n);
    BorderDestiny(crit, image[lin][col], t[x], image[p.lin][p.col], t[n])
  }

  /** The pair goes to x: the probed cell takes label x and x's box grows
      to cover it. */
  function Won(s: Seg, x: nat, p: Probe, t: Table): (s': Seg)
    requires Shaped(s) && Inside(s, p) && x in t
  {
    var row: seq<nat> := s.labels[p.lin][p.col := x];
    s.(regions := t[x := Extend(t[x], p)], labels := s.labels[p.lin := row])
  }

  /** Only the probed cell changes label, to x. */
  lemma WonLabels(s: Seg, x: nat, p: Probe, t: Table)
    requires Shaped(s) && Inside(s, p) && x in t
    ensures Shaped(Won(s, x, p, t))
    ensures forall l, c :: 0 <= l < s.nLines && 0 <= c < s.nCols ==>
      Won(s, x, p, t).labels[l][c] == if l == p.lin && c == p.col then x else s.labels[l][c]
  {
  }

  /** The table after the win: consistent, with the same ids, every
      region grown, and the box of x covering the won cell. */
  lemma WonTable(s: Seg, x: nat, p: Probe, t: Table, lin: nat, col: nat)
    requires Valid(s) && Inside(s, p) && x in s.regions
    requires InGrid(lin, col, s.nLines, s.nCols) && s.labels[lin][col] == x && Beside(lin, col, p)
    requires LabelAt(s, p) != x && t == Link(s.regions, x, LabelAt(s, p))
    ensures var t' := Won(s, x, p, t).regions;
      Linked(t') && t'.Keys == s.regions.Keys &&
      (forall y :: y in s.regions ==> Grown(s.regions[y], t'[y])) &&
      (forall y, z :: Adjacent(s.regions, y, z) ==> Adjacent(t', y, z)) &&
      Adjacent(t', x, LabelAt(s, p)) && InBox(t'[x].box, p.lin, p.col) &&
      t'[x].box.xBound <= s.nCols && t'[x].box.yBound <= s.nLines
  {
    var n := LabelAt(s, p);
    LinkFacts(s.regions, x, n);
    var r := Extend(t[x], p);
    ReplaceKeepsLinks(t, x, r);
    assert InBox(t[x].box, lin, col);
    assert t[x].box.xBound <= s.nCols && t[x].box.yBound <= s.nLines;
  }

  lemma WonAdjusts(s: Seg, x: nat, p: Probe, t: Table, done: set<(nat, nat)>, decided: set<(nat, nat)>)
    requires Valid(s) && Inside(s, p) && x in s.regions
    requires exists lin: nat, col: nat :: InGrid(lin, col, s.nLines, s.nCols) && s.labels[lin][col] == x && Beside(lin, col, p)
    requires LabelAt(s, p) != x && t == Link(s.regions, x, LabelAt(s, p))
    requires (p.lin, p.col) !in done && done <= decided && (p.lin, p.col) in decided
    ensures Adjusts(s, done, Won(s, x, p, t), decided)
    ensures forall l, c :: 0 <= l < s.nLines && 0 <= c < s.nCols && Won(s, x, p, t).labels[l][c] != s.labels[l][c] ==>
      l == p.lin && c == p.col && Won(s, x, p, t).labels[l][c] == x
  {
    var lin: nat, col: nat :| InGrid(lin, col, s.nLines, s.nCols) && s.labels[lin][col] == x && Beside(lin, col, p);
    WonLabels(s, x, p, t);
    WonTable(s, x, p, t, lin, col);
    WonLive(s, x, p, t, lin, col);
    WonFitted(s, x, p, t, lin, col);
  }

  /** After the win every cell still lies in the box of its region. */
  lemma WonLive(s: Seg, x: nat, p: Probe, t: Table, lin: nat, col: nat)
    requires Valid(s) && Inside(s, p) && x in s.regions
    requires InGrid(lin, col, s.nLines, s.nCols) && s.labels[lin][col] == x && Beside(lin, col, p)
    requires LabelAt(s, p) != x && t == Link(s.regions, x, LabelAt(s, p))
    ensures LabelsLive(Won(s, x, p, t))
  {
    var s' := Won(s, x, p, t);
    WonLabels(s, x, p, t);
    WonTable(s, x, p, t, lin, col);
    forall l, c | 0 <= l < s.nLines && 0 <= c < s.nCols
      ensures s'.labels[l][c] in s'.regions && InBox(s'.regions[s'.labels[l][c]].box, l, c)
    {
      if l != p.lin || c != p.col {
        var y := s.labels[l][c];
        assert InBox(s.regions[y].box, l, c);
        assert Grown(s.regions[y], s'.regions[y]);
      }
    }
  }

  /** After the win every box still fits the image. */
  lemma WonFitted(s: Seg, x: nat, p: Probe, t: Table, lin: nat, col: nat)
    requires Valid(s) && Inside(s, p) && x in s.regions
    requires InGrid(lin, col, s.nLines, s.nCols) && s.labels[lin][col] == x && Beside(lin, col, p)
    requires LabelAt(s, p) != x && t == Link(s.regions, x, LabelAt(s, p))
    ensures Fitted(Won(s, x, p, t))
  {
    var s' := Won(s, x, p, t);
    WonTable(s, x, p, t, lin, col);
    forall y | y in s'.regions
      ensures s'.regions[y].size >= 1 && NBands(s'.regions[y]) == s'.nBands &&
        s'.regions[y].box.xBound <= s'.nCols && s'.regions[y].box.yBound <= s'.nLines
    {
      assert Grown(s.regions[y], s'.regions[y]);
    }
  }

  // ---------------------------------------------------------------------
  // Scanning a region and all regions
  // ---------------------------------------------------------------------

  /** The scan of adjustRegionBorders(region, image, alreadyAdjusted) from
      cell (lin, col) on, row by row over `box`, the region's box as it
      was when the scan began. */
  function AdjustFrom(s: Seg, image: Pixels, crit: Criterion, x: nat, box: Box, lin: nat, col: nat, done: set<(nat, nat)>): (a: Adjusting)
    requires Valid(s) && x in s.regions && PixelsShaped(image, s.nLines, s.nCols, s.nBands)
    requires box.xBound <= s.nCols && box.yBound <= s.nLines
    ensures Adjusts(s, done, a.seg, a.done)
    decreases box.yBound - lin, box.xBound - col
  {
    if lin >= box.yBound then
      AdjustsNothing(s, done);
      Adjusting(s, done)
    else if col >= box.xBound then AdjustFrom(s, image, crit, x, box, lin + 1, box.xStart, done)
    else
      var a1 := AdjustCell(s, image, crit, x, lin, col, done);
      var a2 := AdjustFrom(a1.seg, image, crit, x, box, lin, col + 1, a1.done);
      AdjustsCompose(s, done, a1.seg, a1.done, a2.seg, a2.done);
      a2
  }

  /** MultiSeg::adjustRegionBorders(region, image, alreadyAdjusted). */
  function AdjustRegion(s: Seg, image: Pixels, crit: Criterion, x: nat, done: set<(nat, nat)>): (a: Adjusting)
    requires Valid(s) && x in s.regions && PixelsShaped(image, s.nLines, s.nCols, s.nBands)
    ensures Adjusts(s, done, a.seg, a.done)
  {
    var box := s.regions[x].box;
    AdjustFrom(s, image, crit, x, box, box.yStart, box.xStart, done)
  }

  /** The loop of adjustRegionBorders(image) over the regions in
      ascending id order, from position i of `order` on. */
  function AdjustAll(s: Seg, image: Pixels, crit: Criterion, order: seq<nat>, i: nat, done: set<(nat, nat)>): (a: Adjusting)
    requires Valid(s) && PixelsShaped(image, s.nLines, s.nCols, s.nBands)
    requires forall k :: 0 <= k < |order| ==> order[k] in s.regions
    ensures Adjusts(s, done, a.seg, a.done)
    decreases |order| - i
  {
    if i >= |order| then
      AdjustsNothing(s, done);
      Adjusting(s, done)
    else
      var a1 := AdjustRegion(s, image, crit, order[i], done);
      var a2 := AdjustAll(a1.seg, image, crit, order, i + 1, a1.done);
      AdjustsCompose(s, done, a1.seg, a1.done, a2.seg, a2.done);
      a2
  }

  /** MultiSeg::adjustRegionBorders(image): every region in ascending id
      order, sharing one set of decided cells that starts empty. The
      regions and their statistics stay, boxes and adjacency only grow,
      and each cell changes label at most once, into a region adjacent to
      the one it left. */
  function AdjustRegionBorders(s: Seg, image: Pixels, crit: Criterion): (s': Seg)
    requires Valid(s) && PixelsShaped(image, s.nLines, s.nCols, s.nBands)
    ensures Valid(s') && s'.regions.Keys == s.regions.Keys
    ensures s'.nLines == s.nLines && s'.nCols == s.nCols && s'.nBands == s.nBands
    ensures forall y :: y in s.regions ==> Grown(s.regions[y], s'.regions[y])
    ensures forall y, z :: Adjacent(s.regions, y, z) ==> Adjacent(s'.regions, y, z)
    ensures forall l, c :: 0 <= l < s.nLines && 0 <= c < s.nCols && s'.labels[l][c] != s.labels[l][c] ==>
      Adjacent(s'.regions, s'.labels[l][c], s.labels[l][c])
  {
    var order := SortedIds(s.regions.Keys);
    AdjustAll(s, image, crit, order, 0, {}).seg
  }
}
