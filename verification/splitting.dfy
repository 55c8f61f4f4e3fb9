/** The split step of MultiSeg: a heterogeneous region is dissolved into
    single-pixel regions with fresh, consecutive ids above every id in
    use, which are linked to the regions around them; the old region is
    then removed. During the split the cells of the region carry the mark
    std::string::npos (NoRegion). */
module Splitting {
  import opened Results
  import opened Regions
  import opened Adjacency
  import opened Segmentation
  import CVTables

  /** The cells whose label is one of ids. */
  ghost function CellsOf(s: Seg, ids: set<nat>): set<(nat, nat)>
    requires Shaped(s)
  {
    set l: nat, c: nat | l < s.nLines && c < s.nCols && s.labels[l][c] in ids :: (l, c)
  }

  /** The cells still carrying the split mark. */
  ghost function Marked(s: Seg): set<(nat, nat)>
    requires Shaped(s)
  {
    CellsOf(s, {NoRegion})
  }

  /** The largest id of a table, rbegin() of the std::map; 0 when empty. */
  function MaxId(ids: set<nat>): (m: nat)
    ensures forall y :: y in ids ==> y <= m
    ensures ids != {} ==> m in ids
  {
    if ids == {} then 0
    else
      var sorted := SortedIds(ids);
      assert forall i :: 0 <= i < |sorted| ==> sorted[i] <= sorted[|sorted| - 1];
      sorted[|sorted| - 1]
  }

  /** The ids handed out after `last` up to and including `last'`. */
  function Fresh(last: nat, last': nat): (ids: set<nat>)
    ensures forall y :: y in ids <==> last < y <= last'
    decreases last'
  {
    if last' <= last then {} else Fresh(last, last' - 1) + {last'}
  }

  // ---------------------------------------------------------------------
  // Invalidation
  // ---------------------------------------------------------------------

  /** MultiSeg::invalidateRegionPixels: the cells of x inside its box take
      the mark. Since every cell of x lies in its box, that is every cell
      of x; no other cell changes. */
  function InvalidateRegionPixels(s: Seg, x: nat): (labels: seq<seq<nat>>)
    requires Valid(s) && x in s.regions && NoRegion !in s.regions
    ensures |labels| == s.nLines && forall l :: 0 <= l < s.nLines ==> |labels[l]| == s.nCols
    ensures forall l, c :: 0 <= l < s.nLines && 0 <= c < s.nCols ==>
      labels[l][c] == if s.labels[l][c] == x then NoRegion else s.labels[l][c]
  {
    var labels := Relabel(s.labels, s.regions[x].box, x, NoRegion);
    assert forall l, c :: 0 <= l < s.nLines && 0 <= c < s.nCols && s.labels[l][c] == x ==>
      InBox(s.regions[x].box, l, c);
    labels
  }

  /** The state the scan of x's box starts from. */
  function Invalidated(s: Seg, x: nat): (s1: Seg)
    requires Valid(s) && x in s.regions && NoRegion !in s.regions
    ensures Shaped(s1) && s1.nLines == s.nLines && s1.nCols == s.nCols && s1.nBands == s.nBands
    ensures s1.regions == s.regions
  {
    s.(labels := InvalidateRegionPixels(s, x))
  }

  // ---------------------------------------------------------------------
  // Creating the single-pixel regions
  // ---------------------------------------------------------------------

  /** The state of a split and the last id handed out. */
  datatype Split = Split(seg: Seg, lastId: nat)

  /** The cells splitRegion links a new region with, in its order: above,
      left, below, right, each only inside the grid. */
  function Around(lin: nat, col: nat, nLines: nat, nCols: nat): (cells: seq<(nat, nat)>)
    requires InGrid(lin, col, nLines, nCols)
    ensures forall k :: 0 <= k < |cells| ==>
      InGrid(cells[k].0, cells[k].1, nLines, nCols) && FourNeighbours(lin, col, cells[k].0, cells[k].1)
    ensures forall l: nat, c: nat :: InGrid(l, c, nLines, nCols) && FourNeighbours(lin, col, l, c) ==> (l, c) in cells
  {
    (if lin > 0 then [(lin - 1, col)] else []) +
    (if col > 0 then [(lin, col - 1)] else []) +
    (if lin + 1 < nLines then [(lin + 1, col)] else []) +
    (if col + 1 < nCols then [(lin, col + 1)] else [])
  }

  predicate CellsInGrid(labels: seq<seq<nat>>, cells: seq<(nat, nat)>)
  {
    forall k :: 0 <= k < |cells| ==> cells[k].0 < |labels| && cells[k].1 < |labels[cells[k].0]|
  }

  /** The links of a new region id: for each listed cell whose label is
      not the mark, both regions add each other. */
  function LinkAround(t: Table, id: nat, labels: seq<seq<nat>>, cells: seq<(nat, nat)>, i: nat): (t': Table)
    requires LinkReady(t, id, labels, cells)
    ensures t'.Keys == t.Keys
    decreases |cells| - i
  {
    if i >= |cells| then t
    else
      var y := labels[cells[i].0][cells[i].1];
      var t1 := if y != NoRegion then LinkPair(t, id, y) else t;
      LinkAround(t1, id, labels, cells, i + 1)
  }

  /** What linking the cells around id needs: the cells lie in the grid
      and each unmarked one carries a live region other than id. */
  predicate LinkReady(t: Table, id: nat, labels: seq<seq<nat>>, cells: seq<(nat, nat)>)
  {
    id in t && CellsInGrid(labels, cells) &&
    forall k :: 0 <= k < |cells| && labels[cells[k].0][cells[k].1] != NoRegion ==>
      labels[cells[k].0][cells[k].1] in t && labels[cells[k].0][cells[k].1] != id
  }

  /** The cells around a cell given the fresh id are ready to be linked. */
  lemma AroundReady(s: Seg, t: Table, id: nat, lin: nat, col: nat)
    requires Shaped(s) && InGrid(lin, col, s.nLines, s.nCols)
    requires forall y :: y in s.regions ==> y < id
    requires forall l, c :: 0 <= l < s.nLines && 0 <= c < s.nCols && s.labels[l][c] != NoRegion ==> s.labels[l][c] in s.regions
    requires s.regions.Keys <= t.Keys && id in t
    ensures var row: seq<nat> := s.labels[lin][col := id];
      LinkReady(t, id, s.labels[lin := row], Around(lin, col, s.nLines, s.nCols))
  {
    var row: seq<nat> := s.labels[lin][col := id];
    var labels := s.labels[lin := row];
    var cells := Around(lin, col, s.nLines, s.nCols);
    forall k | 0 <= k < |cells|
      ensures cells[k].0 < |labels| && cells[k].1 < |labels[cells[k].0]|
      ensures labels[cells[k].0][cells[k].1] != NoRegion ==>
        labels[cells[k].0][cells[k].1] in t && labels[cells[k].0][cells[k].1] != id
    {
      var (l, c) := cells[k];
      assert (l, c) != (lin, col);
      assert labels[l][c] == s.labels[l][c];
    }
  }

  /** The links keep the table consistent; every listed unmarked cell's
      region ends up adjacent to id, and no other pair becomes adjacent. */
  lemma {:induction false} LinkAroundFacts(t: Table, id: nat, labels: seq<seq<nat>>, cells: seq<(nat, nat)>, i: nat)
    requires LinkReady(t, id, labels, cells) && Linked(t)
    ensures Linked(LinkAround(t, id, labels, cells, i)) && SameRegions(t, LinkAround(t, id, labels, cells, i))
    ensures forall y, z :: Adjacent(t, y, z) ==> Adjacent(LinkAround(t, id, labels, cells, i), y, z)
    ensures forall k :: i <= k < |cells| && labels[cells[k].0][cells[k].1] != NoRegion ==>
      Adjacent(LinkAround(t, id, labels, cells, i), id, labels[cells[k].0][cells[k].1])
    ensures forall y, z :: Adjacent(LinkAround(t, id, labels, cells, i), y, z) && !Adjacent(t, y, z) ==> y == id || z == id
    decreases |cells| - i
  {
    if i < |cells| {
      var y := labels[cells[i].0][cells[i].1];
      var t1 := if y != NoRegion then LinkPair(t, id, y) else t;
      if y != NoRegion {
        LinkPairFacts(t, id, y);
      }
      LinkAroundFacts(t1, id, labels, cells, i + 1);
    }
  }

  /** Region y was created by the split: a NewRegion for its single cell,
      which carries y, up to its neighbour list. */
  ghost predicate SinglePixel(image: Pixels, s: Seg, y: nat)
    requires Shaped(s) && y in s.regions
  {
    var r := s.regions[y];
    var l, c := r.box.yStart, r.box.xStart;
    InGrid(l, c, s.nLines, s.nCols) && s.labels[l][c] == y && l < |image| && c < |image[l]| &&
    r == NewRegion(y, image[l][c], l, c).(neighbours := r.neighbours)
  }

  /** Cell (l, c) comes at or after (lin, col) in row-major order. */
  predicate Ahead(lin: nat, col: nat, l: nat, c: nat)
  {
    l > lin || (l == lin && c >= col)
  }

  /** The table side of the scan's invariant: the table is consistent,
      x is still live, every id is at most lastId, and the ids still to
      hand out stay below the mark. */
  ghost predicate TableOk(s: Seg, x: nat, lastId: nat)
  {
    Shaped(s) && Linked(s.regions) && Fitted(s) && x in s.regions &&
    (forall y :: y in s.regions ==> y <= lastId) &&
    lastId + |Marked(s)| < NoRegion
  }

  /** A marked cell is a cell of the box not yet visited; any other cell
      carries a live region other than x whose box holds it. */
  ghost predicate CellOk(s: Seg, x: nat, box: Box, lin: nat, col: nat, l: nat, c: nat)
    requires Shaped(s) && l < s.nLines && c < s.nCols
  {
    if s.labels[l][c] == NoRegion then InBox(box, l, c) && Ahead(lin, col, l, c)
    else s.labels[l][c] in s.regions && s.labels[l][c] != x && InBox(s.regions[s.labels[l][c]].box, l, c)
  }

  /** What holds at every step of the scan over x's box. */
  ghost predicate Scanning(s: Seg, x: nat, box: Box, lin: nat, col: nat, lastId: nat)
  {
    TableOk(s, x, lastId) && box.xBound <= s.nCols && box.yBound <= s.nLines &&
    forall l, c :: 0 <= l < s.nLines && 0 <= c < s.nCols ==> CellOk(s, x, box, lin, col, l, c)
  }

  /** The unmarked cells of a scan carry live regions other than x. */
  lemma ScanningLive(s: Seg, x: nat, box: Box, lin: nat, col: nat, lastId: nat)
    requires Scanning(s, x, box, lin, col, lastId)
    ensures forall l, c :: 0 <= l < s.nLines && 0 <= c < s.nCols && s.labels[l][c] != NoRegion ==>
      s.labels[l][c] in s.regions && s.labels[l][c] != x && InBox(s.regions[s.labels[l][c]].box, l, c)
  {
    forall l, c | 0 <= l < s.nLines && 0 <= c < s.nCols && s.labels[l][c] != NoRegion
      ensures s.labels[l][c] in s.regions && s.labels[l][c] != x && InBox(s.regions[s.labels[l][c]].box, l, c)
    {
      assert CellOk(s, x, box, lin, col, l, c);
    }
  }

  /** Past the end of a row the scan goes on at the start of the next. */
  lemma NextRow(s: Seg, x: nat, box: Box, lin: nat, col: nat, lastId: nat)
    requires Scanning(s, x, box, lin, col, lastId) && col >= box.xBound
    ensures Scanning(s, x, box, lin + 1, box.xStart, lastId)
  {
    var lin', col' := lin + 1, box.xStart;
    forall l, c | 0 <= l < s.nLines && 0 <= c < s.nCols ensures CellOk(s, x, box, lin', col', l, c) {
      assert CellOk(s, x, box, lin, col, l, c);
    }
  }

  /** A cell that is not marked is passed over. */
  lemma SkipCell(s: Seg, x: nat, box: Box, lin: nat, col: nat, lastId: nat)
    requires Scanning(s, x, box, lin, col, lastId) && lin < s.nLines && col < s.nCols && s.labels[lin][col] != NoRegion
    ensures Scanning(s, x, box, lin, col + 1, lastId)
  {
    var col' := col + 1;
    forall l, c | 0 <= l < s.nLines && 0 <= c < s.nCols ensures CellOk(s, x, box, lin, col', l, c) {
      assert CellOk(s, x, box, lin, col, l, c);
    }
  }

  /** Past the last row of the box no cell is marked. */
  lemma ScanDone(s: Seg, x: nat, box: Box, lin: nat, col: nat, lastId: nat)
    requires Scanning(s, x, box, lin, col, lastId) && lin >= box.yBound
    ensures forall l, c :: 0 <= l < s.nLines && 0 <= c < s.nCols ==> s.labels[l][c] != NoRegion
    ensures Marked(s) == {}
  {
    assert forall p :: p in Marked(s) ==> p.0 < s.nLines && p.1 < s.nCols && s.labels[p.0][p.1] == NoRegion;
    forall l, c | 0 <= l < s.nLines && 0 <= c < s.nCols ensures s.labels[l][c] != NoRegion {
      assert CellOk(s, x, box, lin, col, l, c);
    }
  }

  /** The old regions stay, changing only their neighbour lists. */
  ghost predicate KeepsOld(s: Seg, s': Seg)
  {
    forall y :: y in s.regions ==> y in s'.regions && s'.regions[y] == s.regions[y].(neighbours := s'.regions[y].neighbours)
  }

  ghost predicate NewSingles(image: Pixels, s: Seg, s': Seg)
    requires Shaped(s')
  {
    forall y :: y in s'.regions && y !in s.regions ==> SinglePixel(image, s', y)
  }

  ghost predicate AdjacencyGrows(s: Seg, s': Seg)
  {
    forall y, z :: Adjacent(s.regions, y, z) ==> Adjacent(s'.regions, y, z)
  }

  /** Only marked cells change label, and they take an id that was not
      live before. */
  ghost predicate MarkedChange(s: Seg, s': Seg)
    requires Shaped(s) && Shaped(s') && s'.nLines == s.nLines && s'.nCols == s.nCols
  {
    forall l, c :: 0 <= l < s.nLines && 0 <= c < s.nCols && s'.labels[l][c] != s.labels[l][c] ==>
      s.labels[l][c] == NoRegion && s'.labels[l][c] !in s.regions
  }

  /** One stretch of the scan: ids after `last` up to `last'` are added
      as single-pixel regions; the old regions change only their
      neighbour lists, and adjacency only grows; only marked cells
      change, and they take a new id; every id handed out used up one
      marked cell. */
  ghost predicate Extends(image: Pixels, s: Seg, last: nat, s': Seg, last': nat)
  {
    Shaped(s) && Shaped(s') && last' < NoRegion &&
    s'.nLines == s.nLines && s'.nCols == s.nCols && s'.nBands == s.nBands && last <= last' &&
    s'.regions.Keys == s.regions.Keys + Fresh(last, last') &&
    KeepsOld(s, s') && NewSingles(image, s, s') && AdjacencyGrows(s, s') && MarkedChange(s, s') &&
    last' + |Marked(s')| == last + |Marked(s)|
  }

  lemma ExtendsNothing(image: Pixels, s: Seg, last: nat)
    requires Shaped(s) && last < NoRegion
    ensures Extends(image, s, last, s, last)
  {
    assert s.regions.Keys + Fresh(last, last) == s.regions.Keys;
  }

  lemma NewSinglesCompose(image: Pixels, s: Seg, s1: Seg, s2: Seg)
    requires Shaped(s1) && Shaped(s2) && s2.nLines == s1.nLines && s2.nCols == s1.nCols
    requires NewSingles(image, s, s1) && NewSingles(image, s1, s2) && KeepsOld(s1, s2) && MarkedChange(s1, s2)
    requires NoRegion !in s1.regions
    ensures NewSingles(image, s, s2)
  {
    forall y | y in s2.regions && y !in s.regions ensures SinglePixel(image, s2, y) {
      if y in s1.regions {
        var l, c := s1.regions[y].box.yStart, s1.regions[y].box.xStart;
        assert SinglePixel(image, s1, y);
        assert s1.labels[l][c] == y;
        assert s2.labels[l][c] == y;
      }
    }
  }

  lemma MarkedChangeCompose(s: Seg, s1: Seg, s2: Seg)
    requires Shaped(s) && Shaped(s1) && Shaped(s2)
    requires s1.nLines == s.nLines && s1.nCols == s.nCols && s2.nLines == s.nLines && s2.nCols == s.nCols
    requires MarkedChange(s, s1) && MarkedChange(s1, s2) && s.regions.Keys <= s1.regions.Keys
    ensures MarkedChange(s, s2)
  {
    forall l, c | 0 <= l < s.nLines && 0 <= c < s.nCols && s2.labels[l][c] != s.labels[l][c]
      ensures s.labels[l][c] == NoRegion && s2.labels[l][c] !in s.regions
    {
      if s1.labels[l][c] != s.labels[l][c] {
        assert s2.labels[l][c] == s1.labels[l][c];
      }
    }
  }

  lemma ExtendsCompose(image: Pixels, s: Seg, a: nat, s1: Seg, b: nat, s2: Seg, c: nat)
    requires Extends(image, s, a, s1, b) && Extends(image, s1, b, s2, c)
    requires forall y :: y in s.regions ==> y <= a
    ensures Extends(image, s, a, s2, c)
  {
    ComposeKeys(s.regions.Keys, s1.regions.Keys, s2.regions.Keys, a, b, c);
    NewSinglesCompose(image, s, s1, s2);
    MarkedChangeCompose(s, s1, s2);
    KeepsOldCompose(s, s1, s2);
    AdjacencyGrowsCompose(s, s1, s2);
  }

  /** Two stretches hand out the ids of one, none of them the mark. */
  lemma ComposeKeys(ids: set<nat>, ids1: set<nat>, ids2: set<nat>, a: nat, b: nat, c: nat)
    requires a <= b <= c < NoRegion && forall y :: y in ids ==> y <= a
    requires ids1 == ids + Fresh(a, b) && ids2 == ids1 + Fresh(b, c)
    ensures ids2 == ids + Fresh(a, c) && NoRegion !in ids1
  {
    assert Fresh(a, b) + Fresh(b, c) == Fresh(a, c);
  }

  lemma KeepsOldCompose(s: Seg, s1: Seg, s2: Seg)
    requires KeepsOld(s, s1) && KeepsOld(s1, s2)
    ensures KeepsOld(s, s2)
  {
  }

  lemma AdjacencyGrowsCompose(s: Seg, s1: Seg, s2: Seg)
    requires AdjacencyGrows(s, s1) && AdjacencyGrows(s1, s2)
    ensures AdjacencyGrows(s, s2)
  {
  }

  /** Adding a fresh region without neighbours keeps the table consistent. */
  lemma AddFreshLinked(t: Table, id: nat, r: Region)
    requires Linked(t) && id !in t && r.id == id && r.neighbours == []
    ensures Linked(t[id := r]) && forall y, z :: Adjacent(t[id := r], y, z) <==> Adjacent(t, y, z)
  {
    var t' := t[id := r];
    forall y, z ensures Adjacent(t', y, z) <==> Adjacent(t, y, z) {
      if y == id {
        assert !Adjacent(t, y, z);
      }
    }
  }

  /** The body of splitRegion's scan for cell (lin, col): a marked cell
      becomes the single-pixel region lastId + 1, linked to the regions
      of the cells around it that are not marked. */
  function SplitCell(s: Seg, image: Pixels, lin: nat, col: nat, lastId: nat): (r: Split)
    requires Shaped(s) && PixelsShaped(image, s.nLines, s.nCols, s.nBands) && InGrid(lin, col, s.nLines, s.nCols)
    requires forall y :: y in s.regions ==> y <= lastId
    requires forall l, c :: 0 <= l < s.nLines && 0 <= c < s.nCols && s.labels[l][c] != NoRegion ==> s.labels[l][c] in s.regions
  {
    if s.labels[lin][col] != NoRegion then Split(s, lastId)
    else
      var id := lastId + 1;
      var t := s.regions[id := NewRegion(id, image[lin][col], lin, col)];
      var row: seq<nat> := s.labels[lin][col := id];
      var labels := s.labels[lin := row];
      var cells := Around(lin, col, s.nLines, s.nCols);
      AroundReady(s, t, id, lin, col);
      Split(s.(regions := LinkAround(t, id, labels, cells, 0), labels := labels), id)
  }

  lemma SplitCellMarked(s: Seg, lin: nat, col: nat, id: nat)
    requires Shaped(s) && InGrid(lin, col, s.nLines, s.nCols) && s.labels[lin][col] == NoRegion && id != NoRegion
    ensures var row: seq<nat> := s.labels[lin][col := id];
      Marked(s.(labels := s.labels[lin := row])) == Marked(s) - {(lin, col)} &&
      |Marked(s.(labels := s.labels[lin := row]))| == |Marked(s)| - 1
  {
    var row: seq<nat> := s.labels[lin][col := id];
    var s' := s.(labels := s.labels[lin := row]);
    assert Marked(s') == Marked(s) - {(lin, col)};
    assert (lin, col) in Marked(s);
  }

  /** What SplitCell makes of a marked cell: a new region id = lastId + 1
      for it, the old regions untouched but for their neighbour lists,
      adjacency only grown, and one mark fewer. */
  lemma SplitCellFacts(s: Seg, image: Pixels, lin: nat, col: nat, lastId: nat)
    requires Shaped(s) && PixelsShaped(image, s.nLines, s.nCols, s.nBands) && InGrid(lin, col, s.nLines, s.nCols)
    requires forall y :: y in s.regions ==> y <= lastId
    requires forall l, c :: 0 <= l < s.nLines && 0 <= c < s.nCols && s.labels[l][c] != NoRegion ==> s.labels[l][c] in s.regions
    requires Linked(s.regions) && s.labels[lin][col] == NoRegion && lastId + 1 < NoRegion
    ensures var r := SplitCell(s, image, lin, col, lastId);
      r.lastId == lastId + 1 && r.seg.nLines == s.nLines && r.seg.nCols == s.nCols && r.seg.nBands == s.nBands &&
      Shaped(r.seg) && r.seg.regions.Keys == s.regions.Keys + {lastId + 1} && Linked(r.seg.regions) &&
      KeepsOld(s, r.seg) && AdjacencyGrows(s, r.seg) &&
      r.seg.regions[lastId + 1] == NewRegion(lastId + 1, image[lin][col], lin, col).(neighbours := r.seg.regions[lastId + 1].neighbours) &&
      r.seg.labels[lin][col] == lastId + 1 &&
      (forall l, c :: 0 <= l < s.nLines && 0 <= c < s.nCols && (l != lin || c != col) ==> r.seg.labels[l][c] == s.labels[l][c]) &&
      Marked(r.seg) == Marked(s) - {(lin, col)} && |Marked(r.seg)| == |Marked(s)| - 1
  {
    SplitCellGrid(s, image, lin, col, lastId);
    SplitCellTable(s, image, lin, col, lastId);
  }

  /** The labels after a split cell: only the cell changes, to the new id. */
  lemma SplitCellGrid(s: Seg, image: Pixels, lin: nat, col: nat, lastId: nat)
    requires Shaped(s) && PixelsShaped(image, s.nLines, s.nCols, s.nBands) && InGrid(lin, col, s.nLines, s.nCols)
    requires forall y :: y in s.regions ==> y <= lastId
    requires forall l, c :: 0 <= l < s.nLines && 0 <= c < s.nCols && s.labels[l][c] != NoRegion ==> s.labels[l][c] in s.regions
    requires s.labels[lin][col] == NoRegion && lastId + 1 < NoRegion
    ensures var r := SplitCell(s, image, lin, col, lastId);
      r.lastId == lastId + 1 && r.seg.nLines == s.nLines && r.seg.nCols == s.nCols && r.seg.nBands == s.nBands &&
      Shaped(r.seg) && r.seg.labels[lin][col] == lastId + 1 &&
      (forall l, c :: 0 <= l < s.nLines && 0 <= c < s.nCols && (l != lin || c != col) ==> r.seg.labels[l][c] == s.labels[l][c]) &&
      Marked(r.seg) == Marked(s) - {(lin, col)} && |Marked(r.seg)| == |Marked(s)| - 1
  {
    SplitCellMarked(s, lin, col, lastId + 1);
  }

  /** The table after a split cell: the new single-pixel region joins,
      linked to its neighbours, and the old regions keep all but their
      neighbour lists. */
  lemma SplitCellTable(s: Seg, image: Pixels, lin: nat, col: nat, lastId: nat)
    requires Shaped(s) && PixelsShaped(image, s.nLines, s.nCols, s.nBands) && InGrid(lin, col, s.nLines, s.nCols)
    requires forall y :: y in s.regions ==> y <= lastId
    requires forall l, c :: 0 <= l < s.nLines && 0 <= c < s.nCols && s.labels[l][c] != NoRegion ==> s.labels[l][c] in s.regions
    requires Linked(s.regions) && s.labels[lin][col] == NoRegion && lastId + 1 < NoRegion
    ensures var r := SplitCell(s, image, lin, col, lastId);
      r.seg.regions.Keys == s.regions.Keys + {lastId + 1} && Linked(r.seg.regions) &&
      KeepsOld(s, r.seg) && AdjacencyGrows(s, r.seg) &&
      r.seg.regions[lastId + 1] == NewRegion(lastId + 1, image[lin][col], lin, col).(neighbours := r.seg.regions[lastId + 1].neighbours)
  {
    var id := lastId + 1;
    var nr := NewRegion(id, image[lin][col], lin, col);
    var t := s.regions[id := nr];
    var row: seq<nat> := s.labels[lin][col := id];
    var labels := s.labels[lin := row];
    var cells := Around(lin, col, s.nLines, s.nCols);
    AroundReady(s, t, id, lin, col);
    AddFreshLinked(s.regions, id, nr);
    LinkAroundFacts(t, id, labels, cells, 0);
  }

  /** A split cell extends the split by one id. */
  lemma SplitCellExtends(s: Seg, image: Pixels, x: nat, box: Box, lin: nat, col: nat, lastId: nat)
    requires Scanning(s, x, box, lin, col, lastId) && PixelsShaped(image, s.nLines, s.nCols, s.nBands)
    requires InGrid(lin, col, s.nLines, s.nCols) && s.labels[lin][col] == NoRegion
    requires forall l, c :: 0 <= l < s.nLines && 0 <= c < s.nCols && s.labels[l][c] != NoRegion ==> s.labels[l][c] in s.regions
    ensures lastId + 1 < NoRegion
    ensures var r := SplitCell(s, image, lin, col, lastId); Extends(image, s, lastId, r.seg, r.lastId)
  {
    assert (lin, col) in Marked(s);
    var r := SplitCell(s, image, lin, col, lastId);
    var id := lastId + 1;
    SplitCellFacts(s, image, lin, col, lastId);
    assert Fresh(lastId, id) == {id};
    assert SinglePixel(image, r.seg, id);
    assert NewSingles(image, s, r.seg);
  }

  /** After a split cell the scan goes on at the next cell. */
  lemma SplitCellScans(s: Seg, image: Pixels, x: nat, box: Box, lin: nat, col: nat, lastId: nat)
    requires Scanning(s, x, box, lin, col, lastId) && PixelsShaped(image, s.nLines, s.nCols, s.nBands)
    requires InGrid(lin, col, s.nLines, s.nCols) && s.labels[lin][col] == NoRegion
    requires forall l, c :: 0 <= l < s.nLines && 0 <= c < s.nCols && s.labels[l][c] != NoRegion ==> s.labels[l][c] in s.regions
    ensures var r := SplitCell(s, image, lin, col, lastId); Scanning(r.seg, x, box, lin, col + 1, r.lastId)
  {
    assert (lin, col) in Marked(s);
    var r := SplitCell(s, image, lin, col, lastId);
    var s' := r.seg;
    var id := lastId + 1;
    SplitCellFacts(s, image, lin, col, lastId);
    forall y | y in s'.regions ensures s'.regions[y].size >= 1 && NBands(s'.regions[y]) == s'.nBands &&
      s'.regions[y].box.xBound <= s'.nCols && s'.regions[y].box.yBound <= s'.nLines
    {
      if y != id {
        assert s'.regions[y] == s.regions[y].(neighbours := s'.regions[y].neighbours);
      }
    }
    assert TableOk(s', x, id);
    var next := col + 1;
    forall l, c | 0 <= l < s.nLines && 0 <= c < s.nCols
      ensures CellOk(s', x, box, lin, next, l, c)
    {
      assert CellOk(s, x, box, lin, col, l, c);
      if l != lin || c != col {
        assert s'.labels[l][c] == s.labels[l][c];
        if s.labels[l][c] != NoRegion {
          var y := s.labels[l][c];
          assert s'.regions[y] == s.regions[y].(neighbours := s'.regions[y].neighbours);
        }
      }
    }
  }

  lemma SplitCellKeeps(s: Seg, image: Pixels, x: nat, box: Box, lin: nat, col: nat, lastId: nat)
    requires Scanning(s, x, box, lin, col, lastId) && PixelsShaped(image, s.nLines, s.nCols, s.nBands)
    requires InGrid(lin, col, s.nLines, s.nCols)
    requires forall l, c :: 0 <= l < s.nLines && 0 <= c < s.nCols && s.labels[l][c] != NoRegion ==> s.labels[l][c] in s.regions
    ensures var r := SplitCell(s, image, lin, col, lastId);
      Scanning(r.seg, x, box, lin, col + 1, r.lastId) && Extends(image, s, lastId, r.seg, r.lastId)
  {
    if s.labels[lin][col] != NoRegion {
      ExtendsNothing(image, s, lastId);
      SkipCell(s, x, box, lin, col, lastId);
    } else {
      SplitCellExtends(s, image, x, box, lin, col, lastId);
      SplitCellScans(s, image, x, box, lin, col, lastId);
    }
  }

  /** splitRegion's scan over box from (lin, col) on, row by row. */
  function SplitFrom(s: Seg, image: Pixels, x: nat, box: Box, lin: nat, col: nat, lastId: nat): (r: Split)
    requires Scanning(s, x, box, lin, col, lastId) && PixelsShaped(image, s.nLines, s.nCols, s.nBands)
    ensures Extends(image, s, lastId, r.seg, r.lastId)
    ensures Shaped(r.seg) && Linked(r.seg.regions) && Fitted(r.seg) && x in r.seg.regions
    ensures forall y :: y in r.seg.regions ==> y <= r.lastId
    ensures forall l, c :: 0 <= l < s.nLines && 0 <= c < s.nCols ==>
      r.seg.labels[l][c] in r.seg.regions && r.seg.labels[l][c] != x &&
      InBox(r.seg.regions[r.seg.labels[l][c]].box, l, c)
    ensures Marked(r.seg) == {}
    decreases box.yBound - lin, box.xBound - col
  {
    if lin >= box.yBound then
      ExtendsNothing(image, s, lastId);
      ScanDone(s, x, box, lin, col, lastId);
      ScanningLive(s, x, box, lin, col, lastId);
      Split(s, lastId)
    else if col >= box.xBound then
      NextRow(s, x, box, lin, col, lastId);
      SplitFrom(s, image, x, box, lin + 1, box.xStart, lastId)
    else
      ScanningLive(s, x, box, lin, col, lastId);
      SplitCellKeeps(s, image, x, box, lin, col, lastId);
      var r1 := SplitCell(s, image, lin, col, lastId);
      var r2 := SplitFrom(r1.seg, image, x, box, lin, col + 1, r1.lastId);
      ExtendsCompose(image, s, lastId, r1.seg, r1.lastId, r2.seg, r2.lastId);
      r2
  }

  // ---------------------------------------------------------------------
  // Splitting one region
  // ---------------------------------------------------------------------

  /** The statistics of a region: everything but its neighbour list, which
      is all the homogeneity tests of the mergers read. */
  function Statistics(r: Region): (st: Region)
    ensures st.neighbours == [] && st.(neighbours := r.neighbours) == r
  {
    r.(neighbours := [])
  }

  /** Invalidating x starts the scan of its box: the marked cells are
      exactly x's cells, and every id lies below the mark. */
  lemma SplitStart(s: Seg, x: nat)
    requires Valid(s) && x in s.regions && MaxId(s.regions.Keys) + |CellsOf(s, {x})| < NoRegion
    ensures NoRegion !in s.regions
    ensures var s1 := Invalidated(s, x); var box := s.regions[x].box;
      Marked(s1) == CellsOf(s, {x}) && Scanning(s1, x, box, box.yStart, box.xStart, MaxId(s.regions.Keys))
  {
    var s1 := Invalidated(s, x);
    var box := s.regions[x].box;
    MarkedAfterInvalidate(s, x);
    forall l, c | 0 <= l < s.nLines && 0 <= c < s.nCols ensures CellOk(s1, x, box, box.yStart, box.xStart, l, c) {
      assert InBox(s.regions[s.labels[l][c]].box, l, c);
    }
  }

  /** The mark lands exactly on x's cells. */
  lemma MarkedAfterInvalidate(s: Seg, x: nat)
    requires Valid(s) && x in s.regions && NoRegion !in s.regions
    ensures Marked(Invalidated(s, x)) == CellsOf(s, {x})
  {
    var s1 := Invalidated(s, x);
    assert Shaped(s) && Shaped(s1);
    forall p | p in Marked(s1) ensures p in CellsOf(s, {x}) {
      var (l, c) := p;
      assert s1.labels[l][c] == NoRegion;
      assert s.labels[l][c] in s.regions;
    }
    forall p | p in CellsOf(s, {x}) ensures p in Marked(s1) {
      var (l, c) := p;
      assert s1.labels[l][c] == NoRegion;
    }
  }

  /** MultiSeg::splitRegion: the cells of x become single-pixel regions
      numbered on from the largest id in use, in row-major order of x's
      box, each linked to the unmarked regions around it; then x is
      removed without linking its neighbours to each other. */
  function SplitRegion(s: Seg, image: Pixels, x: nat): (r: Split)
    requires Valid(s) && x in s.regions && PixelsShaped(image, s.nLines, s.nCols, s.nBands)
    requires MaxId(s.regions.Keys) + |CellsOf(s, {x})| < NoRegion
    ensures SplitOutcome(s, image, x, r)
  {
    var r := ScanBox(s, image, x);
    SplitRegionEnds(s, image, x, r);
    Split(Removed(r, x), r.lastId)
  }

  /** What splitRegion leaves: a valid state where x's cells carry the ids
      handed out above every old id, each a single-pixel region, every
      other cell keeps its label, the old regions keep their statistics
      and their adjacencies away from x. */
  ghost predicate SplitOutcome(s: Seg, image: Pixels, x: nat, r: Split)
    requires Valid(s)
  {
    Valid(r.seg) && r.seg.nLines == s.nLines && r.seg.nCols == s.nCols && r.seg.nBands == s.nBands &&
    r.lastId == MaxId(s.regions.Keys) + |CellsOf(s, {x})| &&
    r.seg.regions.Keys == s.regions.Keys - {x} + Fresh(MaxId(s.regions.Keys), r.lastId) &&
    (forall l, c :: 0 <= l < s.nLines && 0 <= c < s.nCols ==>
      if s.labels[l][c] == x then MaxId(s.regions.Keys) < r.seg.labels[l][c] <= r.lastId
      else r.seg.labels[l][c] == s.labels[l][c]) &&
    (forall y :: y in r.seg.regions && y !in s.regions ==> SinglePixel(image, r.seg, y)) &&
    (forall y :: y in r.seg.regions && y in s.regions ==> Statistics(r.seg.regions[y]) == Statistics(s.regions[y])) &&
    (forall y, z :: y != x && z != x && Adjacent(s.regions, y, z) ==> Adjacent(r.seg.regions, y, z))
  }

  /** The scan of x's box from its invalidated state. */
  function ScanBox(s: Seg, image: Pixels, x: nat): (r: Split)
    requires Valid(s) && x in s.regions && PixelsShaped(image, s.nLines, s.nCols, s.nBands)
    requires MaxId(s.regions.Keys) + |CellsOf(s, {x})| < NoRegion
    ensures Scanned(s, image, x, r)
  {
    var m := MaxId(s.regions.Keys);
    SplitStart(s, x);
    var s1 := Invalidated(s, x);
    var box := s.regions[x].box;
    var r := SplitFrom(s1, image, x, box, box.yStart, box.xStart, m);
    ScanCount(s, x, m, s1, r);
    r
  }

  /** What the scan of x's box leaves: the invalidated state extended to
      a state with no mark left, every cell in a live region other than
      x whose box holds it. */
  ghost predicate Scanned(s: Seg, image: Pixels, x: nat, r: Split)
  {
    Shaped(s) && Shaped(r.seg) && r.seg.nLines == s.nLines && r.seg.nCols == s.nCols &&
    (forall l, c :: 0 <= l < s.nLines && 0 <= c < s.nCols ==>
      r.seg.labels[l][c] in r.seg.regions && r.seg.labels[l][c] != x &&
      InBox(r.seg.regions[r.seg.labels[l][c]].box, l, c)) &&
    MaxId(s.regions.Keys) + |CellsOf(s, {x})| < NoRegion &&
    r.lastId == MaxId(s.regions.Keys) + |CellsOf(s, {x})| &&
    Linked(r.seg.regions) && Fitted(r.seg) && x in r.seg.regions &&
    Valid(s) && x in s.regions && NoRegion !in s.regions &&
    Extends(image, Invalidated(s, x), MaxId(s.regions.Keys), r.seg, r.lastId)
  }

  /** The split state once x is removed. */
  function Removed(r: Split, x: nat): Seg
    requires x in r.seg.regions && Linked(r.seg.regions)
  {
    r.seg.(regions := RemoveRegion(r.seg.regions, x, false))
  }

  lemma SplitEndsValid(s: Seg, image: Pixels, x: nat, r: Split)
    requires Scanned(s, image, x, r)
    ensures Valid(Removed(r, x))
    ensures Removed(r, x).regions.Keys == r.seg.regions.Keys - {x}
    ensures forall y :: y in Removed(r, x).regions ==> Removed(r, x).regions[y] == r.seg.regions[y].(neighbours := Removed(r, x).regions[y].neighbours)
    ensures forall y, z :: y != x && z != x && Adjacent(r.seg.regions, y, z) ==> Adjacent(Removed(r, x).regions, y, z)
  {
    RemoveRegionLinked(r.seg.regions, x, false);
    assert LabelsLive(Removed(r, x));
  }

  /** Every id handed out used up one marked cell, and the marked cells
      were exactly x's. */
  lemma ScanCount(s: Seg, x: nat, m: nat, s1: Seg, r: Split)
    requires Shaped(s) && Shaped(s1) && Shaped(r.seg)
    requires Marked(s1) == CellsOf(s, {x}) && Marked(r.seg) == {}
    requires r.lastId + |Marked(r.seg)| == m + |Marked(s1)|
    ensures r.lastId == m + |CellsOf(s, {x})|
  {
    assert |Marked(r.seg)| == 0;
  }

  /** The ids handed out lie above every old id, so x is not among them. */
  lemma ScanKeys(s: Seg, x: nat, m: nat, r: Split)
    requires x in s.regions && x <= m
    requires r.seg.regions.Keys == s.regions.Keys + Fresh(m, r.lastId)
    ensures r.seg.regions.Keys - {x} == s.regions.Keys - {x} + Fresh(m, r.lastId)
  {
    assert x !in Fresh(m, r.lastId);
  }

  lemma SplitEndsLabels(s: Seg, image: Pixels, x: nat, r: Split)
    requires Scanned(s, image, x, r)
    ensures forall l, c :: 0 <= l < s.nLines && 0 <= c < s.nCols ==>
      if s.labels[l][c] == x then MaxId(s.regions.Keys) < r.seg.labels[l][c] <= r.lastId
      else r.seg.labels[l][c] == s.labels[l][c]
  {
    var s1 := Invalidated(s, x);
    ScanLabels(s, x, MaxId(s.regions.Keys), s1, r);
  }

  /** The marked cells took ids handed out during the scan; the others
      kept their label. */
  lemma ScanLabels(s: Seg, x: nat, m: nat, s1: Seg, r: Split)
    requires Shaped(s) && Shaped(s1) && Shaped(r.seg) && NoRegion !in s.regions
    requires s1.nLines == s.nLines && s1.nCols == s.nCols && r.seg.nLines == s.nLines && r.seg.nCols == s.nCols
    requires forall l, c :: 0 <= l < s.nLines && 0 <= c < s.nCols ==>
      s.labels[l][c] in s.regions && r.seg.labels[l][c] in r.seg.regions &&
      s1.labels[l][c] == if s.labels[l][c] == x then NoRegion else s.labels[l][c]
    requires MarkedChange(s1, r.seg)
    requires s1.regions == s.regions && r.lastId < NoRegion
    requires r.seg.regions.Keys == s1.regions.Keys + Fresh(m, r.lastId)
    ensures forall l, c :: 0 <= l < s.nLines && 0 <= c < s.nCols ==>
      if s.labels[l][c] == x then m < r.seg.labels[l][c] <= r.lastId
      else r.seg.labels[l][c] == s.labels[l][c]
  {
    forall l, c | 0 <= l < s.nLines && 0 <= c < s.nCols
      ensures if s.labels[l][c] == x then m < r.seg.labels[l][c] <= r.lastId else r.seg.labels[l][c] == s.labels[l][c]
    {
      if s.labels[l][c] == x {
        assert s1.labels[l][c] == NoRegion;
        assert r.seg.labels[l][c] in r.seg.regions && r.seg.labels[l][c] !in s1.regions;
      } else {
        assert s1.labels[l][c] == s.labels[l][c];
        assert s1.labels[l][c] != NoRegion;
      }
    }
  }

  /** The removal of x closes splitRegion. */
  lemma SplitRegionEnds(s: Seg, image: Pixels, x: nat, r: Split)
    requires Scanned(s, image, x, r)
    ensures SplitOutcome(s, image, x, Split(Removed(r, x), r.lastId))
  {
    var out := Removed(r, x);
    SplitEndsValid(s, image, x, r);
    ScanKeys(s, x, MaxId(s.regions.Keys), r);
    SplitEndsLabels(s, image, x, r);
    assert KeepsOld(Invalidated(s, x), r.seg) && NewSingles(image, Invalidated(s, x), r.seg) && AdjacencyGrows(Invalidated(s, x), r.seg);
    forall y | y in out.regions && y !in s.regions ensures SinglePixel(image, out, y) {
      assert SinglePixel(image, r.seg, y);
    }
    forall y | y in out.regions && y in s.regions ensures Statistics(out.regions[y]) == Statistics(s.regions[y]) {
      assert out.regions[y] == r.seg.regions[y].(neighbours := out.regions[y].neighbours);
    }
  }

  // ---------------------------------------------------------------------
  // Splitting every heterogeneous region
  // ---------------------------------------------------------------------

  function CVReal(v: CVTables.CVValue): real
  {
    match v
    case MaxDouble => MaxDoubleValue
    case Value(x) => x
  }

  /** The cv threshold splitRegions tests each region against, for regions
      of the given sizes in order. For radar cartoon images it is looked
      up in the table, and the number of looks each lookup writes back is
      the one the next lookup starts from; otherwise the current threshold
      serves every region. */
  function Thresholds(table: Option<CVTables.CVTable>, cv: real, enl: nat, sizes: seq<nat>): (r: Result<seq<real>, CVTables.CVFault>)
    requires table.Some? ==> CVTables.Loaded(table.value)
    requires enl < SizeModulus
    ensures r.Ok? ==> |r.value| == |sizes|
    ensures table.None? ==> r.Ok? && forall k :: 0 <= k < |r.value| ==> r.value[k] == cv
    ensures table.Some? && table.value.table == map[] ==>
      r.Ok? && forall k :: 0 <= k < |r.value| ==> r.value[k] == MaxDoubleValue
    ensures table.Some? && table.value.table != map[] && r.Ok? ==>
      forall k :: 0 <= k < |r.value| ==> exists key :: key in table.value.table && r.value[k] == table.value.table[key]
    decreases |sizes|
  {
    if sizes == [] then Ok([])
    else if table.None? then Ok(seq(|sizes|, _ => cv))
    else
      var l :- CVTables.GetCV(table.value, enl, Wrap64(sizes[0]));
      assert l.enl < SizeModulus;
      var rest :- Thresholds(table, cv, l.enl, sizes[1..]);
      Ok([CVReal(l.value)] + rest)
  }

  /** Thresholds with getCV's int casts (CVTables.GetCVAsWritten), as
      MultiSeg.cpp calls it. */
  function ThresholdsAsWritten(table: Option<CVTables.CVTable>, cv: real, enl: nat, sizes: seq<nat>): (r: Result<seq<real>, CVTables.CVFault>)
    requires table.Some? ==> CVTables.Loaded(table.value)
    requires enl < SizeModulus
    ensures r.Ok? ==> |r.value| == |sizes|
    decreases |sizes|
  {
    if sizes == [] then Ok([])
    else if table.None? then Ok(seq(|sizes|, _ => cv))
    else
      var l :- CVTables.GetCVAsWritten(table.value, enl, Wrap64(sizes[0]));
      assert l.enl < SizeModulus;
      var rest :- ThresholdsAsWritten(table, cv, l.enl, sizes[1..]);
      Ok([CVReal(l.value)] + rest)
  }

  /** For regions of fewer than 2^31 pixels, starting from fewer than
      2^31 looks, the thresholds with the int casts are the intended
      ones. */
  lemma {:induction false} ThresholdsAgree(table: Option<CVTables.CVTable>, cv: real, enl: nat, sizes: seq<nat>)
    requires table.Some? ==> CVTables.Loaded(table.value)
    requires enl < 0x8000_0000
    requires forall k :: 0 <= k < |sizes| ==> sizes[k] < 0x8000_0000
    ensures ThresholdsAsWritten(table, cv, enl, sizes) == Thresholds(table, cv, enl, sizes)
    decreases |sizes|
  {
    if sizes != [] && table.Some? {
      CVTables.GetCVAgrees(table.value, enl, sizes[0]);
      var first := CVTables.GetCV(table.value, enl, sizes[0]);
      if first.Ok? {
        ThresholdsAgree(table, cv, first.value.enl, sizes[1..]);
      }
    }
  }

  /** The number of looks the k-th lookup of Thresholds starts from: the
      given one for the first lookup, and the one the lookup before wrote
      back for every later one. */
  ghost function LooksAt(t: CVTables.CVTable, enl: nat, sizes: seq<nat>, k: nat): nat
    requires CVTables.Loaded(t) && k <= |sizes|
    decreases k, 0
  {
    if k == 0 then enl
    else if LookupOk(t, enl, sizes, k - 1) then LookupAt(t, enl, sizes, k - 1).enl
    else LooksAt(t, enl, sizes, k - 1)
  }

  /** The k-th lookup of the chain succeeds. */
  ghost predicate LookupOk(t: CVTables.CVTable, enl: nat, sizes: seq<nat>, k: nat)
    requires CVTables.Loaded(t) && k < |sizes|
    decreases k, 1
  {
    LooksAt(t, enl, sizes, k) < SizeModulus &&
    CVTables.GetCV(t, LooksAt(t, enl, sizes, k), Wrap64(sizes[k])).Ok?
  }

  /** What the k-th lookup of the chain answers. */
  ghost function LookupAt(t: CVTables.CVTable, enl: nat, sizes: seq<nat>, k: nat): CVTables.Lookup
    requires CVTables.Loaded(t) && k < |sizes| && LookupOk(t, enl, sizes, k)
    decreases k, 2
  {
    CVTables.GetCV(t, LooksAt(t, enl, sizes, k), Wrap64(sizes[k])).value
  }

  /** Dropping the first size: the chain from the looks the first lookup
      wrote back is the rest of the chain. */
  lemma {:induction false} LooksAtShift(t: CVTables.CVTable, enl: nat, sizes: seq<nat>, k: nat)
    requires CVTables.Loaded(t) && enl < SizeModulus && 1 <= k <= |sizes|
    requires CVTables.GetCV(t, enl, Wrap64(sizes[0])).Ok?
    ensures LooksAt(t, enl, sizes, k) == LooksAt(t, CVTables.GetCV(t, enl, Wrap64(sizes[0])).value.enl, sizes[1..], k - 1)
    decreases k
  {
    if k > 1 {
      LooksAtShift(t, enl, sizes, k - 1);
      assert sizes[k - 1] == sizes[1..][k - 2];
    }
  }

  /** When the first lookup succeeds, the rest of the chain is the chain
      over the remaining sizes from the looks it wrote back. */
  lemma ChainShift(t: CVTables.CVTable, enl: nat, sizes: seq<nat>)
    requires CVTables.Loaded(t) && enl < SizeModulus && sizes != []
    requires CVTables.GetCV(t, enl, Wrap64(sizes[0])).Ok?
    ensures var l := CVTables.GetCV(t, enl, Wrap64(sizes[0])).value;
      LookupOk(t, enl, sizes, 0) && LookupAt(t, enl, sizes, 0) == l &&
      forall k :: 1 <= k < |sizes| ==>
        LookupOk(t, enl, sizes, k) == LookupOk(t, l.enl, sizes[1..], k - 1) &&
        (LookupOk(t, enl, sizes, k) ==> LookupAt(t, enl, sizes, k) == LookupAt(t, l.enl, sizes[1..], k - 1))
  {
    var l := CVTables.GetCV(t, enl, Wrap64(sizes[0])).value;
    var rest := sizes[1..];
    assert LooksAt(t, enl, sizes, 0) == enl;
    forall k | 1 <= k < |sizes|
      ensures LooksAt(t, enl, sizes, k) == LooksAt(t, l.enl, rest, k - 1)
      ensures LookupOk(t, enl, sizes, k) == LookupOk(t, l.enl, rest, k - 1)
      ensures LookupOk(t, enl, sizes, k) ==> LookupAt(t, enl, sizes, k) == LookupAt(t, l.enl, rest, k - 1)
    {
      LooksAtShift(t, enl, sizes, k);
      assert sizes[k] == rest[k - 1];
    }
  }

  /** Every lookup of the chain succeeds. */
  ghost predicate ChainOk(t: CVTables.CVTable, enl: nat, sizes: seq<nat>)
    requires CVTables.Loaded(t)
  {
    forall k :: 0 <= k < |sizes| ==> LookupOk(t, enl, sizes, k)
  }

  /** When the first lookup succeeds, every lookup of the chain succeeds
      exactly when every lookup of the rest of the chain does. */
  lemma ChainAllOk(t: CVTables.CVTable, enl: nat, sizes: seq<nat>)
    requires CVTables.Loaded(t) && enl < SizeModulus && sizes != []
    requires CVTables.GetCV(t, enl, Wrap64(sizes[0])).Ok?
    ensures ChainOk(t, enl, sizes) <==> ChainOk(t, CVTables.GetCV(t, enl, Wrap64(sizes[0])).value.enl, sizes[1..])
  {
    var l := CVTables.GetCV(t, enl, Wrap64(sizes[0])).value;
    var rest := sizes[1..];
    ChainShift(t, enl, sizes);
    if ChainOk(t, l.enl, rest) {
      forall k | 0 <= k < |sizes|
        ensures LookupOk(t, enl, sizes, k)
      {
        if k > 0 {
          assert LookupOk(t, l.enl, rest, k - 1);
        }
      }
    } else {
      var j :| 0 <= j < |rest| && !LookupOk(t, l.enl, rest, j);
      assert !LookupOk(t, enl, sizes, j + 1);
    }
  }

  /** One step of Thresholds on a table: when the first lookup succeeds,
      the thresholds are its cv value before those of the rest. */
  lemma ThresholdsStep(t: CVTables.CVTable, cv: real, enl: nat, sizes: seq<nat>)
    requires CVTables.Loaded(t) && enl < SizeModulus && sizes != []
    requires CVTables.GetCV(t, enl, Wrap64(sizes[0])).Ok?
    ensures var l := CVTables.GetCV(t, enl, Wrap64(sizes[0])).value;
      var rest := Thresholds(Some(t), cv, l.enl, sizes[1..]);
      Thresholds(Some(t), cv, enl, sizes).Ok? == rest.Ok? &&
      (rest.Ok? ==> Thresholds(Some(t), cv, enl, sizes).value == [CVReal(l.value)] + rest.value)
  {
  }

  /** Threshold k is the cv value of the k-th lookup of the chain, and the
      thresholds exist exactly when every lookup of the chain succeeds. */
  lemma {:induction false} ThresholdsChain(t: CVTables.CVTable, cv: real, enl: nat, sizes: seq<nat>)
    requires CVTables.Loaded(t) && enl < SizeModulus
    ensures Thresholds(Some(t), cv, enl, sizes).Ok? <==> ChainOk(t, enl, sizes)
    ensures Thresholds(Some(t), cv, enl, sizes).Ok? ==> forall k :: 0 <= k < |sizes| ==>
      LookupOk(t, enl, sizes, k) && Thresholds(Some(t), cv, enl, sizes).value[k] == CVReal(LookupAt(t, enl, sizes, k).value)
    decreases |sizes|
  {
    if sizes != [] {
      var first := CVTables.GetCV(t, enl, Wrap64(sizes[0]));
      assert LooksAt(t, enl, sizes, 0) == enl;
      if first.Fault? {
        assert !LookupOk(t, enl, sizes, 0);
        assert !ChainOk(t, enl, sizes);
      } else {
        var l := first.value;
        var rest := sizes[1..];
        ThresholdsChain(t, cv, l.enl, rest);
        ThresholdsStep(t, cv, enl, sizes);
        ChainAllOk(t, enl, sizes);
        var r := Thresholds(Some(t), cv, enl, sizes);
        if r.Ok? {
          ChainShift(t, enl, sizes);
          forall k | 0 <= k < |sizes|
            ensures LookupOk(t, enl, sizes, k) && r.value[k] == CVReal(LookupAt(t, enl, sizes, k).value)
          {
            if k > 0 {
              assert r.value[k] == Thresholds(Some(t), cv, l.enl, rest).value[k - 1];
            }
          }
        }
      }
    }
  }

  /** The sizes of the regions of order, as the loop reads them. */
  function SizesOf(t: Table, order: seq<nat>): (sizes: seq<nat>)
    requires forall k :: 0 <= k < |order| ==> order[k] in t
    ensures |sizes| == |order|
  {
    seq(|order|, k requires 0 <= k < |order| => t[order[k]].size)
  }

  /** The ids of order from position i on. */
  ghost function Pending(order: seq<nat>, i: nat): set<nat>
  {
    set k | i <= k < |order| :: order[k]
  }

  /** What splitting a set of regions leaves, with newIds the regions it
      created. */
  datatype Outcome = Outcome(seg: Seg, split: set<nat>, newIds: set<nat>)

  /** The new regions are live single-pixel regions. */
  ghost predicate NewOk(image: Pixels, s': Seg, newIds: set<nat>)
    requires Shaped(s')
  {
    newIds <= s'.regions.Keys && forall y :: y in newIds ==> SinglePixel(image, s', y)
  }

  /** The regions not split stay with their statistics and are not new;
      the split ones are gone, unless their id was handed out anew. */
  ghost predicate KeysOk(s: Seg, split: set<nat>, s': Seg, newIds: set<nat>)
  {
    s'.regions.Keys <= (s.regions.Keys - split) + newIds &&
    (forall y :: y in s.regions && y !in split ==>
      y in s'.regions && y !in newIds && Statistics(s'.regions[y]) == Statistics(s.regions[y])) &&
    (forall y :: y in split && y in s'.regions ==> y in newIds)
  }

  /** The cells of a split region go to new regions; no other cell changes. */
  ghost predicate CellsMoved(s: Seg, split: set<nat>, s': Seg, newIds: set<nat>)
    requires Shaped(s) && Shaped(s') && s'.nLines == s.nLines && s'.nCols == s.nCols
  {
    forall l, c :: 0 <= l < s.nLines && 0 <= c < s.nCols ==>
      if s.labels[l][c] in split then s'.labels[l][c] in newIds else s'.labels[l][c] == s.labels[l][c]
  }

  /** Regions not split stay adjacent. */
  ghost predicate AdjacencyKept(s: Seg, split: set<nat>, s': Seg)
  {
    forall y, z :: y !in split && z !in split && Adjacent(s.regions, y, z) ==> Adjacent(s'.regions, y, z)
  }

  /** s' is s with the regions of split dissolved into the newIds. */
  ghost predicate SplitsInto(image: Pixels, s: Seg, split: set<nat>, s': Seg, newIds: set<nat>)
  {
    Shaped(s) && Valid(s') && s'.nLines == s.nLines && s'.nCols == s.nCols && s'.nBands == s.nBands &&
    NewOk(image, s', newIds) && KeysOk(s, split, s', newIds) && CellsMoved(s, split, s', newIds) &&
    AdjacencyKept(s, split, s')
  }

  lemma SplitsNothing(image: Pixels, s: Seg)
    requires Valid(s)
    ensures SplitsInto(image, s, {}, s, {})
  {
  }

  lemma NewOkCompose(image: Pixels, s: Seg, d1: set<nat>, s1: Seg, n1: set<nat>, d2: set<nat>, s2: Seg, n2: set<nat>)
    requires SplitsInto(image, s, d1, s1, n1) && SplitsInto(image, s1, d2, s2, n2)
    requires d2 <= s.regions.Keys - d1
    ensures NewOk(image, s2, n1 + n2)
  {
    forall y | y in n1 ensures y in s2.regions && SinglePixel(image, s2, y) {
      assert y !in d2;
      var l, c := s1.regions[y].box.yStart, s1.regions[y].box.xStart;
      assert SinglePixel(image, s1, y);
      assert s1.labels[l][c] == y;
      assert s2.labels[l][c] == y;
      assert Statistics(s2.regions[y]) == Statistics(s1.regions[y]);
    }
  }

  lemma KeysOkCompose(image: Pixels, s: Seg, d1: set<nat>, s1: Seg, n1: set<nat>, d2: set<nat>, s2: Seg, n2: set<nat>)
    requires SplitsInto(image, s, d1, s1, n1) && SplitsInto(image, s1, d2, s2, n2)
    requires d2 <= s.regions.Keys - d1
    ensures KeysOk(s, d1 + d2, s2, n1 + n2)
  {
  }

  lemma CellsMovedCompose(image: Pixels, s: Seg, d1: set<nat>, s1: Seg, n1: set<nat>, d2: set<nat>, s2: Seg, n2: set<nat>)
    requires SplitsInto(image, s, d1, s1, n1) && SplitsInto(image, s1, d2, s2, n2)
    requires d2 <= s.regions.Keys - d1
    ensures CellsMoved(s, d1 + d2, s2, n1 + n2)
  {
    forall l, c | 0 <= l < s.nLines && 0 <= c < s.nCols
      ensures if s.labels[l][c] in d1 + d2 then s2.labels[l][c] in n1 + n2 else s2.labels[l][c] == s.labels[l][c]
    {
      if s.labels[l][c] in d1 {
        assert s1.labels[l][c] in n1;
        assert s1.labels[l][c] !in d2;
      }
    }
  }

  /** Splitting d1 and then d2 splits both. */
  lemma SplitsCompose(image: Pixels, s: Seg, d1: set<nat>, s1: Seg, n1: set<nat>, d2: set<nat>, s2: Seg, n2: set<nat>)
    requires SplitsInto(image, s, d1, s1, n1) && SplitsInto(image, s1, d2, s2, n2)
    requires d2 <= s.regions.Keys - d1
    ensures SplitsInto(image, s, d1 + d2, s2, n1 + n2)
  {
    NewOkCompose(image, s, d1, s1, n1, d2, s2, n2);
    KeysOkCompose(image, s, d1, s1, n1, d2, s2, n2);
    CellsMovedCompose(image, s, d1, s1, n1, d2, s2, n2);
  }

  /** splitRegion dissolves x into the ids it hands out. */
  lemma SplitRegionSplits(s: Seg, image: Pixels, x: nat)
    requires Valid(s) && x in s.regions && PixelsShaped(image, s.nLines, s.nCols, s.nBands)
    requires MaxId(s.regions.Keys) + |CellsOf(s, {x})| < NoRegion
    ensures var r := SplitRegion(s, image, x);
      SplitsInto(image, s, {x}, r.seg, Fresh(MaxId(s.regions.Keys), r.lastId))
  {
    var r := ScanBox(s, image, x);
    SplitRegionEnds(s, image, x, r);
    var m := MaxId(s.regions.Keys);
    assert forall y :: y in Fresh(m, r.lastId) ==> y !in s.regions;
  }

  /** The cells of {x} + rest split into those of x and those of rest. */
  lemma CellsOfUnion(s: Seg, x: nat, rest: set<nat>)
    requires Shaped(s) && x !in rest
    ensures |CellsOf(s, {x} + rest)| == |CellsOf(s, {x})| + |CellsOf(s, rest)|
  {
    assert CellsOf(s, {x} + rest) == CellsOf(s, {x}) + CellsOf(s, rest);
    assert CellsOf(s, {x}) * CellsOf(s, rest) == {};
  }

  lemma MaxIdAtMost(ids: set<nat>, bound: nat)
    requires forall y :: y in ids ==> y <= bound
    ensures MaxId(ids) <= bound
  {
    if ids != {} {
      assert MaxId(ids) in ids;
    }
  }

  /** Cells whose label moved from outside ids to outside ids leave the
      cells of ids as they were. */
  lemma CellsOfKept(s: Seg, s': Seg, ids: set<nat>)
    requires Shaped(s) && Shaped(s') && s'.nLines == s.nLines && s'.nCols == s.nCols
    requires forall l, c :: 0 <= l < s.nLines && 0 <= c < s.nCols ==>
      s'.labels[l][c] == s.labels[l][c] || (s.labels[l][c] !in ids && s'.labels[l][c] !in ids)
    ensures CellsOf(s', ids) == CellsOf(s, ids)
  {
  }

  /** Skipping x leaves enough ids for the rest. */
  lemma HeadroomAfterSkip(s: Seg, x: nat, rest: set<nat>)
    requires Shaped(s) && x !in rest && MaxId(s.regions.Keys) + |CellsOf(s, {x} + rest)| < NoRegion
    ensures MaxId(s.regions.Keys) + |CellsOf(s, rest)| < NoRegion
  {
    CellsOfUnion(s, x, rest);
  }

  lemma PendingNext(order: seq<nat>, i: nat)
    requires i < |order| && forall k, k' :: i <= k < k' < |order| ==> order[k] < order[k']
    ensures Pending(order, i) == {order[i]} + Pending(order, i + 1)
    ensures order[i] !in Pending(order, i + 1)
  {
  }

  /** One turn of splitRegions' loop: x stays if it passes the
      homogeneity test under its threshold and is split otherwise; the ids
      the other pending regions need still fit below the mark. */
  function SplitStep(s: Seg, image: Pixels, crit: Criterion, x: nat, threshold: real, ghost rest: set<nat>): (out: Outcome)
    requires Valid(s) && PixelsShaped(image, s.nLines, s.nCols, s.nBands)
    requires x in s.regions && x !in rest && rest <= s.regions.Keys
    requires MaxId(s.regions.Keys) + |CellsOf(s, {x} + rest)| < NoRegion
    ensures SplitsInto(image, s, out.split, out.seg, out.newIds)
    ensures out.split == if crit.homogeneous(threshold, Statistics(s.regions[x])) then {} else {x}
    ensures rest <= out.seg.regions.Keys && MaxId(out.seg.regions.Keys) + |CellsOf(out.seg, rest)| < NoRegion
  {
    if crit.homogeneous(threshold, Statistics(s.regions[x])) then
      HeadroomAfterSkip(s, x, rest);
      SplitsNothing(image, s);
      Outcome(s, {}, {})
    else
      CellsOfUnion(s, x, rest);
      var r := SplitRegion(s, image, x);
      assert forall y :: y in r.seg.regions ==> y <= r.lastId;
      MaxIdAtMost(r.seg.regions.Keys, r.lastId);
      assert forall y :: y in rest ==> y <= MaxId(s.regions.Keys);
      CellsOfKept(s, r.seg, rest);
      SplitRegionSplits(s, image, x);
      Outcome(r.seg, {x}, Fresh(MaxId(s.regions.Keys), r.lastId))
  }

  /** From position i of order on, a region is split exactly when it
      fails the homogeneity test under its threshold. */
  ghost predicate Decisions(s: Seg, crit: Criterion, order: seq<nat>, thresholds: seq<real>, i: nat, split: set<nat>)
    requires |thresholds| == |order| && forall k :: i <= k < |order| ==> order[k] in s.regions
  {
    forall k :: i <= k < |order| ==>
      (order[k] in split <==> !crit.homogeneous(thresholds[k], Statistics(s.regions[order[k]])))
  }

  /** The decision on order[i] followed by those on the rest of the
      order: regions the turn kept keep their statistics, so the later
      decisions read the same regions. */
  lemma DecisionsCombine(s: Seg, st: Seg, crit: Criterion, order: seq<nat>, thresholds: seq<real>, i: nat, first: set<nat>, later: set<nat>)
    requires |thresholds| == |order| && i < |order|
    requires forall k, k' :: i <= k < k' < |order| ==> order[k] < order[k']
    requires forall k :: i <= k < |order| ==> order[k] in s.regions
    requires forall k :: i < k < |order| ==>
      order[k] in st.regions && Statistics(st.regions[order[k]]) == Statistics(s.regions[order[k]])
    requires first == if crit.homogeneous(thresholds[i], Statistics(s.regions[order[i]])) then {} else {order[i]}
    requires later <= Pending(order, i + 1)
    requires Decisions(st, crit, order, thresholds, i + 1, later)
    ensures Decisions(s, crit, order, thresholds, i, first + later)
  {
    PendingNext(order, i);
    forall k | i <= k < |order|
      ensures order[k] in first + later <==> !crit.homogeneous(thresholds[k], Statistics(s.regions[order[k]]))
    {
      if k > i {
        assert order[k] != order[i];
      } else {
        assert order[i] !in later;
      }
    }
  }

  /** What the loop of splitRegions needs at position i: a valid state,
      the rest of the order ascending and live, and room for the ids the
      pending regions may need. */
  ghost predicate AllReady(s: Seg, order: seq<nat>, thresholds: seq<real>, i: nat)
  {
    Shaped(s) && |thresholds| == |order| && i <= |order| &&
    (forall k, k' :: i <= k < k' < |order| ==> order[k] < order[k']) &&
    (forall k :: i <= k < |order| ==> order[k] in s.regions) &&
    MaxId(s.regions.Keys) + |CellsOf(s, Pending(order, i))| < NoRegion
  }

  /** One turn keeps the loop ready for the next position, and leaves the
      later regions of the order in place with their statistics. */
  lemma StepReady(s: Seg, image: Pixels, crit: Criterion, order: seq<nat>, thresholds: seq<real>, i: nat)
    requires Valid(s) && PixelsShaped(image, s.nLines, s.nCols, s.nBands)
    requires AllReady(s, order, thresholds, i) && i < |order|
    ensures order[i] in s.regions && order[i] !in Pending(order, i + 1) && Pending(order, i + 1) <= s.regions.Keys
    ensures MaxId(s.regions.Keys) + |CellsOf(s, {order[i]} + Pending(order, i + 1))| < NoRegion
    ensures var st := SplitStep(s, image, crit, order[i], thresholds[i], Pending(order, i + 1));
      Valid(st.seg) && PixelsShaped(image, st.seg.nLines, st.seg.nCols, st.seg.nBands) &&
      AllReady(st.seg, order, thresholds, i + 1) &&
      forall k :: i < k < |order| ==>
        order[k] !in st.split && order[k] in st.seg.regions &&
        Statistics(st.seg.regions[order[k]]) == Statistics(s.regions[order[k]])
  {
    PendingNext(order, i);
    var st := SplitStep(s, image, crit, order[i], thresholds[i], Pending(order, i + 1));
    assert forall k :: i < k < |order| ==> order[k] in Pending(order, i + 1) && order[k] !in st.split;
    assert Valid(st.seg);
    assert PixelsShaped(image, st.seg.nLines, st.seg.nCols, st.seg.nBands);
    assert forall k :: i + 1 <= k < |order| ==> order[k] in st.seg.regions;
    assert MaxId(st.seg.regions.Keys) + |CellsOf(st.seg, Pending(order, i + 1))| < NoRegion;
  }

  /** What the loop of splitRegions from position i on achieves: the
      regions it split are pending ones, exactly those failing their test. */
  ghost predicate AllDone(image: Pixels, s: Seg, crit: Criterion, order: seq<nat>, thresholds: seq<real>, i: nat, out: Outcome)
    requires |thresholds| == |order| && forall k :: i <= k < |order| ==> order[k] in s.regions
  {
    SplitsInto(image, s, out.split, out.seg, out.newIds) &&
    out.split <= Pending(order, i) &&
    Decisions(s, crit, order, thresholds, i, out.split)
  }

  /** The loop of splitRegions from position i of the ascending snapshot
      order on: a region passing its homogeneity test stays, any other
      is split. */
  function SplitAll(s: Seg, image: Pixels, crit: Criterion, order: seq<nat>, thresholds: seq<real>, i: nat): (out: Outcome)
    requires Valid(s) && PixelsShaped(image, s.nLines, s.nCols, s.nBands)
    requires AllReady(s, order, thresholds, i)
    ensures out.split <= Pending(order, i)
    decreases |order| - i
  {
    if i == |order| then
      Outcome(s, {}, {})
    else
      StepReady(s, image, crit, order, thresholds, i);
      var st := SplitStep(s, image, crit, order[i], thresholds[i], Pending(order, i + 1));
      var out := SplitAll(st.seg, image, crit, order, thresholds, i + 1);
      PendingNext(order, i);
      Outcome(out.seg, st.split + out.split, st.newIds + out.newIds)
  }

  /** The loop splits exactly the pending regions that fail their test,
      each into fresh single-pixel regions. */
  lemma {:induction false} SplitAllDone(s: Seg, image: Pixels, crit: Criterion, order: seq<nat>, thresholds: seq<real>, i: nat)
    requires Valid(s) && PixelsShaped(image, s.nLines, s.nCols, s.nBands)
    requires AllReady(s, order, thresholds, i)
    ensures AllDone(image, s, crit, order, thresholds, i, SplitAll(s, image, crit, order, thresholds, i))
    decreases |order| - i
  {
    if i == |order| {
      AllDoneNothing(image, s, crit, order, thresholds);
    } else {
      StepReady(s, image, crit, order, thresholds, i);
      var st := SplitStep(s, image, crit, order[i], thresholds[i], Pending(order, i + 1));
      var out := SplitAll(st.seg, image, crit, order, thresholds, i + 1);
      SplitAllDone(st.seg, image, crit, order, thresholds, i + 1);
      AllCombine(image, s, crit, order, thresholds, i, st, out);
    }
  }

  lemma AllDoneNothing(image: Pixels, s: Seg, crit: Criterion, order: seq<nat>, thresholds: seq<real>)
    requires Valid(s) && |thresholds| == |order|
    ensures AllDone(image, s, crit, order, thresholds, |order|, Outcome(s, {}, {}))
  {
    SplitsNothing(image, s);
  }

  /** A turn of the loop followed by the rest of it. */
  lemma AllCombine(image: Pixels, s: Seg, crit: Criterion, order: seq<nat>, thresholds: seq<real>, i: nat, st: Outcome, out: Outcome)
    requires AllReady(s, order, thresholds, i) && i < |order|
    requires forall k :: i < k < |order| ==>
      order[k] !in st.split && order[k] in st.seg.regions &&
      Statistics(st.seg.regions[order[k]]) == Statistics(s.regions[order[k]])
    requires SplitsInto(image, s, st.split, st.seg, st.newIds)
    requires st.split == if crit.homogeneous(thresholds[i], Statistics(s.regions[order[i]])) then {} else {order[i]}
    requires AllDone(image, st.seg, crit, order, thresholds, i + 1, out)
    ensures AllDone(image, s, crit, order, thresholds, i, Outcome(out.seg, st.split + out.split, st.newIds + out.newIds))
  {
    PendingNext(order, i);
    assert out.split <= s.regions.Keys - st.split;
    SplitsCompose(image, s, st.split, st.seg, st.newIds, out.split, out.seg, out.newIds);
    DecisionsCombine(s, st.seg, crit, order, thresholds, i, st.split, out.split);
  }

  /** The ascending snapshot order lists every id once. */
  lemma OrderCovers(ids: set<nat>)
    ensures Pending(SortedIds(ids), 0) == ids
    ensures |SortedIds(ids)| == |ids|
    ensures forall k :: 0 <= k < |SortedIds(ids)| ==> SortedIds(ids)[k] in ids
    ensures forall k, k' :: 0 <= k < k' < |SortedIds(ids)| ==> SortedIds(ids)[k] < SortedIds(ids)[k']
  {
    var order := SortedIds(ids);
    assert forall k :: 0 <= k < |order| ==> order[k] in ids;
  }

  /** Exactly the regions failing the homogeneity test under threshold v
      are split. */
  ghost predicate SplitUnder(s: Seg, crit: Criterion, split: set<nat>, v: real)
  {
    forall y :: y in s.regions ==> (y in split <==> !crit.homogeneous(v, Statistics(s.regions[y])))
  }

  /** Under one threshold for all, the loop splits exactly the regions
      failing the test. */
  lemma OneThreshold(s: Seg, crit: Criterion, thresholds: seq<real>, split: set<nat>, v: real)
    requires |thresholds| == |s.regions| && forall k :: 0 <= k < |thresholds| ==> thresholds[k] == v
    requires Decisions(s, crit, SortedIds(s.regions.Keys), thresholds, 0, split)
    ensures SplitUnder(s, crit, split, v)
  {
    var order := SortedIds(s.regions.Keys);
    forall y | y in s.regions ensures y in split <==> !crit.homogeneous(v, Statistics(s.regions[y])) {
      assert y in order;
      var k :| 0 <= k < |order| && order[k] == y;
      assert thresholds[k] == v;
    }
  }

  /** The loop over the whole ascending snapshot, with one threshold per
      region in that order. */
  function SplitInOrder(s: Seg, image: Pixels, crit: Criterion, thresholds: seq<real>): (out: Outcome)
    requires Valid(s) && PixelsShaped(image, s.nLines, s.nCols, s.nBands)
    requires |thresholds| == |s.regions|
    requires MaxId(s.regions.Keys) + |CellsOf(s, s.regions.Keys)| < NoRegion
    ensures SplitsInto(image, s, out.split, out.seg, out.newIds) && out.split <= s.regions.Keys
    ensures Decisions(s, crit, SortedIds(s.regions.Keys), thresholds, 0, out.split)
  {
    OrderReady(s, image, thresholds);
    SplitAllDone(s, image, crit, SortedIds(s.regions.Keys), thresholds, 0);
    SplitAll(s, image, crit, SortedIds(s.regions.Keys), thresholds, 0)
  }

  /** The ascending snapshot of a valid table is ready for the loop. */
  lemma OrderReady(s: Seg, image: Pixels, thresholds: seq<real>)
    requires Valid(s) && PixelsShaped(image, s.nLines, s.nCols, s.nBands)
    requires |thresholds| == |s.regions|
    requires MaxId(s.regions.Keys) + |CellsOf(s, s.regions.Keys)| < NoRegion
    ensures Pending(SortedIds(s.regions.Keys), 0) == s.regions.Keys
    ensures AllReady(s, SortedIds(s.regions.Keys), thresholds, 0)
  {
    OrderCovers(s.regions.Keys);
  }

  /** The regions of split are those of the ascending snapshot that fail
      their homogeneity test under the thresholds Thresholds looks up for
      them in that order. */
  ghost predicate DecidedBy(s: Seg, crit: Criterion, table: Option<CVTables.CVTable>, cv: real, enl: nat, split: set<nat>)
    requires table.Some? ==> CVTables.Loaded(table.value)
    requires enl < SizeModulus
  {
    var thresholds := SnapshotThresholds(s, table, cv, enl);
    thresholds.Ok? && Decisions(s, crit, SortedIds(s.regions.Keys), thresholds.value, 0, split)
  }

  /** The thresholds Thresholds looks up for the ascending snapshot of the
      region table. */
  ghost function SnapshotThresholds(s: Seg, table: Option<CVTables.CVTable>, cv: real, enl: nat): Result<seq<real>, CVTables.CVFault>
    requires table.Some? ==> CVTables.Loaded(table.value)
    requires enl < SizeModulus
  {
    Thresholds(table, cv, enl, SizesOf(s.regions, SortedIds(s.regions.Keys)))
  }

  /** Without a table, or with an empty one, every region is decided
      under the same threshold. */
  lemma UniformDecisions(s: Seg, crit: Criterion, table: Option<CVTables.CVTable>, cv: real, enl: nat, split: set<nat>)
    requires Valid(s)
    requires table.Some? ==> CVTables.Loaded(table.value)
    requires enl < SizeModulus
    requires DecidedBy(s, crit, table, cv, enl, split)
    ensures table.None? ==> SplitUnder(s, crit, split, cv)
    ensures table.Some? && table.value.table == map[] ==> SplitUnder(s, crit, split, MaxDoubleValue)
  {
    var thresholds := SnapshotThresholds(s, table, cv, enl).value;
    if table.None? {
      OneThreshold(s, crit, thresholds, split, cv);
    } else if table.value.table == map[] {
      OneThreshold(s, crit, thresholds, split, MaxDoubleValue);
    }
  }

  /** MultiSeg::splitRegions: every region of the ascending snapshot of
      the table that fails its homogeneity test is split; the new regions
      are returned apart. A failed cv lookup is a fault. */
  function SplitRegions(s: Seg, image: Pixels, crit: Criterion, table: Option<CVTables.CVTable>, cv: real, enl: nat): (r: Result<Outcome, CVTables.CVFault>)
    requires Valid(s) && PixelsShaped(image, s.nLines, s.nCols, s.nBands)
    requires table.Some? ==> CVTables.Loaded(table.value)
    requires enl < SizeModulus
    requires MaxId(s.regions.Keys) + |CellsOf(s, s.regions.Keys)| < NoRegion
    ensures table.None? || table.value.table == map[] ==> r.Ok?
    ensures r.Ok? ==> SplitsInto(image, s, r.value.split, r.value.seg, r.value.newIds) && r.value.split <= s.regions.Keys
    ensures r.Ok? && table.None? ==> SplitUnder(s, crit, r.value.split, cv)
    ensures r.Ok? && table.Some? && table.value.table == map[] ==> SplitUnder(s, crit, r.value.split, MaxDoubleValue)
    ensures r.Ok? <==> SnapshotThresholds(s, table, cv, enl).Ok?
    ensures r.Ok? ==> DecidedBy(s, crit, table, cv, enl, r.value.split)
  {
    var thresholds :- Thresholds(table, cv, enl, SizesOf(s.regions, SortedIds(s.regions.Keys)));
    var out := SplitInOrder(s, image, crit, thresholds);
    UniformDecisions(s, crit, table, cv, enl, out.split);
    Ok(out)
  }
}
