/** The multi-resolution pyramid: level 0 is the input image and each
    further level halves the previous one by averaging 2x2 blocks. The
    dimensions of each new level come from the raster library (from the
    bounding box at twice the resolution) and are inputs here. */
module Pyramids {
  import opened Results
  import opened Sums

  /** An image: `data[b][lin][col]` is the value of band b at (lin, col). */
  datatype Image = Image(lines: nat, cols: nat, data: seq<seq<seq<real>>>)

  predicate WellShaped(img: Image)
  {
    forall b :: 0 <= b < |img.data| ==>
      |img.data[b]| == img.lines && forall lin :: 0 <= lin < img.lines ==> |img.data[b][lin]| == img.cols
  }

  function NBands(img: Image): nat
  {
    |img.data|
  }

  /** TeRaster::getElement: the value, or nothing outside the image. */
  function Element(img: Image, b: nat, lin: nat, col: nat): (v: Option<real>)
    requires WellShaped(img) && b < NBands(img)
    ensures v.Some? <==> lin < img.lines && col < img.cols
    ensures v.Some? ==> v.value == img.data[b][lin][col]
  {
    if lin < img.lines && col < img.cols then Some(img.data[b][lin][col]) else None
  }

  function Present(v: Option<real>): seq<real>
  {
    if v.Some? then [v.value] else []
  }

  /** The values of the 2x2 block under (lin, col) that exist, in the
      order they are read. */
  function Contributors(img: Image, b: nat, lin: nat, col: nat): (xs: seq<real>)
    requires WellShaped(img) && b < NBands(img)
    ensures |xs| > 0 <==> 2 * lin < img.lines && 2 * col < img.cols
    ensures forall i :: 0 <= i < |xs| ==>
      exists l: nat, c: nat :: InBlock(lin, col, l, c) && Element(img, b, l, c) == Some(xs[i])
  {
    var l, c := 2 * lin, 2 * col;
    assert InBlock(lin, col, l, c) && InBlock(lin, col, l, c + 1) && InBlock(lin, col, l + 1, c) && InBlock(lin, col, l + 1, c + 1);
    var xs := Present(Element(img, b, l, c)) + Present(Element(img, b, l, c + 1)) +
      Present(Element(img, b, l + 1, c)) + Present(Element(img, b, l + 1, c + 1));
    assert forall i :: 0 <= i < |xs| ==>
      xs[i] in Present(Element(img, b, l, c)) || xs[i] in Present(Element(img, b, l, c + 1)) ||
      xs[i] in Present(Element(img, b, l + 1, c)) || xs[i] in Present(Element(img, b, l + 1, c + 1));
    xs
  }

  /** (l, c) is one of the four cells under (lin, col). */
  predicate InBlock(lin: nat, col: nat, l: nat, c: nat)
  {
    2 * lin <= l < 2 * lin + 2 && 2 * col <= c < 2 * col + 2
  }

  /** A new level of the given size fits under the previous one when each
      of its cells has at least one contributor (the assertion of build). */
  predicate Fits(prev: Image, lines: nat, cols: nat)
  {
    lines == 0 || cols == 0 || (2 * (lines - 1) < prev.lines && 2 * (cols - 1) < prev.cols)
  }

  /** The new value of one cell: the mean of its contributors. */
  function BlockMean(img: Image, b: nat, lin: nat, col: nat): real
    requires WellShaped(img) && b < NBands(img)
    requires 2 * lin < img.lines && 2 * col < img.cols
  {
    Mean(Contributors(img, b, lin, col))
  }

  /** Pyramid::build(previousLevel, newLevel). */
  function Build(prev: Image, lines: nat, cols: nat): (img: Image)
    requires WellShaped(prev) && Fits(prev, lines, cols)
    ensures WellShaped(img) && img.lines == lines && img.cols == cols && NBands(img) == NBands(prev)
    ensures forall b, lin, col :: 0 <= b < NBands(img) && 0 <= lin < lines && 0 <= col < cols ==>
      img.data[b][lin][col] == BlockMean(prev, b, lin, col)
  {
    Image(lines, cols,
      seq(NBands(prev), b requires 0 <= b < NBands(prev) =>
        seq(lines, lin requires 0 <= lin < lines =>
          seq(cols, col requires 0 <= col < cols => BlockMean(prev, b, lin, col)))))
  }

  /** A block mean lies between the least and the greatest of the values
      it averages. */
  lemma BlockMeanBetween(img: Image, b: nat, lin: nat, col: nat, lo: real, hi: real)
    requires WellShaped(img) && b < NBands(img)
    requires 2 * lin < img.lines && 2 * col < img.cols
    requires forall l: nat, c: nat :: InBlock(lin, col, l, c) && l < img.lines && c < img.cols ==> lo <= img.data[b][l][c] <= hi
    ensures lo <= BlockMean(img, b, lin, col) <= hi
  {
    var xs := Contributors(img, b, lin, col);
    ContributorsBetween(img, b, lin, col, lo, hi);
    AverageBetween(xs, lo, hi);
    assert BlockMean(img, b, lin, col) == Mean(xs);
  }

  lemma ContributorsBetween(img: Image, b: nat, lin: nat, col: nat, lo: real, hi: real)
    requires WellShaped(img) && b < NBands(img)
    requires forall l: nat, c: nat :: InBlock(lin, col, l, c) && l < img.lines && c < img.cols ==> lo <= img.data[b][l][c] <= hi
    ensures forall i :: 0 <= i < |Contributors(img, b, lin, col)| ==> lo <= Contributors(img, b, lin, col)[i] <= hi
  {
    var xs := Contributors(img, b, lin, col);
    forall i | 0 <= i < |xs| ensures lo <= xs[i] <= hi {
      var l, c :| InBlock(lin, col, l, c) && Element(img, b, l, c) == Some(xs[i]);
    }
  }

  /** Every value of a new level lies between the least and the greatest
      value of the same band of the level below; in particular a constant
      band stays constant. */
  lemma BuildBetween(prev: Image, lines: nat, cols: nat, b: nat, lo: real, hi: real)
    requires WellShaped(prev) && Fits(prev, lines, cols) && b < NBands(prev)
    requires forall lin, col :: 0 <= lin < prev.lines && 0 <= col < prev.cols ==> lo <= prev.data[b][lin][col] <= hi
    ensures forall lin, col :: 0 <= lin < lines && 0 <= col < cols ==> lo <= Build(prev, lines, cols).data[b][lin][col] <= hi
  {
    forall lin, col | 0 <= lin < lines && 0 <= col < cols
      ensures lo <= Build(prev, lines, cols).data[b][lin][col] <= hi
    {
      BlockMeanBetween(prev, b, lin, col, lo, hi);
    }
  }

  /** The pyramid: one slot per level, a released slot holds nothing. */
  datatype Pyramid = Pyramid(levels: seq<Option<Image>>)

  /** The size of level i: the input's for level 0, then the given ones. */
  function LevelSize(image: Image, sizes: seq<(nat, nat)>, i: nat): (nat, nat)
    requires i <= |sizes|
  {
    if i == 0 then (image.lines, image.cols) else sizes[i - 1]
  }

  /** Every size fits under the level before it. */
  predicate SizesFit(image: Image, sizes: seq<(nat, nat)>)
  {
    forall i :: 0 <= i < |sizes| ==>
      sizes[i].0 == 0 || sizes[i].1 == 0 ||
      (2 * (sizes[i].0 - 1) < LevelSize(image, sizes, i).0 && 2 * (sizes[i].1 - 1) < LevelSize(image, sizes, i).1)
  }

  /** Level i + 1 of the slots is built from level i with the i-th size. */
  predicate BuiltFrom(levels: seq<Option<Image>>, sizes: seq<(nat, nat)>, i: nat)
    requires i < |sizes| && i + 1 < |levels|
  {
    levels[i].Some? && WellShaped(levels[i].value) &&
    Fits(levels[i].value, sizes[i].0, sizes[i].1) &&
    levels[i + 1] == Some(Build(levels[i].value, sizes[i].0, sizes[i].1))
  }

  lemma BuiltFromExtend(levels: seq<Option<Image>>, x: Option<Image>, sizes: seq<(nat, nat)>, j: nat)
    requires j < |sizes| && j + 1 < |levels|
    requires BuiltFrom(levels, sizes, j)
    ensures BuiltFrom(levels + [x], sizes, j)
  {
    assert (levels + [x])[j] == levels[j] && (levels + [x])[j + 1] == levels[j + 1];
  }

  /** The first i + 1 slots of the constructor: slot 0 the input, every
      slot filled and well shaped, the last one of level size i, each
      built from the one before. */
  predicate Prefix(image: Image, sizes: seq<(nat, nat)>, levels: seq<Option<Image>>, i: nat)
  {
    i <= |sizes| && |levels| == i + 1 && levels[0] == Some(image) &&
    (forall j :: 0 <= j < |levels| ==> levels[j].Some? && WellShaped(levels[j].value)) &&
    (levels[i].value.lines, levels[i].value.cols) == LevelSize(image, sizes, i) &&
    (forall j :: 0 <= j < i ==> BuiltFrom(levels, sizes, j))
  }

  /** The next level can be built, and appending it extends the prefix. */
  lemma PrefixStep(image: Image, sizes: seq<(nat, nat)>, levels: seq<Option<Image>>, i: nat)
    requires SizesFit(image, sizes) && Prefix(image, sizes, levels, i) && i < |sizes|
    ensures WellShaped(levels[i].value) && Fits(levels[i].value, sizes[i].0, sizes[i].1)
    ensures Prefix(image, sizes, levels + [Some(Build(levels[i].value, sizes[i].0, sizes[i].1))], i + 1)
  {
    var next := Build(levels[i].value, sizes[i].0, sizes[i].1);
    var levels' := levels + [Some(next)];
    forall j | 0 <= j < i ensures BuiltFrom(levels', sizes, j) {
      BuiltFromExtend(levels, Some(next), sizes, j);
    }
    assert BuiltFrom(levels', sizes, i);
  }

  /** The Pyramid constructors: nLevels + 1 slots, slot 0 the input, and
      level i built from level i - 1 for i = 1 .. nLevels in order. The
      band list of the second constructor only serves the statistics and
      does not change the levels. */
  method NewPyramid(image: Image, sizes: seq<(nat, nat)>) returns (p: Pyramid)
    requires WellShaped(image) && SizesFit(image, sizes)
    ensures |p.levels| == |sizes| + 1 && p.levels[0] == Some(image)
    ensures forall i :: 0 <= i < |p.levels| ==> p.levels[i].Some? && WellShaped(p.levels[i].value)
    ensures forall i :: 0 <= i < |sizes| ==> BuiltFrom(p.levels, sizes, i)
  {
    var levels: seq<Option<Image>> := [Some(image)];
    var i := 0;
    while i < |sizes|
      invariant Prefix(image, sizes, levels, i)
    {
      PrefixStep(image, sizes, levels, i);
      levels := levels + [Some(Build(levels[i].value, sizes[i].0, sizes[i].1))];
      i := i + 1;
    }
    p := Pyramid(levels);
  }

  /** Pyramid::getNLevels: the number of slots, nLevels + 1. */
  function NLevels(p: Pyramid): nat
  {
    |p.levels|
  }

  /** Pyramid::getLevel. */
  function GetLevel(p: Pyramid, i: nat): Option<Image>
    requires i < NLevels(p)
  {
    p.levels[i]
  }

  /** Pyramid::releaseLevel: slot i is emptied, every other slot kept. */
  function ReleaseLevel(p: Pyramid, i: nat): (q: Pyramid)
    requires i < NLevels(p)
    ensures NLevels(q) == NLevels(p)
    ensures GetLevel(q, i) == None
    ensures forall j :: 0 <= j < NLevels(p) && j != i ==> GetLevel(q, j) == GetLevel(p, j)
  {
    Pyramid(p.levels[i := None])
  }

  /** A band of the input whose values lie in [lo, hi] keeps them within
      [lo, hi] on every level; a constant band stays constant. */
  lemma {:induction false} PyramidBetween(image: Image, sizes: seq<(nat, nat)>, p: Pyramid, b: nat, lo: real, hi: real, i: nat)
    requires WellShaped(image) && SizesFit(image, sizes) && b < NBands(image)
    requires |p.levels| == |sizes| + 1 && p.levels[0] == Some(image)
    requires forall i :: 0 <= i < |p.levels| ==> p.levels[i].Some? && WellShaped(p.levels[i].value)
    requires forall i :: 0 <= i < |sizes| ==> BuiltFrom(p.levels, sizes, i)
    requires forall lin, col :: 0 <= lin < image.lines && 0 <= col < image.cols ==> lo <= image.data[b][lin][col] <= hi
    requires i < |p.levels|
    ensures var level := p.levels[i].value;
      WellShaped(level) && b < NBands(level) &&
      forall lin, col :: 0 <= lin < level.lines && 0 <= col < level.cols ==> lo <= level.data[b][lin][col] <= hi
  {
    LevelsBetween(p.levels, sizes, b, lo, hi, i);
  }

  /** The induction behind PyramidBetween, over the levels built so far. */
  lemma {:induction false} LevelsBetween(levels: seq<Option<Image>>, sizes: seq<(nat, nat)>, b: nat, lo: real, hi: real, i: nat)
    requires i < |levels| && i <= |sizes|
    requires forall j :: 0 <= j < i ==> BuiltFrom(levels, sizes, j)
    requires levels[0].Some? && WellShaped(levels[0].value) && b < NBands(levels[0].value)
    requires forall lin, col :: 0 <= lin < levels[0].value.lines && 0 <= col < levels[0].value.cols ==>
      lo <= levels[0].value.data[b][lin][col] <= hi
    ensures levels[i].Some? && WellShaped(levels[i].value) && b < NBands(levels[i].value)
    ensures forall lin, col :: 0 <= lin < levels[i].value.lines && 0 <= col < levels[i].value.cols ==>
      lo <= levels[i].value.data[b][lin][col] <= hi
  {
    if i > 0 {
      LevelsBetween(levels, sizes, b, lo, hi, i - 1);
      assert BuiltFrom(levels, sizes, i - 1);
      var prev := levels[i - 1].value;
      BuildBetween(prev, sizes[i - 1].0, sizes[i - 1].1, b, lo, hi);
    }
  }
}
