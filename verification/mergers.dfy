/** The family of merge criteria: the band-aggregated predicate and
    homogeneity test, the dissimilarity sum and the L1 distance shared by
    all mergers, the Euclidean merge and thresholds, the radar and optical
    cartoon tests, and the composite merger that routes band b to its b-th
    sub-merger.

    Failures of the C++ code are of two kinds here. Assertions about the
    shape of the arguments (equal band counts, a band index in range, a
    region of size zero in a statistical test) are preconditions. Failures
    that depend on the configured parameters or on the data (a parameter
    that was never set, a zero divisor, a zero pooled deviation) are
    `Fault` results. */
module Mergers {
  import opened Results
  import opened Regions
  import opened Sums

  type Params = map<string, real>

  datatype Fault =
    | MissingParam(name: string)   // getParam's assertion on an unknown name
    | DivisionByZero               // a quotient whose divisor is zero
    | ZeroRootVariance             // the assertion on the pooled deviation

  /** The numerical library: square root, the Student-t cumulative
      distribution (degrees of freedom, value) and the standard normal
      cumulative distribution. They are parameters of the model. */
  datatype Dist = Dist(sqrt: real -> real, tCdf: (real, real) -> real, normalCdf: real -> real)

  datatype Kind = Euclidean | RadarCartoon | OpticalCartoon

  /** A merger. Every leaf kind merges with EuclideanMerger::merge. A
      composite keeps its sub-mergers with one stats-update flag each; its
      own parameter map is never read. */
  datatype Merger =
    | Leaf(kind: Kind, params: Params, strict: bool)
    | Composite(subs: seq<Merger>, needStatsUpdate: seq<bool>, params: Params, strict: bool)

  function Abs(x: real): (a: real)
    ensures a >= 0.0 && (a == x || a == -x)
  {
    if x < 0.0 then -x else x
  }

  // ---------------------------------------------------------------------
  // Construction and parameters
  // ---------------------------------------------------------------------

  /** The constructors of the leaf mergers: no parameters, strict mode. */
  function NewLeaf(kind: Kind): (m: Merger)
    ensures m.Leaf? && m.kind == kind && m.params == map[] && m.strict
  {
    Leaf(kind, map[], true)
  }

  /** CompositeMerger::CompositeMerger: no sub-mergers, strict mode. */
  function NewComposite(): (m: Merger)
    ensures m.Composite? && m.subs == [] && m.needStatsUpdate == [] && m.strict
    ensures WellFormed(m)
  {
    Composite([], [], map[], true)
  }

  /** Every composite, at every depth, has one flag per sub-merger. */
  predicate WellFormed(m: Merger)
    decreases m
  {
    match m
    case Leaf(_, _, _) => true
    case Composite(subs, flags, _, _) =>
      |subs| == |flags| && forall i :: 0 <= i < |subs| ==> WellFormed(subs[i])
  }

  /** AbstractMerger::getParam: the stored value, or a fault naming the
      missing parameter. */
  function GetParam(params: Params, name: string): (res: Result<real, Fault>)
    ensures res.Ok? <==> name in params
    ensures res.Ok? ==> res.value == params[name]
    ensures res.Fault? ==> res.error == MissingParam(name)
  {
    if name in params then Ok(params[name]) else Fault(MissingParam(name))
  }

  /** AbstractMerger::setParam overwrites one entry; CompositeMerger::setParam
      forwards the call to every sub-merger. */
  function SetParam(m: Merger, name: string, value: real): (r: Merger)
    ensures Shape(r) == Shape(m)
    ensures m.Leaf? ==> r.params.Keys == m.params.Keys + {name} && r.params[name] == value
    ensures m.Leaf? ==> forall k :: k in m.params && k != name ==> r.params[k] == m.params[k]
    decreases m
  {
    match m
    case Leaf(kind, params, strict) => Leaf(kind, params[name := value], strict)
    case Composite(subs, flags, params, strict) =>
      var subs' := seq(|subs|, i requires 0 <= i < |subs| => SetParam(subs[i], name, value));
      assert seq(|subs'|, i requires 0 <= i < |subs'| => Shape(subs'[i])) == seq(|subs|, i requires 0 <= i < |subs| => Shape(subs[i]));
      Composite(subs', flags, params, strict)
  }

  /** AbstractMerger::setParams replaces the whole map;
      CompositeMerger::setParams forwards it to every sub-merger. */
  function SetParams(m: Merger, ps: Params): (r: Merger)
    ensures Shape(r) == Shape(m)
    ensures m.Leaf? ==> r.params == ps
    decreases m
  {
    match m
    case Leaf(kind, _, strict) => Leaf(kind, ps, strict)
    case Composite(subs, flags, params, strict) =>
      var subs' := seq(|subs|, i requires 0 <= i < |subs| => SetParams(subs[i], ps));
      assert seq(|subs'|, i requires 0 <= i < |subs'| => Shape(subs'[i])) == seq(|subs|, i requires 0 <= i < |subs| => Shape(subs[i]));
      Composite(subs', flags, params, strict)
  }

  /** The merger with every parameter map cleared: the tree of kinds, flags
      and modes, which setting parameters never changes. */
  function Shape(m: Merger): Merger
    decreases m
  {
    match m
    case Leaf(kind, _, strict) => Leaf(kind, map[], strict)
    case Composite(subs, flags, _, strict) =>
      Composite(seq(|subs|, i requires 0 <= i < |subs| => Shape(subs[i])), flags, map[], strict)
  }

  /** Every leaf reachable from m maps `name` to `value`. */
  predicate LeavesHave(m: Merger, name: string, value: real)
    decreases m
  {
    match m
    case Leaf(_, params, _) => name in params && params[name] == value
    case Composite(subs, _, _, _) => forall i :: 0 <= i < |subs| ==> LeavesHave(subs[i], name, value)
  }

  /** Every leaf reachable from m has exactly the parameter map ps. */
  predicate LeavesAre(m: Merger, ps: Params)
    decreases m
  {
    match m
    case Leaf(_, params, _) => params == ps
    case Composite(subs, _, _, _) => forall i :: 0 <= i < |subs| ==> LeavesAre(subs[i], ps)
  }

  /** A parameter set on any merger reaches every leaf below it. */
  lemma {:induction false} SetParamBroadcast(m: Merger, name: string, value: real)
    ensures LeavesHave(SetParam(m, name, value), name, value)
    decreases m
  {
    match m
    case Leaf(_, _, _) =>
    case Composite(subs, _, _, _) =>
      forall i | 0 <= i < |subs| ensures LeavesHave(SetParam(m, name, value).subs[i], name, value) {
        SetParamBroadcast(subs[i], name, value);
      }
  }

  /** A parameter map set on any merger becomes the map of every leaf. */
  lemma {:induction false} SetParamsBroadcast(m: Merger, ps: Params)
    ensures LeavesAre(SetParams(m, ps), ps)
    decreases m
  {
    match m
    case Leaf(_, _, _) =>
    case Composite(subs, _, _, _) =>
      forall i | 0 <= i < |subs| ensures LeavesAre(SetParams(m, ps).subs[i], ps) {
        SetParamsBroadcast(subs[i], ps);
      }
  }

  /** CompositeMerger::addMerger: the merger and its flag are appended
      together. */
  function AddMerger(c: Merger, sub: Merger, needStatsUpdate: bool): (r: Merger)
    requires c.Composite?
    ensures r.Composite? && r.subs == c.subs + [sub] && r.needStatsUpdate == c.needStatsUpdate + [needStatsUpdate]
    ensures r.params == c.params && r.strict == c.strict
    ensures WellFormed(c) && WellFormed(sub) ==> WellFormed(r)
  {
    c.(subs := c.subs + [sub], needStatsUpdate := c.needStatsUpdate + [needStatsUpdate])
  }

  /** CompositeMerger::getMerger: the i-th sub-merger. */
  function GetMerger(c: Merger, i: nat): (sub: Merger)
    requires c.Composite? && i < |c.subs|
    ensures sub < c
  {
    c.subs[i]
  }

  /** The sub-merger added i-th is the one returned for index i. */
  lemma GetMergerAfterAdd(c: Merger, sub: Merger, flag: bool, i: nat)
    requires c.Composite? && i <= |c.subs|
    ensures GetMerger(AddMerger(c, sub, flag), i) == if i == |c.subs| then sub else GetMerger(c, i)
  {
  }

  // ---------------------------------------------------------------------
  // Decimal rendering of band numbers (Te2String)
  // ---------------------------------------------------------------------

  function DigitChar(d: nat): char
    requires d < 10
  {
    "0123456789"[d]
  }

  /** The decimal digits of n, most significant first, no leading zero. */
  function NatToString(n: nat): (s: string)
    ensures |s| >= 1
    ensures forall i :: 0 <= i < |s| ==> '0' <= s[i] <= '9'
    decreases n
  {
    if n < 10 then [DigitChar(n)] else NatToString(n / 10) + [DigitChar(n % 10)]
  }

  /** The value of a string of decimal digits. */
  function DigitsValue(s: string): nat
    requires forall i :: 0 <= i < |s| ==> '0' <= s[i] <= '9'
  {
    if s == [] then 0 else DigitsValue(s[..|s| - 1]) * 10 + ((s[|s| - 1] as int) - ('0' as int))
  }

  lemma {:induction false} NatToStringRoundTrip(n: nat)
    ensures DigitsValue(NatToString(n)) == n
    decreases n
  {
    if n >= 10 {
      NatToStringRoundTrip(n / 10);
      var s := NatToString(n);
      assert s[..|s| - 1] == NatToString(n / 10);
    }
  }

  /** Different bands read different `image_variance_<b>` parameters. */
  lemma BandParamNamesDistinct(b1: nat, b2: nat)
    requires b1 != b2
    ensures ImageVarianceName(b1) != ImageVarianceName(b2)
  {
    NatToStringRoundTrip(b1);
    NatToStringRoundTrip(b2);
    var p := "image_variance_";
    assert NatToString(b1) != NatToString(b2);
    assert ImageVarianceName(b1)[|p|..] == NatToString(b1);
    assert ImageVarianceName(b2)[|p|..] == NatToString(b2);
  }

  function ImageVarianceName(b: nat): string
  {
    "image_variance_" + NatToString(b)
  }

  // ---------------------------------------------------------------------
  // Aggregation over bands
  // ---------------------------------------------------------------------

  /** The loop of AbstractMerger::predicate(r1, r2) and isHomogenous(r):
      scans the band results in order, stops at the first false in strict
      mode or the first true otherwise, and when it runs out of bands
      answers whether any band was true. A fault stops the scan. */
  function Aggregate(strict: bool, vals: seq<Result<bool, Fault>>, valids: nat): Result<bool, Fault>
  {
    if vals == [] then Ok(valids > 0)
    else match vals[0]
      case Fault(e) => Fault(e)
      case Ok(v) =>
        if !v && strict then Ok(false)
        else if v && !strict then Ok(true)
        else Aggregate(strict, vals[1..], if v then valids + 1 else valids)
  }

  predicate AllOk(vals: seq<Result<bool, Fault>>)
  {
    forall i :: 0 <= i < |vals| ==> vals[i].Ok?
  }

  /** Without faults, strict aggregation is "every band and at least one
      band" and non-strict aggregation is "some band"; with no bands both
      are false. */
  lemma {:induction false} AggregateMeaning(strict: bool, vals: seq<Result<bool, Fault>>, valids: nat)
    requires AllOk(vals)
    ensures strict ==> Aggregate(strict, vals, valids) == Ok((valids > 0 || |vals| > 0) && forall i :: 0 <= i < |vals| ==> vals[i].value)
    ensures !strict ==> Aggregate(strict, vals, valids) == Ok(valids > 0 || exists i :: 0 <= i < |vals| && vals[i].value)
  {
    if vals != [] {
      var v := vals[0].value;
      AggregateMeaning(strict, vals[1..], if v then valids + 1 else valids);
      if strict && v {
        assert forall i :: 1 <= i < |vals| ==> vals[i] == vals[1..][i - 1];
      }
      if !strict && !v {
        if exists i :: 0 <= i < |vals| && vals[i].value {
          var i :| 0 <= i < |vals| && vals[i].value;
          assert vals[1..][i - 1].value;
        }
      }
    }
  }

  /** A fault of the aggregate is the fault of one of the bands. */
  lemma {:induction false} AggregateFault(strict: bool, vals: seq<Result<bool, Fault>>, valids: nat)
    requires Aggregate(strict, vals, valids).Fault?
    ensures exists i :: 0 <= i < |vals| && vals[i] == Fault(Aggregate(strict, vals, valids).error)
  {
    if vals[0].Ok? {
      AggregateFault(strict, vals[1..], if vals[0].value then valids + 1 else valids);
      var i :| 0 <= i < |vals[1..]| && vals[1..][i] == Fault(Aggregate(strict, vals, valids).error);
      assert vals[i + 1] == vals[1..][i];
    }
  }

  /** Every band result is true (all being Ok). */
  predicate EveryBand(vals: seq<Result<bool, Fault>>)
    requires AllOk(vals)
  {
    forall i :: 0 <= i < |vals| ==> vals[i].value
  }

  /** Some band result is true (all being Ok). */
  predicate SomeBand(vals: seq<Result<bool, Fault>>)
    requires AllOk(vals)
  {
    exists i :: 0 <= i < |vals| && vals[i].value
  }

  lemma AggregateBands(strict: bool, vals: seq<Result<bool, Fault>>)
    requires AllOk(vals)
    ensures Aggregate(strict, vals, 0).Ok?
    ensures strict ==> (Aggregate(strict, vals, 0).value <==> |vals| > 0 && EveryBand(vals))
    ensures !strict ==> (Aggregate(strict, vals, 0).value <==> SomeBand(vals))
  {
    AggregateMeaning(strict, vals, 0);
  }

  /** Both facts above for a scan that starts with no valid band. */
  lemma AggregateFacts(strict: bool, vals: seq<Result<bool, Fault>>)
    ensures Aggregate(strict, vals, 0).Fault? ==>
      exists i :: 0 <= i < |vals| && vals[i] == Fault(Aggregate(strict, vals, 0).error)
    ensures AllOk(vals) && strict ==>
      Aggregate(strict, vals, 0) == Ok(|vals| > 0 && forall i :: 0 <= i < |vals| ==> vals[i].value)
    ensures AllOk(vals) && !strict ==>
      Aggregate(strict, vals, 0) == Ok(exists i :: 0 <= i < |vals| && vals[i].value)
  {
    if Aggregate(strict, vals, 0).Fault? { AggregateFault(strict, vals, 0); }
    if AllOk(vals) { AggregateMeaning(strict, vals, 0); }
  }

  // ---------------------------------------------------------------------
  // Per-band tests
  // ---------------------------------------------------------------------

  /** Band b is routed to a leaf: every composite on the way has a b-th
      sub-merger (CompositeMerger::getMerger's assertion). */
  predicate Routes(m: Merger, b: nat)
    decreases m
  {
    match m
    case Leaf(_, _, _) => true
    case Composite(subs, _, _, _) => b < |subs| && Routes(subs[b], b)
  }

  /** The leaf band b is routed to. */
  function RoutedLeaf(m: Merger, b: nat): (leaf: Merger)
    requires Routes(m, b)
    ensures leaf.Leaf?
    decreases m
  {
    match m
    case Leaf(_, _, _) => m
    case Composite(subs, _, _, _) => RoutedLeaf(subs[b], b)
  }

  /** The sizes a statistical test accepts: r1 a pixel, or r1 a region and
      r2 not empty (the assertion on both sizes in the region-vs-region
      branch of the cartoon mergers). */
  predicate SizesTestable(r1: Region, r2: Region)
  {
    r1.size == 1 || (r1.size > 1 && r2.size >= 1)
  }

  /** The band-b predicate is defined for this merger and pair. */
  predicate PredicateDefined(m: Merger, b: nat, r1: Region, r2: Region)
  {
    Routes(m, b) && NBands(r1) == NBands(r2) && b < NBands(r1) &&
    (RoutedLeaf(m, b).kind == Euclidean || SizesTestable(r1, r2))
  }

  /** EuclideanMerger::predicate(r1, r2, band). */
  function EuclideanBand(params: Params, r1: Region, r2: Region, b: nat): (res: Result<bool, Fault>)
    requires NBands(r1) == NBands(r2) && b < NBands(r1)
    ensures res.Ok? <==> "euclidean_distance_threshold" in params
    ensures res.Ok? ==> (res.value <==> Abs(r1.mean[b] - r2.mean[b]) <= params["euclidean_distance_threshold"])
  {
    var t :- GetParam(params, "euclidean_distance_threshold");
    Ok(Abs(r1.mean[b] - r2.mean[b]) <= t)
  }

  /** The Euclidean threshold test does not depend on the order of the
      two regions. */
  lemma EuclideanBandSymmetric(params: Params, r1: Region, r2: Region, b: nat)
    requires NBands(r1) == NBands(r2) && b < NBands(r1)
    ensures EuclideanBand(params, r1, r2, b) == EuclideanBand(params, r2, r1, b)
  {
  }

  /** RadarCartoonMerger::predicate(r1, r2, band). */
  function RadarBand(params: Params, dist: Dist, r1: Region, r2: Region, b: nat): (res: Result<bool, Fault>)
    requires NBands(r1) == NBands(r2) && b < NBands(r1) && SizesTestable(r1, r2)
    ensures r1.size == 1 ==> res == EuclideanBand(params, r1, r2, b)
    ensures r1.size > 1 && r2.size == 1 ==>
      (res.Ok? <==> "vcritic_factor" in params) &&
      (res.Ok? ==> (res.value <==> r2.mean[b] <= params["vcritic_factor"] * r1.mean[b]))
    ensures r1.size > 1 && r2.size > 1 && res.Ok? ==>
      "ENL" in params && "confidence_level" in params && params["ENL"] != 0.0 &&
      var pooled := PooledVariance(r1.mean[b], r1.size, r2.mean[b], r2.size, params["ENL"]);
      var root := dist.sqrt(PairSpread(pooled, r1.size, r2.size));
      root != 0.0 &&
      (res.value <==> 1.0 - dist.tCdf(Dof(r1.size, r2.size), Abs(r1.mean[b] - r2.mean[b]) / root) >= 1.0 - params["confidence_level"])
  {
    if r1.size == 1 then EuclideanBand(params, r1, r2, b)
    else if r2.size == 1 then
      var factor :- GetParam(params, "vcritic_factor");
      var vcritic := factor * r1.mean[b];
      Ok(!(r2.mean[b] > vcritic))
    else
      var enl :- GetParam(params, "ENL");
      var meanA, meanB := r1.mean[b], r2.mean[b];
      if enl == 0.0 then Fault(DivisionByZero)
      else
        var confidence :- GetParam(params, "confidence_level");
        var dof := Dof(r1.size, r2.size);
        var pooled := PooledVariance(meanA, r1.size, meanB, r2.size, enl);
        var root := dist.sqrt(PairSpread(pooled, r1.size, r2.size));
        if root == 0.0 then Fault(ZeroRootVariance)
        else
          var t := Abs(meanA - meanB) / root;
          Ok(1.0 - dist.tCdf(dof, t) >= 1.0 - confidence)
  }

  /** Degrees of freedom of the two-sample Student-t test. */
  function Dof(s1: nat, s2: nat): real
  {
    (s1 + s2 - 2) as real
  }

  /** A variance spread over two samples: v * (1/s1 + 1/s2). */
  function PairSpread(v: real, s1: nat, s2: nat): real
    requires s1 > 0 && s2 > 0
  {
    v * (1.0 / s1 as real + 1.0 / s2 as real)
  }

  /** The radar estimate of the pooled variance: each region's variance is
      mean^2 / ENL, weighted by size - 1 over the degrees of freedom. */
  function PooledVariance(meanA: real, s1: nat, meanB: real, s2: nat, enl: real): real
    requires s1 > 1 && s2 > 1 && enl != 0.0
  {
    ((s1 - 1) as real * (meanA * meanA / enl) + (s2 - 1) as real * (meanB * meanB / enl)) / Dof(s1, s2)
  }

  /** OpticalCartoonMerger::predicate(r1, r2, band). The band's image
      variance and the confidence level are read before the branch. */
  function OpticalBand(params: Params, dist: Dist, r1: Region, r2: Region, b: nat): (res: Result<bool, Fault>)
    requires NBands(r1) == NBands(r2) && b < NBands(r1) && SizesTestable(r1, r2)
    ensures r1.size == 1 ==> res == EuclideanBand(params, r1, r2, b)
    ensures r1.size > 1 && res.Ok? ==> ImageVarianceName(b) in params && "confidence_level" in params
    ensures r1.size > 1 && r2.size == 1 && res.Ok? ==>
      var root := dist.sqrt(params[ImageVarianceName(b)]);
      root != 0.0 &&
      (res.value <==> 1.0 - dist.normalCdf(Abs(r1.mean[b] - r2.mean[b]) / root) >= 1.0 - params["confidence_level"])
    ensures r1.size > 1 && r2.size > 1 && res.Ok? ==>
      var root := dist.sqrt(PairSpread(params[ImageVarianceName(b)], r1.size, r2.size));
      root != 0.0 &&
      (res.value <==> 1.0 - dist.tCdf(Dof(r1.size, r2.size), Abs(r1.mean[b] - r2.mean[b]) / root) >= 1.0 - params["confidence_level"])
  {
    if r1.size == 1 then EuclideanBand(params, r1, r2, b)
    else
      var meanA, meanB := r1.mean[b], r2.mean[b];
      var totalVariance :- GetParam(params, ImageVarianceName(b));
      var confidence :- GetParam(params, "confidence_level");
      var probability := 1.0 - confidence;
      if r2.size == 1 then
        var root := dist.sqrt(totalVariance);
        if root == 0.0 then Fault(DivisionByZero)
        else
          var z := Abs(meanA - meanB) / root;
          Ok(1.0 - dist.normalCdf(z) >= probability)
      else
        var dof := Dof(r1.size, r2.size);
        var root := dist.sqrt(PairSpread(totalVariance, r1.size, r2.size));
        if root == 0.0 then Fault(ZeroRootVariance)
        else
          var t := Abs(meanA - meanB) / root;
          Ok(1.0 - dist.tCdf(dof, t) >= probability)
  }

  /** The per-band predicate of any merger: composites delegate band b to
      their b-th sub-merger. */
  function BandPredicate(m: Merger, dist: Dist, r1: Region, r2: Region, b: nat): (res: Result<bool, Fault>)
    requires PredicateDefined(m, b, r1, r2)
    ensures m.Composite? ==> res == BandPredicate(GetMerger(m, b), dist, r1, r2, b)
    decreases m
  {
    match m
    case Leaf(Euclidean, params, _) => EuclideanBand(params, r1, r2, b)
    case Leaf(RadarCartoon, params, _) => RadarBand(params, dist, r1, r2, b)
    case Leaf(OpticalCartoon, params, _) => OpticalBand(params, dist, r1, r2, b)
    case Composite(subs, _, _, _) => BandPredicate(subs[b], dist, r1, r2, b)
  }

  /** A radar region is compared with a pixel through the ratio of the
      pixel value to the region mean, so the test depends on which side is
      the region: with vcritic_factor 2, a region of mean 1 refuses a pixel
      of value 3, whereas a region of mean 3 accepts a pixel of value 1. */
  lemma RadarRegionVsPixelAsymmetric(dist: Dist)
    ensures
      var params := map["vcritic_factor" := 2.0];
      var big1 := Region(0, 2, Box(0, 0, 1, 1), [1.0], [0.0], [0.0], []);
      var px3 := Region(1, 1, Box(1, 0, 2, 1), [3.0], [0.0], [0.0], []);
      var big3 := Region(2, 2, Box(0, 0, 1, 1), [3.0], [0.0], [0.0], []);
      var px1 := Region(3, 1, Box(1, 0, 2, 1), [1.0], [0.0], [0.0], []);
      RadarBand(params, dist, big1, px3, 0) == Ok(false) &&
      RadarBand(params, dist, big3, px1, 0) == Ok(true)
  {
  }

  /** Between two regions the radar test is symmetric: the pooled variance
      and the degrees of freedom do not depend on the order. */
  lemma RadarRegionsSymmetric(params: Params, dist: Dist, r1: Region, r2: Region, b: nat)
    requires NBands(r1) == NBands(r2) && b < NBands(r1)
    requires r1.size > 1 && r2.size > 1
    ensures RadarBand(params, dist, r1, r2, b) == RadarBand(params, dist, r2, r1, b)
  {
    assert Dof(r1.size, r2.size) == Dof(r2.size, r1.size);
    if "ENL" in params && params["ENL"] != 0.0 {
      var enl := params["ENL"];
      assert PooledVariance(r1.mean[b], r1.size, r2.mean[b], r2.size, enl) == PooledVariance(r2.mean[b], r2.size, r1.mean[b], r1.size, enl);
      SpreadSymmetric(PooledVariance(r1.mean[b], r1.size, r2.mean[b], r2.size, enl), r1.size, r2.size);
      assert Abs(r1.mean[b] - r2.mean[b]) == Abs(r2.mean[b] - r1.mean[b]);
    }
  }

  lemma SpreadSymmetric(v: real, s1: nat, s2: nat)
    requires s1 > 0 && s2 > 0
    ensures PairSpread(v, s1, s2) == PairSpread(v, s2, s1)
  {
  }

  /** Between two regions the optical test is symmetric as well. */
  lemma OpticalRegionsSymmetric(params: Params, dist: Dist, r1: Region, r2: Region, b: nat)
    requires NBands(r1) == NBands(r2) && b < NBands(r1)
    requires r1.size > 1 && r2.size > 1
    ensures OpticalBand(params, dist, r1, r2, b) == OpticalBand(params, dist, r2, r1, b)
  {
    assert Dof(r1.size, r2.size) == Dof(r2.size, r1.size);
    if ImageVarianceName(b) in params {
      SpreadSymmetric(params[ImageVarianceName(b)], r1.size, r2.size);
      assert Abs(r1.mean[b] - r2.mean[b]) == Abs(r2.mean[b] - r1.mean[b]);
    }
  }

  /** When the cumulative distribution is non-decreasing, an optical region
      accepts every region of the same size whose mean is at least as close
      as that of a region it accepts. */
  lemma OpticalCloserAccepted(params: Params, dist: Dist, r1: Region, r2: Region, r3: Region, b: nat)
    requires NBands(r1) == NBands(r2) == NBands(r3) && b < NBands(r1)
    requires r1.size > 1 && r2.size > 1 && r3.size == r2.size
    requires forall d, x, y :: x <= y ==> dist.tCdf(d, x) <= dist.tCdf(d, y)
    requires Abs(r1.mean[b] - r3.mean[b]) <= Abs(r1.mean[b] - r2.mean[b])
    requires ImageVarianceName(b) in params ==> dist.sqrt(PairSpread(params[ImageVarianceName(b)], r1.size, r2.size)) > 0.0
    requires OpticalBand(params, dist, r1, r2, b) == Ok(true)
    ensures OpticalBand(params, dist, r1, r3, b) == Ok(true)
  {
    var root := dist.sqrt(PairSpread(params[ImageVarianceName(b)], r1.size, r2.size));
    var dof := Dof(r1.size, r2.size);
    var t2, t3 := Abs(r1.mean[b] - r2.mean[b]) / root, Abs(r1.mean[b] - r3.mean[b]) / root;
    DivideMonotone(Abs(r1.mean[b] - r3.mean[b]), Abs(r1.mean[b] - r2.mean[b]), root);
    assert 1.0 - dist.tCdf(dof, t2) >= 1.0 - params["confidence_level"];
    assert dist.tCdf(dof, t3) <= dist.tCdf(dof, t2);
  }

  lemma DivideMonotone(x: real, y: real, d: real)
    requires x <= y && d > 0.0
    ensures x / d <= y / d
  {
  }

  /** AbstractMerger::predicate(r1, r2): the per-band predicates aggregated
      in band order. */
  function Predicate(m: Merger, dist: Dist, r1: Region, r2: Region): (res: Result<bool, Fault>)
    requires NBands(r1) == NBands(r2)
    requires forall b :: 0 <= b < NBands(r1) ==> PredicateDefined(m, b, r1, r2)
    ensures NBands(r1) == 0 ==> res == Ok(false)
  {
    Aggregate(m.strict, BandPredicates(m, dist, r1, r2), 0)
  }

  /** The per-band predicate results, in band order. */
  function BandPredicates(m: Merger, dist: Dist, r1: Region, r2: Region): (vals: seq<Result<bool, Fault>>)
    requires NBands(r1) == NBands(r2)
    requires forall b :: 0 <= b < NBands(r1) ==> PredicateDefined(m, b, r1, r2)
    ensures |vals| == NBands(r1)
    ensures forall b :: 0 <= b < NBands(r1) ==> vals[b] == BandPredicate(m, dist, r1, r2, b)
  {
    seq(NBands(r1), b requires 0 <= b < NBands(r1) => BandPredicate(m, dist, r1, r2, b))
  }

  /** The predicate in terms of the bands: in strict mode (the default)
      every band and at least one band must accept, otherwise some band
      must; a fault is the fault of one of the bands. */
  lemma PredicateMeaning(m: Merger, dist: Dist, r1: Region, r2: Region)
    requires NBands(r1) == NBands(r2)
    requires forall b :: 0 <= b < NBands(r1) ==> PredicateDefined(m, b, r1, r2)
    ensures Predicate(m, dist, r1, r2).Fault? ==>
      exists b :: 0 <= b < NBands(r1) && BandPredicate(m, dist, r1, r2, b) == Fault(Predicate(m, dist, r1, r2).error)
    ensures AllOk(BandPredicates(m, dist, r1, r2)) ==> Predicate(m, dist, r1, r2).Ok?
    ensures AllOk(BandPredicates(m, dist, r1, r2)) && m.strict ==>
      (Predicate(m, dist, r1, r2).value <==> NBands(r1) > 0 && EveryBand(BandPredicates(m, dist, r1, r2)))
    ensures AllOk(BandPredicates(m, dist, r1, r2)) && !m.strict ==>
      (Predicate(m, dist, r1, r2).value <==> SomeBand(BandPredicates(m, dist, r1, r2)))
  {
    var vals := BandPredicates(m, dist, r1, r2);
    AggregateFacts(m.strict, vals);
    if Predicate(m, dist, r1, r2).Fault? {
      var i :| 0 <= i < |vals| && vals[i] == Fault(Predicate(m, dist, r1, r2).error);
      assert BandPredicate(m, dist, r1, r2, i) == vals[i];
    }
    if AllOk(vals) {
      AggregateBands(m.strict, vals);
    }
  }

  // ---------------------------------------------------------------------
  // Homogeneity
  // ---------------------------------------------------------------------

  /** EuclideanMerger::isHomogenous(r, band), inherited by every leaf. */
  function HomogeneousBand(params: Params, r: Region, b: nat): (res: Result<bool, Fault>)
    requires b < |r.cv|
    ensures res.Ok? <==> "cv_threshold" in params
    ensures res.Ok? ==> (res.value <==> r.cv[b] <= params["cv_threshold"])
  {
    var t :- GetParam(params, "cv_threshold");
    Ok(r.cv[b] <= t)
  }

  function BandHomogeneous(m: Merger, r: Region, b: nat): (res: Result<bool, Fault>)
    requires Routes(m, b) && b < |r.cv|
    ensures res == HomogeneousBand(RoutedLeaf(m, b).params, r, b)
    decreases m
  {
    match m
    case Leaf(_, params, _) => HomogeneousBand(params, r, b)
    case Composite(subs, _, _, _) => BandHomogeneous(subs[b], r, b)
  }

  /** AbstractMerger::isHomogenous(r): the same aggregation over the
      region's bands. */
  function IsHomogeneous(m: Merger, r: Region): (res: Result<bool, Fault>)
    requires NBands(r) <= |r.cv|
    requires forall b :: 0 <= b < NBands(r) ==> Routes(m, b)
    ensures NBands(r) == 0 ==> res == Ok(false)
  {
    Aggregate(m.strict, BandHomogeneities(m, r), 0)
  }

  function BandHomogeneities(m: Merger, r: Region): (vals: seq<Result<bool, Fault>>)
    requires NBands(r) <= |r.cv|
    requires forall b :: 0 <= b < NBands(r) ==> Routes(m, b)
    ensures |vals| == NBands(r)
    ensures forall b :: 0 <= b < NBands(r) ==> vals[b] == BandHomogeneous(m, r, b)
  {
    seq(NBands(r), b requires 0 <= b < NBands(r) => BandHomogeneous(m, r, b))
  }

  /** Homogeneity in terms of the bands, with the same rule as the
      predicate. */
  lemma IsHomogeneousMeaning(m: Merger, r: Region)
    requires NBands(r) <= |r.cv|
    requires forall b :: 0 <= b < NBands(r) ==> Routes(m, b)
    ensures AllOk(BandHomogeneities(m, r)) ==> IsHomogeneous(m, r).Ok?
    ensures AllOk(BandHomogeneities(m, r)) && m.strict ==>
      (IsHomogeneous(m, r).value <==> NBands(r) > 0 && EveryBand(BandHomogeneities(m, r)))
    ensures AllOk(BandHomogeneities(m, r)) && !m.strict ==>
      (IsHomogeneous(m, r).value <==> SomeBand(BandHomogeneities(m, r)))
  {
    var vals := BandHomogeneities(m, r);
    AggregateFacts(m.strict, vals);
    if AllOk(vals) {
      AggregateBands(m.strict, vals);
    }
  }

  // ---------------------------------------------------------------------
  // Dissimilarity and distance
  // ---------------------------------------------------------------------

  /** EuclideanMerger::getDissimilarity(p, r, band). */
  function EuclideanDissimilarity(p: seq<real>, r: Region, b: nat): (d: real)
    requires |p| == |r.mean| && b < |p|
    ensures d >= 0.0
    ensures d == 0.0 <==> p[b] == r.mean[b]
  {
    Abs(p[b] - r.mean[b])
  }

  /** RadarCartoonMerger::getDissimilarity: the Euclidean value divided by
      mean / sqrt(ENL). */
  function RadarDissimilarity(params: Params, dist: Dist, p: seq<real>, r: Region, b: nat): (res: Result<real, Fault>)
    requires |p| == |r.mean| && b < |p|
    ensures res.Ok? <==> "ENL" in params && dist.sqrt(params["ENL"]) != 0.0 && r.mean[b] != 0.0
    ensures res.Ok? ==> res.value * (r.mean[b] / dist.sqrt(params["ENL"])) == EuclideanDissimilarity(p, r, b)
  {
    var distance := EuclideanDissimilarity(p, r, b);
    var enl :- GetParam(params, "ENL");
    var root := dist.sqrt(enl);
    if root == 0.0 then Fault(DivisionByZero)
    else
      var n := r.mean[b] / root;
      if n == 0.0 then Fault(DivisionByZero) else Ok(distance / n)
  }

  /** OpticalCartoonMerger::getDissimilarity: the Euclidean value divided
      by the band's image variance. */
  function OpticalDissimilarity(params: Params, p: seq<real>, r: Region, b: nat): (res: Result<real, Fault>)
    requires |p| == |r.mean| && b < |p|
    ensures res.Ok? <==> ImageVarianceName(b) in params && params[ImageVarianceName(b)] != 0.0
    ensures res.Ok? ==> res.value * params[ImageVarianceName(b)] == EuclideanDissimilarity(p, r, b)
    ensures res.Ok? && params[ImageVarianceName(b)] > 0.0 ==> res.value >= 0.0
  {
    var totalVariance :- GetParam(params, ImageVarianceName(b));
    var distance := EuclideanDissimilarity(p, r, b);
    if totalVariance == 0.0 then Fault(DivisionByZero) else Ok(distance / totalVariance)
  }

  function BandDissimilarity(m: Merger, dist: Dist, p: seq<real>, r: Region, b: nat): (res: Result<real, Fault>)
    requires Routes(m, b) && |p| == |r.mean| && b < |p|
    ensures RoutedLeaf(m, b).kind == Euclidean ==> res == Ok(EuclideanDissimilarity(p, r, b))
    decreases m
  {
    match m
    case Leaf(Euclidean, _, _) => Ok(EuclideanDissimilarity(p, r, b))
    case Leaf(RadarCartoon, params, _) => RadarDissimilarity(params, dist, p, r, b)
    case Leaf(OpticalCartoon, params, _) => OpticalDissimilarity(params, p, r, b)
    case Composite(subs, _, _, _) => BandDissimilarity(subs[b], dist, p, r, b)
  }

  /** The values of a sequence of results (0 where there is a fault). */
  function Values(vals: seq<Result<real, Fault>>): (xs: seq<real>)
    ensures |xs| == |vals|
    ensures forall i :: 0 <= i < |vals| && vals[i].Ok? ==> xs[i] == vals[i].value
  {
    seq(|vals|, i requires 0 <= i < |vals| => if vals[i].Ok? then vals[i].value else 0.0)
  }

  /** Adds the values in order; the first fault stops the sum. */
  function SumResults(vals: seq<Result<real, Fault>>): (res: Result<real, Fault>)
    ensures (forall i :: 0 <= i < |vals| ==> vals[i].Ok?) <==> res.Ok?
    ensures res.Fault? ==> exists i :: 0 <= i < |vals| && vals[i] == Fault(res.error)
    ensures res.Ok? ==> res.value == Sum(Values(vals))
  {
    if vals == [] then Ok(0.0)
    else
      var rest := SumResults(vals[1..]);
      assert Values(vals[1..]) == Values(vals)[1..];
      assert forall i :: 1 <= i < |vals| ==> vals[i] == vals[1..][i - 1];
      if vals[0].Fault? then Fault(vals[0].error)
      else if rest.Fault? then Fault(rest.error)
      else Ok(vals[0].value + rest.value)
  }

  /** The per-band dissimilarities of p against r (0 where a band
      faults). */
  function BandValues(m: Merger, dist: Dist, p: seq<real>, r: Region): (xs: seq<real>)
    requires |p| == |r.mean|
    requires forall b :: 0 <= b < |p| ==> Routes(m, b)
    ensures |xs| == |p|
    ensures forall b :: 0 <= b < |p| && BandDissimilarity(m, dist, p, r, b).Ok? ==>
      xs[b] == BandDissimilarity(m, dist, p, r, b).value
  {
    seq(|p|, b requires 0 <= b < |p| =>
      var d := BandDissimilarity(m, dist, p, r, b); if d.Ok? then d.value else 0.0)
  }

  /** The per-band dissimilarity results, in band order. */
  function BandDissimilarities(m: Merger, dist: Dist, p: seq<real>, r: Region): (vals: seq<Result<real, Fault>>)
    requires |p| == |r.mean|
    requires forall b :: 0 <= b < |p| ==> Routes(m, b)
    ensures |vals| == |p|
    ensures forall b :: 0 <= b < |p| ==> vals[b] == BandDissimilarity(m, dist, p, r, b)
  {
    seq(|p|, b requires 0 <= b < |p| => BandDissimilarity(m, dist, p, r, b))
  }

  /** AbstractMerger::getDissimilarity(p, r): the per-band values summed
      over the bands of p. */
  function Dissimilarity(m: Merger, dist: Dist, p: seq<real>, r: Region): (res: Result<real, Fault>)
    requires |p| == |r.mean|
    requires forall b :: 0 <= b < |p| ==> Routes(m, b)
    ensures |p| == 0 ==> res == Ok(0.0)
  {
    SumResults(BandDissimilarities(m, dist, p, r))
  }

  /** The dissimilarity is defined when every band is, and is then the sum
      of the band values; otherwise it fails with the fault of a band. */
  lemma DissimilarityMeaning(m: Merger, dist: Dist, p: seq<real>, r: Region)
    requires |p| == |r.mean|
    requires forall b :: 0 <= b < |p| ==> Routes(m, b)
    ensures (forall b :: 0 <= b < |p| ==> BandDissimilarity(m, dist, p, r, b).Ok?) <==> Dissimilarity(m, dist, p, r).Ok?
    ensures Dissimilarity(m, dist, p, r).Fault? ==>
      exists b :: 0 <= b < |p| && BandDissimilarity(m, dist, p, r, b) == Fault(Dissimilarity(m, dist, p, r).error)
    ensures Dissimilarity(m, dist, p, r).Ok? ==> Dissimilarity(m, dist, p, r).value == Sum(BandValues(m, dist, p, r))
  {
    var vals := BandDissimilarities(m, dist, p, r);
    var res := SumResults(vals);
    assert Dissimilarity(m, dist, p, r) == res;
    if forall b :: 0 <= b < |p| ==> BandDissimilarity(m, dist, p, r, b).Ok? {
      forall i | 0 <= i < |vals| ensures vals[i].Ok? {
        assert vals[i] == BandDissimilarity(m, dist, p, r, i);
      }
    }
    if forall i :: 0 <= i < |vals| ==> vals[i].Ok? {
      forall b | 0 <= b < |p| ensures BandDissimilarity(m, dist, p, r, b).Ok? {
        assert vals[b] == BandDissimilarity(m, dist, p, r, b);
      }
    }
    if res.Ok? {
      ValuesOfBands(m, dist, p, r);
    } else {
      var i :| 0 <= i < |vals| && vals[i] == Fault(res.error);
      assert BandDissimilarity(m, dist, p, r, i) == vals[i];
    }
  }

  /** When every band is defined, the values of the band results are the
      band values. */
  lemma ValuesOfBands(m: Merger, dist: Dist, p: seq<real>, r: Region)
    requires |p| == |r.mean|
    requires forall b :: 0 <= b < |p| ==> Routes(m, b)
    requires forall b :: 0 <= b < |p| ==> BandDissimilarity(m, dist, p, r, b).Ok?
    ensures Values(BandDissimilarities(m, dist, p, r)) == BandValues(m, dist, p, r)
  {
    var vals := BandDissimilarities(m, dist, p, r);
    var xs, ys := Values(vals), BandValues(m, dist, p, r);
    forall i | 0 <= i < |xs| ensures xs[i] == ys[i] {
      assert vals[i] == BandDissimilarity(m, dist, p, r, i);
    }
  }

  /** For a Euclidean merger the dissimilarity is the L1 distance between
      the pixel and the region mean. */
  lemma EuclideanDissimilarityIsL1(params: Params, strict: bool, dist: Dist, p: seq<real>, r: Region)
    requires |p| == |r.mean|
    ensures Dissimilarity(Leaf(Euclidean, params, strict), dist, p, r) == Ok(L1Distance(p, r.mean))
  {
    var m := Leaf(Euclidean, params, strict);
    forall b | 0 <= b < |p| ensures BandDissimilarity(m, dist, p, r, b) == Ok(Abs(p[b] - r.mean[b])) {
    }
    DissimilarityMeaning(m, dist, p, r);
    assert BandValues(m, dist, p, r) == AbsDiffs(p, r.mean);
  }

  /** The absolute differences of two vectors, band by band. */
  function AbsDiffs(p1: seq<real>, p2: seq<real>): (ds: seq<real>)
    requires |p1| == |p2|
    ensures |ds| == |p1| && forall i :: 0 <= i < |p1| ==> ds[i] == Abs(p1[i] - p2[i])
  {
    seq(|p1|, i requires 0 <= i < |p1| => Abs(p1[i] - p2[i]))
  }

  /** AbstractMerger::getSquaredEuclideanDistance: despite its name, the
      sum of the absolute band differences. */
  function L1Distance(p1: seq<real>, p2: seq<real>): real
    requires |p1| == |p2|
  {
    Sum(AbsDiffs(p1, p2))
  }

  /** The distance is non-negative and symmetric, and it is zero exactly
      on equal vectors. */
  lemma L1Metric(p1: seq<real>, p2: seq<real>)
    requires |p1| == |p2|
    ensures L1Distance(p1, p2) >= 0.0
    ensures L1Distance(p1, p2) == L1Distance(p2, p1)
    ensures L1Distance(p1, p2) == 0.0 <==> p1 == p2
  {
    var terms := AbsDiffs(p1, p2);
    assert AbsDiffs(p2, p1) == terms;
    SumNonNegative(terms);
    if L1Distance(p1, p2) == 0.0 {
      forall i | 0 <= i < |p1| ensures p1[i] == p2[i] {
        assert terms[i] == 0.0;
      }
    }
    if p1 == p2 {
      forall i | 0 <= i < |p1| ensures terms[i] == 0.0 {
        assert p1[i] - p2[i] == 0.0;
      }
      SumZero(terms);
    }
  }

  // ---------------------------------------------------------------------
  // Merging
  // ---------------------------------------------------------------------

  /** EuclideanMerger::merge(r1, r2): r1 takes the union box, the
      size-weighted mean and the summed size. Its variance, cv, id and
      neighbours are untouched, and r2 is not modified. */
  function EuclideanMerge(r1: Region, r2: Region): (r: Region)
    requires NBands(r1) == NBands(r2)
    requires r1.size + r2.size > 0
    ensures r.id == r1.id && r.variance == r1.variance && r.cv == r1.cv && r.neighbours == r1.neighbours
    ensures r.box == UpdateBoundsUnion(r1, r2).box
    ensures r.size == r1.size + r2.size
    ensures r.mean == WeightedMeans(r1, r2)
  {
    UpdateBoundsUnion(r1, r2).(mean := WeightedMeans(r1, r2), size := r1.size + r2.size)
  }

  /** The band means of the merged region: each keeps the size-weighted
      total of both regions and lies between the two old means. */
  function WeightedMeans(r1: Region, r2: Region): (mean: seq<real>)
    requires NBands(r1) == NBands(r2)
    requires r1.size + r2.size > 0
    ensures |mean| == NBands(r1)
    ensures forall b :: 0 <= b < |mean| ==>
      mean[b] * (r1.size + r2.size) as real == r1.mean[b] * r1.size as real + r2.mean[b] * r2.size as real
    ensures forall b :: 0 <= b < |mean| ==> Between(mean[b], r1.mean[b], r2.mean[b])
  {
    seq(NBands(r1), b requires 0 <= b < NBands(r1) => WeightedMean(r1.mean[b], r1.size, r2.mean[b], r2.size))
  }

  /** The mean of one band of the union of two regions of sizes s1 and s2. */
  function WeightedMean(m1: real, s1: nat, m2: real, s2: nat): (m: real)
    requires s1 + s2 > 0
    ensures m * (s1 + s2) as real == m1 * s1 as real + m2 * s2 as real
    ensures Between(m, m1, m2)
  {
    var total := (s1 + s2) as real;
    WeightedMeanFacts(m1, s1 as real, m2, s2 as real, total);
    (m1 * s1 as real + m2 * s2 as real) / total
  }

  predicate Between(x: real, a: real, b: real)
  {
    (a <= x <= b) || (b <= x <= a)
  }

  lemma WeightedMeanFacts(a: real, wa: real, b: real, wb: real, total: real)
    requires wa >= 0.0 && wb >= 0.0 && total == wa + wb && total > 0.0
    ensures ((a * wa + b * wb) / total) * total == a * wa + b * wb
    ensures Between((a * wa + b * wb) / total, a, b)
  {
    WeightedMeanBetween(a, wa, b, wb);
  }

  lemma WeightedMeanBetween(a: real, wa: real, b: real, wb: real)
    requires wa >= 0.0 && wb >= 0.0 && wa + wb > 0.0
    ensures Between((a * wa + b * wb) / (wa + wb), a, b)
  {
    if a <= b {
      WeightedMeanOrdered(a, wa, b, wb);
    } else {
      WeightedMeanOrdered(b, wb, a, wa);
      assert (b * wb + a * wa) / (wb + wa) == (a * wa + b * wb) / (wa + wb);
    }
  }

  lemma WeightedMeanOrdered(lo: real, wlo: real, hi: real, whi: real)
    requires wlo >= 0.0 && whi >= 0.0 && wlo + whi > 0.0 && lo <= hi
    ensures lo <= (lo * wlo + hi * whi) / (wlo + whi) <= hi
  {
    var w, s := wlo + whi, lo * wlo + hi * whi;
    ScaleLe(lo, hi, whi);
    ScaleLe(lo, hi, wlo);
    assert lo * w == lo * wlo + lo * whi;
    assert hi * w == hi * wlo + hi * whi;
    BelowQuotient(lo, s, w);
    QuotientBelow(hi, s, w);
  }

  lemma ScaleLe(x: real, y: real, c: real)
    requires x <= y && c >= 0.0
    ensures x * c <= y * c
  {
  }

  lemma BelowQuotient(x: real, s: real, w: real)
    requires w > 0.0 && x * w <= s
    ensures x <= s / w
  {
  }

  lemma QuotientBelow(x: real, s: real, w: real)
    requires w > 0.0 && s <= x * w
    ensures s / w <= x
  {
  }

  /** Merging r2 into r1 or r1 into r2 yields the same statistics and
      box: only the surviving id and the untouched fields differ. */
  lemma EuclideanMergeCommutes(r1: Region, r2: Region)
    requires NBands(r1) == NBands(r2) && r1.size + r2.size > 0
    ensures EuclideanMerge(r1, r2).mean == EuclideanMerge(r2, r1).mean
    ensures EuclideanMerge(r1, r2).size == EuclideanMerge(r2, r1).size
    ensures EuclideanMerge(r1, r2).box == EuclideanMerge(r2, r1).box
  {
    var a, b := EuclideanMerge(r1, r2), EuclideanMerge(r2, r1);
    forall i | 0 <= i < NBands(r1) ensures a.mean[i] == b.mean[i] {
      var total := (r1.size + r2.size) as real;
      assert a.mean[i] * total == b.mean[i] * total;
    }
  }

  /** Number of EuclideanMerger::merge calls one merge of m performs: one
      for a leaf, and for a composite the calls of its flagged
      sub-mergers. */
  function MergeCount(m: Merger): nat
    requires WellFormed(m)
    decreases m, 1
  {
    match m
    case Leaf(_, _, _) => 1
    case Composite(_, _, _, _) => MergeCountFrom(m, 0)
  }

  function MergeCountFrom(m: Merger, i: nat): nat
    requires m.Composite? && WellFormed(m) && i <= |m.subs|
    decreases m, 0, |m.subs| - i
  {
    if i == (|m.subs|) then 0
    else (if m.needStatsUpdate[i] then MergeCount(m.subs[i]) else 0) + MergeCountFrom(m, i + 1)
  }

  /** k successive EuclideanMerger::merge(r1, r2) calls. */
  function MergeTimes(k: nat, r1: Region, r2: Region): (r: Region)
    requires NBands(r1) == NBands(r2) && r1.size + r2.size > 0
    ensures NBands(r) == NBands(r1) && r.size == r1.size + k * r2.size
    ensures r.id == r1.id && r.neighbours == r1.neighbours
  {
    if k == 0 then r1 else MergeTimes(k - 1, EuclideanMerge(r1, r2), r2)
  }

  lemma {:induction false} MergeTimesAdd(j: nat, k: nat, r1: Region, r2: Region)
    requires NBands(r1) == NBands(r2) && r1.size + r2.size > 0
    ensures MergeTimes(j + k, r1, r2) == MergeTimes(k, MergeTimes(j, r1, r2), r2)
    decreases j
  {
    if j > 0 {
      MergeTimesAdd(j - 1, k, EuclideanMerge(r1, r2), r2);
    }
  }

  /** merge of any merger: a leaf merges with EuclideanMerger::merge, a
      composite calls merge on its flagged sub-mergers in insertion
      order. */
  function Merge(m: Merger, r1: Region, r2: Region): (r: Region)
    requires WellFormed(m)
    requires NBands(r1) == NBands(r2) && r1.size + r2.size > 0
    ensures r == MergeTimes(MergeCount(m), r1, r2)
    decreases m, 1
  {
    match m
    case Leaf(_, _, _) => EuclideanMerge(r1, r2)
    case Composite(_, _, _, _) => MergeFrom(m, 0, r1, r2)
  }

  function MergeFrom(m: Merger, i: nat, r1: Region, r2: Region): (r: Region)
    requires m.Composite? && WellFormed(m) && i <= |m.subs|
    requires NBands(r1) == NBands(r2) && r1.size + r2.size > 0
    ensures r == MergeTimes(MergeCountFrom(m, i), r1, r2)
    decreases m, 0, |m.subs| - i
  {
    if i == (|m.subs|) then r1
    else if m.needStatsUpdate[i] then
      var next := Merge(m.subs[i], r1, r2);
      MergeTimesAdd(MergeCount(m.subs[i]), MergeCountFrom(m, i + 1), r1, r2);
      MergeFrom(m, i + 1, next, r2)
    else MergeFrom(m, i + 1, r1, r2)
  }

  /** A composite whose only flagged sub-merger is a leaf merges exactly
      like EuclideanMerger::merge; one with no flagged sub-merger leaves
      r1 unchanged. */
  lemma CompositeMergeSingleFlag(m: Merger, r1: Region, r2: Region)
    requires m.Composite? && WellFormed(m)
    requires NBands(r1) == NBands(r2) && r1.size + r2.size > 0
    requires MergeCountFrom(m, 0) <= 1
    ensures MergeCountFrom(m, 0) == 0 ==> Merge(m, r1, r2) == r1
    ensures MergeCountFrom(m, 0) == 1 ==> Merge(m, r1, r2) == EuclideanMerge(r1, r2)
  {
    assert MergeTimes(1, r1, r2) == MergeTimes(0, EuclideanMerge(r1, r2), r2);
  }
}
