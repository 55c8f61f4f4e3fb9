/** MultiSeg::updateThresholds: the thresholds of pyramid level L derived
    from the thresholds given for the full-resolution image. Coarser
    levels average 2^L x 2^L blocks, so similarity and coefficient of
    variation shrink with 4^L and the number of looks grows with it, each
    corrected by the same factor built from the correlation lags. */
module Thresholds {
  import opened Results
  import opened Regions
  import Mergers

  /** ImageType of Enums.h. */
  datatype ImageType = Radar | Optical

  /** ImageModelRepresentation of Enums.h. */
  datatype ImageModel = Cartoon | Texture

  /** What std::pow(b, n) stands for with an integral exponent. */
  function Pow(b: real, n: nat): (p: real)
    ensures b >= 1.0 ==> p >= 1.0
    ensures b > 0.0 ==> p > 0.0
  {
    if n == 0 then 1.0
    else
      var q := Pow(b, n - 1);
      assert b >= 1.0 ==> b * q >= q;
      assert b > 0.0 ==> b * q > 0.0;
      b * q
  }

  lemma PowStep(b: real, n: nat)
    ensures Pow(b, n + 1) == b * Pow(b, n)
  {
  }

  lemma {:induction false} PowGrows(b: real, m: nat, n: nat)
    requires b > 1.0 && m < n
    ensures Pow(b, m) < Pow(b, n)
    decreases n
  {
    var q := Pow(b, n - 1);
    MulGreater(b, q);
    PowStep(b, n - 1);
    assert q < Pow(b, n);
    if m < n - 1 {
      PowGrows(b, m, n - 1);
    }
  }

  lemma MulGreater(b: real, q: real)
    requires b > 1.0 && q > 0.0
    ensures b * q > q
  {
    assert b * q - q == (b - 1.0) * q;
  }

  /** Division by a larger positive number gives less. */
  lemma Reciprocal(x: real, p: real, q: real)
    requires x > 0.0 && 0.0 < p < q
    ensures x / q < x / p
  {
    var a := x / q;
    assert a > 0.0;
    assert x / p == a * (q / p);
    assert q / p > 1.0;
    assert a * (q / p) - a == a * (q / p - 1.0);
    assert a * (q / p - 1.0) > 0.0;
  }

  /** The lag of one direction at level L, ((2^L - 1) / 2^L) * 0.5; the
      three directions (lag01, lag10, lag11) share it. */
  function Lag(level: nat): (g: real)
    ensures 0.0 <= g < 0.5
    ensures g == 0.5 - 0.5 / Pow(2.0, level)
  {
    var p := Pow(2.0, level);
    assert (p - 1.0) / p == 1.0 - 1.0 / p;
    ((p - 1.0) / p) * 0.5
  }

  /** The correction 1 + 2 (lag01 + lag10 + lag11). */
  function Factor(level: nat): (f: real)
  {
    1.0 + 2.0 * (Lag(level) + Lag(level) + Lag(level))
  }

  /** The factor is 1 at full resolution, 1 + 3 (1 - 2^-L) in general,
      and so always in [1, 4). */
  lemma FactorRange(level: nat)
    ensures Factor(level) == 4.0 - 3.0 / Pow(2.0, level)
    ensures 1.0 <= Factor(level) < 4.0
    ensures level == 0 ==> Factor(level) == 1.0
  {
  }

  lemma FactorGrows(m: nat, n: nat)
    requires m < n
    ensures Factor(m) < Factor(n)
  {
    PowGrows(2.0, m, n);
    var pm, pn := Pow(2.0, m), Pow(2.0, n);
    Reciprocal(1.0, pm, pn);
    FactorRange(m);
    FactorRange(n);
  }

  /** A threshold that shrinks with the level: v / 4^L * Factor(L), the
      rule for both the similarity and the coefficient of variation. */
  function Scaled(v: real, level: nat): (r: real)
  {
    v / Pow(4.0, level) * Factor(level)
  }

  /** Level 0 passes the base value through; a non-negative value never
      grows. */
  lemma ScaledRange(v: real, level: nat)
    ensures level == 0 ==> Scaled(v, level) == v
    ensures v >= 0.0 ==> 0.0 <= Scaled(v, level) <= v
  {
    FactorRange(level);
    FactorBelowPow4(level);
    if v >= 0.0 {
      ScaleDown(v, Pow(4.0, level), Factor(level));
    }
  }

  lemma FactorBelowPow4(level: nat)
    ensures Factor(level) <= Pow(4.0, level)
  {
    FactorRange(level);
    if level > 0 {
      PowStep(4.0, level - 1);
    }
  }

  /** v / p * f for 0 <= f <= p lies between 0 and v. */
  lemma ScaleDown(v: real, p: real, f: real)
    requires v >= 0.0 && p > 0.0 && 0.0 <= f <= p
    ensures 0.0 <= v / p * f <= v
  {
    var a := v / p;
    assert a >= 0.0;
    assert a * f <= a * p;
    assert a * p == v;
  }

  /** Each level down, a positive threshold strictly shrinks. */
  lemma {:induction false} ScaledShrinks(v: real, level: nat)
    requires v > 0.0
    ensures Scaled(v, level + 1) < Scaled(v, level)
  {
    var p := Pow(4.0, level);
    var f, g := Factor(level), Factor(level + 1);
    FactorRange(level);
    FactorRange(level + 1);
    assert Pow(4.0, level + 1) == 4.0 * p;
    assert v / (4.0 * p) * g == (v / p) * (g / 4.0);
    assert g / 4.0 < 1.0;
    assert (v / p) * (g / 4.0) < (v / p) * 1.0;
    assert (v / p) * 1.0 <= (v / p) * f;
  }

  /** The unrounded number of looks at level L, ENL * 4^L / Factor(L). */
  function LooksValue(enl: real, level: nat): real
  {
    FactorRange(level);
    enl * Pow(4.0, level) / Factor(level)
  }

  /** m_currentENL: the looks value cast to std::size_t, which truncates,
      and capped at 250. The cast is defined only for values below 2^64. */
  function LevelLooks(enl: real, level: nat): (r: nat)
    requires enl >= 0.0 && LooksValue(enl, level) < SizeModulus as real
    ensures r <= 250
    ensures r < 250 ==> r as real <= LooksValue(enl, level) < r as real + 1.0
    ensures LooksValue(enl, level) >= 250.0 ==> r == 250
  {
    FactorRange(level);
    var t := LooksValue(enl, level).Floor;
    assert t >= 0;
    if t < 250 then t else 250
  }

  /** Each level down the looks value strictly grows, unless it is 0. */
  lemma {:induction false} LooksGrow(enl: real, level: nat)
    requires enl > 0.0
    ensures LooksValue(enl, level) < LooksValue(enl, level + 1)
  {
    var p := Pow(4.0, level);
    var f, g := Factor(level), Factor(level + 1);
    FactorRange(level);
    FactorRange(level + 1);
    assert Pow(4.0, level + 1) == 4.0 * p;
    var x := enl * p;
    assert x > 0.0;
    assert x / f <= x by {
      if f > 1.0 {
        Reciprocal(x, 1.0, f);
      }
    }
    Reciprocal(4.0 * x, g, 4.0);
    assert enl * (4.0 * p) == 4.0 * x;
  }

  /** The truncated and capped looks never fall from one level to the
      next. */
  lemma LevelLooksGrow(enl: real, level: nat)
    requires enl > 0.0 && LooksValue(enl, level + 1) < SizeModulus as real
    ensures LooksValue(enl, level) < SizeModulus as real
    ensures LevelLooks(enl, level) <= LevelLooks(enl, level + 1)
  {
    LooksGrow(enl, level);
  }

  /** m_nSamples = m_nSamples * 4 in std::size_t. */
  function NextSamples(n: nat): (r: nat)
    requires n < SizeModulus
    ensures r < SizeModulus
    ensures 4 * n < SizeModulus ==> r == 4 * n
  {
    Wrap64(n * 4)
  }

  function Pow4(k: nat): (p: nat)
    ensures p >= 1
  {
    if k == 0 then 1 else 4 * Pow4(k - 1)
  }

  /** m_nSamples after k calls, starting from the constructor's
      std::string::npos. */
  function SamplesAfter(k: nat): (n: nat)
    ensures n < SizeModulus
  {
    if k == 0 then SizeModulus - 1 else NextSamples(SamplesAfter(k - 1))
  }

  lemma {:induction false} Pow4Add(a: nat, b: nat)
    ensures Pow4(a + b) == Pow4(a) * Pow4(b)
  {
    if a > 0 {
      Pow4Add(a - 1, b);
      assert Pow4(a + b) == 4 * Pow4(a - 1 + b);
    }
  }

  /** 4^32 is the modulus of std::size_t. */
  lemma Pow4Modulus()
    ensures Pow4(32) == SizeModulus
  {
    assert Pow4(4) == 256;
    Pow4Add(4, 4);
    Pow4Add(8, 8);
    Pow4Add(16, 16);
  }

  lemma Pow4Bound(k: nat)
    requires k < 32
    ensures Pow4(k) < SizeModulus
    ensures 4 * Pow4(k) <= SizeModulus
  {
    Pow4Modulus();
    Pow4Add(k, 32 - k);
    var q := Pow4(32 - k);
    assert q == 4 * Pow4(31 - k);
    MulMono(Pow4(k), 4, q);
  }

  lemma MulMono(a: nat, b: nat, c: nat)
    requires b <= c
    ensures a * b <= a * c
  {
  }

  /** From npos the multiplication wraps at once: after k < 32 levels
      m_nSamples is 2^64 - 4^k, never below 2^62, so it never limits the
      samples a region gathers. */
  lemma {:induction false} SamplesWrap(k: nat)
    requires k < 32
    ensures SamplesAfter(k) == SizeModulus - Pow4(k)
    ensures SamplesAfter(k) >= SizeModulus / 4
  {
    Pow4Bound(k);
    if k > 0 {
      SamplesWrap(k - 1);
      var p := Pow4(k - 1);
      var n := SizeModulus - p;
      assert n * 4 == 3 * SizeModulus + (SizeModulus - 4 * p);
      assert 0 <= SizeModulus - 4 * p < SizeModulus;
      assert Wrap64(n * 4) == SizeModulus - 4 * p;
    }
  }

  datatype LevelFault = NonPositiveShape   // boost's gamma_distribution rejects a shape of 0

  /** vcritic_factor: the quantile of Gamma(looks, 1) at the confidence
      level, divided by the looks. The quantile is a parameter. */
  function VCritic(quantile: (real, real) -> real, looks: nat, confidence: real): (r: Result<real, LevelFault>)
    ensures r.Fault? <==> looks == 0
    ensures r.Ok? ==> r.value * looks as real == quantile(looks as real, confidence)
  {
    if looks == 0 then Fault(NonPositiveShape)
    else Ok(quantile(looks as real, confidence) / looks as real)
  }

  /** The base thresholds and the kind of image. */
  datatype Config = Config(
    similarity: real, enl: real, cv: real, imageType: ImageType, imageModel: ImageModel, confidence: real)

  /** The state updateThresholds writes: the level's thresholds, the
      sample count and the merger. */
  datatype Level = Level(level: nat, similarity: real, looks: nat, cv: real, nSamples: nat, merger: Mergers.Merger)

  /** key names the variance of one of the bands b to n - 1. */
  predicate VarianceKey(key: string, b: nat, n: nat)
  {
    exists k :: b <= k < n && key == Mergers.ImageVarianceName(k)
  }

  /** The image_variance_<b> parameters of the optical cartoon merger. */
  function SetVariances(m: Mergers.Merger, variances: seq<real>, b: nat): (r: Mergers.Merger)
    requires b <= |variances|
    ensures Mergers.Shape(r) == Mergers.Shape(m)
    ensures m.Leaf? ==> r.Leaf? && forall k :: b <= k < |variances| ==>
      Mergers.ImageVarianceName(k) in r.params && r.params[Mergers.ImageVarianceName(k)] == variances[k]
    ensures m.Leaf? ==> forall key :: key in m.params && !VarianceKey(key, b, |variances|) ==>
      key in r.params && r.params[key] == m.params[key]
    decreases |variances| - b
  {
    if b == |variances| then m
    else
      var m' := Mergers.SetParam(m, Mergers.ImageVarianceName(b), variances[b]);
      var r := SetVariances(m', variances, b + 1);
      assert !VarianceKey(Mergers.ImageVarianceName(b), b + 1, |variances|) by {
        forall k | b + 1 <= k < |variances| ensures Mergers.ImageVarianceName(b) != Mergers.ImageVarianceName(k) {
          Mergers.BandParamNamesDistinct(b, k);
        }
      }
      r
  }

  /** No band's variance name is one of the thresholds. */
  lemma VarianceNamesDistinct(n: nat)
    ensures !VarianceKey("euclidean_distance_threshold", 0, n) && !VarianceKey("cv_threshold", 0, n)
  {
    forall k ensures Mergers.ImageVarianceName(k)[0] == 'i' {
    }
  }

  /** The radar cartoon merger's parameters: the vcritic factor and the
      looks. */
  function RadarParams(m: Mergers.Merger, quantile: (real, real) -> real, looks: nat, confidence: real): (r: Result<Mergers.Merger, LevelFault>)
    ensures r.Fault? <==> looks == 0
    ensures r.Ok? ==> Mergers.Shape(r.value) == Mergers.Shape(m)
    ensures r.Ok? && m.Leaf? ==> (r.value.Leaf? &&
      (forall key :: key in m.params && key != "ENL" && key != "vcritic_factor" ==> key in r.value.params && r.value.params[key] == m.params[key]) &&
      "ENL" in r.value.params && r.value.params["ENL"] == looks as real &&
      "vcritic_factor" in r.value.params &&
      r.value.params["vcritic_factor"] * looks as real == quantile(looks as real, confidence))
  {
    var vcritic :- VCritic(quantile, looks, confidence);
    Ok(Mergers.SetParam(Mergers.SetParam(m, "vcritic_factor", vcritic), "ENL", looks as real))
  }

  /** The per-kind parameters updateThresholds adds after the thresholds. */
  function KindParams(cfg: Config, m: Mergers.Merger, quantile: (real, real) -> real, variances: seq<real>, looks: nat): (r: Result<Mergers.Merger, LevelFault>)
    ensures r.Fault? <==> cfg.imageType == Radar && cfg.imageModel == Cartoon && looks == 0
    ensures r.Ok? ==> Mergers.Shape(r.value) == Mergers.Shape(m)
    ensures r.Ok? && m.Leaf? ==> (r.value.Leaf? &&
      forall key :: key in m.params && (key == "euclidean_distance_threshold" || key == "cv_threshold") ==>
        key in r.value.params && r.value.params[key] == m.params[key])
    ensures r.Ok? && m.Leaf? && cfg.imageType == Radar && cfg.imageModel == Cartoon ==> (
      "ENL" in r.value.params && r.value.params["ENL"] == looks as real &&
      "vcritic_factor" in r.value.params &&
      r.value.params["vcritic_factor"] * looks as real == quantile(looks as real, cfg.confidence))
    ensures r.Ok? && m.Leaf? && cfg.imageType == Optical && cfg.imageModel == Cartoon ==>
      forall k :: 0 <= k < |variances| ==> Mergers.ImageVarianceName(k) in r.value.params && r.value.params[Mergers.ImageVarianceName(k)] == variances[k]
  {
    if cfg.imageType == Radar && cfg.imageModel == Cartoon then RadarParams(m, quantile, looks, cfg.confidence)
    else if cfg.imageType == Optical && cfg.imageModel == Cartoon then
      VarianceNamesDistinct(|variances|);
      Ok(SetVariances(m, variances, 0))
    else Ok(m)
  }

  /** MultiSeg::updateThresholds for level L. The gamma quantile and the
      per-band image variances of the level are parameters. */
  function UpdateThresholds(cfg: Config, level: nat, nSamples: nat, merger: Mergers.Merger,
                            quantile: (real, real) -> real, variances: seq<real>): (r: Result<Level, LevelFault>)
    requires cfg.enl >= 0.0 && LooksValue(cfg.enl, level) < SizeModulus as real && nSamples < SizeModulus
    ensures r.Fault? <==> cfg.imageType == Radar && cfg.imageModel == Cartoon && LevelLooks(cfg.enl, level) == 0
    ensures r.Ok? ==> r.value.level == level && r.value.looks <= 250 && r.value.nSamples < SizeModulus
    ensures r.Ok? ==> Mergers.Shape(r.value.merger) == Mergers.Shape(merger)
    ensures r.Ok? ==> r.value.similarity == Scaled(cfg.similarity, level) && r.value.cv == Scaled(cfg.cv, level)
    ensures r.Ok? ==> r.value.looks == LevelLooks(cfg.enl, level) && r.value.nSamples == NextSamples(nSamples)
    ensures r.Ok? && level == 0 ==> r.value.similarity == cfg.similarity && r.value.cv == cfg.cv
    ensures r.Ok? && cfg.similarity >= 0.0 ==> 0.0 <= r.value.similarity <= cfg.similarity
    ensures r.Ok? && cfg.cv >= 0.0 ==> 0.0 <= r.value.cv <= cfg.cv
    ensures r.Ok? && merger.Leaf? ==> (r.value.merger.Leaf? &&
      "euclidean_distance_threshold" in r.value.merger.params &&
      r.value.merger.params["euclidean_distance_threshold"] == r.value.similarity &&
      "cv_threshold" in r.value.merger.params && r.value.merger.params["cv_threshold"] == r.value.cv)
    ensures r.Ok? && merger.Leaf? && cfg.imageType == Radar && cfg.imageModel == Cartoon ==> (
      "ENL" in r.value.merger.params && r.value.merger.params["ENL"] == r.value.looks as real &&
      "vcritic_factor" in r.value.merger.params &&
      r.value.merger.params["vcritic_factor"] * r.value.looks as real == quantile(r.value.looks as real, cfg.confidence))
  {
    ScaledRange(cfg.similarity, level);
    ScaledRange(cfg.cv, level);
    var similarity := Scaled(cfg.similarity, level);
    var cv := Scaled(cfg.cv, level);
    var looks := LevelLooks(cfg.enl, level);
    var m := Mergers.SetParam(Mergers.SetParam(merger, "euclidean_distance_threshold", similarity), "cv_threshold", cv);
    var m' :- KindParams(cfg, m, quantile, variances, looks);
    Ok(Level(level, similarity, looks, cv, NextSamples(nSamples), m'))
  }
}
