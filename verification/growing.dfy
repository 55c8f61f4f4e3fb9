/** Region growing: the merge passes of MultiSeg (mergeRegions and
    mergeRegionsRandomly), the annealed loop that repeats them
    (executeRegionGrowing), and the minimum-area cleanup
    (mergeSmallRegions and processSmallRegions). */
module Growing {
  import opened Results
  import opened Regions
  import opened Adjacency
  import opened Segmentation

  /** One merge of the engine: `absorbed` is merged into `survivor` and
      leaves the table. */
  datatype Merge = Merge(survivor: nat, absorbed: nat)

  /** The state after some merging, the working map's ids left, the
      number of merges performed and the merges themselves, in order. */
  datatype Pass = Pass(seg: Seg, work: set<nat>, merged: nat, log: seq<Merge>)

  /** Which merges a pass makes. The growth passes merge into a region
      its merge target; the minimum-area cleanup merges a region no
      larger than minArea into the nearest of all its neighbours. */
  datatype Rule = ByTarget(crit: Criterion, threshold: real, opts: Options) | BySize(minArea: nat)

  /** Merge m is one the rule makes in state s. */
  ghost predicate Allowed(s: Seg, rule: Rule, m: Merge)
    requires Valid(s)
  {
    m.survivor in s.regions && m.absorbed in s.regions && m.survivor != m.absorbed &&
    match rule
    case ByTarget(crit, threshold, opts) => MergeTarget(s, crit, threshold, opts, m.survivor) == Some(m.absorbed)
    case BySize(minArea) => s.regions[m.absorbed].size <= minArea && Nearest(s, m.absorbed) == Some(m.survivor)
  }

  /** The merges of log, each one the rule makes in the state the
      previous ones left, lead from s to s'. */
  ghost predicate Trace(s: Seg, rule: Rule, log: seq<Merge>, s': Seg)
    decreases |log|
  {
    if log == [] then s' == s
    else
      Valid(s) && Allowed(s, rule, log[0]) &&
      Trace(MergePair(s, log[0].survivor, log[0].absorbed), rule, log[1..], s')
  }

  /** An allowed merge put before a trace. */
  lemma TraceCons(s: Seg, rule: Rule, m: Merge, log: seq<Merge>, s': Seg)
    requires Valid(s) && Allowed(s, rule, m)
    requires Trace(MergePair(s, m.survivor, m.absorbed), rule, log, s')
    ensures Trace(s, rule, [m] + log, s')
  {
    assert ([m] + log)[1..] == log;
  }

  /** Splitting the first merge off a concatenation. */
  lemma LogSplit(l1: seq<Merge>, l2: seq<Merge>)
    requires l1 != []
    ensures l1 + l2 == [l1[0]] + (l1[1..] + l2)
  {
  }

  /** Every merge of log is into a region of w. */
  ghost predicate IntoAll(log: seq<Merge>, w: set<nat>)
  {
    forall k :: 0 <= k < |log| ==> log[k].survivor in w
  }

  /** IntoAll survives concatenation. */
  lemma IntoAllAppend(l1: seq<Merge>, l2: seq<Merge>, w: set<nat>)
    requires IntoAll(l1, w) && IntoAll(l2, w)
    ensures IntoAll(l1 + l2, w)
  {
  }

  /** A merge into w put before a log merging into w. */
  lemma IntoAllCons(m: Merge, log: seq<Merge>, w: set<nat>)
    requires m.survivor in w && IntoAll(log, w)
    ensures IntoAll([m] + log, w)
  {
  }

  /** IntoAll holds for every larger set. */
  lemma IntoAllWider(log: seq<Merge>, a: set<nat>, b: set<nat>)
    requires IntoAll(log, a) && a <= b
    ensures IntoAll(log, b)
  {
  }

  /** Two traces in a row form one. */
  lemma {:induction false} TraceCompose(s: Seg, rule: Rule, l1: seq<Merge>, s1: Seg, l2: seq<Merge>, s2: Seg)
    requires Trace(s, rule, l1, s1) && Trace(s1, rule, l2, s2)
    ensures Trace(s, rule, l1 + l2, s2)
    decreases |l1|
  {
    if l1 == [] {
      assert l1 + l2 == l2;
    } else {
      var m := l1[0];
      TraceCompose(MergePair(s, m.survivor, m.absorbed), rule, l1[1..], s1, l2, s2);
      LogSplit(l1, l2);
      TraceCons(s, rule, m, l1[1..] + l2, s2);
    }
  }

  /** What every merge sequence guarantees: the state stays consistent
      on the same grid, regions only disappear, the working map loses
      exactly the absorbed ids, the count is the number of regions
      removed, and cells of surviving regions keep their labels. */
  ghost predicate Shrinks(s: Seg, w: set<nat>, p: Pass)
  {
    Shaped(s) && Valid(p.seg) &&
    p.seg.nLines == s.nLines && p.seg.nCols == s.nCols && p.seg.nBands == s.nBands &&
    p.seg.regions.Keys <= s.regions.Keys &&
    p.work == w - (s.regions.Keys - p.seg.regions.Keys) &&
    p.merged == |s.regions| - |p.seg.regions| && |p.log| == p.merged &&
    (forall l, c :: 0 <= l < s.nLines && 0 <= c < s.nCols && s.labels[l][c] in p.seg.regions ==>
      p.seg.labels[l][c] == s.labels[l][c])
  }

  lemma ShrinksNothing(s: Seg, w: set<nat>)
    requires Valid(s)
    ensures Shrinks(s, w, Pass(s, w, 0, []))
  {
    assert s.regions.Keys - s.regions.Keys == {};
  }

  /** One merge of b into a is a merge sequence. */
  lemma ShrinksByMerge(s: Seg, w: set<nat>, a: nat, b: nat)
    requires Valid(s) && a in s.regions && b in s.regions && a != b
    ensures Shrinks(s, w, Pass(MergePair(s, a, b), w - {b}, 1, [Merge(a, b)]))
  {
    var s' := MergePair(s, a, b);
    MergePairValid(s, a, b);
    MergePairEffect(s, a, b);
    assert s.regions.Keys - s'.regions.Keys == {b};
  }

  /** Two merge sequences in a row form one. */
  lemma ShrinksCompose(s: Seg, w: set<nat>, p1: Pass, p2: Pass)
    requires Shrinks(s, w, p1) && Shrinks(p1.seg, p1.work, p2)
    ensures Shrinks(s, w, Pass(p2.seg, p2.work, p1.merged + p2.merged, p1.log + p2.log))
  {
    var k0, k1, k2 := s.regions.Keys, p1.seg.regions.Keys, p2.seg.regions.Keys;
    assert p2.work == w - (k0 - k2);
    assert |k0| >= |k1| >= |k2| by {
      CardinalityMonotone(k1, k0);
      CardinalityMonotone(k2, k1);
    }
  }

  lemma CardinalityMonotone(a: set<nat>, b: set<nat>)
    requires a <= b
    ensures |a| <= |b|
  {
    assert b == a + (b - a);
  }

  // ---------------------------------------------------------------------
  // One merge pass
  // ---------------------------------------------------------------------

  /** The body of both merge passes for the current region x: its
      closest region, kept only if, under mutual best fitting, x is in
      turn the closest region of that one. */
  function MergeTarget(s: Seg, crit: Criterion, threshold: real, opts: Options, x: nat): (c: Option<nat>)
    requires Valid(s) && x in s.regions
    ensures c.Some? ==> c == Closest(s, crit, threshold, opts, x)
    ensures c.Some? && opts.mutualBestFit ==> Closest(s, crit, threshold, opts, c.value) == Some(x)
    ensures c.None? ==> (Closest(s, crit, threshold, opts, x).None? ||
      (opts.mutualBestFit && Closest(s, crit, threshold, opts, Closest(s, crit, threshold, opts, x).value) != Some(x)))
  {
    match Closest(s, crit, threshold, opts, x)
    case None => None
    case Some(c) =>
      if opts.mutualBestFit && Closest(s, crit, threshold, opts, c) != Some(x) then None else Some(c)
  }

  /** The inner loop for the current region x: merge its target into it,
      and with growUntilStop try again until no target is left. */
  function Grow(s: Seg, crit: Criterion, threshold: real, opts: Options, x: nat, w: set<nat>): (p: Pass)
    requires Valid(s) && x in s.regions
    ensures Shrinks(s, w, p) && x in p.seg.regions
    ensures p.merged == 0 ==> p.seg == s && p.work == w
    ensures p.merged > 0 ==> MergeTarget(s, crit, threshold, opts, x).Some?
    decreases |s.regions|
  {
    match MergeTarget(s, crit, threshold, opts, x)
    case None =>
      ShrinksNothing(s, w);
      Pass(s, w, 0, [])
    case Some(c) =>
      var s' := MergePair(s, x, c);
      MergePairValid(s, x, c);
      ShrinksByMerge(s, w, x, c);
      var first := Pass(s', w - {c}, 1, [Merge(x, c)]);
      if opts.growUntilStop then
        var rest := Grow(s', crit, threshold, opts, x, w - {c});
        ShrinksCompose(s, w, first, rest);
        Pass(rest.seg, rest.work, 1 + rest.merged, [Merge(x, c)] + rest.log)
      else first
  }

  /** x merges exactly when it has a merge target; without growUntilStop
      it merges at most once, with it the loop ends with no target left. */
  lemma {:induction false} GrowStops(s: Seg, crit: Criterion, threshold: real, opts: Options, x: nat, w: set<nat>)
    requires Valid(s) && x in s.regions
    ensures Grow(s, crit, threshold, opts, x, w).merged == 0 <==> MergeTarget(s, crit, threshold, opts, x).None?
    ensures !opts.growUntilStop ==> Grow(s, crit, threshold, opts, x, w).merged <= 1
    ensures opts.growUntilStop ==> MergeTarget(Grow(s, crit, threshold, opts, x, w).seg, crit, threshold, opts, x).None?
    decreases |s.regions|
  {
    match MergeTarget(s, crit, threshold, opts, x)
    case None =>
    case Some(c) =>
      var s' := MergePair(s, x, c);
      MergePairValid(s, x, c);
      if opts.growUntilStop {
        GrowStops(s', crit, threshold, opts, x, w - {c});
        var rest := Grow(s', crit, threshold, opts, x, w - {c});
        assert Grow(s, crit, threshold, opts, x, w).seg == rest.seg;
      }
  }

  /** One merge of x's target into x put before a trace. */
  lemma GrowStep(s: Seg, crit: Criterion, threshold: real, opts: Options, x: nat, c: nat, log: seq<Merge>, s': Seg)
    requires Valid(s) && x in s.regions && MergeTarget(s, crit, threshold, opts, x) == Some(c)
    requires Trace(MergePair(s, x, c), ByTarget(crit, threshold, opts), log, s')
    ensures Trace(s, ByTarget(crit, threshold, opts), [Merge(x, c)] + log, s')
  {
    TraceCons(s, ByTarget(crit, threshold, opts), Merge(x, c), log, s');
  }

  /** Every merge of the inner loop is one of x's merge target at that
      moment into x. */
  lemma {:induction false} GrowTrace(s: Seg, crit: Criterion, threshold: real, opts: Options, x: nat, w: set<nat>)
    requires Valid(s) && x in s.regions
    ensures Trace(s, ByTarget(crit, threshold, opts), Grow(s, crit, threshold, opts, x, w).log, Grow(s, crit, threshold, opts, x, w).seg)
    decreases |s.regions|
  {
    match MergeTarget(s, crit, threshold, opts, x)
    case None =>
    case Some(c) =>
      var s' := MergePair(s, x, c);
      MergePairValid(s, x, c);
      if opts.growUntilStop {
        GrowTrace(s', crit, threshold, opts, x, w - {c});
        var rest := Grow(s', crit, threshold, opts, x, w - {c});
        GrowStep(s, crit, threshold, opts, x, c, rest.log, rest.seg);
      } else {
        LogSplit([Merge(x, c)], []);
        GrowStep(s, crit, threshold, opts, x, c, [], s');
      }
  }

  /** The inner loop merges into x and nothing else. */
  lemma {:induction false} GrowInto(s: Seg, crit: Criterion, threshold: real, opts: Options, x: nat, w: set<nat>)
    requires Valid(s) && x in s.regions
    ensures IntoAll(Grow(s, crit, threshold, opts, x, w).log, {x})
    decreases |s.regions|
  {
    match MergeTarget(s, crit, threshold, opts, x)
    case None =>
    case Some(c) =>
      var s' := MergePair(s, x, c);
      MergePairValid(s, x, c);
      if opts.growUntilStop {
        GrowInto(s', crit, threshold, opts, x, w - {c});
        var rest := Grow(s', crit, threshold, opts, x, w - {c});
        IntoAllCons(Merge(x, c), rest.log, {x});
      } else {
        LogSplit([Merge(x, c)], []);
        IntoAllCons(Merge(x, c), [], {x});
      }
  }

  /** A pass over the ids of `order` from position i: ids no longer in
      the working map are skipped, the others grow. */
  function PassFrom(s: Seg, crit: Criterion, threshold: real, opts: Options, order: seq<nat>, i: nat, w: set<nat>): (p: Pass)
    requires Valid(s) && w <= s.regions.Keys && i <= |order|
    ensures Shrinks(s, w, p) && p.work <= p.seg.regions.Keys
    ensures p.merged == 0 ==> p.seg == s && p.work == w
    decreases |order| - i
  {
    if i == |order| then
      ShrinksNothing(s, w);
      Pass(s, w, 0, [])
    else if order[i] !in w then PassFrom(s, crit, threshold, opts, order, i + 1, w)
    else
      var g := Grow(s, crit, threshold, opts, order[i], w);
      var rest := PassFrom(g.seg, crit, threshold, opts, order, i + 1, g.work);
      ShrinksCompose(s, w, g, rest);
      Pass(rest.seg, rest.work, g.merged + rest.merged, g.log + rest.log)
  }

  /** Every merge of a pass is one the growth rule makes at that
      moment. */
  lemma {:induction false} PassFromTrace(s: Seg, crit: Criterion, threshold: real, opts: Options, order: seq<nat>, i: nat, w: set<nat>)
    requires Valid(s) && w <= s.regions.Keys && i <= |order|
    ensures Trace(s, ByTarget(crit, threshold, opts), PassFrom(s, crit, threshold, opts, order, i, w).log, PassFrom(s, crit, threshold, opts, order, i, w).seg)
    decreases |order| - i
  {
    if i == |order| {
    } else if order[i] !in w {
      PassFromTrace(s, crit, threshold, opts, order, i + 1, w);
    } else {
      var g := Grow(s, crit, threshold, opts, order[i], w);
      GrowTrace(s, crit, threshold, opts, order[i], w);
      PassFromTrace(g.seg, crit, threshold, opts, order, i + 1, g.work);
      var rest := PassFrom(g.seg, crit, threshold, opts, order, i + 1, g.work);
      TraceCompose(s, ByTarget(crit, threshold, opts), g.log, g.seg, rest.log, rest.seg);
    }
  }

  /** A pass merges only into regions the working map held when it
      began. */
  lemma {:induction false} PassFromInto(s: Seg, crit: Criterion, threshold: real, opts: Options, order: seq<nat>, i: nat, w: set<nat>)
    requires Valid(s) && w <= s.regions.Keys && i <= |order|
    ensures IntoAll(PassFrom(s, crit, threshold, opts, order, i, w).log, w)
    decreases |order| - i
  {
    if i == |order| {
    } else if order[i] !in w {
      PassFromInto(s, crit, threshold, opts, order, i + 1, w);
    } else {
      var g := Grow(s, crit, threshold, opts, order[i], w);
      GrowInto(s, crit, threshold, opts, order[i], w);
      PassFromInto(g.seg, crit, threshold, opts, order, i + 1, g.work);
      var rest := PassFrom(g.seg, crit, threshold, opts, order, i + 1, g.work);
      IntoAllWider(g.log, {order[i]}, w);
      IntoAllWider(rest.log, g.work, w);
      IntoAllAppend(g.log, rest.log, w);
    }
  }

  /** MultiSeg::mergeRegions(regions): the working map's ids in ascending
      order. */
  function MergeRegions(s: Seg, crit: Criterion, threshold: real, opts: Options, w: set<nat>): (p: Pass)
    requires Valid(s) && w <= s.regions.Keys
    ensures Shrinks(s, w, p) && p.work <= p.seg.regions.Keys
    ensures Trace(s, ByTarget(crit, threshold, opts), p.log, p.seg)
    ensures IntoAll(p.log, w)
    ensures p.merged == 0 ==> p.seg == s
  {
    PassFromTrace(s, crit, threshold, opts, SortedIds(w), 0, w);
    PassFromInto(s, crit, threshold, opts, SortedIds(w), 0, w);
    PassFrom(s, crit, threshold, opts, SortedIds(w), 0, w)
  }

  /** MultiSeg::mergeRegionsRandomly(regions): the working map's ids in
      the order `shuffled`, which stands for std::random_shuffle applied
      to them. */
  function MergeRegionsRandomly(s: Seg, crit: Criterion, threshold: real, opts: Options, w: set<nat>, shuffled: seq<nat>): (p: Pass)
    requires Valid(s) && w <= s.regions.Keys
    ensures Shrinks(s, w, p) && p.work <= p.seg.regions.Keys
    ensures Trace(s, ByTarget(crit, threshold, opts), p.log, p.seg)
    ensures IntoAll(p.log, w)
    ensures p.merged == 0 ==> p.seg == s
  {
    PassFromTrace(s, crit, threshold, opts, shuffled, 0, w);
    PassFromInto(s, crit, threshold, opts, shuffled, 0, w);
    PassFrom(s, crit, threshold, opts, shuffled, 0, w)
  }

  /** Every region a pass reaches was visited by the deterministic pass
      as well: shuffling the ascending order into itself gives
      mergeRegions. */
  lemma SortedShuffleIsDeterministic(s: Seg, crit: Criterion, threshold: real, opts: Options, w: set<nat>)
    requires Valid(s) && w <= s.regions.Keys
    ensures MergeRegionsRandomly(s, crit, threshold, opts, w, SortedIds(w)) == MergeRegions(s, crit, threshold, opts, w)
  {
  }

  // ---------------------------------------------------------------------
  // The annealed growth loop
  // ---------------------------------------------------------------------

  /** The outcome of executeRegionGrowing: the final state and working
      map, the threshold and the merge count of every pass, and the
      euclidean_distance_threshold left set on the merger. */
  datatype Growth = Growth(seg: Seg, work: set<nat>, thresholds: seq<real>, merges: seq<nat>, finalThreshold: real)

  /** The knobs of executeRegionGrowing: the level's similarity, the
      number of increase steps, the iteration cap, the pass form, and the
      shuffle the random form applies in pass k. */
  datatype Schedule = Schedule(
    similarity: real,
    increaseStep: nat,
    maxIterations: nat,
    useRandomSeeds: bool,
    shuffle: (nat, seq<nat>) -> seq<nat>)

  /** The value threshold grows by after a pass that merges nothing. */
  function Increment(sch: Schedule): real
  {
    sch.similarity / (sch.increaseStep + 1) as real
  }

  /** The number of passes in ms that merged nothing. */
  function ZeroPasses(ms: seq<nat>): (n: nat)
    ensures n <= |ms|
  {
    if ms == [] then 0 else (if ms[0] == 0 then 1 else 0) + ZeroPasses(ms[1..])
  }

  lemma {:induction false} ZeroPassesSnoc(ms: seq<nat>, m: nat)
    ensures ZeroPasses(ms + [m]) == ZeroPasses(ms) + (if m == 0 then 1 else 0)
  {
    if ms == [] {
      assert ms + [m] == [m];
    } else {
      assert (ms + [m])[1..] == ms[1..] + [m];
      ZeroPassesSnoc(ms[1..], m);
    }
  }

  /** One pass of the loop, in the form useRandomSeeds selects. */
  function OnePass(s: Seg, crit: Criterion, opts: Options, sch: Schedule, w: set<nat>, iteration: nat, threshold: real): (p: Pass)
    requires Valid(s) && w <= s.regions.Keys
    ensures Valid(p.seg) && p.seg.regions.Keys <= s.regions.Keys && p.work <= p.seg.regions.Keys
    ensures p.merged == |s.regions| - |p.seg.regions|
    ensures Trace(s, ByTarget(crit, threshold, opts), p.log, p.seg)
    ensures p.merged == 0 ==> p.seg == s
  {
    if sch.useRandomSeeds then MergeRegionsRandomly(s, crit, threshold, opts, w, sch.shuffle(iteration, SortedIds(w)))
    else MergeRegions(s, crit, threshold, opts, w)
  }

  /** The zero-merge count after a pass that merged m regions. */
  function NoMergeAfter(noMerge: nat, m: nat): nat
  {
    if m == 0 then noMerge + 1 else noMerge
  }

  /** The threshold after a pass that merged m regions. */
  function ThresholdAfter(sch: Schedule, threshold: real, m: nat): real
  {
    if m == 0 then threshold + Increment(sch) else threshold
  }

  /** The exit test after pass number `it` with noMerge' passes that
      merged nothing. */
  predicate ExitTest(sch: Schedule, it: nat, noMerge': nat)
  {
    it == sch.maxIterations || noMerge' > sch.increaseStep
  }

  /** The loop of executeRegionGrowing from the pass after `iteration`
      passes, noMerge of which merged nothing. */
  function Loop(s: Seg, crit: Criterion, opts: Options, sch: Schedule, w: set<nat>, iteration: nat, noMerge: nat, threshold: real): (g: Growth)
    requires Valid(s) && w <= s.regions.Keys && noMerge <= sch.increaseStep
    ensures Valid(g.seg) && g.seg.regions.Keys <= s.regions.Keys && g.work <= g.seg.regions.Keys
    ensures |g.thresholds| == |g.merges| >= 1 && g.finalThreshold == sch.similarity
    decreases |s.regions|, sch.increaseStep - noMerge
  {
    var p := OnePass(s, crit, opts, sch, w, iteration, threshold);
    var it, noMerge' := iteration + 1, NoMergeAfter(noMerge, p.merged);
    if ExitTest(sch, it, noMerge') then Growth(p.seg, p.work, [threshold], [p.merged], sch.similarity)
    else
      var g := Loop(p.seg, crit, opts, sch, p.work, it, noMerge', ThresholdAfter(sch, threshold, p.merged));
      Growth(g.seg, g.work, [threshold] + g.thresholds, [p.merged] + g.merges, sch.similarity)
  }

  /** One unfolding of the loop, in terms of its first pass. */
  lemma LoopUnfold(s: Seg, crit: Criterion, opts: Options, sch: Schedule, w: set<nat>, iteration: nat, noMerge: nat, threshold: real)
    requires Valid(s) && w <= s.regions.Keys && noMerge <= sch.increaseStep
    ensures var g := Loop(s, crit, opts, sch, w, iteration, noMerge, threshold);
      var p := OnePass(s, crit, opts, sch, w, iteration, threshold);
      var noMerge' := NoMergeAfter(noMerge, p.merged);
      g.merges[0] == p.merged && g.thresholds[0] == threshold &&
      (ExitTest(sch, iteration + 1, noMerge') ==> |g.merges| == 1) &&
      (!ExitTest(sch, iteration + 1, noMerge') ==>
        var h := Loop(p.seg, crit, opts, sch, p.work, iteration + 1, noMerge', ThresholdAfter(sch, threshold, p.merged));
        g.merges == [p.merged] + h.merges && g.thresholds == [threshold] + h.thresholds &&
        |s.regions| - |g.seg.regions| == p.merged + (|p.seg.regions| - |h.seg.regions|))
  {
  }

  /** MultiSeg::executeRegionGrowing(regions, useRandomSeeds,
      maxIterations). */
  function ExecuteRegionGrowing(s: Seg, crit: Criterion, opts: Options, sch: Schedule, w: set<nat>): (g: Growth)
    requires Valid(s) && w <= s.regions.Keys
    ensures Valid(g.seg) && g.seg.regions.Keys <= s.regions.Keys && g.work <= g.seg.regions.Keys
    ensures |g.thresholds| == |g.merges| >= 1
    ensures g.finalThreshold == sch.similarity
  {
    Loop(s, crit, opts, sch, w, 0, 0, Increment(sch))
  }

  /** Each threshold after the first is the one before it, raised by
      one increment when the pass before merged nothing. */
  predicate Raised(ts: seq<real>, ms: seq<nat>, inc: real)
    requires |ts| == |ms|
  {
    forall k :: 1 <= k < |ms| ==> ts[k] == ts[k - 1] + (if ms[k - 1] == 0 then inc else 0.0)
  }

  /** After none of the passes but the last did the loop's exit test
      fire. */
  predicate KeepsGoing(ms: seq<nat>, iteration: nat, noMerge: nat, sch: Schedule)
  {
    forall k :: 1 <= k < |ms| ==>
      iteration + k != sch.maxIterations && noMerge + ZeroPasses(ms[..k]) <= sch.increaseStep
  }

  /** After the last pass the exit test fired: the cap was reached, or
      that pass merged nothing and the passes that merged nothing now
      exceed increaseStep. */
  predicate Stops(ms: seq<nat>, iteration: nat, noMerge: nat, sch: Schedule)
  {
    |ms| >= 1 &&
    (iteration + |ms| == sch.maxIterations ||
      (ms[|ms| - 1] == 0 && noMerge + ZeroPasses(ms) == sch.increaseStep + 1))
  }

  /** The thresholds of the loop start at the given value and are raised
      after every pass that merged nothing; the merge counts add up to
      the regions removed. */
  lemma {:induction false} LoopThresholds(s: Seg, crit: Criterion, opts: Options, sch: Schedule, w: set<nat>, iteration: nat, noMerge: nat, threshold: real)
    requires Valid(s) && w <= s.regions.Keys && noMerge <= sch.increaseStep
    ensures var g := Loop(s, crit, opts, sch, w, iteration, noMerge, threshold);
      g.thresholds[0] == threshold && Raised(g.thresholds, g.merges, Increment(sch)) &&
      TotalMerged(g.merges) == |s.regions| - |g.seg.regions|
    decreases |s.regions|, sch.increaseStep - noMerge
  {
    var g := Loop(s, crit, opts, sch, w, iteration, noMerge, threshold);
    var p := OnePass(s, crit, opts, sch, w, iteration, threshold);
    var noMerge' := NoMergeAfter(noMerge, p.merged);
    LoopUnfold(s, crit, opts, sch, w, iteration, noMerge, threshold);
    if ExitTest(sch, iteration + 1, noMerge') {
      assert g.merges == [p.merged];
    } else {
      var threshold' := ThresholdAfter(sch, threshold, p.merged);
      var h := Loop(p.seg, crit, opts, sch, p.work, iteration + 1, noMerge', threshold');
      LoopThresholds(p.seg, crit, opts, sch, p.work, iteration + 1, noMerge', threshold');
      RaisedCons(threshold, p.merged, Increment(sch), h.thresholds, h.merges);
      TotalMergedCons(p.merged, h.merges);
    }
  }

  /** A threshold raised as the rule says, put before a raised run. */
  lemma RaisedCons(t: real, m: nat, inc: real, ts: seq<real>, ms: seq<nat>)
    requires |ts| == |ms| >= 1 && Raised(ts, ms, inc)
    requires ts[0] == t + (if m == 0 then inc else 0.0)
    ensures Raised([t] + ts, [m] + ms, inc)
  {
    var ts', ms' := [t] + ts, [m] + ms;
    forall k | 1 <= k < |ms'|
      ensures ts'[k] == ts'[k - 1] + (if ms'[k - 1] == 0 then inc else 0.0)
    {
      if k > 1 {
        assert ts'[k] == ts[k - 1] && ms'[k - 1] == ms[k - 2] && ts'[k - 1] == ts[k - 2];
      }
    }
  }

  lemma TotalMergedCons(m: nat, ms: seq<nat>)
    ensures TotalMerged([m] + ms) == m + TotalMerged(ms)
  {
    assert ([m] + ms)[1..] == ms;
  }

  lemma ZeroPassesCons(m: nat, ms: seq<nat>)
    ensures ZeroPasses([m] + ms) == (if m == 0 then 1 else 0) + ZeroPasses(ms)
  {
    assert ([m] + ms)[1..] == ms;
  }

  /** The merge counts ms of the passes run from `iteration` on, with
      noMerge passes that merged nothing before them, obey the exit test:
      with the cap unreached at the start they stay within it, the
      passes that merge nothing exceed increaseStep by at most one, the
      test fires after the last pass and after no earlier one. */
  predicate Scheduled(ms: seq<nat>, iteration: nat, noMerge: nat, sch: Schedule)
  {
    (iteration < sch.maxIterations ==> iteration + |ms| <= sch.maxIterations) &&
    noMerge + ZeroPasses(ms) <= sch.increaseStep + 1 &&
    Stops(ms, iteration, noMerge, sch) && KeepsGoing(ms, iteration, noMerge, sch)
  }

  lemma ScheduledLast(m: nat, iteration: nat, noMerge: nat, sch: Schedule)
    requires noMerge <= sch.increaseStep
    requires ExitTest(sch, iteration + 1, NoMergeAfter(noMerge, m))
    ensures Scheduled([m], iteration, noMerge, sch)
  {
    ZeroPassesCons(m, []);
    assert [m] == [m] + [];
  }

  lemma ScheduledCons(m: nat, hs: seq<nat>, iteration: nat, noMerge: nat, sch: Schedule)
    requires noMerge <= sch.increaseStep
    requires !ExitTest(sch, iteration + 1, NoMergeAfter(noMerge, m))
    requires Scheduled(hs, iteration + 1, NoMergeAfter(noMerge, m), sch)
    ensures Scheduled([m] + hs, iteration, noMerge, sch)
  {
    var ms := [m] + hs;
    ZeroPassesCons(m, hs);
    ZeroPassesCons(m, []);
    assert ms[|ms| - 1] == hs[|hs| - 1];
    forall k | 1 <= k < |ms|
      ensures iteration + k != sch.maxIterations && noMerge + ZeroPasses(ms[..k]) <= sch.increaseStep
    {
      if k > 1 {
        assert ms[..k] == [m] + hs[..k - 1];
        ZeroPassesCons(m, hs[..k - 1]);
      } else {
        assert ms[..k] == [m] + [];
      }
    }
  }

  /** The loop stops exactly at its exit test. */
  lemma {:induction false} LoopStops(s: Seg, crit: Criterion, opts: Options, sch: Schedule, w: set<nat>, iteration: nat, noMerge: nat, threshold: real)
    requires Valid(s) && w <= s.regions.Keys && noMerge <= sch.increaseStep
    ensures Scheduled(Loop(s, crit, opts, sch, w, iteration, noMerge, threshold).merges, iteration, noMerge, sch)
    decreases |s.regions|, sch.increaseStep - noMerge
  {
    var g := Loop(s, crit, opts, sch, w, iteration, noMerge, threshold);
    var p := OnePass(s, crit, opts, sch, w, iteration, threshold);
    var noMerge' := NoMergeAfter(noMerge, p.merged);
    LoopUnfold(s, crit, opts, sch, w, iteration, noMerge, threshold);
    if ExitTest(sch, iteration + 1, noMerge') {
      assert g.merges == [p.merged];
      ScheduledLast(p.merged, iteration, noMerge, sch);
    } else {
      var threshold' := ThresholdAfter(sch, threshold, p.merged);
      var h := Loop(p.seg, crit, opts, sch, p.work, iteration + 1, noMerge', threshold');
      LoopStops(p.seg, crit, opts, sch, p.work, iteration + 1, noMerge', threshold');
      ScheduledCons(p.merged, h.merges, iteration, noMerge, sch);
    }
  }

  /** The sum of the merge counts. */
  function TotalMerged(ms: seq<nat>): nat
  {
    if ms == [] then 0 else ms[0] + TotalMerged(ms[1..])
  }

  /** executeRegionGrowing's schedule: the first pass runs at
      similarity / (increaseStep + 1); each pass that merges nothing
      raises the threshold by that amount; with maxIterations >= 1 at
      most maxIterations passes run; the loop ends exactly when the cap
      is reached or when increaseStep + 1 passes have merged nothing;
      the merges counted are the regions removed. */
  lemma ExecuteRegionGrowingSchedule(s: Seg, crit: Criterion, opts: Options, sch: Schedule, w: set<nat>)
    requires Valid(s) && w <= s.regions.Keys
    ensures var g := ExecuteRegionGrowing(s, crit, opts, sch, w);
      g.thresholds[0] == Increment(sch) && Raised(g.thresholds, g.merges, Increment(sch)) &&
      TotalMerged(g.merges) == |s.regions| - |g.seg.regions|
    ensures var g := ExecuteRegionGrowing(s, crit, opts, sch, w);
      (sch.maxIterations >= 1 ==> |g.merges| <= sch.maxIterations) &&
      ZeroPasses(g.merges) <= sch.increaseStep + 1 &&
      Stops(g.merges, 0, 0, sch) && KeepsGoing(g.merges, 0, 0, sch)
  {
    LoopThresholds(s, crit, opts, sch, w, 0, 0, Increment(sch));
    LoopStops(s, crit, opts, sch, w, 0, 0, Increment(sch));
  }

  /** inc added z times. */
  function Repeated(inc: real, z: nat): real
  {
    if z == 0 then 0.0 else Repeated(inc, z - 1) + inc
  }

  lemma {:induction false} RepeatedIsProduct(inc: real, z: nat)
    ensures Repeated(inc, z) == inc * z as real
  {
    if z > 0 {
      RepeatedIsProduct(inc, z - 1);
      assert inc * z as real == inc * (z - 1) as real + inc;
    }
  }

  lemma {:induction false} RaisedRepeated(ts: seq<real>, ms: seq<nat>, inc: real, k: nat)
    requires |ts| == |ms| && k < |ms| && Raised(ts, ms, inc)
    ensures ts[k] == ts[0] + Repeated(inc, ZeroPasses(ms[..k]))
  {
    if k == 0 {
      assert ms[..k] == [];
    } else {
      RaisedRepeated(ts, ms, inc, k - 1);
      assert ms[..k] == ms[..k - 1] + [ms[k - 1]];
      ZeroPassesSnoc(ms[..k - 1], ms[k - 1]);
      assert ts[k] == ts[k - 1] + (if ms[k - 1] == 0 then inc else 0.0);
    }
  }

  /** Raised thresholds in closed form: the k-th is the first plus one
      increment per earlier pass that merged nothing. */
  lemma {:induction false} RaisedClosedForm(ts: seq<real>, ms: seq<nat>, inc: real, k: nat)
    requires |ts| == |ms| && k < |ms| && Raised(ts, ms, inc)
    ensures ts[k] == ts[0] + inc * ZeroPasses(ms[..k]) as real
  {
    RaisedRepeated(ts, ms, inc, k);
    RepeatedIsProduct(inc, ZeroPasses(ms[..k]));
  }

  /** Pass k runs at similarity / (increaseStep + 1) times one plus the
      number of earlier passes that merged nothing, and so, for a
      non-negative similarity, never above the similarity itself. */
  lemma ThresholdNeverAboveSimilarity(s: Seg, crit: Criterion, opts: Options, sch: Schedule, w: set<nat>, k: nat)
    requires Valid(s) && w <= s.regions.Keys
    requires k < |ExecuteRegionGrowing(s, crit, opts, sch, w).merges|
    ensures var g := ExecuteRegionGrowing(s, crit, opts, sch, w);
      g.thresholds[k] == Annealed(sch, ZeroPasses(g.merges[..k])) &&
      (sch.similarity >= 0.0 ==> g.thresholds[k] <= sch.similarity)
  {
    var g := ExecuteRegionGrowing(s, crit, opts, sch, w);
    ExecuteRegionGrowingSchedule(s, crit, opts, sch, w);
    ScheduleBound(g.thresholds, g.merges, sch, k);
  }

  lemma ScheduleBound(ts: seq<real>, ms: seq<nat>, sch: Schedule, k: nat)
    requires |ts| == |ms| && k < |ms| && ts[0] == Increment(sch)
    requires Raised(ts, ms, Increment(sch)) && KeepsGoing(ms, 0, 0, sch) && Stops(ms, 0, 0, sch)
    ensures ts[k] == Annealed(sch, ZeroPasses(ms[..k]))
    ensures sch.similarity >= 0.0 ==> ts[k] <= sch.similarity
  {
    var z := ZeroPasses(ms[..k]);
    RaisedRepeated(ts, ms, Increment(sch), k);
    ZeroPassesBound(ms, sch, k);
    AnnealedRepeated(sch, z);
    AnnealedBelow(sch, z);
    ClosedBound(ts[k], Increment(sch), Repeated(Increment(sch), z), Annealed(sch, z), sch.similarity);
  }

  lemma ClosedBound(t: real, first: real, raise: real, annealed: real, similarity: real)
    requires t == first + raise && annealed == first + raise
    requires similarity >= 0.0 ==> annealed <= similarity
    ensures t == annealed && (similarity >= 0.0 ==> t <= similarity)
  {
  }

  /** Before pass k the passes that merged nothing are within increaseStep. */
  lemma ZeroPassesBound(ms: seq<nat>, sch: Schedule, k: nat)
    requires k < |ms| && KeepsGoing(ms, 0, 0, sch)
    ensures ZeroPasses(ms[..k]) <= sch.increaseStep
  {
    if k == 0 {
      assert ms[..k] == [];
    }
  }

  /** The first threshold raised z times. */
  lemma AnnealedRepeated(sch: Schedule, z: nat)
    ensures Annealed(sch, z) == Increment(sch) + Repeated(Increment(sch), z)
  {
    var inc := Increment(sch);
    RepeatedIsProduct(inc, z);
    assert inc * (1 + z) as real == inc + inc * z as real;
  }

  /** The threshold after z passes that merged nothing. */
  function Annealed(sch: Schedule, z: nat): real
  {
    Increment(sch) * (1 + z) as real
  }

  lemma AnnealedBelow(sch: Schedule, z: nat)
    requires z <= sch.increaseStep
    ensures sch.similarity >= 0.0 ==> Annealed(sch, z) <= sch.similarity
  {
    if sch.similarity >= 0.0 {
      var inc := Increment(sch);
      var n := (sch.increaseStep + 1) as real;
      assert inc * n == sch.similarity;
      assert inc >= 0.0;
      MulLe(inc, (1 + z) as real, n);
    }
  }

  lemma MulLe(a: real, x: real, y: real)
    requires a >= 0.0 && x <= y
    ensures a * x <= a * y
  {
  }

  // ---------------------------------------------------------------------
  // Minimum area
  // ---------------------------------------------------------------------

  /** A region the cleanup leaves alone: larger than minArea, or with no
      neighbour getClosestRegion picks to absorb it. */
  predicate Settled(s: Seg, minArea: nat, x: nat)
    requires Valid(s) && x in s.regions
  {
    s.regions[x].size > minArea || Nearest(s, x).None?
  }

  /** The loop of mergeSmallRegions from position i of the ids: a region
      no larger than minArea is merged into the closest of all its
      neighbours, which survives. */
  function SmallFrom(s: Seg, minArea: nat, order: seq<nat>, i: nat): (p: Pass)
    requires Valid(s) && i <= |order|
    ensures Shrinks(s, {}, p)
    ensures Trace(s, BySize(minArea), p.log, p.seg)
    ensures p.merged == 0 ==> (p.seg == s &&
      forall k :: i <= k < |order| && order[k] in s.regions ==> Settled(s, minArea, order[k]))
    decreases |order| - i
  {
    if i == |order| then
      ShrinksNothing(s, {});
      Pass(s, {}, 0, [])
    else
      var x := order[i];
      if x !in s.regions || s.regions[x].size > minArea then SmallFrom(s, minArea, order, i + 1)
      else match Nearest(s, x)
        case None => SmallFrom(s, minArea, order, i + 1)
        case Some(c) =>
          var s' := MergePair(s, c, x);
          var m := Merge(c, x);
          ShrinksByMerge(s, {}, c, x);
          var rest := SmallFrom(s', minArea, order, i + 1);
          ShrinksCompose(s, {}, Pass(s', {}, 1, [m]), rest);
          assert Allowed(s, BySize(minArea), m);
          TraceCons(s, BySize(minArea), m, rest.log, rest.seg);
          Pass(rest.seg, {}, 1 + rest.merged, [m] + rest.log)
  }

  /** MultiSeg::mergeSmallRegions: one pass over the table in ascending
      id order. A pass that merges nothing leaves the state as it was,
      with every region settled. */
  function MergeSmallRegions(s: Seg, minArea: nat): (p: Pass)
    requires Valid(s)
    ensures Shrinks(s, {}, p)
    ensures Trace(s, BySize(minArea), p.log, p.seg)
    ensures p.merged == 0 ==> p.seg == s && forall x :: x in s.regions ==> Settled(s, minArea, x)
  {
    var order := SortedIds(s.regions.Keys);
    var p := SmallFrom(s, minArea, order, 0);
    assert forall x :: x in s.regions ==> exists k :: 0 <= k < |order| && order[k] == x;
    p
  }

  /** The repetition of processSmallRegions: passes until one merges
      nothing. */
  function SmallLoop(s: Seg, minArea: nat): (p: Pass)
    requires Valid(s)
    ensures Shrinks(s, {}, p)
    ensures Trace(s, BySize(minArea), p.log, p.seg)
    decreases |s.regions|
  {
    var p := MergeSmallRegions(s, minArea);
    if p.merged == 0 then p
    else
      var rest := SmallLoop(p.seg, minArea);
      assert p.work == {};
      ShrinksCompose(s, {}, p, rest);
      TraceCompose(s, BySize(minArea), p.log, p.seg, rest.log, rest.seg);
      Pass(rest.seg, rest.work, p.merged + rest.merged, p.log + rest.log)
  }

  /** The repetition ends with every region settled. */
  lemma {:induction false} SmallLoopSettles(s: Seg, minArea: nat)
    requires Valid(s)
    ensures forall x :: x in SmallLoop(s, minArea).seg.regions ==> Settled(SmallLoop(s, minArea).seg, minArea, x)
    decreases |s.regions|
  {
    var p := MergeSmallRegions(s, minArea);
    if p.merged != 0 {
      SmallLoopSettles(p.seg, minArea);
    }
  }

  /** MultiSeg::processSmallRegions: nothing happens unless minArea > 1;
      then afterwards every region larger than minArea or isolated, the
      state consistent, and the cells of surviving regions unchanged. */
  function ProcessSmallRegions(s: Seg, minArea: nat): (s': Seg)
    requires Valid(s)
    ensures Valid(s') && s'.regions.Keys <= s.regions.Keys
    ensures minArea <= 1 ==> s' == s
    ensures minArea > 1 ==> forall x :: x in s'.regions ==> Settled(s', minArea, x)
    ensures s'.nLines == s.nLines && s'.nCols == s.nCols && s'.nBands == s.nBands
    ensures forall l, c :: 0 <= l < s.nLines && 0 <= c < s.nCols && s.labels[l][c] in s'.regions ==>
      s'.labels[l][c] == s.labels[l][c]
  {
    if minArea <= 1 then s
    else
      SmallLoopSettles(s, minArea);
      SmallLoop(s, minArea).seg
  }
}
