/** Small helpers of the segmenter: pixel identifiers, the string
    tokenizer used by the CV table reader, and the pyramid depth limit. */
module Utils {

  // ---------------------------------------------------------------------
  // Pixel identifiers
  // ---------------------------------------------------------------------

  /** Identifier of pixel (lin, col) in a grid with `nCols` columns. */
  function GenerateId(lin: nat, col: nat, nCols: nat): (id: nat)
    ensures col < nCols ==> lin * nCols <= id < (lin + 1) * nCols
  {
    lin * nCols + col
  }

  /** Line and column of an identifier. Utils.cpp computes the line as
      floor(id / nCols) in double precision; with exact arithmetic that is
      the integer quotient. */
  function DecodeId(id: nat, nCols: nat): (lc: (nat, nat))
    requires nCols > 0
    ensures lc.1 < nCols
    ensures GenerateId(lc.0, lc.1, nCols) == id
  {
    (id / nCols, id % nCols)
  }

  /** Decoding undoes encoding for every in-range column. */
  lemma DecodeGenerate(lin: nat, col: nat, nCols: nat)
    requires col < nCols
    ensures DecodeId(GenerateId(lin, col, nCols), nCols) == (lin, col)
  {
    DivUnique(lin * nCols + col, nCols, lin, col);
  }

  /** Distinct in-range pixels receive distinct identifiers. */
  lemma GenerateIdInjective(l1: nat, c1: nat, l2: nat, c2: nat, nCols: nat)
    requires c1 < nCols && c2 < nCols
    requires GenerateId(l1, c1, nCols) == GenerateId(l2, c2, nCols)
    ensures l1 == l2 && c1 == c2
  {
    DecodeGenerate(l1, c1, nCols);
    DecodeGenerate(l2, c2, nCols);
  }

  // ---------------------------------------------------------------------
  // Tokenize
  // ---------------------------------------------------------------------
  // Positions returned by the searches below use |s| where the C++ code
  // returns std::string::npos: both mean "no such position", and every
  // later search from |s| again yields |s|.

  predicate IsDelimiter(c: char, delimiters: string) { c in delimiters }

  /** std::string::find_first_not_of(delimiters, from). */
  function FindFirstNotOf(s: string, delimiters: string, from: nat): (p: nat)
    ensures from <= |s| ==> from <= p <= |s|
    ensures from > |s| ==> p == |s|
    ensures p < |s| ==> !IsDelimiter(s[p], delimiters)
    ensures forall k :: from <= k < p ==> IsDelimiter(s[k], delimiters)
    decreases |s| - from
  {
    if from >= |s| then |s|
    else if !IsDelimiter(s[from], delimiters) then from
    else FindFirstNotOf(s, delimiters, from + 1)
  }

  /** std::string::find_first_of(delimiters, from). */
  function FindFirstOf(s: string, delimiters: string, from: nat): (p: nat)
    ensures from <= |s| ==> from <= p <= |s|
    ensures from > |s| ==> p == |s|
    ensures p < |s| ==> IsDelimiter(s[p], delimiters)
    ensures forall k :: from <= k < p ==> !IsDelimiter(s[k], delimiters)
    decreases |s| - from
  {
    if from >= |s| then |s|
    else if IsDelimiter(s[from], delimiters) then from
    else FindFirstOf(s, delimiters, from + 1)
  }

  /** The tokens the C++ loop appends from the moment its `lastPos` is
      `lastPos` (which is the end or a non-delimiter). */
  function TokensFrom(s: string, delimiters: string, lastPos: nat): seq<string>
    requires lastPos <= |s|
    requires lastPos < |s| ==> !IsDelimiter(s[lastPos], delimiters)
    decreases |s| - lastPos
  {
    if lastPos == |s| then []
    else
      var pos := FindFirstOf(s, delimiters, lastPos);
      [s[lastPos..pos]] + TokensFrom(s, delimiters, FindFirstNotOf(s, delimiters, pos))
  }

  function Tokens(s: string, delimiters: string): seq<string>
  {
    TokensFrom(s, delimiters, FindFirstNotOf(s, delimiters, 0))
  }

  /** Utils::Tokenize: appends the tokens of `str` to `tokens`. */
  method Tokenize(str: string, tokens: seq<string>, delimiters: string) returns (out: seq<string>)
    ensures out == tokens + Tokens(str, delimiters)
  {
    out := tokens;
    var lastPos := FindFirstNotOf(str, delimiters, 0);
    var pos := FindFirstOf(str, delimiters, lastPos);
    while pos != |str| || lastPos != |str|
      invariant lastPos <= |str|
      invariant lastPos < |str| ==> !IsDelimiter(str[lastPos], delimiters)
      invariant pos == FindFirstOf(str, delimiters, lastPos)
      invariant out + TokensFrom(str, delimiters, lastPos) == tokens + Tokens(str, delimiters)
      decreases |str| - lastPos
    {
      out := out + [str[lastPos..pos]];
      lastPos := FindFirstNotOf(str, delimiters, pos);
      pos := FindFirstOf(str, delimiters, lastPos);
    }
  }

  /** The input with every delimiter character removed. */
  function StripDelimiters(s: string, delimiters: string): string
  {
    if s == [] then []
    else (if IsDelimiter(s[0], delimiters) then [] else [s[0]]) + StripDelimiters(s[1..], delimiters)
  }

  function Concat(ts: seq<string>): string
  {
    if ts == [] then [] else ts[0] + Concat(ts[1..])
  }

  lemma {:induction false} StripAppend(a: string, b: string, delimiters: string)
    ensures StripDelimiters(a + b, delimiters) == StripDelimiters(a, delimiters) + StripDelimiters(b, delimiters)
  {
    if a == [] {
      assert a + b == b;
    } else {
      var head := if IsDelimiter(a[0], delimiters) then [] else [a[0]];
      assert (a + b)[0] == a[0];
      assert (a + b)[1..] == a[1..] + b;
      StripAppend(a[1..], b, delimiters);
      assert StripDelimiters(a + b, delimiters) == head + StripDelimiters(a[1..] + b, delimiters);
      assert StripDelimiters(a, delimiters) == head + StripDelimiters(a[1..], delimiters);
    }
  }

  lemma StripAllDelimiters(s: string, delimiters: string)
    requires forall k :: 0 <= k < |s| ==> IsDelimiter(s[k], delimiters)
    ensures StripDelimiters(s, delimiters) == []
  {
    if s != [] { StripAllDelimiters(s[1..], delimiters); }
  }

  lemma StripNoDelimiters(s: string, delimiters: string)
    requires forall k :: 0 <= k < |s| ==> !IsDelimiter(s[k], delimiters)
    ensures StripDelimiters(s, delimiters) == s
  {
    if s != [] { StripNoDelimiters(s[1..], delimiters); }
  }

  lemma {:induction false} TokensFromConcat(s: string, delimiters: string, lastPos: nat)
    requires lastPos <= |s|
    requires lastPos < |s| ==> !IsDelimiter(s[lastPos], delimiters)
    ensures Concat(TokensFrom(s, delimiters, lastPos)) == StripDelimiters(s[lastPos..], delimiters)
    decreases |s| - lastPos
  {
    if lastPos == |s| {
      assert s[lastPos..] == [];
    } else {
      var pos := FindFirstOf(s, delimiters, lastPos);
      var next := FindFirstNotOf(s, delimiters, pos);
      var word, gap, rest := s[lastPos..pos], s[pos..next], s[next..];
      var later := TokensFrom(s, delimiters, next);
      TokensFromConcat(s, delimiters, next);
      assert TokensFrom(s, delimiters, lastPos) == [word] + later;
      ConcatCons(word, later);
      SplitThree(s, lastPos, pos, next);
      StripWordGap(word, gap, rest, delimiters);
    }
  }

  lemma ConcatCons(t: string, ts: seq<string>)
    ensures Concat([t] + ts) == t + Concat(ts)
  {
    assert ([t] + ts)[1..] == ts;
  }

  /** A word without delimiters followed by a run of delimiters strips to
      the word. */
  lemma StripWordGap(word: string, gap: string, rest: string, delimiters: string)
    requires forall k :: 0 <= k < |word| ==> !IsDelimiter(word[k], delimiters)
    requires forall k :: 0 <= k < |gap| ==> IsDelimiter(gap[k], delimiters)
    ensures StripDelimiters(word + gap + rest, delimiters) == word + StripDelimiters(rest, delimiters)
  {
    var wg := word + gap;
    StripAppend(word, gap, delimiters);
    StripNoDelimiters(word, delimiters);
    StripAllDelimiters(gap, delimiters);
    assert StripDelimiters(word, delimiters) + StripDelimiters(gap, delimiters) == word;
    StripAppend(wg, rest, delimiters);
  }

  lemma SplitThree(s: string, a: nat, b: nat, c: nat)
    requires a <= b <= c <= |s|
    ensures s[a..] == s[a..b] + s[b..c] + s[c..]
  {
  }

  lemma SplitAt(s: string, p: nat)
    requires p <= |s|
    ensures s == s[..p] + s[p..]
  {
  }

  /** Concatenating the tokens gives the input without its delimiters. */
  lemma TokensConcat(s: string, delimiters: string)
    ensures Concat(Tokens(s, delimiters)) == StripDelimiters(s, delimiters)
  {
    var p := FindFirstNotOf(s, delimiters, 0);
    var lead, rest := s[..p], s[p..];
    TokensFromConcat(s, delimiters, p);
    SplitAt(s, p);
    StripAppend(lead, rest, delimiters);
    StripAllDelimiters(lead, delimiters);
    assert StripDelimiters(lead, delimiters) + StripDelimiters(rest, delimiters) == StripDelimiters(rest, delimiters);
  }

  lemma {:induction false} TokensFromWellFormed(s: string, delimiters: string, lastPos: nat)
    requires lastPos <= |s|
    requires lastPos < |s| ==> !IsDelimiter(s[lastPos], delimiters)
    ensures forall i :: 0 <= i < |TokensFrom(s, delimiters, lastPos)| ==>
              var t := TokensFrom(s, delimiters, lastPos)[i];
              t != [] && forall k :: 0 <= k < |t| ==> !IsDelimiter(t[k], delimiters)
    decreases |s| - lastPos
  {
    if lastPos < |s| {
      var pos := FindFirstOf(s, delimiters, lastPos);
      var next := FindFirstNotOf(s, delimiters, pos);
      TokensFromWellFormed(s, delimiters, next);
    }
  }

  /** No token is empty and no token contains a delimiter. */
  lemma TokensWellFormed(s: string, delimiters: string)
    ensures forall i :: 0 <= i < |Tokens(s, delimiters)| ==>
              Tokens(s, delimiters)[i] != [] &&
              forall k :: 0 <= k < |Tokens(s, delimiters)[i]| ==> !IsDelimiter(Tokens(s, delimiters)[i][k], delimiters)
  {
    TokensFromWellFormed(s, delimiters, FindFirstNotOf(s, delimiters, 0));
  }

  // ---------------------------------------------------------------------
  // Reference scanner: one character at a time, closing a token at every
  // delimiter and at the end of the input.
  // ---------------------------------------------------------------------

  function Scan(s: string, delimiters: string, current: string): seq<string>
  {
    if s == [] then (if current == [] then [] else [current])
    else if IsDelimiter(s[0], delimiters) then
      (if current == [] then [] else [current]) + Scan(s[1..], delimiters, [])
    else Scan(s[1..], delimiters, current + [s[0]])
  }

  lemma {:induction false} ScanDelimiterRun(s: string, delimiters: string, from: nat)
    requires from <= |s|
    ensures Scan(s[from..], delimiters, []) == Scan(s[FindFirstNotOf(s, delimiters, from)..], delimiters, [])
    decreases |s| - from
  {
    if from < |s| && IsDelimiter(s[from], delimiters) {
      assert s[from..][1..] == s[from + 1..];
      ScanDelimiterRun(s, delimiters, from + 1);
    }
  }

  lemma {:induction false} ScanWordRun(s: string, delimiters: string, start: nat, j: nat)
    requires start <= j <= |s|
    requires forall k :: start <= k < j ==> !IsDelimiter(s[k], delimiters)
    ensures
      var pos := FindFirstOf(s, delimiters, j);
      Scan(s[j..], delimiters, s[start..j]) ==
        (if pos == start then [] else [s[start..pos]]) + Scan(s[FindFirstNotOf(s, delimiters, pos)..], delimiters, [])
    decreases |s| - j
  {
    if j == |s| {
      ScanWordAtEnd(s, delimiters, start);
    } else if IsDelimiter(s[j], delimiters) {
      ScanWordAtDelimiter(s, delimiters, start, j);
    } else {
      ScanWordStep(s, delimiters, start, j);
      ScanWordRun(s, delimiters, start, j + 1);
    }
  }

  /** A non-delimiter at j joins the word. */
  lemma ScanWordStep(s: string, delimiters: string, start: nat, j: nat)
    requires start <= j < |s| && !IsDelimiter(s[j], delimiters)
    ensures Scan(s[j..], delimiters, s[start..j]) == Scan(s[j + 1..], delimiters, s[start..j + 1])
    ensures FindFirstOf(s, delimiters, j) == FindFirstOf(s, delimiters, j + 1)
  {
    assert s[j..][1..] == s[j + 1..];
    assert s[start..j] + [s[j]] == s[start..j + 1];
  }

  /** The input ends the word. */
  lemma ScanWordAtEnd(s: string, delimiters: string, start: nat)
    requires start <= |s|
    ensures
      var pos := FindFirstOf(s, delimiters, |s|);
      Scan(s[|s|..], delimiters, s[start..|s|]) ==
        (if pos == start then [] else [s[start..pos]]) + Scan(s[FindFirstNotOf(s, delimiters, pos)..], delimiters, [])
  {
    assert s[|s|..] == [];
    assert FindFirstNotOf(s, delimiters, |s|) == |s|;
  }

  /** A delimiter at j ends the word. */
  lemma ScanWordAtDelimiter(s: string, delimiters: string, start: nat, j: nat)
    requires start <= j < |s| && IsDelimiter(s[j], delimiters)
    ensures
      var pos := FindFirstOf(s, delimiters, j);
      Scan(s[j..], delimiters, s[start..j]) ==
        (if pos == start then [] else [s[start..pos]]) + Scan(s[FindFirstNotOf(s, delimiters, pos)..], delimiters, [])
  {
    assert FindFirstOf(s, delimiters, j) == j;
    assert s[j..][1..] == s[j + 1..];
    ScanDelimiterRun(s, delimiters, j + 1);
    assert FindFirstNotOf(s, delimiters, j) == FindFirstNotOf(s, delimiters, j + 1);
  }

  lemma {:induction false} TokensFromIsScan(s: string, delimiters: string, lastPos: nat)
    requires lastPos <= |s|
    requires lastPos < |s| ==> !IsDelimiter(s[lastPos], delimiters)
    ensures TokensFrom(s, delimiters, lastPos) == Scan(s[lastPos..], delimiters, [])
    decreases |s| - lastPos
  {
    if lastPos == |s| {
      assert s[lastPos..] == [];
    } else {
      var pos := FindFirstOf(s, delimiters, lastPos);
      var next := FindFirstNotOf(s, delimiters, pos);
      assert s[lastPos..lastPos] == [];
      ScanWordRun(s, delimiters, lastPos, lastPos);
      TokensFromIsScan(s, delimiters, next);
    }
  }

  /** The tokens are exactly the maximal runs of non-delimiters, as found
      by the character-at-a-time reference scanner. */
  lemma TokensAreMaximalRuns(s: string, delimiters: string)
    ensures Tokens(s, delimiters) == Scan(s, delimiters, [])
  {
    var p := FindFirstNotOf(s, delimiters, 0);
    assert s[0..] == s;
    ScanDelimiterRun(s, delimiters, 0);
    TokensFromIsScan(s, delimiters, p);
  }

  // ---------------------------------------------------------------------
  // ComputeMaxLevels
  // ---------------------------------------------------------------------

  function Pow2(k: nat): (p: nat)
    ensures p >= 1
  {
    if k == 0 then 1 else 2 * Pow2(k - 1)
  }

  function Min(a: nat, b: nat): nat { if a <= b then a else b }

  lemma HalveAgain(x: nat, k: nat)
    ensures (x / Pow2(k)) / 2 == x / Pow2(k + 1)
  {
    HalveDiv(x, Pow2(k));
  }

  /** Halving a quotient by p is dividing by 2 * p. */
  lemma HalveDiv(x: nat, p: nat)
    requires p > 0
    ensures (x / p) / 2 == x / (2 * p)
  {
    var q, r := x / p, x % p;
    var q2, r2 := q / 2, q % 2;
    var low := r2 * p + r;
    assert x == q * p + r;
    assert q * p == q2 * (2 * p) + r2 * p by {
      assert q == 2 * q2 + r2;
      SplitProduct(q2, r2, p);
    }
    assert low < 2 * p by {
      if r2 == 0 { assert r2 * p == 0; } else { assert r2 * p == p; }
    }
    DivUnique(x, 2 * p, q2, low);
  }

  lemma SplitProduct(a: nat, b: nat, p: nat)
    ensures (2 * a + b) * p == a * (2 * p) + b * p
  {
  }

  /** A multiple of a positive d strictly between -d and d is zero. */
  lemma MulBetween(k: int, d: nat)
    requires d > 0 && -(d as int) < k * d < d
    ensures k == 0
  {
  }

  lemma DivUnique(x: nat, d: nat, q: nat, r: nat)
    requires d > 0 && x == q * d + r && r < d
    ensures x / d == q && x % d == r
  {
    var q', r' := x / d, x % d;
    assert (q - q') * d == r' - r;
    MulBetween(q - q', d);
  }

  lemma {:induction false} DivPowMonotone(x: nat, k: nat, k': nat)
    requires k <= k'
    ensures x / Pow2(k') <= x / Pow2(k)
    decreases k' - k
  {
    if k < k' {
      DivPowMonotone(x, k, k' - 1);
      HalveAgain(x, k' - 1);
      var y := x / Pow2(k' - 1);
      assert y / 2 <= y;
    }
  }

  /** Utils::ComputeMaxLevels: the number of halvings k >= 1 after which
      the smaller image side still has at least `minimumSize` pixels.
      With `minimumSize` == 0 the C++ loop never ends, so the model
      requires a positive minimum (the default is 2). */
  method ComputeMaxLevels(nlines: nat, ncols: nat, minimumSize: nat) returns (maxLevels: nat)
    requires minimumSize > 0
    ensures forall k :: 1 <= k <= maxLevels ==> Min(nlines, ncols) / Pow2(k) >= minimumSize
    ensures Min(nlines, ncols) / Pow2(maxLevels + 1) < minimumSize
  {
    var side := Min(nlines, ncols);
    maxLevels := 0;
    var levelSize := side / 2;
    while levelSize >= minimumSize
      invariant levelSize == side / Pow2(maxLevels + 1)
      invariant forall k :: 1 <= k <= maxLevels ==> side / Pow2(k) >= minimumSize
      decreases levelSize
    {
      maxLevels := maxLevels + 1;
      HalveAgain(side, maxLevels);
      levelSize := levelSize / 2;
    }
  }

  /** The depth is the size of {k >= 1 : floor(side / 2^k) >= minimumSize}:
      every deeper level is too small as well. */
  lemma MaxLevelsExact(side: nat, minimumSize: nat, m: nat)
    requires forall k :: 1 <= k <= m ==> side / Pow2(k) >= minimumSize
    requires side / Pow2(m + 1) < minimumSize
    ensures forall k :: k > m ==> side / Pow2(k) < minimumSize
  {
    forall k | k > m ensures side / Pow2(k) < minimumSize {
      DivPowMonotone(side, m + 1, k);
    }
  }

  /** No level at all when the smaller side is below twice the minimum. */
  lemma NoLevelsForSmallImages(nlines: nat, ncols: nat, minimumSize: nat, m: nat)
    requires minimumSize > 0
    requires Min(nlines, ncols) < 2 * minimumSize
    requires forall k :: 1 <= k <= m ==> Min(nlines, ncols) / Pow2(k) >= minimumSize
    ensures m == 0
  {
    var side := Min(nlines, ncols);
    assert Pow2(1) == 2;
    assert side / 2 < minimumSize;
  }

  /** A larger image never allows fewer levels. */
  lemma MaxLevelsMonotone(l1: nat, c1: nat, l2: nat, c2: nat, minimumSize: nat, m1: nat, m2: nat)
    requires minimumSize > 0
    requires l1 <= l2 && c1 <= c2
    requires forall k :: 1 <= k <= m1 ==> Min(l1, c1) / Pow2(k) >= minimumSize
    requires Min(l2, c2) / Pow2(m2 + 1) < minimumSize
    ensures m1 <= m2
  {
    DivMonotone(Min(l1, c1), Min(l2, c2), Pow2(m2 + 1));
  }

  lemma DivMonotone(a: nat, b: nat, d: nat)
    requires a <= b && d > 0
    ensures a / d <= b / d
  {
    var qa, ra, qb, rb := a / d, a % d, b / d, b % d;
    assert (qa - qb) * d == (a - b) + (rb - ra);
    assert (qa - qb) * d < d;
    MulBelow(qa - qb, d);
  }

  lemma MulBelow(k: int, d: nat)
    requires d > 0 && k * d < d
    ensures k < 1
  {
  }
}
