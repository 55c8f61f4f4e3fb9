/** The table of critical coefficients of variation used by the split
    step: the accepted confidence levels and the file each selects, the
    39-entry schedule of sample-count breakpoints, the table filled from
    the rows of a file, and the lookup that clamps the number of looks and
    rounds the sample count to a breakpoint.

    Parsing the CSV text is not modelled: a file is given as its rows of
    39 values each. */
module CVTables {
  import opened Results

  datatype CVFault =
    | InvalidLevel(level: real)    // verifyCV throws
    | KeyMissing(enl: int, n: int) // the assertion on the table lookup

  /** The confidence levels verifyCV accepts. */
  const AcceptedLevels: set<real> := {0.99999, 0.999, 0.995, 0.99, 0.95, 0.90, 0.85, 0.80}

  /** CVTable::verifyCV. */
  function VerifyCV(cv: real): (res: Result<(), CVFault>)
    ensures res.Ok? <==> cv in AcceptedLevels
    ensures res.Fault? ==> res.error == InvalidLevel(cv)
  {
    if cv == 0.99999 || cv == 0.999 || cv == 0.995 || cv == 0.99 ||
       cv == 0.95 || cv == 0.90 || cv == 0.85 || cv == 0.80
    then Ok(())
    else Fault(InvalidLevel(cv))
  }

  /** CVTable::load(cv): the file to read, none above 0.999 (a confidence
      of 100%, the table stays empty), or the verification fault. */
  function TableFile(cv: real): (res: Result<Option<string>, CVFault>)
    ensures res.Ok? <==> cv in AcceptedLevels
    ensures res.Ok? ==> (res.value.None? <==> cv > 0.999)
  {
    var _ :- VerifyCV(cv);
    if cv > 0.999 then Ok(None)
    else if cv == 0.999 then Ok(Some("./tables/tab_01.csv"))
    else if cv == 0.995 then Ok(Some("./tables/tab_05.csv"))
    else if cv == 0.99 then Ok(Some("./tables/tab_1.csv"))
    else if cv == 0.95 then Ok(Some("./tables/tab_5.csv"))
    else if cv == 0.90 then Ok(Some("./tables/tab_10.csv"))
    else if cv == 0.85 then Ok(Some("./tables/tab_15.csv"))
    else Ok(Some("./tables/tab_20.csv"))
  }

  /** Each accepted level up to 0.999 selects a file of its own. */
  lemma TableFilesDistinct(cv1: real, cv2: real)
    requires cv1 in AcceptedLevels && cv2 in AcceptedLevels
    requires cv1 <= 0.999 && cv2 <= 0.999 && cv1 != cv2
    ensures TableFile(cv1).value.Some? && TableFile(cv2).value.Some?
    ensures TableFile(cv1).value.value != TableFile(cv2).value.value
  {
  }

  // ---------------------------------------------------------------------
  // The breakpoint schedule
  // ---------------------------------------------------------------------

  /** The step of load(path) from one sample count to the next. */
  function NextBreakpoint(n: nat): nat
  {
    if n < 100 then n + 10
    else if n < 1000 then n + 50
    else if n < 4000 then n + 500
    else n + 1000
  }

  const HeaderSize: nat := 39

  /** The j-th breakpoint in closed form: ten steps of 10 up to 100,
      eighteen of 50 up to 1000, six of 500 up to 4000, then steps of
      1000. */
  function HeaderValue(j: nat): nat
  {
    if j < 10 then 10 * (j + 1)
    else if j < 28 then 100 + 50 * (j - 9)
    else if j < 34 then 1000 + 500 * (j - 27)
    else 4000 + 1000 * (j - 33)
  }

  function Header(): (h: seq<nat>)
    ensures |h| == HeaderSize
  {
    seq(HeaderSize, j requires 0 <= j < HeaderSize => HeaderValue(j))
  }

  /** Stepping from a breakpoint gives the next one. */
  lemma NextBreakpointIsNext(j: nat)
    ensures NextBreakpoint(HeaderValue(j)) == HeaderValue(j + 1)
  {
  }

  /** The schedule starts at 10, ends at 9000 and strictly increases. */
  lemma HeaderShape()
    ensures Header()[0] == 10 && Header()[HeaderSize - 1] == 9000
    ensures forall i, j :: 0 <= i < j < HeaderSize ==> Header()[i] < Header()[j]
  {
  }

  /** A loaded table: the breakpoints and the values by (looks, samples). */
  datatype CVTable = CVTable(header: seq<nat>, table: map<(nat, nat), real>)

  /** CVTable::load(path) after the CSV text is split: row k (from 1)
      holds the values for k looks, one per breakpoint. The header is
      filled while the first row is read. */
  method LoadRows(rows: seq<seq<real>>) returns (t: CVTable)
    requires forall k :: 0 <= k < |rows| ==> |rows[k]| == HeaderSize
    ensures t.header == if |rows| == 0 then [] else Header()
    ensures forall k: nat :: k < |rows| ==> RowStored(t.table, k + 1, rows[k], HeaderSize)
    ensures forall key :: key in t.table ==> 1 <= key.0 <= |rows| && key.1 in Header()
  {
    var header: seq<nat> := [];
    var table: map<(nat, nat), real> := map[];
    var enl: nat := 0;
    while enl < |rows|
      invariant enl <= |rows|
      invariant header == if enl == 0 then [] else Header()
      invariant forall k: nat :: k < enl ==> RowStored(table, k + 1, rows[k], HeaderSize)
      invariant forall key :: key in table ==> 1 <= key.0 <= enl && key.1 in Header()
    {
      var table' := table;
      header, table' := LoadRow(header, table, enl + 1, rows[enl]);
      forall k: nat | k < enl ensures RowStored(table', k + 1, rows[k], HeaderSize) {
        RowStoredKept(table, table', k + 1, rows[k]);
      }
      table := table';
      enl := enl + 1;
    }
    t := CVTable(header, table);
  }

  /** One row of load(path): its values are stored under the next number
      of looks, and the header is completed if it is not yet full. */
  method LoadRow(header: seq<nat>, table: map<(nat, nat), real>, looks: nat, cvs: seq<real>)
    returns (header': seq<nat>, table': map<(nat, nat), real>)
    requires |cvs| == HeaderSize
    requires header == [] || header == Header()
    requires looks >= 1
    requires forall key :: key in table ==> 1 <= key.0 < looks && key.1 in Header()
    ensures header' == Header()
    ensures RowStored(table', looks, cvs, HeaderSize)
    ensures forall key :: key in table ==> key in table' && table'[key] == table[key]
    ensures forall key :: key in table' ==> 1 <= key.0 <= looks && key.1 in Header()
  {
    header', table' := header, table;
    var nSamples: nat := 10;
    var i := 0;
    while i < |cvs|
      invariant i <= |cvs|
      invariant i < HeaderSize ==> nSamples == HeaderValue(i)
      invariant header' == if header == [] then Header()[..i] else Header()
      invariant RowStored(table', looks, cvs, i)
      invariant forall key :: key in table ==> key in table' && table'[key] == table[key]
      invariant forall key :: key in table' ==> 1 <= key.0 <= looks && key.1 in Header()
    {
      assert Header()[i] == HeaderValue(i);
      if |header'| < HeaderSize {
        assert header' + [nSamples] == Header()[..i + 1];
        header' := header' + [nSamples];
      }
      HeaderInjective(i);
      assert nSamples in Header();
      table' := table'[(looks, nSamples) := cvs[i]];
      NextBreakpointIsNext(i);
      nSamples := NextBreakpoint(nSamples);
      i := i + 1;
    }
    assert Header()[..HeaderSize] == Header();
  }

  lemma RowStoredKept(table: map<(nat, nat), real>, table': map<(nat, nat), real>, looks: nat, row: seq<real>)
    requires |row| == HeaderSize
    requires RowStored(table, looks, row, HeaderSize)
    requires forall key :: key in table ==> key in table' && table'[key] == table[key]
    ensures RowStored(table', looks, row, HeaderSize)
  {
  }

  /** The values of one row are stored under its number of looks and the
      first `upto` breakpoints. */
  predicate RowStored(table: map<(nat, nat), real>, looks: nat, row: seq<real>, upto: nat)
    requires upto <= |row|
  {
    forall j: nat :: j < upto ==> (looks, HeaderValue(j)) in table && table[(looks, HeaderValue(j))] == row[j]
  }

  lemma HeaderInjective(i: nat)
    requires i < HeaderSize
    ensures forall j :: 0 <= j < HeaderSize && j != i ==> HeaderValue(j) != HeaderValue(i)
  {
    HeaderShape();
    forall j | 0 <= j < HeaderSize && j != i ensures HeaderValue(j) != HeaderValue(i) {
      assert Header()[i] == HeaderValue(i) && Header()[j] == HeaderValue(j);
    }
  }

  // ---------------------------------------------------------------------
  // The lookup
  // ---------------------------------------------------------------------

  const SizeModulus: int := 0x1_0000_0000_0000_0000
  const IntModulus: int := 0x1_0000_0000
  const IntMin: int := -0x8000_0000

  /** std::string::npos, the starting "minimum" difference. */
  const NoPosition: int := SizeModulus - 1

  /** static_cast<int> of a size_t value: its low 32 bits, signed. */
  function ToInt(x: int): (r: int)
    ensures IntMin <= r < -IntMin
    ensures (r - x) % IntModulus == 0
  {
    var w := x % IntModulus;
    if w >= -IntMin then w - IntModulus else w
  }

  /** static_cast<std::size_t> of an int, and size_t arithmetic. */
  function ToSize(x: int): (r: nat)
    ensures r < SizeModulus && (r - x) % SizeModulus == 0
  {
    x % SizeModulus
  }

  /** std::abs on an int; the most negative int is its own absolute value
      in two's complement. */
  function IntAbs(x: int): int
    requires IntMin <= x < -IntMin
  {
    if x == IntMin then x else if x < 0 then -x else x
  }

  function IntMinOf(a: int, b: int): int
  {
    if a < b then a else b
  }

  /** How the lookup computes with the sizes: with CVTable.cpp's int
      casts, through a 32-bit int, or with exact integers. */
  datatype Arithmetic = AsWritten | Exact

  /** The number of looks clamped to 250. */
  function ClampLooks(mode: Arithmetic, enl: nat): (r: nat)
    requires enl < SizeModulus
    ensures mode == Exact ==> r == if enl < 250 then enl else 250
  {
    match mode
    case AsWritten => ToSize(IntMinOf(ToInt(enl), 250))
    case Exact => IntMinOf(enl, 250)
  }

  /** The distance between a sample count and a breakpoint. */
  function Distance(mode: Arithmetic, n: nat, h: nat): (d: nat)
    requires n < SizeModulus && h < SizeModulus
    ensures mode == Exact ==> d == Dist(n, h)
  {
    match mode
    case AsWritten => ToSize(IntAbs(ToInt(ToSize(n - h))))
    case Exact => if n < h then h - n else n - h
  }

  /** The rounding loop of getCV from breakpoint i on: a breakpoint is
      taken when it is strictly closer than the best so far, so the first
      of equally close breakpoints wins. */
  function RoundFrom(mode: Arithmetic, header: seq<nat>, n: nat, i: nat, minDiff: nat, chosen: nat): (r: nat)
    requires i <= |header| && n < SizeModulus
    requires forall j :: 0 <= j < |header| ==> header[j] < SizeModulus
    ensures r == chosen || r in header[i..]
    decreases |header| - i
  {
    if i == |header| then chosen
    else
      var d := Distance(mode, n, header[i]);
      if d < minDiff then RoundFrom(mode, header, n, i + 1, d, header[i])
      else RoundFrom(mode, header, n, i + 1, minDiff, chosen)
  }

  /** The breakpoint getCV rounds n to. */
  function Round(mode: Arithmetic, header: seq<nat>, n: nat): nat
    requires n < SizeModulus
    requires forall j :: 0 <= j < |header| ==> header[j] < SizeModulus
  {
    RoundFrom(mode, header, n, 0, NoPosition, IntMinOf(n, 9000))
  }

  function Dist(n: nat, h: nat): nat
  {
    if n < h then h - n else n - h
  }

  /** The loop invariant of the exact rounding loop: the choice so far is
      the first nearest breakpoint among the i scanned. */
  ghost predicate NearestSoFar(header: seq<nat>, n: nat, i: nat, minDiff: nat, chosen: nat, k: nat)
    requires i <= |header|
  {
    (i == 0 ==> minDiff == NoPosition) &&
    (i > 0 ==> (
      k < i && chosen == header[k] && minDiff == Dist(n, chosen) &&
      (forall j :: 0 <= j < k ==> Dist(n, header[j]) > minDiff) &&
      (forall j :: 0 <= j < i ==> Dist(n, header[j]) >= minDiff)))
  }

  /** One turn of the exact rounding loop keeps the invariant. */
  lemma NearestStep(header: seq<nat>, n: nat, i: nat, minDiff: nat, chosen: nat, k: nat)
    returns (minDiff': nat, chosen': nat, k': nat)
    requires i < |header| && n < SizeModulus
    requires forall j :: 0 <= j < |header| ==> 0 < header[j] < NoPosition
    requires NearestSoFar(header, n, i, minDiff, chosen, k)
    ensures NearestSoFar(header, n, i + 1, minDiff', chosen', k')
    ensures RoundFrom(Exact, header, n, i, minDiff, chosen) == RoundFrom(Exact, header, n, i + 1, minDiff', chosen')
  {
    var d := Dist(n, header[i]);
    assert Distance(Exact, n, header[i]) == d;
    if d < minDiff {
      minDiff', chosen', k' := d, header[i], i;
      forall j | 0 <= j < i + 1 ensures Dist(n, header[j]) >= d {
        if j < i { assert i > 0 && Dist(n, header[j]) >= minDiff; }
      }
    } else {
      minDiff', chosen', k' := minDiff, chosen, k;
    }
  }

  /** The exact rounding loop from i on ends at the first nearest
      breakpoint. */
  lemma {:induction false} RoundFromNearest(header: seq<nat>, n: nat, i: nat, minDiff: nat, chosen: nat, k: nat) returns (k': nat)
    requires 0 < |header| && i <= |header| && n < SizeModulus
    requires forall j :: 0 <= j < |header| ==> 0 < header[j] < NoPosition
    requires NearestSoFar(header, n, i, minDiff, chosen, k)
    ensures k' < |header| && RoundFrom(Exact, header, n, i, minDiff, chosen) == header[k']
    ensures forall j :: 0 <= j < k' ==> Dist(n, header[j]) > Dist(n, header[k'])
    ensures forall j :: 0 <= j < |header| ==> Dist(n, header[j]) >= Dist(n, header[k'])
    decreases |header| - i
  {
    if i == |header| {
      k' := k;
    } else {
      var m, c, kk := NearestStep(header, n, i, minDiff, chosen, k);
      k' := RoundFromNearest(header, n, i + 1, m, c, kk);
    }
  }

  /** With exact arithmetic getCV rounds to the first breakpoint nearest
      to n. */
  lemma RoundIsNearest(header: seq<nat>, n: nat)
    requires |header| > 0 && n < SizeModulus
    requires forall j :: 0 <= j < |header| ==> 0 < header[j] < NoPosition
    ensures exists k :: (0 <= k < |header| && Round(Exact, header, n) == header[k] &&
      (forall j :: 0 <= j < k ==> Dist(n, header[j]) > Dist(n, header[k])) &&
      (forall j :: 0 <= j < |header| ==> Dist(n, header[j]) >= Dist(n, header[k])))
  {
    var k := RoundFromNearest(header, n, 0, NoPosition, IntMinOf(n, 9000), 0);
  }

  /** On any strictly increasing schedule the exact rounding gives a
      breakpoint no other breakpoint is nearer to, the smaller of two
      equally near ones, and a breakpoint itself. */
  lemma RoundOnSorted(h: seq<nat>, n: nat)
    requires |h| > 0 && n < SizeModulus
    requires forall j :: 0 <= j < |h| ==> 0 < h[j] < NoPosition
    requires forall i, j :: 0 <= i < j < |h| ==> h[i] < h[j]
    ensures Round(Exact, h, n) in h && h[0] <= Round(Exact, h, n) <= h[|h| - 1]
    ensures forall j :: 0 <= j < |h| ==> Dist(n, h[j]) >= Dist(n, Round(Exact, h, n))
    ensures forall j :: 0 <= j < |h| && Dist(n, h[j]) == Dist(n, Round(Exact, h, n)) ==> Round(Exact, h, n) <= h[j]
    ensures n in h ==> Round(Exact, h, n) == n
  {
    var k := RoundFromNearest(h, n, 0, NoPosition, IntMinOf(n, 9000), 0);
    assert h[0] <= h[k] <= h[|h| - 1];
    if n in h {
      var i :| 0 <= i < |h| && h[i] == n;
      assert Dist(n, h[i]) == 0;
    }
  }

  /** On the breakpoint schedule: the rounded count is a breakpoint in
      [10, 9000], no breakpoint is nearer, of two equally near ones the
      smaller wins, and a breakpoint rounds to itself. */
  lemma RoundToSchedule(n: nat)
    requires n < SizeModulus
    ensures Round(Exact, Header(), n) in Header()
    ensures 10 <= Round(Exact, Header(), n) <= 9000
    ensures forall j :: 0 <= j < HeaderSize ==> Dist(n, Header()[j]) >= Dist(n, Round(Exact, Header(), n))
    ensures forall j :: 0 <= j < HeaderSize && Dist(n, Header()[j]) == Dist(n, Round(Exact, Header(), n)) ==>
      Round(Exact, Header(), n) <= Header()[j]
    ensures n in Header() ==> Round(Exact, Header(), n) == n
  {
    HeaderShape();
    RoundOnSorted(Header(), n);
  }

  /** Below 2^31 the int casts lose nothing and the two arithmetics
      agree. */
  lemma {:induction false} RoundFromAgrees(header: seq<nat>, n: nat, i: nat, minDiff: nat, chosen: nat)
    requires i <= |header| && n < -IntMin
    requires forall j :: 0 <= j < |header| ==> header[j] < -IntMin
    ensures RoundFrom(AsWritten, header, n, i, minDiff, chosen) == RoundFrom(Exact, header, n, i, minDiff, chosen)
    decreases |header| - i
  {
    if i < |header| {
      DistanceAgrees(n, header[i]);
      var d := Distance(Exact, n, header[i]);
      RoundFromAgrees(header, n, i + 1, d, header[i]);
      RoundFromAgrees(header, n, i + 1, minDiff, chosen);
    }
  }

  lemma DistanceAgrees(n: nat, h: nat)
    requires n < -IntMin && h < -IntMin
    ensures Distance(AsWritten, n, h) == Distance(Exact, n, h)
  {
    if n < h {
      assert ToSize(n - h) == SizeModulus + n - h;
      assert ToInt(ToSize(n - h)) == n - h;
    }
  }

  lemma RoundAgrees(n: nat)
    requires n < -IntMin
    ensures Round(AsWritten, Header(), n) == Round(Exact, Header(), n)
  {
    HeaderShape();
    RoundFromAgrees(Header(), n, 0, NoPosition, IntMinOf(n, 9000));
  }

  /** The lookup result: the largest double for an empty table, otherwise
      the stored value. */
  datatype CVValue = MaxDouble | Value(v: real)

  /** What a lookup returns: the value, and the clamped number of looks
      and rounded sample count written back through the references. */
  datatype Lookup = Lookup(value: CVValue, enl: nat, nSamples: nat)

  /** A table as load leaves it: empty, or filled with the breakpoint
      header. */
  predicate Loaded(t: CVTable)
  {
    t.table == map[] || t.header == Header()
  }

  /** CVTable::getCV, with the chosen arithmetic. */
  function GetCVWith(mode: Arithmetic, t: CVTable, enl: nat, n: nat): (res: Result<Lookup, CVFault>)
    requires Loaded(t) && enl < SizeModulus && n < SizeModulus
    ensures t.table == map[] ==> res == Ok(Lookup(MaxDouble, enl, n))
    ensures t.table != map[] && res.Ok? ==>
      (res.value.enl, res.value.nSamples) in t.table &&
      res.value.value == Value(t.table[(res.value.enl, res.value.nSamples)])
    ensures t.table != map[] ==>
      (res.Ok? <==> (ClampLooks(mode, enl), Round(mode, t.header, n)) in t.table)
    ensures t.table != map[] && res.Ok? ==>
      res.value.enl == ClampLooks(mode, enl) && res.value.nSamples == Round(mode, t.header, n)
  {
    if t.table == map[] then Ok(Lookup(MaxDouble, enl, n))
    else
      HeaderShape();
      var looks := ClampLooks(mode, enl);
      var rounded := Round(mode, t.header, n);
      if (looks, rounded) in t.table then Ok(Lookup(Value(t.table[(looks, rounded)]), looks, rounded))
      else Fault(KeyMissing(looks, rounded))
  }

  /** getCV with CVTable.cpp's int casts. */
  function GetCVAsWritten(t: CVTable, enl: nat, n: nat): Result<Lookup, CVFault>
    requires Loaded(t) && enl < SizeModulus && n < SizeModulus
  {
    GetCVWith(AsWritten, t, enl, n)
  }

  /** getCV as intended: looks clamped to 250, samples rounded to the
      nearest breakpoint. */
  function GetCV(t: CVTable, enl: nat, n: nat): Result<Lookup, CVFault>
    requires Loaded(t) && enl < SizeModulus && n < SizeModulus
  {
    GetCVWith(Exact, t, enl, n)
  }

  /** A lookup on a filled table writes back a number of looks of at most
      250 and a breakpoint in [10, 9000] nearest to the sample count, and
      a second lookup with the written-back arguments answers the same. */
  lemma GetCVMeaning(t: CVTable, enl: nat, n: nat)
    requires Loaded(t) && t.table != map[] && enl < SizeModulus && n < SizeModulus
    requires GetCV(t, enl, n).Ok?
    ensures var l := GetCV(t, enl, n).value;
      l.enl <= 250 && (enl <= 250 ==> l.enl == enl) &&
      10 <= l.nSamples <= 9000 &&
      (forall j :: 0 <= j < HeaderSize ==> Dist(n, Header()[j]) >= Dist(n, l.nSamples)) &&
      GetCV(t, l.enl, l.nSamples) == GetCV(t, enl, n)
  {
    var l := GetCV(t, enl, n).value;
    RoundToSchedule(n);
    RoundToSchedule(l.nSamples);
  }

  /** Below 2^31 looks and samples, the lookup as written is the intended
      one. */
  lemma GetCVAgrees(t: CVTable, enl: nat, n: nat)
    requires Loaded(t) && enl < -IntMin && n < -IntMin
    ensures GetCVAsWritten(t, enl, n) == GetCV(t, enl, n)
  {
    if t.table != map[] {
      RoundAgrees(n);
      ClampLooksAgrees(enl);
    }
  }

  lemma ClampLooksAgrees(enl: nat)
    requires enl < -IntMin
    ensures ClampLooks(AsWritten, enl) == ClampLooks(Exact, enl)
  {
    assert ToInt(enl) == enl;
  }

  /** The int cast in the clamp turns 2^32 + 5 looks into 5 instead of
      250. */
  lemma ClampLooksWraps()
    ensures ClampLooks(AsWritten, IntModulus + 5) == 5
    ensures ClampLooks(Exact, IntModulus + 5) == 250
  {
  }

  /** The int cast in the distance makes 2^32 + 10 samples look as close
      as can be to the breakpoint 10, so they round to 10 instead of
      9000. */
  lemma RoundWraps()
    ensures Round(AsWritten, Header(), IntModulus + 10) == 10
    ensures Round(Exact, Header(), IntModulus + 10) == 9000
  {
    var h, n := Header(), IntModulus + 10;
    HeaderShape();
    assert Distance(AsWritten, n, h[0]) == 0;
    RoundFromZero(h, n, 1, h[0]);
    RoundToSchedule(n);
    var r := Round(Exact, h, n);
    assert Dist(n, h[HeaderSize - 1]) >= Dist(n, r);
  }

  /** Once a breakpoint at distance zero is chosen, no later one is
      strictly closer. */
  lemma {:induction false} RoundFromZero(header: seq<nat>, n: nat, i: nat, chosen: nat)
    requires i <= |header| && n < SizeModulus
    requires forall j :: 0 <= j < |header| ==> header[j] < SizeModulus
    ensures RoundFrom(AsWritten, header, n, i, 0, chosen) == chosen
    decreases |header| - i
  {
    if i < |header| {
      RoundFromZero(header, n, i + 1, chosen);
    }
  }
}
