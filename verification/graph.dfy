/** The region table of the segmentation engine as an adjacency graph:
    each live region is keyed by its id and lists its neighbours by id.
    This module holds the two rewiring operations of the engine, the one
    after a merge (updateNeighborhoodAfterMerge followed by the erase of
    the absorbed region) and removeRegion. */
module Adjacency {
  import opened Regions

  type Table = map<nat, Region>

  /** y is listed among the neighbours of the live region x. */
  predicate Adjacent(t: Table, x: nat, y: nat)
  {
    x in t && y in t[x].neighbours
  }

  /** Every entry carries its own key and lists each neighbour once. */
  predicate Keyed(t: Table)
  {
    forall x :: x in t ==> t[x].id == x && NoDuplicates(t[x].neighbours)
  }

  ghost predicate Symmetric(t: Table)
  {
    forall x, y :: Adjacent(t, x, y) ==> Adjacent(t, y, x)
  }

  ghost predicate Irreflexive(t: Table)
  {
    forall x :: !Adjacent(t, x, x)
  }

  /** The consistency the engine keeps: adjacency is symmetric (so every
      listed neighbour is live) and no region is its own neighbour. */
  ghost predicate Linked(t: Table)
  {
    Keyed(t) && Symmetric(t) && Irreflexive(t)
  }

  /** Only neighbour lists differ between the two tables. */
  predicate SameRegions(t: Table, t': Table)
  {
    t'.Keys <= t.Keys && forall x :: x in t' ==> t'[x] == t[x].(neighbours := t'[x].neighbours)
  }

  // ---------------------------------------------------------------------
  // Rewiring after a merge
  // ---------------------------------------------------------------------

  /** Repeated Region::addNeighbour, in list order. */
  function AddAll(r: Region, ns: seq<nat>): (r': Region)
    ensures r' == r.(neighbours := r'.neighbours)
    ensures forall m :: IsNeighbour(r', m) <==> IsNeighbour(r, m) || m in ns
    ensures NoDuplicates(r.neighbours) ==> NoDuplicates(r'.neighbours)
    decreases |ns|
  {
    if ns == [] then r
    else
      var r' := AddAll(AddNeighbour(r, ns[0]), ns[1..]);
      assert forall m :: m in ns <==> m == ns[0] || m in ns[1..];
      r'
  }

  /** MultiSeg::updateNeighborhoodAfterMerge(a, b) followed by the erase
      of b: a takes over b's neighbours, each of them swaps b for a, and b
      is gone. */
  function Contract(t: Table, a: nat, b: nat): (t': Table)
    requires a in t && b in t && a != b
    ensures t'.Keys == t.Keys - {b}
    ensures SameRegions(t, t')
  {
    var nb := t[b].neighbours;
    map x | x in t && x != b ::
      if x == a then RemoveNeighbour(AddAll(t[a], Without(nb, a)), b)
      else if x in nb then RemoveNeighbour(AddNeighbour(t[x], a), b)
      else t[x]
  }

  /** After the contraction the table is still consistent, nothing lists
      b, and adjacency is the old one with b folded into a. */
  lemma ContractLinked(t: Table, a: nat, b: nat)
    requires a in t && b in t && a != b
    requires Linked(t)
    ensures Linked(Contract(t, a, b))
    ensures forall x :: x in Contract(t, a, b) ==> !IsNeighbour(Contract(t, a, b)[x], b)
    ensures forall x, y :: x != b && y != b ==>
      (Adjacent(Contract(t, a, b), x, y) <==>
        x != y && (Adjacent(t, x, y) || (x == a && Adjacent(t, b, y)) || (y == a && Adjacent(t, x, b))))
  {
    var t' := Contract(t, a, b);
    var nb := t[b].neighbours;
    forall x, y | x != b && y != b
      ensures Adjacent(t', x, y) <==>
        x != y && (Adjacent(t, x, y) || (x == a && Adjacent(t, b, y)) || (y == a && Adjacent(t, x, b)))
    {
      if x == a {
        var ra := AddAll(t[a], Without(nb, a));
        assert t'[a] == RemoveNeighbour(ra, b);
        assert IsNeighbour(ra, y) <==> y in t[a].neighbours || y in Without(nb, a);
        assert y != b ==> (IsNeighbour(t'[a], y) <==> IsNeighbour(ra, y));
        assert !Adjacent(t, a, a);
        assert y in Without(nb, a) <==> Adjacent(t, b, y) && y != a;
        assert Adjacent(t', x, y) <==> (y in t[a].neighbours || y in Without(nb, a)) && y != b;
      } else if x in t && x in nb {
        assert Adjacent(t, b, x) && Adjacent(t, x, b) && !Adjacent(t, x, x);
        assert t'[x] == RemoveNeighbour(AddNeighbour(t[x], a), b);
        assert Adjacent(t', x, y) <==> (y in t[x].neighbours || y == a) && y != b;
      } else if x in t {
        assert !Adjacent(t, b, x) && !Adjacent(t, x, x);
        assert !Adjacent(t, x, b);
        assert t'[x] == t[x];
      }
    }
    forall x | x in t' ensures t'[x].id == x && NoDuplicates(t'[x].neighbours) {
      WithoutKeepsNoDuplicatesAll(nb, a);
    }
    forall x | x in t' ensures !IsNeighbour(t'[x], b) {
      if x != a && x !in nb {
        assert !Adjacent(t, b, x);
      }
    }
    forall x, y | Adjacent(t', x, y) ensures Adjacent(t', y, x) && x != y {
      assert x != b && y != b;
      assert Adjacent(t, x, y) ==> Adjacent(t, y, x);
      assert Adjacent(t, b, y) ==> Adjacent(t, y, b);
      assert Adjacent(t, x, b) ==> Adjacent(t, b, x);
    }
  }

  // ---------------------------------------------------------------------
  // Removing a region
  // ---------------------------------------------------------------------

  /** n.addNeighbour(m) and m.addNeighbour(n). */
  function LinkPair(t: Table, n: nat, m: nat): (t': Table)
    requires n in t && m in t
    ensures t'.Keys == t.Keys
  {
    var t1 := t[n := AddNeighbour(t[n], m)];
    t1[m := AddNeighbour(t1[m], n)]
  }

  lemma LinkPairFacts(t: Table, n: nat, m: nat)
    requires n in t && m in t && n != m
    ensures SameRegions(t, LinkPair(t, n, m))
    ensures forall y :: y in t && y != n && y != m ==> LinkPair(t, n, m)[y] == t[y]
    ensures Keyed(t) ==> Keyed(LinkPair(t, n, m))
    ensures forall y, z :: Adjacent(LinkPair(t, n, m), y, z) <==> Adjacent(t, y, z) || (y == n && z == m) || (y == m && z == n)
  {
    var t' := LinkPair(t, n, m);
    assert t'[n] == AddNeighbour(t[n], m) && t'[m] == AddNeighbour(t[m], n);
  }

  /** The inner loop of removeRegion: n is linked, both ways, to every
      other id of ns from position j on. */
  function LinkAll(t: Table, n: nat, ns: seq<nat>, j: nat): (t': Table)
    requires n in t && j <= |ns| && forall k :: 0 <= k < |ns| ==> ns[k] in t
    ensures t'.Keys == t.Keys
    decreases |ns| - j
  {
    if j == |ns| then t
    else if n == ns[j] then LinkAll(t, n, ns, j + 1)
    else LinkAll(LinkPair(t, n, ns[j]), n, ns, j + 1)
  }

  lemma {:induction false} LinkAllFacts(t: Table, n: nat, ns: seq<nat>, j: nat)
    requires n in t && j <= |ns| && forall k :: 0 <= k < |ns| ==> ns[k] in t
    ensures SameRegions(t, LinkAll(t, n, ns, j))
    ensures forall y :: y in t && y != n && y !in ns[j..] ==> LinkAll(t, n, ns, j)[y] == t[y]
    ensures Keyed(t) ==> Keyed(LinkAll(t, n, ns, j))
    ensures forall y, z :: Adjacent(LinkAll(t, n, ns, j), y, z) <==>
      Adjacent(t, y, z) || (y == n && z in ns[j..] && z != n) || (z == n && y in ns[j..] && y != n)
    decreases |ns| - j
  {
    if j < |ns| {
      assert forall m :: m in ns[j..] <==> m == ns[j] || m in ns[j + 1..];
      if n == ns[j] {
        LinkAllFacts(t, n, ns, j + 1);
      } else {
        LinkPairFacts(t, n, ns[j]);
        LinkAllFacts(LinkPair(t, n, ns[j]), n, ns, j + 1);
      }
    }
  }

  /** n.removeNeighbour(x). */
  function Drop(t: Table, n: nat, x: nat): (t': Table)
    requires n in t
    ensures t'.Keys == t.Keys
    ensures SameRegions(t, t') && forall y :: y in t && y != n ==> t'[y] == t[y]
    ensures forall y, z :: Adjacent(t', y, z) <==> Adjacent(t, y, z) && !(y == n && z == x)
    ensures Keyed(t) ==> Keyed(t')
  {
    t[n := RemoveNeighbour(t[n], x)]
  }

  /** One pass of the outer loop of removeRegion(x, link): the neighbour n
      drops x and, when link is set or its list has become empty, is
      linked to every other neighbour of x. */
  function UnlinkStep(t: Table, x: nat, ns: seq<nat>, n: nat, link: bool): (t': Table)
    requires n in t && forall k :: 0 <= k < |ns| ==> ns[k] in t
    ensures t'.Keys == t.Keys
  {
    var t1 := Drop(t, n, x);
    if link || |t1[n].neighbours| == 0 then LinkAll(t1, n, ns, 0) else t1
  }

  /** The outer loop of removeRegion(x, link) from the i-th neighbour of
      x on. */
  function Unlink(t: Table, x: nat, ns: seq<nat>, i: nat, link: bool): (t': Table)
    requires i <= |ns| && forall k :: 0 <= k < |ns| ==> ns[k] in t
    ensures t'.Keys == t.Keys
    decreases |ns| - i
  {
    if i == |ns| then t
    else Unlink(UnlinkStep(t, x, ns, ns[i], link), x, ns, i + 1, link)
  }

  lemma UnlinkStepFacts(t: Table, x: nat, ns: seq<nat>, n: nat, link: bool)
    requires n in t && forall k :: 0 <= k < |ns| ==> ns[k] in t
    requires x !in ns && n in ns
    ensures SameRegions(t, UnlinkStep(t, x, ns, n, link))
    ensures forall y :: y in t && y !in ns ==> UnlinkStep(t, x, ns, n, link)[y] == t[y]
    ensures Keyed(t) ==> Keyed(UnlinkStep(t, x, ns, n, link))
    ensures !Adjacent(UnlinkStep(t, x, ns, n, link), n, x)
    ensures forall y, z :: Adjacent(UnlinkStep(t, x, ns, n, link), y, z) <==>
      (Adjacent(t, y, z) && !(y == n && z == x)) ||
      ((link || |Drop(t, n, x)[n].neighbours| == 0) && ((y == n && z in ns && z != n) || (z == n && y in ns && y != n)))
  {
    LinkAllFacts(Drop(t, n, x), n, ns, 0);
    assert ns[0..] == ns;
  }

  lemma {:induction false} UnlinkShape(t: Table, x: nat, ns: seq<nat>, i: nat, link: bool)
    requires i <= |ns| && forall k :: 0 <= k < |ns| ==> ns[k] in t
    requires x !in ns
    ensures SameRegions(t, Unlink(t, x, ns, i, link))
    ensures forall y :: y in t && y !in ns ==> Unlink(t, x, ns, i, link)[y] == t[y]
    ensures Keyed(t) ==> Keyed(Unlink(t, x, ns, i, link))
    decreases |ns| - i
  {
    if i < |ns| {
      UnlinkStepFacts(t, x, ns, ns[i], link);
      UnlinkShape(UnlinkStep(t, x, ns, ns[i], link), x, ns, i + 1, link);
    }
  }

  /** Every link not pointing at x survives. */
  lemma {:induction false} UnlinkKeeps(t: Table, x: nat, ns: seq<nat>, i: nat, link: bool)
    requires i <= |ns| && forall k :: 0 <= k < |ns| ==> ns[k] in t
    requires x !in ns
    ensures forall y, z :: z != x && Adjacent(t, y, z) ==> Adjacent(Unlink(t, x, ns, i, link), y, z)
    decreases |ns| - i
  {
    if i < |ns| {
      var t2 := UnlinkStep(t, x, ns, ns[i], link);
      UnlinkStepFacts(t, x, ns, ns[i], link);
      UnlinkKeeps(t2, x, ns, i + 1, link);
    }
  }

  /** No step creates a link towards x. */
  lemma {:induction false} UnlinkAvoids(t: Table, x: nat, ns: seq<nat>, i: nat, link: bool, y: nat)
    requires i <= |ns| && forall k :: 0 <= k < |ns| ==> ns[k] in t
    requires x !in ns && !Adjacent(t, y, x)
    ensures !Adjacent(Unlink(t, x, ns, i, link), y, x)
    decreases |ns| - i
  {
    if i < |ns| {
      var t2 := UnlinkStep(t, x, ns, ns[i], link);
      UnlinkStepFacts(t, x, ns, ns[i], link);
      assert !Adjacent(t2, y, x);
      UnlinkAvoids(t2, x, ns, i + 1, link, y);
    }
  }

  /** The neighbours from position i on no longer list x. */
  lemma {:induction false} UnlinkClears(t: Table, x: nat, ns: seq<nat>, i: nat, link: bool, k: nat)
    requires i <= k < |ns| && forall k :: 0 <= k < |ns| ==> ns[k] in t
    requires x !in ns
    ensures !Adjacent(Unlink(t, x, ns, i, link), ns[k], x)
    decreases |ns| - i
  {
    var t2 := UnlinkStep(t, x, ns, ns[i], link);
    if k == i {
      StepClears(t, x, ns, ns[i], link);
      UnlinkAvoids(t2, x, ns, i + 1, link, ns[i]);
    } else {
      UnlinkClears(t2, x, ns, i + 1, link, k);
    }
  }

  lemma StepClears(t: Table, x: nat, ns: seq<nat>, n: nat, link: bool)
    requires n in t && forall k :: 0 <= k < |ns| ==> ns[k] in t
    requires x !in ns && n in ns
    ensures !Adjacent(UnlinkStep(t, x, ns, n, link), n, x)
  {
    UnlinkStepFacts(t, x, ns, n, link);
  }

  /** Every new link joins two distinct ids of ns and comes with its
      reverse. */
  lemma {:induction false} UnlinkAdds(t: Table, x: nat, ns: seq<nat>, i: nat, link: bool)
    requires i <= |ns| && forall k :: 0 <= k < |ns| ==> ns[k] in t
    requires x !in ns
    ensures forall y, z :: Adjacent(Unlink(t, x, ns, i, link), y, z) ==> Adjacent(t, y, z) || (y in ns && z in ns && y != z)
    ensures forall y, z :: Adjacent(Unlink(t, x, ns, i, link), y, z) && !Adjacent(t, y, z) ==> Adjacent(Unlink(t, x, ns, i, link), z, y)
    decreases |ns| - i
  {
    if i < |ns| {
      var t2 := UnlinkStep(t, x, ns, ns[i], link);
      var u := Unlink(t, x, ns, i, link);
      UnlinkStepFacts(t, x, ns, ns[i], link);
      UnlinkAdds(t2, x, ns, i + 1, link);
      UnlinkKeeps(t2, x, ns, i + 1, link);
      forall y, z | Adjacent(u, y, z) && !Adjacent(t, y, z) ensures Adjacent(u, z, y) {
        if Adjacent(t2, y, z) {
          assert Adjacent(t2, z, y);
          assert y != x;
        }
      }
    }
  }

  /** With link set, every neighbour from position i on ends up linked to
      every other id of ns. */
  lemma {:induction false} UnlinkLinks(t: Table, x: nat, ns: seq<nat>, i: nat)
    requires i <= |ns| && forall k :: 0 <= k < |ns| ==> ns[k] in t
    requires x !in ns
    ensures forall k, m :: i <= k < |ns| && 0 <= m < |ns| && ns[k] != ns[m] ==>
      Adjacent(Unlink(t, x, ns, i, true), ns[k], ns[m])
    decreases |ns| - i
  {
    if i < |ns| {
      var t2 := UnlinkStep(t, x, ns, ns[i], true);
      var u := Unlink(t, x, ns, i, true);
      UnlinkStepFacts(t, x, ns, ns[i], true);
      UnlinkLinks(t2, x, ns, i + 1);
      UnlinkKeeps(t2, x, ns, i + 1, true);
      forall k, m | i <= k < |ns| && 0 <= m < |ns| && ns[k] != ns[m] ensures Adjacent(u, ns[k], ns[m]) {
        if k == i {
          assert ns[m] in ns;
          assert Adjacent(t2, ns[i], ns[m]);
          assert ns[m] != x;
        }
      }
    }
  }

  /** The neighbour list of a live region holds only live ids and not
      the region itself. */
  lemma NeighboursLive(t: Table, x: nat)
    requires x in t && Linked(t)
    ensures forall k :: 0 <= k < |t[x].neighbours| ==> t[x].neighbours[k] in t
    ensures x !in t[x].neighbours
  {
    var ns := t[x].neighbours;
    assert forall k :: 0 <= k < |ns| ==> Adjacent(t, x, ns[k]);
    assert !Adjacent(t, x, x);
  }

  /** The table after the outer loop of removeRegion, x still present. */
  function Unlinked(t: Table, x: nat, link: bool): (u: Table)
    requires x in t && Linked(t)
    ensures u.Keys == t.Keys
  {
    NeighboursLive(t, x);
    Unlink(t, x, t[x].neighbours, 0, link)
  }

  /** MultiSeg::removeRegion(x, link). */
  function RemoveRegion(t: Table, x: nat, link: bool): (t': Table)
    requires x in t && Linked(t)
    ensures t'.Keys == t.Keys - {x}
  {
    var u := Unlinked(t, x, link);
    map y | y in u && y != x :: u[y]
  }

  /** Dropping the entry of x from the unlinked table. */
  lemma RemoveRegionAdjacency(t: Table, x: nat, link: bool)
    requires x in t && Linked(t)
    ensures forall y :: y in RemoveRegion(t, x, link) ==> RemoveRegion(t, x, link)[y] == Unlinked(t, x, link)[y]
    ensures forall y, z :: Adjacent(RemoveRegion(t, x, link), y, z) <==> y != x && Adjacent(Unlinked(t, x, link), y, z)
  {
  }

  /** Only neighbour lists change, and only those of former neighbours. */
  lemma RemoveRegionShape(t: Table, x: nat, link: bool)
    requires x in t && Linked(t)
    ensures SameRegions(t, RemoveRegion(t, x, link))
    ensures Keyed(RemoveRegion(t, x, link))
    ensures forall y :: y in t && y != x && y !in t[x].neighbours ==> RemoveRegion(t, x, link)[y] == t[y]
  {
    NeighboursLive(t, x);
    UnlinkShape(t, x, t[x].neighbours, 0, link);
    RemoveRegionAdjacency(t, x, link);
  }

  /** No remaining region lists x. */
  lemma RemoveRegionClears(t: Table, x: nat, link: bool)
    requires x in t && Linked(t)
    ensures forall y :: y in RemoveRegion(t, x, link) ==> !Adjacent(RemoveRegion(t, x, link), y, x)
  {
    var ns := t[x].neighbours;
    NeighboursLive(t, x);
    var u := Unlinked(t, x, link);
    RemoveRegionAdjacency(t, x, link);
    forall y | y in u && y != x ensures !Adjacent(u, y, x) {
      if y in ns {
        var k :| 0 <= k < |ns| && ns[k] == y;
        UnlinkClears(t, x, ns, 0, link, k);
      } else {
        assert !Adjacent(t, x, y);
        assert !Adjacent(t, y, x);
        UnlinkAvoids(t, x, ns, 0, link, y);
      }
    }
  }

  /** Every adjacency between two other regions survives. */
  lemma RemoveRegionKeeps(t: Table, x: nat, link: bool)
    requires x in t && Linked(t)
    ensures forall y, z :: y != x && z != x && Adjacent(t, y, z) ==> Adjacent(RemoveRegion(t, x, link), y, z)
  {
    NeighboursLive(t, x);
    UnlinkKeeps(t, x, t[x].neighbours, 0, link);
    RemoveRegionAdjacency(t, x, link);
  }

  /** New links join two distinct former neighbours of x, in both
      directions. */
  lemma RemoveRegionAdds(t: Table, x: nat, link: bool)
    requires x in t && Linked(t)
    ensures forall y, z :: Adjacent(RemoveRegion(t, x, link), y, z) && !Adjacent(t, y, z) ==>
      y in t[x].neighbours && z in t[x].neighbours && y != z && Adjacent(RemoveRegion(t, x, link), z, y)
  {
    var ns := t[x].neighbours;
    NeighboursLive(t, x);
    var u := Unlinked(t, x, link);
    UnlinkAdds(t, x, ns, 0, link);
    RemoveRegionAdjacency(t, x, link);
    forall y, z | Adjacent(u, y, z) && !Adjacent(t, y, z) && y != x ensures z != x {
      assert y in ns && z in ns;
    }
  }

  /** With link set, every two former neighbours of x end up adjacent. */
  lemma RemoveRegionLinks(t: Table, x: nat)
    requires x in t && Linked(t)
    ensures forall y, z :: y in t[x].neighbours && z in t[x].neighbours && y != z ==>
      Adjacent(RemoveRegion(t, x, true), y, z)
  {
    var ns := t[x].neighbours;
    NeighboursLive(t, x);
    var u := Unlinked(t, x, true);
    UnlinkLinks(t, x, ns, 0);
    RemoveRegionAdjacency(t, x, true);
    forall y, z | y in ns && z in ns && y != z ensures Adjacent(u, y, z) && y != x {
      var k :| 0 <= k < |ns| && ns[k] == y;
      var m :| 0 <= m < |ns| && ns[m] == z;
      assert Adjacent(u, ns[k], ns[m]);
    }
  }

  /** y lists some region other than x. */
  ghost predicate HasOther(t: Table, x: nat, y: nat)
  {
    exists z :: z != x && Adjacent(t, y, z)
  }

  /** The step of the outer loop for neighbour n leaves n a neighbour
      other than x: the one it had, or, when its list empties, the others
      it is linked to. */
  lemma UnlinkStepFills(t: Table, x: nat, ns: seq<nat>, n: nat, link: bool)
    requires n in t && forall k :: 0 <= k < |ns| ==> ns[k] in t
    requires x !in ns && n in ns && NoDuplicates(ns) && |ns| >= 2
    ensures HasOther(UnlinkStep(t, x, ns, n, link), x, n)
  {
    var t2 := UnlinkStep(t, x, ns, n, link);
    UnlinkStepFacts(t, x, ns, n, link);
    if link || |Drop(t, n, x)[n].neighbours| == 0 {
      var z := if ns[0] != n then ns[0] else ns[1];
      assert z in ns && z != n && z != x;
      assert Adjacent(t2, n, z);
    } else {
      var z := Drop(t, n, x)[n].neighbours[0];
      assert Adjacent(Drop(t, n, x), n, z);
      assert Adjacent(t2, n, z);
    }
  }

  /** After the outer loop from i on, the k-th neighbour of x, not yet
      visited, has a neighbour other than x when x had two or more: its
      own step leaves it one, and later steps keep every link not
      pointing at x. */
  lemma {:induction false} UnlinkFills(t: Table, x: nat, ns: seq<nat>, i: nat, link: bool, k: nat)
    requires i <= k < |ns| && forall j :: 0 <= j < |ns| ==> ns[j] in t
    requires x !in ns && NoDuplicates(ns) && |ns| >= 2
    ensures HasOther(Unlink(t, x, ns, i, link), x, ns[k])
    decreases |ns| - i
  {
    var t2 := UnlinkStep(t, x, ns, ns[i], link);
    if k == i {
      UnlinkStepFills(t, x, ns, ns[i], link);
      UnlinkKeepsOther(t2, x, ns, i + 1, link, ns[i]);
    } else {
      UnlinkFills(t2, x, ns, i + 1, link, k);
    }
  }

  /** A region with a neighbour other than x keeps one through the rest
      of the outer loop. */
  lemma UnlinkKeepsOther(t: Table, x: nat, ns: seq<nat>, i: nat, link: bool, y: nat)
    requires i <= |ns| && forall j :: 0 <= j < |ns| ==> ns[j] in t
    requires x !in ns && HasOther(t, x, y)
    ensures HasOther(Unlink(t, x, ns, i, link), x, y)
  {
    var z :| z != x && Adjacent(t, y, z);
    UnlinkKeeps(t, x, ns, i, link);
    assert Adjacent(Unlink(t, x, ns, i, link), y, z);
  }

  /** With two or more neighbours, removing x leaves none of them without
      a neighbour, whether link is set or not. */
  lemma RemoveRegionFills(t: Table, x: nat, link: bool)
    requires x in t && Linked(t)
    ensures |t[x].neighbours| >= 2 ==> forall y :: y in t[x].neighbours ==>
      y in RemoveRegion(t, x, link) && RemoveRegion(t, x, link)[y].neighbours != []
  {
    var ns := t[x].neighbours;
    NeighboursLive(t, x);
    RemoveRegionAdjacency(t, x, link);
    if |ns| >= 2 {
      var u := Unlinked(t, x, link);
      forall y | y in ns
        ensures y in RemoveRegion(t, x, link) && RemoveRegion(t, x, link)[y].neighbours != []
      {
        var k :| 0 <= k < |ns| && ns[k] == y;
        UnlinkFills(t, x, ns, 0, link, k);
        var z :| z != x && Adjacent(u, ns[k], z);
        assert Adjacent(RemoveRegion(t, x, link), y, z);
      }
    }
  }

  /** Removing a region keeps the table consistent; nothing lists the
      removed region afterwards; every other adjacency survives; new links
      join only former neighbours of the removed region, and with link set
      every two of them end up adjacent. Without link, a neighbour whose
      list empties is still linked to the others, so none of two or more
      neighbours is left without one. Regions that were not its
      neighbours keep their entry unchanged. */
  lemma RemoveRegionLinked(t: Table, x: nat, link: bool)
    requires x in t && Linked(t)
    ensures SameRegions(t, RemoveRegion(t, x, link))
    ensures Linked(RemoveRegion(t, x, link))
    ensures forall y :: y in RemoveRegion(t, x, link) ==> !IsNeighbour(RemoveRegion(t, x, link)[y], x)
    ensures forall y, z :: y != x && z != x && Adjacent(t, y, z) ==> Adjacent(RemoveRegion(t, x, link), y, z)
    ensures forall y, z :: Adjacent(RemoveRegion(t, x, link), y, z) && !Adjacent(t, y, z) ==>
      y in t[x].neighbours && z in t[x].neighbours
    ensures link ==> forall y, z :: y in t[x].neighbours && z in t[x].neighbours && y != z ==>
      Adjacent(RemoveRegion(t, x, link), y, z)
    ensures forall y :: y in t && y != x && y !in t[x].neighbours ==> RemoveRegion(t, x, link)[y] == t[y]
    ensures |t[x].neighbours| >= 2 ==> forall y :: y in t[x].neighbours ==>
      y in RemoveRegion(t, x, link) && RemoveRegion(t, x, link)[y].neighbours != []
  {
    var t' := RemoveRegion(t, x, link);
    RemoveRegionFills(t, x, link);
    RemoveRegionShape(t, x, link);
    RemoveRegionClears(t, x, link);
    RemoveRegionKeeps(t, x, link);
    RemoveRegionAdds(t, x, link);
    if link { RemoveRegionLinks(t, x); }
    forall y, z | Adjacent(t', y, z) ensures Adjacent(t', z, y) {
      if !Adjacent(t, y, z) {
      } else {
        assert Adjacent(t, z, y);
        assert y != x && z != x;
      }
    }
    forall y | y in t' ensures !Adjacent(t', y, y) {
      assert !Adjacent(t, y, y);
    }
  }
}
