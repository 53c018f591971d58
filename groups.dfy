/**
 * Groups of stones: the maximal sets of one player's stones joined through hexagonal neighbours, listed in the order
 * a row-major scan of the board first meets them.
 */
module Groups {
  import opened Hex
  import opened Graphs
  import opened HexGraph

  function Union(cs: seq<set<Cell>>): set<Cell>
  {
    if cs == [] then {} else Union(cs[..|cs| - 1]) + cs[|cs| - 1]
  }

  lemma {:induction false} UnionIn(cs: seq<set<Cell>>, x: Cell)
    ensures x in Union(cs) <==> exists k | 0 <= k < |cs| :: x in cs[k]
  {
    if cs != [] {
      var init := cs[..|cs| - 1];
      UnionIn(init, x);
      if exists k | 0 <= k < |init| :: x in init[k] {
        var k :| 0 <= k < |init| && x in init[k];
        assert x in cs[k];
      }
      if exists k | 0 <= k < |cs| :: x in cs[k] {
        var k :| 0 <= k < |cs| && x in cs[k];
        if k < |init| {
          assert x in init[k];
        }
      }
    }
  }

  /** The stones of p reachable from c by stepping onto p's stones: c's group when c holds p. */
  function Group(g: Grid, p: int, c: Cell): set<Cell>
    requires Square(g)
  {
    Closure(GridGraph(g, Own(p)), {c})
  }

  /** K is a group of p: a non-empty set of p's stones that is the group of each of its members. */
  ghost predicate IsGroup(g: Grid, p: int, K: set<Cell>)
    requires Square(g)
  {
    && K != {}
    && forall x | x in K :: InBounds(|g|, x) && At(g, x) == p && Group(g, p, x) == K
  }

  /** The group of a stone is a group, and holds that stone. */
  lemma GroupIsGroup(g: Grid, p: int, c: Cell)
    requires Square(g) && InBounds(|g|, c) && At(g, c) == p
    ensures c in Group(g, p, c) && IsGroup(g, p, Group(g, p, c))
  {
    var G, K := GridGraph(g, Own(p)), Group(g, p, c);
    ClosureClosed(G, {c});
    assert InGrid(|g|, {c});
    forall x | x in K ensures InBounds(|g|, x) && At(g, x) == p {
      GridClosure(g, Own(p), {c}, x);
    }
    OwnReversible(g, p, K);
    forall x | x in K ensures Group(g, p, x) == K {
      ClosureTransitive(G, c, x);
      ClosureSymmetric(G, c, x);
      ClosureTransitive(G, x, c);
    }
  }

  /** A group that shares a cell with the group of a stone c is c's group, so it holds c. */
  lemma GroupsMeet(g: Grid, p: int, K: set<Cell>, c: Cell)
    requires Square(g) && IsGroup(g, p, K) && InBounds(|g|, c) && At(g, c) == p
    requires K * Group(g, p, c) != {}
    ensures c in K
  {
    var y :| y in K * Group(g, p, c);
    GroupIsGroup(g, p, c);
  }

  /** No two sets of the list share a cell. */
  predicate Disjoint(cs: seq<set<Cell>>)
  {
    forall k, l | 0 <= k < l < |cs| :: cs[k] * cs[l] == {}
  }

  ghost predicate AllGroups(g: Grid, p: int, cs: seq<set<Cell>>)
    requires Square(g)
  {
    forall k | 0 <= k < |cs| :: IsGroup(g, p, cs[k])
  }

  /** cs lists distinct groups of p, pairwise disjoint. */
  ghost predicate Partitioned(g: Grid, p: int, cs: seq<set<Cell>>)
    requires Square(g)
  {
    AllGroups(g, p, cs) && Disjoint(cs)
  }

  /** Every cell of a list of groups holds p. */
  lemma PartitionedOwned(g: Grid, p: int, cs: seq<set<Cell>>, x: Cell)
    requires Square(g) && Partitioned(g, p, cs) && x in Union(cs)
    ensures InBounds(|g|, x) && At(g, x) == p
  {
    UnionIn(cs, x);
  }

  /** A stone outside every listed group shares no cell with them. */
  lemma OutsideDisjoint(g: Grid, p: int, cs: seq<set<Cell>>, c: Cell)
    requires Square(g) && Partitioned(g, p, cs) && InBounds(|g|, c) && At(g, c) == p && c !in Union(cs)
    ensures Union(cs) * Group(g, p, c) == {}
  {
    forall y | y in Union(cs) * Group(g, p, c) ensures false {
      UnionIn(cs, y);
      var k :| 0 <= k < |cs| && y in cs[k];
      GroupsMeet(g, p, cs[k], c);
      UnionIn(cs, c);
    }
  }

  // The scan

  /** One step of the scan: a stone of p that no listed group holds starts a new group. */
  function ScanCell(g: Grid, p: int, c: Cell, acc: seq<set<Cell>>): seq<set<Cell>>
    requires Square(g) && InBounds(|g|, c)
  {
    if At(g, c) == p && c !in Union(acc) then acc + [Group(g, p, c)] else acc
  }

  /** The scan continued from acc over cells (i, 0) .. (i, j - 1). */
  function ScanRow(g: Grid, p: int, i: int, j: nat, acc: seq<set<Cell>>): seq<set<Cell>>
    requires Square(g) && 0 <= i < |g| && j <= |g|
  {
    if j == 0 then acc else ScanCell(g, p, (i, j - 1), ScanRow(g, p, i, j - 1, acc))
  }

  /** The groups met by the scan of rows 0 .. i - 1. */
  function ScanRows(g: Grid, p: int, i: nat): seq<set<Cell>>
    requires Square(g) && i <= |g|
  {
    if i == 0 then [] else ScanRow(g, p, i - 1, |g|, ScanRows(g, p, i - 1))
  }

  /** The groups of p's stones in the order a row-major scan first meets them. */
  function Components(g: Grid, p: int): seq<set<Cell>>
    requires Square(g)
  {
    ScanRows(g, p, |g|)
  }

  /** Adding a set disjoint from the listed ones keeps the list disjoint. */
  lemma DisjointAppend(acc: seq<set<Cell>>, K: set<Cell>)
    requires Disjoint(acc) && Union(acc) * K == {}
    ensures Disjoint(acc + [K])
  {
    var cs := acc + [K];
    forall k, l | 0 <= k < l < |cs| ensures cs[k] * cs[l] == {} {
      if l == |acc| {
        forall y | y in acc[k] ensures y in Union(acc) {
          UnionIn(acc, y);
        }
      } else {
        assert cs[k] == acc[k] && cs[l] == acc[l];
      }
    }
  }

  /** Adding a group disjoint from the listed ones keeps the list a partition. */
  lemma PartitionedAppend(g: Grid, p: int, acc: seq<set<Cell>>, K: set<Cell>)
    requires Square(g) && Partitioned(g, p, acc) && IsGroup(g, p, K) && Union(acc) * K == {}
    ensures Partitioned(g, p, acc + [K])
  {
    DisjointAppend(acc, K);
    var cs := acc + [K];
    forall k | 0 <= k < |cs| ensures IsGroup(g, p, cs[k]) {
      if k < |acc| {
        assert cs[k] == acc[k];
      }
    }
  }

  lemma UnionAppend(cs: seq<set<Cell>>, K: set<Cell>)
    ensures Union(cs + [K]) == Union(cs) + K
  {
    assert (cs + [K])[..|cs|] == cs;
  }

  /** The scan step keeps the list a partition and adds exactly the group of a new stone. */
  lemma ScanCellStep(g: Grid, p: int, c: Cell, acc: seq<set<Cell>>)
    requires Square(g) && InBounds(|g|, c) && Partitioned(g, p, acc)
    ensures Partitioned(g, p, ScanCell(g, p, c, acc))
    ensures At(g, c) == p ==> c in Union(ScanCell(g, p, c, acc))
    ensures Union(acc) <= Union(ScanCell(g, p, c, acc))
    ensures Union(ScanCell(g, p, c, acc)) <= Union(acc) + (if At(g, c) == p then Group(g, p, c) else {})
  {
    if At(g, c) == p && c !in Union(acc) {
      GroupIsGroup(g, p, c);
      OutsideDisjoint(g, p, acc, c);
      PartitionedAppend(g, p, acc, Group(g, p, c));
      UnionAppend(acc, Group(g, p, c));
    }
  }

  /** A stone of p that comes before (i, j) in row-major order. */
  predicate ScannedBefore(g: Grid, p: int, i: int, j: int, c: Cell)
    requires Square(g)
  {
    InBounds(|g|, c) && At(g, c) == p && (c.0 < i || (c.0 == i && c.1 < j))
  }

  /** The scan of a row keeps the list a partition. */
  lemma {:induction false} ScanRowPartitioned(g: Grid, p: int, i: int, j: nat, acc: seq<set<Cell>>)
    requires Square(g) && 0 <= i < |g| && j <= |g| && Partitioned(g, p, acc)
    ensures Partitioned(g, p, ScanRow(g, p, i, j, acc))
    decreases j
  {
    if j > 0 {
      ScanRowPartitioned(g, p, i, j - 1, acc);
      ScanCellStep(g, p, (i, j - 1), ScanRow(g, p, i, j - 1, acc));
    }
  }

  /** What the scan up to (i, j) has built: a partition of the stones of p met so far, holding all of them. */
  ghost predicate ScanInv(g: Grid, p: int, i: int, j: int, cs: seq<set<Cell>>)
    requires Square(g)
  {
    && Partitioned(g, p, cs)
    && (forall c | ScannedBefore(g, p, i, j, c) :: c in Union(cs))
  }

  lemma {:induction false} ScanRowInv(g: Grid, p: int, i: int, j: nat, acc: seq<set<Cell>>)
    requires Square(g) && 0 <= i < |g| && j <= |g| && ScanInv(g, p, i, 0, acc)
    ensures ScanInv(g, p, i, j, ScanRow(g, p, i, j, acc))
    decreases j
  {
    if j > 0 {
      var prev := ScanRow(g, p, i, j - 1, acc);
      var next := ScanCell(g, p, (i, j - 1), prev);
      ScanRowInv(g, p, i, j - 1, acc);
      ScanCellStep(g, p, (i, j - 1), prev);
      forall c | ScannedBefore(g, p, i, j, c) ensures c in Union(next) {
        if c != (i, j - 1) {
          assert ScannedBefore(g, p, i, j - 1, c);
        }
      }
    }
  }

  lemma {:induction false} ScanRowsInv(g: Grid, p: int, i: nat)
    requires Square(g) && i <= |g|
    ensures ScanInv(g, p, i, 0, ScanRows(g, p, i))
  {
    if i > 0 {
      var prev := ScanRows(g, p, i - 1);
      ScanRowsInv(g, p, i - 1);
      ScanRowInv(g, p, i - 1, |g|, prev);
      forall c | ScannedBefore(g, p, i, 0, c) ensures c in Union(ScanRows(g, p, i)) {
        assert ScannedBefore(g, p, i - 1, |g|, c);
      }
    }
  }

  /** Every prefix of the scan lists pairwise disjoint groups of p. */
  lemma ScanPartitioned(g: Grid, p: int, i: int, j: nat)
    requires Square(g) && 0 <= i < |g| && j <= |g|
    ensures Partitioned(g, p, ScanRow(g, p, i, j, ScanRows(g, p, i)))
  {
    ScanRowsInv(g, p, i);
    ScanRowInv(g, p, i, j, ScanRows(g, p, i));
  }

  /**
   * The components are the groups of p's stones: pairwise disjoint, each one the group of each of its members, and
   * together holding exactly the cells that hold p.
   */
  lemma ComponentsAreGroups(g: Grid, p: int)
    requires Square(g)
    ensures Partitioned(g, p, Components(g, p))
    ensures forall c :: c in Union(Components(g, p)) <==> InBounds(|g|, c) && At(g, c) == p
  {
    var cs := Components(g, p);
    ScanRowsInv(g, p, |g|);
    forall c ensures c in Union(cs) <==> InBounds(|g|, c) && At(g, c) == p {
      if c in Union(cs) {
        PartitionedOwned(g, p, cs, c);
      }
      if InBounds(|g|, c) && At(g, c) == p {
        assert ScannedBefore(g, p, |g|, 0, c);
      }
    }
  }

  /** Every stone's group is one of the components. */
  lemma GroupListed(g: Grid, p: int, c: Cell)
    requires Square(g) && InBounds(|g|, c) && At(g, c) == p
    ensures exists k | 0 <= k < |Components(g, p)| :: Components(g, p)[k] == Group(g, p, c)
  {
    var cs := Components(g, p);
    ComponentsAreGroups(g, p);
    UnionIn(cs, c);
    var k :| 0 <= k < |cs| && c in cs[k];
    assert cs[k] == Group(g, p, c);
  }

  /** There are no components exactly when p has no stone on the board. */
  lemma NoComponents(g: Grid, p: int)
    requires Square(g)
    ensures Components(g, p) == [] <==> forall c | InBounds(|g|, c) :: At(g, c) != p
  {
    var cs := Components(g, p);
    ComponentsAreGroups(g, p);
    if cs != [] {
      assert cs[0] != {};
      var x :| x in cs[0];
      UnionIn(cs, x);
    }
  }
}
