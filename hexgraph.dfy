/**
 * The hexagonal grid as a graph. A Rule says which cells a search may step onto; from every cell of the board one
 * step reaches the open cells among its six neighbours.
 */
module HexGraph {
  import opened Hex
  import opened Graphs

  /** Which cells a search may step onto: only cells holding id, or every cell not holding id. */
  datatype Rule = Own(id: int) | Avoid(id: int)

  predicate Open(g: Grid, rule: Rule, c: Cell)
    requires Square(g)
  {
    && InBounds(|g|, c)
    && match rule
       case Own(p) => At(g, c) == p
       case Avoid(q) => At(g, c) != q
  }

  /** The open cells one hexagonal step away from a. */
  function NbrsOf(g: Grid, rule: Rule, a: Cell): set<Cell>
    requires Square(g)
  {
    set d | d in Directions && Open(g, rule, Shift(a, d)) :: Shift(a, d)
  }

  lemma NbrsOfIn(g: Grid, rule: Rule, a: Cell, x: Cell)
    requires Square(g)
    ensures x in NbrsOf(g, rule, a) <==> Open(g, rule, x) && Adjacent(a, x)
  {
    if Open(g, rule, x) && Adjacent(a, x) {
      var d := (x.0 - a.0, x.1 - a.1);
      assert x == Shift(a, d);
    }
  }

  /** The open cell one step away in direction k is a neighbour. */
  lemma NbrsOfShift(g: Grid, rule: Rule, a: Cell, k: nat)
    requires Square(g) && k < |Directions| && Open(g, rule, Shift(a, Directions[k]))
    ensures Shift(a, Directions[k]) in NbrsOf(g, rule, a)
  {
  }

  /** A set holds the open neighbours of a once it holds each open shift of a. */
  lemma NbrsOfCovered(g: Grid, rule: Rule, a: Cell, C: set<Cell>)
    requires Square(g)
    requires forall k | 0 <= k < |Directions| :: Open(g, rule, Shift(a, Directions[k])) ==> Shift(a, Directions[k]) in C
    ensures NbrsOf(g, rule, a) <= C
  {
    forall x | x in NbrsOf(g, rule, a) ensures x in C {
      var d :| d in Directions && Open(g, rule, Shift(a, d)) && x == Shift(a, d);
      var k :| 0 <= k < |Directions| && Directions[k] == d;
    }
  }

  /** The neighbours of a in the first k directions that the rule allows, in direction order. */
  function OpenNbrs(g: Grid, rule: Rule, a: Cell, k: nat): seq<Cell>
    requires Square(g) && k <= |Directions|
  {
    if k == 0 then []
    else
      var next := Shift(a, Directions[k - 1]);
      OpenNbrs(g, rule, a, k - 1) + if Open(g, rule, next) then [next] else []
  }

  lemma {:induction false} OpenNbrsSub(g: Grid, rule: Rule, a: Cell, k: nat)
    requires Square(g) && k <= |Directions|
    ensures Elems(OpenNbrs(g, rule, a, k)) <= NbrsOf(g, rule, a)
  {
    if k > 0 {
      OpenNbrsSub(g, rule, a, k - 1);
      var next := Shift(a, Directions[k - 1]);
      if Open(g, rule, next) {
        NbrsOfShift(g, rule, a, k - 1);
      }
      assert Elems(OpenNbrs(g, rule, a, k)) == Elems(OpenNbrs(g, rule, a, k - 1)) + Elems(if Open(g, rule, next) then [next] else []);
    }
  }

  lemma {:induction false} OpenNbrsCover(g: Grid, rule: Rule, a: Cell, k: nat)
    requires Square(g) && k <= |Directions|
    ensures forall i | 0 <= i < k :: Open(g, rule, Shift(a, Directions[i])) ==> Shift(a, Directions[i]) in Elems(OpenNbrs(g, rule, a, k))
  {
    if k > 0 {
      OpenNbrsCover(g, rule, a, k - 1);
      assert Elems(OpenNbrs(g, rule, a, k - 1)) <= Elems(OpenNbrs(g, rule, a, k));
    }
  }

  /** The cells listed over all six directions are exactly the neighbours of a the rule allows. */
  lemma OpenNbrsAre(g: Grid, rule: Rule, a: Cell)
    requires Square(g)
    ensures Elems(OpenNbrs(g, rule, a, |Directions|)) == NbrsOf(g, rule, a)
  {
    OpenNbrsSub(g, rule, a, |Directions|);
    OpenNbrsCover(g, rule, a, |Directions|);
    NbrsOfCovered(g, rule, a, Elems(OpenNbrs(g, rule, a, |Directions|)));
  }

  /**
   * The cells one expansion of a appends, in direction order: over the first k directions, each neighbour the rule
   * allows that is neither in visited nor listed already.
   */
  function FreshNbrs(g: Grid, rule: Rule, a: Cell, visited: set<Cell>, k: nat): seq<Cell>
    requires Square(g) && k <= |Directions|
  {
    if k == 0 then []
    else
      var pre, next := FreshNbrs(g, rule, a, visited, k - 1), Shift(a, Directions[k - 1]);
      if Open(g, rule, next) && next !in visited + Elems(pre) then pre + [next] else pre
  }

  /** The cells listed are allowed neighbours of a, pairwise distinct and not in visited. */
  lemma {:induction false} FreshNbrsFresh(g: Grid, rule: Rule, a: Cell, visited: set<Cell>, k: nat)
    requires Square(g) && k <= |Directions|
    ensures var fs := FreshNbrs(g, rule, a, visited, k);
            Distinct(fs) && Elems(fs) * visited == {} && Elems(fs) <= NbrsOf(g, rule, a)
  {
    if k > 0 {
      var pre, next := FreshNbrs(g, rule, a, visited, k - 1), Shift(a, Directions[k - 1]);
      FreshNbrsFresh(g, rule, a, visited, k - 1);
      if Open(g, rule, next) && next !in visited + Elems(pre) {
        NbrsOfShift(g, rule, a, k - 1);
        DistinctConcat(pre, [next]);
        assert Elems(pre + [next]) == Elems(pre) + {next};
      }
    }
  }

  /** Every allowed neighbour of a in the first k directions is in visited or listed. */
  lemma {:induction false} FreshNbrsCover(g: Grid, rule: Rule, a: Cell, visited: set<Cell>, k: nat)
    requires Square(g) && k <= |Directions|
    ensures var fs := FreshNbrs(g, rule, a, visited, k);
            forall i | 0 <= i < k :: Open(g, rule, Shift(a, Directions[i])) ==> Shift(a, Directions[i]) in visited + Elems(fs)
  {
    if k > 0 {
      var pre, next := FreshNbrs(g, rule, a, visited, k - 1), Shift(a, Directions[k - 1]);
      FreshNbrsCover(g, rule, a, visited, k - 1);
      assert Elems(pre) <= Elems(FreshNbrs(g, rule, a, visited, k));
    }
  }

  /** One expansion lists each allowed neighbour of a not in visited exactly once, and nothing else. */
  lemma FreshNbrsAre(g: Grid, rule: Rule, a: Cell, visited: set<Cell>)
    requires Square(g)
    ensures var fs := FreshNbrs(g, rule, a, visited, |Directions|);
            Distinct(fs) && Elems(fs) == NbrsOf(g, rule, a) - visited
  {
    var fs := FreshNbrs(g, rule, a, visited, |Directions|);
    FreshNbrsFresh(g, rule, a, visited, |Directions|);
    FreshNbrsCover(g, rule, a, visited, |Directions|);
    NbrsOfCovered(g, rule, a, visited + Elems(fs));
    forall x | x in NbrsOf(g, rule, a) - visited ensures x in Elems(fs) {
      assert x in visited + Elems(fs);
    }
    forall x | x in Elems(fs) ensures x in NbrsOf(g, rule, a) - visited {
      assert x !in Elems(fs) * visited;
    }
  }

  /** The board as a graph under a rule. */
  function GridGraph(g: Grid, rule: Rule): Graph
    requires Square(g)
  {
    map c | c in AllCells(|g|) :: NbrsOf(g, rule, c)
  }

  /** The cells of the board are exactly the cells with successors listed, and each lists its open neighbours. */
  lemma GridEdge(g: Grid, rule: Rule, a: Cell)
    requires Square(g)
    ensures a in GridGraph(g, rule) <==> InBounds(|g|, a)
    ensures a in GridGraph(g, rule) ==> GridGraph(g, rule)[a] == NbrsOf(g, rule, a)
  {
    AllCellsIn(|g|, a);
  }

  lemma GridEdgeIn(g: Grid, rule: Rule, a: Cell, x: Cell)
    requires Square(g) && InBounds(|g|, a)
    ensures a in GridGraph(g, rule)
    ensures x in GridGraph(g, rule)[a] <==> Open(g, rule, x) && Adjacent(a, x)
  {
    GridEdge(g, rule, a);
    NbrsOfIn(g, rule, a, x);
  }

  /** Every edge of the grid graph leads to an open cell. */
  lemma GridTargetsOpen(g: Grid, rule: Rule, x: Cell)
    requires Square(g) && x in Targets(GridGraph(g, rule))
    ensures Open(g, rule, x)
  {
    var G := GridGraph(g, rule);
    var a :| a in G && x in G[a];
    GridEdge(g, rule, a);
    NbrsOfIn(g, rule, a, x);
  }

  /** Everything reached from seeds on the board is on the board, and open unless it is a seed. */
  lemma GridClosure(g: Grid, rule: Rule, S: set<Cell>, x: Cell)
    requires Square(g) && InGrid(|g|, S) && x in Closure(GridGraph(g, rule), S)
    ensures InBounds(|g|, x)
    ensures x !in S ==> Open(g, rule, x)
  {
    ClosureClosed(GridGraph(g, rule), S);
    if x !in S {
      GridTargetsOpen(g, rule, x);
    }
  }

  /**
   * A hexagonal path from S: it starts at a cell of S, every later cell is open and each cell is one of the six
   * neighbours of the one before it.
   */
  ghost predicate IsHexPath(g: Grid, rule: Rule, S: set<Cell>, p: seq<Cell>)
    requires Square(g)
  {
    && |p| > 0
    && p[0] in S
    && (forall i | 1 <= i < |p| :: Open(g, rule, p[i]))
    && (forall i | 0 <= i < |p| - 1 :: Adjacent(p[i], p[i + 1]))
  }

  lemma WalkIsHexPath(g: Grid, rule: Rule, S: set<Cell>, p: seq<Cell>)
    requires Square(g) && IsWalk(GridGraph(g, rule), S, p)
    ensures IsHexPath(g, rule, S, p)
  {
    var G := GridGraph(g, rule);
    forall i | 1 <= i < |p| ensures Open(g, rule, p[i]) && Adjacent(p[i - 1], p[i]) {
      assert p[i - 1] in G && p[i] in G[p[i - 1]];
      GridEdge(g, rule, p[i - 1]);
      NbrsOfIn(g, rule, p[i - 1], p[i]);
    }
    forall i | 0 <= i < |p| - 1 ensures Adjacent(p[i], p[i + 1]) {
      assert Adjacent(p[(i + 1) - 1], p[i + 1]);
    }
  }

  lemma HexPathIsWalk(g: Grid, rule: Rule, S: set<Cell>, p: seq<Cell>)
    requires Square(g) && InGrid(|g|, S) && IsHexPath(g, rule, S, p)
    ensures IsWalk(GridGraph(g, rule), S, p)
  {
    var G := GridGraph(g, rule);
    forall i | 0 <= i < |p| - 1 ensures p[i] in G && p[i + 1] in G[p[i]] {
      assert InBounds(|g|, p[i]);
      GridEdgeIn(g, rule, p[i], p[i + 1]);
    }
  }

  /** A cell is reached from seeds on the board exactly when a hexagonal path from the seeds ends at it. */
  lemma GridClosureIffPath(g: Grid, rule: Rule, S: set<Cell>, x: Cell)
    requires Square(g) && InGrid(|g|, S)
    ensures x in Closure(GridGraph(g, rule), S) <==> exists p :: IsHexPath(g, rule, S, p) && p[|p| - 1] == x
  {
    var G := GridGraph(g, rule);
    ClosureIffWalk(G, S, x);
    if x in Closure(G, S) {
      var p :| IsWalk(G, S, p) && p[|p| - 1] == x;
      WalkIsHexPath(g, rule, S, p);
    }
    if exists p :: IsHexPath(g, rule, S, p) && p[|p| - 1] == x {
      var p :| IsHexPath(g, rule, S, p) && p[|p| - 1] == x;
      HexPathIsWalk(g, rule, S, p);
    }
  }

  /** Among cells holding p, every step of the Own(p) graph can be stepped back. */
  lemma OwnReversible(g: Grid, p: int, C: set<Cell>)
    requires Square(g) && forall c | c in C :: InBounds(|g|, c) && At(g, c) == p
    ensures Reversible(GridGraph(g, Own(p)), C)
  {
    var G := GridGraph(g, Own(p));
    forall a, x | a in C && a in G && x in G[a] ensures x in G && a in G[x] {
      GridEdgeIn(g, Own(p), a, x);
      AdjacentSymmetric(a, x);
      GridEdgeIn(g, Own(p), x, a);
    }
  }
}
