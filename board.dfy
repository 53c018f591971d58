/**
 * The Hex board: an n-by-n grid of ints where 0 is an empty cell and any other value is a player's stone. The
 * specification functions say what the board's queries compute; the class HexBoard holds the grid in an array and
 * implements them.
 */
module Board {
  import opened Hex
  import opened Graphs
  import opened HexGraph

  // Possible moves

  /** The empty cells (i, 0) .. (i, j - 1) of row i, left to right. */
  function RowMoves(g: Grid, i: int, j: nat): seq<Cell>
    requires Square(g) && 0 <= i < |g| && j <= |g|
  {
    if j == 0 then []
    else RowMoves(g, i, j - 1) + (if At(g, (i, j - 1)) == 0 then [(i, j - 1)] else [])
  }

  /** The empty cells of rows 0 .. i - 1 in row-major order. */
  function MovesUpTo(g: Grid, i: nat): seq<Cell>
    requires Square(g) && i <= |g|
  {
    if i == 0 then [] else MovesUpTo(g, i - 1) + RowMoves(g, i - 1, |g|)
  }

  /** The empty cells of the board in row-major order. */
  function PossibleMoves(g: Grid): (m: seq<Cell>)
    requires Square(g)
    ensures forall k | 0 <= k < |m| :: InBounds(|g|, m[k]) && At(g, m[k]) == 0
  {
    MovesUpToEmpty(g, |g|);
    MovesUpTo(g, |g|)
  }

  /** a comes before b in row-major order. */
  predicate Before(a: Cell, b: Cell)
  {
    a.0 < b.0 || (a.0 == b.0 && a.1 < b.1)
  }

  predicate RowMajor(s: seq<Cell>)
  {
    forall i, j | 0 <= i < j < |s| :: Before(s[i], s[j])
  }

  lemma RowMajorDistinct(s: seq<Cell>)
    requires RowMajor(s)
    ensures Distinct(s)
  {
    forall i, j | 0 <= i < j < |s| ensures s[i] != s[j] {
      assert Before(s[i], s[j]);
    }
  }

  /** Entry k of RowMoves(g, i, j) is an empty cell of row i left of column j. */
  lemma {:induction false} RowMovesAt(g: Grid, i: int, j: nat, k: nat)
    requires Square(g) && 0 <= i < |g| && j <= |g| && k < |RowMoves(g, i, j)|
    ensures RowMoves(g, i, j)[k].0 == i && 0 <= RowMoves(g, i, j)[k].1 < j && At(g, RowMoves(g, i, j)[k]) == 0
  {
    var a := RowMoves(g, i, j - 1);
    if k < |a| {
      RowMovesAt(g, i, j - 1, k);
      assert RowMoves(g, i, j)[k] == a[k];
    }
  }

  /** Every empty cell of row i left of column j has an index in RowMoves(g, i, j). */
  lemma {:induction false} RowMovesFind(g: Grid, i: int, j: nat, c: Cell) returns (k: nat)
    requires Square(g) && 0 <= i < |g| && j <= |g| && c.0 == i && 0 <= c.1 < j && At(g, c) == 0
    ensures k < |RowMoves(g, i, j)| && RowMoves(g, i, j)[k] == c
  {
    var a := RowMoves(g, i, j - 1);
    if c.1 == j - 1 {
      assert c == (i, j - 1);
      k := |a|;
    } else {
      k := RowMovesFind(g, i, j - 1, c);
      assert RowMoves(g, i, j)[k] == a[k];
    }
  }

  /** Entry k of MovesUpTo(g, i) is an empty cell of rows 0 .. i - 1. */
  lemma {:induction false} MovesUpToAt(g: Grid, i: nat, k: nat)
    requires Square(g) && i <= |g| && k < |MovesUpTo(g, i)|
    ensures 0 <= MovesUpTo(g, i)[k].0 < i && 0 <= MovesUpTo(g, i)[k].1 < |g| && At(g, MovesUpTo(g, i)[k]) == 0
  {
    var a, b := MovesUpTo(g, i - 1), RowMoves(g, i - 1, |g|);
    if k < |a| {
      MovesUpToAt(g, i - 1, k);
      assert MovesUpTo(g, i)[k] == a[k];
    } else {
      RowMovesAt(g, i - 1, |g|, k - |a|);
      assert MovesUpTo(g, i)[k] == b[k - |a|];
    }
  }

  /** Every empty cell of rows 0 .. i - 1 has an index in MovesUpTo(g, i). */
  lemma {:induction false} MovesUpToFind(g: Grid, i: nat, c: Cell) returns (k: nat)
    requires Square(g) && i <= |g| && 0 <= c.0 < i && 0 <= c.1 < |g| && At(g, c) == 0
    ensures k < |MovesUpTo(g, i)| && MovesUpTo(g, i)[k] == c
  {
    var a, b := MovesUpTo(g, i - 1), RowMoves(g, i - 1, |g|);
    if c.0 == i - 1 {
      var k' := RowMovesFind(g, i - 1, |g|, c);
      k := |a| + k';
      assert MovesUpTo(g, i)[k] == b[k'];
    } else {
      k := MovesUpToFind(g, i - 1, c);
      assert MovesUpTo(g, i)[k] == a[k];
    }
  }

  /** Appending a cell that comes after every entry keeps a sequence in row-major order. */
  lemma RowMajorSnoc(s: seq<Cell>, x: Cell)
    requires RowMajor(s) && forall k | 0 <= k < |s| :: Before(s[k], x)
    ensures RowMajor(s + [x])
  {
    forall k1, k2 | 0 <= k1 < k2 < |s + [x]| ensures Before((s + [x])[k1], (s + [x])[k2]) {
      assert (s + [x])[k1] == s[k1];
    }
  }

  /** Two row-major sequences, every row of the first above the single row r of the second, concatenate in order. */
  lemma RowMajorConcat(a: seq<Cell>, b: seq<Cell>, r: int)
    requires RowMajor(a) && RowMajor(b)
    requires forall k | 0 <= k < |a| :: a[k].0 < r
    requires forall k | 0 <= k < |b| :: b[k].0 == r
    ensures RowMajor(a + b)
  {
    forall k1, k2 | 0 <= k1 < k2 < |a + b| ensures Before((a + b)[k1], (a + b)[k2]) {
      if k2 < |a| {
        assert (a + b)[k1] == a[k1] && (a + b)[k2] == a[k2];
      } else if k1 < |a| {
        assert (a + b)[k1] == a[k1] && (a + b)[k2] == b[k2 - |a|];
      } else {
        assert (a + b)[k1] == b[k1 - |a|] && (a + b)[k2] == b[k2 - |a|];
      }
    }
  }

  /** RowMoves lists its cells left to right. */
  lemma {:induction false} RowMovesRowMajor(g: Grid, i: int, j: nat)
    requires Square(g) && 0 <= i < |g| && j <= |g|
    ensures RowMajor(RowMoves(g, i, j))
  {
    if j > 0 {
      var a := RowMoves(g, i, j - 1);
      RowMovesRowMajor(g, i, j - 1);
      if At(g, (i, j - 1)) == 0 {
        forall k | 0 <= k < |a| ensures Before(a[k], (i, j - 1)) {
          RowMovesAt(g, i, j - 1, k);
        }
        RowMajorSnoc(a, (i, j - 1));
      } else {
        assert RowMoves(g, i, j) == a;
      }
    }
  }

  /** MovesUpTo lists its cells in row-major order. */
  lemma {:induction false} MovesUpToRowMajor(g: Grid, i: nat)
    requires Square(g) && i <= |g|
    ensures RowMajor(MovesUpTo(g, i))
  {
    if i > 0 {
      var a, b := MovesUpTo(g, i - 1), RowMoves(g, i - 1, |g|);
      MovesUpToRowMajor(g, i - 1);
      RowMovesRowMajor(g, i - 1, |g|);
      forall k | 0 <= k < |a| ensures a[k].0 < i - 1 {
        MovesUpToAt(g, i - 1, k);
      }
      forall k | 0 <= k < |b| ensures b[k].0 == i - 1 {
        RowMovesAt(g, i - 1, |g|, k);
      }
      RowMajorConcat(a, b, i - 1);
    }
  }

  lemma MovesUpToEmpty(g: Grid, i: nat)
    requires Square(g) && i <= |g|
    ensures forall k | 0 <= k < |MovesUpTo(g, i)| :: InBounds(|g|, MovesUpTo(g, i)[k]) && At(g, MovesUpTo(g, i)[k]) == 0
  {
    forall k | 0 <= k < |MovesUpTo(g, i)| ensures InBounds(|g|, MovesUpTo(g, i)[k]) && At(g, MovesUpTo(g, i)[k]) == 0 {
      MovesUpToAt(g, i, k);
    }
  }

  /** The possible moves are exactly the empty cells of the board. */
  lemma PossibleMovesIn(g: Grid, c: Cell)
    requires Square(g)
    ensures c in PossibleMoves(g) <==> InBounds(|g|, c) && At(g, c) == 0
  {
    if InBounds(|g|, c) && At(g, c) == 0 {
      var k := MovesUpToFind(g, |g|, c);
    }
  }

  /** The possible moves come in row-major order, so each empty cell is listed once. */
  lemma PossibleMovesOrder(g: Grid)
    requires Square(g)
    ensures RowMajor(PossibleMoves(g)) && Distinct(PossibleMoves(g))
  {
    MovesUpToRowMajor(g, |g|);
    RowMajorDistinct(PossibleMoves(g));
  }

  function EmptyCells(g: Grid): set<Cell>
    requires Square(g)
  {
    set r, c | 0 <= r < |g| && 0 <= c < |g| && g[r][c] == 0 :: (r, c)
  }

  function OccupiedCells(g: Grid): set<Cell>
    requires Square(g)
  {
    set r, c | 0 <= r < |g| && 0 <= c < |g| && g[r][c] != 0 :: (r, c)
  }

  /**
   * The possible moves list each empty cell once; the empty and the occupied cells split the n * n cells of the
   * board between them.
   */
  lemma MovesPartition(g: Grid)
    requires Square(g)
    ensures Elems(PossibleMoves(g)) == EmptyCells(g)
    ensures |PossibleMoves(g)| == |EmptyCells(g)|
    ensures EmptyCells(g) * OccupiedCells(g) == {}
    ensures EmptyCells(g) + OccupiedCells(g) == AllCells(|g|)
    ensures |PossibleMoves(g)| + |OccupiedCells(g)| == |g| * |g|
  {
    var m := PossibleMoves(g);
    forall c ensures c in m <==> c in EmptyCells(g) {
      PossibleMovesIn(g, c);
      if c in EmptyCells(g) {
        var r, k :| 0 <= r < |g| && 0 <= k < |g| && g[r][k] == 0 && c == (r, k);
      }
    }
    forall c ensures c in EmptyCells(g) + OccupiedCells(g) <==> c in AllCells(|g|) {
      AllCellsIn(|g|, c);
      if InBounds(|g|, c) {
        assert c == (c.0, c.1);
      }
    }
    PossibleMovesOrder(g);
    DistinctCard(m);
    AllCellsCard(|g|);
  }

  /** On an empty board every one of the n * n cells is a possible move. */
  lemma EmptyBoardMoves(n: nat)
    ensures |PossibleMoves(EmptyGrid(n))| == n * n
    ensures forall c | InBounds(n, c) :: c in PossibleMoves(EmptyGrid(n))
  {
    var g := EmptyGrid(n);
    MovesPartition(g);
    assert OccupiedCells(g) == {};
    forall c | InBounds(n, c) ensures c in PossibleMoves(g) {
      PossibleMovesIn(g, c);
    }
  }

  /** The last cell of a row-major sequence comes after every other cell in it. */
  lemma RowMajorLast(s: seq<Cell>, x: Cell)
    requires RowMajor(s) && s != [] && x in s && x != s[|s| - 1]
    ensures Before(x, s[|s| - 1])
  {
    var i :| 0 <= i < |s| && s[i] == x;
  }

  lemma BeforeAsymmetric(a: Cell, b: Cell)
    requires Before(a, b)
    ensures !Before(b, a)
  {
  }

  /** A row-major sequence is determined by its set of cells. */
  lemma {:induction false} RowMajorUnique(s: seq<Cell>, t: seq<Cell>)
    requires RowMajor(s) && RowMajor(t) && Elems(s) == Elems(t)
    ensures s == t
    decreases |s|
  {
    if s == [] {
      RowMajorDistinct(t);
      DistinctCard(t);
    } else {
      assert t != [] by {
        assert s[0] in Elems(s);
      }
      var x, y := s[|s| - 1], t[|t| - 1];
      assert x in Elems(t) && y in Elems(s);
      if x != y {
        RowMajorLast(t, x);
        RowMajorLast(s, y);
        BeforeAsymmetric(x, y);
      }
      var s', t' := s[..|s| - 1], t[..|t| - 1];
      RowMajorDistinct(s);
      RowMajorDistinct(t);
      forall z ensures z in Elems(s') <==> z in Elems(t') {
        assert z in Elems(s') <==> z in Elems(s) && z != x by {
          if z in s' {
            var i :| 0 <= i < |s'| && s'[i] == z;
            assert s[i] == z;
          }
          if z in s && z != x {
            var i :| 0 <= i < |s| && s[i] == z;
            assert s'[i] == z;
          }
        }
        assert z in Elems(t') <==> z in Elems(t) && z != y by {
          if z in t' {
            var i :| 0 <= i < |t'| && t'[i] == z;
            assert t[i] == z;
          }
          if z in t && z != y {
            var i :| 0 <= i < |t| && t[i] == z;
            assert t'[i] == z;
          }
        }
      }
      RowMajorUnique(s', t');
      assert s == s' + [x] && t == t' + [y];
    }
  }

  /** Dropping the element at k keeps a row-major sequence row-major and removes exactly that element. */
  lemma RowMajorDrop(s: seq<Cell>, k: nat)
    requires RowMajor(s) && k < |s|
    ensures RowMajor(s[..k] + s[k + 1..])
    ensures Elems(s[..k] + s[k + 1..]) == Elems(s) - {s[k]}
  {
    var r := s[..k] + s[k + 1..];
    assert forall i | 0 <= i < |r| :: r[i] == if i < k then s[i] else s[i + 1];
    RowMajorDistinct(s);
    forall z ensures z in Elems(r) <==> z in Elems(s) && z != s[k] {
      if z in r {
        var i :| 0 <= i < |r| && r[i] == z;
      }
      if z in s && z != s[k] {
        var i :| 0 <= i < |s| && s[i] == z;
        if i < k {
          assert r[i] == z;
        } else {
          assert r[i - 1] == z;
        }
      }
    }
  }

  /** Placing a stone on an empty cell removes exactly that cell from the possible moves and keeps the rest in order. */
  lemma PlaceShrinksMoves(g: Grid, c: Cell, id: int)
    requires Square(g) && InBounds(|g|, c) && At(g, c) == 0 && id != 0
    ensures exists k | 0 <= k < |PossibleMoves(g)| && PossibleMoves(g)[k] == c ::
              PossibleMoves(Place(g, c, id)) == PossibleMoves(g)[..k] + PossibleMoves(g)[k + 1..]
  {
    var h := Place(g, c, id);
    var m, m' := PossibleMoves(g), PossibleMoves(h);
    PossibleMovesIn(g, c);
    var k :| 0 <= k < |m| && m[k] == c;
    PossibleMovesOrder(g);
    PossibleMovesOrder(h);
    RowMajorDrop(m, k);
    forall z ensures z in Elems(m') <==> z in Elems(m) - {c} {
      PossibleMovesIn(g, z);
      PossibleMovesIn(h, z);
    }
    RowMajorUnique(m', m[..k] + m[k + 1..]);
  }

  // Connection

  /** The k-th cell of p's start edge: along row 0 for player 2, down column 0 for every other id. */
  function EdgeCell(p: int, k: int): Cell
  {
    if p == 2 then (0, k) else (k, 0)
  }

  predicate OnStartEdge(p: int, c: Cell)
  {
    if p == 2 then c.0 == 0 else c.1 == 0
  }

  /** The position of a start-edge cell along its edge. */
  function EdgeIndex(p: int, c: Cell): int
  {
    if p == 2 then c.1 else c.0
  }

  /** The cells among the first k of p's start edge that hold p, in edge order. */
  function StartList(g: Grid, p: int, k: nat): seq<Cell>
    requires Square(g) && k <= |g|
  {
    if k == 0 then []
    else StartList(g, p, k - 1) + (if At(g, EdgeCell(p, k - 1)) == p then [EdgeCell(p, k - 1)] else [])
  }

  lemma {:induction false} StartListIn(g: Grid, p: int, k: nat, c: Cell)
    requires Square(g) && k <= |g|
    ensures c in StartList(g, p, k) <==> OnStartEdge(p, c) && 0 <= EdgeIndex(p, c) < k && At(g, c) == p
  {
    if k > 0 {
      StartListIn(g, p, k - 1, c);
    }
  }

  lemma {:induction false} StartListDistinct(g: Grid, p: int, k: nat)
    requires Square(g) && k <= |g|
    ensures Distinct(StartList(g, p, k))
  {
    if k > 0 {
      StartListDistinct(g, p, k - 1);
      var s := StartList(g, p, k);
      var t := StartList(g, p, k - 1);
      forall i, j | 0 <= i < j < |s| ensures s[i] != s[j] {
        if j == |s| - 1 && |s| > |t| {
          assert s[i] in t;
          StartListIn(g, p, k - 1, s[i]);
        } else {
          assert s[i] == t[i] && s[j] == t[j];
        }
      }
    }
  }

  /** The cells of p's start edge that hold p: where the connection search starts. */
  function Seeds(g: Grid, p: int): set<Cell>
    requires Square(g)
  {
    Elems(StartList(g, p, |g|))
  }

  lemma SeedsIn(g: Grid, p: int, c: Cell)
    requires Square(g)
    ensures c in Seeds(g, p) <==> InBounds(|g|, c) && OnStartEdge(p, c) && At(g, c) == p
  {
    StartListIn(g, p, |g|, c);
  }

  lemma SeedsInGrid(g: Grid, p: int)
    requires Square(g)
    ensures InGrid(|g|, Seeds(g, p))
  {
    forall c | c in Seeds(g, p) ensures InBounds(|g|, c) {
      SeedsIn(g, p, c);
    }
  }

  /** The target test of the connection search: column n - 1 for player 1, row n - 1 for player 2, nothing else. */
  predicate IsTarget(p: int, n: int, c: Cell)
  {
    (p == 1 && c.1 == n - 1) || (p == 2 && c.0 == n - 1)
  }

  /** Some cell reachable from p's start edge through p's stones lies on p's target edge. */
  predicate Wins(g: Grid, p: int)
    requires Square(g)
  {
    exists c | c in Closure(GridGraph(g, Own(p)), Seeds(g, p)) :: IsTarget(p, |g|, c)
  }

  /** A chain of p's stones, each a hexagonal neighbour of the one before, from p's start edge to p's target edge. */
  ghost predicate IsChain(g: Grid, p: int, path: seq<Cell>)
    requires Square(g)
  {
    && |path| > 0
    && OnStartEdge(p, path[0])
    && IsTarget(p, |g|, path[|path| - 1])
    && (forall i | 0 <= i < |path| :: InBounds(|g|, path[i]) && At(g, path[i]) == p)
    && (forall i | 0 <= i < |path| - 1 :: Adjacent(path[i], path[i + 1]))
  }

  lemma ChainIsHexPath(g: Grid, p: int, path: seq<Cell>)
    requires Square(g) && IsChain(g, p, path)
    ensures IsHexPath(g, Own(p), Seeds(g, p), path)
  {
    SeedsIn(g, p, path[0]);
  }

  lemma HexPathIsChain(g: Grid, p: int, path: seq<Cell>)
    requires Square(g) && IsHexPath(g, Own(p), Seeds(g, p), path) && IsTarget(p, |g|, path[|path| - 1])
    ensures IsChain(g, p, path)
  {
    SeedsIn(g, p, path[0]);
  }

  /**
   * Player 1 and player 2 are connected exactly when a chain of their stones joins their two edges; no other id is
   * ever connected, since the target test names 1 and 2 only.
   */
  lemma WinsIffChain(g: Grid, p: int)
    requires Square(g)
    ensures Wins(g, p) <==> (p == 1 || p == 2) && exists path :: IsChain(g, p, path)
  {
    var C := Closure(GridGraph(g, Own(p)), Seeds(g, p));
    SeedsInGrid(g, p);
    if Wins(g, p) {
      var c :| c in C && IsTarget(p, |g|, c);
      GridClosureIffPath(g, Own(p), Seeds(g, p), c);
      var path :| IsHexPath(g, Own(p), Seeds(g, p), path) && path[|path| - 1] == c;
      HexPathIsChain(g, p, path);
    }
    if exists path :: IsChain(g, p, path) {
      var path :| IsChain(g, p, path);
      var c := path[|path| - 1];
      ChainIsHexPath(g, p, path);
      GridClosureIffPath(g, Own(p), Seeds(g, p), c);
      assert c in C;
    }
  }

  /** A fresh board connects nobody. */
  lemma EmptyBoardNoWin(n: nat, p: int)
    ensures !Wins(EmptyGrid(n), p)
  {
    WinsIffChain(EmptyGrid(n), p);
  }

  /** Putting a stone on an empty cell never breaks a connection. */
  lemma WinsMonotone(g: Grid, c: Cell, id: int, p: int)
    requires Square(g) && InBounds(|g|, c) && At(g, c) == 0 && Wins(g, p)
    ensures Wins(Place(g, c, id), p)
  {
    var h := Place(g, c, id);
    WinsIffChain(g, p);
    WinsIffChain(h, p);
    var path :| IsChain(g, p, path);
    forall i | 0 <= i < |path| ensures InBounds(|h|, path[i]) && At(h, path[i]) == p {
      assert path[i] != c;
    }
    assert IsChain(h, p, path);
  }

  // The connection search

  /**
   * The state of the expansion of cell after the first k directions: queue' extends queue by the neighbours holding
   * p found that were not visited before, and every such neighbour in those directions is now visited.
   */
  ghost predicate ExpandInv(g: Grid, p: int, cell: Cell, queue: seq<Cell>, visited: set<Cell>, k: nat,
                            queue': seq<Cell>, visited': set<Cell>)
    requires Square(g) && k <= |Directions|
  {
    && |queue| <= |queue'| && queue'[..|queue|] == queue
    && visited' == visited + Elems(queue'[|queue|..])
    && Elems(queue'[|queue|..]) <= NbrsOf(g, Own(p), cell)
    && (visited' == visited ==> queue' == queue)
    && Distinct(queue'[|queue|..]) && Elems(queue'[|queue|..]) * visited == {}
    && forall i | 0 <= i < k :: Open(g, Own(p), Shift(cell, Directions[i])) ==> Shift(cell, Directions[i]) in visited'
  }

  /** A direction whose cell is not p's or is already visited adds nothing. */
  lemma ExpandSkip(g: Grid, p: int, cell: Cell, queue: seq<Cell>, visited: set<Cell>, k: nat, queue': seq<Cell>,
                   visited': set<Cell>)
    requires Square(g) && k < |Directions| && ExpandInv(g, p, cell, queue, visited, k, queue', visited')
    requires Open(g, Own(p), Shift(cell, Directions[k])) ==> Shift(cell, Directions[k]) in visited'
    ensures ExpandInv(g, p, cell, queue, visited, k + 1, queue', visited')
  {
  }

  /** A direction whose cell holds p and is new queues that cell. */
  lemma ExpandAdd(g: Grid, p: int, cell: Cell, queue: seq<Cell>, visited: set<Cell>, k: nat, queue': seq<Cell>,
                  visited': set<Cell>)
    requires Square(g) && k < |Directions| && ExpandInv(g, p, cell, queue, visited, k, queue', visited')
    requires Open(g, Own(p), Shift(cell, Directions[k])) && Shift(cell, Directions[k]) !in visited'
    ensures var next := Shift(cell, Directions[k]);
            ExpandInv(g, p, cell, queue, visited, k + 1, queue' + [next], visited' + {next})
  {
    var next := Shift(cell, Directions[k]);
    NbrsOfShift(g, Own(p), cell, k);
    assert (queue' + [next])[..|queue|] == queue'[..|queue|];
    assert (queue' + [next])[|queue|..] == queue'[|queue|..] + [next];
    DistinctConcat(queue'[|queue|..], [next]);
  }

  /**
   * The state of the connection search: done holds the cells taken off the queue, visited those ever queued. Every
   * visited cell is reachable from the start edge, every neighbour of a done cell is visited, and no done cell is a
   * target.
   */
  ghost predicate SearchInv(g: Grid, p: int, done: set<Cell>, visited: set<Cell>)
    requires Square(g)
  {
    && Seeds(g, p) <= visited <= Closure(GridGraph(g, Own(p)), Seeds(g, p))
    && InGrid(|g|, visited)
    && Nbrs(GridGraph(g, Own(p)), done) <= visited
    && forall c | c in done :: !IsTarget(p, |g|, c)
  }

  lemma SearchStart(g: Grid, p: int)
    requires Square(g)
    ensures SearchInv(g, p, {}, Seeds(g, p))
  {
    SeedsInGrid(g, p);
    ClosureClosed(GridGraph(g, Own(p)), Seeds(g, p));
  }

  /** Expanding a queued non-target cell keeps the search state. */
  lemma SearchStep(g: Grid, p: int, done: set<Cell>, cell: Cell, before: set<Cell>, after: set<Cell>)
    requires Square(g) && SearchInv(g, p, done, before) && cell in before && !IsTarget(p, |g|, cell)
    requires before <= after <= before + NbrsOf(g, Own(p), cell)
    requires NbrsOf(g, Own(p), cell) <= after
    ensures SearchInv(g, p, done + {cell}, after)
  {
    var G, S := GridGraph(g, Own(p)), Seeds(g, p);
    assert InBounds(|g|, cell);
    GridEdge(g, Own(p), cell);
    forall x | x in after && x !in before
      ensures x in Closure(G, S) && InBounds(|g|, x)
    {
      ClosureStep(G, S, cell, x);
      NbrsOfIn(g, Own(p), cell, x);
    }
    NbrsAdd(G, done, cell);
  }

  /**
   * The result of expanding cell: queue' extends queue by neighbours of cell holding p, without repetitions and
   * none visited before, they are now visited, and so is every neighbour of cell holding p.
   */
  ghost predicate ExpandPost(g: Grid, p: int, cell: Cell, queue: seq<Cell>, visited: set<Cell>, queue': seq<Cell>,
                             visited': set<Cell>)
    requires Square(g)
  {
    && |queue| <= |queue'| && queue'[..|queue|] == queue
    && visited' == visited + Elems(queue'[|queue|..])
    && Elems(queue'[|queue|..]) <= NbrsOf(g, Own(p), cell) <= visited'
    && (visited' == visited ==> queue' == queue)
    && Distinct(queue'[|queue|..]) && Elems(queue'[|queue|..]) * visited == {}
  }

  /** One round of the search loop: the head of the queue is expanded and the queue and the visited set move on. */
  lemma SearchPop(g: Grid, p: int, done: set<Cell>, queue: seq<Cell>, visited: set<Cell>, queue': seq<Cell>,
                  visited': set<Cell>)
    requires Square(g) && SearchInv(g, p, done, visited) && visited == done + Elems(queue)
    requires queue != [] && !IsTarget(p, |g|, queue[0])
    requires ExpandPost(g, p, queue[0], queue[1..], visited, queue', visited')
    ensures SearchInv(g, p, done + {queue[0]}, visited') && visited' == done + {queue[0]} + Elems(queue')
    ensures |visited'| <= |g| * |g|
    ensures |visited| < |visited'| || (visited' == visited && |queue'| < |queue|)
  {
    ElemsTail(queue);
    ElemsSplit(queue', |queue| - 1);
    SearchStep(g, p, done, queue[0], visited, visited');
    InGridCard(|g|, visited');
    if visited' != visited {
      ProperSubsetCard(visited, visited');
    }
  }

  /** The queue holds no cell twice and no cell already taken off it. */
  predicate FreshQueue(done: set<Cell>, queue: seq<Cell>)
  {
    Distinct(queue) && done * Elems(queue) == {}
  }

  /**
   * One round of the search loop queues no cell twice, so the queue is never longer than the set of visited cells.
   */
  lemma QueueFresh(g: Grid, p: int, done: set<Cell>, queue: seq<Cell>, visited: set<Cell>, queue': seq<Cell>,
                   visited': set<Cell>)
    requires Square(g) && queue != [] && FreshQueue(done, queue) && visited == done + Elems(queue)
    requires ExpandPost(g, p, queue[0], queue[1..], visited, queue', visited')
    ensures FreshQueue(done + {queue[0]}, queue') && |queue'| <= |visited'|
  {
    var rest, added := queue[1..], queue'[|queue| - 1..];
    assert queue' == rest + added;
    ElemsTail(queue);
    DistinctTail(queue);
    DistinctConcat(rest, added);
    ElemsSplit(queue', |rest|);
    QueueBound(queue', visited');
  }

  /** A queue without repetitions of visited cells is no longer than the visited set. */
  lemma QueueBound(queue: seq<Cell>, visited: set<Cell>)
    requires Distinct(queue) && Elems(queue) <= visited
    ensures |queue| <= |visited|
  {
    DistinctCard(queue);
    SubsetCard(Elems(queue), visited);
  }

  /** A target cell on the queue means p is connected. */
  lemma SearchHit(g: Grid, p: int, done: set<Cell>, visited: set<Cell>, cell: Cell)
    requires Square(g) && SearchInv(g, p, done, visited) && cell in visited && IsTarget(p, |g|, cell)
    ensures Wins(g, p)
  {
  }

  /** Once the queue is empty without a target, p is not connected. */
  lemma SearchDone(g: Grid, p: int, done: set<Cell>)
    requires Square(g) && SearchInv(g, p, done, done)
    ensures !Wins(g, p)
  {
    ClosureLeast(GridGraph(g, Own(p)), Seeds(g, p), done);
  }

  // The board object

  /** The board of board.py: a size-by-size array of cell values, 0 for an empty cell. */
  class HexBoard {
    const size: nat
    const board: array2<int>

    predicate Valid()
    {
      board.Length0 == size && board.Length1 == size
    }

    /** The current contents of the array as a grid value. */
    function View(): (g: Grid)
      requires Valid()
      reads board
      ensures Square(g) && |g| == size
      ensures forall i, j | 0 <= i < size && 0 <= j < size :: g[i][j] == board[i, j]
    {
      Rows(size)
    }

    /** Rows 0 .. k - 1 of the array. */
    function Rows(k: nat): (rs: seq<seq<int>>)
      requires Valid() && k <= size
      reads board
      ensures |rs| == k && forall i | 0 <= i < k :: |rs[i]| == size
      ensures forall i, j | 0 <= i < k && 0 <= j < size :: rs[i][j] == board[i, j]
    {
      if k == 0 then [] else Rows(k - 1) + [Row(k - 1, size)]
    }

    /** Columns 0 .. k - 1 of row i of the array. */
    function Row(i: nat, k: nat): (r: seq<int>)
      requires Valid() && i < size && k <= size
      reads board
      ensures |r| == k && forall j | 0 <= j < k :: r[j] == board[i, j]
    {
      if k == 0 then [] else Row(i, k - 1) + [board[i, k - 1]]
    }

    /** A board of the given size with every cell empty. */
    constructor (size: nat)
      ensures this.size == size && Valid() && fresh(board)
      ensures View() == EmptyGrid(size)
    {
      this.size := size;
      board := new int[size, size]((_, _) => 0);
      new;
      GridExt(View(), EmptyGrid(size));
    }

    /** An independent copy of other: a fresh array holding the same cells. */
    constructor Copy(other: HexBoard)
      requires other.Valid()
      ensures size == other.size && Valid() && fresh(board)
      ensures View() == other.View()
    {
      var n := other.size;
      size := n;
      var b := new int[n, n];
      for i := 0 to n
        invariant forall r, c | 0 <= r < i && 0 <= c < n :: b[r, c] == other.board[r, c]
      {
        for j := 0 to n
          invariant forall r, c | 0 <= r < i && 0 <= c < n :: b[r, c] == other.board[r, c]
          invariant forall c | 0 <= c < j :: b[i, c] == other.board[i, c]
        {
          b[i, j] := other.board[i, j];
        }
      }
      board := b;
      new;
      GridExt(View(), other.View());
    }

    /** A deep copy of this board. */
    method Clone() returns (b: HexBoard)
      requires Valid()
      ensures fresh(b) && fresh(b.board) && b.Valid() && b.size == size
      ensures b.View() == View()
    {
      b := new HexBoard.Copy(this);
    }

    /** Puts playerId on (row, col) when that cell is empty and reports whether it did; a taken cell stays as it was. */
    method PlacePiece(row: int, col: int, playerId: int) returns (placed: bool)
      requires Valid() && InBounds(size, (row, col))
      modifies board
      ensures placed <==> At(old(View()), (row, col)) == 0
      ensures View() == if placed then Place(old(View()), (row, col), playerId) else old(View())
    {
      ghost var g := View();
      if board[row, col] == 0 {
        board[row, col] := playerId;
        placed := true;
        GridExt(View(), Place(g, (row, col), playerId));
      } else {
        placed := false;
      }
    }

    /** The empty cells, row by row and left to right within a row. */
    method GetPossibleMoves() returns (moves: seq<Cell>)
      requires Valid()
      ensures moves == PossibleMoves(View())
    {
      ghost var g := View();
      moves := [];
      for i := 0 to size
        invariant moves == MovesUpTo(g, i)
      {
        for j := 0 to size
          invariant moves == MovesUpTo(g, i) + RowMoves(g, i, j)
        {
          if board[i, j] == 0 {
            moves := moves + [(i, j)];
          }
        }
      }
    }

    /** The cells of playerId's start edge that hold playerId, in edge order. */
    method StartNodes(playerId: int) returns (nodes: seq<Cell>)
      requires Valid()
      ensures nodes == StartList(View(), playerId, size)
    {
      ghost var g := View();
      nodes := [];
      for k := 0 to size
        invariant nodes == StartList(g, playerId, k)
      {
        var c := EdgeCell(playerId, k);
        if board[c.0, c.1] == playerId {
          nodes := nodes + [c];
        }
      }
    }

    /**
     * One expansion step of the connection search: every neighbour of cell that holds playerId and is not yet
     * visited is marked visited and queued, in direction order.
     */
    method Expand(playerId: int, cell: Cell, queue: seq<Cell>, visited: set<Cell>)
      returns (queue': seq<Cell>, visited': set<Cell>)
      requires Valid()
      ensures ExpandPost(View(), playerId, cell, queue, visited, queue', visited')
      ensures queue'[|queue|..] == FreshNbrs(View(), Own(playerId), cell, visited, |Directions|)
    {
      ghost var g := View();
      queue', visited' := queue, visited;
      for k := 0 to |Directions|
        invariant ExpandInv(g, playerId, cell, queue, visited, k, queue', visited')
        invariant queue'[|queue|..] == FreshNbrs(g, Own(playerId), cell, visited, k)
      {
        var next := Shift(cell, Directions[k]);
        if 0 <= next.0 < size && 0 <= next.1 < size && board[next.0, next.1] == playerId && next !in visited' {
          ExpandAdd(g, playerId, cell, queue, visited, k, queue', visited');
          assert (queue' + [next])[|queue|..] == queue'[|queue|..] + [next];
          visited' := visited' + {next};
          queue' := queue' + [next];
        } else {
          ExpandSkip(g, playerId, cell, queue, visited, k, queue', visited');
        }
      }
      NbrsOfCovered(g, Own(playerId), cell, visited');
    }

    /** One round of the connection search: the head of the queue is a target, or it is expanded. */
    method Visit(playerId: int, ghost done: set<Cell>, queue: seq<Cell>, visited: set<Cell>)
      returns (hit: bool, queue': seq<Cell>, visited': set<Cell>)
      requires Valid() && queue != [] && SearchInv(View(), playerId, done, visited)
      requires visited == done + Elems(queue) && FreshQueue(done, queue)
      ensures hit ==> Wins(View(), playerId)
      ensures !hit ==> SearchInv(View(), playerId, done + {queue[0]}, visited')
      ensures !hit ==> visited' == done + {queue[0]} + Elems(queue') && |visited'| <= size * size
      ensures !hit ==> FreshQueue(done + {queue[0]}, queue') && |queue'| <= size * size
      ensures !hit ==> |visited| < |visited'| || (visited' == visited && |queue'| < |queue|)
    {
      var cell := queue[0];
      if IsTarget(playerId, size, cell) {
        assert cell in Elems(queue);
        SearchHit(View(), playerId, done, visited, cell);
        return true, queue, visited;
      }
      hit := false;
      queue', visited' := Expand(playerId, cell, queue[1..], visited);
      SearchPop(View(), playerId, done, queue, visited, queue', visited');
      QueueFresh(View(), playerId, done, queue, visited, queue', visited');
    }

    /**
     * Breadth-first search from playerId's start edge through playerId's stones; true as soon as a cell of the
     * target edge comes off the queue.
     */
    method CheckConnection(playerId: int) returns (connected: bool)
      requires Valid()
      ensures connected == Wins(View(), playerId)
    {
      ghost var g := View();
      SeedsInGrid(g, playerId);
      var queue := StartNodes(playerId);
      var visited := Elems(queue);
      ghost var done: set<Cell> := {};
      SearchStart(g, playerId);
      InGridCard(size, visited);
      StartListDistinct(g, playerId, size);
      QueueBound(queue, visited);
      while queue != []
        invariant SearchInv(g, playerId, done, visited)
        invariant visited == done + Elems(queue)
        invariant FreshQueue(done, queue)
        invariant |visited| <= size * size && |queue| <= size * size
        decreases size * size - |visited|, |queue|
      {
        var hit, queue', visited' := Visit(playerId, done, queue, visited);
        if hit {
          return true;
        }
        queue, visited, done := queue', visited', done + {queue[0]};
      }
      SearchDone(g, playerId, done);
      return false;
    }
  }
}
