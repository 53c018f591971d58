/** Cells, the six hexagonal directions and grids of cell values, shared by the board and the player. */
module Hex {

  datatype Option<+T> = None | Some(value: T)

  /** A (row, column) coordinate. */
  type Cell = (int, int)

  /** The six neighbour offsets, in the order both board.py and player.py list them. */
  const Directions: seq<(int, int)> := [(-1, 0), (-1, 1), (0, -1), (0, 1), (1, -1), (1, 0)]

  function Shift(c: Cell, d: (int, int)): Cell
  {
    (c.0 + d.0, c.1 + d.1)
  }

  /** b is one of the six hexagonal neighbours of a. */
  predicate Adjacent(a: Cell, b: Cell)
  {
    (b.0 - a.0, b.1 - a.1) in Directions
  }

  predicate InBounds(n: int, c: Cell)
  {
    0 <= c.0 < n && 0 <= c.1 < n
  }

  /** The grid as rows of cell values: 0 is empty, any other value is a player's stone. */
  type Grid = seq<seq<int>>

  predicate Square(g: Grid)
  {
    forall i | 0 <= i < |g| :: |g[i]| == |g|
  }

  function At(g: Grid, c: Cell): int
    requires Square(g) && InBounds(|g|, c)
  {
    g[c.0][c.1]
  }

  /** The grid with cell c overwritten by id. */
  function Place(g: Grid, c: Cell, id: int): (h: Grid)
    requires Square(g) && InBounds(|g|, c)
    ensures Square(h) && |h| == |g|
    ensures At(h, c) == id
    ensures forall x | InBounds(|g|, x) && x != c :: At(h, x) == At(g, x)
  {
    g[c.0 := g[c.0][c.1 := id]]
  }

  /** The n-by-n grid of empty cells. */
  function EmptyGrid(n: nat): (g: Grid)
    ensures Square(g) && |g| == n
    ensures forall c | InBounds(n, c) :: At(g, c) == 0
  {
    seq(n, _ => seq(n, _ => 0))
  }

  lemma {:induction false} SubsetCard<T>(A: set<T>, B: set<T>)
    requires A <= B
    ensures |A| <= |B|
  {
    if A != {} {
      var x :| x in A;
      SubsetCard(A - {x}, B - {x});
    }
  }

  lemma ProperSubsetCard<T>(A: set<T>, B: set<T>)
    requires A < B
    ensures |A| < |B|
  {
    assert B - A != {};
    var x :| x in B - A;
    SubsetCard(A, B - {x});
  }

  /** Every cell of S lies on the n-by-n board. */
  predicate InGrid(n: int, S: set<Cell>)
  {
    forall c | c in S :: InBounds(n, c)
  }

  /** An n-by-n board holds at most n * n distinct cells. */
  lemma InGridCard(n: nat, S: set<Cell>)
    requires InGrid(n, S)
    ensures |S| <= n * n
  {
    forall c | c in S ensures c in AllCells(n) {
      AllCellsIn(n, c);
    }
    AllCellsCard(n);
    SubsetCard(S, AllCells(n));
  }

  /** Every cell of an n-by-n board. */
  function AllCells(n: int): set<Cell>
  {
    set r, c | 0 <= r < n && 0 <= c < n :: (r, c)
  }

  lemma AllCellsIn(n: int, c: Cell)
    ensures c in AllCells(n) <==> InBounds(n, c)
  {
    if InBounds(n, c) {
      assert c == (c.0, c.1);
    }
  }

  /** The hexagonal adjacency is symmetric: the six offsets are closed under negation. */
  lemma AdjacentSymmetric(a: Cell, b: Cell)
    requires Adjacent(a, b)
    ensures Adjacent(b, a)
  {
  }

  function RowCells(r: int, n: int): set<Cell>
  {
    set c | 0 <= c < n :: (r, c)
  }

  function RowsCells(m: int, n: int): set<Cell>
  {
    set r, c | 0 <= r < m && 0 <= c < n :: (r, c)
  }

  lemma {:induction false} RowCellsCard(r: int, n: nat)
    ensures |RowCells(r, n)| == n
  {
    if n > 0 {
      RowCellsCard(r, n - 1);
      assert RowCells(r, n) == RowCells(r, n - 1) + {(r, n - 1)};
    }
  }

  lemma RowsCellsIn(m: int, n: int, x: Cell)
    ensures x in RowsCells(m, n) <==> 0 <= x.0 < m && 0 <= x.1 < n
  {
    if 0 <= x.0 < m && 0 <= x.1 < n {
      assert x == (x.0, x.1);
    }
  }

  lemma RowCellsIn(r: int, n: int, x: Cell)
    ensures x in RowCells(r, n) <==> x.0 == r && 0 <= x.1 < n
  {
    if x.0 == r && 0 <= x.1 < n {
      assert x == (r, x.1);
    }
  }

  lemma {:induction false} RowsCellsCard(m: nat, n: nat)
    ensures |RowsCells(m, n)| == m * n
  {
    if m > 0 {
      RowsCellsCard(m - 1, n);
      RowCellsCard(m - 1, n);
      var prev, last := RowsCells(m - 1, n), RowCells(m - 1, n);
      forall x
        ensures x in RowsCells(m, n) <==> x in prev + last
        ensures x !in prev * last
      {
        RowsCellsIn(m, n, x);
        RowsCellsIn(m - 1, n, x);
        RowCellsIn(m - 1, n, x);
      }
      assert RowsCells(m, n) == prev + last;
      assert prev * last == {};
      assert m * n == (m - 1) * n + n;
    }
  }

  /** An n-by-n board has exactly n * n cells. */
  lemma AllCellsCard(n: nat)
    ensures |AllCells(n)| == n * n
  {
    RowsCellsCard(n, n);
    assert AllCells(n) == RowsCells(n, n);
  }

  /** Two square grids of the same size that agree on every cell are equal. */
  lemma GridExt(g: Grid, h: Grid)
    requires Square(g) && Square(h) && |g| == |h|
    requires forall c | InBounds(|g|, c) :: At(g, c) == At(h, c)
    ensures g == h
  {
    forall i | 0 <= i < |g| ensures g[i] == h[i] {
      forall j | 0 <= j < |g| ensures g[i][j] == h[i][j] {
        assert At(g, (i, j)) == At(h, (i, j));
      }
    }
  }

  predicate Distinct<T(==)>(s: seq<T>)
  {
    forall i, j | 0 <= i < j < |s| :: s[i] != s[j]
  }

  function Elems<T>(s: seq<T>): set<T>
  {
    set x | x in s
  }

  lemma ElemsTail<T>(s: seq<T>)
    requires s != []
    ensures Elems(s) == {s[0]} + Elems(s[1..])
  {
    assert s == [s[0]] + s[1..];
  }

  lemma ElemsSplit<T>(s: seq<T>, k: nat)
    requires k <= |s|
    ensures Elems(s) == Elems(s[..k]) + Elems(s[k..])
  {
    assert s == s[..k] + s[k..];
  }

  lemma DistinctTail<T>(s: seq<T>)
    requires s != [] && Distinct(s)
    ensures Distinct(s[1..]) && s[0] !in Elems(s[1..])
  {
    var t := s[1..];
    forall i, j | 0 <= i < j < |t| ensures t[i] != t[j] {
      assert t[i] == s[i + 1] && t[j] == s[j + 1];
    }
    forall x | x in Elems(t) ensures x != s[0] {
      var k :| 0 <= k < |t| && t[k] == x;
      assert t[k] == s[k + 1];
    }
  }

  lemma DistinctConcat<T>(a: seq<T>, b: seq<T>)
    requires Distinct(a) && Distinct(b) && Elems(a) * Elems(b) == {}
    ensures Distinct(a + b)
  {
    forall i, j | 0 <= i < j < |a + b| ensures (a + b)[i] != (a + b)[j] {
      if j < |a| {
        assert (a + b)[i] == a[i] && (a + b)[j] == a[j];
      } else if i < |a| {
        assert (a + b)[i] == a[i] && (a + b)[j] == b[j - |a|];
        assert a[i] in Elems(a) && b[j - |a|] in Elems(b) && a[i] !in Elems(a) * Elems(b);
      } else {
        assert (a + b)[i] == b[i - |a|] && (a + b)[j] == b[j - |a|];
      }
    }
  }

  /** A sequence without repetitions has as many elements as its set. */
  lemma {:induction false} DistinctCard<T>(s: seq<T>)
    requires Distinct(s)
    ensures |Elems(s)| == |s|
  {
    if s != [] {
      var t := s[..|s| - 1];
      assert Distinct(t);
      DistinctCard(t);
      assert Elems(s) == Elems(t) + {s[|s| - 1]};
      assert s[|s| - 1] !in Elems(t);
    }
  }
}
