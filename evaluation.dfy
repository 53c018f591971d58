/**
 * The static evaluation of a position for the minimax player: the estimated cost of connecting for each side, the
 * share of the central square each side holds, and their weighted sum.
 */
module Evaluation {
  import opened Hex
  import opened Graphs
  import opened HexGraph
  import opened Board
  import opened Groups
  import opened Scores

  /** The opponent of player p: 1 for player 2 and 2 for every other id. */
  function Opponent(p: int): (q: int)
    ensures q != p && (q == 1 || q == 2)
  {
    if p == 2 then 1 else 2
  }

  /** Players 1 and 2 are each other's opponents. */
  lemma OpponentInvolutive(p: int)
    requires p == 1 || p == 2
    ensures Opponent(Opponent(p)) == p
  {
  }

  // Shortest path

  /**
   * The number of steps of a shortest walk from a cell of S to a cell of E that steps only onto cells not holding
   * blocked; the board size when E cannot be reached.
   */
  function ShortestPath(g: Grid, blocked: int, S: set<Cell>, E: set<Cell>): nat
    requires Square(g)
  {
    match Hit(GridGraph(g, Avoid(blocked)), S, E)
    case Some(k) => k
    case None => |g|
  }

  /** The walks ShortestPath measures: from S, each step to an adjacent cell on the board not holding blocked. */
  ghost predicate FreeWalk(g: Grid, blocked: int, S: set<Cell>, E: set<Cell>, w: seq<Cell>)
    requires Square(g)
  {
    IsHexPath(g, Avoid(blocked), S, w) && w[|w| - 1] in E
  }

  /**
   * ShortestPath is the length of a shortest free walk from S to E: no free walk is shorter, one has exactly that
   * length, and when no free walk exists the result is the board size.
   */
  lemma ShortestPathIsShortest(g: Grid, blocked: int, S: set<Cell>, E: set<Cell>)
    requires Square(g) && InGrid(|g|, S)
    ensures forall w | FreeWalk(g, blocked, S, E, w) :: ShortestPath(g, blocked, S, E) <= |w| - 1
    ensures (exists w :: FreeWalk(g, blocked, S, E, w)) ==>
              exists w :: FreeWalk(g, blocked, S, E, w) && |w| - 1 == ShortestPath(g, blocked, S, E)
    ensures (forall w :: !FreeWalk(g, blocked, S, E, w)) ==> ShortestPath(g, blocked, S, E) == |g|
  {
    var G := GridGraph(g, Avoid(blocked));
    HitIsShortestWalk(G, S, E);
    forall w | FreeWalk(g, blocked, S, E, w) ensures Hit(G, S, E).Some? && Hit(G, S, E).value <= |w| - 1 {
      HexPathIsWalk(g, Avoid(blocked), S, w);
    }
    if Hit(G, S, E).Some? {
      var w :| IsWalk(G, S, w) && w[|w| - 1] in E && |w| - 1 == Hit(G, S, E).value;
      WalkIsHexPath(g, Avoid(blocked), S, w);
      assert FreeWalk(g, blocked, S, E, w);
    }
  }

  /** A start cell that is already an end cell gives distance 0. */
  lemma ShortestPathZero(g: Grid, blocked: int, S: set<Cell>, E: set<Cell>)
    requires Square(g) && S * E != {}
    ensures ShortestPath(g, blocked, S, E) == 0
  {
    HitAt(GridGraph(g, Avoid(blocked)), S, E, 0);
  }

  // Cost estimate

  /** Where p's connection starts: column 0 for player 1, row 0 for every other id. */
  function StartSide(n: nat, p: int): seq<Cell>
  {
    if p == 1 then seq(n, i => (i, 0)) else seq(n, j => (0, j))
  }

  /** Where p's connection ends: column n - 1 for player 1, row n - 1 for every other id. */
  function EndSide(n: nat, p: int): seq<Cell>
  {
    if p == 1 then seq(n, i => (i, n - 1)) else seq(n, j => (n - 1, j))
  }

  /** Some cell of K lies on p's start side. */
  predicate Touches(p: int, K: set<Cell>)
  {
    exists pos | pos in K :: if p == 1 then pos.1 == 0 else pos.0 == 0
  }

  /** The least of n and the elements of ds, keeping the earlier value on ties. */
  function CapMin(n: int, ds: seq<int>): int
  {
    if ds == [] then n
    else
      var m := CapMin(n, ds[..|ds| - 1]);
      if ds[|ds| - 1] < m then ds[|ds| - 1] else m
  }

  /** CapMin is a lower bound of n and of every element, and is n or one of the elements. */
  lemma {:induction false} CapMinIsLeast(n: int, ds: seq<int>)
    ensures CapMin(n, ds) <= n
    ensures forall i | 0 <= i < |ds| :: CapMin(n, ds) <= ds[i]
    ensures CapMin(n, ds) == n || exists i | 0 <= i < |ds| :: CapMin(n, ds) == ds[i]
  {
    if ds != [] {
      var init := ds[..|ds| - 1];
      CapMinIsLeast(n, init);
      assert forall i | 0 <= i < |init| :: init[i] == ds[i];
    }
  }

  /** What one group contributes: its distance to p's end side if it touches p's start side, else the board size. */
  function GroupCost(g: Grid, blocked: int, p: int, K: set<Cell>): int
    requires Square(g)
  {
    if Touches(p, K) then ShortestPath(g, blocked, K, Elems(EndSide(|g|, p))) else |g|
  }

  function GroupCosts(g: Grid, blocked: int, p: int, cs: seq<set<Cell>>): (ds: seq<int>)
    requires Square(g)
    ensures |ds| == |cs|
  {
    seq(|cs|, i requires 0 <= i < |cs| => GroupCost(g, blocked, p, cs[i]))
  }

  /**
   * The cost me estimates for p: with no stones of p on the board, the distance from p's start side to p's end side;
   * otherwise the least distance from a group of p touching the start side, at most the board size. Cells holding
   * me's opponent block the walk, whichever player p is.
   */
  function EstimateCost(g: Grid, me: int, p: int): int
    requires Square(g)
  {
    var cs := Components(g, p);
    if cs == [] then ShortestPath(g, Opponent(me), Elems(StartSide(|g|, p)), Elems(EndSide(|g|, p)))
    else CapMin(|g|, GroupCosts(g, Opponent(me), p, cs))
  }

  lemma StartSideIn(n: nat, p: int)
    ensures InGrid(n, Elems(StartSide(n, p)))
  {
  }

  /**
   * With stones of p on the board, the estimate is at most the board size, at most the distance of every group of p
   * touching the start side, and equal to the board size or to one such distance.
   */
  lemma EstimateCostIsLeast(g: Grid, me: int, p: int)
    requires Square(g) && Components(g, p) != []
    ensures EstimateCost(g, me, p) <= |g|
    ensures forall K | K in Components(g, p) && Touches(p, K) ::
              EstimateCost(g, me, p) <= ShortestPath(g, Opponent(me), K, Elems(EndSide(|g|, p)))
    ensures EstimateCost(g, me, p) == |g| ||
            exists K | K in Components(g, p) && Touches(p, K) ::
              EstimateCost(g, me, p) == ShortestPath(g, Opponent(me), K, Elems(EndSide(|g|, p)))
  {
    var cs := Components(g, p);
    var ds := GroupCosts(g, Opponent(me), p, cs);
    CapMinIsLeast(|g|, ds);
    forall K | K in cs && Touches(p, K)
      ensures EstimateCost(g, me, p) <= ShortestPath(g, Opponent(me), K, Elems(EndSide(|g|, p)))
    {
      var i :| 0 <= i < |cs| && cs[i] == K;
      assert ds[i] == GroupCost(g, Opponent(me), p, K);
    }
    if EstimateCost(g, me, p) != |g| {
      var i :| 0 <= i < |ds| && EstimateCost(g, me, p) == ds[i];
      assert ds[i] == GroupCost(g, Opponent(me), p, cs[i]);
      assert cs[i] in cs;
    }
  }

  // Center control

  /** The central square spans rows and columns CenterLo(n) .. CenterHi(n) - 1. */
  function CenterLo(n: nat): int
  {
    var lo := n / 2 - n / 3;
    if 0 < lo then lo else 0
  }

  function CenterHi(n: nat): int
  {
    var hi := n / 2 + n / 3 + 1;
    if n < hi then n else hi
  }

  /**
   * The central square lies on the board, is non-empty on every non-empty board, and its side is at most
   * 2 * (n / 3) + 1.
   */
  lemma CenterInside(n: nat)
    ensures 0 <= CenterLo(n) <= CenterHi(n) <= n
    ensures n > 0 ==> CenterLo(n) < CenterHi(n)
    ensures CenterHi(n) - CenterLo(n) <= 2 * (n / 3) + 1
  {
  }

  /** The number of cells (i, lo) .. (i, j - 1) holding id. */
  function CountRow(g: Grid, id: int, i: int, lo: int, j: int): nat
    requires Square(g) && 0 <= i < |g| && 0 <= lo <= j <= |g|
    decreases j - lo
  {
    if j == lo then 0 else CountRow(g, id, i, lo, j - 1) + (if At(g, (i, j - 1)) == id then 1 else 0)
  }

  /** The number of cells holding id in rows lo .. i - 1 and columns lo .. hi - 1. */
  function CountBox(g: Grid, id: int, lo: int, i: int, hi: int): nat
    requires Square(g) && 0 <= lo <= i <= |g| && lo <= hi <= |g|
    decreases i - lo
  {
    if i == lo then 0 else CountBox(g, id, lo, i - 1, hi) + CountRow(g, id, i - 1, lo, hi)
  }

  /** The number of cells in rows lo .. i - 1 and columns lo .. hi - 1. */
  function BoxCells(lo: int, i: int, hi: int): int
    requires lo <= i
    decreases i - lo
  {
    if i == lo then 0 else BoxCells(lo, i - 1, hi) + (hi - lo)
  }

  lemma {:induction false} BoxCellsProduct(lo: int, i: int, hi: int)
    requires lo <= i
    ensures BoxCells(lo, i, hi) == (i - lo) * (hi - lo)
    decreases i - lo
  {
    if i > lo {
      BoxCellsProduct(lo, i - 1, hi);
      assert (i - lo) * (hi - lo) == (i - 1 - lo) * (hi - lo) + (hi - lo);
    }
  }

  /** Counts taken over the whole central square give the center term. */
  lemma CenterControlOf(g: Grid, me: int, opp: int, lo: int, hi: int, cMe: int, cOpp: int, total: int)
    requires Square(g) && lo == CenterLo(|g|) && hi == CenterHi(|g|)
    requires lo <= hi <= |g| && cMe == CountBox(g, me, lo, hi, hi) && cOpp == CountBox(g, opp, lo, hi, hi)
    requires total == BoxCells(lo, hi, hi)
    ensures Share(cMe, cOpp, total) == CenterControl(g, me, opp)
  {
    BoxCellsProduct(lo, hi, hi);
  }

  lemma {:induction false} CountRowBound(g: Grid, id: int, id': int, i: int, lo: int, j: int)
    requires Square(g) && 0 <= i < |g| && 0 <= lo <= j <= |g| && id != id'
    ensures CountRow(g, id, i, lo, j) + CountRow(g, id', i, lo, j) <= j - lo
    decreases j - lo
  {
    if j > lo {
      CountRowBound(g, id, id', i, lo, j - 1);
    }
  }

  lemma {:induction false} CountBoxBound(g: Grid, id: int, id': int, lo: int, i: int, hi: int)
    requires Square(g) && 0 <= lo <= i <= |g| && lo <= hi <= |g| && id != id'
    ensures CountBox(g, id, lo, i, hi) + CountBox(g, id', lo, i, hi) <= (i - lo) * (hi - lo)
    decreases i - lo
  {
    if i > lo {
      CountBoxBound(g, id, id', lo, i - 1, hi);
      CountRowBound(g, id, id', i - 1, lo, hi);
      assert (i - lo) * (hi - lo) == (i - 1 - lo) * (hi - lo) + (hi - lo);
    }
  }

  /** The number of cells of the central square. */
  function CenterCells(n: nat): int
  {
    var lo, hi := CenterLo(n), CenterHi(n);
    if lo < hi then (hi - lo) * (hi - lo) else 0
  }

  /** (a - b) / t as a real, or 0 when t is not positive. */
  function Share(a: int, b: int, t: int): real
  {
    if t > 0 then (a - b) as real / t as real else 0.0
  }

  /** The share of two disjoint counts within a total lies between -1 and 1. */
  lemma ShareRange(a: int, b: int, t: int)
    requires 0 <= a && 0 <= b && a + b <= t
    ensures -1.0 <= Share(a, b, t) <= 1.0
  {
    if t > 0 {
      var q := (a - b) as real / t as real;
      assert q * t as real == (a - b) as real;
    }
  }

  lemma ShareSwap(a: int, b: int, t: int)
    ensures Share(b, a, t) == -Share(a, b, t)
  {
    if t > 0 {
      var q := (a - b) as real / t as real;
      assert q * t as real == (a - b) as real;
      assert (-q) * t as real == (b - a) as real;
    }
  }

  /** The difference between the central cells held by me and by opp, as a share of the central square; 0 if it is empty. */
  function CenterControl(g: Grid, me: int, opp: int): real
    requires Square(g)
  {
    var lo, hi := CenterLo(|g|), CenterHi(|g|);
    CenterInside(|g|);
    Share(CountBox(g, me, lo, hi, hi), CountBox(g, opp, lo, hi, hi), CenterCells(|g|))
  }

  /** The center term lies between -1 and 1 when the two players differ. */
  lemma CenterControlRange(g: Grid, me: int, opp: int)
    requires Square(g) && me != opp
    ensures -1.0 <= CenterControl(g, me, opp) <= 1.0
  {
    var lo, hi := CenterLo(|g|), CenterHi(|g|);
    CenterInside(|g|);
    CountBoxBound(g, me, opp, lo, hi, hi);
    ShareRange(CountBox(g, me, lo, hi, hi), CountBox(g, opp, lo, hi, hi), CenterCells(|g|));
  }

  /** Swapping the players negates the center term. */
  lemma CenterControlSwap(g: Grid, me: int, opp: int)
    requires Square(g)
    ensures CenterControl(g, opp, me) == -CenterControl(g, me, opp)
  {
    var lo, hi := CenterLo(|g|), CenterHi(|g|);
    CenterInside(|g|);
    ShareSwap(CountBox(g, me, lo, hi, hi), CountBox(g, opp, lo, hi, hi), CenterCells(|g|));
  }

  // Evaluation

  /**
   * The value of a position for me: 0 once me is connected, minus infinity once the opponent is, and otherwise
   * me's cost estimate minus 0.8 times the opponent's plus a hundredth of the center term.
   */
  function Evaluate(g: Grid, me: int): Score
    requires Square(g)
  {
    if Wins(g, me) then Fin(0.0)
    else if Wins(g, Opponent(me)) then NegInf
    else
      Fin(EstimateCost(g, me, me) as real - 0.8 * EstimateCost(g, me, Opponent(me)) as real
          + 0.01 * CenterControl(g, me, Opponent(me)))
  }

  /** The evaluation is never plus infinity, and is minus infinity exactly when only the opponent is connected. */
  lemma EvaluateRange(g: Grid, me: int)
    requires Square(g)
    ensures Evaluate(g, me) != PosInf
    ensures Evaluate(g, me) == NegInf <==> !Wins(g, me) && Wins(g, Opponent(me))
  {
  }
}
