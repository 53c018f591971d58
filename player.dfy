/**
 * The minimax player of player.py. The class PlayerMinimax runs the loops of player.py on a HexBoard object; each
 * of its methods is proved to compute the specification function of the same name in Evaluation or Search, so what is
 * proved about those functions holds of the player.
 */
module Player {
  import opened Hex
  import opened Graphs
  import opened HexGraph
  import opened Board
  import opened Groups
  import opened Scores
  import opened Evaluation
  import opened Search

  // The exploration of one group

  /**
   * The state of the depth-first exploration of the group K of seed: comp holds the cells explored so far, all of
   * them newly visited; the stack holds cells of K still to look at, and every neighbour of an explored cell is
   * explored or on the stack.
   */
  ghost predicate ExploreInv(g: Grid, p: int, seed: Cell, visited0: set<Cell>, visited: set<Cell>, comp: set<Cell>,
                             stack: seq<Cell>)
    requires Square(g)
  {
    var G, K := GridGraph(g, Own(p)), Group(g, p, seed);
    && comp <= K
    && Elems(stack) <= K
    && visited == visited0 + comp
    && visited0 * K == {}
    && Nbrs(G, comp) <= comp + Elems(stack)
    && seed in comp + Elems(stack)
  }

  lemma ExploreStart(g: Grid, p: int, seed: Cell, visited0: set<Cell>)
    requires Square(g) && visited0 * Group(g, p, seed) == {}
    ensures ExploreInv(g, p, seed, visited0, visited0, {}, [seed])
  {
    ClosureClosed(GridGraph(g, Own(p)), {seed});
    assert Elems([seed]) == {seed};
  }

  /** A popped cell that is already visited is already explored. */
  lemma ExploreSkip(g: Grid, p: int, seed: Cell, visited0: set<Cell>, visited: set<Cell>, comp: set<Cell>,
                    stack: seq<Cell>)
    requires Square(g) && ExploreInv(g, p, seed, visited0, visited, comp, stack) && stack != []
    requires stack[|stack| - 1] in visited
    ensures ExploreInv(g, p, seed, visited0, visited, comp, stack[..|stack| - 1])
  {
    var x, rest := stack[|stack| - 1], stack[..|stack| - 1];
    assert stack == rest + [x];
    assert Elems(stack) == Elems(rest) + {x};
    assert x in comp;
  }

  /** Exploring a popped unvisited cell and pushing its neighbours of the same colour keeps the state. */
  lemma ExploreAdd(g: Grid, p: int, seed: Cell, visited0: set<Cell>, visited: set<Cell>, comp: set<Cell>,
                   stack: seq<Cell>, stack': seq<Cell>)
    requires Square(g) && InBounds(|g|, seed) && ExploreInv(g, p, seed, visited0, visited, comp, stack) && stack != []
    requires stack[|stack| - 1] !in visited
    requires |stack| - 1 <= |stack'| && stack'[..|stack| - 1] == stack[..|stack| - 1]
    requires Elems(stack'[|stack| - 1..]) == NbrsOf(g, Own(p), stack[|stack| - 1])
    ensures ExploreInv(g, p, seed, visited0, visited + {stack[|stack| - 1]}, comp + {stack[|stack| - 1]}, stack')
  {
    var x := stack[|stack| - 1];
    ElemsSplit(stack, |stack| - 1);
    assert stack[|stack| - 1..] == [x];
    ElemsSplit(stack', |stack| - 1);
    GroupNbrs(g, p, seed, x);
    NbrsAdd(GridGraph(g, Own(p)), comp, x);
  }

  /** The neighbours of a cell of a group, and its edges in the graph, are those of the same colour; they are in the group. */
  lemma GroupNbrs(g: Grid, p: int, seed: Cell, x: Cell)
    requires Square(g) && InBounds(|g|, seed) && x in Group(g, p, seed)
    ensures x in GridGraph(g, Own(p)) && GridGraph(g, Own(p))[x] == NbrsOf(g, Own(p), x)
    ensures NbrsOf(g, Own(p), x) <= Group(g, p, seed)
  {
    var G := GridGraph(g, Own(p));
    assert InGrid(|g|, {seed});
    GridClosure(g, Own(p), {seed}, x);
    GridEdge(g, Own(p), x);
    forall y | y in NbrsOf(g, Own(p), x) ensures y in Group(g, p, seed) {
      ClosureStep(G, {seed}, x, y);
    }
  }

  /** With the stack empty, the explored cells are the whole group. */
  lemma ExploreDone(g: Grid, p: int, seed: Cell, visited0: set<Cell>, visited: set<Cell>, comp: set<Cell>)
    requires Square(g) && ExploreInv(g, p, seed, visited0, visited, comp, [])
    ensures comp == Group(g, p, seed)
  {
    assert Elems<Cell>([]) == {};
    ClosureLeast(GridGraph(g, Own(p)), {seed}, comp);
  }

  /** Every component lies on the board. */
  lemma ComponentsInGrid(g: Grid, p: int)
    requires Square(g)
    ensures forall k | 0 <= k < |Components(g, p)| :: InGrid(|g|, Components(g, p)[k])
  {
    ComponentsAreGroups(g, p);
  }

  // The breadth-first search of shortest_path

  /** A queue entry: a cell and its distance from the start cells. */
  type Entry = (Cell, nat)

  function QueueCells(q: seq<Entry>): set<Cell>
  {
    set i | 0 <= i < |q| :: q[i].0
  }

  /** The cells of cs in order, each queued at distance d. */
  function Tag(cs: seq<Cell>, d: nat): seq<Entry>
  {
    seq(|cs|, i requires 0 <= i < |cs| => (cs[i], d))
  }

  lemma TagSnoc(cs: seq<Cell>, c: Cell, d: nat)
    ensures Tag(cs + [c], d) == Tag(cs, d) + [(c, d)]
  {
    assert forall i | 0 <= i < |cs| :: Tag(cs + [c], d)[i] == Tag(cs, d)[i];
  }

  lemma TagCells(cs: seq<Cell>, d: nat)
    ensures QueueCells(Tag(cs, d)) == Elems(cs)
  {
    forall x | x in Elems(cs) ensures x in QueueCells(Tag(cs, d)) {
      var i :| 0 <= i < |cs| && cs[i] == x;
      assert Tag(cs, d)[i].0 == x;
    }
  }

  /** The cells queued at distance k. */
  function AtDist(q: seq<Entry>, k: int): set<Cell>
  {
    set i | 0 <= i < |q| && q[i].1 == k :: q[i].0
  }

  lemma AtDistNone(q: seq<Entry>, k: int)
    requires forall i | 0 <= i < |q| :: q[i].1 != k
    ensures AtDist(q, k) == {}
  {
  }

  lemma AtDistAll(q: seq<Entry>, k: int)
    requires forall i | 0 <= i < |q| :: q[i].1 == k
    ensures AtDist(q, k) == QueueCells(q)
  {
  }

  lemma QueueConcat(q: seq<Entry>, r: seq<Entry>, k: int)
    ensures QueueCells(q + r) == QueueCells(q) + QueueCells(r)
    ensures AtDist(q + r, k) == AtDist(q, k) + AtDist(r, k)
  {
    forall x | x in QueueCells(q) ensures x in QueueCells(q + r) {
      var i :| 0 <= i < |q| && q[i].0 == x;
      assert (q + r)[i] == q[i];
    }
    forall x | x in AtDist(q, k) ensures x in AtDist(q + r, k) {
      var i :| 0 <= i < |q| && q[i].1 == k && q[i].0 == x;
      assert (q + r)[i] == q[i];
    }
    forall x | x in QueueCells(q + r) ensures x in QueueCells(q) + QueueCells(r) {
      var i :| 0 <= i < |q + r| && (q + r)[i].0 == x;
      if i >= |q| {
        assert r[i - |q|] == (q + r)[i];
      }
    }
    forall x | x in QueueCells(r) ensures x in QueueCells(q + r) {
      var i :| 0 <= i < |r| && r[i].0 == x;
      assert (q + r)[|q| + i] == r[i];
    }
    forall x | x in AtDist(q + r, k) ensures x in AtDist(q, k) + AtDist(r, k) {
      var i :| 0 <= i < |q + r| && (q + r)[i].1 == k && (q + r)[i].0 == x;
      if i >= |q| {
        assert r[i - |q|] == (q + r)[i];
      }
    }
    forall x | x in AtDist(r, k) ensures x in AtDist(q + r, k) {
      var i :| 0 <= i < |r| && r[i].1 == k && r[i].0 == x;
      assert (q + r)[|q| + i] == r[i];
    }
  }

  lemma QueueSnoc(q: seq<Entry>, e: Entry, k: int)
    ensures QueueCells(q + [e]) == QueueCells(q) + {e.0}
    ensures AtDist(q + [e], k) == AtDist(q, k) + (if e.1 == k then {e.0} else {})
  {
    QueueConcat(q, [e], k);
    assert [e][0] == e;
  }

  /** Queuing a start cell at distance 0 moves it from the cells still to queue to the queued ones. */
  lemma StartQueueStep(S: set<Cell>, rest: set<Cell>, q: seq<Entry>, c: Cell)
    requires rest <= S && QueueCells(q) == S - rest && c in rest
    requires forall k | 0 <= k < |q| :: q[k].1 == 0
    ensures QueueCells(q + [(c, 0)]) == S - (rest - {c})
    ensures forall k | 0 <= k < |q + [(c, 0)]| :: (q + [(c, 0)])[k].1 == 0
  {
    QueueSnoc(q, (c, 0), 0);
  }

  /**
   * The state of the expansion of cell after the first k directions: added holds, at distance dist + 1, the open
   * neighbours found that were not visited before, and every open neighbour in those directions is now visited.
   */
  ghost predicate FreeInv(g: Grid, blocked: int, cell: Cell, dist: nat, visited: set<Cell>, k: nat,
                          added: seq<Entry>, visited': set<Cell>)
    requires Square(g) && k <= |Directions|
  {
    && (forall i | 0 <= i < |added| :: added[i].1 == dist + 1)
    && visited' == visited + QueueCells(added)
    && QueueCells(added) <= NbrsOf(g, Avoid(blocked), cell)
    && (visited' == visited ==> added == [])
    && forall i | 0 <= i < k ::
         Open(g, Avoid(blocked), Shift(cell, Directions[i])) ==> Shift(cell, Directions[i]) in visited'
  }

  /** A direction whose cell is closed or already visited adds nothing. */
  lemma FreeSkip(g: Grid, blocked: int, cell: Cell, dist: nat, visited: set<Cell>, k: nat, added: seq<Entry>,
                 visited': set<Cell>)
    requires Square(g) && k < |Directions| && FreeInv(g, blocked, cell, dist, visited, k, added, visited')
    requires Open(g, Avoid(blocked), Shift(cell, Directions[k])) ==> Shift(cell, Directions[k]) in visited'
    ensures FreeInv(g, blocked, cell, dist, visited, k + 1, added, visited')
  {
  }

  /** A direction whose cell is open and new queues that cell at distance dist + 1. */
  lemma FreeAdd(g: Grid, blocked: int, cell: Cell, dist: nat, visited: set<Cell>, k: nat, added: seq<Entry>,
                visited': set<Cell>)
    requires Square(g) && k < |Directions| && FreeInv(g, blocked, cell, dist, visited, k, added, visited')
    requires Open(g, Avoid(blocked), Shift(cell, Directions[k])) && Shift(cell, Directions[k]) !in visited'
    ensures var next := Shift(cell, Directions[k]);
            FreeInv(g, blocked, cell, dist, visited, k + 1, added + [(next, dist + 1)], visited' + {next})
  {
    NbrsOfShift(g, Avoid(blocked), cell, k);
    QueueSnoc(added, (Shift(cell, Directions[k]), dist + 1), 0);
  }

  /** A growing set of board cells stays within the n * n cells and grows in size when it grows at all. */
  lemma GrowCard(n: nat, before: set<Cell>, after: set<Cell>)
    requires before <= after && InGrid(n, after)
    ensures |after| <= n * n
    ensures before != after ==> |before| < |after|
  {
    InGridCard(n, after);
    if before != after {
      ProperSubsetCard(before, after);
    }
  }

  /**
   * Popping the front of a queue sorted by distances d and d + 1 and appending entries at d + 1 keeps it sorted with
   * distances d and d + 1.
   */
  lemma QueueShape(q: seq<Entry>, added: seq<Entry>, d: nat)
    requires q != []
    requires forall k | 0 <= k < |q| :: q[k].1 == d || q[k].1 == d + 1
    requires forall k, l | 0 <= k < l < |q| :: q[k].1 <= q[l].1
    requires forall k | 0 <= k < |added| :: added[k].1 == d + 1
    ensures var q' := q[1..] + added;
            && (forall k | 0 <= k < |q'| :: q'[k].1 == d || q'[k].1 == d + 1)
            && (forall k, l | 0 <= k < l < |q'| :: q'[k].1 <= q'[l].1)
  {
    var q' := q[1..] + added;
    forall k | 0 <= k < |q'| ensures q'[k] == if k < |q| - 1 then q[k + 1] else added[k - |q| + 1] {
    }
  }

  /** The cells of the queue after popping a level-d front entry and appending entries at level d + 1. */
  lemma QueuePop(q: seq<Entry>, added: seq<Entry>, d: nat)
    requires q != [] && q[0].1 == d
    requires forall k | 0 <= k < |added| :: added[k].1 == d + 1
    ensures var q' := q[1..] + added;
            && QueueCells(q) + QueueCells(added) == {q[0].0} + QueueCells(q')
            && AtDist(q, d) == {q[0].0} + AtDist(q', d)
            && AtDist(q', d + 1) == AtDist(q, d + 1) + QueueCells(added)
  {
    var rest := q[1..];
    assert q == [q[0]] + rest;
    QueueConcat([q[0]], rest, d);
    QueueConcat([q[0]], rest, d + 1);
    QueueConcat(rest, added, d);
    QueueConcat(rest, added, d + 1);
    AtDistNone(added, d);
    AtDistAll(added, d + 1);
    assert AtDist([q[0]], d) == {q[0].0};
    assert AtDist([q[0]], d + 1) == {};
    assert QueueCells([q[0]]) == {q[0].0};
  }

  /**
   * The state of the search with ghost level d: done holds the cells taken off the queue, visited every cell ever
   * queued. The queue holds distances d then d + 1; the done cells and those queued at d are the cells within d steps
   * of S, those queued at d + 1 are within d + 1 steps, every neighbour of a done cell is visited, every cell within
   * d - 1 steps is done, and no done cell lies in E. A step may go onto any board cell not holding blocked.
   */
  ghost predicate BfsInv(g: Grid, blocked: int, S: set<Cell>, E: set<Cell>, q: seq<Entry>, visited: set<Cell>,
                         done: set<Cell>, d: nat)
    requires Square(g)
  {
    var G := GridGraph(g, Avoid(blocked));
    && InGrid(|g|, visited)
    && (forall k | 0 <= k < |q| :: q[k].1 == d || q[k].1 == d + 1)
    && (forall k, l | 0 <= k < l < |q| :: q[k].1 <= q[l].1)
    && visited == done + QueueCells(q)
    && done + AtDist(q, d) == Reach(G, S, d)
    && AtDist(q, d + 1) <= Reach(G, S, d + 1)
    && Nbrs(G, done) <= visited
    && (d > 0 ==> Reach(G, S, d - 1) <= done)
    && done * E == {}
  }

  lemma BfsStart(g: Grid, blocked: int, S: set<Cell>, E: set<Cell>, q: seq<Entry>)
    requires Square(g) && InGrid(|g|, S)
    requires QueueCells(q) == S && forall k | 0 <= k < |q| :: q[k].1 == 0
    ensures BfsInv(g, blocked, S, E, q, S, {}, 0)
  {
    AtDistAll(q, 0);
    AtDistNone(q, 1);
  }

  /** Once no cell of level d is left on the queue, the search moves to level d + 1. */
  lemma BfsLevel(g: Grid, blocked: int, S: set<Cell>, E: set<Cell>, q: seq<Entry>, visited: set<Cell>,
                 done: set<Cell>, d: nat)
    requires Square(g) && BfsInv(g, blocked, S, E, q, visited, done, d)
    requires q != [] && q[0].1 != d
    ensures BfsInv(g, blocked, S, E, q, visited, done, d + 1)
  {
    var G := GridGraph(g, Avoid(blocked));
    QueueNext(q, d);
    assert done == Reach(G, S, d);
    assert Reach(G, S, d + 1) == Reach(G, S, d) + Nbrs(G, Reach(G, S, d));
  }

  /** A sorted queue of levels d and d + 1 whose front is not at d holds level d + 1 only. */
  lemma QueueNext(q: seq<Entry>, d: nat)
    requires q != [] && q[0].1 != d
    requires forall k | 0 <= k < |q| :: q[k].1 == d || q[k].1 == d + 1
    requires forall k, l | 0 <= k < l < |q| :: q[k].1 <= q[l].1
    ensures forall k | 0 <= k < |q| :: q[k].1 == d + 1
    ensures AtDist(q, d) == {} && AtDist(q, d + 2) == {} && AtDist(q, d + 1) == QueueCells(q)
  {
    assert forall k | 0 <= k < |q| :: q[k].1 == d + 1 by {
      forall k | 0 < k < |q| ensures q[k].1 == d + 1 {
        assert q[0].1 <= q[k].1;
      }
    }
    AtDistNone(q, d);
    AtDistNone(q, d + 2);
    AtDistAll(q, d + 1);
  }

  /** The search is at the level of the front entry of the queue, moving to the next level when needed. */
  lemma BfsFront(g: Grid, blocked: int, S: set<Cell>, E: set<Cell>, q: seq<Entry>, visited: set<Cell>,
                 done: set<Cell>, d: nat)
    requires Square(g) && BfsInv(g, blocked, S, E, q, visited, done, d) && q != []
    ensures BfsInv(g, blocked, S, E, q, visited, done, q[0].1)
  {
    if q[0].1 != d {
      BfsLevel(g, blocked, S, E, q, visited, done, d);
    }
  }

  /** A cell of E at the front of the queue lies at the shortest distance. */
  lemma BfsFound(g: Grid, blocked: int, S: set<Cell>, E: set<Cell>, q: seq<Entry>, visited: set<Cell>,
                 done: set<Cell>, d: nat)
    requires Square(g) && BfsInv(g, blocked, S, E, q, visited, done, d)
    requires q != [] && q[0].1 == d && q[0].0 in E
    ensures Evaluation.ShortestPath(g, blocked, S, E) == d
  {
    var G := GridGraph(g, Avoid(blocked));
    assert q[0].0 in AtDist(q, d);
    assert q[0].0 in Reach(G, S, d) * E;
    HitAt(G, S, E, d);
  }

  /** An emptied queue means E cannot be reached. */
  lemma BfsEmpty(g: Grid, blocked: int, S: set<Cell>, E: set<Cell>, visited: set<Cell>, done: set<Cell>, d: nat)
    requires Square(g) && BfsInv(g, blocked, S, E, [], visited, done, d)
    ensures Evaluation.ShortestPath(g, blocked, S, E) == |g|
  {
    var G := GridGraph(g, Avoid(blocked));
    assert AtDist([], d) == {};
    assert QueueCells([]) == {};
    HitNone(G, S, E, d);
  }

  /** Taking a level-d cell outside E off the queue and queueing its new open neighbours at d + 1 keeps the state. */
  lemma BfsPop(g: Grid, blocked: int, S: set<Cell>, E: set<Cell>, q: seq<Entry>, visited: set<Cell>,
               done: set<Cell>, d: nat, added: seq<Entry>, visited': set<Cell>)
    requires Square(g) && BfsInv(g, blocked, S, E, q, visited, done, d)
    requires q != [] && q[0].1 == d && q[0].0 !in E
    requires forall k | 0 <= k < |added| :: added[k].1 == d + 1
    requires visited' == visited + QueueCells(added)
    requires QueueCells(added) <= NbrsOf(g, Avoid(blocked), q[0].0) <= visited'
    ensures BfsInv(g, blocked, S, E, q[1..] + added, visited', done + {q[0].0}, d)
    ensures visited <= visited' && InGrid(|g|, visited')
  {
    QueueShape(q, added, d);
    QueuePop(q, added, d);
    BfsPopNbrs(g, blocked, S, E, q, visited, done, d, added, visited');
  }

  /** The graph half of BfsPop: the expanded cell lies within d steps, so its neighbours lie within d + 1. */
  lemma BfsPopNbrs(g: Grid, blocked: int, S: set<Cell>, E: set<Cell>, q: seq<Entry>, visited: set<Cell>,
                   done: set<Cell>, d: nat, added: seq<Entry>, visited': set<Cell>)
    requires Square(g) && BfsInv(g, blocked, S, E, q, visited, done, d)
    requires q != [] && q[0].1 == d
    requires visited' == visited + QueueCells(added)
    requires QueueCells(added) <= NbrsOf(g, Avoid(blocked), q[0].0) <= visited'
    ensures InGrid(|g|, visited')
    ensures QueueCells(added) <= Reach(GridGraph(g, Avoid(blocked)), S, d + 1)
    ensures Nbrs(GridGraph(g, Avoid(blocked)), done + {q[0].0}) <= visited'
  {
    var G := GridGraph(g, Avoid(blocked));
    var c := q[0].0;
    assert c in AtDist(q, d);
    assert c in Reach(G, S, d);
    assert InBounds(|g|, c);
    GridEdge(g, Avoid(blocked), c);
    assert QueueCells(added) <= Nbrs(G, Reach(G, S, d));
    NbrsAdd(G, done, c);
  }

  /** The minimax player of player.py, for player playerId. */
  class PlayerMinimax {
    const playerId: int
    const opponentId: int
    const maxReward: Score
    const minReward: Score
    const directions: seq<(int, int)>

    predicate Valid()
    {
      && opponentId == Opponent(playerId)
      && maxReward == PosInf && minReward == NegInf
      && directions == Directions
    }

    /** The opponent is player 1 for player 2 and player 2 otherwise; the rewards are the two infinities. */
    constructor (playerId: int)
      ensures this.playerId == playerId && Valid()
    {
      this.playerId := playerId;
      opponentId := if playerId == 2 then 1 else 2;
      maxReward := PosInf;
      minReward := NegInf;
      directions := [(-1, 0), (-1, 1), (0, -1), (0, 1), (1, -1), (1, 0)];
    }

    /** play: the move of a depth-3 search. */
    method Play(board: HexBoard) returns (move: Cell)
      requires Valid() && board.Valid() && PossibleMoves(board.View()) != []
      ensures move == BestMove(board.View(), 3, playerId)
      ensures var ms, vs := PossibleMoves(board.View()), MoveValues(board.View(), 3, playerId);
              exists k | 0 <= k < |ms| && move == ms[k] :: forall j | 0 <= j < |ms| :: Le(vs[j], vs[k])
    {
      move := GetBestMove(board, 3);
      BestMoveIsFirstArgmax(board.View(), 3, playerId);
    }

    /** A copy of board with id's stone on the possible move move, as the search builds each child position. */
    method Child(board: HexBoard, move: Cell, id: int) returns (child: HexBoard)
      requires board.Valid() && move in PossibleMoves(board.View())
      ensures fresh(child) && fresh(child.board) && child.Valid()
      ensures child.View() == Place(board.View(), move, id)
    {
      ghost var k :| 0 <= k < |PossibleMoves(board.View())| && PossibleMoves(board.View())[k] == move;
      child := board.Clone();
      var _ := child.PlacePiece(move.0, move.1, id);
    }

    /**
     * get_best_move: scores each possible move, in row-major order, by a min-node search one ply shallower with window
     * (alpha, +infinity), and keeps the first move of highest score; the first possible move when no score beats
     * minus infinity.
     */
    method GetBestMove(board: HexBoard, depth: nat) returns (move: Cell)
      requires Valid() && board.Valid() && 1 <= depth && PossibleMoves(board.View()) != []
      ensures move == BestMove(board.View(), depth, playerId)
    {
      ghost var g := board.View();
      var bestMove: Option<Cell> := None;
      var alpha, beta := minReward, maxReward;
      var moves := board.GetPossibleMoves();
      for i := 0 to |moves|
        invariant RootLoop(g, depth, playerId, i, alpha, bestMove) == RootLoop(g, depth, playerId, 0, NegInf, None)
      {
        alpha, bestMove := RootRound(board, depth, moves, i, alpha, beta, bestMove);
      }
      if bestMove.Some? {
        move := bestMove.value;
      } else {
        var moves' := board.GetPossibleMoves();
        move := moves'[0];
      }
    }

    /**
     * minimax: 0 once this player is connected, minus infinity once the opponent is, the static evaluation at depth 0
     * and 0 on a full board; otherwise the alpha-beta loop over the possible moves, this player placing stones at a
     * max node and the opponent at a min node, leaving the loop as soon as beta <= alpha.
     */
    method Minimax(board: HexBoard, depth: nat, alpha: Score, beta: Score, maximizingPlayer: bool) returns (r: Score)
      requires Valid() && board.Valid()
      ensures r == AlphaBeta(board.View(), depth, alpha, beta, maximizingPlayer, playerId)
      decreases depth, 3
    {
      ghost var g := board.View();
      var won := board.CheckConnection(playerId);
      if won {
        return Fin(0.0);
      }
      var lost := board.CheckConnection(opponentId);
      if lost {
        return NegInf;
      }
      if depth == 0 {
        r := EvaluatePosition(board);
        return;
      }
      var possibleMoves := board.GetPossibleMoves();
      if possibleMoves == [] {
        return Fin(0.0);
      }
      if maximizingPlayer {
        r := MaxNode(board, depth, alpha, beta, possibleMoves);
      } else {
        r := MinNode(board, depth, alpha, beta, possibleMoves);
      }
    }

    /** The value minimax gives the board after id plays move: the copy, the placed stone and the search below it. */
    method ChildValue(board: HexBoard, move: Cell, id: int, depth: nat, alpha: Score, beta: Score,
                      maximizingPlayer: bool) returns (v: Score)
      requires Valid() && board.Valid() && move in PossibleMoves(board.View())
      ensures v == AlphaBeta(Place(board.View(), move, id), depth, alpha, beta, maximizingPlayer, playerId)
      decreases depth, 4
    {
      var newBoard := Child(board, move, id);
      v := Minimax(newBoard, depth, alpha, beta, maximizingPlayer);
    }

    /** The loop of minimax at a max node: this player moves, each child searched as a min node. */
    method MaxNode(board: HexBoard, depth: nat, alpha: Score, beta: Score, possibleMoves: seq<Cell>)
      returns (maxEval: Score)
      requires Valid() && board.Valid() && 1 <= depth && possibleMoves == PossibleMoves(board.View())
      ensures maxEval == MaxLoop(board.View(), depth, playerId, 0, alpha, beta, NegInf)
      decreases depth, 2
    {
      ghost var g := board.View();
      var a := alpha;
      maxEval := minReward;
      ghost var result := MaxLoop(g, depth, playerId, 0, alpha, beta, NegInf);
      for i := 0 to |possibleMoves|
        invariant MaxLoop(g, depth, playerId, i, a, beta, maxEval) == result
      {
        var stop;
        a, maxEval, stop := MaxRound(board, depth, possibleMoves, i, a, beta, maxEval);
        if stop {
          return;
        }
      }
    }

    /** The loop of minimax at a min node: the opponent moves, each child searched as a max node. */
    method MinNode(board: HexBoard, depth: nat, alpha: Score, beta: Score, possibleMoves: seq<Cell>)
      returns (minEval: Score)
      requires Valid() && board.Valid() && 1 <= depth && possibleMoves == PossibleMoves(board.View())
      ensures minEval == MinLoop(board.View(), depth, playerId, 0, alpha, beta, PosInf)
      decreases depth, 2
    {
      ghost var g := board.View();
      var b := beta;
      minEval := maxReward;
      ghost var result := MinLoop(g, depth, playerId, 0, alpha, beta, PosInf);
      for i := 0 to |possibleMoves|
        invariant MinLoop(g, depth, playerId, i, alpha, b, minEval) == result
      {
        var stop;
        b, minEval, stop := MinRound(board, depth, possibleMoves, i, alpha, b, minEval);
        if stop {
          return;
        }
      }
    }

    /** One round of the root loop: move i is scored by a min-node search and kept when it beats alpha. */
    method RootRound(board: HexBoard, depth: nat, moves: seq<Cell>, i: nat, alpha: Score, beta: Score,
                     best: Option<Cell>) returns (alpha': Score, best': Option<Cell>)
      requires Valid() && board.Valid() && 1 <= depth && moves == PossibleMoves(board.View()) && i < |moves|
      requires beta == PosInf
      ensures RootLoop(board.View(), depth, playerId, i, alpha, best)
              == RootLoop(board.View(), depth, playerId, i + 1, alpha', best')
    {
      var score := ChildValue(board, moves[i], playerId, depth - 1, alpha, beta, false);
      alpha', best' := alpha, best;
      if Lt(alpha, score) {
        alpha' := score;
        best' := Some(moves[i]);
      }
    }

    /** One round of the max-node loop; stop tells whether the loop breaks after it. */
    method MaxRound(board: HexBoard, depth: nat, possibleMoves: seq<Cell>, i: nat, alpha: Score, beta: Score,
                    best: Score) returns (alpha': Score, best': Score, stop: bool)
      requires Valid() && board.Valid() && 1 <= depth && possibleMoves == PossibleMoves(board.View())
      requires i < |possibleMoves|
      ensures stop == Le(beta, alpha')
      ensures MaxLoop(board.View(), depth, playerId, i, alpha, beta, best)
              == if stop then best' else MaxLoop(board.View(), depth, playerId, i + 1, alpha', beta, best')
      decreases depth, 1
    {
      ghost var g := board.View();
      var currentEval := ChildValue(board, possibleMoves[i], playerId, depth - 1, alpha, beta, false);
      MaxLoopStep(g, depth, playerId, i, alpha, beta, best, Place(g, possibleMoves[i], playerId), currentEval);
      best' := Max(best, currentEval);
      alpha' := Max(alpha, currentEval);
      stop := Le(beta, alpha');
    }

    /** One round of the min-node loop; stop tells whether the loop breaks after it. */
    method MinRound(board: HexBoard, depth: nat, possibleMoves: seq<Cell>, i: nat, alpha: Score, beta: Score,
                    best: Score) returns (beta': Score, best': Score, stop: bool)
      requires Valid() && board.Valid() && 1 <= depth && possibleMoves == PossibleMoves(board.View())
      requires i < |possibleMoves|
      ensures stop == Le(beta', alpha)
      ensures MinLoop(board.View(), depth, playerId, i, alpha, beta, best)
              == if stop then best' else MinLoop(board.View(), depth, playerId, i + 1, alpha, beta', best')
      decreases depth, 1
    {
      ghost var g := board.View();
      var currentEval := ChildValue(board, possibleMoves[i], opponentId, depth - 1, alpha, beta, true);
      MinLoopStep(g, depth, playerId, i, alpha, beta, best, Place(g, possibleMoves[i], opponentId), currentEval);
      best' := Min(best, currentEval);
      beta' := Min(beta, currentEval);
      stop := Le(beta', alpha);
    }

    /**
     * evaluate_position: 0 once this player is connected, minus infinity once the opponent is, and otherwise this
     * player's cost estimate minus 0.8 times the opponent's plus a hundredth of the center control.
     */
    method EvaluatePosition(board: HexBoard) returns (r: Score)
      requires Valid() && board.Valid()
      ensures r == Evaluate(board.View(), playerId)
    {
      var won := board.CheckConnection(playerId);
      if won {
        return Fin(0.0);
      }
      var lost := board.CheckConnection(opponentId);
      if lost {
        return NegInf;
      }
      var dPlayer := EstimateCost(board, playerId);
      var dOpponent := EstimateCost(board, opponentId);
      var centerAdvantage := EvaluateCenterControl(board);
      return Fin(dPlayer as real - 0.8 * dOpponent as real + 0.01 * centerAdvantage);
    }

    /**
     * estimate_cost: with no stones of id on the board, the shortest-path distance from id's start side to its end
     * side; otherwise the least distance to the end side from a group of id touching the start side, at most the
     * board size.
     */
    method EstimateCost(board: HexBoard, id: int) returns (cost: int)
      requires Valid() && board.Valid()
      ensures cost == Evaluation.EstimateCost(board.View(), playerId, id)
    {
      ghost var g := board.View();
      var components := GetConnectedComponents(board, id);
      var size := board.size;
      var minDistance := size;
      var startSide, endSide := StartSide(size, id), EndSide(size, id);
      if components == [] {
        StartSideIn(size, id);
        cost := ShortestPath(board, Elems(startSide), endSide, id);
        return;
      }
      ghost var ds := GroupCosts(g, opponentId, id, components);
      ComponentsInGrid(g, id);
      for k := 0 to |components|
        invariant minDistance == CapMin(size, ds[..k])
      {
        var component := components[k];
        var touchesStart := Touches(id, component);
        assert ds[..k + 1][..k] == ds[..k];
        CapMinIsLeast(size, ds[..k]);
        if touchesStart {
          var distance := ShortestPath(board, component, endSide, id);
          minDistance := if distance < minDistance then distance else minDistance;
        }
      }
      assert ds[..|components|] == ds;
      return minDistance;
    }

    /**
     * shortest_path: breadth-first search from startNodes, stepping onto board cells that do not hold the opponent
     * of this player; the distance of the first cell of endSide taken off the queue, or the board size when the
     * queue runs out. The argument who, player_id in player.py, is not used there either.
     */
    method ShortestPath(board: HexBoard, startNodes: set<Cell>, endSide: seq<Cell>, who: int) returns (dist: nat)
      requires Valid() && board.Valid() && InGrid(board.size, startNodes)
      ensures dist == Evaluation.ShortestPath(board.View(), opponentId, startNodes, Elems(endSide))
    {
      ghost var g, S, E := board.View(), startNodes, Elems(endSide);
      var queue := StartQueue(startNodes);
      var visited := startNodes;
      var endSet := Elems(endSide);
      ghost var done: set<Cell> := {};
      ghost var d: nat := 0;
      BfsStart(g, opponentId, S, E, queue);
      InGridCard(board.size, visited);
      while queue != []
        invariant BfsInv(g, opponentId, S, E, queue, visited, done, d)
        invariant |visited| <= board.size * board.size
        decreases board.size * board.size - |visited|, |queue|
      {
        BfsFront(g, opponentId, S, E, queue, visited, done, d);
        d := queue[0].1;
        var cell, cellDist := queue[0].0, queue[0].1;
        if cell in endSet {
          BfsFound(g, opponentId, S, E, queue, visited, done, d);
          return cellDist;
        }
        ghost var before := visited;
        var added;
        added, visited := ExpandFree(board, cell, cellDist, visited);
        BfsPop(g, opponentId, S, E, queue, before, done, d, added, visited);
        queue := queue[1..] + added;
        done := done + {cell};
        GrowCard(board.size, before, visited);
      }
      BfsEmpty(g, opponentId, S, E, visited, done, d);
      return board.size;
    }

    /** The queue shortest_path starts from: each start cell at distance 0, in an order the set does not fix. */
    method StartQueue(startNodes: set<Cell>) returns (queue: seq<Entry>)
      ensures QueueCells(queue) == startNodes
      ensures forall k | 0 <= k < |queue| :: queue[k].1 == 0
    {
      queue := [];
      var rest := startNodes;
      while rest != {}
        invariant rest <= startNodes && QueueCells(queue) == startNodes - rest
        invariant forall k | 0 <= k < |queue| :: queue[k].1 == 0
        decreases |rest|
      {
        var node :| node in rest;
        StartQueueStep(startNodes, rest, queue, node);
        queue := queue + [(node, 0)];
        rest := rest - {node};
      }
    }

    /**
     * One expansion step of shortest_path: every neighbour of cell on the board that is not visited and does not hold
     * the opponent is marked visited; added lists them at distance dist + 1, in direction order, for the end of the
     * queue.
     */
    method ExpandFree(board: HexBoard, cell: Cell, dist: nat, visited: set<Cell>)
      returns (added: seq<Entry>, visited': set<Cell>)
      requires Valid() && board.Valid()
      ensures forall k | 0 <= k < |added| :: added[k].1 == dist + 1
      ensures visited' == visited + QueueCells(added)
      ensures QueueCells(added) <= NbrsOf(board.View(), Avoid(opponentId), cell) <= visited'
      ensures visited' == visited ==> added == []
      ensures added == Tag(FreshNbrs(board.View(), Avoid(opponentId), cell, visited, |Directions|), dist + 1)
      ensures QueueCells(added) * visited == {}
    {
      ghost var g := board.View();
      added := [];
      visited' := visited;
      for k := 0 to |directions|
        invariant FreeInv(g, opponentId, cell, dist, visited, k, added, visited')
        invariant added == Tag(FreshNbrs(g, Avoid(opponentId), cell, visited, k), dist + 1)
      {
        var next := Shift(cell, directions[k]);
        TagCells(FreshNbrs(g, Avoid(opponentId), cell, visited, k), dist + 1);
        if 0 <= next.0 < board.size && 0 <= next.1 < board.size && next !in visited'
           && board.board[next.0, next.1] != opponentId {
          FreeAdd(g, opponentId, cell, dist, visited, k, added, visited');
          TagSnoc(FreshNbrs(g, Avoid(opponentId), cell, visited, k), next, dist + 1);
          visited' := visited' + {next};
          added := added + [(next, dist + 1)];
        } else {
          FreeSkip(g, opponentId, cell, dist, visited, k, added, visited');
        }
      }
      NbrsOfCovered(g, Avoid(opponentId), cell, visited');
      FreshNbrsFresh(g, Avoid(opponentId), cell, visited, |Directions|);
      TagCells(FreshNbrs(g, Avoid(opponentId), cell, visited, |Directions|), dist + 1);
    }

    /**
     * evaluate_center_control: over the square of radius size / 3 around the center cell, clipped to the board, the
     * stones of this player minus those of the opponent, as a share of the cells of the square; 0 if it is empty.
     */
    method EvaluateCenterControl(board: HexBoard) returns (r: real)
      requires Valid() && board.Valid()
      ensures r == CenterControl(board.View(), playerId, opponentId)
    {
      ghost var g := board.View();
      var size := board.size;
      var cPlayer, cOpponent := 0, 0;
      var totalCells := 0;
      var lo, hi := CenterLo(size), CenterHi(size);
      CenterInside(size);
      for i := lo to hi
        invariant cPlayer == CountBox(g, playerId, lo, i, hi)
        invariant cOpponent == CountBox(g, opponentId, lo, i, hi)
        invariant totalCells == BoxCells(lo, i, hi)
      {
        var rowPlayer, rowOpponent, rowCells := CountCenterRow(board, i, lo, hi);
        cPlayer, cOpponent := cPlayer + rowPlayer, cOpponent + rowOpponent;
        totalCells := totalCells + rowCells;
      }
      CenterControlOf(g, playerId, opponentId, lo, hi, cPlayer, cOpponent, totalCells);
      r := Share(cPlayer, cOpponent, totalCells);
    }

    /** The inner loop of evaluate_center_control over row i, columns lo .. hi - 1. */
    method CountCenterRow(board: HexBoard, i: int, lo: int, hi: int) returns (rowPlayer: int, rowOpponent: int, rowCells: int)
      requires Valid() && board.Valid() && 0 <= i < board.size && 0 <= lo <= hi <= board.size
      ensures rowPlayer == CountRow(board.View(), playerId, i, lo, hi)
      ensures rowOpponent == CountRow(board.View(), opponentId, i, lo, hi)
      ensures rowCells == hi - lo
    {
      ghost var g := board.View();
      rowPlayer, rowOpponent, rowCells := 0, 0, 0;
      for j := lo to hi
        invariant rowPlayer == CountRow(g, playerId, i, lo, j)
        invariant rowOpponent == CountRow(g, opponentId, i, lo, j)
        invariant rowCells == j - lo
      {
        if board.board[i, j] == playerId {
          rowPlayer := rowPlayer + 1;
        } else if board.board[i, j] == opponentId {
          rowOpponent := rowOpponent + 1;
        }
        rowCells := rowCells + 1;
      }
    }

    /** The neighbours of cell on the board that hold id, pushed onto stack in direction order. */
    method PushNeighbours(board: HexBoard, id: int, cell: Cell, stack: seq<Cell>) returns (stack': seq<Cell>)
      requires Valid() && board.Valid()
      ensures |stack| <= |stack'| && stack'[..|stack|] == stack
      ensures Elems(stack'[|stack|..]) == NbrsOf(board.View(), Own(id), cell)
      ensures stack'[|stack|..] == OpenNbrs(board.View(), Own(id), cell, |Directions|)
    {
      ghost var g := board.View();
      stack' := stack;
      for k := 0 to |directions|
        invariant |stack| <= |stack'| && stack'[..|stack|] == stack
        invariant stack'[|stack|..] == OpenNbrs(g, Own(id), cell, k)
      {
        var next := Shift(cell, directions[k]);
        if 0 <= next.0 < board.size && 0 <= next.1 < board.size && board.board[next.0, next.1] == id {
          assert stack'[|stack|..] + [next] == (stack' + [next])[|stack|..];
          stack' := stack' + [next];
        }
      }
      OpenNbrsAre(g, Own(id), cell);
    }

    /**
     * The inner loop of get_connected_components: a depth-first search from seed over id's stones, skipping visited
     * cells. It explores exactly the group of seed and marks it visited.
     */
    method ExploreGroup(board: HexBoard, id: int, seed: Cell, visited: set<Cell>)
      returns (component: set<Cell>, visited': set<Cell>)
      requires Valid() && board.Valid() && InBounds(board.size, seed)
      requires visited * Group(board.View(), id, seed) == {}
      ensures component == Group(board.View(), id, seed)
      ensures visited' == visited + component
    {
      ghost var g := board.View();
      var stack := [seed];
      component, visited' := {}, visited;
      ExploreStart(g, id, seed, visited);
      SubsetCard(component, Group(g, id, seed));
      while stack != []
        invariant ExploreInv(g, id, seed, visited, visited', component, stack)
        invariant |component| <= |Group(g, id, seed)|
        decreases |Group(g, id, seed)| - |component|, |stack|
      {
        var cell := stack[|stack| - 1];
        if cell in visited' {
          ExploreSkip(g, id, seed, visited, visited', component, stack);
          stack := stack[..|stack| - 1];
        } else {
          var stack' := PushNeighbours(board, id, cell, stack[..|stack| - 1]);
          ExploreAdd(g, id, seed, visited, visited', component, stack, stack');
          ProperSubsetCard(component, component + {cell});
          SubsetCard(component + {cell}, Group(g, id, seed));
          visited' := visited' + {cell};
          component := component + {cell};
          stack := stack';
        }
      }
      ExploreDone(g, id, seed, visited, visited', component);
    }

    /** The groups of id's stones, in the order a row-major scan of the board first meets them. */
    method GetConnectedComponents(board: HexBoard, id: int) returns (components: seq<set<Cell>>)
      requires Valid() && board.Valid()
      ensures components == Components(board.View(), id)
    {
      ghost var g := board.View();
      var visited: set<Cell> := {};
      components := [];
      for i := 0 to board.size
        invariant components == ScanRows(g, id, i)
        invariant visited == Union(components)
      {
        ScanPartitioned(g, id, i, 0);
        components, visited := ScanBoardRow(board, id, i, components, visited);
      }
    }

    /** The scan of row i in get_connected_components, continuing the list of groups met so far. */
    method ScanBoardRow(board: HexBoard, id: int, i: int, components: seq<set<Cell>>, visited: set<Cell>)
      returns (components': seq<set<Cell>>, visited': set<Cell>)
      requires Valid() && board.Valid() && 0 <= i < board.size
      requires Partitioned(board.View(), id, components) && visited == Union(components)
      ensures components' == ScanRow(board.View(), id, i, board.size, components) && visited' == Union(components')
    {
      ghost var g := board.View();
      components', visited' := components, visited;
      for j := 0 to board.size
        invariant components' == ScanRow(g, id, i, j, components)
        invariant visited' == Union(components')
      {
        ScanRowPartitioned(g, id, i, j, components);
        components', visited' := ScanCellAt(board, id, (i, j), components', visited');
      }
    }

    /** The body of the scan in get_connected_components: a stone of id at c not yet visited starts a new group. */
    method ScanCellAt(board: HexBoard, id: int, c: Cell, components: seq<set<Cell>>, visited: set<Cell>)
      returns (components': seq<set<Cell>>, visited': set<Cell>)
      requires Valid() && board.Valid() && InBounds(board.size, c)
      requires Partitioned(board.View(), id, components) && visited == Union(components)
      ensures components' == ScanCell(board.View(), id, c, components)
      ensures visited' == Union(components')
    {
      components', visited' := components, visited;
      if board.board[c.0, c.1] == id && c !in visited {
        OutsideDisjoint(board.View(), id, components, c);
        var component;
        component, visited' := ExploreGroup(board, id, c, visited);
        UnionAppend(components, component);
        components' := components + [component];
      }
    }
  }
}
