/**
 * The game-tree search of the minimax player. Value is the plain minimax value of a position, the reference; AlphaBeta
 * is the fail-soft alpha-beta search the player runs, with its cut-offs. The two agree inside the search window:
 * clamped to [alpha, beta] they are equal, so with the full window they are the same value.
 */
module Search {
  import opened Hex
  import opened Board
  import opened Scores
  import opened Evaluation

  // The reference: minimax without pruning

  /**
   * The minimax value for me of position g searched depth plies deep: 0 once me is connected, minus infinity once the
   * opponent is, the static evaluation at depth 0, 0 on a full board, and otherwise the best child for the side to
   * move, me placing me's stones when maximizing and the opponent placing theirs when minimizing.
   */
  function Value(g: Grid, depth: nat, maximizing: bool, me: int): Score
    requires Square(g)
    decreases depth, 1
  {
    if Wins(g, me) then Fin(0.0)
    else if Wins(g, Opponent(me)) then NegInf
    else if depth == 0 then Evaluate(g, me)
    else if PossibleMoves(g) == [] then Fin(0.0)
    else if maximizing then MaxValue(g, depth, me, 0, NegInf)
    else MinValue(g, depth, me, 0, PosInf)
  }

  /** acc combined by Max with the values of the children for moves i onward, me to move. */
  function MaxValue(g: Grid, depth: nat, me: int, i: nat, acc: Score): Score
    requires Square(g) && 1 <= depth && i <= |PossibleMoves(g)|
    decreases depth, 0, |PossibleMoves(g)| - i, 1
  {
    if i == |PossibleMoves(g)| then acc
    else MaxValue(g, depth, me, i + 1, Max(acc, MoveValue(g, depth, me, i)))
  }

  /** The minimax value of the child for possible move i, me having moved. */
  function MoveValue(g: Grid, depth: nat, me: int, i: nat): Score
    requires Square(g) && 1 <= depth && i < |PossibleMoves(g)|
    decreases depth, 0, |PossibleMoves(g)| - i, 0
  {
    Value(Place(g, PossibleMoves(g)[i], me), depth - 1, false, me)
  }

  /** acc combined by Min with the values of the children for moves i onward, the opponent to move. */
  function MinValue(g: Grid, depth: nat, me: int, i: nat, acc: Score): Score
    requires Square(g) && 1 <= depth && i <= |PossibleMoves(g)|
    decreases depth, 0, |PossibleMoves(g)| - i, 1
  {
    if i == |PossibleMoves(g)| then acc
    else MinValue(g, depth, me, i + 1, Min(acc, ReplyValue(g, depth, me, i)))
  }

  /** The minimax value of the child for possible move i, the opponent having moved. */
  function ReplyValue(g: Grid, depth: nat, me: int, i: nat): Score
    requires Square(g) && 1 <= depth && i < |PossibleMoves(g)|
    decreases depth, 0, |PossibleMoves(g)| - i, 0
  {
    Value(Place(g, PossibleMoves(g)[i], Opponent(me)), depth - 1, true, me)
  }

  // The search the player runs

  /**
   * Fail-soft alpha-beta: the same tree as Value, but a max node stops looking at further moves once its best value
   * reaches beta, and a min node once its best value falls to alpha.
   */
  function AlphaBeta(g: Grid, depth: nat, alpha: Score, beta: Score, maximizing: bool, me: int): Score
    requires Square(g)
    decreases depth, 1
  {
    if Wins(g, me) then Fin(0.0)
    else if Wins(g, Opponent(me)) then NegInf
    else if depth == 0 then Evaluate(g, me)
    else if PossibleMoves(g) == [] then Fin(0.0)
    else if maximizing then MaxLoop(g, depth, me, 0, alpha, beta, NegInf)
    else MinLoop(g, depth, me, 0, alpha, beta, PosInf)
  }

  /** The loop of a max node from move i on, with the current alpha and the best value so far. */
  function MaxLoop(g: Grid, depth: nat, me: int, i: nat, alpha: Score, beta: Score, best: Score): Score
    requires Square(g) && 1 <= depth && i <= |PossibleMoves(g)|
    decreases depth, 0, |PossibleMoves(g)| - i, 1
  {
    if i == |PossibleMoves(g)| then best
    else
      var v := MoveScore(g, depth, me, i, alpha, beta);
      var best', alpha' := Max(best, v), Max(alpha, v);
      if Le(beta, alpha') then best' else MaxLoop(g, depth, me, i + 1, alpha', beta, best')
  }

  /** The loop of a min node from move i on, with the current beta and the best value so far. */
  function MinLoop(g: Grid, depth: nat, me: int, i: nat, alpha: Score, beta: Score, best: Score): Score
    requires Square(g) && 1 <= depth && i <= |PossibleMoves(g)|
    decreases depth, 0, |PossibleMoves(g)| - i, 1
  {
    if i == |PossibleMoves(g)| then best
    else
      var v := ReplyScore(g, depth, me, i, alpha, beta);
      var best', beta' := Min(best, v), Min(beta, v);
      if Le(beta', alpha) then best' else MinLoop(g, depth, me, i + 1, alpha, beta', best')
  }

  /** The alpha-beta score of the child for possible move i, me having moved. */
  function MoveScore(g: Grid, depth: nat, me: int, i: nat, alpha: Score, beta: Score): Score
    requires Square(g) && 1 <= depth && i < |PossibleMoves(g)|
    decreases depth, 0, |PossibleMoves(g)| - i, 0
  {
    AlphaBeta(Place(g, PossibleMoves(g)[i], me), depth - 1, alpha, beta, false, me)
  }

  /** The alpha-beta score of the child for possible move i, the opponent having moved. */
  function ReplyScore(g: Grid, depth: nat, me: int, i: nat, alpha: Score, beta: Score): Score
    requires Square(g) && 1 <= depth && i < |PossibleMoves(g)|
    decreases depth, 0, |PossibleMoves(g)| - i, 0
  {
    AlphaBeta(Place(g, PossibleMoves(g)[i], Opponent(me)), depth - 1, alpha, beta, true, me)
  }

  /** One round of the max-node loop, given the score v of move i. */
  lemma MaxLoopStep(g: Grid, depth: nat, me: int, i: nat, alpha: Score, beta: Score, best: Score, h: Grid, v: Score)
    requires Square(g) && 1 <= depth && i < |PossibleMoves(g)| && h == Place(g, PossibleMoves(g)[i], me)
    requires v == AlphaBeta(h, depth - 1, alpha, beta, false, me)
    ensures MaxLoop(g, depth, me, i, alpha, beta, best) ==
            if Le(beta, Max(alpha, v)) then Max(best, v) else MaxLoop(g, depth, me, i + 1, Max(alpha, v), beta, Max(best, v))
  {
  }

  /** One round of the min-node loop, given the score v of move i. */
  lemma MinLoopStep(g: Grid, depth: nat, me: int, i: nat, alpha: Score, beta: Score, best: Score, h: Grid, v: Score)
    requires Square(g) && 1 <= depth && i < |PossibleMoves(g)| && h == Place(g, PossibleMoves(g)[i], Opponent(me))
    requires v == AlphaBeta(h, depth - 1, alpha, beta, true, me)
    ensures MinLoop(g, depth, me, i, alpha, beta, best) ==
            if Le(Min(beta, v), alpha) then Min(best, v) else MinLoop(g, depth, me, i + 1, alpha, Min(beta, v), Min(best, v))
  {
  }

  // Properties of the reference value

  lemma {:induction false} MaxValueAbove(g: Grid, depth: nat, me: int, i: nat, acc: Score)
    requires Square(g) && 1 <= depth && i <= |PossibleMoves(g)|
    ensures Le(acc, MaxValue(g, depth, me, i, acc))
    decreases |PossibleMoves(g)| - i
  {
    if i < |PossibleMoves(g)| {
      var acc' := Max(acc, MoveValue(g, depth, me, i));
      MaxValueAbove(g, depth, me, i + 1, acc');
      LeOrder(acc, acc', MaxValue(g, depth, me, i, acc));
    }
  }

  lemma {:induction false} MinValueBelow(g: Grid, depth: nat, me: int, i: nat, acc: Score)
    requires Square(g) && 1 <= depth && i <= |PossibleMoves(g)|
    ensures Le(MinValue(g, depth, me, i, acc), acc)
    decreases |PossibleMoves(g)| - i
  {
    if i < |PossibleMoves(g)| {
      var acc' := Min(acc, ReplyValue(g, depth, me, i));
      MinValueBelow(g, depth, me, i + 1, acc');
      LeOrder(MinValue(g, depth, me, i, acc), acc', acc);
    }
  }

  /** No position is worth plus infinity: every search ends in a connection, an evaluation or a full board. */
  lemma {:induction false} ValueFinite(g: Grid, depth: nat, maximizing: bool, me: int)
    requires Square(g)
    ensures Value(g, depth, maximizing, me) != PosInf
    decreases depth, 1
  {
    if Wins(g, me) || Wins(g, Opponent(me)) || PossibleMoves(g) == [] {
    } else if depth == 0 {
      EvaluateRange(g, me);
    } else if maximizing {
      MaxValueFinite(g, depth, me, 0, NegInf);
    } else {
      var h := Place(g, PossibleMoves(g)[0], Opponent(me));
      ValueFinite(h, depth - 1, true, me);
      var r := ReplyValue(g, depth, me, 0);
      assert r == Value(h, depth - 1, true, me);
      MinValueBelow(g, depth, me, 1, Min(PosInf, r));
      assert MinValue(g, depth, me, 0, PosInf) == MinValue(g, depth, me, 1, Min(PosInf, r));
    }
  }

  lemma {:induction false} MaxValueFinite(g: Grid, depth: nat, me: int, i: nat, acc: Score)
    requires Square(g) && 1 <= depth && i <= |PossibleMoves(g)| && acc != PosInf
    ensures MaxValue(g, depth, me, i, acc) != PosInf
    decreases depth, 0, |PossibleMoves(g)| - i
  {
    if i < |PossibleMoves(g)| {
      var h := Place(g, PossibleMoves(g)[i], me);
      ValueFinite(h, depth - 1, false, me);
      var m := MoveValue(g, depth, me, i);
      assert m == Value(h, depth - 1, false, me);
      MaxValueFinite(g, depth, me, i + 1, Max(acc, m));
    }
  }

  /** The alpha-beta search never returns plus infinity, whatever its window. */
  lemma {:induction false} AlphaBetaFinite(g: Grid, depth: nat, alpha: Score, beta: Score, maximizing: bool, me: int)
    requires Square(g)
    ensures AlphaBeta(g, depth, alpha, beta, maximizing, me) != PosInf
    decreases depth, 1
  {
    if !Wins(g, me) && !Wins(g, Opponent(me)) && depth > 0 && PossibleMoves(g) != [] {
      if maximizing {
        MaxLoopFinite(g, depth, me, 0, alpha, beta, NegInf);
      } else {
        MinLoopFinite(g, depth, me, 0, alpha, beta, PosInf);
      }
    } else if depth == 0 && !Wins(g, me) {
      EvaluateRange(g, me);
    }
  }

  lemma {:induction false} MaxLoopFinite(g: Grid, depth: nat, me: int, i: nat, alpha: Score, beta: Score, best: Score)
    requires Square(g) && 1 <= depth && i <= |PossibleMoves(g)| && best != PosInf
    ensures MaxLoop(g, depth, me, i, alpha, beta, best) != PosInf
    decreases depth, 0, |PossibleMoves(g)| - i
  {
    if i < |PossibleMoves(g)| {
      var h := Place(g, PossibleMoves(g)[i], me);
      var v := AlphaBeta(h, depth - 1, alpha, beta, false, me);
      AlphaBetaFinite(h, depth - 1, alpha, beta, false, me);
      MaxLoopStep(g, depth, me, i, alpha, beta, best, h, v);
      if !Le(beta, Max(alpha, v)) {
        MaxLoopFinite(g, depth, me, i + 1, Max(alpha, v), beta, Max(best, v));
      }
    }
  }

  /** A min loop with at least one move left, or a best value below plus infinity, ends below plus infinity. */
  lemma {:induction false} MinLoopFinite(g: Grid, depth: nat, me: int, i: nat, alpha: Score, beta: Score, best: Score)
    requires Square(g) && 1 <= depth && i <= |PossibleMoves(g)| && (i < |PossibleMoves(g)| || best != PosInf)
    ensures MinLoop(g, depth, me, i, alpha, beta, best) != PosInf
    decreases depth, 0, |PossibleMoves(g)| - i
  {
    if i < |PossibleMoves(g)| {
      var h := Place(g, PossibleMoves(g)[i], Opponent(me));
      var v := AlphaBeta(h, depth - 1, alpha, beta, true, me);
      AlphaBetaFinite(h, depth - 1, alpha, beta, true, me);
      MinLoopStep(g, depth, me, i, alpha, beta, best, h, v);
      if !Le(Min(beta, v), alpha) {
        MinLoopFinite(g, depth, me, i + 1, alpha, Min(beta, v), Min(best, v));
      }
    }
  }

  // Alpha-beta computes the minimax value inside its window

  /**
   * For any window alpha < beta, the alpha-beta result and the minimax value are equal once both are cut to the
   * window: inside the window alpha-beta is exact, and below or above it alpha-beta is below or above it too.
   */
  lemma {:induction false} AlphaBetaClamp(g: Grid, depth: nat, alpha: Score, beta: Score, maximizing: bool, me: int)
    requires Square(g) && Lt(alpha, beta)
    ensures Clamp(AlphaBeta(g, depth, alpha, beta, maximizing, me), alpha, beta)
         == Clamp(Value(g, depth, maximizing, me), alpha, beta)
    decreases depth, 1
  {
    if !Wins(g, me) && !Wins(g, Opponent(me)) && depth > 0 && PossibleMoves(g) != [] {
      if maximizing {
        MaxLoopClamp(g, depth, me, 0, alpha, alpha, beta, NegInf, NegInf);
      } else {
        MinLoopClamp(g, depth, me, 0, beta, alpha, beta, PosInf, PosInf);
      }
    }
  }

  /**
   * The max loop from move i, entered with alpha == Max(alpha0, best) below beta and with a best value that agrees
   * with the reference accumulator acc inside the window [alpha0, beta], ends in agreement too.
   */
  lemma {:induction false} MaxLoopClamp(g: Grid, depth: nat, me: int, i: nat, alpha0: Score, alpha: Score,
                                        beta: Score, best: Score, acc: Score)
    requires Square(g) && 1 <= depth && i <= |PossibleMoves(g)|
    requires Lt(alpha0, beta) && alpha == Max(alpha0, best) && Lt(alpha, beta)
    requires Clamp(best, alpha0, beta) == Clamp(acc, alpha0, beta)
    ensures Clamp(MaxLoop(g, depth, me, i, alpha, beta, best), alpha0, beta)
         == Clamp(MaxValue(g, depth, me, i, acc), alpha0, beta)
    decreases depth, 0, |PossibleMoves(g)| - i, 1
  {
    if i < |PossibleMoves(g)| {
      var v, c := MoveScore(g, depth, me, i, alpha, beta), MoveValue(g, depth, me, i);
      MoveClamp(g, depth, me, i, alpha, beta);
      MaxLoopStep(g, depth, me, i, alpha, beta, best, Place(g, PossibleMoves(g)[i], me), v);
      MaxValueAbove(g, depth, me, i + 1, Max(acc, c));
      MaxStep(alpha0, alpha, beta, best, acc, v, c, MaxValue(g, depth, me, i + 1, Max(acc, c)));
      if !Le(beta, Max(alpha, v)) {
        MaxLoopClamp(g, depth, me, i + 1, alpha0, Max(alpha, v), beta, Max(best, v), Max(acc, c));
      }
    }
  }

  /** AlphaBetaClamp for the child of a max node. */
  lemma MoveClamp(g: Grid, depth: nat, me: int, i: nat, alpha: Score, beta: Score)
    requires Square(g) && 1 <= depth && i < |PossibleMoves(g)| && Lt(alpha, beta)
    ensures Clamp(MoveScore(g, depth, me, i, alpha, beta), alpha, beta) == Clamp(MoveValue(g, depth, me, i), alpha, beta)
    decreases depth, 0, |PossibleMoves(g)| - i, 0
  {
    AlphaBetaClamp(Place(g, PossibleMoves(g)[i], me), depth - 1, alpha, beta, false, me);
  }

  /** AlphaBetaClamp for the child of a min node. */
  lemma ReplyClamp(g: Grid, depth: nat, me: int, i: nat, alpha: Score, beta: Score)
    requires Square(g) && 1 <= depth && i < |PossibleMoves(g)| && Lt(alpha, beta)
    ensures Clamp(ReplyScore(g, depth, me, i, alpha, beta), alpha, beta) == Clamp(ReplyValue(g, depth, me, i), alpha, beta)
    decreases depth, 0, |PossibleMoves(g)| - i, 0
  {
    AlphaBetaClamp(Place(g, PossibleMoves(g)[i], Opponent(me)), depth - 1, alpha, beta, true, me);
  }

  /** The score algebra of one step of the max loop. */
  lemma MaxStep(alpha0: Score, alpha: Score, beta: Score, best: Score, acc: Score, v: Score, c: Score, rest: Score)
    requires Lt(alpha0, beta) && alpha == Max(alpha0, best) && Lt(alpha, beta)
    requires Clamp(best, alpha0, beta) == Clamp(acc, alpha0, beta)
    requires Clamp(v, alpha, beta) == Clamp(c, alpha, beta)
    requires Le(Max(acc, c), rest)
    ensures Le(beta, Max(alpha, v)) ==> Clamp(Max(best, v), alpha0, beta) == Clamp(rest, alpha0, beta)
    ensures !Le(beta, Max(alpha, v)) ==> Max(alpha, v) == Max(alpha0, Max(best, v))
    ensures !Le(beta, Max(alpha, v)) ==> Clamp(Max(best, v), alpha0, beta) == Clamp(Max(acc, c), alpha0, beta)
  {
    MaxAssoc(alpha0, best, v);
    ClampMax(best, v, alpha0, beta);
    ClampMax(acc, c, alpha0, beta);
    ClampRaise(v, alpha0, alpha, beta);
    ClampRaise(c, alpha0, alpha, beta);
    if Le(beta, Max(alpha, v)) {
      ClampTop(Max(acc, c), rest, alpha0, beta);
    }
  }

  /** Once a value reaches the top of the window, anything above it is cut to the top as well. */
  lemma ClampTop(x: Score, y: Score, lo: Score, hi: Score)
    requires Lt(lo, hi) && Clamp(x, lo, hi) == hi && Le(x, y)
    ensures Clamp(y, lo, hi) == hi
  {
  }

  lemma ClampBottom(x: Score, y: Score, lo: Score, hi: Score)
    requires Lt(lo, hi) && Clamp(x, lo, hi) == lo && Le(y, x)
    ensures Clamp(y, lo, hi) == lo
  {
  }

  /** The min loop, dually: entered with beta == Min(beta0, best) above alpha. */
  lemma {:induction false} MinLoopClamp(g: Grid, depth: nat, me: int, i: nat, beta0: Score, alpha: Score,
                                        beta: Score, best: Score, acc: Score)
    requires Square(g) && 1 <= depth && i <= |PossibleMoves(g)|
    requires Lt(alpha, beta0) && beta == Min(beta0, best) && Lt(alpha, beta)
    requires Clamp(best, alpha, beta0) == Clamp(acc, alpha, beta0)
    ensures Clamp(MinLoop(g, depth, me, i, alpha, beta, best), alpha, beta0)
         == Clamp(MinValue(g, depth, me, i, acc), alpha, beta0)
    decreases depth, 0, |PossibleMoves(g)| - i, 1
  {
    if i < |PossibleMoves(g)| {
      var v, c := ReplyScore(g, depth, me, i, alpha, beta), ReplyValue(g, depth, me, i);
      ReplyClamp(g, depth, me, i, alpha, beta);
      MinLoopStep(g, depth, me, i, alpha, beta, best, Place(g, PossibleMoves(g)[i], Opponent(me)), v);
      MinValueBelow(g, depth, me, i + 1, Min(acc, c));
      MinStep(beta0, alpha, beta, best, acc, v, c, MinValue(g, depth, me, i + 1, Min(acc, c)));
      if !Le(Min(beta, v), alpha) {
        MinLoopClamp(g, depth, me, i + 1, beta0, alpha, Min(beta, v), Min(best, v), Min(acc, c));
      }
    }
  }

  /** The score algebra of one step of the min loop. */
  lemma MinStep(beta0: Score, alpha: Score, beta: Score, best: Score, acc: Score, v: Score, c: Score, rest: Score)
    requires Lt(alpha, beta0) && beta == Min(beta0, best) && Lt(alpha, beta)
    requires Clamp(best, alpha, beta0) == Clamp(acc, alpha, beta0)
    requires Clamp(v, alpha, beta) == Clamp(c, alpha, beta)
    requires Le(rest, Min(acc, c))
    ensures Le(Min(beta, v), alpha) ==> Clamp(Min(best, v), alpha, beta0) == Clamp(rest, alpha, beta0)
    ensures !Le(Min(beta, v), alpha) ==> Min(beta, v) == Min(beta0, Min(best, v))
    ensures !Le(Min(beta, v), alpha) ==> Clamp(Min(best, v), alpha, beta0) == Clamp(Min(acc, c), alpha, beta0)
  {
    MinAssoc(beta0, best, v);
    ClampMin(best, v, alpha, beta0);
    ClampMin(acc, c, alpha, beta0);
    ClampLower(v, alpha, beta, beta0);
    ClampLower(c, alpha, beta, beta0);
    if Le(Min(beta, v), alpha) {
      ClampBottom(Min(acc, c), rest, alpha, beta0);
    }
  }

  /** With the full window alpha-beta returns exactly the minimax value. */
  lemma AlphaBetaFullWindow(g: Grid, depth: nat, maximizing: bool, me: int)
    requires Square(g)
    ensures AlphaBeta(g, depth, NegInf, PosInf, maximizing, me) == Value(g, depth, maximizing, me)
  {
    AlphaBetaClamp(g, depth, NegInf, PosInf, maximizing, me);
    ClampFull(AlphaBeta(g, depth, NegInf, PosInf, maximizing, me));
    ClampFull(Value(g, depth, maximizing, me));
  }

  /**
   * The usual alpha-beta guarantees: a value strictly inside the window is returned exactly, a value at or below alpha
   * gives a result at or below alpha, and a value at or above beta a result at or above beta.
   */
  lemma AlphaBetaBounds(g: Grid, depth: nat, alpha: Score, beta: Score, maximizing: bool, me: int)
    requires Square(g) && Lt(alpha, beta)
    ensures var v, r := Value(g, depth, maximizing, me), AlphaBeta(g, depth, alpha, beta, maximizing, me);
            && (Lt(alpha, v) && Lt(v, beta) ==> r == v)
            && (Le(v, alpha) ==> Le(r, alpha))
            && (Le(beta, v) ==> Le(beta, r))
  {
    AlphaBetaClamp(g, depth, alpha, beta, maximizing, me);
  }

  // The choice at the root

  /**
   * The root loop from move i on: each move is scored by a min-node search one ply shallower with window
   * (alpha, +infinity), and a move whose score beats alpha becomes the best move and raises alpha.
   */
  function RootLoop(g: Grid, depth: nat, me: int, i: nat, alpha: Score, best: Option<Cell>): Option<Cell>
    requires Square(g) && 1 <= depth && i <= |PossibleMoves(g)|
    decreases |PossibleMoves(g)| - i
  {
    var ms := PossibleMoves(g);
    if i == |ms| then best
    else
      var score := AlphaBeta(Place(g, ms[i], me), depth - 1, alpha, PosInf, false, me);
      if Lt(alpha, score) then RootLoop(g, depth, me, i + 1, score, Some(ms[i]))
      else RootLoop(g, depth, me, i + 1, alpha, best)
  }

  /** The move the player picks: the best move of the root loop, or the first possible move when none beat -infinity. */
  function BestMove(g: Grid, depth: nat, me: int): Cell
    requires Square(g) && 1 <= depth && PossibleMoves(g) != []
  {
    match RootLoop(g, depth, me, 0, NegInf, None)
    case Some(m) => m
    case None => PossibleMoves(g)[0]
  }

  /** The minimax values of the children of the root, one per possible move, me having moved. */
  function MoveValues(g: Grid, depth: nat, me: int): (vs: seq<Score>)
    requires Square(g) && 1 <= depth
    ensures |vs| == |PossibleMoves(g)|
  {
    seq(|PossibleMoves(g)|, k requires 0 <= k < |PossibleMoves(g)| => MoveValue(g, depth, me, k))
  }

  /**
   * After the first i entries of vs, alpha is their maximum (or -infinity) and best the entry of ms at the first index
   * reaching it, None when no entry beat -infinity.
   */
  ghost predicate FirstBestSoFar(vs: seq<Score>, ms: seq<Cell>, i: nat, alpha: Score, best: Option<Cell>)
    requires |vs| == |ms| && i <= |vs|
  {
    && (forall j | 0 <= j < i :: Le(vs[j], alpha))
    && (best.None? ==> alpha == NegInf)
    && (best.Some? ==> alpha != NegInf)
    && (best.Some? ==> exists k | 0 <= k < i :: best.value == ms[k] && alpha == vs[k] && forall j | 0 <= j < k :: Lt(vs[j], alpha))
  }

  /** Taking entry i into account the way the root loop does keeps FirstBestSoFar. */
  lemma FirstBestStep(vs: seq<Score>, ms: seq<Cell>, i: nat, alpha: Score, best: Option<Cell>)
    requires |vs| == |ms| && i < |vs| && FirstBestSoFar(vs, ms, i, alpha, best)
    ensures if Lt(alpha, vs[i]) then FirstBestSoFar(vs, ms, i + 1, vs[i], Some(ms[i]))
            else FirstBestSoFar(vs, ms, i + 1, alpha, best)
  {
    var c := vs[i];
    if Lt(alpha, c) {
      forall j | 0 <= j < i ensures Lt(vs[j], c) {
        LeOrder(vs[j], alpha, c);
      }
      LeOrder(alpha, c, c);
    } else {
      LeOrder(c, alpha, alpha);
    }
  }

  /** The root loop's choices, run over given scores vs instead of searching: the alpha and best move it ends with. */
  function FirstBest(vs: seq<Score>, ms: seq<Cell>, i: nat, alpha: Score, best: Option<Cell>): (Score, Option<Cell>)
    requires |vs| == |ms| && i <= |vs|
    decreases |vs| - i
  {
    if i == |vs| then (alpha, best)
    else if Lt(alpha, vs[i]) then FirstBest(vs, ms, i + 1, vs[i], Some(ms[i]))
    else FirstBest(vs, ms, i + 1, alpha, best)
  }

  /** One round of FirstBest. */
  lemma FirstBestNext(vs: seq<Score>, ms: seq<Cell>, i: nat, alpha: Score, best: Option<Cell>)
    requires |vs| == |ms| && i < |vs|
    ensures FirstBest(vs, ms, i, alpha, best) ==
            if Lt(alpha, vs[i]) then FirstBest(vs, ms, i + 1, vs[i], Some(ms[i])) else FirstBest(vs, ms, i + 1, alpha, best)
  {
  }

  /** Running the root loop's choices to the end turns FirstBestSoFar at i into FirstBestSoFar over all entries. */
  lemma {:induction false} FirstBestIsFirstBest(vs: seq<Score>, ms: seq<Cell>, i: nat, alpha: Score, best: Option<Cell>)
    requires |vs| == |ms| && i <= |vs| && FirstBestSoFar(vs, ms, i, alpha, best)
    ensures var r := FirstBest(vs, ms, i, alpha, best); FirstBestSoFar(vs, ms, |vs|, r.0, r.1)
    decreases |vs| - i
  {
    if i < |vs| {
      FirstBestStep(vs, ms, i, alpha, best);
      if Lt(alpha, vs[i]) {
        FirstBestIsFirstBest(vs, ms, i + 1, vs[i], Some(ms[i]));
      } else {
        FirstBestIsFirstBest(vs, ms, i + 1, alpha, best);
      }
    }
  }

  /** The root loop's choices record no move exactly when every value is minus infinity. */
  lemma FirstBestNone(vs: seq<Score>, ms: seq<Cell>)
    requires |vs| == |ms|
    ensures FirstBest(vs, ms, 0, NegInf, None).1 == None <==> forall j | 0 <= j < |vs| :: vs[j] == NegInf
  {
    FirstBestIsFirstBest(vs, ms, 0, NegInf, None);
  }

  /**
   * The score the root loop gives move i, a min-node search with window (alpha, +infinity), beats alpha exactly when
   * the move's minimax value does, and then equals it; that value is never +infinity.
   */
  lemma RootScore(g: Grid, depth: nat, me: int, i: nat, alpha: Score)
    requires Square(g) && 1 <= depth && i < |PossibleMoves(g)| && alpha != PosInf
    ensures var c := MoveValues(g, depth, me)[i];
            var score := AlphaBeta(Place(g, PossibleMoves(g)[i], me), depth - 1, alpha, PosInf, false, me);
            && c != PosInf && (Lt(alpha, score) <==> Lt(alpha, c)) && (Lt(alpha, c) ==> score == c)
  {
    var h := Place(g, PossibleMoves(g)[i], me);
    var c := MoveValues(g, depth, me)[i];
    assert c == Value(h, depth - 1, false, me);
    AlphaBetaClamp(h, depth - 1, alpha, PosInf, false, me);
    ValueFinite(h, depth - 1, false, me);
    RootStep(alpha, AlphaBeta(h, depth - 1, alpha, PosInf, false, me), c);
  }

  /** One round of the root loop, told in terms of the minimax value of move i. */
  lemma RootLoopStep(g: Grid, depth: nat, me: int, i: nat, alpha: Score, best: Option<Cell>)
    requires Square(g) && 1 <= depth && i < |PossibleMoves(g)| && alpha != PosInf
    ensures var c := MoveValues(g, depth, me)[i];
            && c != PosInf
            && RootLoop(g, depth, me, i, alpha, best) ==
               if Lt(alpha, c) then RootLoop(g, depth, me, i + 1, c, Some(PossibleMoves(g)[i]))
               else RootLoop(g, depth, me, i + 1, alpha, best)
  {
    RootScore(g, depth, me, i, alpha);
  }

  /** The root loop, run with the alpha-beta scores, makes the choices FirstBest makes with the minimax values. */
  lemma {:induction false} RootLoopIsFirstBest(g: Grid, depth: nat, me: int, i: nat, alpha: Score, best: Option<Cell>)
    requires Square(g) && 1 <= depth && i <= |PossibleMoves(g)| && alpha != PosInf
    ensures RootLoop(g, depth, me, i, alpha, best) == FirstBest(MoveValues(g, depth, me), PossibleMoves(g), i, alpha, best).1
    decreases |PossibleMoves(g)| - i
  {
    var ms, vs := PossibleMoves(g), MoveValues(g, depth, me);
    if i < |ms| {
      RootLoopStep(g, depth, me, i, alpha, best);
      FirstBestNext(vs, ms, i, alpha, best);
      var alpha', best' := if Lt(alpha, vs[i]) then vs[i] else alpha, if Lt(alpha, vs[i]) then Some(ms[i]) else best;
      RootLoopIsFirstBest(g, depth, me, i + 1, alpha', best');
    }
  }

  /** With window (alpha, +infinity), the search result beats alpha exactly when the minimax value does, and then equals it. */
  lemma RootStep(alpha: Score, score: Score, c: Score)
    requires alpha != PosInf && c != PosInf
    requires Clamp(score, alpha, PosInf) == Clamp(c, alpha, PosInf)
    ensures Lt(alpha, score) <==> Lt(alpha, c)
    ensures Lt(alpha, c) ==> score == c
  {
  }

  /**
   * The player's move is the first possible move of greatest minimax value, or the first possible move when every
   * move is worth minus infinity.
   */
  lemma BestMoveIsFirstArgmax(g: Grid, depth: nat, me: int)
    requires Square(g) && 1 <= depth && PossibleMoves(g) != []
    ensures var ms, vs := PossibleMoves(g), MoveValues(g, depth, me);
            exists k | 0 <= k < |ms| && BestMove(g, depth, me) == ms[k] ::
              && (forall j | 0 <= j < |ms| :: Le(vs[j], vs[k]))
              && (forall j | 0 <= j < k :: Lt(vs[j], vs[k]))
  {
    var ms, vs := PossibleMoves(g), MoveValues(g, depth, me);
    RootLoopIsFirstBest(g, depth, me, 0, NegInf, None);
    FirstBestIsFirstBest(vs, ms, 0, NegInf, None);
    var r := FirstBest(vs, ms, 0, NegInf, None);
    var alpha, best := r.0, r.1;
    if best.Some? {
      var k :| 0 <= k < |ms| && best.value == ms[k] && alpha == vs[k] && forall j | 0 <= j < k :: Lt(vs[j], alpha);
      assert BestMove(g, depth, me) == ms[k];
    } else {
      assert BestMove(g, depth, me) == ms[0];
      forall j | 0 <= j < |ms| ensures Le(vs[j], vs[0]) {
      }
    }
  }
}
