/**
 * The values the search compares: a real number, or one of the two infinities the player uses as its extreme
 * rewards. Order, maximum and minimum are those of the extended reals.
 */
module Scores {

  datatype Score = NegInf | Fin(v: real) | PosInf

  predicate Le(a: Score, b: Score)
  {
    match (a, b)
    case (NegInf, _) => true
    case (_, PosInf) => true
    case (Fin(x), Fin(y)) => x <= y
    case _ => false
  }

  predicate Lt(a: Score, b: Score)
  {
    !Le(b, a)
  }

  lemma LeOrder(a: Score, b: Score, c: Score)
    ensures Le(a, a)
    ensures Le(a, b) || Le(b, a)
    ensures Le(a, b) && Le(b, a) ==> a == b
    ensures Le(a, b) && Le(b, c) ==> Le(a, c)
  {
  }

  /** The larger of a and b; the first one when they are equal, as Python's max returns. */
  function Max(a: Score, b: Score): (r: Score)
    ensures Le(a, r) && Le(b, r)
    ensures r == a || r == b
  {
    if Lt(a, b) then b else a
  }

  /** The smaller of a and b; the first one when they are equal, as Python's min returns. */
  function Min(a: Score, b: Score): (r: Score)
    ensures Le(r, a) && Le(r, b)
    ensures r == a || r == b
  {
    if Lt(b, a) then b else a
  }

  lemma MaxAssoc(a: Score, b: Score, c: Score)
    ensures Max(Max(a, b), c) == Max(a, Max(b, c))
  {
  }

  lemma MinAssoc(a: Score, b: Score, c: Score)
    ensures Min(Min(a, b), c) == Min(a, Min(b, c))
  {
  }

  /** x cut to the window [lo, hi]. */
  function Clamp(x: Score, lo: Score, hi: Score): Score
  {
    Max(lo, Min(x, hi))
  }

  /** The clamped value lies in the window; a value inside is kept, one below or above is cut to the nearer end. */
  lemma ClampWindow(x: Score, lo: Score, hi: Score)
    ensures var r := Clamp(x, lo, hi);
            && (Le(lo, hi) ==> Le(lo, r) && Le(r, hi))
            && (Le(lo, x) && Le(x, hi) ==> r == x)
            && (Le(lo, hi) && Le(x, lo) ==> r == lo)
            && (Le(lo, hi) && Le(hi, x) ==> r == hi)
  {
  }

  /** The full window changes nothing. */
  lemma ClampFull(x: Score)
    ensures Clamp(x, NegInf, PosInf) == x
  {
  }

  /** Clamping commutes with taking a maximum. */
  lemma ClampMax(x: Score, y: Score, lo: Score, hi: Score)
    requires Le(lo, hi)
    ensures Max(Clamp(x, lo, hi), Clamp(y, lo, hi)) == Clamp(Max(x, y), lo, hi)
  {
  }

  /** Clamping commutes with taking a minimum. */
  lemma ClampMin(x: Score, y: Score, lo: Score, hi: Score)
    requires Le(lo, hi)
    ensures Min(Clamp(x, lo, hi), Clamp(y, lo, hi)) == Clamp(Min(x, y), lo, hi)
  {
  }

  /** Raising the lower bound of a window by a value inside it. */
  lemma ClampRaise(y: Score, lo: Score, lo': Score, hi: Score)
    requires Le(lo, lo') && Le(lo', hi)
    ensures Max(lo', Clamp(y, lo, hi)) == Clamp(y, lo', hi)
  {
  }

  /** Lowering the upper bound of a window by a value inside it. */
  lemma ClampLower(y: Score, lo: Score, hi': Score, hi: Score)
    requires Le(lo, hi') && Le(hi', hi)
    ensures Min(hi', Clamp(y, lo, hi)) == Clamp(y, lo, hi')
  {
  }
}
