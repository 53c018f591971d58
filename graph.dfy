/**
 * Breadth-first layers over a finite directed graph on cells. A search starts from a seed set S; Reach(k) is the
 * set of cells within k steps, Closure the set of every reachable cell and Hit the first layer that meets a target
 * set. Walks give each of these its path meaning.
 */
module Graphs {
  import opened Hex

  /** G[a] is the set of cells one step away from a; a cell outside the domain has no successors. */
  type Graph = map<Cell, set<Cell>>

  /** The cells one step away from some cell of A. */
  function Nbrs(G: Graph, A: set<Cell>): set<Cell>
  {
    set a, x | a in A && a in G && x in G[a] :: x
  }

  lemma NbrsIn(G: Graph, A: set<Cell>, x: Cell)
    ensures x in Nbrs(G, A) <==> exists a :: a in A && a in G && x in G[a]
  {
  }

  lemma NbrsMono(G: Graph, A: set<Cell>, B: set<Cell>)
    requires A <= B
    ensures Nbrs(G, A) <= Nbrs(G, B)
  {
  }

  lemma NbrsUnion(G: Graph, A: set<Cell>, B: set<Cell>)
    ensures Nbrs(G, A + B) == Nbrs(G, A) + Nbrs(G, B)
  {
  }

  lemma NbrsSingle(G: Graph, x: Cell)
    ensures Nbrs(G, {x}) == if x in G then G[x] else {}
  {
  }

  /** The neighbours of A + {x} are those of A and the successors of x. */
  lemma NbrsAdd(G: Graph, A: set<Cell>, x: Cell)
    requires x in G
    ensures Nbrs(G, A + {x}) == Nbrs(G, A) + G[x]
  {
    NbrsUnion(G, A, {x});
    NbrsSingle(G, x);
  }

  /** Every cell some edge leads to. */
  function Targets(G: Graph): set<Cell>
  {
    set a, x | a in G && x in G[a] :: x
  }

  lemma NbrsInTargets(G: Graph, A: set<Cell>)
    ensures Nbrs(G, A) <= Targets(G)
  {
  }

  function Step(G: Graph, A: set<Cell>): set<Cell>
  {
    A + Nbrs(G, A)
  }

  /** The cells within k steps of the seeds. */
  function Reach(G: Graph, S: set<Cell>, k: nat): set<Cell>
  {
    if k == 0 then S else Step(G, Reach(G, S, k - 1))
  }

  lemma {:induction false} ReachMono(G: Graph, S: set<Cell>, i: nat, j: nat)
    requires i <= j
    ensures Reach(G, S, i) <= Reach(G, S, j)
    decreases j
  {
    if i < j {
      ReachMono(G, S, i, j - 1);
    }
  }

  lemma {:induction false} ReachInTargets(G: Graph, S: set<Cell>, k: nat)
    ensures Reach(G, S, k) <= S + Targets(G)
  {
    if k > 0 {
      ReachInTargets(G, S, k - 1);
      NbrsInTargets(G, Reach(G, S, k - 1));
    }
  }

  /** Once a layer is closed under Nbrs, every later layer equals it. */
  lemma {:induction false} ReachStable(G: Graph, S: set<Cell>, m: nat, j: nat)
    requires m <= j
    requires Nbrs(G, Reach(G, S, m)) <= Reach(G, S, m)
    ensures Reach(G, S, j) == Reach(G, S, m)
    decreases j
  {
    if m < j {
      ReachStable(G, S, m, j - 1);
    }
  }

  /** Every layer lies inside any superset of the seeds that is closed under Nbrs. */
  lemma {:induction false} ReachInClosed(G: Graph, S: set<Cell>, C: set<Cell>, k: nat)
    requires S <= C && Nbrs(G, C) <= C
    ensures Reach(G, S, k) <= C
  {
    if k > 0 {
      ReachInClosed(G, S, C, k - 1);
      NbrsMono(G, Reach(G, S, k - 1), C);
    }
  }

  /** The first layer from k on that is closed under Nbrs. */
  function FixLevel(G: Graph, S: set<Cell>, k: nat): (j: nat)
    ensures k <= j
    ensures Nbrs(G, Reach(G, S, j)) <= Reach(G, S, j)
    decreases |S + Targets(G)| - |Reach(G, S, k)|
  {
    var R := Reach(G, S, k);
    if Nbrs(G, R) <= R then k
    else
      ReachInTargets(G, S, k + 1);
      SubsetCard(Reach(G, S, k + 1), S + Targets(G));
      ProperSubsetCard(R, Reach(G, S, k + 1));
      FixLevel(G, S, k + 1)
  }

  /** Every cell reachable from the seeds. */
  function Closure(G: Graph, S: set<Cell>): set<Cell>
  {
    Reach(G, S, FixLevel(G, S, 0))
  }

  /** The closure lies inside every superset of the seeds that is closed under Nbrs. */
  lemma ClosureLeast(G: Graph, S: set<Cell>, C: set<Cell>)
    requires S <= C && Nbrs(G, C) <= C
    ensures Closure(G, S) <= C
  {
    ReachInClosed(G, S, C, FixLevel(G, S, 0));
  }

  /** The closure holds the seeds, is closed under Nbrs and holds nothing but seeds and edge targets. */
  lemma ClosureClosed(G: Graph, S: set<Cell>)
    ensures S <= Closure(G, S) <= S + Targets(G)
    ensures Nbrs(G, Closure(G, S)) <= Closure(G, S)
  {
    ReachMono(G, S, 0, FixLevel(G, S, 0));
    ReachInTargets(G, S, FixLevel(G, S, 0));
  }

  /** One more step from a reachable cell stays reachable. */
  lemma ClosureStep(G: Graph, S: set<Cell>, x: Cell, y: Cell)
    requires x in Closure(G, S) && x in G && y in G[x]
    ensures y in Closure(G, S)
  {
    ClosureClosed(G, S);
    assert y in Nbrs(G, Closure(G, S));
  }

  /** A cell is in the closure exactly when it lies in some layer. */
  lemma ClosureIsReach(G: Graph, S: set<Cell>, x: Cell)
    ensures x in Closure(G, S) <==> exists k: nat :: x in Reach(G, S, k)
  {
    if exists k: nat :: x in Reach(G, S, k) {
      var k: nat :| x in Reach(G, S, k);
      ClosureClosed(G, S);
      ReachInClosed(G, S, Closure(G, S), k);
    }
  }

  /** The closure of a subset of the closure lies inside it. */
  lemma ClosureOfSubset(G: Graph, S: set<Cell>, T: set<Cell>)
    requires T <= Closure(G, S)
    ensures Closure(G, T) <= Closure(G, S)
  {
    ClosureClosed(G, S);
    ClosureLeast(G, T, Closure(G, S));
  }

  /** After a closed layer, no later layer meets E unless that layer does. */
  lemma NoHitAfter(G: Graph, S: set<Cell>, E: set<Cell>, k: nat)
    requires Nbrs(G, Reach(G, S, k)) <= Reach(G, S, k)
    requires forall j: nat | j <= k :: Reach(G, S, j) * E == {}
    ensures forall j: nat :: Reach(G, S, j) * E == {}
  {
    forall j: nat ensures Reach(G, S, j) * E == {} {
      if j > k {
        ReachStable(G, S, k, j);
      }
    }
  }

  /** The first layer from k on that meets E, given that no earlier one does; None when the layers close first. */
  function HitFrom(G: Graph, S: set<Cell>, E: set<Cell>, k: nat): (r: Option<nat>)
    requires forall j: nat | j < k :: Reach(G, S, j) * E == {}
    ensures r.Some? ==> Reach(G, S, r.value) * E != {}
    ensures r.Some? ==> forall j: nat | j < r.value :: Reach(G, S, j) * E == {}
    ensures r.None? ==> forall j: nat :: Reach(G, S, j) * E == {}
    decreases |S + Targets(G)| - |Reach(G, S, k)|
  {
    var R := Reach(G, S, k);
    if R * E != {} then Some(k)
    else if Nbrs(G, R) <= R then
      NoHitAfter(G, S, E, k);
      None
    else
      HitGrows(G, S, E, k);
      HitFrom(G, S, E, k + 1)
  }

  /** A layer that misses E and is not closed passes the search on to a strictly larger next layer. */
  lemma HitGrows(G: Graph, S: set<Cell>, E: set<Cell>, k: nat)
    requires forall j: nat | j < k :: Reach(G, S, j) * E == {}
    requires Reach(G, S, k) * E == {} && !(Nbrs(G, Reach(G, S, k)) <= Reach(G, S, k))
    ensures forall j: nat | j < k + 1 :: Reach(G, S, j) * E == {}
    ensures |Reach(G, S, k)| < |Reach(G, S, k + 1)| <= |S + Targets(G)|
  {
    ReachInTargets(G, S, k + 1);
    SubsetCard(Reach(G, S, k + 1), S + Targets(G));
    ProperSubsetCard(Reach(G, S, k), Reach(G, S, k + 1));
  }

  /** The least number of steps from S into E, or None when E is unreachable. */
  function Hit(G: Graph, S: set<Cell>, E: set<Cell>): Option<nat>
  {
    HitFrom(G, S, E, 0)
  }

  /** Hit is the first layer that meets E. */
  lemma HitAt(G: Graph, S: set<Cell>, E: set<Cell>, d: nat)
    requires Reach(G, S, d) * E != {}
    requires d == 0 || Reach(G, S, d - 1) * E == {}
    ensures Hit(G, S, E) == Some(d)
  {
    var h := Hit(G, S, E);
    if h.Some? && h.value < d {
      ReachMono(G, S, h.value, d - 1);
    }
  }

  /** Hit is None once a closed layer misses E. */
  lemma HitNone(G: Graph, S: set<Cell>, E: set<Cell>, d: nat)
    requires Nbrs(G, Reach(G, S, d)) <= Reach(G, S, d)
    requires Reach(G, S, d) * E == {}
    ensures Hit(G, S, E) == None
  {
    var h := Hit(G, S, E);
    if h.Some? {
      if h.value <= d {
        ReachMono(G, S, h.value, d);
      } else {
        ReachStable(G, S, d, h.value);
      }
    }
  }

  /** A walk from the seeds: it starts at a seed and each later cell is one step from the one before. */
  ghost predicate IsWalk(G: Graph, S: set<Cell>, p: seq<Cell>)
  {
    && |p| > 0
    && p[0] in S
    && forall i | 0 <= i < |p| - 1 :: p[i] in G && p[i + 1] in G[p[i]]
  }

  lemma WalkExtend(G: Graph, S: set<Cell>, p: seq<Cell>, x: Cell)
    requires IsWalk(G, S, p) && p[|p| - 1] in G && x in G[p[|p| - 1]]
    ensures IsWalk(G, S, p + [x])
  {
    var q := p + [x];
    forall i | 0 <= i < |q| - 1 ensures q[i] in G && q[i + 1] in G[q[i]] {
      if i < |p| - 1 {
        assert q[i] == p[i] && q[i + 1] == p[i + 1];
      }
    }
  }

  lemma {:induction false} ReachHasWalk(G: Graph, S: set<Cell>, k: nat, x: Cell)
    requires x in Reach(G, S, k)
    ensures exists p :: IsWalk(G, S, p) && p[|p| - 1] == x && |p| <= k + 1
  {
    if k == 0 {
      assert IsWalk(G, S, [x]);
    } else {
      var R := Reach(G, S, k - 1);
      if x in R {
        ReachHasWalk(G, S, k - 1, x);
      } else {
        assert x in Nbrs(G, R);
        var a :| a in R && a in G && x in G[a];
        ReachHasWalk(G, S, k - 1, a);
        var p :| IsWalk(G, S, p) && p[|p| - 1] == a && |p| <= k;
        WalkExtend(G, S, p, x);
        assert (p + [x])[|p + [x]| - 1] == x;
      }
    }
  }

  lemma {:induction false} WalkInReach(G: Graph, S: set<Cell>, p: seq<Cell>)
    requires IsWalk(G, S, p)
    ensures p[|p| - 1] in Reach(G, S, |p| - 1)
  {
    if |p| > 1 {
      var q := p[..|p| - 1];
      assert IsWalk(G, S, q);
      WalkInReach(G, S, q);
      assert p[|p| - 2] == q[|q| - 1];
      NbrsIn(G, Reach(G, S, |q| - 1), p[|p| - 1]);
    }
  }

  /** A cell is within k steps exactly when a walk of at most k steps ends at it. */
  lemma ReachIffWalk(G: Graph, S: set<Cell>, k: nat, x: Cell)
    ensures x in Reach(G, S, k) <==> exists p :: IsWalk(G, S, p) && p[|p| - 1] == x && |p| <= k + 1
  {
    if x in Reach(G, S, k) {
      ReachHasWalk(G, S, k, x);
    }
    if exists p :: IsWalk(G, S, p) && p[|p| - 1] == x && |p| <= k + 1 {
      var p :| IsWalk(G, S, p) && p[|p| - 1] == x && |p| <= k + 1;
      WalkInReach(G, S, p);
      ReachMono(G, S, |p| - 1, k);
    }
  }

  /** A cell is in the closure exactly when some walk from the seeds ends at it. */
  lemma ClosureIffWalk(G: Graph, S: set<Cell>, x: Cell)
    ensures x in Closure(G, S) <==> exists p :: IsWalk(G, S, p) && p[|p| - 1] == x
  {
    ClosureIsReach(G, S, x);
    if x in Closure(G, S) {
      var k: nat :| x in Reach(G, S, k);
      ReachIffWalk(G, S, k, x);
    }
    if exists p :: IsWalk(G, S, p) && p[|p| - 1] == x {
      var p :| IsWalk(G, S, p) && p[|p| - 1] == x;
      ReachIffWalk(G, S, |p| - 1, x);
    }
  }

  /**
   * Hit is the least number of steps: Some(k) means some walk of k steps from S ends in E and no shorter walk
   * does; None means no walk from S ends in E.
   */
  lemma HitIsShortestWalk(G: Graph, S: set<Cell>, E: set<Cell>)
    ensures Hit(G, S, E).Some? ==>
              exists p :: IsWalk(G, S, p) && p[|p| - 1] in E && |p| - 1 == Hit(G, S, E).value
    ensures forall p | IsWalk(G, S, p) && p[|p| - 1] in E :: Hit(G, S, E).Some? && Hit(G, S, E).value <= |p| - 1
  {
    var h := Hit(G, S, E);
    forall p | IsWalk(G, S, p) && p[|p| - 1] in E
      ensures h.Some? && h.value <= |p| - 1
    {
      WalkInReach(G, S, p);
      assert p[|p| - 1] in Reach(G, S, |p| - 1) * E;
    }
    if h.Some? {
      var x :| x in Reach(G, S, h.value) * E;
      ReachIffWalk(G, S, h.value, x);
      var p :| IsWalk(G, S, p) && p[|p| - 1] == x && |p| <= h.value + 1;
      assert h.value <= |p| - 1;
    }
  }

  /** Within C, every edge can be walked back. */
  ghost predicate Reversible(G: Graph, C: set<Cell>)
  {
    forall a, x | a in C && a in G && x in G[a] :: x in G && a in G[x]
  }

  lemma ReverseStep(G: Graph, x: Cell, z: Cell, w: Cell)
    requires Reversible(G, Closure(G, {x}))
    requires z in Closure(G, {x}) && x in Closure(G, {z}) && z in G && w in G[z]
    ensures w in Closure(G, {x}) && x in Closure(G, {w})
  {
    ClosureClosed(G, {x});
    assert w in Nbrs(G, Closure(G, {x}));
    assert w in G && z in G[w];
    ClosureClosed(G, {w});
    assert z in Nbrs(G, {w});
    ClosureOfSubset(G, {w}, {z});
  }

  /** When the edges out of the closure of x can be walked back, x is reachable from every cell x reaches. */
  lemma ClosureSymmetric(G: Graph, x: Cell, y: Cell)
    requires Reversible(G, Closure(G, {x})) && y in Closure(G, {x})
    ensures x in Closure(G, {y})
  {
    var C := Closure(G, {x});
    var D := set z | z in C && x in Closure(G, {z});
    forall w | w in Nbrs(G, D) ensures w in D {
      var z :| z in D && z in G && w in G[z];
      ReverseStep(G, x, z, w);
    }
    ClosureClosed(G, {x});
    assert x in D;
    ClosureLeast(G, {x}, D);
  }

  /** The closure of a single cell holds every cell of its own closure: reachability is transitive. */
  lemma ClosureTransitive(G: Graph, x: Cell, y: Cell)
    requires y in Closure(G, {x})
    ensures Closure(G, {y}) <= Closure(G, {x})
  {
    ClosureOfSubset(G, {x}, {y});
  }
}
