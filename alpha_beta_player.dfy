/**
 * AlphaBetaPlayer: fail-soft alpha-beta search driven by iterative
 * deepening. AB is the reference for what a completed helper call returns
 * and how many timer checks it makes (the early returns of the pruning
 * included); the fail-soft window relates it to the minimax value, and the
 * root's alpha tightening makes the chosen move the minimax move.
 */
module AlphaBetaPlayer {
  import opened Scores
  import opened Board
  import opened TimeGuard
  import MinimaxPlayer

  /** The outcome of a completed search: its score and its timer checks. */
  datatype Search = Search(value: Score, calls: nat)

  /**
   * alphabeta_recursion_helper without the timer: the evaluation at depth 0
   * or without legal moves, otherwise the pruning loop over the children.
   */
  function AB(t: Tree, depth: nat, maximizing: bool, alpha: Score, beta: Score): Search
    decreases t, 1, 0
  {
    if depth == 0 || t.kids == [] then Search(Evaluate(t.pos), 1)
    else
      var s := if maximizing then MaxLoop(t, depth - 1, 0, alpha, beta, NegInf)
               else MinLoop(t, depth - 1, 0, alpha, beta, PosInf);
      Search(s.value, 1 + s.calls)
  }

  /**
   * The maximizing loop from child i on, with the current alpha and best:
   * stop as soon as best >= beta, else raise alpha to best and go on.
   */
  function MaxLoop(t: Tree, depth: nat, i: nat, alpha: Score, beta: Score, best: Score): Search
    requires i <= |t.kids|
    decreases t, 0, |t.kids| - i
  {
    if i == |t.kids| then Search(best, 0)
    else
      var c := AB(t.kids[i].child, depth, false, alpha, beta);
      var best' := Max(best, c.value);
      if Le(beta, best') then Search(best', c.calls)
      else
        var rest := MaxLoop(t, depth, i + 1, Max(alpha, best'), beta, best');
        Search(rest.value, c.calls + rest.calls)
  }

  /**
   * The minimizing loop from child i on, with the current beta and best:
   * stop as soon as best <= alpha, else lower beta to best and go on.
   */
  function MinLoop(t: Tree, depth: nat, i: nat, alpha: Score, beta: Score, best: Score): Search
    requires i <= |t.kids|
    decreases t, 0, |t.kids| - i
  {
    if i == |t.kids| then Search(best, 0)
    else
      var c := AB(t.kids[i].child, depth, true, alpha, beta);
      var best' := Min(best, c.value);
      if Le(best', alpha) then Search(best', c.calls)
      else
        var rest := MinLoop(t, depth, i + 1, alpha, Min(beta, best'), best');
        Search(rest.value, c.calls + rest.calls)
  }

  /**
   * The fail-soft window: an exact value v strictly inside (alpha, beta) is
   * returned as is; at or below alpha the result lies in [v, alpha]; at or
   * above beta it lies in [beta, v].
   */
  ghost predicate FailSoft(r: Score, v: Score, alpha: Score, beta: Score) {
    && (Le(v, alpha) ==> Le(v, r) && Le(r, alpha))
    && (Lt(alpha, v) && Lt(v, beta) ==> r == v)
    && (Le(beta, v) ==> Le(beta, r) && Le(r, v))
  }

  /** One non-pruning step of the maximizing loop keeps its invariant. */
  lemma MaxStep(alpha0: Score, beta: Score, best: Score, m: Score, c: Score, v: Score)
    requires Lt(alpha0, beta) && Lt(best, beta)
    requires Lt(alpha0, best) ==> best == m
    requires Le(best, alpha0) ==> Le(m, best)
    requires FailSoft(c, v, Max(alpha0, best), beta)
    requires Lt(Max(best, c), beta)
    ensures Lt(alpha0, Max(best, c)) ==> Max(best, c) == Max(m, v)
    ensures Le(Max(best, c), alpha0) ==> Le(Max(m, v), Max(best, c))
    ensures Max(Max(alpha0, best), Max(best, c)) == Max(alpha0, Max(best, c))
  {
  }

  /** One non-pruning step of the minimizing loop keeps its invariant. */
  lemma MinStep(alpha: Score, beta0: Score, best: Score, m: Score, c: Score, v: Score)
    requires Lt(alpha, beta0) && Lt(alpha, best)
    requires Lt(best, beta0) ==> best == m
    requires Le(beta0, best) ==> Le(best, m)
    requires FailSoft(c, v, alpha, Min(beta0, best))
    requires Lt(alpha, Min(best, c))
    ensures Lt(Min(best, c), beta0) ==> Min(best, c) == Min(m, v)
    ensures Le(beta0, Min(best, c)) ==> Le(Min(best, c), Min(m, v))
    ensures Min(Min(beta0, best), Min(best, c)) == Min(beta0, Min(best, c))
  {
  }

  /**
   * alphabeta_recursion_helper keeps the fail-soft window around the exact
   * minimax value of the node.
   */
  lemma {:induction false} AlphaBetaFailSoft(t: Tree, depth: nat, maximizing: bool, alpha: Score, beta: Score)
    requires Lt(alpha, beta)
    ensures FailSoft(AB(t, depth, maximizing, alpha, beta).value,
                     MinimaxPlayer.Value(t, depth, maximizing), alpha, beta)
    decreases t, 1, 0
  {
    if depth != 0 && t.kids != [] {
      if maximizing {
        MaxLoopFailSoft(t, depth - 1, 0, alpha, alpha, beta, NegInf);
      } else {
        MinLoopFailSoft(t, depth - 1, 0, alpha, beta, beta, PosInf);
      }
    }
  }

  lemma {:induction false} MaxLoopFailSoft(t: Tree, depth: nat, i: nat, alpha0: Score,
                                           alpha: Score, beta: Score, best: Score)
    requires i <= |t.kids|
    requires Lt(alpha0, beta) && Lt(best, beta) && alpha == Max(alpha0, best)
    requires Lt(alpha0, best) ==> best == MinimaxPlayer.Best(t, depth, true, i)
    requires Le(best, alpha0) ==> Le(MinimaxPlayer.Best(t, depth, true, i), best)
    ensures FailSoft(MaxLoop(t, depth, i, alpha, beta, best).value,
                     MinimaxPlayer.Best(t, depth, true, |t.kids|), alpha0, beta)
    decreases t, 0, |t.kids| - i
  {
    var n := |t.kids|;
    if i < n {
      var child := t.kids[i].child;
      var v := MinimaxPlayer.Value(child, depth, false);
      var c := AB(child, depth, false, alpha, beta).value;
      AlphaBetaFailSoft(child, depth, false, alpha, beta);
      MinimaxPlayer.BestMonotone(t, depth, true, i + 1, n);
      if Le(beta, Max(best, c)) {
        assert Le(v, MinimaxPlayer.Best(t, depth, true, i + 1));
      } else {
        MaxStep(alpha0, beta, best, MinimaxPlayer.Best(t, depth, true, i), c, v);
        MaxLoopFailSoft(t, depth, i + 1, alpha0, Max(alpha, Max(best, c)), beta, Max(best, c));
      }
    }
  }

  lemma {:induction false} MinLoopFailSoft(t: Tree, depth: nat, i: nat, alpha: Score,
                                           beta0: Score, beta: Score, best: Score)
    requires i <= |t.kids|
    requires Lt(alpha, beta0) && Lt(alpha, best) && beta == Min(beta0, best)
    requires Lt(best, beta0) ==> best == MinimaxPlayer.Best(t, depth, false, i)
    requires Le(beta0, best) ==> Le(best, MinimaxPlayer.Best(t, depth, false, i))
    ensures FailSoft(MinLoop(t, depth, i, alpha, beta, best).value,
                     MinimaxPlayer.Best(t, depth, false, |t.kids|), alpha, beta0)
    decreases t, 0, |t.kids| - i
  {
    var n := |t.kids|;
    if i < n {
      var child := t.kids[i].child;
      var v := MinimaxPlayer.Value(child, depth, true);
      var c := AB(child, depth, true, alpha, beta).value;
      AlphaBetaFailSoft(child, depth, true, alpha, beta);
      MinimaxPlayer.BestMonotone(t, depth, false, i + 1, n);
      if Le(Min(best, c), alpha) {
        assert Le(MinimaxPlayer.Best(t, depth, false, i + 1), v);
      } else {
        MinStep(alpha, beta0, best, MinimaxPlayer.Best(t, depth, false, i), c, v);
        MinLoopFailSoft(t, depth, i + 1, alpha, beta0, Min(beta, Min(best, c)), Min(best, c));
      }
    }
  }

  /** With the full window (-inf, +inf) the helper returns the exact minimax value. */
  lemma FullWindowIsExact(t: Tree, depth: nat, maximizing: bool)
    ensures AB(t, depth, maximizing, NegInf, PosInf).value == MinimaxPlayer.Value(t, depth, maximizing)
  {
    AlphaBetaFailSoft(t, depth, maximizing, NegInf, PosInf);
  }

  /** Pruning only saves work: the helper never makes more timer checks than minimax's. */
  lemma {:induction false} PruningSavesChecks(t: Tree, depth: nat, maximizing: bool, alpha: Score, beta: Score)
    ensures AB(t, depth, maximizing, alpha, beta).calls <= MinimaxPlayer.Calls(t, depth)
    decreases t, 1, 0
  {
    if depth != 0 && t.kids != [] {
      if maximizing {
        MaxLoopSavesChecks(t, depth - 1, 0, alpha, beta, NegInf);
      } else {
        MinLoopSavesChecks(t, depth - 1, 0, alpha, beta, PosInf);
      }
    }
  }

  lemma {:induction false} MaxLoopSavesChecks(t: Tree, depth: nat, i: nat, alpha: Score, beta: Score, best: Score)
    requires i <= |t.kids|
    ensures MinimaxPlayer.ChildCalls(t, depth, i) + MaxLoop(t, depth, i, alpha, beta, best).calls
         <= MinimaxPlayer.ChildCalls(t, depth, |t.kids|)
    decreases t, 0, |t.kids| - i
  {
    if i < |t.kids| {
      var c := AB(t.kids[i].child, depth, false, alpha, beta);
      PruningSavesChecks(t.kids[i].child, depth, false, alpha, beta);
      var best' := Max(best, c.value);
      if Le(beta, best') {
        MinimaxPlayer.ChildCallsMonotone(t, depth, i + 1, |t.kids|);
      } else {
        MaxLoopSavesChecks(t, depth, i + 1, Max(alpha, best'), beta, best');
      }
    }
  }

  lemma {:induction false} MinLoopSavesChecks(t: Tree, depth: nat, i: nat, alpha: Score, beta: Score, best: Score)
    requires i <= |t.kids|
    ensures MinimaxPlayer.ChildCalls(t, depth, i) + MinLoop(t, depth, i, alpha, beta, best).calls
         <= MinimaxPlayer.ChildCalls(t, depth, |t.kids|)
    decreases t, 0, |t.kids| - i
  {
    if i < |t.kids| {
      var c := AB(t.kids[i].child, depth, true, alpha, beta);
      PruningSavesChecks(t.kids[i].child, depth, true, alpha, beta);
      var best' := Min(best, c.value);
      if Le(best', alpha) {
        MinimaxPlayer.ChildCallsMonotone(t, depth, i + 1, |t.kids|);
      } else {
        MinLoopSavesChecks(t, depth, i + 1, alpha, Min(beta, best'), best');
      }
    }
  }

  /** The root's move-to-score map, in legal-move order, and its timer checks. */
  datatype Scan = Scan(scores: seq<Score>, calls: nat)

  /**
   * The root loop of alphabeta from the child after `done` on: each child is
   * searched as a minimizing node with the current alpha and the root's beta,
   * and alpha is then raised to that child's score.
   */
  function RootScan(t: Tree, depth: nat, alpha: Score, beta: Score, done: seq<Score>): (s: Scan)
    requires |done| <= |t.kids|
    ensures |s.scores| == |t.kids| && s.scores[..|done|] == done
    decreases |t.kids| - |done|
  {
    if |done| == |t.kids| then Scan(done, 0)
    else
      var c := AB(t.kids[|done|].child, depth, false, alpha, beta);
      var rest := RootScan(t, depth, Max(alpha, c.value), beta, done + [c.value]);
      assert rest.scores[..|done|] == (done + [c.value])[..|done|];
      Scan(rest.scores, c.calls + rest.calls)
  }

  /** Timer checks made by a completed alphabeta root call. */
  function RootCost(t: Tree, depth: nat, alpha: Score, beta: Score): nat
    requires depth >= 1
  {
    1 + RootScan(t, depth - 1, alpha, beta, []).calls
  }

  /** The move a completed alphabeta root call returns. */
  function RootMove(t: Tree, depth: nat, alpha: Score, beta: Score): Move
    requires depth >= 1
  {
    if t.kids == [] then NoMove
    else t.kids[FirstArgMax(RootScan(t, depth - 1, alpha, beta, []).scores)].move
  }

  /**
   * At the root beta is +inf, so a child searched with the current alpha
   * raises alpha exactly as its minimax value would.
   */
  lemma RootStep(alpha: Score, c: Score, v: Score)
    requires alpha == PosInf || FailSoft(c, v, alpha, PosInf)
    ensures Max(alpha, c) == Max(alpha, v)
  {
  }

  /**
   * When alpha starts at -inf and beta at +inf, alpha after each sibling is
   * the maximum of the scores returned so far, and every prefix of the
   * root's scores has the same maximum as the minimax scores of those
   * children.
   */
  lemma {:induction false} RootScanAgrees(t: Tree, depth: nat, alpha: Score, done: seq<Score>)
    requires |done| <= |t.kids|
    requires alpha == MaxOf(done)
    requires SamePrefixMaxima(done, MinimaxPlayer.ChildValues(t, depth, false)[..|done|])
    ensures SamePrefixMaxima(RootScan(t, depth, alpha, PosInf, done).scores,
                             MinimaxPlayer.ChildValues(t, depth, false))
    decreases |t.kids| - |done|
  {
    var vs := MinimaxPlayer.ChildValues(t, depth, false);
    var k := |done|;
    if k == |t.kids| {
      assert vs[..k] == vs;
    } else {
      var child := t.kids[k].child;
      var c := AB(child, depth, false, alpha, PosInf).value;
      var v := vs[k];
      if alpha != PosInf {
        AlphaBetaFailSoft(child, depth, false, alpha, PosInf);
      }
      RootStep(alpha, c, v);
      var done' := done + [c];
      assert done'[..k] == done;
      assert MaxOf(done) == MaxOf(vs[..k]) by {
        assert done[..k] == done && vs[..k][..k] == vs[..k];
      }
      forall i | 0 <= i <= k + 1
        ensures MaxOf(done'[..i]) == MaxOf(vs[..k + 1][..i])
      {
        if i <= k {
          assert done'[..i] == done[..i];
          assert vs[..k + 1][..i] == vs[..k][..i];
        } else {
          assert done'[..i] == done';
          assert vs[..k + 1][..i] == vs[..k + 1];
          assert vs[..k + 1][..k] == vs[..k];
        }
      }
      RootScanAgrees(t, depth, Max(alpha, c), done');
    }
  }

  lemma {:induction false} RootScanSavesChecks(t: Tree, depth: nat, alpha: Score, beta: Score, done: seq<Score>)
    requires |done| <= |t.kids|
    ensures MinimaxPlayer.ChildCalls(t, depth, |done|) + RootScan(t, depth, alpha, beta, done).calls
         <= MinimaxPlayer.ChildCalls(t, depth, |t.kids|)
    decreases |t.kids| - |done|
  {
    if |done| < |t.kids| {
      var c := AB(t.kids[|done|].child, depth, false, alpha, beta);
      PruningSavesChecks(t.kids[|done|].child, depth, false, alpha, beta);
      RootScanSavesChecks(t, depth, Max(alpha, c.value), beta, done + [c.value]);
    }
  }

  /**
   * An alphabeta root call never makes more timer checks than a minimax root
   * call at the same depth, so whenever minimax(game, depth) finishes in
   * time, alphabeta(game, depth) does too.
   */
  lemma AlphaBetaNoCostlier(t: Tree, depth: nat, alpha: Score, beta: Score)
    requires depth >= 1
    ensures RootCost(t, depth, alpha, beta) <= MinimaxPlayer.RootCalls(t, depth)
  {
    RootScanSavesChecks(t, depth - 1, alpha, beta, []);
  }

  /**
   * Started with alpha at -inf, the root loop's scores have minimax's prefix
   * maxima, so they pick the same first-maximal position.
   */
  lemma RootChoiceAgrees(t: Tree, depth: nat)
    requires t.kids != []
    ensures FirstArgMax(RootScan(t, depth, NegInf, PosInf, []).scores)
         == FirstArgMax(MinimaxPlayer.ChildValues(t, depth, false))
  {
    assert MinimaxPlayer.ChildValues(t, depth, false)[..0] == [];
    RootScanAgrees(t, depth, NegInf, []);
    FirstArgMaxByPrefixMaxima(RootScan(t, depth, NegInf, PosInf, []).scores,
                              MinimaxPlayer.ChildValues(t, depth, false));
  }

  /**
   * Pruning never changes the root's choice: with the default window
   * alphabeta(game, depth) returns the move minimax(game, depth) does.
   */
  lemma AlphaBetaAgreesWithMinimax(t: Tree, depth: nat)
    requires depth >= 1
    ensures RootMove(t, depth, NegInf, PosInf) == MinimaxPlayer.BestMove(t, depth)
  {
    if t.kids != [] {
      RootChoiceAgrees(t, depth - 1);
    }
  }

  /**
   * alphabeta_recursion_helper: check the timer, score the node at depth 0
   * or without legal moves, else run the maximizing or minimizing loop.
   */
  method AlphaBetaHelper(t: Tree, depth: nat, maximizing: bool, alpha: Score, beta: Score, budget: nat)
    returns (r: Result<Score>, left: nat)
    ensures var s := AB(t, depth, maximizing, alpha, beta);
      s.calls <= budget ==> r == Ok(s.value) && left == budget - s.calls
    ensures AB(t, depth, maximizing, alpha, beta).calls > budget ==> r == Timeout && left == 0
    decreases t, 1
  {
    if budget == 0 {
      return Timeout, 0;
    }
    var time := budget - 1;
    if depth == 0 {
      return Ok(Evaluate(t.pos)), time;
    }
    var legalMoves := t.kids;
    if legalMoves == [] {
      return Ok(Evaluate(t.pos)), time;
    }
    if maximizing {
      r, left := MaximizerLoop(t, depth - 1, alpha, beta, time);
    } else {
      r, left := MinimizerLoop(t, depth - 1, alpha, beta, time);
    }
  }

  /**
   * The maximizing branch of alphabeta_recursion_helper: fold the children's
   * scores into best with max, return best as soon as it reaches beta, and
   * raise alpha to best after every other child.
   */
  method MaximizerLoop(t: Tree, depth: nat, alpha: Score, beta: Score, budget: nat)
    returns (r: Result<Score>, left: nat)
    requires t.kids != []
    ensures var s := MaxLoop(t, depth, 0, alpha, beta, NegInf);
      s.calls <= budget ==> r == Ok(s.value) && left == budget - s.calls
    ensures MaxLoop(t, depth, 0, alpha, beta, NegInf).calls > budget ==> r == Timeout && left == 0
    decreases t, 0
  {
    ghost var total := MaxLoop(t, depth, 0, alpha, beta, NegInf);
    ghost var used := 0;
    var legalMoves := t.kids;
    var time := budget;
    var best := NegInf;
    var a := alpha;
    var i := 0;
    while i < |legalMoves|
      invariant 0 <= i <= |legalMoves|
      invariant used <= budget && time == budget - used
      invariant MaxLoop(t, depth, i, a, beta, best).value == total.value
      invariant used + MaxLoop(t, depth, i, a, beta, best).calls == total.calls
    {
      var score, rest := AlphaBetaHelper(legalMoves[i].child, depth, false, a, beta, time);
      if score.Timeout? {
        return Timeout, 0;
      }
      best := Max(best, score.value);
      if Le(beta, best) {
        return Ok(best), rest;
      }
      a := Max(a, best);
      used := used + (time - rest);
      time := rest;
      i := i + 1;
    }
    return Ok(best), time;
  }

  /**
   * The minimizing branch of alphabeta_recursion_helper: fold the children's
   * scores into best with min, return best as soon as it reaches alpha, and
   * lower beta to best after every other child.
   */
  method MinimizerLoop(t: Tree, depth: nat, alpha: Score, beta: Score, budget: nat)
    returns (r: Result<Score>, left: nat)
    requires t.kids != []
    ensures var s := MinLoop(t, depth, 0, alpha, beta, PosInf);
      s.calls <= budget ==> r == Ok(s.value) && left == budget - s.calls
    ensures MinLoop(t, depth, 0, alpha, beta, PosInf).calls > budget ==> r == Timeout && left == 0
    decreases t, 0
  {
    ghost var total := MinLoop(t, depth, 0, alpha, beta, PosInf);
    ghost var used := 0;
    var legalMoves := t.kids;
    var time := budget;
    var best := PosInf;
    var b := beta;
    var i := 0;
    while i < |legalMoves|
      invariant 0 <= i <= |legalMoves|
      invariant used <= budget && time == budget - used
      invariant MinLoop(t, depth, i, alpha, b, best).value == total.value
      invariant used + MinLoop(t, depth, i, alpha, b, best).calls == total.calls
    {
      var score, rest := AlphaBetaHelper(legalMoves[i].child, depth, true, alpha, b, time);
      if score.Timeout? {
        return Timeout, 0;
      }
      best := Min(best, score.value);
      if Le(best, alpha) {
        return Ok(best), rest;
      }
      b := Min(b, best);
      used := used + (time - rest);
      time := rest;
      i := i + 1;
    }
    return Ok(best), time;
  }

  /**
   * alphabeta: check the timer; with no legal moves return (-1, -1) at once;
   * otherwise score every legal move with a minimizing helper call, raising
   * alpha after each, and return the first move of maximal score.
   */
  method AlphaBeta(t: Tree, depth: nat, alpha: Score, beta: Score, budget: nat)
    returns (r: Result<Move>, left: nat)
    requires depth >= 1
    ensures RootCost(t, depth, alpha, beta) <= budget ==>
      r == Ok(RootMove(t, depth, alpha, beta)) && left == budget - RootCost(t, depth, alpha, beta)
    ensures RootCost(t, depth, alpha, beta) > budget ==> r == Timeout && left == 0
    ensures t.kids == [] && budget > 0 ==> r == Ok(NoMove) && left == budget - 1
  {
    if budget == 0 {
      return Timeout, 0;
    }
    var time := budget - 1;
    var legalMoves := t.kids;
    if legalMoves == [] {
      return Ok(NoMove), time;
    }
    ghost var total := RootScan(t, depth - 1, alpha, beta, []);
    ghost var used := 0;
    var scores: seq<Score> := [];
    var a := alpha;
    var i := 0;
    while i < |legalMoves|
      invariant i == |scores| <= |legalMoves|
      invariant used < budget && time == budget - 1 - used
      invariant var s := RootScan(t, depth - 1, a, beta, scores);
        s.scores == total.scores && used + s.calls == total.calls
    {
      var score, rest := AlphaBetaHelper(legalMoves[i].child, depth - 1, false, a, beta, time);
      if score.Timeout? {
        return Timeout, 0;
      }
      scores := scores + [score.value];
      a := Max(a, score.value);
      used := used + (time - rest);
      time := rest;
      i := i + 1;
    }
    assert scores == total.scores;
    var best := FirstArgMax(scores);
    return Ok(legalMoves[best].move), time;
  }

  /** Timer checks made by the iterations at depths 1 to k. */
  function CumulativeCost(t: Tree, k: nat): nat {
    if k == 0 then 0 else CumulativeCost(t, k - 1) + RootCost(t, k, NegInf, PosInf)
  }

  /**
   * The last depth whose iteration completes when iterations start at
   * `depth` with `budget` checks left: each completed one uses its cost and
   * the first that cannot be paid for times out.
   */
  function LastCompletedDepth(t: Tree, depth: nat, budget: nat): nat
    requires depth >= 1
    decreases budget
  {
    var cost := RootCost(t, depth, NegInf, PosInf);
    if cost <= budget then LastCompletedDepth(t, depth + 1, budget - cost) else depth - 1
  }

  /** The last completed depth is the largest whose iterations fit in the budget. */
  lemma {:induction false} LastCompletedIsLargest(t: Tree, depth: nat, budget: nat)
    requires depth >= 1
    ensures var k := LastCompletedDepth(t, depth, budget);
      depth - 1 <= k && CumulativeCost(t, k) <= CumulativeCost(t, depth - 1) + budget < CumulativeCost(t, k + 1)
    decreases budget
  {
    var cost := RootCost(t, depth, NegInf, PosInf);
    if cost <= budget {
      LastCompletedIsLargest(t, depth + 1, budget - cost);
    }
  }

  /**
   * Iterative deepening from depth 1 completes exactly the depths 1..k whose
   * total cost fits in the budget, and depth k + 1 is the one that times out.
   */
  lemma DeepeningStopsAtLargest(t: Tree, budget: nat)
    ensures var k := LastCompletedDepth(t, 1, budget);
      CumulativeCost(t, k) <= budget < CumulativeCost(t, k + 1)
  {
    LastCompletedIsLargest(t, 1, budget);
  }

  /**
   * When the iteration at `depth` cannot be paid for, the move kept from the
   * previous iteration is the one the postcondition of GetMove describes.
   */
  lemma DeepeningStopsHere(t: Tree, budget: nat, depth: nat, time: nat, bestMove: Move)
    requires depth >= 1 && RootCost(t, depth, NegInf, PosInf) > time
    requires LastCompletedDepth(t, depth, time) == LastCompletedDepth(t, 1, budget)
    requires depth == 1 ==> bestMove == NoMove
    requires depth > 1 ==> bestMove == RootMove(t, depth - 1, NegInf, PosInf)
    ensures LastCompletedDepth(t, 1, budget) == 0 ==> bestMove == NoMove
    ensures var k := LastCompletedDepth(t, 1, budget);
      k >= 1 ==> bestMove == RootMove(t, k, NegInf, PosInf) && bestMove == MinimaxPlayer.BestMove(t, k)
  {
    assert LastCompletedDepth(t, depth, time) == depth - 1;
    if depth > 1 {
      AlphaBetaAgreesWithMinimax(t, depth - 1);
    }
  }

  /**
   * get_move: run alphabeta at depth 1, 2, 3, ... keeping the move of each
   * iteration that finished; when an iteration raises SearchTimeout return
   * that move, or (-1, -1) if even depth 1 did not finish.
   */
  method GetMove(t: Tree, budget: nat) returns (m: Move)
    ensures LastCompletedDepth(t, 1, budget) == 0 ==> m == NoMove
    ensures var k := LastCompletedDepth(t, 1, budget);
      k >= 1 ==> m == RootMove(t, k, NegInf, PosInf) && m == MinimaxPlayer.BestMove(t, k)
  {
    var bestMove := NoMove;
    var currentDepth := 1;
    var time := budget;
    while true
      invariant currentDepth >= 1
      invariant LastCompletedDepth(t, currentDepth, time) == LastCompletedDepth(t, 1, budget)
      invariant currentDepth == 1 ==> bestMove == NoMove
      invariant currentDepth > 1 ==> bestMove == RootMove(t, currentDepth - 1, NegInf, PosInf)
      decreases time
    {
      var r, rest := AlphaBeta(t, currentDepth, NegInf, PosInf, time);
      if r.Timeout? {
        DeepeningStopsHere(t, budget, currentDepth, time, bestMove);
        return bestMove;
      }
      bestMove := r.value;
      currentDepth := currentDepth + 1;
      time := rest;
    }
  }
}
