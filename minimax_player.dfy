/**
 * MinimaxPlayer: fixed-depth minimax. The reference functions give the value
 * of a node and the number of timer checks a completed search of it makes;
 * the methods follow the player's code step by step and are proved to return
 * exactly that value when the budget covers those checks, and to raise
 * SearchTimeout otherwise.
 */
module MinimaxPlayer {
  import opened Scores
  import opened Board
  import opened TimeGuard

  /**
   * Depth-limited minimax value of t, always scored for the root agent:
   * the evaluation at depth 0 or where the side to move has no legal move,
   * otherwise the max (maximizing) or min (minimizing) of the children
   * searched one ply shallower with the flag flipped.
   */
  function Value(t: Tree, depth: nat, maximizing: bool): Score
    decreases t, 1, 0
  {
    if depth == 0 || t.kids == [] then Evaluate(t.pos)
    else Best(t, depth - 1, maximizing, |t.kids|)
  }

  /**
   * The running best `best_move_score` after the first n children of t,
   * each searched at depth with the flag flipped: max from -inf at a
   * maximizing node, min from +inf at a minimizing one.
   */
  function Best(t: Tree, depth: nat, maximizing: bool, n: nat): Score
    requires n <= |t.kids|
    decreases t, 0, n
  {
    if n == 0 then (if maximizing then NegInf else PosInf)
    else
      var v := Value(t.kids[n - 1].child, depth, !maximizing);
      if maximizing then Max(Best(t, depth, maximizing, n - 1), v)
      else Min(Best(t, depth, maximizing, n - 1), v)
  }

  /** Each further child can only raise a maximizing best and lower a minimizing one. */
  lemma {:induction false} BestMonotone(t: Tree, depth: nat, maximizing: bool, i: nat, n: nat)
    requires i <= n <= |t.kids|
    ensures maximizing ==> Le(Best(t, depth, true, i), Best(t, depth, true, n))
    ensures !maximizing ==> Le(Best(t, depth, false, n), Best(t, depth, false, i))
    decreases n - i
  {
    if i < n {
      BestMonotone(t, depth, maximizing, i, n - 1);
    }
  }

  /** The values of t's children searched at depth with the given flag, in legal-move order. */
  function ChildValues(t: Tree, depth: nat, maximizing: bool): (vs: seq<Score>)
    ensures |vs| == |t.kids|
  {
    seq(|t.kids|, i requires 0 <= i < |t.kids| => Value(t.kids[i].child, depth, maximizing))
  }

  /** Timer checks made by a completed helper call: one per visited node. */
  function Calls(t: Tree, depth: nat): nat
    decreases t, 1, 0
  {
    if depth == 0 || t.kids == [] then 1 else 1 + ChildCalls(t, depth - 1, |t.kids|)
  }

  /** Timer checks made by completed searches of the first n children of t. */
  function ChildCalls(t: Tree, depth: nat, n: nat): nat
    requires n <= |t.kids|
    decreases t, 0, n
  {
    if n == 0 then 0 else ChildCalls(t, depth, n - 1) + Calls(t.kids[n - 1].child, depth)
  }

  /** The children searched so far never cost more than all of them. */
  lemma {:induction false} ChildCallsMonotone(t: Tree, depth: nat, i: nat, n: nat)
    requires i <= n <= |t.kids|
    ensures ChildCalls(t, depth, i) <= ChildCalls(t, depth, n)
    decreases n - i
  {
    if i < n {
      ChildCallsMonotone(t, depth, i, n - 1);
    }
  }

  /** Timer checks made by a completed root call: its own and its children's. */
  function RootCalls(t: Tree, depth: nat): nat
    requires depth >= 1
  {
    1 + ChildCalls(t, depth - 1, |t.kids|)
  }

  /** The running best over the children is the running maximum of their values. */
  lemma {:induction false} BestIsMaxOf(t: Tree, depth: nat, n: nat)
    requires n <= |t.kids|
    ensures Best(t, depth, true, n) == MaxOf(ChildValues(t, depth, false)[..n])
  {
    if n > 0 {
      BestIsMaxOf(t, depth, n - 1);
      var vs := ChildValues(t, depth, false);
      assert vs[..n][..n - 1] == vs[..n - 1];
    }
  }

  /** The running best at a minimizing node is the running minimum of its children's values. */
  lemma {:induction false} BestIsMinOf(t: Tree, depth: nat, n: nat)
    requires n <= |t.kids|
    ensures Best(t, depth, false, n) == MinOf(ChildValues(t, depth, true)[..n])
  {
    if n > 0 {
      BestIsMinOf(t, depth, n - 1);
      var vs := ChildValues(t, depth, true);
      assert vs[..n][..n - 1] == vs[..n - 1];
    }
  }

  /**
   * Minimax in the textbook form: an inner maximizing node is worth the
   * largest value of its minimizing children, an inner minimizing node the
   * smallest value of its maximizing children, and that value is one of
   * its children's.
   */
  lemma ValueIsMinimax(t: Tree, depth: nat)
    requires depth >= 1 && t.kids != []
    ensures var vs := ChildValues(t, depth - 1, false);
      Value(t, depth, true) in vs && forall i :: 0 <= i < |vs| ==> Le(vs[i], Value(t, depth, true))
    ensures var ws := ChildValues(t, depth - 1, true);
      Value(t, depth, false) in ws && forall i :: 0 <= i < |ws| ==> Le(Value(t, depth, false), ws[i])
  {
    var vs := ChildValues(t, depth - 1, false);
    var ws := ChildValues(t, depth - 1, true);
    BestIsMaxOf(t, depth - 1, |t.kids|);
    BestIsMinOf(t, depth - 1, |t.kids|);
    assert vs[..|t.kids|] == vs && ws[..|t.kids|] == ws;
    MaxOfIsMaximum(vs);
    MinOfIsMinimum(ws);
  }

  /**
   * The move a completed root search returns: (-1, -1) without legal moves,
   * otherwise the first legal move whose minimizing child scores highest.
   */
  function BestMove(t: Tree, depth: nat): Move
    requires depth >= 1
  {
    if t.kids == [] then NoMove
    else t.kids[FirstArgMax(ChildValues(t, depth - 1, false))].move
  }

  /**
   * The root's choice is a legal move, its child's score is the root's
   * maximizing value, and every earlier legal move scores strictly less.
   */
  lemma BestMoveIsFirstMaximal(t: Tree, depth: nat)
    requires depth >= 1
    ensures t.kids == [] ==> BestMove(t, depth) == NoMove
    ensures t.kids != [] ==>
      exists k :: 0 <= k < |t.kids| && BestMove(t, depth) == t.kids[k].move
        && Value(t.kids[k].child, depth - 1, false) == Value(t, depth, true)
        && forall j :: 0 <= j < k ==> Lt(Value(t.kids[j].child, depth - 1, false), Value(t, depth, true))
  {
    if t.kids != [] {
      var vs := ChildValues(t, depth - 1, false);
      var k := FirstArgMax(vs);
      BestIsMaxOf(t, depth - 1, |t.kids|);
      assert vs[..|t.kids|] == vs;
      assert Value(t, depth, true) == vs[k];
      assert forall j :: 0 <= j < k ==> Lt(Value(t.kids[j].child, depth - 1, false), vs[k]) by {
        forall j | 0 <= j < k ensures Lt(Value(t.kids[j].child, depth - 1, false), vs[k]) {
          assert vs[j] == Value(t.kids[j].child, depth - 1, false);
        }
      }
      assert BestMove(t, depth) == t.kids[k].move;
    }
  }

  /** At depth 1 the root is a one-ply greedy search on the evaluation. */
  lemma DepthOneIsGreedy(t: Tree)
    requires t.kids != []
    ensures BestMove(t, 1) == t.kids[FirstArgMax(
      seq(|t.kids|, i requires 0 <= i < |t.kids| => Evaluate(t.kids[i].child.pos)))].move
  {
    var leaves := seq(|t.kids|, i requires 0 <= i < |t.kids| => Evaluate(t.kids[i].child.pos));
    assert ChildValues(t, 0, false) == leaves;
  }

  /**
   * minimax_recursion_helper: check the timer, then score the node at depth 0
   * or without legal moves, else fold the children's scores with max or min.
   */
  method MinimaxHelper(t: Tree, depth: nat, maximizing: bool, budget: nat)
    returns (r: Result<Score>, left: nat)
    ensures Calls(t, depth) <= budget ==>
      r == Ok(Value(t, depth, maximizing)) && left == budget - Calls(t, depth)
    ensures Calls(t, depth) > budget ==> r == Timeout && left == 0
    decreases t
  {
    if budget == 0 {
      return Timeout, 0;
    }
    var time := budget - 1;
    if depth == 0 {
      return Ok(Evaluate(t.pos)), time;
    }
    var legalMoves := t.kids;
    if legalMoves == [] {
      return Ok(Evaluate(t.pos)), time;
    }
    var i := 0;
    if maximizing {
      var best := NegInf;
      while i < |legalMoves|
        invariant 0 <= i <= |legalMoves|
        invariant ChildCalls(t, depth - 1, i) < budget
        invariant time == budget - 1 - ChildCalls(t, depth - 1, i)
        invariant best == Best(t, depth - 1, true, i)
      {
        var score, rest := MinimaxHelper(legalMoves[i].child, depth - 1, false, time);
        if score.Timeout? {
          ChildCallsMonotone(t, depth - 1, i + 1, |legalMoves|);
          return Timeout, 0;
        }
        best := Max(best, score.value);
        time := rest;
        i := i + 1;
      }
      return Ok(best), time;
    } else {
      var best := PosInf;
      while i < |legalMoves|
        invariant 0 <= i <= |legalMoves|
        invariant ChildCalls(t, depth - 1, i) < budget
        invariant time == budget - 1 - ChildCalls(t, depth - 1, i)
        invariant best == Best(t, depth - 1, false, i)
      {
        var score, rest := MinimaxHelper(legalMoves[i].child, depth - 1, true, time);
        if score.Timeout? {
          ChildCallsMonotone(t, depth - 1, i + 1, |legalMoves|);
          return Timeout, 0;
        }
        best := Min(best, score.value);
        time := rest;
        i := i + 1;
      }
      return Ok(best), time;
    }
  }

  /**
   * minimax: check the timer; with no legal moves return (-1, -1) at once;
   * otherwise fill the move-to-score map with a minimizing search of every
   * child at depth-1 and return the first move of maximal score.
   */
  method Minimax(t: Tree, depth: nat, budget: nat) returns (r: Result<Move>, left: nat)
    requires depth >= 1
    ensures RootCalls(t, depth) <= budget ==>
      r == Ok(BestMove(t, depth)) && left == budget - RootCalls(t, depth)
    ensures RootCalls(t, depth) > budget ==> r == Timeout && left == 0
    ensures t.kids == [] && budget > 0 ==> r == Ok(NoMove) && left == budget - 1
  {
    if budget == 0 {
      return Timeout, 0;
    }
    var time := budget - 1;
    var legalMoves := t.kids;
    if legalMoves == [] {
      return Ok(NoMove), time;
    }
    ghost var vs := ChildValues(t, depth - 1, false);
    var scores: seq<Score> := [];
    var i := 0;
    while i < |legalMoves|
      invariant 0 <= i <= |legalMoves|
      invariant ChildCalls(t, depth - 1, i) < budget
      invariant time == budget - 1 - ChildCalls(t, depth - 1, i)
      invariant scores == vs[..i]
    {
      var score, rest := MinimaxHelper(legalMoves[i].child, depth - 1, false, time);
      if score.Timeout? {
        ChildCallsMonotone(t, depth - 1, i + 1, |legalMoves|);
        return Timeout, 0;
      }
      scores := scores + [score.value];
      time := rest;
      i := i + 1;
    }
    assert scores == vs;
    var best := FirstArgMax(scores);
    return Ok(legalMoves[best].move), time;
  }

  /**
   * get_move: run minimax at the configured depth; on SearchTimeout return
   * the initial best move (-1, -1).
   */
  method GetMove(t: Tree, searchDepth: nat, budget: nat) returns (m: Move)
    requires searchDepth >= 1
    ensures RootCalls(t, searchDepth) <= budget ==> m == BestMove(t, searchDepth)
    ensures RootCalls(t, searchDepth) > budget ==> m == NoMove
  {
    var bestMove := NoMove;
    var r, _ := Minimax(t, searchDepth, budget);
    if r.Ok? {
      return r.value;
    }
    return bestMove;
  }
}
