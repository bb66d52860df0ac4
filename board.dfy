/**
 * The game-state collaborator as the search engine consumes it: a finite
 * game tree whose children, in order, are the legal moves of the side to
 * move and the states `forecast_move` produces for them, plus the agent's
 * evaluation of every state.
 */
module Board {
  import opened Scores

  datatype Move = Move(row: int, col: int)

  /** The sentinel move (-1, -1): no legal move, or no completed search. */
  const NoMove: Move := Move(-1, -1)

  /**
   * What the heuristics read of a state, from the point of view of the
   * searching agent: whether it has lost, whether it has won, and the
   * finite value the heuristic's formula would compute.
   */
  datatype Position = Position(isLoser: bool, isWinner: bool, estimate: real)

  /**
   * `self.score(game, self)` for every one of custom_score, custom_score_2 and
   * custom_score_3: a lost state is -inf before a won state is +inf, and both
   * tests come before the finite formula.
   */
  function Evaluate(p: Position): (r: Score)
    ensures r == NegInf <==> p.isLoser
    ensures r == PosInf <==> !p.isLoser && p.isWinner
    ensures r.Fin? <==> !p.isLoser && !p.isWinner
    ensures r.Fin? ==> r.x == p.estimate
  {
    if p.isLoser then NegInf
    else if p.isWinner then PosInf
    else Fin(p.estimate)
  }

  datatype Tree = Node(pos: Position, kids: seq<Branch>)

  datatype Branch = Branch(move: Move, child: Tree)
}
