/** `SearchToolBox.minimax` as functions on values.  `GameTree` unfolds the positions
    the recursion can reach: a leaf carries the static evaluation, an inner node the
    generated moves in order with the tree below each.  On that tree, `Minimax` is
    plain minimax, the reference, and `AlphaBeta` is the fail-soft alpha-beta search
    exactly as the program runs it, with its move choice and its two counters. */
module SearchSpec {
  import opened Options
  import opened ExtInts
  import opened BoardRules
  import opened MoveGeneration

  /** The search stops at depth 0 and when either counter is 0; it tests the
      counters, not the grid. */
  predicate IsLeaf(b: Board, depth: nat) {
    depth == 0 || b.computerPieces == 0 || b.playerPieces == 0
  }

  /** The part of the game the search explores below one call. */
  datatype Tree = Leaf(score: int) | Node(kids: seq<(Move, Tree)>)

  /** The tree below `minimax(b, depth, ..., maximizingPlayer, ...)`: a leaf holding
      `evaluate_board()` at a base case, otherwise an inner node with `Kids`. */
  function GameTree(b: Board, depth: nat, maximizingPlayer: bool): (t: Tree)
    ensures t.Leaf? <==> IsLeaf(b, depth)
    decreases depth, 1
  {
    if IsLeaf(b, depth) then Leaf(Evaluate(b.matrix)) else Node(Kids(b, depth, maximizingPlayer))
  }

  /** One child per entry of `get_valid_moves(maximizingPlayer)`, in order: its move
      and the tree below the board it produces, searched one level shallower for the
      other side. */
  function Kids(b: Board, depth: nat, maximizingPlayer: bool): seq<(Move, Tree)>
    requires depth > 0
    decreases depth, 0
  {
    var moves := ValidMoves(b, maximizingPlayer);
    seq(|moves|, k requires 0 <= k < |moves| => (moves[k].1, GameTree(moves[k].0, depth - 1, !maximizingPlayer)))
  }

  /** Child `k` of an inner node of the game tree is entry `k` of `ValidMoves`: its
      move, and the tree below the board it produces. */
  lemma GameTreeKids(b: Board, depth: nat, maximizingPlayer: bool)
    requires !IsLeaf(b, depth)
    ensures var t := GameTree(b, depth, maximizingPlayer);
      var moves := ValidMoves(b, maximizingPlayer);
      && |t.kids| == |moves|
      && forall k | 0 <= k < |moves| :: t.kids[k] == (moves[k].1, GameTree(moves[k].0, depth - 1, !maximizingPlayer))
  {
  }

  /** Plain minimax: the score at a leaf, otherwise the best of the children's values
      for the side to move (`-inf` or `+inf` when there are no children). */
  function Minimax(t: Tree, maximizingPlayer: bool): ExtInt
    decreases t, 1, 0
  {
    match t
    case Leaf(score) => Fin(score)
    case Node(kids) => if maximizingPlayer then MaxUpTo(t, |kids|) else MinUpTo(t, |kids|)
  }

  /** The largest minimax value among the first `n` children; a tie keeps the earlier. */
  function MaxUpTo(t: Tree, n: nat): ExtInt
    requires t.Node? && n <= |t.kids|
    decreases t, 0, n
  {
    if n == 0 then NegInf else Max(MaxUpTo(t, n - 1), Minimax(t.kids[n - 1].1, false))
  }

  /** The smallest minimax value among the first `n` children. */
  function MinUpTo(t: Tree, n: nat): ExtInt
    requires t.Node? && n <= |t.kids|
    decreases t, 0, n
  {
    if n == 0 then PosInf else Min(MinUpTo(t, n - 1), Minimax(t.kids[n - 1].1, true))
  }

  /** What one call returns (the move and the value) and what it adds to
      `stats['nodes_expanded']` and to `stats['prunes']`. */
  datatype SearchResult = SearchResult(bestMove: Option<Move>, value: ExtInt, nodes: nat, prunes: nat)

  /** `minimax(board, depth, alpha, beta, maximizingPlayer, stats)` on the tree below
      the call. */
  function AlphaBeta(t: Tree, alpha: ExtInt, beta: ExtInt, maximizingPlayer: bool): SearchResult
    decreases t, 1, 0
  {
    match t
    case Leaf(score) => SearchResult(None, Fin(score), 0, 0)
    case Node(kids) =>
      if maximizingPlayer then SearchMax(t, 0, alpha, beta, None, NegInf, |kids|, 0)
      else SearchMin(t, 0, alpha, beta, None, PosInf, |kids|, 0)
  }

  /** The maximizing loop from child `k` on, in the state it has reached: the window,
      the best move and value so far, and the counts. */
  function SearchMax(t: Tree, k: nat, alpha: ExtInt, beta: ExtInt,
                     bestMove: Option<Move>, best: ExtInt, nodes: nat, prunes: nat): SearchResult
    requires t.Node? && k <= |t.kids|
    decreases t, 0, |t.kids| - k
  {
    if k == |t.kids| then SearchResult(bestMove, best, nodes, prunes)
    else
      var r := AlphaBeta(t.kids[k].1, alpha, beta, false);
      var improved := Lt(best, r.value);
      var bestMove' := if improved then Some(t.kids[k].0) else bestMove;
      var best' := if improved then r.value else best;
      var alpha' := Max(alpha, r.value);
      if Le(beta, alpha') then SearchResult(bestMove', best', nodes + r.nodes, prunes + r.prunes + 1)
      else SearchMax(t, k + 1, alpha', beta, bestMove', best', nodes + r.nodes, prunes + r.prunes)
  }

  /** The minimizing loop from child `k` on. */
  function SearchMin(t: Tree, k: nat, alpha: ExtInt, beta: ExtInt,
                     bestMove: Option<Move>, best: ExtInt, nodes: nat, prunes: nat): SearchResult
    requires t.Node? && k <= |t.kids|
    decreases t, 0, |t.kids| - k
  {
    if k == |t.kids| then SearchResult(bestMove, best, nodes, prunes)
    else
      var r := AlphaBeta(t.kids[k].1, alpha, beta, true);
      var improved := Lt(r.value, best);
      var bestMove' := if improved then Some(t.kids[k].0) else bestMove;
      var best' := if improved then r.value else best;
      var beta' := Min(beta, r.value);
      if Le(beta', alpha) then SearchResult(bestMove', best', nodes + r.nodes, prunes + r.prunes + 1)
      else SearchMin(t, k + 1, alpha, beta', bestMove', best', nodes + r.nodes, prunes + r.prunes)
  }

  /** One iteration of the maximizing loop, for the proofs that follow it child by
      child: the state after child `k` and whether the loop stops there. */
  lemma SearchMaxStep(t: Tree, k: nat, alpha: ExtInt, beta: ExtInt,
                      bestMove: Option<Move>, best: ExtInt, nodes: nat, prunes: nat)
    requires t.Node? && k < |t.kids|
    ensures var r := AlphaBeta(t.kids[k].1, alpha, beta, false);
      var improved := Lt(best, r.value);
      var bestMove' := if improved then Some(t.kids[k].0) else bestMove;
      var best' := if improved then r.value else best;
      var alpha' := Max(alpha, r.value);
      SearchMax(t, k, alpha, beta, bestMove, best, nodes, prunes) ==
        if Le(beta, alpha') then SearchResult(bestMove', best', nodes + r.nodes, prunes + r.prunes + 1)
        else SearchMax(t, k + 1, alpha', beta, bestMove', best', nodes + r.nodes, prunes + r.prunes)
  {
  }

  /** One iteration of the minimizing loop. */
  lemma SearchMinStep(t: Tree, k: nat, alpha: ExtInt, beta: ExtInt,
                      bestMove: Option<Move>, best: ExtInt, nodes: nat, prunes: nat)
    requires t.Node? && k < |t.kids|
    ensures var r := AlphaBeta(t.kids[k].1, alpha, beta, true);
      var improved := Lt(r.value, best);
      var bestMove' := if improved then Some(t.kids[k].0) else bestMove;
      var best' := if improved then r.value else best;
      var beta' := Min(beta, r.value);
      SearchMin(t, k, alpha, beta, bestMove, best, nodes, prunes) ==
        if Le(beta', alpha) then SearchResult(bestMove', best', nodes + r.nodes, prunes + r.prunes + 1)
        else SearchMin(t, k + 1, alpha, beta', bestMove', best', nodes + r.nodes, prunes + r.prunes)
  {
  }

  /** The fail-soft guarantee of a search with window `(alpha, beta)` whose true value
      is `v`: exact inside the window, and on the right side of the bound it fails. */
  predicate FailSoft(r: ExtInt, v: ExtInt, alpha: ExtInt, beta: ExtInt) {
    && (Lt(alpha, v) && Lt(v, beta) ==> r == v)
    && (Le(v, alpha) ==> Le(v, r) && Le(r, alpha))
    && (Le(beta, v) ==> Le(beta, r) && Le(r, v))
  }

  /** The index of the first of the first `n` children whose minimax value is `v`,
      or `n` when there is none. */
  function FirstWith(t: Tree, n: nat, v: ExtInt, maximizingPlayer: bool): (k: nat)
    requires t.Node? && n <= |t.kids|
    ensures k <= n
    ensures k < n ==> Minimax(t.kids[k].1, !maximizingPlayer) == v
    ensures forall j | 0 <= j < k :: Minimax(t.kids[j].1, !maximizingPlayer) != v
  {
    if n == 0 then 0
    else
      var k := FirstWith(t, n - 1, v, maximizingPlayer);
      if k < n - 1 then k else if Minimax(t.kids[n - 1].1, !maximizingPlayer) == v then n - 1 else n
  }
}
