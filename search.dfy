/** `SearchToolBox.minimax` as the program runs it: a recursive method over `GameBoard`
    objects that expands the moves `get_valid_moves` builds, updates the counters in
    `stats`, and is proved to return what `SearchSpec.AlphaBeta` computes on the game
    tree below the board. */
module SearchToolBox {
  import opened Options
  import opened ExtInts
  import opened BoardRules
  import opened MoveGeneration
  import opened GameBoards
  import S = SearchSpec

  /** The two counters of the `stats` dictionary that the search updates. */
  class Stats {
    var nodesExpanded: int
    var prunes: int

    /** A fresh statistics record: no child expanded and no cutoff yet. */
    constructor()
      ensures nodesExpanded == 0 && prunes == 0
    {
      nodesExpanded := 0;
      prunes := 0;
    }
  }

  /** `minimax(board_obj, depth, alpha, beta, maximizing_player, stats)`: the move and
      value `AlphaBeta` gives on the tree below `board`, with `nodes_expanded` and
      `prunes` raised by the counts it gives; the board itself is left as it was. */
  method Minimax(board: GameBoard, depth: nat, alpha: ExtInt, beta: ExtInt, maximizingPlayer: bool, stats: Stats)
    returns (bestMove: Option<Move>, eval: ExtInt)
    modifies stats
    ensures var r := S.AlphaBeta(S.GameTree(old(board.Value()), depth, maximizingPlayer), alpha, beta, maximizingPlayer);
      && bestMove == r.bestMove && eval == r.value
      && stats.nodesExpanded == old(stats.nodesExpanded) + r.nodes
      && stats.prunes == old(stats.prunes) + r.prunes
    decreases depth, 1
  {
    if depth == 0 || board.computerPieces == 0 || board.playerPieces == 0 {
      return None, Fin(board.EvaluateBoard());
    }
    ghost var t := S.GameTree(board.Value(), depth, maximizingPlayer);
    var validMoves := Expand(board, depth, maximizingPlayer);
    stats.nodesExpanded := stats.nodesExpanded + |validMoves|;
    if maximizingPlayer {
      bestMove, eval := MaxChildren(validMoves, depth, alpha, beta, stats, t);
    } else {
      bestMove, eval := MinChildren(validMoves, depth, alpha, beta, stats, t);
    }
  }

  /** The maximizing branch of `minimax`: each child is searched with the window as it
      stands, the first strictly better value is kept with its move, `alpha` is raised,
      and the loop stops with one more prune once `beta <= alpha`.  It returns what
      `SearchMax` gives from the first child, with the children already counted. */
  method MaxChildren(validMoves: seq<(GameBoard, Move)>, depth: nat, alpha: ExtInt, beta: ExtInt,
                     stats: Stats, ghost t: S.Tree)
    returns (bestMove: Option<Move>, eval: ExtInt)
    requires depth > 0 && t.Node? && Below(validMoves, t.kids, depth, true)
    modifies stats
    ensures var r := S.SearchMax(t, 0, alpha, beta, None, NegInf, |t.kids|, 0);
      && bestMove == r.bestMove && eval == r.value
      && stats.nodesExpanded == old(stats.nodesExpanded) + r.nodes - |t.kids|
      && stats.prunes == old(stats.prunes) + r.prunes
    decreases depth, 0
  {
    ghost var result := S.SearchMax(t, 0, alpha, beta, None, NegInf, |t.kids|, 0);
    ghost var nodes: nat, prunes: nat := |t.kids|, 0;
    bestMove := None;
    var maxEval := NegInf;
    var alpha' := alpha;
    var k := 0;
    while k < |validMoves|
      invariant k <= |validMoves| == |t.kids|
      invariant Below(validMoves, t.kids, depth, true)
      invariant stats.nodesExpanded == old(stats.nodesExpanded) + nodes - |t.kids|
      invariant stats.prunes == old(stats.prunes) + prunes
      invariant S.SearchMax(t, k, alpha', beta, bestMove, maxEval, nodes, prunes) == result
    {
      var move := validMoves[k];
      S.SearchMaxStep(t, k, alpha', beta, bestMove, maxEval, nodes, prunes);
      ghost var r := S.AlphaBeta(t.kids[k].1, alpha', beta, false);
      var e := SearchChild(validMoves, k, depth, alpha', beta, false, stats, t.kids);
      nodes, prunes := nodes + r.nodes, prunes + r.prunes;
      if Lt(maxEval, e) {
        maxEval := e;
        bestMove := Some(move.1);
      }
      alpha' := Max(alpha', e);
      if Le(beta, alpha') {
        stats.prunes := stats.prunes + 1;
        prunes := prunes + 1;
        assert S.SearchResult(bestMove, maxEval, nodes, prunes) == result;
        break;
      }
      k := k + 1;
    }
    eval := maxEval;
  }

  /** The minimizing branch of `minimax`: as `MaxChildren` with the roles of the bounds
      exchanged; it returns what `SearchMin` gives from the first child. */
  method MinChildren(validMoves: seq<(GameBoard, Move)>, depth: nat, alpha: ExtInt, beta: ExtInt,
                     stats: Stats, ghost t: S.Tree)
    returns (bestMove: Option<Move>, eval: ExtInt)
    requires depth > 0 && t.Node? && Below(validMoves, t.kids, depth, false)
    modifies stats
    ensures var r := S.SearchMin(t, 0, alpha, beta, None, PosInf, |t.kids|, 0);
      && bestMove == r.bestMove && eval == r.value
      && stats.nodesExpanded == old(stats.nodesExpanded) + r.nodes - |t.kids|
      && stats.prunes == old(stats.prunes) + r.prunes
    decreases depth, 0
  {
    ghost var result := S.SearchMin(t, 0, alpha, beta, None, PosInf, |t.kids|, 0);
    ghost var nodes: nat, prunes: nat := |t.kids|, 0;
    bestMove := None;
    var minEval := PosInf;
    var beta' := beta;
    var k := 0;
    while k < |validMoves|
      invariant k <= |validMoves| == |t.kids|
      invariant Below(validMoves, t.kids, depth, false)
      invariant stats.nodesExpanded == old(stats.nodesExpanded) + nodes - |t.kids|
      invariant stats.prunes == old(stats.prunes) + prunes
      invariant S.SearchMin(t, k, alpha, beta', bestMove, minEval, nodes, prunes) == result
    {
      var move := validMoves[k];
      S.SearchMinStep(t, k, alpha, beta', bestMove, minEval, nodes, prunes);
      ghost var r := S.AlphaBeta(t.kids[k].1, alpha, beta', true);
      var e := SearchChild(validMoves, k, depth, alpha, beta', true, stats, t.kids);
      nodes, prunes := nodes + r.nodes, prunes + r.prunes;
      if Lt(e, minEval) {
        minEval := e;
        bestMove := Some(move.1);
      }
      beta' := Min(beta', e);
      if Le(beta', alpha) {
        stats.prunes := stats.prunes + 1;
        prunes := prunes + 1;
        assert S.SearchResult(bestMove, minEval, nodes, prunes) == result;
        break;
      }
      k := k + 1;
    }
    eval := minEval;
  }

  /** The recursive search of the board in entry `k` of `validMoves`, one level
      shallower, for the other side, keeping only its value: the value `AlphaBeta` gives on child `k` of `kids`, with the
      counters raised by the counts it gives; the boards are left as they were. */
  method SearchChild(validMoves: seq<(GameBoard, Move)>, k: nat, depth: nat, alpha: ExtInt, beta: ExtInt,
                     maximizingPlayer: bool, stats: Stats, ghost kids: seq<(Move, S.Tree)>)
    returns (eval: ExtInt)
    requires depth > 0 && k < |validMoves| && Below(validMoves, kids, depth, !maximizingPlayer)
    modifies stats
    ensures Below(validMoves, kids, depth, !maximizingPlayer)
    ensures var r := S.AlphaBeta(Subtree(kids, k), alpha, beta, maximizingPlayer);
      && eval == r.value
      && stats.nodesExpanded == old(stats.nodesExpanded) + r.nodes
      && stats.prunes == old(stats.prunes) + r.prunes
    decreases depth - 1, 2
  {
    var _, e := Minimax(validMoves[k].0, depth - 1, alpha, beta, maximizingPlayer, stats);
    eval := e;
  }

  /** The moves `get_valid_moves` generates for the side to search at an inner node:
      entry `k` of the list is child `k` of the game tree below `board`. */
  method Expand(board: GameBoard, depth: nat, maximizingPlayer: bool) returns (validMoves: seq<(GameBoard, Move)>)
    requires !S.IsLeaf(board.Value(), depth)
    ensures Below(validMoves, S.Kids(board.Value(), depth, maximizingPlayer), depth, maximizingPlayer)
  {
    validMoves := board.GetValidMoves(maximizingPlayer);
    Child(board.Value(), depth, maximizingPlayer, validMoves);
  }

  /** Entry `k` of `validMoves` is child `k` of `kids`: the same move, and a board
      whose game tree one level shallower, for the other side, is the subtree. */
  predicate Below(validMoves: seq<(GameBoard, Move)>, kids: seq<(Move, S.Tree)>, depth: nat, maximizingPlayer: bool)
    requires depth > 0
    reads set t | 0 <= t < |validMoves| :: validMoves[t].0
  {
    && |kids| == |validMoves|
    && (forall k | 0 <= k < |validMoves| :: kids[k].0 == validMoves[k].1)
    && (forall k {:trigger Subtree(kids, k)} | 0 <= k < |validMoves| ::
          Subtree(kids, k) == S.GameTree(validMoves[k].0.Value(), depth - 1, !maximizingPlayer))
  }

  /** The tree of child `k`. */
  function Subtree(kids: seq<(Move, S.Tree)>, k: nat): S.Tree
    requires k < |kids|
  {
    kids[k].1
  }

  /** What `get_valid_moves` returned at an inner node lists the children of the game
      tree in order: the same moves, and boards whose trees are the subtrees. */
  lemma Child(b: Board, depth: nat, maximizingPlayer: bool, validMoves: seq<(GameBoard, Move)>)
    requires !S.IsLeaf(b, depth)
    requires Produces(b, validMoves) && MovesOf(validMoves) == MoveList(b.matrix, maximizingPlayer)
    ensures |S.Kids(b, depth, maximizingPlayer)| == |validMoves|
    ensures forall k | 0 <= k < |validMoves| ::
      S.Kids(b, depth, maximizingPlayer)[k] ==
        (validMoves[k].1, S.GameTree(validMoves[k].0.Value(), depth - 1, !maximizingPlayer))
  {
    var ms := ValidMoves(b, maximizingPlayer);
    S.GameTreeKids(b, depth, maximizingPlayer);
    forall k | 0 <= k < |validMoves|
      ensures S.Kids(b, depth, maximizingPlayer)[k] ==
        (validMoves[k].1, S.GameTree(validMoves[k].0.Value(), depth - 1, !maximizingPlayer))
    {
      assert validMoves[k].1 == MovesOf(validMoves)[k];
      assert ms[k] == (ApplyMove(b, validMoves[k].1), validMoves[k].1);
    }
  }
}
