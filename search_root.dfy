/** What the top-level call `minimax(board, depth, -inf, +inf, True, stats)` returns:
    the minimax value of the tree and the move to the first child that attains it,
    or no move exactly when that value is `-inf`. */
module SearchRoot {
  import opened Options
  import opened ExtInts
  import opened BoardRules
  import opened MoveGeneration
  import opened SearchSpec
  import opened SearchProperties

  /** The full-window maximizing search of an inner node returns the minimax value and
      the move to the first child whose value it is; it returns no move exactly when
      every child is worth `-inf` (in particular when there are no children). */
  lemma RootSearch(t: Tree)
    requires t.Node?
    ensures var r := AlphaBeta(t, NegInf, PosInf, true);
      && r.value == Minimax(t, true)
      && (r.bestMove.None? <==> r.value == NegInf)
      && (r.bestMove.Some? ==>
            var j := FirstWith(t, |t.kids|, r.value, true);
            j < |t.kids| && r.bestMove == Some(t.kids[j].0))
  {
    RootLoop(t, 0, None, NegInf, |t.kids|, 0);
  }

  /** The computer's move: `minimax(board, depth, -inf, +inf, True, stats)` on a
      board. At a base case it returns no move and the static evaluation. Otherwise it
      returns the minimax value of the game tree, and any move it returns is one of
      `get_valid_moves(True)`: a legal move of a computer man. */
  lemma ComputerMove(b: Board, depth: nat)
    ensures var r := AlphaBeta(GameTree(b, depth, true), NegInf, PosInf, true);
      && (IsLeaf(b, depth) ==> r == SearchResult(None, Fin(Evaluate(b.matrix)), 0, 0))
      && (!IsLeaf(b, depth) ==>
            && r.value == Minimax(GameTree(b, depth, true), true)
            && (r.bestMove.None? <==> r.value == NegInf)
            && (r.bestMove.Some? ==>
                  var mv := r.bestMove.value;
                  && Legal(b.matrix, mv) && b.matrix[mv.oldX][mv.oldY] == C
                  && (ApplyMove(b, mv), mv) in ValidMoves(b, true)))
  {
    var t := GameTree(b, depth, true);
    if !IsLeaf(b, depth) {
      GameTreeKids(b, depth, true);
      RootSearch(t);
      var r := AlphaBeta(t, NegInf, PosInf, true);
      if r.bestMove.Some? {
        var j := FirstWith(t, |t.kids|, r.value, true);
        var ms := ValidMoves(b, true);
        assert t.kids[j].0 == ms[j].1;
        ValidMovesSound(b, true, j);
        assert ms[j] == (ApplyMove(b, ms[j].1), ms[j].1);
      }
    }
  }

  /** The root loop from child `k` on, with `alpha` equal to the best value so far,
      which is the maximum of the children before `k` and below `+inf`. */
  lemma RootLoop(t: Tree, k: nat, bestMove: Option<Move>, best: ExtInt, nodes: nat, prunes: nat)
    requires t.Node? && k <= |t.kids|
    requires RootInvariant(t, k, bestMove, best)
    ensures RootOutcome(t, SearchMax(t, k, best, PosInf, bestMove, best, nodes, prunes))
    decreases |t.kids| - k, 1
  {
    if k < |t.kids| {
      SearchMaxStep(t, k, best, PosInf, bestMove, best, nodes, prunes);
      RootStep(t, k, bestMove, best, nodes, prunes);
    }
  }

  /** Before child `k`: the best value is the maximum of the children so far and is
      below `+inf`; there is a best move exactly when that value is above `-inf`, and
      it is the move to the first child worth it. */
  predicate RootInvariant(t: Tree, k: nat, bestMove: Option<Move>, best: ExtInt)
    requires t.Node? && k <= |t.kids|
  {
    && best == MaxUpTo(t, k) && best != PosInf
    && (bestMove.None? <==> best == NegInf)
    && (bestMove.Some? ==>
          var j := FirstWith(t, k, best, true); j < k && bestMove == Some(t.kids[j].0))
  }

  /** What `RootSearch` promises of a result. */
  predicate RootOutcome(t: Tree, r: SearchResult)
    requires t.Node?
  {
    && r.value == MaxUpTo(t, |t.kids|)
    && (r.bestMove.None? <==> r.value == NegInf)
    && (r.bestMove.Some? ==>
          var j := FirstWith(t, |t.kids|, r.value, true);
          j < |t.kids| && r.bestMove == Some(t.kids[j].0))
  }

  /** Child `k` of the root loop: a child worth `+inf` is taken and ends the loop; any
      other child leaves the invariant in place for child `k + 1`, with `alpha` still
      equal to the best value. */
  lemma RootStep(t: Tree, k: nat, bestMove: Option<Move>, best: ExtInt, nodes: nat, prunes: nat)
    requires t.Node? && k < |t.kids|
    requires RootInvariant(t, k, bestMove, best)
    ensures var r := AlphaBeta(t.kids[k].1, best, PosInf, false);
      var improved := Lt(best, r.value);
      var bestMove' := if improved then Some(t.kids[k].0) else bestMove;
      var best' := if improved then r.value else best;
      if Le(PosInf, Max(best, r.value)) then
        RootOutcome(t, SearchResult(bestMove', best', nodes + r.nodes, prunes + r.prunes + 1))
      else
        RootOutcome(t, SearchMax(t, k + 1, Max(best, r.value), PosInf, bestMove', best', nodes + r.nodes, prunes + r.prunes))
    decreases |t.kids| - k, 0
  {
    var kid := t.kids[k].1;
    var vk := Minimax(kid, false);
    var r := AlphaBeta(kid, best, PosInf, false);
    AlphaBetaFailSoft(kid, best, PosInf, false);
    RootChild(best, vk, r.value);
    var improved := Lt(best, r.value);
    var bestMove' := if improved then Some(t.kids[k].0) else bestMove;
    var best' := if improved then r.value else best;
    assert best' == MaxUpTo(t, k + 1) && best' == Max(best, r.value);
    if vk == PosInf {
      MaxUpToBound(t, k, |t.kids|);
      forall i | 0 <= i < k
        ensures Minimax(t.kids[i].1, false) != PosInf
      {
        MaxUpToBound(t, i, k);
      }
      FirstWithIs(t, |t.kids|, PosInf, true, k);
    } else {
      if improved {
        forall i | 0 <= i < k
          ensures Minimax(t.kids[i].1, false) != vk
        {
          MaxUpToBound(t, i, k);
        }
        FirstWithIs(t, k + 1, vk, true, k);
      } else if bestMove.Some? {
        FirstWithIs(t, k + 1, best, true, FirstWith(t, k, best, true));
      }
      RootLoop(t, k + 1, bestMove', best', nodes + r.nodes, prunes + r.prunes);
    }
  }

  /** With the window `(best, +inf)`, a child's search returns its exact value when that
      is above `best`, and at most `best` otherwise. */
  lemma RootChild(best: ExtInt, vk: ExtInt, e: ExtInt)
    requires best != PosInf && FailSoft(e, vk, best, PosInf)
    ensures Lt(best, vk) ==> e == vk
    ensures Le(vk, best) ==> Le(e, best)
    ensures e == PosInf <==> vk == PosInf
  {
  }

  /** `FirstWith` finds child `j` when it is the first child worth `v`. */
  lemma {:induction false} FirstWithIs(t: Tree, n: nat, v: ExtInt, maximizingPlayer: bool, j: nat)
    requires t.Node? && j < n <= |t.kids|
    requires Minimax(t.kids[j].1, !maximizingPlayer) == v
    requires forall i | 0 <= i < j :: Minimax(t.kids[i].1, !maximizingPlayer) != v
    ensures FirstWith(t, n, v, maximizingPlayer) == j
    decreases n
  {
    if j < n - 1 {
      FirstWithIs(t, n - 1, v, maximizingPlayer, j);
    }
  }
}
