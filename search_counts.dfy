/** What the search adds to `stats['nodes_expanded']` and `stats['prunes']`: every
    cutoff happens at an inner node whose children were counted, and pruning never
    counts more children than the whole tree has edges. */
module SearchCounts {
  import opened Options
  import opened ExtInts
  import opened BoardRules
  import opened SearchSpec

  /** The number of edges of the tree: what a search without any cutoff counts. */
  function Edges(t: Tree): nat
    decreases t, 1
  {
    match t
    case Leaf(_) => 0
    case Node(kids) => |kids| + EdgesFrom(t, 0)
  }

  /** The edges below children `k` onwards. */
  function EdgesFrom(t: Tree, k: nat): nat
    requires t.Node? && k <= |t.kids|
    decreases t, 0, |t.kids| - k
  {
    if k == |t.kids| then 0 else Edges(t.kids[k].1) + EdgesFrom(t, k + 1)
  }

  /** A search counts at most one cutoff per counted child and at most the edges of
      the tree; at an inner node it counts at least that node's children. */
  lemma SearchCountBounds(t: Tree, alpha: ExtInt, beta: ExtInt, maximizingPlayer: bool)
    ensures var r := AlphaBeta(t, alpha, beta, maximizingPlayer);
      r.prunes <= r.nodes <= Edges(t) && (t.Node? ==> |t.kids| <= r.nodes)
    decreases t, 1
  {
    if t.Node? {
      if maximizingPlayer {
        LoopCountsMax(t, 0, alpha, beta, None, NegInf, |t.kids|, 0);
      } else {
        LoopCountsMin(t, 0, alpha, beta, None, PosInf, |t.kids|, 0);
      }
    }
  }

  /** The bounds `SearchCountBounds` states, for a result of the loop over the
      children of `t`. */
  predicate CountsWithin(t: Tree, r: SearchResult)
    requires t.Node?
  {
    r.prunes <= r.nodes <= Edges(t) && |t.kids| <= r.nodes
  }

  /** The maximizing loop from child `k` on keeps the counts within bounds. */
  lemma LoopCountsMax(t: Tree, k: nat, alpha: ExtInt, beta: ExtInt,
                      bestMove: Option<Move>, best: ExtInt, nodes: nat, prunes: nat)
    requires t.Node? && k <= |t.kids|
    requires |t.kids| <= nodes && prunes + (|t.kids| - k) <= nodes
    requires nodes + EdgesFrom(t, k) <= Edges(t)
    ensures CountsWithin(t, SearchMax(t, k, alpha, beta, bestMove, best, nodes, prunes))
    decreases t, 0, |t.kids| - k, 1
  {
    if k < |t.kids| {
      SearchMaxStep(t, k, alpha, beta, bestMove, best, nodes, prunes);
      StepCountsMax(t, k, alpha, beta, bestMove, best, nodes, prunes);
    }
  }

  /** After child `k` the counts are within bounds, whether the loop stops or goes on. */
  lemma StepCountsMax(t: Tree, k: nat, alpha: ExtInt, beta: ExtInt,
                      bestMove: Option<Move>, best: ExtInt, nodes: nat, prunes: nat)
    requires t.Node? && k < |t.kids|
    requires |t.kids| <= nodes && prunes + (|t.kids| - k) <= nodes
    requires nodes + EdgesFrom(t, k) <= Edges(t)
    ensures var r := AlphaBeta(t.kids[k].1, alpha, beta, false);
      var improved := Lt(best, r.value);
      var bestMove' := if improved then Some(t.kids[k].0) else bestMove;
      var best' := if improved then r.value else best;
      if Le(beta, Max(alpha, r.value)) then
        CountsWithin(t, SearchResult(bestMove', best', nodes + r.nodes, prunes + r.prunes + 1))
      else
        CountsWithin(t, SearchMax(t, k + 1, Max(alpha, r.value), beta, bestMove', best',
                                    nodes + r.nodes, prunes + r.prunes))
    decreases t, 0, |t.kids| - k, 0
  {
    var r := AlphaBeta(t.kids[k].1, alpha, beta, false);
    SearchCountBounds(t.kids[k].1, alpha, beta, false);
    if !Le(beta, Max(alpha, r.value)) {
      var improved := Lt(best, r.value);
      LoopCountsMax(t, k + 1, Max(alpha, r.value), beta, if improved then Some(t.kids[k].0) else bestMove,
                      if improved then r.value else best, nodes + r.nodes, prunes + r.prunes);
    }
  }

  /** The minimizing loop from child `k` on keeps the counts within bounds. */
  lemma LoopCountsMin(t: Tree, k: nat, alpha: ExtInt, beta: ExtInt,
                      bestMove: Option<Move>, best: ExtInt, nodes: nat, prunes: nat)
    requires t.Node? && k <= |t.kids|
    requires |t.kids| <= nodes && prunes + (|t.kids| - k) <= nodes
    requires nodes + EdgesFrom(t, k) <= Edges(t)
    ensures CountsWithin(t, SearchMin(t, k, alpha, beta, bestMove, best, nodes, prunes))
    decreases t, 0, |t.kids| - k, 1
  {
    if k < |t.kids| {
      SearchMinStep(t, k, alpha, beta, bestMove, best, nodes, prunes);
      StepCountsMin(t, k, alpha, beta, bestMove, best, nodes, prunes);
    }
  }

  /** After child `k` the counts are within bounds, whether the loop stops or goes on. */
  lemma StepCountsMin(t: Tree, k: nat, alpha: ExtInt, beta: ExtInt,
                      bestMove: Option<Move>, best: ExtInt, nodes: nat, prunes: nat)
    requires t.Node? && k < |t.kids|
    requires |t.kids| <= nodes && prunes + (|t.kids| - k) <= nodes
    requires nodes + EdgesFrom(t, k) <= Edges(t)
    ensures var r := AlphaBeta(t.kids[k].1, alpha, beta, true);
      var improved := Lt(r.value, best);
      var bestMove' := if improved then Some(t.kids[k].0) else bestMove;
      var best' := if improved then r.value else best;
      if Le(Min(beta, r.value), alpha) then
        CountsWithin(t, SearchResult(bestMove', best', nodes + r.nodes, prunes + r.prunes + 1))
      else
        CountsWithin(t, SearchMin(t, k + 1, alpha, Min(beta, r.value), bestMove', best',
                                    nodes + r.nodes, prunes + r.prunes))
    decreases t, 0, |t.kids| - k, 0
  {
    var r := AlphaBeta(t.kids[k].1, alpha, beta, true);
    SearchCountBounds(t.kids[k].1, alpha, beta, true);
    if !Le(Min(beta, r.value), alpha) {
      var improved := Lt(r.value, best);
      LoopCountsMin(t, k + 1, alpha, Min(beta, r.value), if improved then Some(t.kids[k].0) else bestMove,
                      if improved then r.value else best, nodes + r.nodes, prunes + r.prunes);
    }
  }

  /** The base cases: a leaf returns its score with no move and counts nothing; an
      inner node without children returns `-inf` or `+inf` with no move and counts
      nothing. */
  lemma SearchBaseCases(t: Tree, alpha: ExtInt, beta: ExtInt, maximizingPlayer: bool)
    ensures t.Leaf? ==> AlphaBeta(t, alpha, beta, maximizingPlayer) == SearchResult(None, Fin(t.score), 0, 0)
    ensures t.Node? && |t.kids| == 0 ==>
      AlphaBeta(t, alpha, beta, maximizingPlayer) ==
        SearchResult(None, if maximizingPlayer then NegInf else PosInf, 0, 0)
  {
  }
}
