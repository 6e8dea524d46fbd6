/** What the search promises: fail-soft soundness against plain minimax for every
    window, the root call's value and move, the base cases, and the counters. */
module SearchProperties {
  import opened Options
  import opened ExtInts
  import opened BoardRules
  import opened SearchSpec

  /** Fail-soft alpha-beta: for any window with `alpha < beta`, the result equals the
      minimax value inside the window, lies between the value and `alpha` when the
      value is at most `alpha`, and between `beta` and the value when the value is at
      least `beta`. */
  lemma AlphaBetaFailSoft(t: Tree, alpha: ExtInt, beta: ExtInt, maximizingPlayer: bool)
    requires Lt(alpha, beta)
    ensures FailSoft(AlphaBeta(t, alpha, beta, maximizingPlayer).value, Minimax(t, maximizingPlayer), alpha, beta)
    decreases t, 1, 0
  {
    if t.Node? {
      if maximizingPlayer {
        ChildrenFailSoftMax(t, 0, alpha, beta, alpha, None, NegInf, |t.kids|, 0);
      } else {
        ChildrenFailSoftMin(t, 0, alpha, beta, beta, None, PosInf, |t.kids|, 0);
      }
    }
  }

  /** The maximizing loop from child `k` on, when `best` is at least the children's
      values so far and at most their maximum raised to `alpha0`, and no cutoff has
      happened. */
  lemma ChildrenFailSoftMax(t: Tree, k: nat, alpha0: ExtInt, beta: ExtInt,
                            alpha: ExtInt, bestMove: Option<Move>, best: ExtInt, nodes: nat, prunes: nat)
    requires t.Node? && k <= |t.kids|
    requires alpha == Max(alpha0, best) && Lt(alpha, beta)
    requires Le(MaxUpTo(t, k), best) && Le(best, Max(alpha0, MaxUpTo(t, k)))
    ensures FailSoft(SearchMax(t, k, alpha, beta, bestMove, best, nodes, prunes).value,
                     MaxUpTo(t, |t.kids|), alpha0, beta)
    decreases t, 0, |t.kids| - k, 1
  {
    if k == |t.kids| {
      MaxDone(alpha0, beta, best, MaxUpTo(t, k));
    } else {
      SearchMaxStep(t, k, alpha, beta, bestMove, best, nodes, prunes);
      StepFailSoftMax(t, k, alpha0, beta, alpha, bestMove, best, nodes, prunes);
    }
  }

  /** Child `k` of the maximizing loop: on a cutoff the best value already meets the
      guarantee, otherwise the loop goes on with the invariant restored. */
  lemma StepFailSoftMax(t: Tree, k: nat, alpha0: ExtInt, beta: ExtInt,
                        alpha: ExtInt, bestMove: Option<Move>, best: ExtInt, nodes: nat, prunes: nat)
    requires t.Node? && k < |t.kids|
    requires alpha == Max(alpha0, best) && Lt(alpha, beta)
    requires Le(MaxUpTo(t, k), best) && Le(best, Max(alpha0, MaxUpTo(t, k)))
    ensures var r := AlphaBeta(t.kids[k].1, alpha, beta, false);
      var improved := Lt(best, r.value);
      var best' := if improved then r.value else best;
      if Le(beta, Max(alpha, r.value)) then FailSoft(best', MaxUpTo(t, |t.kids|), alpha0, beta)
      else FailSoft(SearchMax(t, k + 1, Max(alpha, r.value), beta, if improved then Some(t.kids[k].0) else bestMove,
                              best', nodes + r.nodes, prunes + r.prunes).value,
                    MaxUpTo(t, |t.kids|), alpha0, beta)
    decreases t, 0, |t.kids| - k, 0
  {
    var kid := t.kids[k].1;
    var r := AlphaBeta(kid, alpha, beta, false);
    AlphaBetaFailSoft(kid, alpha, beta, false);
    var improved := Lt(best, r.value);
    var best' := if improved then r.value else best;
    assert best' == Max(best, r.value);
    if Le(beta, Max(alpha, r.value)) {
      MaxUpToBound(t, k, |t.kids|);
      MaxCutoff(alpha0, beta, best, Minimax(kid, false), r.value, MaxUpTo(t, |t.kids|));
    } else {
      MaxContinue(alpha0, beta, best, Minimax(kid, false), MaxUpTo(t, k), r.value);
      ChildrenFailSoftMax(t, k + 1, alpha0, beta, Max(alpha, r.value), if improved then Some(t.kids[k].0) else bestMove,
                          best', nodes + r.nodes, prunes + r.prunes);
    }
  }

  /** The minimizing loop from child `k` on, symmetric to `ChildrenFailSoftMax`. */
  lemma ChildrenFailSoftMin(t: Tree, k: nat, alpha: ExtInt, beta0: ExtInt,
                            beta: ExtInt, bestMove: Option<Move>, best: ExtInt, nodes: nat, prunes: nat)
    requires t.Node? && k <= |t.kids|
    requires beta == Min(beta0, best) && Lt(alpha, beta)
    requires Le(best, MinUpTo(t, k)) && Le(Min(beta0, MinUpTo(t, k)), best)
    ensures FailSoft(SearchMin(t, k, alpha, beta, bestMove, best, nodes, prunes).value,
                     MinUpTo(t, |t.kids|), alpha, beta0)
    decreases t, 0, |t.kids| - k, 1
  {
    if k == |t.kids| {
      MinDone(alpha, beta0, best, MinUpTo(t, k));
    } else {
      SearchMinStep(t, k, alpha, beta, bestMove, best, nodes, prunes);
      StepFailSoftMin(t, k, alpha, beta0, beta, bestMove, best, nodes, prunes);
    }
  }

  /** Child `k` of the minimizing loop. */
  lemma StepFailSoftMin(t: Tree, k: nat, alpha: ExtInt, beta0: ExtInt,
                        beta: ExtInt, bestMove: Option<Move>, best: ExtInt, nodes: nat, prunes: nat)
    requires t.Node? && k < |t.kids|
    requires beta == Min(beta0, best) && Lt(alpha, beta)
    requires Le(best, MinUpTo(t, k)) && Le(Min(beta0, MinUpTo(t, k)), best)
    ensures var r := AlphaBeta(t.kids[k].1, alpha, beta, true);
      var improved := Lt(r.value, best);
      var best' := if improved then r.value else best;
      if Le(Min(beta, r.value), alpha) then FailSoft(best', MinUpTo(t, |t.kids|), alpha, beta0)
      else FailSoft(SearchMin(t, k + 1, alpha, Min(beta, r.value), if improved then Some(t.kids[k].0) else bestMove,
                              best', nodes + r.nodes, prunes + r.prunes).value,
                    MinUpTo(t, |t.kids|), alpha, beta0)
    decreases t, 0, |t.kids| - k, 0
  {
    var kid := t.kids[k].1;
    var r := AlphaBeta(kid, alpha, beta, true);
    AlphaBetaFailSoft(kid, alpha, beta, true);
    var improved := Lt(r.value, best);
    var best' := if improved then r.value else best;
    assert best' == Min(best, r.value);
    if Le(Min(beta, r.value), alpha) {
      MinUpToBound(t, k, |t.kids|);
      MinCutoff(alpha, beta0, best, Minimax(kid, true), r.value, MinUpTo(t, |t.kids|));
    } else {
      MinContinue(alpha, beta0, best, Minimax(kid, true), MinUpTo(t, k), r.value);
      ChildrenFailSoftMin(t, k + 1, alpha, beta0, Min(beta, r.value), if improved then Some(t.kids[k].0) else bestMove,
                          best', nodes + r.nodes, prunes + r.prunes);
    }
  }

  /** The maximum over the first `n` children is at least the value of each of them. */
  lemma {:induction false} MaxUpToBound(t: Tree, k: nat, n: nat)
    requires t.Node? && k < n <= |t.kids|
    ensures Le(Minimax(t.kids[k].1, false), MaxUpTo(t, n))
    decreases n
  {
    if k < n - 1 {
      MaxUpToBound(t, k, n - 1);
    }
  }

  /** The minimum over the first `n` children is at most the value of each of them. */
  lemma {:induction false} MinUpToBound(t: Tree, k: nat, n: nat)
    requires t.Node? && k < n <= |t.kids|
    ensures Le(MinUpTo(t, n), Minimax(t.kids[k].1, true))
    decreases n
  {
    if k < n - 1 {
      MinUpToBound(t, k, n - 1);
    }
  }

  // One step of each loop, on values alone.  `best` is the value so far, `vk` the
  // child's minimax value, `e` what the child's search returned, `sofar` the
  // minimax value of the children before it and `v` the minimax value of all of them.

  lemma MaxDone(alpha0: ExtInt, beta: ExtInt, best: ExtInt, v: ExtInt)
    requires Lt(Max(alpha0, best), beta) && Le(v, best) && Le(best, Max(alpha0, v))
    ensures FailSoft(best, v, alpha0, beta)
  {
  }

  lemma MaxContinue(alpha0: ExtInt, beta: ExtInt, best: ExtInt, vk: ExtInt, sofar: ExtInt, e: ExtInt)
    requires Lt(Max(alpha0, best), beta) && Le(sofar, best) && Le(best, Max(alpha0, sofar))
    requires FailSoft(e, vk, Max(alpha0, best), beta)
    requires Lt(Max(Max(alpha0, best), e), beta)
    ensures Max(Max(alpha0, best), e) == Max(alpha0, Max(best, e))
    ensures Le(Max(sofar, vk), Max(best, e)) && Le(Max(best, e), Max(alpha0, Max(sofar, vk)))
  {
  }

  lemma MaxCutoff(alpha0: ExtInt, beta: ExtInt, best: ExtInt, vk: ExtInt, e: ExtInt, v: ExtInt)
    requires Lt(Max(alpha0, best), beta)
    requires FailSoft(e, vk, Max(alpha0, best), beta)
    requires Le(beta, Max(Max(alpha0, best), e)) && Le(vk, v)
    ensures FailSoft(Max(best, e), v, alpha0, beta)
  {
  }

  lemma MinDone(alpha: ExtInt, beta0: ExtInt, best: ExtInt, v: ExtInt)
    requires Lt(alpha, Min(beta0, best)) && Le(best, v) && Le(Min(beta0, v), best)
    ensures FailSoft(best, v, alpha, beta0)
  {
  }

  lemma MinContinue(alpha: ExtInt, beta0: ExtInt, best: ExtInt, vk: ExtInt, sofar: ExtInt, e: ExtInt)
    requires Lt(alpha, Min(beta0, best)) && Le(best, sofar) && Le(Min(beta0, sofar), best)
    requires FailSoft(e, vk, alpha, Min(beta0, best))
    requires Lt(alpha, Min(Min(beta0, best), e))
    ensures Min(Min(beta0, best), e) == Min(beta0, Min(best, e))
    ensures Le(Min(best, e), Min(sofar, vk)) && Le(Min(beta0, Min(sofar, vk)), Min(best, e))
  {
  }

  lemma MinCutoff(alpha: ExtInt, beta0: ExtInt, best: ExtInt, vk: ExtInt, e: ExtInt, v: ExtInt)
    requires Lt(alpha, Min(beta0, best))
    requires FailSoft(e, vk, alpha, Min(beta0, best))
    requires Le(Min(Min(beta0, best), e), alpha) && Le(v, vk)
    ensures FailSoft(Min(best, e), v, alpha, beta0)
  {
  }
}
