/**
 * Minimax with alpha-beta pruning over a game tree (`MinMaxTree.minimax`
 * and `MinMaxTree.get_score`). The first player maximizes, the second
 * minimizes; a leaf is worth its static evaluation, an inner node 0.9 times
 * the best value of the children it looked at, so that nearer results weigh
 * more than distant ones. Every child looked at gets its value recorded as
 * its score; children after a cut-off are left as they were.
 */
module AlphaBeta {
  import opened Wrappers
  import opened Grids
  import opened Games
  import opened Evaluation
  import opened GameTrees

  // ---------------------------------------------------------------------
  // Values extended with the two infinities

  /** A real or one of the two infinities: the values of `alpha`, `beta` and the best value so far. */
  datatype Ext = NegInf | Fin(v: real) | PosInf

  /** The order of the extended reals, infinities included. */
  predicate Le(a: Ext, b: Ext) {
    a.NegInf? || b.PosInf? || (a.Fin? && b.Fin? && a.v <= b.v)
  }

  function Max(a: Ext, b: Ext): (m: Ext)
    ensures Le(a, m) && Le(b, m) && (m == a || m == b)
  {
    if Le(a, b) then b else a
  }

  function Min(a: Ext, b: Ext): (m: Ext)
    ensures Le(m, a) && Le(m, b) && (m == a || m == b)
  {
    if Le(a, b) then a else b
  }

  /** `best`: `max` for the maximizing player, `min` for the other. */
  function Better(maxing: bool, a: Ext, b: Ext): Ext {
    if maxing then Max(a, b) else Min(a, b)
  }

  /** `worse(-inf, inf)`: the starting value of the best value so far. */
  function Worst(maxing: bool): Ext {
    if maxing then NegInf else PosInf
  }

  /** `a` is at least as good as `b` for the player who maximizes when `maxing`. */
  predicate AtLeast(maxing: bool, a: Ext, b: Ext) {
    if maxing then Le(b, a) else Le(a, b)
  }

  /** A finite value lies between -5 and 5. */
  predicate InRange(e: Ext) {
    e.Fin? ==> -5.0 <= e.v <= 5.0
  }

  /** The damping factor applied at every level. */
  const DAMPING: real := 0.9

  // ---------------------------------------------------------------------
  // The search, as a function

  /** The child with the value found for it recorded as its score. */
  function Scored(t: Tree, v: real): Tree {
    Tree(t.node.(score := Some(v)), t.children)
  }

  /**
   * What the loop over the children leaves behind: the best value found,
   * the children with the scores recorded so far, and the index after the
   * last child searched.
   */
  datatype Outcome = Outcome(best: Ext, kids: seq<Tree>, next: int)

  /**
   * `minimax(alpha, beta)`: a leaf is worth its static evaluation; an
   * inner node runs the loop over its children from the worst possible
   * best value and is worth 0.9 times the best value found. Returns the
   * value and the tree with the scores written by the search.
   */
  function Search(t: Tree, alpha: Ext, beta: Ext): (r: (real, Tree))
    decreases t, 1
    ensures -5.0 <= r.0 <= 5.0
    ensures r.1.node == t.node && |r.1.children| == |t.children|
  {
    if t.children == [] then
      (StaticEval(t.node.gameState, t.node.board, AsWritten) as real, t)
    else
      var o := Loop(t, 0, Worst(Maximizing(t.node)), alpha, beta, t.children);
      (DAMPING * o.best.v, Tree(t.node, o.kids))
  }

  /**
   * The loop of `minimax` from child `i` on, with the best value so far,
   * the current window and the children as updated so far: search the
   * child, record its value, update the best value and the player's bound
   * of the window, and stop once `beta <= alpha`. Children before `i` and
   * from the stopping point on are left as they were; every child searched
   * has a score.
   */
  function Loop(t: Tree, i: int, best: Ext, alpha: Ext, beta: Ext, kids: seq<Tree>): (o: Outcome)
    requires 0 <= i <= |t.children| == |kids|
    requires InRange(best) && (best.Fin? || best == Worst(Maximizing(t.node)))
    decreases t, 0, |t.children| - i
    ensures |o.kids| == |t.children|
    ensures InRange(o.best) && (i < |t.children| || best.Fin? ==> o.best.Fin?)
    ensures i <= o.next <= |t.children| && (i < |t.children| ==> i < o.next)
  {
    if i == |t.children| then Outcome(best, kids, i)
    else
      var s := Search(t.children[i], alpha, beta);
      var kids' := kids[i := Scored(s.1, s.0)];
      var maxing := Maximizing(t.node);
      var best' := Better(maxing, best, Fin(s.0));
      var alpha' := if maxing then Max(alpha, best') else alpha;
      var beta' := if maxing then beta else Min(beta, best');
      if Le(beta', alpha') then Outcome(best', kids', i + 1)
      else Loop(t, i + 1, best', alpha', beta', kids')
  }

  /** One turn of the loop, with the searched child and the updated best value and window given by name. */
  lemma {:induction false} LoopStep(t: Tree, i: int, best: Ext, alpha: Ext, beta: Ext, kids: seq<Tree>,
                                    v: real, child: Tree, best': Ext, alpha': Ext, beta': Ext)
    requires 0 <= i < |t.children| == |kids|
    requires InRange(best) && (best.Fin? || best == Worst(Maximizing(t.node)))
    requires (v, child) == Search(t.children[i], alpha, beta)
    requires best' == Better(Maximizing(t.node), best, Fin(v))
    requires alpha' == if Maximizing(t.node) then Max(alpha, best') else alpha
    requires beta' == if Maximizing(t.node) then beta else Min(beta, best')
    ensures best'.Fin? && InRange(best')
    ensures Le(beta', alpha') ==> Loop(t, i, best, alpha, beta, kids) == Outcome(best', kids[i := Scored(child, v)], i + 1)
    ensures !Le(beta', alpha') ==>
      Loop(t, i, best, alpha, beta, kids) == Loop(t, i + 1, best', alpha', beta', kids[i := Scored(child, v)])
  {
  }

  // ---------------------------------------------------------------------
  // The search, as the source runs it

  /** `minimax(alpha, beta)` with its loop and its early exit. */
  method Minimax(t: Tree, alpha: Ext, beta: Ext) returns (value: real, r: Tree)
    decreases t, 2
    ensures (value, r) == Search(t, alpha, beta)
  {
    if t.children == [] {
      value, r := StaticEval(t.node.gameState, t.node.board, AsWritten) as real, t;
      return;
    }
    var best, kids := MinimaxLoop(t, alpha, beta);
    value := DAMPING * best.v;
    r := Tree(t.node, kids);
  }

  /**
   * The loop of `minimax` over the children of an inner node, from the
   * worst possible best value, up to the last child or the first cut-off.
   */
  method MinimaxLoop(t: Tree, alpha: Ext, beta: Ext) returns (best: Ext, kids: seq<Tree>)
    requires t.children != []
    decreases t, 1
    ensures best.Fin?
    ensures best == Loop(t, 0, Worst(Maximizing(t.node)), alpha, beta, t.children).best
    ensures kids == Loop(t, 0, Worst(Maximizing(t.node)), alpha, beta, t.children).kids
  {
    best := Worst(Maximizing(t.node));
    var a, b := alpha, beta;
    kids := t.children;
    var i := 0;
    var cut := false;
    ghost var target := Loop(t, 0, best, alpha, beta, t.children);
    while i < |t.children| && !cut
      invariant 0 <= i <= |t.children| == |kids|
      invariant InRange(best) && (best.Fin? || best == Worst(Maximizing(t.node)))
      invariant !cut ==> Loop(t, i, best, a, b, kids) == target
      invariant cut ==> best == target.best && kids == target.kids
      decreases |t.children| - i, if cut then 0 else 1
    {
      best, a, b, kids, cut := SearchChild(t, i, best, a, b, kids);
      i := if cut then i else i + 1;
    }
  }

  /**
   * One turn of the loop of `minimax`: search child `i`, record its value,
   * update the best value and the player's bound of the window, and report
   * whether the window has closed.
   */
  method SearchChild(t: Tree, i: int, best: Ext, alpha: Ext, beta: Ext, kids: seq<Tree>)
    returns (best': Ext, alpha': Ext, beta': Ext, kids': seq<Tree>, cut: bool)
    requires 0 <= i < |t.children| == |kids|
    requires InRange(best) && (best.Fin? || best == Worst(Maximizing(t.node)))
    decreases t, 0
    ensures best'.Fin? && InRange(best') && |kids'| == |kids|
    ensures cut ==> Loop(t, i, best, alpha, beta, kids) == Outcome(best', kids', i + 1)
    ensures !cut ==> Loop(t, i, best, alpha, beta, kids) == Loop(t, i + 1, best', alpha', beta', kids')
  {
    var maxing := Maximizing(t.node);
    var v, child := Minimax(t.children[i], alpha, beta);
    kids' := kids[i := Scored(child, v)];
    best' := Better(maxing, best, Fin(v));
    alpha' := if maxing then Max(alpha, best') else alpha;
    beta' := if maxing then beta else Min(beta, best');
    LoopStep(t, i, best, alpha, beta, kids, v, child, best', alpha', beta');
    cut := Le(beta', alpha');
  }

  // ---------------------------------------------------------------------
  // Facts about the extended order

  lemma LeTrans(a: Ext, b: Ext, c: Ext)
    requires Le(a, b) && Le(b, c)
    ensures Le(a, c)
  {
  }

  /** Raising one argument of `max` or `min` does not lower the result. */
  lemma Monotone(a: Ext, a': Ext, s: Ext)
    requires Le(a, a')
    ensures Le(Max(a, s), Max(a', s)) && Le(Min(a, s), Min(a', s))
  {
  }

  /** Folding in a value no better than the final one does not change `max(alpha, .)` or `min(beta, .)`. */
  lemma Absorb(a: Ext, x: Ext, b: Ext)
    ensures Le(x, b) ==> Max(Max(a, x), b) == Max(a, b)
    ensures Le(b, x) ==> Min(Min(a, x), b) == Min(a, b)
  {
  }

  /**
   * The loop stops after the child whose best value so far `b` closes the
   * window: `beta <= max(alpha, b)` for the maximizing player,
   * `min(beta, b) <= alpha` for the other.
   */
  predicate Cut(maxing: bool, alpha: Ext, beta: Ext, b: Ext) {
    if maxing then Le(beta, Max(alpha, b)) else Le(Min(beta, b), alpha)
  }

  /** The value of a leaf: its static evaluation. */
  function Static(t: Tree): (v: real)
    ensures -5.0 <= v <= 5.0
  {
    StaticEval(t.node.gameState, t.node.board, AsWritten) as real
  }

  /** The score recorded in a child the loop has searched. */
  function Recorded(t: Tree): Ext {
    if t.node.score.Some? then Fin(t.node.score.value) else NegInf
  }

  // ---------------------------------------------------------------------
  // What the loop computes

  /** `child` is `orig` after a search of it in some window, with the value found recorded as its score. */
  ghost predicate Searched(child: Tree, orig: Tree) {
    exists a, c :: child == Scored(Search(orig, a, c).1, Search(orig, a, c).0)
  }

  lemma SearchedIntro(orig: Tree, a: Ext, c: Ext)
    ensures Searched(Scored(Search(orig, a, c).1, Search(orig, a, c).0), orig)
  {
  }

  /** The loop leaves the children before `i` and from its stopping point on as they were. */
  lemma {:induction false} LoopKeeps(t: Tree, i: int, best: Ext, alpha: Ext, beta: Ext, kids: seq<Tree>, o: Outcome)
    requires 0 <= i <= |t.children| == |kids|
    requires InRange(best) && (best.Fin? || best == Worst(Maximizing(t.node)))
    requires o == Loop(t, i, best, alpha, beta, kids)
    decreases |t.children| - i
    ensures forall k :: 0 <= k < i || o.next <= k < |t.children| ==> o.kids[k] == kids[k]
  {
    if i < |t.children| {
      var maxing := Maximizing(t.node);
      var s := Search(t.children[i], alpha, beta);
      var kids' := kids[i := Scored(s.1, s.0)];
      var best' := Better(maxing, best, Fin(s.0));
      var alpha' := if maxing then Max(alpha, best') else alpha;
      var beta' := if maxing then beta else Min(beta, best');
      LoopStep(t, i, best, alpha, beta, kids, s.0, s.1, best', alpha', beta');
      if !Le(beta', alpha') {
        LoopKeeps(t, i + 1, best', alpha', beta', kids', o);
      }
    }
  }

  /** Every child the loop searches ends up as a search of the original child with its value recorded. */
  lemma {:induction false} LoopRecords(t: Tree, i: int, best: Ext, alpha: Ext, beta: Ext, kids: seq<Tree>, o: Outcome)
    requires 0 <= i <= |t.children| == |kids|
    requires InRange(best) && (best.Fin? || best == Worst(Maximizing(t.node)))
    requires o == Loop(t, i, best, alpha, beta, kids)
    decreases |t.children| - i
    ensures forall k :: i <= k < o.next ==> o.kids[k].node.score.Some? && Searched(o.kids[k], t.children[k])
  {
    if i < |t.children| {
      var maxing := Maximizing(t.node);
      var s := Search(t.children[i], alpha, beta);
      var kids' := kids[i := Scored(s.1, s.0)];
      var best' := Better(maxing, best, Fin(s.0));
      var alpha' := if maxing then Max(alpha, best') else alpha;
      var beta' := if maxing then beta else Min(beta, best');
      LoopStep(t, i, best, alpha, beta, kids, s.0, s.1, best', alpha', beta');
      SearchedIntro(t.children[i], alpha, beta);
      if !Le(beta', alpha') {
        LoopRecords(t, i + 1, best', alpha', beta', kids', o);
        LoopKeeps(t, i + 1, best', alpha', beta', kids', o);
        assert o.kids[i] == kids'[i];
      }
    }
  }

  /**
   * The loop's result is the best of the starting value and the values
   * recorded in the children it searched, and is one of them.
   */
  lemma {:induction false} LoopBest(t: Tree, i: int, best: Ext, alpha: Ext, beta: Ext, kids: seq<Tree>, o: Outcome)
    requires 0 <= i <= |t.children| == |kids|
    requires InRange(best) && (best.Fin? || best == Worst(Maximizing(t.node)))
    requires o == Loop(t, i, best, alpha, beta, kids)
    decreases |t.children| - i
    ensures AtLeast(Maximizing(t.node), o.best, best)
    ensures forall k :: i <= k < o.next ==> AtLeast(Maximizing(t.node), o.best, Recorded(o.kids[k]))
    ensures o.best == best || exists k :: i <= k < o.next && o.best == Recorded(o.kids[k])
  {
    if i < |t.children| {
      var maxing := Maximizing(t.node);
      var s := Search(t.children[i], alpha, beta);
      var kids' := kids[i := Scored(s.1, s.0)];
      var best' := Better(maxing, best, Fin(s.0));
      var alpha' := if maxing then Max(alpha, best') else alpha;
      var beta' := if maxing then beta else Min(beta, best');
      LoopStep(t, i, best, alpha, beta, kids, s.0, s.1, best', alpha', beta');
      assert Recorded(kids'[i]) == Fin(s.0);
      if !Le(beta', alpha') {
        LoopBest(t, i + 1, best', alpha', beta', kids', o);
        LoopKeeps(t, i + 1, best', alpha', beta', kids', o);
        assert o.kids[i] == kids'[i];
        if maxing {
          LeTrans(Fin(s.0), best', o.best);
          LeTrans(best, best', o.best);
        } else {
          LeTrans(o.best, best', Fin(s.0));
          LeTrans(o.best, best', best);
        }
      }
    }
  }

  /**
   * The loop stops early only when the window closes, and it does not run
   * past a child whose value closed the window.
   */
  lemma {:induction false} LoopCuts(t: Tree, i: int, best: Ext, alpha: Ext, beta: Ext, kids: seq<Tree>, o: Outcome)
    requires 0 <= i <= |t.children| == |kids|
    requires InRange(best) && (best.Fin? || best == Worst(Maximizing(t.node)))
    requires o == Loop(t, i, best, alpha, beta, kids)
    decreases |t.children| - i
    ensures o.next < |t.children| ==> Cut(Maximizing(t.node), alpha, beta, o.best)
    ensures forall k :: i <= k < o.next - 1 ==> !Cut(Maximizing(t.node), alpha, beta, Recorded(o.kids[k]))
  {
    if i < |t.children| {
      var maxing := Maximizing(t.node);
      var s := Search(t.children[i], alpha, beta);
      var kids' := kids[i := Scored(s.1, s.0)];
      var best' := Better(maxing, best, Fin(s.0));
      var alpha' := if maxing then Max(alpha, best') else alpha;
      var beta' := if maxing then beta else Min(beta, best');
      LoopStep(t, i, best, alpha, beta, kids, s.0, s.1, best', alpha', beta');
      if !Le(beta', alpha') {
        LoopCuts(t, i + 1, best', alpha', beta', kids', o);
        LoopBest(t, i + 1, best', alpha', beta', kids', o);
        LoopKeeps(t, i + 1, best', alpha', beta', kids', o);
        assert Recorded(o.kids[i]) == Fin(s.0);
        if maxing {
          CutsMax(alpha, beta, best', o.best, Fin(s.0));
        } else {
          CutsMin(alpha, beta, best', o.best, Fin(s.0));
        }
        forall k | i < k < o.next - 1
          ensures !Cut(maxing, alpha, beta, Recorded(o.kids[k]))
        {
          var x := Recorded(o.kids[k]);
          if maxing {
            Monotone(alpha, alpha', x);
            if Le(beta, Max(alpha, x)) {
              LeTrans(beta, Max(alpha, x), Max(alpha', x));
            }
          } else {
            Monotone(beta', beta, x);
            if Le(Min(beta, x), alpha) {
              LeTrans(Min(beta', x), Min(beta, x), alpha);
            }
          }
        }
      }
    }
  }

  /** The maximizing player's step of `LoopCuts`: the window at the end is the one at the start widened by the final best value. */
  lemma CutsMax(alpha: Ext, beta: Ext, best': Ext, b: Ext, x: Ext)
    requires Le(best', b) && Le(x, best') && !Le(beta, Max(alpha, best'))
    ensures Le(beta, Max(Max(alpha, best'), b)) ==> Le(beta, Max(alpha, b))
    ensures !Le(beta, Max(alpha, x))
  {
    Absorb(alpha, best', b);
    Monotone(x, best', alpha);
    if Le(beta, Max(alpha, x)) {
      LeTrans(beta, Max(x, alpha), Max(best', alpha));
    }
  }

  /** The minimizing player's step of `LoopCuts`. */
  lemma CutsMin(alpha: Ext, beta: Ext, best': Ext, b: Ext, x: Ext)
    requires Le(b, best') && Le(best', x) && !Le(Min(beta, best'), alpha)
    ensures Le(Min(Min(beta, best'), b), alpha) ==> Le(Min(beta, b), alpha)
    ensures !Le(Min(beta, x), alpha)
  {
    Absorb(beta, best', b);
    Monotone(best', x, beta);
    if Le(Min(beta, x), alpha) {
      LeTrans(Min(best', beta), Min(x, beta), alpha);
    }
  }

  // ---------------------------------------------------------------------
  // What a search computes

  /** The number of children a search of an inner node looks at. */
  function Visited(t: Tree, alpha: Ext, beta: Ext): (m: int)
    requires t.children != []
    ensures 0 < m <= |t.children|
  {
    Loop(t, 0, Worst(Maximizing(t.node)), alpha, beta, t.children).next
  }

  /**
   * A search of an inner node looks at its first `Visited` children in
   * order, records in each the value of a search of it, and leaves the
   * rest as they were.
   */
  lemma SearchVisits(t: Tree, alpha: Ext, beta: Ext, r: (real, Tree))
    requires t.children != [] && r == Search(t, alpha, beta)
    ensures forall k :: 0 <= k < Visited(t, alpha, beta) ==>
      r.1.children[k].node.score.Some? && Searched(r.1.children[k], t.children[k])
    ensures forall k :: Visited(t, alpha, beta) <= k < |t.children| ==> r.1.children[k] == t.children[k]
  {
    var o := Loop(t, 0, Worst(Maximizing(t.node)), alpha, beta, t.children);
    LoopKeeps(t, 0, Worst(Maximizing(t.node)), alpha, beta, t.children, o);
    LoopRecords(t, 0, Worst(Maximizing(t.node)), alpha, beta, t.children, o);
  }

  /**
   * The value of an inner node is at least 0.9 times every score recorded
   * in the children looked at, for the first player, and at most that for
   * the second.
   */
  lemma SearchBest(t: Tree, alpha: Ext, beta: Ext, r: (real, Tree))
    requires t.children != [] && r == Search(t, alpha, beta)
    ensures forall k :: 0 <= k < Visited(t, alpha, beta) ==> r.1.children[k].node.score.Some?
    ensures forall k :: 0 <= k < Visited(t, alpha, beta) ==>
      if Maximizing(t.node) then DAMPING * r.1.children[k].node.score.value <= r.0
      else r.0 <= DAMPING * r.1.children[k].node.score.value
  {
    var o := Loop(t, 0, Worst(Maximizing(t.node)), alpha, beta, t.children);
    LoopRecords(t, 0, Worst(Maximizing(t.node)), alpha, beta, t.children, o);
    LoopBest(t, 0, Worst(Maximizing(t.node)), alpha, beta, t.children, o);
    assert r.0 == DAMPING * o.best.v && r.1.children == o.kids;
  }

  /**
   * The value of an inner node is 0.9 times the score recorded in one of
   * the children looked at, so it lies between -4.5 and 4.5.
   */
  lemma SearchAttained(t: Tree, alpha: Ext, beta: Ext, r: (real, Tree))
    requires t.children != [] && r == Search(t, alpha, beta)
    ensures exists k ::
      && 0 <= k < Visited(t, alpha, beta)
      && r.1.children[k].node.score.Some?
      && r.0 == DAMPING * r.1.children[k].node.score.value
    ensures -4.5 <= r.0 <= 4.5
  {
    var o := Loop(t, 0, Worst(Maximizing(t.node)), alpha, beta, t.children);
    LoopBest(t, 0, Worst(Maximizing(t.node)), alpha, beta, t.children, o);
    assert r.0 == DAMPING * o.best.v && r.1.children == o.kids;
    assert o.best != Worst(Maximizing(t.node));
    var k :| 0 <= k < o.next && o.best == Recorded(o.kids[k]);
    assert o.kids[k].node.score.Some?;
  }

  /**
   * A search of an inner node stops before its last child only when the
   * best value closes the window, and never passes a child whose recorded
   * value closed it on its own.
   */
  lemma SearchStops(t: Tree, alpha: Ext, beta: Ext, r: (real, Tree))
    requires t.children != [] && r == Search(t, alpha, beta)
    ensures Visited(t, alpha, beta) < |t.children| ==> Cut(Maximizing(t.node), alpha, beta, Fin(r.0 / DAMPING))
    ensures forall k :: 0 <= k < Visited(t, alpha, beta) - 1 ==>
      !Cut(Maximizing(t.node), alpha, beta, Recorded(r.1.children[k]))
  {
    var o := Loop(t, 0, Worst(Maximizing(t.node)), alpha, beta, t.children);
    LoopCuts(t, 0, Worst(Maximizing(t.node)), alpha, beta, t.children, o);
    assert r.0 == DAMPING * o.best.v;
    assert (DAMPING * o.best.v) / DAMPING == o.best.v;
  }

  /**
   * With the window of `get_score`, from minus to plus infinity, the node's
   * own loop never stops early: one end of the window stays infinite.
   */
  lemma FullWindow(t: Tree)
    requires t.children != []
    ensures Visited(t, NegInf, PosInf) == |t.children|
  {
    var o := Loop(t, 0, Worst(Maximizing(t.node)), NegInf, PosInf, t.children);
    LoopCuts(t, 0, Worst(Maximizing(t.node)), NegInf, PosInf, t.children, o);
  }

  /**
   * A leaf is worth its static evaluation in any window: 5 exactly when
   * the first player has four in a row, -5 exactly when only the second
   * has.
   */
  lemma LeafValue(t: Tree, alpha: Ext, beta: Ext)
    requires WellFormed(t) && t.children == []
    ensures Search(t, alpha, beta) == (Static(t), t)
    ensures Search(t, alpha, beta).0 == 5.0 <==> HasFour(t.node.board, Sym(0))
    ensures Search(t, alpha, beta).0 == -5.0 <==> !HasFour(t.node.board, Sym(0)) && HasFour(t.node.board, Sym(1))
  {
    StaticEvalMeaning(t.node.board, AsWritten);
  }

  /**
   * On a node whose children are all leaves, `get_score`'s search records
   * each child's static evaluation as its score and is worth 0.9 times
   * the largest of them for the first player, the smallest for the second.
   */
  lemma TwoPly(t: Tree, r: (real, Tree))
    requires t.children != [] && forall k :: 0 <= k < |t.children| ==> t.children[k].children == []
    requires r == Search(t, NegInf, PosInf)
    ensures forall k :: 0 <= k < |t.children| ==> r.1.children[k] == Scored(t.children[k], Static(t.children[k]))
    ensures forall k :: 0 <= k < |t.children| ==>
      if Maximizing(t.node) then DAMPING * Static(t.children[k]) <= r.0 else r.0 <= DAMPING * Static(t.children[k])
    ensures exists k :: 0 <= k < |t.children| && r.0 == DAMPING * Static(t.children[k])
  {
    FullWindow(t);
    SearchVisits(t, NegInf, PosInf, r);
    SearchBest(t, NegInf, PosInf, r);
    SearchAttained(t, NegInf, PosInf, r);
    forall k | 0 <= k < |t.children|
      ensures r.1.children[k] == Scored(t.children[k], Static(t.children[k]))
    {
      var a, c :| r.1.children[k] == Scored(Search(t.children[k], a, c).1, Search(t.children[k], a, c).0);
    }
  }

  // ---------------------------------------------------------------------
  // The memoised score

  /**
   * `get_score()`: the recorded score if there is one; otherwise the value
   * of a search in the window from minus to plus infinity, recorded as the
   * node's score. Returns the score and the tree afterwards.
   */
  function ScoreOf(t: Tree): (r: (real, Tree))
    ensures r.1.node.score == Some(r.0)
    ensures t.node.score.Some? ==> r == (t.node.score.value, t)
    ensures t.node.score.None? ==> r.1.node == t.node.(score := Some(r.0)) && -5.0 <= r.0 <= 5.0
    ensures t.node.score.None? ==> r.1.children == Search(t, NegInf, PosInf).1.children
  {
    if t.node.score.Some? then (t.node.score.value, t)
    else
      var s := Search(t, NegInf, PosInf);
      (s.0, Scored(s.1, s.0))
  }

  /** `get_score()` on the tree, with the search run by `Minimax`. */
  method GetScore(t: Tree) returns (score: real, r: Tree)
    ensures (score, r) == ScoreOf(t)
  {
    if t.node.score.Some? {
      return t.node.score.value, t;
    }
    var value, searched := Minimax(t, NegInf, PosInf);
    score, r := value, Scored(searched, value);
  }

  /**
   * A `get_score()` that has to search records a score in every child: the
   * value of that child's own search, as the full window prunes nothing at
   * the root.
   */
  lemma ScoreOfRecords(t: Tree)
    requires t.node.score.None? && t.children != []
    ensures |ScoreOf(t).1.children| == |t.children|
    ensures forall k :: 0 <= k < |t.children| ==>
      ScoreOf(t).1.children[k].node.score.Some? && Searched(ScoreOf(t).1.children[k], t.children[k])
  {
    FullWindow(t);
    SearchVisits(t, NegInf, PosInf, Search(t, NegInf, PosInf));
  }

  /** A second `get_score()` returns the cached value and changes nothing. */
  lemma GetScoreCached(t: Tree)
    ensures ScoreOf(ScoreOf(t).1) == ScoreOf(t)
  {
  }
}
