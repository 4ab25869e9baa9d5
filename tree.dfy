/**
 * The game tree: each node holds a board, its state, the move that led to
 * it, the player to move and a cached score. `Expand` says what
 * `generate_tree` makes of a tree; the method `GenerateTree` builds the same
 * tree by the source's two loops. Trees are values here: the method returns
 * the expanded tree instead of updating the nodes in place.
 */
module GameTrees {
  import opened Wrappers
  import opened Grids
  import opened Boards
  import opened Games

  /**
   * The data of a node: the board, its game state, the column played to
   * reach it (none at the root), the player to move and the minimax score,
   * if known.
   */
  datatype Node = Node(board: Grid, gameState: GameState, delta: Option<int>, playing: Player, score: Option<real>)

  /** A node with the subtrees of its moves, in the order they were added. */
  datatype Tree = Tree(node: Node, children: seq<Tree>)

  /** The first player maximizes, the second minimizes. */
  predicate Maximizing(n: Node) {
    n.playing == 0
  }

  /** A fresh tree: one childless node whose state is read off the board, with no score yet. */
  function NewTree(board: Grid, playing: Player, delta: Option<int>): (t: Tree)
    ensures WellFormed(t)
  {
    Tree(Node(board, StateOf(board), delta, playing, None), [])
  }

  /** Some child was reached by playing `col`. */
  predicate ChildExists(children: seq<Tree>, col: int) {
    exists k :: 0 <= k < |children| && children[k].node.delta == Some(col)
  }

  /** The child for move `col`: a copy of the board with the mover's piece dropped there, the other player to move. */
  function ChildFor(n: Node, col: int): Tree
    requires CanDrop(n.board, col)
  {
    NewTree(Dropped(n.board, col, Sym(n.playing)), Other(n.playing), Some(col))
  }

  /** The first loop of `generate_tree`: a new child, appended, for each column in `cols` that has none yet. */
  function AddMissing(n: Node, children: seq<Tree>, cols: seq<int>): seq<Tree>
    requires forall c :: c in cols ==> CanDrop(n.board, c)
    decreases |cols|
  {
    if cols == [] then children
    else if ChildExists(children, cols[0]) then AddMissing(n, children, cols[1..])
    else AddMissing(n, children + [ChildFor(n, cols[0])], cols[1..])
  }

  /**
   * `generate_tree(depth)`: nothing happens at depth 0 or on a decided
   * game; otherwise the score is cleared, missing children are added and
   * every child is expanded to one level less.
   */
  function Expand(t: Tree, depth: int): (e: Tree)
    decreases depth
    ensures e.node.board == t.node.board && e.node.gameState == t.node.gameState
    ensures e.node.delta == t.node.delta && e.node.playing == t.node.playing
    ensures |t.children| <= |e.children|
  {
    if depth <= 0 || t.node.gameState != InProgress then t
    else
      var cols := ValidColumns(t.node.board);
      var kids := AddMissing(t.node, t.children, cols);
      AddMissingKeeps(t.node, t.children, cols);
      Tree(t.node.(score := None), seq(|kids|, k requires 0 <= k < |kids| => Expand(kids[k], depth - 1)))
  }

  /** One level of expansion, spelled out. */
  lemma ExpandStep(t: Tree, depth: int)
    requires depth > 0 && t.node.gameState == InProgress
    ensures var kids := AddMissing(t.node, t.children, ValidColumns(t.node.board));
      && Expand(t, depth).node == t.node.(score := None)
      && |Expand(t, depth).children| == |kids|
      && forall k :: 0 <= k < |kids| ==> Expand(t, depth).children[k] == Expand(kids[k], depth - 1)
  {
  }

  // ---------------------------------------------------------------------
  // Invariants of the tree

  /** `child` follows from `parent` by the parent's player dropping a piece into a playable column. */
  predicate ChildOf(parent: Node, child: Node) {
    && child.delta.Some?
    && CanDrop(parent.board, child.delta.value)
    && child.board == Dropped(parent.board, child.delta.value, Sym(parent.playing))
    && child.playing == Other(parent.playing)
  }

  /**
   * What every tree built from `NewTree` and `Expand` satisfies: each
   * node's state is that of its board, only games in progress have
   * children, each child follows from its parent by its move, and no two
   * children share a move.
   */
  predicate WellFormed(t: Tree)
    decreases t
  {
    && t.node.gameState == StateOf(t.node.board)
    && (t.children != [] ==> t.node.gameState == InProgress)
    && (forall k :: 0 <= k < |t.children| ==> ChildOf(t.node, t.children[k].node))
    && (forall j, k :: 0 <= j < k < |t.children| ==> t.children[j].node.delta != t.children[k].node.delta)
    && (forall k :: 0 <= k < |t.children| ==> WellFormed(t.children[k]))
  }

  /**
   * The tree is expanded to `depth`: every node in progress above that
   * depth has a child for every playable column.
   */
  predicate Complete(t: Tree, depth: int)
    decreases t
  {
    || depth <= 0
    || t.node.gameState != InProgress
    || (&& (forall c :: c in ValidColumns(t.node.board) ==> ChildExists(t.children, c))
        && (forall k :: 0 <= k < |t.children| ==> Complete(t.children[k], depth - 1)))
  }

  // ---------------------------------------------------------------------
  // Adding the missing children

  /** Adding keeps the existing children, in place and first. */
  lemma {:induction false} AddMissingKeeps(n: Node, children: seq<Tree>, cols: seq<int>)
    requires forall c :: c in cols ==> CanDrop(n.board, c)
    decreases |cols|
    ensures |children| <= |AddMissing(n, children, cols)|
    ensures AddMissing(n, children, cols)[..|children|] == children
  {
    if cols != [] {
      if ChildExists(children, cols[0]) {
        AddMissingKeeps(n, children, cols[1..]);
      } else {
        var more := children + [ChildFor(n, cols[0])];
        AddMissingKeeps(n, more, cols[1..]);
        assert more[..|children|] == children;
      }
    }
  }

  /** After adding, every column of `cols` has a child, and every child from before still has its move. */
  lemma {:induction false} AddMissingCovers(n: Node, children: seq<Tree>, cols: seq<int>)
    requires forall c :: c in cols ==> CanDrop(n.board, c)
    decreases |cols|
    ensures forall c :: c in cols ==> ChildExists(AddMissing(n, children, cols), c)
  {
    if cols != [] {
      var c := cols[0];
      var more := if ChildExists(children, c) then children else children + [ChildFor(n, c)];
      if !ChildExists(children, c) {
        assert more[|children|].node.delta == Some(c);
      }
      AddMissingCovers(n, more, cols[1..]);
      AddMissingKeeps(n, more, cols[1..]);
      var r := AddMissing(n, more, cols[1..]);
      var k :| 0 <= k < |more| && more[k].node.delta == Some(c);
      assert r[k] == r[..|more|][k];
    }
  }

  /** A new child follows from its parent by its move, is well formed, and has no children and no score. */
  lemma ChildForFacts(n: Node, c: int)
    requires CanDrop(n.board, c)
    ensures ChildFor(n, c).node.delta == Some(c)
    ensures ChildOf(n, ChildFor(n, c).node) && WellFormed(ChildFor(n, c))
    ensures ChildFor(n, c).children == [] && ChildFor(n, c).node.score == None
  {
  }

  /** `x` is the child for a column of `cols` that had no child among `children`. */
  predicate AddedFor(n: Node, children: seq<Tree>, cols: seq<int>, x: Tree) {
    && x.node.delta.Some?
    && x.node.delta.value in cols
    && !ChildExists(children, x.node.delta.value)
    && CanDrop(n.board, x.node.delta.value)
    && x == ChildFor(n, x.node.delta.value)
  }

  /** A column with a child among `children` still has one once more children are appended. */
  lemma ChildExistsGrows(children: seq<Tree>, more: seq<Tree>, c: int)
    requires |children| <= |more| && more[..|children|] == children
    ensures ChildExists(children, c) ==> ChildExists(more, c)
  {
    if ChildExists(children, c) {
      var i :| 0 <= i < |children| && children[i].node.delta == Some(c);
      assert more[i] == more[..|children|][i];
    }
  }

  /** Each added child is the child for a column of `cols` that had none before. */
  lemma {:induction false} AddMissingNew(n: Node, children: seq<Tree>, cols: seq<int>)
    requires forall c :: c in cols ==> CanDrop(n.board, c)
    decreases |cols|
    ensures forall k :: |children| <= k < |AddMissing(n, children, cols)| ==>
      AddedFor(n, children, cols, AddMissing(n, children, cols)[k])
  {
    if cols != [] {
      var c := cols[0];
      var rest := cols[1..];
      assert forall x :: x in rest ==> x in cols;
      if ChildExists(children, c) {
        AddMissingNew(n, children, rest);
      } else {
        var more := children + [ChildFor(n, c)];
        AddMissingNew(n, more, rest);
        AddMissingKeeps(n, more, rest);
        var r := AddMissing(n, more, rest);
        assert r[|children|] == r[..|more|][|children|];
        ChildForFacts(n, c);
        forall k | |children| < k < |r|
          ensures AddedFor(n, children, cols, r[k])
        {
          assert AddedFor(n, more, rest, r[k]);
          ChildExistsGrows(children, more, r[k].node.delta.value);
        }
      }
    }
  }

  /**
   * Adding children keeps every child following from the parent, well
   * formed, and with a move of its own.
   */
  lemma {:induction false} AddMissingWellFormed(n: Node, children: seq<Tree>, cols: seq<int>)
    requires forall c :: c in cols ==> CanDrop(n.board, c)
    requires forall k :: 0 <= k < |children| ==> ChildOf(n, children[k].node) && WellFormed(children[k])
    requires forall j, k :: 0 <= j < k < |children| ==> children[j].node.delta != children[k].node.delta
    decreases |cols|
    ensures forall k :: 0 <= k < |AddMissing(n, children, cols)| ==>
      ChildOf(n, AddMissing(n, children, cols)[k].node) && WellFormed(AddMissing(n, children, cols)[k])
    ensures forall j, k :: 0 <= j < k < |AddMissing(n, children, cols)| ==>
      AddMissing(n, children, cols)[j].node.delta != AddMissing(n, children, cols)[k].node.delta
  {
    if cols != [] {
      var c := cols[0];
      if ChildExists(children, c) {
        AddMissingWellFormed(n, children, cols[1..]);
      } else {
        var x := ChildFor(n, c);
        ChildForFacts(n, c);
        var more := children + [x];
        forall j, k | 0 <= j < k < |more|
          ensures more[j].node.delta != more[k].node.delta
        {
          if k == |children| {
            assert more[j] == children[j];
          }
        }
        AddMissingWellFormed(n, more, cols[1..]);
      }
    }
  }

  /** One step of the first loop of `generate_tree`. */
  lemma AddMissingStep(n: Node, children: seq<Tree>, cols: seq<int>, i: int)
    requires forall c :: c in cols ==> CanDrop(n.board, c)
    requires 0 <= i < |cols|
    ensures forall c :: c in cols[i + 1..] ==> CanDrop(n.board, c)
    ensures ChildExists(children, cols[i]) ==>
      AddMissing(n, children, cols[i..]) == AddMissing(n, children, cols[i + 1..])
    ensures !ChildExists(children, cols[i]) ==>
      AddMissing(n, children, cols[i..]) == AddMissing(n, children + [ChildFor(n, cols[i])], cols[i + 1..])
  {
    assert cols[i..][1..] == cols[i + 1..];
  }

  /** When every column already has a child, nothing is added. */
  lemma {:induction false} AddMissingNone(n: Node, children: seq<Tree>, cols: seq<int>)
    requires forall c :: c in cols ==> CanDrop(n.board, c)
    requires forall c :: c in cols ==> ChildExists(children, c)
    decreases |cols|
    ensures AddMissing(n, children, cols) == children
  {
    if cols != [] {
      AddMissingNone(n, children, cols[1..]);
    }
  }

  // ---------------------------------------------------------------------
  // What expansion promises

  /** At depth 0 or below, or on a decided game, expansion changes nothing. */
  lemma ExpandStops(t: Tree, depth: int)
    requires depth <= 0 || t.node.gameState != InProgress
    ensures Expand(t, depth) == t
  {
  }

  /**
   * On a game in progress, expansion clears the score and leaves the rest
   * of the node, the board included, as it was; the existing children are
   * kept, first and in order, each expanded one level less; each added
   * child is the child for a playable column that had none, expanded one
   * level less; and the children's moves are exactly the playable columns.
   */
  lemma ExpandChildren(t: Tree, depth: int)
    requires WellFormed(t) && depth > 0 && t.node.gameState == InProgress
    ensures var e := Expand(t, depth);
      && e.node == t.node.(score := None)
      && (forall k :: 0 <= k < |t.children| ==> e.children[k] == Expand(t.children[k], depth - 1))
      && (forall k :: |t.children| <= k < |e.children| ==>
            && e.children[k].node.delta.Some?
            && var c := e.children[k].node.delta.value;
               && c in ValidColumns(t.node.board)
               && !ChildExists(t.children, c)
               && e.children[k] == Expand(ChildFor(t.node, c), depth - 1))
      && (forall c :: c in ValidColumns(t.node.board) <==> ChildExists(e.children, c))
  {
    var cols := ValidColumns(t.node.board);
    var kids := AddMissing(t.node, t.children, cols);
    var e := Expand(t, depth);
    ExpandStep(t, depth);
    AddMissingKeeps(t.node, t.children, cols);
    AddMissingNew(t.node, t.children, cols);
    AddMissingCovers(t.node, t.children, cols);
    forall k | 0 <= k < |t.children|
      ensures e.children[k] == Expand(t.children[k], depth - 1)
    {
      assert kids[k] == kids[..|t.children|][k];
    }
    forall k | |t.children| <= k < |e.children|
      ensures && e.children[k].node.delta.Some?
              && var c := e.children[k].node.delta.value;
                 && c in cols
                 && !ChildExists(t.children, c)
                 && e.children[k] == Expand(ChildFor(t.node, c), depth - 1)
    {
      assert AddedFor(t.node, t.children, cols, kids[k]);
      ChildForFacts(t.node, kids[k].node.delta.value);
    }
    forall c
      ensures c in cols <==> ChildExists(e.children, c)
    {
      if c in cols {
        var k :| 0 <= k < |kids| && kids[k].node.delta == Some(c);
        assert e.children[k].node.delta == Some(c);
      }
      if ChildExists(e.children, c) {
        var k :| 0 <= k < |e.children| && e.children[k].node.delta == Some(c);
        if k < |t.children| {
          assert kids[k] == kids[..|t.children|][k];
          assert ChildOf(t.node, t.children[k].node);
        } else {
          assert AddedFor(t.node, t.children, cols, kids[k]);
          ChildForFacts(t.node, kids[k].node.delta.value);
        }
      }
    }
  }

  /** Expansion keeps a tree well formed. */
  lemma {:induction false} ExpandWellFormed(t: Tree, depth: int)
    requires WellFormed(t)
    decreases depth, 0
    ensures WellFormed(Expand(t, depth))
  {
    if depth > 0 && t.node.gameState == InProgress {
      ExpandedWellFormed(t, depth - 1);
    }
  }

  /** The inductive step of `ExpandWellFormed`: well-formed trees stay well formed when expanded to depth `d`. */
  lemma {:induction false} ExpandAllWellFormed(kids: seq<Tree>, d: int)
    requires forall k :: 0 <= k < |kids| ==> WellFormed(kids[k])
    decreases d, 1
    ensures forall k :: 0 <= k < |kids| ==> WellFormed(Expand(kids[k], d))
  {
    forall k | 0 <= k < |kids|
      ensures WellFormed(Expand(kids[k], d))
    {
      ExpandWellFormed(kids[k], d);
    }
  }

  /** One level of `ExpandWellFormed`: expanding to depth `d + 1` keeps the node well formed, its children expanded to `d`. */
  lemma {:induction false} ExpandedWellFormed(t: Tree, d: int)
    requires WellFormed(t) && d >= 0 && t.node.gameState == InProgress
    decreases d, 2
    ensures WellFormed(Expand(t, d + 1)) == true
  {
    var kids := AddMissing(t.node, t.children, ValidColumns(t.node.board));
    AddMissingWellFormed(t.node, t.children, ValidColumns(t.node.board));
    ExpandAllWellFormed(kids, d);
    ExpandStep(t, d + 1);
    var e := Expand(t, d + 1);
    forall j, k | 0 <= j < k < |e.children|
      ensures e.children[j].node.delta != e.children[k].node.delta
    {
      assert e.children[j].node.delta == kids[j].node.delta;
      assert e.children[k].node.delta == kids[k].node.delta;
    }
    ExpandedChildOf(t, d + 1);
  }

  /** Each child of an expanded tree follows from the node by its move. */
  lemma ExpandedChildOf(t: Tree, depth: int)
    requires WellFormed(t) && depth > 0 && t.node.gameState == InProgress
    ensures forall k :: 0 <= k < |Expand(t, depth).children| ==>
      ChildOf(Expand(t, depth).node, Expand(t, depth).children[k].node)
  {
    ExpandStep(t, depth);
    AddMissingWellFormed(t.node, t.children, ValidColumns(t.node.board));
  }

  /** Expansion to `depth` leaves the tree complete to that depth. */
  lemma {:induction false} ExpandComplete(t: Tree, depth: int)
    decreases depth, 0
    ensures Complete(Expand(t, depth), depth) == true
  {
    if depth <= 0 {
    } else if t.node.gameState != InProgress {
      assert Expand(t, depth).node.gameState != InProgress;
    } else {
      ExpandedComplete(t, depth - 1);
    }
  }

  /** The inductive step of `ExpandComplete`: any trees expanded to depth `d` are complete to that depth. */
  lemma {:induction false} ExpandAllComplete(kids: seq<Tree>, d: int)
    decreases d, 1
    ensures forall k :: 0 <= k < |kids| ==> Complete(Expand(kids[k], d), d)
  {
    forall k | 0 <= k < |kids|
      ensures Complete(Expand(kids[k], d), d)
    {
      ExpandComplete(kids[k], d);
    }
  }

  /** One level of `ExpandComplete`: children complete to depth `d` make an expansion complete to `d + 1`. */
  lemma {:induction false} ExpandedComplete(t: Tree, d: int)
    requires d >= 0 && t.node.gameState == InProgress
    decreases d, 2
    ensures Complete(Expand(t, d + 1), d + 1) == true
  {
    var cols := ValidColumns(t.node.board);
    var kids := AddMissing(t.node, t.children, cols);
    ExpandAllComplete(kids, d);
    var e := Expand(t, d + 1);
    ExpandStep(t, d + 1);
    AddMissingCovers(t.node, t.children, cols);
    forall c | c in cols
      ensures ChildExists(e.children, c)
    {
      var k :| 0 <= k < |kids| && kids[k].node.delta == Some(c);
      assert e.children[k].node.delta == Some(c);
    }
  }

  /** Expanding twice to the same depth gives the tree of expanding once. */
  lemma {:induction false} ExpandIdempotent(t: Tree, depth: int)
    decreases depth, 0
    ensures Expand(Expand(t, depth), depth) == Expand(t, depth)
  {
    if depth > 0 && t.node.gameState == InProgress {
      ExpandedIdempotent(t, depth - 1);
    }
  }

  /** The inductive step of `ExpandIdempotent`, for trees expanded to depth `d`. */
  lemma {:induction false} ExpandAllIdempotent(kids: seq<Tree>, d: int)
    decreases d, 1
    ensures forall k :: 0 <= k < |kids| ==> Expand(Expand(kids[k], d), d) == Expand(kids[k], d)
  {
    forall k | 0 <= k < |kids|
      ensures Expand(Expand(kids[k], d), d) == Expand(kids[k], d)
    {
      ExpandIdempotent(kids[k], d);
    }
  }

  /** One level of `ExpandIdempotent`: the second expansion adds no child and re-expands each child to `d`. */
  lemma {:induction false} ExpandedIdempotent(t: Tree, d: int)
    requires d >= 0 && t.node.gameState == InProgress
    decreases d, 2
    ensures Expand(Expand(t, d + 1), d + 1) == Expand(t, d + 1)
  {
    var cols := ValidColumns(t.node.board);
    var kids := AddMissing(t.node, t.children, cols);
    var e := Expand(t, d + 1);
    ExpandStep(t, d + 1);
    ExpandComplete(t, d + 1);
    AddMissingNone(e.node, e.children, cols);
    ExpandAllIdempotent(kids, d);
    ExpandStep(e, d + 1);
  }

  // ---------------------------------------------------------------------
  // generate_tree

  /** `generate_tree(depth)`, by its two loops: add the missing children, then expand every child. */
  method GenerateTree(t: Tree, depth: int) returns (e: Tree)
    decreases depth, 0
    ensures e == Expand(t, depth)
  {
    if depth <= 0 || t.node.gameState != InProgress {
      return t;
    }
    var node := t.node.(score := None);
    var children := AddChildren(t.node, t.children, ValidColumns(node.board));
    var expanded := GenerateChildren(children, depth - 1);
    ExpandStep(t, depth);
    e := Tree(node, expanded);
  }

  /** The first loop of `generate_tree`: a new child, appended, for each column in `cols` that has none yet. */
  method AddChildren(n: Node, existing: seq<Tree>, cols: seq<int>) returns (children: seq<Tree>)
    requires forall c :: c in cols ==> CanDrop(n.board, c)
    ensures children == AddMissing(n, existing, cols)
  {
    children := existing;
    assert cols[0..] == cols;
    for i := 0 to |cols|
      invariant forall c :: c in cols[i..] ==> CanDrop(n.board, c)
      invariant AddMissing(n, children, cols[i..]) == AddMissing(n, existing, cols)
    {
      AddMissingStep(n, children, cols, i);
      if ChildExists(children, cols[i]) {
        continue;
      }
      assert cols[i] in cols;
      var child := ChildFor(n, cols[i]);
      children := children + [child];
    }
    assert cols[|cols|..] == [];
  }

  /** The second loop of `generate_tree`: every child, expanded in turn to one level less. */
  method GenerateChildren(children: seq<Tree>, depth: int) returns (expanded: seq<Tree>)
    decreases depth, 1
    ensures |expanded| == |children|
    ensures forall k :: 0 <= k < |children| ==> expanded[k] == Expand(children[k], depth)
  {
    expanded := [];
    for i := 0 to |children|
      invariant |expanded| == i
      invariant forall k :: 0 <= k < i ==> expanded[k] == Expand(children[k], depth)
    {
      var child := GenerateTree(children[i], depth);
      expanded := expanded + [child];
    }
  }
}
