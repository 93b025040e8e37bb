/** The two passes over the tree that remove SUBEXP nodes: stripping a subexpression that is the
    whole of another one, and lowering the rest to open and close markers. */
module SubexpPasses {
  import opened RegexLanguage
  import opened TreeStorage

  // ----- optimize_subexps -----

  function StripLeft(t: Tree): Tree
    requires t.Node?
  {
    if t.token.SUBEXP? && t.left.Node? && t.left.token.SUBEXP? then t.left.left else t.left
  }

  /** The tree after a preorder visit that strips, once per node, an inner subexpression. */
  function Optimized(t: Tree): Tree {
    if t.Null? then Null else Node(t.at, t.token, Optimized(StripLeft(t)), Optimized(t.right))
  }

  lemma {:induction false} OptimizedSpells(syntax: Syntax, t: Tree)
    ensures SameLang(syntax, Optimized(t), t)
  {
    if t.Node? {
      OptimizedSpells(syntax, StripLeft(t));
      OptimizedSpells(syntax, t.right);
      Congruence(syntax, Optimized(t), Node(t.at, t.token, StripLeft(t), t.right));
    }
  }

  lemma {:induction false} OptimizedWellFormed(t: Tree)
    requires WellFormed(t)
    ensures WellFormed(Optimized(t)) && (Optimized(t).Null? <==> t.Null?)
  {
    if t.Node? {
      OptimizedWellFormed(StripLeft(t));
      OptimizedWellFormed(t.right);
    }
  }

  /** The final tree, when the subtree at this place ends up as t and what follows in preorder is
      still to be optimized. */
  function Finish(ctx: Context, t: Tree): Tree {
    match ctx
    case Top => t
    case InLeft(at, token, right, up) => Finish(up, Node(at, token, t, Optimized(right)))
    case InRight(at, token, left, up) => Finish(up, Node(at, token, left, t))
  }

  lemma {:induction false} FinishAdvance(ctx: Context, t: Tree)
    ensures var p := Advance(ctx, t);
            Finish(ctx, t) == if p.Done? then Plug(ctx, t) else Finish(p.ctx, Optimized(p.t))
    decreases ctx
  {
    if ctx.InRight? || (ctx.InLeft? && ctx.right.Null?) {
      FinishAdvance(ctx.up, Above(ctx, t));
    }
  }

  lemma StripShorter(t: Tree)
    requires t.Node?
    ensures |PreOrder(StripLeft(t))| + |PreOrder(t.right)| < |PreOrder(t)|
  {
  }

  method OptimizeSubexps(store: TreeStore, root: nat, ghost t: Tree)
    requires t.Node? && root == t.at && Stands(store.cells, t)
    modifies store
    ensures Stands(store.cells, Optimized(t))
  {
    var node: int := root;
    ghost var ctx, cur := Top, t;
    while node != NULL_PTR
      invariant node == NULL_PTR ==> Stands(store.cells, Optimized(t))
      invariant node != NULL_PTR ==>
                  && cur.Node? && node == cur.at && Stands(store.cells, Plug(ctx, cur))
                  && Finish(ctx, Optimized(cur)) == Optimized(t)
      decreases node != NULL_PTR, |PreOrder(cur)| + |PreRest(ctx)|
    {
      ghost var left := StripLeft(cur);
      StripShorter(cur);
      OptimizeVisit(store, node, ctx, cur);
      Focus(store.cells, ctx, Node(cur.at, cur.token, left, cur.right), NULL_PTR);
      ctx := InLeft(cur.at, cur.token, cur.right, ctx);
      cur := left;
      if store.cells[node].left != NULL_PTR {
        node := store.cells[node].left;
      } else {
        AdvanceKeepsTree(ctx, cur);
        FinishAdvance(ctx, cur);
        node := store.UpAndRight(node, ctx, cur);
        var p := Advance(ctx, cur);
        if p.At? {
          ctx, cur := p.ctx, p.t;
        }
      }
    }
  }

  /** optimize_subexps at one node. */
  method OptimizeVisit(store: TreeStore, node: nat, ghost ctx: Context, ghost t: Tree)
    requires t.Node? && node == t.at && Stands(store.cells, Plug(ctx, t))
    modifies store
    ensures Stands(store.cells, Plug(ctx, Node(t.at, t.token, StripLeft(t), t.right)))
  {
    ghost var h := store.cells;
    Focus(h, ctx, t, NULL_PTR);
    Focus(h, InLeft(t.at, t.token, t.right, ctx), t.left, NULL_PTR);
    var left := store.cells[node].left;
    if store.cells[node].token.SUBEXP? && left != NULL_PTR && store.cells[left].token.SUBEXP? {
      var inner := store.cells[left].left;
      store.cells := store.cells[node := store.cells[node].(left := inner)];
      if inner != NULL_PTR {
        store.cells := store.cells[inner := store.cells[inner].(parent := node)];
      }
      ghost var t' := Node(t.at, t.token, t.left.left, t.right);
      Reparented(h, store.cells, t.left.left, left, node);
      HoldsFrame(h, store.cells, t.right, node);
      Refocus(h, store.cells, ctx, t, t', NULL_PTR);
    }
  }

  // ----- lower_subexps -----

  predicate IsLeaf(t: Tree, token: Token) {
    t.Node? && t.token == token && t.left.Null? && t.right.Null?
  }

  /** u is t with every subexpression replaced by its body between markers, or, when no registers
      are wanted and the body is not empty, by the body alone. */
  ghost predicate Lowered(noSub: bool, t: Tree, u: Tree)
    decreases t, 1
  {
    if t.Null? then u.Null?
    else if !t.token.SUBEXP? then Half(noSub, t, u)
    else if noSub && t.left.Node? then Lowered(noSub, t.left, u)
    else
      && u.Node? && u.token == CONCAT && IsLeaf(u.left, OP_OPEN_SUBEXP(t.token.idx))
      && if t.left.Null? then IsLeaf(u.right, OP_CLOSE_SUBEXP(t.token.idx))
         else u.right.Node? && u.right.token == CONCAT && Lowered(noSub, t.left, u.right.left)
              && IsLeaf(u.right.right, OP_CLOSE_SUBEXP(t.token.idx))
  }

  /** The node itself is unchanged, its subtrees are lowered. */
  ghost predicate Half(noSub: bool, t: Tree, u: Tree)
    requires t.Node?
    decreases t, 0
  {
    && u.Node? && u.at == t.at && u.token == t.token
    && Lowered(noSub, t.left, u.left) && Lowered(noSub, t.right, u.right)
  }

  lemma {:induction false} LoweredNull(noSub: bool, t: Tree, u: Tree)
    requires Lowered(noSub, t, u)
    ensures t.Null? <==> u.Null?
  {
    if t.Node? && t.token.SUBEXP? && noSub && t.left.Node? {
      LoweredNull(noSub, t.left, u);
    }
  }

  lemma {:induction false} LoweredSpells(syntax: Syntax, noSub: bool, t: Tree, u: Tree)
    requires Lowered(noSub, t, u)
    ensures SameLang(syntax, t, u)
  {
    if t.Node? {
      if !t.token.SUBEXP? {
        LoweredSpells(syntax, noSub, t.left, u.left);
        LoweredSpells(syntax, noSub, t.right, u.right);
        Congruence(syntax, t, u);
      } else if noSub && t.left.Node? {
        LoweredSpells(syntax, noSub, t.left, u);
      } else if t.left.Null? {
        MarkerSpells(syntax, u, u.right);
      } else {
        LoweredSpells(syntax, noSub, t.left, u.right.left);
        MarkerSpells(syntax, u, u.right);
        MarkerSpells(syntax, u.right, u.right.left);
      }
    }
  }

  lemma {:induction false} LoweredLeaves(noSub: bool, t: Tree, u: Tree, token: Token)
    requires Lowered(noSub, t, u) && WellFormed(t) && token.IsByteNode()
    ensures Occurrences(u, token) == Occurrences(t, token)
  {
    if t.Node? {
      if !t.token.SUBEXP? {
        LoweredLeaves(noSub, t.left, u.left, token);
        LoweredLeaves(noSub, t.right, u.right, token);
      } else if t.left.Node? {
        LoweredLeaves(noSub, t.left, if noSub then u else u.right.left, token);
        assert !noSub ==> Occurrences(u.left, token) == 0 == Occurrences(u.right.right, token);
      } else {
        assert Occurrences(u.left, token) == 0 == Occurrences(u.right, token);
      }
    }
  }

  /** A marker next to a tree does not change its language. */
  lemma MarkerSpells(syntax: Syntax, t: Tree, body: Tree)
    requires t.Node? && t.token.CONCAT?
    requires (t.right == body && t.left.Node? && (t.left.token.OP_OPEN_SUBEXP? || t.left.token.OP_CLOSE_SUBEXP?))
          || (t.left == body && t.right.Node? && (t.right.token.OP_OPEN_SUBEXP? || t.right.token.OP_CLOSE_SUBEXP?))
    ensures SameLang(syntax, t, body)
  {
    forall w: seq<byte> ensures Lang(syntax, t, w) <==> Lang(syntax, body, w) {
      assert w[..0] == [] && w[0..] == w && w[..|w|] == w && w[|w|..] == [];
      if Lang(syntax, t, w) {
        var i :| 0 <= i <= |w| && Lang(syntax, t.left, w[..i]) && Lang(syntax, t.right, w[i..]);
        assert w[..i] == [] || w[i..] == [];
      }
      if Lang(syntax, body, w) {
        if t.right == body {
          ConcatIntro(syntax, t, [], w);
        } else {
          ConcatIntro(syntax, t, w, []);
          assert w + [] == w;
        }
      }
    }
  }

  /** A tree the automaton can be built from: well formed and without SUBEXP nodes. */
  ghost predicate Ready(t: Tree) {
    WellFormed(t) && NoSubexp(t)
  }

  ghost predicate NoSubexp(t: Tree) {
    t.Node? ==> !t.token.SUBEXP? && NoSubexp(t.left) && NoSubexp(t.right)
  }

  lemma {:induction false} LoweredReady(noSub: bool, t: Tree, u: Tree)
    requires Lowered(noSub, t, u) && WellFormed(t)
    ensures Ready(u) && (t.Null? <==> u.Null?)
  {
    if t.Node? {
      if !t.token.SUBEXP? {
        LoweredReady(noSub, t.left, u.left);
        LoweredReady(noSub, t.right, u.right);
      } else if t.left.Node? {
        LoweredReady(noSub, t.left, if noSub then u else u.right.left);
        assert !noSub ==> Ready(u.right) && Ready(u.left);
      } else {
        assert Ready(u.left) && Ready(u.right);
      }
    }
  }

  /** lower_subexp on the SUBEXP node `node`, whose own subtrees are already lowered. */
  method LowerSubexp(store: TreeStore, noSub: bool, node: nat, ghost t: Tree, ghost c: Tree, ghost p: int)
      returns (tree: nat, ghost u: Tree, ghost q: int)
    requires t.Node? && t.token.SUBEXP? && Half(noSub, t, c) && node == c.at
    requires Holds(store.cells, c, p) && Proper(c)
    modifies store
    ensures Lowered(noSub, t, u) && u.Node? && tree == u.at && Holds(store.cells, u, q) && Proper(u)
    ensures |old(store.cells)| <= |store.cells|
    ensures forall k :: k in Cells(u) ==> k in Cells(c) || k >= |old(store.cells)|
    ensures forall k :: 0 <= k < |old(store.cells)| && k !in Cells(c) ==> store.cells[k] == old(store.cells)[k]
  {
    var body := store.cells[node].left;
    ghost var h := store.cells;
    HoldsBounds(h, c.left, node);
    LoweredNull(noSub, t.left, c.left);
    if noSub && body != NULL_PTR {
      return body, c.left, node;
    }
    var idx := store.cells[node].token.idx;
    var op := CreateTree(store, NULL_PTR, NULL_PTR, OP_OPEN_SUBEXP(idx), Null, Null, NULL_PTR, NULL_PTR);
    ghost var opT, h1 := Node(op, OP_OPEN_SUBEXP(idx), Null, Null), store.cells;
    var cls := CreateTree(store, NULL_PTR, NULL_PTR, OP_CLOSE_SUBEXP(idx), Null, Null, NULL_PTR, NULL_PTR);
    ghost var clsT, h2 := Node(cls, OP_CLOSE_SUBEXP(idx), Null, Null), store.cells;
    HoldsFrame(h1, h2, opT, NULL_PTR);
    var tree1 := cls;
    ghost var u1 := clsT;
    assert Cells(opT) == {op} && Cells(clsT) == {cls};
    if body != NULL_PTR {
      HoldsFrame(h, h2, c.left, node);
      tree1 := CreateTree(store, body, cls, CONCAT, c.left, clsT, node, NULL_PTR);
      u1 := Node(tree1, CONCAT, c.left, clsT);
      HoldsFrame(h2, store.cells, opT, NULL_PTR);
    }
    tree := CreateTree(store, op, tree1, CONCAT, opT, u1, NULL_PTR, NULL_PTR);
    u, q := Node(tree, CONCAT, opT, u1), NULL_PTR;
  }

  /** A subtree of t whose own subtrees have been lowered already. */
  ghost predicate Visited(noSub: bool, t: Tree, c: Tree) {
    if t.Null? then c.Null? else Half(noSub, t, c)
  }

  /** t as a postorder walk finds it: both subtrees visited, the node itself not yet. */
  ghost predicate Pending(noSub: bool, t: Tree, c: Tree) {
    && t.Node? && c.Node? && c.at == t.at && c.token == t.token
    && Visited(noSub, t.left, c.left) && Visited(noSub, t.right, c.right)
  }

  function WithSide(c: Tree, isRight: bool, u: Tree): Tree
    requires c.Node?
  {
    if isRight then c.(right := u) else c.(left := u)
  }

  lemma VisitedChild(noSub: bool, t: Tree, c: Tree)
    requires Visited(noSub, t, c)
    ensures c.Null? || !c.token.SUBEXP? ==> Lowered(noSub, t, c)
    ensures c.Node? && c.token.SUBEXP? ==> t.Node? && t.token.SUBEXP? && Half(noSub, t, c)
  {
  }

  /** One side of lower_subexps: lower the child if it is a SUBEXP and link the result. */
  method LowerSide(store: TreeStore, noSub: bool, node: nat, isRight: bool, ghost ctx: Context, ghost t: Tree,
                   ghost c: Tree)
      returns (ghost u: Tree)
    requires c.Node? && node == c.at && Stands(store.cells, Plug(ctx, c))
    requires Visited(noSub, t, if isRight then c.right else c.left)
    modifies store
    ensures Lowered(noSub, t, u) && Stands(store.cells, Plug(ctx, WithSide(c, isRight, u)))
  {
    hide Plug, Proper, Size, Visited, Half, Lowered;
    ghost var h := store.cells;
    ghost var side := if isRight then c.right else c.left;
    ghost var other := if isRight then c.left else c.right;
    VisitedChild(noSub, t, side);
    Focus(h, ctx, c, NULL_PTR);
    HoldsBounds(h, other, node);
    var child := if isRight then store.cells[node].right else store.cells[node].left;
    u := side;
    if child != NULL_PTR && store.cells[child].token.SUBEXP? {
      var tree;
      ghost var q;
      tree, u, q := LowerSubexp(store, noSub, child, t, side, node);
      ghost var h1 := store.cells;
      var cell := store.cells[node];
      store.cells := store.cells[node := if isRight then cell.(right := tree) else cell.(left := tree)];
      store.cells := store.cells[tree := store.cells[tree].(parent := node)];
      Reparented(h1, store.cells, u, q, node);
      HoldsFrame(h, store.cells, other, node);
      Refocus(h, store.cells, ctx, c, WithSide(c, isRight, u), NULL_PTR);
    }
  }

  /** lower_subexps at one node. */
  method LowerVisit(store: TreeStore, noSub: bool, node: nat, ghost ctx: Context, ghost t: Tree, ghost c: Tree)
      returns (ghost c': Tree)
    requires Pending(noSub, t, c) && node == c.at && Stands(store.cells, Plug(ctx, c))
    modifies store
    ensures Half(noSub, t, c') && Stands(store.cells, Plug(ctx, c'))
  {
    ghost var l := LowerSide(store, noSub, node, false, ctx, t.left, c);
    c' := WithSide(c, false, l);
    ghost var r := LowerSide(store, noSub, node, true, ctx, t.right, c');
    c' := WithSide(c', true, r);
  }

  /** The walk's place in the changed tree corresponds to its place in the original. */
  ghost predicate SamePlaces(noSub: bool, orig: Context, ctx: Context) {
    match orig
    case Top => ctx.Top?
    case InLeft(at, token, right, up) =>
      ctx.InLeft? && ctx.at == at && ctx.token == token && ctx.right == right && SamePlaces(noSub, up, ctx.up)
    case InRight(at, token, left, up) =>
      && ctx.InRight? && ctx.at == at && ctx.token == token
      && Visited(noSub, left, ctx.left) && SamePlaces(noSub, up, ctx.up)
  }

  method LowerToLeaf(store: TreeStore, noSub: bool, start: nat, ghost orig: Context, ghost ctx: Context, ghost t: Tree)
      returns (node: nat, ghost orig': Context, ghost ctx': Context, ghost t': Tree)
    requires t.Node? && start == t.at && Stands(store.cells, Plug(ctx, t)) && SamePlaces(noSub, orig, ctx)
    ensures Pending(noSub, t', t') && node == t'.at && SamePlaces(noSub, orig', ctx')
    ensures Plug(orig', t') == Plug(orig, t) && Plug(ctx', t') == Plug(ctx, t)
    ensures |PostRest(orig')| < |PostOrder(t)| + |PostRest(orig)|
  {
    node, orig', ctx', t' := start, orig, ctx, t;
    Focus(store.cells, ctx', t', NULL_PTR);
    while store.cells[node].left != NULL_PTR || store.cells[node].right != NULL_PTR
      invariant t'.Node? && node == t'.at && SamePlaces(noSub, orig', ctx') && node < |store.cells|
      invariant Plug(orig', t') == Plug(orig, t) && Plug(ctx', t') == Plug(ctx, t)
      invariant store.cells[node].left == Addr(t'.left) && store.cells[node].right == Addr(t'.right)
      invariant PostOrder(t') + PostRest(orig') == PostOrder(t) + PostRest(orig)
      decreases t'
    {
      PostOrderDown(orig', t');
      if store.cells[node].left != NULL_PTR {
        node := store.cells[node].left;
      } else {
        node := store.cells[node].right;
      }
      var down, down' := Down(orig', t'), Down(ctx', t');
      orig', ctx', t' := down.0, down'.0, down.1;
      Focus(store.cells, ctx', t', NULL_PTR);
    }
    assert |PostOrder(t') + PostRest(orig')| == |PostOrder(t) + PostRest(orig)|;
  }

  /** The postorder walk with lower_subexps as its callback. */
  method LowerSubexps(store: TreeStore, noSub: bool, root: nat, ghost t: Tree) returns (ghost r: Tree)
    requires t.Node? && root == t.at && Stands(store.cells, t)
    modifies store
    ensures Half(noSub, t, r) && Stands(store.cells, r)
  {
    var node: int := root;
    ghost var orig, ctx, cur := Top, Top, t;
    while true
      invariant cur.Node? && node == cur.at && Plug(orig, cur) == t && SamePlaces(noSub, orig, ctx)
      invariant Stands(store.cells, Plug(ctx, cur))
      decreases |PostOrder(cur)| + |PostRest(orig)|
    {
      node, orig, ctx, cur := LowerToLeaf(store, noSub, node, orig, ctx, cur);
      ghost var done := cur;
      ghost var left := |PostRest(orig)|;
      while true
        invariant Pending(noSub, cur, done) && node == cur.at && Plug(orig, cur) == t && SamePlaces(noSub, orig, ctx)
        invariant Stands(store.cells, Plug(ctx, done)) && |PostRest(orig)| <= left
        decreases orig
      {
        done := LowerVisit(store, noSub, node, ctx, cur, done);
        Focus(store.cells, ctx, done, NULL_PTR);
        if store.cells[node].parent == NULL_PTR {
          return done;
        }
        var prev := node;
        node := store.cells[node].parent;
        if !(store.cells[node].right == prev || store.cells[node].right == NULL_PTR) {
          break;
        }
        PostOrderUp([], orig, cur, node);
        orig, ctx, cur, done := orig.up, ctx.up, Above(orig, cur), Above(ctx, done);
      }
      PostOrderUp([], orig, cur, node);
      node := store.cells[node].right;
      orig, ctx, cur := InRight(orig.at, orig.token, cur, orig.up), InRight(ctx.at, ctx.token, done, ctx.up), ctx.right;
    }
  }
}
