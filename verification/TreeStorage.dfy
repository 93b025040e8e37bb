/** The compiler's node storage: parse trees as cells linked by pointers.

    A pointer is an index into the storage, NULL is -1, so sharing and update in place are
    visible.  `Holds` says that the cells reachable from a tree's root spell that tree. */
module TreeStorage {
  import opened RegexLanguage

  const NULL_PTR := -1

  datatype BinTree = BinTree(parent: int, left: int, right: int, first: int, next: int, token: Token, nodeIdx: int)

  type Heap = seq<BinTree>

  function Addr(t: Tree): int {
    if t.Null? then NULL_PTR else t.at
  }

  ghost function Cells(t: Tree): set<nat> {
    if t.Null? then {} else {t.at} + Cells(t.left) + Cells(t.right)
  }

  function Size(t: Tree): nat {
    if t.Null? then 0 else 1 + Size(t.left) + Size(t.right)
  }

  /** No cell is used twice. */
  ghost predicate Proper(t: Tree) {
    t.Node? ==>
      && t.at !in Cells(t.left) && t.at !in Cells(t.right) && Cells(t.left) !! Cells(t.right)
      && Proper(t.left) && Proper(t.right)
  }

  ghost predicate Holds(h: Heap, t: Tree, parent: int) {
    t.Node? ==>
      && t.at < |h|
      && h[t.at].token == t.token
      && h[t.at].parent == parent
      && h[t.at].left == Addr(t.left)
      && h[t.at].right == Addr(t.right)
      && Holds(h, t.left, t.at)
      && Holds(h, t.right, t.at)
  }

  predicate SameLinks(c: BinTree, d: BinTree) {
    c.token == d.token && c.parent == d.parent && c.left == d.left && c.right == d.right
  }

  lemma HoldsBounds(h: Heap, t: Tree, parent: int)
    requires Holds(h, t, parent)
    ensures forall c :: c in Cells(t) ==> c < |h|
  {
  }

  lemma {:induction false} HoldsFrame(h: Heap, h': Heap, t: Tree, parent: int)
    requires Holds(h, t, parent)
    requires forall c :: c in Cells(t) && c < |h| ==> c < |h'| && SameLinks(h[c], h'[c])
    ensures Holds(h', t, parent)
  {
    if t.Node? {
      HoldsFrame(h, h', t.left, t.at);
      HoldsFrame(h, h', t.right, t.at);
    }
  }

  /** The cells hold tree t as a tree of its own. */
  ghost predicate Stands(h: Heap, t: Tree) {
    Holds(h, t, NULL_PTR) && Proper(t)
  }

  lemma Reparented(h: Heap, h': Heap, t: Tree, p: int, q: int)
    requires Holds(h, t, p) && Proper(t)
    requires t.Node? ==> t.at < |h'| && SameLinks(h'[t.at], h[t.at].(parent := q))
    requires forall c :: c in Cells(t) && c != t.at && c < |h| ==> c < |h'| && SameLinks(h[c], h'[c])
    ensures Holds(h', t, q)
  {
    if t.Node? {
      HoldsFrame(h, h', t.left, t.at);
      HoldsFrame(h, h', t.right, t.at);
    }
  }

  // ----- A place inside a tree -----

  /** The way from a subtree up to the root, with what hangs off on either side. */
  datatype Context =
    | Top
    | InLeft(at: nat, token: Token, right: Tree, up: Context)
    | InRight(at: nat, token: Token, left: Tree, up: Context)

  function Plug(ctx: Context, t: Tree): Tree {
    match ctx
    case Top => t
    case InLeft(at, token, right, up) => Plug(up, Node(at, token, t, right))
    case InRight(at, token, left, up) => Plug(up, Node(at, token, left, t))
  }

  /** The parent pointer of the subtree at a place, when that of the whole tree is p. */
  function CtxParent(ctx: Context, p: int): int {
    if ctx.Top? then p else ctx.at
  }

  function Depth(ctx: Context): nat {
    if ctx.Top? then 0 else 1 + Depth(ctx.up)
  }

  /** What a walk knows about the cells around the place where it stands. */
  lemma {:induction false} Focus(h: Heap, ctx: Context, t: Tree, p: int)
    requires Holds(h, Plug(ctx, t), p) && Proper(Plug(ctx, t))
    ensures Holds(h, t, CtxParent(ctx, p)) && Proper(t)
    ensures t.Node? ==>
              && t.at < |h|
              && h[t.at].token == t.token && h[t.at].parent == CtxParent(ctx, p)
              && h[t.at].left == Addr(t.left) && h[t.at].right == Addr(t.right)
    ensures !ctx.Top? ==>
              && ctx.at < |h|
              && h[ctx.at].token == ctx.token
              && h[ctx.at].parent == CtxParent(ctx.up, p)
    ensures ctx.InLeft? ==>
              && h[ctx.at].left == Addr(t) && h[ctx.at].right == Addr(ctx.right)
              && (Addr(t) == Addr(ctx.right) ==> t.Null? && ctx.right.Null?)
    ensures ctx.InRight? ==> h[ctx.at].right == Addr(t) && h[ctx.at].left == Addr(ctx.left)
    decreases ctx
  {
    match ctx
    case Top =>
    case InLeft(at, token, right, up) => Focus(h, up, Node(at, token, t, right), p);
    case InRight(at, token, left, up) => Focus(h, up, Node(at, token, left, t), p);
  }

  /** Replacing the subtree at a place: the rest of the tree is untouched. */
  lemma {:induction false} Refocus(h: Heap, h': Heap, ctx: Context, t: Tree, t': Tree, p: int)
    requires Holds(h, Plug(ctx, t), p) && Proper(Plug(ctx, t))
    requires Holds(h', t', CtxParent(ctx, p)) && Proper(t') && Addr(t') == Addr(t)
    requires forall c :: c in Cells(t') ==> c in Cells(t) || c >= |h|
    requires forall c :: 0 <= c < |h| && c !in Cells(t) ==> c < |h'| && SameLinks(h[c], h'[c])
    ensures Holds(h', Plug(ctx, t'), p) && Proper(Plug(ctx, t'))
    decreases ctx
  {
    if !ctx.Top? {
      var u := if ctx.InLeft? then Node(ctx.at, ctx.token, t, ctx.right) else Node(ctx.at, ctx.token, ctx.left, t);
      var u' := if ctx.InLeft? then Node(ctx.at, ctx.token, t', ctx.right) else Node(ctx.at, ctx.token, ctx.left, t');
      Focus(h, ctx.up, u, p);
      var other := if ctx.InLeft? then ctx.right else ctx.left;
      HoldsBounds(h, other, ctx.at);
      HoldsFrame(h, h', other, ctx.at);
      Refocus(h, h', ctx.up, u, u', p);
    }
  }

  /** Hanging a new leaf into a slot that was empty. */
  lemma {:induction false} Attach(h: Heap, h': Heap, ctx: Context, leaf: Tree, p: int)
    requires !ctx.Top? && leaf.Node? && leaf.left.Null? && leaf.right.Null? && leaf.at >= |h|
    requires Holds(h, Plug(ctx, Null), p) && Proper(Plug(ctx, Null))
    requires |h| <= |h'| && ctx.at < |h| && Holds(h', leaf, ctx.at)
    requires h'[ctx.at] == if ctx.InLeft? then h[ctx.at].(left := leaf.at) else h[ctx.at].(right := leaf.at)
    requires forall c :: 0 <= c < |h| && c != ctx.at ==> SameLinks(h[c], h'[c])
    ensures Holds(h', Plug(ctx, leaf), p) && Proper(Plug(ctx, leaf))
  {
    var u, u' := Above(ctx, Null), Above(ctx, leaf);
    Focus(h, ctx.up, u, p);
    var other := if ctx.InLeft? then ctx.right else ctx.left;
    HoldsBounds(h, other, ctx.at);
    HoldsFrame(h, h', other, ctx.at);
    Refocus(h, h', ctx.up, u, u', p);
  }

  // ----- The stackless walks -----

  function PreOrder(t: Tree): seq<nat> {
    if t.Null? then [] else [t.at] + PreOrder(t.left) + PreOrder(t.right)
  }

  function PostOrder(t: Tree): seq<nat> {
    if t.Null? then [] else PostOrder(t.left) + PostOrder(t.right) + [t.at]
  }

  /** Both orders contain every node of the tree exactly once. */
  lemma {:induction false} VisitedOnce(t: Tree, c: nat)
    requires Proper(t)
    ensures multiset(PreOrder(t))[c] == multiset(PostOrder(t))[c] == if c in Cells(t) then 1 else 0
  {
    if t.Node? {
      VisitedOnce(t.left, c);
      VisitedOnce(t.right, c);
    }
  }

  /** The nodes a preorder walk still has to visit after the subtree at this place. */
  function PreRest(ctx: Context): seq<nat> {
    match ctx
    case Top => []
    case InLeft(_, _, right, up) => PreOrder(right) + PreRest(up)
    case InRight(_, _, _, up) => PreRest(up)
  }

  function PostRest(ctx: Context): seq<nat> {
    match ctx
    case Top => []
    case InLeft(at, _, right, up) => PostOrder(right) + [at] + PostRest(up)
    case InRight(at, _, _, up) => [at] + PostRest(up)
  }

  datatype Place = Done | At(ctx: Context, t: Tree)

  /** The place of the next subtree in preorder once t is finished. */
  function Advance(ctx: Context, t: Tree): Place {
    match ctx
    case Top => Done
    case InLeft(at, token, right, up) =>
      if right.Node? then At(InRight(at, token, t, up), right) else Advance(up, Node(at, token, t, right))
    case InRight(at, token, left, up) => Advance(up, Node(at, token, left, t))
  }

  lemma AdvanceKeepsTree(ctx: Context, t: Tree)
    ensures var p := Advance(ctx, t);
            if p.Done? then PreRest(ctx) == []
            else p.t.Node? && Plug(p.ctx, p.t) == Plug(ctx, t) && PreRest(ctx) == PreOrder(p.t) + PreRest(p.ctx)
    decreases ctx
  {
  }

  lemma PostOrderStart(t: Tree)
    ensures [] + (PostOrder(t) + PostRest(Top)) == PostOrder(t)
    ensures forall visited, node :: visited + [node] + PostRest(Top) == visited + [node]
  {
  }

  lemma PreOrderOfNull()
    ensures PreOrder(Null) == []
  {
  }

  /** One step down of a preorder walk. */
  lemma {:induction false} PreOrderStep(visited: seq<nat>, ctx: Context, t: Tree)
    requires t.Node?
    ensures visited + (PreOrder(t) + PreRest(ctx))
            == visited + [t.at] + (PreOrder(t.left) + PreRest(InLeft(t.at, t.token, t.right, ctx)))
  {
  }

  /** One step down of a postorder walk, to the left if there is a left child. */
  function Down(ctx: Context, t: Tree): (Context, Tree)
    requires t.Node?
  {
    if t.left.Node? then (InLeft(t.at, t.token, t.right, ctx), t.left)
    else (InRight(t.at, t.token, t.left, ctx), t.right)
  }

  lemma {:induction false} PostOrderDown(ctx: Context, t: Tree)
    requires t.Node?
    ensures var (ctx', t') := Down(ctx, t); PostOrder(t') + PostRest(ctx') == PostOrder(t) + PostRest(ctx)
  {
    Regroup(PostOrder(t.left), PostOrder(t.right), [t.at], PostRest(ctx));
    Regroup([], PostOrder(t.right), [t.at], PostRest(ctx));
  }

  lemma Regroup(a: seq<nat>, b: seq<nat>, c: seq<nat>, d: seq<nat>)
    ensures a + b + c + d == a + (b + c + d) && b + c + d == b + (c + d)
    ensures a == [] ==> a + b + c + d == b + (c + d)
  {
  }

  /** One step up of a postorder walk from the finished subtree t. */
  function Above(ctx: Context, t: Tree): Tree
    requires !ctx.Top?
  {
    if ctx.InLeft? then Node(ctx.at, ctx.token, t, ctx.right) else Node(ctx.at, ctx.token, ctx.left, t)
  }

  lemma {:induction false} PostOrderUp(visited: seq<nat>, ctx: Context, t: Tree, node: nat)
    ensures visited + ([node] + PostRest(ctx)) == visited + [node] + PostRest(ctx)
    ensures ctx.InRight? || (ctx.InLeft? && ctx.right.Null?) ==> PostRest(ctx) == [ctx.at] + PostRest(ctx.up)
    ensures ctx.InLeft? && ctx.right.Node?
            ==> PostRest(ctx) == PostOrder(ctx.right) + PostRest(InRight(ctx.at, ctx.token, t, ctx.up))
  {
  }

  // ----- Copies -----

  /** The copy of t whose cells are numbered in preorder from `base`. */
  function Copy(t: Tree, base: nat): Tree {
    if t.Null? then Null
    else Node(base, t.token, Copy(t.left, base + 1), Copy(t.right, base + 1 + Size(t.left)))
  }

  /** The trees differ at most in their cells. */
  ghost predicate SameShape(t: Tree, u: Tree) {
    if t.Null? then u.Null?
    else u.Node? && u.token == t.token && SameShape(t.left, u.left) && SameShape(t.right, u.right)
  }

  lemma {:induction false} CopyKeepsShape(t: Tree, base: nat)
    ensures SameShape(t, Copy(t, base))
  {
    if t.Node? {
      CopyKeepsShape(t.left, base + 1);
      CopyKeepsShape(t.right, base + 1 + Size(t.left));
    }
  }

  lemma {:induction false} CopyRange(t: Tree, base: nat)
    ensures Size(Copy(t, base)) == Size(t)
    ensures forall c :: c in Cells(Copy(t, base)) <==> base <= c < base + Size(t)
  {
    if t.Node? {
      CopyRange(t.left, base + 1);
      CopyRange(t.right, base + 1 + Size(t.left));
    }
  }

  lemma {:induction false} CopyCells(t: Tree, base: nat)
    ensures Proper(Copy(t, base)) && Size(Copy(t, base)) == Size(t)
    ensures forall c :: c in Cells(Copy(t, base)) <==> base <= c < base + Size(t)
  {
    hide Cells;
    CopyRange(t, base);
    if t.Node? {
      CopyRange(t.left, base + 1);
      CopyRange(t.right, base + 1 + Size(t.left));
      CopyCells(t.left, base + 1);
      CopyCells(t.right, base + 1 + Size(t.left));
    }
  }

  lemma {:induction false} CopySpells(syntax: Syntax, t: Tree, base: nat)
    ensures SameLang(syntax, Copy(t, base), t)
  {
    if t.Node? {
      CopySpells(syntax, t.left, base + 1);
      CopySpells(syntax, t.right, base + 1 + Size(t.left));
      Congruence(syntax, Copy(t, base), t);
    }
  }

  lemma CopyWellFormed(t: Tree, base: nat)
    ensures WellFormed(Copy(t, base)) <==> WellFormed(t)
  {
  }

  /** From this place, the walk up to the root never finds an unvisited right subtree. */
  predicate RightEdge(ctx: Context) {
    ctx.Top? || ((ctx.InRight? || ctx.right.Null?) && RightEdge(ctx.up))
  }

  lemma {:induction false} SamePlace(ctx: Context, t: Tree, u: Tree)
    requires Plug(ctx, t) == Plug(ctx, u)
    ensures t == u
    decreases ctx
  {
    if !ctx.Top? {
      SamePlace(ctx.up, Above(ctx, t), Above(ctx, u));
    }
  }

  lemma RightEdgeEnds(ctx: Context, t: Tree)
    requires RightEdge(ctx)
    ensures Advance(ctx, t).Done?
    decreases ctx
  {
  }

  /** The place `dup` in the copy made so far matches the place `ctx` in the original, whose
      copied part hangs below `outer`; the next cell of the copy will be `child`.  Subtrees of
      the copy that are still to come are empty. */
  ghost predicate Mirror(ctx: Context, outer: Context, dup: Context, base: nat, child: nat) {
    if dup.Top? then ctx == outer && child == base
    else
      && !ctx.Top? && dup.token == ctx.token
      && Mirror(ctx.up, outer, dup.up, base, dup.at)
      && if ctx.InLeft? then
           dup.InLeft? && dup.right.Null? && child == dup.at + 1
         else
           dup.InRight? && dup.left == Copy(ctx.left, dup.at + 1) && child == dup.at + 1 + Size(ctx.left)
  }

  lemma {:induction false} MirrorBounds(ctx: Context, outer: Context, dup: Context, base: nat, child: nat)
    requires Mirror(ctx, outer, dup, base, child)
    ensures base <= child && (!dup.Top? ==> base <= dup.at < child)
    decreases dup
  {
    if !dup.Top? {
      MirrorBounds(ctx.up, outer, dup.up, base, dup.at);
    }
  }

  /** A finished subtree and its copy, seen one level further up. */
  lemma {:induction false} MirrorUp(ctx: Context, outer: Context, t: Tree, dup: Context, base: nat, child: nat)
    requires Mirror(ctx, outer, dup, base, child) && !dup.Top?
    requires ctx.InRight? || ctx.right.Null?
    ensures Mirror(ctx.up, outer, dup.up, base, dup.at)
    ensures Copy(Above(ctx, t), dup.at) == Above(dup, Copy(t, child))
    ensures dup.at + Size(Above(ctx, t)) == child + Size(t)
  {
  }

  lemma {:induction false} PlugAbove(ctx: Context, t: Tree)
    requires !ctx.Top?
    ensures Plug(ctx.up, Above(ctx, t)) == Plug(ctx, t)
    ensures (ctx.InRight? || ctx.right.Null?) ==> Advance(ctx.up, Above(ctx, t)) == Advance(ctx, t)
  {
  }

  /** One step down to the left, in the original and in the copy. */
  lemma {:induction false} MirrorDown(ctx: Context, outer: Context, t: Tree, dup: Context, base: nat, child: nat)
    requires Mirror(ctx, outer, dup, base, child) && t.Node?
    ensures var down, dup' := InLeft(t.at, t.token, t.right, ctx), InLeft(child, t.token, Null, dup);
            && Plug(down, t.left) == Plug(ctx, t)
            && Plug(dup', Null) == Plug(dup, Node(child, t.token, Null, Null))
            && Mirror(down, outer, dup', base, child + 1)
  {
  }

  lemma MirrorStart(outer: Context, base: nat)
    ensures Mirror(outer, outer, Top, base, base) && Plug(Top, Null) == Null
    ensures Proper(Null) && forall h, p :: Holds(h, Null, p)
  {
    forall h, p ensures Holds(h, Null, p) {
    }
  }

  lemma {:induction false} CopyOfNull(dup: Context, t: Tree, base: nat)
    requires t.Null?
    ensures Plug(dup, Copy(t, base)) == Plug(dup, Null) && Size(t) == 0
  {
  }

  lemma {:induction false} MirrorAtTop(ctx: Context, outer: Context, dup: Context, base: nat, child: nat)
    requires Mirror(ctx, outer, dup, base, child) && dup.Top?
    ensures ctx == outer && child == base && forall t :: Plug(dup, t) == t
  {
  }

  lemma {:induction false} AdvanceAtTop(ctx: Context, t: Tree)
    ensures ctx.Top? ==> Advance(ctx, t).Done?
  {
  }

  lemma {:induction false} AdvanceRight(ctx: Context, t: Tree)
    ensures ctx.InLeft? && ctx.right.Node? ==> Advance(ctx, t) == At(InRight(ctx.at, ctx.token, t, ctx.up), ctx.right)
  {
  }

  lemma {:induction false} MirrorRight(ctx: Context, outer: Context, t: Tree, dup: Context, base: nat, child: nat)
    requires Mirror(ctx, outer, dup, base, child) && ctx.InLeft? && !dup.Top?
    ensures var dup' := InRight(dup.at, dup.token, Copy(t, child), dup.up);
            Mirror(InRight(ctx.at, ctx.token, t, ctx.up), outer, dup', base, child + Size(t))
            && Plug(dup', Null) == Plug(dup, Copy(t, child))
  {
  }

  /** Where the next cell of a copy will be linked in. */
  datatype Slot = AtRoot | AtLeft(cell: nat) | AtRight(cell: nat)

  ghost function SlotAt(dup: Context): Slot {
    match dup
    case Top => AtRoot
    case InLeft(at, _, _, _) => AtLeft(at)
    case InRight(at, _, _, _) => AtRight(at)
  }

  class TreeStore {
    var cells: Heap

    constructor ()
      ensures cells == []
    {
      cells := [];
    }

    method CreateTokenTree(left: int, right: int, token: Token) returns (tree: nat)
      requires -1 <= left < |cells| && -1 <= right < |cells|
      modifies this
      ensures tree == |old(cells)| && |cells| == tree + 1
      ensures cells[tree] == BinTree(NULL_PTR, left, right, NULL_PTR, NULL_PTR, token, REG_MISSING)
      ensures forall c :: 0 <= c < tree ==>
                cells[c] == if c == left || c == right then old(cells)[c].(parent := tree) else old(cells)[c]
    {
      tree := |cells|;
      cells := cells + [BinTree(NULL_PTR, left, right, NULL_PTR, NULL_PTR, token, REG_MISSING)];
      if left != NULL_PTR {
        cells := cells[left := cells[left].(parent := tree)];
      }
      if right != NULL_PTR {
        cells := cells[right := cells[right].(parent := tree)];
      }
    }

    /** From a node whose left part is finished, go up and to the right; NULL at the end. */
    method UpAndRight(start: int, ghost ctx: Context, ghost t: Tree) returns (node: int)
      requires !ctx.Top? && start == ctx.at && t.Null?
      requires Holds(cells, Plug(ctx, t), NULL_PTR) && Proper(Plug(ctx, t))
      ensures var p := Advance(ctx, t); node == if p.Done? then NULL_PTR else Addr(p.t)
    {
      node := start;
      var prev := NULL_PTR;
      ghost var up, u := ctx, t;
      Focus(cells, up, u, NULL_PTR);
      while cells[node].right == prev || cells[node].right == NULL_PTR
        invariant !up.Top? && node == up.at && prev == Addr(u)
        invariant Plug(up, u) == Plug(ctx, t) && Advance(up, u) == Advance(ctx, t)
        invariant 0 <= node < |cells|
        decreases up
      {
        Focus(cells, up, u, NULL_PTR);
        prev := node;
        node := cells[node].parent;
        u := if up.InLeft? then Node(up.at, up.token, u, up.right) else Node(up.at, up.token, up.left, u);
        up := up.up;
        if node == NULL_PTR {
          return;
        }
        Focus(cells, up, u, NULL_PTR);
      }
      Focus(cells, up, u, NULL_PTR);
      node := cells[node].right;
    }

    method Preorder(root: nat, ghost t: Tree) returns (visited: seq<nat>)
      requires t.Node? && root == t.at && Holds(cells, t, NULL_PTR) && Proper(t)
      ensures visited == PreOrder(t)
    {
      visited := [];
      var node: int := root;
      ghost var ctx, cur := Top, t;
      while node != NULL_PTR
        invariant node == NULL_PTR ==> visited == PreOrder(t)
        invariant node != NULL_PTR ==>
                    && cur.Node? && node == cur.at && Plug(ctx, cur) == t
                    && visited + (PreOrder(cur) + PreRest(ctx)) == PreOrder(t)
        decreases |PreOrder(t)| - |visited|
      {
        Focus(cells, ctx, cur, NULL_PTR);
        PreOrderStep(visited, ctx, cur);
        visited := visited + [node];
        ctx, cur := InLeft(cur.at, cur.token, cur.right, ctx), cur.left;
        if cells[node].left != NULL_PTR {
          node := cells[node].left;
        } else {
          hide PreOrder;
          hide PreRest;
          assert PreOrder(cur) + PreRest(ctx) == PreRest(ctx) by { PreOrderOfNull(); }
          AdvanceKeepsTree(ctx, cur);
          node := UpAndRight(node, ctx, cur);
          var p := Advance(ctx, cur);
          if p.At? {
            ctx, cur := p.ctx, p.t;
          }
        }
      }
    }

    /** Descend to a leaf, preferably to the left. */
    method ToLeaf(start: nat, ghost ctx: Context, ghost t: Tree) returns (node: nat, ghost ctx': Context,
                  ghost t': Tree)
      requires t.Node? && start == t.at && Holds(cells, Plug(ctx, t), NULL_PTR) && Proper(Plug(ctx, t))
      ensures t'.Node? && node == t'.at && t'.left.Null? && t'.right.Null? && Plug(ctx', t') == Plug(ctx, t)
      ensures [node] + PostRest(ctx') == PostOrder(t) + PostRest(ctx)
    {
      node, ctx', t' := start, ctx, t;
      Focus(cells, ctx', t', NULL_PTR);
      while cells[node].left != NULL_PTR || cells[node].right != NULL_PTR
        invariant t'.Node? && node == t'.at && Plug(ctx', t') == Plug(ctx, t) && node < |cells|
        invariant PostOrder(t') + PostRest(ctx') == PostOrder(t) + PostRest(ctx)
        invariant cells[node].left == Addr(t'.left) && cells[node].right == Addr(t'.right)
        decreases t'
      {
        PostOrderDown(ctx', t');
        if cells[node].left != NULL_PTR {
          node := cells[node].left;
        } else {
          node := cells[node].right;
        }
        var down := Down(ctx', t');
        ctx', t' := down.0, down.1;
        Focus(cells, ctx', t', NULL_PTR);
      }
    }

    method Postorder(root: nat, ghost t: Tree) returns (visited: seq<nat>)
      requires t.Node? && root == t.at && Holds(cells, t, NULL_PTR) && Proper(t)
      ensures visited == PostOrder(t)
    {
      hide PostOrder;
      hide PostRest;
      PostOrderStart(t);
      visited := [];
      var node: int := root;
      ghost var ctx, cur := Top, t;
      while true
        invariant cur.Node? && node == cur.at && Plug(ctx, cur) == t
        invariant visited + (PostOrder(cur) + PostRest(ctx)) == PostOrder(t)
        decreases |PostOrder(t)| - |visited|
      {
        node, ctx, cur := ToLeaf(node, ctx, cur);
        ghost var before := |visited|;
        while true
          invariant cur.Node? && node == cur.at && Plug(ctx, cur) == t
          invariant visited + ([node] + PostRest(ctx)) == PostOrder(t)
          invariant before <= |visited|
          decreases ctx
        {
          PostOrderUp(visited, ctx, cur, node);
          visited := visited + [node];
          Focus(cells, ctx, cur, NULL_PTR);
          if cells[node].parent == NULL_PTR {
            return;
          }
          var prev := node;
          node := cells[node].parent;
          if !(cells[node].right == prev || cells[node].right == NULL_PTR) {
            break;
          }
          ctx, cur := ctx.up, Above(ctx, cur);
        }
        node := cells[node].right;
        ctx, cur := InRight(ctx.at, ctx.token, cur, ctx.up), ctx.right;
      }
    }

    /** The climb of duplicate_tree: up and to the right in the original and, in step, in the copy. */
    method UpAndRightTwice(start: nat, dupStart: nat, ghost ctx: Context, ghost outer: Context, ghost t: Tree,
                           ghost dup: Context, ghost base: nat, ghost root: Tree)
        returns (node: int, dupNode: int, ghost dup': Context)
      requires !ctx.Top? && start == ctx.at && t.Null? && !dup.Top? && dupStart == dup.at
      requires Plug(outer, root) == Plug(ctx, t) && RightEdge(outer)
      requires Holds(cells, Plug(ctx, t), NULL_PTR) && Proper(Plug(ctx, t))
      requires Holds(cells, Plug(dup, Null), CtxParent(outer, NULL_PTR)) && Proper(Plug(dup, Null))
      requires Mirror(ctx, outer, dup, base, |cells|)
      ensures var p := Advance(ctx, t);
              if p.Done? then node == NULL_PTR && Plug(dup, Null) == Copy(root, base) && |cells| == base + Size(root)
              else p.t.Node? && node == p.t.at && dupNode == CtxParent(dup', NULL_PTR) && dup'.InRight?
                   && Plug(dup', Null) == Plug(dup, Null) && Mirror(p.ctx, outer, dup', base, |cells|)
    {
      hide Plug;
      hide Copy;
      hide Mirror;
      hide Advance;
      hide Holds;
      hide Proper;
      hide Size;
      hide Cells;
      ghost var p0 := CtxParent(outer, NULL_PTR);
      ghost var up, u, d, inside := ctx, t, dup, true;
      ghost var c: nat := |cells|;
      node, dupNode, dup' := start, dupStart, dup;
      var prev := NULL_PTR;
      RightEdgeEnds(outer, root);
      AdvanceKeepsTree(ctx, t);
      CopyOfNull(dup, t, c);
      Focus(cells, up, u, NULL_PTR);
      while cells[node].right == prev || cells[node].right == NULL_PTR
        invariant !up.Top? && node == up.at && prev == Addr(u) && node < |cells|
        invariant Plug(up, u) == Plug(ctx, t) && Advance(up, u) == Advance(ctx, t)
        invariant inside ==> Mirror(up, outer, d, base, c) && !d.Top? && dupNode == d.at
        invariant inside ==> c + Size(u) == |cells| && Plug(d, Copy(u, c)) == Plug(dup, Null)
        invariant !inside ==> RightEdge(up) && dupNode == node
        invariant !inside ==> Plug(dup, Null) == Copy(root, base) && |cells| == base + Size(root)
        decreases up
      {
        Focus(cells, up, u, NULL_PTR);
        PlugAbove(up, u);
        if inside {
          Focus(cells, d, Copy(u, c), p0);
          MirrorUp(up, outer, u, d, base, c);
          PlugAbove(d, Copy(u, c));
        }
        prev := node;
        node := cells[node].parent;
        dupNode := cells[dupNode].parent;
        u := Above(up, u);
        up := up.up;
        if inside {
          c, d := d.at, d.up;
          if d.Top? {
            MirrorAtTop(up, outer, d, base, c);
            SamePlace(up, u, root);
            inside := false;
          }
        }
        AdvanceAtTop(up, u);
        if node == NULL_PTR {
          return;
        }
        Focus(cells, up, u, NULL_PTR);
      }
      Focus(cells, up, u, NULL_PTR);
      AdvanceRight(up, u);
      if inside {
        dup' := InRight(d.at, d.token, Copy(u, c), d.up);
        MirrorRight(up, outer, u, d, base, c);
      } else {
        RightEdgeEnds(up, u);
      }
      node := cells[node].right;
    }

    /** Append the copy of one node and link it into its slot. */
    method AppendCopy(parent: int, token: Token, slot: Slot, ghost dup: Context, ghost p0: int) returns (c: nat)
      requires parent == CtxParent(dup, p0) && slot == SlotAt(dup) && (!dup.Top? ==> dup.at < |cells|)
      requires Holds(cells, Plug(dup, Null), p0) && Proper(Plug(dup, Null))
      modifies this
      ensures c == |old(cells)| && |cells| == c + 1
      ensures forall k :: 0 <= k < c && (dup.Top? || k != dup.at) ==> cells[k] == old(cells)[k]
      ensures var leaf := Node(c, token, Null, Null); Holds(cells, Plug(dup, leaf), p0) && Proper(Plug(dup, leaf))
    {
      c := |cells|;
      ghost var h, leaf := cells, Node(c, token, Null, Null);
      cells := cells + [BinTree(parent, NULL_PTR, NULL_PTR, NULL_PTR, NULL_PTR, token, REG_MISSING)];
      match slot {
        case AtRoot =>
        case AtLeft(p) => cells := cells[p := cells[p].(left := c)];
        case AtRight(p) => cells := cells[p := cells[p].(right := c)];
      }
      if !dup.Top? {
        Attach(h, cells, dup, leaf, p0);
      }
    }

    /** Copy the subtree at `root`, whose place in its own tree must be on the right edge: the walk
        does not stop at `root` but at the top.  The copy gets the parent of the original. */
    method DuplicateTree(root: nat, ghost outer: Context, ghost t: Tree) returns (dupRoot: nat)
      requires t.Node? && root == t.at && RightEdge(outer)
      requires Holds(cells, Plug(outer, t), NULL_PTR) && Proper(Plug(outer, t))
      modifies this
      ensures dupRoot == |old(cells)| && |cells| == dupRoot + Size(t) && cells[..dupRoot] == old(cells)
      ensures Holds(cells, Copy(t, dupRoot), CtxParent(outer, NULL_PTR))
    {
      hide Plug;
      hide Copy;
      hide Mirror;
      hide Advance;
      hide Holds;
      hide Proper;
      hide Size;
      hide PreOrder;
      hide PreRest;
      MirrorStart(outer, |cells|);
      ghost var whole, p0, h0 := Plug(outer, t), CtxParent(outer, NULL_PTR), cells;
      Focus(cells, outer, t, NULL_PTR);
      dupRoot := |cells|;
      var node: int := root;
      var dupNode := cells[root].parent;
      var slot := AtRoot;
      ghost var ctx, cur, dup := outer, t, Top;
      while true
        invariant cur.Node? && node == cur.at && Plug(ctx, cur) == whole
        invariant |h0| == dupRoot <= |cells| && cells[..dupRoot] == h0
        invariant Mirror(ctx, outer, dup, dupRoot, |cells|)
        invariant Holds(cells, Plug(dup, Null), p0) && Proper(Plug(dup, Null)) && dupNode == CtxParent(dup, p0)
        invariant slot == SlotAt(dup)
        decreases |PreOrder(cur)| + |PreRest(ctx)|
      {
        HoldsFrame(h0, cells, whole, NULL_PTR);
        Focus(cells, ctx, cur, NULL_PTR);
        MirrorBounds(ctx, outer, dup, dupRoot, |cells|);
        dupNode := AppendCopy(dupNode, cells[node].token, slot, dup, p0);
        HoldsFrame(h0, cells, whole, NULL_PTR);
        Focus(cells, ctx, cur, NULL_PTR);
        PreOrderStep([], ctx, cur);
        MirrorDown(ctx, outer, cur, dup, dupRoot, dupNode);
        ctx, cur, dup := InLeft(cur.at, cur.token, cur.right, ctx), cur.left, InLeft(dupNode, cur.token, Null, dup);
        if cells[node].left != NULL_PTR {
          node := cells[node].left;
          slot := AtLeft(dupNode);
        } else {
          AdvanceKeepsTree(ctx, cur);
          PreOrderOfNull();
          ghost var dup';
          node, dupNode, dup' := UpAndRightTwice(node, dupNode, ctx, outer, cur, dup, dupRoot, t);
          if node == NULL_PTR {
            return;
          }
          slot := AtRight(dupNode);
          var p := Advance(ctx, cur);
          ctx, cur, dup := p.ctx, p.t, dup';
        }
      }
    }
  }

  /** create_tree on two standing (or orphaned) trees. */
  method CreateTree(store: TreeStore, left: int, right: int, token: Token, ghost l: Tree, ghost r: Tree, ghost p: int,
                    ghost q: int)
      returns (tree: nat)
    requires left == Addr(l) && right == Addr(r)
    requires Holds(store.cells, l, p) && Proper(l) && Holds(store.cells, r, q) && Proper(r) && Cells(l) !! Cells(r)
    modifies store
    ensures tree == |old(store.cells)| && |store.cells| == tree + 1
    ensures Stands(store.cells, Node(tree, token, l, r))
    ensures forall c :: 0 <= c < tree && c != left && c != right ==> store.cells[c] == old(store.cells)[c]
  {
    ghost var h := store.cells;
    HoldsBounds(h, l, p);
    HoldsBounds(h, r, q);
    tree := store.CreateTokenTree(left, right, token);
    Reparented(h, store.cells, l, p, tree);
    Reparented(h, store.cells, r, q, tree);
  }
}
