/** What the two passes over subexpressions do, read off the leaves of the trees from left to right:
    which SUBEXP nodes go, and where the markers stand. */
module SubexpLaws {
  import opened RegexLanguage
  import opened TreeStorage
  import opened SubexpPasses

  // ----- Leaves from left to right -----

  ghost function Frontier(t: Tree): seq<Token> {
    if t.Null? then []
    else if !t.token.IsOperator() then [t.token]
    else Frontier(t.left) + Frontier(t.right)
  }

  /** A sequence of leaves without its markers. */
  ghost function Erase(leaves: seq<Token>): seq<Token> {
    if leaves == [] then []
    else (if leaves[0].IsMarker() then [] else [leaves[0]]) + Erase(leaves[1..])
  }

  lemma EraseFirst(x: Token, rest: seq<Token>)
    ensures Erase([x] + rest) == if x.IsMarker() then Erase(rest) else [x] + Erase(rest)
  {
    assert ([x] + rest)[1..] == rest;
  }

  lemma {:induction false} EraseAppend(a: seq<Token>, b: seq<Token>)
    ensures Erase(a + b) == Erase(a) + Erase(b)
  {
    if a == [] {
      assert a + b == b;
    } else {
      hide Erase;
      var x, rest := a[0], a[1..];
      EraseAppend(rest, b);
      EraseFirst(x, rest);
      EraseFirst(x, rest + b);
      assert a == [x] + rest && a + b == [x] + (rest + b);
    }
  }

  /** Every marker that closes closes the last one that is open, and of the same number. */
  ghost predicate Balanced(leaves: seq<Token>, open: seq<nat>)
    decreases |leaves|
  {
    if leaves == [] then open == []
    else
      match leaves[0]
      case OP_OPEN_SUBEXP(i) => Balanced(leaves[1..], open + [i])
      case OP_CLOSE_SUBEXP(i) =>
        open != [] && open[|open| - 1] == i && Balanced(leaves[1..], open[..|open| - 1])
      case _ => Balanced(leaves[1..], open)
  }

  lemma OpenBalanced(i: nat, rest: seq<Token>, open: seq<nat>)
    ensures Balanced([OP_OPEN_SUBEXP(i)] + rest, open) <==> Balanced(rest, open + [i])
  {
    assert ([OP_OPEN_SUBEXP(i)] + rest)[1..] == rest;
  }

  lemma CloseBalanced(i: nat, rest: seq<Token>, open: seq<nat>)
    ensures Balanced([OP_CLOSE_SUBEXP(i)] + rest, open + [i]) <==> Balanced(rest, open)
  {
    assert ([OP_CLOSE_SUBEXP(i)] + rest)[1..] == rest && (open + [i])[..|open|] == open;
  }

  lemma OtherBalanced(x: Token, rest: seq<Token>, open: seq<nat>)
    requires !x.IsMarker()
    ensures Balanced([x] + rest, open) <==> Balanced(rest, open)
  {
    assert ([x] + rest)[1..] == rest;
  }

  function TokenCount(tokens: seq<Token>, token: Token): nat {
    if tokens == [] then 0
    else TokenCount(tokens[..|tokens| - 1], token) + if tokens[|tokens| - 1] == token then 1 else 0
  }

  lemma {:induction false} TokenCountAppend(s: seq<Token>, t: seq<Token>, token: Token)
    ensures TokenCount(s + t, token) == TokenCount(s, token) + TokenCount(t, token)
  {
    if t == [] {
      assert s + t == s;
    } else {
      var front := t[..|t| - 1];
      TokenCountAppend(s, front, token);
      assert (s + t)[..|s + t| - 1] == s + front;
    }
  }

  /** A tree as the parser builds it: markers only come with lowering. */
  ghost predicate NoMarkers(t: Tree) {
    t.Node? ==> !t.token.IsMarker() && NoMarkers(t.left) && NoMarkers(t.right)
  }

  // ----- Lowering -----

  ghost predicate KeepsMarkers(noSub: bool, t: Tree)
    requires t.Node?
  {
    !noSub || t.left.Null?
  }

  /** The leaves of t with a pair of markers around the leaves of every subexpression; when no
      registers are wanted, only of the empty ones. */
  ghost function Bracketed(noSub: bool, t: Tree): seq<Token> {
    if t.Null? then []
    else if t.token.SUBEXP? then
      var body := Bracketed(noSub, t.left);
      if KeepsMarkers(noSub, t) then [OP_OPEN_SUBEXP(t.token.idx)] + body + [OP_CLOSE_SUBEXP(t.token.idx)] else body
    else if !t.token.IsOperator() then [t.token]
    else Bracketed(noSub, t.left) + Bracketed(noSub, t.right)
  }

  lemma {:induction false} LoweredFrontier(noSub: bool, t: Tree, u: Tree)
    requires WellFormed(t) && Lowered(noSub, t, u)
    ensures Frontier(u) == Bracketed(noSub, t)
  {
    if t.Node? {
      if !t.token.SUBEXP? {
        LoweredFrontier(noSub, t.left, u.left);
        LoweredFrontier(noSub, t.right, u.right);
      } else if noSub && t.left.Node? {
        LoweredFrontier(noSub, t.left, u);
      } else if t.left.Node? {
        LoweredFrontier(noSub, t.left, u.right.left);
        assert Frontier(u.right) == Bracketed(noSub, t.left) + [OP_CLOSE_SUBEXP(t.token.idx)];
      }
    }
  }

  lemma {:induction false} BracketedErased(noSub: bool, t: Tree)
    requires WellFormed(t) && NoMarkers(t)
    ensures Erase(Bracketed(noSub, t)) == Frontier(t)
  {
    if t.Node? {
      BracketedErased(noSub, t.left);
      BracketedErased(noSub, t.right);
      if t.token.SUBEXP? {
        var open, close := [OP_OPEN_SUBEXP(t.token.idx)], [OP_CLOSE_SUBEXP(t.token.idx)];
        EraseAppend(open + Bracketed(noSub, t.left), close);
        EraseAppend(open, Bracketed(noSub, t.left));
      } else {
        EraseAppend(Bracketed(noSub, t.left), Bracketed(noSub, t.right));
      }
    }
  }

  /** After the leaves of a tree just as many markers are open as before. */
  lemma {:induction false} BracketedBalanced(noSub: bool, t: Tree, rest: seq<Token>, open: seq<nat>)
    requires WellFormed(t) && NoMarkers(t)
    ensures Balanced(Bracketed(noSub, t) + rest, open) <==> Balanced(rest, open)
    decreases t
  {
    hide Balanced;
    var w := Bracketed(noSub, t) + rest;
    if t.Null? {
      assert w == rest;
    } else if t.token.SUBEXP? {
      var body := Bracketed(noSub, t.left);
      if KeepsMarkers(noSub, t) {
        var i := t.token.idx;
        var tail := [OP_CLOSE_SUBEXP(i)] + rest;
        assert w == [OP_OPEN_SUBEXP(i)] + (body + tail);
        OpenBalanced(i, body + tail, open);
        BracketedBalanced(noSub, t.left, tail, open + [i]);
        CloseBalanced(i, rest, open);
      } else {
        BracketedBalanced(noSub, t.left, rest, open);
      }
    } else if !t.token.IsOperator() {
      OtherBalanced(t.token, rest, open);
    } else {
      var right := Bracketed(noSub, t.right) + rest;
      BracketedBalanced(noSub, t.left, right, open);
      BracketedBalanced(noSub, t.right, rest, open);
      assert w == Bracketed(noSub, t.left) + right;
    }
  }

  /** How many subexpressions of this number get markers. */
  ghost function Marked(noSub: bool, t: Tree, i: nat): nat {
    if t.Null? then 0
    else Marked(noSub, t.left, i) + Marked(noSub, t.right, i)
         + if t.token == SUBEXP(i) && KeepsMarkers(noSub, t) then 1 else 0
  }

  lemma {:induction false} BracketedCounts(noSub: bool, t: Tree, i: nat)
    requires WellFormed(t) && NoMarkers(t)
    ensures TokenCount(Bracketed(noSub, t), OP_OPEN_SUBEXP(i)) == Marked(noSub, t, i)
    ensures TokenCount(Bracketed(noSub, t), OP_CLOSE_SUBEXP(i)) == Marked(noSub, t, i)
  {
    if t.Node? {
      var l, r := Bracketed(noSub, t.left), Bracketed(noSub, t.right);
      BracketedCounts(noSub, t.left, i);
      BracketedCounts(noSub, t.right, i);
      forall token ensures TokenCount(l + r, token) == TokenCount(l, token) + TokenCount(r, token) {
        TokenCountAppend(l, r, token);
      }
      if t.token.SUBEXP? {
        var open, close := OP_OPEN_SUBEXP(t.token.idx), OP_CLOSE_SUBEXP(t.token.idx);
        forall token
          ensures TokenCount([open] + l + [close], token)
               == (if open == token then 1 else 0) + TokenCount(l, token) + if close == token then 1 else 0
        {
          TokenCountAppend([open] + l, [close], token);
          TokenCountAppend([open], l, token);
          SingleCount(open, token);
          SingleCount(close, token);
        }
      } else if !t.token.IsOperator() {
        SingleCount(t.token, OP_OPEN_SUBEXP(i));
        SingleCount(t.token, OP_CLOSE_SUBEXP(i));
      }
    }
  }

  lemma SingleCount(x: Token, token: Token)
    ensures TokenCount([x], token) == if x == token then 1 else 0
  {
    assert [x][..0] == [];
  }

  lemma {:induction false} AllMarked(t: Tree, i: nat)
    ensures Marked(false, t, i) == Occurrences(t, SUBEXP(i))
  {
    if t.Node? {
      AllMarked(t.left, i);
      AllMarked(t.right, i);
    }
  }

  /** Lowering adds a balanced bracketing and nothing else: an opening marker stands before its
      closing one, the other leaves keep their order, and each subexpression gets one pair; without
      registers only the empty ones do. */
  lemma LoweredBrackets(noSub: bool, t: Tree, u: Tree)
    requires WellFormed(t) && NoMarkers(t) && Lowered(noSub, t, u)
    ensures Balanced(Frontier(u), []) && Erase(Frontier(u)) == Frontier(t)
    ensures forall i :: TokenCount(Frontier(u), OP_OPEN_SUBEXP(i)) == TokenCount(Frontier(u), OP_CLOSE_SUBEXP(i))
    ensures !noSub ==> forall i :: TokenCount(Frontier(u), OP_OPEN_SUBEXP(i)) == Occurrences(t, SUBEXP(i))
    ensures noSub ==> forall i :: TokenCount(Frontier(u), OP_OPEN_SUBEXP(i)) == EmptySubexps(t, i)
  {
    hide TokenCount, Balanced, Erase, Occurrences, EmptySubexps, Marked;
    LoweredFrontier(noSub, t, u);
    BracketedErased(noSub, t);
    BracketedBalanced(noSub, t, [], []);
    assert Bracketed(noSub, t) + [] == Bracketed(noSub, t);
    NothingBalanced();
    forall i
      ensures TokenCount(Frontier(u), OP_OPEN_SUBEXP(i)) == TokenCount(Frontier(u), OP_CLOSE_SUBEXP(i))
      ensures TokenCount(Frontier(u), OP_OPEN_SUBEXP(i))
           == if noSub then EmptySubexps(t, i) else Occurrences(t, SUBEXP(i))
    {
      BracketedCounts(noSub, t, i);
      AllMarked(t, i);
      EmptyMarked(t, i);
    }
  }

  lemma NothingBalanced()
    ensures Balanced([], [])
  {
  }

  /** How many subexpressions of this number have no body. */
  ghost function EmptySubexps(t: Tree, i: nat): nat {
    if t.Null? then 0
    else EmptySubexps(t.left, i) + EmptySubexps(t.right, i) + if t.token == SUBEXP(i) && t.left.Null? then 1 else 0
  }

  lemma {:induction false} EmptyMarked(t: Tree, i: nat)
    ensures Marked(true, t, i) == EmptySubexps(t, i)
  {
    if t.Node? {
      EmptyMarked(t.left, i);
      EmptyMarked(t.right, i);
    }
  }

  /** The leaves before and behind a place in a tree. */
  ghost function Before(ctx: Context): seq<Token> {
    match ctx
    case Top => []
    case InLeft(_, _, _, up) => Before(up)
    case InRight(_, _, left, up) => Before(up) + Frontier(left)
  }

  ghost function Behind(ctx: Context): seq<Token> {
    match ctx
    case Top => []
    case InLeft(_, _, right, up) => Frontier(right) + Behind(up)
    case InRight(_, _, _, up) => Behind(up)
  }

  lemma {:induction false} PlugParts(ctx: Context, t: Tree)
    requires WellFormed(Plug(ctx, t)) && NoMarkers(Plug(ctx, t))
    ensures WellFormed(t) && NoMarkers(t)
    ensures ctx.InLeft? ==> WellFormed(ctx.right) && NoMarkers(ctx.right)
    ensures ctx.InRight? ==> WellFormed(ctx.left) && NoMarkers(ctx.left)
    ensures ctx.InLeft? && t.Node? ==> ctx.token.IsOperator() && (ctx.token.SUBEXP? ==> ctx.right.Null?)
    ensures ctx.InRight? && t.Node? ==> ctx.token.IsOperator() && !ctx.token.SUBEXP?
    decreases ctx
  {
    if !ctx.Top? {
      PlugParts(ctx.up, Above(ctx, t));
    }
  }

  /** The leaves of a place keep together, and what stands before and behind them is the rest. */
  lemma {:induction false} BracketedAt(ctx: Context, t: Tree) returns (pre: seq<Token>, post: seq<Token>)
    requires t.Node? && WellFormed(Plug(ctx, t)) && NoMarkers(Plug(ctx, t))
    ensures Bracketed(false, Plug(ctx, t)) == pre + Bracketed(false, t) + post
    ensures Erase(pre) == Before(ctx) && Erase(post) == Behind(ctx)
    decreases ctx
  {
    hide Erase, WellFormed, NoMarkers, Plug, Bracketed;
    if ctx.Top? {
      pre, post := [], [];
      PlugTop(t);
    } else {
      PlugParts(ctx, t);
      PlugUp(ctx, t);
      var a, b := BracketedAt(ctx.up, Above(ctx, t));
      var before, behind := BracketedAbove(ctx, t);
      pre, post := a + before, behind + b;
      EraseAppend(a, before);
      EraseAppend(behind, b);
      assert a + (before + Bracketed(false, t) + behind) + b == pre + Bracketed(false, t) + post;
    }
  }

  lemma PlugTop(t: Tree)
    ensures Plug(Top, t) == t && Bracketed(false, t) == [] + Bracketed(false, t) + [] && Erase([]) == []
  {
  }

  lemma PlugUp(ctx: Context, t: Tree)
    requires !ctx.Top?
    ensures Plug(ctx, t) == Plug(ctx.up, Above(ctx, t))
  {
  }

  /** One node up. */
  lemma BracketedAbove(ctx: Context, t: Tree) returns (before: seq<Token>, behind: seq<Token>)
    requires !ctx.Top? && ctx.token.IsOperator()
    requires ctx.InLeft? ==> WellFormed(ctx.right) && NoMarkers(ctx.right) && (ctx.token.SUBEXP? ==> ctx.right.Null?)
    requires ctx.InRight? ==> WellFormed(ctx.left) && NoMarkers(ctx.left) && !ctx.token.SUBEXP?
    ensures Bracketed(false, Above(ctx, t)) == before + Bracketed(false, t) + behind
    ensures Erase(before) == if ctx.InRight? then Frontier(ctx.left) else []
    ensures Erase(behind) == if ctx.InLeft? then Frontier(ctx.right) else []
  {
    before, behind := [], [];
    if ctx.token.SUBEXP? {
      before, behind := [OP_OPEN_SUBEXP(ctx.token.idx)], [OP_CLOSE_SUBEXP(ctx.token.idx)];
      EraseFirst(before[0], []);
      EraseFirst(behind[0], []);
    } else if ctx.InLeft? {
      behind := Bracketed(false, ctx.right);
      BracketedErased(false, ctx.right);
    } else {
      before := Bracketed(false, ctx.left);
      BracketedErased(false, ctx.left);
    }
  }

  /** The pair of markers of a subexpression encloses exactly the leaves of its body, at their
      place. */
  lemma LoweredEncloses(ctx: Context, s: Tree, u: Tree) returns (pre: seq<Token>, mid: seq<Token>, post: seq<Token>)
    requires s.Node? && s.token.SUBEXP? && WellFormed(Plug(ctx, s)) && NoMarkers(Plug(ctx, s))
    requires Lowered(false, Plug(ctx, s), u)
    ensures Frontier(u) == pre + [OP_OPEN_SUBEXP(s.token.idx)] + mid + [OP_CLOSE_SUBEXP(s.token.idx)] + post
    ensures Erase(pre) == Before(ctx) && Erase(mid) == Frontier(s.left) && Erase(post) == Behind(ctx)
    ensures Balanced(mid, [])
  {
    hide Balanced, Erase;
    LoweredFrontier(false, Plug(ctx, s), u);
    PlugParts(ctx, s);
    pre, post := BracketedAt(ctx, s);
    mid := Bracketed(false, s.left);
    BracketedErased(false, s.left);
    BracketedBalanced(false, s.left, [], []);
    assert mid + [] == mid;
    NothingBalanced();
    var open, close := OP_OPEN_SUBEXP(s.token.idx), OP_CLOSE_SUBEXP(s.token.idx);
    assert pre + ([open] + mid + [close]) + post == pre + [open] + mid + [close] + post;
  }

  // ----- Stripping -----

  /** Some subexpression is the whole of another one. */
  ghost predicate Nested(t: Tree) {
    t.Node? && ((t.token.SUBEXP? && t.left.Node? && t.left.token.SUBEXP?) || Nested(t.left) || Nested(t.right))
  }

  ghost function SubexpNodes(t: Tree): nat {
    if t.Null? then 0 else SubexpNodes(t.left) + SubexpNodes(t.right) + if t.token.SUBEXP? then 1 else 0
  }

  /** The pass drops a node exactly when some subexpression is the whole of another one. */
  lemma {:induction false} OptimizedDrops(t: Tree)
    ensures SubexpNodes(Optimized(t)) <= SubexpNodes(t)
    ensures Nested(t) ==> SubexpNodes(Optimized(t)) < SubexpNodes(t)
    ensures !Nested(t) ==> Optimized(t) == t
  {
    if t.Node? {
      OptimizedDrops(t.right);
      if t.token.SUBEXP? && t.left.Node? && t.left.token.SUBEXP? {
        OptimizedDrops(t.left.left);
      } else {
        OptimizedDrops(t.left);
      }
    }
  }

  /** The cells and numbers of the subexpressions nested directly in each other from t down. */
  ghost function NestRun(t: Tree): seq<(nat, nat)> {
    if t.Node? && t.token.SUBEXP? then [(t.at, t.token.idx)] + NestRun(t.left) else []
  }

  ghost function NestBody(t: Tree): Tree {
    if t.Node? && t.token.SUBEXP? then NestBody(t.left) else t
  }

  /** Of subexpressions nested directly in each other the first, the third and so on stay, around
      the same body. */
  lemma {:induction false} OptimizedHalvesRuns(t: Tree)
    ensures |NestRun(Optimized(t))| == (|NestRun(t)| + 1) / 2
    ensures forall k :: 0 <= k < |NestRun(Optimized(t))| ==> NestRun(Optimized(t))[k] == NestRun(t)[2 * k]
    ensures NestBody(Optimized(t)) == Optimized(NestBody(t))
  {
    if t.Node? && t.token.SUBEXP? && t.left.Node? && t.left.token.SUBEXP? {
      var inner := t.left.left;
      OptimizedHalvesRuns(inner);
      assert NestRun(t) == [(t.at, t.token.idx)] + ([(t.left.at, t.left.token.idx)] + NestRun(inner));
      assert NestRun(Optimized(t)) == [(t.at, t.token.idx)] + NestRun(Optimized(inner));
    } else if t.Node? && t.token.SUBEXP? {
      assert NestRun(t.left) == [] && NestRun(Optimized(t.left)) == [];
    }
  }

  /** Any other node stays, with both its subtrees optimized. */
  lemma OptimizedOthers(t: Tree)
    requires t.Node? && !t.token.SUBEXP?
    ensures Optimized(t) == Node(t.at, t.token, Optimized(t.left), Optimized(t.right))
  {
  }

  /** No other node is lost or doubled. */
  lemma {:induction false} OptimizedKeepsOthers(t: Tree, token: Token)
    requires WellFormed(t) && !token.SUBEXP?
    ensures Occurrences(Optimized(t), token) == Occurrences(t, token)
  {
    if t.Node? {
      OptimizedKeepsOthers(StripLeft(t), token);
      OptimizedKeepsOthers(t.right, token);
      assert Occurrences(StripLeft(t), token) == Occurrences(t.left, token);
    }
  }

  /** The leaves keep their order. */
  lemma {:induction false} OptimizedFrontier(t: Tree)
    requires WellFormed(t)
    ensures Frontier(Optimized(t)) == Frontier(t)
  {
    if t.Node? {
      OptimizedFrontier(StripLeft(t));
      OptimizedFrontier(t.right);
      StrippedFrontier(t);
    }
  }

  lemma StrippedFrontier(t: Tree)
    requires t.Node? && WellFormed(t)
    ensures Frontier(StripLeft(t)) == Frontier(t.left)
  {
  }

  lemma {:induction false} OptimizedNoMarkers(t: Tree)
    requires NoMarkers(t)
    ensures NoMarkers(Optimized(t))
  {
    if t.Node? {
      OptimizedNoMarkers(StripLeft(t));
      OptimizedNoMarkers(t.right);
    }
  }
}
