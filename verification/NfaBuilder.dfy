/** The three passes that turn a lowered tree into the tables of the automaton: numbering the
    nodes, finding for every tree node the one that follows it, and linking. */
module NfaBuilder {
  import opened RegexLanguage
  import opened TreeStorage
  import opened SubexpPasses
  import opened SubexpLaws
  import opened Automaton
  import opened NodeSets

  function Cell(h: Heap, p: int): BinTree {
    if 0 <= p < |h| then h[p] else BinTree(NULL_PTR, NULL_PTR, NULL_PTR, NULL_PTR, NULL_PTR, END_OF_RE, REG_MISSING)
  }

  function SetNext(h: Heap, p: int, next: int): Heap {
    if 0 <= p < |h| then h[p := h[p].(next := next)] else h
  }

  // ----- What each callback does to its node -----

  function FirstVisit(h: Heap, nodes: seq<Token>, c: nat): (Heap, seq<Token>) {
    if c >= |h| then (h, nodes)
    else if h[c].token.CONCAT? then
      (h[c := h[c].(first := Cell(h, h[c].left).first, nodeIdx := Cell(h, h[c].left).nodeIdx)], nodes)
    else
      (h[c := h[c].(first := c, nodeIdx := |nodes|)], nodes + [h[c].token])
  }

  function NextVisit(h: Heap, c: nat): Heap {
    if c >= |h| then h else
    match h[c].token
    case OP_DUP_ASTERISK => SetNext(h, h[c].left, c)
    case CONCAT => SetNext(SetNext(h, h[c].left, Cell(h, h[c].right).first), h[c].right, h[c].next)
    case _ => SetNext(SetNext(h, h[c].left, h[c].next), h[c].right, h[c].next)
  }

  function ToNat(i: int): nat {
    if i < 0 then 0 else i
  }

  /** The number of the node that is entered through pointer p, or after cell c when p is NULL. */
  function Target(h: Heap, c: nat, p: int): int
    requires c < |h|
  {
    if p != NULL_PTR then Cell(h, Cell(h, p).first).nodeIdx else Cell(h, h[c].next).nodeIdx
  }

  function LinkVisit(h: Heap, a: Nfa, c: nat): Nfa {
    if c >= |h| then a else
    var i := h[c].nodeIdx;
    if h[c].token.CONCAT? || h[c].token.END_OF_RE? || !(0 <= i < |a.edests| && i < |a.nexts|) then a
    else if h[c].token.OP_DUP_ASTERISK? || h[c].token.OP_ALT? then
      a.(edests := a.edests[i := Pair(ToNat(Target(h, c, h[c].left)), ToNat(Target(h, c, h[c].right)))])
    else if h[c].token.OP_OPEN_SUBEXP? || h[c].token.OP_CLOSE_SUBEXP? then
      a.(edests := a.edests[i := [ToNat(Cell(h, h[c].next).nodeIdx)]])
    else
      a.(nexts := a.nexts[i := Cell(h, h[c].next).nodeIdx])
  }

  // ----- The passes as folds over the order of the walk -----

  function FoldFirst(h: Heap, nodes: seq<Token>, order: seq<nat>): (r: (Heap, seq<Token>))
    ensures |r.0| == |h|
    decreases |order|
  {
    if order == [] then (h, nodes)
    else var (h', nodes') := FirstVisit(h, nodes, order[0]); FoldFirst(h', nodes', order[1..])
  }

  function FoldNext(h: Heap, order: seq<nat>): (r: Heap)
    ensures |r| == |h|
    decreases |order|
  {
    if order == [] then h else FoldNext(NextVisit(h, order[0]), order[1..])
  }

  function FoldLink(h: Heap, a: Nfa, order: seq<nat>): Nfa
    decreases |order|
  {
    if order == [] then a else FoldLink(h, LinkVisit(h, a, order[0]), order[1..])
  }

  lemma {:induction false} FoldFirstAppend(h: Heap, nodes: seq<Token>, s: seq<nat>, t: seq<nat>)
    ensures var (h1, n1) := FoldFirst(h, nodes, s); FoldFirst(h, nodes, s + t) == FoldFirst(h1, n1, t)
    decreases |s|
  {
    if s == [] {
      assert s + t == t;
    } else {
      assert (s + t)[1..] == s[1..] + t;
      var (h', nodes') := FirstVisit(h, nodes, s[0]);
      FoldFirstAppend(h', nodes', s[1..], t);
    }
  }

  lemma {:induction false} FoldNextAppend(h: Heap, s: seq<nat>, t: seq<nat>)
    ensures FoldNext(h, s + t) == FoldNext(FoldNext(h, s), t)
    decreases |s|
  {
    if s == [] {
      assert s + t == t;
    } else {
      assert (s + t)[1..] == s[1..] + t;
      FoldNextAppend(NextVisit(h, s[0]), s[1..], t);
    }
  }

  lemma {:induction false} FoldLinkAppend(h: Heap, a: Nfa, s: seq<nat>, t: seq<nat>)
    ensures FoldLink(h, a, s + t) == FoldLink(h, FoldLink(h, a, s), t)
    decreases |s|
  {
    if s == [] {
      assert s + t == t;
    } else {
      assert (s + t)[1..] == s[1..] + t;
      FoldLinkAppend(h, LinkVisit(h, a, s[0]), s[1..], t);
    }
  }

  // ----- Pass 1: numbers in postorder -----

  /** How many automaton nodes a tree needs: concatenations need none. */
  function NodeCount(t: Tree): nat {
    if t.Null? then 0 else NodeCount(t.left) + NodeCount(t.right) + if t.token.CONCAT? then 0 else 1
  }

  /** The number of the entry node of t, when its nodes are numbered from base. */
  function Entry(t: Tree, base: nat): nat
    requires t.Node?
  {
    if !t.token.CONCAT? then base + NodeCount(t.left) + NodeCount(t.right)
    else if t.left.Null? then base else Entry(t.left, base)
  }

  function EntryCell(t: Tree): nat
    requires t.Node?
  {
    if !t.token.CONCAT? || t.left.Null? then t.at else EntryCell(t.left)
  }

  /** Concatenations have both children, repetitions only the left one. */
  ghost predicate Joined(t: Tree) {
    t.Node? ==>
      && (t.token.CONCAT? ==> t.left.Node? && t.right.Node?)
      && (t.token.OP_DUP_ASTERISK? ==> t.left.Node? && t.right.Null?)
      && Joined(t.left) && Joined(t.right)
  }

  ghost predicate FirstDone(h: Heap, nodes: seq<Token>, t: Tree, base: nat) {
    t.Node? ==>
      && t.at < |h|
      && h[t.at].nodeIdx == Entry(t, base)
      && h[t.at].first == EntryCell(t)
      && (!t.token.CONCAT? ==> Entry(t, base) < |nodes| && nodes[Entry(t, base)] == t.token)
      && FirstDone(h, nodes, t.left, base)
      && FirstDone(h, nodes, t.right, base + NodeCount(t.left))
  }

  predicate SameLinksAndNext(c: BinTree, d: BinTree) {
    SameLinks(c, d) && c.next == d.next
  }

  lemma {:induction false} FirstDoneFrame(h: Heap, nodes: seq<Token>, h': Heap, nodes': seq<Token>, t: Tree, base: nat)
    requires FirstDone(h, nodes, t, base) && nodes <= nodes' && |h| <= |h'|
    requires forall c :: c in Cells(t) && c < |h| ==> h'[c].first == h[c].first && h'[c].nodeIdx == h[c].nodeIdx
    ensures FirstDone(h', nodes', t, base)
  {
    if t.Node? {
      FirstDoneFrame(h, nodes, h', nodes', t.left, base);
      FirstDoneFrame(h, nodes, h', nodes', t.right, base + NodeCount(t.left));
    }
  }

  function FirstPass(h: Heap, nodes: seq<Token>, t: Tree): (Heap, seq<Token>)
  {
    FoldFirst(h, nodes, PostOrder(t))
  }

  /** Both subtrees first, then the node. */
  lemma {:induction false} FirstPassUnfold(h: Heap, nodes: seq<Token>, t: Tree, p: int)
    requires Holds(h, t, p) && t.Node?
    ensures var (h1, n1) := FirstPass(h, nodes, t.left);
            var (h2, n2) := FirstPass(h1, n1, t.right);
            FirstPass(h, nodes, t) == FirstVisit(h2, n2, t.at)
  {
    FoldFirstAppend(h, nodes, PostOrder(t.left), PostOrder(t.right));
    FoldFirstAppend(h, nodes, PostOrder(t.left) + PostOrder(t.right), [t.at]);
    var (h1, n1) := FirstPass(h, nodes, t.left);
    var (h2, n2) := FirstPass(h1, n1, t.right);
    var (h3, n3) := FirstVisit(h2, n2, t.at);
    assert FoldFirst(h3, n3, []) == (h3, n3);
  }

  lemma {:induction false} FirstVisitDone(h: Heap, nodes: seq<Token>, t: Tree, p: int, base: nat)
    requires Holds(h, t, p) && Proper(t) && t.Node? && (t.token.CONCAT? ==> t.left.Node?)
    requires FirstDone(h, nodes, t.left, base) && FirstDone(h, nodes, t.right, base + NodeCount(t.left))
    requires |nodes| == base + NodeCount(t.left) + NodeCount(t.right)
    ensures var (h', nodes') := FirstVisit(h, nodes, t.at); FirstDone(h', nodes', t, base)
  {
    var (h', nodes') := FirstVisit(h, nodes, t.at);
    FirstDoneFrame(h, nodes, h', nodes', t.left, base);
    FirstDoneFrame(h, nodes, h', nodes', t.right, base + NodeCount(t.left));
  }

  ghost predicate FirstResult(h: Heap, nodes: seq<Token>, h': Heap, nodes': seq<Token>, t: Tree) {
    && |h'| == |h| && FirstDone(h', nodes', t, |nodes|)
    && |nodes'| == |nodes| + NodeCount(t) && nodes <= nodes'
    && (forall c :: 0 <= c < |h| ==> SameLinksAndNext(h'[c], h[c]))
    && (forall c :: 0 <= c < |h| && c !in Cells(t) ==> h'[c] == h[c])
  }

  /** The result for a node from those for its subtrees. */
  lemma {:induction false} FirstCompose(h: Heap, n: seq<Token>, h1: Heap, n1: seq<Token>, h2: Heap, n2: seq<Token>,
                                        t: Tree, p: int)
    requires Holds(h, t, p) && Proper(t) && t.Node? && (t.token.CONCAT? ==> t.left.Node?)
    requires FirstResult(h, n, h1, n1, t.left) && FirstResult(h1, n1, h2, n2, t.right)
    ensures var (h3, n3) := FirstVisit(h2, n2, t.at); FirstResult(h, n, h3, n3, t)
  {
    FirstDoneFrame(h1, n1, h2, n2, t.left, |n|);
    HoldsFrame(h, h2, t, p);
    FirstVisitDone(h2, n2, t, p, |n|);
  }

  lemma HoldsAfterFirst(h: Heap, n: seq<Token>, h': Heap, n': seq<Token>, u: Tree, t: Tree, p: int)
    requires Holds(h, t, p) && FirstResult(h, n, h', n', u)
    ensures Holds(h', t, p)
  {
    HoldsFrame(h, h', t, p);
  }

  lemma {:induction false} FirstPassNumbers(h: Heap, nodes: seq<Token>, t: Tree, p: int)
    requires Holds(h, t, p) && Proper(t) && Joined(t)
    ensures var (h', nodes') := FirstPass(h, nodes, t); FirstResult(h, nodes, h', nodes', t)
    decreases t
  {
    if t.Node? {
      FirstPassUnfold(h, nodes, t, p);
      var (h1, nodes1) := FirstPass(h, nodes, t.left);
      hide FirstResult;
      hide FoldFirst;
      hide PostOrder;
      FirstPassNumbers(h, nodes, t.left, t.at);
      HoldsAfterFirst(h, nodes, h1, nodes1, t.left, t.right, t.at);
      FirstPassNumbers(h1, nodes1, t.right, t.at);
      var (h2, nodes2) := FirstPass(h1, nodes1, t.right);
      FirstCompose(h, nodes, h1, nodes1, h2, nodes2, t, p);
    }
  }

  // ----- Pass 2: the node that follows -----

  ghost predicate NextDone(h: Heap, t: Tree, next: int) {
    t.Node? ==>
      && t.at < |h|
      && h[t.at].next == next
      && match t.token {
           case CONCAT => t.right.Node? && NextDone(h, t.left, EntryCell(t.right)) && NextDone(h, t.right, next)
           case OP_DUP_ASTERISK => NextDone(h, t.left, t.at)
           case _ => NextDone(h, t.left, next) && NextDone(h, t.right, next)
         }
  }

  predicate SameButNext(c: BinTree, d: BinTree) {
    c == d.(next := c.next)
  }

  lemma {:induction false} NextDoneFrame(h: Heap, h': Heap, t: Tree, next: int)
    requires NextDone(h, t, next) && |h| <= |h'|
    requires forall c :: c in Cells(t) && c < |h| ==> h'[c].next == h[c].next
    ensures NextDone(h', t, next)
  {
    if t.Node? {
      match t.token
      case CONCAT =>
        NextDoneFrame(h, h', t.left, EntryCell(t.right));
        NextDoneFrame(h, h', t.right, next);
      case OP_DUP_ASTERISK => NextDoneFrame(h, h', t.left, t.at);
      case _ =>
        NextDoneFrame(h, h', t.left, next);
        NextDoneFrame(h, h', t.right, next);
    }
  }

  function NextPass(h: Heap, t: Tree): Heap
  {
    FoldNext(h, PreOrder(t))
  }

  lemma {:induction false} NextPassUnfold(h: Heap, t: Tree, p: int)
    requires Holds(h, t, p) && t.Node?
    ensures NextPass(h, t) == NextPass(NextPass(NextVisit(h, t.at), t.left), t.right)
  {
    FoldNextAppend(h, [t.at], PreOrder(t.left));
    FoldNextAppend(h, [t.at] + PreOrder(t.left), PreOrder(t.right));
    var h1 := NextVisit(h, t.at);
    assert FoldNext(h1, []) == h1;
  }

  /** Only `next` fields of cells below the root change. */
  ghost predicate NextChanges(h: Heap, h': Heap, t: Tree) {
    && |h'| == |h|
    && (forall c :: 0 <= c < |h| ==> SameButNext(h'[c], h[c]))
    && (forall c :: 0 <= c < |h| && (c !in Cells(t) || c == Addr(t)) ==> h'[c] == h[c])
  }

  ghost function LeftNext(t: Tree, next: int): int
    requires t.Node?
  {
    match t.token
    case CONCAT => if t.right.Null? then NULL_PTR else EntryCell(t.right)
    case OP_DUP_ASTERISK => t.at
    case _ => next
  }

  lemma {:induction false} NextVisitSets(h: Heap, t: Tree, p: int)
    requires Holds(h, t, p) && Proper(t) && t.Node?
    requires t.token.CONCAT? ==> t.right.Node? && t.right.at < |h| && h[t.right.at].first == EntryCell(t.right)
    ensures var h1 := NextVisit(h, t.at);
            && NextChanges(h, h1, t)
            && (t.left.Node? ==> t.left.at < |h1| && h1[t.left.at].next == LeftNext(t, h[t.at].next))
            && (t.right.Node? && !t.token.OP_DUP_ASTERISK? ==> t.right.at < |h1| && h1[t.right.at].next == h[t.at].next)
  {
    assert Holds(h, t.left, t.at) && Holds(h, t.right, t.at);
  }

  ghost predicate NextResult(h: Heap, h': Heap, t: Tree) {
    NextChanges(h, h', t) && (t.Node? ==> t.at < |h| && NextDone(h', t, h[t.at].next))
  }

  lemma {:induction false} NextFrames(h: Heap, nodes: seq<Token>, h': Heap, u: Tree, t: Tree, p: int, base: nat)
    requires Holds(h, t, p) && FirstDone(h, nodes, t, base) && NextChanges(h, h', u)
    ensures Holds(h', t, p) && FirstDone(h', nodes, t, base)
  {
    HoldsFrame(h, h', t, p);
    FirstDoneFrame(h, nodes, h', nodes, t, base);
  }

  lemma {:induction false} NextCompose(h: Heap, h1: Heap, h2: Heap, h3: Heap, t: Tree, p: int)
    requires Holds(h, t, p) && Proper(t) && t.Node? && Joined(t)
    requires h1 == NextVisit(h, t.at)
    requires t.token.CONCAT? ==> t.right.at < |h| && h[t.right.at].first == EntryCell(t.right)
    requires NextResult(h1, h2, t.left) && NextResult(h2, h3, t.right)
    ensures NextResult(h, h3, t)
  {
    NextVisitSets(h, t, p);
    if t.left.Node? {
      NextDoneFrame(h2, h3, t.left, LeftNext(t, h[t.at].next));
    }
  }

  lemma {:induction false} Below(h: Heap, nodes: seq<Token>, t: Tree, p: int, base: nat)
    requires Holds(h, t, p) && Proper(t) && Joined(t) && FirstDone(h, nodes, t, base) && t.Node?
    ensures Holds(h, t.left, t.at) && Proper(t.left) && Joined(t.left) && FirstDone(h, nodes, t.left, base)
    ensures Holds(h, t.right, t.at) && Proper(t.right) && Joined(t.right)
    ensures FirstDone(h, nodes, t.right, base + NodeCount(t.left))
    ensures t.right.Node? ==> t.right.at < |h| && h[t.right.at].first == EntryCell(t.right)
    ensures t.at < |h| && (t.token.CONCAT? ==> t.right.Node?)
  {
  }

  /** What a subtree needs for its pass. */
  ghost predicate NextReady(h: Heap, nodes: seq<Token>, t: Tree, p: int, base: nat) {
    Holds(h, t, p) && Proper(t) && Joined(t) && FirstDone(h, nodes, t, base)
  }

  lemma {:induction false} NextReadyAfter(h: Heap, nodes: seq<Token>, h': Heap, u: Tree, t: Tree, p: int, base: nat)
    requires NextReady(h, nodes, t, p, base) && NextChanges(h, h', u)
    ensures NextReady(h', nodes, t, p, base)
  {
    NextFrames(h, nodes, h', u, t, p, base);
  }

  lemma {:induction false} NextReadyBelow(h: Heap, nodes: seq<Token>, t: Tree, p: int, base: nat)
    requires NextReady(h, nodes, t, p, base) && t.Node?
    ensures t.at < |h| && NextReady(NextVisit(h, t.at), nodes, t.left, t.at, base)
    ensures NextReady(NextVisit(h, t.at), nodes, t.right, t.at, base + NodeCount(t.left))
  {
    hide NextVisit, NextChanges, FirstDone, Holds, Proper, Joined, Cells;
    Below(h, nodes, t, p, base);
    NextVisitSets(h, t, p);
    NextFrames(h, nodes, NextVisit(h, t.at), t, t.left, t.at, base);
    NextFrames(h, nodes, NextVisit(h, t.at), t, t.right, t.at, base + NodeCount(t.left));
  }

  lemma {:induction false} NextPassLinks(h: Heap, nodes: seq<Token>, t: Tree, p: int, base: nat)
    requires NextReady(h, nodes, t, p, base)
    ensures NextResult(h, NextPass(h, t), t)
    decreases t
  {
    hide FoldNext, PreOrder, NextDone, NextVisit, FirstDone, Holds, Proper, Joined, NextChanges, Cells, NextPass;
    if t.Null? {
      NextPassNull(h);
    } else {
      Below(h, nodes, t, p, base);
      NextReadyBelow(h, nodes, t, p, base);
      NextPassUnfold(h, t, p);
      var h1 := NextVisit(h, t.at);
      var h2 := NextPass(h1, t.left);
      NextPassLinks(h1, nodes, t.left, t.at, base);
      NextReadyAfter(h1, nodes, h2, t.left, t.right, t.at, base + NodeCount(t.left));
      NextPassLinks(h2, nodes, t.right, t.at, base + NodeCount(t.left));
      NextCompose(h, h1, h2, NextPass(h2, t.right), t, p);
    }
  }

  lemma NextPassNull(h: Heap)
    ensures NextResult(h, NextPass(h, Null), Null)
  {
  }

  // ----- Pass 3: linking -----

  function Numbers(h: Heap): seq<int> {
    seq(|h|, i requires 0 <= i < |h| => h[i].nodeIdx)
  }

  ghost predicate SameSizes(a: Nfa) {
    |a.nodes| == |a.nexts| == |a.edests|
  }

  lemma {:induction false} EntryIsNumbered(h: Heap, nodes: seq<Token>, t: Tree, base: nat)
    requires FirstDone(h, nodes, t, base) && t.Node?
    ensures EntryCell(t) < |h| && h[EntryCell(t)].nodeIdx == Entry(t, base)
    ensures Joined(t) ==> Entry(t, base) < base + NodeCount(t)
  {
    if t.token.CONCAT? && t.left.Node? {
      EntryIsNumbered(h, nodes, t.left, base);
    }
  }

  /** The cells of a tree that own an automaton node. */
  ghost predicate Owns(h: Heap, t: Tree, c: nat) {
    c in Cells(t) && c < |h| && !h[c].token.CONCAT?
  }

  lemma {:induction false} OwnNumbers(h: Heap, nodes: seq<Token>, t: Tree, p: int, base: nat, c: nat)
    requires Holds(h, t, p) && FirstDone(h, nodes, t, base) && Owns(h, t, c)
    ensures base <= h[c].nodeIdx < base + NodeCount(t) && h[c].nodeIdx < |nodes|
    ensures nodes[h[c].nodeIdx] == h[c].token
    decreases t
  {
    if c in Cells(t.left) {
      OwnNumbers(h, nodes, t.left, t.at, base, c);
    } else if c in Cells(t.right) {
      OwnNumbers(h, nodes, t.right, t.at, base + NodeCount(t.left), c);
    }
  }

  /** No two cells own the same automaton node. */
  lemma {:induction false} NumbersDiffer(h: Heap, nodes: seq<Token>, t: Tree, p: int, base: nat, c: nat, d: nat)
    requires Holds(h, t, p) && Proper(t) && FirstDone(h, nodes, t, base) && Owns(h, t, c) && Owns(h, t, d)
    requires h[c].nodeIdx == h[d].nodeIdx
    ensures c == d
    decreases t
  {
    var mid := base + NodeCount(t.left);
    if c in Cells(t.left) {
      OwnNumbers(h, nodes, t.left, t.at, base, c);
    } else if c in Cells(t.right) {
      OwnNumbers(h, nodes, t.right, t.at, mid, c);
    }
    if d in Cells(t.left) {
      OwnNumbers(h, nodes, t.left, t.at, base, d);
    } else if d in Cells(t.right) {
      OwnNumbers(h, nodes, t.right, t.at, mid, d);
    }
    if c in Cells(t.left) && d in Cells(t.left) {
      NumbersDiffer(h, nodes, t.left, t.at, base, c, d);
    } else if c in Cells(t.right) && d in Cells(t.right) {
      NumbersDiffer(h, nodes, t.right, t.at, mid, c, d);
    }
  }

  /** Every number belongs to some cell. */
  lemma {:induction false} NumberHasCell(h: Heap, nodes: seq<Token>, t: Tree, p: int, base: nat,
                                         i: nat) returns (c: nat)
    requires Holds(h, t, p) && FirstDone(h, nodes, t, base) && base <= i < base + NodeCount(t)
    ensures Owns(h, t, c) && h[c].nodeIdx == i
    decreases t
  {
    var mid := base + NodeCount(t.left);
    if i < mid {
      c := NumberHasCell(h, nodes, t.left, t.at, base, i);
    } else if i < mid + NodeCount(t.right) {
      c := NumberHasCell(h, nodes, t.right, t.at, mid, i);
    } else {
      c := t.at;
    }
  }

  /** The table entry of cell c is filled in: visiting it again changes nothing. */
  ghost predicate Linked(h: Heap, a: Nfa, c: nat) {
    LinkVisit(h, a, c) == a
  }

  /** Entries fit the type of their node, and lead to existing nodes. */
  ghost predicate Typed(a: Nfa) {
    && SameSizes(a)
    && (forall i, m :: 0 <= i < |a.nodes| && m in a.edests[i] ==> m < |a.nodes| && a.nodes[i].IsEpsilonNode())
    && (forall i :: 0 <= i < |a.nodes| ==> a.nexts[i] < |a.nodes|)
  }

  /** The links written at cell c lead to existing nodes. */
  ghost predicate TargetsExist(h: Heap, a: Nfa, c: nat) {
    && c < |h|
    && (!h[c].token.CONCAT? ==> 0 <= h[c].nodeIdx < |a.nodes| && a.nodes[h[c].nodeIdx] == h[c].token)
    && (!h[c].token.CONCAT? && !h[c].token.END_OF_RE? ==>
          && 0 <= Cell(h, h[c].next).nodeIdx < |a.nodes|
          && 0 <= Target(h, c, h[c].left) < |a.nodes|
          && 0 <= Target(h, c, h[c].right) < |a.nodes|)
  }

  lemma {:induction false} LinkVisitTyped(h: Heap, a: Nfa, c: nat)
    requires Typed(a) && TargetsExist(h, a, c) && !h[c].token.SUBEXP?
    ensures var a' := LinkVisit(h, a, c);
            Typed(a') && a'.nodes == a.nodes && a'.syntax == a.syntax && Linked(h, a', c)
  {
  }

  lemma {:induction false} LinkVisitKeeps(h: Heap, a: Nfa, c: nat, d: nat)
    requires SameSizes(a) && Linked(h, a, c) && c < |h| && d < |h|
    requires h[c].token.CONCAT? || h[d].token.CONCAT? || h[c].nodeIdx != h[d].nodeIdx
    ensures Linked(h, LinkVisit(h, a, d), c)
  {
  }

  /** The cells to visit, and the condition under which they may be visited in any order. */
  ghost predicate Linkable(h: Heap, a: Nfa, order: seq<nat>) {
    && Typed(a)
    && (forall c :: c in order ==> TargetsExist(h, a, c) && !h[c].token.SUBEXP?)
    && (forall c, d :: c in order && d in order && !h[c].token.CONCAT? && !h[d].token.CONCAT? && c != d
          ==> h[c].nodeIdx != h[d].nodeIdx)
  }

  lemma {:induction false} FoldLinkFills(h: Heap, a: Nfa, order: seq<nat>, done: set<nat>, all: seq<nat>)
    requires Linkable(h, a, all) && (forall c :: c in order ==> c in all)
    requires forall c :: c in done ==> c in all && Linked(h, a, c)
    ensures var a' := FoldLink(h, a, order);
            && Typed(a') && a'.nodes == a.nodes && a'.syntax == a.syntax
            && forall c :: c in done || c in order ==> Linked(h, a', c)
    decreases |order|
  {
    if order != [] {
      var d := order[0];
      var a1 := LinkVisit(h, a, d);
      LinkVisitTyped(h, a, d);
      forall c | c in done + {d} ensures Linked(h, a1, c) {
        if c != d {
          LinkVisitKeeps(h, a, c, d);
        }
      }
      FoldLinkFills(h, a1, order[1..], done + {d}, all);
    }
  }

  // ----- The tables after all three passes -----

  /** The heap after the first two passes, seen from one subtree. */
  ghost predicate Analyzed(h: Heap, nodes: seq<Token>, t: Tree, p: int, base: nat, next: int, k: nat) {
    && Holds(h, t, p) && WellFormed(t) && NoSubexp(t) && Joined(t)
    && FirstDone(h, nodes, t, base) && NextDone(h, t, next)
    && 0 <= next < |h| && h[next].nodeIdx == k < |nodes|
  }

  /** The number of the node that follows the left subtree. */
  ghost function LeftFollow(t: Tree, base: nat, k: nat): nat
    requires t.Node?
  {
    match t.token
    case CONCAT => if t.right.Null? then k else Entry(t.right, base + NodeCount(t.left))
    case OP_DUP_ASTERISK => Entry(t, base)
    case _ => k
  }

  lemma {:induction false} AnalyzedBelow(h: Heap, nodes: seq<Token>, t: Tree, p: int, base: nat, next: int, k: nat)
    requires Analyzed(h, nodes, t, p, base, next, k) && t.Node? && base + NodeCount(t) <= |nodes|
    ensures t.left.Node? ==> Analyzed(h, nodes, t.left, t.at, base, LeftNext(t, next), LeftFollow(t, base, k))
    ensures t.right.Node? ==> Analyzed(h, nodes, t.right, t.at, base + NodeCount(t.left), next, k)
  {
    EntryIsNumbered(h, nodes, t, base);
    if t.right.Node? {
      EntryIsNumbered(h, nodes, t.right, base + NodeCount(t.left));
    }
  }

  ghost function EntryOr(t: Tree, base: nat, k: nat): nat {
    if t.Null? then k else Entry(t, base)
  }

  lemma {:induction false} TargetsKnown(h: Heap, nodes: seq<Token>, t: Tree, p: int, base: nat, next: int, k: nat)
    requires Analyzed(h, nodes, t, p, base, next, k) && t.Node? && base + NodeCount(t) <= |nodes|
    ensures t.at < |h| && h[t.at].token == t.token && h[t.at].nodeIdx == Entry(t, base) < |nodes|
    ensures Cell(h, h[t.at].next).nodeIdx == k
    ensures Target(h, t.at, h[t.at].left) == EntryOr(t.left, base, k) < |nodes|
    ensures Target(h, t.at, h[t.at].right) == EntryOr(t.right, base + NodeCount(t.left), k) < |nodes|
    ensures !t.token.CONCAT? ==> nodes[Entry(t, base)] == t.token
  {
    EntryIsNumbered(h, nodes, t, base);
    if t.left.Node? {
      EntryIsNumbered(h, nodes, t.left, base);
    }
    if t.right.Node? {
      EntryIsNumbered(h, nodes, t.right, base + NodeCount(t.left));
    }
  }

  lemma {:induction false} CellsTarget(h: Heap, a: Nfa, t: Tree, p: int, base: nat, next: int, k: nat, c: nat)
    requires Analyzed(h, a.nodes, t, p, base, next, k) && base + NodeCount(t) <= |a.nodes| && c in Cells(t)
    ensures TargetsExist(h, a, c) && !h[c].token.SUBEXP?
    decreases t
  {
    if c == t.at {
      TargetsKnown(h, a.nodes, t, p, base, next, k);
    } else {
      AnalyzedBelow(h, a.nodes, t, p, base, next, k);
      if c in Cells(t.left) {
        CellsTarget(h, a, t.left, t.at, base, LeftNext(t, next), LeftFollow(t, base, k), c);
      } else {
        CellsTarget(h, a, t.right, t.at, base + NodeCount(t.left), next, k, c);
      }
    }
  }

  /** The entry of one node, read off its cell. */
  ghost predicate OwnEntry(a: Nfa, t: Tree, base: nat, k: nat)
    requires t.Node? && SameSizes(a)
  {
    var i := Entry(t, base);
    && i < |a.nodes|
    && match t.token {
         case CONCAT => true
         case OP_DUP_ASTERISK => EdgesAre(a, i, EntryOr(t.left, base, k), EntryOr(t.right, base + NodeCount(t.left), k))
         case OP_ALT => EdgesAre(a, i, EntryOr(t.left, base, k), EntryOr(t.right, base + NodeCount(t.left), k))
         case OP_OPEN_SUBEXP(_) => EdgesAre(a, i, k, k)
         case OP_CLOSE_SUBEXP(_) => EdgesAre(a, i, k, k)
         case END_OF_RE => true
         case SUBEXP(_) => true
         case _ => a.edests[i] == [] && a.nexts[i] == k
       }
  }

  lemma EmptyOrItem(s: seq<nat>)
    ensures s == [] || exists m :: m in s
  {
    assert |s| > 0 ==> s[0] in s;
  }

  lemma {:induction false} LinkedEntry(h: Heap, a: Nfa, t: Tree, p: int, base: nat, next: int, k: nat)
    requires Analyzed(h, a.nodes, t, p, base, next, k) && t.Node? && base + NodeCount(t) <= |a.nodes|
    requires Typed(a) && Linked(h, a, t.at)
    ensures OwnEntry(a, t, base, k)
  {
    TargetsKnown(h, a.nodes, t, p, base, next, k);
    hide Analyzed;
    hide Entry;
    hide NodeCount;
    hide Target;
    hide Cell;
    var i := Entry(t, base);
    if t.token.IsByteNode() {
      EmptyOrItem(a.edests[i]);
    } else if t.token.OP_DUP_ASTERISK? || t.token.OP_ALT? {
      assert a.edests[i] == Pair(EntryOr(t.left, base, k), EntryOr(t.right, base + NodeCount(t.left), k));
    } else if t.token.OP_OPEN_SUBEXP? || t.token.OP_CLOSE_SUBEXP? {
      assert a.edests[i] == [k];
    }
  }

  lemma {:induction false} WiredNode(h: Heap, a: Nfa, t: Tree, p: int, base: nat, next: int, k: nat)
    requires Analyzed(h, a.nodes, t, p, base, next, k) && t.Node? && SameSizes(a) && OwnEntry(a, t, base, k)
    requires t.left.Node? ==> Wired(a, Numbers(h), t.left, LeftFollow(t, base, k))
    requires t.right.Node? ==> Wired(a, Numbers(h), t.right, k)
    ensures Wired(a, Numbers(h), t, k)
  {
    if t.left.Node? {
      EntryIsNumbered(h, a.nodes, t.left, base);
    }
    if t.right.Node? {
      EntryIsNumbered(h, a.nodes, t.right, base + NodeCount(t.left));
    }
  }

  /** Once every cell is linked, the fragment of every subtree is wired to the node that follows. */
  lemma {:induction false} LinkedIsWired(h: Heap, a: Nfa, t: Tree, p: int, base: nat, next: int, k: nat)
    requires Analyzed(h, a.nodes, t, p, base, next, k) && t.Node? && base + NodeCount(t) <= |a.nodes|
    requires Typed(a) && forall c :: c in Cells(t) ==> Linked(h, a, c)
    ensures Wired(a, Numbers(h), t, k)
    decreases t
  {
    AnalyzedBelow(h, a.nodes, t, p, base, next, k);
    LinkedEntry(h, a, t, p, base, next, k);
    if t.left.Node? {
      LinkedIsWired(h, a, t.left, t.at, base, LeftNext(t, next), LeftFollow(t, base, k));
    }
    if t.right.Node? {
      LinkedIsWired(h, a, t.right, t.at, base + NodeCount(t.left), next, k);
    }
    WiredNode(h, a, t, p, base, next, k);
  }

  // ----- The passes on the compiler's tables -----

  lemma {:induction false} OrdersAreCells(t: Tree, c: nat)
    ensures c in PreOrder(t) <==> c in Cells(t)
    ensures c in PostOrder(t) <==> c in Cells(t)
  {
    if t.Node? {
      OrdersAreCells(t.left, c);
      OrdersAreCells(t.right, c);
    }
  }

  /** The pointers a pass follows at a cell are valid. */
  predicate ValidOrNull(h: Heap, p: int) {
    p == NULL_PTR || 0 <= p < |h|
  }

  /** The cell has the children that its kind of node needs. */
  predicate Complete(h: Heap, c: nat) {
    && c < |h|
    && ValidOrNull(h, h[c].left) && ValidOrNull(h, h[c].right)
    && (h[c].token.CONCAT? ==> h[c].left != NULL_PTR && h[c].right != NULL_PTR)
    && (h[c].token.OP_DUP_ASTERISK? ==> h[c].left != NULL_PTR)
  }

  lemma {:induction false} CellShape(h: Heap, t: Tree, p: int, c: nat)
    requires Holds(h, t, p) && Joined(t) && c in Cells(t)
    ensures Complete(h, c)
    decreases t
  {
    if c in Cells(t.left) {
      CellShape(h, t.left, t.at, c);
    } else if c in Cells(t.right) {
      CellShape(h, t.right, t.at, c);
    } else {
      assert Holds(h, t.left, t.at) && Holds(h, t.right, t.at);
    }
  }

  class NfaTables {
    var nodes: seq<Token>
    var nexts: seq<int>
    var edests: seq<seq<nat>>

    constructor ()
      ensures nodes == [] && nexts == [] && edests == []
    {
      nodes, nexts, edests := [], [], [];
    }

    function Table(syntax: Syntax): Nfa
      reads this
    {
      Nfa(syntax, nodes, nexts, edests)
    }

    /** re_dfa_add_node. */
    method AddNode(token: Token) returns (idx: nat)
      modifies this
      ensures idx == |old(nodes)| && nodes == old(nodes) + [token]
      ensures nexts == old(nexts) + [REG_MISSING] && edests == old(edests) + [[]]
    {
      idx := |nodes|;
      nodes, nexts, edests := nodes + [token], nexts + [REG_MISSING], edests + [[]];
    }

    /** The postorder walk with calc_first. */
    method CalcFirst(store: TreeStore, root: nat, ghost t: Tree)
      requires t.Node? && root == t.at && Stands(store.cells, t) && Joined(t)
      requires nodes == [] && nexts == [] && edests == []
      modifies this, store
      ensures (store.cells, nodes) == FoldFirst(old(store.cells), [], PostOrder(t))
      ensures |nexts| == |nodes| == |edests|
      ensures forall i :: 0 <= i < |nodes| ==> nexts[i] == REG_MISSING && edests[i] == []
    {
      var order := store.Postorder(root, t);
      ghost var h0 := store.cells;
      assert order[0..] == order;
      for k := 0 to |order|
        invariant FoldFirst(store.cells, nodes, order[k..]) == FoldFirst(h0, [], order)
        invariant |store.cells| == |h0| && forall c :: 0 <= c < |h0| ==> SameLinks(store.cells[c], h0[c])
        invariant |nexts| == |nodes| == |edests|
        invariant forall i :: 0 <= i < |nodes| ==> nexts[i] == REG_MISSING && edests[i] == []
      {
        var node := order[k];
        OrdersAreCells(t, node);
        CellShape(h0, t, NULL_PTR, node);
        assert order[k..][1..] == order[k + 1..];
        var h := store.cells;
        if h[node].token.CONCAT? {
          store.cells := h[node := h[node].(first := h[h[node].left].first, nodeIdx := h[h[node].left].nodeIdx)];
        } else {
          var idx := AddNode(h[node].token);
          store.cells := h[node := h[node].(first := node, nodeIdx := idx)];
        }
      }
    }

    /** The preorder walk with link_nfa_nodes. */
    method LinkNfaNodes(store: TreeStore, root: nat, ghost t: Tree, ghost syntax: Syntax)
      requires t.Node? && root == t.at && Stands(store.cells, t)
      requires Linkable(store.cells, Table(syntax), PreOrder(t))
      modifies this
      ensures Table(syntax) == FoldLink(store.cells, old(Table(syntax)), PreOrder(t))
    {
      var order := store.Preorder(root, t);
      var h := store.cells;
      ghost var a0 := Table(syntax);
      assert order[0..] == order;
      for k := 0 to |order|
        invariant FoldLink(h, Table(syntax), order[k..]) == FoldLink(h, a0, order)
        invariant nodes == a0.nodes && |nexts| == |nodes| == |edests|
      {
        assert order[k..][1..] == order[k + 1..];
        LinkNode(h, order[k], syntax);
      }
    }

    /** link_nfa_nodes at one node. */
    method LinkNode(h: Heap, node: nat, ghost syntax: Syntax)
      requires SameSizes(Table(syntax)) && TargetsExist(h, Table(syntax), node) && !h[node].token.SUBEXP?
      modifies this
      ensures Table(syntax) == LinkVisit(h, old(Table(syntax)), node)
      ensures nodes == old(nodes) && |nexts| == |nodes| == |edests|
    {
      var cell := h[node];
      match cell.token {
        case CONCAT =>
        case END_OF_RE =>
        case OP_DUP_ASTERISK => LinkPair(h, node, syntax);
        case OP_ALT => LinkPair(h, node, syntax);
        case OP_OPEN_SUBEXP(_) => edests := edests[cell.nodeIdx := [h[cell.next].nodeIdx]];
        case OP_CLOSE_SUBEXP(_) => edests := edests[cell.nodeIdx := [h[cell.next].nodeIdx]];
        case CHARACTER(_) => nexts := nexts[cell.nodeIdx := h[cell.next].nodeIdx];
        case SIMPLE_BRACKET(_) => nexts := nexts[cell.nodeIdx := h[cell.next].nodeIdx];
        case OP_PERIOD => nexts := nexts[cell.nodeIdx := h[cell.next].nodeIdx];
      }
    }

    method LinkPair(h: Heap, node: nat, ghost syntax: Syntax)
      requires SameSizes(Table(syntax)) && TargetsExist(h, Table(syntax), node)
      requires h[node].token.OP_DUP_ASTERISK? || h[node].token.OP_ALT?
      modifies this
      ensures Table(syntax) == LinkVisit(h, old(Table(syntax)), node)
      ensures nodes == old(nodes) && |nexts| == |nodes| == |edests|
    {
      var cell := h[node];
      var left := if cell.left != NULL_PTR then h[h[cell.left].first].nodeIdx else h[cell.next].nodeIdx;
      var right := if cell.right != NULL_PTR then h[h[cell.right].first].nodeIdx else h[cell.next].nodeIdx;
      edests := edests[cell.nodeIdx := Pair(left, right)];
    }
  }

  lemma FoldNextStep(h: Heap, order: seq<nat>, k: nat)
    requires k < |order|
    ensures FoldNext(h, order[k..]) == FoldNext(NextVisit(h, order[k]), order[k + 1..])
  {
    assert order[k..][1..] == order[k + 1..];
  }

  predicate SameTrees(h: Heap, h0: Heap) {
    |h| == |h0| && forall c :: 0 <= c < |h0| ==> SameLinks(h[c], h0[c])
  }

  lemma SameTreesStep(h0: Heap, h: Heap, h': Heap)
    requires SameTrees(h, h0) && SameTrees(h', h)
    ensures SameTrees(h', h0)
  {
  }

  lemma CellsAreComplete(h: Heap, t: Tree)
    requires Stands(h, t) && Joined(t)
    ensures forall c :: c in PreOrder(t) ==> Complete(h, c)
  {
    forall c | c in PreOrder(t) ensures Complete(h, c) {
      OrdersAreCells(t, c);
      CellShape(h, t, NULL_PTR, c);
    }
  }

  lemma StaysComplete(h0: Heap, h: Heap, c: nat)
    requires Complete(h0, c) && SameTrees(h, h0)
    ensures Complete(h, c)
  {
  }

  /** The preorder walk with calc_next. */
  method CalcNext(store: TreeStore, root: nat, ghost t: Tree)
    requires t.Node? && root == t.at && Stands(store.cells, t) && Joined(t)
    modifies store
    ensures store.cells == FoldNext(old(store.cells), PreOrder(t))
  {
    CellsAreComplete(store.cells, t);
    var order := store.Preorder(root, t);
    NextNodes(store, order);
  }

  /** calc_next at one node after the other. */
  method NextNodes(store: TreeStore, order: seq<nat>)
    requires forall c :: c in order ==> Complete(store.cells, c)
    modifies store
    ensures store.cells == FoldNext(old(store.cells), order)
  {
    hide NextVisit, FoldNext, Complete, SameTrees;
    ghost var h0 := store.cells;
    assert order[0..] == order;
    SameTreesSelf(h0);
    for k := 0 to |order|
      invariant FoldNext(store.cells, order[k..]) == FoldNext(h0, order)
      invariant SameTrees(store.cells, h0)
    {
      ghost var h := store.cells;
      assert order[k] in order;
      StaysComplete(h0, h, order[k]);
      FoldNextStep(h, order, k);
      NextNode(store, order[k]);
      SameTreesStep(h0, h, store.cells);
    }
    FoldNextEnds(store.cells, order);
  }

  lemma SameTreesSelf(h: Heap)
    ensures SameTrees(h, h)
  {
  }

  lemma FoldNextEnds(h: Heap, order: seq<nat>)
    ensures FoldNext(h, order[|order|..]) == h
  {
  }

  /** calc_next at one node. */
  method NextNode(store: TreeStore, node: nat)
    requires Complete(store.cells, node)
    modifies store
    ensures store.cells == NextVisit(old(store.cells), node)
    ensures SameTrees(store.cells, old(store.cells))
  {
    var h := store.cells;
    var left, right := h[node].left, h[node].right;
    match h[node].token {
      case OP_DUP_ASTERISK => store.cells := h[left := h[left].(next := node)];
      case CONCAT =>
        store.cells := h[left := h[left].(next := h[right].first)];
        store.cells := store.cells[right := store.cells[right].(next := h[node].next)];
      case _ =>
        if left != NULL_PTR {
          store.cells := h[left := h[left].(next := h[node].next)];
        }
        if right != NULL_PTR {
          store.cells := store.cells[right := store.cells[right].(next := h[node].next)];
        }
    }
  }

  // ----- The whole analysis -----

  /** The tree the parser returns for the expression `re`: `re` in front of the end node, or the
      end node alone when there is nothing to match. */
  ghost predicate ParsedAs(t: Tree, re: Tree) {
    && t.Node?
    && if re.Null? then IsLeaf(t, END_OF_RE)
       else t.token == CONCAT && t.left == re && IsLeaf(t.right, END_OF_RE)
  }

  ghost function EndCell(t: Tree): nat
    requires t.Node?
  {
    if t.token.CONCAT? && t.right.Node? then t.right.at else t.at
  }

  /** The automaton spells the language of re, from node `entry` to its only end node. */
  ghost predicate Spells(a: Nfa, entry: nat, end: nat, re: Tree) {
    && a.Valid() && entry < |a.nodes| && end < |a.nodes|
    && (forall i :: 0 <= i < |a.nodes| ==> (a.nodes[i].END_OF_RE? <==> i == end))
    && (forall i :: 0 <= i < |a.nodes| ==> a.nodes[i].IsByteNode() || a.nodes[i].IsEpsilonNode() || i == end)
    && forall w :: a.Reach(entry, w, end) <==> Lang(a.syntax, re, w)
  }

  ghost predicate TwoPassesDone(h: Heap, nodes: seq<Token>, t: Tree, re: Tree) {
    && ParsedAs(t, re) && Ready(re) && Stands(h, t)
    && FirstDone(h, nodes, t, 0) && NextDone(h, t, h[t.at].next) && |nodes| == NodeCount(t)
  }

  lemma {:induction false} ReadyIsJoined(t: Tree)
    requires WellFormed(t)
    ensures Joined(t)
  {
    if t.Node? {
      ReadyIsJoined(t.left);
      ReadyIsJoined(t.right);
    }
  }

  lemma {:induction false} RootAnalyzed(h: Heap, nodes: seq<Token>, t: Tree, re: Tree)
    requires TwoPassesDone(h, nodes, t, re)
    ensures re.Node? ==> Analyzed(h, nodes, re, t.at, 0, EndCell(t), NodeCount(re))
    ensures re.Node? ==> h[t.at].nodeIdx == Entry(re, 0) == Numbers(h)[re.at]
    ensures |nodes| == NodeCount(re) + 1 && h[EndCell(t)].nodeIdx == NodeCount(re)
    ensures nodes[NodeCount(re)] == END_OF_RE && h[EndCell(t)].token == END_OF_RE
    ensures Cells(t) == if re.Null? then {t.at} else {t.at, EndCell(t)} + Cells(re)
  {
    ReadyIsJoined(re);
    var end := if re.Null? then t else t.right;
    assert NodeCount(end) == 1 && EndCell(t) == end.at && Cells(end) == {end.at};
    if re.Node? {
      assert Holds(h, end, t.at) && FirstDone(h, nodes, end, NodeCount(re));
      assert Entry(end, NodeCount(re)) == NodeCount(re);
      assert NodeCount(t) == NodeCount(re) + NodeCount(end);
    }
  }

  /** Every cell may be linked, in the order of the walk. */
  lemma {:induction false} RootLinkable(h: Heap, a: Nfa, t: Tree, re: Tree)
    requires TwoPassesDone(h, a.nodes, t, re) && Typed(a)
    ensures Linkable(h, a, PreOrder(t))
  {
    RootAnalyzed(h, a.nodes, t, re);
    forall c | c in PreOrder(t) ensures TargetsExist(h, a, c) && !h[c].token.SUBEXP? {
      OrdersAreCells(t, c);
      if c in Cells(re) {
        CellsTarget(h, a, re, t.at, 0, EndCell(t), NodeCount(re), c);
      }
    }
    forall c, d | c in PreOrder(t) && d in PreOrder(t) && !h[c].token.CONCAT? && !h[d].token.CONCAT? && c != d
      ensures h[c].nodeIdx != h[d].nodeIdx
    {
      OrdersAreCells(t, c);
      OrdersAreCells(t, d);
      if h[c].nodeIdx == h[d].nodeIdx {
        NumbersDiffer(h, a.nodes, t, NULL_PTR, 0, c, d);
      }
    }
  }

  lemma {:induction false} RootNode(h: Heap, a: Nfa, t: Tree, re: Tree, i: nat)
    requires TwoPassesDone(h, a.nodes, t, re) && Typed(a) && forall c :: c in Cells(t) ==> Linked(h, a, c)
    requires i < NodeCount(re)
    ensures i < |a.nodes| && !a.nodes[i].END_OF_RE? && (a.nodes[i].IsByteNode() || a.nodes[i].IsEpsilonNode())
    ensures |a.nexts| == |a.nodes| && (a.nodes[i].IsByteNode() ==> 0 <= a.nexts[i])
  {
    RootAnalyzed(h, a.nodes, t, re);
    var c := NumberHasCell(h, a.nodes, re, t.at, 0, i);
    OwnNumbers(h, a.nodes, re, t.at, 0, c);
    CellsTarget(h, a, re, t.at, 0, EndCell(t), NodeCount(re), c);
    NoEndInside(h, re, t.at, c);
  }

  lemma {:induction false} RootValid(h: Heap, a: Nfa, t: Tree, re: Tree)
    requires TwoPassesDone(h, a.nodes, t, re) && Typed(a) && forall c :: c in Cells(t) ==> Linked(h, a, c)
    ensures a.Valid()
    ensures forall i :: 0 <= i < |a.nodes| ==> (a.nodes[i].END_OF_RE? <==> i == NodeCount(re))
    ensures forall i :: 0 <= i < |a.nodes| ==>
              a.nodes[i].IsByteNode() || a.nodes[i].IsEpsilonNode() || i == NodeCount(re)
  {
    RootAnalyzed(h, a.nodes, t, re);
    forall i | 0 <= i < NodeCount(re)
      ensures !a.nodes[i].END_OF_RE? && (a.nodes[i].IsByteNode() || a.nodes[i].IsEpsilonNode())
      ensures a.nodes[i].IsByteNode() ==> 0 <= a.nexts[i]
    {
      RootNode(h, a, t, re, i);
    }
    forall p, q | 0 <= p < |a.nodes| && q in a.edests[p] ensures q < |a.nodes| {
    }
    forall p | 0 <= p < |a.nodes| && a.edests[p] != [] ensures a.nodes[p].IsEpsilonNode() {
      assert a.edests[p][0] in a.edests[p];
    }
  }

  lemma {:induction false} NoEndInside(h: Heap, t: Tree, p: int, c: nat)
    requires Holds(h, t, p) && WellFormed(t) && c in Cells(t)
    ensures c < |h| && !h[c].token.END_OF_RE?
    decreases t
  {
    if c in Cells(t.left) {
      NoEndInside(h, t.left, t.at, c);
    } else if c in Cells(t.right) {
      NoEndInside(h, t.right, t.at, c);
    }
  }

  /** The linked tables spell the language of the expression. */
  lemma {:induction false} LinkedTablesSpell(h: Heap, a: Nfa, t: Tree, re: Tree)
    requires TwoPassesDone(h, a.nodes, t, re) && Typed(a) && forall c :: c in Cells(t) ==> Linked(h, a, c)
    ensures Spells(a, h[t.at].nodeIdx, NodeCount(re), re)
  {
    RootAnalyzed(h, a.nodes, t, re);
    RootValid(h, a, t, re);
    var entry, end := h[t.at].nodeIdx, NodeCount(re);
    if re.Node? {
      EntryIsNumbered(h, a.nodes, re, 0);
    }
    forall w ensures a.Reach(entry, w, end) <==> Lang(a.syntax, re, w) {
      if re.Null? {
        EndReachesItself(a, end, w);
      } else {
        LinkedIsWired(h, a, re, t.at, 0, EndCell(t), end);
        WiredAutomatonSpellsTree(a, Numbers(h), re, end, w);
      }
    }
  }

  lemma EndReachesItself(a: Nfa, end: nat, w: seq<byte>)
    requires a.Valid() && end < |a.nodes| && a.nodes[end].END_OF_RE?
    ensures a.Reach(end, w, end) <==> w == []
  {
    assert a.Path(0, end, [], end);
    if a.Reach(end, w, end) {
      var n: nat :| a.Path(n, end, w, end);
      assert n == 0;
    }
  }

  lemma OptimizedLeaf(t: Tree)
    requires t.Node? && t.left.Null? && t.right.Null?
    ensures Optimized(t) == t
  {
    assert Optimized(Null) == Null;
  }

  lemma LoweredLeaf(noSub: bool, t: Tree, u: Tree)
    requires t.Node? && t.left.Null? && t.right.Null? && !t.token.SUBEXP? && Lowered(noSub, t, u)
    ensures IsLeaf(u, t.token)
  {
    assert Lowered(noSub, Null, u.left) && Lowered(noSub, Null, u.right);
  }

  lemma LoweredRoot(noSub: bool, t: Tree, re: Tree, r: Tree)
    requires ParsedAs(t, re) && WellFormed(re) && Half(noSub, Optimized(t), r)
    ensures var re' := if re.Null? then Null else r.left;
            ParsedAs(r, re') && Ready(re') && forall syntax :: SameLang(syntax, re, re')
  {
    OptimizedLeaf(if re.Null? then t else t.right);
    if re.Node? {
      LoweredLeaf(noSub, t.right, r.right);
      OptimizedWellFormed(re);
      LoweredReady(noSub, Optimized(re), r.left);
      assert Optimized(t).left == Optimized(re) && IsLeaf(Optimized(t).right, END_OF_RE);
      forall syntax ensures SameLang(syntax, re, r.left) {
        OptimizedSpells(syntax, re);
        LoweredSpells(syntax, noSub, Optimized(re), r.left);
      }
    }
  }

  lemma {:induction false} TwoPasses(h: Heap, t: Tree, re: Tree)
    requires ParsedAs(t, re) && Ready(re) && Stands(h, t) && Joined(t)
    ensures var (h1, nodes) := FoldFirst(h, [], PostOrder(t));
            Stands(h1, t) && TwoPassesDone(FoldNext(h1, PreOrder(t)), nodes, t, re)
  {
    FirstPassNumbers(h, [], t, NULL_PTR);
    var (h1, nodes) := FirstPass(h, [], t);
    HoldsFrame(h, h1, t, NULL_PTR);
    NextPassLinks(h1, nodes, t, NULL_PTR, 0);
    var h2 := NextPass(h1, t);
    HoldsFrame(h1, h2, t, NULL_PTR);
    FirstDoneFrame(h1, nodes, h2, nodes, t, 0);
  }

  lemma RootJoined(t: Tree, re: Tree)
    requires ParsedAs(t, re) && Ready(re)
    ensures Joined(t)
  {
    ReadyIsJoined(re);
  }

  // ----- The byte nodes of the automaton -----

  lemma RangesOfTokens(nodes: seq<Token>, base: nat, mid: nat, top: nat, token: Token)
    requires base <= mid <= top <= |nodes|
    ensures TokenCount(nodes[base..top], token)
         == TokenCount(nodes[base..mid], token) + TokenCount(nodes[mid..top], token)
    ensures top < |nodes| ==>
              TokenCount(nodes[base..top + 1], token)
              == TokenCount(nodes[base..top], token) + if nodes[top] == token then 1 else 0
  {
    hide TokenCount;
    TokenCountAppend(nodes[base..mid], nodes[mid..top], token);
    assert nodes[base..top] == nodes[base..mid] + nodes[mid..top];
    if top < |nodes| {
      TokenCountLast(nodes[base..top], nodes[top], token);
      assert nodes[base..top + 1] == nodes[base..top] + [nodes[top]];
    }
  }

  lemma TokenCountLast(nodes: seq<Token>, last: Token, token: Token)
    ensures TokenCount(nodes + [last], token) == TokenCount(nodes, token) + if last == token then 1 else 0
  {
    assert (nodes + [last])[..|nodes|] == nodes;
  }

  /** The nodes numbered from a tree are the nodes of the tree, apart from its concatenations. */
  lemma {:induction false} NumberedTokens(h: Heap, nodes: seq<Token>, t: Tree, base: nat, token: Token)
    requires FirstDone(h, nodes, t, base) && base + NodeCount(t) <= |nodes| && !token.CONCAT?
    ensures TokenCount(nodes[base..base + NodeCount(t)], token) == Occurrences(t, token)
  {
    hide TokenCount, FirstDone;
    TokenCountNone(token);
    if t.Node? {
      var mid := base + NodeCount(t.left);
      var top := mid + NodeCount(t.right);
      FirstDoneBelow(h, nodes, t, base);
      NumberedTokens(h, nodes, t.left, base, token);
      NumberedTokens(h, nodes, t.right, mid, token);
      RangesOfTokens(nodes, base, mid, top, token);
    } else {
      assert nodes[base..base] == [];
    }
  }

  lemma TokenCountNone(token: Token)
    ensures TokenCount([], token) == 0
  {
  }

  lemma FirstDoneBelow(h: Heap, nodes: seq<Token>, t: Tree, base: nat)
    requires FirstDone(h, nodes, t, base) && t.Node?
    ensures FirstDone(h, nodes, t.left, base) && FirstDone(h, nodes, t.right, base + NodeCount(t.left))
    ensures !t.token.CONCAT? ==>
              var own := base + NodeCount(t.left) + NodeCount(t.right);
              own < |nodes| && nodes[own] == t.token
  {
  }

  lemma {:induction false} RootTokens(h: Heap, nodes: seq<Token>, t: Tree, re: Tree, token: Token)
    requires TwoPassesDone(h, nodes, t, re) && token.IsByteNode()
    ensures TokenCount(nodes, token) == Occurrences(re, token)
  {
    RootAnalyzed(h, nodes, t, re);
    NumberedTokens(h, nodes, re, 0, token);
    assert nodes[..|nodes| - 1] == nodes[0..NodeCount(re)];
  }

  lemma PassesKeepLeaves(noSub: bool, t: Tree, re: Tree, r: Tree, token: Token)
    requires ParsedAs(t, re) && WellFormed(re) && Half(noSub, Optimized(t), r) && token.IsByteNode()
    ensures Occurrences(if re.Null? then Null else r.left, token) == Occurrences(re, token)
  {
    if re.Node? {
      OptimizedKeepsOthers(re, token);
      OptimizedWellFormed(re);
      assert Optimized(t).left == Optimized(re);
      LoweredLeaves(noSub, Optimized(re), r.left, token);
    }
  }

  /** The automaton has exactly the byte nodes of the expression. */
  ghost predicate SameLeaves(nodes: seq<Token>, re: Tree) {
    forall token: Token :: token.IsByteNode() ==> TokenCount(nodes, token) == Occurrences(re, token)
  }

  lemma LeavesKept(noSub: bool, h: Heap, nodes: seq<Token>, t: Tree, re: Tree, r: Tree)
    requires ParsedAs(t, re) && WellFormed(re) && Half(noSub, Optimized(t), r)
    requires TwoPassesDone(h, nodes, r, if re.Null? then Null else r.left)
    ensures SameLeaves(nodes, re)
  {
    forall token: Token | token.IsByteNode() ensures TokenCount(nodes, token) == Occurrences(re, token) {
      PassesKeepLeaves(noSub, t, re, r, token);
      RootTokens(h, nodes, r, if re.Null? then Null else r.left, token);
    }
  }

  // ----- The leaves in the automaton -----

  /** The nodes of the automaton that are no operators. */
  ghost function LeafNodes(nodes: seq<Token>): seq<Token> {
    if nodes == [] then []
    else (if nodes[0].IsOperator() then [] else [nodes[0]]) + LeafNodes(nodes[1..])
  }

  lemma LeafNodesFirst(x: Token, rest: seq<Token>)
    ensures LeafNodes([x] + rest) == if x.IsOperator() then LeafNodes(rest) else [x] + LeafNodes(rest)
  {
    assert ([x] + rest)[1..] == rest;
  }

  lemma {:induction false} LeafNodesAppend(s: seq<Token>, t: seq<Token>)
    ensures LeafNodes(s + t) == LeafNodes(s) + LeafNodes(t)
  {
    if s == [] {
      assert s + t == t;
    } else {
      hide LeafNodes;
      var x, rest := s[0], s[1..];
      LeafNodesAppend(rest, t);
      LeafNodesFirst(x, rest);
      LeafNodesFirst(x, rest + t);
      assert s == [x] + rest && s + t == [x] + (rest + t);
    }
  }

  lemma LeafNodesLast(nodes: seq<Token>, x: Token)
    ensures LeafNodes(nodes + [x]) == LeafNodes(nodes) + if x.IsOperator() then [] else [x]
  {
    LeafNodesAppend(nodes, [x]);
    assert LeafNodes([x][1..]) == [];
  }

  lemma RangesOfLeaves(nodes: seq<Token>, base: nat, mid: nat, top: nat)
    requires base <= mid <= top <= |nodes|
    ensures LeafNodes(nodes[base..top]) == LeafNodes(nodes[base..mid]) + LeafNodes(nodes[mid..top])
    ensures top < |nodes| ==>
              LeafNodes(nodes[base..top + 1])
              == LeafNodes(nodes[base..top]) + if nodes[top].IsOperator() then [] else [nodes[top]]
  {
    hide LeafNodes;
    LeafNodesAppend(nodes[base..mid], nodes[mid..top]);
    assert nodes[base..top] == nodes[base..mid] + nodes[mid..top];
    if top < |nodes| {
      LeafNodesLast(nodes[base..top], nodes[top]);
      assert nodes[base..top + 1] == nodes[base..top] + [nodes[top]];
    }
  }

  lemma FrontierParts(t: Tree)
    requires t.Node? && WellFormed(t)
    ensures WellFormed(t.left) && WellFormed(t.right)
    ensures Frontier(t) == Frontier(t.left) + Frontier(t.right) + if t.token.IsOperator() then [] else [t.token]
  {
  }

  /** Postorder keeps the leaves in their order. */
  lemma {:induction false} NumberedLeaves(h: Heap, nodes: seq<Token>, t: Tree, base: nat)
    requires FirstDone(h, nodes, t, base) && base + NodeCount(t) <= |nodes| && WellFormed(t)
    ensures LeafNodes(nodes[base..base + NodeCount(t)]) == Frontier(t)
  {
    hide LeafNodes, FirstDone, WellFormed, Frontier;
    if t.Node? {
      var mid := base + NodeCount(t.left);
      var top := mid + NodeCount(t.right);
      FirstDoneBelow(h, nodes, t, base);
      FrontierParts(t);
      NumberedLeaves(h, nodes, t.left, base);
      NumberedLeaves(h, nodes, t.right, mid);
      RangesOfLeaves(nodes, base, mid, top);
    } else {
      assert nodes[base..base] == [];
      NoLeaves();
    }
  }

  lemma NoLeaves()
    ensures LeafNodes([]) == [] == Frontier(Null)
  {
  }

  /** The leaves of the automaton are those of the expression, in their order, between the markers
      of the subexpressions that optimizing leaves, and the markers are balanced. */
  ghost predicate KeepsFrontier(noSub: bool, nodes: seq<Token>, re: Tree) {
    && LeafNodes(nodes) == Bracketed(noSub, Optimized(re)) + [END_OF_RE]
    && (NoMarkers(re) ==> Balanced(LeafNodes(nodes), []) && Erase(LeafNodes(nodes)) == Frontier(re) + [END_OF_RE])
  }

  lemma FrontierKept(noSub: bool, h: Heap, nodes: seq<Token>, t: Tree, re: Tree, r: Tree)
    requires ParsedAs(t, re) && WellFormed(re) && Half(noSub, Optimized(t), r)
    requires TwoPassesDone(h, nodes, r, if re.Null? then Null else r.left)
    ensures KeepsFrontier(noSub, nodes, re)
  {
    var re' := if re.Null? then Null else r.left;
    RootAnalyzed(h, nodes, r, re');
    NumberedLeaves(h, nodes, re', 0);
    OptimizedWellFormed(re);
    if re.Node? {
      assert Optimized(t).left == Optimized(re);
      LoweredFrontier(noSub, Optimized(re), re');
    }
    hide LeafNodes, Bracketed, Balanced, Erase, Half, TwoPassesDone;
    LeafNodesLast(nodes[..NodeCount(re')], END_OF_RE);
    assert nodes == nodes[..NodeCount(re')] + [END_OF_RE];
    if NoMarkers(re) {
      OptimizedNoMarkers(re);
      MarkersPlaced(noSub, re);
    }
  }

  lemma MarkersPlaced(noSub: bool, re: Tree)
    requires WellFormed(re) && NoMarkers(re) && WellFormed(Optimized(re)) && NoMarkers(Optimized(re))
    ensures var leaves := Bracketed(noSub, Optimized(re)) + [END_OF_RE];
            Balanced(leaves, []) && Erase(leaves) == Frontier(re) + [END_OF_RE]
  {
    OptimizedFrontier(re);
    BracketedErased(noSub, Optimized(re));
    EraseAppend(Bracketed(noSub, Optimized(re)), [END_OF_RE]);
    BracketedBalanced(noSub, Optimized(re), [END_OF_RE], []);
    OtherBalanced(END_OF_RE, [], []);
    EraseFirst(END_OF_RE, []);
    assert [END_OF_RE] + [] == [END_OF_RE];
  }

  /** analyze, up to the closures: whatever well-formed expression the parser built, the tables
      hold an automaton that spells exactly its language. */
  method Analyze(store: TreeStore, tables: NfaTables, root: nat, noSub: bool, syntax: Syntax, ghost t: Tree,
                 ghost re: Tree)
      returns (entry: nat, ghost end: nat)
    requires ParsedAs(t, re) && WellFormed(re) && root == t.at && Stands(store.cells, t)
    requires tables.nodes == [] && tables.nexts == [] && tables.edests == []
    modifies store, tables
    ensures Spells(tables.Table(syntax), entry, end, re)
    ensures SameLeaves(tables.nodes, re)
    ensures KeepsFrontier(noSub, tables.nodes, re)
  {
    OptimizeSubexps(store, root, t);
    ghost var r := LowerSubexps(store, noSub, root, Optimized(t));
    LoweredRoot(noSub, t, re, r);
    ghost var re' := if re.Null? then Null else r.left;
    RootJoined(r, re');
    ghost var h := store.cells;
    TwoPasses(h, r, re');
    tables.CalcFirst(store, root, r);
    CalcNext(store, root, r);
    ghost var a := tables.Table(syntax);
    RootLinkable(store.cells, a, r, re');
    LeavesKept(noSub, store.cells, tables.nodes, t, re, r);
    FrontierKept(noSub, store.cells, tables.nodes, t, re, r);
    tables.LinkNfaNodes(store, root, r, syntax);
    FoldLinkFills(store.cells, a, PreOrder(r), {}, PreOrder(r));
    forall c | c in Cells(r) ensures Linked(store.cells, tables.Table(syntax), c) {
      OrdersAreCells(r, c);
    }
    LinkedTablesSpell(store.cells, tables.Table(syntax), r, re');
    entry, end := store.cells[root].nodeIdx, NodeCount(re');
  }
}
