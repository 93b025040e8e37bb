/** Repetition operators: the trees built for e*, e+, e? and e{n,m} spell the powers of e. */
module Repetition {
  import opened RegexLanguage
  import opened TreeStorage

  const RE_DUP_MAX := 0x7fff

  /** w is made of k words of t. */
  ghost predicate Power(syntax: Syntax, t: Tree, k: nat, w: seq<byte>) {
    if k == 0 then w == []
    else exists i | 0 <= i <= |w| :: Lang(syntax, t, w[..i]) && Power(syntax, t, k - 1, w[i..])
  }

  /** The number of repetitions allowed by {start,end}; no upper bound when end is missing. */
  predicate InRange(start: nat, end: int, k: nat) {
    start <= k && (end == REG_MISSING || k <= end)
  }

  ghost predicate Repeats(syntax: Syntax, t: Tree, start: nat, end: int, w: seq<byte>) {
    exists k: nat :: InRange(start, end, k) && Power(syntax, t, k, w)
  }

  /** The tree u spells exactly the repetitions of e between start and end. */
  ghost predicate SpellsRepeats(u: Tree, e: Tree, start: nat, end: int) {
    forall syntax, w :: Lang(syntax, u, w) <==> Repeats(syntax, e, start, end, w)
  }

  ghost predicate Equivalent(t: Tree, u: Tree) {
    forall syntax, w :: Lang(syntax, t, w) <==> Lang(syntax, u, w)
  }

  lemma PowerIntro(syntax: Syntax, t: Tree, u: seq<byte>, k: nat, v: seq<byte>)
    requires Lang(syntax, t, u) && Power(syntax, t, k, v)
    ensures Power(syntax, t, k + 1, u + v)
  {
    assert (u + v)[..|u|] == u && (u + v)[|u|..] == v;
  }

  lemma {:induction false} PowerAppend(syntax: Syntax, t: Tree, j: nat, u: seq<byte>, k: nat, v: seq<byte>)
    requires Power(syntax, t, j, u) && Power(syntax, t, k, v)
    ensures Power(syntax, t, j + k, u + v)
    decreases j
  {
    hide Lang;
    if j == 0 {
      assert u + v == v;
    } else {
      var i :| 0 <= i <= |u| && Lang(syntax, t, u[..i]) && Power(syntax, t, j - 1, u[i..]);
      PowerAppend(syntax, t, j - 1, u[i..], k, v);
      var a, b := u[..i], u[i..];
      PowerIntro(syntax, t, a, j - 1 + k, b + v);
      assert u + v == a + (b + v);
    }
  }

  lemma {:induction false} PowerSplit(syntax: Syntax, t: Tree, j: nat, k: nat, w: seq<byte>) returns (i: nat)
    requires Power(syntax, t, j + k, w)
    ensures i <= |w| && Power(syntax, t, j, w[..i]) && Power(syntax, t, k, w[i..])
    decreases j
  {
    hide Lang;
    if j == 0 {
      i := 0;
      assert w[0..] == w;
    } else {
      var a :| 0 <= a <= |w| && Lang(syntax, t, w[..a]) && Power(syntax, t, j + k - 1, w[a..]);
      var b := PowerSplit(syntax, t, j - 1, k, w[a..]);
      i := a + b;
      assert w[..i][..a] == w[..a] && w[..i][a..] == w[a..][..b] && w[a..][b..] == w[i..];
    }
  }

  lemma PowerOne(syntax: Syntax, t: Tree, w: seq<byte>)
    ensures Power(syntax, t, 1, w) <==> Lang(syntax, t, w)
  {
    assert w[..|w|] == w && w[|w|..] == [];
    if Power(syntax, t, 1, w) {
      var i :| 0 <= i <= |w| && Lang(syntax, t, w[..i]) && Power(syntax, t, 0, w[i..]);
      assert i == |w|;
    }
    assert Lang(syntax, t, w) ==> Power(syntax, t, 0, w[|w|..]);
  }

  lemma PowerNonEmpty(syntax: Syntax, t: Tree, k: nat, w: seq<byte>)
    requires Power(syntax, t, k, w) && w != []
    ensures k > 0
  {
  }

  // ----- What each constructor does to repetitions -----

  lemma OnceIsItself(e: Tree)
    ensures SpellsRepeats(e, e, 1, 1)
  {
    forall syntax, w ensures Lang(syntax, e, w) <==> Repeats(syntax, e, 1, 1, w) {
      PowerOne(syntax, e, w);
      assert InRange(1, 1, 1);
    }
  }

  /** e* spells every power of e. */
  lemma StarSpells(t: Tree, e: Tree)
    requires t.Node? && t.token.OP_DUP_ASTERISK? && Equivalent(t.left, e)
    ensures SpellsRepeats(t, e, 0, REG_MISSING)
  {
    forall syntax, w ensures Lang(syntax, t, w) <==> Repeats(syntax, e, 0, REG_MISSING, w) {
      if Lang(syntax, t, w) {
        var k := StarToPower(syntax, t, e, w);
        assert InRange(0, REG_MISSING, k);
      }
      if Repeats(syntax, e, 0, REG_MISSING, w) {
        var k: nat :| InRange(0, REG_MISSING, k) && Power(syntax, e, k, w);
        PowerToStar(syntax, t, e, k, w);
      }
    }
  }

  lemma {:induction false} StarToPower(syntax: Syntax, t: Tree, e: Tree, w: seq<byte>) returns (k: nat)
    requires t.Node? && t.token.OP_DUP_ASTERISK? && Equivalent(t.left, e) && Lang(syntax, t, w)
    ensures Power(syntax, e, k, w)
    decreases |w|
  {
    if w == [] {
      k := 0;
    } else {
      var i :| 0 < i <= |w| && Lang(syntax, t.left, w[..i]) && Lang(syntax, t, w[i..]);
      k := StarToPower(syntax, t, e, w[i..]);
      k := k + 1;
      assert Lang(syntax, e, w[..i]);
    }
  }

  lemma {:induction false} PowerToStar(syntax: Syntax, t: Tree, e: Tree, k: nat, w: seq<byte>)
    requires t.Node? && t.token.OP_DUP_ASTERISK? && Equivalent(t.left, e) && Power(syntax, e, k, w)
    ensures Lang(syntax, t, w)
    decreases k
  {
    if k > 0 {
      var i :| 0 <= i <= |w| && Lang(syntax, e, w[..i]) && Power(syntax, e, k - 1, w[i..]);
      PowerToStar(syntax, t, e, k - 1, w[i..]);
      assert Lang(syntax, t.left, w[..i]);
      StarIntro(syntax, t, w[..i], w[i..]);
      assert w == w[..i] + w[i..];
    }
  }

  /** Concatenation adds the bounds. */
  lemma ConcatSpells(t: Tree, e: Tree, s1: nat, e1: int, s2: nat, e2: int)
    requires t.Node? && t.token.CONCAT?
    requires SpellsRepeats(t.left, e, s1, e1) && SpellsRepeats(t.right, e, s2, e2)
    requires s1 <= e1 && (e2 == REG_MISSING || s2 <= e2)
    ensures SpellsRepeats(t, e, s1 + s2, if e2 == REG_MISSING then REG_MISSING else e1 + e2)
  {
    var end := if e2 == REG_MISSING then REG_MISSING else e1 + e2;
    forall syntax, w ensures Lang(syntax, t, w) <==> Repeats(syntax, e, s1 + s2, end, w) {
      if Lang(syntax, t, w) {
        var i :| 0 <= i <= |w| && Lang(syntax, t.left, w[..i]) && Lang(syntax, t.right, w[i..]);
        assert Repeats(syntax, e, s1, e1, w[..i]) && Repeats(syntax, e, s2, e2, w[i..]);
        RepeatsJoin(syntax, e, s1, e1, w[..i], s2, e2, w[i..]);
        assert w == w[..i] + w[i..];
      }
      if Repeats(syntax, e, s1 + s2, end, w) {
        var i := RepeatsCut(syntax, e, s1, e1, s2, e2, w);
        assert Lang(syntax, t.left, w[..i]) && Lang(syntax, t.right, w[i..]);
      }
    }
  }

  lemma RepeatsJoin(syntax: Syntax, e: Tree, s1: nat, e1: int, u: seq<byte>, s2: nat, e2: int, v: seq<byte>)
    requires s1 <= e1 && Repeats(syntax, e, s1, e1, u) && Repeats(syntax, e, s2, e2, v)
    ensures Repeats(syntax, e, s1 + s2, if e2 == REG_MISSING then REG_MISSING else e1 + e2, u + v)
  {
    var j: nat :| InRange(s1, e1, j) && Power(syntax, e, j, u);
    var k: nat :| InRange(s2, e2, k) && Power(syntax, e, k, v);
    PowerAppend(syntax, e, j, u, k, v);
    assert InRange(s1 + s2, if e2 == REG_MISSING then REG_MISSING else e1 + e2, j + k);
  }

  lemma RepeatsCut(syntax: Syntax, e: Tree, s1: nat, e1: int, s2: nat, e2: int, w: seq<byte>) returns (i: nat)
    requires s1 <= e1 && (e2 == REG_MISSING || s2 <= e2)
    requires Repeats(syntax, e, s1 + s2, if e2 == REG_MISSING then REG_MISSING else e1 + e2, w)
    ensures i <= |w| && Repeats(syntax, e, s1, e1, w[..i]) && Repeats(syntax, e, s2, e2, w[i..])
  {
    var end := if e2 == REG_MISSING then REG_MISSING else e1 + e2;
    var n: nat :| InRange(s1 + s2, end, n) && Power(syntax, e, n, w);
    var j := if n - s2 <= e1 then n - s2 else e1;
    i := PowerSplit(syntax, e, j, n - j, w);
    assert InRange(s1, e1, j) && InRange(s2, e2, n - j);
  }

  /** An alternative with a missing branch makes the whole optional. */
  lemma OptionSpells(t: Tree, e: Tree, start: nat, end: nat)
    requires t.Node? && t.token.OP_ALT? && t.right.Null?
    requires SpellsRepeats(t.left, e, start, end) && start <= 1
    ensures SpellsRepeats(t, e, 0, end)
  {
    forall syntax, w ensures Lang(syntax, t, w) <==> Repeats(syntax, e, 0, end, w) {
      assert InRange(0, end, 0) && (Power(syntax, e, 0, w) <==> w == []);
      if Repeats(syntax, e, 0, end, w) && w != [] {
        var k: nat :| InRange(0, end, k) && Power(syntax, e, k, w);
        PowerNonEmpty(syntax, e, k, w);
        assert InRange(start, end, k);
        assert Repeats(syntax, e, start, end, w);
      }
      if Lang(syntax, t, w) && w != [] {
        assert !Lang(syntax, t.right, w);
        assert Repeats(syntax, e, start, end, w);
        var k: nat :| InRange(start, end, k) && Power(syntax, e, k, w);
        assert InRange(0, end, k);
      }
    }
  }

  // ----- Building the trees -----

  /** Every cell of t is either new, that is, at index n or later, or a cell of e. */
  ghost predicate MadeOf(t: Tree, e: Tree, n: nat) {
    forall c :: c in Cells(t) ==> c in Cells(e) || c >= n
  }

  datatype DupError = NoError | REG_BADBR | REG_ESIZE

  /** What the trees under construction satisfy: `tree` stands, and the cells outside e are as before. */
  ghost predicate Building(h0: Heap, h: Heap, tree: Tree, e: Tree) {
    && |h0| <= |h|
    && Stands(h, tree) && tree.Node? && WellFormed(tree) && MadeOf(tree, e, |h0|)
    && forall c :: 0 <= c < |h0| && c !in Cells(e) ==> h[c] == h0[c]
  }

  /** The last copy of e stands at the place `outer` of `tree`, on its right edge. */
  ghost predicate LastCopy(tree: Tree, outer: Context, elem: Tree, e: Tree) {
    && RightEdge(outer) && Plug(outer, elem) == tree
    && elem.Node? && Equivalent(elem, e) && WellFormed(elem)
  }

  /** duplicate_tree on the last copy: an orphan that spells what e spells. */
  method DuplicateLast(store: TreeStore, last: nat, ghost tr: Tree, ghost outer: Context, ghost el: Tree, ghost e: Tree,
                       ghost h0: Heap)
      returns (elem: nat, ghost copy: Tree)
    requires Building(h0, store.cells, tr, e) && LastCopy(tr, outer, el, e) && last == el.at
    modifies store
    ensures Building(h0, store.cells, tr, e)
    ensures elem == |old(store.cells)| && copy == Copy(el, elem)
    ensures copy.Node? && copy.at == elem
    ensures Holds(store.cells, copy, CtxParent(outer, NULL_PTR)) && Proper(copy)
    ensures Equivalent(copy, e) && WellFormed(copy)
    ensures Cells(tr) !! Cells(copy) && (forall c :: c in Cells(copy) ==> c >= |h0|)
    ensures forall c :: 0 <= c < |old(store.cells)| ==> c < |store.cells| && store.cells[c] == old(store.cells)[c]
  {
    ghost var h := store.cells;
    elem := store.DuplicateTree(last, outer, el);
    copy := Copy(el, elem);
    assert forall c :: 0 <= c < |h| ==> store.cells[c] == h[c];
    HoldsFrame(h, store.cells, tr, NULL_PTR);
    HoldsBounds(h, tr, NULL_PTR);
    CopyCells(el, elem);
    CopyEquivalent(el, elem, e);
  }

  /** duplicate_tree followed by create_tree: one more copy of e, appended to the tree. */
  method AppendCopy(store: TreeStore, tree: nat, last: nat, ghost tr: Tree, ghost outer: Context, ghost el: Tree,
                    ghost e: Tree, ghost h0: Heap)
      returns (tree': nat, last': nat, ghost tr': Tree)
    requires Building(h0, store.cells, tr, e) && LastCopy(tr, outer, el, e) && tree == tr.at && last == el.at
    modifies store
    ensures Building(h0, store.cells, tr', e) && tree' == tr'.at && tr'.left == tr && tr'.token == CONCAT
    ensures tr'.right.Node? && last' == tr'.right.at && Equivalent(tr'.right, e) && WellFormed(tr'.right)
  {
    hide Lang;
    hide Equivalent;
    ghost var copy;
    last', copy := DuplicateLast(store, last, tr, outer, el, e, h0);
    tree' := CreateTree(store, tree, last', CONCAT, tr, copy, NULL_PTR, CtxParent(outer, NULL_PTR));
    tr' := Node(tree', CONCAT, tr, copy);
  }

  lemma CopyEquivalent(t: Tree, base: nat, e: Tree)
    requires Equivalent(t, e)
    ensures Equivalent(Copy(t, base), e) && (WellFormed(t) ==> WellFormed(Copy(t, base)))
  {
    forall syntax, w ensures Lang(syntax, Copy(t, base), w) <==> Lang(syntax, e, w) {
      CopySpells(syntax, t, base);
    }
    CopyWellFormed(t, base);
  }

  lemma {:induction false} PowerTransfer(syntax: Syntax, t: Tree, u: Tree, k: nat, w: seq<byte>)
    requires Equivalent(t, u) && Power(syntax, t, k, w)
    ensures Power(syntax, u, k, w)
    decreases k
  {
    if k > 0 {
      var i :| 0 <= i <= |w| && Lang(syntax, t, w[..i]) && Power(syntax, t, k - 1, w[i..]);
      PowerTransfer(syntax, t, u, k - 1, w[i..]);
      assert Lang(syntax, u, w[..i]);
    }
  }

  /** Repetitions of equivalent trees. */
  lemma SpellsTransfer(r: Tree, t: Tree, u: Tree, start: nat, end: int)
    requires Equivalent(t, u) && SpellsRepeats(r, t, start, end)
    ensures SpellsRepeats(r, u, start, end)
  {
    forall syntax, w ensures Lang(syntax, r, w) <==> Repeats(syntax, u, start, end, w) {
      if Repeats(syntax, t, start, end, w) {
        var k: nat :| InRange(start, end, k) && Power(syntax, t, k, w);
        PowerTransfer(syntax, t, u, k, w);
      }
      if Repeats(syntax, u, start, end, w) {
        var k: nat :| InRange(start, end, k) && Power(syntax, u, k, w);
        PowerTransfer(syntax, u, t, k, w);
      }
    }
  }

  lemma OnceIsEquivalent(t: Tree, e: Tree)
    requires Equivalent(t, e)
    ensures SpellsRepeats(t, e, 1, 1)
  {
    OnceIsItself(t);
    SpellsTransfer(t, t, e, 1, 1);
  }

  lemma {:induction false} NothingToRepeat(syntax: Syntax, e: Tree, k: nat, w: seq<byte>)
    requires e.Null? || k == 0
    ensures Power(syntax, e, k, w) <==> w == []
    decreases k
  {
    if k > 0 {
      NothingToRepeat(syntax, e, k - 1, w);
      if Power(syntax, e, k, w) {
        var i :| 0 <= i <= |w| && Lang(syntax, e, w[..i]) && Power(syntax, e, k - 1, w[i..]);
        assert w[i..] == w;
      }
      assert w[..0] == [] && w[0..] == w;
    }
  }

  /** When there is nothing to repeat, or nothing may be repeated, the empty tree is right. */
  lemma NullSpells(e: Tree, start: nat, end: int)
    requires e.Null? || (start == 0 && end == 0)
    requires end == REG_MISSING || start <= end
    ensures SpellsRepeats(Null, e, start, end)
  {
    forall syntax, w ensures Lang(syntax, Null, w) <==> Repeats(syntax, e, start, end, w) {
      NothingToRepeat(syntax, e, start, w);
      assert InRange(start, end, start);
      if Repeats(syntax, e, start, end, w) {
        var k: nat :| InRange(start, end, k) && Power(syntax, e, k, w);
        NothingToRepeat(syntax, e, k, w);
      }
    }
  }

  /** The place of the last copy in (left copy)?. */
  lemma LastCopyInOption(tree: nat, cat: Tree)
    requires cat.Node?
    ensures var outer := InRight(cat.at, cat.token, cat.left, InLeft(tree, OP_ALT, Null, Top));
            RightEdge(outer) && Plug(outer, cat.right) == Node(tree, OP_ALT, cat, Null)
  {
    var up := InLeft(tree, OP_ALT, Null, Top);
    assert Plug(up, cat) == Plug(Top, Node(tree, OP_ALT, cat, Null));
    assert Above(InRight(cat.at, cat.token, cat.left, up), cat.right) == cat;
  }

  /** One more optional copy: from u to (u e)?. */
  method AppendOption(store: TreeStore, tree: nat, elem: nat, ghost tr: Tree, ghost outer: Context, ghost el: Tree,
                      ghost e: Tree, ghost h0: Heap, ghost count: nat)
      returns (tree': nat, elem': nat, ghost tr': Tree, ghost outer': Context, ghost el': Tree)
    requires Building(h0, store.cells, tr, e) && LastCopy(tr, outer, el, e) && tree == tr.at && elem == el.at
    requires SpellsRepeats(tr, e, 0, count)
    modifies store
    ensures Building(h0, store.cells, tr', e) && LastCopy(tr', outer', el', e) && tree' == tr'.at && elem' == el'.at
    ensures SpellsRepeats(tr', e, 0, count + 1)
  {
    ghost var cat;
    tree', elem', cat := AppendCopy(store, tree, elem, tr, outer, el, e, h0);
    ghost var h := store.cells;
    tree' := CreateTree(store, tree', NULL_PTR, OP_ALT, cat, Null, NULL_PTR, NULL_PTR);
    tr', el' := Node(tree', OP_ALT, cat, Null), cat.right;
    outer' := InRight(cat.at, CONCAT, tr, InLeft(tree', OP_ALT, Null, Top));
    LastCopyInOption(tree', cat);
    OnceIsEquivalent(cat.right, e);
    ConcatSpells(cat, e, 0, count, 1, 1);
    OptionSpells(tr', e, 1, count + 1);
  }

  /** The optional part: e* without an upper bound, else (((e)?e)?...)? with end - start copies. */
  method BuildOptional(store: TreeStore, elem: nat, start: nat, end: int, ghost e: Tree, ghost p: int)
      returns (tree: nat, ghost tr: Tree)
    requires Holds(store.cells, e, p) && Proper(e) && e.Node? && elem == e.at && WellFormed(e)
    requires end == REG_MISSING || start < end
    modifies store
    ensures Building(old(store.cells), store.cells, tr, e) && tree == tr.at
    ensures SpellsRepeats(tr, e, 0, if end == REG_MISSING then REG_MISSING else end - start)
  {
    ghost var h0 := store.cells;
    HoldsBounds(h0, e, p);
    var token := if end == REG_MISSING then OP_DUP_ASTERISK else OP_ALT;
    tree := CreateTree(store, elem, NULL_PTR, token, e, Null, p, NULL_PTR);
    tr := Node(tree, token, e, Null);
    if end == REG_MISSING {
      StarSpells(tr, e);
      return;
    }
    OnceIsItself(e);
    OptionSpells(tr, e, 1, 1);
    var last := elem;
    ghost var outer, el := InLeft(tree, OP_ALT, Null, Top), e;
    var i := start + 2;
    while i <= end
      invariant start + 2 <= i <= end + 1
      invariant Building(h0, store.cells, tr, e) && LastCopy(tr, outer, el, e) && tree == tr.at && last == el.at
      invariant SpellsRepeats(tr, e, 0, i - 1 - start)
    {
      tree, last, tr, outer, el := AppendOption(store, tree, last, tr, outer, el, e, h0, i - 1 - start);
      i := i + 1;
    }
  }

  /** The mandatory part: e repeated start times. */
  method BuildMandatory(store: TreeStore, elem: nat, start: nat, ghost e: Tree)
      returns (tree: nat, last: nat, ghost tr: Tree, ghost outer: Context, ghost el: Tree)
    requires Stands(store.cells, e) && e.Node? && elem == e.at && WellFormed(e) && start > 0
    modifies store
    ensures Building(old(store.cells), store.cells, tr, e) && LastCopy(tr, outer, el, e)
    ensures tree == tr.at && last == el.at && SpellsRepeats(tr, e, start, start)
  {
    ghost var h0 := store.cells;
    HoldsBounds(h0, e, NULL_PTR);
    last, tree, tr, outer, el := elem, elem, e, Top, e;
    OnceIsItself(e);
    var i := 2;
    while i <= start
      invariant 2 <= i <= start + 1
      invariant Building(h0, store.cells, tr, e) && LastCopy(tr, outer, el, e) && tree == tr.at && last == el.at
      invariant SpellsRepeats(tr, e, i - 1, i - 1)
    {
      ghost var cat;
      tree, last, cat := AppendCopy(store, tree, last, tr, outer, el, e, h0);
      OnceIsEquivalent(cat.right, e);
      ConcatSpells(cat, e, i - 1, i - 1, 1, 1);
      outer, el, tr := InRight(tree, CONCAT, tr, Top), cat.right, cat;
      i := i + 1;
    }
  }

  /** The optional part appended to the mandatory one, on a copy of e of its own. */
  method AppendOptional(store: TreeStore, tree: nat, last: nat, start: nat, end: int, ghost tr: Tree,
                        ghost outer: Context, ghost el: Tree, ghost e: Tree, ghost h0: Heap)
      returns (tree': nat, ghost tr': Tree)
    requires Building(h0, store.cells, tr, e) && LastCopy(tr, outer, el, e) && tree == tr.at && last == el.at
    requires SpellsRepeats(tr, e, start, start) && (end == REG_MISSING || start < end)
    modifies store
    ensures Building(h0, store.cells, tr', e) && tree' == tr'.at && SpellsRepeats(tr', e, start, end)
  {
    hide Lang, Equivalent, SpellsRepeats, Plug, Copy, Holds, Proper, RightEdge, Size, LastCopy;
    var elem, option;
    ghost var copy, o;
    elem, copy := DuplicateLast(store, last, tr, outer, el, e, h0);
    ghost var h1 := store.cells;
    option, o := BuildOptional(store, elem, start, end, copy, CtxParent(outer, NULL_PTR));
    HoldsFrame(h1, store.cells, tr, NULL_PTR);
    HoldsBounds(h1, tr, NULL_PTR);
    tree' := CreateTree(store, tree, option, CONCAT, tr, o, NULL_PTR, NULL_PTR);
    tr' := Node(tree', CONCAT, tr, o);
    MandatoryThenOptional(tr', copy, e, start, end);
  }

  lemma MandatoryThenOptional(t: Tree, copy: Tree, e: Tree, start: nat, end: int)
    requires t.Node? && t.token.CONCAT? && SpellsRepeats(t.left, e, start, start)
    requires end == REG_MISSING || start < end
    requires SpellsRepeats(t.right, copy, 0, if end == REG_MISSING then REG_MISSING else end - start)
    requires Equivalent(copy, e)
    ensures SpellsRepeats(t, e, start, end)
  {
    var rest := if end == REG_MISSING then REG_MISSING else end - start;
    SpellsTransfer(t.right, copy, e, 0, rest);
    ConcatSpells(t, e, start, start, 0, rest);
  }

  lemma {:induction false} CharacterPower(syntax: Syntax, e: Tree, k: nat, w: seq<byte>)
    requires e.Node? && e.token.CHARACTER?
    ensures Power(syntax, e, k, w) <==> |w| == k && forall i :: 0 <= i < k ==> w[i] == e.token.c
    decreases k
  {
    if k > 0 {
      forall i | 0 <= i <= |w| ensures Lang(syntax, e, w[..i]) <==> i == 1 && w[0] == e.token.c {
      }
      if w != [] {
        CharacterPower(syntax, e, k - 1, w[1..]);
        assert w == [w[0]] + w[1..];
      }
    }
  }

  /** What that means for a single character: the bounds count how often it stands in the word. */
  lemma CharacterRepeats(syntax: Syntax, u: Tree, at: nat, c: byte, start: nat, end: int, w: seq<byte>)
    requires SpellsRepeats(u, Node(at, CHARACTER(c), Null, Null), start, end) && -1 <= end
    ensures Lang(syntax, u, w)
            <==> start <= |w| && (end != -1 ==> |w| <= end) && forall i :: 0 <= i < |w| ==> w[i] == c
  {
    var e := Node(at, CHARACTER(c), Null, Null);
    forall k: nat ensures Power(syntax, e, k, w) <==> |w| == k && forall i :: 0 <= i < k ==> w[i] == c {
      CharacterPower(syntax, e, k, w);
    }
    if start <= |w| && (end != -1 ==> |w| <= end) && forall i :: 0 <= i < |w| ==> w[i] == c {
      assert InRange(start, end, |w|) && Power(syntax, e, |w|, w);
    }
  }

  /** parse_dup_op on the element `elem` once the bounds are known ({n} gives end == n, a missing
      upper bound gives REG_MISSING): the tree returned spells exactly the words made of k words
      of the element, for k within the bounds. */
  method ParseDupOp(store: TreeStore, elem: int, start: nat, end: int, ghost e: Tree)
      returns (err: DupError, tree: int, ghost r: Tree)
    requires elem == Addr(e) && Stands(store.cells, e) && WellFormed(e) && REG_MISSING <= end
    modifies store
    ensures err == if end != REG_MISSING && start > end then REG_BADBR
                   else if RE_DUP_MAX < (if end == REG_MISSING then start else end) then REG_ESIZE
                   else NoError
    ensures err == REG_ESIZE <==> !(0 <= end < start) && (start > 32767 || end > 32767)
    ensures err != NoError ==> tree == NULL_PTR && store.cells == old(store.cells)
    ensures err == NoError ==> SpellsRepeats(r, e, start, end)
    ensures err == NoError ==> tree == Addr(r) && Stands(store.cells, r) && WellFormed(r)
    ensures err == NoError ==> MadeOf(r, e, |old(store.cells)|)
  {
    r, tree, err := Null, NULL_PTR, NoError;
    if end != REG_MISSING && start > end {
      err := REG_BADBR;
    } else if RE_DUP_MAX < (if end == REG_MISSING then start else end) {
      err := REG_ESIZE;
    } else if elem == NULL_PTR || (start == 0 && end == 0) {
      NullSpells(e, start, end);
    } else if start == 0 {
      tree, r := BuildOptional(store, elem, start, end, e, NULL_PTR);
    } else {
      ghost var h0 := store.cells;
      var last;
      ghost var outer, el;
      tree, last, r, outer, el := BuildMandatory(store, elem, start, e);
      if start != end {
        tree, r := AppendOptional(store, tree, last, start, end, r, outer, el, e, h0);
      }
    }
  }
}
