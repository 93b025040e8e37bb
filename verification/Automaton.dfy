/** The epsilon-NFA the compiler builds, its paths, and the proof that the automaton wired
    from a tree spells exactly the language of that tree. */
module Automaton {
  import opened RegexLanguage

  datatype Nfa = Nfa(syntax: Syntax, nodes: seq<Token>, nexts: seq<int>, edests: seq<seq<nat>>)
  {
    ghost predicate Valid() {
      && |nodes| == |nexts| == |edests|
      && (forall p, q :: 0 <= p < |nodes| && q in edests[p] ==> q < |nodes|)
      && (forall p :: 0 <= p < |nodes| ==> nexts[p] < |nodes|)
      && (forall p :: 0 <= p < |nodes| && nodes[p].IsByteNode() ==> 0 <= nexts[p])
      && (forall p :: 0 <= p < |nodes| && edests[p] != [] ==> nodes[p].IsEpsilonNode())
    }

    predicate AcceptsAt(p: nat, ch: byte) {
      p < |nodes| && Accepts(syntax, nodes[p], ch)
    }

    /** There is a path of exactly `n` moves from node p to node q that consumes w. */
    ghost predicate Path(n: nat, p: nat, w: seq<byte>, q: nat)
      requires Valid()
    {
      if n == 0 then p == q && w == []
      else
        && p < |nodes|
        && ((exists m :: m in edests[p] && Path(n - 1, m, w, q))
            || (w != [] && AcceptsAt(p, w[0]) && Path(n - 1, nexts[p], w[1..], q)))
    }

    ghost predicate Reach(p: nat, w: seq<byte>, q: nat)
      requires Valid()
    {
      exists n: nat :: Path(n, p, w, q)
    }
  }

  lemma EpsilonStep(a: Nfa, n: nat, p: nat, m: nat, w: seq<byte>, q: nat)
    requires a.Valid() && p < |a.nodes| && m in a.edests[p] && a.Path(n, m, w, q)
    ensures a.Path(n + 1, p, w, q)
  {
  }

  lemma ByteStep(a: Nfa, n: nat, p: nat, w: seq<byte>, q: nat)
    requires a.Valid() && w != [] && a.AcceptsAt(p, w[0]) && a.Path(n, a.nexts[p], w[1..], q)
    ensures a.Path(n + 1, p, w, q)
  {
  }

  lemma {:induction false} PathAppend(a: Nfa, n: nat, p: nat, u: seq<byte>, q: nat, m: nat, v: seq<byte>, r: nat)
    requires a.Valid() && a.Path(n, p, u, q) && a.Path(m, q, v, r)
    ensures a.Path(n + m, p, u + v, r)
    decreases n
  {
    if n == 0 {
      assert u + v == v;
    } else if k :| k in a.edests[p] && a.Path(n - 1, k, u, q) {
      PathAppend(a, n - 1, k, u, q, m, v, r);
      EpsilonStep(a, n - 1 + m, p, k, u + v, r);
    } else {
      PathAppend(a, n - 1, a.nexts[p], u[1..], q, m, v, r);
      assert (u + v)[1..] == u[1..] + v;
      ByteStep(a, n - 1 + m, p, u + v, r);
    }
  }

  /** The first move of a path that consumes something. */
  lemma {:induction false} PathStart(a: Nfa, n: nat, p: nat, u: seq<byte>, v: seq<byte>, r: nat)
    requires a.Valid() && a.Path(n, p, u + v, r) && u != []
    ensures n > 0 && p < |a.nodes|
    ensures (exists m :: m in a.edests[p] && a.Path(n - 1, m, u + v, r))
         || (a.AcceptsAt(p, u[0]) && a.Path(n - 1, a.nexts[p], u[1..] + v, r))
  {
    assert (u + v)[1..] == u[1..] + v && (u + v)[0] == u[0];
  }

  lemma {:induction false} PathSplit(a: Nfa, n: nat, p: nat, u: seq<byte>, v: seq<byte>, r: nat) returns (k: nat,
                                     q: nat)
    requires a.Valid() && a.Path(n, p, u + v, r)
    ensures k <= n && a.Path(k, p, u, q) && a.Path(n - k, q, v, r)
    decreases n
  {
    if u == [] {
      assert u + v == v;
      k, q := 0, p;
    } else {
      PathStart(a, n, p, u, v, r);
      if m :| m in a.edests[p] && a.Path(n - 1, m, u + v, r) {
        k, q := PathSplit(a, n - 1, m, u, v, r);
        EpsilonStep(a, k, p, m, u, q);
      } else {
        k, q := PathSplit(a, n - 1, a.nexts[p], u[1..], v, r);
        ByteStep(a, k, p, u, q);
      }
      k := k + 1;
    }
  }

  /** Words compose and decompose along paths. */
  lemma ReachSplit(a: Nfa, p: nat, u: seq<byte>, v: seq<byte>, r: nat)
    requires a.Valid()
    ensures a.Reach(p, u + v, r) <==> exists q: nat :: a.Reach(p, u, q) && a.Reach(q, v, r)
  {
    if a.Reach(p, u + v, r) {
      var n: nat :| a.Path(n, p, u + v, r);
      var k, q := PathSplit(a, n, p, u, v, r);
      assert a.Reach(p, u, q) && a.Reach(q, v, r);
    }
    if q: nat :| a.Reach(p, u, q) && a.Reach(q, v, r) {
      var n: nat :| a.Path(n, p, u, q);
      var m: nat :| a.Path(m, q, v, r);
      PathAppend(a, n, p, u, q, m, v, r);
    }
  }

  lemma {:induction false} PathEndsInside(a: Nfa, n: nat, p: nat, w: seq<byte>, q: nat)
    requires a.Valid() && p < |a.nodes| && a.Path(n, p, w, q)
    ensures q < |a.nodes|
    decreases n
  {
    if n > 0 {
      if m :| m in a.edests[p] && a.Path(n - 1, m, w, q) {
        PathEndsInside(a, n - 1, m, w, q);
      } else {
        PathEndsInside(a, n - 1, a.nexts[p], w[1..], q);
      }
    }
  }

  lemma ReachesNodes(a: Nfa, p: nat, w: seq<byte>, q: nat)
    requires a.Valid() && p < |a.nodes| && a.Reach(p, w, q)
    ensures q < |a.nodes|
  {
    var n: nat :| a.Path(n, p, w, q);
    PathEndsInside(a, n, p, w, q);
  }

  // ----- The automaton wired from a tree -----

  /** `number[at]` is the automaton node created for the tree cell `at`; a concatenation shares
      the number of its left child. */
  predicate Numbered(number: seq<int>, t: Tree, i: int) {
    t.Node? && t.at < |number| && number[t.at] == i
  }

  ghost predicate EdgesAre(a: Nfa, i: int, x: int, y: int) {
    && 0 <= i < |a.nodes| == |a.edests|
    && 0 <= x && 0 <= y
    && (forall m :: m in a.edests[i] <==> m == x || m == y)
  }

  /** The automaton contains the fragment for tree t, entered at number[t.at] and left towards
      node k. */
  ghost predicate Wired(a: Nfa, number: seq<int>, t: Tree, k: int)
    requires |a.nodes| == |a.nexts| == |a.edests|
  {
    && t.Node?
    && t.at < |number|
    && var i := number[t.at];
    && 0 <= i < |a.nodes|
    && match t.token {
      case CONCAT =>
        && Numbered(number, t.left, i)
        && t.right.Node? && t.right.at < |number|
        && Wired(a, number, t.left, number[t.right.at])
        && Wired(a, number, t.right, k)
      case OP_DUP_ASTERISK =>
        && a.nodes[i] == t.token
        && t.right.Null? && t.left.Node? && t.left.at < |number|
        && EdgesAre(a, i, number[t.left.at], k)
        && Wired(a, number, t.left, i)
      case OP_ALT =>
        && a.nodes[i] == t.token
        && (t.left.Node? ==> t.left.at < |number| && Wired(a, number, t.left, k))
        && (t.right.Node? ==> t.right.at < |number| && Wired(a, number, t.right, k))
        && EdgesAre(a, i, if t.left.Null? then k else number[t.left.at],
                    if t.right.Null? then k else number[t.right.at])
      case OP_OPEN_SUBEXP(_) => a.nodes[i] == t.token && EdgesAre(a, i, k, k)
      case OP_CLOSE_SUBEXP(_) => a.nodes[i] == t.token && EdgesAre(a, i, k, k)
      case END_OF_RE => false
      case SUBEXP(_) => false
      case _ => a.nodes[i] == t.token && a.edests[i] == [] && a.nexts[i] == k >= 0
    }
  }

  /** Every word of the tree leads from its entry node to the node that follows the tree. */
  lemma {:induction false} WordsHavePaths(a: Nfa, number: seq<int>, t: Tree, k: nat, w: seq<byte>)
    requires a.Valid() && Wired(a, number, t, k) && Lang(a.syntax, t, w)
    ensures a.Reach(number[t.at], w, k)
    decreases t, |w|
  {
    var i := number[t.at];
    assert a.Path(0, k, [], k);
    match t.token
    case CONCAT =>
      var j :| 0 <= j <= |w| && Lang(a.syntax, t.left, w[..j]) && Lang(a.syntax, t.right, w[j..]);
      WordsHavePaths(a, number, t.left, number[t.right.at], w[..j]);
      WordsHavePaths(a, number, t.right, k, w[j..]);
      assert w == w[..j] + w[j..];
      ReachSplit(a, i, w[..j], w[j..], k);
    case OP_DUP_ASTERISK =>
      if w == [] {
        EpsilonStep(a, 0, i, k, w, k);
      } else {
        var j :| 0 < j <= |w| && Lang(a.syntax, t.left, w[..j]) && Lang(a.syntax, t, w[j..]);
        WordsHavePaths(a, number, t.left, i, w[..j]);
        WordsHavePaths(a, number, t, k, w[j..]);
        assert w == w[..j] + w[j..];
        var first := number[t.left.at];
        ReachSplit(a, first, w[..j], w[j..], k);
        var n: nat :| a.Path(n, first, w, k);
        EpsilonStep(a, n, i, first, w, k);
      }
    case OP_ALT =>
      var branch := if Lang(a.syntax, t.left, w) then t.left else t.right;
      if branch.Null? {
        EpsilonStep(a, 0, i, k, w, k);
      } else {
        WordsHavePaths(a, number, branch, k, w);
        var n: nat :| a.Path(n, number[branch.at], w, k);
        EpsilonStep(a, n, i, number[branch.at], w, k);
      }
    case OP_OPEN_SUBEXP(_) => EpsilonStep(a, 0, i, k, w, k);
    case OP_CLOSE_SUBEXP(_) => EpsilonStep(a, 0, i, k, w, k);
    case CHARACTER(_) => ByteStep(a, 0, i, w, k);
    case SIMPLE_BRACKET(_) => ByteStep(a, 0, i, w, k);
    case OP_PERIOD => ByteStep(a, 0, i, w, k);
  }

  lemma Cut(w: seq<byte>, i: nat, j: nat)
    requires i + j <= |w|
    ensures w[..i + j] == w[..i] + w[i..][..j] && w[i + j..] == w[i..][j..]
  {
  }

  /** Where the first move of a path out of an epsilon node goes. */
  lemma FirstMove(a: Nfa, i: nat, x: nat, y: nat, n: nat, w: seq<byte>, end: nat)
    requires a.Valid() && EdgesAre(a, i, x, y) && a.nodes[i].IsEpsilonNode()
    requires end < |a.nodes| && a.nodes[end].END_OF_RE? && a.Path(n, i, w, end)
    ensures n > 0 && (a.Path(n - 1, x, w, end) || a.Path(n - 1, y, w, end))
  {
  }

  lemma {:induction false} SpellConcat(a: Nfa, number: seq<int>, t: Tree, k: nat, n: nat, w: seq<byte>, end: nat)
      returns (j: nat, m: nat)
    requires a.Valid() && Wired(a, number, t, k) && t.token.CONCAT?
    requires end < |a.nodes| && a.nodes[end].END_OF_RE?
    requires a.Path(n, number[t.at], w, end)
    ensures j <= |w| && m < n && Lang(a.syntax, t, w[..j]) && a.Path(m, k, w[j..], end)
    decreases n, t, 0
  {
    var j1, m1 := PathsSpellWords(a, number, t.left, number[t.right.at], n, w, end);
    var j2, m2 := PathsSpellWords(a, number, t.right, k, m1, w[j1..], end);
    j, m := j1 + j2, m2;
    Cut(w, j1, j2);
    ConcatIntro(a.syntax, t, w[..j1], w[j1..][..j2]);
  }

  lemma {:induction false} SpellStar(a: Nfa, number: seq<int>, t: Tree, k: nat, n: nat, w: seq<byte>, end: nat)
      returns (j: nat, m: nat)
    requires a.Valid() && Wired(a, number, t, k) && t.token.OP_DUP_ASTERISK?
    requires end < |a.nodes| && a.nodes[end].END_OF_RE?
    requires a.Path(n, number[t.at], w, end)
    ensures j <= |w| && m < n && Lang(a.syntax, t, w[..j]) && a.Path(m, k, w[j..], end)
    decreases n, t, 0
  {
    var i := number[t.at];
    FirstMove(a, i, number[t.left.at], k, n, w, end);
    if a.Path(n - 1, k, w, end) {
      assert w[..0] == [] && w[0..] == w;
      j, m := 0, n - 1;
    } else {
      var j1, m1 := PathsSpellWords(a, number, t.left, i, n - 1, w, end);
      var j2, m2 := PathsSpellWords(a, number, t, k, m1, w[j1..], end);
      j, m := j1 + j2, m2;
      Cut(w, j1, j2);
      StarIntro(a.syntax, t, w[..j1], w[j1..][..j2]);
    }
  }

  lemma {:induction false} SpellAlt(a: Nfa, number: seq<int>, t: Tree, k: nat, n: nat, w: seq<byte>, end: nat)
      returns (j: nat, m: nat)
    requires a.Valid() && Wired(a, number, t, k) && t.token.OP_ALT?
    requires end < |a.nodes| && a.nodes[end].END_OF_RE?
    requires a.Path(n, number[t.at], w, end)
    ensures j <= |w| && m < n && Lang(a.syntax, t, w[..j]) && a.Path(m, k, w[j..], end)
    decreases n, t, 0
  {
    var x := if t.left.Null? then k else number[t.left.at];
    var y := if t.right.Null? then k else number[t.right.at];
    FirstMove(a, number[t.at], x, y, n, w, end);
    var branch := if a.Path(n - 1, x, w, end) then t.left else t.right;
    if branch.Null? {
      assert w[..0] == [] && w[0..] == w;
      j, m := 0, n - 1;
    } else {
      j, m := PathsSpellWords(a, number, branch, k, n - 1, w, end);
    }
  }

  /** Every path from the entry of a tree to the end node first spells a word of the tree and
      then goes on, strictly shorter, from the node that follows the tree. */
  lemma {:induction false} PathsSpellWords(a: Nfa, number: seq<int>, t: Tree, k: nat, n: nat, w: seq<byte>, end: nat)
      returns (j: nat, m: nat)
    requires a.Valid() && Wired(a, number, t, k)
    requires end < |a.nodes| && a.nodes[end].END_OF_RE?
    requires a.Path(n, number[t.at], w, end)
    ensures j <= |w| && m < n && Lang(a.syntax, t, w[..j]) && a.Path(m, k, w[j..], end)
    decreases n, t, 1
  {
    assert w[..0] == [] && w[0..] == w;
    if t.token.CONCAT? {
      j, m := SpellConcat(a, number, t, k, n, w, end);
    } else if t.token.OP_DUP_ASTERISK? {
      j, m := SpellStar(a, number, t, k, n, w, end);
    } else if t.token.OP_ALT? {
      j, m := SpellAlt(a, number, t, k, n, w, end);
    } else if t.token.IsEpsilonNode() {
      FirstMove(a, number[t.at], k, k, n, w, end);
      j, m := 0, n - 1;
    } else {
      j, m := 1, n - 1;
    }
  }

  /** The tree-to-automaton compiler preserves meaning: when the fragment of t is followed by
      the end node, the paths from its entry to the end node spell exactly the tree's language. */
  lemma WiredAutomatonSpellsTree(a: Nfa, number: seq<int>, t: Tree, end: nat, w: seq<byte>)
    requires a.Valid() && Wired(a, number, t, end)
    requires end < |a.nodes| && a.nodes[end].END_OF_RE?
    ensures a.Reach(number[t.at], w, end) <==> Lang(a.syntax, t, w)
  {
    if Lang(a.syntax, t, w) {
      WordsHavePaths(a, number, t, end, w);
    }
    if a.Reach(number[t.at], w, end) {
      var n: nat :| a.Path(n, number[t.at], w, end);
      var j, m := PathsSpellWords(a, number, t, end, n, w, end);
      assert m == 0;
      assert w[..j] == w;
    }
  }
}
