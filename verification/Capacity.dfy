/** When the fixed arrays for the groups of a state suffice: for every state a run can reach, exactly
    when at most SBC_MAX groups are needed; for an expression, as soon as its byte classes and its
    empty brackets are at most SBC_MAX together; and an expression for which they do not suffice. */
module Capacity {
  import opened RegexLanguage
  import opened Automaton
  import opened NodeSets
  import opened Closures
  import opened SubexpLaws
  import opened NfaBuilder
  import opened StateTable
  import opened Grouping

  const EMPTY_BRACKET: Token := SIMPLE_BRACKET({})

  /** The nodes are those that the automaton reaches from the entry by w. */
  ghost predicate IsReached(nfa: Nfa, entry: nat, w: seq<byte>, nodes: seq<nat>)
    requires nfa.Valid()
  {
    forall q: nat :: q in nodes <==> nfa.Reach(entry, w, q)
  }

  /** Whatever the text, no state of a run from the entry needs more groups than the arrays hold. */
  ghost predicate RoomFor(nfa: Nfa, entry: nat)
    requires nfa.Valid()
  {
    forall w, nodes :: Once(nfa, nodes) && IsReached(nfa, entry, w, nodes) ==> GroupsNeeded(nfa, nodes) <= SBC_MAX
  }

  // ----- Counting empty brackets -----

  lemma EmptyBracketToken(nfa: Nfa, p: nat)
    ensures IsEmptyBracket(nfa, p) <==> p < |nfa.nodes| && nfa.nodes[p] == EMPTY_BRACKET
  {
    if p < |nfa.nodes| {
      match nfa.nodes[p]
      case CHARACTER(c) => assert nfa.AcceptsAt(p, c);
      case SIMPLE_BRACKET(sbcset) =>
        if ch :| ch in sbcset {
          assert nfa.AcceptsAt(p, ch);
        }
      case OP_PERIOD => assert nfa.AcceptsAt(p, 1);
      case END_OF_RE =>
      case OP_OPEN_SUBEXP(_) =>
      case OP_CLOSE_SUBEXP(_) =>
      case OP_ALT =>
      case OP_DUP_ASTERISK =>
      case CONCAT =>
      case SUBEXP(_) =>
    }
  }

  /** The empty brackets among the nodes. */
  ghost function EmptyBrackets(nfa: Nfa, nodes: seq<nat>): set<nat> {
    set p | p in nodes && IsEmptyBracket(nfa, p)
  }

  /** When only epsilon nodes are repeated, occurrences are nodes. */
  lemma {:induction false} OccurrencesAreNodes(nfa: Nfa, nodes: seq<nat>)
    requires Once(nfa, nodes)
    ensures EmptyOccurrences(nfa, nodes) == |EmptyBrackets(nfa, nodes)|
  {
    if nodes == [] {
      assert EmptyBrackets(nfa, nodes) == {};
    } else {
      var front, last := Init(nodes), Last(nodes);
      assert nodes == front + [last];
      forall p: nat ensures Count(front, p) <= Count(nodes, p) {
      }
      OccurrencesAreNodes(nfa, front);
      if IsEmptyBracket(nfa, last) {
        CountMeansIn(front, last);
        assert Count(nodes, last) <= 1;
        assert EmptyBrackets(nfa, nodes) == EmptyBrackets(nfa, front) + {last};
      } else {
        assert EmptyBrackets(nfa, nodes) == EmptyBrackets(nfa, front);
      }
    }
  }

  /** The empty brackets among the first n nodes of the automaton. */
  ghost function EmptyBelow(nfa: Nfa, n: nat): set<nat>
    requires n <= |nfa.nodes|
  {
    set p: nat | p < n && IsEmptyBracket(nfa, p)
  }

  lemma {:induction false} EmptyBelowCount(nfa: Nfa, n: nat)
    requires n <= |nfa.nodes|
    ensures |EmptyBelow(nfa, n)| == TokenCount(nfa.nodes[..n], EMPTY_BRACKET)
  {
    if n == 0 {
      assert EmptyBelow(nfa, n) == {};
    } else {
      EmptyBelowCount(nfa, n - 1);
      EmptyBracketToken(nfa, n - 1);
      hide IsEmptyBracket;
      assert nfa.nodes[..n][..n - 1] == nfa.nodes[..n - 1];
      assert EmptyBelow(nfa, n) == EmptyBelow(nfa, n - 1) + if IsEmptyBracket(nfa, n - 1) then {n - 1} else {};
    }
  }

  lemma SubsetSize(a: set<nat>, b: set<nat>)
    requires a <= b
    ensures |a| <= |b|
  {
    assert b == a + (b - a);
  }

  lemma EmptiesOfExpression(nfa: Nfa, re: Tree, nodes: seq<nat>)
    requires SameLeaves(nfa.nodes, re) && Once(nfa, nodes)
    ensures EmptyOccurrences(nfa, nodes) <= Occurrences(re, EMPTY_BRACKET)
  {
    OccurrencesAreNodes(nfa, nodes);
    EmptyBelowCount(nfa, |nfa.nodes|);
    SubsetSize(EmptyBrackets(nfa, nodes), EmptyBelow(nfa, |nfa.nodes|));
    assert nfa.nodes[..|nfa.nodes|] == nfa.nodes;
  }

  // ----- Counting classes -----

  ghost function Tokens(re: Tree): set<Token> {
    if re.Null? then {} else Tokens(re.left) + Tokens(re.right) + {re.token}
  }

  lemma {:induction false} TokensOccur(re: Tree, token: Token)
    ensures token in Tokens(re) <==> Occurrences(re, token) > 0
  {
    if re.Node? {
      TokensOccur(re.left, token);
      TokensOccur(re.right, token);
    }
  }

  /** The leaves of the expression that accept the byte. */
  ghost function LeafSignature(syntax: Syntax, re: Tree, ch: byte): set<Token> {
    set token | token in Tokens(re) && Accepts(syntax, token, ch)
  }

  ghost function LeafSignatures(syntax: Syntax, re: Tree): (r: seq<set<Token>>)
    ensures |r| == SBC_MAX && forall ch: byte :: r[ch] == LeafSignature(syntax, re, ch)
  {
    seq(SBC_MAX, ch requires 0 <= ch < SBC_MAX => LeafSignature(syntax, re, ch))
  }

  /** The number of classes of bytes that the leaves of the expression tell apart, and of its empty
      brackets. */
  ghost function GroupBound(syntax: Syntax, re: Tree): nat {
    |Distinct(LeafSignatures(syntax, re), SBC_MAX)| + Occurrences(re, EMPTY_BRACKET)
  }

  lemma {:induction false} TokenOfNode(nodes: seq<Token>, p: nat)
    requires p < |nodes|
    ensures TokenCount(nodes, nodes[p]) > 0
  {
    if p < |nodes| - 1 {
      TokenOfNode(nodes[..|nodes| - 1], p);
    }
  }

  lemma NodeIsLeaf(nfa: Nfa, re: Tree, p: nat, ch: byte)
    requires SameLeaves(nfa.nodes, re) && nfa.AcceptsAt(p, ch)
    ensures nfa.nodes[p] in LeafSignature(nfa.syntax, re, ch)
  {
    TokenOfNode(nfa.nodes, p);
    assert nfa.nodes[p].IsByteNode();
    TokensOccur(re, nfa.nodes[p]);
  }

  /** The nodes of a state tell apart no more bytes than the leaves of the expression. */
  lemma ClassesOfExpression(nfa: Nfa, re: Tree, s: set<nat>)
    requires SameLeaves(nfa.nodes, re)
    ensures |Classes(nfa, s)| <= |Distinct(LeafSignatures(nfa.syntax, re), SBC_MAX)|
  {
    var a, b := Signatures(nfa, s), LeafSignatures(nfa.syntax, re);
    forall i, j | 0 <= i < SBC_MAX && 0 <= j < SBC_MAX && b[i] == b[j] ensures a[i] == a[j] {
      var c: byte, d: byte := i, j;
      SameLeavesSameNodes(nfa, re, s, c, d);
    }
    forall i | 0 <= i < SBC_MAX && a[i] != {} ensures b[i] != {} {
      var c: byte := i;
      var p :| p in Signature(nfa, s, c);
      NodeIsLeaf(nfa, re, p, c);
    }
    FewerDistinct(a, b, SBC_MAX);
    ClassesAreDistinct(nfa, s);
  }

  lemma SameLeavesSameNodes(nfa: Nfa, re: Tree, s: set<nat>, c: byte, d: byte)
    requires SameLeaves(nfa.nodes, re) && LeafSignature(nfa.syntax, re, c) == LeafSignature(nfa.syntax, re, d)
    ensures Signature(nfa, s, c) == Signature(nfa, s, d)
  {
    forall p | p in s ensures nfa.AcceptsAt(p, c) <==> nfa.AcceptsAt(p, d) {
      if nfa.AcceptsAt(p, c) {
        NodeIsLeaf(nfa, re, p, c);
        assert nfa.nodes[p] in LeafSignature(nfa.syntax, re, d);
      }
      if nfa.AcceptsAt(p, d) {
        NodeIsLeaf(nfa, re, p, d);
        assert nfa.nodes[p] in LeafSignature(nfa.syntax, re, c);
      }
    }
  }

  /** A condition on the expression alone. */
  lemma BoundGivesRoom(nfa: Nfa, entry: nat, re: Tree)
    requires nfa.Valid() && SameLeaves(nfa.nodes, re) && GroupBound(nfa.syntax, re) <= SBC_MAX
    ensures RoomFor(nfa, entry)
  {
    forall w, nodes | Once(nfa, nodes) && IsReached(nfa, entry, w, nodes) ensures GroupsNeeded(nfa, nodes) <= SBC_MAX {
      EmptiesOfExpression(nfa, re, nodes);
      ClassesOfExpression(nfa, re, Items(nodes));
    }
  }

  /** In particular it holds for every expression without empty brackets. */
  lemma NoEmptyBracketsFit(syntax: Syntax, re: Tree)
    requires EMPTY_BRACKET !in Tokens(re)
    ensures GroupBound(syntax, re) <= SBC_MAX
  {
    TokensOccur(re, EMPTY_BRACKET);
    DistinctSize(LeafSignatures(syntax, re), SBC_MAX);
  }

  // ----- An expression that needs too many groups -----

  /** The automaton of n optional empty brackets in sequence: for each of them the bracket and its
      alternative, and then the end node. */
  function OptionsNfa(syntax: Syntax, n: nat): Nfa {
    Nfa(syntax,
        seq(2 * n + 1, i requires 0 <= i
                         => if i == 2 * n then END_OF_RE else if i % 2 == 0 then EMPTY_BRACKET else OP_ALT),
        seq(2 * n + 1, i requires 0 <= i => if i < 2 * n && i % 2 == 0 then OptionEntry(n, i / 2 + 1) else REG_MISSING),
        seq(2 * n + 1, i requires 0 <= i => if i < 2 * n && i % 2 == 1 then [i - 1, OptionEntry(n, i / 2 + 1)] else []))
  }

  /** The entry of the j-th option, or the end. */
  function OptionEntry(n: nat, j: nat): nat {
    if j < n then 2 * j + 1 else 2 * n
  }

  /** The tree that n repetitions of an optional empty bracket give. */
  function OptionsTree(n: nat, m: nat): Tree
    requires 0 < m
  {
    var option := Node(2 * m - 1, OP_ALT, Node(2 * m - 2, EMPTY_BRACKET, Null, Null), Null);
    if m == 1 then option else Node(2 * n + m, CONCAT, OptionsTree(n, m - 1), option)
  }

  function OptionNumbers(n: nat): seq<int> {
    seq(3 * n + 1, c => if c < 2 * n then c else 1)
  }

  lemma OptionsValid(syntax: Syntax, n: nat)
    ensures OptionsNfa(syntax, n).Valid()
  {
  }

  lemma {:induction false} OptionsWired(syntax: Syntax, n: nat, m: nat)
    requires 0 < m <= n
    ensures WellFormed(OptionsTree(n, m))
    ensures Wired(OptionsNfa(syntax, n), OptionNumbers(n), OptionsTree(n, m), OptionEntry(n, m))
    ensures OptionNumbers(n)[OptionsTree(n, m).at] == 1
  {
    var a, t := OptionsNfa(syntax, n), OptionsTree(n, m);
    var option := if m == 1 then t else t.right;
    assert a.edests[2 * m - 1] == [2 * m - 2, OptionEntry(n, m)];
    assert Wired(a, OptionNumbers(n), option.left, OptionEntry(n, m));
    assert Wired(a, OptionNumbers(n), option, OptionEntry(n, m));
    if m > 1 {
      OptionsWired(syntax, n, m - 1);
    }
  }

  /** All nodes are in the initial state. */
  lemma {:induction false} OptionsReached(syntax: Syntax, n: nat, j: nat)
    requires j <= n && 0 < n
    ensures OptionsNfa(syntax, n).Valid()
    ensures OptionsNfa(syntax, n).Reach(1, [], OptionEntry(n, j))
    ensures 0 < j ==> OptionsNfa(syntax, n).Reach(1, [], 2 * j - 2)
  {
    var a := OptionsNfa(syntax, n);
    OptionsValid(syntax, n);
    if j == 0 {
      assert a.Path(0, 1, [], 1);
    } else {
      OptionsReached(syntax, n, j - 1);
      var i := 2 * j - 1;
      assert a.edests[i] == [2 * j - 2, OptionEntry(n, j)];
      assert a.Path(0, 2 * j - 2, [], 2 * j - 2) && a.Path(0, OptionEntry(n, j), [], OptionEntry(n, j));
      assert 2 * j - 2 in a.edests[i] && OptionEntry(n, j) in a.edests[i];
      assert a.Path(1, i, [], 2 * j - 2) && a.Path(1, i, [], OptionEntry(n, j));
      assert a.Reach(i, [], 2 * j - 2) && a.Reach(i, [], OptionEntry(n, j));
      var none: seq<byte> := [];
      assert none + none == none;
      ReachSplit(a, 1, none, none, 2 * j - 2);
      ReachSplit(a, 1, none, none, OptionEntry(n, j));
    }
  }

  function Upto(n: nat): seq<nat> {
    seq(n, i => i)
  }

  lemma UptoItems(n: nat)
    ensures forall q: nat :: q in Upto(n) <==> q < n
  {
    forall q: nat ensures q in Upto(n) <==> q < n {
      if q < n {
        assert Upto(n)[q] == q;
      }
    }
  }

  lemma OptionsState(syntax: Syntax, n: nat)
    requires 0 < n
    ensures OptionsNfa(syntax, n).Valid()
    ensures IsReached(OptionsNfa(syntax, n), 1, [], Upto(2 * n + 1)) && Once(OptionsNfa(syntax, n), Upto(2 * n + 1))
  {
    var a, nodes := OptionsNfa(syntax, n), Upto(2 * n + 1);
    OptionsValid(syntax, n);
    UptoItems(2 * n + 1);
    forall q: nat ensures q in nodes <==> a.Reach(1, [], q) {
      if q == 2 * n {
        OptionsReached(syntax, n, n);
      } else if q < 2 * n {
        OptionsReached(syntax, n, if q % 2 == 0 then q / 2 + 1 else q / 2);
      } else if a.Reach(1, [], q) {
        ReachesNodes(a, 1, [], q);
      }
    }
    forall p: nat | p < |a.nodes| ensures Count(nodes, p) <= 1 {
      StrictMeansSingle(nodes, p);
    }
  }

  lemma {:induction false} OptionTokens(n: nat, nodes: seq<Token>, k: nat)
    requires k <= n && 2 * n <= |nodes|
    requires forall i :: 0 <= i < 2 * n ==> nodes[i] == if i % 2 == 0 then EMPTY_BRACKET else OP_ALT
    ensures TokenCount(nodes[..2 * k], EMPTY_BRACKET) == k
  {
    if k > 0 {
      OptionTokens(n, nodes, k - 1);
      assert nodes[..2 * k][..2 * k - 1] == nodes[..2 * k - 1];
      assert nodes[..2 * k - 1][..2 * k - 2] == nodes[..2 * k - 2];
    }
  }

  lemma OptionEmpties(syntax: Syntax, n: nat)
    requires 0 < n
    ensures EmptyOccurrences(OptionsNfa(syntax, n), Upto(2 * n + 1)) == n
  {
    var a, nodes := OptionsNfa(syntax, n), Upto(2 * n + 1);
    OptionsState(syntax, n);
    OptionBrackets(syntax, n);
    hide OptionsNfa, Once;
    OccurrencesAreNodes(a, nodes);
    UptoItems(2 * n + 1);
    assert EmptyBrackets(a, nodes) == EmptyBelow(a, 2 * n + 1);
  }

  lemma OptionBrackets(syntax: Syntax, n: nat)
    ensures |OptionsNfa(syntax, n).nodes| == 2 * n + 1 && |EmptyBelow(OptionsNfa(syntax, n), 2 * n + 1)| == n
  {
    var a := OptionsNfa(syntax, n);
    EmptyBelowCount(a, 2 * n + 1);
    assert a.nodes[..2 * n + 1][..2 * n] == a.nodes[..2 * n];
    OptionTokens(n, a.nodes, n);
  }

  lemma OptionClasses(syntax: Syntax, n: nat, s: set<nat>)
    ensures Classes(OptionsNfa(syntax, n), s) == {}
  {
    var a := OptionsNfa(syntax, n);
    forall p: nat, ch ensures !a.AcceptsAt(p, ch) {
      if p <= 2 * n {
        assert a.nodes[p] in {END_OF_RE, EMPTY_BRACKET, OP_ALT};
      }
    }
    forall ch ensures Signature(a, s, ch) == {} {
    }
  }

  /** The initial state needs exactly one group for each of the brackets. */
  lemma OptionsNeed(syntax: Syntax, n: nat)
    requires 0 < n
    ensures GroupsNeeded(OptionsNfa(syntax, n), Upto(2 * n + 1)) == n
  {
    OptionEmpties(syntax, n);
    OptionClasses(syntax, n, Items(Upto(2 * n + 1)));
  }

  lemma OptionsFit(syntax: Syntax, n: nat)
    requires 0 < n <= SBC_MAX
    ensures OptionsNfa(syntax, n).Valid() && RoomFor(OptionsNfa(syntax, n), 1)
  {
    var a := OptionsNfa(syntax, n);
    OptionsValid(syntax, n);
    OptionBrackets(syntax, n);
    hide OptionsNfa, Once, IsReached;
    forall w, nodes | Once(a, nodes) && IsReached(a, 1, w, nodes) ensures GroupsNeeded(a, nodes) <= SBC_MAX {
      OptionClasses(syntax, n, Items(nodes));
      OccurrencesAreNodes(a, nodes);
      SubsetSize(EmptyBrackets(a, nodes), EmptyBelow(a, 2 * n + 1));
    }
  }

  lemma {:induction false} OptionsBound(syntax: Syntax, n: nat, m: nat)
    requires 0 < m <= n
    ensures Occurrences(OptionsTree(n, m), EMPTY_BRACKET) == m
    ensures Tokens(OptionsTree(n, m)) <= {CONCAT, OP_ALT, EMPTY_BRACKET}
  {
    if m > 1 {
      OptionsBound(syntax, n, m - 1);
    }
    assert Occurrences(Node(2 * m - 2, EMPTY_BRACKET, Null, Null), EMPTY_BRACKET) == 1;
    assert Tokens(Node(2 * m - 2, EMPTY_BRACKET, Null, Null)) == {EMPTY_BRACKET};
  }

  lemma {:induction false} NothingDistinct(sigs: seq<set<Token>>, n: nat)
    requires n <= |sigs| && forall i :: 0 <= i < |sigs| ==> sigs[i] == {}
    ensures Distinct(sigs, n) == {}
  {
    if n > 0 {
      NothingDistinct(sigs, n - 1);
    }
  }

  /** An optional empty bracket repeated n times is a well-formed expression whose automaton has
      room exactly when n is at most SBC_MAX, which is also what its bound says. */
  lemma OptionalEmptyBrackets(syntax: Syntax, n: nat)
    requires 0 < n
    ensures OptionsNfa(syntax, n).Valid() && WellFormed(OptionsTree(n, n))
    ensures Wired(OptionsNfa(syntax, n), OptionNumbers(n), OptionsTree(n, n), 2 * n)
    ensures OptionNumbers(n)[OptionsTree(n, n).at] == 1
    ensures GroupBound(syntax, OptionsTree(n, n)) == n
    ensures RoomFor(OptionsNfa(syntax, n), 1) <==> n <= SBC_MAX
  {
    hide OptionsNfa, OptionsTree, OptionNumbers, GroupsNeeded, Wired, Once, WellFormed;
    OptionsWired(syntax, n, n);
    OptionsState(syntax, n);
    OptionsNeed(syntax, n);
    if n <= SBC_MAX {
      OptionsFit(syntax, n);
    }
    OptionsGroupBound(syntax, n);
  }

  lemma OptionsGroupBound(syntax: Syntax, n: nat)
    requires 0 < n
    ensures GroupBound(syntax, OptionsTree(n, n)) == n
  {
    var t := OptionsTree(n, n);
    OptionsBound(syntax, n, n);
    forall i | 0 <= i < SBC_MAX ensures LeafSignatures(syntax, t)[i] == {} {
      var ch: byte := i;
      assert LeafSignature(syntax, t, ch) == {};
    }
    NothingDistinct(LeafSignatures(syntax, t), SBC_MAX);
  }

  /** The smallest such expression that overflows the arrays. */
  lemma TooManyEmptyBrackets(syntax: Syntax)
    ensures OptionsNfa(syntax, 257).Valid() && !RoomFor(OptionsNfa(syntax, 257), 1)
    ensures exists nodes :: IsReached(OptionsNfa(syntax, 257), 1, [], nodes)
                            && GroupsNeeded(OptionsNfa(syntax, 257), nodes) == 257
  {
    OptionalEmptyBrackets(syntax, 257);
    OptionsState(syntax, 257);
    OptionsNeed(syntax, 257);
  }
}
