/** Parse trees of the regular expression compiler and the language each of them denotes.

    A tree node carries the index `at` of its cell in the compiler's node storage, so the same
    value also describes where a tree lies in memory (see module TreeStorage).  The language
    ignores `at`. */
module RegexLanguage {

  /** The index that stands for "none". */
  const REG_MISSING := -1

  type byte = b: int | 0 <= b < 256

  /** The two syntax bits that decide what a period accepts. */
  datatype Syntax = Syntax(dotNewline: bool, dotNotNull: bool)

  datatype Token =
    | CHARACTER(c: byte)
    | SIMPLE_BRACKET(sbcset: set<byte>)
    | OP_PERIOD
    | END_OF_RE
    | OP_OPEN_SUBEXP(idx: nat)
    | OP_CLOSE_SUBEXP(idx: nat)
    | OP_ALT
    | OP_DUP_ASTERISK
    | CONCAT
    | SUBEXP(idx: nat)
  {
    predicate IsEpsilonNode() {
      OP_OPEN_SUBEXP? || OP_CLOSE_SUBEXP? || OP_ALT? || OP_DUP_ASTERISK?
    }

    predicate IsByteNode() {
      CHARACTER? || SIMPLE_BRACKET? || OP_PERIOD?
    }

    /** The operators, which have subtrees. */
    predicate IsOperator() {
      CONCAT? || OP_ALT? || OP_DUP_ASTERISK? || SUBEXP?
    }

    predicate IsMarker() {
      OP_OPEN_SUBEXP? || OP_CLOSE_SUBEXP?
    }
  }

  /** Whether a node accepts one byte of input. */
  predicate Accepts(syntax: Syntax, token: Token, ch: byte) {
    match token
    case CHARACTER(c) => c == ch
    case SIMPLE_BRACKET(sbcset) => ch in sbcset
    case OP_PERIOD => !((ch == 10 && !syntax.dotNewline) || (ch == 0 && syntax.dotNotNull))
    case _ => false
  }

  datatype Tree = Null | Node(at: nat, token: Token, left: Tree, right: Tree)

  /** The shape the parser gives to trees: which children each kind of node has. */
  ghost predicate WellFormed(t: Tree) {
    match t
    case Null => true
    case Node(_, token, left, right) =>
      && WellFormed(left)
      && WellFormed(right)
      && match token {
        case CONCAT => left.Node? && right.Node?
        case OP_ALT => true
        case OP_DUP_ASTERISK => left.Node? && right.Null?
        case SUBEXP(_) => right.Null?
        case END_OF_RE => false
        case _ => left.Null? && right.Null?
      }
  }

  /** How often a token occurs in a tree. */
  ghost function Occurrences(t: Tree, token: Token): nat {
    if t.Null? then 0
    else Occurrences(t.left, token) + Occurrences(t.right, token) + if t.token == token then 1 else 0
  }

  /** The language of a tree; a missing subtree stands for the empty word. */
  ghost predicate Lang(syntax: Syntax, t: Tree, w: seq<byte>)
    decreases t, |w|
  {
    match t
    case Null => w == []
    case Node(_, token, left, right) =>
      match token
      case CONCAT => exists i | 0 <= i <= |w| :: Lang(syntax, left, w[..i]) && Lang(syntax, right, w[i..])
      case OP_ALT => Lang(syntax, left, w) || Lang(syntax, right, w)
      case OP_DUP_ASTERISK =>
        w == [] || exists i | 0 < i <= |w| :: Lang(syntax, left, w[..i]) && Lang(syntax, t, w[i..])
      case SUBEXP(_) => Lang(syntax, left, w)
      case OP_OPEN_SUBEXP(_) => w == []
      case OP_CLOSE_SUBEXP(_) => w == []
      case END_OF_RE => w == []
      case _ => |w| == 1 && Accepts(syntax, token, w[0])
  }

  ghost predicate SameLang(syntax: Syntax, t: Tree, u: Tree) {
    forall w: seq<byte> :: Lang(syntax, t, w) <==> Lang(syntax, u, w)
  }

  lemma ConcatIntro(syntax: Syntax, t: Tree, u: seq<byte>, v: seq<byte>)
    requires t.Node? && t.token.CONCAT?
    requires Lang(syntax, t.left, u) && Lang(syntax, t.right, v)
    ensures Lang(syntax, t, u + v)
  {
    assert (u + v)[..|u|] == u && (u + v)[|u|..] == v;
  }

  lemma StarIntro(syntax: Syntax, t: Tree, u: seq<byte>, v: seq<byte>)
    requires t.Node? && t.token.OP_DUP_ASTERISK?
    requires Lang(syntax, t.left, u) && Lang(syntax, t, v)
    ensures Lang(syntax, t, u + v)
  {
    if u == [] {
      assert u + v == v;
    } else {
      assert (u + v)[..|u|] == u && (u + v)[|u|..] == v;
    }
  }

  // ----- Replacing subtrees by equivalent ones -----

  lemma {:induction false} Congruence(syntax: Syntax, t: Tree, u: Tree)
    requires t.Node? && u.Node? && t.token == u.token
    requires SameLang(syntax, t.left, u.left) && SameLang(syntax, t.right, u.right)
    ensures SameLang(syntax, t, u)
  {
    forall w: seq<byte> ensures Lang(syntax, t, w) <==> Lang(syntax, u, w) {
      if t.token.OP_DUP_ASTERISK? {
        StarCongruence(syntax, t, u, w);
      }
    }
  }

  lemma {:induction false} StarCongruence(syntax: Syntax, t: Tree, u: Tree, w: seq<byte>)
    requires t.Node? && t.token.OP_DUP_ASTERISK? && u.Node? && u.token.OP_DUP_ASTERISK?
    requires SameLang(syntax, t.left, u.left)
    ensures Lang(syntax, t, w) <==> Lang(syntax, u, w)
    decreases |w|
  {
    forall i | 0 < i <= |w| ensures Lang(syntax, t, w[i..]) <==> Lang(syntax, u, w[i..]) {
      StarCongruence(syntax, t, u, w[i..]);
    }
  }

  // ----- What each kind of node spells -----

  /** A period spells every byte but the newline, unless the syntax lets it match one, and but the
      null byte, if the syntax forbids that. */
  lemma PeriodSpells(syntax: Syntax, at: nat, ch: byte)
    ensures Lang(syntax, Node(at, OP_PERIOD, Null, Null), [ch])
            <==> (ch == 10 ==> syntax.dotNewline) && (ch == 0 ==> !syntax.dotNotNull)
  {
  }

  lemma CharacterSpells(syntax: Syntax, at: nat, c: byte, ch: byte)
    ensures Lang(syntax, Node(at, CHARACTER(c), Null, Null), [ch]) <==> ch == c
  {
  }

  lemma BracketSpells(syntax: Syntax, at: nat, sbcset: set<byte>, ch: byte)
    ensures Lang(syntax, Node(at, SIMPLE_BRACKET(sbcset), Null, Null), [ch]) <==> ch in sbcset
  {
  }

  /** The nodes that accept a byte spell words of one byte; markers spell the empty word. */
  lemma LeafSpellsLength(syntax: Syntax, t: Tree, w: seq<byte>)
    requires t.Node? && !t.token.IsOperator()
    ensures t.token.IsByteNode() && Lang(syntax, t, w) ==> |w| == 1
    ensures !t.token.IsByteNode() ==> (Lang(syntax, t, w) <==> w == [])
  {
  }

  lemma ConcatSpellsPairs(syntax: Syntax, t: Tree, w: seq<byte>)
    requires t.Node? && t.token.CONCAT?
    ensures Lang(syntax, t, w) <==> exists u, v :: Lang(syntax, t.left, u) && Lang(syntax, t.right, v) && w == u + v
  {
    if Lang(syntax, t, w) {
      var i :| 0 <= i <= |w| && Lang(syntax, t.left, w[..i]) && Lang(syntax, t.right, w[i..]);
      assert w == w[..i] + w[i..];
    }
    if u, v :| Lang(syntax, t.left, u) && Lang(syntax, t.right, v) && w == u + v {
      ConcatIntro(syntax, t, u, v);
    }
  }

  lemma AlternativeSpellsEither(syntax: Syntax, t: Tree, w: seq<byte>)
    requires t.Node? && t.token.OP_ALT?
    ensures Lang(syntax, t, w) <==> (if t.left.Null? then w == [] else Lang(syntax, t.left, w))
                                    || (if t.right.Null? then w == [] else Lang(syntax, t.right, w))
  {
  }

  lemma SubexpSpellsBody(syntax: Syntax, t: Tree, w: seq<byte>)
    requires t.Node? && t.token.SUBEXP?
    ensures Lang(syntax, t, w) <==> if t.left.Null? then w == [] else Lang(syntax, t.left, w)
  {
  }
}
