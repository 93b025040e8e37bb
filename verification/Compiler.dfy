/** From the parse tree to a DFA that is ready to run, and a whole search with it. */
module Compiler {
  import opened RegexLanguage
  import opened TreeStorage
  import opened Automaton
  import opened NodeSets
  import opened NfaBuilder
  import opened Closures
  import opened StateTable
  import opened Capacity
  import opened Transitions
  import opened Matching
  import opened Searching

  /** create_initial_state: the closure of the entry node becomes the first state. */
  method CreateInitialState(dfa: Dfa, first: nat) returns (init: DfaState)
    requires dfa.Valid() && first < |dfa.nfa.nodes|
    modifies dfa
    ensures dfa.Valid() && dfa.Extended() && init in dfa.states
    ensures StateAfter(dfa.nfa, first, [], init)
  {
    var nodes := dfa.eclosures[first];
    assert dfa.nfa.Path(0, first, [], first);
    assert dfa.nfa.Reach(first, [], first);
    assert first in nodes;
    forall q | q in nodes ensures q < |dfa.nfa.nodes| {
      ReachesNodes(dfa.nfa, first, [], q);
    }
    init := dfa.AcquireStateContext(nodes, 0);
  }

  /** The closure tables of the automaton. */
  method BuildClosures(nfa: Nfa) returns (eclosures: seq<seq<nat>>, inveclosures: seq<seq<nat>>)
    requires nfa.Valid()
    ensures |eclosures| == |inveclosures| == |nfa.nodes|
    ensures forall p :: 0 <= p < |eclosures| ==> Sorted(eclosures[p]) && Sorted(inveclosures[p])
    ensures forall p :: 0 <= p < |eclosures| ==> Once(nfa, eclosures[p])
    ensures forall p: nat, q: nat :: p < |eclosures| ==> (q in eclosures[p] <==> nfa.Reach(p, [], q))
    ensures forall p: nat, q: nat :: q < |inveclosures| ==>
              (p in inveclosures[q] <==> p < |nfa.nodes| && nfa.Reach(p, [], q))
  {
    var table := new ClosureTable(nfa);
    table.CalcEclosure();
    table.CalcInveclosure();
    eclosures := seq(|nfa.nodes|, p requires 0 <= p < |nfa.nodes| && table.AllComputed() reads table
                                    => table.eclosures[p].elems);
    inveclosures := table.inveclosures;
    forall p: nat, q: nat | p < |eclosures| ensures q in eclosures[p] <==> nfa.Reach(p, [], q) {
      ReachesIsReach(nfa, p, q);
    }
    forall p: nat, q: nat | q < |inveclosures|
      ensures p in inveclosures[q] <==> p < |nfa.nodes| && nfa.Reach(p, [], q)
    {
      if p < |nfa.nodes| {
        table.InverseIsConverse(p, q);
      }
    }
  }

  /** re_compile_internal after parsing: for every well-formed expression the result is a DFA that
      recognizes its language, and that has room for the groups of all its states as soon as the
      bound of the expression says so. */
  method Compile(store: TreeStore, root: nat, noSub: bool, syntax: Syntax, patLen: nat, ghost t: Tree, ghost re: Tree)
      returns (dfa: Dfa, init: DfaState, ghost entry: nat, ghost end: nat)
    requires ParsedAs(t, re) && WellFormed(re) && root == t.at && Stands(store.cells, t)
    modifies store
    ensures fresh(dfa) && fresh(dfa.states) && dfa.nfa.syntax == syntax
    ensures Compiled(dfa, init, entry, end, re)
    ensures GroupBound(syntax, re) <= SBC_MAX ==> RoomFor(dfa.nfa, entry)
  {
    var tables := new NfaTables();
    var first;
    first, end := Analyze(store, tables, root, noSub, syntax, t, re);
    var nfa := tables.Table(syntax);
    var eclosures, inveclosures := BuildClosures(nfa);
    dfa := new Dfa(nfa, eclosures, inveclosures, patLen);
    init := CreateInitialState(dfa, first);
    entry := first;
    if GroupBound(syntax, re) <= SBC_MAX {
      BoundGivesRoom(nfa, entry, re);
    }
  }

  lemma InitNodes(dfa: Dfa, init: DfaState, entry: nat, end: nat, re: Tree)
    requires Compiled(dfa, init, entry, end, re)
    ensures forall p :: p in init.nodes ==> p < |dfa.nfa.nodes|
  {
  }

  /** End to end: when the classes of bytes that its leaves tell apart and its empty brackets are at
      most SBC_MAX together, compiling the expression and searching the text finds the first starting
      point with a match, and its longest match. */
  method CompileAndSearch(store: TreeStore, root: nat, noSub: bool, syntax: Syntax, patLen: nat,
                          useFastmap: bool, prune: bool, text: seq<byte>, start: nat, lastStart: nat, stop: int,
                          ghost t: Tree, ghost re: Tree)
      returns (found: bool, matchFirst: int, matchLast: int)
    requires ParsedAs(t, re) && WellFormed(re) && root == t.at && Stands(store.cells, t)
    requires GroupBound(syntax, re) <= SBC_MAX
    requires start <= |text| && lastStart <= |text| && stop <= |text|
    modifies store
    ensures IsFirstMatch(true, syntax, re, text, stop, start, lastStart, found, matchFirst, matchLast)
  {
    hide RoomFor, GroupBound, IsFirstMatch, Dfa.Valid, Spells, FastmapExact, ParsedAs, WellFormed, Stands;
    var dfa, init, entry, end := Compile(store, root, noSub, syntax, patLen, t, re);
    var fastmap: array?<bool>, canBeNull := null, false;
    if useFastmap {
      InitNodes(dfa, init, entry, end, re);
      var bytes := new bool[SBC_MAX];
      canBeNull := CompileFastmap(dfa, init, bytes, false);
      fastmap := bytes;
    }
    var log, sifted;
    found, matchFirst, matchLast, log, sifted :=
      Search(dfa, init, fastmap, true, canBeNull, text, start, lastStart, stop, true, prune, entry, end, re);
  }
}
