/** Running the lazily built automaton over a text: the longest match from one starting point. */
module Matching {
  import opened RegexLanguage
  import opened Automaton
  import opened NfaBuilder
  import opened StateTable
  import opened Closures
  import opened Grouping
  import opened Capacity
  import opened Transitions

  // ----- One more byte -----

  lemma {:induction false} ByteMove(a: Nfa, n: nat, p: nat, ch: byte, q: nat)
    requires a.Valid() && a.Path(n, p, [ch], q)
    ensures exists m: nat :: a.Reach(p, [], m) && Moves(a, m, ch, q)
    decreases n
  {
    assert [ch][1..] == [];
    if k :| k in a.edests[p] && a.Path(n - 1, k, [ch], q) {
      ByteMove(a, n - 1, k, ch, q);
      var m: nat :| a.Reach(k, [], m) && Moves(a, m, ch, q);
      var i: nat :| a.Path(i, k, [], m);
      EpsilonStep(a, i, p, k, [], m);
      assert a.Reach(p, [], m);
    } else {
      assert a.Path(0, p, [], p);
      assert Moves(a, p, ch, q);
    }
  }

  lemma MoveReaches(a: Nfa, m: nat, ch: byte, q: nat)
    requires a.Valid() && Moves(a, m, ch, q)
    ensures a.Reach(m, [ch], q)
  {
    var n: nat :| a.Path(n, a.nexts[m], [], q);
    assert [ch][1..] == [];
    ByteStep(a, n, m, [ch], q);
  }

  /** The nodes reached by w and one more byte. */
  lemma ReachOneMore(a: Nfa, p: nat, w: seq<byte>, ch: byte, q: nat)
    requires a.Valid()
    ensures a.Reach(p, w + [ch], q) <==> exists m: nat :: a.Reach(p, w, m) && Moves(a, m, ch, q)
  {
    ReachSplit(a, p, w, [ch], q);
    if a.Reach(p, w + [ch], q) {
      var k: nat :| a.Reach(p, w, k) && a.Reach(k, [ch], q);
      var n: nat :| a.Path(n, k, [ch], q);
      ByteMove(a, n, k, ch, q);
      var m: nat :| a.Reach(k, [], m) && Moves(a, m, ch, q);
      ReachSplit(a, p, w, [], m);
      assert w + [] == w;
    }
    if m: nat :| a.Reach(p, w, m) && Moves(a, m, ch, q) {
      MoveReaches(a, m, ch, q);
    }
  }

  // ----- DFA states and input prefixes -----

  /** The node set of the state is exactly what the automaton reaches by w, only epsilon nodes
      being repeated; no state stands for the empty set. */
  ghost predicate StateAfter(nfa: Nfa, entry: nat, w: seq<byte>, s: DfaState?)
    requires nfa.Valid()
  {
    && (s != null ==> Once(nfa, s.nodes))
    && forall q: nat :: (s != null && q in s.nodes) <==> nfa.Reach(entry, w, q)
  }

  /** Every state of a run fits the arrays for its groups. */
  lemma StateFits(nfa: Nfa, entry: nat, w: seq<byte>, s: DfaState)
    requires nfa.Valid() && RoomFor(nfa, entry) && StateAfter(nfa, entry, w, s)
    ensures GroupsNeeded(nfa, s.nodes) <= SBC_MAX
  {
    assert IsReached(nfa, entry, w, s.nodes);
  }

  lemma StateStep(dfa: Dfa, entry: nat, w: seq<byte>, s: DfaState, ch: byte, r: DfaState?)
    requires dfa.nfa.Valid() && StateAfter(dfa.nfa, entry, w, s) && dfa.Transition(s, ch, r)
    ensures StateAfter(dfa.nfa, entry, w + [ch], r)
  {
    var a := dfa.nfa;
    var nodes := if r == null then [] else r.nodes;
    assert IsMove(a, s.nodes, ch, nodes);
    forall q: nat ensures q in nodes <==> a.Reach(entry, w + [ch], q) {
      ReachOneMore(a, entry, w, ch, q);
    }
  }

  /** Once no node is reached, none ever is. */
  lemma DeadForever(a: Nfa, entry: nat, u: seq<byte>, v: seq<byte>, q: nat)
    requires a.Valid() && StateAfter(a, entry, u, null)
    ensures !a.Reach(entry, u + v, q)
  {
    ReachSplit(a, entry, u, v, q);
  }

  /** The compiled form of the expression re: the automaton of the DFA spells its language, and
      the initial state is the closure of the entry node. */
  ghost predicate Compiled(dfa: Dfa, init: DfaState, entry: nat, end: nat, re: Tree)
    reads dfa, dfa.states
  {
    && dfa.Valid() && init in dfa.states
    && Spells(dfa.nfa, entry, end, re)
    && StateAfter(dfa.nfa, entry, [], init)
  }

  lemma HaltMeansWord(dfa: Dfa, init: DfaState, entry: nat, end: nat, re: Tree, w: seq<byte>, s: DfaState)
    requires Compiled(dfa, init, entry, end, re) && s in dfa.states && StateAfter(dfa.nfa, entry, w, s)
    ensures s.halt <==> Lang(dfa.nfa.syntax, re, w)
  {
    assert s.Describes(dfa.nfa);
    assert s.halt <==> end in s.nodes;
  }

  // ----- Matches from the start of a text -----

  /** The first e bytes of the text match. */
  ghost predicate Matches(syntax: Syntax, re: Tree, text: seq<byte>, e: int) {
    0 <= e <= |text| && Lang(syntax, re, text[..e])
  }

  /** r is the largest match end up to n, or REG_MISSING when there is none. */
  ghost predicate IsLongest(syntax: Syntax, re: Tree, text: seq<byte>, n: int, r: int) {
    && (r == REG_MISSING || (r <= n && Matches(syntax, re, text, r)))
    && forall e :: r < e <= n ==> !Matches(syntax, re, text, e)
  }

  /** r is the smallest match end up to n, or REG_MISSING when there is none. */
  ghost predicate IsShortest(syntax: Syntax, re: Tree, text: seq<byte>, n: int, r: int) {
    && (r == REG_MISSING || (r <= n && Matches(syntax, re, text, r)))
    && forall e :: e <= n && (r == REG_MISSING || e < r) ==> !Matches(syntax, re, text, e)
  }

  /** The run came back to the entry node after k bytes. */
  ghost predicate BackAtEntry(a: Nfa, entry: nat, text: seq<byte>, k: int)
    requires a.Valid()
  {
    0 <= k <= |text| && a.Reach(entry, text[..k], entry)
  }

  /** A match that starts after k bytes, where the run is back at the entry, extends to a match
      from the start. */
  lemma LaterMatchExtends(dfa: Dfa, init: DfaState, entry: nat, end: nat, re: Tree, text: seq<byte>, k: nat, e: nat)
    requires Compiled(dfa, init, entry, end, re) && BackAtEntry(dfa.nfa, entry, text, k)
    requires k <= e <= |text| && Lang(dfa.nfa.syntax, re, text[k..e])
    ensures Matches(dfa.nfa.syntax, re, text, e)
  {
    assert text[..e] == text[..k] + text[k..e];
    ReachSplit(dfa.nfa, entry, text[..k], text[k..e], end);
  }

  /** How far the run may read. */
  function Limit(stop: int): nat {
    if stop < 0 then 0 else stop
  }

  ghost predicate Logged(a: Nfa, entry: nat, text: seq<byte>, log: seq<DfaState?>)
    requires a.Valid()
  {
    |log| <= |text| + 1 && forall i :: 0 <= i < |log| ==> StateAfter(a, entry, text[..i], log[i])
  }

  /** What check_matching promises about the match ends up to n. */
  ghost predicate Best(longest: bool, syntax: Syntax, re: Tree, text: seq<byte>, n: int, r: int) {
    if longest then IsLongest(syntax, re, text, n, r) else IsShortest(syntax, re, text, n, r)
  }

  lemma BestFirst(longest: bool, syntax: Syntax, re: Tree, text: seq<byte>)
    ensures Best(longest, syntax, re, text, 0, if Lang(syntax, re, []) then 0 else REG_MISSING)
  {
    assert text[..0] == [];
  }

  lemma BestNext(longest: bool, syntax: Syntax, re: Tree, text: seq<byte>, n: nat, r: int)
    requires Best(longest, syntax, re, text, n, r) && n < |text| && (longest || r == REG_MISSING)
    ensures Best(longest, syntax, re, text, n + 1, if Lang(syntax, re, text[..n + 1]) then n + 1 else r)
  {
  }

  lemma ShortestStays(syntax: Syntax, re: Tree, text: seq<byte>, n: int, m: int, r: int)
    requires Best(false, syntax, re, text, n, r) && r != REG_MISSING && n <= m
    ensures Best(false, syntax, re, text, m, r)
  {
  }

  /** Once the state set is empty, no longer match can follow. */
  lemma BestDead(dfa: Dfa, init: DfaState, entry: nat, end: nat, re: Tree, longest: bool, text: seq<byte>, n: nat,
                 m: nat, r: int)
    requires Compiled(dfa, init, entry, end, re) && n < m <= |text|
    requires StateAfter(dfa.nfa, entry, text[..n + 1], null)
    requires Best(longest, dfa.nfa.syntax, re, text, n, r)
    ensures Best(longest, dfa.nfa.syntax, re, text, m, r)
  {
    forall e | n < e <= m ensures !Matches(dfa.nfa.syntax, re, text, e) {
      assert text[..e] == text[..n + 1] + text[n + 1..e];
      DeadForever(dfa.nfa, entry, text[..n + 1], text[n + 1..e], end);
    }
  }

  /** A run that is in the initial state again is back at the entry. */
  lemma InitIsEntry(dfa: Dfa, init: DfaState, entry: nat, text: seq<byte>, k: nat)
    requires dfa.nfa.Valid() && k <= |text|
    requires StateAfter(dfa.nfa, entry, [], init) && StateAfter(dfa.nfa, entry, text[..k], init)
    ensures BackAtEntry(dfa.nfa, entry, text, k)
  {
    assert dfa.nfa.Path(0, entry, [], entry);
    assert dfa.nfa.Reach(entry, [], entry);
    assert entry in init.nodes;
  }

  ghost predicate LogValid(dfa: Dfa, entry: nat, text: seq<byte>, log: seq<DfaState?>)
    reads dfa
  {
    && dfa.nfa.Valid() && Logged(dfa.nfa, entry, text, log)
    && forall i :: 0 <= i < |log| ==> log[i] == null || log[i] in dfa.states
  }

  lemma RunStart(dfa: Dfa, init: DfaState, entry: nat, end: nat, re: Tree, text: seq<byte>)
    requires Compiled(dfa, init, entry, end, re)
    ensures LogValid(dfa, entry, text, [init]) && StateAfter(dfa.nfa, entry, text[..0], init)
    ensures BackAtEntry(dfa.nfa, entry, text, 0)
    ensures init.halt <==> Lang(dfa.nfa.syntax, re, [])
  {
    assert text[..0] == [];
    InitIsEntry(dfa, init, entry, text, 0);
    HaltMeansWord(dfa, init, entry, end, re, [], init);
  }

  /** transit_state and the log entry for the new position. */
  method Advance(dfa: Dfa, init: DfaState, text: seq<byte>, curIdx: nat, curState: DfaState, stateLog: seq<DfaState?>,
                 ghost entry: nat, ghost end: nat, ghost re: Tree)
      returns (next: DfaState?, newLog: seq<DfaState?>)
    requires Compiled(dfa, init, entry, end, re) && RoomFor(dfa.nfa, entry)
    requires curState in dfa.states && curIdx < |text|
    requires StateAfter(dfa.nfa, entry, text[..curIdx], curState)
    requires LogValid(dfa, entry, text, stateLog) && |stateLog| == curIdx + 1
    modifies dfa, curState`trtable
    ensures Compiled(dfa, init, entry, end, re) && dfa.Extended()
    ensures next == null || next in dfa.states
    ensures StateAfter(dfa.nfa, entry, text[..curIdx + 1], next)
    ensures next != null ==> (next.halt <==> Lang(dfa.nfa.syntax, re, text[..curIdx + 1]))
    ensures LogValid(dfa, entry, text, newLog) && newLog == stateLog + [next]
  {
    hide Dfa.TableValid, Dfa.ClosuresExact, Dfa.Unique, Dfa.TransitionsValid, Dfa.InverseValid, StateAfter, RoomFor;
    StateFits(dfa.nfa, entry, text[..curIdx], curState);
    next := TransitState(dfa, curState, text[curIdx]);
    assert text[..curIdx + 1] == text[..curIdx] + [text[curIdx]];
    StateStep(dfa, entry, text[..curIdx], curState, text[curIdx], next);
    newLog := stateLog + [next];
    if next != null {
      HaltMeansWord(dfa, init, entry, end, re, text[..curIdx + 1], next);
    }
  }

  /** The run stays in the initial state for exactly the first k bytes. */
  ghost predicate LeavesInit(log: seq<DfaState?>, init: DfaState, k: nat) {
    k < |log| && (forall i :: 0 <= i <= k ==> log[i] == init) && (k + 1 < |log| ==> log[k + 1] != init)
  }

  /** check_matching: the longest (or else the shortest) match from the start of the text, and by
      how much the caller may advance its starting point when there is none. */
  method CheckMatching(dfa: Dfa, init: DfaState, text: seq<byte>, stop: int, longest: bool, mayAdvance: bool,
                       ghost entry: nat, ghost end: nat, ghost re: Tree)
      returns (matchLast: int, advance: nat, stateLog: seq<DfaState?>)
    requires Compiled(dfa, init, entry, end, re) && RoomFor(dfa.nfa, entry) && stop <= |text|
    modifies dfa, dfa.states
    ensures Compiled(dfa, init, entry, end, re) && dfa.Extended()
    ensures Best(longest, dfa.nfa.syntax, re, text, Limit(stop), matchLast)
    ensures matchLast != REG_MISSING || !mayAdvance ==> advance == 0
    ensures matchLast == REG_MISSING && mayAdvance ==> LeavesInit(stateLog, init, advance)
    ensures advance <= Limit(stop) && forall k :: 0 <= k <= advance ==> BackAtEntry(dfa.nfa, entry, text, k)
    ensures LogValid(dfa, entry, text, stateLog)
    ensures matchLast == REG_MISSING || (0 <= matchLast <= Limit(stop) && matchLast < |stateLog|)
  {
    hide Dfa.Valid, Spells, StateAfter, Best, BackAtEntry, LogValid, RoomFor;
    ghost var syntax := dfa.nfa.syntax;
    matchLast := REG_MISSING;
    var curIdx: nat, nextStartIdx: nat := 0, 0;
    var curState := init;
    var atInitState, keepsFirst := mayAdvance, mayAdvance;
    stateLog := [curState];
    advance := 0;
    RunStart(dfa, init, entry, end, re, text);
    BestFirst(longest, syntax, re, text);
    if curState.halt {
      matchLast := 0;
      if !longest {
        ShortestStays(syntax, re, text, 0, Limit(stop), matchLast);
        return;
      }
    }
    while curIdx < stop
      invariant curIdx <= Limit(stop)
      invariant Compiled(dfa, init, entry, end, re) && dfa.Extended() && curState in dfa.states
      invariant dfa.nfa.Valid() && StateAfter(dfa.nfa, entry, text[..curIdx], curState)
      invariant Best(longest, syntax, re, text, curIdx, matchLast) && (longest || matchLast == REG_MISSING)
      invariant REG_MISSING <= matchLast <= curIdx
      invariant atInitState ==> curState == init && nextStartIdx == curIdx
      invariant mayAdvance && matchLast == REG_MISSING ==> keepsFirst
      invariant mayAdvance ==> LeavesInit(stateLog, init, nextStartIdx) && (!atInitState ==> nextStartIdx < curIdx)
      invariant nextStartIdx <= curIdx && forall k :: 0 <= k <= nextStartIdx ==> BackAtEntry(dfa.nfa, entry, text, k)
      invariant keepsFirst ==> mayAdvance && (matchLast == REG_MISSING || init.halt)
      invariant keepsFirst && init.halt ==> nextStartIdx == 0
      invariant LogValid(dfa, entry, text, stateLog) && |stateLog| == curIdx + 1
    {
      var next;
      next, stateLog := Advance(dfa, init, text, curIdx, curState, stateLog, entry, end, re);
      if next == null {
        BestDead(dfa, init, entry, end, re, longest, text, curIdx, Limit(stop), matchLast);
        break;
      }
      BestNext(longest, syntax, re, text, curIdx, matchLast);
      var oldState := curState;
      curState, curIdx := next, curIdx + 1;
      if atInitState {
        if oldState == curState {
          nextStartIdx := curIdx;
          InitIsEntry(dfa, init, entry, text, curIdx);
        } else {
          atInitState := false;
        }
      }
      if curState.halt {
        matchLast := curIdx;
        keepsFirst := false;
        if !longest {
          ShortestStays(syntax, re, text, curIdx, Limit(stop), matchLast);
          break;
        }
      }
    }
    if keepsFirst {
      advance := nextStartIdx;
    }
  }
}
