/** Sifting the state log backward after a match: of every logged state only the nodes from which
    the last node is still reached survive. */
module Sifting {
  import opened RegexLanguage
  import opened Automaton
  import opened NodeSets
  import opened Closures
  import opened NfaBuilder
  import opened StateTable
  import opened Matching

  ghost predicate InState(s: DfaState?, q: nat) {
    s != null && q in s.nodes
  }

  /** The run from q on the rest of the match ends in the last node. */
  ghost predicate LeadsOn(a: Nfa, text: seq<byte>, i: int, matchLast: int, last: nat, q: nat)
    requires a.Valid()
  {
    0 <= i <= matchLast <= |text| && a.Reach(q, text[i..matchLast], last)
  }

  /** s holds exactly the nodes of the logged state that lead on to the last node. */
  ghost predicate IsSifted(a: Nfa, text: seq<byte>, i: int, matchLast: int, last: nat, logged: DfaState?, s: DfaState?)
    requires a.Valid()
  {
    forall q: nat :: InState(s, q) <==> InState(logged, q) && LeadsOn(a, text, i, matchLast, last, q)
  }

  /** q reaches some node of the set by epsilon moves. */
  ghost predicate ReachesSome(a: Nfa, q: nat, dest: seq<nat>)
    requires a.Valid()
  {
    q < |a.nodes| && exists p :: p in dest && a.Reach(q, [], p)
  }

  /** add_epsilon_src_nodes: the inverse closure is computed once for every state. */
  method AddEpsilonSrcNodes(dfa: Dfa, dest: seq<nat>, candidates: seq<nat>) returns (r: seq<nat>)
    requires dfa.Valid() && Sorted(dest) && dest != [] && Sorted(candidates)
    requires forall p :: p in dest ==> p < |dfa.nfa.nodes|
    modifies dfa, dfa.states
    ensures dfa.Valid() && dfa.Extended() && Sorted(r)
    ensures forall q :: q in r <==> q in dest || (q in candidates && ReachesSome(dfa.nfa, q, dest))
  {
    var state := dfa.AcquireState(dest);
    if !state.inveclosure.Computed? {
      CacheInverse(dfa, state);
    }
    InverseCached(dfa, state);
    AddedCommonItems(dest, candidates, state.inveclosure.elems);
    r := AddedCommon(dest, candidates, state.inveclosure.elems);
  }

  method CacheInverse(dfa: Dfa, state: DfaState)
    requires dfa.Valid() && state in dfa.states && !state.inveclosure.Computed?
    modifies state`inveclosure
    ensures dfa.Valid() && state.inveclosure.Computed?
  {
    var inv := InverseOf(dfa, state.nodes);
    state.inveclosure := Computed(inv);
  }

  lemma InverseCached(dfa: Dfa, state: DfaState)
    requires dfa.Valid() && state in dfa.states && state.inveclosure.Computed?
    ensures Sorted(state.inveclosure.elems)
    ensures forall q: nat :: q in state.inveclosure.elems <==> ReachesSome(dfa.nfa, q, state.nodes)
  {
  }

  method InverseOf(dfa: Dfa, dest: seq<nat>) returns (inv: seq<nat>)
    requires dfa.ClosuresExact() && forall p :: p in dest ==> p < |dfa.nfa.nodes|
    ensures Sorted(inv) && forall q: nat :: q in inv <==> ReachesSome(dfa.nfa, q, dest)
  {
    inv := [];
    for i := 0 to |dest|
      invariant Sorted(inv) && forall q: nat :: q in inv <==> ReachesSome(dfa.nfa, q, dest[..i])
    {
      var p := dest[i];
      assert p in dest;
      ReachesOneMore(dfa.nfa, dest, i);
      MergedItems(inv, dfa.inveclosures[p]);
      inv := Merged(inv, dfa.inveclosures[p]);
    }
    assert dest[..|dest|] == dest;
  }

  lemma ReachesOneMore(a: Nfa, dest: seq<nat>, i: nat)
    requires a.Valid() && i < |dest|
    ensures forall q: nat :: ReachesSome(a, q, dest[..i + 1])
              <==> ReachesSome(a, q, dest[..i]) || (q < |a.nodes| && a.Reach(q, [], dest[i]))
  {
    assert dest[..i + 1] == dest[..i] + [dest[i]];
    forall q: nat ensures ReachesSome(a, q, dest[..i + 1])
                    <==> ReachesSome(a, q, dest[..i]) || (q < |a.nodes| && a.Reach(q, [], dest[i])) {
      if p :| p in dest[..i] && a.Reach(q, [], p) {
        assert p in dest[..i + 1];
      }
      if a.Reach(q, [], dest[i]) {
        assert dest[i] in dest[..i + 1];
      }
    }
  }

  /** update_cur_sifted_state: the sifted state is the candidates that reach dest by epsilon moves,
      together with dest. */
  method UpdateCurSiftedState(dfa: Dfa, stateLog: seq<DfaState?>, sifted: array<DfaState?>, strIdx: nat, dest: seq<nat>)
    requires dfa.Valid() && Sorted(dest) && strIdx < |stateLog| && strIdx < sifted.Length
    requires forall p :: p in dest ==> p < |dfa.nfa.nodes|
    requires forall s :: s in stateLog ==> s == null || s in dfa.states
    modifies dfa, dfa.states, sifted
    ensures dfa.Valid() && dfa.Extended()
    ensures forall k :: 0 <= k < sifted.Length && k != strIdx ==> sifted[k] == old(sifted[k])
    ensures sifted[strIdx] == null || sifted[strIdx] in dfa.states
    ensures forall q: nat :: InState(sifted[strIdx], q) <==>
              q in dest || (InState(stateLog[strIdx], q) && ReachesSome(dfa.nfa, q, dest))
  {
    var logged := stateLog[strIdx];
    assert logged in stateLog;
    if dest == [] {
      sifted[strIdx] := null;
    } else {
      var nodes := dest;
      if logged != null {
        nodes := AddEpsilonSrcNodes(dfa, nodes, logged.nodes);
      }
      var s := dfa.AcquireState(nodes);
      sifted[strIdx] := s;
    }
  }

  /** build_sifted_states: the nodes that accept the next byte and lead into the next sifted state. */
  method BuildSiftedStates(dfa: Dfa, text: seq<byte>, logged: DfaState, next: DfaState?,
                           strIdx: nat) returns (curDest: seq<nat>)
    requires dfa.Valid() && logged in dfa.states && strIdx < |text|
    ensures Sorted(curDest)
    ensures forall p :: p in curDest <==> Survives(dfa.nfa, text[strIdx], logged, next, p)
  {
    curDest := [];
    var curSrc := logged.nonEpsNodes;
    for i := 0 to |curSrc|
      invariant Sorted(curDest)
      invariant forall p :: p in curDest <==> p in curSrc[..i] && Survives(dfa.nfa, text[strIdx], logged, next, p)
    {
      var prevNode := curSrc[i];
      assert prevNode in curSrc;
      assert curSrc[..i + 1] == curSrc[..i] + [prevNode];
      if dfa.nfa.AcceptsAt(prevNode, text[strIdx]) && next != null && dfa.nfa.nexts[prevNode] in next.nodes {
        InsertedItems(curDest, prevNode);
        InsertedSorted(curDest, prevNode);
        curDest := Inserted(curDest, prevNode);
      }
    }
    assert curSrc[..|curSrc|] == curSrc;
  }

  predicate Survives(nfa: Nfa, ch: byte, logged: DfaState, next: DfaState?, p: nat)
  {
    && p in logged.nodes && nfa.AcceptsAt(p, ch)
    && next != null && p < |nfa.nexts| && 0 <= nfa.nexts[p] && nfa.nexts[p] in next.nodes
  }

  /** At the last position only the nodes that reach the last node by epsilon moves survive. */
  lemma SiftLast(a: Nfa, text: seq<byte>, matchLast: nat, last: nat, logged: DfaState, s: DfaState?)
    requires a.Valid() && matchLast <= |text| && last in logged.nodes && last < |a.nodes|
    requires forall p :: p in logged.nodes ==> p < |a.nodes|
    requires forall q: nat :: InState(s, q) <==> q in [last] || (InState(logged, q) && ReachesSome(a, q, [last]))
    ensures IsSifted(a, text, matchLast, matchLast, last, logged, s)
  {
    assert text[matchLast..matchLast] == [];
    assert a.Path(0, last, [], last);
    assert a.Reach(last, [], last);
    assert last in [last];
    forall q: nat | InState(logged, q) ensures ReachesSome(a, q, [last]) <==> a.Reach(q, [], last) {
    }
  }

  /** Every node that leads on consumes the next byte at some node reached by epsilon moves, which
      is logged too and whose successor is logged next. */
  lemma LeadsThrough(a: Nfa, entry: nat, text: seq<byte>, i: nat, matchLast: nat, last: nat, q: nat)
      returns (m: nat)
    requires a.Valid() && i < matchLast && LeadsOn(a, text, i, matchLast, last, q)
    requires a.Reach(entry, text[..i], q)
    ensures a.Reach(q, [], m) && a.Reach(entry, text[..i], m)
    ensures m < |a.nodes| && a.AcceptsAt(m, text[i]) && 0 <= a.nexts[m]
    ensures a.Reach(entry, text[..i + 1], a.nexts[m]) && LeadsOn(a, text, i + 1, matchLast, last, a.nexts[m])
  {
    var ch := text[i];
    assert text[i..matchLast] == [ch] + text[i + 1..matchLast];
    ReachSplit(a, q, [ch], text[i + 1..matchLast], last);
    var k: nat :| a.Reach(q, [ch], k) && a.Reach(k, text[i + 1..matchLast], last);
    var n: nat :| a.Path(n, q, [ch], k);
    ByteMove(a, n, q, ch, k);
    m :| a.Reach(q, [], m) && Moves(a, m, ch, k);
    ReachSplit(a, entry, text[..i], [], m);
    assert text[..i] + [] == text[..i];
    assert text[..i + 1] == text[..i] + [ch];
    assert a.Path(0, a.nexts[m], [], a.nexts[m]);
    assert Moves(a, m, ch, a.nexts[m]);
    ReachOneMore(a, entry, text[..i], ch, a.nexts[m]);
    ReachSplit(a, a.nexts[m], [], text[i + 1..matchLast], last);
    assert [] + text[i + 1..matchLast] == text[i + 1..matchLast];
  }

  /** The converse: a surviving node leads on, and so does everything that reaches it. */
  lemma SurvivorLeadsOn(a: Nfa, text: seq<byte>, i: nat, matchLast: nat, last: nat, logged: DfaState,
                        nextLogged: DfaState?,
                        next: DfaState?, p: nat, q: nat)
    requires a.Valid() && i < matchLast <= |text| && IsSifted(a, text, i + 1, matchLast, last, nextLogged, next)
    requires Survives(a, text[i], logged, next, p) && a.Reach(q, [], p)
    ensures LeadsOn(a, text, i, matchLast, last, q)
  {
    var ch, k := text[i], a.nexts[p];
    assert InState(next, k);
    assert a.Path(0, k, [], k);
    assert Moves(a, p, ch, k);
    assert [ch] == [] + [ch];
    ReachOneMore(a, q, [], ch, k);
    assert text[i..matchLast] == [ch] + text[i + 1..matchLast];
    ReachSplit(a, q, [ch], text[i + 1..matchLast], last);
  }

  /** One position back. */
  lemma SiftStep(a: Nfa, entry: nat, text: seq<byte>, i: nat, matchLast: nat, last: nat, logged: DfaState,
                 nextLogged: DfaState?,
                 next: DfaState?, curDest: seq<nat>, s: DfaState?)
    requires a.Valid() && i < matchLast <= |text| && IsSifted(a, text, i + 1, matchLast, last, nextLogged, next)
    requires StateAfter(a, entry, text[..i], logged) && StateAfter(a, entry, text[..i + 1], nextLogged)
    requires forall p :: p in curDest <==> Survives(a, text[i], logged, next, p)
    requires forall p :: p in logged.nodes ==> p < |a.nodes|
    requires forall q: nat :: InState(s, q) <==> q in curDest || (InState(logged, q) && ReachesSome(a, q, curDest))
    ensures IsSifted(a, text, i, matchLast, last, logged, s)
  {
    forall q: nat ensures InState(s, q) <==> InState(logged, q) && LeadsOn(a, text, i, matchLast, last, q) {
      if InState(s, q) {
        if q in curDest {
          assert a.Path(0, q, [], q);
          SurvivorLeadsOn(a, text, i, matchLast, last, logged, nextLogged, next, q, q);
        } else {
          var p :| p in curDest && a.Reach(q, [], p);
          SurvivorLeadsOn(a, text, i, matchLast, last, logged, nextLogged, next, p, q);
        }
      }
      if InState(logged, q) && LeadsOn(a, text, i, matchLast, last, q) {
        var m := LeadsThrough(a, entry, text, i, matchLast, last, q);
        assert InState(logged, m) && InState(nextLogged, a.nexts[m]) && InState(next, a.nexts[m]);
        assert m in curDest;
        assert ReachesSome(a, q, curDest);
      }
    }
  }

  /** When nothing survives at one position, nothing survives before it. */
  lemma NothingBefore(a: Nfa, entry: nat, text: seq<byte>, j: nat, i: nat, matchLast: nat, last: nat,
                      logged: DfaState?, later: DfaState?)
    requires a.Valid() && j <= i <= matchLast <= |text| && IsSifted(a, text, i, matchLast, last, later, null)
    requires StateAfter(a, entry, text[..j], logged) && StateAfter(a, entry, text[..i], later)
    ensures IsSifted(a, text, j, matchLast, last, logged, null)
  {
    forall q: nat | InState(logged, q) ensures !LeadsOn(a, text, j, matchLast, last, q) {
      assert text[j..matchLast] == text[j..i] + text[i..matchLast];
      ReachSplit(a, q, text[j..i], text[i..matchLast], last);
      if m: nat :| a.Reach(q, text[j..i], m) && a.Reach(m, text[i..matchLast], last) {
        assert text[..i] == text[..j] + text[j..i];
        ReachSplit(a, entry, text[..j], text[j..i], m);
        assert InState(later, m);
        assert LeadsOn(a, text, i, matchLast, last, m);
        assert false;
      }
    }
  }

  /** The longest multi-byte element; in a single-byte locale there is none. */
  const MAX_MB_ELEM_LEN := 0

  /** sift_states_backward. */
  method SiftStatesBackward(dfa: Dfa, text: seq<byte>, stateLog: seq<DfaState?>, sifted: array<DfaState?>,
                            matchLast: nat,
                            lastNode: nat, ghost entry: nat)
    requires dfa.Valid() && LogValid(dfa, entry, text, stateLog)
    requires matchLast < |stateLog| && sifted.Length == matchLast + 1
    requires InState(stateLog[matchLast], lastNode)
    modifies dfa, dfa.states, sifted
    ensures dfa.Valid() && dfa.Extended()
    ensures forall i :: 0 <= i <= matchLast ==> IsSifted(dfa.nfa, text, i, matchLast, lastNode, stateLog[i], sifted[i])
  {
    hide IsSifted, Dfa.TableValid, Dfa.ClosuresExact, Dfa.Unique, Dfa.TransitionsValid, Dfa.InverseValid, StateAfter;
    var nullCnt := 0;
    var strIdx := matchLast;
    LoggedNodes(dfa, entry, text, stateLog);
    UpdateCurSiftedState(dfa, stateLog, sifted, strIdx, [lastNode]);
    SiftLast(dfa.nfa, text, matchLast, lastNode, stateLog[matchLast], sifted[matchLast]);
    while strIdx > 0
      invariant 0 <= strIdx <= matchLast && dfa.Valid() && dfa.Extended() && LogValid(dfa, entry, text, stateLog)
      invariant nullCnt == 0
      invariant forall i :: strIdx <= i <= matchLast ==>
                  IsSifted(dfa.nfa, text, i, matchLast, lastNode, stateLog[i], sifted[i])
    {
      nullCnt := if sifted[strIdx] == null then nullCnt + 1 else 0;
      if nullCnt > MAX_MB_ELEM_LEN {
        forall k | 0 <= k < strIdx { sifted[k] := null; }
        forall k | 0 <= k < strIdx ensures IsSifted(dfa.nfa, text, k, matchLast, lastNode, stateLog[k], sifted[k]) {
          NothingBefore(dfa.nfa, entry, text, k, strIdx, matchLast, lastNode, stateLog[k], stateLog[strIdx]);
        }
        return;
      }
      strIdx := strIdx - 1;
      StepBack(dfa, text, stateLog, sifted, matchLast, lastNode, strIdx, entry);
    }
  }

  lemma LoggedNodes(dfa: Dfa, entry: nat, text: seq<byte>, stateLog: seq<DfaState?>)
    requires dfa.Valid() && LogValid(dfa, entry, text, stateLog)
    ensures forall i, p :: 0 <= i < |stateLog| && stateLog[i] != null && p in stateLog[i].nodes ==> p < |dfa.nfa.nodes|
    ensures forall s :: s in stateLog ==> s == null || s in dfa.states
  {
  }

  /** The body of the loop: one position back. */
  method StepBack(dfa: Dfa, text: seq<byte>, stateLog: seq<DfaState?>, sifted: array<DfaState?>, matchLast: nat,
                  lastNode: nat,
                  strIdx: nat, ghost entry: nat)
    requires dfa.Valid() && LogValid(dfa, entry, text, stateLog)
    requires strIdx < matchLast < |stateLog| && sifted.Length == matchLast + 1
    requires IsSifted(dfa.nfa, text, strIdx + 1, matchLast, lastNode, stateLog[strIdx + 1], sifted[strIdx + 1])
    modifies dfa, dfa.states, sifted
    ensures dfa.Valid() && dfa.Extended()
    ensures forall k :: 0 <= k < sifted.Length && k != strIdx ==> sifted[k] == old(sifted[k])
    ensures IsSifted(dfa.nfa, text, strIdx, matchLast, lastNode, stateLog[strIdx], sifted[strIdx])
  {
    hide IsSifted, Dfa.TableValid, Dfa.ClosuresExact, Dfa.Unique, Dfa.TransitionsValid, Dfa.InverseValid, StateAfter;
    LoggedNodes(dfa, entry, text, stateLog);
    var logged := stateLog[strIdx];
    var curDest: seq<nat> := [];
    if logged != null {
      curDest := BuildSiftedStates(dfa, text, logged, sifted[strIdx + 1], strIdx);
    }
    UpdateCurSiftedState(dfa, stateLog, sifted, strIdx, curDest);
    if logged != null {
      SiftStep(dfa.nfa, entry, text, strIdx, matchLast, lastNode, logged, stateLog[strIdx + 1],
               sifted[strIdx + 1], curDest, sifted[strIdx]);
    } else {
      NothingLogged(dfa.nfa, text, strIdx, matchLast, lastNode, sifted[strIdx]);
    }
  }

  lemma NothingLogged(a: Nfa, text: seq<byte>, i: nat, matchLast: nat, last: nat, s: DfaState?)
    requires a.Valid() && forall q: nat :: !InState(s, q)
    ensures IsSifted(a, text, i, matchLast, last, null, s)
  {
  }

  /** check_halt_state_context: the first halting node of the state. */
  method CheckHaltState(dfa: Dfa, state: DfaState) returns (node: nat)
    requires forall p :: p in state.nodes ==> p < |dfa.nfa.nodes|
    ensures (exists p :: p in state.nodes && IsEnd(dfa.nfa, p)) ==> node in state.nodes && IsEnd(dfa.nfa, node)
  {
    node := 0;
    for i := 0 to |state.nodes|
      invariant forall p :: p in state.nodes[..i] ==> !IsEnd(dfa.nfa, p)
    {
      assert state.nodes[i] in state.nodes;
      if dfa.nfa.nodes[state.nodes[i]].END_OF_RE? {
        assert IsEnd(dfa.nfa, state.nodes[i]);
        return state.nodes[i];
      }
      assert state.nodes[..i + 1] == state.nodes[..i] + [state.nodes[i]];
    }
    assert state.nodes[..|state.nodes|] == state.nodes;
  }

  /** Every sifted state is exact, and the first one is not empty. */
  ghost predicate Pruned(dfa: Dfa, text: seq<byte>, last: int, end: nat, stateLog: seq<DfaState?>,
                         sifted: seq<DfaState?>) {
    && dfa.nfa.Valid() && 0 <= last < |stateLog| && |sifted| == last + 1 && sifted[0] != null
    && forall i :: 0 <= i <= last ==> IsSifted(dfa.nfa, text, i, last, end, stateLog[i], sifted[i])
  }

  /** prune_impossible_nodes: after a successful match the sifted log is exact and its first entry
      is never empty, so the match is never given up. */
  method PruneImpossibleNodes(dfa: Dfa, init: DfaState, text: seq<byte>, stateLog: seq<DfaState?>, matchLast: nat,
                              ghost entry: nat, ghost end: nat, ghost re: Tree)
      returns (ok: bool, sifted: array<DfaState?>)
    requires Compiled(dfa, init, entry, end, re) && LogValid(dfa, entry, text, stateLog) && matchLast < |stateLog|
    requires Matches(dfa.nfa.syntax, re, text, matchLast)
    modifies dfa, dfa.states
    ensures Compiled(dfa, init, entry, end, re) && dfa.Extended()
    ensures LogValid(dfa, entry, text, stateLog)
    ensures ok && fresh(sifted) && Pruned(dfa, text, matchLast, end, stateLog, sifted[..])
  {
    hide Dfa.TableValid, Dfa.ClosuresExact, Dfa.Unique, Dfa.TransitionsValid, Dfa.InverseValid, Spells, StateAfter;
    hide IsSifted;
    sifted := new DfaState?[matchLast + 1](_ => null);
    LoggedNodes(dfa, entry, text, stateLog);
    EndIsLogged(dfa, entry, end, re, text, stateLog, matchLast);
    var haltNode := CheckHaltState(dfa, stateLog[matchLast]);
    SiftStatesBackward(dfa, text, stateLog, sifted, matchLast, haltNode, entry);
    FirstSurvives(dfa.nfa, entry, text, matchLast, end, stateLog[0], sifted[0]);
    ok := sifted[0] != null;
  }

  /** The end node is the only halting node, and it is in the logged state at the end of a match. */
  lemma EndIsLogged(dfa: Dfa, entry: nat, end: nat, re: Tree, text: seq<byte>, stateLog: seq<DfaState?>, matchLast: nat)
    requires Spells(dfa.nfa, entry, end, re) && LogValid(dfa, entry, text, stateLog) && matchLast < |stateLog|
    requires Matches(dfa.nfa.syntax, re, text, matchLast)
    ensures InState(stateLog[matchLast], end) && IsEnd(dfa.nfa, end)
    ensures forall p: nat :: IsEnd(dfa.nfa, p) ==> p == end
    ensures dfa.nfa.Reach(entry, text[..matchLast], end) && StateAfter(dfa.nfa, entry, text[..0], stateLog[0])
  {
  }

  lemma FirstSurvives(a: Nfa, entry: nat, text: seq<byte>, matchLast: nat, last: nat, logged: DfaState?, s: DfaState?)
    requires a.Valid() && matchLast <= |text| && StateAfter(a, entry, text[..0], logged)
    requires IsSifted(a, text, 0, matchLast, last, logged, s) && a.Reach(entry, text[..matchLast], last)
    ensures InState(s, entry)
  {
    assert text[..0] == [] && text[0..matchLast] == text[..matchLast];
    assert a.Path(0, entry, [], entry);
    assert a.Reach(entry, [], entry);
    assert InState(logged, entry) && LeadsOn(a, text, 0, matchLast, last, entry);
  }
}
