/** Lazily built transition tables: each group of nodes of a state gives one destination state. */
module Transitions {
  import opened RegexLanguage
  import opened Automaton
  import opened NodeSets
  import opened Closures
  import opened StateTable
  import opened Grouping

  // ----- Destination states -----

  /** There is an epsilon path to q from a successor of some node of the group. */
  ghost predicate Follows(nfa: Nfa, group: seq<nat>, q: nat)
    requires nfa.Valid()
  {
    exists p :: p in group && p < |nfa.nodes| && 0 <= nfa.nexts[p] && nfa.Reach(nfa.nexts[p], [], q)
  }

  ghost predicate AreFollows(nfa: Nfa, group: seq<nat>, r: seq<nat>)
    requires nfa.Valid()
  {
    forall q: nat :: q in r <==> Follows(nfa, group, q)
  }

  lemma FollowsExist(nfa: Nfa, seen: seq<nat>, group: seq<nat>, r: seq<nat>)
    requires nfa.Valid() && GroupNodesValid(nfa, seen, group) && AreFollows(nfa, group, r)
    ensures r != [] && forall q :: q in r ==> q < |nfa.nodes|
  {
    var p := group[0];
    assert p in group;
    assert nfa.Path(0, nfa.nexts[p], [], nfa.nexts[p]);
    assert Follows(nfa, group, nfa.nexts[p]);
    forall q | q in r ensures q < |nfa.nodes| {
      var x :| x in group && x < |nfa.nodes| && 0 <= nfa.nexts[x] && nfa.Reach(nfa.nexts[x], [], q);
      ReachesNodes(nfa, nfa.nexts[x], [], q);
    }
  }

  /** Merge the closures of the successors of a group. */
  method MergeFollows(dfa: Dfa, group: seq<nat>, ghost seen: seq<nat>) returns (follows: seq<nat>)
    requires dfa.ClosuresExact() && GroupNodesValid(dfa.nfa, seen, group)
    ensures Sorted(follows) && Once(dfa.nfa, follows) && AreFollows(dfa.nfa, group, follows)
  {
    follows := [];
    for j := 0 to |group|
      invariant Sorted(follows) && Once(dfa.nfa, follows) && AreFollows(dfa.nfa, group[..j], follows)
    {
      ghost var before := follows;
      var p := group[j];
      assert p in group;
      assert group[..j + 1] == group[..j] + [p];
      var nextNode := dfa.nfa.nexts[p];
      if nextNode != REG_MISSING {
        MergedItems(follows, dfa.eclosures[nextNode]);
        OnceMerged(dfa.nfa, follows, dfa.eclosures[nextNode]);
        follows := Merged(follows, dfa.eclosures[nextNode]);
      }
      FollowsMore(dfa.nfa, group[..j], p);
    }
    assert group[..|group|] == group;
  }

  lemma FollowsMore(nfa: Nfa, group: seq<nat>, p: nat)
    requires nfa.Valid() && p < |nfa.nodes| && 0 <= nfa.nexts[p]
    ensures forall q: nat :: Follows(nfa, group + [p], q) <==> Follows(nfa, group, q) || nfa.Reach(nfa.nexts[p], [], q)
  {
    forall q: nat ensures Follows(nfa, group + [p], q) <==> Follows(nfa, group, q) || nfa.Reach(nfa.nexts[p], [], q) {
      if Follows(nfa, group, q) {
        var x :| x in group && x < |nfa.nodes| && 0 <= nfa.nexts[x] && nfa.Reach(nfa.nexts[x], [], q);
        assert x in group + [p];
      }
      if nfa.Reach(nfa.nexts[p], [], q) {
        assert p in group + [p];
      }
    }
  }

  /** The subset construction: for every byte of its set, the follows of a group are what the
      whole node set becomes. */
  lemma GroupIsMove(nfa: Nfa, nodes: seq<nat>, destsNode: seq<seq<nat>>, destsCh: seq<set<byte>>, j: nat, ch: byte,
                    r: seq<nat>)
    requires nfa.Valid() && Grouped(nfa, nodes, destsNode, destsCh)
    requires j < |destsCh| && ch in destsCh[j] && AreFollows(nfa, destsNode[j], r)
    ensures IsMove(nfa, nodes, ch, r)
  {
    var group := destsNode[j];
    assert forall p: nat :: p in group <==> SeenAccepts(nfa, nodes, p, ch);
    forall q: nat ensures q in r <==> exists p :: p in nodes && Moves(nfa, p, ch, q) {
      if q in r {
        var p :| p in group && p < |nfa.nodes| && 0 <= nfa.nexts[p] && nfa.Reach(nfa.nexts[p], [], q);
        assert p in nodes && Moves(nfa, p, ch, q);
      }
      if p :| p in nodes && Moves(nfa, p, ch, q) {
        assert SeenAccepts(nfa, nodes, p, ch);
        assert Follows(nfa, group, q);
      }
    }
  }

  lemma NoMove(nfa: Nfa, nodes: seq<nat>, destsNode: seq<seq<nat>>, destsCh: seq<set<byte>>, ch: byte)
    requires nfa.Valid() && Grouped(nfa, nodes, destsNode, destsCh) && !Covered(destsCh, ch)
    ensures IsMove(nfa, nodes, ch, [])
  {
    forall p: nat, q: nat | p in nodes && Moves(nfa, p, ch, q) ensures false {
      assert SeenAccepts(nfa, nodes, p, ch);
    }
  }

  lemma CoveredMore(destsCh: seq<set<byte>>, i: nat)
    requires i < |destsCh|
    ensures forall ch :: Covered(destsCh[..i + 1], ch) <==> Covered(destsCh[..i], ch) || ch in destsCh[i]
  {
    forall ch ensures Covered(destsCh[..i + 1], ch) <==> Covered(destsCh[..i], ch) || ch in destsCh[i] {
      if k :| 0 <= k < i && ch in destsCh[k] {
        assert ch in destsCh[..i][k] && ch in destsCh[..i + 1][k];
      }
      if ch in destsCh[i] {
        assert ch in destsCh[..i + 1][i];
      }
    }
  }

  lemma GroupsValid(nfa: Nfa, seen: seq<nat>, destsNode: seq<seq<nat>>, destsCh: seq<set<byte>>)
    requires Grouped(nfa, seen, destsNode, destsCh)
    ensures |destsNode| == |destsCh|
    ensures forall j :: 0 <= j < |destsNode| ==> GroupNodesValid(nfa, seen, destsNode[j])
  {
  }

  lemma StateNodesExist(dfa: Dfa, state: DfaState)
    requires dfa.Valid() && state in dfa.states
    ensures dfa.nfa.Valid() && forall p :: p in state.nodes ==> p < |dfa.nfa.nodes|
  {
  }

  /** The destination state of one group. */
  method AcquireDest(dfa: Dfa, group: seq<nat>, ghost seen: seq<nat>) returns (dest: DfaState)
    requires dfa.Valid() && GroupNodesValid(dfa.nfa, seen, group)
    modifies dfa
    ensures dfa.Valid() && dfa.Extended()
    ensures dest in dfa.states && IsDest(dfa.nfa, group, dest)
  {
    var follows := MergeFollows(dfa, group, seen);
    FollowsExist(dfa.nfa, seen, group, follows);
    dest := dfa.AcquireStateContext(follows, 0);
  }

  ghost predicate IsDest(nfa: Nfa, group: seq<nat>, dest: DfaState)
    requires nfa.Valid()
  {
    dest.context == 0 && Once(nfa, dest.nodes) && AreFollows(nfa, group, dest.nodes)
  }

  /** build_trtable, for a state whose groups fit the arrays: afterwards every entry leads to the
      state of all nodes reached from the nodes of `state` by that byte, or nowhere when there is
      none. */
  method BuildTrtable(dfa: Dfa, state: DfaState)
    requires dfa.Valid() && state in dfa.states && state.trtable == []
    requires GroupsNeeded(dfa.nfa, state.nodes) <= SBC_MAX
    modifies dfa, state`trtable
    ensures dfa.Valid() && dfa.Extended()
    ensures state.trtable != []
  {
    hide Grouped, GroupNodesValid, IsDest, GroupsNeeded, AcceptsSomething;
    hide Dfa.TransitionsValid, Dfa.InverseValid, Dfa.ClosuresExact, Dfa.Unique, Dfa.TableValid;
    StateNodesExist(dfa, state);
    var destsNode, destsCh := GroupNodes(dfa.nfa, state.nodes);
    assert |destsCh| <= SBC_MAX;
    GroupsValid(dfa.nfa, state.nodes, destsNode, destsCh);
    var destStates: seq<DfaState> := [];
    var acceptable: set<byte> := {};
    for i := 0 to |destsNode|
      invariant |destStates| == i && dfa.Valid() && dfa.Extended() && state.trtable == []
      invariant forall k :: 0 <= k < i ==> destStates[k] in dfa.states
      invariant forall k :: 0 <= k < i ==> IsDest(dfa.nfa, destsNode[k], destStates[k])
      invariant forall ch :: ch in acceptable <==> Covered(destsCh[..i], ch)
    {
      CoveredMore(destsCh, i);
      var dest := AcquireDest(dfa, destsNode[i], state.nodes);
      destStates := destStates + [dest];
      acceptable := acceptable + destsCh[i];
    }
    assert destsCh[..|destsCh|] == destsCh;
    FillTrtable(dfa, state, destsNode, destsCh, destStates, acceptable);
  }

  /** Every acceptable byte leads to the state of the only group that accepts it. */
  method FillTrtable(dfa: Dfa, state: DfaState, destsNode: seq<seq<nat>>, destsCh: seq<set<byte>>,
                     destStates: seq<DfaState>, acceptable: set<byte>)
    requires dfa.Valid() && state in dfa.states
    requires Grouped(dfa.nfa, state.nodes, destsNode, destsCh) && |destStates| == |destsCh|
    requires forall k :: 0 <= k < |destStates| ==> destStates[k] in dfa.states
    requires forall k :: 0 <= k < |destStates| ==> IsDest(dfa.nfa, destsNode[k], destStates[k])
    requires forall ch :: ch in acceptable <==> Covered(destsCh, ch)
    modifies state`trtable
    ensures dfa.Valid() && state.trtable != []
  {
    hide Grouped, AreFollows, IsMove, Once;
    var trtable: seq<DfaState?> := seq(SBC_MAX, _ => null);
    for ch := 0 to SBC_MAX
      invariant |trtable| == SBC_MAX
      invariant forall c: byte :: ch <= c ==> trtable[c] == null
      invariant forall c: byte :: c < ch ==> dfa.Transition(state, c, trtable[c])
    {
      if ch in acceptable {
        assert Covered(destsCh, ch);
        var j := 0;
        while ch !in destsCh[j]
          invariant j < |destsCh|
          invariant forall k :: 0 <= k < j ==> ch !in destsCh[k]
          decreases |destsCh| - j
        {
          j := j + 1;
        }
        GroupIsMove(dfa.nfa, state.nodes, destsNode, destsCh, j, ch, destStates[j].nodes);
        trtable := trtable[ch := destStates[j]];
      } else {
        NoMove(dfa.nfa, state.nodes, destsNode, destsCh, ch);
      }
    }
    state.trtable := trtable;
  }

  /** transit_state: the table is built when it is needed first. */
  method TransitState(dfa: Dfa, state: DfaState, ch: byte) returns (next: DfaState?)
    requires dfa.Valid() && state in dfa.states
    requires GroupsNeeded(dfa.nfa, state.nodes) <= SBC_MAX
    modifies dfa, state`trtable
    ensures dfa.Valid() && dfa.Extended()
    ensures dfa.Transition(state, ch, next)
  {
    if state.trtable == [] {
      BuildTrtable(dfa, state);
    }
    next := state.trtable[ch];
  }
}
