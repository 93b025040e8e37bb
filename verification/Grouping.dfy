/** Grouping the nodes of a state by the bytes they accept, and the exact number of groups that
    takes. */
module Grouping {
  import opened RegexLanguage
  import opened Automaton
  import opened NodeSets
  import opened StateTable

  // ----- Sets of bytes -----

  function BytesBelow(n: nat): set<byte>
    requires n <= SBC_MAX
  {
    if n == 0 then {} else BytesBelow(n - 1) + {(n - 1) as byte}
  }

  lemma {:induction false} BytesBelowItems(n: nat)
    requires n <= SBC_MAX
    ensures |BytesBelow(n)| == n && forall b: byte :: b in BytesBelow(n) <==> b < n
  {
    if n > 0 {
      BytesBelowItems(n - 1);
    }
  }

  ghost predicate Disjoint(sets: seq<set<byte>>) {
    forall j, k :: 0 <= j < k < |sets| ==> sets[j] !! sets[k]
  }

  ghost function BigUnion(sets: seq<set<byte>>): set<byte> {
    if sets == [] then {} else BigUnion(sets[..|sets| - 1]) + sets[|sets| - 1]
  }

  lemma {:induction false} BigUnionItems(sets: seq<set<byte>>, b: byte)
    ensures b in BigUnion(sets) <==> exists j :: 0 <= j < |sets| && b in sets[j]
  {
    if sets != [] {
      BigUnionItems(sets[..|sets| - 1], b);
    }
  }

  // ----- How many groups there are -----

  ghost function Items(nodes: seq<nat>): set<nat> {
    set p | p in nodes
  }

  /** The nodes of the set that accept the byte. */
  ghost function Signature(nfa: Nfa, s: set<nat>, ch: byte): set<nat> {
    set p | p in s && nfa.AcceptsAt(p, ch)
  }

  /** Two bytes are of one class when the same nodes accept them; these are the classes of all the
      bytes that some node accepts. */
  ghost function Classes(nfa: Nfa, s: set<nat>): set<set<nat>> {
    set ch | ch in BytesBelow(SBC_MAX) && Signature(nfa, s, ch) != {} :: Signature(nfa, s, ch)
  }

  ghost predicate AcceptsSomething(nfa: Nfa, p: nat) {
    exists ch :: nfa.AcceptsAt(p, ch)
  }

  /** A bracket that accepts nothing. */
  ghost predicate IsEmptyBracket(nfa: Nfa, p: nat) {
    p < |nfa.nodes| && nfa.nodes[p].IsByteNode() && !AcceptsSomething(nfa, p)
  }

  ghost function EmptyOccurrences(nfa: Nfa, nodes: seq<nat>): nat {
    if nodes == [] then 0
    else EmptyOccurrences(nfa, Init(nodes)) + if IsEmptyBracket(nfa, Last(nodes)) then 1 else 0
  }

  /** One group for every class of accepted bytes, and one for every occurrence of an empty
      bracket. */
  ghost function GroupsNeeded(nfa: Nfa, nodes: seq<nat>): nat {
    |Classes(nfa, Items(nodes))| + EmptyOccurrences(nfa, nodes)
  }

  function Empties(sets: seq<set<byte>>): nat {
    if sets == [] then 0
    else Empties(sets[..|sets| - 1]) + if sets[|sets| - 1] == {} then 1 else 0
  }

  lemma EmptiesAppend(sets: seq<set<byte>>, s: set<byte>)
    ensures Empties(sets + [s]) == Empties(sets) + if s == {} then 1 else 0
  {
    assert (sets + [s])[..|sets|] == sets;
  }

  lemma {:induction false} EmptiesUpdate(sets: seq<set<byte>>, j: nat, s: set<byte>)
    requires j < |sets| && sets[j] != {} && s != {}
    ensures Empties(sets[j := s]) == Empties(sets)
  {
    var n := |sets| - 1;
    if j < n {
      EmptiesUpdate(sets[..n], j, s);
      assert sets[j := s][..n] == sets[..n][j := s];
    } else {
      assert sets[j := s][..n] == sets[..n];
    }
  }

  lemma {:induction false} NoEmpties(sets: seq<set<byte>>)
    ensures Empties(sets) == 0 <==> forall j :: 0 <= j < |sets| ==> sets[j] != {}
  {
    if sets != [] {
      NoEmpties(sets[..|sets| - 1]);
    }
  }

  /** Some node accepts one of the bytes but not the other. */
  ghost predicate Differ(nfa: Nfa, nodes: seq<nat>, ch: byte, ch': byte) {
    exists p: nat :: p in nodes && nfa.AcceptsAt(p, ch) != nfa.AcceptsAt(p, ch')
  }

  /** Bytes of different groups are of different classes. */
  ghost predicate Apart(nfa: Nfa, nodes: seq<nat>, sets: seq<set<byte>>) {
    forall j, k, ch, ch' :: 0 <= j < k < |sets| && ch in sets[j] && ch' in sets[k] ==> Differ(nfa, nodes, ch, ch')
  }

  /** The classes of the bytes of the given sets. */
  ghost function ClassesOf(nfa: Nfa, s: set<nat>, sets: seq<set<byte>>): set<set<nat>> {
    set ch | ch in BigUnion(sets) :: Signature(nfa, s, ch)
  }

  lemma DifferentClasses(nfa: Nfa, nodes: seq<nat>, ch: byte, ch': byte)
    requires Differ(nfa, nodes, ch, ch')
    ensures Signature(nfa, Items(nodes), ch) != Signature(nfa, Items(nodes), ch')
  {
    var p: nat :| p in nodes && nfa.AcceptsAt(p, ch) != nfa.AcceptsAt(p, ch');
    assert (p in Signature(nfa, Items(nodes), ch)) != (p in Signature(nfa, Items(nodes), ch'));
  }

  /** Sets of one class each, all different, are as many as their classes and the empty ones. */
  lemma {:induction false} ClassesCounted(nfa: Nfa, nodes: seq<nat>, sets: seq<set<byte>>)
    requires Apart(nfa, nodes, sets)
    requires forall j, ch, ch' :: 0 <= j < |sets| && ch in sets[j] && ch' in sets[j] ==>
               Signature(nfa, Items(nodes), ch) == Signature(nfa, Items(nodes), ch')
    ensures |ClassesOf(nfa, Items(nodes), sets)| + Empties(sets) == |sets|
  {
    var s := Items(nodes);
    if sets == [] {
      assert ClassesOf(nfa, s, sets) == {};
    } else {
      var front, last := sets[..|sets| - 1], sets[|sets| - 1];
      ClassesCounted(nfa, nodes, front);
      if last == {} {
        assert BigUnion(sets) == BigUnion(front);
      } else {
        var b :| b in last;
        var c := Signature(nfa, s, b);
        forall ch | ch in BigUnion(front) ensures Signature(nfa, s, ch) != c {
          BigUnionItems(front, ch);
          var j :| 0 <= j < |front| && ch in front[j];
          assert ch in sets[j];
          DifferentClasses(nfa, nodes, ch, b);
        }
        assert c !in ClassesOf(nfa, s, front);
        ClassesMore(nfa, s, sets, b);
      }
    }
  }

  lemma ClassesMore(nfa: Nfa, s: set<nat>, sets: seq<set<byte>>, b: byte)
    requires sets != [] && b in sets[|sets| - 1]
    requires forall ch :: ch in sets[|sets| - 1] ==> Signature(nfa, s, ch) == Signature(nfa, s, b)
    ensures ClassesOf(nfa, s, sets) == ClassesOf(nfa, s, sets[..|sets| - 1]) + {Signature(nfa, s, b)}
  {
    var front, last := sets[..|sets| - 1], sets[|sets| - 1];
    assert BigUnion(sets) == BigUnion(front) + last;
    assert b in BigUnion(sets);
    forall c | c in ClassesOf(nfa, s, sets) ensures c in ClassesOf(nfa, s, front) + {Signature(nfa, s, b)} {
      var ch :| ch in BigUnion(sets) && Signature(nfa, s, ch) == c;
    }
    forall c | c in ClassesOf(nfa, s, front) ensures c in ClassesOf(nfa, s, sets) {
      var ch :| ch in BigUnion(front) && Signature(nfa, s, ch) == c;
      assert ch in BigUnion(sets);
    }
  }

  // ----- Grouping -----

  ghost predicate Covered(destsCh: seq<set<byte>>, ch: byte) {
    exists j :: 0 <= j < |destsCh| && ch in destsCh[j]
  }

  ghost predicate SeenAccepts(nfa: Nfa, seen: seq<nat>, p: nat, ch: byte) {
    p in seen && nfa.AcceptsAt(p, ch)
  }

  ghost predicate GroupNodesValid(nfa: Nfa, seen: seq<nat>, group: seq<nat>) {
    group != [] && forall p :: p in group ==> p in seen && p < |nfa.nodes| && nfa.nodes[p].IsByteNode()
  }

  /** The byte sets are disjoint and cover exactly the accepted bytes; the nodes of a group are
      exactly those that accept any, and then every, byte of its set. */
  ghost predicate Grouped(nfa: Nfa, seen: seq<nat>, destsNode: seq<seq<nat>>, destsCh: seq<set<byte>>) {
    && |destsNode| == |destsCh| && Disjoint(destsCh)
    && (forall j :: 0 <= j < |destsNode| ==> GroupNodesValid(nfa, seen, destsNode[j]))
    && (forall j, ch, p: nat :: 0 <= j < |destsCh| && ch in destsCh[j] ==>
          (p in destsNode[j] <==> SeenAccepts(nfa, seen, p, ch)))
    && (forall ch, p: nat :: SeenAccepts(nfa, seen, p, ch) ==> Covered(destsCh, ch))
  }

  /** The same while node p, which accepts the bytes of `all`, is being entered; the bytes of
      `accepts` are still to be distributed, and none of them is in a set before the j-th. */
  ghost predicate Dividing(nfa: Nfa, seen: seq<nat>, p: nat, all: set<byte>, accepts: set<byte>, j: nat,
                           destsNode: seq<seq<nat>>, destsCh: seq<set<byte>>)
  {
    && |destsNode| == |destsCh| && Disjoint(destsCh) && j <= |destsCh|
    && accepts <= all
    && (forall k :: 0 <= k < |destsNode| ==> GroupNodesValid(nfa, seen + [p], destsNode[k]))
    && (forall k :: 0 <= k < j ==> destsCh[k] !! accepts)
    && (forall k, ch, x: nat :: 0 <= k < |destsCh| && ch in destsCh[k] ==>
          (x in destsNode[k] <==> SeenAccepts(nfa, seen, x, ch) || (x == p && ch in all - accepts)))
    && (forall ch, x: nat :: SeenAccepts(nfa, seen, x, ch) ==> Covered(destsCh, ch))
    && (forall ch :: ch in all - accepts ==> Covered(destsCh, ch))
  }

  /** Splitting the j-th group into the part that p accepts and the rest. */
  lemma Split(nfa: Nfa, seen: seq<nat>, p: nat, all: set<byte>, accepts: set<byte>, j: nat,
              destsNode: seq<seq<nat>>, destsCh: seq<set<byte>>)
    requires Dividing(nfa, seen, p, all, accepts, j, destsNode, destsCh) && j < |destsCh|
    ensures Dividing(nfa, seen, p, all, accepts, j, destsNode + [destsNode[j]],
                     destsCh[j := accepts * destsCh[j]] + [destsCh[j] - accepts])
  {
    var chs := destsCh[j := accepts * destsCh[j]] + [destsCh[j] - accepts];
    forall ch | Covered(destsCh, ch) ensures Covered(chs, ch) {
      var k :| 0 <= k < |destsCh| && ch in destsCh[k];
      assert ch in chs[k] || ch in chs[|destsCh|];
    }
  }

  /** A group that p accepts altogether takes p in. */
  lemma TakeItems(nfa: Nfa, seen: seq<nat>, p: nat, all: set<byte>, accepts: set<byte>, j: nat,
                  destsNode: seq<seq<nat>>, destsCh: seq<set<byte>>, k: nat, ch: byte, x: nat)
    requires Dividing(nfa, seen, p, all, accepts, j, destsNode, destsCh) && j < |destsCh|
    requires destsCh[j] <= accepts && k < |destsCh| && ch in destsCh[k]
    ensures x in destsNode[j := Inserted(destsNode[j], p)][k]
            <==> SeenAccepts(nfa, seen, x, ch) || (x == p && ch in all - (accepts - destsCh[j]))
  {
    hide SeenAccepts, Inserted;
    InsertedItems(destsNode[j], p);
    if k != j {
      assert ch !in destsCh[j];
    }
  }

  lemma TakeCovered(destsCh: seq<set<byte>>, j: nat)
    requires j < |destsCh|
    ensures forall ch :: ch in destsCh[j] ==> Covered(destsCh, ch)
  {
  }

  lemma Take(nfa: Nfa, seen: seq<nat>, p: nat, all: set<byte>, accepts: set<byte>, j: nat,
             destsNode: seq<seq<nat>>, destsCh: seq<set<byte>>)
    requires Dividing(nfa, seen, p, all, accepts, j, destsNode, destsCh) && j < |destsCh|
    requires destsCh[j] <= accepts && p < |nfa.nodes| && nfa.nodes[p].IsByteNode()
    ensures Dividing(nfa, seen, p, all, accepts - destsCh[j], j + 1, destsNode[j := Inserted(destsNode[j], p)], destsCh)
  {
    hide SeenAccepts, Inserted, Covered, Disjoint;
    InsertedItems(destsNode[j], p);
    TakeCovered(destsCh, j);
    var nodes := destsNode[j := Inserted(destsNode[j], p)];
    forall k, ch, x: nat | 0 <= k < |destsCh| && ch in destsCh[k]
      ensures x in nodes[k] <==> SeenAccepts(nfa, seen, x, ch) || (x == p && ch in all - (accepts - destsCh[j]))
    {
      TakeItems(nfa, seen, p, all, accepts, j, destsNode, destsCh, k, ch, x);
    }
  }

  /** What is left becomes a group of its own. */
  lemma Remaining(nfa: Nfa, seen: seq<nat>, p: nat, all: set<byte>, accepts: set<byte>,
                  destsNode: seq<seq<nat>>, destsCh: seq<set<byte>>)
    requires Dividing(nfa, seen, p, all, accepts, |destsCh|, destsNode, destsCh)
    requires p < |nfa.nodes| && nfa.nodes[p].IsByteNode()
    requires forall ch :: ch in all ==> nfa.AcceptsAt(p, ch)
    ensures Dividing(nfa, seen, p, all, {}, |destsCh| + 1, destsNode + [[p]], destsCh + [accepts])
  {
    var chs := destsCh + [accepts];
    forall ch | Covered(destsCh, ch) ensures Covered(chs, ch) {
      var k :| 0 <= k < |destsCh| && ch in destsCh[k];
      assert ch in chs[k];
    }
    forall ch | ch in accepts ensures Covered(chs, ch) {
      assert ch in chs[|destsCh|];
    }
  }

  lemma Divided(nfa: Nfa, seen: seq<nat>, p: nat, all: set<byte>, j: nat,
                destsNode: seq<seq<nat>>, destsCh: seq<set<byte>>)
    requires Dividing(nfa, seen, p, all, {}, j, destsNode, destsCh)
    requires forall ch :: ch in all <==> nfa.AcceptsAt(p, ch)
    ensures Grouped(nfa, seen + [p], destsNode, destsCh)
  {
    assert forall x: nat, ch :: SeenAccepts(nfa, seen + [p], x, ch)
             <==> SeenAccepts(nfa, seen, x, ch) || (x == p && ch in all);
  }

  /** While node p is being entered: the groups stay apart, the bytes p has taken so far lie in
      groups before the j-th, and every group was there for some earlier node. */
  ghost predicate Parting(nfa: Nfa, seen: seq<nat>, p: nat, all: set<byte>, accepts: set<byte>, j: nat,
                          sets: seq<set<byte>>) {
    && Apart(nfa, seen + [p], sets)
    && (forall k, ch :: j <= k < |sets| && ch in sets[k] ==> ch !in all - accepts)
    && (forall k, ch :: 0 <= k < |sets| && ch in sets[k] ==> exists x: nat :: SeenAccepts(nfa, seen, x, ch))
  }

  lemma PartingStart(nfa: Nfa, seen: seq<nat>, p: nat, all: set<byte>, destsNode: seq<seq<nat>>, sets: seq<set<byte>>)
    requires Grouped(nfa, seen, destsNode, sets) && Apart(nfa, seen, sets)
    ensures Parting(nfa, seen, p, all, all, 0, sets)
  {
    forall k, ch | 0 <= k < |sets| && ch in sets[k] ensures exists x: nat :: SeenAccepts(nfa, seen, x, ch) {
      assert destsNode[k][0] in destsNode[k];
      assert SeenAccepts(nfa, seen, destsNode[k][0], ch);
    }
    ApartMore(nfa, seen, p, sets);
  }

  lemma DifferMore(nfa: Nfa, seen: seq<nat>, p: nat, ch: byte, ch': byte)
    requires Differ(nfa, seen, ch, ch') || nfa.AcceptsAt(p, ch) != nfa.AcceptsAt(p, ch')
    ensures Differ(nfa, seen + [p], ch, ch')
  {
    if Differ(nfa, seen, ch, ch') {
      var x: nat :| x in seen && nfa.AcceptsAt(x, ch) != nfa.AcceptsAt(x, ch');
      assert x in seen + [p];
    } else {
      assert p in seen + [p];
    }
  }

  lemma ApartMore(nfa: Nfa, seen: seq<nat>, p: nat, sets: seq<set<byte>>)
    requires Apart(nfa, seen, sets)
    ensures Apart(nfa, seen + [p], sets)
  {
    forall j, k, ch, ch' | 0 <= j < k < |sets| && ch in sets[j] && ch' in sets[k]
      ensures Differ(nfa, seen + [p], ch, ch')
    {
      DifferMore(nfa, seen, p, ch, ch');
    }
  }

  lemma PartingSplit(nfa: Nfa, seen: seq<nat>, p: nat, all: set<byte>, accepts: set<byte>, j: nat, sets: seq<set<byte>>)
    requires Parting(nfa, seen, p, all, accepts, j, sets) && j < |sets| && accepts <= all
    requires forall ch :: ch in all <==> nfa.AcceptsAt(p, ch)
    ensures Parting(nfa, seen, p, all, accepts, j, sets[j := accepts * sets[j]] + [sets[j] - accepts])
  {
    var chs := sets[j := accepts * sets[j]] + [sets[j] - accepts];
    forall i, k, ch, ch' | 0 <= i < k < |chs| && ch in chs[i] && ch' in chs[k]
      ensures Differ(nfa, seen + [p], ch, ch')
    {
      if k < |sets| {
        assert ch in sets[i] && ch' in sets[k];
      } else if i == j {
        assert ch' in sets[j] && ch' !in all - accepts;
        DifferMore(nfa, seen, p, ch, ch');
      } else {
        assert ch in sets[i] && ch' in sets[j];
        assert Differ(nfa, seen + [p], ch, ch') || Differ(nfa, seen + [p], ch', ch);
      }
    }
  }

  lemma PartingTake(nfa: Nfa, seen: seq<nat>, p: nat, all: set<byte>, accepts: set<byte>, j: nat, sets: seq<set<byte>>)
    requires Parting(nfa, seen, p, all, accepts, j, sets) && j < |sets| && Disjoint(sets)
    ensures Parting(nfa, seen, p, all, accepts - sets[j], j + 1, sets)
  {
    forall k, ch | j + 1 <= k < |sets| && ch in sets[k] ensures ch !in all - (accepts - sets[j]) {
      assert sets[j] !! sets[k] && ch !in all - accepts;
    }
  }

  lemma PartingSkip(nfa: Nfa, seen: seq<nat>, p: nat, all: set<byte>, accepts: set<byte>, j: nat, sets: seq<set<byte>>)
    requires Parting(nfa, seen, p, all, accepts, j, sets)
    ensures Parting(nfa, seen, p, all, accepts, j + 1, sets)
  {
  }

  lemma PartingApart(nfa: Nfa, seen: seq<nat>, p: nat, all: set<byte>, accepts: set<byte>, j: nat, sets: seq<set<byte>>)
    requires Parting(nfa, seen, p, all, accepts, j, sets)
    ensures Apart(nfa, seen + [p], sets)
  {
  }

  lemma DividingDisjoint(nfa: Nfa, seen: seq<nat>, p: nat, all: set<byte>, accepts: set<byte>, j: nat,
                         destsNode: seq<seq<nat>>, sets: seq<set<byte>>)
    requires Dividing(nfa, seen, p, all, accepts, j, destsNode, sets)
    ensures Disjoint(sets)
  {
  }

  lemma NotCovered(sets: seq<set<byte>>, accepts: set<byte>, ch: byte)
    requires (forall k :: 0 <= k < |sets| ==> sets[k] !! accepts) && ch in accepts
    ensures !Covered(sets, ch)
  {
  }

  /** The group of the bytes no earlier node accepts is apart from all others. */
  lemma PartingEnd(nfa: Nfa, seen: seq<nat>, p: nat, all: set<byte>, accepts: set<byte>,
                   destsNode: seq<seq<nat>>, sets: seq<set<byte>>)
    requires Parting(nfa, seen, p, all, accepts, |sets|, sets)
    requires Dividing(nfa, seen, p, all, accepts, |sets|, destsNode, sets)
    ensures Apart(nfa, seen + [p], sets + [accepts])
  {
    var chs := sets + [accepts];
    forall i, k, ch, ch' | 0 <= i < k < |chs| && ch in chs[i] && ch' in chs[k]
      ensures Differ(nfa, seen + [p], ch, ch')
    {
      if k < |sets| {
        assert ch in sets[i] && ch' in sets[k];
      } else {
        var x: nat :| SeenAccepts(nfa, seen, x, ch);
        NotCovered(sets, accepts, ch');
        assert SeenAccepts(nfa, seen, x, ch') ==> Covered(sets, ch');
        assert x in seen + [p] && nfa.AcceptsAt(x, ch) != nfa.AcceptsAt(x, ch');
      }
    }
  }

  /** Divide the bytes that node p accepts among the groups, splitting those it accepts in part. */
  method Divide(nfa: Nfa, ghost seen: seq<nat>, p: nat, all: set<byte>, nodes: seq<seq<nat>>, sets: seq<set<byte>>)
      returns (destsNode: seq<seq<nat>>, destsCh: seq<set<byte>>, accepts: set<byte>)
    requires p < |nfa.nodes| && nfa.nodes[p].IsByteNode()
    requires forall ch :: ch in all <==> nfa.AcceptsAt(p, ch)
    requires Grouped(nfa, seen, nodes, sets) && Apart(nfa, seen, sets)
    ensures Grouped(nfa, seen + [p], destsNode, destsCh) && accepts == {}
    ensures Apart(nfa, seen + [p], destsCh) && |sets| <= |destsCh|
    ensures Empties(destsCh) == Empties(sets) + if all == {} then 1 else 0
  {
    hide Dividing, Grouped, GroupNodesValid, Parting, Apart, Empties, Disjoint;
    destsNode, destsCh, accepts := nodes, sets, all;
    Undivided(nfa, seen, p, all, nodes, sets);
    PartingStart(nfa, seen, p, all, nodes, sets);
    var j := 0;
    while j < |destsCh|
      invariant j <= |destsCh| == |destsNode| && Dividing(nfa, seen, p, all, accepts, j, destsNode, destsCh)
      invariant Parting(nfa, seen, p, all, accepts, j, destsCh)
      invariant accepts <= all && (all != {} ==> accepts != {})
      invariant Empties(destsCh) == Empties(sets) && |sets| <= |destsCh|
      decreases accepts, |destsCh| - j
    {
      var intersec := accepts * destsCh[j];
      if (nfa.nodes[p].CHARACTER? && nfa.nodes[p].c !in destsCh[j]) || intersec == {} {
        ghost var common := all * destsCh[j];
        assert intersec == {} || common == {} by {
          assert nfa.nodes[p].CHARACTER? ==> forall ch :: ch in all ==> ch == nfa.nodes[p].c;
        }
        Skip(nfa, seen, p, all, accepts, j, destsNode, destsCh);
        PartingSkip(nfa, seen, p, all, accepts, j, destsCh);
        j := j + 1;
        continue;
      }
      var remains := destsCh[j] - accepts;
      if remains != {} {
        Split(nfa, seen, p, all, accepts, j, destsNode, destsCh);
        PartingSplit(nfa, seen, p, all, accepts, j, destsCh);
        EmptiesUpdate(destsCh, j, intersec);
        EmptiesAppend(destsCh[j := intersec], remains);
        destsCh := destsCh[j := intersec] + [remains];
        destsNode := destsNode + [destsNode[j]];
      } else {
        assert forall ch :: ch in destsCh[j] && ch !in accepts ==> ch in remains;
      }
      assert destsCh[j] == intersec;
      Take(nfa, seen, p, all, accepts, j, destsNode, destsCh);
      DividingDisjoint(nfa, seen, p, all, accepts, j, destsNode, destsCh);
      PartingTake(nfa, seen, p, all, accepts, j, destsCh);
      accepts := accepts - destsCh[j];
      destsNode := destsNode[j := Inserted(destsNode[j], p)];
      j := j + 1;
      if accepts == {} {
        Divided(nfa, seen, p, all, j, destsNode, destsCh);
        PartingApart(nfa, seen, p, all, accepts, j, destsCh);
        return;
      }
    }
    Remaining(nfa, seen, p, all, accepts, destsNode, destsCh);
    PartingEnd(nfa, seen, p, all, accepts, destsNode, destsCh);
    EmptiesAppend(destsCh, accepts);
    destsCh := destsCh + [accepts];
    destsNode := destsNode + [[p]];
    accepts := {};
    Divided(nfa, seen, p, all, |destsCh|, destsNode, destsCh);
  }

  lemma Undivided(nfa: Nfa, seen: seq<nat>, p: nat, all: set<byte>, destsNode: seq<seq<nat>>, destsCh: seq<set<byte>>)
    requires Grouped(nfa, seen, destsNode, destsCh)
    ensures Dividing(nfa, seen, p, all, all, 0, destsNode, destsCh) && |destsCh| == |destsNode|
  {
  }

  lemma Skip(nfa: Nfa, seen: seq<nat>, p: nat, all: set<byte>, accepts: set<byte>, j: nat,
             destsNode: seq<seq<nat>>, destsCh: seq<set<byte>>)
    requires Dividing(nfa, seen, p, all, accepts, j, destsNode, destsCh) && j < |destsCh|
    requires accepts * destsCh[j] == {} || all * destsCh[j] == {}
    ensures Dividing(nfa, seen, p, all, accepts, j + 1, destsNode, destsCh)
  {
    assert forall ch :: ch in accepts && ch in destsCh[j] ==> ch in accepts * destsCh[j] && ch in all * destsCh[j];
  }

  /** Enumerate the bytes a node accepts, starting from no bytes. */
  method AddAccepted(syntax: Syntax, node: Token, before: set<byte>) returns (accepts: set<byte>)
    requires before == {} && node.IsByteNode()
    ensures forall ch :: ch in accepts <==> Accepts(syntax, node, ch)
  {
    accepts := before;
    if node.CHARACTER? {
      accepts := accepts + {node.c};
    } else if node.SIMPLE_BRACKET? {
      accepts := accepts + node.sbcset;
    } else {
      accepts := BytesBelow(SBC_MAX);
      BytesBelowItems(SBC_MAX);
      if !syntax.dotNewline {
        accepts := accepts - {10};
      }
      if syntax.dotNotNull {
        accepts := accepts - {0};
      }
    }
  }

  /** group_nodes_into_DFAstates.  The number of groups only grows, and in the end it is exactly the
      number needed; so arrays of SBC_MAX groups suffice if and only if that is at most SBC_MAX. */
  method GroupNodes(nfa: Nfa, nodes: seq<nat>) returns (destsNode: seq<seq<nat>>, destsCh: seq<set<byte>>)
    requires forall p :: p in nodes ==> p < |nfa.nodes|
    ensures Grouped(nfa, nodes, destsNode, destsCh)
    ensures |destsCh| == GroupsNeeded(nfa, nodes)
    ensures (forall p :: p in nodes && nfa.nodes[p].IsByteNode() ==> AcceptsSomething(nfa, p))
            ==> |destsCh| <= SBC_MAX && forall j :: 0 <= j < |destsCh| ==> destsCh[j] != {}
  {
    hide Grouped, Apart, Empties, EmptyOccurrences, Classes;
    var accepts: set<byte> := {};
    destsNode, destsCh := [], [];
    NothingGrouped(nfa, nodes[..0]);
    for i := 0 to |nodes|
      invariant accepts == {}
      invariant Grouped(nfa, nodes[..i], destsNode, destsCh) && Apart(nfa, nodes[..i], destsCh)
      invariant Empties(destsCh) == EmptyOccurrences(nfa, nodes[..i])
    {
      var p := nodes[i];
      assert p in nodes;
      var node := nfa.nodes[p];
      assert nodes[..i + 1] == nodes[..i] + [p];
      EmptyOccurrencesMore(nfa, nodes[..i], p);
      if !node.IsByteNode() {
        GroupedSkip(nfa, nodes[..i], p, destsNode, destsCh);
        ApartMore(nfa, nodes[..i], p, destsCh);
        continue;
      }
      accepts := AddAccepted(nfa.syntax, node, accepts);
      assert forall ch :: ch in accepts <==> nfa.AcceptsAt(p, ch);
      AcceptsNothing(nfa, p, accepts);
      destsNode, destsCh, accepts := Divide(nfa, nodes[..i], p, accepts, destsNode, destsCh);
    }
    assert nodes[..|nodes|] == nodes;
    GroupsCounted(nfa, nodes, destsNode, destsCh);
    ClassesFit(nfa, Items(nodes));
    NoEmptyOccurrences(nfa, nodes);
    NoEmpties(destsCh);
  }

  /** Which bytes a node is grouped under: a period that is not to match a newline, for example, is in
      no group for byte 10, and one that is to match it is. */
  lemma NodeIsGrouped(nfa: Nfa, nodes: seq<nat>, destsNode: seq<seq<nat>>, destsCh: seq<set<byte>>, p: nat, ch: byte)
    requires Grouped(nfa, nodes, destsNode, destsCh) && p in nodes && p < |nfa.nodes|
    ensures var grouped := exists j :: 0 <= j < |destsCh| && ch in destsCh[j] && p in destsNode[j];
            match nfa.nodes[p] {
              case CHARACTER(c) => grouped <==> ch == c
              case SIMPLE_BRACKET(sbcset) => grouped <==> ch in sbcset
              case OP_PERIOD =>
                grouped <==> (ch == 10 ==> nfa.syntax.dotNewline) && (ch == 0 ==> !nfa.syntax.dotNotNull)
              case _ => !grouped
            }
  {
    if SeenAccepts(nfa, nodes, p, ch) {
      assert Covered(destsCh, ch);
    }
  }

  lemma EmptyOccurrencesMore(nfa: Nfa, nodes: seq<nat>, p: nat)
    ensures EmptyOccurrences(nfa, nodes + [p]) == EmptyOccurrences(nfa, nodes) + if IsEmptyBracket(nfa, p) then 1 else 0
  {
    assert Init(nodes + [p]) == nodes;
  }

  lemma AcceptsNothing(nfa: Nfa, p: nat, all: set<byte>)
    requires p < |nfa.nodes| && nfa.nodes[p].IsByteNode() && forall ch :: ch in all <==> nfa.AcceptsAt(p, ch)
    ensures all == {} <==> IsEmptyBracket(nfa, p)
  {
    if ch :| ch in all {
      assert nfa.AcceptsAt(p, ch);
    }
  }

  lemma GroupIsSignature(nfa: Nfa, nodes: seq<nat>, destsNode: seq<seq<nat>>, destsCh: seq<set<byte>>, j: nat, ch: byte)
    requires Grouped(nfa, nodes, destsNode, destsCh) && j < |destsCh| && ch in destsCh[j]
    ensures Signature(nfa, Items(nodes), ch) == Items(destsNode[j]) != {}
  {
    var s := Items(nodes);
    forall p: nat ensures p in Signature(nfa, s, ch) <==> p in Items(destsNode[j]) {
      assert p in destsNode[j] <==> SeenAccepts(nfa, nodes, p, ch);
    }
    assert destsNode[j][0] in Items(destsNode[j]);
  }

  lemma UnionIsAccepted(nfa: Nfa, nodes: seq<nat>, destsNode: seq<seq<nat>>, destsCh: seq<set<byte>>, ch: byte)
    requires Grouped(nfa, nodes, destsNode, destsCh)
    ensures ch in BigUnion(destsCh) <==> Signature(nfa, Items(nodes), ch) != {}
  {
    BigUnionItems(destsCh, ch);
    if j :| 0 <= j < |destsCh| && ch in destsCh[j] {
      GroupIsSignature(nfa, nodes, destsNode, destsCh, j, ch);
    }
    if p :| p in Signature(nfa, Items(nodes), ch) {
      assert SeenAccepts(nfa, nodes, p, ch);
      assert Covered(destsCh, ch);
    }
  }

  lemma GroupsCounted(nfa: Nfa, nodes: seq<nat>, destsNode: seq<seq<nat>>, destsCh: seq<set<byte>>)
    requires Grouped(nfa, nodes, destsNode, destsCh) && Apart(nfa, nodes, destsCh)
    ensures |Classes(nfa, Items(nodes))| + Empties(destsCh) == |destsCh|
  {
    hide Signature, Items, Grouped, Apart, Empties, BigUnion, Classes, ClassesOf;
    var s := Items(nodes);
    forall j, ch, ch' | 0 <= j < |destsCh| && ch in destsCh[j] && ch' in destsCh[j]
      ensures Signature(nfa, s, ch) == Signature(nfa, s, ch')
    {
      SameLengths(nfa, nodes, destsNode, destsCh);
      GroupIsSignature(nfa, nodes, destsNode, destsCh, j, ch);
      GroupIsSignature(nfa, nodes, destsNode, destsCh, j, ch');
    }
    ClassesCounted(nfa, nodes, destsCh);
    forall ch ensures ch in BigUnion(destsCh) <==> Signature(nfa, s, ch) != {} {
      UnionIsAccepted(nfa, nodes, destsNode, destsCh, ch);
    }
    ClassesAreAll(nfa, s, destsCh);
  }

  lemma ClassesAreAll(nfa: Nfa, s: set<nat>, sets: seq<set<byte>>)
    requires forall ch :: ch in BigUnion(sets) <==> Signature(nfa, s, ch) != {}
    ensures ClassesOf(nfa, s, sets) == Classes(nfa, s)
  {
    hide Signature, BigUnion;
    BytesBelowItems(SBC_MAX);
  }

  lemma SameLengths(nfa: Nfa, nodes: seq<nat>, destsNode: seq<seq<nat>>, destsCh: seq<set<byte>>)
    requires Grouped(nfa, nodes, destsNode, destsCh)
    ensures |destsNode| == |destsCh|
  {
  }

  /** The different non-empty sets among the first n of a sequence. */
  ghost function Distinct<T>(sigs: seq<set<T>>, n: nat): set<set<T>>
    requires n <= |sigs|
  {
    if n == 0 then {} else Distinct(sigs, n - 1) + if sigs[n - 1] == {} then {} else {sigs[n - 1]}
  }

  lemma {:induction false} DistinctSize<T>(sigs: seq<set<T>>, n: nat)
    requires n <= |sigs|
    ensures |Distinct(sigs, n)| <= n
  {
    if n > 0 {
      DistinctSize(sigs, n - 1);
    }
  }

  lemma {:induction false} DistinctItems<T>(sigs: seq<set<T>>, n: nat, c: set<T>)
    requires n <= |sigs|
    ensures c in Distinct(sigs, n) <==> c != {} && exists i :: 0 <= i < n && sigs[i] == c
  {
    if n > 0 {
      DistinctItems(sigs, n - 1, c);
    }
  }

  lemma DistinctMore<T>(sigs: seq<set<T>>, n: nat)
    requires 0 < n <= |sigs|
    ensures |Distinct(sigs, n)| == |Distinct(sigs, n - 1)|
                                   + if sigs[n - 1] == {} || sigs[n - 1] in Distinct(sigs, n - 1) then 0 else 1
  {
    if sigs[n - 1] in Distinct(sigs, n - 1) {
      assert Distinct(sigs, n - 1) + {sigs[n - 1]} == Distinct(sigs, n - 1);
    }
  }

  /** When b tells apart whatever a tells apart, it has at least as many different sets. */
  lemma {:induction false} FewerDistinct<S, T>(a: seq<set<S>>, b: seq<set<T>>, n: nat)
    requires n <= |a| == |b|
    requires forall i, j :: 0 <= i < |a| && 0 <= j < |a| && b[i] == b[j] ==> a[i] == a[j]
    requires forall i :: 0 <= i < |a| && a[i] != {} ==> b[i] != {}
    ensures |Distinct(a, n)| <= |Distinct(b, n)|
  {
    if n > 0 {
      FewerDistinct(a, b, n - 1);
      DistinctMore(a, n);
      DistinctMore(b, n);
      DistinctItems(a, n - 1, a[n - 1]);
      DistinctItems(b, n - 1, b[n - 1]);
      hide Distinct;
      if a[n - 1] != {} && b[n - 1] in Distinct(b, n - 1) {
        var i :| 0 <= i < n - 1 && b[i] == b[n - 1];
        assert a[i] == a[n - 1];
      }
    }
  }

  ghost function Signatures(nfa: Nfa, s: set<nat>): (r: seq<set<nat>>)
    ensures |r| == SBC_MAX && forall ch: byte :: r[ch] == Signature(nfa, s, ch)
  {
    seq(SBC_MAX, ch requires 0 <= ch < SBC_MAX => Signature(nfa, s, ch))
  }

  lemma ClassesAreDistinct(nfa: Nfa, s: set<nat>)
    ensures Classes(nfa, s) == Distinct(Signatures(nfa, s), SBC_MAX)
  {
    hide Signature;
    BytesBelowItems(SBC_MAX);
    var sigs := Signatures(nfa, s);
    forall c ensures c in Classes(nfa, s) <==> c in Distinct(sigs, SBC_MAX) {
      DistinctItems(sigs, SBC_MAX, c);
      if c in Distinct(sigs, SBC_MAX) {
        var i :| 0 <= i < SBC_MAX && sigs[i] == c;
        var ch: byte := i;
        assert Signature(nfa, s, ch) == c && ch in BytesBelow(SBC_MAX);
      }
      if c in Classes(nfa, s) {
        var ch :| ch in BytesBelow(SBC_MAX) && Signature(nfa, s, ch) == c;
        assert sigs[ch] == c;
      }
    }
  }

  /** There are never more classes than bytes. */
  lemma ClassesFit(nfa: Nfa, s: set<nat>)
    ensures |Classes(nfa, s)| <= SBC_MAX
  {
    ClassesAreDistinct(nfa, s);
    DistinctSize(Signatures(nfa, s), SBC_MAX);
  }

  lemma {:induction false} NoEmptyOccurrences(nfa: Nfa, nodes: seq<nat>)
    ensures (forall p :: p in nodes ==> !IsEmptyBracket(nfa, p)) ==> EmptyOccurrences(nfa, nodes) == 0
  {
    if nodes != [] {
      NoEmptyOccurrences(nfa, Init(nodes));
      assert nodes == Init(nodes) + [Last(nodes)];
    }
  }

  lemma NothingGrouped(nfa: Nfa, seen: seq<nat>)
    requires seen == []
    ensures Grouped(nfa, seen, [], []) && Apart(nfa, seen, []) && Empties([]) == EmptyOccurrences(nfa, seen)
  {
  }

  lemma GroupedSkip(nfa: Nfa, seen: seq<nat>, p: nat, destsNode: seq<seq<nat>>, destsCh: seq<set<byte>>)
    requires Grouped(nfa, seen, destsNode, destsCh)
    requires p < |nfa.nodes| && !nfa.nodes[p].IsByteNode()
    ensures Grouped(nfa, seen + [p], destsNode, destsCh)
  {
    assert forall x: nat, ch :: SeenAccepts(nfa, seen + [p], x, ch) <==> SeenAccepts(nfa, seen, x, ch);
  }
}
