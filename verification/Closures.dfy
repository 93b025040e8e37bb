/** Epsilon closures: a depth-first search that skips nodes whose closure is still being computed
    and throws away results that may be incomplete, and the converse relation. */
module Closures {
  import opened Automaton
  import opened NodeSets

  /** An entry of eclosures: nelem == 0, nelem == REG_MISSING, or a closure. */
  datatype Entry = NotYet | InProgress | Computed(elems: seq<nat>)

  /** An epsilon path of n edges from p to q that stays outside the set s. */
  ghost predicate EpsPath(a: Nfa, n: nat, p: nat, q: nat, s: set<nat>) {
    && p !in s && p < |a.edests|
    && if n == 0 then p == q else exists m :: m in a.edests[p] && EpsPath(a, n - 1, m, q, s)
  }

  ghost predicate Reaches(a: Nfa, p: nat, q: nat) {
    exists n: nat :: EpsPath(a, n, p, q, {})
  }

  /** Only epsilon nodes may occur more than once. */
  ghost predicate Once(a: Nfa, elems: seq<nat>) {
    forall p: nat :: p < |a.nodes| && !a.nodes[p].IsEpsilonNode() ==> Count(elems, p) <= 1
  }

  lemma OnceMerged(a: Nfa, d: seq<nat>, s: seq<nat>)
    requires Sorted(d) && Sorted(s) && Once(a, d) && Once(a, s)
    ensures Once(a, Merged(d, s))
  {
    forall p: nat | p < |a.nodes| && !a.nodes[p].IsEpsilonNode() ensures Count(Merged(d, s), p) <= 1 {
      MergedCount(d, s, p);
    }
  }

  lemma OnceInserted(a: Nfa, s: seq<nat>, e: nat)
    requires Sorted(s) && Once(a, s) && (s == [] || (e < |a.nodes| && a.nodes[e].IsEpsilonNode()))
    ensures Once(a, Inserted(s, e))
  {
    forall p: nat | p < |a.nodes| && !a.nodes[p].IsEpsilonNode() ensures Count(Inserted(s, e), p) <= 1 {
      InsertedCount(s, e, p);
    }
  }

  /** The sequence holds exactly the nodes that p reaches by epsilon moves. */
  ghost predicate IsClosure(a: Nfa, p: nat, elems: seq<nat>) {
    Sorted(elems) && Once(a, elems) && forall q :: q in elems <==> Reaches(a, p, q)
  }

  lemma {:induction false} EpsPathAvoids(a: Nfa, n: nat, p: nat, q: nat, s: set<nat>, s': set<nat>)
    requires EpsPath(a, n, p, q, s) && s' <= s
    ensures EpsPath(a, n, p, q, s')
    decreases n
  {
    if n > 0 {
      var m :| m in a.edests[p] && EpsPath(a, n - 1, m, q, s);
      EpsPathAvoids(a, n - 1, m, q, s, s');
    }
  }

  /** A path either never visits x, or can be cut at a visit. */
  lemma {:induction false} CutAt(a: Nfa, n: nat, p: nat, q: nat, s: set<nat>, x: nat) returns (k: nat)
    requires EpsPath(a, n, p, q, s)
    ensures k <= n && (EpsPath(a, k, x, q, s) || EpsPath(a, n, p, q, s + {x}))
    decreases n
  {
    k := n;
    if p != x && n > 0 {
      var m :| m in a.edests[p] && EpsPath(a, n - 1, m, q, s);
      k := CutAt(a, n - 1, m, q, s, x);
    }
  }

  /** What x reaches outside s is x itself or is reached from a successor without coming back. */
  lemma {:induction false} LeaveForGood(a: Nfa, n: nat, x: nat, q: nat, s: set<nat>) returns (k: nat, m: nat)
    requires EpsPath(a, n, x, q, s) && q != x
    ensures m in a.edests[x] && EpsPath(a, k, m, q, s + {x})
    decreases n
  {
    m :| m in a.edests[x] && EpsPath(a, n - 1, m, q, s);
    k := CutAt(a, n - 1, m, q, s, x);
    if EpsPath(a, k, x, q, s) {
      k, m := LeaveForGood(a, k, x, q, s);
    } else {
      k := n - 1;
    }
  }

  lemma ReachesStep(a: Nfa, p: nat, m: nat, q: nat)
    requires p < |a.edests| && m in a.edests[p] && Reaches(a, m, q)
    ensures Reaches(a, p, q)
  {
    var n: nat :| EpsPath(a, n, m, q, {});
    assert EpsPath(a, n + 1, p, q, {});
  }

  lemma ReachesSelf(a: Nfa, p: nat)
    requires p < |a.edests|
    ensures Reaches(a, p, p)
  {
    assert EpsPath(a, 0, p, p, {});
  }

  lemma ReachesFirst(a: Nfa, p: nat, q: nat)
    requires Reaches(a, p, q) && p != q
    ensures exists m :: m in a.edests[p] && Reaches(a, m, q)
  {
    var n: nat :| EpsPath(a, n, p, q, {});
    var m :| m in a.edests[p] && EpsPath(a, n - 1, m, q, {});
    assert Reaches(a, m, q);
  }

  /** Epsilon reachability is what the automaton calls reaching with the empty word. */
  lemma {:induction false} EpsPathIsPath(a: Nfa, n: nat, p: nat, q: nat)
    requires a.Valid() && p < |a.nodes|
    ensures EpsPath(a, n, p, q, {}) <==> a.Path(n, p, [], q)
    decreases n
  {
    if n > 0 {
      forall m | m in a.edests[p] ensures EpsPath(a, n - 1, m, q, {}) <==> a.Path(n - 1, m, [], q) {
        EpsPathIsPath(a, n - 1, m, q);
      }
    }
  }

  lemma ReachesIsReach(a: Nfa, p: nat, q: nat)
    requires a.Valid() && p < |a.nodes|
    ensures Reaches(a, p, q) <==> a.Reach(p, [], q)
  {
    forall n: nat ensures EpsPath(a, n, p, q, {}) <==> a.Path(n, p, [], q) {
      EpsPathIsPath(a, n, p, q);
    }
  }

  lemma SortedAppend(s: seq<nat>, last: nat)
    requires Sorted(s) && forall p :: p in s ==> p <= last
    ensures Sorted(s + [last])
  {
    assert |s| > 0 ==> s[|s| - 1] in s;
  }

  class ClosureTable {
    const nfa: Nfa
    var eclosures: seq<Entry>
    var inveclosures: seq<seq<nat>>

    ghost predicate Valid()
      reads this
    {
      && nfa.Valid() && |eclosures| == |nfa.nodes|
      && forall p :: 0 <= p < |eclosures| && eclosures[p].Computed? ==> IsClosure(nfa, p, eclosures[p].elems)
    }

    /** The nodes whose closure is being computed. */
    ghost function Active(): set<nat>
      reads this
    {
      set p | 0 <= p < |eclosures| && eclosures[p].InProgress?
    }

    ghost function Idle(): set<nat>
      reads this
    {
      set p | 0 <= p < |eclosures| && !eclosures[p].InProgress?
    }

    constructor (nfa: Nfa)
      requires nfa.Valid()
      ensures Valid() && this.nfa == nfa && forall p :: 0 <= p < |eclosures| ==> eclosures[p].NotYet?
    {
      this.nfa := nfa;
      eclosures := seq(|nfa.nodes|, _ => NotYet);
      inveclosures := [];
    }

    /** Everything p reaches without passing an active node is in elems, and nothing else that p
        does not reach. */
    ghost predicate Partial(p: nat, elems: seq<nat>, active: set<nat>) {
      && Sorted(elems) && Once(nfa, elems)
      && (forall q :: q in elems ==> Reaches(nfa, p, q))
      && (forall q, n :: EpsPath(nfa, n, p, q, active) ==> q in elems)
    }

    /** The closures of the first `count` successors of p, as far as they could be computed. */
    ghost predicate Gathered(p: nat, count: nat, elems: seq<nat>, active: set<nat>, incomplete: bool)
      requires p < |nfa.edests| && count <= |nfa.edests[p]|
    {
      && Sorted(elems) && Once(nfa, elems)
      && (forall q :: q in elems ==> Reaches(nfa, p, q))
      && (forall j, q, n :: 0 <= j < count && EpsPath(nfa, n, nfa.edests[p][j], q, active) ==> q in elems)
      && (!incomplete ==> forall j, q :: 0 <= j < count && Reaches(nfa, nfa.edests[p][j], q) ==> q in elems)
    }

    lemma GatherOne(p: nat, count: nat, elems: seq<nat>, part: seq<nat>, active: set<nat>, incomplete: bool,
                    partial: bool)
      requires p < |nfa.edests| && count < |nfa.edests[p]| && nfa.edests[p][count] < |nfa.edests|
      requires Gathered(p, count, elems, active, incomplete)
      requires Partial(nfa.edests[p][count], part, active)
      requires !partial ==> IsClosure(nfa, nfa.edests[p][count], part)
      ensures Gathered(p, count + 1, Merged(elems, part), active, incomplete || partial)
    {
      MergedItems(elems, part);
      OnceMerged(nfa, elems, part);
      var m := nfa.edests[p][count];
      forall q | q in part ensures Reaches(nfa, p, q) {
        ReachesStep(nfa, p, m, q);
      }
    }

    lemma GatherNone(p: nat, active: set<nat>)
      requires p < |nfa.edests|
      ensures Gathered(p, 0, [], active, false)
    {
    }

    lemma SkipActive(p: nat, count: nat, elems: seq<nat>, active: set<nat>, incomplete: bool)
      requires p < |nfa.edests| && count < |nfa.edests[p]|
      requires Gathered(p, count, elems, active, incomplete) && nfa.edests[p][count] in active
      ensures Gathered(p, count + 1, elems, active, true)
    {
    }

    /** A node together with what its successors gave. */
    lemma GatherSelf(p: nat, elems: seq<nat>, active: set<nat>, incomplete: bool)
      requires p < |nfa.edests| && p !in active
      requires elems == [] || (p < |nfa.nodes| && nfa.nodes[p].IsEpsilonNode())
      requires Gathered(p, |nfa.edests[p]|, elems, active + {p}, incomplete)
      ensures Partial(p, Inserted(elems, p), active)
      ensures !incomplete || active == {} ==> IsClosure(nfa, p, Inserted(elems, p))
    {
      var r := Inserted(elems, p);
      InsertedSorted(elems, p);
      InsertedItems(elems, p);
      OnceInserted(nfa, elems, p);
      ReachesSelf(nfa, p);
      forall q, n: nat | EpsPath(nfa, n, p, q, active) ensures q in r {
        if q != p {
          var k, m := LeaveForGood(nfa, n, p, q, active);
          var j :| 0 <= j < |nfa.edests[p]| && nfa.edests[p][j] == m;
        }
      }
      forall q | Reaches(nfa, p, q) && (!incomplete || active == {}) ensures q in r {
        if active == {} {
          var n: nat :| EpsPath(nfa, n, p, q, {});
        } else if q != p {
          ReachesFirst(nfa, p, q);
          var m :| m in nfa.edests[p] && Reaches(nfa, m, q);
          var j :| 0 <= j < |nfa.edests[p]| && nfa.edests[p][j] == m;
        }
      }
    }

    /** A stored closure serves as well as a fresh one. */
    lemma ClosureIsPartial(p: nat, elems: seq<nat>, active: set<nat>)
      requires IsClosure(nfa, p, elems)
      ensures Partial(p, elems, active)
    {
      forall q, n: nat | EpsPath(nfa, n, p, q, active) ensures q in elems {
        EpsPathAvoids(nfa, n, p, q, active, {});
        assert Reaches(nfa, p, q);
      }
    }

    /** calc_eclosure_iter: the result is complete up to the nodes that are active; it is stored
        only when it is certainly complete, or at the root, where nothing else is active. */
    method CalcEclosureIter(node: nat, root: bool) returns (newSet: seq<nat>)
      requires Valid() && node < |eclosures| && eclosures[node].NotYet?
      requires root ==> Active() == {}
      modifies this`eclosures
      ensures Valid() && Active() == old(Active()) && |eclosures| == |old(eclosures)|
      ensures forall p :: 0 <= p < |eclosures| && old(eclosures)[p].Computed? ==> eclosures[p] == old(eclosures)[p]
      ensures Partial(node, newSet, Active())
      ensures eclosures[node].Computed? ==> eclosures[node].elems == newSet
      ensures root ==> eclosures[node].Computed?
      decreases Idle()
    {
      hide Gathered, Partial, IsClosure;
      ghost var active, idle := Active(), Idle();
      GatherNone(node, active + {node});
      if !nfa.nodes[node].IsEpsilonNode() {
        assert nfa.edests[node] == [];
      }
      var eclosure: seq<nat>, incomplete := [], false;
      eclosures := eclosures[node := InProgress];
      assert Active() == active + {node};
      ghost var marked := eclosures;
      var edests := nfa.edests[node];
      if nfa.nodes[node].IsEpsilonNode() {
        for i := 0 to |edests|
          invariant Valid() && Active() == active + {node} && |eclosures| == |marked|
          invariant forall p :: 0 <= p < |eclosures| && marked[p].Computed? ==> eclosures[p] == marked[p]
          invariant Gathered(node, i, eclosure, active + {node}, incomplete)
        {
          var edest := edests[i];
          assert edest in edests;
          if eclosures[edest].InProgress? {
            SkipActive(node, i, eclosure, active + {node}, incomplete);
            incomplete := true;
          } else {
            var elem;
            if eclosures[edest].NotYet? {
              assert Idle() == idle - {node} by {
                assert forall p :: 0 <= p < |eclosures| ==> (eclosures[p].InProgress? <==> p in active + {node});
                assert forall p :: 0 <= p < |eclosures| ==> (old(eclosures)[p].InProgress? <==> p in active);
              }
              assert node in idle;
              elem := CalcEclosureIter(edest, false);
              assert !eclosures[edest].InProgress? by { assert edest !in Active(); }
            } else {
              elem := eclosures[edest].elems;
              ClosureIsPartial(edest, elem, active + {node});
            }
            GatherOne(node, i, eclosure, elem, active + {node}, incomplete, eclosures[edest].NotYet?);
            eclosure := Merged(eclosure, elem);
            if eclosures[edest].NotYet? {
              incomplete := true;
            }
          }
        }
      }
      GatherSelf(node, eclosure, active, incomplete);
      newSet := Inserted(eclosure, node);
      eclosures := eclosures[node := if incomplete && !root then NotYet else Computed(newSet)];
      assert Active() == active;
    }

    /** calc_eclosure: every entry ends up exact; the restart for incomplete entries never
        happens. */
    method CalcEclosure()
      requires Valid() && forall p :: 0 <= p < |eclosures| ==> eclosures[p].NotYet?
      modifies this`eclosures
      ensures Valid() && forall p :: 0 <= p < |eclosures| ==> eclosures[p].Computed?
    {
      var incomplete := false;
      var nodeIdx := 0;
      while true
        invariant Valid() && Active() == {} && 0 <= nodeIdx <= |eclosures| && !incomplete
        invariant forall p :: 0 <= p < nodeIdx ==> eclosures[p].Computed?
        decreases |eclosures| - nodeIdx
      {
        if nodeIdx == |nfa.nodes| {
          if !incomplete {
            break;
          }
          incomplete := false;
          nodeIdx := 0;
        }
        if eclosures[nodeIdx].NotYet? {
          var _ := CalcEclosureIter(nodeIdx, true);
          if eclosures[nodeIdx].NotYet? {
            incomplete := true;
          }
        }
        assert !eclosures[nodeIdx].InProgress? by { assert nodeIdx !in Active(); }
        nodeIdx := nodeIdx + 1;
      }
    }

    ghost predicate AllComputed()
      reads this
    {
      Valid() && forall p :: 0 <= p < |eclosures| ==> eclosures[p].Computed?
    }

    /** x is in the closure of p. */
    predicate Covers(p: nat, x: nat)
      reads this
    {
      p < |eclosures| && eclosures[p].Computed? && x in eclosures[p].elems
    }

    /** The inverse closure of every node holds, in order, the sources below src that cover it. */
    ghost predicate Inverts(src: nat)
      reads this
    {
      && |inveclosures| == |eclosures|
      && (forall x :: 0 <= x < |inveclosures| ==> Sorted(inveclosures[x]))
      && (forall x: nat, p: nat :: x < |inveclosures| ==> (p in inveclosures[x] <==> p < src && Covers(p, x)))
    }

    /** calc_inveclosure: the exact converse of the closures. */
    method CalcInveclosure()
      requires AllComputed()
      modifies this`inveclosures
      ensures AllComputed() && eclosures == old(eclosures) && Inverts(|eclosures|)
    {
      inveclosures := seq(|nfa.nodes|, _ => []);
      for src := 0 to |nfa.nodes|
        invariant AllComputed() && Inverts(src)
      {
        var elems := eclosures[src].elems;
        for idx := 0 to |elems|
          invariant AllComputed() && |inveclosures| == |eclosures|
          invariant forall x :: 0 <= x < |inveclosures| ==> Sorted(inveclosures[x])
          invariant forall x: nat, p: nat :: x < |inveclosures| ==>
                      (p in inveclosures[x] <==> (p < src && Covers(p, x)) || (p == src && x in elems[..idx]))
        {
          var x := elems[idx];
          InClosureIsNode(src, x);
          SortedAppend(inveclosures[x], src);
          inveclosures := inveclosures[x := inveclosures[x] + [src]];
          assert elems[..idx + 1] == elems[..idx] + [x];
        }
        assert elems[..|elems|] == elems;
      }
    }

    /** The inverse closure of x holds exactly the nodes that reach x by epsilon moves. */
    lemma InverseIsConverse(p: nat, x: nat)
      requires AllComputed() && Inverts(|eclosures|) && p < |nfa.nodes| && x < |nfa.nodes|
      ensures p in inveclosures[x] <==> nfa.Reach(p, [], x)
    {
      ReachesIsReach(nfa, p, x);
      assert Covers(p, x) <==> Reaches(nfa, p, x);
    }

    lemma InClosureIsNode(p: nat, x: nat)
      requires Valid() && p < |eclosures| && eclosures[p].Computed? && x in eclosures[p].elems
      ensures x < |nfa.nodes|
    {
      var n: nat :| EpsPath(nfa, n, p, x, {});
      EpsPathEndsInside(nfa, n, p, x, {});
    }
  }

  lemma {:induction false} EpsPathEndsInside(a: Nfa, n: nat, p: nat, q: nat, s: set<nat>)
    requires EpsPath(a, n, p, q, s)
    ensures q < |a.edests|
    decreases n
  {
    if n > 0 {
      var m :| m in a.edests[p] && EpsPath(a, n - 1, m, q, s);
      EpsPathEndsInside(a, n - 1, m, q, s);
    }
  }
}
