/** The table of DFA states: an append-only hash table in which every set of nodes (for a given
    context) has at most one state, so that states can be compared by reference. */
module StateTable {
  import opened RegexLanguage
  import opened Automaton
  import opened NodeSets
  import opened Closures

  /** Hash values wrap around at this modulus. */
  const HASH_MODULUS: nat := 0x1_0000_0000_0000_0000

  /** There are four context bits. */
  const CONTEXTS: nat := 16

  const SBC_MAX: nat := 256

  ghost function Sum(s: seq<nat>): nat {
    if s == [] then 0 else Sum(Init(s)) + Last(s)
  }

  ghost function StateHash(nodes: seq<nat>, context: nat): nat {
    (|nodes| + context + Sum(nodes)) % HASH_MODULUS
  }

  method CalcStateHash(nodes: seq<nat>, context: nat) returns (hash: nat)
    ensures hash == StateHash(nodes, context)
  {
    hash := (|nodes| + context) % HASH_MODULUS;
    for i := 0 to |nodes|
      invariant hash == (|nodes| + context + Sum(nodes[..i])) % HASH_MODULUS
    {
      assert Init(nodes[..i + 1]) == nodes[..i];
      hash := (hash + nodes[i]) % HASH_MODULUS;
    }
    assert nodes[..|nodes|] == nodes;
  }

  /** Every element adds itself and one for its place; the context is the start. */
  lemma HashAddsUp(nodes: seq<nat>, context: nat, p: nat)
    ensures context < 16 ==> StateHash([], context) == context
    ensures StateHash(nodes + [p], context) == (StateHash(nodes, context) + p + 1) % 0x1_0000_0000_0000_0000
  {
    assert Init(nodes + [p]) == nodes;
  }

  /** States of the same nodes whose hashes agree were built for the same context. */
  lemma HashFixesContext(nodes: seq<nat>, c: nat, d: nat)
    requires c < CONTEXTS && d < CONTEXTS && StateHash(nodes, c) == StateHash(nodes, d)
    ensures c == d
  {
  }

  /** Whether nodes p accepts ch and leads by it to q. */
  ghost predicate Moves(nfa: Nfa, p: nat, ch: byte, q: nat)
    requires nfa.Valid()
  {
    nfa.AcceptsAt(p, ch) && 0 <= nfa.nexts[p] && nfa.Reach(nfa.nexts[p], [], q)
  }

  /** The node set r is what the node set nodes becomes by the input byte ch. */
  ghost predicate IsMove(nfa: Nfa, nodes: seq<nat>, ch: byte, r: seq<nat>)
    requires nfa.Valid()
  {
    forall q: nat :: q in r <==> exists p :: p in nodes && Moves(nfa, p, ch, q)
  }

  predicate IsEnd(nfa: Nfa, p: nat) {
    p < |nfa.nodes| && nfa.nodes[p].END_OF_RE?
  }

  predicate NonEpsilon(nfa: Nfa, p: nat) {
    p < |nfa.nodes| && !nfa.nodes[p].IsEpsilonNode()
  }

  /** The mask of such a size selects the remainder. */
  predicate IsPowerOfTwo(n: nat) {
    n == 1 || (n > 0 && n % 2 == 0 && IsPowerOfTwo(n / 2))
  }

  class DfaState {
    const hash: nat
    const nodes: seq<nat>
    const nonEpsNodes: seq<nat>
    const context: nat
    const halt: bool
    var trtable: seq<DfaState?>
    var inveclosure: Entry

    /** create_ci_newstate, create_cd_newstate and the first half of register_state. */
    constructor (nfa: Nfa, nodes: seq<nat>, context: nat, hash: nat)
      requires forall p :: p in nodes ==> p < |nfa.nodes|
      ensures this.nodes == nodes && this.context == context && this.hash == hash
      ensures trtable == [] && inveclosure == NotYet
      ensures Describes(nfa)
    {
      var nonEps: seq<nat>, final := [], false;
      for i := 0 to |nodes|
        invariant forall p :: p in nonEps <==> p in nodes[..i] && NonEpsilon(nfa, p)
        invariant Sorted(nodes) ==> Sorted(nonEps)
        invariant Sorted(nodes) ==> forall p :: p in nonEps ==> p <= nodes[if i == 0 then 0 else i - 1]
        invariant final <==> exists p :: p in nodes[..i] && IsEnd(nfa, p)
      {
        assert nodes[i] in nodes;
        if !nfa.nodes[nodes[i]].IsEpsilonNode() {
          if Sorted(nodes) {
            SortedAppend(nonEps, nodes[i]);
          }
          nonEps := nonEps + [nodes[i]];
        }
        assert nodes[..i + 1] == nodes[..i] + [nodes[i]];
        if nfa.nodes[nodes[i]].END_OF_RE? {
          final := true;
          assert nodes[i] in nodes[..i + 1] && IsEnd(nfa, nodes[i]);
        }
      }
      assert nodes[..|nodes|] == nodes;
      this.hash, this.nodes, this.context := hash, nodes, context;
      this.nonEpsNodes, this.halt := nonEps, final;
      trtable, inveclosure := [], NotYet;
    }

    /** What the constant fields say about the nodes. */
    ghost predicate Describes(nfa: Nfa) {
      && (forall p :: p in nodes ==> p < |nfa.nodes|)
      && (Sorted(nodes) ==> Sorted(nonEpsNodes))
      && (forall p :: p in nonEpsNodes <==> p in nodes && NonEpsilon(nfa, p))
      && (halt <==> exists p :: p in nodes && IsEnd(nfa, p))
    }
  }

  class Dfa {
    const nfa: Nfa
    const eclosures: seq<seq<nat>>
    const inveclosures: seq<seq<nat>>
    var stateTable: seq<seq<DfaState>>
    ghost var states: set<DfaState>

    ghost predicate ClosuresExact() {
      && nfa.Valid() && |eclosures| == |inveclosures| == |nfa.nodes|
      && (forall p :: 0 <= p < |eclosures| ==> Sorted(eclosures[p]) && Sorted(inveclosures[p]))
      && (forall p :: 0 <= p < |eclosures| ==> Once(nfa, eclosures[p]))
      && (forall p: nat, q: nat :: p < |eclosures| ==> (q in eclosures[p] <==> nfa.Reach(p, [], q)))
      && (forall p: nat, q: nat :: q < |inveclosures| ==>
            (p in inveclosures[q] <==> p < |nfa.nodes| && nfa.Reach(p, [], q)))
    }

    /** The hash table holds exactly the known states, each in its bucket, once. */
    ghost predicate TableValid()
      reads this
    {
      && |stateTable| > 0
      && (forall i, j :: 0 <= i < |stateTable| && 0 <= j < |stateTable[i]| ==>
            stateTable[i][j] in states && stateTable[i][j].hash % |stateTable| == i)
      && (forall s :: s in states ==> s in stateTable[s.hash % |stateTable|])
      && (forall s :: s in states ==>
            && s.nodes != [] && Sorted(s.nodes) && s.context < CONTEXTS
            && s.hash == StateHash(s.nodes, s.context) && s.Describes(nfa))
    }

    ghost predicate Unique()
      reads this
    {
      forall s, u :: s in states && u in states && s.nodes == u.nodes && s.context == u.context ==> s == u
    }

    /** What a transition table entry must be. */
    ghost predicate Transition(s: DfaState, ch: byte, r: DfaState?)
      requires nfa.Valid()
      reads this
    {
      if r == null then IsMove(nfa, s.nodes, ch, [])
      else r in states && r.context == 0 && Once(nfa, r.nodes) && IsMove(nfa, s.nodes, ch, r.nodes)
    }

    ghost predicate TransitionsValid(s: DfaState)
      requires nfa.Valid()
      reads this, s
    {
      s.trtable != [] ==>
        |s.trtable| == SBC_MAX && forall ch: byte :: Transition(s, ch, s.trtable[ch])
    }

    /** The sources of epsilon paths into the nodes of the state, computed at most once. */
    ghost predicate InverseValid(s: DfaState)
      requires nfa.Valid()
      reads s
    {
      && !s.inveclosure.InProgress?
      && (s.inveclosure.Computed? ==>
            && Sorted(s.inveclosure.elems)
            && forall p: nat :: p in s.inveclosure.elems <==>
                 p < |nfa.nodes| && exists q :: q in s.nodes && nfa.Reach(p, [], q))
    }

    ghost predicate Valid()
      reads this, states
    {
      && ClosuresExact() && TableValid() && Unique()
      && forall s :: s in states ==> TransitionsValid(s) && InverseValid(s)
    }

    /** What every operation keeps: states are never dropped, moved or duplicated. */
    twostate predicate Extended()
      reads this
    {
      && old(states) <= states
      && |old(stateTable)| == |stateTable|
      && (forall i :: 0 <= i < |stateTable| ==> old(stateTable[i]) <= stateTable[i])
      && forall s :: s in states && s !in old(states) ==> fresh(s)
    }

    constructor (nfa: Nfa, eclosures: seq<seq<nat>>, inveclosures: seq<seq<nat>>, patLen: nat)
      ensures this.nfa == nfa && this.eclosures == eclosures && this.inveclosures == inveclosures
      ensures states == {} && TableValid() && Unique()
      ensures IsPowerOfTwo(|stateTable|) && patLen < |stateTable| <= 2 * patLen + 1
    {
      var tableSize := 1;
      while tableSize <= patLen
        invariant 0 < tableSize <= 2 * patLen + 1 && IsPowerOfTwo(tableSize)
        decreases patLen - tableSize
      {
        tableSize := 2 * tableSize;
      }
      this.nfa, this.eclosures, this.inveclosures := nfa, eclosures, inveclosures;
      stateTable := seq(tableSize, _ => []);
      states := {};
    }

    /** Equal requests are served by one and the same state. */
    lemma OneState(s: DfaState, u: DfaState)
      requires TableValid() && Unique() && s in states && u in states
      ensures s == u <==> s.nodes == u.nodes && s.context == u.context
    {
    }

    /** re_acquire_state_context: the state for these nodes and context, found or created; there
        is none for the empty set. */
    method AcquireStateContext(nodes: seq<nat>, context: nat) returns (r: DfaState?)
      requires Valid() && Sorted(nodes) && context < CONTEXTS
      requires forall p :: p in nodes ==> p < |nfa.nodes|
      modifies this
      ensures Valid() && Extended()
      ensures r == null <==> nodes == []
      ensures r != null ==> r in states && r.nodes == nodes && r.context == context
      ensures r == null || r in old(states) ==> stateTable == old(stateTable) && states == old(states)
      ensures r != null && r !in old(states) ==> states == old(states) + {r}
    {
      if nodes == [] {
        return null;
      }
      var hash := CalcStateHash(nodes, context);
      var spot := stateTable[hash % |stateTable|];
      for i := 0 to |spot|
        invariant forall k :: 0 <= k < i ==> !(spot[k].nodes == nodes && spot[k].context == context)
      {
        if spot[i].hash == hash && spot[i].context == context && spot[i].nodes == nodes {
          return spot[i];
        }
      }
      r := new DfaState(nfa, nodes, context, hash);
      Register(r);
    }

    /** re_acquire_state: the context is not compared, the hash alone decides. */
    method AcquireState(nodes: seq<nat>) returns (r: DfaState?)
      requires Valid() && Sorted(nodes)
      requires forall p :: p in nodes ==> p < |nfa.nodes|
      modifies this
      ensures Valid() && Extended()
      ensures r == null <==> nodes == []
      ensures r != null ==> r in states && r.nodes == nodes && r.context == 0
      ensures r == null || r in old(states) ==> stateTable == old(stateTable) && states == old(states)
      ensures r != null && r !in old(states) ==> states == old(states) + {r}
    {
      if nodes == [] {
        return null;
      }
      var hash := CalcStateHash(nodes, 0);
      var spot := stateTable[hash % |stateTable|];
      for i := 0 to |spot|
        invariant forall k :: 0 <= k < i ==> !(spot[k].nodes == nodes && spot[k].context == 0)
      {
        if hash == spot[i].hash && spot[i].nodes == nodes {
          HashFixesContext(nodes, spot[i].context, 0);
          return spot[i];
        }
      }
      r := new DfaState(nfa, nodes, 0, hash);
      Register(r);
    }

    /** The second half of register_state: the new state goes to the end of its bucket. */
    method Register(s: DfaState)
      requires Valid() && s !in states
      requires s.nodes != [] && Sorted(s.nodes) && s.context < CONTEXTS
      requires s.hash == StateHash(s.nodes, s.context) && s.Describes(nfa)
      requires s.trtable == [] && s.inveclosure.NotYet?
      requires forall u :: u in stateTable[s.hash % |stateTable|] ==> !(u.nodes == s.nodes && u.context == s.context)
      modifies this
      ensures Valid() && states == old(states) + {s}
      ensures |stateTable| == |old(stateTable)|
      ensures forall i :: 0 <= i < |stateTable| ==> old(stateTable[i]) <= stateTable[i]
    {
      var spot := s.hash % |stateTable|;
      stateTable := stateTable[spot := stateTable[spot] + [s]];
      states := states + {s};
    }
  }

  /** A call of re_acquire_state_context, or of re_acquire_state, which is for context 0. */
  datatype Request = ForContext(nodes: seq<nat>, requested: nat) | ContextFree(nodes: seq<nat>)
  {
    function Context(): nat {
      if ContextFree? then 0 else requested
    }

    /** The requests ask for the same state. */
    predicate Same(other: Request) {
      nodes == other.nodes && (nodes == [] || Context() == other.Context())
    }
  }

  ghost predicate Serves(dfa: Dfa, q: Request, r: DfaState?)
    reads dfa
  {
    if q.nodes == [] then r == null else r != null && r in dfa.states && r.nodes == q.nodes && r.context == q.Context()
  }

  /** Any run of calls of the two entry points: whenever the same state was asked for, the same object
      was returned, and different requests got different ones. */
  method AcquireAll(dfa: Dfa, requests: seq<Request>) returns (results: seq<DfaState?>)
    requires dfa.Valid()
    requires forall q :: q in requests ==>
               Sorted(q.nodes) && q.Context() < CONTEXTS && forall p :: p in q.nodes ==> p < |dfa.nfa.nodes|
    modifies dfa
    ensures dfa.Valid() && dfa.Extended() && |results| == |requests|
    ensures forall i :: 0 <= i < |requests| ==> Serves(dfa, requests[i], results[i])
    ensures forall i, j :: 0 <= i < |requests| && 0 <= j < |requests| ==>
              (results[i] == results[j] <==> requests[i].Same(requests[j]))
  {
    hide Dfa.TableValid, Dfa.ClosuresExact, Dfa.Unique, Dfa.TransitionsValid, Dfa.InverseValid;
    results := [];
    for k := 0 to |requests|
      invariant dfa.Valid() && dfa.Extended() && |results| == k
      invariant forall i :: 0 <= i < k ==> Serves(dfa, requests[i], results[i])
    {
      assert requests[k] in requests;
      var r;
      match requests[k] {
        case ForContext(nodes, context) => r := dfa.AcquireStateContext(nodes, context);
        case ContextFree(nodes) => r := dfa.AcquireState(nodes);
      }
      results := results + [r];
    }
    forall i, j | 0 <= i < |requests| && 0 <= j < |requests|
      ensures results[i] == results[j] <==> requests[i].Same(requests[j])
    {
      ServedAlike(dfa, requests[i], results[i], requests[j], results[j]);
    }
  }

  lemma ServedAlike(dfa: Dfa, q: Request, r: DfaState?, q': Request, r': DfaState?)
    requires dfa.Valid() && Serves(dfa, q, r) && Serves(dfa, q', r')
    ensures r == r' <==> q.Same(q')
  {
    if r != null && r' != null {
      dfa.OneState(r, r');
    }
  }
}
