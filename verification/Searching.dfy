/** The search over a range of starting points: the first-byte filter and the jumps over starting
    points do not change what is found. */
module Searching {
  import opened RegexLanguage
  import opened Automaton
  import opened NfaBuilder
  import opened StateTable
  import opened Capacity
  import opened Matching
  import opened Sifting

  // ----- The first-byte filter -----

  predicate Wild(nfa: Nfa, p: nat) {
    p < |nfa.nodes| && (nfa.nodes[p].OP_PERIOD? || nfa.nodes[p].END_OF_RE?)
  }

  ghost predicate SetsByte(nfa: Nfa, nodes: seq<nat>, ch: byte) {
    exists p :: p in nodes && (Wild(nfa, p) || nfa.AcceptsAt(p, ch))
  }

  /** The filter passes exactly the bytes some node accepts; a period or the end node passes
      everything. */
  ghost predicate FastmapExact(nfa: Nfa, nodes: seq<nat>, fastmap: seq<bool>) {
    |fastmap| == SBC_MAX && forall ch: byte :: fastmap[ch] <==> SetsByte(nfa, nodes, ch)
  }

  /** re_compile_fastmap and re_compile_fastmap_iter. */
  method CompileFastmap(dfa: Dfa, init: DfaState, fastmap: array<bool>, wasNull: bool) returns (canBeNull: bool)
    requires fastmap.Length == SBC_MAX && forall p :: p in init.nodes ==> p < |dfa.nfa.nodes|
    modifies fastmap
    ensures FastmapExact(dfa.nfa, init.nodes, fastmap[..])
    ensures canBeNull ==> wasNull || exists p :: p in init.nodes && IsEnd(dfa.nfa, p)
    ensures wasNull ==> canBeNull
    ensures (exists p :: p in init.nodes && IsEnd(dfa.nfa, p))
            ==> canBeNull || exists p :: p in init.nodes && p < |dfa.nfa.nodes| && dfa.nfa.nodes[p].OP_PERIOD?
  {
    var nfa, nodes := dfa.nfa, init.nodes;
    canBeNull := wasNull;
    forall ch: nat | ch < SBC_MAX { fastmap[ch] := false; }
    for i := 0 to |nodes|
      invariant canBeNull == wasNull
      invariant forall ch: byte :: fastmap[ch] <==> SetsByte(nfa, nodes[..i], ch)
      invariant forall p :: p in nodes[..i] ==> !Wild(nfa, p)
    {
      var p := nodes[i];
      assert p in nodes;
      SetsByteMore(nfa, nodes, i);
      assert nodes[..i + 1] == nodes[..i] + [p];
      var node := nfa.nodes[p];
      if node.CHARACTER? {
        fastmap[node.c] := true;
        forall c: byte ensures fastmap[c] <==> SetsByte(nfa, nodes[..i + 1], c) {
          assert nfa.AcceptsAt(p, c) <==> c == node.c;
        }
      } else if node.SIMPLE_BRACKET? {
        for ch := 0 to SBC_MAX
          invariant forall c: byte :: fastmap[c] <==> SetsByte(nfa, nodes[..i], c) || (c < ch && c in node.sbcset)
        {
          if ch in node.sbcset {
            fastmap[ch] := true;
          }
        }
        forall c: byte ensures fastmap[c] <==> SetsByte(nfa, nodes[..i + 1], c) {
          assert nfa.AcceptsAt(p, c) <==> c in node.sbcset;
        }
      } else if node.OP_PERIOD? || node.END_OF_RE? {
        forall ch: nat | ch < SBC_MAX { fastmap[ch] := true; }
        if node.END_OF_RE? {
          canBeNull := true;
          assert IsEnd(nfa, p);
        }
        assert Wild(nfa, p);
        return;
      }
    }
    assert nodes[..|nodes|] == nodes;
  }

  lemma SetsByteMore(nfa: Nfa, nodes: seq<nat>, i: nat)
    requires i < |nodes|
    ensures forall ch :: SetsByte(nfa, nodes[..i + 1], ch)
              <==> SetsByte(nfa, nodes[..i], ch) || Wild(nfa, nodes[i]) || nfa.AcceptsAt(nodes[i], ch)
  {
    assert nodes[..i + 1] == nodes[..i] + [nodes[i]];
    forall ch ensures SetsByte(nfa, nodes[..i + 1], ch)
                <==> SetsByte(nfa, nodes[..i], ch) || Wild(nfa, nodes[i]) || nfa.AcceptsAt(nodes[i], ch) {
      if p :| p in nodes[..i] && (Wild(nfa, p) || nfa.AcceptsAt(p, ch)) {
        assert p in nodes[..i + 1];
      }
      if Wild(nfa, nodes[i]) || nfa.AcceptsAt(nodes[i], ch) {
        assert nodes[i] in nodes[..i + 1];
      }
    }
  }

  // ----- Searching -----

  /** The text between m and e matches, and the search may have read it. */
  ghost predicate MatchAt(syntax: Syntax, re: Tree, text: seq<byte>, stop: int, m: int, e: int) {
    0 <= m <= e <= |text| && (e <= stop || e == m) && Lang(syntax, re, text[m..e])
  }

  ghost predicate NoMatchAt(syntax: Syntax, re: Tree, text: seq<byte>, stop: int, m: int) {
    forall e :: !MatchAt(syntax, re, text, stop, m, e)
  }

  lemma FailedMeansNone(longest: bool, syntax: Syntax, re: Tree, text: seq<byte>, stop: int, m: nat)
    requires m <= |text| && stop <= |text| && Best(longest, syntax, re, text[m..], Limit(stop - m), REG_MISSING)
    ensures NoMatchAt(syntax, re, text, stop, m)
  {
    forall e ensures !MatchAt(syntax, re, text, stop, m, e) {
      if MatchAt(syntax, re, text, stop, m, e) {
        assert text[m..][..e - m] == text[m..e];
        assert Matches(syntax, re, text[m..], e - m);
      }
    }
  }

  lemma LaterMatchAt(dfa: Dfa, init: DfaState, entry: nat, end: nat, re: Tree, text: seq<byte>, stop: int, m: nat,
                     k: nat, e: int)
    requires Compiled(dfa, init, entry, end, re) && m <= |text|
    requires k <= Limit(stop - m) && BackAtEntry(dfa.nfa, entry, text[m..], k)
    requires MatchAt(dfa.nfa.syntax, re, text, stop, m + k, e)
    ensures MatchAt(dfa.nfa.syntax, re, text, stop, m, e)
  {
    assert text[m..][k..e - m] == text[m + k..e];
    LaterMatchExtends(dfa, init, entry, end, re, text[m..], k, e - m);
    assert text[m..][..e - m] == text[m..e];
  }

  /** The starting points that a failed run passes over have no match either. */
  lemma SkippedHaveNone(dfa: Dfa, init: DfaState, entry: nat, end: nat, re: Tree, text: seq<byte>, stop: int, m: nat,
                        j: nat)
    requires Compiled(dfa, init, entry, end, re) && m <= |text|
    requires NoMatchAt(dfa.nfa.syntax, re, text, stop, m)
    requires m <= j <= m + Limit(stop - m) && BackAtEntry(dfa.nfa, entry, text[m..], j - m)
    ensures NoMatchAt(dfa.nfa.syntax, re, text, stop, j)
  {
    forall e | MatchAt(dfa.nfa.syntax, re, text, stop, j, e) ensures MatchAt(dfa.nfa.syntax, re, text, stop, m, e) {
      LaterMatchAt(dfa, init, entry, end, re, text, stop, m, j - m, e);
    }
  }

  /** The byte the filter looks at; the text is followed by a zero. */
  function ByteAt(text: seq<byte>, m: nat): byte {
    if m >= |text| then 0 else text[m]
  }

  lemma MatchPassesFilter(dfa: Dfa, init: DfaState, entry: nat, end: nat, re: Tree, text: seq<byte>, stop: int,
                          m: nat, e: int)
    requires Compiled(dfa, init, entry, end, re) && MatchAt(dfa.nfa.syntax, re, text, stop, m, e)
    ensures SetsByte(dfa.nfa, init.nodes, ByteAt(text, m))
  {
    assert dfa.nfa.Reach(entry, text[m..e], end);
    if e == m {
      assert text[m..e] == [];
      assert end in init.nodes && Wild(dfa.nfa, end);
    } else {
      FirstByteAccepted(dfa.nfa, init, entry, text[m..e], end);
    }
  }

  /** A byte that the filter rejects starts no match. */
  lemma FilterIsSafe(dfa: Dfa, init: DfaState, entry: nat, end: nat, re: Tree, fastmap: seq<bool>, text: seq<byte>,
                     stop: int, m: nat)
    requires Compiled(dfa, init, entry, end, re) && FastmapExact(dfa.nfa, init.nodes, fastmap)
    requires !fastmap[ByteAt(text, m)]
    ensures NoMatchAt(dfa.nfa.syntax, re, text, stop, m)
  {
    if e :| MatchAt(dfa.nfa.syntax, re, text, stop, m, e) {
      MatchPassesFilter(dfa, init, entry, end, re, text, stop, m, e);
    }
  }

  /** The byte is the node's character, or in its bracket; a period passes every byte. */
  ghost predicate Passes(node: Token, ch: byte) {
    node.OP_PERIOD? || node == CHARACTER(ch) || (node.SIMPLE_BRACKET? && ch in node.sbcset)
  }

  /** What the filter passes: everything, if the empty word matches or an initial node is a period,
      and otherwise the bytes that an initial node names. */
  lemma FilterPasses(dfa: Dfa, init: DfaState, entry: nat, end: nat, re: Tree, fastmap: seq<bool>, ch: byte)
    requires Compiled(dfa, init, entry, end, re) && FastmapExact(dfa.nfa, init.nodes, fastmap)
    ensures fastmap[ch] <==> Lang(dfa.nfa.syntax, re, [])
                             || exists p :: p in init.nodes && p < |dfa.nfa.nodes| && Passes(dfa.nfa.nodes[p], ch)
  {
    var nfa := dfa.nfa;
    forall p | p in init.nodes && IsEnd(nfa, p) ensures Lang(nfa.syntax, re, []) {
      assert nfa.Reach(entry, [], p) && p == end;
    }
    if Lang(nfa.syntax, re, []) {
      assert nfa.Reach(entry, [], end);
      assert end in init.nodes && Wild(nfa, end);
    }
    forall p | p in init.nodes && p < |nfa.nodes|
      ensures Wild(nfa, p) || nfa.AcceptsAt(p, ch) <==> IsEnd(nfa, p) || Passes(nfa.nodes[p], ch)
    {
    }
  }

  lemma FirstByteAccepted(a: Nfa, init: DfaState, entry: nat, w: seq<byte>, q: nat)
    requires a.Valid() && StateAfter(a, entry, [], init) && w != [] && a.Reach(entry, w, q)
    ensures SetsByte(a, init.nodes, w[0])
  {
    assert w == [w[0]] + w[1..];
    ReachSplit(a, entry, [w[0]], w[1..], q);
    var k: nat :| a.Reach(entry, [w[0]], k);
    var n: nat :| a.Path(n, entry, [w[0]], k);
    ByteMove(a, n, entry, w[0], k);
    var p: nat :| a.Reach(entry, [], p) && Moves(a, p, w[0], k);
    assert p in init.nodes;
  }

  /** The starting points of a range in the order in which the search tries them. */
  predicate InSearchRange(start: nat, lastStart: nat, m: int) {
    if start <= lastStart then start <= m <= lastStart else lastStart <= m <= start
  }

  predicate Before(start: nat, lastStart: nat, m: int, k: int) {
    if start <= lastStart then start <= m < k else k < m <= start
  }

  ghost predicate NoneBefore(syntax: Syntax, re: Tree, text: seq<byte>, stop: int, start: nat, lastStart: nat, k: int) {
    forall m :: Before(start, lastStart, m, k) ==> NoMatchAt(syntax, re, text, stop, m)
  }

  /** What trying every starting point in order gives: the first one with a match, and its
      longest (or shortest) match; or no match at all. */
  ghost predicate IsFirstMatch(longest: bool, syntax: Syntax, re: Tree, text: seq<byte>, stop: int, start: nat,
                               lastStart: nat,
                               found: bool, first: int, last: int)
  {
    if found then
      && InSearchRange(start, lastStart, first) && 0 <= first <= |text| && 0 <= last
      && NoneBefore(syntax, re, text, stop, start, lastStart, first)
      && Best(longest, syntax, re, text[first..], Limit(stop - first), last)
    else
      forall m :: InSearchRange(start, lastStart, m) ==> NoMatchAt(syntax, re, text, stop, m)
  }

  /** There is only one such result, so the search agrees with trying every start in order. */
  lemma FirstMatchIsUnique(syntax: Syntax, re: Tree, text: seq<byte>, stop: int, start: nat, lastStart: nat,
                           found: bool, first: int, last: int, found': bool, first': int, last': int)
    requires IsFirstMatch(true, syntax, re, text, stop, start, lastStart, found, first, last)
    requires IsFirstMatch(true, syntax, re, text, stop, start, lastStart, found', first', last')
    requires stop <= |text|
    ensures found == found' && (found ==> first == first' && last == last')
  {
    if found {
      FoundMatches(syntax, re, text, stop, start, lastStart, first, last);
    }
    if found' {
      FoundMatches(syntax, re, text, stop, start, lastStart, first', last');
    }
    if found && found' {
      assert first == first';
      assert Matches(syntax, re, text[first..], last) && Matches(syntax, re, text[first..], last');
    }
  }

  lemma FoundMatches(syntax: Syntax, re: Tree, text: seq<byte>, stop: int, start: nat, lastStart: nat, first: int,
                     last: int)
    requires IsFirstMatch(true, syntax, re, text, stop, start, lastStart, true, first, last)
    ensures MatchAt(syntax, re, text, stop, first, first + last) && !NoMatchAt(syntax, re, text, stop, first)
  {
    assert text[first..][..last] == text[first..first + last];
    assert MatchAt(syntax, re, text, stop, first, first + last);
  }

  /** re_search_internal, up to the filling of the match registers.  With `prune`, the state log of
      a match is sifted, which never makes the search go on. */
  method Search(dfa: Dfa, init: DfaState, fastmap: array?<bool>, accurate: bool, canBeNull: bool,
                text: seq<byte>, start: nat, lastStart: nat, stop: int, longest: bool, prune: bool,
                ghost entry: nat, ghost end: nat, ghost re: Tree)
      returns (found: bool, matchFirst: int, matchLast: int, stateLog: seq<DfaState?>, sifted: seq<DfaState?>)
    requires Compiled(dfa, init, entry, end, re) && RoomFor(dfa.nfa, entry)
    requires start <= |text| && lastStart <= |text| && stop <= |text|
    requires fastmap != null && accurate ==> FastmapExact(dfa.nfa, init.nodes, fastmap[..])
    modifies dfa, dfa.states
    ensures Compiled(dfa, init, entry, end, re) && dfa.Extended()
    ensures IsFirstMatch(longest, dfa.nfa.syntax, re, text, stop, start, lastStart, found, matchFirst, matchLast)
    ensures found ==> LogValid(dfa, entry, text[matchFirst..], stateLog) && matchLast < |stateLog|
    ensures found && prune ==> Pruned(dfa, text[matchFirst..], matchLast, end, stateLog, sifted)
  {
    hide Best, NoMatchAt, Dfa.Valid, Spells, StateAfter, FastmapExact, LogValid, Pruned, RoomFor;
    ghost var syntax := dfa.nfa.syntax;
    var forward := start <= lastStart;
    var leftLim, rightLim := if forward then start else lastStart, if forward then lastStart else start;
    var filtered := fastmap != null && accurate && start != lastStart && !canBeNull;
    matchFirst, matchLast, found, stateLog, sifted := start, REG_MISSING, false, [], [];
    while true
      invariant leftLim - 1 <= matchFirst <= |text| + 1
      invariant Compiled(dfa, init, entry, end, re) && dfa.Extended()
      invariant NoneBefore(syntax, re, text, stop, start, lastStart, matchFirst)
      decreases if forward then |text| - matchFirst else matchFirst
    {
      if matchFirst < leftLim || rightLim < matchFirst {
        return;
      }
      if filtered {
        var candidate;
        matchFirst, candidate :=
          SkipByFilter(dfa, init, fastmap, text, matchFirst, start, lastStart, stop, entry, end, re);
        if !candidate {
          return;
        }
      }
      var advance;
      matchLast, advance, stateLog :=
        CheckMatching(dfa, init, text[matchFirst..], stop - matchFirst, longest, forward, entry, end, re);
      if matchLast != REG_MISSING {
        if prune {
          BestMatches(longest, syntax, re, text[matchFirst..], Limit(stop - matchFirst), matchLast);
          var ok, states := PruneImpossibleNodes(dfa, init, text[matchFirst..], stateLog, matchLast, entry, end, re);
          if !ok {
            assert false;
          }
          sifted := states[..];
        }
        found := true;
        return;
      }
      FailedMeansNone(longest, syntax, re, text, stop, matchFirst);
      forall m | matchFirst <= m <= matchFirst + advance ensures NoMatchAt(syntax, re, text, stop, m) {
        SkippedHaveNone(dfa, init, entry, end, re, text, stop, matchFirst, m);
      }
      matchFirst := matchFirst + advance + if forward then 1 else -1;
    }
  }

  lemma BestMatches(longest: bool, syntax: Syntax, re: Tree, text: seq<byte>, n: int, r: int)
    requires Best(longest, syntax, re, text, n, r) && r != REG_MISSING
    ensures Matches(syntax, re, text, r)
  {
  }

  /** The switch over match_kind: move on to a starting point whose first byte passes. */
  method SkipByFilter(dfa: Dfa, init: DfaState, fastmap: array<bool>, text: seq<byte>, from: nat, start: nat,
                      lastStart: nat, stop: int,
                      ghost entry: nat, ghost end: nat, ghost re: Tree)
      returns (matchFirst: int, candidate: bool)
    requires Compiled(dfa, init, entry, end, re) && FastmapExact(dfa.nfa, init.nodes, fastmap[..])
    requires start <= |text| && lastStart <= |text| && InSearchRange(start, lastStart, from)
    requires NoneBefore(dfa.nfa.syntax, re, text, stop, start, lastStart, from)
    ensures NoneBefore(dfa.nfa.syntax, re, text, stop, start, lastStart, matchFirst)
    ensures candidate ==> InSearchRange(start, lastStart, matchFirst) && fastmap[ByteAt(text, matchFirst)]
    ensures candidate ==> if start <= lastStart then from <= matchFirst else matchFirst <= from
    ensures !candidate ==>
              forall m :: InSearchRange(start, lastStart, m) ==> NoMatchAt(dfa.nfa.syntax, re, text, stop, m)
  {
    hide NoMatchAt, Dfa.Valid, Spells, StateAfter;
    ghost var syntax := dfa.nfa.syntax;
    matchFirst, candidate := from, true;
    if start <= lastStart {
      while matchFirst < lastStart && !fastmap[text[matchFirst]]
        invariant from <= matchFirst <= lastStart
        invariant NoneBefore(syntax, re, text, stop, start, lastStart, matchFirst)
      {
        FilterIsSafe(dfa, init, entry, end, re, fastmap[..], text, stop, matchFirst);
        matchFirst := matchFirst + 1;
      }
      if matchFirst == lastStart {
        var ch := if matchFirst >= |text| then 0 else text[matchFirst];
        if !fastmap[ch] {
          FilterIsSafe(dfa, init, entry, end, re, fastmap[..], text, stop, matchFirst);
          candidate := false;
        }
      }
    } else {
      while matchFirst >= lastStart
        invariant lastStart - 1 <= matchFirst <= from
        invariant NoneBefore(syntax, re, text, stop, start, lastStart, matchFirst)
      {
        var ch := if matchFirst >= |text| then 0 else text[matchFirst];
        if fastmap[ch] {
          break;
        }
        FilterIsSafe(dfa, init, entry, end, re, fastmap[..], text, stop, matchFirst);
        matchFirst := matchFirst - 1;
      }
      if matchFirst < lastStart {
        candidate := false;
      }
    }
  }
}
