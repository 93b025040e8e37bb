/** Sorted sets of node indices (re_node_set): the values its operations compute, and the
    operations themselves, in place on an array with spare room at its top.

    The arrays are sorted weakly.  An epsilon closure that runs through a cycle can hold its own
    node twice, so the operations are characterised by the multiplicity of each element. */
module NodeSets {

  ghost predicate Sorted(s: seq<nat>) {
    forall i, j :: 0 <= i < j < |s| ==> s[i] <= s[j]
  }

  ghost predicate StrictlySorted(s: seq<nat>) {
    forall i, j :: 0 <= i < j < |s| ==> s[i] < s[j]
  }

  function Init(s: seq<nat>): seq<nat>
    requires s != []
  {
    s[..|s| - 1]
  }

  function Last(s: seq<nat>): nat
    requires s != []
  {
    s[|s| - 1]
  }

  /** The items of s that are not in d, both sorted, each occurrence cancelling one. */
  function Extra(d: seq<nat>, s: seq<nat>): seq<nat>
    decreases |d| + |s|
  {
    if s == [] then []
    else if d == [] then s
    else if Last(d) == Last(s) then Extra(Init(d), Init(s))
    else if Last(d) < Last(s) then Extra(d, Init(s)) + [Last(s)]
    else Extra(Init(d), s)
  }

  /** The items common to s1 and s2 that are not in d. */
  function Common(d: seq<nat>, s1: seq<nat>, s2: seq<nat>): seq<nat>
    decreases |s1| + |s2|
  {
    if s1 == [] || s2 == [] then []
    else if Last(s1) < Last(s2) then Common(d, s1, Init(s2))
    else if Last(s1) > Last(s2) then Common(d, Init(s1), s2)
    else if Last(s1) in d then Common(d, Init(s1), Init(s2))
    else Common(d, Init(s1), Init(s2)) + [Last(s1)]
  }

  /** Two sorted sequences interleaved into one. */
  function Blend(d: seq<nat>, x: seq<nat>): seq<nat>
    decreases |d| + |x|
  {
    if x == [] then d
    else if d == [] then x
    else if Last(x) > Last(d) then Blend(d, Init(x)) + [Last(x)]
    else Blend(Init(d), x) + [Last(d)]
  }

  function Merged(d: seq<nat>, s: seq<nat>): seq<nat> {
    Blend(d, Extra(d, s))
  }

  function AddedCommon(d: seq<nat>, s1: seq<nat>, s2: seq<nat>): seq<nat> {
    Blend(d, Common(d, s1, s2))
  }

  function Inserted(s: seq<nat>, e: nat): seq<nat> {
    if s == [] || Last(s) <= e then s + [e] else Inserted(Init(s), e) + [Last(s)]
  }

  /** The set that re_node_set_init_2 makes of two elements. */
  function Pair(x: nat, y: nat): seq<nat> {
    if x == y then [x] else if x < y then [x, y] else [y, x]
  }

  // ----- What the values mean -----

  /** How often x occurs in s. */
  ghost function Count(s: seq<nat>, x: nat): nat {
    if s == [] then 0 else Count(Init(s), x) + if Last(s) == x then 1 else 0
  }

  function Min(a: nat, b: nat): nat {
    if a < b then a else b
  }

  lemma {:induction false} CountMeansIn(s: seq<nat>, x: nat)
    ensures Count(s, x) > 0 <==> x in s
  {
    if s != [] {
      CountMeansIn(Init(s), x);
      assert s == Init(s) + [Last(s)];
    }
  }

  lemma CountAbove(s: seq<nat>, x: nat)
    requires Sorted(s) && (s != [] ==> Last(s) < x)
    ensures Count(s, x) == 0
  {
    CountMeansIn(s, x);
  }

  /** Appending a largest element. */
  lemma Snoc(s: seq<nat>, top: nat)
    requires Sorted(s) && (s != [] ==> Last(s) <= top)
    ensures Sorted(s + [top]) && Last(s + [top]) == top
    ensures forall x :: Count(s + [top], x) == Count(s, x) + if top == x then 1 else 0
  {
    assert Init(s + [top]) == s;
  }

  lemma {:induction false} ExtraSorted(d: seq<nat>, s: seq<nat>)
    requires Sorted(d) && Sorted(s)
    ensures var e := Extra(d, s); Sorted(e) && |e| <= |s| && (e != [] ==> Last(e) <= Last(s))
    decreases |d| + |s|
  {
    if s != [] && d != [] {
      if Last(d) == Last(s) {
        ExtraSorted(Init(d), Init(s));
      } else if Last(d) < Last(s) {
        ExtraSorted(d, Init(s));
        Snoc(Extra(d, Init(s)), Last(s));
      } else {
        ExtraSorted(Init(d), s);
      }
    }
  }

  lemma {:induction false} ExtraCount(d: seq<nat>, s: seq<nat>, x: nat)
    requires Sorted(d) && Sorted(s)
    ensures Count(Extra(d, s), x) == Count(s, x) - Min(Count(d, x), Count(s, x))
    decreases |d| + |s|
  {
    if s != [] && d != [] {
      if Last(d) == Last(s) {
        ExtraCount(Init(d), Init(s), x);
      } else if Last(d) < Last(s) {
        ExtraCount(d, Init(s), x);
        assert Init(Extra(d, s)) == Extra(d, Init(s));
        CountAbove(d, Last(s));
      } else {
        ExtraCount(Init(d), s, x);
        CountAbove(s, Last(d));
      }
    }
  }

  lemma {:induction false} CommonSorted(d: seq<nat>, s1: seq<nat>, s2: seq<nat>)
    requires Sorted(s1) && Sorted(s2)
    ensures var c := Common(d, s1, s2); Sorted(c) && (c != [] ==> Last(c) <= Last(s1))
    decreases |s1| + |s2|
  {
    if s1 != [] && s2 != [] {
      if Last(s1) < Last(s2) {
        CommonSorted(d, s1, Init(s2));
      } else if Last(s1) > Last(s2) {
        CommonSorted(d, Init(s1), s2);
      } else {
        CommonSorted(d, Init(s1), Init(s2));
        Snoc(Common(d, Init(s1), Init(s2)), Last(s1));
      }
    }
  }

  lemma {:induction false} CommonCount(d: seq<nat>, s1: seq<nat>, s2: seq<nat>, x: nat)
    requires Sorted(s1) && Sorted(s2)
    ensures Count(Common(d, s1, s2), x) == if x in d then 0 else Min(Count(s1, x), Count(s2, x))
    decreases |s1| + |s2|
  {
    if s1 != [] && s2 != [] {
      if Last(s1) < Last(s2) {
        CommonCount(d, s1, Init(s2), x);
        CountAbove(s1, Last(s2));
      } else if Last(s1) > Last(s2) {
        CommonCount(d, Init(s1), s2, x);
        CountAbove(s2, Last(s1));
      } else {
        CommonCount(d, Init(s1), Init(s2), x);
        assert Last(s1) !in d ==> Init(Common(d, s1, s2)) == Common(d, Init(s1), Init(s2));
      }
    }
  }

  lemma {:induction false} BlendSorted(d: seq<nat>, x: seq<nat>)
    requires Sorted(d) && Sorted(x)
    ensures Sorted(Blend(d, x))
    decreases |d| + |x|
  {
    if x != [] && d != [] {
      if Last(x) > Last(d) {
        BlendSorted(d, Init(x));
        Snoc(Blend(d, Init(x)), Last(x));
      } else {
        BlendSorted(Init(d), x);
        Snoc(Blend(Init(d), x), Last(d));
      }
    }
  }

  lemma {:induction false} BlendCount(d: seq<nat>, x: seq<nat>, y: nat)
    ensures Count(Blend(d, x), y) == Count(d, y) + Count(x, y)
    decreases |d| + |x|
  {
    if x != [] && d != [] {
      if Last(x) > Last(d) {
        BlendCount(d, Init(x), y);
        assert Init(Blend(d, x)) == Blend(d, Init(x));
      } else {
        BlendCount(Init(d), x, y);
        assert Init(Blend(d, x)) == Blend(Init(d), x);
      }
    }
  }

  lemma MergedSorted(d: seq<nat>, s: seq<nat>)
    requires Sorted(d) && Sorted(s)
    ensures Sorted(Merged(d, s))
  {
    ExtraSorted(d, s);
    BlendSorted(d, Extra(d, s));
  }

  /** The merge holds every element as often as the argument that holds it more often. */
  lemma MergedCount(d: seq<nat>, s: seq<nat>, x: nat)
    requires Sorted(d) && Sorted(s)
    ensures Count(Merged(d, s), x) == Count(d, x) + Count(s, x) - Min(Count(d, x), Count(s, x))
  {
    ExtraCount(d, s, x);
    BlendCount(d, Extra(d, s), x);
  }

  /** As a set, the merge is the union; strict arguments give a strict result. */
  lemma MergedItems(d: seq<nat>, s: seq<nat>)
    requires Sorted(d) && Sorted(s)
    ensures Sorted(Merged(d, s))
    ensures forall x :: x in Merged(d, s) <==> x in d || x in s
    ensures StrictlySorted(d) && StrictlySorted(s) ==> StrictlySorted(Merged(d, s))
  {
    MergedSorted(d, s);
    forall x: nat ensures x in Merged(d, s) <==> x in d || x in s {
      MergedCount(d, s, x);
      CountMeansIn(d, x);
      CountMeansIn(s, x);
      CountMeansIn(Merged(d, s), x);
    }
    if StrictlySorted(d) && StrictlySorted(s) {
      forall x: nat ensures Count(Merged(d, s), x) <= 1 {
        MergedCount(d, s, x);
        StrictMeansSingle(d, x);
        StrictMeansSingle(s, x);
      }
      SingleMeansStrict(Merged(d, s));
    }
  }

  lemma AddedCommonSorted(d: seq<nat>, s1: seq<nat>, s2: seq<nat>)
    requires Sorted(d) && Sorted(s1) && Sorted(s2)
    ensures Sorted(AddedCommon(d, s1, s2))
  {
    CommonSorted(d, s1, s2);
    BlendSorted(d, Common(d, s1, s2));
  }

  /** As a set, the result adds to d exactly the elements of both s1 and s2. */
  lemma AddedCommonItems(d: seq<nat>, s1: seq<nat>, s2: seq<nat>)
    requires Sorted(d) && Sorted(s1) && Sorted(s2)
    ensures Sorted(AddedCommon(d, s1, s2))
    ensures forall x :: x in AddedCommon(d, s1, s2) <==> x in d || (x in s1 && x in s2)
  {
    AddedCommonSorted(d, s1, s2);
    forall x: nat ensures x in AddedCommon(d, s1, s2) <==> x in d || (x in s1 && x in s2) {
      CommonCount(d, s1, s2, x);
      BlendCount(d, Common(d, s1, s2), x);
      CountMeansIn(d, x);
      CountMeansIn(s1, x);
      CountMeansIn(s2, x);
      CountMeansIn(AddedCommon(d, s1, s2), x);
    }
  }

  lemma {:induction false} InsertedSorted(s: seq<nat>, e: nat)
    requires Sorted(s)
    ensures Sorted(Inserted(s, e))
  {
    if s == [] || Last(s) <= e {
      Snoc(s, e);
    } else {
      InsertedSorted(Init(s), e);
      Snoc(Inserted(Init(s), e), Last(s));
    }
  }

  lemma {:induction false} InsertedItems(s: seq<nat>, e: nat)
    ensures forall x :: x in Inserted(s, e) <==> x in s || x == e
  {
    if s != [] && Last(s) > e {
      InsertedItems(Init(s), e);
      assert s == Init(s) + [Last(s)];
    }
  }

  lemma {:induction false} StrictMeansSingle(s: seq<nat>, x: nat)
    requires StrictlySorted(s)
    ensures Count(s, x) <= 1
  {
    if s != [] {
      StrictMeansSingle(Init(s), x);
      CountMeansIn(Init(s), Last(s));
    }
  }

  lemma {:induction false} SingleMeansStrict(s: seq<nat>)
    requires Sorted(s) && forall x: nat :: Count(s, x) <= 1
    ensures StrictlySorted(s)
  {
    if s != [] {
      forall x: nat ensures Count(Init(s), x) <= 1 {
        assert Count(s, x) <= 1;
      }
      SingleMeansStrict(Init(s));
      assert Count(s, Last(s)) <= 1;
      CountMeansIn(Init(s), Last(s));
    }
  }

  lemma {:induction false} InsertedCount(s: seq<nat>, e: nat, x: nat)
    requires Sorted(s)
    ensures Count(Inserted(s, e), x) == Count(s, x) + if x == e then 1 else 0
  {
    if s == [] || Last(s) <= e {
      Snoc(s, e);
    } else {
      InsertedCount(Init(s), e, x);
      InsertedSorted(Init(s), e);
      Snoc(Inserted(Init(s), e), Last(s));
      assert Init(Inserted(s, e)) == Inserted(Init(s), e);
    }
  }

  /** Inserting keeps strictness exactly when the element was absent. */
  lemma InsertedStrict(s: seq<nat>, e: nat)
    requires StrictlySorted(s)
    ensures StrictlySorted(Inserted(s, e)) <==> e !in s
  {
    InsertedSorted(s, e);
    InsertedCount(s, e, e);
    CountMeansIn(s, e);
    if e in s {
      assert Count(Inserted(s, e), e) == 2 by { StrictMeansSingle(s, e); }
      if StrictlySorted(Inserted(s, e)) {
        StrictMeansSingle(Inserted(s, e), e);
      }
    } else {
      forall x: nat ensures Count(Inserted(s, e), x) <= 1 {
        InsertedCount(s, e, x);
        StrictMeansSingle(s, x);
      }
      SingleMeansStrict(Inserted(s, e));
    }
  }

  /** The forward interleaving of init_union. */
  function Union(a: seq<nat>, b: seq<nat>): seq<nat>
    decreases |a| + |b|
  {
    if a == [] then b
    else if b == [] then a
    else if a[0] > b[0] then [b[0]] + Union(a, b[1..])
    else if a[0] == b[0] then [a[0]] + Union(a[1..], b[1..])
    else [a[0]] + Union(a[1..], b)
  }

  lemma {:induction false} CountCons(first: nat, s: seq<nat>, x: nat)
    ensures Count([first] + s, x) == Count(s, x) + if first == x then 1 else 0
  {
    if s == [] {
      assert Init([first]) == [];
    } else {
      CountCons(first, Init(s), x);
      assert Init([first] + s) == [first] + Init(s);
    }
  }

  lemma CountFirst(s: seq<nat>, x: nat)
    requires s != []
    ensures Count(s, x) == Count(s[1..], x) + if s[0] == x then 1 else 0
    ensures Sorted(s) && x < s[0] ==> Count(s, x) == 0
  {
    CountCons(s[0], s[1..], x);
    assert s == [s[0]] + s[1..];
    CountMeansIn(s, x);
  }

  lemma {:induction false} UnionSorted(a: seq<nat>, b: seq<nat>)
    requires Sorted(a) && Sorted(b)
    ensures Sorted(Union(a, b))
    decreases |a| + |b|
  {
    if a != [] && b != [] {
      var a', b' := if a[0] > b[0] then a else a[1..], if a[0] < b[0] then b else b[1..];
      UnionSorted(a', b');
      var first, rest := if a[0] > b[0] then b[0] else a[0], Union(a', b');
      assert rest != [] ==> first <= rest[0];
      assert Union(a, b) == [first] + rest;
    }
  }

  lemma {:induction false} UnionCount(a: seq<nat>, b: seq<nat>, x: nat)
    requires Sorted(a) && Sorted(b)
    ensures Count(Union(a, b), x) == Count(a, x) + Count(b, x) - Min(Count(a, x), Count(b, x))
    decreases |a| + |b|
  {
    if a != [] && b != [] {
      CountFirst(a, x);
      CountFirst(b, x);
      if a[0] > b[0] {
        UnionCount(a, b[1..], x);
        CountCons(b[0], Union(a, b[1..]), x);
      } else if a[0] == b[0] {
        UnionCount(a[1..], b[1..], x);
        CountCons(a[0], Union(a[1..], b[1..]), x);
      } else {
        UnionCount(a[1..], b, x);
        CountCons(a[0], Union(a[1..], b), x);
      }
    }
  }

  lemma {:induction false} SortedIsUnique(s: seq<nat>, t: seq<nat>)
    requires Sorted(s) && Sorted(t) && forall x: nat :: Count(s, x) == Count(t, x)
    ensures s == t
  {
    if s == [] || t == [] {
      assert s != [] ==> Count(s, Last(s)) == Count(t, Last(s));
      assert t != [] ==> Count(t, Last(t)) == Count(s, Last(t));
    } else {
      assert Count(s, Last(s)) == Count(t, Last(s)) && Count(s, Last(t)) == Count(t, Last(t));
      CountMeansIn(t, Last(s));
      CountMeansIn(s, Last(t));
      forall x: nat ensures Count(Init(s), x) == Count(Init(t), x) {
        assert Count(s, x) == Count(t, x);
      }
      SortedIsUnique(Init(s), Init(t));
      assert s == Init(s) + [Last(s)] && t == Init(t) + [Last(t)];
    }
  }

  /** The backward in-place merge and the forward union build the same sequence. */
  lemma UnionIsMerge(a: seq<nat>, b: seq<nat>)
    requires Sorted(a) && Sorted(b)
    ensures Union(a, b) == Merged(a, b)
  {
    UnionSorted(a, b);
    MergedSorted(a, b);
    forall x: nat ensures Count(Union(a, b), x) == Count(Merged(a, b), x) {
      UnionCount(a, b, x);
      MergedCount(a, b, x);
    }
    SortedIsUnique(Union(a, b), Merged(a, b));
  }

  lemma {:induction false} ExtraFits(d: seq<nat>, s: seq<nat>)
    ensures |Extra(d, s)| <= |s|
    decreases |d| + |s|
  {
    if s != [] && d != [] {
      ExtraFits(if Last(d) < Last(s) then d else Init(d), if Last(d) > Last(s) then s else Init(s));
    }
  }

  lemma {:induction false} BlendFits(d: seq<nat>, x: seq<nat>)
    ensures |Blend(d, x)| == |d| + |x|
    decreases |d| + |x|
  {
    if x != [] && d != [] {
      BlendFits(if Last(x) > Last(d) then d else Init(d), if Last(x) > Last(d) then Init(x) else x);
    }
  }

  // ----- One step of each loop: the next element of the value under construction -----

  /** The first c elements of the value are what the first i and j items of the sources give. */
  ghost predicate ExtraLeft(e: seq<nat>, c: int, d: seq<nat>, s: seq<nat>, i: int, j: int) {
    0 <= c <= |e| && 0 <= i <= |d| && 0 <= j <= |s| && e[..c] == Extra(d[..i], s[..j])
  }

  ghost predicate CommonLeft(e: seq<nat>, c: int, d: seq<nat>, s1: seq<nat>, s2: seq<nat>, i: int, j: int) {
    0 <= c <= |e| && 0 <= i <= |s1| && 0 <= j <= |s2| && e[..c] == Common(d, s1[..i], s2[..j])
  }

  ghost predicate BlendLeft(r: seq<nat>, c: int, d: seq<nat>, x: seq<nat>, i: int, j: int) {
    0 <= c <= |r| && 0 <= i <= |d| && 0 <= j <= |x| && r[..c] == Blend(d[..i], x[..j])
  }

  lemma ExtraStart(d: seq<nat>, s: seq<nat>)
    ensures ExtraLeft(Extra(d, s), |Extra(d, s)|, d, s, |d|, |s|)
  {
    assert d[..|d|] == d && s[..|s|] == s;
  }

  lemma CommonStart(d: seq<nat>, s1: seq<nat>, s2: seq<nat>)
    ensures CommonLeft(Common(d, s1, s2), |Common(d, s1, s2)|, d, s1, s2, |s1|, |s2|)
  {
    assert s1[..|s1|] == s1 && s2[..|s2|] == s2;
  }

  lemma BlendStart(d: seq<nat>, x: seq<nat>)
    ensures BlendLeft(Blend(d, x), |Blend(d, x)|, d, x, |d|, |x|)
  {
    assert d[..|d|] == d && x[..|x|] == x;
  }

  lemma ExtraStep(e: seq<nat>, c: int, d: seq<nat>, s: seq<nat>, i: int, j: int)
    requires 0 < i && 0 < j && ExtraLeft(e, c, d, s, i, j)
    ensures d[i - 1] == s[j - 1] ==> ExtraLeft(e, c, d, s, i - 1, j - 1)
    ensures d[i - 1] < s[j - 1] ==> 0 < c && e[c - 1] == s[j - 1] && ExtraLeft(e, c - 1, d, s, i, j - 1)
    ensures d[i - 1] > s[j - 1] ==> ExtraLeft(e, c, d, s, i - 1, j)
  {
    assert Init(d[..i]) == d[..i - 1] && Init(s[..j]) == s[..j - 1];
    assert 0 < c ==> e[..c - 1] == Init(e[..c]);
  }

  lemma CommonStep(e: seq<nat>, c: int, d: seq<nat>, s1: seq<nat>, s2: seq<nat>, i: int, j: int)
    requires 0 < i && 0 < j && CommonLeft(e, c, d, s1, s2, i, j)
    ensures s1[i - 1] < s2[j - 1] ==> CommonLeft(e, c, d, s1, s2, i, j - 1)
    ensures s1[i - 1] > s2[j - 1] ==> CommonLeft(e, c, d, s1, s2, i - 1, j)
    ensures s1[i - 1] == s2[j - 1] && s1[i - 1] in d ==> CommonLeft(e, c, d, s1, s2, i - 1, j - 1)
    ensures s1[i - 1] == s2[j - 1] && s1[i - 1] !in d
            ==> 0 < c && e[c - 1] == s1[i - 1] && CommonLeft(e, c - 1, d, s1, s2, i - 1, j - 1)
  {
    assert Init(s1[..i]) == s1[..i - 1] && Init(s2[..j]) == s2[..j - 1];
    assert 0 < c ==> e[..c - 1] == Init(e[..c]);
  }

  lemma BlendStep(r: seq<nat>, c: int, d: seq<nat>, x: seq<nat>, i: int, j: int)
    requires 0 < i && 0 < j && BlendLeft(r, c, d, x, i, j)
    ensures 0 < c
    ensures x[j - 1] > d[i - 1] ==> r[c - 1] == x[j - 1] && BlendLeft(r, c - 1, d, x, i, j - 1)
    ensures x[j - 1] <= d[i - 1] ==> r[c - 1] == d[i - 1] && BlendLeft(r, c - 1, d, x, i - 1, j)
  {
    assert Init(d[..i]) == d[..i - 1] && Init(x[..j]) == x[..j - 1];
    assert 0 < c ==> r[..c - 1] == Init(r[..c]);
  }

  /** What is left when one source of a loop is exhausted. */
  lemma ExtraEnd(e: seq<nat>, c: int, d: seq<nat>, s: seq<nat>, i: int, j: int)
    requires (i == 0 || j == 0) && ExtraLeft(e, c, d, s, i, j)
    ensures c == j && e[..j] == s[..j]
  {
  }

  lemma CommonEnd(e: seq<nat>, c: int, d: seq<nat>, s1: seq<nat>, s2: seq<nat>, i: int, j: int)
    requires (i == 0 || j == 0) && CommonLeft(e, c, d, s1, s2, i, j)
    ensures c == 0
  {
  }

  lemma BlendEnd(r: seq<nat>, c: int, d: seq<nat>, x: seq<nat>, i: int, j: int)
    requires (i == 0 || j == 0) && BlendLeft(r, c, d, x, i, j)
    ensures c == i + j <= |r| && 0 <= i <= |d| && 0 <= j <= |x|
    ensures forall k :: 0 <= k < c ==> r[k] == if j == 0 then d[k] else x[k]
  {
    assert forall k :: 0 <= k < c ==> r[k] == r[..c][k];
  }

  lemma UnionStep(r: seq<nat>, id: nat, a: seq<nat>, b: seq<nat>, i: nat, j: nat)
    requires i < |a| && j < |b| && id <= |r| && r[id..] == Union(a[i..], b[j..])
    ensures id < |r| && r[id] == if a[i] > b[j] then b[j] else a[i]
    ensures r[id + 1..] == Union(a[if a[i] > b[j] then i else i + 1..], b[if a[i] < b[j] then j else j + 1..])
  {
    assert a[i..][1..] == a[i + 1..] && b[j..][1..] == b[j + 1..];
    assert r[id + 1..] == r[id..][1..];
  }

  lemma {:induction false} InsertedAt(s: seq<nat>, e: nat, idx: nat)
    requires Sorted(s) && idx <= |s| && (idx < |s| ==> s[idx] > e) && (0 < idx ==> s[idx - 1] <= e)
    ensures |Inserted(s, e)| == |s| + 1
    ensures forall k :: 0 <= k < idx ==> Inserted(s, e)[k] == s[k]
    ensures Inserted(s, e)[idx] == e
    ensures forall k :: idx < k <= |s| ==> Inserted(s, e)[k] == s[k - 1]
  {
    if idx < |s| {
      InsertedAt(Init(s), e, idx);
      forall k | 0 <= k < idx ensures Inserted(s, e)[k] == s[k] {
        assert Init(s)[k] == s[k];
      }
    }
  }

  /** What is left once one side of each loop is exhausted. */
  lemma Exhausted(s: seq<nat>, t: seq<nat>)
    ensures Extra([], s) == s && Extra(s, []) == [] && Common(t, [], s) == [] && Common(t, s, []) == []
    ensures Blend([], s) == s && Blend(s, []) == s
    ensures Union([], s) == s && Union(s, []) == s
  {
  }

  /** Reading a value through one of its suffixes. */
  lemma SuffixAt(r: seq<nat>, id: nat, t: seq<nat>, i: nat)
    requires id <= |r| && i <= |t| && r[id..] == t[i..]
    ensures |r| - id == |t| - i && forall k :: id <= k < |r| ==> r[k] == t[i + k - id]
  {
    forall k | id <= k < |r| ensures r[k] == t[i + k - id] {
      assert r[k] == r[id..][k - id];
    }
  }

  lemma PrefixAt(r: seq<nat>, n: nat, t: seq<nat>)
    requires n <= |r| && r[..n] == t
    ensures |t| == n && forall k :: 0 <= k < n ==> r[k] == t[k]
  {
  }

  // ----- The operations on arrays -----

  /** `n` elements of src from index i become those of dst from index j; the ranges of one array
      must not overlap. */
  method CopyElems(dst: array<nat>, j: nat, src: array<nat>, i: nat, n: nat)
    requires j + n <= dst.Length && i + n <= src.Length
    requires dst == src ==> j + n <= i || i + n <= j
    modifies dst
    ensures forall k :: 0 <= k < dst.Length ==> dst[k] == if j <= k < j + n then old(src[i + k - j]) else old(dst[k])
  {
    forall k | 0 <= k < n {
      dst[j + k] := src[i + k];
    }
  }

  class NodeSet {
    var alloc: nat
    var nelem: nat
    var elems: array<nat>

    ghost predicate Valid()
      reads this
    {
      nelem <= alloc == elems.Length
    }

    ghost function Contents(): seq<nat>
      requires Valid()
      reads this, elems
    {
      elems[..nelem]
    }

    constructor Alloc(size: nat)
      ensures Valid() && fresh(elems) && Contents() == [] && alloc == size
    {
      alloc := size;
      nelem := 0;
      elems := new nat[size];
    }

    /** realloc: room for `size` elements, keeping the contents. */
    method Grow(size: nat)
      requires Valid() && alloc <= size
      modifies this
      ensures Valid() && fresh(elems) && alloc == size && nelem == old(nelem)
      ensures Contents() == old(Contents())
    {
      var larger := new nat[size];
      CopyElems(larger, 0, elems, 0, nelem);
      elems := larger;
      alloc := size;
    }

    method Init1(elem: nat)
      modifies this
      ensures Valid() && fresh(elems) && Contents() == [elem] && alloc == 1
    {
      alloc := 1;
      nelem := 1;
      elems := new nat[1];
      elems[0] := elem;
    }

    method Init2(elem1: nat, elem2: nat)
      modifies this
      ensures Valid() && fresh(elems) && alloc == 2
      ensures Contents() == Pair(elem1, elem2) && StrictlySorted(Contents())
      ensures forall x :: x in Contents() <==> x == elem1 || x == elem2
    {
      alloc := 2;
      elems := new nat[2];
      if elem1 == elem2 {
        nelem := 1;
        elems[0] := elem1;
        assert Contents() == [elem1];
      } else {
        nelem := 2;
        if elem1 < elem2 {
          elems[0] := elem1;
          elems[1] := elem2;
        } else {
          elems[0] := elem2;
          elems[1] := elem1;
        }
        assert Contents() == [elems[0], elems[1]];
      }
    }

    method InitCopy(src: NodeSet)
      requires src.Valid() && src != this
      modifies this
      ensures Valid() && fresh(elems) && Contents() == src.Contents()
    {
      nelem := src.nelem;
      alloc := nelem;
      elems := new nat[nelem];
      CopyElems(elems, 0, src.elems, 0, nelem);
      assert elems[..] == src.elems[..nelem];
    }

    method InitUnion(src1: NodeSet?, src2: NodeSet?)
      requires src1 != null ==> src1.Valid() && src1 != this && Sorted(src1.Contents())
      requires src2 != null ==> src2.Valid() && src2 != this && Sorted(src2.Contents())
      modifies this
      ensures Valid() && fresh(elems)
      ensures Contents() == Merged(if src1 == null then [] else src1.Contents(),
                                   if src2 == null then [] else src2.Contents())
    {
      if src1 != null && src1.nelem > 0 && src2 != null && src2.nelem > 0 {
        alloc := src1.nelem + src2.nelem;
        elems := new nat[alloc];
        nelem := 0;
        Interleave(src1, src2);
        UnionIsMerge(src1.Contents(), src2.Contents());
      } else if src1 != null && src1.nelem > 0 {
        InitCopy(src1);
      } else if src2 != null && src2.nelem > 0 {
        InitCopy(src2);
      } else {
        alloc, nelem, elems := 0, 0, new nat[0];
      }
    }

    /** Both sets are copied in order, front to back; an element they share is copied once. */
    method Interleave(src1: NodeSet, src2: NodeSet)
      requires Valid() && src1.Valid() && src2.Valid() && this != src1 && this != src2
      requires elems != src1.elems && elems != src2.elems
      requires alloc == src1.nelem + src2.nelem
      modifies this`nelem, elems
      ensures Valid() && Contents() == Union(src1.Contents(), src2.Contents())
    {
      hide Union;
      var i1: nat, i2: nat, id: nat := 0, 0, 0;
      ghost var a, b := src1.Contents(), src2.Contents();
      ghost var r := Union(a, b);
      while i1 < src1.nelem && i2 < src2.nelem
        invariant Valid() && i1 <= |a| && i2 <= |b| && id <= i1 + i2 && id <= |r|
        invariant forall k :: 0 <= k < id ==> elems[k] == r[k]
        invariant r[id..] == Union(a[i1..], b[i2..])
      {
        UnionStep(r, id, a, b, i1, i2);
        if src1.elems[i1] > src2.elems[i2] {
          elems[id] := src2.elems[i2];
          i2 := i2 + 1;
        } else {
          if src1.elems[i1] == src2.elems[i2] {
            i2 := i2 + 1;
          }
          elems[id] := src1.elems[i1];
          i1 := i1 + 1;
        }
        id := id + 1;
      }
      if i1 < src1.nelem {
        assert b[i2..] == [];
        Exhausted(a[i1..], []);
        CopyRest(src1, i1, id, r);
      } else {
        assert a[i1..] == [];
        Exhausted(b[i2..], []);
        CopyRest(src2, i2, id, r);
      }
    }

    /** The array holds the first id elements of r already; the rest of src completes it. */
    method CopyRest(src: NodeSet, i: nat, id: nat, ghost r: seq<nat>)
      requires Valid() && src.Valid() && this != src && elems != src.elems
      requires i <= src.nelem && id <= |r| && id + src.nelem - i <= alloc
      requires r[id..] == src.Contents()[i..]
      requires forall k :: 0 <= k < id ==> elems[k] == r[k]
      modifies this`nelem, elems
      ensures Valid() && Contents() == r
    {
      SuffixAt(r, id, src.Contents(), i);
      CopyElems(elems, id, src.elems, i, src.nelem - i);
      nelem := id + src.nelem - i;
    }

    /** Append to the top of the array, just below index `top`, the items of src that this set
        lacks; returns the index of the lowest one. */
    method CollectExtra(src: NodeSet, top: nat) returns (sbase: nat)
      requires Valid() && src.Valid() && src != this && src.elems != elems
      requires nelem + 2 * src.nelem == top <= alloc
      modifies elems
      ensures nelem + src.nelem <= sbase <= top
      ensures forall k :: 0 <= k < nelem ==> elems[k] == old(elems[k])
      ensures elems[sbase..top] == Extra(old(Contents()), src.Contents())
    {
      hide Extra, ExtraLeft;
      ghost var d, s := Contents(), src.Contents();
      ghost var e := Extra(d, s);
      ghost var base := top - |e|;
      var js, id := src.nelem - 1, nelem - 1;
      sbase := top;
      ExtraFits(d, s);
      ExtraStart(d, s);
      while 0 <= js && 0 <= id
        invariant -1 <= js < |s| && -1 <= id < |d| && base <= sbase
        invariant nelem + src.nelem + js + 1 <= sbase <= top
        invariant forall k :: 0 <= k < nelem ==> elems[k] == d[k]
        invariant ExtraLeft(e, sbase - base, d, s, id + 1, js + 1)
        invariant forall k :: sbase <= k < top ==> elems[k] == e[k - base]
        decreases js + id
      {
        ExtraStep(e, sbase - base, d, s, id + 1, js + 1);
        if elems[id] == src.elems[js] {
          js, id := js - 1, id - 1;
        } else if elems[id] < src.elems[js] {
          sbase := sbase - 1;
          elems[sbase] := src.elems[js];
          js := js - 1;
        } else {
          id := id - 1;
        }
      }
      ExtraEnd(e, sbase - base, d, s, id + 1, js + 1);
      sbase := CopyFront(src, js + 1, sbase, top, e);
    }

    /** Everything above sbase agrees with e already; the first n items of src complete it. */
    method CopyFront(src: NodeSet, n: nat, high: nat, top: nat, ghost e: seq<nat>) returns (sbase: nat)
      requires Valid() && src.Valid() && src != this && src.elems != elems
      requires n <= src.nelem && n <= high <= top <= alloc && top - high == |e| - n
      requires e[..n] == src.Contents()[..n]
      requires forall k :: high <= k < top ==> elems[k] == e[k - (top - |e|)]
      modifies elems
      ensures sbase == high - n
      ensures forall k :: 0 <= k < sbase ==> elems[k] == old(elems[k])
      ensures elems[sbase..top] == e
    {
      sbase := high - n;
      CopyElems(elems, sbase, src.elems, 0, n);
      PrefixAt(e, n, src.Contents()[..n]);
    }

    /** The same for the items common to src1 and src2. */
    method CollectCommon(src1: NodeSet, src2: NodeSet, top: nat) returns (sbase: nat)
      requires Valid() && src1.Valid() && src2.Valid() && this != src1 && this != src2
      requires elems != src1.elems && elems != src2.elems
      requires Sorted(Contents()) && Sorted(src1.Contents())
      requires 0 < src1.nelem && 0 < src2.nelem
      requires nelem + src1.nelem + src2.nelem == top <= alloc
      modifies elems
      ensures nelem <= sbase && top - sbase <= sbase - nelem && sbase <= top
      ensures forall k :: 0 <= k < nelem ==> elems[k] == old(elems[k])
      ensures elems[sbase..top] == Common(old(Contents()), src1.Contents(), src2.Contents())
    {
      hide Common, CommonLeft, Agrees;
      ghost var d, s1, s2 := Contents(), src1.Contents(), src2.Contents();
      ghost var e := Common(d, s1, s2);
      ghost var base := top - |e|;
      var i1, i2, id := src1.nelem - 1, src2.nelem - 1, nelem - 1;
      sbase := top;
      CommonStart(d, s1, s2);
      AgreesNone(top, e);
      while 0 <= i1 && 0 <= i2
        invariant -1 <= i1 < |s1| && -1 <= i2 < |s2| && -1 <= id < nelem && base <= sbase <= top
        invariant 2 * (top - sbase) <= |s1| + |s2| - (i1 + i2 + 2)
        invariant Contents() == d && Agrees(sbase, top, e)
        invariant 0 <= i1 ==> forall k :: id < k < nelem ==> elems[k] > s1[i1]
        invariant CommonLeft(e, sbase - base, d, s1, s2, i1 + 1, i2 + 1)
        decreases i1 + i2
      {
        CommonStep(e, sbase - base, d, s1, s2, i1 + 1, i2 + 1);
        if src1.elems[i1] == src2.elems[i2] {
          id, sbase := NoteCommon(src1.elems[i1], id, sbase, top, e);
          i1, i2 := i1 - 1, i2 - 1;
        } else if src1.elems[i1] < src2.elems[i2] {
          i2 := i2 - 1;
        } else {
          i1 := i1 - 1;
        }
      }
      CommonEnd(e, sbase - base, d, s1, s2, i1 + 1, i2 + 1);
      AgreesAll(sbase, top, e);
      assert forall k :: 0 <= k < nelem ==> elems[k] == d[k];
    }

    /** The array holds the end of e in front of index top. */
    ghost predicate Agrees(sbase: nat, top: nat, e: seq<nat>)
      reads this, elems
    {
      && sbase <= top <= elems.Length && top - sbase <= |e|
      && forall k :: sbase <= k < top ==> elems[k] == e[k - (top - |e|)]
    }

    lemma AgreesNone(top: nat, e: seq<nat>)
      requires top <= elems.Length
      ensures Agrees(top, top, e)
    {
    }

    lemma AgreesAll(sbase: nat, top: nat, e: seq<nat>)
      requires Agrees(sbase, top, e) && top - sbase == |e|
      ensures elems[sbase..top] == e
    {
    }

    /** x is placed just below sbase unless the set holds it; the array above agrees with e. */
    method NoteCommon(x: nat, from: int, sbase: nat, top: nat, ghost e: seq<nat>) returns (id: int, low: nat)
      requires Valid() && Sorted(Contents()) && -1 <= from < nelem < sbase <= top <= alloc
      requires forall k :: from < k < nelem ==> elems[k] > x
      requires Agrees(sbase, top, e)
      requires x !in Contents() ==> top - sbase < |e| && e[|e| - 1 - (top - sbase)] == x
      modifies elems
      ensures -1 <= id <= from && Contents() == old(Contents())
      ensures forall k :: id < k < nelem ==> elems[k] > x
      ensures low == (if x in Contents() then sbase else sbase - 1) && Agrees(low, top, e)
    {
      ghost var d := Contents();
      low := sbase;
      id := SkipLarger(from, x);
      if id < 0 || elems[id] != x {
        assert x !in d;
        low := sbase - 1;
        elems[low] := x;
        assert Contents() == d;
      } else {
        assert d[id] == x;
      }
    }

    /** Step down from index `from` past the elements larger than x. */
    method SkipLarger(from: int, x: nat) returns (id: int)
      requires Valid() && -1 <= from < nelem
      ensures -1 <= id <= from && (0 <= id ==> elems[id] <= x)
      ensures forall k :: id < k <= from ==> elems[k] > x
    {
      id := from;
      while 0 <= id && elems[id] > x
        invariant -1 <= id <= from
        invariant forall k :: id < k <= from ==> elems[k] > x
      {
        id := id - 1;
      }
    }

    /** Interleave the `delta` items waiting at sbase with the contents, filling from the top.
        No item is overwritten before it has been moved. */
    method BlendFromTop(sbase: nat, delta: nat)
      requires Valid() && nelem + delta <= sbase && sbase + delta <= alloc
      modifies this`nelem, elems
      ensures Valid() && nelem == old(nelem) + delta
      ensures Contents() == Blend(old(Contents()), old(elems[sbase..sbase + delta]))
    {
      hide Blend, BlendLeft;
      var a := elems;
      ghost var d, x := Contents(), a[sbase..sbase + delta];
      ghost var r := Blend(d, x);
      var id, rest: nat := nelem - 1, delta;
      BlendFits(d, x);
      BlendStart(d, x);
      nelem := nelem + delta;
      while rest > 0 && 0 <= id
        invariant -1 <= id < |d| && rest <= delta && |d| + delta == nelem
        invariant forall k :: 0 <= k <= id ==> a[k] == d[k]
        invariant forall k :: sbase <= k < sbase + rest ==> a[k] == x[k - sbase]
        invariant BlendLeft(r, id + 1 + rest, d, x, id + 1, rest)
        invariant forall k :: id + rest < k < nelem ==> a[k] == r[k]
        decreases rest + id
      {
        BlendStep(r, id + 1 + rest, d, x, id + 1, rest);
        if a[sbase + rest - 1] > a[id] {
          a[id + rest] := a[sbase + rest - 1];
          rest := rest - 1;
        } else {
          a[id + rest] := a[id];
          id := id - 1;
        }
      }
      FinishBlend(sbase, rest, id, d, x, r);
    }

    method FinishBlend(sbase: nat, rest: nat, id: int, ghost d: seq<nat>, ghost x: seq<nat>, ghost r: seq<nat>)
      requires Valid() && nelem == |r| && nelem <= sbase && sbase + |x| <= alloc
      requires -1 <= id < |d| && rest <= |x| && (rest == 0 || id == -1)
      requires BlendLeft(r, id + 1 + rest, d, x, id + 1, rest)
      requires forall k :: 0 <= k <= id ==> elems[k] == d[k]
      requires forall k :: sbase <= k < sbase + rest ==> elems[k] == x[k - sbase]
      requires forall k :: id + rest < k < nelem ==> elems[k] == r[k]
      modifies elems
      ensures Contents() == r
    {
      hide BlendLeft, Blend;
      BlendEnd(r, id + 1 + rest, d, x, id + 1, rest);
      if rest > 0 {
        CopyElems(elems, 0, elems, sbase, rest);
      }
    }

    method Merge(src: NodeSet?)
      requires Valid() && Sorted(Contents())
      requires src != null ==> src.Valid() && src != this && src.elems != elems && Sorted(src.Contents())
      modifies this, elems
      ensures Valid() && (elems == old(elems) || fresh(elems))
      ensures Contents() == old(Merged(Contents(), if src == null then [] else src.Contents()))
      ensures Sorted(Contents())
    {
      hide Blend;
      hide Extra;
      ghost var d, x := Contents(), if src == null then [] else src.Contents();
      Exhausted(d, []);
      Exhausted(x, []);
      assert Sorted(Merged(d, x)) by { MergedSorted(d, x); }
      if src == null || src.nelem == 0 {
        return;
      }
      if alloc < 2 * src.nelem + nelem {
        Grow(2 * (src.nelem + alloc));
      }
      if nelem == 0 {
        nelem := src.nelem;
        CopyElems(elems, 0, src.elems, 0, src.nelem);
        return;
      }
      var top := nelem + 2 * src.nelem;
      var sbase := CollectExtra(src, top);
      assert Contents() == d;
      var delta := top - sbase;
      if delta == 0 {
        return;
      }
      BlendFromTop(sbase, delta);
    }

    method AddIntersect(src1: NodeSet, src2: NodeSet)
      requires Valid() && src1.Valid() && src2.Valid() && this != src1 && this != src2
      requires elems != src1.elems && elems != src2.elems
      requires Sorted(Contents()) && Sorted(src1.Contents()) && Sorted(src2.Contents())
      modifies this, elems
      ensures Valid() && (elems == old(elems) || fresh(elems))
      ensures Contents() == old(AddedCommon(Contents(), src1.Contents(), src2.Contents()))
      ensures Sorted(Contents())
    {
      hide Blend;
      hide Common;
      ghost var d := Contents();
      Exhausted(src1.Contents(), d);
      Exhausted(src2.Contents(), d);
      Exhausted(d, []);
      assert Sorted(AddedCommon(d, src1.Contents(), src2.Contents())) by {
        AddedCommonSorted(d, src1.Contents(), src2.Contents());
      }
      if src1.nelem == 0 || src2.nelem == 0 {
        return;
      }
      if src1.nelem + src2.nelem + nelem > alloc {
        Grow(src1.nelem + src2.nelem + alloc);
      }
      var top := nelem + src1.nelem + src2.nelem;
      var sbase := CollectCommon(src1, src2, top);
      assert Contents() == d;
      var delta := top - sbase;
      BlendFromTop(sbase, delta);
    }

    /** The C code relies on the caller not to insert an element that is present.  Here any
        element may be inserted: a present one is duplicated. */
    method Insert(elem: nat)
      requires Valid() && Sorted(Contents())
      modifies this, elems
      ensures Valid() && (elems == old(elems) || fresh(elems))
      ensures Contents() == old(Inserted(Contents(), elem))
      ensures Sorted(Contents())
    {
      hide Inserted;
      ghost var s := Contents();
      assert Sorted(Inserted(s, elem)) by { InsertedSorted(s, elem); }
      InsertedAt([], elem, 0);
      if alloc == 0 {
        Init1(elem);
        assert Contents() == Inserted([], elem);
        return;
      }
      if nelem == 0 {
        elems[0] := elem;
        nelem := 1;
        assert Contents() == Inserted([], elem);
        return;
      }
      if alloc == nelem {
        Grow(alloc * 2);
      }
      var idx := ShiftLarger(elem);
      InsertedAt(s, elem, idx);
      ghost var r := Inserted(s, elem);
      elems[idx] := elem;
      nelem := nelem + 1;
      assert forall k :: 0 <= k < nelem ==> elems[k] == r[k];
    }

    /** Move the elements larger than elem up by one slot; returns the slot that becomes free. */
    method ShiftLarger(elem: nat) returns (idx: nat)
      requires Valid() && Sorted(Contents()) && 0 < nelem < alloc
      modifies elems
      ensures idx <= nelem
      ensures var s := old(Contents()); (idx < |s| ==> s[idx] > elem) && (0 < idx ==> s[idx - 1] <= elem)
      ensures forall k :: 0 <= k < idx ==> elems[k] == old(elems[k])
      ensures forall k :: idx < k <= nelem ==> elems[k] == old(elems[k - 1])
    {
      ghost var s := Contents();
      idx := nelem;
      if elem < elems[0] {
        while idx > 0
          invariant idx <= nelem
          invariant forall k :: 0 <= k < idx ==> elems[k] == s[k]
          invariant forall k :: idx < k <= nelem ==> elems[k] == s[k - 1]
        {
          elems[idx] := elems[idx - 1];
          idx := idx - 1;
        }
      } else {
        while elems[idx - 1] > elem
          invariant 1 <= idx <= nelem
          invariant forall k :: 0 <= k < idx ==> elems[k] == s[k]
          invariant forall k :: idx < k <= nelem ==> elems[k] == s[k - 1]
          invariant idx < nelem ==> s[idx] > elem
          decreases idx
        {
          elems[idx] := elems[idx - 1];
          idx := idx - 1;
        }
      }
    }

    /** The new element is the largest so far. */
    method InsertLast(elem: nat)
      requires Valid()
      modifies this, elems
      ensures Valid() && (elems == old(elems) || fresh(elems))
      ensures Contents() == old(Contents()) + [elem]
    {
      if alloc == nelem {
        Grow((alloc + 1) * 2);
      }
      elems[nelem] := elem;
      nelem := nelem + 1;
    }

    method Compare(other: NodeSet?) returns (same: bool)
      requires Valid() && (other != null ==> other.Valid())
      ensures same <==> other != null && Contents() == other.Contents()
    {
      if other == null || nelem != other.nelem {
        return false;
      }
      var i := nelem;
      while i > 0
        invariant 0 <= i <= nelem
        invariant forall k :: i <= k < nelem ==> elems[k] == other.elems[k]
      {
        i := i - 1;
        if elems[i] != other.elems[i] {
          assert Contents()[i] != other.Contents()[i];
          return false;
        }
      }
      return true;
    }

    /** Binary search: one more than an index of elem, or 0 when it is absent. */
    method Contains(elem: nat) returns (r: nat)
      requires Valid() && Sorted(Contents())
      ensures r == 0 <==> elem !in Contents()
      ensures r > 0 ==> r <= nelem && elems[r - 1] == elem
    {
      ghost var s := Contents();
      if nelem == 0 {
        return 0;
      }
      var idx, right := 0, nelem - 1;
      while idx < right
        invariant 0 <= idx <= right < nelem
        invariant forall k :: 0 <= k < idx ==> s[k] < elem
        invariant right < nelem - 1 ==> elem <= s[right]
      {
        var mid := (idx + right) / 2;
        if elems[mid] < elem {
          idx := mid + 1;
        } else {
          right := mid;
        }
      }
      return if elems[idx] == elem then idx + 1 else 0;
    }
  }
}
