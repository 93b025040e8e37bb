/** getopt_long: options are found one call at a time while argv is permuted in place. */
module GetOpt {
  import opened Options

  // ----- exchange -----

  /** a with two disjoint blocks of len elements swapped. */
  function Swapped(a: seq<string>, i: nat, j: nat, len: nat): (r: seq<string>)
    requires i + len <= j && j + len <= |a|
    ensures |r| == |a|
  {
    a[..i] + a[j..j + len] + a[i + len..j] + a[i..i + len] + a[j + len..]
  }

  method SwapBlocks(argv: array<string>, i: nat, j: nat, len: nat)
    requires i + len <= j && j + len <= argv.Length
    modifies argv
    ensures argv[..] == Swapped(old(argv[..]), i, j, len)
  {
    ghost var d, before := j - i, argv[..];
    for n := 0 to len
      invariant forall k :: i <= k < i + n ==> argv[k] == old(argv[k + d])
      invariant forall k :: j <= k < j + n ==> argv[k] == old(argv[k - d])
      invariant forall k :: 0 <= k < argv.Length && !(i <= k < i + n) && !(j <= k < j + n) ==> argv[k] == old(argv[k])
    {
      argv[i + n], argv[j + n] := argv[j + n], argv[i + n];
    }
    SwappedItems(before, argv[..], i, j, len);
  }

  lemma SwappedItems(a: seq<string>, b: seq<string>, i: nat, j: nat, len: nat)
    requires i + len <= j && j + len <= |a| == |b|
    requires forall k :: i <= k < i + len ==> b[k] == a[k + (j - i)]
    requires forall k :: j <= k < j + len ==> b[k] == a[k - (j - i)]
    requires forall k :: 0 <= k < |a| && !(i <= k < i + len) && !(j <= k < j + len) ==> b[k] == a[k]
    ensures b == Swapped(a, i, j, len)
  {
  }

  /** a with the adjacent parts [first..last) and [last..top) exchanged. */
  function Exchanged(a: seq<string>, first: nat, last: nat, top: nat): (r: seq<string>)
    requires first <= last <= top <= |a|
    ensures |r| == |a|
  {
    a[..first] + a[last..top] + a[first..last] + a[top..]
  }

  /** exchange, on argv: each round moves the shorter part to its place, at one end, and leaves a
      smaller exchange to be done. */
  method Exchange(argv: array<string>, first: nat, last: nat, optind: nat)
    requires first <= last <= optind <= argv.Length
    modifies argv
    ensures argv[..] == Exchanged(old(argv[..]), first, last, optind)
    ensures multiset(argv[..]) == multiset(old(argv[..]))
  {
    hide Swapped, Exchanged;
    ghost var target := Exchanged(argv[..], first, last, optind);
    var bottom, middle, top := first, last, optind;
    while top > middle && middle > bottom
      invariant first <= bottom <= middle <= top <= optind
      invariant Exchanged(argv[..], bottom, middle, top) == target
      decreases top - bottom
    {
      ghost var a := argv[..];
      if top - middle > middle - bottom {
        var len := middle - bottom;
        SwapBlocks(argv, bottom, top - len, len);
        BottomMoved(a, argv[..], bottom, middle, top);
        top := top - len;
      } else {
        var len := top - middle;
        SwapBlocks(argv, bottom, middle, len);
        TopMoved(a, argv[..], bottom, middle, top);
        bottom := bottom + len;
      }
    }
    NothingToExchange(argv[..], bottom, middle, top);
    ExchangedItems(old(argv[..]), first, last, optind);
  }

  lemma ExchangedItems(a: seq<string>, first: nat, last: nat, top: nat)
    requires first <= last <= top <= |a|
    ensures multiset(Exchanged(a, first, last, top)) == multiset(a)
  {
    assert a == a[..first] + a[first..last] + a[last..top] + a[top..];
  }

  lemma NothingToExchange(a: seq<string>, first: nat, last: nat, top: nat)
    requires first <= last <= top <= |a| && (first == last || last == top)
    ensures Exchanged(a, first, last, top) == a
  {
  }

  lemma BottomMoved(a: seq<string>, b: seq<string>, bottom: nat, middle: nat, top: nat)
    requires bottom < middle < top <= |a| && middle - bottom < top - middle
    requires b == Swapped(a, bottom, top - (middle - bottom), middle - bottom)
    ensures Exchanged(b, bottom, middle, top - (middle - bottom)) == Exchanged(a, bottom, middle, top)
  {
    var up := top - (middle - bottom);
    assert b[..bottom] == a[..bottom] && b[bottom..middle] == a[up..top] && b[middle..up] == a[middle..up];
    assert b[up..] == a[bottom..middle] + a[top..];
    assert a[middle..top] == a[middle..up] + a[up..top];
  }

  lemma TopMoved(a: seq<string>, b: seq<string>, bottom: nat, middle: nat, top: nat)
    requires bottom < middle < top <= |a| && top - middle <= middle - bottom
    requires b == Swapped(a, bottom, middle, top - middle)
    ensures Exchanged(b, bottom + (top - middle), middle, top) == Exchanged(a, bottom, middle, top)
  {
    var low := bottom + (top - middle);
    assert b[..low] == a[..bottom] + a[middle..top] && b[low..middle] == a[low..middle];
    assert b[middle..top] == a[bottom..low] && b[top..] == a[top..];
    assert a[bottom..middle] == a[bottom..low] + a[low..middle];
  }

  /** What an exchange does to the options and operands found so far. */
  lemma ExchangeSorts(a: seq<string>, start: nat, first: nat, last: nat, optind: nat)
    requires start <= first <= last <= optind <= |a|
    ensures var b, mid := Exchanged(a, first, last, optind), first + (optind - last);
            && b[..start] == a[..start] && b[optind..] == a[optind..]
            && b[start..mid] == a[start..first] + a[last..optind]
            && b[mid..optind] == a[first..last]
  {
  }

  // ----- Decoding one option -----

  datatype LongOption = LongOption(name: string, hasArg: int, flag: Option<nat>, val: int)

  /** The option tables of the caller; optstring without its leading '-' or '+'. */
  datatype Tables = Tables(optstring: string, longopts: Option<seq<LongOption>>, longOnly: bool)

  datatype Match = NoMatch | Ambiguous | Found(index: nat)

  /** The least index from i on at which the option has exactly this name, or else the length. */
  function FirstExact(opts: seq<LongOption>, name: string, i: nat): (r: nat)
    requires i <= |opts|
    ensures i <= r <= |opts| && (r < |opts| ==> opts[r].name == name)
    ensures forall j :: i <= j < r ==> opts[j].name != name
    decreases |opts| - i
  {
    if i == |opts| || opts[i].name == name then i else FirstExact(opts, name, i + 1)
  }

  function FirstPrefix(opts: seq<LongOption>, name: string, i: nat): (r: nat)
    requires i <= |opts|
    ensures i <= r <= |opts| && (r < |opts| ==> name <= opts[r].name)
    ensures forall j :: i <= j < r ==> !(name <= opts[j].name)
    decreases |opts| - i
  {
    if i == |opts| || name <= opts[i].name then i else FirstPrefix(opts, name, i + 1)
  }

  /** A later option with the same prefix that would mean something else. */
  predicate Clashes(opts: seq<LongOption>, name: string, longOnly: bool, f: nat, j: nat)
    requires f < |opts| && j < |opts|
  {
    && name <= opts[j].name
    && (longOnly || opts[f].hasArg != opts[j].hasArg || opts[f].flag != opts[j].flag || opts[f].val != opts[j].val)
  }

  /** An exact name wins; otherwise an abbreviation must be unique, up to options that mean the
      same. */
  function LongMatch(opts: seq<LongOption>, name: string, longOnly: bool): Match {
    var e, f := FirstExact(opts, name, 0), FirstPrefix(opts, name, 0);
    if e < |opts| then Found(e)
    else if f == |opts| then NoMatch
    else if exists j :: f < j < |opts| && Clashes(opts, name, longOnly, f, j) then Ambiguous
    else Found(f)
  }

  /** The loop over longopts. */
  method FindLong(opts: seq<LongOption>, name: string, longOnly: bool) returns (r: Match)
    ensures r == LongMatch(opts, name, longOnly)
  {
    var found: Option<nat>, ambiguous := None, false;
    for i := 0 to |opts|
      invariant FirstExact(opts, name, 0) >= i
      invariant found.None? ==> FirstPrefix(opts, name, 0) >= i
      invariant found.Some? ==> found.value == FirstPrefix(opts, name, 0) < i
      invariant found.None? ==> !ambiguous
      invariant found.Some? ==>
                  (ambiguous <==> exists j :: found.value < j < i && Clashes(opts, name, longOnly, found.value, j))
    {
      if name <= opts[i].name {
        if |name| == |opts[i].name| {
          return Found(i);
        } else if found.None? {
          found := Some(i);
        } else if Clashes(opts, name, longOnly, found.value, i) {
          ambiguous := true;
        }
      }
    }
    if ambiguous {
      return Ambiguous;
    }
    return if found.Some? then Found(found.value) else NoMatch;
  }

  /** The part of a long option before its '='. */
  function NameEnd(s: string, i: nat): (r: nat)
    requires i <= |s|
    ensures i <= r <= |s| && (r < |s| ==> s[r] == '=') && forall j :: i <= j < r ==> s[j] != '='
    decreases |s| - i
  {
    if i == |s| || s[i] == '=' then i else NameEnd(s, i + 1)
  }

  /** strchr: the least index of c from i on, or else the length. */
  function IndexOf(s: string, c: char, i: nat): (r: nat)
    requires i <= |s|
    ensures i <= r <= |s| && (r < |s| ==> s[r] == c) && forall j :: i <= j < r ==> s[j] != c
    decreases |s| - i
  {
    if i == |s| || s[i] == c then i else IndexOf(s, c, i + 1)
  }

  function CharAt(s: string, i: nat): char {
    if i < |s| then s[i] else '\0'
  }

  /** The outcome of decoding: what is reported, what is left of the element (None once its end is
      not looked at again), and by how many elements optind advances. */
  datatype Decoded = Decoded(code: int, optarg: Option<string>, rest: Option<string>, used: nat,
                             optopt: Option<int>, longind: Option<nat>, store: Option<(nat, int)>)

  function MissingCode(optstring: string): int {
    if CharAt(optstring, 0) == ':' then ':' as int else '?' as int
  }

  function DecodeLong(t: Tables, opts: seq<LongOption>, i: nat, rest: string, next: Option<string>): Decoded
    requires i < |opts|
  {
    var o, e := opts[i], NameEnd(rest, 0);
    if e < |rest| && o.hasArg == 0 then Decoded('?' as int, None, Some(""), 1, Some(o.val), None, None)
    else if e == |rest| && o.hasArg == 1 && next.None? then
      Decoded(MissingCode(t.optstring), None, Some(""), 1, Some(o.val), None, None)
    else
      var takesNext := e == |rest| && o.hasArg == 1;
      Decoded(if o.flag.Some? then 0 else o.val,
              if e < |rest| then Some(rest[e + 1..]) else if takesNext then next else None,
              Some(""), if takesNext then 2 else 1, None, Some(i),
              if o.flag.Some? then Some((o.flag.value, o.val)) else None)
  }

  function DecodeShort(t: Tables, rest: string, next: Option<string>): Decoded
    requires rest != ""
  {
    var c, tail := rest[0], rest[1..];
    var at := IndexOf(t.optstring, c, 0);
    var step := if tail == "" then 1 else 0;
    if at == |t.optstring| || c == ':' || c == ';' then
      Decoded('?' as int, None, Some(tail), step, Some(c as int), None, None)
    else if CharAt(t.optstring, at + 1) != ':' then Decoded(c as int, None, Some(tail), step, None, None, None)
    else if tail != "" then Decoded(c as int, Some(tail), None, 1, None, None, None)
    else if CharAt(t.optstring, at + 2) == ':' then Decoded(c as int, None, None, 1, None, None, None)
    else if next.None? then Decoded(MissingCode(t.optstring), None, None, 1, Some(c as int), None, None)
    else Decoded(c as int, next, None, 2, None, None, None)
  }

  /** Whether the element is to be tried as a long option. */
  predicate TriesLong(t: Tables, elem: string)
    requires |elem| >= 2
  {
    t.longopts.Some? && (elem[1] == '-' || (t.longOnly && (|elem| > 2 || elem[1] !in t.optstring)))
  }

  function Decode(t: Tables, elem: string, rest: string, next: Option<string>): (d: Decoded)
    requires |elem| >= 2 && rest != ""
    ensures d.used == 0 <==> !Ended(d.rest)
    ensures d.used == 0 ==> |d.rest.value| < |rest|
    ensures d.used <= if next.Some? then 2 else 1
  {
    if TriesLong(t, elem) then
      match LongMatch(t.longopts.value, rest[..NameEnd(rest, 0)], t.longOnly)
      case Ambiguous => Decoded('?' as int, None, Some(""), 1, Some(0), None, None)
      case Found(i) => DecodeLong(t, t.longopts.value, i, rest, next)
      case NoMatch =>
        if !t.longOnly || elem[1] == '-' || rest[0] !in t.optstring then
          Decoded('?' as int, None, Some(""), 1, Some(0), None, None)
        else DecodeShort(t, rest, next)
    else DecodeShort(t, rest, next)
  }

  // ----- The reference: one scan from left to right -----

  datatype Ordering = REQUIRE_ORDER | PERMUTE | RETURN_IN_ORDER

  /** What a call reports: its result, optarg, longind and the flag variable it sets. */
  datatype Event = Event(code: int, optarg: Option<string>, longind: Option<nat>, store: Option<(nat, int)>)

  /** All that a scan finds: the reported events, the elements they used up, and the operands. */
  datatype Run = Run(events: seq<Event>, used: seq<string>, operands: seq<string>)

  predicate NonOption(elem: string) {
    CharAt(elem, 0) != '-' || |elem| < 2
  }

  predicate Ended(rest: Option<string>) {
    rest.None? || rest.value == ""
  }

  function StartOf(t: Tables, elem: string): string
    requires |elem| >= 2
  {
    if t.longopts.Some? && elem[1] == '-' then elem[2..] else elem[1..]
  }

  function NextOf(args: seq<string>, k: nat): Option<string> {
    if k + 1 < |args| then Some(args[k + 1]) else None
  }

  /** An element in the middle of which decoding may stand. */
  predicate MidElement(elem: string, rest: Option<string>) {
    |elem| >= 2 && (Ended(rest) || |rest.value| < |elem|)
  }

  /** Scan args from index k on, never looking back and never moving anything; operands are set
      aside. */
  function Scan(t: Tables, ordering: Ordering, args: seq<string>, k: nat, rest: Option<string>): (r: Run)
    requires k <= |args|
    decreases |args| - k, if k == |args| then 0 else if Ended(rest) then |args[k]| + 1 else |rest.value|
  {
    if k == |args| then Run([], [], [])
    else if !Ended(rest) && |args[k]| >= 2 then ScanOption(t, ordering, args, k, rest.value)
    else if args[k] == "--" then Run([], [args[k]], args[k + 1..])
    else if NonOption(args[k]) then
      match ordering
      case PERMUTE => var r := Scan(t, ordering, args, k + 1, None); Run(r.events, r.used, [args[k]] + r.operands)
      case REQUIRE_ORDER => Run([], [], args[k..])
      case RETURN_IN_ORDER =>
        var r := Scan(t, ordering, args, k + 1, None);
        Run([Event(1, Some(args[k]), None, None)] + r.events, [args[k]] + r.used, r.operands)
    else ScanOption(t, ordering, args, k, StartOf(t, args[k]))
  }

  function ScanOption(t: Tables, ordering: Ordering, args: seq<string>, k: nat, rest: string): (r: Run)
    requires k < |args| && |args[k]| >= 2 && rest != ""
    decreases |args| - k, |rest|, 0
  {
    var d := Decode(t, args[k], rest, NextOf(args, k));
    var r := Scan(t, ordering, args, k + d.used, d.rest);
    Run([Event(d.code, d.optarg, d.longind, d.store)] + r.events, args[k..k + d.used] + r.used, r.operands)
  }

  // ----- What decoding means -----

  /** optstring declares c, with this many colons behind its first occurrence (none, one, or two). */
  ghost predicate Declares(optstring: string, c: char, colons: nat) {
    && c != ':' && c != ';'
    && exists i :: 0 <= i < |optstring| && optstring[i] == c && c !in optstring[..i]
                   && (colons == 0 <==> CharAt(optstring, i + 1) != ':')
                   && (colons == 2 <==> CharAt(optstring, i + 1) == ':' && CharAt(optstring, i + 2) == ':')
  }

  lemma FirstIndex(s: string, c: char, i: nat)
    requires i < |s| && s[i] == c && c !in s[..i]
    ensures IndexOf(s, c, 0) == i
  {
    forall j | 0 <= j < i ensures s[j] != c {
      assert s[..i][j] in s[..i];
    }
  }

  /** A missing argument is reported by ':' if the option string starts with one, and else by '?'. */
  lemma MissingCodes(optstring: string)
    ensures MissingCode(optstring) == if ":" <= optstring then 58 else 63
  {
  }

  /** A required argument is the rest of the element, or else the whole next element; only when
      there is neither is it missing. */
  lemma RequiredArgument(t: Tables, c: char, tail: string, next: Option<string>)
    requires Declares(t.optstring, c, 1)
    ensures var d := DecodeShort(t, [c] + tail, next);
            && (tail != "" ==> d.code == c as int && d.optarg == Some(tail) && d.used == 1)
            && (tail == "" && next.Some? ==> d.code == c as int && d.optarg == next && d.used == 2)
            && (tail == "" && next.None? ==> d.optarg.None? && d.used == 1 && d.optopt == Some(c as int))
            && (tail == "" && next.None? ==> d.code == if ":" <= t.optstring then 58 else 63)
            && Ended(d.rest)
  {
    hide MissingCode;
    MissingCodes(t.optstring);
    var i :| 0 <= i < |t.optstring| && t.optstring[i] == c && c !in t.optstring[..i]
             && CharAt(t.optstring, i + 1) == ':' && CharAt(t.optstring, i + 2) != ':';
    FirstIndex(t.optstring, c, i);
    assert ([c] + tail)[1..] == tail;
  }

  /** An optional argument only comes from the same element. */
  lemma OptionalArgument(t: Tables, c: char, tail: string, next: Option<string>)
    requires Declares(t.optstring, c, 2)
    ensures var d := DecodeShort(t, [c] + tail, next);
            && d.code == c as int && d.used == 1 && Ended(d.rest)
            && d.optarg == if tail != "" then Some(tail) else None
  {
    var i :| 0 <= i < |t.optstring| && t.optstring[i] == c && c !in t.optstring[..i]
             && CharAt(t.optstring, i + 1) == ':' && CharAt(t.optstring, i + 2) == ':';
    FirstIndex(t.optstring, c, i);
    assert ([c] + tail)[1..] == tail;
  }

  /** A character without an argument leaves the rest of the element to the next call. */
  lemma PlainOption(t: Tables, c: char, tail: string, next: Option<string>)
    requires Declares(t.optstring, c, 0)
    ensures var d := DecodeShort(t, [c] + tail, next);
            && d == Decoded(c as int, None, Some(tail), if tail == "" then 1 else 0, None, None, None)
  {
    var i :| 0 <= i < |t.optstring| && t.optstring[i] == c && c !in t.optstring[..i]
             && CharAt(t.optstring, i + 1) != ':';
    FirstIndex(t.optstring, c, i);
    assert ([c] + tail)[1..] == tail;
  }

  ghost function EventsOf(cluster: string): seq<Event> {
    if cluster == "" then [] else [Event(cluster[0] as int, None, None, None)] + EventsOf(cluster[1..])
  }

  /** A cluster of options without arguments is reported character by character, and the element is
      then used up. */
  lemma {:induction false} ClusterEvents(t: Tables, ordering: Ordering, args: seq<string>, k: nat, cluster: string)
    requires k < |args| && |args[k]| >= 2 && cluster != "" && !TriesLong(t, args[k])
    requires forall i :: 0 <= i < |cluster| ==> Declares(t.optstring, cluster[i], 0)
    ensures var r, after := ScanOption(t, ordering, args, k, cluster), Scan(t, ordering, args, k + 1, None);
            && r.events == EventsOf(cluster) + after.events
            && r.used == [args[k]] + after.used && r.operands == after.operands
    decreases |cluster|
  {
    hide Declares, Decode, Scan, ScanOption;
    var tail := cluster[1..];
    assert EventsOf(cluster) == [Event(cluster[0] as int, None, None, None)] + EventsOf(tail);
    if tail == "" {
      ClusterEnds(t, ordering, args, k, cluster);
    } else {
      ClusterGoesOn(t, ordering, args, k, cluster);
      ClusterEvents(t, ordering, args, k, tail);
    }
  }

  lemma ClusterEnds(t: Tables, ordering: Ordering, args: seq<string>, k: nat, cluster: string)
    requires k < |args| && |args[k]| >= 2 && !TriesLong(t, args[k])
    requires |cluster| == 1 && Declares(t.optstring, cluster[0], 0)
    ensures var r, after := ScanOption(t, ordering, args, k, cluster), Scan(t, ordering, args, k + 1, None);
            r == Run([Event(cluster[0] as int, None, None, None)] + after.events, [args[k]] + after.used,
                     after.operands)
  {
    PlainOption(t, cluster[0], "", NextOf(args, k));
    assert cluster == [cluster[0]] + "";
    assert Scan(t, ordering, args, k + 1, Some("")) == Scan(t, ordering, args, k + 1, None);
    assert args[k..k + 1] == [args[k]];
  }

  lemma ClusterGoesOn(t: Tables, ordering: Ordering, args: seq<string>, k: nat, cluster: string)
    requires k < |args| && |args[k]| >= 2 && !TriesLong(t, args[k])
    requires |cluster| > 1 && Declares(t.optstring, cluster[0], 0)
    ensures var r, after := ScanOption(t, ordering, args, k, cluster), ScanOption(t, ordering, args, k, cluster[1..]);
            r == Run([Event(cluster[0] as int, None, None, None)] + after.events, after.used, after.operands)
  {
    var tail := cluster[1..];
    PlainOption(t, cluster[0], tail, NextOf(args, k));
    assert cluster == [cluster[0]] + tail;
    assert Scan(t, ordering, args, k, Some(tail)) == ScanOption(t, ordering, args, k, tail);
    assert args[k..k] == [];
  }

  lemma {:induction false} NameEndIs(s: string, name: string, i: nat)
    requires i <= |name| <= |s| && name == s[..|name|] && '=' !in name && (|s| > |name| ==> s[|name|] == '=')
    ensures NameEnd(s, i) == |name|
    decreases |name| - i
  {
    if i < |name| {
      assert s[i] == name[i] && name[i] in name;
      NameEndIs(s, name, i + 1);
    }
  }

  /** A long option takes the text behind '=' as its argument if it may have one; without '=' only a
      required argument is taken, from the next element.  What is found is reported by its value,
      or stored where its flag says and reported by 0. */
  lemma LongArgument(t: Tables, elem: string, name: string, value: Option<string>, next: Option<string>, i: nat)
    requires |elem| >= 2 && TriesLong(t, elem) && '=' !in name && (name != "" || value.Some?)
    requires LongMatch(t.longopts.value, name, t.longOnly) == Found(i) && i < |t.longopts.value|
    ensures var o, d := t.longopts.value[i],
              Decode(t, elem, if value.Some? then name + "=" + value.value else name, next);
            var unwanted, missing := value.Some? && o.hasArg == 0, value.None? && o.hasArg == 1 && next.None?;
            && (unwanted ==> d.code == 63)
            && (missing ==> d.code == if ":" <= t.optstring then 58 else 63)
            && (unwanted || missing ==>
                  d.optarg.None? && d.used == 1 && d.optopt == Some(o.val) && d.longind.None? && d.store.None?)
            && (!unwanted && !missing ==>
                  && d.longind == Some(i) && d.optopt.None?
                  && (o.flag.None? ==> d.code == o.val && d.store.None?)
                  && (o.flag.Some? ==> d.code == 0 && d.store == Some((o.flag.value, o.val))))
            && (value.Some? && o.hasArg != 0 ==> d.optarg == value && d.used == 1)
            && (value.None? && o.hasArg != 1 ==> d.optarg.None? && d.used == 1)
            && (value.None? && o.hasArg == 1 && next.Some? ==> d.optarg == next && d.used == 2)
            && Ended(d.rest)
  {
    hide MissingCode, LongMatch;
    MissingCodes(t.optstring);
    var rest := if value.Some? then name + "=" + value.value else name;
    NameEndIs(rest, name, 0);
    assert rest[..|name|] == name;
    assert value.Some? ==> rest[|name| + 1..] == value.value;
  }

  /** w is a and b shuffled: both keep their order, and nothing is added or lost. */
  ghost predicate Shuffle(w: seq<string>, a: seq<string>, b: seq<string>) {
    if w == [] then a == [] && b == []
    else
      || (a != [] && a[0] == w[0] && Shuffle(w[1..], a[1..], b))
      || (b != [] && b[0] == w[0] && Shuffle(w[1..], a, b[1..]))
  }

  lemma {:induction false} ShuffleLeft(u: seq<string>, w: seq<string>, a: seq<string>, b: seq<string>)
    requires Shuffle(w, a, b)
    ensures Shuffle(u + w, u + a, b)
  {
    if u == [] {
      assert u + w == w && u + a == a;
    } else {
      ShuffleLeft(u[1..], w, a, b);
      assert (u + w)[1..] == u[1..] + w && (u + a)[1..] == u[1..] + a;
    }
  }

  lemma {:induction false} ShuffleRight(w: seq<string>)
    ensures Shuffle(w, [], w)
  {
    if w != [] {
      ShuffleRight(w[1..]);
    }
  }

  lemma {:induction false} ShuffleKeepsItems(w: seq<string>, a: seq<string>, b: seq<string>)
    requires Shuffle(w, a, b)
    ensures multiset(w) == multiset(a) + multiset(b)
  {
    if w != [] {
      assert w == [w[0]] + w[1..];
      if a != [] && a[0] == w[0] && Shuffle(w[1..], a[1..], b) {
        ShuffleKeepsItems(w[1..], a[1..], b);
        assert a == [a[0]] + a[1..];
      } else {
        ShuffleKeepsItems(w[1..], a, b[1..]);
        assert b == [b[0]] + b[1..];
      }
    }
  }

  /** A scan splits the arguments into what the options use and the operands, both in their
      original order. */
  lemma {:induction false} ScanSplits(t: Tables, ordering: Ordering, args: seq<string>, k: nat, rest: Option<string>)
    requires k <= |args|
    ensures var r := Scan(t, ordering, args, k, rest); Shuffle(args[k..], r.used, r.operands)
    decreases |args| - k, if k == |args| then 0 else if Ended(rest) then |args[k]| + 1 else |rest.value|
  {
    if k < |args| {
      assert args[k..] == [args[k]] + args[k + 1..];
      if !Ended(rest) && |args[k]| >= 2 {
        OptionSplits(t, ordering, args, k, rest.value);
      } else if args[k] == "--" {
        ShuffleRight(args[k + 1..]);
        ShuffleLeft([args[k]], args[k + 1..], [], args[k + 1..]);
        assert [args[k]] + [] == [args[k]];
      } else if NonOption(args[k]) {
        if ordering.REQUIRE_ORDER? {
          ShuffleRight(args[k..]);
        } else {
          ScanSplits(t, ordering, args, k + 1, None);
          var r := Scan(t, ordering, args, k + 1, None);
          assert ([args[k]] + r.operands)[1..] == r.operands;
          ShuffleLeft([args[k]], args[k + 1..], r.used, r.operands);
        }
      } else {
        OptionSplits(t, ordering, args, k, StartOf(t, args[k]));
      }
    }
  }

  lemma {:induction false} OptionSplits(t: Tables, ordering: Ordering, args: seq<string>, k: nat, rest: string)
    requires k < |args| && |args[k]| >= 2 && rest != ""
    ensures var r := ScanOption(t, ordering, args, k, rest); Shuffle(args[k..], r.used, r.operands)
    decreases |args| - k, |rest|, 0
  {
    var d := Decode(t, args[k], rest, NextOf(args, k));
    ScanSplits(t, ordering, args, k + d.used, d.rest);
    var r := Scan(t, ordering, args, k + d.used, d.rest);
    ShuffleLeft(args[k..k + d.used], args[k + d.used..], r.used, r.operands);
    assert args[k..] == args[k..k + d.used] + args[k + d.used..];
  }

  // ----- The calls -----

  ghost function Joined(used: seq<string>, operands: seq<string>, r: Run): Run {
    Run(r.events, used + r.used, operands + r.operands)
  }

  /** The permuted arguments: options and operands found so far, in order, and then the arguments
      that were not looked at. */
  ghost predicate Layout(argv: seq<string>, orig: seq<string>, start: nat, first: nat, last: nat, optind: nat,
                         used: seq<string>, operands: seq<string>)
  {
    && start <= first <= last <= optind <= |argv| == |orig|
    && argv[..start] == orig[..start] && argv[optind..] == orig[optind..]
    && argv[start..first] + argv[last..optind] == used
    && argv[first..last] == operands
  }

  /** The next n elements are used as they stand. */
  lemma LayoutUses(argv: seq<string>, orig: seq<string>, start: nat, first: nat, last: nat, optind: nat,
                   used: seq<string>, operands: seq<string>, n: nat)
    requires Layout(argv, orig, start, first, last, optind, used, operands) && optind + n <= |argv|
    ensures Layout(argv, orig, start, first, last, optind + n, used + orig[optind..optind + n], operands)
    ensures n > 0 ==> argv[optind] == orig[optind]
    ensures NextOf(argv, optind) == NextOf(orig, optind)
  {
    forall k | optind <= k < |argv| ensures argv[k] == orig[k] {
      assert argv[k] == argv[optind..][k - optind];
    }
    assert argv[last..optind + n] == argv[last..optind] + argv[optind..optind + n];
  }

  lemma LayoutWithoutOperands(argv: seq<string>, orig: seq<string>, start: nat, optind: nat, used: seq<string>,
                              operands: seq<string>)
    requires Layout(argv, orig, start, start, start, optind, used, operands)
    ensures argv[..start] == orig[..start] && argv[start..optind] == used && operands + orig[optind..] == argv[optind..]
  {
  }

  class GetoptData {
    var optind: nat
    var optarg: Option<string>
    var optopt: int
    var nextchar: Option<string>
    var firstNonopt: nat
    var lastNonopt: nat
    var ordering: Ordering
    var initialized: bool
    var posixlyCorrect: bool

    /** What the scan of the original arguments from `start` on has used and set aside so far. */
    ghost var start: nat
    ghost var used: seq<string>
    ghost var operands: seq<string>

    constructor ()
      ensures optind == 1 && !initialized
    {
      optind, optarg, optopt, nextchar := 1, None, '?' as int, None;
      firstNonopt, lastNonopt, ordering, initialized, posixlyCorrect := 0, 0, PERMUTE, false, false;
      start, used, operands := 1, [], [];
    }

    ghost predicate Valid(argv: seq<string>, orig: seq<string>)
      reads this
    {
      && 1 <= start <= optind <= |argv| == |orig|
      && Layout(argv, orig, start, firstNonopt, lastNonopt, optind, used, operands)
      && (!ordering.PERMUTE? ==> firstNonopt == lastNonopt == start)
      && (!Ended(nextchar) ==> optind < |argv| && MidElement(argv[optind], nextchar))
    }

    /** What is still to be found. */
    ghost function Rest(t: Tables, orig: seq<string>): Run
      requires optind <= |orig|
      reads this
    {
      Scan(t, ordering, orig, optind, nextchar)
    }

    /** exchange: the operands move behind the options that were found after them. */
    method ExchangeArgs(argv: array<string>)
      requires firstNonopt <= lastNonopt <= optind <= argv.Length
      modifies argv, this`firstNonopt, this`lastNonopt
      ensures argv[..] == Exchanged(old(argv[..]), old(firstNonopt), old(lastNonopt), optind)
      ensures multiset(argv[..]) == multiset(old(argv[..]))
      ensures firstNonopt == old(firstNonopt) + (optind - old(lastNonopt)) && lastNonopt == optind
    {
      Exchange(argv, firstNonopt, lastNonopt, optind);
      firstNonopt := firstNonopt + (optind - lastNonopt);
      lastNonopt := optind;
    }

    /** No options are left behind the operands found so far. */
    ghost predicate Gathered(argv: seq<string>, orig: seq<string>)
      reads this
    {
      && start <= firstNonopt <= optind <= |argv| == |orig|
      && argv[..start] == orig[..start] && argv[optind..] == orig[optind..]
      && argv[start..firstNonopt] == used && argv[firstNonopt..optind] == operands
    }

    /** Bring the options together. */
    method GatherOptions(argv: array<string>, ghost orig: seq<string>)
      requires Valid(argv[..], orig)
      modifies argv, this`firstNonopt, this`lastNonopt
      ensures Gathered(argv[..], orig)
      ensures multiset(argv[..]) == multiset(old(argv[..]))
    {
      hide Exchanged;
      ghost var a := argv[..];
      ExchangeSorts(a, start, firstNonopt, lastNonopt, optind);
      if firstNonopt != lastNonopt && lastNonopt != optind {
        ExchangeArgs(argv);
      } else if lastNonopt != optind {
        assert a[start..firstNonopt] + a[lastNonopt..optind] == a[start..optind];
        firstNonopt := optind;
      }
    }

    /** Under PERMUTE: bring the options together, then pass over operands. */
    method SkipOperands(argv: array<string>, t: Tables, ghost orig: seq<string>)
      requires Valid(argv[..], orig) && ordering.PERMUTE? && Ended(nextchar)
      modifies argv, this`firstNonopt, this`lastNonopt, this`optind, this`operands
      ensures Gathered(argv[..], orig) && lastNonopt == optind
      ensures multiset(argv[..]) == multiset(old(argv[..]))
      ensures optind < argv.Length ==> !NonOption(argv[optind])
      ensures Joined(used, operands, Rest(t, orig)) == old(Joined(used, operands, Rest(t, orig)))
    {
      hide Joined, Scan, NonOption;
      ghost var whole := Joined(used, operands, Rest(t, orig));
      GatherOptions(argv, orig);
      while optind < argv.Length && NonOption(argv[optind])
        invariant Gathered(argv[..], orig) && multiset(argv[..]) == multiset(old(argv[..]))
        invariant Joined(used, operands, Rest(t, orig)) == whole
        decreases argv.Length - optind
      {
        OperandNext(argv[..], orig, start, firstNonopt, optind, used, operands);
        ScanPassesOperand(t, orig, optind, nextchar, used, operands);
        operands := operands + [argv[optind]];
        optind := optind + 1;
      }
      lastNonopt := optind;
    }

    /** What a call leaves in the fields for one decoded option. */
    twostate predicate Applied(d: Decoded, code: int, new longind: Option<nat>, new store: Option<(nat, int)>)
      reads this
    {
      && code == d.code && longind == d.longind && store == d.store
      && optarg == d.optarg && nextchar == d.rest && optind == old(optind) + d.used
      && optopt == if d.optopt.Some? then d.optopt.value else old(optopt)
    }

    /** The decoding half of _getopt_internal_r. */
    method DecodeElement(argv: array<string>, t: Tables) returns (code: int, longind: Option<nat>,
                         store: Option<(nat, int)>)
      requires optind < argv.Length && |argv[optind]| >= 2 && optarg.None? && nextchar.Some? && nextchar.value != ""
      modifies this`optind, this`optarg, this`optopt, this`nextchar
      ensures Applied(Decode(t, argv[old(optind)], old(nextchar.value), NextOf(argv[..], old(optind))),
                      code, longind, store)
    {
      longind, store := None, None;
      var elem := argv[optind];
      if t.longopts.Some? && (elem[1] == '-' || (t.longOnly && (|elem| > 2 || elem[1] !in t.optstring))) {
        var nameend := NameEnd(nextchar.value, 0);
        var m := FindLong(t.longopts.value, nextchar.value[..nameend], t.longOnly);
        if m.Ambiguous? {
          nextchar := Some("");
          optind := optind + 1;
          optopt := 0;
          return '?' as int, None, None;
        }
        if m.Found? {
          code, longind, store := TakeLong(argv, t, t.longopts.value, m.index, nameend);
          return;
        }
        if !t.longOnly || elem[1] == '-' || nextchar.value[0] !in t.optstring {
          nextchar := Some("");
          optind := optind + 1;
          optopt := 0;
          return '?' as int, None, None;
        }
      }
      code := TakeShort(argv, t);
    }

    method TakeLong(argv: array<string>, t: Tables, opts: seq<LongOption>, index: nat, nameend: nat)
        returns (code: int, longind: Option<nat>, store: Option<(nat, int)>)
      requires optind < argv.Length && optarg.None? && nextchar.Some? && index < |opts|
      requires nameend == NameEnd(nextchar.value, 0)
      modifies this`optind, this`optarg, this`optopt, this`nextchar
      ensures Applied(DecodeLong(t, opts, index, old(nextchar.value), NextOf(argv[..], old(optind))),
                      code, longind, store)
    {
      longind, store := None, None;
      var pfound := opts[index];
      optind := optind + 1;
      if nameend < |nextchar.value| {
        if pfound.hasArg != 0 {
          optarg := Some(nextchar.value[nameend + 1..]);
        } else {
          nextchar := Some("");
          optopt := pfound.val;
          return '?' as int, None, None;
        }
      } else if pfound.hasArg == 1 {
        if optind < argv.Length {
          optarg := Some(argv[optind]);
          optind := optind + 1;
        } else {
          nextchar := Some("");
          optopt := pfound.val;
          return if CharAt(t.optstring, 0) == ':' then ':' as int else '?' as int, None, None;
        }
      }
      nextchar := Some("");
      longind := Some(index);
      if pfound.flag.Some? {
        return 0, longind, Some((pfound.flag.value, pfound.val));
      }
      code := pfound.val;
    }

    method TakeShort(argv: array<string>, t: Tables) returns (code: int)
      requires optind < argv.Length && optarg.None? && nextchar.Some? && nextchar.value != ""
      modifies this`optind, this`optarg, this`optopt, this`nextchar
      ensures Applied(DecodeShort(t, old(nextchar.value), NextOf(argv[..], old(optind))), code, None, None)
    {
      var c := nextchar.value[0];
      var tail := nextchar.value[1..];
      nextchar := Some(tail);
      var temp := IndexOf(t.optstring, c, 0);
      if tail == "" {
        optind := optind + 1;
      }
      if temp == |t.optstring| || c == ':' || c == ';' {
        optopt := c as int;
        return '?' as int;
      }
      code := c as int;
      if CharAt(t.optstring, temp + 1) == ':' {
        if CharAt(t.optstring, temp + 2) == ':' {
          if tail != "" {
            optarg := Some(tail);
            optind := optind + 1;
          } else {
            optarg := None;
          }
        } else if tail != "" {
          optarg := Some(tail);
          optind := optind + 1;
        } else if optind == argv.Length {
          optopt := c as int;
          code := if CharAt(t.optstring, 0) == ':' then ':' as int else '?' as int;
        } else {
          optarg := Some(argv[optind]);
          optind := optind + 1;
        }
        nextchar := None;
      }
    }

    /** The state before the first call, or after the caller has asked for a fresh start. */
    predicate Fresh()
      reads this
    {
      optind == 0 || !initialized
    }

    ghost predicate Ready(argv: seq<string>, orig: seq<string>)
      reads this
    {
      && optind <= |argv| == |orig|
      && if Fresh() then argv == orig else Valid(argv, orig)
    }

    /** The whole scan, of which the calls so far have reported the first events. */
    ghost function Whole(t: Tables, first: Ordering, orig: seq<string>): Run
      requires 1 <= |orig| && optind <= |orig|
      reads this
    {
      if Fresh() then Scan(t, first, orig, if optind == 0 then 1 else optind, None)
      else Joined(used, operands, Rest(t, orig))
    }

    /** The end: options first, and the operands from optind on, all in their original order. */
    ghost predicate Finished(argv: seq<string>, orig: seq<string>, whole: Run)
      reads this
    {
      && start <= optind <= |argv| == |orig|
      && whole.events == []
      && argv[..start] == orig[..start] && argv[start..optind] == whole.used && argv[optind..] == whole.operands
    }

    /** _getopt_initialize; the environment is part of posixly. */
    method Initialize(optstring: string, posixly: bool, ghost orig: seq<string>)
      requires 1 <= optind <= |orig|
      modifies this
      ensures optind == old(optind) && nextchar == None && ordering == FirstOrdering(optstring, posixly)
      ensures optarg == old(optarg) && optopt == old(optopt) && initialized == old(initialized)
      ensures Valid(orig, orig) && used == [] && operands == [] && start == optind
    {
      firstNonopt, lastNonopt := optind, optind;
      nextchar := None;
      posixlyCorrect := posixly;
      if CharAt(optstring, 0) == '-' {
        ordering := RETURN_IN_ORDER;
      } else if CharAt(optstring, 0) == '+' {
        ordering := REQUIRE_ORDER;
      } else if posixlyCorrect {
        ordering := REQUIRE_ORDER;
      } else {
        ordering := PERMUTE;
      }
      start, used, operands := optind, [], [];
    }

    /** The end of the options at "--". */
    method EndOptions(argv: array<string>, t: Tables, ghost orig: seq<string>)
      requires Valid(argv[..], orig) && Ended(nextchar) && (ordering.PERMUTE? ==> lastNonopt == optind)
      requires optind < argv.Length && argv[optind] == "--"
      modifies argv, this`firstNonopt, this`lastNonopt, this`optind, this`used, this`operands
      ensures optind == lastNonopt == argv.Length == |orig| && start <= firstNonopt <= optind
      ensures multiset(argv[..]) == multiset(old(argv[..]))
      ensures Parted(argv[..], orig, start, firstNonopt, used, operands)
      ensures Joined(used, operands, Run([], [], [])) == old(Joined(used, operands, Rest(t, orig)))
    {
      hide Joined, Scan, Exchanged, Parted;
      DashDash(argv[..], orig, start, firstNonopt, lastNonopt, optind, used, operands);
      ScanStopsAtDashDash(t, ordering, orig, optind, nextchar, used, operands);
      used, operands := used + ["--"], operands + orig[optind + 1..];
      optind := optind + 1;
      if firstNonopt != lastNonopt && lastNonopt != optind {
        ExchangeArgs(argv);
      } else if firstNonopt == lastNonopt {
        firstNonopt := optind;
      }
      lastNonopt := argv.Length;
      optind := argv.Length;
    }

    /** A call that starts with a new element: pass over operands and look for the end. */
    method FindElement(argv: array<string>, t: Tables, ghost orig: seq<string>) returns (more: bool)
      requires Valid(argv[..], orig) && Ended(nextchar)
      modifies argv, this`firstNonopt, this`lastNonopt, this`optind, this`used, this`operands
      ensures multiset(argv[..]) == multiset(old(argv[..]))
      ensures !more ==> Finished(argv[..], orig, old(Joined(used, operands, Rest(t, orig))))
      ensures more ==> Valid(argv[..], orig) && optind < argv.Length && argv[optind] != "--"
      ensures more && ordering.PERMUTE? ==> !NonOption(argv[optind])
      ensures more ==> Joined(used, operands, Rest(t, orig)) == old(Joined(used, operands, Rest(t, orig)))
    {
      hide Joined, Scan, NonOption;
      ghost var whole := Joined(used, operands, Rest(t, orig));
      if ordering.PERMUTE? {
        SkipOperands(argv, t, orig);
        assert argv[lastNonopt..optind] == [];
      }
      assert Joined(used, operands, Rest(t, orig)) == whole && Valid(argv[..], orig);
      if optind != argv.Length && argv[optind] == "--" {
        EndOptions(argv, t, orig);
        JoinedNothing(used, operands);
      } else if optind == argv.Length {
        ScanEnds(t, ordering, orig, nextchar, used, operands);
      } else {
        return true;
      }
      if firstNonopt != lastNonopt {
        optind := firstNonopt;
      }
      return false;
    }

    /** Then stop at an operand, or report it, or start decoding. */
    method TakeElement(argv: array<string>, t: Tables, ghost orig: seq<string>) returns (r: Element)
      requires Valid(argv[..], orig) && Ended(nextchar) && optarg.None? && optind < argv.Length && argv[optind] != "--"
      requires ordering.PERMUTE? ==> !NonOption(argv[optind])
      modifies this`optind, this`used, this`optarg, this`nextchar
      ensures r.End? ==> optarg.None?
      ensures r.End? ==> Finished(argv[..], orig, old(Joined(used, operands, Rest(t, orig))))
      ensures !r.End? ==> Valid(argv[..], orig)
      ensures r.Operand? ==> Ended(nextchar)
      ensures r.Operand? ==>
                old(Joined(used, operands, Rest(t, orig)))
                == WithEvent(Event(1, optarg, None, None), Joined(used, operands, Rest(t, orig)))
      ensures r.OptionElement? ==> optarg.None? && !Ended(nextchar)
      ensures r.OptionElement? ==> Joined(used, operands, Rest(t, orig)) == old(Joined(used, operands, Rest(t, orig)))
    {
      hide Joined, Scan, Layout;
      LayoutUses(argv[..], orig, start, firstNonopt, lastNonopt, optind, used, operands, 1);
      if NonOption(argv[optind]) {
        ScanAtOperand(t, ordering, orig, optind, nextchar, used, operands);
        if ordering.REQUIRE_ORDER? {
          LayoutWithoutOperands(argv[..], orig, start, optind, used, operands);
          return End;
        }
        assert orig[optind..optind + 1] == [orig[optind]];
        used := used + [argv[optind]];
        optarg := Some(argv[optind]);
        optind := optind + 1;
        return Operand;
      }
      ScanAtOption(t, ordering, orig, optind, nextchar);
      nextchar := Some(StartOf(t, argv[optind]));
      return OptionElement;
    }

    /** _getopt_internal_r: each call reports the next event of the scan, or its end. */
    method GetoptInternalR(argv: array<string>, optstring: string, longopts: Option<seq<LongOption>>, longOnly: bool,
                           posixly: bool,
                           ghost orig: seq<string>)
        returns (code: int, longind: Option<nat>, store: Option<(nat, int)>, ghost done: bool)
      requires argv.Length >= 1 ==> Ready(argv[..], orig)
      requires NoWLong(optstring)
      modifies argv, this
      ensures multiset(argv[..]) == multiset(old(argv[..]))
      ensures argv.Length < 1 ==>
                code == -1 && optind == old(optind) && nextchar == old(nextchar) && optarg == old(optarg)
      ensures argv.Length >= 1 ==>
                start == if old(optind) == 0 then 1 else if old(Fresh()) then old(optind) else old(start)
      ensures argv.Length >= 1 && done ==> code == -1 && optarg.None?
      ensures argv.Length >= 1 && done ==>
                Finished(argv[..], orig,
                         old(Whole(Tables(SkipMark(optstring), longopts, longOnly),
                                   FirstOrdering(optstring, posixly), orig)))
      ensures argv.Length >= 1 && !done ==> !Fresh() && Valid(argv[..], orig)
      ensures argv.Length >= 1 && !done ==>
                old(Whole(Tables(SkipMark(optstring), longopts, longOnly), FirstOrdering(optstring, posixly), orig))
                == WithEvent(Event(code, optarg, longind, store),
                             Joined(used, operands, Rest(Tables(SkipMark(optstring), longopts, longOnly), orig)))
      ensures argv.Length >= 1 && !done && NoEndVals(longopts) ==> code != -1
    {
      hide Joined, Scan, Decode, Layout;
      code, longind, store, done := -1, None, None, true;
      if argv.Length < 1 {
        return;
      }
      optarg := None;
      if optind == 0 || !initialized {
        if optind == 0 {
          optind := 1;
        }
        Initialize(optstring, posixly, orig);
        initialized := true;
        JoinedEmpty(Scan(Tables(SkipMark(optstring), longopts, longOnly), ordering, orig, optind, nextchar));
      }
      var t := Tables(SkipMark(optstring), longopts, longOnly);
      if Ended(nextchar) {
        var more := FindElement(argv, t, orig);
        if !more {
          return;
        }
        var e := TakeElement(argv, t, orig);
        if e.End? {
          return;
        }
        if e.Operand? {
          code, done := 1, false;
          return;
        }
      }
      done := false;
      code, longind, store := DecodeNext(argv, t, orig);
    }

    method DecodeNext(argv: array<string>, t: Tables, ghost orig: seq<string>)
        returns (code: int, longind: Option<nat>, store: Option<(nat, int)>)
      requires Valid(argv[..], orig) && optarg.None? && !Ended(nextchar)
      modifies this`optind, this`optarg, this`optopt, this`nextchar, this`used
      ensures Valid(argv[..], orig)
      ensures old(Joined(used, operands, Rest(t, orig)))
           == WithEvent(Event(code, optarg, longind, store), Joined(used, operands, Rest(t, orig)))
      ensures NoEndVals(t.longopts) ==> code != -1
    {
      hide Joined, Scan, Decode, Layout;
      ghost var k, rest := optind, nextchar.value;
      LayoutUses(argv[..], orig, start, firstNonopt, lastNonopt, optind, used, operands, 1);
      ghost var d := Decode(t, argv[k], rest, NextOf(orig, k));
      LayoutUses(argv[..], orig, start, firstNonopt, lastNonopt, optind, used, operands, d.used);
      ScanDecodes(t, ordering, orig, k, rest, used, operands);
      DecodedCode(t, argv[k], rest, NextOf(orig, k));
      code, longind, store := DecodeElement(argv, t);
      used := used + orig[k..k + d.used];
    }
  }

  /** The option -W is not declared as a prefix for long options. */
  predicate NoWLong(optstring: string) {
    CharAt(SkipMark(optstring), IndexOf(SkipMark(optstring), 'W', 0) + 1) != ';'
  }

  /** No long option is reported by the value that reports the end. */
  predicate NoEndVals(longopts: Option<seq<LongOption>>) {
    longopts.Some? ==> forall o :: o in longopts.value ==> o.flag.Some? || o.val != -1
  }

  lemma DecodedCode(t: Tables, elem: string, rest: string, next: Option<string>)
    requires |elem| >= 2 && rest != ""
    ensures NoEndVals(t.longopts) ==> Decode(t, elem, rest, next).code != -1
  {
  }

  lemma JoinedEmpty(r: Run)
    ensures Joined([], [], r) == r
  {
  }

  lemma ScanDecodes(t: Tables, ordering: Ordering, args: seq<string>, k: nat, rest: string, used: seq<string>,
                    operands: seq<string>)
    requires k < |args| && rest != "" && |args[k]| >= 2
    ensures var d := Decode(t, args[k], rest, NextOf(args, k));
            Joined(used, operands, Scan(t, ordering, args, k, Some(rest)))
            == WithEvent(Event(d.code, d.optarg, d.longind, d.store),
                         Joined(used + args[k..k + d.used], operands, Scan(t, ordering, args, k + d.used, d.rest)))
  {
    var d := Decode(t, args[k], rest, NextOf(args, k));
    var r := Scan(t, ordering, args, k + d.used, d.rest);
    assert used + (args[k..k + d.used] + r.used) == (used + args[k..k + d.used]) + r.used;
  }

  /** The loop reported everything: options first, the operands from optind on, all in order. */
  ghost predicate Completed(argv: seq<string>, orig: seq<string>, r: Run, optind: nat)
    requires 1 <= |orig|
  {
    && argv == orig[..1] + r.used + r.operands && optind == 1 + |r.used|
    && Shuffle(orig[1..], r.used, r.operands)
  }

  /** A caller's loop over all the options: the calls come to an end, report exactly the events of
      the scan, and leave argv permuted, the operands last and everything in its original order.
      It stops early only at a long option that is reported by -1. */
  method ScanAll(argv: array<string>, optstring: string, longopts: Option<seq<LongOption>>, longOnly: bool,
                 posixly: bool)
      returns (events: seq<Event>, optind: nat)
    requires argv.Length >= 1 && NoWLong(optstring)
    modifies argv
    ensures var r := Scan(Tables(SkipMark(optstring), longopts, longOnly), FirstOrdering(optstring, posixly),
                          old(argv[..]), 1, None);
            && |events| <= |r.events| && events == r.events[..|events|]
            && (forall e :: e in events ==> e.code != -1)
            && (|events| < |r.events| ==> r.events[|events|].code == -1 && !NoEndVals(longopts))
            && (|events| == |r.events| ==> Completed(argv[..], old(argv[..]), r, optind))
    ensures multiset(argv[..]) == multiset(old(argv[..]))
  {
    hide Joined, Scan, Shuffle, NoEndVals;
    ghost var orig := argv[..];
    ghost var t := Tables(SkipMark(optstring), longopts, longOnly);
    ghost var order := FirstOrdering(optstring, posixly);
    ghost var r := Scan(t, order, orig, 1, None);
    var d := new GetoptData();
    ghost var rest := d.Whole(t, order, orig);
    events := [];
    var code, longind, store;
    ghost var done := false;
    assert [] + rest.events == r.events;
    while true
      invariant d.Ready(argv[..], orig) && rest == d.Whole(t, order, orig)
      invariant events + rest.events == r.events && rest.used == r.used && rest.operands == r.operands
      invariant forall e :: e in events ==> e.code != -1
      invariant multiset(argv[..]) == multiset(orig)
      invariant fresh(d) && d.optind > 0 && (if d.Fresh() then d.optind == 1 else d.start == 1)
      decreases |rest.events|
    {
      code, longind, store, done := d.GetoptInternalR(argv, optstring, longopts, longOnly, posixly, orig);
      if code == -1 {
        break;
      }
      events := events + [Event(code, d.optarg, longind, store)];
      rest := d.Whole(t, order, orig);
    }
    optind := d.optind;
    assert r.events[..|events|] == events;
    if done {
      ScanSplits(t, order, orig, 1, None);
      ShuffleKeepsItems(orig[1..], r.used, r.operands);
      Reassemble(argv[..], orig, optind, r.used, r.operands);
    } else {
      assert r.events[|events|] == rest.events[0];
    }
  }

  lemma Reassemble(argv: seq<string>, orig: seq<string>, optind: nat, used: seq<string>, operands: seq<string>)
    requires 1 <= optind <= |argv| == |orig|
    requires argv[..1] == orig[..1] && argv[1..optind] == used && argv[optind..] == operands
    requires multiset(orig[1..]) == multiset(used) + multiset(operands)
    ensures argv == orig[..1] + used + operands && multiset(argv) == multiset(orig)
  {
    assert argv == argv[..1] + argv[1..optind] + argv[optind..];
    assert orig == orig[..1] + orig[1..];
  }

  datatype Element = End | Operand | OptionElement

  ghost function WithEvent(e: Event, r: Run): Run {
    Run([e] + r.events, r.used, r.operands)
  }

  lemma JoinedNothing(used: seq<string>, operands: seq<string>)
    ensures Joined(used, operands, Run([], [], [])) == Run([], used, operands)
  {
  }

  lemma ScanEnds(t: Tables, ordering: Ordering, args: seq<string>, rest: Option<string>, used: seq<string>,
                 operands: seq<string>)
    ensures Joined(used, operands, Scan(t, ordering, args, |args|, rest)) == Run([], used, operands)
  {
  }

  lemma ScanAtOperand(t: Tables, ordering: Ordering, args: seq<string>, k: nat,
                      rest: Option<string>, used: seq<string>, operands: seq<string>)
    requires k < |args| && NonOption(args[k]) && Ended(rest) && !ordering.PERMUTE?
    ensures ordering.REQUIRE_ORDER? ==>
              Joined(used, operands, Scan(t, ordering, args, k, rest)) == Run([], used, operands + args[k..])
    ensures ordering.RETURN_IN_ORDER? ==>
              Joined(used, operands, Scan(t, ordering, args, k, rest))
              == WithEvent(Event(1, Some(args[k]), None, None),
                           Joined(used + [args[k]], operands, Scan(t, ordering, args, k + 1, rest)))
  {
    var r := Scan(t, ordering, args, k + 1, rest);
    assert r == Scan(t, ordering, args, k + 1, None);
    assert used + ([args[k]] + r.used) == (used + [args[k]]) + r.used;
  }

  lemma ScanAtOption(t: Tables, ordering: Ordering, args: seq<string>, k: nat, rest: Option<string>)
    requires k < |args| && !NonOption(args[k]) && args[k] != "--" && Ended(rest)
    ensures StartOf(t, args[k]) != ""
    ensures Scan(t, ordering, args, k, rest) == Scan(t, ordering, args, k, Some(StartOf(t, args[k])))
  {
  }

  function FirstOrdering(optstring: string, posixly: bool): Ordering {
    if CharAt(optstring, 0) == '-' then RETURN_IN_ORDER
    else if CharAt(optstring, 0) == '+' || posixly then REQUIRE_ORDER
    else PERMUTE
  }

  function SkipMark(optstring: string): string {
    if CharAt(optstring, 0) == '-' || CharAt(optstring, 0) == '+' then optstring[1..] else optstring
  }

  /** The arguments from start on are those used and, from mid on, the operands. */
  ghost predicate Parted(argv: seq<string>, orig: seq<string>, start: nat, mid: nat, used: seq<string>,
                         operands: seq<string>)
  {
    && start <= mid <= |argv| == |orig|
    && argv[..start] == orig[..start] && argv[start..mid] == used && argv[mid..] == operands
  }

  /** What the arguments look like around "--", with and without the exchange. */
  lemma DashDash(a: seq<string>, orig: seq<string>, start: nat, first: nat, last: nat,
                 optind: nat, used: seq<string>, operands: seq<string>)
    requires start <= first <= last <= optind < |a| == |orig| && a[optind] == "--"
    requires a[..start] == orig[..start] && a[optind..] == orig[optind..]
    requires a[start..first] + a[last..optind] == used && a[first..last] == operands
    ensures orig[optind] == "--"
    ensures var b, mid := Exchanged(a, first, last, optind + 1), first + (optind + 1 - last);
            Parted(b, orig, start, mid, used + ["--"], operands + orig[optind + 1..])
    ensures first == last ==> Parted(a, orig, start, optind + 1, used + ["--"], operands + orig[optind + 1..])
  {
    assert a[optind] == a[optind..][0] && orig[optind] == orig[optind..][0];
    assert a[optind + 1..] == a[optind..][1..] && orig[optind + 1..] == orig[optind..][1..];
    ExchangeSorts(a, start, first, last, optind + 1);
    var b, mid := Exchanged(a, first, last, optind + 1), first + (optind + 1 - last);
    assert b[mid..] == b[mid..optind + 1] + b[optind + 1..];
    assert a[last..optind + 1] == a[last..optind] + ["--"];
    if first == last {
      assert a[start..optind + 1] == a[start..first] + a[last..optind] + ["--"];
    }
  }

  lemma ScanStopsAtDashDash(t: Tables, ordering: Ordering, args: seq<string>, k: nat,
                            rest: Option<string>, used: seq<string>, operands: seq<string>)
    requires k < |args| && args[k] == "--" && Ended(rest)
    ensures Joined(used, operands, Scan(t, ordering, args, k, rest))
         == Joined(used + ["--"], operands + args[k + 1..], Run([], [], []))
  {
  }

  lemma OperandNext(argv: seq<string>, orig: seq<string>, start: nat, first: nat, optind: nat, used: seq<string>,
                    operands: seq<string>)
    requires start <= first <= optind < |argv| == |orig| && argv[optind..] == orig[optind..]
    requires argv[first..optind] == operands
    ensures argv[optind] == orig[optind] && argv[first..optind + 1] == operands + [argv[optind]]
    ensures argv[optind + 1..] == orig[optind + 1..]
  {
    assert argv[optind] == argv[optind..][0] && orig[optind] == orig[optind..][0];
    assert argv[optind + 1..] == argv[optind..][1..] && orig[optind + 1..] == orig[optind..][1..];
  }

  lemma ScanPassesOperand(t: Tables, args: seq<string>, k: nat, rest: Option<string>, used: seq<string>,
                          operands: seq<string>)
    requires k < |args| && NonOption(args[k]) && Ended(rest)
    ensures Joined(used, operands, Scan(t, PERMUTE, args, k, rest))
         == Joined(used, operands + [args[k]], Scan(t, PERMUTE, args, k + 1, rest))
  {
    var r' := Scan(t, PERMUTE, args, k + 1, rest);
    assert r' == Scan(t, PERMUTE, args, k + 1, None);
    assert operands + ([args[k]] + r'.operands) == (operands + [args[k]]) + r'.operands;
  }
}
