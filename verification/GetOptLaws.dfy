/** What the left-to-right scan of module GetOpt means, case by case, in terms of the characters of
    the arguments and of the option string. */
module GetOptLaws {
  import opened Options
  import opened GetOpt

  // ----- Which long option an abbreviation stands for -----

  /** The two options would not be handled alike. */
  predicate Differ(o: LongOption, u: LongOption) {
    o.hasArg != u.hasArg || o.flag != u.flag || o.val != u.val
  }

  /** An exact name is found even beside longer ones. */
  lemma ExactNameFound(opts: seq<LongOption>, name: string, longOnly: bool, i: nat)
    requires i < |opts| && opts[i].name == name && forall j :: 0 <= j < i ==> opts[j].name != name
    ensures LongMatch(opts, name, longOnly) == Found(i)
  {
  }

  ghost predicate IsExact(opts: seq<LongOption>, name: string) {
    exists i :: 0 <= i < |opts| && opts[i].name == name
  }

  /** Without an exact name: nothing starts with the text, or two options that do are handled
      differently (under getopt_long_only any two count), or the first one is meant. */
  lemma AbbreviationMatch(opts: seq<LongOption>, name: string, longOnly: bool)
    requires !IsExact(opts, name)
    ensures LongMatch(opts, name, longOnly) == NoMatch <==> forall i :: 0 <= i < |opts| ==> !(name <= opts[i].name)
    ensures LongMatch(opts, name, longOnly) == Ambiguous
            <==> exists i, j :: 0 <= i < j < |opts| && name <= opts[i].name && name <= opts[j].name
                                && (longOnly || Differ(opts[i], opts[j]))
    ensures LongMatch(opts, name, longOnly).Found? ==>
              var f := LongMatch(opts, name, longOnly).index;
              f < |opts| && name <= opts[f].name && forall j :: 0 <= j < f ==> !(name <= opts[j].name)
  {
    hide Clashes;
    AmbiguousPairs(opts, name, longOnly, FirstPrefix(opts, name, 0));
  }

  /** Two options that are handled differently cannot both be handled like the first. */
  lemma AmbiguousPairs(opts: seq<LongOption>, name: string, longOnly: bool, f: nat)
    requires f <= |opts| && (f < |opts| ==> name <= opts[f].name) && forall j :: 0 <= j < f ==> !(name <= opts[j].name)
    ensures (exists j :: f < j < |opts| && Clashes(opts, name, longOnly, f, j))
            <==> exists i, j :: 0 <= i < j < |opts| && name <= opts[i].name && name <= opts[j].name
                                && (longOnly || Differ(opts[i], opts[j]))
  {
    if i, j :| 0 <= i < j < |opts| && name <= opts[i].name && name <= opts[j].name
               && (longOnly || Differ(opts[i], opts[j])) {
      assert f <= i;
      assert Clashes(opts, name, longOnly, f, j) || (f < i && Clashes(opts, name, longOnly, f, i));
    }
    if j :| f < j < |opts| && Clashes(opts, name, longOnly, f, j) {
      assert longOnly || Differ(opts[f], opts[j]);
    }
  }

  // ----- Which elements are tried as long options -----

  /** An unknown or ambiguous long option is reported by '?' with optopt 0. */
  lemma LongOptionFails(t: Tables, text: string, name: string, next: Option<string>)
    requires t.longopts.Some? && text != "" && '=' !in name && name <= text
    requires |text| > |name| ==> text[|name|] == '='
    requires !LongMatch(t.longopts.value, name, t.longOnly).Found?
    ensures Decode(t, "--" + text, text, next) == Decoded(63, None, Some(""), 1, Some(0), None, None)
  {
    NameEndIs(text, name, 0);
  }

  /** Without a table of long options every element is a cluster of short ones. */
  lemma NoLongOptions(t: Tables, text: string, next: Option<string>)
    requires t.longopts.None? && text != ""
    ensures Decode(t, "-" + text, text, next) == DecodeShort(t, text, next)
  {
  }

  /** After a single dash a long option is tried only under getopt_long_only, where a single declared
      character stays a short option, and so does an unknown name that starts with one. */
  lemma SingleDash(t: Tables, text: string, next: Option<string>)
    requires text != "" && text[0] != '-'
    ensures !t.longOnly ==> Decode(t, "-" + text, text, next) == DecodeShort(t, text, next)
    ensures |text| == 1 && text[0] in t.optstring ==> Decode(t, "-" + text, text, next) == DecodeShort(t, text, next)
    ensures t.longopts.Some? && (forall o :: o in t.longopts.value ==> !(UpToEquals(text) <= o.name)) ==>
              Decode(t, "-" + text, text, next)
              == if t.longOnly && text[0] !in t.optstring then Decoded(63, None, Some(""), 1, Some(0), None, None)
                 else DecodeShort(t, text, next)
  {
    UpToEqualsIs(text, 0);
    if t.longopts.Some? && forall o :: o in t.longopts.value ==> !(UpToEquals(text) <= o.name) {
      assert LongMatch(t.longopts.value, UpToEquals(text), t.longOnly) == NoMatch;
    }
  }

  ghost function UpToEquals(s: string): string {
    if s == "" || s[0] == '=' then "" else [s[0]] + UpToEquals(s[1..])
  }

  lemma {:induction false} UpToEqualsIs(s: string, i: nat)
    requires i <= |s|
    ensures s[i..NameEnd(s, i)] == UpToEquals(s[i..])
    decreases |s| - i
  {
    if i < |s| && s[i] != '=' {
      UpToEqualsIs(s, i + 1);
      assert s[i..NameEnd(s, i)] == [s[i]] + s[i + 1..NameEnd(s, i + 1)];
      assert s[i..][1..] == s[i + 1..];
    }
  }

  /** A character that is not declared is reported by '?', with optopt telling which; the rest of the
      element is still looked at. */
  lemma UnknownCharacter(t: Tables, c: char, tail: string, next: Option<string>)
    requires c !in t.optstring || c == ':' || c == ';'
    ensures DecodeShort(t, [c] + tail, next)
         == Decoded(63, None, Some(tail), if tail == "" then 1 else 0, Some(c as int), None, None)
  {
    assert ([c] + tail)[1..] == tail;
  }

  // ----- Whole elements -----

  /** The text of a short element starts behind its dash. */
  lemma ShortElementScanned(t: Tables, ordering: Ordering, args: seq<string>, k: nat, cluster: string)
    requires k < |args| && args[k] == "-" + cluster && cluster != "" && cluster[0] != '-'
    ensures Scan(t, ordering, args, k, None) == ScanOption(t, ordering, args, k, cluster)
  {
    assert args[k][1..] == cluster;
  }

  /** An element of the exact name of a long option without an argument, and what it reports. */
  lemma LongElementScanned(t: Tables, ordering: Ordering, args: seq<string>, k: nat, name: string, i: nat)
    requires k < |args| && args[k] == "--" + name && name != "" && '=' !in name
    requires t.longopts.Some? && i < |t.longopts.value| && t.longopts.value[i].name == name
    requires forall j :: 0 <= j < i ==> t.longopts.value[j].name != name
    requires t.longopts.value[i].hasArg != 1
    ensures var o, after := t.longopts.value[i], Scan(t, ordering, args, k + 1, None);
            var e := if o.flag.Some? then Event(0, None, Some(i), Some((o.flag.value, o.val)))
                     else Event(o.val, None, Some(i), None);
            Scan(t, ordering, args, k, None) == Run([e] + after.events, ["--" + name] + after.used, after.operands)
  {
    hide LongMatch;
    assert args[k][2..] == name;
    ExactNameFound(t.longopts.value, name, t.longOnly, i);
    LongArgument(t, args[k], name, None, NextOf(args, k), i);
    var d := Decode(t, args[k], name, NextOf(args, k));
    assert Scan(t, ordering, args, k, None) == ScanOption(t, ordering, args, k, name);
    assert Scan(t, ordering, args, k + 1, d.rest) == Scan(t, ordering, args, k + 1, None);
    assert args[k..k + 1] == ["--" + name];
  }

  /** The same for a required argument in the next element. */
  lemma LongArgumentScanned(t: Tables, ordering: Ordering, args: seq<string>, k: nat, name: string, i: nat)
    requires k + 1 < |args| && args[k] == "--" + name && name != "" && '=' !in name
    requires t.longopts.Some? && i < |t.longopts.value| && t.longopts.value[i].name == name
    requires forall j :: 0 <= j < i ==> t.longopts.value[j].name != name
    requires t.longopts.value[i].hasArg == 1 && t.longopts.value[i].flag.None?
    ensures var o, after := t.longopts.value[i], Scan(t, ordering, args, k + 2, None);
            Scan(t, ordering, args, k, None)
            == Run([Event(o.val, Some(args[k + 1]), Some(i), None)] + after.events,
                   ["--" + name, args[k + 1]] + after.used, after.operands)
  {
    hide LongMatch;
    assert args[k][2..] == name;
    ExactNameFound(t.longopts.value, name, t.longOnly, i);
    LongArgument(t, args[k], name, None, NextOf(args, k), i);
    var d := Decode(t, args[k], name, NextOf(args, k));
    assert Scan(t, ordering, args, k, None) == ScanOption(t, ordering, args, k, name);
    assert Scan(t, ordering, args, k + 2, d.rest) == Scan(t, ordering, args, k + 2, None);
    assert args[k..k + 2] == ["--" + name, args[k + 1]];
  }

  /** An operand is an element that does not start with a dash, or is only a dash.  With "-" in front
      of the option string it is reported by 1; with "+" there, or by the environment, it ends the
      scan; otherwise it is set aside. */
  lemma OperandScanned(t: Tables, optstring: string, posixly: bool, args: seq<string>, k: nat)
    requires k < |args| && (args[k] == "" || args[k][0] != '-' || args[k] == "-")
    ensures var r, after := Scan(t, FirstOrdering(optstring, posixly), args, k, None),
              Scan(t, FirstOrdering(optstring, posixly), args, k + 1, None);
            if "-" <= optstring then
              r == Run([Event(1, Some(args[k]), None, None)] + after.events, [args[k]] + after.used, after.operands)
            else if "+" <= optstring || posixly then r == Run([], [], args[k..])
            else r == Run(after.events, after.used, [args[k]] + after.operands)
  {
  }

  /** Any other element is an option, or the end of the options; what follows that is operands. */
  lemma OptionsEnd(t: Tables, ordering: Ordering, args: seq<string>, k: nat)
    requires k < |args| && args[k] == "--"
    ensures Scan(t, ordering, args, k, None) == Run([], ["--"], args[k + 1..])
  {
  }

  /** The mark in front of the option string declares nothing. */
  lemma MarkIsSkipped(optstring: string)
    ensures "-" <= optstring || "+" <= optstring ==> optstring == [optstring[0]] + SkipMark(optstring)
    ensures !("-" <= optstring || "+" <= optstring) ==> SkipMark(optstring) == optstring
  {
  }
}
