/** The readers that undo quoting: C string literals and shell words. */
module QuotingReaders {
  import opened Options
  import opened Quoting

  function Cons(c: char, r: Option<string>): Option<string> {
    if r.None? then None else Some([c] + r.value)
  }

  // ----- C string literals (ISO C99, section 6.4.4.4 and 6.4.5) -----

  predicate IsOctal(c: char) {
    '0' <= c <= '7'
  }

  function DigitValue(c: char): nat
    requires IsOctal(c)
  {
    c as int - 48
  }

  function LetterValue(c: char): Option<char> {
    match c
    case 'a' => Some('\U{07}')
    case 'b' => Some('\U{08}')
    case 'f' => Some('\U{0C}')
    case 'n' => Some('\n')
    case 'r' => Some('\r')
    case 't' => Some('\t')
    case 'v' => Some('\U{0B}')
    case _ => None
  }

  function HexValue(c: char): Option<nat> {
    if '0' <= c <= '9' then Some(c as int - '0' as int)
    else if 'a' <= c <= 'f' then Some(c as int - 'a' as int + 10)
    else if 'A' <= c <= 'F' then Some(c as int - 'A' as int + 10)
    else None
  }

  /** The longest run of hexadecimal digits from index i on: its value and its end. */
  function ReadHex(s: string, i: nat, value: nat): (r: (nat, nat))
    requires i <= |s|
    ensures i <= r.1 <= |s|
    decreases |s| - i
  {
    if i == |s| || HexValue(s[i]).None? then (value, i)
    else ReadHex(s, i + 1, 16 * value + HexValue(s[i]).value)
  }

  /** The characters that mean something else after a backslash: octal and hexadecimal escapes, the
      letter escapes and universal character names. */
  predicate HasMeaning(c: char) {
    IsOctal(c) || LetterValue(c).Some? || c == 'x' || c == 'u' || c == 'U'
  }

  /** One escape sequence, at the start of s: its value and its length.  An octal escape takes up
      to three digits, a hexadecimal one as many as there are; universal character names are not
      read; a backslash before any other character stands for that character. */
  function ReadEscape(s: string): (r: Option<(char, nat)>)
    requires s != "" && s[0] == '\\'
    ensures r.Some? ==> 2 <= r.value.1 <= |s|
  {
    if |s| < 2 then None
    else if IsOctal(s[1]) then
      var d := DigitValue(s[1]);
      if |s| < 3 || !IsOctal(s[2]) then Some((d as char, 2))
      else
        var e := 8 * d + DigitValue(s[2]);
        if |s| < 4 || !IsOctal(s[3]) then Some((e as char, 3))
        else
          var f := 8 * e + DigitValue(s[3]);
          if f < 256 then Some((f as char, 4)) else None
    else if LetterValue(s[1]).Some? then Some((LetterValue(s[1]).value, 2))
    else if s[1] == 'x' then
      var (value, end) := ReadHex(s, 2, 0);
      if end > 2 && value < 256 then Some((value as char, end)) else None
    else if HasMeaning(s[1]) || s[1] == '\n' then None
    else Some((s[1], 2))
  }

  /** The characters of a literal up to its closing quote, and then the literals that follow it;
      without quotes, the characters up to the end. */
  function ReadChars(s: string, quoted: bool): Option<string>
    decreases |s|
  {
    if s == "" then if quoted then None else Some("")
    else if quoted && s[0] == '"' then ReadLiterals(s[1..])
    else if s[0] == '\n' then None
    else if s[0] == '\\' then
      var e := ReadEscape(s);
      if e.None? then None else Cons(e.value.0, ReadChars(s[e.value.1..], quoted))
    else Cons(s[0], ReadChars(s[1..], quoted))
  }

  /** Adjacent literals are joined. */
  function ReadLiterals(s: string): Option<string>
    decreases |s|
  {
    if s == "" then Some("") else if s[0] == '"' then ReadChars(s[1..], true) else None
  }

  /** The C reader; what does not start with a quote stands for itself. */
  function ReadC(s: string): Option<string> {
    if s != "" && s[0] == '"' then ReadLiterals(s) else Some(s)
  }

  /** The caller asks for no character to be quoted that a backslash would change. */
  ghost predicate NoMeaning(too: set<char>) {
    forall c :: c in too ==> !HasMeaning(c)
  }

  ghost function Close(p: Pass): string {
    if p.style == C then "\"" else ""
  }

  /** A piece of backslash output is never empty, and starts with a digit only for a digit. */
  lemma {:induction false} FirstDigit(p: Pass, arg: seq<uchar>, i: nat)
    requires !p.elide && p.BackslashEscapes() && i <= |arg|
    ensures Body(p, arg, i).Some?
    ensures var s := Body(p, arg, i).value + Close(p);
            s != "" && IsDigit(s[0]) ==> i < |arg| && IsDigit(arg[i])
  {
    AlwaysFits(p, arg, i);
  }

  /** Reading an escape in front of any text. */
  lemma EscapeReads(e: string, tail: string, quoted: bool, c: char)
    requires |e| >= 2 && e[0] == '\\' && ReadEscape(e + tail) == Some((c, |e|))
    ensures ReadChars(e + tail, quoted) == Cons(c, ReadChars(tail, quoted))
  {
    assert (e + tail)[|e|..] == tail;
  }

  lemma CharReads(c: char, tail: string, quoted: bool)
    requires c != '\\' && c != '\n' && !(quoted && c == '"')
    ensures ReadChars([c] + tail, quoted) == Cons(c, ReadChars(tail, quoted))
  {
    assert ([c] + tail)[1..] == tail;
  }

  /** A character that is written as it is, or after a backslash because the caller wants that. */
  lemma OrdinaryReads(p: Pass, c: uchar, tail: string, quoted: bool)
    requires p.BackslashEscapes() && NoMeaning(p.too)
    requires c != '\\' && c != '\n' && !(quoted && c == '"')
    ensures var out := if c in p.too then ['\\', c] else [c];
            ReadChars(out + tail, quoted) == Cons(c, ReadChars(tail, quoted))
  {
    if c in p.too {
      assert !HasMeaning(c);
      EscapeReads(['\\', c], tail, quoted, c);
    } else {
      CharReads(c, tail, quoted);
    }
  }

  lemma OctalReads(c: uchar, tail: string, quoted: bool)
    ensures ReadChars("\\" + Octal(c) + tail, quoted) == Cons(c, ReadChars(tail, quoted))
  {
    var e := "\\" + Octal(c);
    var s := e + tail;
    assert s[1] == Digit(c as int / 64) && s[2] == Digit(c as int / 8 % 8) && s[3] == Digit(c as int % 8);
    assert 64 * (c as int / 64) + 8 * (c as int / 8 % 8) + c as int % 8 == c as int;
    EscapeReads(e, tail, quoted, c);
  }

  /** A null byte, written with as many zeros as the next character requires. */
  lemma NullReads(zeros: string, tail: string, quoted: bool)
    requires zeros == "\\000" || (zeros == "\\0" && (tail == "" || !IsDigit(tail[0])))
    ensures ReadChars(zeros + tail, quoted) == Cons('\0', ReadChars(tail, quoted))
  {
    EscapeReads(zeros, tail, quoted, '\0');
  }

  lemma TrigraphReads(s: string)
    ensures ReadChars("?\"\"?" + s, true) == Cons('?', Cons('?', ReadChars(s, true)))
  {
    var t := "\"\"?" + s;
    assert "?\"\"?" + s == ['?'] + t;
    CharReads('?', t, true);
    assert t[1..] == "\"?" + s && t[1..][1..] == ['?'] + s;
    CharReads('?', s, true);
  }

  lemma SplitReads(p: Pass, x: uchar, tail: string)
    requires !p.elide && p.style == C && NoMeaning(p.too) && x in TRIGRAPH_ENDS
    ensures ReadChars(Ordinary(p, x, "?\"\"?", 0).out + tail, true)
         == Cons('?', Cons('?', Cons(x, ReadChars(tail, true))))
  {
    hide ReadChars;
    var out := if x in p.too then ['\\', x] else [x];
    OrdinaryReads(p, x, tail, true);
    TrigraphReads(out + tail);
    assert Ordinary(p, x, "?\"\"?", 0).out + tail == "?\"\"?" + (out + tail);
  }

  /** A letter escape, a backslash or a quote, behind a backslash. */
  lemma BackslashReads(c: char, e: char, tail: string, quoted: bool)
    requires LetterEscape(c) == Some(e) || (c == e && (c == '\\' || c == '"'))
    ensures ReadChars(['\\', e] + tail, quoted) == Cons(c, ReadChars(tail, quoted))
  {
    EscapeReads(['\\', e], tail, quoted, c);
  }

  lemma ZeroIsOctal(too: set<char>)
    requires NoMeaning(too)
    ensures '0' !in too
  {
  }

  /** Reading one piece in front of the rest of the output. */
  lemma {:induction false} PieceReads(p: Pass, arg: seq<uchar>, i: nat, tail: string)
    requires !p.elide && p.BackslashEscapes() && NoMeaning(p.too) && i < |arg|
    requires PieceAt(p, arg, i).Emit?
    requires tail != "" && IsDigit(tail[0]) ==>
               PieceAt(p, arg, i).next < |arg| && IsDigit(arg[PieceAt(p, arg, i).next])
    requires ReadChars(tail, p.style == C) == Some(arg[PieceAt(p, arg, i).next..])
    ensures ReadChars(PieceAt(p, arg, i).out + tail, p.style == C) == Some(arg[i..])
  {
    hide ReadChars, ReadEscape, HasMeaning;
    var c, quoted := arg[i], p.style == C;
    var piece := PieceAt(p, arg, i);
    assert arg[i..] == [c] + arg[i + 1..];
    if c == '"' && p.style == C {
      BackslashReads(c, c, tail, quoted);
    } else if c == '\0' {
      ZeroIsOctal(p.too);
      NullReads(piece.out, tail, quoted);
    } else if p.style == C && p.flags.splitTrigraphs && Trigraph(arg, i) {
      SplitReads(p, arg[i + 2], tail);
      assert arg[i..] == ['?'] + (['?'] + ([arg[i + 2]] + arg[i + 3..]));
    } else if c == '\\' {
      BackslashReads(c, c, tail, quoted);
    } else if LetterEscape(c).Some? {
      BackslashReads(c, LetterEscape(c).value, tail, quoted);
    } else if Unlisted(c) && !p.isprint(c) {
      OctalReads(c, tail, quoted);
    } else {
      OrdinaryReads(p, c, tail, quoted);
      assert "" + ['\\', c] == ['\\', c] && "" + [c] == [c];
    }
  }

  lemma {:induction false} BodyReads(p: Pass, arg: seq<uchar>, i: nat)
    requires !p.elide && p.BackslashEscapes() && NoMeaning(p.too) && i <= |arg|
    ensures Body(p, arg, i).Some?
    ensures ReadChars(Body(p, arg, i).value + Close(p), p.style == C) == Some(arg[i..])
    decreases |arg| - i
  {
    AlwaysFits(p, arg, i);
    if i < |arg| {
      var piece := PieceAt(p, arg, i);
      BodyReads(p, arg, piece.next);
      FirstDigit(p, arg, piece.next);
      var tail := Body(p, arg, piece.next).value + Close(p);
      PieceReads(p, arg, i, tail);
      assert Body(p, arg, i).value + Close(p) == piece.out + tail;
    } else {
      assert "" + Close(p) == Close(p);
      assert "\""[1..] == "" && arg[i..] == [];
      assert ReadLiterals("") == Some("");
    }
  }

  /** Output in outer quotes, or in the escape style, is read back as the argument. */
  lemma QuotedReads(p: Pass, arg: seq<uchar>)
    requires !p.elide && p.BackslashEscapes() && NoMeaning(p.too)
    ensures p.style == C ==> ReadC(Quoted(p, arg)) == Some(arg)
    ensures p.style == ESCAPE ==> ReadChars(Quoted(p, arg), false) == Some(arg)
  {
    BodyReads(p, arg, 0);
    var body := Body(p, arg, 0).value;
    if p.style == C {
      assert Quoted(p, arg) == ['"'] + (body + "\"");
    } else {
      assert Quoted(p, arg) == body + "";
    }
    assert arg[0..] == arg;
  }

  /** Without outer quotes the C styles leave every character as it is, and write no quote. */
  lemma {:induction false} ElidedIsArgument(p: Pass, arg: seq<uchar>, i: nat)
    requires p.elide && p.style == C && i <= |arg| && Body(p, arg, i).Some?
    ensures Body(p, arg, i).value == arg[i..] && '"' !in arg[i..]
    decreases |arg| - i
  {
    if i < |arg| {
      ElidedIsArgument(p, arg, PieceAt(p, arg, i).next);
      assert arg[i..] == [arg[i]] + arg[i + 1..];
    }
  }

  /** The reader of the style gives back the argument. */
  ghost predicate ReadsBack(style: Style, out: string, arg: seq<uchar>) {
    if style == ESCAPE then ReadChars(out, false) == Some(arg) else ReadC(out) == Some(arg)
  }

  /** The C family undoes quoting: the reader gives back the argument, null bytes included; and
      output that does not start with a quote is the argument itself. */
  lemma CFamilyRoundTrip(style: Style, flags: Flags, too: set<char>, isprint: uchar -> bool, arg: seq<uchar>)
    requires style == C || style == C_MAYBE || style == ESCAPE
    requires style == C_MAYBE || (style == C && flags.elideOuterQuotes) || NoMeaning(too)
    ensures var out := Output(style, flags, too, isprint, arg);
            && ReadsBack(style, out, arg)
            && (style != ESCAPE && !(out != "" && out[0] == '"') ==> out == arg)
  {
    var p := FirstPass(style, flags, too, isprint);
    if p.elide && Elidable(p, arg) {
      ElidedIsArgument(p, arg, 0);
      assert arg[0..] == arg;
    } else {
      QuotedReads(if p.elide then SecondPass(p) else p, arg);
    }
  }

  /** A character that a backslash changes is not read back when it is quoted on request. */
  lemma MeaningFails(style: Style, flags: Flags, too: set<char>, isprint: uchar -> bool, c: uchar)
    requires style == C || style == ESCAPE
    requires !FirstPass(style, flags, too, isprint).elide && c in too && HasMeaning(c)
    ensures !ReadsBack(style, Output(style, flags, too, isprint, [c]), [c])
  {
    var p := FirstPass(style, flags, too, isprint);
    assert Body(p, [c], 1) == Some("");
    assert PieceAt(p, [c], 0) == Emit(['\\', c], 1);
    var e: string, tail := ['\\', c], Close(p);
    assert e + "" == e;
    assert Body(p, [c], 0) == Some(e);
    EscapeMisreads(c, tail, style == C);
    if style == C {
      var out := Quoted(p, [c]);
      assert out == ['"'] + (e + tail) && out[1..] == e + tail;
    } else {
      assert Quoted(p, [c]) == e + tail;
    }
  }

  lemma EscapeMisreads(c: uchar, tail: string, quoted: bool)
    requires HasMeaning(c) && tail == (if quoted then "\"" else "")
    ensures ReadChars(['\\', c] + tail, quoted) != Some([c])
  {
    var s := ['\\', c] + tail;
    assert s[2..] == tail && (quoted ==> tail[1..] == "");
    assert ReadLiterals("") == Some("");
    assert ReadChars(tail, quoted) == Some("");
    var e := ReadEscape(s);
    if e.Some? {
      assert e.value.1 == 2 && e.value.0 != c;
      assert ReadChars(s, quoted).value[0] == e.value.0;
    }
  }

  /** Every argument is read back if and only if the caller asks for no character to be quoted that
      means something else after a backslash, or outer quotes are elided, which makes quoting on request unnecessary. */
  lemma CFamilyRoundTripExactly(style: Style, flags: Flags, too: set<char>, isprint: uchar -> bool)
    requires style == C || style == C_MAYBE || style == ESCAPE
    ensures (forall arg: seq<uchar> :: ReadsBack(style, Output(style, flags, too, isprint, arg), arg))
            <==> style == C_MAYBE || (style == C && flags.elideOuterQuotes) || NoMeaning(too)
  {
    if style == C_MAYBE || (style == C && flags.elideOuterQuotes) || NoMeaning(too) {
      forall arg: seq<uchar> ensures ReadsBack(style, Output(style, flags, too, isprint, arg), arg) {
        CFamilyRoundTrip(style, flags, too, isprint, arg);
      }
    } else {
      var c :| c in too && HasMeaning(c);
      var u: uchar := c;
      MeaningFails(style, flags, too, isprint, u);
    }
  }

  // ----- Trigraphs -----

  /** The last characters of trigraphs (ISO C99, section 5.2.1.1). */
  predicate EndsTrigraph(c: char) {
    c == '=' || c == '(' || c == '/' || c == ')' || c == '\'' || c == '<' || c == '!' || c == '>' || c == '-'
  }

  ghost predicate TrigraphAt(s: string, k: nat) {
    k + 2 < |s| && s[k] == '?' && s[k + 1] == '?' && EndsTrigraph(s[k + 2])
  }

  ghost predicate NoTrigraph(s: string) {
    forall k: nat :: !TrigraphAt(s, k)
  }

  lemma {:induction false} PieceStarts(p: Pass, arg: seq<uchar>, i: nat)
    requires !p.elide && p.style == C && p.flags.splitTrigraphs && i < |arg|
    ensures PieceAt(p, arg, i).Emit?
    ensures var out := PieceAt(p, arg, i).out;
            && out != "" && (out[0] in TRIGRAPH_ENDS ==> arg[i] == out[0])
            && (out[0] == '?' ==>
                  || (out == "?" && arg[i] == '?' && PieceAt(p, arg, i).next == i + 1)
                  || (|out| >= 2 && out[1] == '"'))
  {
  }

  /** How the output from position i on starts. */
  lemma {:induction false} BodyStarts(p: Pass, arg: seq<uchar>, i: nat)
    requires !p.elide && p.style == C && p.flags.splitTrigraphs && i <= |arg|
    ensures Body(p, arg, i).Some?
    ensures var s := Body(p, arg, i).value + "\"";
            && s != ""
            && (s[0] in TRIGRAPH_ENDS ==> i < |arg| && arg[i] == s[0])
            && (|s| >= 2 && s[0] == '?' && s[1] != '"' ==>
                  i < |arg| && arg[i] == '?' && Body(p, arg, i + 1).Some? && s[1..] == Body(p, arg, i + 1).value + "\"")
  {
    hide PieceAt;
    AlwaysFits(p, arg, i);
    if i < |arg| {
      var piece := PieceAt(p, arg, i);
      PieceStarts(p, arg, i);
      AlwaysFits(p, arg, piece.next);
      var s := Body(p, arg, i).value + "\"";
      assert s == piece.out + (Body(p, arg, piece.next).value + "\"");
    }
  }

  /** After a question mark that is not split, the output does not go on to make a trigraph. */
  lemma {:induction false} NoTrigraphAfter(p: Pass, arg: seq<uchar>, i: nat)
    requires !p.elide && p.style == C && p.flags.splitTrigraphs && i < |arg| && arg[i] == '?' && !Trigraph(arg, i)
    ensures Body(p, arg, i + 1).Some?
    ensures var rest := Body(p, arg, i + 1).value + "\"";
            !(|rest| >= 2 && rest[0] == '?' && rest[1] in TRIGRAPH_ENDS)
  {
    BodyStarts(p, arg, i + 1);
    if i + 2 <= |arg| {
      BodyStarts(p, arg, i + 2);
    }
  }

  /** A piece writes a question mark only for a question mark: as its last character, or in the
      way that splits a trigraph. */
  lemma {:induction false} PieceMarks(p: Pass, arg: seq<uchar>, i: nat, k: nat)
    requires !p.elide && p.style == C && p.flags.splitTrigraphs && i < |arg|
    requires PieceAt(p, arg, i).Emit? && k < |PieceAt(p, arg, i).out| && PieceAt(p, arg, i).out[k] == '?'
    ensures var out := PieceAt(p, arg, i).out;
            || (arg[i] == '?' && !Trigraph(arg, i) && k == |out| - 1 && PieceAt(p, arg, i).next == i + 1)
            || (k + 1 < |out| && out[k + 1] != '?')
  {
    if Unlisted(arg[i]) && !p.isprint(arg[i]) {
      var o := Octal(arg[i]);
      assert o[0] != '?' && o[1] != '?' && o[2] != '?';
    }
  }

  /** Between two pieces no trigraph can arise: its first two characters would be argument
      characters, and so would the third, and then the piece would have been split. */
  lemma {:induction false} BodyHasNoTrigraph(p: Pass, arg: seq<uchar>, i: nat)
    requires !p.elide && p.style == C && p.flags.splitTrigraphs && i <= |arg|
    ensures Body(p, arg, i).Some? && NoTrigraph(Body(p, arg, i).value + "\"")
    decreases |arg| - i
  {
    AlwaysFits(p, arg, i);
    if i < |arg| {
      var piece := PieceAt(p, arg, i);
      BodyHasNoTrigraph(p, arg, piece.next);
      var rest := Body(p, arg, piece.next).value + "\"";
      assert Body(p, arg, i).value + "\"" == piece.out + rest;
      forall k: nat | k < |piece.out| && piece.out[k] == '?' ensures !TrigraphAt(piece.out + rest, k) {
        PieceMarks(p, arg, i, k);
        if arg[i] == '?' && !Trigraph(arg, i) {
          NoTrigraphAfter(p, arg, i);
        }
      }
      Shifted(piece.out, rest);
    }
  }

  lemma Shifted(out: string, rest: string)
    requires NoTrigraph(rest) && forall k: nat :: k < |out| && out[k] == '?' ==> !TrigraphAt(out + rest, k)
    ensures NoTrigraph(out + rest)
  {
    forall k: nat ensures !TrigraphAt(out + rest, k) {
      if k >= |out| {
        assert !TrigraphAt(rest, k - |out|);
      }
    }
  }

  /** Text without quotes that came out of the C styles has no trigraph either. */
  lemma {:induction false} ElidedHasNoTrigraph(p: Pass, arg: seq<uchar>, i: nat)
    requires p.elide && p.style == C && p.flags.splitTrigraphs && i <= |arg| && Body(p, arg, i).Some?
    ensures forall k: nat :: i <= k ==> !TrigraphAt(arg, k)
    decreases |arg| - i
  {
    if i < |arg| {
      ElidedHasNoTrigraph(p, arg, i + 1);
      assert Trigraph(arg, i) <==> TrigraphAt(arg, i);
    }
  }

  /** When trigraphs are to be split, the C styles write none. */
  lemma OutputHasNoTrigraph(style: Style, flags: Flags, too: set<char>, isprint: uchar -> bool, arg: seq<uchar>)
    requires (style == C || style == C_MAYBE) && flags.splitTrigraphs
    ensures NoTrigraph(Output(style, flags, too, isprint, arg))
  {
    var p := FirstPass(style, flags, too, isprint);
    if p.elide && Elidable(p, arg) {
      ElidedIsArgument(p, arg, 0);
      ElidedHasNoTrigraph(p, arg, 0);
      assert arg[0..] == arg;
    } else {
      var q := if p.elide then SecondPass(p) else p;
      BodyHasNoTrigraph(q, arg, 0);
      assert Quoted(q, arg) == "\"" + (Body(q, arg, 0).value + "\"");
      Shifted("\"", Body(q, arg, 0).value + "\"");
    }
  }

  // ----- Shell words (POSIX.1-2008 XCU, sections 2.2.1 and 2.2.2) -----

  /** Characters that end a word, start an expansion, a pattern or an assignment, or quote in ways
      this reader does not know. */
  predicate Special(c: char) {
    c in {'|', '&', ';', '<', '>', '(', ')', '$', '`', '"', ' ', '\t', '\n', '*', '?', '[', '='}
  }

  function ReadUnquoted(s: string): Option<string>
    decreases |s|
  {
    if s == "" then Some("")
    else if s[0] == '\'' then ReadSingle(s[1..])
    else if s[0] == '\\' then
      if |s| < 2 then None
      else if s[1] == '\n' then ReadUnquoted(s[2..])
      else Cons(s[1], ReadUnquoted(s[2..]))
    else if Special(s[0]) then None
    else Cons(s[0], ReadUnquoted(s[1..]))
  }

  /** Inside single quotes every character stands for itself. */
  function ReadSingle(s: string): Option<string>
    decreases |s|
  {
    if s == "" then None
    else if s[0] == '\'' then ReadUnquoted(s[1..])
    else Cons(s[0], ReadSingle(s[1..]))
  }

  /** The whole text as one word, or None when it is not one plain word: it is empty, a comment, a
      tilde prefix or a brace that stands alone, or it contains a special character. */
  function ReadWord(s: string): Option<string> {
    if s == "" || s == "{" || s == "}" || s[0] == '#' || s[0] == '~' then None
    else ReadUnquoted(s)
  }

  lemma QuoteReads(tail: string)
    ensures ReadSingle("'\\''" + tail) == Cons('\'', ReadSingle(tail))
  {
    var s := "'\\''" + tail;
    var t := "\\''" + tail;
    assert s[1..] == t && t[2..] == "'" + tail && t[2..][1..] == tail;
    assert ReadUnquoted(t[2..]) == ReadSingle(tail);
    assert ReadUnquoted(t) == Cons('\'', ReadUnquoted(t[2..]));
  }

  function WithoutNulls(s: seq<uchar>): seq<uchar> {
    if s == [] then [] else (if s[0] == '\0' then [] else [s[0]]) + WithoutNulls(s[1..])
  }

  /** The argument as it is written without any escapes. */
  function Kept(flags: Flags, arg: seq<uchar>): seq<uchar> {
    if flags.elideNullBytes then WithoutNulls(arg) else arg
  }

  lemma KeptFirst(flags: Flags, arg: seq<uchar>, i: nat)
    requires i < |arg|
    ensures Kept(flags, arg[i..])
         == (if flags.elideNullBytes && arg[i] == '\0' then [] else [arg[i]]) + Kept(flags, arg[i + 1..])
  {
    assert arg[i..] == [arg[i]] + arg[i + 1..] && arg[i..][1..] == arg[i + 1..];
  }

  lemma {:induction false} WithoutNullsItems(s: seq<uchar>, c: uchar)
    ensures c in WithoutNulls(s) <==> c in s && c != '\0'
  {
    if s != [] {
      WithoutNullsItems(s[1..], c);
      assert s == [s[0]] + s[1..];
    }
  }

  lemma {:induction false} NothingDropped(s: seq<uchar>)
    requires '\0' !in s
    ensures WithoutNulls(s) == s
  {
    if s != [] {
      NothingDropped(s[1..]);
      assert s == [s[0]] + s[1..];
    }
  }

  lemma SingleReads(c: char, tail: string)
    requires c != '\''
    ensures ReadSingle([c] + tail) == Cons(c, ReadSingle(tail))
  {
    assert ([c] + tail)[1..] == tail;
  }

  lemma ShellQuotedPiece(p: Pass, arg: seq<uchar>, i: nat)
    requires !p.elide && p.style == SHELL_ALWAYS && i < |arg|
    ensures PieceAt(p, arg, i) == Emit(if p.flags.elideNullBytes && arg[i] == '\0' then ""
                                       else if arg[i] == '\'' then "'\\''" else [arg[i]], i + 1)
  {
    assert "" + [arg[i]] == [arg[i]];
  }

  /** Between single quotes the shell reads the argument, without null bytes if they are elided. */
  lemma {:induction false} SingleQuotedReads(p: Pass, arg: seq<uchar>, i: nat)
    requires !p.elide && p.style == SHELL_ALWAYS && i <= |arg|
    ensures Body(p, arg, i).Some? && ReadSingle(Body(p, arg, i).value + "'") == Some(Kept(p.flags, arg[i..]))
    decreases |arg| - i
  {
    if i < |arg| {
      SingleQuotedReads(p, arg, i + 1);
      hide PieceAt, Kept, ReadSingle;
      KeptFirst(p.flags, arg, i);
      ShellQuotedPiece(p, arg, i);
      var c, tail := arg[i], Body(p, arg, i + 1).value + "'";
      assert Body(p, arg, i).value + "'" == PieceAt(p, arg, i).out + tail;
      if p.flags.elideNullBytes && c == '\0' {
        assert "" + tail == tail && Kept(p.flags, arg[i..]) == Kept(p.flags, arg[i + 1..]);
      } else if c == '\'' {
        QuoteReads(tail);
      } else {
        SingleReads(c, tail);
      }
    } else {
      assert "" + "'" == "'" && "'"[1..] == "" && arg[i..] == [];
      assert ReadUnquoted("") == Some("") && Kept(p.flags, []) == [];
    }
  }

  /** Output between shell quotes is read as one word. */
  lemma QuotedWordReads(p: Pass, arg: seq<uchar>)
    requires !p.elide && p.style == SHELL_ALWAYS
    ensures ReadWord(Quoted(p, arg)) == Some(Kept(p.flags, arg))
  {
    SingleQuotedReads(p, arg, 0);
    assert arg[0..] == arg;
    assert Quoted(p, arg) == ['\''] + (Body(p, arg, 0).value + "'");
    assert Quoted(p, arg)[1..] == Body(p, arg, 0).value + "'";
  }

  lemma {:induction false} ElidedWordReads(p: Pass, arg: seq<uchar>, i: nat)
    requires p.elide && p.style == SHELL_ALWAYS && i <= |arg| && '\0' !in arg && Body(p, arg, i).Some?
    ensures Body(p, arg, i).value == arg[i..] && ReadUnquoted(arg[i..]) == Some(arg[i..])
    ensures i == 0 && arg != [] ==> !ShellForces(arg, 0)
    decreases |arg| - i
  {
    if i < |arg| {
      ElidedWordReads(p, arg, i + 1);
      assert arg[i..] == [arg[i]] + arg[i + 1..];
      assert !ShellForces(arg, i);
    }
  }

  /** Shell quoting round-trips: the shell reads exactly one word, equal to the argument. */
  lemma ShellRoundTrip(style: Style, flags: Flags, too: set<char>, isprint: uchar -> bool, arg: seq<uchar>)
    requires (style == SHELL || style == SHELL_ALWAYS) && '\0' !in arg
    ensures ReadWord(Output(style, flags, too, isprint, arg)) == Some(arg)
  {
    var p := FirstPass(style, flags, too, isprint);
    assert arg[0..] == arg;
    if p.elide && Elidable(p, arg) {
      ElidedWordReads(p, arg, 0);
    } else {
      QuotedWordReads(if p.elide then SecondPass(p) else p, arg);
      NothingDropped(arg);
    }
  }

  // ----- No quotes without need -----

  predicate IsAlnum(c: char) {
    '0' <= c <= '9' || 'A' <= c <= 'Z' || 'a' <= c <= 'z'
  }

  /** A character that no style has to quote. */
  predicate Harmless(c: char) {
    IsAlnum(c) || c in {'%', '+', ',', '-', '.', '/', ':', ']', '_'}
  }

  lemma HarmlessPiece(p: Pass, arg: seq<uchar>, i: nat)
    requires i < |arg| && Harmless(arg[i]) && arg[i] !in p.too
    ensures PieceAt(p, arg, i) == Emit([arg[i]], i + 1)
  {
    assert arg[i] !in SHELL_SPECIALS && !Unlisted(arg[i]) && LetterEscape(arg[i]).None?;
    assert "" + [arg[i]] == [arg[i]];
  }

  lemma {:induction false} HarmlessBody(p: Pass, arg: seq<uchar>, i: nat)
    requires i <= |arg| && forall k :: 0 <= k < |arg| ==> Harmless(arg[k]) && arg[k] !in p.too
    ensures Body(p, arg, i) == Some(arg[i..])
    decreases |arg| - i
  {
    if i < |arg| {
      hide PieceAt, Harmless;
      HarmlessBody(p, arg, i + 1);
      HarmlessPiece(p, arg, i);
      assert arg[i..] == [arg[i]] + arg[i + 1..];
    }
  }

  /** The styles that quote only where it is needed leave harmless arguments alone. */
  lemma HarmlessStaysUnquoted(style: Style, flags: Flags, too: set<char>, isprint: uchar -> bool, arg: seq<uchar>)
    requires style == SHELL || style == C_MAYBE || style == ESCAPE || style == LITERAL
    requires forall k :: 0 <= k < |arg| ==> Harmless(arg[k]) && arg[k] !in too
    ensures arg != [] || style != SHELL ==> Output(style, flags, too, isprint, arg) == arg
    ensures arg == [] && style == SHELL ==> Output(style, flags, too, isprint, arg) == "''"
  {
    var p := FirstPass(style, flags, too, isprint);
    HarmlessBody(p, arg, 0);
    assert arg[0..] == arg;
    if p.elide {
      HarmlessBody(SecondPass(p), arg, 0);
    }
  }
}
