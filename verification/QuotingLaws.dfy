/** What quoted output looks like, style by style: which characters never stand in it, which
    arguments stay as they are, and when quotes are needed. */
module QuotingLaws {
  import opened Options
  import opened Quoting
  import opened QuotingReaders

  // ----- Unprintable characters -----

  /** A control character or a character beyond ASCII that is not printable; the characters with
      letter escapes and the null byte count as such whatever the locale says. */
  predicate Unprintable(isprint: uchar -> bool, c: uchar) {
    && (c as int < 0x20 || c as int >= 0x7F)
    && (!isprint(c) || c as int == 0 || 7 <= c as int <= 13)
  }

  lemma PieceIsPrintable(p: Pass, arg: seq<uchar>, i: nat, c: uchar)
    requires p.BackslashEscapes() && i < |arg| && PieceAt(p, arg, i).Emit? && Unprintable(p.isprint, c)
    ensures c !in PieceAt(p, arg, i).out
  {
    var o := Octal(arg[i]);
    assert IsDigit(o[0]) && IsDigit(o[1]) && IsDigit(o[2]);
  }

  lemma {:induction false} BodyIsPrintable(p: Pass, arg: seq<uchar>, i: nat, c: uchar)
    requires p.BackslashEscapes() && i <= |arg| && Body(p, arg, i).Some? && Unprintable(p.isprint, c)
    ensures c !in Body(p, arg, i).value
    decreases |arg| - i
  {
    if i < |arg| {
      PieceIsPrintable(p, arg, i, c);
      BodyIsPrintable(p, arg, PieceAt(p, arg, i).next, c);
    }
  }

  /** The C styles and the escape style never write an unprintable character. */
  lemma UnprintableIsEscaped(style: Style, flags: Flags, too: set<char>, isprint: uchar -> bool, arg: seq<uchar>,
                             c: uchar)
    requires style == C || style == C_MAYBE || style == ESCAPE
    requires Unprintable(isprint, c)
    ensures c !in Output(style, flags, too, isprint, arg)
  {
    var p := FirstPass(style, flags, too, isprint);
    if p.elide && Elidable(p, arg) {
      BodyIsPrintable(p, arg, 0, c);
    } else {
      var q := if p.elide then SecondPass(p) else p;
      AlwaysFits(q, arg, 0);
      BodyIsPrintable(q, arg, 0, c);
    }
  }

  /** The output for one character in the escape style. */
  lemma OneCharacter(flags: Flags, too: set<char>, isprint: uchar -> bool, c: uchar)
    ensures var p := Pass(ESCAPE, flags, false, too, isprint);
            PieceAt(p, [c], 0).Emit? && PieceAt(p, [c], 0).next == 1
            && Output(ESCAPE, flags, too, isprint, [c]) == PieceAt(p, [c], 0).out
  {
    var p := Pass(ESCAPE, flags, false, too, isprint);
    AlwaysFits(p, [c], 0);
    assert Body(p, [c], 1) == Some("");
    var out := PieceAt(p, [c], 0).out;
    assert out + "" == out && "" + out == out;
  }

  /** It is an octal escape of three digits, unless there is a letter. */
  lemma EscapesWritten(flags: Flags, too: set<char>, isprint: uchar -> bool, c: uchar)
    ensures var out := Output(ESCAPE, flags, too, isprint, [c]);
            && (c as int == 7 ==> out == "\\a")
            && (c as int == 8 ==> out == "\\b")
            && (c as int == 9 ==> out == "\\t")
            && (c as int == 10 ==> out == "\\n")
            && (c as int == 11 ==> out == "\\v")
            && (c as int == 12 ==> out == "\\f")
            && (c as int == 13 ==> out == "\\r")
            && (c == '\\' ==> out == "\\\\")
            && (c as int == 0 && '0' !in too ==> out == "\\0")
            && (Unprintable(isprint, c) && c as int != 0 && !(7 <= c as int <= 13) ==>
                  && |out| == 4 && out[0] == '\\' && IsOctal(out[1]) && IsOctal(out[2]) && IsOctal(out[3])
                  && c as int == 64 * DigitValue(out[1]) + 8 * DigitValue(out[2]) + DigitValue(out[3]))
  {
    OneCharacter(flags, too, isprint, c);
    assert "" + [c] == [c];
    assert c as int == 64 * (c as int / 64) + 8 * (c as int / 8 % 8) + c as int % 8;
  }

  // ----- Printable text -----

  /** Printable ASCII without the characters that C literals treat specially; '@' is not in the basic
      character set of C, so that the locale is asked about it. */
  ghost predicate PlainText(flags: Flags, too: set<char>, isprint: uchar -> bool, arg: seq<uchar>) {
    && (forall i :: 0 <= i < |arg| ==> ' ' <= arg[i] <= '~' && arg[i] != '\\' && arg[i] != '"' && arg[i] !in too)
    && ('@' in arg ==> isprint('@'))
    && (flags.splitTrigraphs ==> NoTrigraph(arg))
  }

  lemma PlainCharacter(p: Pass, arg: seq<uchar>, i: nat)
    requires p.BackslashEscapes() && i < |arg| && PlainText(p.flags, p.too, p.isprint, arg)
    ensures PieceAt(p, arg, i) == Emit([arg[i]], i + 1)
  {
    assert p.flags.splitTrigraphs ==> !TrigraphAt(arg, i);
    assert "" + [arg[i]] == [arg[i]] && arg[i] in arg;
  }

  lemma {:induction false} PlainBody(p: Pass, arg: seq<uchar>, i: nat)
    requires p.BackslashEscapes() && i <= |arg| && PlainText(p.flags, p.too, p.isprint, arg)
    ensures Body(p, arg, i) == Some(arg[i..])
    decreases |arg| - i
  {
    if i < |arg| {
      hide PieceAt, PlainText;
      PlainBody(p, arg, i + 1);
      PlainCharacter(p, arg, i);
      assert arg[i..] == [arg[i]] + arg[i + 1..];
    } else {
      assert arg[i..] == [];
    }
  }

  /** Plain text stays as it is: between quotes in style C, unless they are elided. */
  lemma PlainTextStays(style: Style, flags: Flags, too: set<char>, isprint: uchar -> bool, arg: seq<uchar>)
    requires style == C || style == C_MAYBE || style == ESCAPE
    requires PlainText(flags, too, isprint, arg)
    ensures Output(style, flags, too, isprint, arg)
         == if style == C && !flags.elideOuterQuotes then "\"" + arg + "\"" else arg
  {
    var p := FirstPass(style, flags, too, isprint);
    PlainBody(p, arg, 0);
    assert arg[0..] == arg && "" + arg + "" == arg;
  }

  // ----- Literal output -----

  lemma {:induction false} LiteralBody(p: Pass, arg: seq<uchar>, i: nat)
    requires p.style == LITERAL && !p.elide && i <= |arg|
    ensures Body(p, arg, i) == Some(Kept(p.flags, arg[i..]))
    decreases |arg| - i
  {
    if i < |arg| {
      LiteralBody(p, arg, i + 1);
      KeptFirst(p.flags, arg, i);
      hide Kept;
      assert "" + [arg[i]] == [arg[i]];
    } else {
      assert arg[i..] == [];
    }
  }

  /** Literal output is the argument, apart from null bytes that are to be elided. */
  lemma LiteralIsArgument(flags: Flags, too: set<char>, isprint: uchar -> bool, arg: seq<uchar>)
    ensures Output(LITERAL, flags, too, isprint, arg) == if flags.elideNullBytes then WithoutNulls(arg) else arg
  {
    LiteralBody(FirstPass(LITERAL, flags, too, isprint), arg, 0);
    assert arg[0..] == arg;
    var kept := Kept(flags, arg);
    assert "" + kept + "" == kept;
  }

  // ----- When a shell word needs quotes -----

  /** The character at position i can stand in an unquoted shell word that is the whole output. */
  ghost predicate ShellFree(flags: Flags, too: set<char>, arg: seq<uchar>, i: nat)
    requires i < |arg|
  {
    || (arg[i] == '\0' && flags.elideNullBytes)
    || (arg[i] !in {'\t', '\n', '\r', ' ', '!', '"', '$', '&', '\'', '(', ')', '*', ';', '<', '=', '>', '?', '[',
                    '\\', '^', '`', '|'}
        && arg[i] !in too
        && !(i == 0 && (arg[i] == '#' || arg[i] == '~'))
        && !(|arg| == 1 && (arg[i] == '{' || arg[i] == '}')))
  }

  lemma {:induction false} ShellBody(p: Pass, arg: seq<uchar>, i: nat)
    requires p.style == SHELL_ALWAYS && p.elide && i <= |arg|
    ensures (forall k :: i <= k < |arg| ==> ShellFree(p.flags, p.too, arg, k))
            ==> Body(p, arg, i) == Some(Kept(p.flags, arg[i..]))
    ensures !(forall k :: i <= k < |arg| ==> ShellFree(p.flags, p.too, arg, k)) ==> Body(p, arg, i).None?
    decreases |arg| - i
  {
    if i < |arg| {
      ShellBody(p, arg, i + 1);
      KeptFirst(p.flags, arg, i);
      ShellPiece(p, arg, i);
      hide PieceAt, ShellFree, Kept;
    } else {
      assert arg[i..] == [];
    }
  }

  lemma ShellPiece(p: Pass, arg: seq<uchar>, i: nat)
    requires p.style == SHELL_ALWAYS && p.elide && i < |arg|
    ensures PieceAt(p, arg, i) == if !ShellFree(p.flags, p.too, arg, i) then Force
                                  else if p.flags.elideNullBytes && arg[i] == '\0' then Emit("", i + 1)
                                  else Emit([arg[i]], i + 1)
  {
    assert "" + [arg[i]] == [arg[i]];
  }

  /** Exactly when every character is free and something is left, a shell word goes unquoted; else it
      is quoted as by shell-always, where requests no longer matter. */
  lemma ShellQuotesExactly(flags: Flags, too: set<char>, isprint: uchar -> bool, arg: seq<uchar>)
    ensures Output(SHELL, flags, too, isprint, arg)
         == if (forall i :: 0 <= i < |arg| ==> ShellFree(flags, too, arg, i)) && Kept(flags, arg) != "" then
              Kept(flags, arg)
            else Output(SHELL_ALWAYS, flags.(elideOuterQuotes := false), {}, isprint, arg)
  {
    ShellBody(FirstPass(SHELL, flags, too, isprint), arg, 0);
    assert arg[0..] == arg;
  }

  // ----- When C output needs quotes -----

  /** The character at position i can stand in C output without quotes. */
  ghost predicate CFree(flags: Flags, too: set<char>, isprint: uchar -> bool, arg: seq<uchar>, i: nat)
    requires i < |arg|
  {
    var c := arg[i];
    && c != '"' && c as int != 0 && !(7 <= c as int <= 13)
    && !(flags.splitTrigraphs && TrigraphAt(arg, i))
    && (c == '\\' || (c !in too && (isprint(c) || (' ' <= c <= '~' && c != '@'))))
  }

  lemma CFreePiece(p: Pass, arg: seq<uchar>, i: nat)
    requires p.style == C && p.elide && i < |arg|
    ensures PieceAt(p, arg, i) == if CFree(p.flags, p.too, p.isprint, arg, i) then Emit([arg[i]], i + 1) else Force
  {
    assert "" + [arg[i]] == [arg[i]];
    assert Trigraph(arg, i) <==> TrigraphAt(arg, i);
  }

  lemma {:induction false} CFreeBody(p: Pass, arg: seq<uchar>, i: nat)
    requires p.style == C && p.elide && i <= |arg|
    ensures (forall k :: i <= k < |arg| ==> CFree(p.flags, p.too, p.isprint, arg, k))
            ==> Body(p, arg, i) == Some(arg[i..])
    ensures !(forall k :: i <= k < |arg| ==> CFree(p.flags, p.too, p.isprint, arg, k)) ==> Body(p, arg, i).None?
    decreases |arg| - i
  {
    if i < |arg| {
      CFreeBody(p, arg, i + 1);
      CFreePiece(p, arg, i);
      hide PieceAt, CFree;
      assert arg[i..] == [arg[i]] + arg[i + 1..];
    } else {
      assert arg[i..] == [];
    }
  }

  /** Exactly when every character is free, c-maybe leaves the argument as it is; else it quotes it as
      style C does, where requests no longer matter. */
  lemma CMaybeQuotesExactly(flags: Flags, too: set<char>, isprint: uchar -> bool, arg: seq<uchar>)
    ensures Output(C_MAYBE, flags, too, isprint, arg)
         == if forall i :: 0 <= i < |arg| ==> CFree(flags, too, isprint, arg, i) then arg
            else Output(C, flags.(elideOuterQuotes := false), {}, isprint, arg)
  {
    CFreeBody(FirstPass(C_MAYBE, flags, too, isprint), arg, 0);
    assert arg[0..] == arg;
  }

  /** With the flag that elides outer quotes the other two styles quote only when needed, too; without
      it they always do. */
  lemma OuterQuotes(flags: Flags, too: set<char>, isprint: uchar -> bool, arg: seq<uchar>)
    ensures flags.elideOuterQuotes ==> Output(C, flags, too, isprint, arg) == Output(C_MAYBE, flags, too, isprint, arg)
    ensures flags.elideOuterQuotes ==>
              Output(SHELL_ALWAYS, flags, too, isprint, arg) == Output(SHELL, flags, too, isprint, arg)
    ensures !flags.elideOuterQuotes ==> Between('"', Output(C, flags, too, isprint, arg))
    ensures !flags.elideOuterQuotes ==> Between('\'', Output(SHELL_ALWAYS, flags, too, isprint, arg))
  {
  }

  predicate Between(q: char, out: string) {
    |out| >= 2 && out[0] == q && out[|out| - 1] == q
  }

  /** A character that is to be quoted on request never stands in unquoted output of the styles that
      quote when needed, with one exception. */
  lemma RequestsAreQuoted(style: Style, flags: Flags, too: set<char>, isprint: uchar -> bool, arg: seq<uchar>, c: uchar)
    requires style == SHELL || (style == C_MAYBE && c != '\\')
    requires c in too
    ensures var out := Output(style, flags, too, isprint, arg);
            c !in out || Between(if style == SHELL then '\'' else '"', out)
  {
    var plain := flags.(elideOuterQuotes := false);
    OuterQuotes(plain, {}, isprint, arg);
    if style == SHELL {
      ShellQuotesExactly(flags, too, isprint, arg);
      WithoutNullsItems(arg, c);
      if i :| 0 <= i < |arg| && arg[i] == c {
        assert c != '\0' || !flags.elideNullBytes ==> !ShellFree(flags, too, arg, i);
      }
    } else {
      CMaybeQuotesExactly(flags, too, isprint, arg);
      if i :| 0 <= i < |arg| && arg[i] == c {
        assert !CFree(flags, too, isprint, arg, i);
      }
    }
  }

  /** The exception: a request to quote backslashes does not make c-maybe add quotes. */
  lemma BackslashStaysUnquoted(flags: Flags, isprint: uchar -> bool)
    ensures Output(C_MAYBE, flags, {'\\'}, isprint, ['\\']) == ['\\']
  {
    CMaybeQuotesExactly(flags, {'\\'}, isprint, ['\\']);
  }

  // ----- Null bytes in shell words -----

  /** The word is not read as it stands: it would be a comment, a tilde prefix or a reserved word. */
  predicate Misread(s: string) {
    s != "" && (s[0] == '#' || s[0] == '~' || s == "{" || s == "}")
  }

  lemma {:induction false} PlainWordReads(s: string)
    requires forall k :: 0 <= k < |s| ==> s[k] != '\'' && s[k] != '\\' && !Special(s[k])
    ensures ReadUnquoted(s) == Some(s)
  {
    if s != "" {
      PlainWordReads(s[1..]);
      assert s == [s[0]] + s[1..];
    }
  }

  /** Characters in an unquoted word. */
  lemma FreeWordReads(flags: Flags, too: set<char>, arg: seq<uchar>)
    requires forall i :: 0 <= i < |arg| ==> ShellFree(flags, too, arg, i)
    ensures ReadUnquoted(Kept(flags, arg)) == Some(Kept(flags, arg))
    ensures !flags.elideNullBytes ==> !Misread(arg)
  {
    var kept := Kept(flags, arg);
    forall k | 0 <= k < |kept| ensures kept[k] != '\'' && kept[k] != '\\' && !Special(kept[k]) {
      var c: uchar := kept[k];
      WithoutNullsItems(arg, c);
      assert c in kept;
      var i :| 0 <= i < |arg| && arg[i] == c;
      assert ShellFree(flags, too, arg, i);
    }
    PlainWordReads(kept);
    if arg != [] {
      assert ShellFree(flags, too, arg, 0);
    }
  }

  /** An argument with null bytes: they are kept, or dropped where they are to be elided, and the rest
      is read as one word, unless quotes are left out and what is kept starts with a character that
      only matters at the start of a word; where such a character stands is judged before the null
      bytes are dropped. */
  lemma ShellRoundTripExactly(style: Style, flags: Flags, too: set<char>, isprint: uchar -> bool, arg: seq<uchar>)
    requires style == SHELL || style == SHELL_ALWAYS
    ensures ReadWord(Output(style, flags, too, isprint, arg)) == Some(Kept(flags, arg))
            <==> !(&& (style == SHELL || flags.elideOuterQuotes) && flags.elideNullBytes
                   && Misread(WithoutNulls(arg))
                   && forall i :: 0 <= i < |arg| ==> ShellFree(flags, too, arg, i))
  {
    var p := FirstPass(style, flags, too, isprint);
    OuterQuotes(flags, too, isprint, arg);
    if p.elide {
      ShellQuotesExactly(flags, too, isprint, arg);
      QuotedWordReads(SecondPass(p), arg);
      if forall i :: 0 <= i < |arg| ==> ShellFree(flags, too, arg, i) {
        FreeWordReads(flags, too, arg);
      }
    } else {
      QuotedWordReads(p, arg);
    }
  }

  /** A null byte in front of a number sign hides it: what is left is a comment. */
  lemma ElidedNullExposes(isprint: uchar -> bool)
    ensures var flags := Flags(true, false, false);
            && Output(SHELL, flags, {}, isprint, "\0#") == "#" && ReadWord("#") == None
  {
    var flags, arg: seq<uchar> := Flags(true, false, false), "\0#";
    ShellQuotesExactly(flags, {}, isprint, arg);
    assert arg[1..] == "#" && arg[1..][1..] == "";
    assert WithoutNulls(arg) == WithoutNulls("#") == "#";
  }
}
