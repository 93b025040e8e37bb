/** What quotearg writes: the complete output as a value, piece by piece. */
module Quoting {
  import opened Options

  /** An unsigned char. */
  type uchar = c: char | c as int < 256 witness '\0'

  datatype Style = LITERAL | SHELL | SHELL_ALWAYS | C | C_MAYBE | ESCAPE

  datatype Flags = Flags(elideNullBytes: bool, elideOuterQuotes: bool, splitTrigraphs: bool)

  /** The options of one pass: the style is no longer SHELL or C_MAYBE. */
  datatype Pass = Pass(style: Style, flags: Flags, elide: bool, too: set<char>, isprint: uchar -> bool)
  {
    predicate BackslashEscapes() {
      style == C || style == ESCAPE
    }

    function QuoteString(): string {
      if style == C then "\"" else if style == SHELL_ALWAYS then "'" else ""
    }
  }

  const TRIGRAPH_ENDS: set<char> := {'!', '\'', '(', ')', '-', '/', '<', '=', '>'}

  /** Characters that have a letter escape. */
  function LetterEscape(c: char): Option<char> {
    if c == '\U{07}' then Some('a')
    else if c == '\U{08}' then Some('b')
    else if c == '\U{0C}' then Some('f')
    else if c == '\n' then Some('n')
    else if c == '\r' then Some('r')
    else if c == '\t' then Some('t')
    else if c == '\U{0B}' then Some('v')
    else None
  }

  /** The characters on which a shell word cannot go unquoted, wherever they stand. */
  const SHELL_SPECIALS: set<char> :=
    {' ', '!', '"', '$', '&', '(', ')', '*', ';', '<', '=', '>', '[', '^', '`', '|', '\'', '?', '\n', '\r', '\t', '\\'}

  predicate ShellForces(arg: seq<uchar>, i: nat)
    requires i < |arg|
  {
    || arg[i] in SHELL_SPECIALS
    || (i == 0 && (arg[i] == '#' || arg[i] == '~'))
    || (|arg| == 1 && (arg[i] == '{' || arg[i] == '}'))
  }

  /** The characters that no case of the switch names. */
  predicate Unlisted(c: char) {
    ('\U{01}' <= c <= '\U{06}') || ('\U{0E}' <= c <= '\U{1F}') || c == '@' || '\U{7F}' <= c
  }

  function Digit(d: nat): char
    requires d < 10
  {
    (48 + d) as char
  }

  function Octal(c: uchar): string {
    [Digit(c as int / 64), Digit(c as int / 8 % 8), Digit(c as int % 8)]
  }

  predicate IsDigit(c: char) {
    '0' <= c <= '9'
  }

  predicate Trigraph(arg: seq<uchar>, i: nat) {
    i + 2 < |arg| && arg[i] == '?' && arg[i + 1] == '?' && arg[i + 2] in TRIGRAPH_ENDS
  }

  /** What becomes of the argument at one position: the outer quotes are needed after all, or some
      characters are written and the scan goes on at `next`. */
  datatype Piece = Force | Emit(out: string, next: nat)

  /** A character that is not special: it is escaped only when the caller wants it quoted. */
  function Ordinary(p: Pass, c: uchar, before: string, next: nat): Piece {
    if (p.BackslashEscapes() || p.elide) && c in p.too then
      if p.elide then Force else Emit(before + ['\\', c], next)
    else Emit(before + [c], next)
  }

  function CPiece(p: Pass, arg: seq<uchar>, i: nat): Piece
    requires i < |arg| && p.BackslashEscapes()
  {
    var c := arg[i];
    if c == '"' && p.style == C then
      if p.elide then Force else Emit(['\\', c], i + 1)
    else if c == '\0' then
      if p.elide then Force
      else if i + 1 < |arg| && IsDigit(arg[i + 1]) then
        if '0' in p.too then Emit("\\00\\0", i + 1) else Emit("\\000", i + 1)
      else if '0' in p.too then Emit("\\\\0", i + 1) else Emit("\\0", i + 1)
    else if p.style == C && p.flags.splitTrigraphs && Trigraph(arg, i) then
      if p.elide then Force else Ordinary(p, arg[i + 2], "?\"\"?", i + 3)
    else if c == '\\' && p.elide && p.style == C then Emit([c], i + 1)
    else if c == '\\' then (if p.elide then Force else Emit("\\\\", i + 1))
    else if LetterEscape(c).Some? then
      if p.elide then Force else Emit(['\\', LetterEscape(c).value], i + 1)
    else if Unlisted(c) && !p.isprint(c) then
      if p.elide then Force else Emit("\\" + Octal(c), i + 1)
    else Ordinary(p, c, "", i + 1)
  }

  function PlainPiece(p: Pass, arg: seq<uchar>, i: nat): Piece
    requires i < |arg| && !p.BackslashEscapes()
  {
    var c := arg[i];
    if c == '\0' && p.flags.elideNullBytes then Emit("", i + 1)
    else if p.style == SHELL_ALWAYS && p.elide && ShellForces(arg, i) then Force
    else if p.style == SHELL_ALWAYS && c == '\'' then Emit("'\\''", i + 1)
    else Ordinary(p, c, "", i + 1)
  }

  function PieceAt(p: Pass, arg: seq<uchar>, i: nat): (r: Piece)
    requires i < |arg|
    ensures r.Emit? ==> i < r.next <= |arg|
  {
    if p.BackslashEscapes() then CPiece(p, arg, i) else PlainPiece(p, arg, i)
  }

  /** All the pieces from position i on, or None when the outer quotes are needed. */
  function Body(p: Pass, arg: seq<uchar>, i: nat): Option<string>
    requires i <= |arg|
    decreases |arg| - i
  {
    if i == |arg| then Some("")
    else
      var piece := PieceAt(p, arg, i);
      if piece.Force? then None
      else
        var rest := Body(p, arg, piece.next);
        if rest.None? then None else Some(piece.out + rest.value)
  }

  /** The options of the first pass. */
  function FirstPass(style: Style, flags: Flags, too: set<char>, isprint: uchar -> bool): Pass {
    var basic := if style == SHELL then SHELL_ALWAYS else if style == C_MAYBE then C else style;
    var elide :=
      if style == SHELL || style == C_MAYBE then true
      else if style == ESCAPE || style == LITERAL then false
      else flags.elideOuterQuotes;
    Pass(basic, flags, elide, too, isprint)
  }

  /** The options after force_outer_quoting_style. */
  function SecondPass(p: Pass): Pass {
    Pass(p.style, p.flags.(elideOuterQuotes := false), false, {}, p.isprint)
  }

  /** A pass with outer quotes never needs to be restarted. */
  function Quoted(p: Pass, arg: seq<uchar>): string
    requires !p.elide
  {
    AlwaysFits(p, arg, 0);
    p.QuoteString() + Body(p, arg, 0).value + p.QuoteString()
  }

  /** The complete output. */
  function Output(style: Style, flags: Flags, too: set<char>, isprint: uchar -> bool, arg: seq<uchar>): string {
    PassOutput(FirstPass(style, flags, too, isprint), arg)
  }

  predicate Elidable(p: Pass, arg: seq<uchar>) {
    var body := Body(p, arg, 0);
    body.Some? && !(body.value == "" && p.style == SHELL_ALWAYS)
  }

  function PassOutput(p: Pass, arg: seq<uchar>): string {
    if !p.elide then Quoted(p, arg)
    else if Elidable(p, arg) then Body(p, arg, 0).value
    else Quoted(SecondPass(p), arg)
  }

  lemma {:induction false} AlwaysFits(p: Pass, arg: seq<uchar>, i: nat)
    requires !p.elide && i <= |arg|
    ensures Body(p, arg, i).Some?
    decreases |arg| - i
  {
    if i < |arg| {
      AlwaysFits(p, arg, PieceAt(p, arg, i).next);
    }
  }
}
