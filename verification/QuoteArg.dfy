/** quotearg: the quoted form is stored into a buffer that may be too small, in one loop that may
    have to start over with outer quotes. */
module QuoteArg {
  import opened Options
  import opened Quoting

  /** The size that stands for "up to the terminating null byte". */
  const SIZE_MAX: nat := 0xFFFF_FFFF_FFFF_FFFF

  /** The argument that the memory at `mem` and the size describe. */
  ghost predicate Argument(mem: seq<uchar>, argsize: nat, arg: seq<uchar>) {
    && |arg| <= |mem| < SIZE_MAX && arg == mem[..|arg|]
    && if argsize == SIZE_MAX then |arg| < |mem| && mem[|arg|] == '\0' && '\0' !in arg else argsize == |arg|
  }

  /** The buffer holds as much of `out` as fits into `size` characters. */
  ghost predicate Holds(buffer: seq<char>, size: nat, out: string) {
    size <= |buffer| && forall k :: 0 <= k < |out| && k < size ==> buffer[k] == out[k]
  }

  /** Nothing is written at or behind index `size`. */
  twostate predicate StaysWithin(buffer: array<char>, size: nat)
    reads buffer
  {
    forall k :: size <= k < buffer.Length ==> buffer[k] == old(buffer[k])
  }

  /** STORE, for a string of characters. */
  method Store(buffer: array<char>, size: nat, len: nat, s: string, ghost out: string) returns (newLen: nat)
    requires Holds(buffer[..], size, out) && len == |out|
    modifies buffer
    ensures Holds(buffer[..], size, out + s) && newLen == len + |s| && StaysWithin(buffer, size)
  {
    newLen := len;
    for n := 0 to |s|
      invariant newLen == len + n && size <= buffer.Length
      invariant forall k :: 0 <= k < newLen && k < size ==> buffer[k] == (out + s)[k]
      invariant StaysWithin(buffer, size)
    {
      if newLen < size {
        buffer[newLen] := s[n];
      }
      newLen := newLen + 1;
    }
  }

  /** What the switch decides for one character. */
  datatype Action = Skip | StoreCharacter | StoreEscape | CheckOptions | StartOver

  /** The switch, for a pass with backslash escapes: the new character, the new index, what was
      stored already, and what is to be done. */
  method SwitchC(mem: seq<uchar>, argsize: nat, p: Pass, i0: nat, isRightQuote: bool, ghost arg: seq<uchar>)
      returns (action: Action, c: uchar, i: nat, stored: string)
    requires p.BackslashEscapes() && Argument(mem, argsize, arg) && i0 < |arg|
    requires isRightQuote <==> p.style == C && mem[i0] == '"'
    requires isRightQuote ==> !p.elide
    ensures i0 <= i < |arg| && !action.Skip?
    ensures Decided(p, action, c, stored, isRightQuote, i + 1) == CPiece(p, arg, i0)
  {
    c, i, stored, action := mem[i0], i0, "", CheckOptions;
    if c == '\0' {
      if p.elide {
        return StartOver, c, i, "";
      }
      stored := "\\";
      if i + 1 < argsize && '0' <= mem[i + 1] && mem[i + 1] <= '9' {
        stored := stored + "00";
      }
      c := '0';
    } else if c == '?' {
      if p.style == C && p.flags.splitTrigraphs && i + 2 < argsize && mem[i + 1] == '?' && mem[i + 2] in TRIGRAPH_ENDS {
        if p.elide {
          return StartOver, c, i, "";
        }
        c := mem[i + 2];
        i := i + 2;
        stored := "?\"\"?";
      }
    } else if LetterEscape(c).Some? {
      c, action := LetterEscape(c).value, StoreEscape;
    } else if c == '\\' {
      action := if p.elide && p.style == C then StoreCharacter else StoreEscape;
    } else if Unlisted(c) && !p.isprint(c) {
      if p.elide {
        return StartOver, c, i, "";
      }
      stored := ['\\', Digit(c as int / 64), Digit(c as int / 8 % 8)];
      c, action := Digit(c as int % 8), StoreCharacter;
    }
  }

  /** The code behind the switch, as a value. */
  function Decided(p: Pass, action: Action, c: uchar, stored: string, isRightQuote: bool, next: nat): Piece {
    match action
    case Skip => Emit(stored, next)
    case StartOver => Force
    case StoreCharacter => Emit(stored + [c], next)
    case StoreEscape => if p.elide then Force else Emit(stored + ['\\', c], next)
    case CheckOptions =>
      if isRightQuote || ((p.BackslashEscapes() || p.elide) && c in p.too) then
        if p.elide then Force else Emit(stored + ['\\', c], next)
      else Emit(stored + [c], next)
  }

  /** The switch, for the literal and shell styles. */
  method SwitchPlain(mem: seq<uchar>, argsize: nat, p: Pass, i: nat, ghost arg: seq<uchar>)
      returns (action: Action, stored: string)
    requires !p.BackslashEscapes() && Argument(mem, argsize, arg) && i < |arg|
    ensures Decided(p, action, mem[i], stored, false, i + 1) == PlainPiece(p, arg, i)
  {
    var c := mem[i];
    var shell := p.style == SHELL_ALWAYS;
    action, stored := CheckOptions, "";
    if c == '\0' {
      if p.flags.elideNullBytes {
        action := Skip;
      }
    } else if c == '{' || c == '}' || c == '#' || c == '~' {
      var alone := if argsize == SIZE_MAX then mem[1] == '\0' else argsize == 1;
      if ((c == '{' || c == '}') && !alone) || i != 0 {
      } else if shell && p.elide {
        action := StartOver;
      }
    } else if c == '\'' {
      if shell {
        if p.elide {
          action := StartOver;
        } else {
          stored := "'\\'";
        }
      }
    } else if c in SHELL_SPECIALS {
      if shell && p.elide {
        action := StartOver;
      }
    }
    assert "" + [c] == [c] && "'\\'" + ['\''] == "'\\''";
  }

  /** One round of the loop. */
  method QuoteCharacter(buffer: array<char>, size: nat, mem: seq<uchar>, argsize: nat, p: Pass, i0: nat, len0: nat,
                        ghost arg: seq<uchar>, ghost out: string)
      returns (forced: bool, i: nat, len: nat)
    requires Argument(mem, argsize, arg) && i0 < |arg| && Holds(buffer[..], size, out) && len0 == |out|
    modifies buffer
    ensures StaysWithin(buffer, size)
    ensures forced <==> PieceAt(p, arg, i0).Force?
    ensures !forced ==> i == PieceAt(p, arg, i0).next && len == len0 + |PieceAt(p, arg, i0).out|
    ensures !forced ==> Holds(buffer[..], size, out + PieceAt(p, arg, i0).out)
  {
    hide Holds, Argument, CPiece, PlainPiece;
    ArgumentAt(mem, argsize, arg, i0);
    var action, c, stored;
    var isRightQuote := false;
    i, len := i0, len0;
    if p.BackslashEscapes() {
      var quoteString := p.QuoteString();
      if |quoteString| > 0 && i + |quoteString| <= argsize && mem[i] == quoteString[0] {
        if p.elide {
          RightQuoteForces(p, arg, i0);
          return true, i, len;
        }
        isRightQuote := true;
      }
      action, c, i, stored := SwitchC(mem, argsize, p, i0, isRightQuote, arg);
    } else {
      c := mem[i];
      action, stored := SwitchPlain(mem, argsize, p, i, arg);
    }
    if action == CheckOptions {
      var wanted := (p.BackslashEscapes() || p.elide) && c in p.too;
      action := if !wanted && !isRightQuote then StoreCharacter else StoreEscape;
    }
    if action == StartOver || (action == StoreEscape && p.elide) {
      return true, i, len;
    }
    var s := if action == Skip then stored else if action == StoreEscape then stored + ['\\', c] else stored + [c];
    len := Store(buffer, size, len, s, out);
    return false, i + 1, len;
  }

  lemma ArgumentAt(mem: seq<uchar>, argsize: nat, arg: seq<uchar>, i: nat)
    requires Argument(mem, argsize, arg)
    ensures |arg| <= |mem| && |arg| <= argsize && (i < |arg| ==> mem[i] == arg[i])
    ensures i <= |arg| ==>
              (argsize == SIZE_MAX ==> i < |mem|)
              && (i == |arg| <==> if argsize == SIZE_MAX then mem[i] == '\0' else i == argsize)
  {
    if argsize == SIZE_MAX && i < |arg| {
      assert arg[i] in arg;
    }
  }

  lemma RightQuoteForces(p: Pass, arg: seq<uchar>, i: nat)
    requires p.style == C && p.elide && i < |arg| && arg[i] == '"'
    ensures PieceAt(p, arg, i) == Force
  {
  }

  function OpenQuote(p: Pass): string {
    if p.elide then "" else p.QuoteString()
  }

  /** The pieces up to position i have been written, and what follows decides the rest. */
  ghost predicate WrittenUpTo(p: Pass, arg: seq<uchar>, i: nat, out: string) {
    && i <= |arg|
    && if Body(p, arg, i).None? then Body(p, arg, 0).None?
       else Body(p, arg, 0).Some? && OpenQuote(p) + Body(p, arg, 0).value == out + Body(p, arg, i).value
  }

  lemma WritesPiece(p: Pass, arg: seq<uchar>, i: nat, out: string)
    requires i < |arg| && WrittenUpTo(p, arg, i, out)
    ensures PieceAt(p, arg, i).Force? ==> Body(p, arg, 0).None?
    ensures PieceAt(p, arg, i).Emit? ==> WrittenUpTo(p, arg, PieceAt(p, arg, i).next, out + PieceAt(p, arg, i).out)
  {
    var piece := PieceAt(p, arg, i);
    if piece.Emit? && Body(p, arg, piece.next).Some? {
      assert out + (piece.out + Body(p, arg, piece.next).value) == (out + piece.out) + Body(p, arg, piece.next).value;
    }
  }

  lemma WrittenAll(p: Pass, arg: seq<uchar>, out: string)
    requires WrittenUpTo(p, arg, |arg|, out)
    ensures Body(p, arg, 0).Some? && OpenQuote(p) + Body(p, arg, 0).value == out
  {
  }

  lemma OutputIsWhole(p: Pass, arg: seq<uchar>, out: string)
    requires Body(p, arg, 0).Some? && OpenQuote(p) + Body(p, arg, 0).value == out && (p.elide ==> Elidable(p, arg))
    ensures PassOutput(p, arg) == out + OpenQuote(p)
  {
    var body := Body(p, arg, 0).value;
    assert "" + body == body && body + "" == body;
  }

  lemma NothingWritten(p: Pass, arg: seq<uchar>, buffer: seq<char>, size: nat)
    requires size <= |buffer|
    ensures Holds(buffer, size, "") && WrittenUpTo(p, arg, 0, OpenQuote(p))
  {
  }

  lemma TerminatorKeeps(before: seq<char>, after: seq<char>, size: nat, out: string)
    requires Holds(before, size, out) && |after| == |before|
    requires forall k :: 0 <= k < |out| && k < |after| ==> after[k] == before[k]
    ensures Holds(after, size, out)
  {
  }

  /** One pass over the argument; it gives up when the outer quotes are needed after all. */
  method RunPass(buffer: array<char>, size: nat, mem: seq<uchar>, argsize: nat, p: Pass, ghost arg: seq<uchar>)
      returns (forced: bool, len: nat)
    requires Argument(mem, argsize, arg) && size <= buffer.Length
    modifies buffer
    ensures StaysWithin(buffer, size)
    ensures forced <==> p.elide && !Elidable(p, arg)
    ensures !forced ==> Holds(buffer[..], size, PassOutput(p, arg)) && len == |PassOutput(p, arg)|
    ensures !forced && len < size ==> buffer[len] == '\0'
  {
    hide PieceAt, Argument, Body, Holds, WrittenUpTo;
    NothingWritten(p, arg, buffer[..], size);
    len := Store(buffer, size, 0, OpenQuote(p), "");
    ghost var out := OpenQuote(p);
    assert "" + OpenQuote(p) == OpenQuote(p);
    var i := 0;
    ArgumentAt(mem, argsize, arg, i);
    while !(if argsize == SIZE_MAX then mem[i] == '\0' else i == argsize)
      invariant i <= |arg|
      invariant i == |arg| <==> if argsize == SIZE_MAX then i < |mem| && mem[i] == '\0' else i == argsize
      invariant argsize == SIZE_MAX ==> i < |mem|
      invariant Holds(buffer[..], size, out) && len == |out| && WrittenUpTo(p, arg, i, out)
      invariant StaysWithin(buffer, size)
      decreases |arg| - i
    {
      WritesPiece(p, arg, i, out);
      ghost var piece := PieceAt(p, arg, i);
      forced, i, len := QuoteCharacter(buffer, size, mem, argsize, p, i, len, arg, out);
      if forced {
        if !p.elide {
          AlwaysFits(p, arg, 0);
        }
        return;
      }
      out := out + piece.out;
      ArgumentAt(mem, argsize, arg, i);
    }
    WrittenAll(p, arg, out);
    if len == 0 && p.style == SHELL_ALWAYS && p.elide {
      return true, len;
    }
    var close := OpenQuote(p);
    len := Store(buffer, size, len, close, out);
    OutputIsWhole(p, arg, out);
    ghost var written := buffer[..];
    if len < size {
      buffer[len] := '\0';
    }
    TerminatorKeeps(written, buffer[..], size, out + close);
    forced := false;
  }

  /** quotearg_buffer_restyled: the returned length does not depend on the buffer, and the buffer
      holds as much of the output as fits.  The pass that is started over has no quotes to elide,
      so that happens at most once. */
  method QuoteargBufferRestyled(buffer: array<char>, size: nat, mem: seq<uchar>, argsize: nat, style: Style,
                                flags: Flags,
                                too: set<char>, isprint: uchar -> bool, ghost arg: seq<uchar>)
      returns (len: nat)
    requires Argument(mem, argsize, arg) && size <= buffer.Length
    modifies buffer
    ensures len == |Output(style, flags, too, isprint, arg)|
    ensures Holds(buffer[..], size, Output(style, flags, too, isprint, arg))
    ensures len < size ==> buffer[len] == '\0'
    ensures StaysWithin(buffer, size)
    decreases FirstPass(style, flags, too, isprint).elide
  {
    hide Argument, Holds, Body;
    var p := FirstPass(style, flags, too, isprint);
    var forced;
    forced, len := RunPass(buffer, size, mem, argsize, p, arg);
    if forced {
      assert FirstPass(p.style, flags.(elideOuterQuotes := false), {}, isprint) == SecondPass(p);
      var outerQuotes := flags.(elideOuterQuotes := false);
      len := QuoteargBufferRestyled(buffer, size, mem, argsize, p.style, outerQuotes, {}, isprint, arg);
    }
  }

  // ----- Null bytes in the output -----

  lemma {:induction false} BodyHasNoNull(p: Pass, arg: seq<uchar>, i: nat)
    requires i <= |arg| && Body(p, arg, i).Some?
    requires p.flags.elideNullBytes || '\0' !in arg || p.BackslashEscapes()
    ensures '\0' !in Body(p, arg, i).value
    decreases |arg| - i
  {
    if i < |arg| {
      var piece := PieceAt(p, arg, i);
      BodyHasNoNull(p, arg, piece.next);
      assert arg[i] in arg;
      assert '\0' !in piece.out;
    }
  }

  /** The output has no null byte unless the argument has one, the style writes it as it is, and it
      is not elided. */
  lemma OutputHasNoNull(style: Style, flags: Flags, too: set<char>, isprint: uchar -> bool, arg: seq<uchar>)
    requires flags.elideNullBytes || '\0' !in arg || style == C || style == C_MAYBE || style == ESCAPE
    ensures '\0' !in Output(style, flags, too, isprint, arg)
  {
    var p := FirstPass(style, flags, too, isprint);
    if p.elide && Elidable(p, arg) {
      BodyHasNoNull(p, arg, 0);
    } else {
      var q := if p.elide then SecondPass(p) else p;
      AlwaysFits(q, arg, 0);
      BodyHasNoNull(q, arg, 0);
    }
  }

  // ----- Callers that make room -----

  /** A string of exactly the given characters, with its terminator, is stored in the array. */
  ghost predicate IsString(a: array<char>, s: string)
    reads a
  {
    |s| < a.Length && a[..|s|] == s && a[|s|] == '\0'
  }

  lemma HoldsAll(a: array<char>, s: string)
    requires Holds(a[..], a.Length, s) && |s| < a.Length && a[|s|] == '\0'
    ensures IsString(a, s)
  {
  }

  /** quotearg_alloc_mem: the size that the first pass returns is what the second pass needs. */
  method QuoteargAllocMem(mem: seq<uchar>, argsize: nat, wantSize: bool, style: Style, flags: Flags, too: set<char>,
                          isprint: uchar -> bool, ghost arg: seq<uchar>)
      returns (buf: array<char>, size: nat)
    requires Argument(mem, argsize, arg)
    ensures fresh(buf) && buf.Length == size + 1
    ensures var out := Output(style, flags.(elideNullBytes := flags.elideNullBytes || !wantSize), too, isprint, arg);
            size == |out| && IsString(buf, out)
  {
    hide Argument, Body;
    var allFlags := flags.(elideNullBytes := flags.elideNullBytes || !wantSize);
    var none := new char[0];
    var needed := QuoteargBufferRestyled(none, 0, mem, argsize, style, allFlags, too, isprint, arg);
    buf := new char[needed + 1];
    size := QuoteargBufferRestyled(buf, needed + 1, mem, argsize, style, allFlags, too, isprint, arg);
    HoldsAll(buf, Output(style, allFlags, too, isprint, arg));
  }

  datatype Slot = Slot(size: nat, val: array?<char>)

  class SlotVector {
    var slots: seq<Slot>

    /** Every slot owns its storage. */
    ghost predicate Valid()
      reads this
    {
      && |slots| >= 1
      && (forall i :: 0 <= i < |slots| ==>
            slots[i].size == if slots[i].val == null then 0 else slots[i].val.Length)
      && forall i, j :: 0 <= i < j < |slots| && slots[i].val != null ==> slots[i].val != slots[j].val
    }

    /** One slot of 256 characters exists from the start. */
    constructor ()
      ensures Valid() && |slots| == 1 && slots[0].size == 256 && fresh(slots[0].val)
    {
      var slot0 := new char[256];
      slots := [Slot(256, slot0)];
    }

    /** quotearg_n_options: slot n gets the string and grows when it is too small; the other slots
        keep their strings. */
    method QuoteargNOptions(n: nat, mem: seq<uchar>, argsize: nat, style: Style, flags: Flags, too: set<char>,
                            isprint: uchar -> bool, ghost arg: seq<uchar>)
        returns (val: array<char>)
      requires Valid() && Argument(mem, argsize, arg)
      modifies this, if n < |slots| && slots[n].val != null then {slots[n].val} else {}
      ensures Valid() && n < |slots| && slots[n].val == val
      ensures IsString(val, Output(style, flags.(elideNullBytes := true), too, isprint, arg))
      ensures |slots| == if n < old(|slots|) then old(|slots|) else n + 1
      ensures forall k :: 0 <= k < old(|slots|) && k != n ==> slots[k] == old(slots[k])
      ensures forall k :: old(|slots|) <= k < n ==> slots[k] == Slot(0, null)
      ensures var out := Output(style, flags.(elideNullBytes := true), too, isprint, arg);
              if n < old(|slots|) && |out| < old(slots[n].size) then slots[n] == old(slots[n])
              else fresh(val) && val.Length == |out| + 1
    {
      hide Argument, Body;
      if |slots| <= n {
        slots := slots + seq(n + 1 - |slots|, _ => Slot(0, null));
      }
      var allFlags := flags.(elideNullBytes := true);
      ghost var out := Output(style, allFlags, too, isprint, arg);
      var size := slots[n].size;
      var buffer: array<char>;
      if slots[n].val == null {
        buffer := new char[0];
      } else {
        buffer := slots[n].val;
      }
      var qsize := QuoteargBufferRestyled(buffer, size, mem, argsize, style, allFlags, too, isprint, arg);
      if size <= qsize {
        size := qsize + 1;
        buffer := new char[size];
        qsize := QuoteargBufferRestyled(buffer, size, mem, argsize, style, allFlags, too, isprint, arg);
        slots := slots[n := Slot(size, buffer)];
      }
      val := buffer;
      HoldsAll(val, out);
    }
  }
}
