/** The bounded formatter `kvsnprintf` against an unbounded pure rendering. */
module Formats {
  import opened Bits
  import opened Numbers
  import opened Cursors
  import opened Options

  /** A C string, without its terminator. */
  type CString = s: seq<Byte> | 0 !in s witness []

  /** A variadic argument: a 32-bit word, or a string that may be `NULL`. */
  datatype Arg = Num(w: nat) | Text(s: Option<CString>)

  /** What one directive renders to: bytes written one by one, or a string that
      is written whole or not at all. */
  datatype Chunk = Bytes(b: seq<Byte>) | Whole(b: seq<Byte>)

  /** The first directive of a format: its rendering, the format bytes and the
      arguments it takes.  `End` is a format that stops inside a directive. */
  datatype Piece = Piece(chunk: Chunk, width: nat, used: nat) | End

  const PERCENT: Byte := Ascii('%')

  predicate TakesWord(c: Byte) {
    c in [Ascii('d'), Ascii('i'), Ascii('u'), Ascii('x'), Ascii('X'), Ascii('p'), Ascii('c')]
  }

  predicate TakesText(c: Byte) { c == Ascii('s') }

  /** The arguments a specifier needs are there and of its kind; C leaves
      anything else undefined. */
  predicate ArgFits(c: Byte, args: seq<Arg>) {
    && (TakesWord(c) ==> |args| > 0 && args[0].Num? && args[0].w < WORD)
    && (TakesText(c) ==> |args| > 0 && args[0].Text?)
  }

  function Used(c: Byte): nat { if TakesWord(c) || TakesText(c) then 1 else 0 }

  function Render(c: Byte, alternate: bool, args: seq<Arg>): Chunk
    requires ArgFits(c, args)
  {
    if c == Ascii('d') || c == Ascii('i') then Bytes(SignedDec(args[0].w))
    else if c == Ascii('u') then Bytes(Dec(args[0].w))
    else if c == Ascii('x') || c == Ascii('X') then
      Bytes(HexText(args[0].w, HexCount(args[0].w), c == Ascii('X'), alternate))
    else if c == Ascii('p') then Bytes(HexText(args[0].w, 8, false, true))
    else if c == Ascii('s') then Whole(if args[0].s.None? then NULL_TEXT else args[0].s.value)
    else if c == Ascii('c') then Bytes([args[0].w % 256])
    else if c == PERCENT then Bytes([PERCENT])
    else Bytes([PERCENT, c])
  }

  const NULL_TEXT: seq<Byte> := [Ascii('N'), Ascii('U'), Ascii('L'), Ascii('L')]

  /** Position of the specifier in a format that starts with '%'. */
  function SpecifierAt(format: seq<Byte>): nat {
    if |format| > 1 && format[1] == Ascii('#') then 2 else 1
  }

  predicate FirstFits(format: seq<Byte>, args: seq<Arg>)
    requires |format| > 0
  {
    format[0] == PERCENT && SpecifierAt(format) < |format| ==> ArgFits(format[SpecifierAt(format)], args)
  }

  function First(format: seq<Byte>, args: seq<Arg>): (p: Piece)
    requires |format| > 0 && FirstFits(format, args)
    ensures p.Piece? ==> 0 < p.width <= |format| && p.used <= |args|
  {
    if format[0] != PERCENT then Piece(Bytes([format[0]]), 1, 0)
    else
      var j := SpecifierAt(format);
      if j >= |format| then End
      else Piece(Render(format[j], j == 2, args), j + 1, Used(format[j]))
  }

  /** The arguments match the whole format. */
  predicate Matches(format: seq<Byte>, args: seq<Arg>)
    decreases |format|
  {
    |format| == 0 ||
    (FirstFits(format, args) &&
     match First(format, args)
     case End => true
     case Piece(_, w, u) => Matches(format[w..], args[u..]))
  }

  /** The unbounded rendering, directive by directive. */
  function Chunks(format: seq<Byte>, args: seq<Arg>): seq<Chunk>
    requires Matches(format, args)
    decreases |format|
  {
    if |format| == 0 then []
    else
      match First(format, args)
      case End => []
      case Piece(c, w, u) => [c] + Chunks(format[w..], args[u..])
  }

  function Flatten(chunks: seq<Chunk>): seq<Byte> {
    if |chunks| == 0 then [] else chunks[0].b + Flatten(chunks[1..])
  }

  /** What is written after `out` when there is room for `cap` bytes in all. */
  function Emit(out: seq<Byte>, chunks: seq<Chunk>, cap: nat): seq<Byte>
    decreases |chunks|
  {
    if |chunks| == 0 then out
    else if |out + chunks[0].b| <= cap then Emit(out + chunks[0].b, chunks[1..], cap)
    else match chunks[0]
      case Bytes(b) => Clip(out + b, cap)
      case Whole(_) => out
  }

  /** Truncation only ever drops a suffix, never overruns, and drops nothing
      that fits. */
  lemma {:induction false} EmitIsPrefix(out: seq<Byte>, chunks: seq<Chunk>, cap: nat)
    requires |out| <= cap
    ensures Emit(out, chunks, cap) <= out + Flatten(chunks)
    ensures |Emit(out, chunks, cap)| <= cap
    ensures |out + Flatten(chunks)| <= cap ==> Emit(out, chunks, cap) == out + Flatten(chunks)
    decreases |chunks|
  {
    if |chunks| > 0 {
      var b := chunks[0].b;
      assert out + Flatten(chunks) == out + b + Flatten(chunks[1..]);
      if |out + b| <= cap {
        EmitIsPrefix(out + b, chunks[1..], cap);
      }
    }
  }

  /** Text is only given up for want of room: when something was dropped, the
      buffer is full or the next piece is a string too long for what is left. */
  lemma {:induction false} EmitIsGreedy(out: seq<Byte>, chunks: seq<Chunk>, cap: nat)
    requires |out| <= cap
    ensures var r := Emit(out, chunks, cap);
            || r == out + Flatten(chunks) || |r| == cap
            || exists s: seq<Byte> :: Whole(s) in chunks && |r| + |s| > cap
    decreases |chunks|
  {
    if |chunks| > 0 {
      var b := chunks[0].b;
      if |out + b| <= cap {
        EmitIsGreedy(out + b, chunks[1..], cap);
        assert out + Flatten(chunks) == out + b + Flatten(chunks[1..]);
        assert forall c :: c in chunks[1..] ==> c in chunks;
      } else if chunks[0].Whole? {
        assert Whole(b) in chunks;
      }
    }
  }

  /** One chunk of `Emit`. */
  function EmitOne(out: seq<Byte>, chunk: Chunk, cap: nat): seq<Byte> {
    if |out + chunk.b| <= cap then out + chunk.b
    else match chunk
      case Bytes(b) => Clip(out + b, cap)
      case Whole(_) => out
  }

  /** Emitting a format is emitting its first directive, then the rest. */
  lemma EmitFirst(out: seq<Byte>, format: seq<Byte>, args: seq<Arg>, cap: nat)
    requires |format| > 0 && Matches(format, args)
    ensures var p := First(format, args);
            if p.End? then Emit(out, Chunks(format, args), cap) == out
            else
              && Matches(format[p.width..], args[p.used..])
              && Emit(out, Chunks(format, args), cap) ==
                   if |out + p.chunk.b| <= cap then
                      Emit(out + p.chunk.b, Chunks(format[p.width..], args[p.used..]), cap)
                   else EmitOne(out, p.chunk, cap)
  {
    var p := First(format, args);
    if p.Piece? {
      assert Chunks(format, args)[1..] == Chunks(format[p.width..], args[p.used..]);
    }
  }

  // ------------------------------------- what the directives print, directly

  /** Decimal digits without superfluous zeros, for the number `v`. */
  predicate Decimal(t: seq<Byte>, v: int) {
    && |t| >= 1 && (forall i :: 0 <= i < |t| ==> 48 <= t[i] <= 57)
    && (t[0] == 48 ==> |t| == 1) && ParseDec(t) == v
  }

  /** `n` hexadecimal digits for the number `v`. */
  predicate Hexadecimal(t: seq<Byte>, v: nat, upper: bool) {
    (forall i :: 0 <= i < |t| ==> IsHexDigit(t[i], upper)) && ParseHex(t) == v
  }

  /** `t` is what the specifier `c`, with `#` if `alternate`, prints of the
      next argument: a signed number for `d` and `i`, an unsigned one for `u`,
      hexadecimal digits for `x`, `X` and `p`, a byte for `c`, a string for
      `s`, and for anything else the character itself. */
  predicate Spelled(c: Byte, alternate: bool, args: seq<Arg>, t: seq<Byte>) {
    if c in {100, 105, 117, 120, 88, 112, 99} then
      && |args| > 0 && args[0].Num?
      && var w := args[0].w;
         if c == 100 || c == 105 then
           if w < 0x8000_0000 then Decimal(t, w) else t != [] && t[0] == 45 && Decimal(t[1..], 0x1_0000_0000 - w)
         else if c == 117 then Decimal(t, w)
         else if c == 99 then t == [w % 256]
         else if c == 112 then |t| == 10 && t[..2] == [48, 120] && Hexadecimal(t[2..], w, false)
         else
           var digits := if alternate && |t| >= 2 then t[2..] else t;
           && (alternate ==> |t| >= 2 && t[..2] == [48, c])
           && |digits| >= 1 && (digits[0] == 48 ==> |digits| == 1) && Hexadecimal(digits, w, c == 88)
    else if c == 115 then
      |args| > 0 && args[0].Text? && t == if args[0].s.None? then [78, 85, 76, 76] else args[0].s.value
    else t == if c == 37 then [37] else [37, c]
  }

  lemma DecIsDecimal(v: nat)
    ensures Decimal(Dec(v), v)
  {
    DecRoundTrip(v);
    DecLength(v);
  }

  lemma DecLength(v: nat)
    ensures v < 10 ==> |Dec(v)| == 1
  {
  }

  lemma SignedIsSpelled(w: nat)
    requires w < WORD
    ensures if w < 0x8000_0000 then Decimal(SignedDec(w), w)
            else SignedDec(w) != [] && SignedDec(w)[0] == 45 && Decimal(SignedDec(w)[1..], 0x1_0000_0000 - w)
  {
    if w < 0x8000_0000 {
      DecIsDecimal(w);
    } else {
      DecIsDecimal(WORD - w);
      assert SignedDec(w)[1..] == Dec(WORD - w);
    }
  }

  lemma HexIsSpelled(w: nat, upper: bool)
    ensures var t := Hex(w, HexCount(w), upper);
            |t| >= 1 && (t[0] == 48 ==> |t| == 1) && Hexadecimal(t, w, upper)
  {
    HexPrinted(w, upper);
    HexDigits(w, HexCount(w), upper);
  }

  lemma PointerIsSpelled(w: nat)
    requires w < WORD
    ensures Hexadecimal(Hex(w, 8, false), w, false)
  {
    assert Pow16(8) == WORD by { assert Pow16(4) == 65536; }
    HexRoundTrip(w, 8, false);
    HexDigits(w, 8, false);
  }

  /** Every conversion prints what it should; only strings go out whole. */
  lemma RenderSpells(c: Byte, alternate: bool, args: seq<Arg>)
    requires ArgFits(c, args)
    ensures Spelled(c, alternate, args, Render(c, alternate, args).b)
    ensures Render(c, alternate, args).Whole? <==> c == 115
    ensures Used(c) == if c in {100, 105, 117, 120, 88, 112, 99, 115} then 1 else 0
  {
    hide Dec, SignedDec, Hex, HexText, HexCount, Decimal, Hexadecimal;
    if c == 100 || c == 105 {
      SignedIsSpelled(args[0].w);
    } else if c == 117 {
      DecIsDecimal(args[0].w);
    } else if c == 120 || c == 88 {
      HexIsSpelled(args[0].w, c == 88);
      PrefixedHex(args[0].w, HexCount(args[0].w), c == 88, alternate);
    } else if c == 112 {
      PointerIsSpelled(args[0].w);
      PrefixedHex(args[0].w, 8, false, true);
    }
  }

  lemma PrefixedHex(w: nat, n: nat, upper: bool, alternate: bool)
    ensures var t := HexText(w, n, upper, alternate);
            if alternate then |t| == n + 2 && t[..2] == [48, if upper then 88 else 120] && t[2..] == Hex(w, n, upper)
            else t == Hex(w, n, upper)
  {
    assert [] + Hex(w, n, upper) == Hex(w, n, upper);
  }

  /** The unbounded rendering of a format, stated without the functions that
      compute it.  A directive prints what `Spelled` says, then the rest of the
      format is printed; without room for it all, a string is dropped and
      anything else is cut off. */
  lemma Directive(format: seq<Byte>, args: seq<Arg>) returns (t: seq<Byte>)
    requires Matches(format, args) && |format| >= 2 && format[0] == 37 && (format[1] == 35 ==> |format| >= 3)
    ensures var alternate := format[1] == 35;
            var c, width := if alternate then format[2] else format[1], if alternate then 3 else 2;
            var used := if c in {100, 105, 117, 120, 88, 112, 99, 115} then 1 else 0;
            && Spelled(c, alternate, args, t)
            && used <= |args| && Matches(format[width..], args[used..])
            && Flatten(Chunks(format, args)) == t + Flatten(Chunks(format[width..], args[used..]))
            && forall out, cap: nat ::
                 Emit(out, Chunks(format, args), cap) ==
                   if |out| + |t| <= cap then Emit(out + t, Chunks(format[width..], args[used..]), cap)
                   else if c == 115 then out
                   else (out + t)[..cap]
  {
    hide Render, Spelled, Used, Emit;
    var j := SpecifierAt(format);
    RenderSpells(format[j], j == 2, args);
    t := Render(format[j], j == 2, args).b;
    var p := First(format, args);
    assert Chunks(format, args)[1..] == Chunks(format[p.width..], args[p.used..]);
    forall out, cap: nat
      ensures Emit(out, Chunks(format, args), cap) ==
                if |out| + |t| <= cap then Emit(out + t, Chunks(format[p.width..], args[p.used..]), cap)
                else if format[j] == 115 then out
                else (out + t)[..cap]
    {
      EmitFirst(out, format, args, cap);
    }
  }

  /** Outside directives the text stands for itself. */
  lemma {:induction false} PlainText(format: seq<Byte>, args: seq<Arg>)
    requires 37 !in format
    ensures Matches(format, args) && Flatten(Chunks(format, args)) == format
    decreases |format|
  {
    if |format| > 0 {
      assert format[0] in format;
      PlainText(format[1..], args);
      assert args[0..] == args;
    }
  }

  lemma PlainByte(format: seq<Byte>, args: seq<Arg>)
    requires |format| > 0 && format[0] != 37 && Matches(format, args)
    ensures Matches(format[1..], args)
    ensures Flatten(Chunks(format, args)) == [format[0]] + Flatten(Chunks(format[1..], args))
  {
    assert args[0..] == args;
    assert Chunks(format, args)[1..] == Chunks(format[1..], args);
  }

  /** A format that ends inside a directive prints nothing more. */
  lemma CutShort(args: seq<Arg>)
    ensures Matches([37], args) && Flatten(Chunks([37], args)) == []
    ensures Matches([37, 35], args) && Flatten(Chunks([37, 35], args)) == []
  {
  }

  predicate IsNumeric(c: Byte) {
    c in [Ascii('d'), Ascii('i'), Ascii('u'), Ascii('x'), Ascii('X'), Ascii('p')]
  }

  /** Lines 130-141 of `kvsnprintf`: the numeric conversions. */
  method WriteNumber(cursor: Cursor, c: Byte, alternate: bool, args: seq<Arg>) returns (ok: bool)
    requires cursor.Valid() && ArgFits(c, args) && IsNumeric(c)
    modifies cursor, cursor.buffer
    ensures cursor.Valid()
    ensures ok == (|old(cursor.Contents()) + Render(c, alternate, args).b| <= cursor.end)
    ensures cursor.Contents() == EmitOne(old(cursor.Contents()), Render(c, alternate, args), cursor.end)
    ensures forall i :: cursor.current <= i < cursor.buffer.Length ==> cursor.buffer[i] == old(cursor.buffer[i])
  {
    hide Dec, Hex, SignedDec, HexText, HexCount;
    if c == Ascii('d') || c == Ascii('i') {
      ok := cursor.WriteI32Dec(args[0].w);
    } else if c == Ascii('u') {
      ok := cursor.WriteU32Dec(args[0].w);
    } else if c == Ascii('x') || c == Ascii('X') {
      HexCountSuffices(args[0].w);
      var n := cursor.HexDigitCount(args[0].w);
      ok := cursor.WriteHexNibbles(args[0].w, n, c == Ascii('X'), alternate);
    } else {
      ok := cursor.WriteHexNibbles(args[0].w, 8, false, true);
    }
  }

  /** Lines 130-156 of `kvsnprintf`: one conversion. */
  method WriteSpecifier(cursor: Cursor, c: Byte, alternate: bool, args: seq<Arg>) returns (ok: bool)
    requires cursor.Valid() && ArgFits(c, args)
    modifies cursor, cursor.buffer
    ensures cursor.Valid()
    ensures ok == (|old(cursor.Contents()) + Render(c, alternate, args).b| <= cursor.end)
    ensures cursor.Contents() == EmitOne(old(cursor.Contents()), Render(c, alternate, args), cursor.end)
    ensures ok ==> exists t :: Spelled(c, alternate, args, t) && cursor.Contents() == old(cursor.Contents()) + t
    ensures forall i :: cursor.current <= i < cursor.buffer.Length ==> cursor.buffer[i] == old(cursor.buffer[i])
  {
    hide Dec, Hex, SignedDec, HexText, HexCount, Spelled;
    RenderSpells(c, alternate, args);
    if IsNumeric(c) {
      ok := WriteNumber(cursor, c, alternate, args);
    } else if c == Ascii('s') {
      ok := cursor.Write(if args[0].s.None? then NULL_TEXT else args[0].s.value);
    } else if c == Ascii('c') {
      ok := cursor.WriteByte(args[0].w % 256);
    } else if c == PERCENT {
      ok := cursor.WriteByte(PERCENT);
    } else {
      ghost var was, full := cursor.Contents(), [PERCENT, c];
      assert full[..0] == [] && full[..1] == [PERCENT] && full[..2] == full;
      ok := cursor.PutNext(PERCENT, was, full, 0);
      if ok {
        ok := cursor.PutNext(c, was, full, 1);
      }
    }
  }

  /** The directive at `index`: write it and say how far to advance.  `more` is
      false when the source leaves its loop. */
  method WriteDirective(cursor: Cursor, format: seq<Byte>, index: nat, args: seq<Arg>)
    returns (more: bool, width: nat, used: nat)
    requires cursor.Valid() && index < |format| && FirstFits(format[index..], args)
    modifies cursor, cursor.buffer
    ensures cursor.Valid()
    ensures var p := First(format[index..], args);
            if p.End? then !more && cursor.Contents() == old(cursor.Contents())
            else
              && more == (|old(cursor.Contents()) + p.chunk.b| <= cursor.end)
              && cursor.Contents() == EmitOne(old(cursor.Contents()), p.chunk, cursor.end)
              && (more ==> width == p.width && used == p.used)
    ensures forall i :: cursor.current <= i < cursor.buffer.Length ==> cursor.buffer[i] == old(cursor.buffer[i])
  {
    hide Render;
    var current := format[index];
    if current != PERCENT {
      more := cursor.WriteByte(current);
      return more, 1, 0;
    }
    var at := index + 1;
    if at >= |format| {
      return false, 0, 0;
    }
    current := format[at];
    var alternate := false;
    if current == Ascii('#') {
      alternate := true;
      at := at + 1;
      if at >= |format| {
        return false, 0, 0;
      }
      current := format[at];
    }
    more := WriteSpecifier(cursor, current, alternate, args);
    return more, at + 1 - index, if TakesWord(current) || TakesText(current) then 1 else 0;
  }

  /** `kvsnprintf`.  The text is `Emit`, and so a prefix of the unbounded
      rendering; it is terminated inside the buffer, nothing after the
      terminator is touched, and the result counts the terminator.  Sizes 0 and
      1 leave the buffer alone and return 0. */
  method Vsnprintf(buffer: array<Byte>, size: nat, format: CString, args: seq<Arg>) returns (written: nat)
    requires size <= buffer.Length && Matches(format, args)
    modifies buffer
    ensures size < 2 ==> written == 0 && buffer[..] == old(buffer[..])
    ensures size >= 2 ==>
              var out := Emit([], Chunks(format, args), size - 1);
              && written == |out| + 1 <= size
              && buffer[..|out|] == out && buffer[|out|] == 0
              && forall i :: |out| < i < buffer.Length ==> buffer[i] == old(buffer[i])
  {
    if size == 0 {
      return 0;
    }
    if size - 1 == 0 {
      return 0;
    }
    hide Emit, Chunks, Matches;
    EmitIsPrefix([], Chunks(format, args), size - 1);
    var cursor := new Cursor(buffer, size - 1);
    FormatLoop(cursor, format, args);
    written := cursor.current;
    buffer[written] := 0;
    written := written + 1;
  }

  method FormatLoop(cursor: Cursor, format: seq<Byte>, args: seq<Arg>)
    requires cursor.Valid() && cursor.Contents() == [] && Matches(format, args)
    modifies cursor, cursor.buffer
    ensures cursor.Valid() && cursor.Contents() == Emit([], Chunks(format, args), cursor.end)
    ensures forall i :: cursor.current <= i < cursor.buffer.Length ==> cursor.buffer[i] == old(cursor.buffer[i])
  {
    hide First, FirstFits, Matches, Chunks, Emit;
    var index: nat, used: nat := 0, 0;
    assert format[0..] == format && args[0..] == args;
    while index < |format|
      invariant cursor.Valid() && index <= |format| && used <= |args| && Matches(format[index..], args[used..])
      invariant Emit([], Chunks(format, args), cursor.end) ==
                  Emit(cursor.Contents(), Chunks(format[index..], args[used..]), cursor.end)
      invariant forall i :: cursor.current <= i < cursor.buffer.Length ==> cursor.buffer[i] == old(cursor.buffer[i])
    {
      ghost var f, a := format[index..], args[used..];
      MatchesFirst(f, a);
      EmitFirst(cursor.Contents(), f, a, cursor.end);
      var more, width, taken := WriteDirective(cursor, format, index, args[used..]);
      if !more {
        return;
      }
      assert f[width..] == format[index + width..] && a[taken..] == args[used + taken..];
      index, used := index + width, used + taken;
    }
    EmitNothing(cursor.Contents(), format[index..], args[used..], cursor.end);
  }

  lemma MatchesFirst(format: seq<Byte>, args: seq<Arg>)
    requires |format| > 0 && Matches(format, args)
    ensures FirstFits(format, args)
  {
  }

  lemma EmitNothing(out: seq<Byte>, format: seq<Byte>, args: seq<Arg>, cap: nat)
    requires |format| == 0
    ensures Matches(format, args) && Emit(out, Chunks(format, args), cap) == out
  {
  }
}
