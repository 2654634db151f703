/** The bounded write cursor, and the number printers on top of it. */
module Cursors {
  import opened Bits
  import opened Numbers

  /** What a byte-by-byte writer leaves behind when `s` should be the contents
      of a buffer with room for `cap` bytes. */
  function Clip(s: seq<Byte>, cap: nat): seq<Byte> {
    if |s| <= cap then s else s[..cap]
  }

  function Pow10(k: nat): (r: nat)
    ensures r >= 1
  {
    if k == 0 then 1 else 10 * Pow10(k - 1)
  }

  /** `value` has leading part `q` and a low part `rest` below `p`. */
  ghost predicate Splits(value: nat, q: nat, rest: nat, p: nat) {
    value == q * p + rest && rest < p
  }

  /** Dividing out the low digits leaves the leading ones. */
  lemma {:induction false} LeadingDigits(v: nat, q: nat, rest: nat, k: nat)
    requires Splits(v, q, rest, Pow10(k)) && q > 0
    ensures Dec(q) <= Dec(v)
  {
    if k == 0 {
      assert q * 1 == q;
    } else {
      var p := Pow10(k - 1);
      var x := q * p;
      assert q * (10 * p) == 10 * x;
      MulMonotone(1, q, p);
      LeadingDigits(v / 10, q, rest / 10, k - 1);
    }
  }

  /** One digit of the printing loop: `q` has been printed, `rest` has not. */
  lemma NextDigit(v: nat, q: nat, rest: nat, d: nat, digit: nat, r: nat)
    requires Splits(v, q, rest, 10 * d) && Splits(rest, digit, r, d)
    ensures digit < 10 && Splits(v, 10 * q + digit, r, d)
    ensures d <= rest ==> digit > 0
  {
    MultiplesApart(d, 9, digit);
    var x, y := q * d, digit * d;
    assert q * (10 * d) == 10 * x;
    assert (10 * q + digit) * d == 10 * x + y;
  }

  /** What division and remainder compute. */
  lemma DivSplits(a: nat, d: nat)
    requires d >= 1
    ensures Splits(a, a / d, a % d, d)
  {
  }

  lemma TenthPower(k: nat)
    ensures Pow10(k) / 10 == if k > 0 then Pow10(k - 1) else 0
  {
  }

  lemma NothingLeft(v: nat, q: nat, rest: nat)
    requires Splits(v, q, rest, Pow10(0))
    ensures v == q
  {
  }

  lemma SplitsZero(v: nat, rest: nat, p: nat)
    requires Splits(v, 0, rest, p)
    ensures rest == v
  {
  }

  /** State of the printing loop: `printed` are the leading digits `q` of
      `value`, and `rest` is what the `todo` low digits amount to. */
  ghost predicate Printing(value: nat, q: nat, rest: nat, todo: nat, printed: seq<Byte>) {
    && Splits(value, q, rest, Pow10(todo))
    && (if printed == [] then todo > 0 && q == 0 && (value == 0 || Pow10(todo - 1) <= value)
        else printed == Dec(q) && (todo > 0 ==> q > 0))
    && (value == 0 ==> todo <= 1)
    && printed <= Dec(value)
  }

  lemma PrintDigit(value: nat, q: nat, rest: nat, todo: nat, printed: seq<Byte>, digit: nat, r: nat)
    requires Printing(value, q, rest, todo, printed) && todo > 0
    requires Splits(rest, digit, r, Pow10(todo - 1))
    ensures digit < 10 && Printing(value, 10 * q + digit, r, todo - 1, printed + [Digit(digit)])
  {
    hide Splits;
    NextDigit(value, q, rest, Pow10(todo - 1), digit, r);
    var q' := 10 * q + digit;
    if printed == [] {
      SplitsZero(value, rest, Pow10(todo));
      assert Dec(q') == [Digit(digit)];
    } else {
      assert q' / 10 == q && q' % 10 == digit;
    }
    assert printed + [Digit(digit)] == Dec(q');
    if q' > 0 {
      LeadingDigits(value, q', r, todo - 1);
    }
  }

  lemma PrintingPrefix(value: nat, q: nat, rest: nat, todo: nat, printed: seq<Byte>)
    requires Printing(value, q, rest, todo, printed)
    ensures printed <= Dec(value) && (todo == 0 ==> printed == Dec(value))
  {
    hide Splits;
    if todo == 0 {
      NothingLeft(value, q, rest);
    }
  }

  lemma StartPrinting(value: nat, k: nat)
    requires value < 10 * Pow10(k) && if value == 0 then k == 0 else Pow10(k) <= value
    ensures Printing(value, 0, value, k + 1, [])
  {
  }

  lemma ClipPrefix(was: seq<Byte>, printed: seq<Byte>, next: Byte, full: seq<Byte>, cap: nat)
    requires printed + [next] <= full && |was + printed| == cap
    ensures Clip(was + full, cap) == was + printed && |was + full| > cap
  {
  }

  /** Hexadecimal text with the optional `0x` prefix. */
  function HexText(value: nat, n: nat, upper: bool, alternate: bool): seq<Byte> {
    (if alternate then [Ascii('0'), if upper then Ascii('X') else Ascii('x')] else []) + Hex(value, n, upper)
  }

  class Cursor {
    const buffer: array<Byte>
    const end: nat
    var current: nat

    ghost predicate Valid()
      reads this
    {
      current <= end <= buffer.Length
    }

    /** What has been written so far. */
    ghost function Contents(): (s: seq<Byte>)
      requires Valid()
      reads this, buffer
      ensures |s| == current
    {
      buffer[..current]
    }

    /** `kcursor_init` with a nonzero size. */
    constructor (buffer: array<Byte>, size: nat)
      requires 0 < size <= buffer.Length
      ensures Valid() && this.buffer == buffer && end == size && Contents() == []
    {
      this.buffer, end, current := buffer, size, 0;
    }

    method WriteByte(value: Byte) returns (ok: bool)
      requires Valid()
      modifies this, buffer
      ensures Valid() && ok == (old(current) < end)
      ensures Contents() == Clip(old(Contents()) + [value], end)
      ensures forall i :: current <= i < buffer.Length ==> buffer[i] == old(buffer[i])
    {
      if end - current == 0 {
        return false;
      }
      buffer[current] := value;
      current := current + 1;
      return true;
    }

    /** All of `source` or nothing. */
    method Write(source: seq<Byte>) returns (ok: bool)
      requires Valid()
      modifies this, buffer
      ensures Valid() && ok == (old(current) + |source| <= end)
      ensures Contents() == if ok then old(Contents()) + source else old(Contents())
      ensures forall i :: current <= i < buffer.Length ==> buffer[i] == old(buffer[i])
    {
      if |source| == 0 {
        return true;
      }
      if |source| > end - current {
        return false;
      }
      for i := 0 to |source|
        invariant buffer[..old(current)] == old(buffer[..current])
        invariant forall j :: 0 <= j < i ==> buffer[old(current) + j] == source[j]
        invariant forall j :: old(current) + i <= j < buffer.Length ==> buffer[j] == old(buffer[j])
        invariant current == old(current)
      {
        buffer[current + i] := source[i];
      }
      current := current + |source|;
      return true;
    }

    /** The largest power of ten not above `value` (1 for 0).  The product never
        leaves 32 bits. */
    method Divisor(value: nat) returns (divisor: nat, ghost k: nat)
      requires value < WORD
      ensures divisor == Pow10(k) < WORD && value < 10 * divisor
      ensures if value == 0 then k == 0 else divisor <= value
    {
      var temp := value;
      divisor := 1;
      k := 0;
      while temp >= 10
        invariant divisor == Pow10(k) < WORD && Scaled(value, temp, divisor)
        invariant if value == 0 then k == 0 else temp > 0
        decreases temp
      {
        hide Scaled;
        DivisorStep(value, temp, divisor);
        divisor := divisor * 10;
        temp := temp / 10;
        k := k + 1;
      }
      LastStep(value, temp, divisor);
    }

    /** `temp` is `value / divisor`. */
    ghost predicate Scaled(value: nat, temp: nat, divisor: nat) {
      temp * divisor <= value < temp * divisor + divisor
    }

    lemma LastStep(value: nat, temp: nat, divisor: nat)
      requires Scaled(value, temp, divisor) && temp < 10
      ensures value < 10 * divisor && (temp > 0 ==> divisor <= value)
    {
    }

    lemma DivisorStep(value: nat, temp: nat, divisor: nat)
      requires value < WORD && temp >= 10 && Scaled(value, temp, divisor)
      ensures 10 * divisor < WORD && Scaled(value, temp / 10, divisor * 10)
    {
      MulMonotone(10, temp, divisor);
      var t, u := temp / 10, temp % 10;
      var x := t * divisor;
      assert temp * divisor == 10 * x + u * divisor;
      assert t * (divisor * 10) == 10 * x;
      MulMonotone(u, 9, divisor);
    }

    /** `write_u32_dec` prints exactly `Dec(value)`, as far as it fits. */
    method WriteU32Dec(value: nat) returns (ok: bool)
      requires Valid() && value < WORD
      modifies this, buffer
      ensures Valid() && ok == (old(current) + |Dec(value)| <= end)
      ensures Contents() == Clip(old(Contents()) + Dec(value), end)
      ensures forall i :: current <= i < buffer.Length ==> buffer[i] == old(buffer[i])
    {
      hide Printing, Splits, Dec, Pow10;
      var divisor, k := Divisor(value);
      var rest: nat := value;
      ghost var q: nat, todo: nat := 0, k + 1;
      ghost var was, printed: seq<Byte> := Contents(), [];
      StartPrinting(value, k);
      while divisor != 0
        invariant Valid() && divisor == (if todo > 0 then Pow10(todo - 1) else 0)
        invariant Printing(value, q, rest, todo, printed) && Contents() == was + printed
        invariant forall i :: current <= i < buffer.Length ==> buffer[i] == old(buffer[i])
        decreases todo
      {
        DivSplits(rest, divisor);
        var digit: nat := rest / divisor;
        PrintDigit(value, q, rest, todo, printed, digit, rest % divisor);
        TenthPower(todo - 1);
        ok := WriteByte(Digit(digit));
        PrintingPrefix(value, 10 * q + digit, rest % divisor, todo - 1, printed + [Digit(digit)]);
        if !ok {
          ClipPrefix(was, printed, Digit(digit), Dec(value), end);
          return false;
        }
        q, printed := 10 * q + digit, printed + [Digit(digit)];
        rest, divisor, todo := rest % divisor, divisor / 10, todo - 1;
      }
      PrintingPrefix(value, q, rest, todo, printed);
      return true;
    }

    /** `write_i32_dec`; the negation is done on the unsigned word. */
    method WriteI32Dec(w: nat) returns (ok: bool)
      requires Valid() && w < WORD
      modifies this, buffer
      ensures Valid() && ok == (old(current) + |SignedDec(w)| <= end)
      ensures Contents() == Clip(old(Contents()) + SignedDec(w), end)
      ensures forall i :: current <= i < buffer.Length ==> buffer[i] == old(buffer[i])
    {
      hide Dec;
      ghost var was := Contents();
      if w >= WORD / 2 {
        ok := WriteByte(Ascii('-'));
        if !ok {
          assert Clip(was + SignedDec(w), end) == was;
          return false;
        }
        ok := WriteU32Dec((WORD - w) % WORD);
        assert was + [Ascii('-')] + Dec(WORD - w) == was + SignedDec(w);
      } else {
        ok := WriteU32Dec(w);
      }
    }

    /** The next byte of `full`, of which `m` bytes are out already. */
    method PutNext(value: Byte, ghost was: seq<Byte>, ghost full: seq<Byte>, ghost m: nat) returns (ok: bool)
      requires Valid() && m < |full| && full[m] == value && Contents() == was + full[..m]
      modifies this, buffer
      ensures Valid() && ok == (|was| + m < end)
      ensures ok ==> Contents() == was + full[..m + 1]
      ensures !ok ==> Contents() == Clip(was + full, end) && |was + full| > end
      ensures forall i :: current <= i < buffer.Length ==> buffer[i] == old(buffer[i])
    {
      assert full[..m + 1] == full[..m] + [value];
      ok := WriteByte(value);
      if !ok {
        ClipPrefix(was, full[..m], value, full, end);
      }
    }

    /** `write_hex_nibbles` after the prefix: `n` nibbles, high to low. */
    method WriteNibbles(value: nat, n: nat, upper: bool) returns (ok: bool)
      requires Valid() && n >= 1
      modifies this, buffer
      ensures Valid() && ok == (old(current) + n <= end)
      ensures Contents() == Clip(old(Contents()) + Hex(value, n, upper), end)
      ensures forall i :: current <= i < buffer.Length ==> buffer[i] == old(buffer[i])
    {
      hide Hex, BitAnd;
      ghost var was, full, m := Contents(), Hex(value, n, upper), 0;
      var shift := (n - 1) * 4;
      while shift >= 0
        invariant Valid() && 0 <= m <= n && shift == (n - 1 - m) * 4
        invariant Contents() == was + full[..m]
        invariant forall i :: current <= i < buffer.Length ==> buffer[i] == old(buffer[i])
        decreases n - m
      {
        HexAt(value, n, upper, n - 1 - m);
        LowNibble(Shr(value, shift));
        var digit := BitAnd(Shr(value, shift), 0xF);
        ok := PutNext(HexDigit(digit, upper), was, full, m);
        if !ok {
          return false;
        }
        shift, m := shift - 4, m + 1;
      }
      assert full[..n] == full;
      return true;
    }

    lemma LowNibble(a: nat)
      ensures BitAnd(a, 0xF) == a % 16
    {
      AndLowMask(a, 4);
      LowBitsIsModulo(a, 4);
      assert Pow2(4) == 16;
    }

    /** `write_hex_nibbles`. */
    method WriteHexNibbles(value: nat, n: nat, upper: bool, alternate: bool) returns (ok: bool)
      requires Valid() && n >= 1
      modifies this, buffer
      ensures Valid() && ok == (old(current) + |HexText(value, n, upper, alternate)| <= end)
      ensures Contents() == Clip(old(Contents()) + HexText(value, n, upper, alternate), end)
      ensures forall i :: current <= i < buffer.Length ==> buffer[i] == old(buffer[i])
    {
      hide Hex;
      ghost var was, full := Contents(), HexText(value, n, upper, alternate);
      if alternate {
        assert full[..0] == [];
        ok := PutNext(Ascii('0'), was, full, 0);
        if !ok {
          return false;
        }
        ok := PutNext(if upper then Ascii('X') else Ascii('x'), was, full, 1);
        if !ok {
          return false;
        }
        assert was + full[..2] + Hex(value, n, upper) == was + full;
      }
      ok := WriteNibbles(value, n, upper);
    }

    method HexDigitCount(value: nat) returns (count: nat)
      ensures count == HexCount(value)
    {
      count := 1;
      var v := Shr(value, 4);
      ShrNibble(value, 0);
      while v != 0
        invariant HexCount(value) == if v == 0 then count else count + HexCount(v)
        decreases v
      {
        ShrNibble(v, 0);
        count, v := count + 1, Shr(v, 4);
      }
    }
  }
}
