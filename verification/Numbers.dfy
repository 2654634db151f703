/** How the kernel prints numbers, and the parsers that undo it. */
module Numbers {
  import opened Bits

  type Byte = b: nat | b < 256

  function Ascii(c: char): Byte
    requires c as int < 256
  {
    c as int
  }

  // ------------------------------------------------------------- decimal

  function Digit(d: nat): Byte
    requires d < 10
  {
    Ascii('0') + d
  }

  /** Decimal digits, most significant first, without superfluous zeros. */
  function Dec(v: nat): (s: seq<Byte>)
    ensures |s| >= 1
  {
    if v < 10 then [Digit(v)] else Dec(v / 10) + [Digit(v % 10)]
  }

  predicate IsDigit(b: Byte) { Ascii('0') <= b <= Ascii('9') }

  function ParseDec(s: seq<Byte>): int {
    if |s| == 0 then 0 else 10 * ParseDec(s[..|s| - 1]) + (s[|s| - 1] - Ascii('0'))
  }

  /** Parsing decimal output returns the value, and the first digit is 0 only
      for the number 0. */
  lemma {:induction false} DecRoundTrip(v: nat)
    ensures forall i :: 0 <= i < |Dec(v)| ==> IsDigit(Dec(v)[i])
    ensures ParseDec(Dec(v)) == v
    ensures Dec(v)[0] == Ascii('0') <==> v == 0
  {
    if v >= 10 {
      DecRoundTrip(v / 10);
      var s := Dec(v);
      assert s[..|s| - 1] == Dec(v / 10);
      assert s[0] == Dec(v / 10)[0];
    } else {
      assert Dec(v)[..0] == [];
    }
  }

  /** The 32-bit word `w` as a two's complement number. */
  function Signed(w: nat): int
    requires w < WORD
  {
    if w < WORD / 2 then w else w - WORD
  }

  function SignedDec(w: nat): seq<Byte>
    requires w < WORD
  {
    if w < WORD / 2 then Dec(w) else [Ascii('-')] + Dec(WORD - w)
  }

  function ParseSigned(s: seq<Byte>): int {
    if |s| > 0 && s[0] == Ascii('-') then -ParseDec(s[1..]) else ParseDec(s)
  }

  /** Every 32-bit integer, the most negative included, survives printing and
      parsing. */
  lemma SignedRoundTrip(w: nat)
    requires w < WORD
    ensures ParseSigned(SignedDec(w)) == Signed(w)
  {
    if w < WORD / 2 {
      DecRoundTrip(w);
      assert IsDigit(Dec(w)[0]);
    } else {
      DecRoundTrip(WORD - w);
      assert SignedDec(w)[1..] == Dec(WORD - w);
    }
  }

  // --------------------------------------------------------- hexadecimal

  function HexDigit(d: nat, upper: bool): Byte
    requires d < 16
  {
    if d < 10 then Ascii('0') + d else (if upper then Ascii('A') else Ascii('a')) + (d - 10)
  }

  function HexValue(b: Byte): nat {
    if Ascii('0') <= b <= Ascii('9') then b - Ascii('0')
    else if Ascii('A') <= b <= Ascii('F') then b - Ascii('A') + 10
    else if Ascii('a') <= b <= Ascii('f') then b - Ascii('a') + 10
    else 0
  }

  /** The digits as bytes. */
  lemma DigitCodes(d: nat, upper: bool)
    requires d < 16
    ensures d < 10 ==> Digit(d) == 48 + d
    ensures HexDigit(d, upper) == if d < 10 then 48 + d else if upper then 55 + d else 87 + d
  {
  }

  predicate IsHexDigit(b: Byte, upper: bool) {
    48 <= b <= 57 || (if upper then 65 <= b <= 70 else 97 <= b <= 102)
  }

  lemma {:induction false} HexDigits(v: nat, n: nat, upper: bool)
    ensures forall i :: 0 <= i < n ==> IsHexDigit(Hex(v, n, upper)[i], upper)
  {
    if n > 0 {
      HexDigits(v / 16, n - 1, upper);
    }
  }

  /** The low `n` nibbles of `v`, most significant first. */
  function Hex(v: nat, n: nat, upper: bool): (s: seq<Byte>)
    ensures |s| == n
  {
    if n == 0 then [] else Hex(v / 16, n - 1, upper) + [HexDigit(v % 16, upper)]
  }

  function ParseHex(s: seq<Byte>): nat {
    if |s| == 0 then 0 else 16 * ParseHex(s[..|s| - 1]) + HexValue(s[|s| - 1])
  }

  function Pow16(n: nat): nat { if n == 0 then 1 else 16 * Pow16(n - 1) }

  /** Nibbles that suffice for the value print it exactly. */
  lemma {:induction false} HexRoundTrip(v: nat, n: nat, upper: bool)
    requires v < Pow16(n)
    ensures ParseHex(Hex(v, n, upper)) == v
  {
    if n > 0 {
      HexRoundTrip(v / 16, n - 1, upper);
      var s := Hex(v, n, upper);
      assert s[..n - 1] == Hex(v / 16, n - 1, upper);
      assert HexValue(HexDigit(v % 16, upper)) == v % 16;
    }
  }

  /** Number of nibbles `%x` prints. */
  function HexCount(v: nat): nat { if v < 16 then 1 else 1 + HexCount(v / 16) }

  lemma {:induction false} HexCountSuffices(v: nat)
    ensures v < Pow16(HexCount(v)) && HexCount(v) >= 1
    ensures v > 0 ==> Pow16(HexCount(v) - 1) <= v
  {
    if v >= 16 {
      HexCountSuffices(v / 16);
    } else {
      assert Pow16(1) == 16;
    }
  }

  lemma {:induction false} HexLeading(v: nat, n: nat, upper: bool)
    requires n >= 1 && Pow16(n - 1) <= v < Pow16(n)
    ensures HexValue(Hex(v, n, upper)[0]) != 0
  {
    if n == 1 {
      assert Pow16(0) == 1 && Pow16(1) == 16;
      assert Hex(v, 1, upper) == [HexDigit(v % 16, upper)];
    } else {
      HexLeading(v / 16, n - 1, upper);
      assert Hex(v, n, upper)[0] == Hex(v / 16, n - 1, upper)[0];
    }
  }

  /** `%x` parses back and has no superfluous leading zero. */
  lemma HexPrinted(v: nat, upper: bool)
    ensures ParseHex(Hex(v, HexCount(v), upper)) == v
    ensures |Hex(v, HexCount(v), upper)| >= 1
    ensures HexValue(Hex(v, HexCount(v), upper)[0]) == 0 ==> v == 0 && |Hex(v, HexCount(v), upper)| == 1
  {
    HexCountSuffices(v);
    HexRoundTrip(v, HexCount(v), upper);
    if v > 0 {
      HexLeading(v, HexCount(v), upper);
    }
  }

  /** `v >> bits`. */
  function Shr(v: nat, bits: nat): nat { if bits == 0 then v else Shr(v / 2, bits - 1) }

  lemma ShrNibble(v: nat, j: nat)
    ensures Shr(v, 4 * (j + 1)) == Shr(v / 16, 4 * j)
  {
    var b := 4 * j;
    assert Shr(v, b + 4) == Shr(v / 2, b + 3) == Shr(v / 2 / 2, b + 2);
    assert Shr(v / 2 / 2, b + 2) == Shr(v / 2 / 2 / 2, b + 1) == Shr(v / 2 / 2 / 2 / 2, b);
    assert v / 2 / 2 / 2 / 2 == v / 16;
  }

  /** The `j`-th nibble from the right is shifted and masked out of the value. */
  lemma {:induction false} HexAt(v: nat, n: nat, upper: bool, j: nat)
    requires j < n
    ensures Hex(v, n, upper)[n - 1 - j] == HexDigit(Shr(v, 4 * j) % 16, upper)
    decreases j
  {
    if j > 0 {
      HexAt(v / 16, n - 1, upper, j - 1);
      ShrNibble(v, j - 1);
      assert Hex(v, n, upper)[n - 1 - j] == Hex(v / 16, n - 1, upper)[n - 1 - j];
    }
  }
}
