/** Powers of two, alignment, and the bitwise operators the kernel applies to
    unsigned words.  Alignment is defined by halving, which keeps every
    geometric argument about buddy blocks linear; `AlignedIsModulo` ties it to
    the remainder test that the source writes. */
module Bits {

  /** One more than the largest value of `uintptr_t`, `size_t` and `uint32_t`. */
  const WORD: nat := 0x1_0000_0000

  function Pow2(k: nat): (r: nat)
    ensures r >= 1
  {
    if k == 0 then 1 else 2 * Pow2(k - 1)
  }

  /** `i` is a multiple of `2^k`. */
  predicate Aligned(i: nat, k: nat) {
    k == 0 || (i % 2 == 0 && Aligned(i / 2, k - 1))
  }

  lemma {:induction false} AlignedIsModulo(i: nat, k: nat)
    ensures Aligned(i, k) <==> i % Pow2(k) == 0
  {
    if k == 0 {
    } else {
      AlignedIsModulo(i / 2, k - 1);
      RemainderHalves(i, Pow2(k - 1));
    }
  }

  lemma MultiplePlus(m: nat, q: nat, r: nat)
    requires r < m
    ensures (m * q + r) % m == r
    ensures (m * q + r) / m == q
  {
    var x := m * q + r;
    Quotient(m, q, r, x / m, x % m);
  }

  /** Quotient and remainder are unique. */
  lemma Quotient(m: nat, q: nat, r: nat, d: nat, s: nat)
    requires r < m && s < m && m * q + r == m * d + s
    ensures q == d && r == s
  {
    MultiplesApart(m, d, q);
    MultiplesApart(m, q, d);
  }

  lemma MulMonotone(a: nat, b: nat, c: nat)
    requires a <= b
    ensures a * c <= b * c
  {
  }

  lemma MultiplesApart(m: nat, d: nat, q: nat)
    ensures d < q ==> m * d + m <= m * q
  {
    if d < q {
      assert m * q == m * (d + 1) + m * (q - d - 1);
    }
  }

  /** A multiple of `2^k` is a multiple of every smaller power. */
  lemma {:induction false} AlignedWeaken(i: nat, j: nat, k: nat)
    requires Aligned(i, k) && j <= k
    ensures Aligned(i, j)
  {
    if j > 0 {
      AlignedWeaken(i / 2, j - 1, k - 1);
    }
  }

  lemma {:induction false} AlignedAddPow(i: nat, j: nat, k: nat)
    requires Aligned(i, j) && j <= k
    ensures Aligned(i + Pow2(k), j)
  {
    if j > 0 {
      AlignedAddPow(i / 2, j - 1, k - 1);
      assert (i + Pow2(k)) / 2 == i / 2 + Pow2(k - 1);
    }
  }

  lemma {:induction false} AlignedZero(k: nat)
    ensures Aligned(0, k)
  {
    if k > 0 {
      AlignedZero(k - 1);
    }
  }

  /** Distinct multiples of `2^k` are at least `2^k` apart. */
  lemma {:induction false} AlignedGap(i: nat, j: nat, k: nat)
    requires Aligned(i, k) && Aligned(j, k) && i < j
    ensures i + Pow2(k) <= j
  {
    if k > 0 {
      AlignedGap(i / 2, j / 2, k - 1);
    }
  }

  /** The two halves of an aligned run of `2^(k+1)` pages. */
  lemma {:induction false} AlignedHalves(i: nat, k: nat)
    requires Aligned(i, k)
    ensures Aligned(i, k + 1) ==> Aligned(i + Pow2(k), k) && !Aligned(i + Pow2(k), k + 1)
    ensures !Aligned(i, k + 1) ==> i >= Pow2(k) && Aligned(i - Pow2(k), k + 1)
  {
    if k == 0 {
      assert Aligned(i, 1) <==> i % 2 == 0;
      assert Aligned(i + 1, 1) <==> (i + 1) % 2 == 0;
      if i % 2 == 1 {
        assert Aligned((i - 1) / 2, 0);
      }
    } else {
      AlignedHalves(i / 2, k - 1);
      if Aligned(i, k + 1) {
        assert (i + Pow2(k)) / 2 == i / 2 + Pow2(k - 1);
      } else {
        assert (i - Pow2(k)) / 2 == i / 2 - Pow2(k - 1);
      }
    }
  }

  lemma {:induction false} Pow2Monotone(j: nat, k: nat)
    requires j <= k
    ensures Pow2(j) <= Pow2(k)
    ensures j < k ==> 2 * Pow2(j) <= Pow2(k)
    decreases k
  {
    if j < k {
      Pow2Monotone(j, k - 1);
    }
  }

  lemma {:induction false} Pow2Sum(j: nat, k: nat)
    ensures Pow2(j + k) == Pow2(j) * Pow2(k)
  {
    if j > 0 {
      Pow2Sum(j - 1, k);
    }
  }

  lemma AlignedDouble(x: nat, k: nat)
    ensures Aligned(2 * x, k + 1) <==> Aligned(x, k)
  {
    assert (2 * x) % 2 == 0 && (2 * x) / 2 == x;
  }

  /** Scaling by a power of two shifts alignment. */
  lemma {:induction false} AlignedScale(i: nat, k: nat, s: nat)
    ensures Aligned(i * Pow2(s), k + s) <==> Aligned(i, k)
  {
    hide Aligned;
    if s > 0 {
      AlignedScale(i, k, s - 1);
      AlignedDouble(i * Pow2(s - 1), k + s - 1);
      assert i * Pow2(s) == 2 * (i * Pow2(s - 1));
    }
  }

  /** Bitwise exclusive or of two unsigned words. */
  function BitXor(a: nat, b: nat): nat
    decreases a + b
  {
    if a == 0 && b == 0 then 0
    else (a % 2 + b % 2) % 2 + 2 * BitXor(a / 2, b / 2)
  }

  /** Bitwise and of two unsigned words. */
  function BitAnd(a: nat, b: nat): nat
    decreases a + b
  {
    if a == 0 && b == 0 then 0
    else (if a % 2 == 1 && b % 2 == 1 then 1 else 0) + 2 * BitAnd(a / 2, b / 2)
  }

  /** Exclusive or with a single bit moves an aligned offset to the other half
      of its enclosing run: this is why the source's XOR finds the buddy. */
  lemma {:induction false} XorTogglesBit(i: nat, k: nat)
    requires Aligned(i, k)
    ensures Aligned(i, k + 1) ==> BitXor(i, Pow2(k)) == i + Pow2(k)
    ensures !Aligned(i, k + 1) ==> i >= Pow2(k) && BitXor(i, Pow2(k)) == i - Pow2(k)
  {
    if k == 0 {
      XorZero(i / 2);
      assert Aligned(i, 1) <==> i % 2 == 0;
      assert BitXor(i, 1) == (i % 2 + 1) % 2 + 2 * BitXor(i / 2, 0);
    } else {
      hide BitXor;
      XorTogglesBit(i / 2, k - 1);
      XorEven(i, Pow2(k - 1));
    }
  }

  lemma XorEven(a: nat, b: nat)
    requires b > 0
    ensures BitXor(a, 2 * b) == a % 2 + 2 * BitXor(a / 2, b)
  {
    assert (2 * b) % 2 == 0 && (2 * b) / 2 == b;
  }

  lemma {:induction false} XorZero(a: nat)
    ensures BitXor(a, 0) == a
  {
    if a > 0 {
      XorZero(a / 2);
    }
  }

  /** The low `k` bits of `a`, by halving. */
  function LowBits(a: nat, k: nat): nat {
    if k == 0 then 0 else a % 2 + 2 * LowBits(a / 2, k - 1)
  }

  lemma {:induction false} LowBitsIsModulo(a: nat, k: nat)
    ensures LowBits(a, k) == a % Pow2(k)
  {
    if k > 0 {
      LowBitsIsModulo(a / 2, k - 1);
      RemainderHalves(a, Pow2(k - 1));
    }
  }

  lemma RemainderHalves(a: nat, m: nat)
    requires m >= 1
    ensures a % (2 * m) == a % 2 + 2 * ((a / 2) % m)
  {
    var q, h := (a / 2) / m, (a / 2) % m;
    assert a / 2 == m * q + h;
    assert 2 * (m * q) == (2 * m) * q;
    MultiplePlus(2 * m, q, 2 * h + a % 2);
  }

  /** Masking with `2^k - 1` is the remainder by `2^k`. */
  lemma {:induction false} AndLowMask(a: nat, k: nat)
    ensures BitAnd(a, Pow2(k) - 1) == LowBits(a, k)
  {
    hide BitAnd;
    if k == 0 {
      AndZero(a);
    } else {
      AndLowMask(a / 2, k - 1);
      AndOdd(a, Pow2(k - 1) - 1);
    }
  }

  lemma {:induction false} AndZero(a: nat)
    ensures BitAnd(a, 0) == 0
  {
    if a > 0 {
      AndZero(a / 2);
    }
  }

  /** Masking with `~(2^k - 1)`, a word of `w` bits, rounds down to a multiple
      of `2^k`. */
  lemma {:induction false} AndHighMask(a: nat, k: nat, w: nat)
    requires k <= w && a < Pow2(w)
    ensures Pow2(k) <= Pow2(w)
    ensures BitAnd(a, Pow2(w) - Pow2(k)) == a - LowBits(a, k)
    decreases w
  {
    hide BitAnd;
    Pow2Monotone(k, w);
    if k == 0 {
      AndAllOnes(a, w);
    } else {
      AndHighMask(a / 2, k - 1, w - 1);
      AndEven(a, Pow2(w - 1) - Pow2(k - 1));
    }
  }

  lemma AndOdd(a: nat, b: nat)
    ensures BitAnd(a, 2 * b + 1) == a % 2 + 2 * BitAnd(a / 2, b)
  {
    assert (2 * b + 1) % 2 == 1 && (2 * b + 1) / 2 == b;
  }

  lemma AndEven(a: nat, b: nat)
    ensures BitAnd(a, 2 * b) == 2 * BitAnd(a / 2, b)
  {
    assert (2 * b) / 2 == b;
  }

  lemma {:induction false} AndAllOnes(a: nat, w: nat)
    requires a < Pow2(w)
    ensures BitAnd(a, Pow2(w) - 1) == a
  {
    hide BitAnd;
    if w > 0 {
      AndAllOnes(a / 2, w - 1);
      AndOdd(a, Pow2(w - 1) - 1);
    } else {
      AndZero(a);
    }
  }
}
