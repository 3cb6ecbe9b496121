/** Machine words: powers of two, digits, and the u64 operators the index formulas use.
    Words are natural numbers below 2^64. Operators are defined digit by digit, so that every
    fact about them is an induction over the digits with linear arithmetic only. */
module Words {
  const TWO32: nat := 0x1_0000_0000
  const TWO64: nat := 0x1_0000_0000_0000_0000
  /** The width of an index. */
  const INDEX_SIZE: nat := 64

  type u64 = x: nat | x < 0x1_0000_0000_0000_0000
  type u32 = x: nat | x < 0x1_0000_0000
  type i64 = x: int | -0x8000_0000_0000_0000 <= x < 0x8000_0000_0000_0000

  // ----- powers of two, lengths and digits

  function Pow2(e: nat): (r: nat)
    ensures r > 0
  {
    if e == 0 then 1 else 2 * Pow2(e - 1)
  }

  /** The number of binary digits of x; 0 has none. */
  function BitLen(x: nat): nat {
    if x == 0 then 0 else 1 + BitLen(x / 2)
  }

  /** The number made of the lowest e digits of x, which is x mod 2^e (LowIsMod). */
  function Low(x: nat, e: nat): (r: nat)
    ensures r <= x && r < Pow2(e)
  {
    if e == 0 then 0 else 2 * Low(x / 2, e - 1) + x % 2
  }

  /** x without its lowest e digits. */
  function Shifted(x: nat, e: nat): (r: nat)
    ensures r <= x
  {
    if e == 0 then x else Shifted(x / 2, e - 1)
  }

  predicate Bit(x: nat, b: nat) {
    Shifted(x, b) % 2 == 1
  }

  /** x times 2^e. */
  function Scaled(x: nat, e: nat): nat {
    if e == 0 then x else 2 * Scaled(x, e - 1)
  }

  function CountOnes(x: nat): nat {
    if x == 0 then 0 else x % 2 + CountOnes(x / 2)
  }

  lemma {:induction false} Pow2Add(a: nat, b: nat)
    ensures Pow2(a + b) == Pow2(a) * Pow2(b)
  {
    if a > 0 {
      Pow2Add(a - 1, b);
      assert Pow2(a + b) == 2 * (Pow2(a - 1) * Pow2(b));
    }
  }

  lemma Pow2Of64()
    ensures Pow2(63) == 0x8000_0000_0000_0000 && Pow2(64) == TWO64
  {
    assert Pow2(8) == 0x100;
    Pow2Add(8, 8);
    Pow2Add(16, 16);
    Pow2Add(32, 32);
  }

  lemma {:induction false} Pow2Mono(a: nat, b: nat)
    requires a <= b
    ensures Pow2(a) <= Pow2(b)
    ensures a < b ==> 2 * Pow2(a) <= Pow2(b)
  {
    if a < b {
      Pow2Mono(a, b - 1);
    }
  }

  lemma {:induction false} BitLenBounds(x: nat)
    ensures x < Pow2(BitLen(x))
    ensures x > 0 ==> BitLen(x) > 0 && Pow2(BitLen(x) - 1) <= x
  {
    if x > 0 {
      BitLenBounds(x / 2);
    }
  }

  lemma BitLenUnique(x: nat, j: nat)
    requires x < Pow2(j) && (j > 0 ==> Pow2(j - 1) <= x)
    ensures BitLen(x) == j
  {
    BitLenBounds(x);
    if BitLen(x) < j {
      Pow2Mono(BitLen(x), j - 1);
    } else if BitLen(x) > j {
      Pow2Mono(j, BitLen(x) - 1);
    }
  }

  /** x has at most j digits exactly when x < 2^j. */
  lemma BitLenAtMost(x: nat, j: nat)
    ensures BitLen(x) <= j <==> x < Pow2(j)
  {
    BitLenBounds(x);
    if BitLen(x) <= j {
      Pow2Mono(BitLen(x), j);
    } else {
      Pow2Mono(j, BitLen(x) - 1);
    }
  }

  // ----- low digits

  lemma {:induction false} LowSmall(x: nat, e: nat)
    requires x < Pow2(e)
    ensures Low(x, e) == x
  {
    if e > 0 {
      LowSmall(x / 2, e - 1);
    }
  }

  lemma {:induction false} LowTop(x: nat, b: nat)
    ensures Low(x, b + 1) == Low(x, b) + (if Bit(x, b) then Pow2(b) else 0)
  {
    if b > 0 {
      LowTop(x / 2, b - 1);
    }
  }

  lemma {:induction false} LowLow(x: nat, a: nat, b: nat)
    requires b <= a
    ensures Low(Low(x, a), b) == Low(x, b)
    decreases b
  {
    if b > 0 {
      LowLow(x / 2, a - 1, b - 1);
      assert Low(x, a) / 2 == Low(x / 2, a - 1) && Low(x, a) % 2 == x % 2;
    }
  }

  lemma {:induction false} LowPred(n: nat, b: nat)
    requires n > 0
    ensures Low(n, b) > 0 ==> Low(n - 1, b) == Low(n, b) - 1
    ensures Low(n, b) == 0 ==> Low(n - 1, b) == Pow2(b) - 1 && n >= Pow2(b)
  {
    if b > 0 {
      if n % 2 == 0 {
        LowPred(n / 2, b - 1);
        assert (n - 1) / 2 == n / 2 - 1;
      } else {
        assert (n - 1) / 2 == n / 2;
      }
    }
  }

  /** Clearing the low e digits of x and writing y there. */
  lemma {:induction false} LowReplaced(x: nat, e: nat, y: nat)
    requires y < Pow2(e)
    ensures Low(x - Low(x, e) + y, e) == y
    ensures Shifted(x - Low(x, e) + y, e) == Shifted(x, e)
  {
    if e > 0 {
      LowReplaced(x / 2, e - 1, y / 2);
      assert (x - Low(x, e) + y) / 2 == x / 2 - Low(x / 2, e - 1) + y / 2;
    }
  }

  /** The number with the low e digits cleared. */
  lemma {:induction false} ClearedIsScaled(x: nat, e: nat)
    ensures Scaled(Shifted(x, e), e) == x - Low(x, e)
  {
    if e > 0 {
      ClearedIsScaled(x / 2, e - 1);
    }
  }

  lemma {:induction false} CountOnesHigh(x: nat, h: nat)
    requires x < Pow2(h)
    ensures CountOnes(Pow2(h) + x) == 1 + CountOnes(x)
  {
    if h > 0 {
      CountOnesHigh(x / 2, h - 1);
      assert (Pow2(h) + x) / 2 == Pow2(h - 1) + x / 2 && (Pow2(h) + x) % 2 == x % 2;
    }
  }

  lemma MulAtLeast(k: int, d: nat)
    requires k >= 1
    ensures k * d >= d
  {
  }

  lemma QuotientUnique(d: nat, q: nat, r: nat, p: nat, s: nat)
    requires r < d && s < d && q * d + r == p * d + s
    ensures q == p && r == s
  {
    assert (q - p) * d == s - r;
    if q > p {
      MulAtLeast(q - p, d);
    } else if q < p {
      MulAtLeast(p - q, d);
    }
  }

  /** Digits and division agree: the digits from e up are the quotient by 2^e, those below the remainder. */
  lemma LowIsMod(x: nat, e: nat)
    ensures Low(x, e) == x % Pow2(e) && Shifted(x, e) == x / Pow2(e)
  {
    DigitsAddUp(x, e);
    DivModIs(x, Pow2(e), Shifted(x, e), Low(x, e));
  }

  lemma DivModIs(x: nat, d: nat, q: nat, r: nat)
    requires r < d && x == q * d + r
    ensures x / d == q && x % d == r
  {
    var p, s := x / d, x % d;
    QuotientUnique(d, q, r, p, s);
  }

  lemma {:induction false} DigitsAddUp(x: nat, e: nat)
    ensures Shifted(x, e) * Pow2(e) + Low(x, e) == x
  {
    if e > 0 {
      DigitsAddUp(x / 2, e - 1);
      assert Shifted(x, e) * Pow2(e) == 2 * (Shifted(x / 2, e - 1) * Pow2(e - 1));
    }
  }

  // ----- the u64 operators

  /** x & y */
  function And(x: nat, y: nat): nat {
    if x == 0 || y == 0 then 0
    else 2 * And(x / 2, y / 2) + (if x % 2 == 1 && y % 2 == 1 then 1 else 0)
  }

  /** x | y */
  function Or(x: nat, y: nat): nat
    decreases x + y
  {
    if x == 0 then y else if y == 0 then x
    else 2 * Or(x / 2, y / 2) + (if x % 2 == 1 || y % 2 == 1 then 1 else 0)
  }

  /** x << j: digits pushed past the top of the word are lost. A shift by 64 or more is not allowed. */
  function Shl(x: u64, j: nat): u64
    requires j < 64
  {
    Scaled(x, j) % TWO64
  }

  /** x >> j */
  function Shr(x: u64, j: nat): u64
    requires j < 64
  {
    Shifted(x, j)
  }

  /** Zero digits above the highest one in a word of w digits. */
  function LeadingZeros(x: nat, w: nat): nat
    decreases w
  {
    if w == 0 || x >= Pow2(w - 1) then 0 else 1 + LeadingZeros(x, w - 1)
  }

  lemma {:induction false} AndMask(x: nat, j: nat)
    ensures And(x, Pow2(j) - 1) == Low(x, j)
  {
    if x == 0 {
      LowSmall(0, j);
    } else if j > 0 {
      AndMask(x / 2, j - 1);
      assert (Pow2(j) - 1) / 2 == Pow2(j - 1) - 1 && (Pow2(j) - 1) % 2 == 1;
    }
  }

  /** Setting digit b of a number that has no digit at or below b adds 2^b. */
  lemma {:induction false} OrPow2(a: nat, b: nat)
    ensures Or(Scaled(a, b + 1), Pow2(b)) == Scaled(a, b + 1) + Pow2(b)
  {
    if b > 0 {
      OrPow2(a, b - 1);
    }
  }

  lemma {:induction false} LeadingZerosBitLen(x: nat, w: nat)
    requires x < Pow2(w)
    ensures LeadingZeros(x, w) + BitLen(x) == w
  {
    if w == 0 {
    } else if x >= Pow2(w - 1) {
      BitLenUnique(x, w);
    } else {
      LeadingZerosBitLen(x, w - 1);
    }
  }

  lemma {:induction false} ScaledOne(j: nat)
    ensures Scaled(1, j) == Pow2(j)
  {
    if j > 0 {
      ScaledOne(j - 1);
    }
  }

  lemma ShlOne(j: nat)
    requires j < 64
    ensures Shl(1, j) == Pow2(j) < TWO64
  {
    Pow2Of64();
    Pow2Mono(j, 63);
    ScaledOne(j);
  }

  /** (x >> j) << j clears the low j digits, and nothing is pushed out at the top. */
  lemma ShrShl(x: u64, j: nat)
    requires j < 64
    ensures Shl(Shr(x, j), j) == Scaled(Shifted(x, j), j) == x - Low(x, j)
  {
    ClearedIsScaled(x, j);
  }
}
