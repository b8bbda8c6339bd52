/** Fixed-width words as bounded integers, and C's bitwise operators on them. */
module Bits {

  type u8 = x: int | 0 <= x < 0x100
  type u16 = x: int | 0 <= x < 0x1_0000
  type u32 = x: int | 0 <= x < 0x1_0000_0000
  type u64 = x: int | 0 <= x < 0x1_0000_0000_0000_0000

  function Pow2(n: nat): (r: nat)
    ensures r >= 1
  {
    if n == 0 then 1 else 2 * Pow2(n - 1)
  }

  /** Bit k of x. */
  predicate Bit(x: nat, k: nat) {
    if k == 0 then x % 2 == 1 else Bit(x / 2, k - 1)
  }

  function And(x: nat, y: nat): (r: nat)
    ensures r <= x
  {
    if x == 0 then 0
    else (if x % 2 == 1 && y % 2 == 1 then 1 else 0) + 2 * And(x / 2, y / 2)
  }

  function Or(x: nat, y: nat): nat {
    if x == 0 then y
    else (if x % 2 == 1 || y % 2 == 1 then 1 else 0) + 2 * Or(x / 2, y / 2)
  }

  /** Complement of an n-bit word. */
  function Not(n: nat, x: nat): nat
    requires x < Pow2(n)
  {
    Pow2(n) - 1 - x
  }

  function Not32(x: u32): u32 {
    0xFFFF_FFFF - x
  }

  /** x with bit k forced to b: C's `x |= 1 << k` or `x &= ~(1 << k)`. */
  function SetBit(x: nat, k: nat, b: bool): nat {
    if k == 0 then x / 2 * 2 + (if b then 1 else 0)
    else 2 * SetBit(x / 2, k - 1, b) + x % 2
  }

  /** Arithmetic in a 32-bit word. */
  function Wrap32(x: nat): u32 {
    x % 0x1_0000_0000
  }

  /** The low k bits of x. */
  function Low(x: nat, k: nat): (r: nat)
    ensures r <= x && r < Pow2(k)
  {
    if k == 0 then 0 else 2 * Low(x / 2, k - 1) + x % 2
  }

  lemma {:induction false} BitOfAnd(x: nat, y: nat, k: nat)
    ensures Bit(And(x, y), k) == (Bit(x, k) && Bit(y, k))
  {
    if x == 0 {
      ZeroHasNoBits(k);
    } else if k > 0 {
      BitOfAnd(x / 2, y / 2, k - 1);
    }
  }

  lemma {:induction false} BitOfOr(x: nat, y: nat, k: nat)
    ensures Bit(Or(x, y), k) == (Bit(x, k) || Bit(y, k))
  {
    if x == 0 {
      ZeroHasNoBits(k);
    } else if k > 0 {
      BitOfOr(x / 2, y / 2, k - 1);
    }
  }

  lemma {:induction false} BitOfNot(n: nat, x: nat, k: nat)
    requires x < Pow2(n) && k < n
    ensures Bit(Not(n, x), k) == !Bit(x, k)
  {
    if k > 0 {
      assert Not(n, x) / 2 == Not(n - 1, x / 2);
      BitOfNot(n - 1, x / 2, k - 1);
    }
  }

  lemma {:induction false} BitOfSetBit(x: nat, k: nat, b: bool, j: nat)
    ensures Bit(SetBit(x, k, b), j) == if j == k then b else Bit(x, j)
  {
    if k > 0 && j > 0 {
      BitOfSetBit(x / 2, k - 1, b, j - 1);
    }
  }

  lemma {:induction false} ZeroHasNoBits(k: nat)
    ensures !Bit(0, k)
  {
    if k > 0 {
      ZeroHasNoBits(k - 1);
    }
  }

  lemma {:induction false} NoHighBits(x: nat, n: nat, k: nat)
    requires x < Pow2(n) && n <= k
    ensures !Bit(x, k)
  {
    if n == 0 {
      ZeroHasNoBits(k);
    } else {
      NoHighBits(x / 2, n - 1, k - 1);
    }
  }

  /** Words that agree on every bit are equal. */
  lemma {:induction false} SameBitsSameWord(x: nat, y: nat, n: nat)
    requires x < Pow2(n) && y < Pow2(n)
    requires forall k :: 0 <= k < n ==> Bit(x, k) == Bit(y, k)
    ensures x == y
  {
    if n > 0 {
      assert Bit(x, 0) == Bit(y, 0);
      forall k | 0 <= k < n - 1
        ensures Bit(x / 2, k) == Bit(y / 2, k)
      {
        assert Bit(x, k + 1) == Bit(y, k + 1);
      }
      SameBitsSameWord(x / 2, y / 2, n - 1);
    }
  }

  lemma {:induction false} OrBound(x: nat, y: nat, n: nat)
    requires x < Pow2(n) && y < Pow2(n)
    ensures Or(x, y) < Pow2(n)
  {
    if x > 0 {
      OrBound(x / 2, y / 2, n - 1);
    }
  }

  /** Masking with 2^n - 2^k clears the low k bits. */
  lemma {:induction false} AndHigh(n: nat, k: nat, x: nat)
    requires k <= n && x < Pow2(n)
    ensures Pow2(k) <= Pow2(n)
    ensures And(x, Pow2(n) - Pow2(k)) == x - Low(x, k)
  {
    hide And;
    PowMonotone(k, n);
    if k == 0 {
      AndOnes(n, x);
    } else {
      AndHigh(n - 1, k - 1, x / 2);
      AndEven(x, Pow2(n - 1) - Pow2(k - 1));
      assert Pow2(n) - Pow2(k) == 2 * (Pow2(n - 1) - Pow2(k - 1));
    }
  }

  lemma AndEven(x: nat, w: nat)
    ensures And(x, 2 * w) == 2 * And(x / 2, w)
  {
    assert 2 * w / 2 == w;
  }

  lemma AndOdd(x: nat, w: nat)
    ensures And(x, 2 * w + 1) == 2 * And(x / 2, w) + x % 2
  {
    assert (2 * w + 1) / 2 == w;
  }

  /** Masking with 2^k - 1 keeps the low k bits. */
  lemma {:induction false} AndLow(k: nat, x: nat)
    ensures And(x, Pow2(k) - 1) == Low(x, k)
  {
    hide And;
    if k == 0 {
      AndZero(x);
    } else {
      AndLow(k - 1, x / 2);
      AndOdd(x, Pow2(k - 1) - 1);
    }
  }

  /** Disjoint high and low parts combine by addition. */
  lemma {:induction false} OrAdd(k: nat, hi: nat, lo: nat)
    requires Low(hi, k) == 0 && lo < Pow2(k)
    ensures Or(hi, lo) == hi + lo
  {
    if k == 0 {
      OrZero(hi);
    } else if hi > 0 {
      OrAdd(k - 1, hi / 2, lo / 2);
    }
  }

  lemma {:induction false} AndZero(x: nat)
    ensures And(x, 0) == 0
  {
    if x > 0 {
      AndZero(x / 2);
    }
  }

  lemma {:induction false} OrZero(x: nat)
    ensures Or(x, 0) == x
  {
    if x > 0 {
      OrZero(x / 2);
    }
  }

  lemma ZeroAnd(y: nat)
    ensures And(0, y) == 0
  {
  }

  lemma {:induction false} AndOnes(n: nat, x: nat)
    requires x < Pow2(n)
    ensures And(x, Pow2(n) - 1) == x
  {
    hide And;
    if n == 0 {
      ZeroAnd(Pow2(n) - 1);
    } else {
      AndOnes(n - 1, x / 2);
      AndOdd(x, Pow2(n - 1) - 1);
    }
  }

  lemma {:induction false} PowMonotone(k: nat, n: nat)
    requires k <= n
    ensures Pow2(k) <= Pow2(n)
  {
    if k < n {
      PowMonotone(k, n - 1);
    }
  }

  lemma PowDouble(n: nat)
    ensures Pow2(n + 1) == 2 * Pow2(n)
  {
  }

  lemma Pow16()
    ensures Pow2(16) == 0x1_0000
  {
    assert Pow2(8) == 0x100;
    PowSum(8, 8);
  }

  lemma Pow32()
    ensures Pow2(32) == 0x1_0000_0000 && Pow2(31) == 0x8000_0000
  {
    assert Pow2(15) == 0x8000 && Pow2(16) == 0x1_0000;
    PowSum(15, 16);
    PowSum(16, 16);
  }

  lemma PowFits(k: nat)
    requires k <= 32
    ensures Pow2(k) <= 0x1_0000_0000
    ensures k < 32 ==> Pow2(k) <= 0x8000_0000
  {
    Pow32();
    PowMonotone(k, if k < 32 then 31 else 32);
  }

  lemma {:induction false} PowSum(a: nat, b: nat)
    ensures Pow2(a + b) == Pow2(a) * Pow2(b)
  {
    if a > 0 {
      PowSum(a - 1, b);
      assert Pow2(a + b) == 2 * (Pow2(a - 1) * Pow2(b));
    }
  }

  /** The low k bits are the remainder by 2^k. */
  lemma {:induction false} LowIsMod(x: nat, k: nat)
    ensures Low(x, k) == x % Pow2(k)
  {
    if k > 0 {
      LowIsMod(x / 2, k - 1);
      DoubleMod(x, Pow2(k - 1));
    }
  }

  lemma DoubleMod(x: nat, m: nat)
    requires m > 0
    ensures x % (2 * m) == 2 * (x / 2 % m) + x % 2
  {
    var q, r := x / 2 / m, x / 2 % m;
    assert x / 2 == q * m + r;
    assert q * (2 * m) == 2 * (q * m);
    ModUnique(x, 2 * m, q, 2 * r + x % 2);
  }

  lemma LowUnique(x: nat, k: nat, q: nat, r: nat)
    requires x == q * Pow2(k) + r && r < Pow2(k)
    ensures Low(x, k) == r
  {
    LowIsMod(x, k);
    ModUnique(x, Pow2(k), q, r);
  }

  lemma LowStep(x: nat, k: nat)
    requires k > 0
    ensures Low(x, k) == 2 * Low(x / 2, k - 1) + x % 2
  {
  }

  lemma LowNone(x: nat)
    ensures Low(x, 0) == 0
  {
  }

  /** Splitting a word at bit k. */
  lemma {:induction false} LowOfSum(hi: nat, lo: nat, k: nat)
    requires Low(hi, k) == 0 && lo < Pow2(k)
    ensures Low(hi + lo, k) == lo
  {
    hide Low;
    if k > 0 {
      LowStep(hi, k);
      LowStep(hi + lo, k);
      LowOfSum(hi / 2, lo / 2, k - 1);
    } else {
      LowNone(hi + lo);
    }
  }

  lemma {:induction false} LowSmall(x: nat, k: nat)
    requires x < Pow2(k)
    ensures Low(x, k) == x
  {
    hide Low;
    if k > 0 {
      LowStep(x, k);
      LowSmall(x / 2, k - 1);
    } else {
      LowNone(x);
    }
  }

  lemma {:induction false} LowOfLow(x: nat, m: nat, k: nat)
    requires m <= k
    ensures Low(Low(x, k), m) == Low(x, m)
  {
    hide Low;
    if m > 0 {
      LowOfLow(x / 2, m - 1, k - 1);
      LowStep(x, k);
      LowStep(x, m);
      LowStep(Low(x, k), m);
    } else {
      LowNone(x);
      LowNone(Low(x, k));
    }
  }

  lemma {:induction false} LowOfRounded(x: nat, k: nat)
    ensures Low(x - Low(x, k), k) == 0
  {
    hide Low;
    if k > 0 {
      LowOfRounded(x / 2, k - 1);
      LowStep(x, k);
      LowStep(x - Low(x, k), k);
    } else {
      LowNone(x - Low(x, k));
    }
  }

  lemma {:induction false} BitOfLow(x: nat, w: nat, k: nat)
    requires k < w
    ensures Bit(Low(x, w), k) == Bit(x, k)
  {
    if k > 0 {
      BitOfLow(x / 2, w - 1, k - 1);
      assert Low(x, w) / 2 == Low(x / 2, w - 1);
    }
  }

  /** One more low bit. */
  lemma {:induction false} LowNext(x: nat, k: nat)
    ensures Low(x, k + 1) == Low(x, k) + if Bit(x, k) then Pow2(k) else 0
  {
    if k > 0 {
      LowNext(x / 2, k - 1);
    }
  }

  /** Quotient and remainder are determined by their defining equation. */
  lemma ModUnique(x: int, m: int, q: int, r: int)
    requires m > 0 && x == q * m + r && 0 <= r < m
    ensures x / m == q && x % m == r
  {
    var d := x / m - q;
    assert d * m == r - x % m by {
      assert x == x / m * m + x % m;
      assert (x / m - q) * m == x / m * m - q * m;
    }
    if d > 0 {
      MulMonotone(1, d, m);
    } else if d < 0 {
      MulMonotone(d, -1, m);
    }
  }

  lemma MulMonotone(x: int, y: int, m: int)
    requires x <= y && m >= 0
    ensures x * m <= y * m
  {
    assert 0 <= (y - x) * m;
  }

  lemma MulCancel(x: int, y: int, m: int)
    requires x * m < y * m && m > 0
    ensures x < y
  {
    if x >= y {
      MulMonotone(y, x, m);
    }
  }
}
