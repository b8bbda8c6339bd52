/** The 32-by-32-bit multiplications in 16-bit limbs and what 64-by-32-bit division should yield. */
module X86Wide {
  import opened Bits

  const B16: nat := 0x1_0000
  const B32: nat := 0x1_0000_0000
  const B64: nat := 0x1_0000_0000_0000_0000

  function Signed32(x: u32): int {
    if x < 0x8000_0000 then x else x - B32
  }

  function Signed64(hi: u32, lo: u32): int {
    if hi < 0x8000_0000 then hi * B32 + lo else hi * B32 + lo - B64
  }

  // ---------- limbs ----------

  lemma ProductBound(x: nat, y: nat, m: nat, n: nat)
    requires x <= m && y <= n
    ensures 0 <= x * y <= m * n
  {
    MulMonotone(x, m, y);
    MulMonotone(y, n, m);
  }

  /** Schoolbook multiplication of two two-limb numbers. */
  lemma Schoolbook(dh: nat, dl: nat, sh: nat, sl: nat)
    ensures (dh * B16 + dl) * (sh * B16 + sl) == dh * sh * B32 + (dh * sl + dl * sh) * B16 + dl * sl
  {
    var s := sh * B16 + sl;
    assert (dh * B16 + dl) * s == dh * B16 * s + dl * s;
    assert dh * B16 * s == dh * s * B16;
    assert dh * s == dh * sh * B16 + dh * sl;
    assert dl * s == dl * sh * B16 + dl * sl;
  }

  /** `(hi << 16) | lo` with lo a 16-bit value; the shift drops what leaves 32 bits. */
  function Join(hi: u32, lo: u32): (r: u32)
    requires lo < B16
    ensures r == hi % B16 * B16 + lo
  {
    JoinAdds(hi, lo);
    Or(hi * B16 % B32, lo)
  }

  lemma JoinAdds(hi: u32, lo: nat)
    requires lo < B16
    ensures Or(hi * B16 % B32, lo) == hi % B16 * B16 + lo
  {
    hide Or, Low, Pow2;
    Pow16();
    ShiftKeepsLow(hi);
    LowUnique(hi % B16 * B16, 16, hi % B16, 0);
    OrAdd(16, hi % B16 * B16, lo);
  }

  lemma ShiftKeepsLow(x: nat)
    ensures x * B16 % B32 == x % B16 * B16
  {
    ModUnique(x * B16, B32, x / B16, x % B16 * B16);
  }

  /** Carrying the middle limb into the high one. */
  lemma Assemble(high: nat, low: nat, cross: int, mid: nat, top: nat, bottom: nat)
    requires mid == cross + low / B16 && top == high + mid / B16
    requires bottom == mid % B16 * B16 + low % B16
    ensures top * B32 + bottom == high * B32 + cross * B16 + low
  {
  }

  /** The middle limb before it is cut to 32 bits. */
  function CrossSum(a: u32, s: u32): nat {
    a / B16 * (s % B16) + a % B16 * (s / B16) + a % B16 * (s % B16) / B16
  }

  lemma LimbsFit(ah: nat, al: nat, sh: nat, sl: nat)
    requires ah < B16 && al < B16 && sh < B16 && sl < B16
    ensures al * sl < B32 && ah * sl + al * sh + al * sl / B16 < 2 * B32
    ensures ah * sh + 0xFFFF < B32
  {
    ProductBound(al, sl, 0xFFFF, 0xFFFF);
    ProductBound(ah, sl, 0xFFFF, 0xFFFF);
    ProductBound(al, sh, 0xFFFF, 0xFFFF);
    ProductBound(ah, sh, 0xFFFF, 0xFFFF);
  }

  /** The sum of limb products, given the four of them. */
  lemma LimbSum(hh: nat, hl: nat, lh: nat, ll: nat)
    requires ll < B32 && hl + lh + ll / B16 < 2 * B32 && hh + 0xFFFF < B32
    ensures var mid := (hl + lh + ll / B16) % B32; var top := hh + mid / B16;
      && top < B32
      && top * B32 + (mid % B16 * B16 + ll % B16) ==
         hh * B32 + (hl + lh) * B16 + ll - if hl + lh + ll / B16 < B32 then 0 else B16 * B32
  {
    var carry := if hl + lh + ll / B16 < B32 then 0 else B32;
    var mid := (hl + lh + ll / B16) % B32;
    assert mid == hl + lh + ll / B16 - carry;
    Assemble(hh, ll, hl + lh - carry, mid, hh + mid / B16, mid % B16 * B16 + ll % B16);
  }

  /** The limb multiplication: it loses 2^48 exactly when the middle limb does not fit a word. */
  method LimbMultiply(a: u32, s: u32) returns (resLo: u32, resHi: u32)
    ensures resHi * B32 + resLo == a * s - if CrossSum(a, s) < B32 then 0 else B16 * B32
  {
    var aLo, aHi := a % B16, a / B16;
    var sLo, sHi := s % B16, s / B16;
    LimbsFit(aHi, aLo, sHi, sLo);
    Schoolbook(aHi, aLo, sHi, sLo);
    LimbSum(aHi * sHi, aHi * sLo, aLo * sHi, aLo * sLo);
    var rloLo: u32 := aLo * sLo;
    var rloHi: u32 := (aHi * sLo + aLo * sHi + rloLo / B16) % B32;
    var rhiLo: u32 := aHi * sHi + rloHi / B16;
    resLo := Join(rloHi, rloLo % B16);
    resHi := rhiLo;
  }

  /** No intermediate of the multiplication overflows when the operands are magnitudes of signed words. */
  lemma MagnitudesFit(m: u32, n: u32)
    requires m <= 0x8000_0000 && n <= 0x8000_0000
    ensures CrossSum(m, n) < B32 && m * n <= 0x4000_0000_0000_0000
  {
    ProductBound(m % B16, n % B16, 0xFFFF, 0xFFFF);
    ProductBound(m / B16, n % B16, 0x8000, 0xFFFF);
    ProductBound(m % B16, n / B16, 0xFFFF, 0x8000);
    ProductBound(m, n, 0x8000_0000, 0x8000_0000);
  }

  // ---------- imul_long_direct ----------

  /** Complement and increment negate a 64-bit value, the carry being found in 16-bit halves. */
  lemma NegatePair(hi: u32, lo: u32)
    ensures var d := Not32(lo); var s := (d % B16 + 1) / B16 + d / B16;
      && s < B32
      && (s / B16 == if lo == 0 then 1 else 0)
      && var lo' := (Not32(lo) + 1) % B32; var hi' := (Not32(hi) + s / B16) % B32;
         hi' * B32 + lo' == if hi == 0 && lo == 0 then 0 else B64 - (hi * B32 + lo)
  {
  }

  /** imul_long_direct: the exact signed product of every pair of words. */
  method ImulLongDirect(d: u32, s: u32) returns (resLo: u32, resHi: u32)
    ensures Signed64(resHi, resLo) == Signed32(d) * Signed32(s)
  {
    hide CrossSum, Not32;
    var dNeg, sNeg := d >= 0x8000_0000, s >= 0x8000_0000;
    var m: u32 := if dNeg then B32 - d else d;
    var n: u32 := if sNeg then B32 - s else s;
    MagnitudesFit(m, n);
    SignsMultiply(dNeg, m, sNeg, n);
    resLo, resHi := LimbMultiply(m, n);
    if dNeg != sNeg {
      NegatePair(resHi, resLo);
      var x := Not32(resLo);
      var y := (x % B16 + 1) / B16 + x / B16;
      resLo := (Not32(resLo) + 1) % B32;
      resHi := (Not32(resHi) + y / B16) % B32;
    }
  }

  lemma SignsMultiply(dNeg: bool, m: nat, sNeg: bool, n: nat)
    ensures (if dNeg then 0 - m else m) * (if sNeg then 0 - n else n) == if dNeg != sNeg then 0 - m * n else m * n
  {
  }

  /** Unsigned multiplication is exact exactly when the middle limb fits, and it need not. */
  lemma UnsignedCanFail()
    ensures CrossSum(0xFFFF_FFFF, 0xFFFF_FFFF) >= B32
  {
  }

  // ---------- div_long ----------

  /** What a DIV instruction should do: divide, or raise when the quotient does not fit. */
  datatype Quotient = Raise | Quotient(div: u32, mod: u32)

  function Divide(dvd: u64, s: u32): Quotient {
    if s == 0 || dvd / B32 >= s then Raise
    else
      QuotientFits(dvd, s);
      Quotient(dvd / s, dvd % s)
  }

  lemma QuotientFits(dvd: nat, s: u32)
    requires dvd / B32 < s
    ensures dvd / s < B32
  {
    assert dvd < s * B32;
    assert dvd / s * s <= dvd;
  }

  /** s shifted left k places, without a width. */
  function Scaled(s: nat, k: nat): nat {
    if k == 0 then s else 2 * Scaled(s, k - 1)
  }

  lemma {:induction false} ScaledIsShift(s: nat, k: nat)
    ensures Scaled(s, k) == s * Pow2(k)
  {
    if k > 0 {
      ScaledIsShift(s, k - 1);
    }
  }

  /** The quotient that 33 subtract-or-skip steps produce: it saturates at 33 ones. */
  function Restored(dvd: nat, s: nat): nat
    requires s > 0
  {
    if dvd < Scaled(s, 33) then dvd / s else 0x1_FFFF_FFFF
  }

  /** What div_long does: it looks at the remainder only, so it misses quotients of exactly 33 bits. */
  function LongDivision(dvd: u64, s: u32): Quotient {
    if s == 0 || dvd > Scaled(s, 33) then Raise
    else
      RemainderFits(dvd, s);
      Quotient(Restored(dvd, s) % B32, dvd - Restored(dvd, s) * s)
  }

  lemma Scaled33(s: nat)
    ensures Scaled(s, 32) == s * B32 && Scaled(s, 33) == s * 0x2_0000_0000
  {
    hide Pow2;
    ScaledIsShift(s, 32);
    Pow32();
  }

  lemma RemainderFits(dvd: nat, s: u32)
    requires s > 0 && dvd <= Scaled(s, 33)
    ensures 0 <= dvd - Restored(dvd, s) * s <= s
  {
    hide Scaled;
    Scaled33(s);
    if dvd < Scaled(s, 33) {
      assert dvd - dvd / s * s == dvd % s;
    }
  }

  /** div_long divides correctly, or raises correctly, exactly when the quotient fits or exceeds 33 bits. */
  lemma DivisionExactly(dvd: u64, s: u32)
    ensures LongDivision(dvd, s) == Divide(dvd, s) <==> (s == 0 || dvd / B32 < s || dvd > Scaled(s, 33))
  {
    hide Scaled, Restored, Divide;
    if s == 0 {
      DividesByZero(dvd);
    } else if dvd / B32 < s {
      DividesRightly(dvd, s);
    } else {
      RaisesLate(dvd, s);
    }
  }

  lemma DividesByZero(dvd: u64)
    ensures LongDivision(dvd, 0) == Divide(dvd, 0) == Raise
  {
  }

  /** A quotient that fits is found. */
  lemma DividesRightly(dvd: u64, s: u32)
    requires dvd / B32 < s
    ensures LongDivision(dvd, s) == Divide(dvd, s)
  {
    hide Scaled;
    Scaled33(s);
    QuotientFits(dvd, s);
    assert dvd < s * B32;
    assert dvd - dvd / s * s == dvd % s;
  }

  /** One that does not fit is noticed only beyond 33 bits. */
  lemma RaisesLate(dvd: u64, s: u32)
    requires s > 0 && dvd / B32 >= s
    ensures Divide(dvd, s) == Raise && (LongDivision(dvd, s) == Raise <==> dvd > Scaled(s, 33))
  {
    hide Scaled, Restored;
  }

  /** A dividend of 2^32 and a divisor of 1: no interrupt, quotient 0. */
  lemma DivisionCanFail()
    ensures LongDivision(B32, 1) == Quotient(0, 0) && Divide(B32, 1) == Raise
  {
    hide Scaled;
    Scaled33(1);
  }

  /** The restoring loop finished: its quotient and remainder are determined. */
  lemma RestoredUnique(dvd: nat, s: u32, q: nat, rem: nat)
    requires s > 0 && dvd == rem + q * s && q <= 0x1_FFFF_FFFF
    requires rem < s || q == 0x1_FFFF_FFFF
    ensures q == Restored(dvd, s) && (rem > s <==> dvd > Scaled(s, 33))
  {
    hide Scaled;
    Scaled33(s);
    if rem < s {
      ModUnique(dvd, s, q, rem);
      MulMonotone(q, 0x1_FFFF_FFFF, s);
    }
  }

  // ---------- the restoring loop ----------

  /** One subtract-or-skip step, on the dividend and the shifted divisor. */
  method RestoreOnce(h: u32, l: u32, hs: u32, ls: u32) returns (h': u32, l': u32, fits: bool)
    requires ls > 0 ==> hs < 0x8000_0000
    ensures fits <==> h * B32 + l >= hs * B32 + ls
    ensures h' * B32 + l' == h * B32 + l - if fits then hs * B32 + ls else 0
  {
    var carry := if l >= ls then 0 else 1;
    if h < hs + carry {
      h', l', fits := h, l, false;
    } else {
      h' := h - (hs + carry);
      l' := if carry == 1 then (0xFFFF_FFFF - ls) + l + 1 else l - ls;
      fits := true;
    }
  }

  /** With j steps to go: what is left, and the quotient bits found, either still exact or all ones. */
  ghost predicate Dividing(dvd: nat, s: nat, j: nat, q: nat, rem: nat) {
    && j <= 33
    && dvd == rem + q * Scaled(s, j)
    && q < Pow2(33 - j)
    && (rem < Scaled(s, j) || q == Pow2(33 - j) - 1)
  }

  lemma DividingStarts(dvd: u64, s: u32)
    requires s > 0
    ensures Dividing(dvd, s, 33, 0, dvd) && Scaled(s, 32) == s * B32
  {
    hide Scaled;
    Scaled33(s);
    assert Pow2(0) == 1;
  }

  lemma DividingStep(dvd: nat, s: nat, j: nat, q: nat, rem: nat)
    requires 0 < j && Dividing(dvd, s, j, q, rem)
    ensures var t := Scaled(s, j - 1);
            if rem >= t then Dividing(dvd, s, j - 1, 2 * q + 1, rem - t) else Dividing(dvd, s, j - 1, 2 * q, rem)
  {
    hide Scaled, Pow2;
    ScaledDouble(s, j - 1);
    PowDouble(33 - j);
    Distribute(q, Scaled(s, j - 1));
  }

  lemma ScaledDouble(s: nat, k: nat)
    ensures Scaled(s, k + 1) == 2 * Scaled(s, k)
  {
  }

  lemma Distribute(q: nat, t: nat)
    ensures q * (2 * t) == 2 * q * t && (2 * q + 1) * t == 2 * q * t + t
  {
  }

  lemma DividingEnds(dvd: nat, s: u32, q: nat, rem: nat)
    requires s > 0 && Dividing(dvd, s, 0, q, rem)
    ensures q == Restored(dvd, s) && rem == dvd - q * s && (rem > s <==> dvd > Scaled(s, 33))
  {
    hide Pow2, Restored;
    Pow33();
    RestoredUnique(dvd, s, q, rem);
  }

  lemma ShiftLeftOne(q: nat, div: u32, bit: nat)
    requires div == q % B32 && bit <= 1
    ensures div * 2 % B32 + bit == (2 * q + bit) % B32
  {
    var t := q / B32;
    assert q == t * B32 + div;
    if 2 * div < B32 {
      ModUnique(2 * q + bit, B32, 2 * t, 2 * div + bit);
    } else {
      ModUnique(2 * q + bit, B32, 2 * t + 1, 2 * div - B32 + bit);
    }
  }

  /**
   33 steps of restoring division. The last shift of the divisor is by -1 places
   in the source; its value is never used and is 0 here.
   */
  method RestoringDivision(hi: u32, lo: u32, s: u32) returns (div: u32, h: u32, l: u32)
    requires s > 0
    ensures var dvd := hi * B32 + lo; var q := Restored(dvd, s);
            div == q % B32 && h * B32 + l == dvd - q * s && (h * B32 + l > s <==> dvd > Scaled(s, 33))
  {
    hide Scaled, Restored, Pow2, Dividing;
    ghost var dvd := hi * B32 + lo;
    ghost var q: nat := 0;
    h, l, div := hi, lo, 0;
    var hs: u32, ls: u32 := s, 0;
    var counter := 32;
    DividingStarts(dvd, s);
    while counter > -1
      invariant -1 <= counter <= 32
      invariant Dividing(dvd, s, counter + 1, q, h * B32 + l) && div == q % B32
      invariant counter > -1 ==> hs * B32 + ls == Scaled(s, counter) && (ls > 0 ==> hs < 0x8000_0000)
    {
      DividingStep(dvd, s, counter + 1, q, h * B32 + l);
      ShiftLeftOne(q, div, 0);
      ShiftLeftOne(q, div, 1);
      div := div * 2 % B32;
      var fits;
      h, l, fits := RestoreOnce(h, l, hs, ls);
      if fits {
        div := div + 1;
      }
      q := 2 * q + if fits then 1 else 0;
      if counter > 0 {
        ShiftDown(s, counter, hs, ls);
      }
      hs := hs / 2;
      counter := counter - 1;
      ls := if counter >= 0 then s * Pow2(counter) % B32 else 0;
    }
    DividingEnds(dvd, s, q, h * B32 + l);
  }

  lemma Pow33()
    ensures Pow2(33) == 0x2_0000_0000
  {
    Pow32();
    PowDouble(32);
  }

  /** Halving the high word and reshifting the low word halves the shifted divisor. */
  lemma ShiftDown(s: u32, k: nat, hs: u32, ls: u32)
    requires 0 < k && hs * B32 + ls == Scaled(s, k)
    ensures hs / 2 * B32 + s * Pow2(k - 1) % B32 == Scaled(s, k - 1) && hs / 2 < 0x8000_0000
  {
    ScaledIsShift(s, k - 1);
    HalvePair(hs, ls, s * Pow2(k - 1));
  }

  lemma HalvePair(hs: u32, ls: u32, t: nat)
    requires hs * B32 + ls == 2 * t
    ensures hs / 2 * B32 + t % B32 == t && hs / 2 < 0x8000_0000
  {
  }
}
