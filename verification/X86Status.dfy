/**
 What the status flags mean: the architectural definitions of section 3.4.3.1
 of volume 1 of the Intel SDM, which never mention a carry chain, and the
 proof that the primitives' formulas compute them at every width.
 */
module X86Status {
  import opened Bits
  import opened X86Parity
  import opened X86Flags

  /** The two's complement value of a w-bit word. */
  function Signed(w: nat, x: nat): int
    requires w > 0 && x < Pow2(w)
  {
    if x < Pow2(w - 1) then x else x - Pow2(w)
  }

  predicate InSignedRange(w: nat, v: int)
    requires w > 0
  {
    0 - Pow2(w - 1) <= v < Pow2(w - 1)
  }

  /** The flags fixed by the result alone. */
  predicate ResultFlag(w: nat, res: nat, j: nat)
    requires w > 0 && res < Pow2(w)
  {
    if j == ZF then res == 0
    else if j == SF then Signed(w, res) < 0
    else EvenParity(Low(res, 8))
  }

  /** Flag j after adding d, s and a carry c in w bits. */
  predicate FlagAfterAdd(before: nat, w: nat, d: nat, s: nat, c: nat, setCarry: bool, j: nat)
    requires w > 0 && d < Pow2(w) && s < Pow2(w) && c <= 1
  {
    if j == CF then if setCarry then d + s + c >= Pow2(w) else Bit(before, CF)
    else if j == OF then !InSignedRange(w, Signed(w, d) + Signed(w, s) + c)
    else if j == AF then Low(d, 4) + Low(s, 4) + c >= Pow2(4)
    else if j == ZF || j == SF || j == PF then ResultFlag(w, Sum(w, d, s, c), j)
    else Bit(before, j)
  }

  /** Flag j after subtracting s and a borrow c from d in w bits. */
  predicate FlagAfterSub(before: nat, w: nat, d: nat, s: nat, c: nat, setCarry: bool, j: nat)
    requires w > 0 && d < Pow2(w) && s < Pow2(w) && c <= 1
  {
    if j == CF then if setCarry then d < s + c else Bit(before, CF)
    else if j == OF then !InSignedRange(w, Signed(w, d) - Signed(w, s) - c)
    else if j == AF then Low(d, 4) < Low(s, 4) + c
    else if j == ZF || j == SF || j == PF then ResultFlag(w, Diff(w, d, s, c), j)
    else Bit(before, j)
  }

  // ---------- words ----------

  /** A word is its top bit and the rest. */
  lemma TopBit(w: nat, x: nat)
    requires w > 0 && x < Pow2(w)
    ensures x == Low(x, w - 1) + if Bit(x, w - 1) then Pow2(w - 1) else 0
    ensures Signed(w, x) == Low(x, w - 1) - if Bit(x, w - 1) then Pow2(w - 1) else 0
    ensures Pow2(w) == 2 * Pow2(w - 1) && Low(x, w) == x
  {
    hide Bit, Low;
    LowSmall(x, w);
    LowNext(x, w - 1);
  }

  /** A sum taken in a wider register, cut back. */
  lemma {:induction false} SumNarrow(n: nat, w: nat, d: nat, s: nat, c: nat)
    requires w <= n && d < Pow2(w) && s < Pow2(w) && c <= 1
    ensures d < Pow2(n) && s < Pow2(n)
    ensures Low(Sum(n, d, s, c), w) == Sum(w, d, s, c)
  {
    hide Sum;
    PowMonotone(w, n);
    if w > 0 {
      SumHalf(n, d, s, c);
      SumHalf(w, d, s, c);
      SumNarrow(n - 1, w - 1, d / 2, s / 2, (d % 2 + s % 2 + c) / 2);
    } else {
      assert Sum(w, d, s, c) == 0;
    }
  }

  lemma {:induction false} DiffNarrow(n: nat, w: nat, d: nat, s: nat, c: nat)
    requires w <= n && d < Pow2(w) && s < Pow2(w) && c <= 1
    ensures d < Pow2(n) && s < Pow2(n)
    ensures Low(Diff(n, d, s, c), w) == Diff(w, d, s, c)
  {
    hide Diff;
    PowMonotone(w, n);
    if w > 0 {
      DiffHalf(n, d, s, c);
      DiffHalf(w, d, s, c);
      DiffNarrow(n - 1, w - 1, d / 2, s / 2, if d % 2 < s % 2 + c then 1 else 0);
    } else {
      assert Diff(w, d, s, c) == 0;
    }
  }

  /** SF, ZF and PF of the wide result are those of the cut-back one. */
  lemma ResultFlags(flg: nat, w: nat, wide: nat, res: nat, j: nat)
    requires Width(w) && res < Pow2(w) && Low(wide, w) == res
    ensures Bit(SetSzp(flg, w, wide), j) ==
            if j == ZF || j == SF || j == PF then ResultFlag(w, res, j) else Bit(flg, j)
  {
    hide Bit, Low, Pow2, EvenParity, SetSzp;
    SzpBits(flg, w, wide, j);
    BitOfLow(wide, w, w - 1);
    TopBit(w, res);
    LowOfLow(wide, 8, w);
  }

  /** The overflow formula: the carries into and out of the top bit differ. */
  lemma AddOverflow(w: nat, d: nat, s: nat, c: nat)
    requires w > 0 && d < Pow2(w) && s < Pow2(w) && c <= 1
    ensures ((d + s + c >= Pow2(w)) != (Low(d, w - 1) + Low(s, w - 1) + c >= Pow2(w - 1)))
       <==> !InSignedRange(w, Signed(w, d) + Signed(w, s) + c)
  {
    hide Bit, Low, Pow2, Signed;
    TopBit(w, d);
    TopBit(w, s);
  }

  lemma SubOverflow(w: nat, d: nat, s: nat, c: nat)
    requires w > 0 && d < Pow2(w) && s < Pow2(w) && c <= 1
    ensures ((d < s + c) != (Low(d, w - 1) < Low(s, w - 1) + c))
       <==> !InSignedRange(w, Signed(w, d) - Signed(w, s) - c)
  {
    hide Bit, Low, Pow2, Signed;
    TopBit(w, d);
    TopBit(w, s);
  }

  /** The bit just above a w-bit sum is its carry. */
  lemma BitAbove(w: nat, x: nat)
    requires x < 2 * Pow2(w)
    ensures Bit(x, w) <==> x >= Pow2(w)
  {
    hide Bit, Low;
    LowNext(x, w);
    LowSmall(x, w + 1);
  }

  // ---------- the primitives meet the architecture ----------

  /** The three ways of finding the carry out agree with the sum itself. */
  lemma CarryOut(w: nat, d: nat, s: nat, c: nat)
    requires Width(w) && d < Pow2(w) && s < Pow2(w) && c <= 1
    ensures Pow2(w) <= Pow2(32)
    ensures w < 32 ==> (Bit(Sum(32, d, s, c), w) <==> d + s + c >= Pow2(w))
    ensures w == 32 && c == 0 ==> (Sum(32, d, s, c) < d || Sum(32, d, s, c) < s <==> d + s + c >= Pow2(w))
    ensures w == 32 ==>
      (Bit((d % 0x1_0000 + s % 0x1_0000 + c) / 0x1_0000 + d / 0x1_0000 + s / 0x1_0000, 16) <==> d + s + c >= Pow2(w))
  {
    hide Bit, Low, Pow2;
    PowMonotone(w, 32);
    Pow32();
    Pow16();
    if w < 32 {
      PowMonotone(w + 1, 32);
      PowDouble(w);
      BitAbove(w, d + s + c);
    } else {
      BitAbove(16, (d % 0x1_0000 + s % 0x1_0000 + c) / 0x1_0000 + d / 0x1_0000 + s / 0x1_0000);
    }
  }

  lemma AddMeaning(flg: nat, w: nat, d: nat, s: nat, c: nat, split: bool, j: nat)
    requires Width(w) && d < Pow2(w) && s < Pow2(w) && c <= 1 && (c == 0 || split)
    ensures AddWith(flg, w, d, s, c, split).res == Sum(w, d, s, c)
    ensures Bit(AddWith(flg, w, d, s, c, split).flg, j) == FlagAfterAdd(flg, w, d, s, c, true, j)
  {
    hide Bit, Low, Pow2, SetBit, CalcCarryChain, SetSzp, Sum, EvenParity, InSignedRange, Signed, ResultFlag;
    SumNarrow(32, w, d, s, c);
    var res := Sum(32, d, s, c);
    var f := SetSzp(flg, w, res);
    SumCommutes(32, s, d, c);
    CarryFlagBits(f, w, s, d, c, w < 32, j);
    ResultFlags(flg, w, res, Sum(w, d, s, c), j);
    var lo := d % 0x1_0000 + s % 0x1_0000 + c;
    var hi := lo / 0x1_0000 + d / 0x1_0000 + s / 0x1_0000;
    BitOfSetBit(CalcCarryChain(f, w, s, d, res, w < 32), CF, if split then Bit(hi, 16) else res < d || res < s, j);
    CarryOut(w, d, s, c);
    AddOverflow(w, d, s, c);
    LowSmall(d, w);
    LowSmall(s, w);
  }

  lemma SumCommutes(n: nat, d: nat, s: nat, c: nat)
    requires d < Pow2(n) && s < Pow2(n) && c <= 1
    ensures Sum(n, d, s, c) == Sum(n, s, d, c)
  {
  }

  lemma SubMeaning(flg: nat, w: nat, d: nat, s: nat, c: nat, j: nat)
    requires Width(w) && d < Pow2(w) && s < Pow2(w) && c <= 1
    ensures SubWith(flg, w, d, s, c).res == Diff(w, d, s, c)
    ensures Bit(SubWith(flg, w, d, s, c).flg, j) == FlagAfterSub(flg, w, d, s, c, true, j)
  {
    hide Bit, Low, Pow2, SetBit, CalcBorrowChain, SetSzp, Diff, EvenParity, InSignedRange, Signed, ResultFlag;
    DiffNarrow(32, w, d, s, c);
    var res := Diff(32, d, s, c);
    BorrowFlagBits(SetSzp(flg, w, res), w, d, s, c, true, j);
    ResultFlags(flg, w, res, Diff(w, d, s, c), j);
    SubOverflow(w, d, s, c);
    LowSmall(d, w);
    LowSmall(s, w);
  }

  /** inc is an addition of one that leaves the carry flag as it was. */
  lemma IncMeaning(flg: nat, w: nat, d: nat, j: nat)
    requires Width(w) && d < Pow2(w)
    ensures 1 < Pow2(w)
    ensures Inc(flg, w, d).res == Sum(w, d, 1, 0)
    ensures Bit(Inc(flg, w, d).flg, j) == FlagAfterAdd(flg, w, d, 1, 0, false, j)
  {
    hide Bit, Low, Pow2, SetBit, CalcCarryChain, SetSzp, Sum, EvenParity, InSignedRange, Signed, ResultFlag;
    OneFits(w);
    SumNarrow(32, w, d, 1, 0);
    var res := Sum(32, d, 1, 0);
    CarryFlagBits(SetSzp(flg, w, res), w, d, 1, 0, false, j);
    ResultFlags(flg, w, res, Sum(w, d, 1, 0), j);
    AddOverflow(w, d, 1, 0);
    LowSmall(d, w);
    LowSmall(1, w);
  }

  lemma DecMeaning(flg: nat, w: nat, d: nat, j: nat)
    requires Width(w) && d < Pow2(w)
    ensures 1 < Pow2(w)
    ensures Dec(flg, w, d).res == Diff(w, d, 1, 0)
    ensures Bit(Dec(flg, w, d).flg, j) == FlagAfterSub(flg, w, d, 1, 0, false, j)
  {
    hide Bit, Low, Pow2, SetBit, CalcBorrowChain, SetSzp, Diff, EvenParity, InSignedRange, Signed, ResultFlag;
    OneFits(w);
    DiffNarrow(32, w, d, 1, 0);
    var res := Diff(32, d, 1, 0);
    BorrowFlagBits(SetSzp(flg, w, res), w, d, 1, 0, false, j);
    ResultFlags(flg, w, res, Diff(w, d, 1, 0), j);
    SubOverflow(w, d, 1, 0);
    LowSmall(d, w);
    LowSmall(1, w);
  }

  lemma OneFits(w: nat)
    requires w > 0
    ensures 1 < Pow2(w)
  {
    PowMonotone(1, w);
  }
}
