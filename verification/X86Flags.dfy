/**
 The emulator's add/subtract primitives and the status flags they leave, as
 defined in section 3.4.3.1 of volume 1 of the Intel SDM, and the condition
 codes of its Appendix B.
 */
module X86Flags {
  import opened Bits
  import opened X86Parity

  const CF: nat := 0
  const PF: nat := 2
  const AF: nat := 4
  const ZF: nat := 6
  const SF: nat := 7
  const OF: nat := 11

  /** The flags sit where the flag word has them. */
  lemma FlagPositions()
    ensures Pow2(CF) == 0x001 && Pow2(PF) == 0x004 && Pow2(AF) == 0x010
    ensures Pow2(ZF) == 0x040 && Pow2(SF) == 0x080 && Pow2(OF) == 0x800
  {
  }

  /** The flag word and the result left by one primitive. */
  datatype Out = Out(flg: nat, res: nat)

  /** d + s + c in an n-bit register. */
  function Sum(n: nat, d: nat, s: nat, c: nat): (r: nat)
    requires d < Pow2(n) && s < Pow2(n) && c <= 1
    ensures r < Pow2(n)
  {
    if d + s + c < Pow2(n) then d + s + c else d + s + c - Pow2(n)
  }

  /** d - s - c in an n-bit register. */
  function Diff(n: nat, d: nat, s: nat, c: nat): (r: nat)
    requires d < Pow2(n) && s < Pow2(n) && c <= 1
    ensures r < Pow2(n)
  {
    if d >= s + c then d - s - c else d - s - c + Pow2(n)
  }

  function Shr(x: nat, k: nat): nat {
    if k == 0 then x else Shr(x / 2, k - 1)
  }

  predicate Xor2(x: nat) {
    Bit(x, 0) != Bit(x, 1)
  }

  function SetSzp(flg: nat, w: nat, res: nat): nat
    requires w > 0
  {
    var f1 := SetBit(flg, SF, Bit(res, w - 1));
    var f2 := SetBit(f1, ZF, Low(res, w) == 0);
    SetBit(f2, PF, Parity(res))
  }

  function CarryBits(d: nat, s: nat, res: nat): nat
    requires res < Pow2(32)
  {
    Or(And(s, d), And(Not(32, res), Or(s, d)))
  }

  function BorrowBits(d: nat, s: nat, res: nat): nat
    requires d < Pow2(32)
  {
    Or(And(res, Or(Not(32, d), s)), And(Not(32, d), s))
  }

  function CalcCarryChain(flg: nat, bits: nat, d: nat, s: nat, res: nat, setCarry: bool): nat
    requires bits >= 2 && res < Pow2(32)
  {
    var cc := CarryBits(d, s, res);
    var f1 := SetBit(flg, OF, Xor2(Shr(cc, bits - 2)));
    var f2 := SetBit(f1, AF, Bit(cc, 3));
    if setCarry then SetBit(f2, CF, Bit(res, bits)) else f2
  }

  function CalcBorrowChain(flg: nat, bits: nat, d: nat, s: nat, res: nat, setCarry: bool): nat
    requires bits >= 2 && d < Pow2(32)
  {
    var bc := BorrowBits(d, s, res);
    var f1 := SetBit(flg, OF, Xor2(Shr(bc, bits - 2)));
    var f2 := SetBit(f1, AF, Bit(bc, 3));
    if setCarry then SetBit(f2, CF, Bit(bc, bits - 1)) else f2
  }

  function Carry(flg: nat): (c: nat)
    ensures c <= 1
  {
    if Bit(flg, CF) then 1 else 0
  }

  /** The operand widths of the primitives. */
  predicate Width(w: nat) {
    w == 8 || w == 16 || w == 32
  }

  /**
   add and adc, with c the carry they start from. The byte and word forms add
   in 32 bits and read the carry out of the wide sum; add_long compares the
   result with the operands and adc_long redoes the sum in 16-bit halves.
   */
  function AddWith(flg: nat, w: nat, d: nat, s: nat, c: nat, split: bool): (o: Out)
    requires Width(w) && d < Pow2(w) && s < Pow2(w) && c <= 1
    ensures o.res < Pow2(w)
  {
    PowMonotone(w, 32);
    var res := Sum(32, d, s, c);
    var f := CalcCarryChain(SetSzp(flg, w, res), w, s, d, res, w < 32);
    var lo := d % 0x1_0000 + s % 0x1_0000 + c;
    var hi := lo / 0x1_0000 + d / 0x1_0000 + s / 0x1_0000;
    Out(if w < 32 then f else SetBit(f, CF, if split then Bit(hi, 16) else res < d || res < s),
        Low(res, w))
  }

  function Add(flg: nat, w: nat, d: nat, s: nat): (o: Out)
    requires Width(w) && d < Pow2(w) && s < Pow2(w)
    ensures o.res < Pow2(w)
  {
    AddWith(flg, w, d, s, 0, false)
  }

  function Adc(flg: nat, w: nat, d: nat, s: nat): (o: Out)
    requires Width(w) && d < Pow2(w) && s < Pow2(w)
    ensures o.res < Pow2(w)
  {
    AddWith(flg, w, d, s, Carry(flg), true)
  }

  /** sub, sbb and cmp, with c the borrow they start from; the difference is taken in 32 bits at every width. */
  function SubWith(flg: nat, w: nat, d: nat, s: nat, c: nat): (o: Out)
    requires Width(w) && d < Pow2(w) && s < Pow2(w) && c <= 1
    ensures o.res < Pow2(w)
  {
    PowMonotone(w, 32);
    var res := Diff(32, d, s, c);
    Out(CalcBorrowChain(SetSzp(flg, w, res), w, d, s, res, true), Low(res, w))
  }

  function Sub(flg: nat, w: nat, d: nat, s: nat): (o: Out)
    requires Width(w) && d < Pow2(w) && s < Pow2(w)
    ensures o.res < Pow2(w)
  {
    SubWith(flg, w, d, s, 0)
  }

  function Sbb(flg: nat, w: nat, d: nat, s: nat): (o: Out)
    requires Width(w) && d < Pow2(w) && s < Pow2(w)
    ensures o.res < Pow2(w)
  {
    SubWith(flg, w, d, s, Carry(flg))
  }

  /** cmp keeps the flags of the subtraction and hands back its first operand. */
  function Cmp(flg: nat, w: nat, d: nat, s: nat): Out
    requires Width(w) && d < Pow2(w) && s < Pow2(w)
  {
    Out(SubWith(flg, w, d, s, 0).flg, d)
  }

  function Inc(flg: nat, w: nat, d: nat): (o: Out)
    requires Width(w) && d < Pow2(w)
    ensures o.res < Pow2(w)
  {
    PowMonotone(1, w);
    PowMonotone(w, 32);
    var res := Sum(32, d, 1, 0);
    Out(CalcCarryChain(SetSzp(flg, w, res), w, d, 1, res, false), Low(res, w))
  }

  function Dec(flg: nat, w: nat, d: nat): (o: Out)
    requires Width(w) && d < Pow2(w)
    ensures o.res < Pow2(w)
  {
    PowMonotone(1, w);
    PowMonotone(w, 32);
    var res := Diff(32, d, 1, 0);
    Out(CalcBorrowChain(SetSzp(flg, w, res), w, d, 1, res, false), Low(res, w))
  }

  // ---------- carries and borrows, bit by bit ----------

  /** Dropping the lowest bit of a sum leaves a narrower sum with the carry passed on. */
  lemma SumHalf(n: nat, d: nat, s: nat, c: nat)
    requires 0 < n && d < Pow2(n) && s < Pow2(n) && c <= 1
    ensures Sum(n, d, s, c) / 2 == Sum(n - 1, d / 2, s / 2, (d % 2 + s % 2 + c) / 2)
    ensures Sum(n, d, s, c) % 2 == (d % 2 + s % 2 + c) % 2
  {
    assert Pow2(n) == 2 * Pow2(n - 1);
  }

  lemma DiffHalf(n: nat, d: nat, s: nat, c: nat)
    requires 0 < n && d < Pow2(n) && s < Pow2(n) && c <= 1
    ensures Diff(n, d, s, c) / 2 == Diff(n - 1, d / 2, s / 2, if d % 2 < s % 2 + c then 1 else 0)
    ensures Diff(n, d, s, c) % 2 == (d % 2 + s % 2 + c) % 2
  {
    assert Pow2(n) == 2 * Pow2(n - 1);
    assert d == 2 * (d / 2) + d % 2 && s == 2 * (s / 2) + s % 2;
  }

  lemma {:induction false} SumBit(n: nat, d: nat, s: nat, c: nat, k: nat)
    requires d < Pow2(n) && s < Pow2(n) && c <= 1 && k < n
    ensures Bit(Sum(n, d, s, c), k) == ((Bit(d, k) != Bit(s, k)) != (Low(d, k) + Low(s, k) + c >= Pow2(k)))
  {
    hide Sum;
    SumHalf(n, d, s, c);
    if k > 0 {
      SumBit(n - 1, d / 2, s / 2, (d % 2 + s % 2 + c) / 2, k - 1);
    }
  }

  lemma {:induction false} DiffBit(n: nat, d: nat, s: nat, c: nat, k: nat)
    requires d < Pow2(n) && s < Pow2(n) && c <= 1 && k < n
    ensures Bit(Diff(n, d, s, c), k) == ((Bit(d, k) != Bit(s, k)) != (Low(d, k) < Low(s, k) + c))
  {
    hide Diff;
    DiffHalf(n, d, s, c);
    if k > 0 {
      DiffBit(n - 1, d / 2, s / 2, if d % 2 < s % 2 + c then 1 else 0, k - 1);
    }
  }

  /** Bit k of the carry chain is the carry out of bit k. */
  lemma CarryChainBit(d: nat, s: nat, c: nat, k: nat)
    requires d < Pow2(32) && s < Pow2(32) && c <= 1 && k < 32
    ensures Bit(CarryBits(d, s, Sum(32, d, s, c)), k) <==> Low(d, k + 1) + Low(s, k + 1) + c >= Pow2(k + 1)
  {
    hide And, Or, Not, Bit, Low;
    var res := Sum(32, d, s, c);
    SumBit(32, d, s, c, k);
    BitOfOr(And(s, d), And(Not(32, res), Or(s, d)), k);
    BitOfAnd(s, d, k);
    BitOfAnd(Not(32, res), Or(s, d), k);
    BitOfNot(32, res, k);
    BitOfOr(s, d, k);
    LowNext(d, k);
    LowNext(s, k);
    assert Pow2(k + 1) == 2 * Pow2(k);
  }

  /** Bit k of the borrow chain is the borrow out of bit k. */
  lemma BorrowChainBit(d: nat, s: nat, c: nat, k: nat)
    requires d < Pow2(32) && s < Pow2(32) && c <= 1 && k < 32
    ensures Bit(BorrowBits(d, s, Diff(32, d, s, c)), k) <==> Low(d, k + 1) < Low(s, k + 1) + c
  {
    hide And, Or, Not, Bit, Low;
    var res := Diff(32, d, s, c);
    DiffBit(32, d, s, c, k);
    BitOfOr(And(res, Or(Not(32, d), s)), And(Not(32, d), s), k);
    BitOfAnd(res, Or(Not(32, d), s), k);
    BitOfAnd(Not(32, d), s, k);
    BitOfNot(32, d, k);
    BitOfOr(Not(32, d), s, k);
    LowNext(d, k);
    LowNext(s, k);
  }

  lemma {:induction false} BitOfShr(x: nat, k: nat, j: nat)
    ensures Bit(Shr(x, k), j) == Bit(x, k + j)
  {
    if k > 0 {
      BitOfShr(x / 2, k - 1, j);
    }
  }

  // ---------- which flag word bit holds what ----------

  lemma SzpBits(flg: nat, w: nat, res: nat, j: nat)
    requires w > 0
    ensures Bit(SetSzp(flg, w, res), j) ==
            if j == PF then EvenParity(Low(res, 8)) else if j == ZF then Low(res, w) == 0
            else if j == SF then Bit(res, w - 1) else Bit(flg, j)
  {
    hide SetBit, Bit, Low, EvenParity, Parity;
    var f1 := SetBit(flg, SF, Bit(res, w - 1));
    var f2 := SetBit(f1, ZF, Low(res, w) == 0);
    BitOfSetBit(flg, SF, Bit(res, w - 1), j);
    BitOfSetBit(f1, ZF, Low(res, w) == 0, j);
    BitOfSetBit(f2, PF, Parity(res), j);
    TableCountsBits(res);
  }

  lemma CarryFlagBits(flg: nat, bits: nat, d: nat, s: nat, c: nat, setCarry: bool, j: nat)
    requires 2 <= bits <= 32 && d < Pow2(32) && s < Pow2(32) && c <= 1
    ensures Bit(CalcCarryChain(flg, bits, d, s, Sum(32, d, s, c), setCarry), j) ==
            if j == CF && setCarry then Bit(Sum(32, d, s, c), bits)
            else if j == OF then
              (Low(d, bits) + Low(s, bits) + c >= Pow2(bits))
              != (Low(d, bits - 1) + Low(s, bits - 1) + c >= Pow2(bits - 1))
            else if j == AF then Low(d, 4) + Low(s, 4) + c >= Pow2(4)
            else Bit(flg, j)
  {
    hide SetBit, Bit, Low, CarryBits, Shr, Pow2;
    var res := Sum(32, d, s, c);
    var cc := CarryBits(d, s, res);
    var f1 := SetBit(flg, OF, Xor2(Shr(cc, bits - 2)));
    BitOfSetBit(flg, OF, Xor2(Shr(cc, bits - 2)), j);
    BitOfSetBit(f1, AF, Bit(cc, 3), j);
    BitOfSetBit(SetBit(f1, AF, Bit(cc, 3)), CF, Bit(res, bits), j);
    BitOfShr(cc, bits - 2, 0);
    BitOfShr(cc, bits - 2, 1);
    CarryChainBit(d, s, c, bits - 2);
    CarryChainBit(d, s, c, bits - 1);
    CarryChainBit(d, s, c, 3);
  }

  lemma BorrowFlagBits(flg: nat, bits: nat, d: nat, s: nat, c: nat, setCarry: bool, j: nat)
    requires 2 <= bits <= 32 && d < Pow2(32) && s < Pow2(32) && c <= 1
    ensures Bit(CalcBorrowChain(flg, bits, d, s, Diff(32, d, s, c), setCarry), j) ==
            if j == CF && setCarry then Low(d, bits) < Low(s, bits) + c
            else if j == OF then (Low(d, bits) < Low(s, bits) + c) != (Low(d, bits - 1) < Low(s, bits - 1) + c)
            else if j == AF then Low(d, 4) < Low(s, 4) + c
            else Bit(flg, j)
  {
    hide SetBit, Bit, Low, BorrowBits, Shr, Pow2;
    var res := Diff(32, d, s, c);
    var bc := BorrowBits(d, s, res);
    var f1 := SetBit(flg, OF, Xor2(Shr(bc, bits - 2)));
    BitOfSetBit(flg, OF, Xor2(Shr(bc, bits - 2)), j);
    BitOfSetBit(f1, AF, Bit(bc, 3), j);
    BitOfSetBit(SetBit(f1, AF, Bit(bc, 3)), CF, Bit(bc, bits - 1), j);
    BitOfShr(bc, bits - 2, 0);
    BitOfShr(bc, bits - 2, 1);
    BorrowChainBit(d, s, c, bits - 2);
    BorrowChainBit(d, s, c, bits - 1);
    BorrowChainBit(d, s, c, 3);
  }
}
