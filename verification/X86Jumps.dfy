/**
 The conditional jumps, and what they decide after a comparison: the condition
 codes of Appendix B of volume 1 of the Intel SDM.
 */
module X86Jumps {
  import opened Bits
  import opened X86Parity
  import opened X86Flags
  import opened X86Status

  /**
   x86emu_check_jump_condition. The xorl macro has no outer parentheses, so the
   negation of case 0xd binds to its first conjunct only; in case 0xf the macro
   stands inside parentheses of its own.
   */
  predicate CheckJump(flg: nat, op: u8) {
    var o, c, z, s, p := Bit(flg, OF), Bit(flg, CF), Bit(flg, ZF), Bit(flg, SF), Bit(flg, PF);
    match op
    case 0x0 => o
    case 0x1 => !o
    case 0x2 => c
    case 0x3 => !c
    case 0x4 => z
    case 0x5 => !z
    case 0x6 => c || z
    case 0x7 => !(c || z)
    case 0x8 => s
    case 0x9 => !s
    case 0xA => p
    case 0xB => !p
    case 0xC => (s && !o) || (!s && o)
    case 0xD => !(s && !o) || (!s && o)
    case 0xE => ((s && !o) || (!s && o)) || z
    case _ => !(((s && !o) || (!s && o)) || z)
  }

  /** The flags of a comparison, in terms of the operands' order. */
  lemma CompareFlags(flg: nat, w: nat, d: nat, s: nat)
    requires Width(w) && d < Pow2(w) && s < Pow2(w)
    ensures var f := Cmp(flg, w, d, s).flg;
      && (Bit(f, CF) <==> d < s)
      && (Bit(f, ZF) <==> d == s)
      && (Bit(f, OF) <==> !InSignedRange(w, Signed(w, d) - Signed(w, s)))
      && (Bit(f, SF) != Bit(f, OF) <==> Signed(w, d) < Signed(w, s))
      && (Bit(f, SF) <==> Signed(w, Diff(w, d, s, 0)) < 0)
      && (Bit(f, PF) <==> Ones(Low(Diff(w, d, s, 0), 8)) % 2 == 0)
  {
    hide Bit, Low, Pow2, SubWith, Ones;
    SubMeaning(flg, w, d, s, 0, PF);
    SubMeaning(flg, w, d, s, 0, CF);
    SubMeaning(flg, w, d, s, 0, ZF);
    SubMeaning(flg, w, d, s, 0, OF);
    SubMeaning(flg, w, d, s, 0, SF);
    SignOfDifference(w, d, s);
  }

  /** The sign of a wrapped difference is the true sign exactly when nothing overflowed. */
  lemma SignOfDifference(w: nat, d: nat, s: nat)
    requires w > 0 && d < Pow2(w) && s < Pow2(w)
    ensures Diff(w, d, s, 0) == 0 <==> d == s
    ensures Signed(w, Diff(w, d, s, 0)) < 0 <==>
            ((Signed(w, d) < Signed(w, s)) == InSignedRange(w, Signed(w, d) - Signed(w, s)))
  {
    assert Pow2(w) == 2 * Pow2(w - 1);
  }

  /** After cmp, JB/JNB/JBE/JNBE decide unsigned order, JL/JLE/JNLE signed order, JZ/JNZ equality, JO/JNO
   overflow, and JS/JNS and JP/JNP the sign and the low byte's parity of the difference. */
  lemma JumpsDecide(flg: nat, w: nat, d: nat, s: nat)
    requires Width(w) && d < Pow2(w) && s < Pow2(w)
    ensures var f := Cmp(flg, w, d, s).flg; var sd, ss := Signed(w, d), Signed(w, s);
      && (CheckJump(f, 0x2) <==> d < s)
      && (CheckJump(f, 0x3) <==> d >= s)
      && (CheckJump(f, 0x6) <==> d <= s)
      && (CheckJump(f, 0x7) <==> d > s)
      && (CheckJump(f, 0x4) <==> d == s)
      && (CheckJump(f, 0x5) <==> d != s)
      && (CheckJump(f, 0xC) <==> sd < ss)
      && (CheckJump(f, 0xE) <==> sd <= ss)
      && (CheckJump(f, 0xF) <==> sd > ss)
      && (CheckJump(f, 0x0) <==> !InSignedRange(w, sd - ss))
      && (CheckJump(f, 0x1) <==> InSignedRange(w, sd - ss))
      && (CheckJump(f, 0x8) <==> Signed(w, Diff(w, d, s, 0)) < 0)
      && (CheckJump(f, 0x9) <==> Signed(w, Diff(w, d, s, 0)) >= 0)
      && (CheckJump(f, 0xA) <==> Ones(Low(Diff(w, d, s, 0), 8)) % 2 == 0)
      && (CheckJump(f, 0xB) <==> Ones(Low(Diff(w, d, s, 0), 8)) % 2 == 1)
  {
    hide Bit, Cmp, Pow2, InSignedRange, Low, Ones, Diff;
    CompareFlags(flg, w, d, s);
    SignedInjective(w, d, s);
  }

  lemma SignedInjective(w: nat, d: nat, s: nat)
    requires w > 0 && d < Pow2(w) && s < Pow2(w)
    ensures Signed(w, d) == Signed(w, s) <==> d == s
  {
  }

  /** JNL decides "not less" except when the signed difference underflows: then it jumps although d is less. */
  lemma NotLessExactly(flg: nat, w: nat, d: nat, s: nat)
    requires Width(w) && d < Pow2(w) && s < Pow2(w)
    ensures var jumps := CheckJump(Cmp(flg, w, d, s).flg, 0xD);
            (jumps <==> Signed(w, d) >= Signed(w, s)) <==> Signed(w, d) - Signed(w, s) >= 0 - Pow2(w - 1)
  {
    hide Bit, Cmp, Pow2;
    CompareFlags(flg, w, d, s);
    assert Signed(w, d) - Signed(w, s) >= 0 ==> Bit(Cmp(flg, w, d, s).flg, SF) == Bit(Cmp(flg, w, d, s).flg, OF);
  }

  /** INT_MIN compared with 1: less, and JNL jumps. */
  lemma NotLessCanFail(flg: nat)
    ensures Pow2(32) == 0x1_0000_0000
    ensures Signed(32, 0x8000_0000) < Signed(32, 1)
    ensures CheckJump(Cmp(flg, 32, 0x8000_0000, 1).flg, 0xD)
  {
    hide Bit, Cmp, Pow2;
    Pow32();
    NotLessExactly(flg, 32, 0x8000_0000, 1);
  }
}
