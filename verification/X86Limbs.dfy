/** Multi-word arithmetic: chains of add/adc and sub/sbb with inc and dec stepping the pointers in between. */
module X86Limbs {
  import opened Bits
  import opened X86Parity
  import opened X86Flags
  import opened X86Status

  /** The number a little-endian sequence of 32-bit limbs stands for. */
  function Value(x: seq<u32>): nat {
    if x == [] then 0 else x[0] + 0x1_0000_0000 * Value(x[1..])
  }

  function Weight(n: nat): nat {
    if n == 0 then 1 else 0x1_0000_0000 * Weight(n - 1)
  }

  datatype Run = Run(flg: nat, limbs: seq<u32>)

  /** What a loop does between two limbs: step a pointer up and a counter down. */
  function Step(flg: nat, p: u32, n: u32): nat {
    Pow32();
    Dec(Inc(flg, 32, p).flg, 32, n).flg
  }

  /** adc over the limbs, lowest first; p and n are the pointer and counter values at each step. */
  function AdcChain(flg: nat, x: seq<u32>, y: seq<u32>, p: seq<u32>, n: seq<u32>): Run
    requires |x| == |y| == |p| == |n|
    decreases |x|
  {
    if x == [] then Run(flg, [])
    else
      Pow32();
      var first := Adc(flg, 32, x[0], y[0]);
      var rest := AdcChain(Step(first.flg, p[0], n[0]), x[1..], y[1..], p[1..], n[1..]);
      Run(rest.flg, [first.res] + rest.limbs)
  }

  /** The usual program: add the lowest limbs, then adc the others. */
  function AddChain(flg: nat, x: seq<u32>, y: seq<u32>, p: seq<u32>, n: seq<u32>): Run
    requires |x| == |y| == |p| == |n| > 0
  {
    Pow32();
    var first := Add(flg, 32, x[0], y[0]);
    var rest := AdcChain(Step(first.flg, p[0], n[0]), x[1..], y[1..], p[1..], n[1..]);
    Run(rest.flg, [first.res] + rest.limbs)
  }

  function SbbChain(flg: nat, x: seq<u32>, y: seq<u32>, p: seq<u32>, n: seq<u32>): Run
    requires |x| == |y| == |p| == |n|
    decreases |x|
  {
    if x == [] then Run(flg, [])
    else
      Pow32();
      var first := Sbb(flg, 32, x[0], y[0]);
      var rest := SbbChain(Step(first.flg, p[0], n[0]), x[1..], y[1..], p[1..], n[1..]);
      Run(rest.flg, [first.res] + rest.limbs)
  }

  function SubChain(flg: nat, x: seq<u32>, y: seq<u32>, p: seq<u32>, n: seq<u32>): Run
    requires |x| == |y| == |p| == |n| > 0
  {
    Pow32();
    var first := Sub(flg, 32, x[0], y[0]);
    var rest := SbbChain(Step(first.flg, p[0], n[0]), x[1..], y[1..], p[1..], n[1..]);
    Run(rest.flg, [first.res] + rest.limbs)
  }

  /** inc and dec between limbs leave the carry flag alone. */
  lemma StepKeepsCarry(flg: nat, p: u32, n: u32)
    ensures Carry(Step(flg, p, n)) == Carry(flg)
  {
    hide Pow2, Inc, Dec, Bit;
    Pow32();
    IncMeaning(flg, 32, p, CF);
    DecMeaning(Inc(flg, 32, p).flg, 32, n, CF);
  }

  /** One limb of addition, carry in to carry out. */
  lemma AddLimb(flg: nat, x: u32, y: u32, c: nat, split: bool)
    requires c <= 1 && (c == 0 || split)
    ensures Pow2(32) == 0x1_0000_0000
    ensures var o := AddWith(flg, 32, x, y, c, split);
            o.res < 0x1_0000_0000 && o.res + 0x1_0000_0000 * Carry(o.flg) == x + y + c
  {
    hide Pow2, AddWith, Bit, Signed, InSignedRange, EvenParity;
    Pow32();
    AddMeaning(flg, 32, x, y, c, split, CF);
  }

  lemma SubLimb(flg: nat, x: u32, y: u32, c: nat)
    requires c <= 1
    ensures Pow2(32) == 0x1_0000_0000
    ensures var o := SubWith(flg, 32, x, y, c);
            o.res < 0x1_0000_0000 && o.res == x - y - c + 0x1_0000_0000 * Carry(o.flg)
  {
    hide Pow2, SubWith, Bit, Signed, InSignedRange, EvenParity;
    Pow32();
    SubMeaning(flg, 32, x, y, c, CF);
  }

  lemma {:induction false} AdcChainAdds(flg: nat, x: seq<u32>, y: seq<u32>, p: seq<u32>, n: seq<u32>)
    requires |x| == |y| == |p| == |n|
    ensures var r := AdcChain(flg, x, y, p, n);
            |r.limbs| == |x| && Value(r.limbs) + Weight(|x|) * Carry(r.flg) == Value(x) + Value(y) + Carry(flg)
    decreases |x|
  {
    hide Pow2, AddWith, Step, Carry;
    if x != [] {
      AddLimb(flg, x[0], y[0], Carry(flg), true);
      var first := Adc(flg, 32, x[0], y[0]);
      StepKeepsCarry(first.flg, p[0], n[0]);
      var rest := AdcChain(Step(first.flg, p[0], n[0]), x[1..], y[1..], p[1..], n[1..]);
      AdcChainAdds(Step(first.flg, p[0], n[0]), x[1..], y[1..], p[1..], n[1..]);
      Assemble(first.res, rest.limbs, Weight(|x| - 1), Carry(rest.flg));
    }
  }

  /** One more low limb scales the rest, and its carry, by 2^32. */
  lemma Assemble(lo: u32, hi: seq<u32>, w: nat, c: nat)
    ensures Value([lo] + hi) + 0x1_0000_0000 * w * c == lo + 0x1_0000_0000 * (Value(hi) + w * c)
  {
    assert ([lo] + hi)[1..] == hi;
    assert 0x1_0000_0000 * w * c == 0x1_0000_0000 * (w * c);
  }

  /** add then adc is addition of whole numbers, the last carry being the part that does not fit. */
  lemma AddChainAdds(flg: nat, x: seq<u32>, y: seq<u32>, p: seq<u32>, n: seq<u32>)
    requires |x| == |y| == |p| == |n| > 0
    ensures var r := AddChain(flg, x, y, p, n);
            |r.limbs| == |x| && Value(r.limbs) + Weight(|x|) * Carry(r.flg) == Value(x) + Value(y)
  {
    hide Pow2, AddWith, Step, Carry;
    AddLimb(flg, x[0], y[0], 0, false);
    var first := Add(flg, 32, x[0], y[0]);
    StepKeepsCarry(first.flg, p[0], n[0]);
    var rest := AdcChain(Step(first.flg, p[0], n[0]), x[1..], y[1..], p[1..], n[1..]);
    AdcChainAdds(Step(first.flg, p[0], n[0]), x[1..], y[1..], p[1..], n[1..]);
    Assemble(first.res, rest.limbs, Weight(|x| - 1), Carry(rest.flg));
  }

  lemma {:induction false} SbbChainSubtracts(flg: nat, x: seq<u32>, y: seq<u32>, p: seq<u32>, n: seq<u32>)
    requires |x| == |y| == |p| == |n|
    ensures var r := SbbChain(flg, x, y, p, n);
            |r.limbs| == |x| && Value(r.limbs) == Value(x) - Value(y) - Carry(flg) + Weight(|x|) * Carry(r.flg)
    decreases |x|
  {
    hide Pow2, SubWith, Step, Carry;
    if x != [] {
      SubLimb(flg, x[0], y[0], Carry(flg));
      var first := Sbb(flg, 32, x[0], y[0]);
      StepKeepsCarry(first.flg, p[0], n[0]);
      var rest := SbbChain(Step(first.flg, p[0], n[0]), x[1..], y[1..], p[1..], n[1..]);
      SbbChainSubtracts(Step(first.flg, p[0], n[0]), x[1..], y[1..], p[1..], n[1..]);
      Assemble(first.res, rest.limbs, Weight(|x| - 1), Carry(rest.flg));
    }
  }

  lemma SubChainSubtracts(flg: nat, x: seq<u32>, y: seq<u32>, p: seq<u32>, n: seq<u32>)
    requires |x| == |y| == |p| == |n| > 0
    ensures var r := SubChain(flg, x, y, p, n);
            |r.limbs| == |x| && Value(r.limbs) == Value(x) - Value(y) + Weight(|x|) * Carry(r.flg)
  {
    hide Pow2, SubWith, Step, Carry;
    SubLimb(flg, x[0], y[0], 0);
    var first := Sub(flg, 32, x[0], y[0]);
    StepKeepsCarry(first.flg, p[0], n[0]);
    var rest := SbbChain(Step(first.flg, p[0], n[0]), x[1..], y[1..], p[1..], n[1..]);
    SbbChainSubtracts(Step(first.flg, p[0], n[0]), x[1..], y[1..], p[1..], n[1..]);
    Assemble(first.res, rest.limbs, Weight(|x| - 1), Carry(rest.flg));
  }

  lemma {:induction false} ValueBound(x: seq<u32>)
    ensures Value(x) < Weight(|x|)
  {
    if x != [] {
      ValueBound(x[1..]);
    }
  }

  /** The final carry of the addition says exactly whether the sum overflows, the limbs then holding the rest. */
  lemma FinalCarry(flg: nat, x: seq<u32>, y: seq<u32>, p: seq<u32>, n: seq<u32>)
    requires |x| == |y| == |p| == |n| > 0
    ensures var r := AddChain(flg, x, y, p, n); Bit(r.flg, CF) <==> Value(x) + Value(y) >= Weight(|x|)
    ensures var r := SubChain(flg, x, y, p, n); Bit(r.flg, CF) <==> Value(x) < Value(y)
  {
    hide Value, Weight, AdcChain, SbbChain, AddChain, SubChain, Bit;
    AddChainAdds(flg, x, y, p, n);
    SubChainSubtracts(flg, x, y, p, n);
    ValueBound(AddChain(flg, x, y, p, n).limbs);
    ValueBound(SubChain(flg, x, y, p, n).limbs);
    ValueBound(x);
    ValueBound(y);
  }
}
