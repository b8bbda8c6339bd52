/** Sizing a base-address register by probing its writable bits. */
module PciBars {
  import opened Bits
  import opened PciHardware

  /** The value written to find the size: every address bit set, the others as found. */
  function ProbeValue(saved: u32, addrMask: u32): nat {
    Or(And(saved, Not32(addrMask)), addrMask)
  }

  /** The size read off the register after the probe write. */
  function ProbedSize(mask: u32, addrMask: u32): u32 {
    var addr := And(mask, addrMask);
    if addr == 0 || addr > 0xFFFF_FFFF then 0 else (Not32(addr) + 1) % 0x1_0000_0000
  }

  /** The address mask whose lowest bit is m. */
  function AddrMask(m: nat): u32
    requires m <= 32
  {
    PowFits(m);
    0x1_0000_0000 - Pow2(m)
  }

  /** The number of low bits that are not address bits, for either kind of register. */
  ghost predicate BarOrRom(b: Bar, m: nat) {
    (m == b.TypeBits() && b.WellFormed()) || (m == 11 && b.WellFormedRom())
  }

  /** Probing returns the decoded size, and writing the saved value back restores the register. */
  lemma ProbeFindsSize(b: Bar, m: nat, saved: u32)
    requires m <= 32 && BarOrRom(b, m) && b.Holds(saved)
    ensures And(saved, Not32(AddrMask(m))) == Low(saved, m)
    ensures ProbeValue(saved, AddrMask(m)) < 0x1_0000_0000
    ensures b.Store(ProbeValue(saved, AddrMask(m))) < 0x1_0000_0000
    ensures ProbedSize(b.Store(ProbeValue(saved, AddrMask(m))), AddrMask(m)) == b.Size()
    ensures b.Store(saved) == saved
  {
    hide And, Or, Low, Pow2, AddrMask, BarOrRom, ProbeValue;
    ProbeValueIs(m, saved);
    var probe: u32 := ProbeValue(saved, AddrMask(m));
    StoreFits(b, probe);
    if b.writable == 0 {
      ReadBackUnimplemented(b, m, probe);
    } else {
      ReadBack(b, m, probe, Low(saved, m));
    }
  }

  lemma ReadBackUnimplemented(b: Bar, m: nat, probe: u32)
    requires m <= 32 && BarOrRom(b, m) && b.writable == 0
    ensures And(b.Store(probe), AddrMask(m)) == 0
  {
    AndZero(probe);
    assert AddrMask(32) == 0 by { Pow32(); }
    AddressBits(m, 32, b.fixed, b.fixed);
  }

  lemma ReadBack(b: Bar, m: nat, probe: u32, x: nat)
    requires m <= 32 && BarOrRom(b, m) && b.writable != 0
    requires probe == AddrMask(m) + x && x < Pow2(m)
    ensures 4 <= b.Size() <= 0x8000_0000
    ensures And(b.Store(probe), AddrMask(m)) == 0x1_0000_0000 - b.Size()
  {
    hide And, Or, Low, Pow2, BarOrRom, Run, Bar.Size;
    StoreFits(b, probe);
    var k := AddressRun(b, m);
    RunBounds(b, m, k);
    ProbeRoundsTo(m, k, probe, x);
    StoreRounds(b, m, k, probe);
    AddressBits(m, k, b.Store(probe), b.Store(probe) - AddrMask(k));
    PowFits(k);
  }

  lemma ProbeValueIs(m: nat, saved: u32)
    requires m <= 32
    ensures And(saved, Not32(AddrMask(m))) == Low(saved, m)
    ensures ProbeValue(saved, AddrMask(m)) == AddrMask(m) + Low(saved, m) < 0x1_0000_0000
  {
    hide And, Or, Low;
    AndLow(m, saved);
    AddrMaskAligned(m, m);
    OrComm(Low(saved, m), AddrMask(m));
    OrAdd(m, AddrMask(m), Low(saved, m));
  }

  lemma ProbeRoundsTo(m: nat, k: nat, probe: u32, x: nat)
    requires m <= k <= 32 && probe == AddrMask(m) + x && x < Pow2(m)
    ensures probe - Low(probe, k) == AddrMask(k)
  {
    PowMonotone(m, k);
    AddrMaskAligned(k, k);
    LowOfSum(AddrMask(k), Pow2(k) - Pow2(m) + x, k);
  }

  /** Of the value read back, the address bits are the top run from k. */
  lemma AddressBits(m: nat, k: nat, mask: u32, low: nat)
    requires m <= k <= 32 && mask == AddrMask(k) + low && low < Pow2(m)
    ensures And(mask, AddrMask(m)) == AddrMask(k)
  {
    hide And, Low;
    AddrMaskAligned(m, k);
    LowOfSum(AddrMask(k), low, m);
    Pow32();
    AndHigh(32, m, mask);
  }

  lemma AddrMaskAligned(m: nat, k: nat)
    requires m <= k <= 32
    ensures Low(AddrMask(k), m) == 0
  {
    Pow32();
    TopRunAligned(m, k, 32);
  }

  lemma {:induction false} TopRunAligned(m: nat, k: nat, n: nat)
    requires m <= k <= n
    ensures Pow2(k) <= Pow2(n) && Low(Pow2(n) - Pow2(k), m) == 0
  {
    PowMonotone(k, n);
    if m > 0 {
      TopRunAligned(m - 1, k - 1, n - 1);
      assert (Pow2(n) - Pow2(k)) / 2 == Pow2(n - 1) - Pow2(k - 1);
    }
  }

  ghost predicate Run(b: Bar, m: nat, k: nat) {
    && m <= k < 32
    && ((m == b.TypeBits() && b.WellFormed() && b.TopRun(k)) || (m == 11 && b.WellFormedRom() && b.RomRun(k)))
  }

  /** An implemented register decodes a power-of-two size no smaller than its address unit. */
  lemma AddressRun(b: Bar, m: nat) returns (k: nat)
    requires BarOrRom(b, m) && b.writable != 0
    ensures Run(b, m, k) && b.Size() == Pow2(k) && Pow2(m) <= Pow2(k) <= Pow2(31)
  {
    if m == b.TypeBits() && b.WellFormed() {
      k :| b.TopRun(k);
    } else {
      k :| b.RomRun(k);
    }
    SizeOfRun(b, k, Pow2(k - 1));
    PowMonotone(m, k);
    PowMonotone(k, 31);
  }

  lemma SizeOfRun(b: Bar, k: nat, half: nat)
    requires b.writable == 0x1_0000_0000 - 2 * half || b.writable == 0x1_0000_0000 - 2 * half + 1
    requires b.writable != 0
    ensures b.Size() == 2 * half
  {}

  lemma RunBounds(b: Bar, m: nat, k: nat)
    requires Run(b, m, k)
    ensures m <= k < 32 && Pow2(k) >= 4
  {
    PowMonotone(2, k);
  }

  lemma StoreRounds(b: Bar, m: nat, k: nat, v: u32)
    requires Run(b, m, k)
    ensures 0 <= b.Store(v) - (v - Low(v, k)) < Pow2(m)
  {
    if m == b.TypeBits() && b.WellFormed() && b.TopRun(k) {
      StoreBar(b, k, v);
    } else {
      StoreRom(b, k, v);
      PowMonotone(1, 11);
    }
  }

  /** A BAR keeps the address rounded down to its size, under its type bits. */
  lemma StoreBar(b: Bar, k: nat, v: u32)
    requires b.WellFormed() && b.TopRun(k)
    ensures b.Store(v) == v - Low(v, k) + b.fixed
  {
    hide And, Or, Low;
    assert And(v, b.writable) == v - Low(v, k) by {
      Pow32();
      AndHigh(32, k, v);
    }
    PowMonotone(b.TypeBits(), k);
    LowOfRounded(v, k);
    OrAdd(k, v - Low(v, k), b.fixed);
  }

  /** A ROM register keeps the rounded address and the enable bit. */
  lemma StoreRom(b: Bar, k: nat, v: u32)
    requires b.WellFormedRom() && b.RomRun(k)
    ensures b.Store(v) == v - Low(v, k) + v % 2
  {
    hide And, Or, Low, Pow2;
    var w := Pow2(31) - Pow2(k - 1);
    Pow32();
    PowMonotone(k - 1, 31);
    PowDouble(k - 1);
    AndOdd(v, w);
    LowStep(v, k);
    AndHigh(31, k - 1, v / 2);
    OrZero(And(v, b.writable));
  }

  /** The hard-wired type bits are what the register reads below its address. */
  lemma TypeBitsRead(b: Bar, saved: u32)
    requires b.WellFormed() && b.Holds(saved)
    ensures Low(saved, b.TypeBits()) == b.fixed && saved % 2 == b.fixed % 2
  {
    var m := b.TypeBits();
    LowSmall(b.fixed, m);
    if b.writable == 0 {
      AndZero(saved);
    } else {
      var k := AddressRun(b, m);
      ImplementedTypeBits(b, k, saved);
    }
    LowParity(saved, m);
  }

  lemma ImplementedTypeBits(b: Bar, k: nat, saved: u32)
    requires b.WellFormed() && b.TopRun(k) && b.Holds(saved)
    ensures Low(saved, b.TypeBits()) == Low(b.fixed, b.TypeBits())
  {
    StoreBar(b, k, saved);
    LowOfLow(saved, b.TypeBits(), k);
  }

  lemma LowParity(x: nat, m: nat)
    requires m > 0
    ensures Low(x, m) % 2 == x % 2
  {}

  /** The three tests the walk makes on a BAR's type bits. */
  lemma IoTest(v: nat)
    ensures And(v, 1) == v % 2
  {
    AndOdd(v, 0);
    AndZero(v / 2);
  }

  lemma Type64Test(v: nat, fixed: nat)
    requires Low(v, 4) == fixed
    ensures And(v, 6) == 4 <==> fixed / 2 % 4 == 2
  {
    hide And, Low;
    AndEven(v, 3);
    AndOdd(v / 2, 1);
    IoTest(v / 2 / 2);
    LowStep(v, 4);
    LowStep(v / 2, 3);
    LowParity(v / 2 / 2, 2);
  }

  lemma PrefetchTest(fixed: nat)
    requires fixed < 16
    ensures And(fixed, 8) != 0 <==> fixed / 8 == 1
  {
    hide And;
    AndEven(fixed, 4);
    AndEven(fixed / 2, 2);
    AndEven(fixed / 2 / 2, 1);
    IoTest(fixed / 2 / 2 / 2);
  }

  /** Writing an aligned base with the type bits stores exactly that. */
  lemma BaseStored(b: Bar, k: nat, base: u32)
    requires b.WellFormed() && b.TopRun(k) && Low(base, k) == 0
    ensures And(b.fixed, Not32(AddrMask(b.TypeBits()))) == b.fixed
    ensures Or(b.fixed, base) == base + b.fixed < 0x1_0000_0000
    ensures b.Store(base + b.fixed) == base + b.fixed
  {
    hide And, Or, Low, Bar.Store;
    var m := b.TypeBits();
    PowMonotone(m, k);
    AndLow(m, b.fixed);
    LowSmall(b.fixed, m);
    OrComm(b.fixed, base);
    OrAdd(k, base, b.fixed);
    OrFits(base, b.fixed);
    LowOfSum(base, b.fixed, k);
    StoreBar(b, k, base + b.fixed);
  }

  lemma OrFits(x: u32, y: u32)
    ensures Or(x, y) < 0x1_0000_0000
  {
    Pow32();
    OrBound(x, y, 32);
  }

  lemma RomBaseStored(b: Bar, k: nat, base: u32)
    requires b.WellFormedRom() && b.RomRun(k) && Low(base, k) == 0
    ensures Or(base, 1) == base + 1 < 0x1_0000_0000
    ensures b.Store(base + 1) == base + 1
  {
    hide And, Or, Bar.Store;
    PowMonotone(1, k);
    OrAdd(k, base, 1);
    OrFits(base, 1);
    LowOfSum(base, 1, k);
    LowParity(base, k);
    StoreRom(b, k, base + 1);
  }

  /** Clearing the upper half of a 64-bit BAR leaves 0 in it. */
  lemma HighStored(b: Bar)
    requires b.WellFormedHigh()
    ensures b.Store(0) == 0
  {
  }

  /** Writing a register and reading it back is stable. */
  lemma StoreHolds(b: Bar, v: u32)
    ensures b.Store(v) < 0x1_0000_0000 && b.Holds(b.Store(v))
  {
    StoreFits(b, v);
    var s := b.Store(v);
    StoreFits(b, s);
    Pow32();
    forall k | 0 <= k < 32
      ensures Bit(b.Store(s), k) == Bit(s, k)
    {
      BitOfOr(And(s, b.writable), b.fixed, k);
      BitOfAnd(s, b.writable, k);
      BitOfOr(And(v, b.writable), b.fixed, k);
      BitOfAnd(v, b.writable, k);
    }
    SameBitsSameWord(b.Store(s), s, 32);
  }

  lemma {:induction false} OrComm(x: nat, y: nat)
    ensures Or(x, y) == Or(y, x)
  {
    if x == 0 {
      OrZero(y);
    } else if y == 0 {
      OrZero(x);
    } else {
      OrComm(x / 2, y / 2);
    }
  }
}
