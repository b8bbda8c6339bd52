/** Bridge base/limit registers: the firmware's encoders and the bridge's decoding. */
module PciWindows {
  import opened Bits
  import opened PciPlan

  function MemWindowEncode(addr: u32): nat {
    And(addr / 0x1_0000, 0xFFF0)
  }

  function IoWindowEncode(addr: u32): nat {
    And(addr / 0x100, 0xF0)
  }

  /** The two values written for a window [start, end): a base, and a limit below it when the window is empty. */
  function MemPair(start: u32, end: u32): (nat, nat) {
    if end > start then (MemWindowEncode(start), MemWindowEncode(end - 1)) else (0xFFF0, 0x0000)
  }

  function IoPair(start: u32, end: u32): (nat, nat) {
    if end > start then (IoWindowEncode(start), IoWindowEncode(end - 1)) else (0xF0, 0x00)
  }

  /** Registers to half-open address window, as the bridge decodes them: 1 MiB granules ... */
  function MemDecode(base: nat, limit: nat): (nat, nat) {
    (base / 16 * 0x10_0000, limit / 16 * 0x10_0000 + 0x10_0000)
  }

  /** ... and 4 KiB granules in the 16-bit I/O mode. */
  function IoDecode(base: nat, limit: nat): (nat, nat) {
    (base / 16 * 0x1000, limit / 16 * 0x1000 + 0x1000)
  }

  /** What the registers decode to is the padded window, or nothing when the window is empty. */
  ghost predicate Decodes(w: (nat, nat), start: nat, end: nat, k: nat) {
    if end > start then w == (start, RoundUp(end, k)) else w.1 < w.0
  }

  lemma MemWindowDecodes(start: u32, end: u32, k: nat)
    requires start <= end && k == 20 && Low(start, k) == 0
    ensures var r := MemPair(start, end); Decodes(MemDecode(r.0, r.1), start, end, k)
  {
    hide Low, Pow2, MemWindowEncode, RoundUp;
    if end > start {
      MemPairDecode(start, end);
      Granular(start, end, k, 0x10_0000);
    }
  }

  lemma IoWindowDecodes(start: u32, end: u32, k: nat)
    requires start <= end <= 0x1_0000 && k == 12 && Low(start, k) == 0
    ensures var r := IoPair(start, end); Decodes(IoDecode(r.0, r.1), start, end, k)
  {
    hide Low, Pow2, IoWindowEncode, RoundUp;
    if end > start {
      IoPairDecode(start, end);
      Granular(start, end, k, 0x1000);
    }
  }

  lemma MemPairDecode(start: u32, end: u32)
    requires start < end
    ensures var r := MemPair(start, end);
            MemDecode(r.0, r.1) == (start / 0x10_0000 * 0x10_0000, (end - 1) / 0x10_0000 * 0x10_0000 + 0x10_0000)
  {
    hide And, MemWindowEncode;
    EncodeMem(start);
    EncodeMem(end - 1);
  }

  lemma IoPairDecode(start: u32, end: u32)
    requires start < end <= 0x1_0000
    ensures var r := IoPair(start, end);
            IoDecode(r.0, r.1) == (start / 0x1000 * 0x1000, (end - 1) / 0x1000 * 0x1000 + 0x1000)
  {
    hide And, IoWindowEncode;
    EncodeIo(start);
    EncodeIo(end - 1);
  }

  lemma Granular(start: nat, end: nat, k: nat, g: nat)
    requires start < end && Low(start, k) == 0
    requires (k == 20 && g == 0x10_0000) || (k == 12 && g == 0x1000)
    ensures start / g * g == start && (end - 1) / g * g + g == RoundUp(end, k)
  {
    hide Low, RoundUp, Pow2;
    PowSmall();
    AlignedQuotient(start, k, g);
    PaddedQuotient(end, k, g);
  }

  lemma AlignedQuotient(x: nat, k: nat, g: nat)
    requires g == Pow2(k) && Low(x, k) == 0
    ensures x / g * g == x
  {
    LowIsMod(x, k);
  }

  lemma PaddedQuotient(x: nat, k: nat, g: nat)
    requires g == Pow2(k) && x > 0
    ensures RoundUp(x, k) == (x - 1) / g * g + g
  {
    LowIsMod(x, k);
    var q, r := x / g, x % g;
    if r == 0 {
      assert (q - 1) * g == q * g - g;
      ModUnique(x - 1, g, q - 1, g - 1);
    } else {
      ModUnique(x - 1, g, q, r - 1);
    }
  }

  lemma EncodeMem(addr: u32)
    ensures MemWindowEncode(addr) == addr / 0x10_0000 * 16
  {
    hide And;
    var x := addr / 0x1_0000;
    MaskNibble(x, 16, 4, 0x1_0000, 16);
  }

  lemma EncodeIo(addr: u32)
    requires addr < 0x1_0000
    ensures IoWindowEncode(addr) == addr / 0x1000 * 16
  {
    hide And;
    var x := addr / 0x100;
    MaskNibble(x, 8, 4, 0x100, 16);
  }

  lemma MaskNibble(x: nat, n: nat, k: nat, m: nat, g: nat)
    requires k <= n <= 16 && (n == 8 || n == 16) && k == 4
    requires m == (if n == 8 then 0x100 else 0x1_0000) && g == 16 && x < m
    ensures And(x, m - g) == x / g * g
  {
    hide And, Low, Pow2;
    PowSmall();
    AndHigh(n, k, x);
    LowIsMod(x, k);
  }

  lemma PowSmall()
    ensures Pow2(4) == 16 && Pow2(8) == 0x100 && Pow2(12) == 0x1000 && Pow2(16) == 0x1_0000 && Pow2(20) == 0x10_0000
  {
    assert Pow2(8) == 0x100 && Pow2(12) == 0x1000;
    PowSum(8, 8);
    PowSum(8, 12);
  }
}
