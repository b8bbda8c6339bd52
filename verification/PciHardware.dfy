/**
 The PCI hardware below one host bridge: a tree of functions, their
 configuration registers, and the way bridges route a configuration cycle
 from a bus number to a physical bus.
 */
module PciHardware {
  import opened Bits
  import opened Wrappers

  const CMD_IO: u16 := 0x0001
  const CMD_MEM: u16 := 0x0002
  const CMD_MASTER: u16 := 0x0004
  const HEADER_MULTIFN: u8 := 0x80
  const HTYPE_BRIDGE: u8 := 0x01
  const CLASS_BRIDGE_PCI: u16 := 0x0604
  const VENDOR_INVALID: u16 := 0xFFFF
  const BAR_MEM_ADDR_MASK: u32 := 0xFFFF_FFF0
  const BAR_IO_ADDR_MASK: u32 := 0xFFFF_FFFC
  const ROM_ADDR_MASK: u32 := 0xFFFF_F800
  const SLOTS: nat := 256

  /** A base-address register: the bits software can change, and the value of the others. */
  datatype Bar = Bar(writable: u32, fixed: u32) {
    /** What the register holds after `v` is written to it. */
    function Store(v: u32): nat {
      Or(And(v, writable), fixed)
    }

    predicate Holds(v: u32) {
      Store(v) == v
    }

    predicate IsIo() {
      fixed % 2 == 1
    }

    predicate IsPref() {
      !IsIo() && fixed / 8 % 2 == 1
    }

    predicate Is64() {
      !IsIo() && fixed / 2 % 4 == 2
    }

    /** Bytes decoded, 0 if not implemented; bit 0 is never an address bit. */
    function Size(): nat {
      if writable == 0 then 0 else 0x1_0000_0000 - (writable - writable % 2)
    }

    /** The writable bits are a contiguous run down from bit 31; the type bits are hard-wired. */
    ghost predicate WellFormed() {
      && fixed < Pow2(TypeBits())
      && (writable == 0 || exists k :: TopRun(k))
    }

    /** The upper half of a 64-bit BAR: it has no type bits, and which of its bits are writable does not matter. */
    predicate WellFormedHigh() {
      fixed == 0
    }

    function TypeBits(): nat {
      if IsIo() then 2 else 4
    }

    ghost predicate TopRun(k: nat) {
      TypeBits() <= k < 32 && writable == 0x1_0000_0000 - Pow2(k)
    }

    /** An expansion-ROM register: address bits from 11 up, and a writable enable bit. */
    ghost predicate WellFormedRom() {
      && fixed == 0
      && (writable == 0 || exists k :: RomRun(k))
    }

    ghost predicate RomRun(k: nat) {
      11 <= k < 32 && writable == 0x1_0000_0000 - Pow2(k) + 1
    }
  }

  /** One (device, function) position of a bus; `secondary` is the bus behind a bridge. */
  datatype Slot =
    | Empty
    | Fn(vendor: u16, classCode: u16, headerType: u8, bars: seq<Bar>, rom: Bar, secondary: seq<Slot>)
  {
    predicate IsBridge() {
      Fn? && headerType % 0x80 == HTYPE_BRIDGE && classCode == CLASS_BRIDGE_PCI
    }

    predicate IsMultiFunction() {
      Fn? && headerType >= HEADER_MULTIFN
    }
  }

  function BarCount(headerType: u8): nat {
    if headerType % 0x80 == HTYPE_BRIDGE then 2 else 6
  }

  /** Slot 8 * device + function; 32 devices of 8 functions. */
  ghost predicate WellFormedBus(bus: seq<Slot>) {
    && |bus| == SLOTS
    && forall i :: 0 <= i < SLOTS && bus[i].Fn? ==> WellFormedFn(bus[i])
  }

  ghost predicate WellFormedFn(s: Slot)
    requires s.Fn?
  {
    && s.vendor != VENDOR_INVALID
    && |s.bars| == BarCount(s.headerType)
    && WellFormedBars(s.bars, 0)
    && s.rom.WellFormedRom()
    && (s.IsBridge() ==> WellFormedBus(s.secondary))
  }

  /** Registers from j on: an implemented 64-bit BAR has its upper half in the next one. */
  ghost predicate WellFormedBars(bars: seq<Bar>, j: nat)
    decreases |bars| - j
  {
    j < |bars| ==>
      && bars[j].WellFormed()
      && (if bars[j].Size() != 0 && bars[j].Is64()
          then j + 1 < |bars| && bars[j + 1].WellFormedHigh() && WellFormedBars(bars, j + 2)
          else WellFormedBars(bars, j + 1))
  }

  /** Does the walk look at slot i?  Functions 1-7 only behind a multi-function function 0. */
  predicate Scanned(bus: seq<Slot>, i: nat)
    requires i < |bus|
  {
    bus[i].Fn? && bus[i / 8 * 8].Fn? && (i % 8 == 0 || bus[i / 8 * 8].IsMultiFunction())
  }

  // ---------- paths ----------

  /** The slots followed from bus 0; a bus is named by the path of the bridge above it. */
  type Path = seq<nat>

  function Parent(f: Path): Path
    requires f != []
  {
    f[..|f| - 1]
  }

  function Last(f: Path): nat
    requires f != []
  {
    f[|f| - 1]
  }

  function BusAt(root: seq<Slot>, p: Path): seq<Slot>
    decreases |p|, 1
  {
    if p == [] then root
    else
      var s := SlotAt(root, p);
      if s.IsBridge() then s.secondary else []
  }

  function SlotAt(root: seq<Slot>, f: Path): Slot
    requires f != []
    decreases |f|, 0
  {
    var bus := BusAt(root, Parent(f));
    if Last(f) < |bus| then bus[Last(f)] else Empty
  }

  predicate IsBridgeAt(root: seq<Slot>, f: Path) {
    f != [] && SlotAt(root, f).IsBridge()
  }

  /** A function the walk reaches. */
  predicate Reached(root: seq<Slot>, f: Path) {
    && f != []
    && Last(f) < |BusAt(root, Parent(f))|
    && Scanned(BusAt(root, Parent(f)), Last(f))
    && (|f| > 1 ==> Reached(root, Parent(f)))
  }

  predicate ReachedBridge(root: seq<Slot>, f: Path) {
    Reached(root, f) && SlotAt(root, f).IsBridge()
  }

  /** q is an ancestor of g, and not g itself. */
  predicate Above(q: Path, g: Path) {
    |q| < |g| && g[..|q|] == q
  }

  lemma WellFormedBelow(root: seq<Slot>, p: Path)
    requires WellFormedBus(root)
    ensures BusAt(root, p) == [] || WellFormedBus(BusAt(root, p))
    ensures p != [] && SlotAt(root, p).Fn? ==> WellFormedFn(SlotAt(root, p))
  {
    if p != [] {
      WellFormedBelow(root, Parent(p));
    }
  }

  // ---------- configuration registers and routing ----------

  datatype Reg =
    | VendorId | ClassCode | HeaderType
    | Command | BarReg(index: nat) | RomReg
    | Primary | Secondary | Subordinate
    | MemBase | MemLimit | PrefBase | PrefLimit | IoBase | IoLimit

  type Config = map<(Path, Reg), u32>

  function Val(cfg: Config, f: Path, r: Reg): u32 {
    if (f, r) in cfg then cfg[(f, r)] else 0
  }

  /** Does the bridge at q take a configuration cycle addressed to bus number t? */
  predicate Claims(cfg: Config, q: Path, t: nat) {
    Val(cfg, q, Secondary) <= t <= Val(cfg, q, Subordinate)
  }

  /** Follow a Type 1 cycle for bus t down from slot i of the bus at p. */
  function RouteFrom(cfg: Config, bus: seq<Slot>, p: Path, i: nat, t: nat): Option<Path>
    decreases bus, |bus| - i
  {
    if i >= |bus| then None
    else if bus[i].IsBridge() && Claims(cfg, p + [i], t) then
      if Val(cfg, p + [i], Secondary) == t then Some(p + [i])
      else RouteFrom(cfg, bus[i].secondary, p + [i], 0, t)
    else RouteFrom(cfg, bus, p, i + 1, t)
  }

  /** The physical bus that sees a configuration cycle for bus number t. */
  function Route(cfg: Config, root: seq<Slot>, t: nat): Option<Path> {
    if t == 0 then Some([]) else RouteFrom(cfg, root, [], 0, t)
  }

  /** What a read returns; a cycle nobody answers reads as all ones. */
  function Answer(cfg: Config, root: seq<Slot>, t: nat, slot: nat, r: Reg): u32 {
    match Route(cfg, root, t)
    case None => 0xFFFF_FFFF
    case Some(p) =>
      var s := SlotAt(root, p + [slot]);
      if s.Empty? then 0xFFFF_FFFF
      else match r
        case VendorId => s.vendor
        case ClassCode => s.classCode
        case HeaderType => s.headerType
        case _ => Val(cfg, p + [slot], r)
  }

  /** The register contents after a write reaches the function at f. */
  function Written(cfg: Config, s: Slot, f: Path, r: Reg, v: u32): Config
    requires s.Fn?
  {
    match r
    case BarReg(j) =>
      if j < |s.bars| then (StoreFits(s.bars[j], v); cfg[(f, r) := s.bars[j].Store(v)])
      else cfg[(f, r) := v]
    case RomReg => StoreFits(s.rom, v); cfg[(f, r) := s.rom.Store(v)]
    case _ => cfg[(f, r) := v]
  }

  lemma StoreFits(b: Bar, v: u32)
    ensures b.Store(v) < 0x1_0000_0000
  {
    Pow32();
    OrBound(And(v, b.writable), b.fixed, 32);
  }
}
