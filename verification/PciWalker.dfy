/** The firmware's enumerator: it sees the hardware only through numbered configuration cycles. */
module PciWalker {
  import opened Bits
  import opened Wrappers
  import opened PciHardware
  import opened PciBars
  import opened PciPlan
  import opened PciWindows
  import opened PciLayout
  import opened PciRouting
  import opened PciAssign
  import opened PciProgram

  class Walker {
    const root: seq<Slot>
    var cfg: Config
    var memNext: u32
    var prefNext: u32
    var ioNext: u32
    var nextBus: u8

    /** The allocators as they are before any host has been walked. */
    constructor (bus: seq<Slot>, registers: Config)
      ensures root == bus && cfg == registers
      ensures memNext == 0x8000_0000 && prefNext == 0xA000_0000 && ioNext == 0x1000
    {
      root, cfg := bus, registers;
      memNext, prefNext, ioNext, nextBus := 0x8000_0000, 0xA000_0000, 0x1000, 0;
    }

    ghost predicate Holding(a: Alloc)
      reads this
    {
      memNext == a.mem && prefNext == a.pref && ioNext == a.io && nextBus == Byte(a.bus)
    }

    method CfgRead(bus: u8, slot: nat, r: Reg, ghost w: Where) returns (v: u32)
      requires Linked(cfg, root, bus, slot, w)
      requires !r.VendorId? && !r.ClassCode? && !r.HeaderType?
      ensures v == Val(cfg, w.f, r)
    {
      RouteReaches(cfg, root, w.p, bus);
      v := Answer(cfg, root, bus, slot, r);
    }

    method CfgWrite(bus: u8, slot: nat, r: Reg, v: u32, ghost w: Where)
      requires Linked(cfg, root, bus, slot, w)
      modifies this`cfg
      ensures Wrote(old(cfg), cfg, w.f, r, Stored(w.s, r, v)) && BarsHold(cfg, root)
      ensures !r.Secondary? && !r.Subordinate? ==> Linked(cfg, root, bus, slot, w)
    {
      RouteReaches(cfg, root, w.p, bus);
      WriteEffect(cfg, root, bus, slot, w, r, v);
      match Route(cfg, root, bus)
      case None => assert false;
      case Some(q) => cfg := Written(cfg, SlotAt(root, q + [slot]), q + [slot], r, v);
    }

    /** Size a register without disturbing it. */
    method BarProbe(bus: u8, slot: nat, r: Reg, addrMask: u32, ghost w: Where, ghost b: Bar, ghost m: nat)
      returns (size: u32, flags: u32, is64: bool)
      requires Linked(cfg, root, bus, slot, w)
      requires (r.BarReg? && r.index < |w.s.bars| && b == w.s.bars[r.index]) || (r.RomReg? && b == w.s.rom)
      requires m <= 32 && BarOrRom(b, m) && addrMask == AddrMask(m)
      modifies this`cfg
      ensures Linked(cfg, root, bus, slot, w) && SameRegisters(old(cfg), cfg)
      ensures size == b.Size()
      ensures b.Holds(Val(cfg, w.f, r)) && flags == Low(Val(cfg, w.f, r), m)
      ensures is64 <==> size != 0 && And(Val(cfg, w.f, r), 1) == 0 && And(Val(cfg, w.f, r), 6) == 4
    {
      hide Linked, BarsHold, BarOrRom, AddrMask, Bar.Store, And, Low, Bar.Size, ProbeValue, ProbedSize, RoutedTo;
      var saved := CfgRead(bus, slot, r, w);
      RegisterHolds(cfg, root, bus, slot, w, r, b);
      ProbeFindsSize(b, m, saved);
      CfgWrite(bus, slot, r, ProbeValue(saved, addrMask), w);
      var mask := CfgRead(bus, slot, r, w);
      CfgWrite(bus, slot, r, saved, w);
      flags := And(saved, Not32(addrMask));
      size := ProbedSize(mask, addrMask);
      is64 := size != 0 && And(saved, 1) == 0 && And(saved, 6) == 4;
    }

    /** Take an aligned block from an allocator. */
    method Take(s: Space, size: u32, ghost a: Alloc, ghost r: Req) returns (base: u32)
      requires Holding(a) && r.space == s && size == Pow2(r.order) && r.order < 32
      requires RoomFor(a, r)
      modifies this`memNext, this`prefNext, this`ioNext
      ensures base == RoundUp(a.Get(s), r.order)
      ensures Holding(Grant(a, r))
    {
      var next := match s case Io => ioNext case Pref => prefNext case Mem => memNext;
      AlignUpRounds(next, r.order, size);
      base := AlignUp(next, size);
      match s
      case Io => ioNext := base + size;
      case Pref => prefNext := base + size;
      case Mem => memNext := base + size;
    }

    /** Read off a BAR's kind and size. */
    method ClassifyBar(bus: u8, slot: nat, i: nat, ghost w: Where, ghost b: Bar)
      returns (space: Space, addrMask: u32, size: u32, flags: u32, is64: bool)
      requires Linked(cfg, root, bus, slot, w) && i < |w.s.bars| && b == w.s.bars[i] && b.WellFormed()
      modifies this`cfg
      ensures Linked(cfg, root, bus, slot, w) && SameRegisters(old(cfg), cfg)
      ensures space == SpaceOf(b) && addrMask == AddrMask(b.TypeBits()) && size == b.Size() && flags == b.fixed
      ensures is64 == (b.Size() != 0 && b.Is64())
    {
      hide Linked, BarsHold, RoutedTo;
      var first := CfgRead(bus, slot, BarReg(i), w);
      RegisterHolds(cfg, root, bus, slot, w, BarReg(i), b);
      TypeBitsRead(b, first);
      TypeTests(b, first);
      AddrMasks();
      var isIo := And(first, 1) != 0;
      addrMask := if isIo then BAR_IO_ADDR_MASK else BAR_MEM_ADDR_MASK;
      size, flags, is64 := BarProbe(bus, slot, BarReg(i), addrMask, w, b, b.TypeBits());
      var pref := !isIo && And(flags, 8) != 0;
      space := if isIo then Io else if pref then Pref else Mem;
    }

    /** Size BAR i and, if it is implemented, give it the next block of its space. */
    method AssignBar(bus: u8, slot: nat, i: nat, ghost w: Where, ghost b: Bar, ghost a: Alloc)
      returns (is64: bool, cmdBits: u16)
      requires Linked(cfg, root, bus, slot, w) && i < |w.s.bars| && b == w.s.bars[i] && BarReady(w.s, i)
      requires Holding(a) && (b.Size() != 0 ==> RoomFor(a, BarReq(b, i)))
      modifies this
      ensures Linked(cfg, root, bus, slot, w) && OnlyFrom(old(cfg), cfg, w.f, i)
      ensures is64 == (b.Size() != 0 && b.Is64())
      ensures b.Size() == 0 ==> cmdBits == 0 && Holding(a)
      ensures b.Size() != 0 ==>
                && cmdBits == (if b.IsIo() then CMD_IO else CMD_MEM)
                && Holding(Grant(a, BarReq(b, i)))
                && Val(cfg, w.f, BarReg(i)) == RoundUp(a.Get(SpaceOf(b)), Order(b.Size())) + b.fixed
                && (b.Is64() ==> Val(cfg, w.f, BarReg(i + 1)) == 0)
    {
      hide Linked, BarsHold, And, Or, Low, AddrMask, Bar.WellFormed, Pow2, Order;
      var space, addrMask, size, flags;
      space, addrMask, size, flags, is64 := ClassifyBar(bus, slot, i, w, b);
      cmdBits := 0;
      if size != 0 {
        OrderOfBar(b);
        var base := Take(space, size, a, BarReq(b, i));
        RoundUpAligned(a.Get(space), Order(b.Size()));
        BaseStored(b, Order(b.Size()), base);
        CfgWrite(bus, slot, BarReg(i), Or(And(flags, Not32(addrMask)), base), w);
        if is64 {
          HighStored(w.s.bars[i + 1]);
          CfgWrite(bus, slot, BarReg(i + 1), 0, w);
        }
        cmdBits := if space.Io? then CMD_IO else CMD_MEM;
      }
    }

    /** Probe and place the expansion ROM, enabled. */
    method AssignRom(bus: u8, slot: nat, ghost w: Where, ghost a: Alloc) returns (cmdBits: u16)
      requires Linked(cfg, root, bus, slot, w) && w.s.rom.WellFormedRom()
      requires Holding(a) && (w.s.rom.Size() != 0 ==> RoomFor(a, RomReq(w.s.rom)))
      modifies this
      ensures Linked(cfg, root, bus, slot, w) && OnlyFrom(old(cfg), cfg, w.f, |w.s.bars|)
      ensures w.s.rom.Size() == 0 ==> cmdBits == 0 && Holding(a)
      ensures w.s.rom.Size() != 0 ==>
                && cmdBits == CMD_MEM
                && Holding(Grant(a, RomReq(w.s.rom)))
                && Val(cfg, w.f, RomReg) == RoundUp(a.mem, Order(w.s.rom.Size())) + 1
    {
      hide Linked, BarsHold, And, Or, Low, Bar.WellFormedRom, Pow2, Order;
      LinkedFn(cfg, root, bus, slot, w);
      ghost var b := w.s.rom;
      AddrMasks();
      cmdBits := 0;
      var size, _, _ := BarProbe(bus, slot, RomReg, ROM_ADDR_MASK, w, b, 11);
      if size != 0 {
        OrderOfRom(b);
        var base := Take(Mem, size, a, RomReq(b));
        RoundUpAligned(a.mem, Order(b.Size()));
        RomBaseStored(b, Order(b.Size()), base);
        CfgWrite(bus, slot, RomReg, Or(base, 1), w);
        cmdBits := CMD_MEM;
      }
    }

    /** One turn of the loop over BARs. */
    method AssignNext(bus: u8, slot: nat, i: nat, bits: u16, ghost w: Where, ghost a: Alloc, ghost c0: Config,
                      ghost k: nat)
      returns (next: nat, cmdBits: u16, ghost l: nat)
      requires Linked(cfg, root, bus, slot, w) && WellFormedFn(w.s) && i < |w.s.bars| && k <= |Requests(w.s)|
      requires Progress(w.s, w.f, a, c0, cfg, i, k, bits)
      requires Holding(AfterReqs(Requests(w.s), k, a)) && AllFit(Requests(w.s), a)
      modifies this
      ensures Linked(cfg, root, bus, slot, w) && i < next <= |w.s.bars| && l <= |Requests(w.s)|
      ensures Progress(w.s, w.f, a, c0, cfg, next, l, cmdBits)
      ensures Holding(AfterReqs(Requests(w.s), l, a))
    {
      hide Progress, Remaining, WellFormedFn, Linked, Requests, Or, AfterReqs, AllFit, RoomFor, Grant, BarReq, Val,
        Order, RoundUp;
      LinkedFn(cfg, root, bus, slot, w);
      ghost var s, reqs, before := w.s, Requests(w.s), cfg;
      ProgressRemaining(s, w.f, a, c0, cfg, i, k, bits);
      BarRoom(s, i, k, a);
      var is64, more := AssignBar(bus, slot, i, w, s.bars[i], AfterReqs(reqs, k, a));
      if s.bars[i].Size() == 0 {
        BarSkipped(s, w.f, a, c0, before, cfg, i, k, bits);
        l := k;
      } else {
        BarDone(s, w.f, a, c0, before, cfg, i, k, bits, more);
        l := k + 1;
      }
      cmdBits := Or(bits, more);
      next := i + if is64 then 2 else 1;
    }

    /** Probe every BAR of a function, then its ROM. */
    method AssignBars(bus: u8, slot: nat, headerType: u8, ghost w: Where, ghost a: Alloc) returns (cmdBits: u16)
      requires Linked(cfg, root, bus, slot, w) && WellFormedFn(w.s) && headerType == w.s.headerType
      requires Holding(a) && AllFit(Requests(w.s), a)
      modifies this
      ensures Linked(cfg, root, bus, slot, w) && OnlyKinds(old(cfg), cfg, w.f, 1, 1)
      ensures Holding(AfterReqs(Requests(w.s), |Requests(w.s)|, a))
      ensures BlocksSet(cfg, w.s, w.f, a, |Requests(w.s)|)
      ensures cmdBits < 4 && BitsFor(cmdBits, Requests(w.s))
    {
      hide BlocksSet, BitsFor, OnlyKinds, Or, AllFit, RoomFor, Grant, RomReq, RoutedTo, BarsHold, Linked, Requests,
        AfterReqs, WellFormedFn, Remaining, Progress, Bar.WellFormedRom, Val;
      LinkedFn(cfg, root, bus, slot, w);
      ghost var s, reqs, c0 := w.s, Requests(w.s), cfg;
      ProgressStart(s, w.f, a, cfg);
      FnFacts(s);
      var numBars := BarCount(headerType);
      var i := 0;
      ghost var k: nat := 0;
      cmdBits := 0;
      while i < numBars
        invariant s.Fn? && i <= numBars == |s.bars| && k <= |reqs|
        invariant Progress(s, w.f, a, c0, cfg, i, k, cmdBits)
        invariant Holding(AfterReqs(reqs, k, a)) && Linked(cfg, root, bus, slot, w)
      {
        i, cmdBits, k := AssignNext(bus, slot, i, cmdBits, w, a, c0, k);
      }
      ghost var before := cfg;
      ProgressRemaining(s, w.f, a, c0, cfg, i, k, cmdBits);
      LastRequest(s, k, a);
      var more := AssignRom(bus, slot, w, AfterReqs(reqs, k, a));
      RomDone(s, w.f, a, c0, before, cfg, k, cmdBits, more);
      cmdBits := Or(cmdBits, more);
    }

    method ReadVendor(bus: u8, slot: nat, ghost p: Path) returns (v: u16)
      requires RoutedTo(cfg, root, p, bus)
      ensures v == if SlotAt(root, p + [slot]).Empty? then VENDOR_INVALID else SlotAt(root, p + [slot]).vendor
    {
      RouteReaches(cfg, root, p, bus);
      v := Answer(cfg, root, bus, slot, VendorId) % 0x1_0000;
    }

    method ReadKind(bus: u8, slot: nat, ghost w: Where) returns (classCode: u16, headerType: u8)
      requires Linked(cfg, root, bus, slot, w)
      ensures classCode == w.s.classCode && headerType == w.s.headerType
    {
      RouteReaches(cfg, root, w.p, bus);
      classCode := Answer(cfg, root, bus, slot, ClassCode);
      headerType := Answer(cfg, root, bus, slot, HeaderType);
    }

    /** Turn on the decoders a function needs, and bus mastering. */
    method EnableDecoders(bus: u8, slot: nat, cmdBits: u16, ghost w: Where)
      requires Linked(cfg, root, bus, slot, w) && cmdBits < 4 && BitsFor(cmdBits, Requests(w.s))
      modifies this`cfg
      ensures Linked(cfg, root, bus, slot, w) && OwnBits(cfg, w.s, w.f) && OnlyKinds(old(cfg), cfg, w.f, 5, 5)
      ensures Gains(Val(old(cfg), w.f, Command), Val(cfg, w.f, Command), Requests(w.s))
    {
      hide Linked, Or, Bit, Requests, BitsFor, Val, Gains;
      LinkedFn(cfg, root, bus, slot, w);
      if cmdBits != 0 {
        var cmd := CfgRead(bus, slot, Command, w);
        OrFits(cmdBits, CMD_MASTER);
        OrFits(cmd, Or(cmdBits, CMD_MASTER));
        AddedBits(cmd, cmdBits, Requests(w.s));
        CfgWrite(bus, slot, Command, Or(cmd, Or(cmdBits, CMD_MASTER)), w);
      } else {
        NoBitsNoRequests(Requests(w.s));
      }
      GainsDecode(Val(old(cfg), w.f, Command), Val(cfg, w.f, Command), Requests(w.s));
    }

    /** Number a bridge and open it up to bus 0xFF. */
    method NumberBridge(bus: u8, slot: nat, secondary: u8, ghost w: Where)
      requires Linked(cfg, root, bus, slot, w) && OpenTo(cfg, root, w.p, bus, secondary)
      requires Parent(w.f) == w.p && Above(w.p, w.f) && IsBridgeAt(root, w.f)
      modifies this`cfg
      ensures OpenTo(cfg, root, w.f, secondary, secondary + 1) && BarsHold(cfg, root)
      ensures Val(cfg, w.f, Primary) == bus && Val(cfg, w.f, Secondary) == secondary
      ensures OnlyKinds(old(cfg), cfg, w.f, 2, 4)
    {
      ghost var c0 := cfg;
      assert SlotAt(root, w.f) == w.s && w.f == w.p + [slot] && w.s.Fn? && bus < secondary;
      OpenIsRouted(cfg, root, w.p, bus, secondary);
      hide RoutedTo, OpenTo, BarsHold, SlotAt, BusAt, IsBridgeAt;
      CfgWrite(bus, slot, Primary, bus, w);
      CfgWrite(bus, slot, Secondary, secondary, w);
      RoutedStill(c0, cfg, root, w.p, bus, w.f);
      CfgWrite(bus, slot, Subordinate, 0xFF, w);
      Descend(c0, cfg, root, w.p, bus, secondary, w.f);
    }

    /** Take the next bus number for a bridge, and pad the allocators to its window granularity. */
    method OpenBridge(bus: u8, slot: nat, ghost w: Where, ghost n: nat)
      returns (secondary: u8, memStart: u32, prefStart: u32, ioStart: u32)
      requires Linked(cfg, root, bus, slot, w) && OpenTo(cfg, root, w.p, bus, n)
      requires Fits(root) && ReachedBridge(root, w.f) && n == SecondaryOf(root, w.f) && Holding(Owned(root, w.f))
      modifies this
      ensures secondary == n && OpenTo(cfg, root, w.f, n, n + 1) && BarsHold(cfg, root)
      ensures Holding(BusStart(root, w.f))
      ensures var a := BusStart(root, w.f); memStart == a.mem && prefStart == a.pref && ioStart == a.io
      ensures Val(cfg, w.f, Primary) == bus && Val(cfg, w.f, Secondary) == n
      ensures OnlyKinds(old(cfg), cfg, w.f, 2, 4)
    {
      hide Linked, OpenTo, BarsHold, SlotAt, BusAt, ReachedBridge, Owned, Entry, BusStart, BusEnd, Exit, Fits,
        RoundUp, RoutedTo, SecondaryOf, IsBridgeAt, Above, Parent;
      BridgeLimits(root, w.f);
      BridgeEntry(cfg, root, bus, slot, w);
      secondary := nextBus;
      nextBus := Byte(nextBus + 1);
      NumberBridge(bus, slot, secondary, w);
      memStart, prefStart, ioStart := PadAllocators(Owned(root, w.f));
    }

    method PadAllocators(ghost a: Alloc) returns (memStart: u32, prefStart: u32, ioStart: u32)
      requires memNext == a.mem && prefNext == a.pref && ioNext == a.io
      requires var e := EnterBridge(a); e.mem <= 0xC000_0000 && e.pref <= 0xC000_0000 && e.io <= 0xC000_0000
      modifies this`memNext, this`prefNext, this`ioNext
      ensures var e := EnterBridge(a);
              && memNext == memStart == e.mem && prefNext == prefStart == e.pref && ioNext == ioStart == e.io
    {
      hide RoundUp, Low, Pow2, AlignUp;
      PowSmall();
      AlignUpRounds(memNext, 20, 0x10_0000);
      AlignUpRounds(prefNext, 20, 0x10_0000);
      AlignUpRounds(ioNext, 12, 0x1000);
      memStart := AlignUp(memNext, 0x10_0000);
      prefStart := AlignUp(prefNext, 0x10_0000);
      ioStart := AlignUp(ioNext, 0x1000);
      memNext, prefNext, ioNext := memStart, prefStart, ioStart;
    }

    method WritePair(bus: u8, slot: nat, base: Reg, limit: Reg, pair: (u32, u32), ghost w: Where)
      requires Linked(cfg, root, bus, slot, w) && base != limit && Kind(base) == 6 && Kind(limit) == 6
      modifies this`cfg
      ensures Linked(cfg, root, bus, slot, w)
      ensures Val(cfg, w.f, base) == pair.0 && Val(cfg, w.f, limit) == pair.1
      ensures forall g: Path, x: Reg :: g != w.f || (x != base && x != limit) ==> Val(cfg, g, x) == Val(old(cfg), g, x)
    {
      hide Linked, Val;
      LinkedFn(cfg, root, bus, slot, w);
      CfgWrite(bus, slot, base, pair.0, w);
      CfgWrite(bus, slot, limit, pair.1, w);
    }

    /** Write the three base/limit pairs. */
    method ProgramWindows(bus: u8, slot: nat, a: Alloc, e: Alloc, ghost w: Where)
      requires Linked(cfg, root, bus, slot, w)
      requires a.mem < 0x1_0000_0000 && a.pref < 0x1_0000_0000 && a.io < 0x1_0000_0000
      requires e.mem < 0x1_0000_0000 && e.pref < 0x1_0000_0000 && e.io < 0x1_0000_0000
      modifies this`cfg
      ensures Linked(cfg, root, bus, slot, w) && WindowsSet(cfg, w.f, a, e)
      ensures OnlyKinds(old(cfg), cfg, w.f, 6, 6)
    {
      hide Linked, MemPair, IoPair, Val;
      PairsFit(a.mem, e.mem);
      PairsFit(a.pref, e.pref);
      PairsFit(a.io, e.io);
      ghost var c0 := cfg;
      WritePair(bus, slot, MemBase, MemLimit, MemPair(a.mem, e.mem), w);
      assert OnlyKinds(c0, cfg, w.f, 6, 6);
      WritePair(bus, slot, PrefBase, PrefLimit, MemPair(a.pref, e.pref), w);
      assert OnlyKinds(c0, cfg, w.f, 6, 6);
      assert MemSet(Val(cfg, w.f, MemBase), Val(cfg, w.f, MemLimit), a.mem, e.mem);
      WritePair(bus, slot, IoBase, IoLimit, IoPair(a.io, e.io), w);
    }

    method PadBehind(a: Alloc, e: Alloc)
      requires memNext == e.mem && prefNext == e.pref && ioNext == e.io
      requires a.mem < 0x1_0000_0000 && a.pref < 0x1_0000_0000 && a.io < 0x1_0000_0000
      requires var l := LeaveBridge(a, e); l.mem <= 0xC000_0000 && l.pref <= 0xC000_0000 && l.io <= 0xC000_0000
      modifies this`memNext, this`prefNext, this`ioNext
      ensures var l := LeaveBridge(a, e); memNext == l.mem && prefNext == l.pref && ioNext == l.io
    {
      hide RoundUp, Low, Pow2, AlignUp, Pad, Padded;
      PowSmall();
      PaddedPads(a.mem, memNext, 20, 0x10_0000);
      PaddedPads(a.pref, prefNext, 20, 0x10_0000);
      PaddedPads(a.io, ioNext, 12, 0x1000);
      memNext := Padded(a.mem, memNext, 0x10_0000);
      prefNext := Padded(a.pref, prefNext, 0x10_0000);
      ioNext := Padded(a.io, ioNext, 0x1000);
    }

    /** Program a bridge's windows and the forwarding bits they need. */
    method Forward(bus: u8, slot: nat, a: Alloc, e: Alloc, ghost w: Where)
      requires Linked(cfg, root, bus, slot, w)
      requires a.mem < 0x1_0000_0000 && a.pref < 0x1_0000_0000 && a.io < 0x1_0000_0000
      requires e.mem < 0x1_0000_0000 && e.pref < 0x1_0000_0000 && e.io < 0x1_0000_0000
      modifies this`cfg
      ensures Linked(cfg, root, bus, slot, w) && WindowsSet(cfg, w.f, a, e)
      ensures Val(cfg, w.f, Command)
           == ForwardCommand(Val(old(cfg), w.f, Command), e.mem > a.mem, e.pref > a.pref, e.io > a.io)
      ensures forall k: nat :: Bit(Val(cfg, w.f, Command), k) <==>
        || Bit(Val(old(cfg), w.f, Command), k)
        || (k == 1 && (e.mem > a.mem || e.pref > a.pref)) || (k == 0 && e.io > a.io)
      ensures OnlyKinds(old(cfg), cfg, w.f, 5, 6)
    {
      hide Linked, ForwardCommand, WindowsSet, Bit, Or, Val;
      LinkedFn(cfg, root, bus, slot, w);
      ghost var c0 := cfg;
      ProgramWindows(bus, slot, a, e, w);
      ghost var c1 := cfg;
      var cmd := CfgRead(bus, slot, Command, w);
      assert cmd == Val(c0, w.f, Command);
      ForwardCommandBits(cmd, e.mem > a.mem, e.pref > a.pref, e.io > a.io);
      CfgWrite(bus, slot, Command, ForwardCommand(cmd, e.mem > a.mem, e.pref > a.pref, e.io > a.io), w);
      WroteOnly(c1, cfg, w.f, Command);
      OnlyKindsTrans(c0, c1, cfg, w.f, 6, 6, 5, 5, 5, 6);
      WindowsKept(c1, cfg, w.f, a, e, a, e);
    }

    /** Close the bus range of a walked bridge. */
    method EndRange(bus: u8, slot: nat, ghost w: Where, ghost next: nat)
      requires Linked(cfg, root, bus, slot, w) && nextBus == Byte(next) && 0 < next <= 0x100
      modifies this`cfg
      ensures BarsHold(cfg, root) && OnlyKinds(old(cfg), cfg, w.f, 4, 4) && Val(cfg, w.f, Subordinate) == next - 1
    {
      hide Linked, BarsHold, OnlyKinds, Val, Highest, Byte;
      LinkedFn(cfg, root, bus, slot, w);
      ghost var c := cfg;
      HighestIsLast(next);
      CfgWrite(bus, slot, Subordinate, Highest(nextBus), w);
      WroteOnly(c, cfg, w.f, Subordinate);
    }

    /** Finish a walked bridge: windows, forwarding, padding, and its bus range. */
    method CloseBridge(bus: u8, slot: nat, memStart: u32, prefStart: u32, ioStart: u32, ghost w: Where)
      requires Linked(cfg, root, bus, slot, w) && Fits(root) && ReachedBridge(root, w.f)
      requires Holding(BusEnd(root, w.f))
      requires var a := BusStart(root, w.f); memStart == a.mem && prefStart == a.pref && ioStart == a.io
      modifies this
      ensures Holding(Exit(root, w.f)) && BarsHold(cfg, root) && BridgeClosed(old(cfg), cfg, root, w.f)
    {
      hide Linked, BarsHold, SlotAt, BusAt, ReachedBridge, Entry, BusStart, BusEnd, Exit, Fits, ForwardCommand,
        BridgeClosed, LeaveBridge, WindowsSet, RoutedTo, SecondaryOf, OnlyKinds, Val, Highest, Byte, SubordinateOf;
      LinkedFn(cfg, root, bus, slot, w);
      ghost var c0 := cfg;
      var a := Alloc(memStart, prefStart, ioStart, 0);
      var e := Alloc(memNext, prefNext, ioNext, 0);
      CloseFacts(root, w.f, a, e);
      Forward(bus, slot, a, e, w);
      ghost var c1 := cfg;
      PadBehind(a, e);
      EndRange(bus, slot, w, BusEnd(root, w.f).bus);
      WalkClosed(c0, c1, cfg, root, w.f, a, e);
    }

    /** Number a bridge, walk the bus behind it, and program what it must forward. */
    method ScanBridge(bus: u8, slot: nat, ghost w: Where, ghost n: nat)
      requires OnBus(cfg, root, w.p, bus, n) && Linked(cfg, root, bus, slot, w) && ReachedBridge(root, w.f)
      requires n == SecondaryOf(root, w.f) && Holding(Owned(root, w.f))
      requires OwnSet(cfg, root, w.f) && Quiet(cfg, root, w.f, 0)
      modifies this
      ensures Holding(Exit(root, w.f)) && OnBus(cfg, root, w.p, bus, Exit(root, w.f).bus)
      ensures OnlyUnder(old(cfg), cfg, root, w.f) && AllUnder(cfg, root, w.f)
      decreases BusAt(root, w.f), 4
    {
      hide Linked, BarsHold, ReachedBridge, OwnSet, Quiet, OnlyKinds, OnlyDone, AllDone, OnlyUnder, AllUnder, OpenTo,
        BridgeClosed, Exit, Owned, BusStart, BusEnd, SecondaryOf, BusAt, Fits, WellFormedBus, Val;
      LinkedFn(cfg, root, bus, slot, w);
      ghost var c0 := cfg;
      var secondary, memStart, prefStart, ioStart := OpenBridge(bus, slot, w, n);
      ghost var c1 := cfg;
      BehindBridge(c0, c1, root, bus, n, slot, w);
      BridgeLimits(root, w.f);
      ScanBus(secondary, w.f);
      ghost var c2 := cfg;
      BackAtBridge(c0, c1, c2, root, bus, n, slot, w);
      CloseBridge(bus, slot, memStart, prefStart, ioStart, w);
      BridgeDone(c0, c1, c2, cfg, root, w.f);
      Closed(c0, cfg, root, w.p, bus, w.f);
    }

    method ScanFunction(bus: u8, slot: nat, ghost w: Where, ghost n: nat)
      requires OnBus(cfg, root, w.p, bus, n) && IsChild(root, w.p, slot, w)
      requires Holding(Entry(root, w.f)) && n == Entry(root, w.f).bus
      requires QuietUnder(cfg, root, w.f)
      modifies this
      ensures Holding(Exit(root, w.f)) && OnBus(cfg, root, w.p, bus, Exit(root, w.f).bus)
      ensures OnlyUnder(old(cfg), cfg, root, w.f) && AllUnder(cfg, root, w.f)
      decreases BusAt(root, w.p), 0
    {
      hide Linked, BarsHold, OwnSet, OnlyKinds, OnlyUnder, AllUnder, OpenTo, Exit, Entry, Owned, SecondaryOf, BusAt,
        SlotAt, Fits, WellFormedBus, WellFormedFn, Val, Requests, BlocksSet, BitsFor, OwnBits, RoutedTo, Quiet,
        QuietUnder, IsChild, AfterReqs, AllFit, Reached;
      ghost var c0 := cfg;
      ChildReached(cfg, root, w.p, bus, n, slot, w);
      var vendor := ReadVendor(bus, slot, w.p);
      if vendor == VENDOR_INVALID {
        EmptyDone(cfg, root, w.f);
        return;
      }
      var classCode, headerType := ReadKind(bus, slot, w);
      var cmdBits := AssignBars(bus, slot, headerType, w, Entry(root, w.f));
      ghost var c1 := cfg;
      LinkedFn(c1, root, bus, slot, w);
      StillOnBus(c0, c1, root, w.p, bus, n, w.f);
      EnableDecoders(bus, slot, cmdBits, w);
      ghost var c2 := cfg;
      LinkedFn(c2, root, bus, slot, w);
      StillOnBus(c1, c2, root, w.p, bus, n, w.f);
      OwnIsSet(c1, c2, root, w);
      OnlyKindsTrans(c0, c1, c2, w.f, 1, 1, 5, 5, 1, 5);
      if headerType % 0x80 == HTYPE_BRIDGE && classCode == CLASS_BRIDGE_PCI {
        QuietBehind(c0, c2, root, w.f);
        ScanBridge(bus, slot, w, n);
        UnderTrans(c0, c2, cfg, root, w.f);
      } else {
        EndpointDone(c0, c2, root, w.f);
      }
    }

    /** Scan function fn of a device, or find it empty, and move on. */
    method ScanSlot(bus: u8, slot: nat, ghost p: Path, ghost c0: Config)
      requires Walked(c0, cfg, root, p, bus, slot) && slot < SLOTS
      requires Holding(AfterBus(BusAt(root, p), slot, BusStart(root, p)))
      requires BusAt(root, p)[slot].Fn? ==> Scanned(BusAt(root, p), slot)
      modifies this
      ensures Walked(c0, cfg, root, p, bus, slot + 1) && Holding(AfterBus(BusAt(root, p), slot + 1, BusStart(root, p)))
      decreases BusAt(root, p), 1
    {
      hide OnBus, Quiet, QuietUnder, OnlyDone, AllDone, OnlyUnder, AllUnder, SlotAt, BusAt, AfterBus, BusStart, Entry,
        Exit, Linked, RoutedTo;
      AtSlot(c0, cfg, root, p, bus, slot);
      ghost var c := cfg;
      ScanFunction(bus, slot, WhereIs(root, p, slot), Entry(root, p + [slot]).bus);
      NextSlot(c0, c, cfg, root, p, bus, slot);
    }

    /** The functions of device dev: function 0, and the others if it is multi-function. */
    method ScanDevice(bus: u8, dev: nat, ghost p: Path, ghost c0: Config)
      requires dev < 32 && Walked(c0, cfg, root, p, bus, 8 * dev)
      requires Holding(AfterBus(BusAt(root, p), 8 * dev, BusStart(root, p)))
      modifies this
      ensures Walked(c0, cfg, root, p, bus, 8 * dev + 8)
      ensures Holding(AfterBus(BusAt(root, p), 8 * dev + 8, BusStart(root, p)))
      decreases BusAt(root, p), 2
    {
      hide OnBus, Quiet, QuietUnder, OnlyDone, AllDone, SlotAt, BusAt, AfterBus, BusStart, Entry, Exit, Linked,
        RoutedTo, Scanned;
      ghost var slots := BusAt(root, p);
      var slot := 8 * dev;
      AtSlot(c0, cfg, root, p, bus, slot);
      DeviceSlots(slots, slot);
      var vendor := ReadVendor(bus, slot, p);
      if vendor == VENDOR_INVALID {
        SkipSlots(c0, cfg, root, p, bus, slot, slot + 8);
        return;
      }
      var _, headerType := ReadKind(bus, slot, WhereIs(root, p, slot));
      var maxFn := if headerType >= HEADER_MULTIFN then 8 else 1;
      var fn := 0;
      while fn < maxFn
        invariant fn <= maxFn && Walked(c0, cfg, root, p, bus, slot + fn)
        invariant Holding(AfterBus(slots, slot + fn, BusStart(root, p)))
      {
        ScanSlot(bus, slot + fn, p, c0);
        fn := fn + 1;
      }
      SkipSlots(c0, cfg, root, p, bus, slot + fn, slot + 8);
    }

    method ScanBus(bus: u8, ghost p: Path)
      requires OnBus(cfg, root, p, bus, BusStart(root, p).bus) && Quiet(cfg, root, p, 0) && |BusAt(root, p)| == SLOTS
      requires Holding(BusStart(root, p))
      modifies this
      ensures Holding(BusEnd(root, p)) && OnBus(cfg, root, p, bus, BusEnd(root, p).bus)
      ensures OnlyDone(old(cfg), cfg, root, p, |BusAt(root, p)|) && AllDone(cfg, root, p, |BusAt(root, p)|)
      decreases BusAt(root, p), 3
    {
      hide OnBus, Quiet, OnlyDone, AllDone, BusAt, AfterBus, BusStart;
      ghost var c0 := cfg;
      NothingDone(cfg, root, p);
      var dev := 0;
      while dev < 32
        invariant dev <= 32 && Walked(c0, cfg, root, p, bus, 8 * dev)
        invariant Holding(AfterBus(BusAt(root, p), 8 * dev, BusStart(root, p)))
      {
        ScanDevice(bus, dev, p, c0);
        dev := dev + 1;
      }
    }

    /** Walk one host: everything reachable is programmed, and nothing else is touched. */
    method Walk()
      requires WellFormedBus(root) && Fits(root) && BarsHold(cfg, root) && Quiet(cfg, root, [], 0)
      requires memNext == 0x8000_0000 && prefNext == 0xA000_0000 && ioNext == 0x1000
      modifies this
      ensures forall f :: Reached(root, f) ==> Programmed(cfg, root, f)
      ensures forall f :: Reached(root, f) || Untouched(old(cfg), cfg, f)
    {
      hide WellFormedBus, Fits, BarsHold, Quiet, Reached, Programmed, OnlyDone, AllDone, BusEnd, Untouched;
      ghost var c0 := cfg;
      nextBus := 1;
      WalkStarts(cfg, root);
      ScanBus(0, []);
      WalkEnds(c0, cfg, root);
    }
  }
}
