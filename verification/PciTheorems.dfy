/** What the programmed registers mean once the walk is over. */
module PciTheorems {
  import opened Bits
  import opened Wrappers
  import opened PciHardware
  import opened PciPlan
  import opened PciWindows
  import opened PciLayout
  import opened PciRouting
  import opened PciAssign
  import opened PciProgram

  /** The state in which the walk leaves one host. */
  ghost predicate Enumerated(cfg: Config, root: seq<Slot>) {
    Fits(root) && forall f :: Reached(root, f) ==> Programmed(cfg, root, f)
  }

  /** A block register of a reached function: the k-th the walk handed out there. */
  ghost predicate IsBlock(root: seq<Slot>, g: Path, k: nat) {
    Reached(root, g) && k < |Requests(SlotAt(root, g))|
  }

  /** The hardware register behind a request. */
  ghost function RegisterOf(s: Slot, r: Reg): Bar
    requires s.Fn?
  {
    if r.BarReg? && r.index < |s.bars| then s.bars[r.index] else s.rom
  }

  /**
   The space a register belongs to, by its own type bits: bit 0 of a BAR marks
   I/O, and bit 3 of a memory BAR prefetchable memory; a ROM is plain memory.
   */
  ghost function SpaceAt(root: seq<Slot>, g: Path, k: nat): Space
    requires IsBlock(root, g, k)
  {
    var r := Requests(SlotAt(root, g))[k].reg;
    var typ := RegisterOf(SlotAt(root, g), r).fixed;
    if r.BarReg? && Bit(typ, 0) then Io else if r.BarReg? && Bit(typ, 3) then Pref else Mem
  }

  /** Requests are made in the space the register belongs to. */
  lemma SpaceIs(root: seq<Slot>, g: Path, k: nat)
    requires IsBlock(root, g, k)
    ensures Requests(SlotAt(root, g))[k].space == SpaceAt(root, g, k)
  {
    hide Bar.Size, Order, Bit;
    var s := SlotAt(root, g);
    var r := Requests(s)[k];
    BarRequestSources(s.bars, 0);
    TypeBit0(RegisterOf(s, r.reg).fixed);
    if r !in BarRequests(s.bars, 0) {
      assert r in RomRequests(s.rom);
    }
  }

  lemma TypeBit0(x: nat)
    ensures Bit(x, 0) == (x % 2 == 1) && Bit(x, 3) == (x / 8 % 2 == 1)
  {
    assert Bit(x, 3) == Bit(x / 2, 2) == Bit(x / 2 / 2, 1) == Bit(x / 2 / 2 / 2, 0);
  }

  lemma {:induction false} BarRequestSources(bars: seq<Bar>, j: nat)
    ensures forall r :: r in BarRequests(bars, j) ==> FromBar(bars, r)
    decreases |bars| - j
  {
    hide Bar.Size, Bar.Is64, Order, SpaceOf;
    if j < |bars| {
      BarRequestsStep(bars, j);
      BarRequestSources(bars, j + if bars[j].Size() != 0 && bars[j].Is64() then 2 else 1);
    }
  }

  /** The address range a register decodes, read from the register and, for a 64-bit BAR, its upper half. */
  ghost function RangeLo(cfg: Config, root: seq<Slot>, g: Path, k: nat): int
    requires IsBlock(root, g, k)
  {
    var s := SlotAt(root, g);
    var r := Requests(s)[k].reg;
    0x1_0000_0000 * HighOf(cfg, s, g, r) + Val(cfg, g, r) - TypeOf(s, r)
  }

  ghost function RangeHi(cfg: Config, root: seq<Slot>, g: Path, k: nat): int
    requires IsBlock(root, g, k)
  {
    RangeLo(cfg, root, g, k) + Pow2(Requests(SlotAt(root, g))[k].order)
  }

  /** The window a bridge forwards, read from its base and limit registers; empty if its end is not above its start. */
  function Window(cfg: Config, f: Path, s: Space): (nat, nat) {
    match s
    case Mem => MemDecode(Val(cfg, f, MemBase), Val(cfg, f, MemLimit))
    case Pref => MemDecode(Val(cfg, f, PrefBase), Val(cfg, f, PrefLimit))
    case Io => IoDecode(Val(cfg, f, IoBase), Val(cfg, f, IoLimit))
  }

  lemma RangeIs(cfg: Config, root: seq<Slot>, g: Path, k: nat)
    requires Enumerated(cfg, root) && IsBlock(root, g, k)
    ensures RangeLo(cfg, root, g, k) == Base(root, g, k) && RangeHi(cfg, root, g, k) == Top(root, g, k)
  {
    assert Programmed(cfg, root, g);
    assert BlockSet(cfg, SlotAt(root, g), g, Entry(root, g), k);
  }

  lemma WindowIs(cfg: Config, root: seq<Slot>, f: Path, s: Space)
    requires Enumerated(cfg, root) && ReachedBridge(root, f)
    ensures if WindowHi(root, f, s) > WindowLo(root, f, s)
            then Window(cfg, f, s) == (WindowLo(root, f, s), WindowHi(root, f, s))
            else Window(cfg, f, s).1 < Window(cfg, f, s).0
  {
    assert Programmed(cfg, root, f);
    BridgeLimits(root, f);
    var a, e := BusStart(root, f), BusEnd(root, f);
    EnterAligned(Owned(root, f), s);
    hide BusStart, BusEnd, Exit, Owned, Low, RoundUp, Pow2, MemPair, IoPair, MemDecode, IoDecode, Reached, SlotAt,
      OwnSet;
    match s
    case Mem => MemWindowDecodes(a.mem, e.mem, 20);
    case Pref => MemWindowDecodes(a.pref, e.pref, 20);
    case Io => IoWindowDecodes(a.io, e.io, 12);
  }

  /** A bridge with no range of a space below it forwards nothing in that space. */
  lemma EmptyWindowCloses(cfg: Config, root: seq<Slot>, f: Path, s: Space)
    requires Enumerated(cfg, root) && ReachedBridge(root, f)
    requires forall g, k: nat :: IsBlock(root, g, k) && Above(f, g) ==> SpaceAt(root, g, k) != s
    ensures Window(cfg, f, s).1 <= Window(cfg, f, s).0
  {
    hide Window, BusStart, BusEnd, BusAt, Reached, SlotAt, Requests, SpaceAt, Programmed, Fits;
    forall g | Reached(root, g) && Above(f, g)
      ensures AsksNothing(SlotAt(root, g), s)
    {
      forall k: nat | k < |Requests(SlotAt(root, g))|
        ensures Requests(SlotAt(root, g))[k].space != s
      {
        assert IsBlock(root, g, k);
        SpaceIs(root, g, k);
      }
    }
    BridgeLimits(root, f);
    NothingMoves(root, f, f, |BusAt(root, f)|, s);
    EndIs(root, f);
    WindowIs(cfg, root, f, s);
  }

  lemma EndIs(root: seq<Slot>, f: Path)
    ensures BusEnd(root, f) == AfterBus(BusAt(root, f), |BusAt(root, f)|, BusStart(root, f))
  {
  }

  /** A window is no longer than it must be: some range below the bridge ends in its last granule. */
  lemma WindowsTight(cfg: Config, root: seq<Slot>, f: Path, s: Space) returns (g: Path, k: nat)
    requires Enumerated(cfg, root) && ReachedBridge(root, f) && Window(cfg, f, s).1 > Window(cfg, f, s).0
    ensures IsBlock(root, g, k) && Above(f, g) && SpaceAt(root, g, k) == s
    ensures var hi, end := RangeHi(cfg, root, g, k), Window(cfg, f, s).1;
      hi <= end < hi + if s.Io? then 0x1000 else 0x10_0000
  {
    hide Window, BusStart, BusEnd, BusAt, Reached, SlotAt, Requests, SpaceAt, Programmed, Fits, RoundUp, Pow2, Top,
      RangeHi, Exit;
    BridgeLimits(root, f);
    StaysTight(root, f, f, |BusAt(root, f)|, s);
    EndIs(root, f);
    WindowIs(cfg, root, f, s);
    LeaveIs(BusStart(root, f), BusEnd(root, f), s);
    g, k :| IsBlockBelow(root, f, s, g, k)
      && RoundUp(Top(root, g, k), Granule(s)) == RoundUp(BusEnd(root, f).Get(s), Granule(s));
    SpaceIs(root, g, k);
    RangeIs(cfg, root, g, k);
    PowSmall();
  }

  ghost predicate Inside(lo: int, hi: int, w: (nat, nat)) {
    w.0 <= lo && hi <= w.1
  }

  ghost predicate Apart(lo: int, hi: int, w: (nat, nat)) {
    w.1 <= w.0 || hi <= w.0 || w.1 <= lo
  }

  /** A bridge's window in a space holds every range of that space below the bridge, and touches no other. */
  lemma WindowsExact(cfg: Config, root: seq<Slot>, f: Path, g: Path, k: nat)
    requires Enumerated(cfg, root) && ReachedBridge(root, f) && IsBlock(root, g, k)
    ensures var lo, hi, w := RangeLo(cfg, root, g, k), RangeHi(cfg, root, g, k), Window(cfg, f, SpaceAt(root, g, k));
            if Above(f, g) then Inside(lo, hi, w) else Apart(lo, hi, w)
  {
    hide SlotAt, BusAt, Exit, BusStart, Programmed, Window, RangeLo, RangeHi, Base, Requests;
    RangeIs(cfg, root, g, k);
    SpaceIs(root, g, k);
    WindowIs(cfg, root, f, SpaceAt(root, g, k));
    if Above(f, g) {
      WindowCovers(root, f, g, k);
    } else {
      WindowExcludes(root, f, g, k);
    }
  }

  /** Every range lies in the part of the address space set aside for its kind. */
  lemma RangeByKind(cfg: Config, root: seq<Slot>, g: Path, k: nat)
    requires Enumerated(cfg, root) && IsBlock(root, g, k)
    ensures var lo, hi := RangeLo(cfg, root, g, k), RangeHi(cfg, root, g, k);
      match SpaceAt(root, g, k)
      case Io => 0x1000 <= lo && hi <= 0x1_0000
      case Mem => 0x8000_0000 <= lo && hi <= 0xA000_0000
      case Pref => 0xA000_0000 <= lo && hi <= 0xC000_0000
  {
    hide SlotAt, BusAt, AfterBus, AfterReqs, Requests, Reached, Entry, Exit, BusStart, BusEnd, Owned, Base, RangeLo,
      Programmed, Pow2, SpaceAt;
    RangeIs(cfg, root, g, k);
    SpaceIs(root, g, k);
    RangeWithin(root, g, k);
    WithinBus(root, g);
    WithinLimits(root, g);
  }

  /** Memory and prefetchable memory share an address space, yet a window of one holds no range of the other. */
  lemma MemoryKindsApart(cfg: Config, root: seq<Slot>, f: Path, g: Path, k: nat)
    requires Enumerated(cfg, root) && ReachedBridge(root, f) && IsBlock(root, g, k) && !SpaceAt(root, g, k).Io?
    ensures Apart(RangeLo(cfg, root, g, k), RangeHi(cfg, root, g, k),
                  Window(cfg, f, if SpaceAt(root, g, k).Mem? then Pref else Mem))
  {
    hide SlotAt, BusAt, AfterBus, AfterReqs, Requests, Reached, Entry, Exit, BusStart, BusEnd, Owned, Base, RangeLo,
      Programmed, Pow2, SpaceAt, RangeHi;
    RangeByKind(cfg, root, g, k);
    BridgeLimits(root, f);
    WithinLimits(root, f);
    WithinBus(root, f);
    WindowIs(cfg, root, f, if SpaceAt(root, g, k).Mem? then Pref else Mem);
  }

  /** Two windows of a space are nested if one bridge is above the other, and disjoint otherwise. */
  lemma WindowsTreeOrdered(cfg: Config, root: seq<Slot>, f: Path, g: Path, s: Space)
    requires Enumerated(cfg, root) && ReachedBridge(root, f) && ReachedBridge(root, g) && f != g
    ensures var v, w := Window(cfg, f, s), Window(cfg, g, s);
            if Above(f, g) then w.1 <= w.0 || Inside(w.0, w.1, v)
            else if Above(g, f) then v.1 <= v.0 || Inside(v.0, v.1, w)
            else v.1 <= v.0 || Apart(v.0, v.1, w)
  {
    hide SlotAt, BusAt, Exit, BusStart, Programmed, Window;
    WindowIs(cfg, root, f, s);
    WindowIs(cfg, root, g, s);
    if Above(f, g) {
      WindowsNested(root, f, g, s);
    } else if Above(g, f) {
      WindowsNested(root, g, f, s);
    } else {
      WindowsDisjoint(root, f, g, s);
    }
  }

  /** A function decodes its own ranges, and every bridge above it forwards their space. */
  lemma PathDecodes(cfg: Config, root: seq<Slot>, f: Path, g: Path, k: nat)
    requires Enumerated(cfg, root) && IsBlock(root, g, k) && f != [] && OnPath(f, g)
    ensures Bit(Val(cfg, f, Command), if SpaceAt(root, g, k).Io? then 0 else 1)
  {
    hide SpaceAt;
    SpaceIs(root, g, k);
    var s := SpaceAt(root, g, k);
    if f == g {
      assert Programmed(cfg, root, g);
      assert Requests(SlotAt(root, g))[k] in Requests(SlotAt(root, g));
    } else {
      ReachedPrefix(root, g, |f|);
      assert Programmed(cfg, root, f);
      RangeWithin(root, g, k);
      WithinBus(root, g);
      WithinAncestor(root, f, g);
      assert BusEnd(root, f).Get(s) > BusStart(root, f).Get(s);
    }
  }

  /** All blocks of a space, whoever holds them, are disjoint. */
  lemma BlocksDisjoint(cfg: Config, root: seq<Slot>, f: Path, k: nat, g: Path, l: nat)
    requires Enumerated(cfg, root) && IsBlock(root, f, k) && IsBlock(root, g, l) && (f != g || k != l)
    requires SpaceAt(root, f, k) == SpaceAt(root, g, l)
    ensures RangeHi(cfg, root, f, k) <= RangeLo(cfg, root, g, l) || RangeHi(cfg, root, g, l) <= RangeLo(cfg, root, f, k)
  {
    RangeIs(cfg, root, f, k);
    RangeIs(cfg, root, g, l);
    SpaceIs(root, f, k);
    SpaceIs(root, g, l);
    RangesDisjoint(root, f, k, g, l);
  }

  /** Two ranges of a space that a function takes one after the other leave no gap the second would fit in. */
  lemma RangesPacked(cfg: Config, root: seq<Slot>, f: Path, k: nat, l: nat)
    requires Enumerated(cfg, root) && IsBlock(root, f, k) && IsBlock(root, f, l) && k < l
    requires SpaceAt(root, f, k) == SpaceAt(root, f, l)
    requires forall i :: k < i < l ==> SpaceAt(root, f, i) != SpaceAt(root, f, l)
    ensures RangeHi(cfg, root, f, k) <= RangeLo(cfg, root, f, l)
    ensures RangeLo(cfg, root, f, l) - RangeHi(cfg, root, f, k) < RangeHi(cfg, root, f, l) - RangeLo(cfg, root, f, l)
  {
    hide SpaceAt, Requests, Base, SlotAt, Programmed;
    RangeIs(cfg, root, f, k);
    RangeIs(cfg, root, f, l);
    forall i | k <= i <= l
      ensures Requests(SlotAt(root, f))[i].space == SpaceAt(root, f, i)
    {
      SpaceIs(root, f, i);
    }
    BlocksPacked(root, f, k, l);
    SameFunctionApart(root, f, k, l);
  }

  /** Every block has the size its register decodes, and is aligned to it. */
  lemma BlockFitsRegister(cfg: Config, root: seq<Slot>, f: Path, k: nat)
    requires WellFormedBus(root) && Enumerated(cfg, root) && IsBlock(root, f, k)
    ensures var size := RegisterOf(SlotAt(root, f), Requests(SlotAt(root, f))[k].reg).Size();
            && RangeHi(cfg, root, f, k) == RangeLo(cfg, root, f, k) + size
            && size > 0 && RangeLo(cfg, root, f, k) % size == 0
  {
    RangeIs(cfg, root, f, k);
    RangeAligned(root, f, k);
    WellFormedBelow(root, f);
    RequestOrder(SlotAt(root, f), k);
  }

  lemma RequestOrder(s: Slot, k: nat)
    requires s.Fn? && WellFormedFn(s) && k < |Requests(s)|
    ensures Pow2(Requests(s)[k].order) == RegisterOf(s, Requests(s)[k].reg).Size() > 0
  {
    var r := Requests(s)[k];
    RequestSources(s.bars, 0);
    if r in BarRequests(s.bars, 0) {
      OrderOfBar(s.bars[r.reg.index]);
    } else {
      assert r == RomReq(s.rom);
      OrderOfRom(s.rom);
    }
  }

  ghost predicate FromBar(bars: seq<Bar>, r: Req) {
    r.reg.BarReg? && r.reg.index < |bars| && bars[r.reg.index].Size() > 0 && r == BarReq(bars[r.reg.index], r.reg.index)
  }

  lemma {:induction false} RequestSources(bars: seq<Bar>, j: nat)
    requires WellFormedBars(bars, j)
    ensures forall r :: r in BarRequests(bars, j) ==> FromBar(bars, r) && bars[r.reg.index].WellFormed()
    decreases |bars| - j
  {
    hide Bar.Size, Bar.Is64, Bar.WellFormed, Bar.WellFormedHigh, Order, SpaceOf;
    if j < |bars| {
      RequestSources(bars, j + if bars[j].Size() != 0 && bars[j].Is64() then 2 else 1);
    }
  }

  /** Every implemented BAR gets a block, unless it is the upper half of a 64-bit one that does. */
  lemma {:induction false} EveryBarServed(bars: seq<Bar>, j: nat, i: nat)
    requires j <= i < |bars| && bars[i].Size() != 0
    ensures BarReq(bars[i], i) in BarRequests(bars, j)
         || (i > 0 && bars[i - 1].Size() != 0 && bars[i - 1].Is64()
             && BarReq(bars[i - 1], i - 1) in BarRequests(bars, j))
    decreases |bars| - j
  {
    hide Bar.Size, Bar.Is64, Order, SpaceOf;
    var next := j + if bars[j].Size() != 0 && bars[j].Is64() then 2 else 1;
    var rest := BarRequests(bars, next);
    assert BarRequests(bars, j) == if bars[j].Size() == 0 then rest else [BarReq(bars[j], j)] + rest;
    if j < i && next <= i {
      EveryBarServed(bars, next, i);
    }
  }

  /** Some block of the function is that of this register. */
  ghost predicate Serves(root: seq<Slot>, g: Path, r: Reg) {
    exists k: nat :: IsBlock(root, g, k) && Requests(SlotAt(root, g))[k].reg == r
  }

  /** Every implemented register of a reached function is given a block: ROMs, and BARs that are no upper half. */
  lemma RegistersServed(root: seq<Slot>, g: Path)
    requires Reached(root, g)
    ensures SlotAt(root, g).rom.Size() != 0 ==> Serves(root, g, RomReg)
    ensures forall i :: 0 <= i < |SlotAt(root, g).bars| && SlotAt(root, g).bars[i].Size() != 0 ==>
      Serves(root, g, BarReg(i)) || (i > 0 && SlotAt(root, g).bars[i - 1].Is64() && Serves(root, g, BarReg(i - 1)))
  {
    hide Bar.Size, Bar.Is64, Order, SpaceOf;
    var s := SlotAt(root, g);
    var reqs, own := Requests(s), BarRequests(s.bars, 0);
    if s.rom.Size() != 0 {
      assert reqs[|own|].reg == RomReg && IsBlock(root, g, |own|);
    }
    forall i | 0 <= i < |s.bars| && s.bars[i].Size() != 0
      ensures Serves(root, g, BarReg(i)) || (i > 0 && s.bars[i - 1].Is64() && Serves(root, g, BarReg(i - 1)))
    {
      EveryBarServed(s.bars, 0, i);
      var j := if BarReq(s.bars[i], i) in own then i else i - 1;
      var k :| 0 <= k < |own| && own[k] == BarReq(s.bars[j], j);
      assert reqs[k] == own[k] && IsBlock(root, g, k);
    }
  }

  /** What the walk takes a slot for, from the header type byte and the class and subclass bytes alone. */
  lemma SlotKinds(bus: seq<Slot>, dev: nat, fn: nat)
    requires |bus| == SLOTS && dev < 32 && fn < 8
    ensures var s := bus[8 * dev + fn];
      && (s.IsBridge() <==> s.Fn? && s.headerType % 0x80 == 1 && s.classCode / 0x100 == 6 && s.classCode % 0x100 == 4)
      && (s.Fn? && WellFormedFn(s) ==> |s.bars| == if s.headerType % 0x80 == 1 then 2 else 6)
      && (Scanned(bus, 8 * dev + fn) <==>
          s.Fn? && bus[8 * dev].Fn? && (fn == 0 || Bit(bus[8 * dev].headerType, 7)))
  {
    assert (8 * dev + fn) / 8 * 8 == 8 * dev && (8 * dev + fn) % 8 == fn;
    if bus[8 * dev].Fn? {
      assert Pow2(7) == 0x80;
      var x := bus[8 * dev].headerType;
      if x >= 0x80 {
        TopOfByte(x - 0x80);
      } else {
        NoHighBits(x, 7, 7);
      }
    }
  }

  lemma TopOfByte(x: nat)
    requires x < 0x80
    ensures Bit(x + 0x80, 7)
  {
    HighBit(x, 7);
    assert Pow2(7) == 0x80;
  }

  lemma {:induction false} HighBit(x: nat, n: nat)
    requires x < Pow2(n)
    ensures Bit(x + Pow2(n), n)
  {
    if n > 0 {
      assert (x + Pow2(n)) / 2 == x / 2 + Pow2(n - 1);
      HighBit(x / 2, n - 1);
    }
  }

  /** A bridge claims exactly the bus numbers of its subtree. */
  lemma ClaimsSubtree(cfg: Config, root: seq<Slot>, f: Path, t: nat)
    requires Enumerated(cfg, root) && ReachedBridge(root, f)
    ensures Claims(cfg, f, t) <==> exists g :: ReachedBridge(root, g) && OnPath(f, g) && Val(cfg, g, Secondary) == t
  {
    assert Programmed(cfg, root, f);
    SubtreeBuses(root, f, t);
    forall g | ReachedBridge(root, g)
      ensures Val(cfg, g, Secondary) == SecondaryOf(root, g)
    {
      assert Programmed(cfg, root, g);
    }
  }

  /** Bus numbers are handed out from 1 on without gaps, lower ones nearer the root. */
  lemma NumbersDense(cfg: Config, root: seq<Slot>, f: Path, u: nat) returns (g: Path)
    requires Enumerated(cfg, root) && ReachedBridge(root, f) && 1 <= u <= Val(cfg, f, Secondary)
    ensures ReachedBridge(root, g) && Val(cfg, g, Secondary) == u && Val(cfg, f, Secondary) >= 1
    ensures !Above(f, g)
  {
    hide Fits, BusAt, SlotAt, BusEnd, AfterBus;
    assert Programmed(cfg, root, f);
    WithinLimits(root, f);
    BridgeLimits(root, f);
    LastNumber(root, f);
    g := BusNumberUsed(root, [], |BusAt(root, [])|, u);
    assert Programmed(cfg, root, g);
    if Above(f, g) {
      SecondaryBelow(root, f, g);
    }
  }

  lemma LastNumber(root: seq<Slot>, f: Path)
    requires Fits(root) && ReachedBridge(root, f)
    ensures BusStart(root, []).bus == 1 <= SecondaryOf(root, f)
    ensures SecondaryOf(root, f) < AfterBus(BusAt(root, []), |BusAt(root, [])|, BusStart(root, [])).bus
  {
    WithinLimits(root, f);
    BridgeLimits(root, f);
  }

  /** After the walk, a cycle for any bus number reaches that bus and no other. */
  lemma EveryBusRouted(c0: Config, cfg: Config, root: seq<Slot>, p: Path)
    requires Enumerated(cfg, root) && Quiet(c0, root, [], 0)
    requires forall f :: Reached(root, f) || Untouched(c0, cfg, f)
    requires p == [] || ReachedBridge(root, p)
    ensures Route(cfg, root, SecondaryOf(root, p)) == Some(p)
  {
    var b := SecondaryOf(root, p);
    if p != [] {
      BridgeLimits(root, p);
    }
    forall q
      ensures ClaimsRightly(cfg, root, p, b, q)
    {
      if b > 0 && IsBridgeAt(root, q) {
        if Reached(root, q) {
          ReachedClaims(cfg, root, p, q);
        } else {
          assert Untouched(c0, cfg, q) && QuietAt(c0, root, [], 0, q) && Above([], q);
          assert !Claims(c0, q, b);
          if OnPath(q, p) {
            assert p[..|q|] == q;
            ReachedPrefix(root, p, |q|);
          }
        }
      }
    }
    RouteReaches(cfg, root, p, b);
  }

  lemma ReachedClaims(cfg: Config, root: seq<Slot>, p: Path, q: Path)
    requires Enumerated(cfg, root) && ReachedBridge(root, p) && ReachedBridge(root, q)
    ensures ClaimsRightly(cfg, root, p, SecondaryOf(root, p), q)
  {
    assert Programmed(cfg, root, q);
    var t := SecondaryOf(root, p);
    SubtreeBuses(root, q, t);
    assert p == q || SecondaryOf(root, p) != SecondaryOf(root, q) by {
      if p != q {
        SecondariesDistinct(root, p, q);
      }
    }
    if Claims(cfg, q, t) {
      var g :| ReachedBridge(root, g) && (g == q || Above(q, g)) && SecondaryOf(root, g) == t;
      if g != p {
        SecondariesDistinct(root, g, p);
      }
    }
  }
}
