/** Giving one function its address ranges, through configuration cycles alone. */
module PciAssign {
  import opened Bits
  import opened PciHardware
  import opened PciBars
  import opened PciPlan
  import opened PciRouting

  /** Round v up to a multiple of a, a power of two. */
  function AlignUp(v: u32, a: u32): u32
    requires a > 0
  {
    And((v + (a - 1)) % 0x1_0000_0000, Not32(a - 1))
  }

  lemma AlignUpRounds(v: u32, k: nat, a: u32)
    requires k < 32 && a == Pow2(k) && RoundUp(v, k) + a <= 0x1_0000_0000
    ensures AlignUp(v, a) == RoundUp(v, k)
  {
    var x: u32 := v + (a - 1);
    assert x % 0x1_0000_0000 == x;
    assert AlignUp(v, a) == And(x, Not32(a - 1));
    MaskDown(x, k, a);
    RoundUpByMask(v, k, a);
  }

  lemma MaskDown(x: u32, k: nat, a: u32)
    requires k < 32 && a == Pow2(k)
    ensures And(x, Not32(a - 1)) == x - Low(x, k)
  {
    Pow32();
    AndHigh(32, k, x);
  }

  lemma RoundUpByMask(v: nat, k: nat, a: nat)
    requires a == Pow2(k)
    ensures v + (a - 1) - Low(v + (a - 1), k) == RoundUp(v, k)
  {
    hide Low, Pow2;
    var l := Low(v, k);
    LowOfRounded(v, k);
    if l == 0 {
      LowOfSum(v, a - 1, k);
    } else {
      LowPlusPow(v - l, k);
      LowOfSum(v - l + a, l - 1, k);
    }
  }

  // ---------- a function, seen through configuration cycles ----------

  ghost predicate FnHolds(cfg: Config, s: Slot, f: Path)
    requires s.Fn?
  {
    && (forall j :: 0 <= j < |s.bars| ==> s.bars[j].Holds(Val(cfg, f, BarReg(j))))
    && s.rom.Holds(Val(cfg, f, RomReg))
  }

  ghost predicate HoldsAt(cfg: Config, root: seq<Slot>, f: Path) {
    f != [] && SlotAt(root, f).Fn? ==> FnHolds(cfg, SlotAt(root, f), f)
  }

  /** Every address register holds a value its hardware can hold. */
  ghost predicate BarsHold(cfg: Config, root: seq<Slot>) {
    forall f :: HoldsAt(cfg, root, f)
  }

  /** A function s at path f, on the bus at path p. */
  datatype Where = Where(p: Path, f: Path, s: Slot)

  /** Cycles for (bus, slot) reach the function w and nothing else. */
  ghost predicate Linked(cfg: Config, root: seq<Slot>, bus: nat, slot: nat, w: Where) {
    && RoutedTo(cfg, root, w.p, bus) && BarsHold(cfg, root)
    && w.f == w.p + [slot] && SlotAt(root, w.f) == w.s && w.s.Fn?
  }

  /** What a register holds after v is written to it. */
  function Stored(s: Slot, r: Reg, v: u32): nat
    requires s.Fn?
  {
    match r
    case BarReg(j) => if j < |s.bars| then s.bars[j].Store(v) else v
    case RomReg => s.rom.Store(v)
    case _ => v
  }

  /** d is c with one register changed. */
  ghost predicate Wrote(c: Config, d: Config, f: Path, r: Reg, v: nat) {
    && Val(d, f, r) == v
    && forall g: Path, x: Reg :: g != f || x != r ==> Val(d, g, x) == Val(c, g, x)
  }

  /** Registers by what they are for. */
  function Kind(r: Reg): nat {
    match r
    case VendorId | ClassCode | HeaderType => 0
    case BarReg(_) | RomReg => 1
    case Primary => 2
    case Secondary => 3
    case Subordinate => 4
    case Command => 5
    case MemBase | MemLimit | PrefBase | PrefLimit | IoBase | IoLimit => 6
  }

  /** Only registers of f of kinds lo to hi may differ. */
  ghost predicate OnlyKinds(c: Config, d: Config, f: Path, lo: nat, hi: nat) {
    forall g: Path, x: Reg :: (g == f && lo <= Kind(x) <= hi) || Val(d, g, x) == Val(c, g, x)
  }

  lemma OnlyKindsTrans(c: Config, d: Config, e: Config, f: Path, l: nat, h: nat, m: nat, n: nat, lo: nat, hi: nat)
    requires OnlyKinds(c, d, f, l, h) && OnlyKinds(d, e, f, m, n)
    requires lo <= l <= h <= hi && lo <= m <= n <= hi
    ensures OnlyKinds(c, e, f, lo, hi)
  {
    hide Kind, Val;
  }

  lemma WroteOnly(c: Config, d: Config, f: Path, r: Reg)
    requires Wrote(c, d, f, r, Val(d, f, r))
    ensures OnlyKinds(c, d, f, Kind(r), Kind(r))
  {
    hide Kind, Val;
  }

  ghost predicate SameRegisters(c: Config, d: Config) {
    forall g: Path, x: Reg :: Val(d, g, x) == Val(c, g, x)
  }

  lemma WriteEffect(cfg: Config, root: seq<Slot>, bus: nat, slot: nat, w: Where, r: Reg, v: u32)
    requires Linked(cfg, root, bus, slot, w)
    ensures Wrote(cfg, Written(cfg, w.s, w.f, r, v), w.f, r, Stored(w.s, r, v))
    ensures BarsHold(Written(cfg, w.s, w.f, r, v), root)
    ensures !r.Secondary? && !r.Subordinate? ==> Linked(Written(cfg, w.s, w.f, r, v), root, bus, slot, w)
  {
    var d := Written(cfg, w.s, w.f, r, v);
    WrittenHolds(cfg, root, w.f, r, v);
    WrittenWrote(cfg, w.s, w.f, r, v);
    if !r.Secondary? && !r.Subordinate? {
      hide Written, Stored, SlotAt, BarsHold;
      RoutedSame(cfg, d, root, w.p, bus);
    }
  }

  lemma WrittenWrote(cfg: Config, s: Slot, f: Path, r: Reg, v: u32)
    requires s.Fn?
    ensures var d := Written(cfg, s, f, r, v);
            && Wrote(cfg, d, f, r, Stored(s, r, v))
            && (!r.Secondary? && !r.Subordinate? ==> forall q :: SameBuses(cfg, d, q))
  {
    hide Bar.Store, Wrote, SameBuses;
    if r.BarReg? && r.index < |s.bars| {
      StoreFits(s.bars[r.index], v);
    }
    StoreFits(s.rom, v);
    UpdateWrote(cfg, Written(cfg, s, f, r, v), f, r, Stored(s, r, v));
  }

  lemma UpdateWrote(cfg: Config, d: Config, f: Path, r: Reg, v: u32)
    requires d == cfg[(f, r) := v]
    ensures Wrote(cfg, d, f, r, v)
    ensures !r.Secondary? && !r.Subordinate? ==> forall q :: SameBuses(cfg, d, q)
  {}

  lemma WrittenHolds(cfg: Config, root: seq<Slot>, f: Path, r: Reg, v: u32)
    requires BarsHold(cfg, root) && f != [] && SlotAt(root, f).Fn?
    ensures BarsHold(Written(cfg, SlotAt(root, f), f, r, v), root)
  {
    var s := SlotAt(root, f);
    var w := Written(cfg, s, f, r, v);
    if r.BarReg? && r.index < |s.bars| {
      StoreHolds(s.bars[r.index], v);
    }
    StoreHolds(s.rom, v);
    forall g
      ensures HoldsAt(w, root, g)
    {
      assert HoldsAt(cfg, root, g);
    }
  }

  lemma LinkedFn(cfg: Config, root: seq<Slot>, bus: nat, slot: nat, w: Where)
    requires Linked(cfg, root, bus, slot, w)
    ensures w.s.Fn? && w.f != [] && SlotAt(root, w.f) == w.s && Parent(w.f) == w.p
    ensures BarsHold(cfg, root)
  {}

  lemma RegisterHolds(cfg: Config, root: seq<Slot>, bus: nat, slot: nat, w: Where, r: Reg, b: Bar)
    requires Linked(cfg, root, bus, slot, w)
    requires (r.BarReg? && r.index < |w.s.bars| && b == w.s.bars[r.index]) || (r.RomReg? && b == w.s.rom)
    ensures b.Holds(Val(cfg, w.f, r))
  {
    assert HoldsAt(cfg, root, w.f);
  }

  // ---------- sizes as powers of two ----------

  lemma {:induction false} PowStrict(a: nat, b: nat)
    ensures a < b ==> Pow2(a) < Pow2(b)
  {
    if a + 1 < b {
      PowStrict(a, b - 1);
    }
  }

  lemma PowInjective(a: nat, b: nat)
    requires Pow2(a) == Pow2(b)
    ensures a == b
  {
    PowStrict(a, b);
    PowStrict(b, a);
  }

  lemma OrderOfBar(b: Bar)
    requires b.WellFormed() && b.Size() != 0
    ensures b.TopRun(Order(b.Size())) && Pow2(Order(b.Size())) == b.Size()
  {
    var k := AddressRun(b, b.TypeBits());
    PowInjective(k, Order(b.Size()));
  }

  lemma OrderOfRom(b: Bar)
    requires b.WellFormedRom() && b.Size() != 0
    ensures b.RomRun(Order(b.Size())) && Pow2(Order(b.Size())) == b.Size()
  {
    var k: nat :| b.RomRun(k);
    SizeOfRun(b, k, Pow2(k - 1));
    PowInjective(k, Order(b.Size()));
  }

  lemma AddrMasks()
    ensures AddrMask(2) == BAR_IO_ADDR_MASK && AddrMask(4) == BAR_MEM_ADDR_MASK && AddrMask(11) == ROM_ADDR_MASK
  {
    assert Pow2(2) == 4 && Pow2(4) == 16 && Pow2(11) == 0x800;
  }

  lemma TypeTests(b: Bar, v: u32)
    requires b.WellFormed() && Low(v, b.TypeBits()) == b.fixed && v % 2 == b.fixed % 2
    ensures And(v, 1) == b.fixed % 2
    ensures And(v, 1) == 0 && And(v, 6) == 4 <==> b.Is64()
    ensures !b.IsIo() && And(b.fixed, 8) != 0 <==> b.IsPref()
  {
    IoTest(v);
    if !b.IsIo() {
      assert Pow2(4) == 16;
      Type64Test(v, b.fixed);
      PrefetchTest(b.fixed);
    }
  }

  // ---------- the requests of one function, met in order ----------

  ghost predicate RoomFor(a: Alloc, r: Req) {
    RoundUp(a.Get(r.space), r.order) + Pow2(r.order) < 0x1_0000_0000
  }

  ghost function BarReq(b: Bar, i: nat): Req {
    Req(BarReg(i), SpaceOf(b), Order(b.Size()))
  }

  ghost function RomReq(b: Bar): Req {
    Req(RomReg, Mem, Order(b.Size()))
  }

  /** The base of the k-th block, starting from allocators a. */
  ghost function BaseOf(reqs: seq<Req>, k: nat, a: Alloc): nat
    requires k < |reqs|
  {
    RoundUp(AfterReqs(reqs, k, a).Get(reqs[k].space), reqs[k].order)
  }

  ghost predicate AllFit(reqs: seq<Req>, a: Alloc) {
    var e := AfterReqs(reqs, |reqs|, a);
    e.mem < 0x1_0000_0000 && e.pref < 0x1_0000_0000 && e.io < 0x1_0000_0000
  }

  lemma RequestFits(reqs: seq<Req>, k: nat, a: Alloc)
    requires k < |reqs| && AllFit(reqs, a)
    ensures RoomFor(AfterReqs(reqs, k, a), reqs[k])
  {
    ReqsMonotone(reqs, k + 1, |reqs|, a);
  }

  /** The bits under the address: a BAR's type, or a ROM's enable bit. */
  ghost function TypeOf(s: Slot, r: Reg): nat
    requires s.Fn?
  {
    if r.BarReg? && r.index < |s.bars| then s.bars[r.index].fixed else 1
  }

  /** Is this the low half of a 64-bit BAR? */
  ghost predicate IsWide(s: Slot, r: Reg)
    requires s.Fn?
  {
    r.BarReg? && r.index < |s.bars| && s.bars[r.index].Is64()
  }

  /** The upper 32 address bits that go with a register. */
  ghost function HighOf(cfg: Config, s: Slot, f: Path, r: Reg): nat
    requires s.Fn?
  {
    if IsWide(s, r) then Val(cfg, f, BarReg(r.index + 1)) else 0
  }

  /** The first BAR past a register and, if it has one, its upper half. */
  ghost function PastReg(s: Slot, r: Reg): nat
    requires s.Fn? && r.BarReg?
  {
    r.index + if IsWide(s, r) then 2 else 1
  }

  /** The register of request k holds its block, at an address below 4 GiB. */
  ghost predicate BlockSet(cfg: Config, s: Slot, f: Path, a: Alloc, k: nat)
    requires s.Fn? && k < |Requests(s)|
  {
    && Val(cfg, f, Requests(s)[k].reg) == BaseOf(Requests(s), k, a) + TypeOf(s, Requests(s)[k].reg)
    && HighOf(cfg, s, f, Requests(s)[k].reg) == 0
  }

  /** The first n registers hold their blocks. */
  ghost predicate BlocksSet(cfg: Config, s: Slot, f: Path, a: Alloc, n: nat)
    requires s.Fn? && n <= |Requests(s)|
  {
    forall k :: 0 <= k < n ==> BlockSet(cfg, s, f, a, k)
  }

  function DecodeBit(s: Space): nat {
    if s.Io? then 0 else 1
  }

  ghost predicate Needs(reqs: seq<Req>, k: nat) {
    exists r :: r in reqs && DecodeBit(r.space) == k
  }

  /** The decode bits are those some request needs, and no others. */
  ghost predicate BitsFor(cmdBits: nat, reqs: seq<Req>) {
    (Bit(cmdBits, 0) <==> Needs(reqs, 0)) && (Bit(cmdBits, 1) <==> Needs(reqs, 1))
  }

  lemma AddBits(cmdBits: nat, more: nat, reqs: seq<Req>, r: Req)
    requires BitsFor(cmdBits, reqs) && cmdBits < 4 && more == (if r.space.Io? then 1 else 2)
    ensures BitsFor(Or(cmdBits, more), reqs + [r]) && Or(cmdBits, more) < 4
  {
    hide Or;
    OrBound(cmdBits, more, 2);
    assert Pow2(2) == 4;
    assert Bit(1, 0) && !Bit(1, 1) && !Bit(2, 0) && Bit(2, 1);
    BitOfOr(cmdBits, more, 0);
    BitOfOr(cmdBits, more, 1);
    NeedsMore(reqs, r, 0);
    NeedsMore(reqs, r, 1);
  }

  lemma NeedsMore(reqs: seq<Req>, r: Req, k: nat)
    ensures Needs(reqs + [r], k) <==> Needs(reqs, k) || DecodeBit(r.space) == k
  {
    if Needs(reqs, k) {
      var x :| x in reqs && DecodeBit(x.space) == k;
      assert x in reqs + [r];
    }
    if DecodeBit(r.space) == k {
      assert r in reqs + [r];
    }
  }

  /** At BAR i, k requests have been met and these are left. */
  ghost predicate Remaining(s: Slot, i: nat, k: nat)
    requires s.Fn?
  {
    && k <= |Requests(s)| && Requests(s)[k..] == BarRequests(s.bars, i) + RomRequests(s.rom)
    && WellFormedBars(s.bars, i)
    && forall j :: 0 <= j < k ==> Requests(s)[j].reg.BarReg? && PastReg(s, Requests(s)[j].reg) <= i
  }

  /** How far the BAR loop has come, having started from registers c0 and allocators a. */
  ghost predicate Progress(s: Slot, f: Path, a: Alloc, c0: Config, cfg: Config, i: nat, k: nat, cmdBits: nat)
    requires s.Fn?
  {
    && Remaining(s, i, k)
    && BlocksSet(cfg, s, f, a, k)
    && OnlyKinds(c0, cfg, f, 1, 1)
    && cmdBits < 4 && BitsFor(cmdBits, Requests(s)[..k])
  }

  /** Only the registers of BARs from i on may differ. */
  ghost predicate OnlyFrom(c: Config, d: Config, f: Path, i: nat) {
    forall g: Path, x: Reg :: g != f || !(x.RomReg? || (x.BarReg? && x.index >= i)) ==> Val(d, g, x) == Val(c, g, x)
  }

  lemma NextBar(s: Slot, i: nat, k: nat)
    requires s.Fn? && i < |s.bars| && Remaining(s, i, k)
    ensures var b := s.bars[i];
            if b.Size() == 0 then Remaining(s, i + 1, k)
            else
              && k < |Requests(s)| && Requests(s)[k] == BarReq(b, i)
              && Remaining(s, i + (if b.Is64() then 2 else 1), k + 1)
  {
    hide Bar.Size, Bar.Is64, Bar.WellFormed, Bar.WellFormedHigh, Order, SpaceOf, Requests, BarRequests, RomRequests;
    var reqs := Requests(s);
    BarRequestsStep(s.bars, i);
    if s.bars[i].Size() != 0 {
      var rest := reqs[k..];
      assert rest[0] == reqs[k] && rest[1..] == reqs[k + 1..];
      assert rest[1..] == BarRequests(s.bars, i + (if s.bars[i].Is64() then 2 else 1)) + RomRequests(s.rom);
    }
  }

  lemma BarRequestsStep(bars: seq<Bar>, i: nat)
    requires i < |bars|
    ensures BarRequests(bars, i) ==
            if bars[i].Size() == 0 then BarRequests(bars, i + 1)
            else [BarReq(bars[i], i)] + BarRequests(bars, i + if bars[i].Is64() then 2 else 1)
  {
  }

  lemma BlocksKept(c: Config, d: Config, s: Slot, f: Path, a: Alloc, i: nat, k: nat)
    requires s.Fn? && Remaining(s, i, k) && BlocksSet(c, s, f, a, k)
    requires OnlyFrom(c, d, f, i)
    ensures BlocksSet(d, s, f, a, k)
  {
    forall j | 0 <= j < k
      ensures BlockSet(d, s, f, a, j)
    {
      assert BlockSet(c, s, f, a, j);
    }
  }

  lemma BarSkipped(s: Slot, f: Path, a: Alloc, c0: Config, c: Config, d: Config, i: nat, k: nat, cmdBits: nat)
    requires s.Fn? && i < |s.bars| && s.bars[i].Size() == 0
    requires Progress(s, f, a, c0, c, i, k, cmdBits) && OnlyFrom(c, d, f, i)
    ensures Progress(s, f, a, c0, d, i + 1, k, Or(cmdBits, 0)) && Or(cmdBits, 0) < 4
  {
    hide BitsFor, BlockSet, Requests, Or, Kind, Val;
    NextBar(s, i, k);
    BlocksKept(c, d, s, f, a, i, k);
    OrZero(cmdBits);
    OnlyFromKinds(c, d, f, i);
    OnlyKindsTrans(c0, c, d, f, 1, 1, 1, 1, 1, 1);
  }

  lemma BlockTaken(s: Slot, f: Path, a: Alloc, c0: Config, c: Config, d: Config, i: nat, k: nat, cmdBits: nat,
                   more: nat)
    requires s.Fn? && Progress(s, f, a, c0, c, i, k, cmdBits) && OnlyFrom(c, d, f, i)
    requires k < |Requests(s)| && more == (if Requests(s)[k].space.Io? then 1 else 2)
    requires BlockSet(d, s, f, a, k)
    ensures BlocksSet(d, s, f, a, k + 1) && OnlyKinds(c0, d, f, 1, 1)
    ensures Or(cmdBits, more) < 4 && BitsFor(Or(cmdBits, more), Requests(s)[..k + 1])
  {
    hide BitsFor, BlockSet, Remaining, Requests, Or, Kind, Val;
    var reqs := Requests(s);
    BlocksKept(c, d, s, f, a, i, k);
    AddBits(cmdBits, more, reqs[..k], reqs[k]);
    assert reqs[..k + 1] == reqs[..k] + [reqs[k]];
    OnlyFromKinds(c, d, f, i);
    OnlyKindsTrans(c0, c, d, f, 1, 1, 1, 1, 1, 1);
  }

  lemma OnlyFromKinds(c: Config, d: Config, f: Path, i: nat)
    requires OnlyFrom(c, d, f, i)
    ensures OnlyKinds(c, d, f, 1, 1)
  {
    hide Val;
  }

  lemma BarDone(s: Slot, f: Path, a: Alloc, c0: Config, c: Config, d: Config, i: nat, k: nat, cmdBits: nat, more: nat)
    requires s.Fn? && i < |s.bars| && Progress(s, f, a, c0, c, i, k, cmdBits) && OnlyFrom(c, d, f, i)
    requires s.bars[i].Size() != 0 && more == (if s.bars[i].IsIo() then 1 else 2)
    requires Val(d, f, BarReg(i))
          == RoundUp(AfterReqs(Requests(s), k, a).Get(SpaceOf(s.bars[i])), Order(s.bars[i].Size())) + s.bars[i].fixed
    requires s.bars[i].Is64() ==> Val(d, f, BarReg(i + 1)) == 0
    ensures k < |Requests(s)| && Requests(s)[k] == BarReq(s.bars[i], i)
    ensures Progress(s, f, a, c0, d, i + (if s.bars[i].Is64() then 2 else 1), k + 1, Or(cmdBits, more))
    ensures Or(cmdBits, more) < 4
  {
    hide BlocksSet, OnlyKinds, BitsFor, Remaining, Requests, WellFormedBars, Or, Val, OnlyFrom, AfterReqs, RoundUp,
      Order, Bar.Size, BlockSet;
    ProgressRemaining(s, f, a, c0, c, i, k, cmdBits);
    NextBar(s, i, k);
    BarBlock(s, f, a, d, i, k);
    BlockTaken(s, f, a, c0, c, d, i, k, cmdBits, more);
  }

  lemma BarBlock(s: Slot, f: Path, a: Alloc, d: Config, i: nat, k: nat)
    requires s.Fn? && i < |s.bars| && k < |Requests(s)| && Requests(s)[k] == BarReq(s.bars[i], i)
    requires Val(d, f, BarReg(i))
          == RoundUp(AfterReqs(Requests(s), k, a).Get(SpaceOf(s.bars[i])), Order(s.bars[i].Size())) + s.bars[i].fixed
    requires s.bars[i].Is64() ==> Val(d, f, BarReg(i + 1)) == 0
    ensures BlockSet(d, s, f, a, k)
  {
    hide Requests, RoundUp, AfterReqs, Order, Bar.Size, Val;
  }

  /** BAR i is well-formed, and so is its upper half if it has one. */
  ghost predicate BarReady(s: Slot, i: nat)
    requires s.Fn? && i < |s.bars|
  {
    && s.bars[i].WellFormed()
    && (s.bars[i].Size() != 0 && s.bars[i].Is64() ==> i + 1 < |s.bars| && s.bars[i + 1].WellFormedHigh())
  }

  /** Enough room for BAR i, if it asks for any. */
  lemma BarRoom(s: Slot, i: nat, k: nat, a: Alloc)
    requires s.Fn? && i < |s.bars| && Remaining(s, i, k) && AllFit(Requests(s), a)
    ensures BarReady(s, i)
    ensures s.bars[i].Size() != 0 ==>
              && k < |Requests(s)| && RoomFor(AfterReqs(Requests(s), k, a), BarReq(s.bars[i], i))
              && AfterReqs(Requests(s), k + 1, a) == Grant(AfterReqs(Requests(s), k, a), BarReq(s.bars[i], i))
  {
    hide Requests, AllFit, RoomFor, Bar.WellFormed;
    NextBar(s, i, k);
    if s.bars[i].Size() != 0 {
      RequestFits(Requests(s), k, a);
    }
  }

  lemma FnFacts(s: Slot)
    requires s.Fn? && WellFormedFn(s)
    ensures |s.bars| == BarCount(s.headerType) && s.rom.WellFormedRom()
  {}

  lemma ProgressRemaining(s: Slot, f: Path, a: Alloc, c0: Config, cfg: Config, i: nat, k: nat, cmdBits: nat)
    requires s.Fn? && Progress(s, f, a, c0, cfg, i, k, cmdBits)
    ensures Remaining(s, i, k)
  {}

  lemma ProgressStart(s: Slot, f: Path, a: Alloc, cfg: Config)
    requires s.Fn? && WellFormedFn(s)
    ensures Progress(s, f, a, cfg, cfg, 0, 0, 0) && AfterReqs(Requests(s), 0, a) == a
  {
    assert Requests(s)[0..] == Requests(s);
  }

  lemma LastRequest(s: Slot, k: nat, a: Alloc)
    requires s.Fn? && Remaining(s, |s.bars|, k) && AllFit(Requests(s), a)
    ensures if s.rom.Size() == 0 then k == |Requests(s)|
            else
              && k + 1 == |Requests(s)| && Requests(s)[k] == RomReq(s.rom)
              && RoomFor(AfterReqs(Requests(s), k, a), RomReq(s.rom))
              && AfterReqs(Requests(s), k + 1, a) == Grant(AfterReqs(Requests(s), k, a), RomReq(s.rom))
  {
    if s.rom.Size() != 0 {
      assert Requests(s)[k..][0] == Requests(s)[k];
      RequestFits(Requests(s), k, a);
    }
  }

  lemma RomDone(s: Slot, f: Path, a: Alloc, c0: Config, c: Config, d: Config, k: nat, cmdBits: nat, more: nat)
    requires s.Fn? && Progress(s, f, a, c0, c, |s.bars|, k, cmdBits) && OnlyFrom(c, d, f, |s.bars|)
    requires if s.rom.Size() == 0 then k == |Requests(s)| && more == 0
             else
               && k + 1 == |Requests(s)| && Requests(s)[k] == RomReq(s.rom) && more == 2
               && Val(d, f, RomReg) == RoundUp(AfterReqs(Requests(s), k, a).mem, Order(s.rom.Size())) + 1
    ensures BlocksSet(d, s, f, a, |Requests(s)|) && OnlyKinds(c0, d, f, 1, 1)
    ensures Or(cmdBits, more) < 4 && BitsFor(Or(cmdBits, more), Requests(s))
  {
    hide BitsFor, Requests, Or, Kind, Val, Remaining;
    var reqs := Requests(s);
    if s.rom.Size() == 0 {
      OrZero(cmdBits);
      BlocksKept(c, d, s, f, a, |s.bars|, k);
      assert reqs[..k] == reqs;
      OnlyFromKinds(c, d, f, |s.bars|);
      OnlyKindsTrans(c0, c, d, f, 1, 1, 1, 1, 1, 1);
    } else {
      BlockTaken(s, f, a, c0, c, d, |s.bars|, k, cmdBits, more);
      assert reqs[..k + 1] == reqs;
    }
  }
}
