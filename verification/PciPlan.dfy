/**
 Where the walk puts things: for every function of the tree, the allocator
 values on entry and exit, and from them each BAR range, each bridge window
 and each bus number.  Everything here is determined by the hardware alone.
 */
module PciPlan {
  import opened Bits
  import opened PciHardware

  datatype Space = Io | Mem | Pref

  /** The three high-water marks and the next bus number. */
  datatype Alloc = Alloc(mem: nat, pref: nat, io: nat, bus: nat) {
    function Get(s: Space): nat {
      match s case Io => io case Mem => mem case Pref => pref
    }

    function Put(s: Space, v: nat): Alloc {
      match s
      case Io => this.(io := v)
      case Mem => this.(mem := v)
      case Pref => this.(pref := v)
    }
  }

  /** A bus counter kept in eight bits. */
  function Byte(n: nat): u8 {
    n % 0x100
  }

  const START: Alloc := Alloc(0x8000_0000, 0xA000_0000, 0x1000, 1)

  ghost predicate Le(a: Alloc, b: Alloc) {
    a.mem <= b.mem && a.pref <= b.pref && a.io <= b.io && a.bus <= b.bus
  }

  /** An aligned block of 2^order addresses wanted by one register. */
  datatype Req = Req(reg: Reg, space: Space, order: nat)

  /** The least multiple of 2^k that is at least v. */
  function RoundUp(v: nat, k: nat): (r: nat)
    ensures v <= r < v + Pow2(k)
  {
    if Low(v, k) == 0 then v else v - Low(v, k) + Pow2(k)
  }

  lemma RoundUpAligned(v: nat, k: nat)
    ensures Low(RoundUp(v, k), k) == 0
  {
    LowOfRounded(v, k);
    LowPlusPow(v - Low(v, k), k);
  }

  lemma {:induction false} LowPlusPow(x: nat, k: nat)
    ensures Low(x + Pow2(k), k) == Low(x, k)
  {
    if k > 0 {
      LowPlusPow(x / 2, k - 1);
      assert (x + Pow2(k)) / 2 == x / 2 + Pow2(k - 1);
    }
  }

  // ---------- what one function asks for ----------

  ghost function Order(size: nat): nat {
    if exists k: nat :: Pow2(k) == size then var k: nat :| Pow2(k) == size; k else 0
  }

  function SpaceOf(b: Bar): Space {
    if b.IsIo() then Io else if b.IsPref() then Pref else Mem
  }

  ghost function BarRequests(bars: seq<Bar>, j: nat): seq<Req>
    decreases |bars| - j
  {
    if j >= |bars| then []
    else if bars[j].Size() == 0 then BarRequests(bars, j + 1)
    else [Req(BarReg(j), SpaceOf(bars[j]), Order(bars[j].Size()))]
         + BarRequests(bars, j + if bars[j].Is64() then 2 else 1)
  }

  ghost function RomRequests(rom: Bar): seq<Req> {
    if rom.Size() == 0 then [] else [Req(RomReg, Mem, Order(rom.Size()))]
  }

  ghost function Requests(s: Slot): seq<Req> {
    if s.Empty? then [] else BarRequests(s.bars, 0) + RomRequests(s.rom)
  }

  ghost function Grant(a: Alloc, r: Req): Alloc {
    a.Put(r.space, RoundUp(a.Get(r.space), r.order) + Pow2(r.order))
  }

  ghost function AfterReqs(reqs: seq<Req>, k: nat, a: Alloc): Alloc
    requires k <= |reqs|
  {
    if k == 0 then a else Grant(AfterReqs(reqs, k - 1, a), reqs[k - 1])
  }

  // ---------- what a bus and a bridge add ----------

  function Granule(s: Space): nat {
    if s.Io? then 12 else 20
  }

  /** Pad to the window granularity and take a bus number. */
  function EnterBridge(a: Alloc): Alloc {
    Alloc(RoundUp(a.mem, 20), RoundUp(a.pref, 20), RoundUp(a.io, 12), a.bus + 1)
  }

  function Pad(start: nat, end: nat, k: nat): nat {
    if end > start then RoundUp(end, k) else end
  }

  function LeaveBridge(start: Alloc, end: Alloc): Alloc {
    Alloc(Pad(start.mem, end.mem, 20), Pad(start.pref, end.pref, 20), Pad(start.io, end.io, 12), end.bus)
  }

  ghost function AfterSlot(bus: seq<Slot>, i: nat, a: Alloc): Alloc
    requires i < |bus|
    decreases bus, i
  {
    if !Scanned(bus, i) then a
    else
      var own := AfterReqs(Requests(bus[i]), |Requests(bus[i])|, a);
      if !bus[i].IsBridge() then own
      else
        var start := EnterBridge(own);
        LeaveBridge(start, AfterBus(bus[i].secondary, |bus[i].secondary|, start))
  }

  /** The allocators once the first n slots of a bus have been walked. */
  ghost function AfterBus(bus: seq<Slot>, n: nat, a: Alloc): Alloc
    requires n <= |bus|
    decreases bus, n
  {
    if n == 0 then a else AfterSlot(bus, n - 1, AfterBus(bus, n - 1, a))
  }

  // ---------- the same, by path ----------

  ghost function Entry(root: seq<Slot>, f: Path): Alloc
    requires f != []
    decreases |f|, 0
  {
    var bus := BusAt(root, Parent(f));
    var start := BusStart(root, Parent(f));
    if Last(f) <= |bus| then AfterBus(bus, Last(f), start) else start
  }

  /** After the BARs and ROM of the function at f. */
  ghost function Owned(root: seq<Slot>, f: Path): Alloc
    requires f != []
    decreases |f|, 1
  {
    var reqs := Requests(SlotAt(root, f));
    AfterReqs(reqs, |reqs|, Entry(root, f))
  }

  ghost function BusStart(root: seq<Slot>, p: Path): Alloc
    decreases |p|, 2
  {
    if p == [] then START else EnterBridge(Owned(root, p))
  }

  ghost function BusEnd(root: seq<Slot>, p: Path): Alloc {
    AfterBus(BusAt(root, p), |BusAt(root, p)|, BusStart(root, p))
  }

  ghost function Exit(root: seq<Slot>, f: Path): Alloc
    requires f != []
  {
    if Last(f) < |BusAt(root, Parent(f))| then AfterSlot(BusAt(root, Parent(f)), Last(f), Entry(root, f))
    else Entry(root, f)
  }

  /** The k-th block given to the function at f. */
  ghost function Base(root: seq<Slot>, f: Path, k: nat): nat
    requires f != [] && k < |Requests(SlotAt(root, f))|
  {
    var reqs := Requests(SlotAt(root, f));
    RoundUp(AfterReqs(reqs, k, Entry(root, f)).Get(reqs[k].space), reqs[k].order)
  }

  ghost function Top(root: seq<Slot>, f: Path, k: nat): nat
    requires f != [] && k < |Requests(SlotAt(root, f))|
  {
    Base(root, f, k) + Pow2(Requests(SlotAt(root, f))[k].order)
  }

  /** The forwarding window of the bridge at f is [WindowLo, WindowHi). */
  ghost function WindowLo(root: seq<Slot>, f: Path, s: Space): nat {
    BusStart(root, f).Get(s)
  }

  ghost function WindowHi(root: seq<Slot>, f: Path, s: Space): nat
    requires f != []
  {
    Exit(root, f).Get(s)
  }

  ghost function SecondaryOf(root: seq<Slot>, f: Path): nat {
    if f == [] then 0 else Entry(root, f).bus
  }

  ghost function SubordinateOf(root: seq<Slot>, f: Path): int
    requires f != []
  {
    Exit(root, f).bus - 1
  }

  /** Everything handed out stays inside its range, and bus numbers fit a byte. */
  ghost predicate Fits(root: seq<Slot>) {
    var e := BusEnd(root, []);
    e.mem <= 0xA000_0000 && e.pref <= 0xC000_0000 && e.io <= 0x1_0000 && e.bus <= 0x100
  }

  // ---------- allocators never move backwards ----------

  lemma {:induction false} ReqsMonotone(reqs: seq<Req>, j: nat, k: nat, a: Alloc)
    requires j <= k <= |reqs|
    ensures Le(AfterReqs(reqs, j, a), AfterReqs(reqs, k, a))
    ensures AfterReqs(reqs, k, a).bus == AfterReqs(reqs, j, a).bus
  {
    if j < k {
      ReqsMonotone(reqs, j, k - 1, a);
    }
  }

  lemma ReqsFromStart(reqs: seq<Req>, a: Alloc)
    ensures Le(a, AfterReqs(reqs, |reqs|, a)) && AfterReqs(reqs, |reqs|, a).bus == a.bus
  {
    ReqsMonotone(reqs, 0, |reqs|, a);
  }

  lemma BusFromStart(bus: seq<Slot>, n: nat, a: Alloc)
    requires n <= |bus|
    ensures Le(a, AfterBus(bus, n, a))
    decreases bus, n, 1
  {
    BusMonotone(bus, 0, n, a);
  }

  lemma {:induction false} SlotMonotone(bus: seq<Slot>, i: nat, a: Alloc)
    requires i < |bus|
    ensures Le(a, AfterSlot(bus, i, a))
    decreases bus, i
  {
    hide AfterReqs, AfterBus, Requests, Low, Pow2;
    if Scanned(bus, i) {
      var reqs := Requests(bus[i]);
      ReqsFromStart(reqs, a);
      if bus[i].IsBridge() {
        var start := EnterBridge(AfterReqs(reqs, |reqs|, a));
        BusFromStart(bus[i].secondary, |bus[i].secondary|, start);
      }
    }
  }

  lemma {:induction false} BusMonotone(bus: seq<Slot>, m: nat, n: nat, a: Alloc)
    requires m <= n <= |bus|
    ensures Le(AfterBus(bus, m, a), AfterBus(bus, n, a))
    decreases bus, n, 0
  {
    hide AfterSlot;
    if m < n {
      BusMonotone(bus, m, n - 1, a);
      SlotMonotone(bus, n - 1, AfterBus(bus, n - 1, a));
    }
  }
}
