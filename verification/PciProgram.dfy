/** What the walk leaves in the registers, and how each step of it keeps the rest. */
module PciProgram {
  import opened Bits
  import opened PciHardware
  import opened PciPlan
  import opened PciWindows
  import opened PciLayout
  import opened PciRouting
  import opened PciAssign

  // ---------- the registers of one function ----------

  /** Decode bits for every range the function has, and bus mastering; for a bridge, every space it forwards. */
  ghost predicate OwnBits(cfg: Config, s: Slot, f: Path) {
    forall r :: r in Requests(s) ==> Bit(Val(cfg, f, Command), DecodeBit(r.space)) && Bit(Val(cfg, f, Command), 2)
  }

  ghost predicate ForwardBits(cfg: Config, root: seq<Slot>, f: Path) {
    forall s: Space :: BusEnd(root, f).Get(s) > BusStart(root, f).Get(s) ==> Bit(Val(cfg, f, Command), DecodeBit(s))
  }

  ghost predicate MemSet(base: nat, limit: nat, start: nat, end: nat) {
    start < 0x1_0000_0000 && end < 0x1_0000_0000 && (base, limit) == MemPair(start, end)
  }

  ghost predicate IoSet(base: nat, limit: nat, start: nat, end: nat) {
    start < 0x1_0000_0000 && end < 0x1_0000_0000 && (base, limit) == IoPair(start, end)
  }

  ghost predicate WindowsSet(cfg: Config, f: Path, a: Alloc, e: Alloc) {
    && MemSet(Val(cfg, f, MemBase), Val(cfg, f, MemLimit), a.mem, e.mem)
    && MemSet(Val(cfg, f, PrefBase), Val(cfg, f, PrefLimit), a.pref, e.pref)
    && IoSet(Val(cfg, f, IoBase), Val(cfg, f, IoLimit), a.io, e.io)
  }

  lemma PairsFit(start: u32, end: u32)
    ensures MemPair(start, end).0 < 0x1_0000 && MemPair(start, end).1 < 0x1_0000
    ensures IoPair(start, end).0 < 0x1_0000_0000 && IoPair(start, end).1 < 0x1_0000_0000
  {}

  ghost predicate BusesSet(cfg: Config, root: seq<Slot>, f: Path)
    requires f != []
  {
    && Val(cfg, f, Primary) == SecondaryOf(root, Parent(f))
    && Val(cfg, f, Secondary) == SecondaryOf(root, f)
    && Val(cfg, f, Subordinate) == SubordinateOf(root, f)
  }

  ghost predicate OwnSet(cfg: Config, root: seq<Slot>, f: Path) {
    f != [] && SlotAt(root, f).Fn? ==>
      && BlocksSet(cfg, SlotAt(root, f), f, Entry(root, f), |Requests(SlotAt(root, f))|)
      && OwnBits(cfg, SlotAt(root, f), f)
  }

  ghost predicate BridgeSet(cfg: Config, root: seq<Slot>, f: Path)
    requires f != []
  {
    && WindowsSet(cfg, f, BusStart(root, f), BusEnd(root, f))
    && ForwardBits(cfg, root, f)
    && BusesSet(cfg, root, f)
  }

  /** The function at f has been walked. */
  ghost predicate Programmed(cfg: Config, root: seq<Slot>, f: Path) {
    f != [] && OwnSet(cfg, root, f) && (SlotAt(root, f).IsBridge() ==> BridgeSet(cfg, root, f))
  }

  lemma ProgrammedKept(c: Config, d: Config, root: seq<Slot>, f: Path)
    requires Programmed(c, root, f)
    requires forall x: Reg :: Val(d, f, x) == Val(c, f, x)
    ensures Programmed(d, root, f)
  {
    hide SlotAt, Entry, BlockSet, Requests, BusStart, BusEnd, SecondaryOf, SubordinateOf;
    if SlotAt(root, f).Fn? {
      var s := SlotAt(root, f);
      forall k | 0 <= k < |Requests(s)|
        ensures BlockSet(d, s, f, Entry(root, f), k)
      {
        assert BlockSet(c, s, f, Entry(root, f), k);
        BlockSame(c, d, s, f, Entry(root, f), k);
      }
    }
  }

  /** The command register keeps its bits and gains those the requests need, with bus mastering for any request. */
  ghost predicate Gains(before: nat, after: nat, reqs: seq<Req>) {
    forall j: nat :: Bit(after, j) <==> Bit(before, j) || (j < 2 && Needs(reqs, j)) || (j == 2 && reqs != [])
  }

  lemma AddedBits(cmd: nat, cmdBits: nat, reqs: seq<Req>)
    requires BitsFor(cmdBits, reqs) && 0 < cmdBits < 4
    ensures Gains(cmd, Or(cmd, Or(cmdBits, CMD_MASTER)), reqs)
  {
    hide Or, Needs;
    SomeBit(cmdBits, reqs);
    forall j: nat
      ensures Bit(Or(cmd, Or(cmdBits, CMD_MASTER)), j)
         <==> Bit(cmd, j) || (j < 2 && Needs(reqs, j)) || (j == 2 && reqs != [])
    {
      BitOfOr(cmdBits, CMD_MASTER, j);
      BitOfOr(cmd, Or(cmdBits, CMD_MASTER), j);
      assert Pow2(2) == 4 && Pow2(3) == 8;
      assert !Bit(4, 0) && !Bit(4, 1) && Bit(4, 2);
      if j >= 2 {
        NoHighBits(cmdBits, 2, j);
      }
      if j >= 3 {
        NoHighBits(4, 3, j);
      }
    }
  }

  lemma SomeBit(cmdBits: nat, reqs: seq<Req>)
    requires BitsFor(cmdBits, reqs) && 0 < cmdBits < 4
    ensures reqs != []
  {
    assert Bit(cmdBits, 0) || Bit(cmdBits, 1);
    if Bit(cmdBits, 0) {
      assert Needs(reqs, 0);
    } else {
      assert Needs(reqs, 1);
    }
  }

  lemma NoBitsNoRequests(reqs: seq<Req>)
    requires BitsFor(0, reqs)
    ensures reqs == [] && forall cmd: nat :: Gains(cmd, cmd, reqs)
  {
    if reqs != [] {
      FirstNeeds(reqs);
    }
    ZeroHasNoBits(0);
    ZeroHasNoBits(1);
  }

  lemma FirstNeeds(reqs: seq<Req>)
    requires reqs != []
    ensures Needs(reqs, 0) || Needs(reqs, 1)
  {
    assert reqs[0] in reqs;
    assert Needs(reqs, DecodeBit(reqs[0].space));
  }

  /** Everything requested is decoded. */
  lemma GainsDecode(before: nat, after: nat, reqs: seq<Req>)
    requires Gains(before, after, reqs)
    ensures forall r :: r in reqs ==> Bit(after, DecodeBit(r.space)) && Bit(after, 2)
  {
    forall r | r in reqs
      ensures Bit(after, DecodeBit(r.space)) && Bit(after, 2)
    {
      assert Needs(reqs, DecodeBit(r.space));
    }
  }

  /** The command register gains the bit of each space the bridge forwards. */
  function ForwardCommand(cmd: u32, mem: bool, pref: bool, io: bool): nat {
    var c1 := if mem then Or(cmd, CMD_MEM) else cmd;
    var c2 := if pref then Or(c1, CMD_MEM) else c1;
    if io then Or(c2, CMD_IO) else c2
  }

  lemma ForwardCommandBits(cmd: u32, mem: bool, pref: bool, io: bool)
    ensures ForwardCommand(cmd, mem, pref, io) < 0x1_0000_0000
    ensures forall k: nat :: Bit(ForwardCommand(cmd, mem, pref, io), k) <==>
      Bit(cmd, k) || (k == 1 && (mem || pref)) || (k == 0 && io)
  {
    hide Or;
    Pow32();
    var c1 := if mem then Or(cmd, CMD_MEM) else cmd;
    var c2 := if pref then Or(c1, CMD_MEM) else c1;
    OrBound(cmd, CMD_MEM, 32);
    OrBound(c1, CMD_MEM, 32);
    OrBound(c2, CMD_IO, 32);
    forall k: nat
      ensures Bit(ForwardCommand(cmd, mem, pref, io), k) <==>
        Bit(cmd, k) || (k == 1 && (mem || pref)) || (k == 0 && io)
    {
      OneBits(k);
      BitOfOr(cmd, CMD_MEM, k);
      BitOfOr(c1, CMD_MEM, k);
      BitOfOr(c2, CMD_IO, k);
    }
  }

  lemma OneBits(k: nat)
    ensures Bit(CMD_IO, k) <==> k == 0
    ensures Bit(CMD_MEM, k) <==> k == 1
  {
    assert Pow2(1) == 2 && Pow2(2) == 4;
    if k >= 1 {
      NoHighBits(1, 1, k);
    }
    if k >= 2 {
      NoHighBits(2, 2, k);
    }
  }

  // ---------- the part of a bus walked so far ----------

  /** A reached function below slot i of bus p. */
  ghost predicate Done(root: seq<Slot>, p: Path, i: nat, g: Path) {
    Above(p, g) && Reached(root, g) && g[|p|] < i
  }

  ghost predicate Untouched(c: Config, d: Config, g: Path) {
    forall x: Reg :: Val(d, g, x) == Val(c, g, x)
  }

  ghost predicate OnlyDone(c: Config, d: Config, root: seq<Slot>, p: Path, i: nat) {
    forall g :: Done(root, p, i, g) || Untouched(c, d, g)
  }

  ghost predicate AllDone(cfg: Config, root: seq<Slot>, p: Path, i: nat) {
    forall g :: Done(root, p, i, g) ==> Programmed(cfg, root, g)
  }

  /** No bridge below slots from i on of bus p claims anything yet. */
  ghost predicate Quiet(cfg: Config, root: seq<Slot>, p: Path, i: nat) {
    forall q :: QuietAt(cfg, root, p, i, q)
  }

  ghost predicate QuietAt(cfg: Config, root: seq<Slot>, p: Path, i: nat, q: Path) {
    Above(p, q) && q[|p|] >= i && IsBridgeAt(root, q) ==> forall t :: t > 0 ==> !Claims(cfg, q, t)
  }

  /** The same three, for the single function f and everything below it. */
  ghost predicate OnlyUnder(c: Config, d: Config, root: seq<Slot>, f: Path) {
    forall g :: (OnPath(f, g) && Reached(root, g)) || Untouched(c, d, g)
  }

  ghost predicate AllUnder(cfg: Config, root: seq<Slot>, f: Path) {
    forall g :: OnPath(f, g) && Reached(root, g) ==> Programmed(cfg, root, g)
  }

  ghost predicate QuietUnder(cfg: Config, root: seq<Slot>, f: Path) {
    forall q :: QuietUnderAt(cfg, root, f, q)
  }

  ghost predicate QuietUnderAt(cfg: Config, root: seq<Slot>, f: Path, q: Path) {
    OnPath(f, q) && IsBridgeAt(root, q) ==> forall t :: t > 0 ==> !Claims(cfg, q, t)
  }

  lemma QuietChild(c: Config, d: Config, root: seq<Slot>, p: Path, i: nat, f: Path)
    requires Quiet(c, root, p, i) && OnlyDone(c, d, root, p, i) && f == p + [i]
    ensures QuietUnder(d, root, f)
  {
    forall q
      ensures QuietUnderAt(d, root, f, q)
    {
      if OnPath(f, q) {
        ChildOf(p, i, f, q);
        assert QuietAt(c, root, p, i, q);
        assert Done(root, p, i, q) || Untouched(c, d, q);
        if IsBridgeAt(root, q) {
          forall t | t > 0 ensures !Claims(d, q, t) {
            assert !Claims(c, q, t);
          }
        }
      }
    }
  }

  lemma ChildOf(p: Path, i: nat, f: Path, g: Path)
    requires f == p + [i]
    ensures OnPath(f, g) <==> Above(p, g) && g[|p|] == i
  {
    if |g| > |p| {
      assert g[..|p| + 1] == g[..|p|] + [g[|p|]];
      if |g| == |p| + 1 {
        assert g[..|p| + 1] == g;
      }
    }
  }

  /** Walking the function in slot i moves the bus on by one slot. */
  lemma SlotDone(c0: Config, c: Config, d: Config, root: seq<Slot>, p: Path, i: nat, f: Path)
    requires f == p + [i]
    requires OnlyDone(c0, c, root, p, i) && AllDone(c, root, p, i)
    requires OnlyUnder(c, d, root, f) && AllUnder(d, root, f)
    ensures OnlyDone(c0, d, root, p, i + 1) && AllDone(d, root, p, i + 1)
  {
    forall g
      ensures Done(root, p, i + 1, g) || Untouched(c0, d, g)
      ensures Done(root, p, i + 1, g) ==> Programmed(d, root, g)
    {
      ChildOf(p, i, f, g);
      assert Done(root, p, i, g) || Untouched(c0, c, g);
      assert (OnPath(f, g) && Reached(root, g)) || Untouched(c, d, g);
      if Done(root, p, i, g) {
        ProgrammedKept(c, d, root, g);
      }
    }
  }

  /** Slots that are not scanned add nothing. */
  lemma {:induction false} SlotsSkipped(c0: Config, c: Config, root: seq<Slot>, p: Path, i: nat, j: nat)
    requires i <= j <= |BusAt(root, p)|
    requires forall k :: i <= k < j ==> !Scanned(BusAt(root, p), k)
    requires OnlyDone(c0, c, root, p, i) && AllDone(c, root, p, i)
    ensures OnlyDone(c0, c, root, p, j) && AllDone(c, root, p, j)
    ensures AfterBus(BusAt(root, p), j, BusStart(root, p)) == AfterBus(BusAt(root, p), i, BusStart(root, p))
  {
    hide Programmed, Untouched, Reached, Scanned, SlotAt, BusAt, BusStart;
    if i < j {
      SlotsSkipped(c0, c, root, p, i, j - 1);
      forall g
        ensures Done(root, p, j, g) || Untouched(c0, c, g)
        ensures Done(root, p, j, g) ==> Programmed(c, root, g)
      {
        NothingInSlot(root, p, j - 1, g);
        assert Done(root, p, j - 1, g) || Untouched(c0, c, g);
      }
    }
  }

  lemma NothingInSlot(root: seq<Slot>, p: Path, i: nat, g: Path)
    requires i < |BusAt(root, p)| && !Scanned(BusAt(root, p), i)
    ensures Done(root, p, i + 1, g) ==> Done(root, p, i, g)
  {
    if Done(root, p, i + 1, g) {
      ReachedPrefix(root, g, |p| + 1);
      assert Parent(g[..|p| + 1]) == p;
    }
  }

  // ---------- bus numbers along the way ----------

  lemma OpenSame(c: Config, d: Config, root: seq<Slot>, p: Path, b: nat, n: nat)
    requires OpenTo(c, root, p, b, n) && forall q :: SameBuses(c, d, q)
    ensures OpenTo(d, root, p, b, n)
  {
    forall q
      ensures BridgeState(d, root, q, p, b, n)
    {
      assert BridgeState(c, root, q, p, b, n) && SameBuses(c, d, q);
      if IsBridgeAt(root, q) && !OnPath(q, p) {
        forall t | t > 0 && Claims(d, q, t) ensures t < n && t != b {
          assert Claims(c, q, t);
        }
      }
    }
  }

  /** After the bus behind f has been walked, cycles for the bus f is on still reach it. */
  lemma RoutedAbove(c: Config, d: Config, root: seq<Slot>, p: Path, b: nat, n: nat, f: Path, i: nat)
    requires OpenTo(c, root, p, b, n) && ReachedBridge(root, f) && Parent(f) == p && n == SecondaryOf(root, f)
    requires Val(d, f, Secondary) == n
    requires forall g :: g == f || Done(root, f, i, g) || SameBuses(c, d, g)
    requires AllDone(d, root, f, i)
    ensures RoutedTo(d, root, p, b)
  {
    OpenIsRouted(c, root, p, b, n);
    forall q
      ensures SameBuses(c, d, q) || (OnPath(f, q) && Val(d, q, Secondary) > b) || !IsBridgeAt(root, q)
    {
      assert q == f || Done(root, f, i, q) || SameBuses(c, d, q);
      if Done(root, f, i, q) && IsBridgeAt(root, q) {
        SecondaryBelow(root, f, q);
      }
    }
    RoutedStill(c, d, root, p, b, f);
  }

  /** Closing the bridge at f returns the walk to the bus f is on. */
  lemma Closed(c: Config, d: Config, root: seq<Slot>, p: Path, b: nat, f: Path)
    requires OpenTo(c, root, p, b, SecondaryOf(root, f)) && ReachedBridge(root, f) && Parent(f) == p
    requires Fits(root) && OnlyUnder(c, d, root, f) && AllUnder(d, root, f)
    ensures OpenTo(d, root, p, b, Exit(root, f).bus)
  {
    hide SlotAt, BusAt, Exit, OpenTo, SecondaryOf, Programmed, Fits, SubordinateOf;
    var n, m := SecondaryOf(root, f), Exit(root, f).bus;
    BridgeLimits(root, f);
    BridgeBuses(root, f, f);
    forall q
      ensures SameBuses(c, d, q) || ClaimsBetween(d, root, f, q, n, m)
    {
      assert (OnPath(f, q) && Reached(root, q)) || Untouched(c, d, q);
      if OnPath(f, q) && Reached(root, q) && IsBridgeAt(root, q) {
        assert Programmed(d, root, q);
        ProgrammedBuses(d, root, q);
        BridgeBuses(root, f, q);
      }
    }
    Ascend(c, d, root, p, b, n, f, m);
  }

  lemma ProgrammedBuses(cfg: Config, root: seq<Slot>, q: Path)
    requires Programmed(cfg, root, q) && IsBridgeAt(root, q)
    ensures Val(cfg, q, Secondary) == SecondaryOf(root, q) && Val(cfg, q, Subordinate) == SubordinateOf(root, q)
  {}

  /** A bridge at or below f has its bus range within that of f. */
  lemma BridgeBuses(root: seq<Slot>, f: Path, q: Path)
    requires ReachedBridge(root, f) && ReachedBridge(root, q) && OnPath(f, q)
    ensures SecondaryOf(root, f) <= SecondaryOf(root, q) && SubordinateOf(root, q) <= SubordinateOf(root, f)
    ensures SubordinateOf(root, f) == Exit(root, f).bus - 1 && SecondaryOf(root, f) <= Exit(root, f).bus
  {
    WithinBus(root, f);
    if f != q {
      SecondaryBelow(root, f, q);
    }
  }

  /** Everything at a bridge stays within the ranges, and its number fits a byte. */
  lemma BridgeLimits(root: seq<Slot>, f: Path)
    requires Fits(root) && ReachedBridge(root, f)
    ensures Le(Owned(root, f), BusStart(root, f)) && Le(BusStart(root, f), BusEnd(root, f))
    ensures Le(BusEnd(root, f), Exit(root, f))
    ensures var e := Exit(root, f); e.mem <= 0xA000_0000 && e.pref <= 0xC000_0000 && e.io <= 0x1_0000 && e.bus <= 0x100
    ensures BusStart(root, f).bus == SecondaryOf(root, f) + 1 && BusEnd(root, f).bus == Exit(root, f).bus
    ensures 0 < SecondaryOf(root, f) < 0x100
    ensures Exit(root, f) == LeaveBridge(BusStart(root, f), BusEnd(root, f))
  {
    WithinBus(root, f);
    WithinLimits(root, f);
  }

  lemma OwnLimits(root: seq<Slot>, f: Path)
    requires Fits(root) && Reached(root, f)
    ensures AllFit(Requests(SlotAt(root, f)), Entry(root, f))
  {
    WithinBus(root, f);
    WithinLimits(root, f);
  }

  /** What closing the bridge at f leaves of, and adds to, its registers. */
  ghost predicate BridgeClosed(c: Config, d: Config, root: seq<Slot>, f: Path)
    requires f != []
  {
    && WindowsSet(d, f, BusStart(root, f), BusEnd(root, f))
    && ForwardBits(d, root, f)
    && (forall k: nat :: Bit(Val(c, f, Command), k) ==> Bit(Val(d, f, Command), k))
    && Val(d, f, Subordinate) == SubordinateOf(root, f)
    && Val(d, f, Secondary) == Val(c, f, Secondary) && Val(d, f, Primary) == Val(c, f, Primary)
    && (forall x: Reg :: x.BarReg? || x.RomReg? ==> Val(d, f, x) == Val(c, f, x))
    && forall g :: g == f || Untouched(c, d, g)
  }

  /** Opening, walking behind and closing the bridge at f programs everything from f down. */
  lemma BridgeDone(c0: Config, c1: Config, c2: Config, d: Config, root: seq<Slot>, f: Path)
    requires ReachedBridge(root, f) && OwnSet(c0, root, f)
    requires Val(c1, f, Primary) == SecondaryOf(root, Parent(f)) && Val(c1, f, Secondary) == SecondaryOf(root, f)
    requires OnlyKinds(c0, c1, f, 2, 4)
    requires OnlyDone(c1, c2, root, f, |BusAt(root, f)|) && AllDone(c2, root, f, |BusAt(root, f)|)
    requires BridgeClosed(c2, d, root, f)
    ensures OnlyUnder(c0, d, root, f) && AllUnder(d, root, f)
  {
    assert !Above(f, f);
    assert Untouched(c1, c2, f) by { assert Done(root, f, |BusAt(root, f)|, f) || Untouched(c1, c2, f); }
    FunctionKept(c0, c2, d, root, f);
    forall g
      ensures (OnPath(f, g) && Reached(root, g)) || Untouched(c0, d, g)
      ensures OnPath(f, g) && Reached(root, g) ==> Programmed(d, root, g)
    {
      if g != f {
        assert Done(root, f, |BusAt(root, f)|, g) || Untouched(c1, c2, g);
        assert Untouched(c2, d, g);
        if Above(f, g) && Reached(root, g) {
          BelowIsDone(root, f, g);
          ProgrammedKept(c2, d, root, g);
        }
      }
    }
  }

  lemma BelowIsDone(root: seq<Slot>, f: Path, g: Path)
    requires Above(f, g) && Reached(root, g)
    ensures Done(root, f, |BusAt(root, f)|, g)
  {
    ReachedPrefix(root, g, |f| + 1);
    assert Parent(g[..|f| + 1]) == f;
  }

  lemma FunctionKept(c0: Config, c2: Config, d: Config, root: seq<Slot>, f: Path)
    requires ReachedBridge(root, f) && OwnSet(c0, root, f)
    requires forall x: Reg :: x.BarReg? || x.RomReg? || x.Command? ==> Val(c2, f, x) == Val(c0, f, x)
    requires BridgeClosed(c2, d, root, f)
    ensures OwnSet(d, root, f)
  {
    hide SlotAt, Entry, WindowsSet, ForwardBits, Untouched, Bit, BlockSet, Requests, SubordinateOf;
    var s, a := SlotAt(root, f), Entry(root, f);
    forall k | 0 <= k < |Requests(s)|
      ensures BlockSet(d, s, f, a, k)
    {
      assert BlockSet(c0, s, f, a, k);
      BlockSame(c0, d, s, f, a, k);
    }
  }

  /** A block register that has not changed is still set. */
  lemma BlockSame(c: Config, d: Config, s: Slot, f: Path, a: Alloc, k: nat)
    requires s.Fn? && k < |Requests(s)| && BlockSet(c, s, f, a, k)
    requires forall x: Reg :: x.BarReg? || x.RomReg? ==> Val(d, f, x) == Val(c, f, x)
    ensures BlockSet(d, s, f, a, k)
  {
    hide BaseOf, TypeOf;
    RequestRegisters(s.bars, 0);
    assert Requests(s)[k] in Requests(s);
  }

  lemma {:induction false} RequestRegisters(bars: seq<Bar>, j: nat)
    ensures forall r :: r in BarRequests(bars, j) ==> r.reg.BarReg?
    decreases |bars| - j
  {
    if j < |bars| {
      RequestRegisters(bars, j + 1);
      RequestRegisters(bars, j + 2);
    }
  }

  lemma BridgeEntry(cfg: Config, root: seq<Slot>, bus: nat, slot: nat, w: Where)
    requires Linked(cfg, root, bus, slot, w) && Fits(root) && ReachedBridge(root, w.f)
    ensures Parent(w.f) == w.p && Above(w.p, w.f) && IsBridgeAt(root, w.f)
    ensures BusStart(root, w.f) == EnterBridge(Owned(root, w.f))
    ensures Owned(root, w.f).bus == SecondaryOf(root, w.f)
  {
    WithinBus(root, w.f);
  }

  /** The alignment the walk leaves an allocator with, when something was handed out behind the bridge. */
  function Padded(start: u32, end: u32, granule: u32): u32
    requires granule > 0
  {
    if end > start then AlignUp(end, granule) else end
  }

  lemma PaddedPads(start: u32, end: u32, k: nat, granule: u32)
    requires k < 32 && granule == Pow2(k) && Pad(start, end, k) <= 0xC000_0000 && granule <= 0x10_0000
    ensures Padded(start, end, granule) == Pad(start, end, k)
  {
    if end > start {
      AlignUpRounds(end, k, granule);
    }
  }

  lemma WalkClosed(c: Config, c1: Config, d: Config, root: seq<Slot>, f: Path, a: Alloc, e: Alloc)
    requires f != []
    requires a.mem == BusStart(root, f).mem && a.pref == BusStart(root, f).pref && a.io == BusStart(root, f).io
    requires e.mem == BusEnd(root, f).mem && e.pref == BusEnd(root, f).pref && e.io == BusEnd(root, f).io
    requires OnlyKinds(c, c1, f, 5, 6) && WindowsSet(c1, f, a, e)
    requires Val(c1, f, Command) == ForwardCommand(Val(c, f, Command), e.mem > a.mem, e.pref > a.pref, e.io > a.io)
    requires OnlyKinds(c1, d, f, 4, 4) && Val(d, f, Subordinate) == SubordinateOf(root, f)
    ensures BridgeClosed(c, d, root, f)
  {
    hide BusStart, BusEnd, ForwardCommand, WindowsSet, Bit, SubordinateOf, Val;
    var a', e' := BusStart(root, f), BusEnd(root, f);
    ForwardCommandBits(Val(c, f, Command), e.mem > a.mem, e.pref > a.pref, e.io > a.io);
    WindowsKept(c1, d, f, a, e, a', e');
    OnlyKindsTrans(c, c1, d, f, 5, 6, 4, 4, 4, 6);
    forall s: Space | e'.Get(s) > a'.Get(s)
      ensures Bit(Val(d, f, Command), DecodeBit(s))
    {
      assert s.Mem? || s.Pref? || s.Io?;
    }
    assert forall g :: g == f || Untouched(c, d, g);
  }

  /** What the walk knows when it comes back to a bridge. */
  lemma CloseFacts(root: seq<Slot>, f: Path, a: Alloc, e: Alloc)
    requires Fits(root) && ReachedBridge(root, f)
    requires a.mem == BusStart(root, f).mem && a.pref == BusStart(root, f).pref && a.io == BusStart(root, f).io
    requires e.mem == BusEnd(root, f).mem && e.pref == BusEnd(root, f).pref && e.io == BusEnd(root, f).io
    ensures var x, l := Exit(root, f), LeaveBridge(a, e);
            && l.mem == x.mem <= 0xC000_0000 && l.pref == x.pref <= 0xC000_0000 && l.io == x.io <= 0xC000_0000
            && x.bus == BusEnd(root, f).bus
    ensures 0 < BusEnd(root, f).bus <= 0x100 && SubordinateOf(root, f) == BusEnd(root, f).bus - 1
  {
    BridgeLimits(root, f);
  }

  lemma WindowsKept(c: Config, d: Config, f: Path, a: Alloc, e: Alloc, a': Alloc, e': Alloc)
    requires WindowsSet(c, f, a, e)
    requires a'.mem == a.mem && a'.pref == a.pref && a'.io == a.io && e'.mem == e.mem
    requires e'.pref == e.pref && e'.io == e.io
    requires OnlyKinds(c, d, f, 4, 5)
    ensures WindowsSet(d, f, a', e')
  {}

  /** The last bus number taken, in 8-bit arithmetic. */
  function Highest(nextBus: u8): u8 {
    (nextBus + 0xFF) % 0x100
  }

  lemma HighestIsLast(bus: nat)
    requires 0 < bus <= 0x100
    ensures Highest(Byte(bus)) == bus - 1
  {}

  // ---------- the walk as a whole ----------

  /** The walk stands on bus p, numbered bus, with n the next free number. */
  ghost predicate OnBus(cfg: Config, root: seq<Slot>, p: Path, bus: nat, n: nat) {
    && WellFormedBus(root) && Fits(root) && BarsHold(cfg, root)
    && (p == [] || ReachedBridge(root, p)) && bus == SecondaryOf(root, p)
    && OpenTo(cfg, root, p, bus, n)
  }

  ghost predicate IsChild(root: seq<Slot>, p: Path, slot: nat, w: Where) {
    && w.p == p && w.f == p + [slot] && w.s == SlotAt(root, w.f)
    && slot < |BusAt(root, p)| && (w.s.Fn? ==> Scanned(BusAt(root, p), slot))
  }

  lemma ChildReached(cfg: Config, root: seq<Slot>, p: Path, bus: nat, n: nat, slot: nat, w: Where)
    requires OnBus(cfg, root, p, bus, n) && IsChild(root, p, slot, w)
    ensures RoutedTo(cfg, root, p, bus) && w.f != [] && Parent(w.f) == p && SlotAt(root, p + [slot]) == w.s
    ensures SlotAt(root, w.f) == w.s && w.f == p + [slot]
    ensures w.s.Fn? ==> Reached(root, w.f) && WellFormedFn(w.s) && Linked(cfg, root, bus, slot, w)
    ensures w.s.Fn? ==> slot < |BusAt(root, p)| && w.s == BusAt(root, p)[slot] && w.s.vendor != VENDOR_INVALID
    ensures w.s.Fn? ==> Owned(root, w.f) == AfterReqs(Requests(w.s), |Requests(w.s)|, Entry(root, w.f))
    ensures w.s.Fn? ==> Owned(root, w.f).bus == Entry(root, w.f).bus
    ensures w.s.Fn? ==> AllFit(Requests(w.s), Entry(root, w.f)) && Entry(root, w.f).bus == SecondaryOf(root, w.f)
    ensures w.s.Empty? ==> Exit(root, w.f) == Entry(root, w.f) && !Reached(root, w.f)
    ensures BusAt(root, w.f) == if w.s.IsBridge() then w.s.secondary else []
  {
    OpenIsRouted(cfg, root, p, bus, n);
    assert Parent(w.f) == p && Last(w.f) == slot;
    if w.s.Fn? {
      WellFormedBelow(root, w.f);
      assert |w.f| > 1 ==> p != [];
      OwnLimits(root, w.f);
      WithinBus(root, w.f);
    }
  }

  /** A function that is not there leaves nothing to do. */
  lemma EmptyDone(cfg: Config, root: seq<Slot>, f: Path)
    requires f != [] && SlotAt(root, f).Empty?
    ensures OnlyUnder(cfg, cfg, root, f) && AllUnder(cfg, root, f)
  {
    forall g
      ensures !(OnPath(f, g) && Reached(root, g)) && Untouched(cfg, cfg, g)
    {
      if OnPath(f, g) && Reached(root, g) {
        assert g[..|f|] == f;
        ReachedPrefix(root, g, |f|);
      }
    }
  }

  /** Address registers and the command register say nothing about buses. */
  lemma StillOnBus(c: Config, d: Config, root: seq<Slot>, p: Path, bus: nat, n: nat, f: Path)
    requires OnBus(c, root, p, bus, n) && BarsHold(d, root) && (OnlyKinds(c, d, f, 1, 1) || OnlyKinds(c, d, f, 5, 5))
    ensures OnBus(d, root, p, bus, n)
  {
    hide WellFormedBus, Fits, BarsHold, ReachedBridge, SecondaryOf, OpenTo;
    assert forall q :: SameBuses(c, d, q);
    OpenSame(c, d, root, p, bus, n);
  }

  lemma OwnIsSet(c: Config, d: Config, root: seq<Slot>, w: Where)
    requires w.f != [] && w.s == SlotAt(root, w.f) && w.s.Fn?
    requires BlocksSet(c, w.s, w.f, Entry(root, w.f), |Requests(w.s)|)
    requires OnlyKinds(c, d, w.f, 5, 5) && OwnBits(d, w.s, w.f)
    ensures OwnSet(d, root, w.f)
  {
    hide SlotAt, Entry, OwnBits, BlockSet, Requests;
    var s, f, a := w.s, w.f, Entry(root, w.f);
    forall k | 0 <= k < |Requests(s)|
      ensures BlockSet(d, s, f, a, k)
    {
      assert BlockSet(c, s, f, a, k);
      BlockSame(c, d, s, f, a, k);
    }
  }

  /** A function that is no bridge is finished once its own registers are set. */
  lemma EndpointDone(c: Config, d: Config, root: seq<Slot>, f: Path)
    requires Reached(root, f) && !SlotAt(root, f).IsBridge() && OwnSet(d, root, f)
    requires OnlyKinds(c, d, f, 1, 5)
    ensures OnlyUnder(c, d, root, f) && AllUnder(d, root, f)
    ensures Exit(root, f) == Owned(root, f)
  {
    forall g
      ensures OnPath(f, g) && Reached(root, g) ==> g == f
      ensures g == f || Untouched(c, d, g)
    {
      if OnPath(f, g) && Reached(root, g) && g != f {
        assert g[..|f|] == f;
        ReachedPrefix(root, g, |f|);
      }
    }
  }

  /** Changes to f before its bridge is opened, then everything under f. */
  lemma UnderTrans(c: Config, d: Config, e: Config, root: seq<Slot>, f: Path)
    requires Reached(root, f) && OnlyKinds(c, d, f, 1, 5) && OnlyUnder(d, e, root, f)
    ensures OnlyUnder(c, e, root, f)
  {
    hide Reached;
    assert OnPath(f, f);
    forall g
      ensures (OnPath(f, g) && Reached(root, g)) || Untouched(c, e, g)
    {
      assert (OnPath(f, g) && Reached(root, g)) || Untouched(d, e, g);
    }
  }

  lemma QuietBehind(c: Config, d: Config, root: seq<Slot>, f: Path)
    requires QuietUnder(c, root, f) && OnlyKinds(c, d, f, 1, 5)
    ensures Quiet(d, root, f, 0)
  {
    forall q
      ensures QuietAt(d, root, f, 0, q)
    {
      assert QuietUnderAt(c, root, f, q);
      if Above(f, q) && IsBridgeAt(root, q) {
        forall t | t > 0 ensures !Claims(d, q, t) {
          assert !Claims(c, q, t);
        }
      }
    }
  }

  /** Coming back from behind f: cycles for (bus, slot) reach f again. */
  lemma BackAtBridge(c0: Config, c1: Config, c2: Config, root: seq<Slot>, bus: nat, n: nat, slot: nat, w: Where)
    requires OnBus(c0, root, w.p, bus, n) && Linked(c0, root, bus, slot, w) && ReachedBridge(root, w.f)
    requires n == SecondaryOf(root, w.f) && OnlyKinds(c0, c1, w.f, 2, 4) && Val(c1, w.f, Secondary) == n
    requires OnlyDone(c1, c2, root, w.f, |BusAt(root, w.f)|) && AllDone(c2, root, w.f, |BusAt(root, w.f)|)
    requires BarsHold(c2, root)
    ensures Linked(c2, root, bus, slot, w)
  {
    var f, i := w.f, |BusAt(root, w.f)|;
    hide BarsHold, WellFormedBus, Fits, Reached, BusAt, OpenTo, RoutedTo, Programmed;
    LinkedFn(c0, root, bus, slot, w);
    forall g
      ensures g == f || Done(root, f, i, g) || SameBuses(c0, c2, g)
    {
      assert Done(root, f, i, g) || Untouched(c1, c2, g);
    }
    assert Done(root, f, i, f) || Untouched(c1, c2, f);
    RoutedAbove(c0, c2, root, w.p, bus, n, f, i);
  }

  lemma BehindBridge(c0: Config, c1: Config, root: seq<Slot>, bus: nat, n: nat, slot: nat, w: Where)
    requires OnBus(c0, root, w.p, bus, n) && Linked(c0, root, bus, slot, w) && ReachedBridge(root, w.f)
    requires n == SecondaryOf(root, w.f) && OnlyKinds(c0, c1, w.f, 2, 4)
    requires OpenTo(c1, root, w.f, n, n + 1) && BarsHold(c1, root) && Quiet(c0, root, w.f, 0)
    ensures OnBus(c1, root, w.f, n, n + 1) && Quiet(c1, root, w.f, 0) && |BusAt(root, w.f)| == SLOTS
  {
    WellFormedBelow(root, w.f);
    forall q
      ensures QuietAt(c1, root, w.f, 0, q)
    {
      assert QuietAt(c0, root, w.f, 0, q);
      if Above(w.f, q) && IsBridgeAt(root, q) {
        forall t | t > 0 ensures !Claims(c1, q, t) {
          assert !Claims(c0, q, t);
        }
      }
    }
  }

  lemma NothingDone(cfg: Config, root: seq<Slot>, p: Path)
    ensures OnlyDone(cfg, cfg, root, p, 0) && AllDone(cfg, root, p, 0)
    ensures AfterBus(BusAt(root, p), 0, BusStart(root, p)) == BusStart(root, p)
  {}

  /** Slot i of bus p is next; everything below it has been programmed since registers c0. */
  ghost predicate Walked(c0: Config, cfg: Config, root: seq<Slot>, p: Path, bus: nat, i: nat) {
    && i <= |BusAt(root, p)| == SLOTS
    && OnBus(cfg, root, p, bus, AfterBus(BusAt(root, p), i, BusStart(root, p)).bus)
    && Quiet(c0, root, p, 0)
    && OnlyDone(c0, cfg, root, p, i) && AllDone(cfg, root, p, i)
  }

  ghost function WhereIs(root: seq<Slot>, p: Path, i: nat): Where {
    Where(p, p + [i], SlotAt(root, p + [i]))
  }

  /** Standing before slot i. */
  lemma AtSlot(c0: Config, cfg: Config, root: seq<Slot>, p: Path, bus: nat, i: nat)
    requires Walked(c0, cfg, root, p, bus, i) && i < SLOTS
    ensures var w := WhereIs(root, p, i);
            && Entry(root, w.f) == AfterBus(BusAt(root, p), i, BusStart(root, p))
            && Exit(root, w.f) == AfterBus(BusAt(root, p), i + 1, BusStart(root, p))
            && w.s == BusAt(root, p)[i] && QuietUnder(cfg, root, w.f)
            && RoutedTo(cfg, root, p, bus)
            && (w.s.Fn? ==> w.s.vendor != VENDOR_INVALID && Linked(cfg, root, bus, i, w))
  {
    var w := WhereIs(root, p, i);
    assert Parent(w.f) == p && Last(w.f) == i;
    QuietLater(c0, root, p, i);
    QuietChild(c0, cfg, root, p, i, w.f);
    OpenIsRouted(cfg, root, p, bus, AfterBus(BusAt(root, p), i, BusStart(root, p)).bus);
    WellFormedBelow(root, w.f);
  }

  lemma QuietLater(cfg: Config, root: seq<Slot>, p: Path, i: nat)
    requires Quiet(cfg, root, p, 0)
    ensures Quiet(cfg, root, p, i)
  {
    forall q
      ensures QuietAt(cfg, root, p, i, q)
    {
      assert QuietAt(cfg, root, p, 0, q);
    }
  }

  lemma NextSlot(c0: Config, c: Config, d: Config, root: seq<Slot>, p: Path, bus: nat, i: nat)
    requires Walked(c0, c, root, p, bus, i) && i < SLOTS
    requires OnBus(d, root, p, bus, Exit(root, p + [i]).bus)
    requires OnlyUnder(c, d, root, p + [i]) && AllUnder(d, root, p + [i])
    ensures Walked(c0, d, root, p, bus, i + 1)
  {
    AtSlot(c0, c, root, p, bus, i);
    SlotDone(c0, c, d, root, p, i, p + [i]);
  }

  lemma SkipSlots(c0: Config, c: Config, root: seq<Slot>, p: Path, bus: nat, i: nat, j: nat)
    requires Walked(c0, c, root, p, bus, i) && i <= j <= SLOTS
    requires forall k :: i <= k < j ==> !Scanned(BusAt(root, p), k)
    ensures Walked(c0, c, root, p, bus, j)
    ensures AfterBus(BusAt(root, p), j, BusStart(root, p)) == AfterBus(BusAt(root, p), i, BusStart(root, p))
  {
    SlotsSkipped(c0, c, root, p, i, j);
  }

  /** Which functions of the device at slot are scanned. */
  lemma DeviceSlots(bus: seq<Slot>, slot: nat)
    requires slot % 8 == 0 && slot + 8 <= |bus|
    ensures bus[slot].Empty? ==> forall k :: slot <= k < slot + 8 ==> !Scanned(bus, k)
    ensures bus[slot].Fn? ==> Scanned(bus, slot)
    ensures bus[slot].Fn? && !bus[slot].IsMultiFunction() ==> forall k :: slot < k < slot + 8 ==> !Scanned(bus, k)
    ensures bus[slot].IsMultiFunction() ==> forall k :: slot <= k < slot + 8 && bus[k].Fn? ==> Scanned(bus, k)
  {
    forall k | slot <= k < slot + 8
      ensures k / 8 * 8 == slot
    {
      DeviceOf(slot / 8, k);
    }
  }

  lemma DeviceOf(dev: nat, k: nat)
    requires 8 * dev <= k < 8 * dev + 8
    ensures k / 8 * 8 == 8 * dev
  {}

  /** At the start no bridge claims anything, so the walk stands on bus 0. */
  lemma WalkStarts(cfg: Config, root: seq<Slot>)
    requires WellFormedBus(root) && Fits(root) && BarsHold(cfg, root) && Quiet(cfg, root, [], 0)
    ensures OnBus(cfg, root, [], 0, 1) && BusStart(root, []) == START && |BusAt(root, [])| == SLOTS
  {
    var b, n := 0, 1;
    forall q
      ensures BridgeState(cfg, root, q, [], b, n)
    {
      if IsBridgeAt(root, q) {
        assert QuietAt(cfg, root, [], 0, q) && Above([], q);
      }
    }
  }

  lemma WalkEnds(c0: Config, cfg: Config, root: seq<Slot>)
    requires OnlyDone(c0, cfg, root, [], |BusAt(root, [])|) && AllDone(cfg, root, [], |BusAt(root, [])|)
    ensures forall f :: Reached(root, f) ==> Programmed(cfg, root, f)
    ensures forall f :: Reached(root, f) || Untouched(c0, cfg, f)
  {
    forall f
      ensures Reached(root, f) ==> Programmed(cfg, root, f)
      ensures Reached(root, f) || Untouched(c0, cfg, f)
    {
      assert Done(root, [], |BusAt(root, [])|, f) || Untouched(c0, cfg, f);
      if Reached(root, f) {
        assert Above([], f);
        BelowIsDone(root, [], f);
      }
    }
  }
}
