/**
 Properties of the layout over a whole tree: BAR ranges are disjoint and
 aligned, bridge windows are nested exactly as the bridges are, and bus
 numbers name subtrees.
 */
module PciLayout {
  import opened Bits
  import opened PciHardware
  import opened PciPlan

  // ---------- positions in the tree ----------

  lemma ReachedPrefix(root: seq<Slot>, f: Path, n: nat)
    requires Reached(root, f) && 0 < n <= |f|
    ensures Reached(root, f[..n])
    ensures n < |f| ==> ReachedBridge(root, f[..n])
  {
    if n < |f| {
      ReachedPrefix(root, Parent(f), n);
      assert Parent(f)[..n] == f[..n];
    } else {
      assert f[..n] == f;
    }
  }

  /** Two paths, neither above the other, part at some position. */
  lemma Fork(f: Path, g: Path) returns (n: nat)
    requires f != g && !Above(f, g) && !Above(g, f)
    ensures n < |f| && n < |g| && f[..n] == g[..n] && f[n] != g[n]
  {
    n := 0;
    while n < |f| && n < |g| && f[n] == g[n]
      invariant n <= |f| && n <= |g| && f[..n] == g[..n]
    {
      n := n + 1;
    }
    assert f[..|f|] == f && g[..|g|] == g;
  }

  /** A function lies within its bus. */
  lemma WithinBus(root: seq<Slot>, f: Path)
    requires Reached(root, f)
    ensures Le(BusStart(root, Parent(f)), Entry(root, f))
    ensures Le(Entry(root, f), Owned(root, f)) && Le(Owned(root, f), Exit(root, f))
    ensures SlotAt(root, f).IsBridge() ==> Le(Owned(root, f), BusStart(root, f))
    ensures SlotAt(root, f).IsBridge() ==> Le(BusStart(root, f), BusEnd(root, f))
    ensures SlotAt(root, f).IsBridge() ==> Exit(root, f) == LeaveBridge(BusStart(root, f), BusEnd(root, f))
    ensures Le(Exit(root, f), BusEnd(root, Parent(f)))
    ensures Owned(root, f).bus == Entry(root, f).bus
  {
    var bus, i, start := BusAt(root, Parent(f)), Last(f), BusStart(root, Parent(f));
    BusFromStart(bus, i, start);
    BusMonotone(bus, i + 1, |bus|, start);
    EntryExit(root, f);
    hide BusAt, SlotAt, AfterBus, AfterReqs, AfterSlot, Scanned, Requests, Low, Pow2, RoundUp, Entry, Exit, BusStart,
      BusEnd, Owned;
    ReqsFromStart(Requests(bus[i]), Entry(root, f));
    if bus[i].IsBridge() {
      BusFromStart(BusAt(root, f), |BusAt(root, f)|, BusStart(root, f));
      BridgeLe(Owned(root, f), BusEnd(root, f));
    } else {
      LeTrans(Entry(root, f), Owned(root, f), Exit(root, f));
    }
  }

  lemma LeTrans(a: Alloc, b: Alloc, c: Alloc)
    ensures Le(a, b) && Le(b, c) ==> Le(a, c)
  {}

  lemma BridgeLe(own: Alloc, end: Alloc)
    requires Le(EnterBridge(own), end)
    ensures Le(own, EnterBridge(own)) && Le(end, LeaveBridge(EnterBridge(own), end))
    ensures Le(own, LeaveBridge(EnterBridge(own), end))
  {}

  /** The definitions of entry and exit, spelled out for a reached function. */
  lemma EntryExit(root: seq<Slot>, f: Path)
    requires Reached(root, f)
    ensures var bus, i, start := BusAt(root, Parent(f)), Last(f), BusStart(root, Parent(f));
            && i < |bus| && SlotAt(root, f) == bus[i] && Scanned(bus, i)
            && Entry(root, f) == AfterBus(bus, i, start)
            && Exit(root, f) == AfterBus(bus, i + 1, start)
            && BusEnd(root, Parent(f)) == AfterBus(bus, |bus|, start)
            && Owned(root, f) == AfterReqs(Requests(bus[i]), |Requests(bus[i])|, Entry(root, f))
            && (if bus[i].IsBridge()
                then
                  && BusStart(root, f) == EnterBridge(Owned(root, f))
                  && BusEnd(root, f) == AfterBus(BusAt(root, f), |BusAt(root, f)|, BusStart(root, f))
                  && Exit(root, f) == LeaveBridge(BusStart(root, f), BusEnd(root, f))
                else Exit(root, f) == Owned(root, f))
  {}

  /** Everything below a bridge lies between the start and the end of its secondary bus. */
  lemma {:induction false} WithinAncestor(root: seq<Slot>, q: Path, g: Path)
    requires Reached(root, g) && Above(q, g)
    ensures Le(BusStart(root, q), Entry(root, g)) && Le(Exit(root, g), BusEnd(root, q))
    decreases |g|
  {
    hide SlotAt, BusAt, AfterBus, AfterReqs, AfterSlot, Requests, Reached, Entry, Exit, BusStart, BusEnd, Owned;
    WithinBus(root, g);
    if |q| == |g| - 1 {
      assert q == Parent(g);
    } else {
      var p := Parent(g);
      assert p[..|q|] == q;
      ReachedPrefix(root, g, |g| - 1);
      WithinBus(root, p);
      WithinAncestor(root, q, p);
    }
  }

  lemma WithinSelfOrAncestor(root: seq<Slot>, q: Path, g: Path)
    requires Reached(root, g) && q != [] && (q == g || Above(q, g))
    ensures Le(Entry(root, q), Entry(root, g)) && Le(Exit(root, g), Exit(root, q))
  {
    hide SlotAt, BusAt, AfterBus, AfterReqs, AfterSlot, Requests, Reached, Entry, Exit, BusStart, BusEnd, Owned;
    if q != g {
      WithinAncestor(root, q, g);
      ReachedPrefix(root, g, |q|);
      WithinBus(root, q);
    }
  }

  lemma SiblingOrder(root: seq<Slot>, f: Path, g: Path)
    requires Reached(root, f) && Reached(root, g) && Parent(f) == Parent(g) && Last(f) < Last(g)
    ensures Le(Exit(root, f), Entry(root, g))
  {
    BusMonotone(BusAt(root, Parent(f)), Last(f) + 1, Last(g), BusStart(root, Parent(f)));
  }

  lemma SelfOrAbove(f: Path, n: nat)
    requires 0 < n <= |f|
    ensures f[..n] == f || Above(f[..n], f)
  {
    if n == |f| {
      assert f[..n] == f;
    }
  }

  lemma BranchOrder(root: seq<Slot>, f: Path, g: Path, n: nat)
    requires Reached(root, f) && Reached(root, g)
    requires n < |f| && n < |g| && f[..n] == g[..n] && f[n] < g[n]
    ensures Le(Exit(root, f), Entry(root, g))
  {
    hide SlotAt, BusAt, AfterBus, AfterReqs, AfterSlot, Requests, Reached, Entry, Exit, BusStart, BusEnd, Owned;
    var fi, gj := f[..n + 1], g[..n + 1];
    ReachedPrefix(root, f, n + 1);
    ReachedPrefix(root, g, n + 1);
    assert Parent(fi) == f[..n] && Parent(gj) == g[..n];
    SiblingOrder(root, fi, gj);
    SelfOrAbove(f, n + 1);
    WithinSelfOrAncestor(root, fi, f);
    SelfOrAbove(g, n + 1);
    WithinSelfOrAncestor(root, gj, g);
  }

  /** Unrelated functions occupy allocator intervals one after the other. */
  lemma Sequential(root: seq<Slot>, f: Path, g: Path)
    requires Reached(root, f) && Reached(root, g) && f != g && !Above(f, g) && !Above(g, f)
    ensures Le(Exit(root, f), Entry(root, g)) || Le(Exit(root, g), Entry(root, f))
  {
    hide SlotAt, BusAt, AfterBus, AfterReqs, AfterSlot, Requests, Reached, Entry, Exit, BusStart, BusEnd, Owned;
    var n := Fork(f, g);
    if f[n] < g[n] {
      BranchOrder(root, f, g, n);
    } else {
      BranchOrder(root, g, f, n);
    }
  }

  // ---------- BAR ranges ----------

  /** A range is inside the interval of its function. */
  lemma RangeWithin(root: seq<Slot>, f: Path, k: nat)
    requires Reached(root, f) && k < |Requests(SlotAt(root, f))|
    ensures var s := Requests(SlotAt(root, f))[k].space;
            Entry(root, f).Get(s) <= Base(root, f, k) && Top(root, f, k) <= Owned(root, f).Get(s)
  {
    var reqs := Requests(SlotAt(root, f));
    ReqsMonotone(reqs, 0, k, Entry(root, f));
    ReqsMonotone(reqs, k + 1, |reqs|, Entry(root, f));
  }

  ghost predicate RangesApart(root: seq<Slot>, f: Path, k: nat, g: Path, l: nat)
    requires f != [] && k < |Requests(SlotAt(root, f))|
    requires g != [] && l < |Requests(SlotAt(root, g))|
  {
    Top(root, f, k) <= Base(root, g, l) || Top(root, g, l) <= Base(root, f, k)
  }

  lemma SameFunctionApart(root: seq<Slot>, f: Path, k: nat, l: nat)
    requires Reached(root, f) && k < l < |Requests(SlotAt(root, f))|
    requires Requests(SlotAt(root, f))[k].space == Requests(SlotAt(root, f))[l].space
    ensures Top(root, f, k) <= Base(root, f, l)
  {
    ReqsMonotone(Requests(SlotAt(root, f)), k + 1, l, Entry(root, f));
  }

  /** A function's own ranges end before its secondary bus begins. */
  lemma AncestorApart(root: seq<Slot>, f: Path, k: nat, g: Path)
    requires Reached(root, f) && Reached(root, g) && Above(f, g) && k < |Requests(SlotAt(root, f))|
    ensures Top(root, f, k) <= Entry(root, g).Get(Requests(SlotAt(root, f))[k].space)
  {
    hide SlotAt, BusAt, AfterBus, AfterReqs, AfterSlot, Entry, Exit, BusStart, BusEnd, Owned, Base;
    RangeWithin(root, f, k);
    ReachedPrefix(root, g, |f|);
    WithinBus(root, f);
    WithinAncestor(root, f, g);
  }

  /** Any two blocks handed out in one space are disjoint, whichever functions they belong to. */
  lemma RangesDisjoint(root: seq<Slot>, f: Path, k: nat, g: Path, l: nat)
    requires Reached(root, f) && k < |Requests(SlotAt(root, f))|
    requires Reached(root, g) && l < |Requests(SlotAt(root, g))|
    requires Requests(SlotAt(root, f))[k].space == Requests(SlotAt(root, g))[l].space
    requires f != g || k != l
    ensures RangesApart(root, f, k, g, l)
  {
    hide SlotAt, BusAt, AfterBus, AfterReqs, AfterSlot, Requests, Reached, Entry, Exit, BusStart, BusEnd, Owned;
    if f == g {
      SameFunctionApart(root, f, if k < l then k else l, if k < l then l else k);
    } else if Above(f, g) {
      AncestorApart(root, f, k, g);
      RangeWithin(root, g, l);
    } else if Above(g, f) {
      AncestorApart(root, g, l, f);
      RangeWithin(root, f, k);
    } else {
      Sequential(root, f, g);
      RangeWithin(root, f, k);
      RangeWithin(root, g, l);
      WithinBus(root, f);
      WithinBus(root, g);
    }
  }

  /** Every block is naturally aligned. */
  lemma RangeAligned(root: seq<Slot>, f: Path, k: nat)
    requires Reached(root, f) && k < |Requests(SlotAt(root, f))|
    ensures Base(root, f, k) % Pow2(Requests(SlotAt(root, f))[k].order) == 0
  {
    var r := Requests(SlotAt(root, f))[k];
    RoundUpAligned(AfterReqs(Requests(SlotAt(root, f)), k, Entry(root, f)).Get(r.space), r.order);
    LowIsMod(Base(root, f, k), r.order);
  }

  // ---------- bridge windows ----------

  /** A bridge forwards every range of its subtree ... */
  lemma WindowCovers(root: seq<Slot>, f: Path, g: Path, k: nat)
    requires Reached(root, g) && f != [] && Above(f, g) && k < |Requests(SlotAt(root, g))|
    ensures var s := Requests(SlotAt(root, g))[k].space;
            WindowLo(root, f, s) <= Base(root, g, k) && Top(root, g, k) <= WindowHi(root, f, s)
  {
    hide SlotAt, BusAt, AfterBus, AfterReqs, AfterSlot, Requests, Reached, Entry, Exit, BusStart, BusEnd, Owned, Base,
      RoundUp, Pow2;
    RangeWithin(root, g, k);
    WithinBus(root, g);
    WithinAncestor(root, f, g);
    ReachedPrefix(root, g, |f|);
    WithinBus(root, f);
  }

  /** ... and no other. */
  lemma WindowExcludes(root: seq<Slot>, f: Path, g: Path, k: nat)
    requires ReachedBridge(root, f) && Reached(root, g) && !Above(f, g) && k < |Requests(SlotAt(root, g))|
    ensures var s := Requests(SlotAt(root, g))[k].space;
            Top(root, g, k) <= WindowLo(root, f, s) || WindowHi(root, f, s) <= Base(root, g, k)
  {
    hide SlotAt, BusAt, AfterBus, AfterReqs, AfterSlot, Requests, Reached, Entry, Exit, BusStart, BusEnd, Owned, Base,
      RoundUp, Pow2;
    RangeWithin(root, g, k);
    WithinBus(root, f);
    WithinBus(root, g);
    if Above(g, f) {
      AncestorApart(root, g, k, f);
    } else if f != g {
      Sequential(root, f, g);
    }
  }

  /** Windows nest along the tree. */
  lemma WindowsNested(root: seq<Slot>, f: Path, g: Path, s: Space)
    requires ReachedBridge(root, g) && f != [] && Above(f, g)
    ensures WindowLo(root, f, s) <= WindowLo(root, g, s) && WindowHi(root, g, s) <= WindowHi(root, f, s)
  {
    hide SlotAt, BusAt, AfterBus, AfterReqs, AfterSlot, Requests, Reached, Entry, Exit, BusStart, BusEnd, Owned,
      RoundUp;
    WithinAncestor(root, f, g);
    WithinBus(root, g);
    ReachedPrefix(root, g, |f|);
    WithinBus(root, f);
  }

  lemma WindowsDisjoint(root: seq<Slot>, f: Path, g: Path, s: Space)
    requires ReachedBridge(root, f) && ReachedBridge(root, g) && f != g && !Above(f, g) && !Above(g, f)
    ensures WindowHi(root, f, s) <= WindowLo(root, g, s) || WindowHi(root, g, s) <= WindowLo(root, f, s)
  {
    hide SlotAt, BusAt, AfterBus, AfterReqs, AfterSlot, Requests, Reached, Entry, Exit, BusStart, BusEnd, Owned;
    Sequential(root, f, g);
    WithinBus(root, f);
    WithinBus(root, g);
  }

  /** Requests in other spaces leave an allocator where it is. */
  lemma {:induction false} OtherRequests(reqs: seq<Req>, j: nat, k: nat, a: Alloc, s: Space)
    requires j <= k <= |reqs| && forall i :: j <= i < k ==> reqs[i].space != s
    ensures AfterReqs(reqs, k, a).Get(s) == AfterReqs(reqs, j, a).Get(s)
    decreases k
  {
    hide RoundUp, Pow2;
    if j < k {
      OtherRequests(reqs, j, k - 1, a, s);
    }
  }

  /** Nothing below the bridge at f asks for a range in this space. */
  ghost predicate NothingBelow(root: seq<Slot>, f: Path, s: Space) {
    forall g :: Reached(root, g) && Above(f, g) ==> AsksNothing(SlotAt(root, g), s)
  }

  ghost predicate AsksNothing(x: Slot, s: Space) {
    forall i :: 0 <= i < |Requests(x)| ==> Requests(x)[i].space != s
  }

  /** Then no bus below it moves the allocator. */
  lemma {:induction false} NothingMoves(root: seq<Slot>, f: Path, p: Path, n: nat, s: Space)
    requires ReachedBridge(root, p) && (p == f || Above(f, p)) && NothingBelow(root, f, s) && n <= |BusAt(root, p)|
    ensures AfterBus(BusAt(root, p), n, BusStart(root, p)).Get(s) == BusStart(root, p).Get(s)
    decreases BusAt(root, p), n
  {
    hide Requests, AfterReqs, RoundUp, Low, Pow2, Scanned, AsksNothing;
    if n > 0 {
      NothingMoves(root, f, p, n - 1, s);
      var i, g := n - 1, p + [n - 1];
      assert Parent(g) == p && Last(g) == i && Above(f, g);
      if Scanned(BusAt(root, p), i) {
        assert Reached(root, g);
        EntryExit(root, g);
        NoRange(SlotAt(root, g), Entry(root, g), s);
        if SlotAt(root, g).IsBridge() {
          AlignedStart(root, p, s);
          NothingMoves(root, f, g, |BusAt(root, g)|, s);
          StaysAligned(Owned(root, g), s);
        }
      }
    }
  }

  lemma NoRange(x: Slot, a: Alloc, s: Space)
    requires AsksNothing(x, s)
    ensures AfterReqs(Requests(x), |Requests(x)|, a).Get(s) == a.Get(s)
  {
    hide Requests, RoundUp;
    OtherRequests(Requests(x), 0, |Requests(x)|, a, s);
  }

  lemma AlignedStart(root: seq<Slot>, p: Path, s: Space)
    requires p != []
    ensures Low(BusStart(root, p).Get(s), Granule(s)) == 0
  {
    EnterAligned(Owned(root, p), s);
  }

  /** Padding an aligned allocator does nothing. */
  lemma StaysAligned(a: Alloc, s: Space)
    requires Low(a.Get(s), Granule(s)) == 0
    ensures EnterBridge(a).Get(s) == a.Get(s)
  {
    hide Low, Pow2;
  }

  /** Some block below f ends in the granule before x. */
  ghost predicate EndsAt(root: seq<Slot>, f: Path, s: Space, x: nat) {
    exists g, k: nat :: IsBlockBelow(root, f, s, g, k) && RoundUp(Top(root, g, k), Granule(s)) == RoundUp(x, Granule(s))
  }

  ghost predicate IsBlockBelow(root: seq<Slot>, f: Path, s: Space, g: Path, k: nat) {
    Reached(root, g) && Above(f, g) && k < |Requests(SlotAt(root, g))| && Requests(SlotAt(root, g))[k].space == s
  }

  /** x is where the bus behind f started, or follows a block below f. */
  ghost predicate Tight(root: seq<Slot>, f: Path, s: Space, x: nat) {
    x == BusStart(root, f).Get(s) || EndsAt(root, f, s, x)
  }

  /** The allocator never runs ahead of the blocks handed out. */
  lemma {:induction false} StaysTight(root: seq<Slot>, f: Path, p: Path, n: nat, s: Space)
    requires ReachedBridge(root, p) && ReachedBridge(root, f) && (p == f || Above(f, p)) && n <= |BusAt(root, p)|
    requires Tight(root, f, s, BusStart(root, p).Get(s))
    ensures Tight(root, f, s, AfterBus(BusAt(root, p), n, BusStart(root, p)).Get(s))
    decreases BusAt(root, p), n
  {
    hide Requests, AfterReqs, RoundUp, Low, Pow2, Scanned, Tight, EndsAt;
    if n > 0 {
      StaysTight(root, f, p, n - 1, s);
      var i, g := n - 1, p + [n - 1];
      assert Parent(g) == p && Last(g) == i && Above(f, g);
      if Scanned(BusAt(root, p), i) {
        assert Reached(root, g);
        EntryExit(root, g);
        TightRequests(root, f, g, |Requests(SlotAt(root, g))|, s);
        if SlotAt(root, g).IsBridge() {
          TightPadded(root, f, s, Owned(root, g).Get(s));
          EnterIs(Owned(root, g), s);
          StaysTight(root, f, g, |BusAt(root, g)|, s);
          TightPadded(root, f, s, BusEnd(root, g).Get(s));
          LeaveIs(BusStart(root, g), BusEnd(root, g), s);
        }
      }
    }
  }

  lemma {:induction false} TightRequests(root: seq<Slot>, f: Path, g: Path, n: nat, s: Space)
    requires Reached(root, g) && Above(f, g) && n <= |Requests(SlotAt(root, g))|
    requires Tight(root, f, s, Entry(root, g).Get(s))
    ensures Tight(root, f, s, AfterReqs(Requests(SlotAt(root, g)), n, Entry(root, g)).Get(s))
  {
    hide Requests, RoundUp, Pow2;
    if n > 0 {
      TightRequests(root, f, g, n - 1, s);
      if Requests(SlotAt(root, g))[n - 1].space == s {
        assert IsBlockBelow(root, f, s, g, n - 1);
        assert Top(root, g, n - 1) == AfterReqs(Requests(SlotAt(root, g)), n, Entry(root, g)).Get(s);
      }
    }
  }

  lemma TightPadded(root: seq<Slot>, f: Path, s: Space, x: nat)
    requires Tight(root, f, s, x) && f != []
    ensures Tight(root, f, s, RoundUp(x, Granule(s)))
  {
    hide RoundUp, Low, Pow2, IsBlockBelow, Top;
    AlignedStart(root, f, s);
    RoundUpTwice(x, Granule(s));
    RoundUpSame(BusStart(root, f).Get(s), Granule(s));
  }

  lemma RoundUpTwice(x: nat, k: nat)
    ensures RoundUp(RoundUp(x, k), k) == RoundUp(x, k)
  {
    hide Low, Pow2;
    RoundUpAligned(x, k);
  }

  lemma RoundUpSame(x: nat, k: nat)
    requires Low(x, k) == 0
    ensures RoundUp(x, k) == x
  {
    hide Low, Pow2;
  }

  lemma EnterIs(a: Alloc, s: Space)
    ensures EnterBridge(a).Get(s) == RoundUp(a.Get(s), Granule(s))
  {
  }

  lemma LeaveIs(a: Alloc, e: Alloc, s: Space)
    ensures LeaveBridge(a, e).Get(s) == if e.Get(s) > a.Get(s) then RoundUp(e.Get(s), Granule(s)) else e.Get(s)
  {
  }

  /** Two blocks that follow each other in a space are as close as the alignment of the second allows. */
  lemma BlocksPacked(root: seq<Slot>, f: Path, k: nat, l: nat)
    requires Reached(root, f) && k < l < |Requests(SlotAt(root, f))|
    requires var reqs := Requests(SlotAt(root, f));
      reqs[k].space == reqs[l].space && forall i :: k < i < l ==> reqs[i].space != reqs[l].space
    ensures Base(root, f, l) < Top(root, f, k) + Pow2(Requests(SlotAt(root, f))[l].order)
  {
    hide RoundUp, Pow2, Requests;
    var reqs := Requests(SlotAt(root, f));
    OtherRequests(reqs, k + 1, l, Entry(root, f), reqs[l].space);
  }

  lemma EnterAligned(a: Alloc, s: Space)
    ensures Low(EnterBridge(a).Get(s), Granule(s)) == 0
  {
    RoundUpAligned(a.Get(s), Granule(s));
  }

  /** Distinct buses have distinct numbers; bus 0 is the root. */
  lemma SecondariesDistinct(root: seq<Slot>, f: Path, g: Path)
    requires (f == [] || ReachedBridge(root, f)) && (g == [] || ReachedBridge(root, g)) && f != g
    ensures SecondaryOf(root, f) != SecondaryOf(root, g)
  {
    if f == [] || Above(f, g) {
      SecondaryBelow(root, f, g);
    } else if g == [] || Above(g, f) {
      SecondaryBelow(root, g, f);
    } else {
      Sequential(root, f, g);
      WithinBus(root, f);
      WithinBus(root, g);
    }
  }

  lemma SecondaryBelow(root: seq<Slot>, f: Path, g: Path)
    requires ReachedBridge(root, g) && Above(f, g)
    ensures SecondaryOf(root, f) < SecondaryOf(root, g)
    ensures f != [] ==> SecondaryOf(root, g) <= SubordinateOf(root, g) <= SubordinateOf(root, f)
  {
    WithinAncestor(root, f, g);
    WithinBus(root, g);
    if f != [] {
      ReachedPrefix(root, g, |f|);
      WithinBus(root, f);
    }
  }

  /** Some bridge below p has number t, for every t handed out below p. */
  lemma BusNumberUsed(root: seq<Slot>, p: Path, n: nat, t: nat) returns (g: Path)
    requires p == [] || ReachedBridge(root, p)
    requires n <= |BusAt(root, p)|
    requires BusStart(root, p).bus <= t < AfterBus(BusAt(root, p), n, BusStart(root, p)).bus
    ensures ReachedBridge(root, g) && Above(p, g) && SecondaryOf(root, g) == t
    decreases BusAt(root, p), n
  {
    hide SlotAt, BusAt, AfterSlot, Reached, BusStart, SecondaryOf;
    var c := p + [n - 1];
    SlotBounds(root, p, n - 1);
    if t < AfterBus(BusAt(root, p), n - 1, BusStart(root, p)).bus {
      g := BusNumberUsed(root, p, n - 1, t);
    } else {
      NumberComesFrom(root, p, n - 1, t);
      if t == SecondaryOf(root, c) {
        g := c;
      } else {
        g := BusNumberUsed(root, c, |BusAt(root, c)|, t);
        assert g[..|p|] == g[..|c|][..|p|];
      }
    }
  }

  lemma SlotBounds(root: seq<Slot>, p: Path, i: nat)
    requires i < |BusAt(root, p)|
    ensures Entry(root, p + [i]) == AfterBus(BusAt(root, p), i, BusStart(root, p))
    ensures Exit(root, p + [i]) == AfterBus(BusAt(root, p), i + 1, BusStart(root, p))
  {
    assert Parent(p + [i]) == p;
  }

  /** A number taken while walking slot i is the bridge's own or one from behind it. */
  lemma NumberComesFrom(root: seq<Slot>, p: Path, i: nat, t: nat)
    requires p == [] || ReachedBridge(root, p)
    requires i < |BusAt(root, p)|
    requires Entry(root, p + [i]).bus <= t < Exit(root, p + [i]).bus
    ensures ReachedBridge(root, p + [i]) && Above(p, p + [i])
    ensures BusAt(root, p)[i].Fn? && BusAt(root, p + [i]) == BusAt(root, p)[i].secondary
    ensures t == SecondaryOf(root, p + [i]) || BusStart(root, p + [i]).bus <= t < BusEnd(root, p + [i]).bus
  {
    var c := p + [i];
    assert Parent(c) == p && Last(c) == i;
    var reqs := Requests(BusAt(root, p)[i]);
    ReqsMonotone(reqs, 0, |reqs|, Entry(root, c));
  }

  /** [secondary, subordinate] is exactly the set of bus numbers in the subtree. */
  lemma SubtreeBuses(root: seq<Slot>, f: Path, t: nat)
    requires ReachedBridge(root, f)
    ensures SecondaryOf(root, f) <= t <= SubordinateOf(root, f)
       <==> exists g :: ReachedBridge(root, g) && (g == f || Above(f, g)) && SecondaryOf(root, g) == t
  {
    WithinBus(root, f);
    if SecondaryOf(root, f) <= t <= SubordinateOf(root, f) && t != SecondaryOf(root, f) {
      var g := BusNumberUsed(root, f, |BusAt(root, f)|, t);
    }
    forall g | ReachedBridge(root, g) && (g == f || Above(f, g))
      ensures SecondaryOf(root, f) <= SecondaryOf(root, g) <= SubordinateOf(root, f)
    {
      if g != f {
        SecondaryBelow(root, f, g);
      }
    }
  }

  /** Under Fits, every allocator value in the tree is within its range. */
  lemma WithinLimits(root: seq<Slot>, f: Path)
    requires Fits(root) && Reached(root, f)
    ensures Le(START, Entry(root, f)) && Le(Exit(root, f), BusEnd(root, []))
    ensures SlotAt(root, f).IsBridge() ==> Exit(root, f).bus >= Entry(root, f).bus + 1
  {
    assert Above([], f);
    WithinAncestor(root, [], f);
    WithinBus(root, f);
  }
}
