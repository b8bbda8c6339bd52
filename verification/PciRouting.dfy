/**
 Configuration cycles reach the bus the walk means: while buses are being
 numbered, the bridges that claim a bus number are exactly those above it.
 */
module PciRouting {
  import opened Wrappers
  import opened PciHardware

  predicate OnPath(q: Path, p: Path) {
    q == p || Above(q, p)
  }

  ghost predicate IsBus(root: seq<Slot>, p: Path) {
    p == [] || IsBridgeAt(root, p)
  }

  /** Bus number b is claimed by the bridges above bus p, the last of which is its owner, and by no other. */
  ghost predicate RoutedTo(cfg: Config, root: seq<Slot>, p: Path, b: nat) {
    && IsBus(root, p)
    && (p == [] <==> b == 0)
    && forall q :: ClaimsRightly(cfg, root, p, b, q)
  }

  ghost predicate ClaimsRightly(cfg: Config, root: seq<Slot>, p: Path, b: nat, q: Path) {
    IsBridgeAt(root, q) && b > 0 ==>
      && (Claims(cfg, q, b) <==> OnPath(q, p))
      && (OnPath(q, p) ==> (Val(cfg, q, Secondary) == b <==> q == p))
  }

  /**
   The walk is at bus p, number b, and n is the next free number: the bridges
   above p are open up to 0xFF, and no other bridge claims b, or n or beyond.
   */
  ghost predicate OpenTo(cfg: Config, root: seq<Slot>, p: Path, b: nat, n: nat) {
    && IsBus(root, p)
    && (p == [] <==> b == 0)
    && b < n <= 0x100
    && forall q :: BridgeState(cfg, root, q, p, b, n)
  }

  ghost predicate BridgeState(cfg: Config, root: seq<Slot>, q: Path, p: Path, b: nat, n: nat) {
    IsBridgeAt(root, q) ==>
      if OnPath(q, p) then
        && 0 < Val(cfg, q, Secondary) <= b
        && Val(cfg, q, Subordinate) == 0xFF
        && (Val(cfg, q, Secondary) == b <==> q == p)
      else
        forall t :: t > 0 && Claims(cfg, q, t) ==> t < n && t != b
  }

  /** Same bus-number registers at q. */
  predicate SameBuses(c: Config, d: Config, q: Path) {
    Val(c, q, Secondary) == Val(d, q, Secondary) && Val(c, q, Subordinate) == Val(d, q, Subordinate)
  }

  lemma PathBridges(root: seq<Slot>, p: Path, n: nat)
    requires IsBridgeAt(root, p) && 0 < n <= |p|
    ensures IsBridgeAt(root, p[..n])
  {
    if n == |p| {
      assert p[..n] == p;
    } else {
      assert BusAt(root, Parent(p)) != [];
      PathBridges(root, Parent(p), n);
      assert Parent(p)[..n] == p[..n];
    }
  }

  /** A cycle for bus number b is delivered to bus p. */
  lemma RouteReaches(cfg: Config, root: seq<Slot>, p: Path, b: nat)
    requires RoutedTo(cfg, root, p, b)
    ensures Route(cfg, root, b) == Some(p)
  {
    if p != [] {
      assert p[..0] == [];
      RouteReachesFrom(cfg, root, p, b, 0, 0);
    }
  }

  lemma {:induction false} RouteReachesFrom(cfg: Config, root: seq<Slot>, p: Path, b: nat, d: nat, i: nat)
    requires RoutedTo(cfg, root, p, b) && d < |p| && i <= p[d]
    ensures RouteFrom(cfg, BusAt(root, p[..d]), p[..d], i, b) == Some(p)
    decreases |p| - d, p[d] - i
  {
    var here, q := p[..d], p[..d] + [i];
    assert ClaimsRightly(cfg, root, p, b, q);
    assert Parent(q) == here && Last(q) == i;
    PathBridges(root, p, d + 1);
    assert Parent(p[..d + 1]) == here && Last(p[..d + 1]) == p[d];
    if i < p[d] {
      assert p[..d + 1][d] != q[d];
      RouteReachesFrom(cfg, root, p, b, d, i + 1);
    } else {
      assert q == p[..d + 1];
      if d + 1 < |p| {
        RouteReachesFrom(cfg, root, p, b, d + 1, 0);
      }
    }
  }

  lemma OpenIsRouted(cfg: Config, root: seq<Slot>, p: Path, b: nat, n: nat)
    requires OpenTo(cfg, root, p, b, n)
    ensures RoutedTo(cfg, root, p, b)
  {
    forall q
      ensures ClaimsRightly(cfg, root, p, b, q)
    {
      assert BridgeState(cfg, root, q, p, b, n);
    }
  }

  lemma RoutedSame(c: Config, d: Config, root: seq<Slot>, p: Path, b: nat)
    requires RoutedTo(c, root, p, b)
    requires forall q :: SameBuses(c, d, q)
    ensures RoutedTo(d, root, p, b)
  {
    forall q
      ensures ClaimsRightly(d, root, p, b, q)
    {
      assert SameBuses(c, d, q) && ClaimsRightly(c, root, p, b, q);
    }
  }

  /** Changing registers in the subtree of f leaves bus b routed, as long as nothing there claims b. */
  lemma RoutedStill(c: Config, d: Config, root: seq<Slot>, p: Path, b: nat, f: Path)
    requires RoutedTo(c, root, p, b) && Above(p, f)
    requires forall q :: SameBuses(c, d, q) || (OnPath(f, q) && Val(d, q, Secondary) > b) || !IsBridgeAt(root, q)
    ensures RoutedTo(d, root, p, b)
  {
    forall q
      ensures ClaimsRightly(d, root, p, b, q)
    {
      assert ClaimsRightly(c, root, p, b, q);
      assert SameBuses(c, d, q) || (OnPath(f, q) && Val(d, q, Secondary) > b) || !IsBridgeAt(root, q);
      assert OnPath(f, q) ==> !OnPath(q, p);
    }
  }

  /** Opening the bridge at f with number n moves the walk from bus p to the bus behind f. */
  lemma Descend(c: Config, d: Config, root: seq<Slot>, p: Path, b: nat, n: nat, f: Path)
    requires OpenTo(c, root, p, b, n) && n < 0x100
    requires IsBridgeAt(root, f) && Parent(f) == p
    requires forall q :: q != f ==> SameBuses(c, d, q)
    requires Val(d, f, Secondary) == n && Val(d, f, Subordinate) == 0xFF
    ensures OpenTo(d, root, f, n, n + 1)
  {
    assert f != [];
    var m := n + 1;
    forall q
      ensures BridgeState(d, root, q, f, n, m)
    {
      assert BridgeState(c, root, q, p, b, n);
      assert q == f || SameBuses(c, d, q);
      assert OnPath(q, f) <==> q == f || OnPath(q, p) by { PathToChild(q, f); }
      if IsBridgeAt(root, q) && q != f && !OnPath(q, p) {
        forall t | t > 0 && Claims(d, q, t) ensures t < n + 1 && t != n {
          assert Claims(c, q, t);
        }
      }
    }
  }

  lemma PathToChild(q: Path, f: Path)
    requires f != []
    ensures OnPath(q, f) <==> q == f || OnPath(q, Parent(f))
  {
    if |q| < |f| {
      assert f[..|q|] == Parent(f)[..|q|];
      if |q| == |f| - 1 {
        assert f[..|q|] == Parent(f);
      }
    }
  }

  /** A bridge in the subtree of f whose claims all lie in [n, m). */
  ghost predicate ClaimsBetween(cfg: Config, root: seq<Slot>, f: Path, q: Path, n: nat, m: nat) {
    OnPath(f, q) && (IsBridgeAt(root, q) ==> forall t :: t > 0 && Claims(cfg, q, t) ==> n <= t < m)
  }

  /** Once the subtree of f only claims numbers from n up to m, the walk is back at bus p with m next. */
  lemma Ascend(c: Config, d: Config, root: seq<Slot>, p: Path, b: nat, n: nat, f: Path, m: nat)
    requires OpenTo(c, root, p, b, n) && Above(p, f) && n <= m <= 0x100
    requires forall q :: SameBuses(c, d, q) || ClaimsBetween(d, root, f, q, n, m)
    ensures OpenTo(d, root, p, b, m)
  {
    forall q
      ensures BridgeState(d, root, q, p, b, m)
    {
      assert BridgeState(c, root, q, p, b, n);
      assert SameBuses(c, d, q) || ClaimsBetween(d, root, f, q, n, m);
      assert OnPath(f, q) ==> !OnPath(q, p);
      if IsBridgeAt(root, q) && !OnPath(q, p) {
        forall t | t > 0 && Claims(d, q, t) ensures t < m && t != b {
          if SameBuses(c, d, q) {
            assert Claims(c, q, t);
          }
        }
      }
    }
  }
}
