/** FFS directories: hashed buckets of chained headers, against a plain scan of everything. */
module Ffs {
  import opened Bits
  import opened Endian
  import opened Disk

  const T_HEADER: u32 := 2
  const HT_OFFSET: nat := 0x18

  /** An opened volume: block size, International folding, long names. */
  datatype Ffs = Ffs(bsize: nat, intl: bool, lnfs: bool)

  predicate Opened(v: Ffs) {
    v.bsize == 512 || v.bsize == 1024 || v.bsize == 2048 || v.bsize == 4096
  }

  type Blocks = map<nat, seq<u8>>

  function Buckets(v: Ffs): (n: nat)
    requires Opened(v)
    ensures n > 0
  {
    (v.bsize - HT_OFFSET - 200) / 4
  }

  // ---------- names ----------

  function FoldCh(c: u8, intl: bool): u8 {
    if 0x61 <= c <= 0x7A then c - 0x61 + 0x41
    else if intl && 0xE0 <= c <= 0xFE && c != 0xF7 then c - 0x20
    else c
  }

  function Folded(name: seq<u8>, intl: bool): (f: seq<u8>)
    ensures |f| == |name|
  {
    seq(|name|, i requires 0 <= i < |name| => FoldCh(name[i], intl))
  }

  /** The hash before it is reduced to a bucket, from h over folded characters. */
  function HashFrom(h: nat, folded: seq<u8>): nat
    decreases |folded|
  {
    if folded == [] then h else HashFrom((h * 13 + folded[0]) % 0x800, folded[1..])
  }

  function Hash(v: Ffs, name: seq<u8>): (h: nat)
    requires Opened(v)
    ensures h < Buckets(v)
  {
    HashFrom(|name|, Folded(name, v.intl)) % Buckets(v)
  }

  predicate SameName(v: Ffs, a: seq<u8>, b: seq<u8>) {
    Folded(a, v.intl) == Folded(b, v.intl)
  }

  /** Two characters a volume does not tell apart: equal, or the two cases of a letter. */
  predicate SameLetter(x: u8, y: u8, intl: bool) {
    || x == y
    || LowerOf(x, y, intl)
    || LowerOf(y, x, intl)
  }

  /** c is the small letter of C: a to z, and on International volumes also 0xE0 to 0xFE without 0xF7. */
  predicate LowerOf(c: u8, C: u8, intl: bool) {
    c == C + 0x20 && (0x61 <= c <= 0x7A || (intl && 0xE0 <= c <= 0xFE && c != 0xF7))
  }

  /** Names are the same if and only if they have the same length and the same letters, case aside. */
  lemma SameNameExactly(v: Ffs, a: seq<u8>, b: seq<u8>)
    ensures SameName(v, a, b) <==>
      |a| == |b| && forall i :: 0 <= i < |a| ==> SameLetter(a[i], b[i], v.intl)
  {
    hide FoldCh, SameLetter;
    var f, g := Folded(a, v.intl), Folded(b, v.intl);
    forall i | 0 <= i < |a| && i < |b|
      ensures f[i] == g[i] <==> SameLetter(a[i], b[i], v.intl)
    {
      SameFold(a[i], b[i], v.intl);
    }
    if f == g {
      forall i | 0 <= i < |a|
        ensures SameLetter(a[i], b[i], v.intl)
      {
        assert f[i] == g[i];
      }
    }
  }

  lemma SameFold(x: u8, y: u8, intl: bool)
    ensures FoldCh(x, intl) == FoldCh(y, intl) <==> SameLetter(x, y, intl)
  {
  }

  function Pow13(n: nat): nat {
    if n == 0 then 1 else 13 * Pow13(n - 1)
  }

  /** Characters weighted by powers of 13, the last one by 1. */
  function Weighted(s: seq<u8>): nat {
    if s == [] then 0 else s[0] * Pow13(|s| - 1) + Weighted(s[1..])
  }

  lemma {:induction false} HashClosed(h: nat, s: seq<u8>)
    ensures HashFrom(h, s) % 0x800 == (h * Pow13(|s|) + Weighted(s)) % 0x800
    decreases |s|
  {
    if s != [] {
      var x, p := h * 13 + s[0], Pow13(|s| - 1);
      HashClosed(x % 0x800, s[1..]);
      Reduce(x, p, Weighted(s[1..]));
      Regroup(h, s[0], p);
    }
  }

  lemma Regroup(h: nat, c: nat, p: nat)
    ensures (h * 13 + c) * p == h * (13 * p) + c * p
  {
  }

  lemma Reduce(x: nat, p: nat, w: nat)
    ensures (x % 0x800 * p + w) % 0x800 == (x * p + w) % 0x800
  {
    var q, r := x / 0x800, x % 0x800;
    assert x * p == 0x800 * (q * p) + r * p;
    Shifted(r * p + w, q * p);
  }

  lemma Shifted(y: nat, t: nat)
    ensures (0x800 * t + y) % 0x800 == y % 0x800
  {
  }

  /**
   The bucket in closed form: the length and the folded characters as digits to the
   base 13, modulo 2048, then modulo the number of buckets, 72 for 512-byte blocks.
   */
  lemma HashExactly(v: Ffs, name: seq<u8>)
    requires Opened(v)
    ensures Hash(v, name) ==
      (|name| * Pow13(|name|) + Weighted(Folded(name, v.intl))) % 0x800 % ((v.bsize - 224) / 4)
  {
    hide Pow13, Weighted, HashFrom;
    var s := Folded(name, v.intl);
    HashClosed(|name|, s);
    HashSmall(|name|, s);
  }

  lemma {:induction false} HashSmall(h: nat, s: seq<u8>)
    requires s == [] ==> h < 0x800
    ensures HashFrom(h, s) < 0x800
    decreases |s|
  {
    if s != [] {
      HashSmall((h * 13 + s[0]) % 0x800, s[1..]);
    }
  }

  /** Names that compare equal hash to the same bucket. */
  lemma SameNameSameBucket(v: Ffs, a: seq<u8>, b: seq<u8>)
    requires Opened(v) && SameName(v, a, b)
    ensures Hash(v, a) == Hash(v, b)
  {
    assert |a| == |Folded(a, v.intl)| == |Folded(b, v.intl)| == |b|;
  }

  /** Folding a name changes neither what it equals nor where it hashes. */
  lemma FoldingIsIdempotent(v: Ffs, a: seq<u8>)
    requires Opened(v)
    ensures SameName(v, a, Folded(a, v.intl)) && Hash(v, a) == Hash(v, Folded(a, v.intl))
  {
    assert Folded(a, v.intl) == Folded(Folded(a, v.intl), v.intl);
    SameNameSameBucket(v, a, Folded(a, v.intl));
  }

  method NameHash(v: Ffs, name: seq<u8>) returns (h: nat)
    requires Opened(v)
    ensures h == Hash(v, name)
  {
    ghost var f := Folded(name, v.intl);
    h := |name|;
    var i := 0;
    assert f[0..] == f;
    while i < |name|
      invariant 0 <= i <= |name|
      invariant HashFrom(|name|, f) == HashFrom(h, f[i..])
    {
      assert f[i..][0] == FoldCh(name[i], v.intl) && f[i..][1..] == f[i + 1..];
      h := (h * 13 + FoldCh(name[i], v.intl)) % 0x800;
      i := i + 1;
    }
    h := h % Buckets(v);
  }

  method NameEq(v: Ffs, a: seq<u8>, b: seq<u8>) returns (eq: bool)
    ensures eq == SameName(v, a, b)
  {
    if |a| != |b| {
      assert |Folded(a, v.intl)| != |Folded(b, v.intl)|;
      return false;
    }
    var i := 0;
    while i < |a|
      invariant 0 <= i <= |a|
      invariant forall j :: 0 <= j < i ==> FoldCh(a[j], v.intl) == FoldCh(b[j], v.intl)
    {
      if FoldCh(a[i], v.intl) != FoldCh(b[i], v.intl) {
        assert Folded(a, v.intl)[i] != Folded(b, v.intl)[i];
        return false;
      }
      i := i + 1;
    }
    eq := true;
  }

  // ---------- blocks ----------

  function NameOffset(v: Ffs): nat
    requires Opened(v)
  {
    if v.lnfs then v.bsize - 184 else v.bsize - 80
  }

  /** extract_name: a length byte and that many characters. */
  function NameOf(v: Ffs, b: seq<u8>): seq<u8>
    requires Opened(v)
  {
    seq<u8>(At(b, NameOffset(v)), i requires 0 <= i => At(b, NameOffset(v) + 1 + i))
  }

  function NextHash(v: Ffs, b: seq<u8>): u32
    requires Opened(v)
  {
    Be32(b, v.bsize - 16)
  }

  function IsHeader(b: seq<u8>): bool { Be32(b, 0) == T_HEADER }

  function Head(ht: seq<u8>, bucket: nat): u32 { Be32(ht, HT_OFFSET + bucket * 4) }

  /**
   The fields of an entry block, by their place: the type at the start, the next
   block of the chain 16 bytes before the end, and the name, after its length, 80
   bytes before the end or, with long names, 184.
   */
  lemma EntryOnDisk(v: Ffs, b: seq<u8>, typ: u32, next: u32, name: seq<u8>)
    requires Opened(v) && |b| == v.bsize && |name| < 0x100
    requires Has(b, 0, Be32Bytes(typ)) && Has(b, |b| - 16, Be32Bytes(next))
    requires Has(b, |b| - if v.lnfs then 184 else 80, [|name|] + name)
    ensures (IsHeader(b) <==> typ == 2) && NextHash(v, b) == next && NameOf(v, b) == name
  {
    hide Be32Bytes, Has;
    HasBe32(b, 0, typ);
    HasBe32(b, |b| - 16, next);
    var off, bstr := |b| - if v.lnfs then 184 else 80, [|name|] + name;
    HasByte(b, off, bstr, 0);
    forall i | 0 <= i < |name|
      ensures At(b, off + 1 + i) == name[i]
    {
      HasByte(b, off, bstr, 1 + i);
    }
  }

  /** The head of bucket i stands at byte 24 + 4i of the directory block. */
  lemma BucketOnDisk(ht: seq<u8>, i: nat, head: u32)
    requires Has(ht, 24 + 4 * i, Be32Bytes(head))
    ensures Head(ht, i) == head
  {
    hide Be32Bytes, Has;
    HasBe32(ht, 24 + 4 * i, head);
  }

  /** The readable blocks of a chain; it is finite, so it does not come back to itself. */
  ghost predicate Chain(d: Blocks, v: Ffs, head: u32, chain: seq<u32>)
    requires Opened(v)
    decreases |chain|
  {
    if head == 0 || head !in d then chain == []
    else chain != [] && chain[0] == head && Chain(d, v, NextHash(v, d[head]), chain[1..])
  }

  /** A directory: for each bucket, the blocks of its chain. */
  ghost predicate Directory(d: Blocks, v: Ffs, ht: seq<u8>, dir: seq<seq<u32>>)
    requires Opened(v)
  {
    && |dir| == Buckets(v)
    && forall i :: 0 <= i < |dir| ==> Chain(d, v, Head(ht, i), dir[i])
  }

  /** The chain was not cut short by a block that cannot be read. */
  ghost predicate Complete(d: Blocks, v: Ffs, head: u32, chain: seq<u32>)
    requires Opened(v)
    decreases |chain|
  {
    if chain == [] then head == 0
    else head == chain[0] && head != 0 && head in d && Complete(d, v, NextHash(v, d[head]), chain[1..])
  }

  /** Entries are headers and sit in the bucket of their own name. */
  ghost predicate WellFormed(d: Blocks, v: Ffs, dir: seq<seq<u32>>)
    requires Opened(v)
  {
    forall i :: 0 <= i < |dir| ==> forall c :: c in dir[i] ==> Placed(d, v, c, i)
  }

  ghost predicate Placed(d: Blocks, v: Ffs, c: u32, i: nat)
    requires Opened(v)
  {
    c != 0 && c in d && IsHeader(d[c]) && Hash(v, NameOf(v, d[c])) == i
  }

  // ---------- what lookup computes ----------

  /** The chain walk: stops at a block that is no header. */
  ghost function Walk(d: Blocks, v: Ffs, chain: seq<u32>, name: seq<u8>): u32
    requires Opened(v)
  {
    if chain == [] || chain[0] !in d || !IsHeader(d[chain[0]]) then 0
    else if SameName(v, NameOf(v, d[chain[0]]), name) then chain[0]
    else Walk(d, v, chain[1..], name)
  }

  /** The plain scan: the first block of a list with this name. */
  ghost function Scan(d: Blocks, v: Ffs, blocks: seq<u32>, name: seq<u8>): u32
    requires Opened(v)
  {
    if blocks == [] then 0
    else if blocks[0] in d && SameName(v, NameOf(v, d[blocks[0]]), name) then blocks[0]
    else Scan(d, v, blocks[1..], name)
  }

  ghost function All(dir: seq<seq<u32>>): seq<u32> {
    if dir == [] then [] else dir[0] + All(dir[1..])
  }

  lemma {:induction false} ScanConcat(d: Blocks, v: Ffs, a: seq<u32>, b: seq<u32>, name: seq<u8>)
    requires Opened(v) && 0 !in a
    ensures Scan(d, v, a + b, name) == if Scan(d, v, a, name) != 0 then Scan(d, v, a, name) else Scan(d, v, b, name)
  {
    if a == [] {
      assert a + b == b;
    } else {
      assert (a + b)[1..] == a[1..] + b;
      assert a == [a[0]] + a[1..];
      ScanConcat(d, v, a[1..], b, name);
    }
  }

  /** A bucket the name does not hash to holds nothing of that name. */
  lemma {:induction false} OtherBucket(d: Blocks, v: Ffs, chain: seq<u32>, i: nat, name: seq<u8>)
    requires Opened(v) && i != Hash(v, name) && forall c :: c in chain ==> Placed(d, v, c, i)
    ensures Scan(d, v, chain, name) == 0
  {
    if chain != [] {
      var c := chain[0];
      assert Placed(d, v, c, i);
      if SameName(v, NameOf(v, d[c]), name) {
        SameNameSameBucket(v, NameOf(v, d[c]), name);
      }
      OtherBucket(d, v, chain[1..], i, name);
    }
  }

  lemma {:induction false} WalkIsScan(d: Blocks, v: Ffs, chain: seq<u32>, i: nat, name: seq<u8>)
    requires Opened(v) && forall c :: c in chain ==> Placed(d, v, c, i)
    ensures Walk(d, v, chain, name) == Scan(d, v, chain, name)
  {
    if chain != [] {
      assert Placed(d, v, chain[0], i);
      WalkIsScan(d, v, chain[1..], i, name);
    }
  }

  /** A readable block of the volume that starts with the four bytes of the number 2. */
  ghost predicate Header(d: Blocks, v: Ffs, c: u32) {
    c in d && |d[c]| == v.bsize && Has(d[c], 0, [0, 0, 0, 2])
  }

  lemma IsHeaderExactly(b: seq<u8>)
    requires |b| >= 4
    ensures IsHeader(b) <==> Has(b, 0, [0, 0, 0, 2])
  {
    BytesOfLong(b[3], b[2], b[1], b[0]);
    BytesOfLong(2, 0, 0, 0);
    assert b[0..4] == [b[0], b[1], b[2], b[3]];
  }

  /** The chain is searched up to its first block that is no header, and no further. */
  lemma {:induction false} WalkStops(d: Blocks, v: Ffs, chain: seq<u32>, k: nat, name: seq<u8>)
    requires Opened(v) && k <= |chain| && forall c :: c in d ==> |d[c]| == v.bsize
    requires forall i :: 0 <= i < k ==> Header(d, v, chain[i])
    requires k < |chain| ==> !Header(d, v, chain[k])
    ensures Walk(d, v, chain, name) == Scan(d, v, chain[..k], name)
    decreases |chain|
  {
    if chain != [] && chain[0] in d {
      IsHeaderExactly(d[chain[0]]);
    }
    if k > 0 {
      assert chain[..k][1..] == chain[1..][..k - 1];
      WalkStops(d, v, chain[1..], k - 1, name);
    }
  }

  /** Scanning the buckets from k on, when the entries are in their own buckets. */
  lemma {:induction false} ScanBuckets(d: Blocks, v: Ffs, dir: seq<seq<u32>>, k: nat, name: seq<u8>)
    requires Opened(v) && WellFormed(d, v, dir) && k <= |dir|
    ensures Scan(d, v, All(dir[k..]), name) ==
            if k <= Hash(v, name) < |dir| then Scan(d, v, dir[Hash(v, name)], name) else 0
    decreases |dir| - k
  {
    if k < |dir| {
      assert dir[k..][0] == dir[k] && dir[k..][1..] == dir[k + 1..];
      assert forall c :: c in dir[k] ==> Placed(d, v, c, k);
      ScanConcat(d, v, dir[k], All(dir[k + 1..]), name);
      ScanBuckets(d, v, dir, k + 1, name);
      if k != Hash(v, name) {
        OtherBucket(d, v, dir[k], k, name);
      }
    }
  }

  /** Hashed lookup finds exactly what a scan of the whole directory finds. */
  lemma LookupIsScan(d: Blocks, v: Ffs, dir: seq<seq<u32>>, name: seq<u8>)
    requires Opened(v) && |dir| == Buckets(v) && WellFormed(d, v, dir)
    ensures Walk(d, v, dir[Hash(v, name)], name) == Scan(d, v, All(dir), name)
  {
    hide Hash, Walk, Scan, All, Placed;
    var h := Hash(v, name);
    assert dir[0..] == dir;
    ScanBuckets(d, v, dir, 0, name);
    assert forall c :: c in dir[h] ==> Placed(d, v, c, h);
    WalkIsScan(d, v, dir[h], h, name);
  }

  /** A scan reports a block of that name, or there is none. */
  lemma {:induction false} ScanExactly(d: Blocks, v: Ffs, blocks: seq<u32>, name: seq<u8>)
    requires Opened(v) && forall c :: c in blocks ==> c != 0 && c in d
    ensures var r := Scan(d, v, blocks, name);
      && (r != 0 ==> r in blocks && SameName(v, NameOf(v, d[r]), name))
      && (r == 0 <==> forall c :: c in blocks ==> !SameName(v, NameOf(v, d[c]), name))
  {
    if blocks != [] {
      assert blocks == [blocks[0]] + blocks[1..];
      forall c | c in blocks[1..]
        ensures c != 0 && c in d
      {
        assert c in blocks;
      }
      ScanExactly(d, v, blocks[1..], name);
    }
  }

  // ---------- the code ----------

  /** lookup_in_hash; its loop ends because the chain does. */
  method LookupInHash(d: Blocks, v: Ffs, ht: seq<u8>, name: seq<u8>, ghost dir: seq<seq<u32>>) returns (r: u32)
    requires Opened(v) && Directory(d, v, ht, dir)
    ensures r == Walk(d, v, dir[Hash(v, name)], name)
  {
    hide Hash;
    var bucket := NameHash(v, name);
    var chain := Head(ht, bucket);
    ghost var left := dir[bucket];
    while chain != 0
      invariant Chain(d, v, chain, left)
      invariant Walk(d, v, dir[bucket], name) == Walk(d, v, left, name)
      decreases |left|
    {
      if chain !in d {
        return 0;
      }
      if !IsHeader(d[chain]) {
        return 0;
      }
      var same := NameEq(v, NameOf(v, d[chain]), name);
      if same {
        return chain;
      }
      chain := NextHash(v, d[chain]);
      left := left[1..];
    }
    r := 0;
  }

  /** One bucket of list_directory: the blocks visited, and whether the end of the chain was reached. */
  method ListChain(d: Blocks, v: Ffs, head: u32, ghost chain: seq<u32>) returns (seen: seq<u32>, ok: bool)
    requires Opened(v) && Chain(d, v, head, chain)
    ensures seen == chain && (Complete(d, v, head, chain) ==> ok)
  {
    hide NextHash;
    seen := [];
    var block := head;
    ghost var left := chain;
    while block != 0
      invariant Chain(d, v, block, left) && seen + left == chain
      invariant Complete(d, v, head, chain) ==> Complete(d, v, block, left)
      decreases |left|
    {
      if block !in d {
        return seen, false;
      }
      seen := seen + [block];
      block := NextHash(v, d[block]);
      left := left[1..];
    }
    ok := true;
  }

  /** list_directory's traversal: the blocks visited, in order; a read error ends it. */
  method ListDirectory(d: Blocks, v: Ffs, ht: seq<u8>, ghost dir: seq<seq<u32>>) returns (seen: seq<u32>)
    requires Opened(v) && Directory(d, v, ht, dir)
    ensures seen <= All(dir)
    ensures (forall i :: 0 <= i < |dir| ==> Complete(d, v, Head(ht, i), dir[i])) ==> seen == All(dir)
  {
    hide Head, Chain, Complete, All;
    seen := [];
    var i := 0;
    AllNone(dir);
    while i < Buckets(v)
      invariant 0 <= i <= Buckets(v)
      invariant seen == All(dir[..i])
    {
      AllSplit(dir, i + 1);
      AllStep(dir, i);
      var more, ok := ListChain(d, v, Head(ht, i), dir[i]);
      seen := seen + more;
      if !ok {
        return;
      }
      i := i + 1;
    }
    assert dir[..|dir|] == dir;
  }

  lemma AllNone(dir: seq<seq<u32>>)
    ensures All(dir[..0]) == []
  {
  }

  lemma {:induction false} AllConcat(a: seq<seq<u32>>, b: seq<seq<u32>>)
    ensures All(a + b) == All(a) + All(b)
  {
    if a == [] {
      assert a + b == b;
    } else {
      assert (a + b)[1..] == a[1..] + b;
      AllConcat(a[1..], b);
    }
  }

  lemma AllSplit(dir: seq<seq<u32>>, i: nat)
    requires i <= |dir|
    ensures All(dir) == All(dir[..i]) + All(dir[i..])
  {
    assert dir == dir[..i] + dir[i..];
    AllConcat(dir[..i], dir[i..]);
  }

  lemma AllStep(dir: seq<seq<u32>>, i: nat)
    requires i < |dir|
    ensures All(dir[..i + 1]) == All(dir[..i]) + dir[i]
    ensures All(dir[i..]) == dir[i] + All(dir[i + 1..])
  {
    assert dir[..i + 1] == dir[..i] + [dir[i]];
    AllConcat(dir[..i], [dir[i]]);
    assert dir[i..][1..] == dir[i + 1..];
  }
}
