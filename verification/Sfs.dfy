/** The SFS extent B+-tree: the descent, what it is looking for, and the files it serves. */
module Sfs {
  import opened Bits
  import opened Endian
  import opened Chunks
  import opened Disk
  import opened RunFiles

  const BNDC: u32 := 0x424E_4443
  const MAX_DEPTH: nat := 32

  // ---------- node containers on disk ----------

  function NodeCount(b: Block): u16 { Be16(b, 12) }

  function IsLeaf(b: Block): bool { At(b, 14) != 0 }

  function NodeSize(b: Block): u8 { At(b, 15) }

  /** Offset of entry i. */
  function EntryAt(b: Block, i: nat): nat {
    var size: nat := NodeSize(b);
    16 + i * size
  }

  function Key(b: Block, i: nat): u32 { Be32(b, EntryAt(b, i)) }

  /** The child block of an interior entry; the next extent's key of a leaf entry. */
  function Data(b: Block, i: nat): u32 { Be32(b, EntryAt(b, i) + 4) }

  function Length(b: Block, i: nat): u16 { Be16(b, EntryAt(b, i) + 12) }

  /** The checks made on every container before it is used. */
  predicate Acceptable(b: Block) {
    && Be32(b, 0) == BNDC
    && 8 <= NodeSize(b) <= 64
    && NodeCount(b) != 0
    && EntryAt(b, NodeCount(b)) <= BSIZE
  }

  /** The first entry from i on with this key. */
  function LeafScan(b: Block, key: u32, i: nat): Result<Run>
    decreases NodeCount(b) - i
  {
    if i >= NodeCount(b) then Err(NoFile)
    else if Key(b, i) == key then Ok(Run(key, Length(b, i), Data(b, i)))
    else LeafScan(b, key, i + 1)
  }

  /** How many entries from i on, before the first larger one, have a key up to the target. */
  function Leading(b: Block, key: u32, i: nat): (n: nat)
    ensures i <= n && (i <= NodeCount(b) ==> n <= NodeCount(b))
    ensures forall j :: i <= j < n ==> Key(b, j) <= key
    ensures n < NodeCount(b) ==> Key(b, n) > key
    decreases NodeCount(b) - i
  {
    if i < NodeCount(b) && Key(b, i) <= key then Leading(b, key, i + 1) else i
  }

  /** The child to descend into: that of the last such entry, or the leftmost one. */
  function Child(b: Block, key: u32): u32 {
    var n := Leading(b, key, 0);
    if n > 0 && Data(b, n - 1) != 0 then Data(b, n - 1) else Data(b, 0)
  }

  /** sfs_lookup_extent from a block, with this many levels left to try. */
  function Search(d: Volume, block: u32, key: u32, levels: nat): Result<Run>
    decreases levels
  {
    if block == 0 || levels == 0 then Err(NoFile)
    else if block !in d then Err(DeviceError)
    else if !Acceptable(d[block]) then Err(NoFile)
    else if IsLeaf(d[block]) then LeafScan(d[block], key, 0)
    else Search(d, Child(d[block], key), key, levels - 1)
  }

  // ---------- the tree the disk stands for ----------

  datatype Extent = Extent(key: u32, next: u32, blocks: u16)

  datatype Tree =
    | Leaf(extents: seq<Extent>)
    | Node(keys: seq<u32>, blocks: seq<u32>, kids: seq<Tree>)

  /** The extents, left to right. */
  ghost function Flatten(t: Tree): seq<Extent> {
    match t
    case Leaf(xs) => xs
    case Node(_, _, kids) => FlattenAll(kids)
  }

  ghost function FlattenAll(ts: seq<Tree>): seq<Extent> {
    if ts == [] then [] else Flatten(ts[0]) + FlattenAll(ts[1..])
  }

  ghost predicate Lower(t: Tree, levels: nat)
    decreases t
  {
    levels > 0 && (t.Node? ==> forall i :: 0 <= i < |t.kids| ==> Lower(t.kids[i], levels - 1))
  }

  /** The keys below an entry lie between its key and the next one's; the first entry's key bounds nothing. */
  ghost predicate Bounded(t: Tree, i: nat)
    requires t.Node? && i < |t.kids| == |t.keys|
  {
    forall x :: x in Flatten(t.kids[i]) ==>
      (i > 0 ==> t.keys[i] <= x.key) && (i + 1 < |t.keys| ==> x.key < t.keys[i + 1])
  }

  ghost predicate Ordered(t: Tree)
    decreases t
  {
    t.Node? ==>
      && |t.kids| == |t.keys|
      && (forall i, j :: 0 <= i < j < |t.keys| ==> t.keys[i] <= t.keys[j])
      && (forall i :: 0 <= i < |t.kids| ==> Bounded(t, i) && Ordered(t.kids[i]))
  }

  /** Where entry i of a container starts. */
  function Place(size: nat, i: nat): nat {
    16 + i * size
  }

  predicate FitsBlock(size: nat, n: nat) {
    8 <= size <= 64 && 1 <= n && 16 + n * size <= 512
  }

  /** A container by its bytes: "BNDC", the number of entries, the leaf flag and the entry size. */
  ghost predicate Contained(b: Block, leaf: bool, size: nat, n: nat) {
    && FitsBlock(size, n) && n < 0x1_0000
    && Has(b, 0, [0x42, 0x4E, 0x44, 0x43]) && Has(b, 12, Be16Bytes(n))
    && (b[14] != 0 <==> leaf) && b[15] == size
  }

  /** Entry i of a leaf: key, next extent, previous extent, length. */
  ghost predicate LeafAt(b: Block, o: nat, x: Extent) {
    Has(b, o, Be32Bytes(x.key)) && Has(b, o + 4, Be32Bytes(x.next)) && Has(b, o + 12, Be16Bytes(x.blocks))
  }

  /** Entry i of an interior container: key and child. */
  ghost predicate NodeAt(b: Block, o: nat, key: u32, child: u32) {
    Has(b, o, Be32Bytes(key)) && Has(b, o + 4, Be32Bytes(child))
  }

  /** The bytes of this block, and of the blocks below it, are those of the tree. */
  ghost predicate Stored(d: Volume, block: u32, t: Tree)
    decreases t
  {
    && block != 0 && block in d
    && var b := d[block]; var size: nat := b[15];
      match t
      case Leaf(xs) =>
        && Contained(b, true, size, |xs|) && size >= 14
        && forall i :: 0 <= i < |xs| ==> LeafAt(b, Place(size, i), xs[i])
      case Node(keys, blocks, kids) =>
        && |keys| == |blocks| == |kids| && Contained(b, false, size, |keys|)
        && forall i :: 0 <= i < |keys| ==>
             NodeAt(b, Place(size, i), keys[i], blocks[i]) && Stored(d, blocks[i], kids[i])
  }

  /** The reader accepts such a container and finds its fields. */
  lemma ContainedFields(b: Block, leaf: bool, size: nat, n: nat)
    requires Contained(b, leaf, size, n)
    ensures Acceptable(b) && NodeCount(b) == n && IsLeaf(b) == leaf && NodeSize(b) == size
  {
    hide Has, Byte, Be16Bytes;
    HasBe16(b, 12, n);
    BytesOfLong(0x43, 0x44, 0x4E, 0x42);
    assert Be32Bytes(0x424E_4443) == [0x42, 0x4E, 0x44, 0x43];
    HasBe32(b, 0, 0x424E_4443);
  }

  /** It accepts nothing else. */
  lemma AcceptableExactly(b: Block)
    ensures Acceptable(b) <==> Contained(b, b[14] != 0, b[15], Word(b[13], b[12]))
  {
    var n := Word(b[13], b[12]);
    assert b[12..14] == Be16Bytes(n) by { BytesOfWord(b[13], b[12]); }
    if Contained(b, b[14] != 0, b[15], n) {
      ContainedFields(b, b[14] != 0, b[15], n);
    }
    if Acceptable(b) {
      BytesOfLong(b[3], b[2], b[1], b[0]);
      BytesOfLong(0x43, 0x44, 0x4E, 0x42);
      hide Byte;
      assert b[0..4] == [b[0], b[1], b[2], b[3]];
    }
  }

  lemma LeafFields(b: Block, size: nat, i: nat, x: Extent)
    requires NodeSize(b) == size && LeafAt(b, Place(size, i), x)
    ensures x == Extent(Key(b, i), Data(b, i), Length(b, i))
  {
    hide Has, Be16Bytes, Be32Bytes, Be16, Be32;
    var o := Place(size, i);
    HasBe32(b, o, x.key);
    HasBe32(b, o + 4, x.next);
    HasBe16(b, o + 12, x.blocks);
  }

  lemma NodeFields(b: Block, size: nat, i: nat, key: u32, child: u32)
    requires NodeSize(b) == size && NodeAt(b, Place(size, i), key, child)
    ensures key == Key(b, i) && child == Data(b, i)
  {
    hide Has, Be32Bytes, Be32;
    HasBe32(b, Place(size, i), key);
    HasBe32(b, Place(size, i) + 4, child);
  }

  /** What the reader sees of a stored leaf. */
  lemma StoredLeaf(d: Volume, block: u32, xs: seq<Extent>)
    requires Stored(d, block, Leaf(xs))
    ensures var b := d[block];
      && Acceptable(b) && IsLeaf(b) && |xs| == NodeCount(b)
      && forall i :: 0 <= i < |xs| ==> xs[i] == Extent(Key(b, i), Data(b, i), Length(b, i))
  {
    hide LeafAt, Acceptable, Contained, Place, Key, Data, Length, NodeCount, NodeSize, IsLeaf;
    var b := d[block];
    var size: nat := b[15];
    ContainedFields(b, true, size, |xs|);
    forall i | 0 <= i < |xs|
      ensures xs[i] == Extent(Key(b, i), Data(b, i), Length(b, i))
    {
      LeafFields(b, size, i, xs[i]);
    }
  }

  lemma StoredNode(d: Volume, block: u32, t: Tree)
    requires t.Node? && Stored(d, block, t)
    ensures block in d && |t.keys| >= 1
    ensures forall i :: 0 <= i < |t.keys| ==> t.blocks[i] != 0
    ensures var b := d[block];
      && Acceptable(b) && !IsLeaf(b) && |t.keys| == |t.blocks| == |t.kids| == NodeCount(b)
      && forall i :: 0 <= i < |t.keys| ==>
           t.keys[i] == Key(b, i) && t.blocks[i] == Data(b, i) && Stored(d, t.blocks[i], t.kids[i])
  {
    hide NodeAt, Acceptable, Place, Key, Data, NodeCount, NodeSize, IsLeaf, Has;
    var b := d[block];
    var size: nat := b[15];
    ContainedFields(b, false, size, |t.keys|);
    forall i | 0 <= i < |t.keys|
      ensures t.keys[i] == Key(b, i) && t.blocks[i] == Data(b, i)
    {
      NodeFields(b, size, i, t.keys[i], t.blocks[i]);
    }
  }

  /** The plain search the tree speeds up: the first extent with this key in the whole list. */
  ghost function First(xs: seq<Extent>, key: u32): Result<Run> {
    if xs == [] then Err(NoFile)
    else if xs[0].key == key then Ok(Run(key, xs[0].blocks, xs[0].next))
    else First(xs[1..], key)
  }

  lemma {:induction false} FirstConcat(xs: seq<Extent>, ys: seq<Extent>, key: u32)
    ensures First(xs + ys, key) == if First(xs, key).Ok? then First(xs, key) else First(ys, key)
  {
    if xs == [] {
      assert xs + ys == ys;
    } else {
      assert (xs + ys)[1..] == xs[1..] + ys;
      FirstConcat(xs[1..], ys, key);
    }
  }

  lemma {:induction false} FirstMissing(xs: seq<Extent>, key: u32)
    ensures First(xs, key).Ok? <==> exists x :: x in xs && x.key == key
    ensures First(xs, key).Err? ==> First(xs, key) == Err(NoFile)
  {
    if xs != [] {
      FirstMissing(xs[1..], key);
      assert xs == [xs[0]] + xs[1..];
    }
  }

  /** A leaf scan is the plain search of its entries. */
  lemma {:induction false} LeafScanFinds(b: Block, xs: seq<Extent>, key: u32, i: nat)
    requires i <= |xs| == NodeCount(b)
    requires forall j :: 0 <= j < |xs| ==> xs[j] == Extent(Key(b, j), Data(b, j), Length(b, j))
    ensures LeafScan(b, key, i) == First(xs[i..], key)
    decreases |xs| - i
  {
    if i < |xs| {
      assert xs[i..][1..] == xs[i + 1..];
      LeafScanFinds(b, xs, key, i + 1);
    }
  }

  /** If only child j can hold the key, searching all children is searching that one. */
  lemma {:induction false} OnlyChild(kids: seq<Tree>, j: nat, key: u32)
    requires j < |kids|
    requires forall i :: 0 <= i < |kids| && i != j ==> First(Flatten(kids[i]), key) == Err(NoFile)
    ensures First(FlattenAll(kids), key) == First(Flatten(kids[j]), key)
  {
    FirstConcat(Flatten(kids[0]), FlattenAll(kids[1..]), key);
    if j > 0 {
      OnlyChild(kids[1..], j - 1, key);
    } else {
      NoChild(kids[1..], key);
      FirstMissing(Flatten(kids[0]), key);
    }
  }

  lemma {:induction false} NoChild(kids: seq<Tree>, key: u32)
    requires forall i :: 0 <= i < |kids| ==> First(Flatten(kids[i]), key) == Err(NoFile)
    ensures First(FlattenAll(kids), key) == Err(NoFile)
  {
    if kids != [] {
      FirstConcat(Flatten(kids[0]), FlattenAll(kids[1..]), key);
      NoChild(kids[1..], key);
    }
  }

  lemma OrderedNode(t: Tree)
    requires t.Node? && Ordered(t)
    ensures |t.kids| == |t.keys|
    ensures forall i, j :: 0 <= i < j < |t.keys| ==> t.keys[i] <= t.keys[j]
    ensures forall i :: 0 <= i < |t.kids| ==> Bounded(t, i)
  {
  }

  /** The child picked from a well-ordered node is the only one that can hold the key. */
  lemma PickedChild(d: Volume, block: u32, t: Tree, key: u32) returns (j: nat)
    requires t.Node? && Stored(d, block, t) && Ordered(t)
    ensures j < |t.kids| && Child(d[block], key) == t.blocks[j]
    ensures forall i :: 0 <= i < |t.kids| && i != j ==> First(Flatten(t.kids[i]), key) == Err(NoFile)
  {
    hide Key, Data, Length, First, Flatten, Ordered, Lower, Stored, NodeCount, Acceptable;
    OrderedNode(t);
    StoredNode(d, block, t);
    var b := d[block];
    var n := Leading(b, key, 0);
    j := if n > 0 then n - 1 else 0;
    assert t.keys[j] == Key(b, j) && t.blocks[j] == Data(b, j);
    forall i | 0 <= i < |t.kids| && i != j
      ensures First(Flatten(t.kids[i]), key) == Err(NoFile)
    {
      FirstMissing(Flatten(t.kids[i]), key);
      assert Bounded(t, i);
      assert t.keys[i] == Key(b, i);
      if i < j {
        assert t.keys[i + 1] <= t.keys[j];
      } else {
        assert t.keys[n] == Key(b, n) && t.keys[n] <= t.keys[i];
      }
    }
  }

  /** The descent finds exactly what a search of the flattened tree finds. */
  lemma {:induction false} SearchFinds(d: Volume, block: u32, t: Tree, key: u32, levels: nat)
    requires Stored(d, block, t) && Ordered(t) && Lower(t, levels)
    ensures Search(d, block, key, levels) == First(Flatten(t), key)
    decreases levels
  {
    hide Acceptable, Key, Data, Length, NodeCount, IsLeaf, LeafAt, NodeAt, Contained;
    match t
    case Leaf(xs) =>
      StoredLeaf(d, block, xs);
      LeafScanFinds(d[block], xs, key, 0);
      assert xs[0..] == xs;
    case Node(_, blocks, kids) =>
      StoredNode(d, block, t);
      var j := PickedChild(d, block, t, key);
      assert Stored(d, blocks[j], kids[j]);
      OnlyChild(kids, j, key);
      SearchFinds(d, blocks[j], kids[j], key, levels - 1);
  }

  /**
   On the way down a block that cannot be read is a device error; a null child, or one
   level more than 32, ends the search without a result.
   */
  lemma SearchFails(d: Volume, block: u32, key: u32, levels: nat)
    ensures levels > 0 && block != 0 && block !in d ==> Search(d, block, key, levels) == Err(DeviceError)
    ensures levels == 0 || block == 0 ==> Search(d, block, key, levels) == Err(NoFile)
    ensures levels > 0 && block != 0 && block in d && !Contained(d[block], d[block][14] != 0, d[block][15],
                                                                   Word(d[block][13], d[block][12])) ==>
      Search(d, block, key, levels) == Err(NoFile)
  {
    hide Acceptable, Contained;
    if block in d {
      AcceptableExactly(d[block]);
    }
  }

  /** Found if and only if some extent of the tree has the key. */
  lemma LookupExactly(d: Volume, root: u32, t: Tree, key: u32)
    requires Stored(d, root, t) && Ordered(t) && Lower(t, 32)
    ensures Lookup(d, root, key).Ok? <==> exists x :: x in Flatten(t) && x.key == key
    ensures Lookup(d, root, key).Err? ==> Lookup(d, root, key) == Err(NoFile)
    ensures Lookup(d, root, key) == First(Flatten(t), key)
  {
    SearchFinds(d, root, t, key, MAX_DEPTH);
    FirstMissing(Flatten(t), key);
  }

  function Lookup(d: Volume, root: u32, key: u32): Result<Run> {
    Search(d, root, key, MAX_DEPTH)
  }

  ghost function ByTree(d: Volume, root: u32): u32 -> Result<Run> {
    (key: u32) => Lookup(d, root, key)
  }

  ghost function ByScan(t: Tree): u32 -> Result<Run> {
    (key: u32) => First(Flatten(t), key)
  }

  // ---------- writing a container ----------

  function Zeros(n: nat): seq<u8> {
    seq<u8>(n, _ => 0)
  }

  function LeafEntry(x: Extent, prev: u32, size: nat): (e: seq<u8>)
    requires size >= 14
    ensures |e| == size
  {
    Be32Bytes(x.key) + Be32Bytes(x.next) + Be32Bytes(prev) + Be16Bytes(x.blocks) + Zeros(size - 14)
  }

  function NodeEntry(key: u32, child: u32, size: nat): (e: seq<u8>)
    requires size >= 8
    ensures |e| == size
  {
    Be32Bytes(key) + Be32Bytes(child) + Zeros(size - 8)
  }

  /** The bytes before the entries. */
  function Preamble(leaf: bool, size: nat, n: u16): (p: seq<u8>)
    requires size < 0x100
    ensures |p| == 16
  {
    [0x42, 0x4E, 0x44, 0x43] + Zeros(8) + Be16Bytes(n) + [if leaf then 1 else 0, size]
  }

  /** A container of any entries, one at least, that fit a block. */
  ghost function Container(leaf: bool, size: nat, entries: seq<seq<u8>>): Block
    requires FitsBlock(size, |entries|) && Even(entries, size)
  {
    ConcatLength(entries, size);
    Room(|entries|, size);
    Preamble(leaf, size, |entries|) + Concat(entries) + Zeros(512 - 16 - |entries| * size)
  }

  lemma Room(n: nat, size: nat)
    requires 8 <= size && 16 + n * size <= 512
    ensures n < 0x1_0000
  {
    MulMonotone(8, size, n);
  }

  lemma ContainerHeader(leaf: bool, size: nat, entries: seq<seq<u8>>)
    requires FitsBlock(size, |entries|) && Even(entries, size)
    ensures Contained(Container(leaf, size, entries), leaf, size, |entries|)
  {
    hide Be16Bytes, Concat;
    ConcatLength(entries, size);
    Room(|entries|, size);
    var b, n := Container(leaf, size, entries), |entries|;
    var id := [0x42, 0x4E, 0x44, 0x43];
    assert b[0..4] == id;
    assert b[12..14] == Be16Bytes(n);
    assert b[14] == if leaf then 1 else 0;
    assert b[15] == size;
  }

  /** Entry i stands at byte 16 + i * size. */
  lemma ContainerEntry(leaf: bool, size: nat, entries: seq<seq<u8>>, i: nat)
    requires FitsBlock(size, |entries|) && Even(entries, size) && i < |entries|
    ensures Has(Container(leaf, size, entries), Place(size, i), entries[i])
  {
    hide Preamble, Concat;
    ConcatLength(entries, size);
    ConcatSlice(entries, size, i);
    Room(|entries|, size);
    HasPart(Preamble(leaf, size, |entries|), Concat(entries), Zeros(512 - 16 - |entries| * size));
    HasWithin(Container(leaf, size, entries), 16, Concat(entries), i * size, entries[i]);
  }

  /** A leaf as it is written on disk is found to be that leaf, one entry included. */
  lemma EncodedLeaf(d: Volume, block: u32, size: nat, xs: seq<Extent>, prevs: seq<u32>, entries: seq<seq<u8>>)
    requires size >= 14 && |xs| == |prevs| == |entries| && FitsBlock(size, |xs|)
    requires forall i :: 0 <= i < |xs| ==> entries[i] == LeafEntry(xs[i], prevs[i], size)
    requires Even(entries, size) && block != 0 && block in d && d[block] == Container(true, size, entries)
    ensures Stored(d, block, Leaf(xs))
  {
    hide Container, Contained, LeafAt, Place, FitsBlock;
    ContainerHeader(true, size, entries);
    ContainedSize(d[block], true, size, |xs|);
    forall i | 0 <= i < |xs|
      ensures LeafAt(d[block], Place(size, i), xs[i])
    {
      ContainerEntry(true, size, entries, i);
      LeafEntryFields(d[block], Place(size, i), xs[i], prevs[i], size);
    }
  }

  lemma ContainedSize(b: Block, leaf: bool, size: nat, n: nat)
    requires Contained(b, leaf, size, n)
    ensures b[15] == size
  {
  }

  lemma LeafEntryFields(b: Block, o: nat, x: Extent, prev: u32, size: nat)
    requires size >= 14 && Has(b, o, LeafEntry(x, prev, size))
    ensures LeafAt(b, o, x)
  {
    hide Be16Bytes, Be32Bytes;
    var e := LeafEntry(x, prev, size);
    assert e[0..4] == Be32Bytes(x.key) && e[4..8] == Be32Bytes(x.next) && e[12..14] == Be16Bytes(x.blocks);
    hide LeafEntry;
    HasWithin(b, o, e, 0, Be32Bytes(x.key));
    HasWithin(b, o, e, 4, Be32Bytes(x.next));
    HasWithin(b, o, e, 12, Be16Bytes(x.blocks));
  }

  /** An interior container as it is written on disk, above subtrees that are. */
  lemma EncodedNode(d: Volume, block: u32, size: nat, t: Tree, entries: seq<seq<u8>>)
    requires t.Node? && |t.keys| == |t.blocks| == |t.kids| == |entries|
    requires size >= 8 && FitsBlock(size, |t.keys|)
    requires forall i :: 0 <= i < |t.keys| ==> entries[i] == NodeEntry(t.keys[i], t.blocks[i], size)
    requires forall i :: 0 <= i < |t.keys| ==> Stored(d, t.blocks[i], t.kids[i])
    requires Even(entries, size) && block != 0 && block in d && d[block] == Container(false, size, entries)
    ensures Stored(d, block, t)
  {
    hide Container, Contained, NodeAt, Place, FitsBlock;
    ContainerHeader(false, size, entries);
    ContainedSize(d[block], false, size, |t.keys|);
    forall i | 0 <= i < |t.keys|
      ensures NodeAt(d[block], Place(size, i), t.keys[i], t.blocks[i])
    {
      ContainerEntry(false, size, entries, i);
      NodeEntryFields(d[block], Place(size, i), t.keys[i], t.blocks[i], size);
    }
  }

  lemma NodeEntryFields(b: Block, o: nat, key: u32, child: u32, size: nat)
    requires size >= 8 && Has(b, o, NodeEntry(key, child, size))
    ensures NodeAt(b, o, key, child)
  {
    hide Be32Bytes;
    var e := NodeEntry(key, child, size);
    assert e[0..4] == Be32Bytes(key) && e[4..8] == Be32Bytes(child);
    hide NodeEntry;
    HasWithin(b, o, e, 0, Be32Bytes(key));
    HasWithin(b, o, e, 4, Be32Bytes(child));
  }

  /** A volume whose tree is one written leaf: lookup is a search of its extents, however many there are. */
  lemma EncodedLookup(d: Volume, root: u32, size: nat, xs: seq<Extent>, prevs: seq<u32>, entries: seq<seq<u8>>,
                      key: u32)
    requires size >= 14 && |xs| == |prevs| == |entries| && FitsBlock(size, |xs|)
    requires forall i :: 0 <= i < |xs| ==> entries[i] == LeafEntry(xs[i], prevs[i], size)
    requires Even(entries, size) && root != 0 && root in d && d[root] == Container(true, size, entries)
    ensures Lookup(d, root, key) == First(xs, key)
  {
    hide Container, Stored, First, Lookup;
    EncodedLeaf(d, root, size, xs, prevs, entries);
    LookupExactly(d, root, Leaf(xs), key);
  }

  // ---------- the code ----------

  method ScanLeaf(b: Block, key: u32) returns (r: Result<Run>)
    ensures r == LeafScan(b, key, 0)
  {
    var i: nat := 0;
    while i < NodeCount(b)
      invariant LeafScan(b, key, 0) == LeafScan(b, key, i)
    {
      if Key(b, i) == key {
        return Ok(Run(key, Length(b, i), Data(b, i)));
      }
      i := i + 1;
    }
    r := Err(NoFile);
  }

  method PickChild(b: Block, key: u32) returns (child: u32)
    requires NodeCount(b) > 0
    ensures child == Child(b, key)
  {
    hide Key, Data, NodeCount;
    child := 0;
    var i: nat := 0;
    while i < NodeCount(b)
      invariant i <= NodeCount(b) && Leading(b, key, 0) == Leading(b, key, i)
      invariant child == if i == 0 then 0 else Data(b, i - 1)
    {
      if Key(b, i) > key {
        break;
      }
      child := Data(b, i);
      i := i + 1;
    }
    if child == 0 {
      child := Data(b, 0);
    }
  }

  /** sfs_lookup_extent. */
  method LookupExtent(d: Volume, root: u32, key: u32) returns (r: Result<Run>)
    ensures r == Lookup(d, root, key)
  {
    hide Search, Acceptable, Child, LeafScan;
    var block := root;
    var depth: nat := 0;
    while block != 0 && depth < MAX_DEPTH
      invariant depth <= MAX_DEPTH
      invariant Lookup(d, root, key) == Search(d, block, key, MAX_DEPTH - depth)
      decreases MAX_DEPTH - depth
    {
      SearchStep(d, block, key, MAX_DEPTH - depth);
      if block !in d {
        return Err(DeviceError);
      }
      var b := d[block];
      if !Acceptable(b) {
        return Err(NoFile);
      }
      if IsLeaf(b) {
        r := ScanLeaf(b, key);
        return;
      }
      block := PickChild(b, key);
      depth := depth + 1;
    }
    SearchEnds(d, block, key, MAX_DEPTH - depth);
    r := Err(NoFile);
  }

  lemma SearchStep(d: Volume, block: u32, key: u32, levels: nat)
    requires block != 0 && levels > 0
    ensures Search(d, block, key, levels) ==
            if block !in d then Err(DeviceError)
            else if !Acceptable(d[block]) then Err(NoFile)
            else if IsLeaf(d[block]) then LeafScan(d[block], key, 0)
            else Search(d, Child(d[block], key), key, levels - 1)
    ensures block in d && Acceptable(d[block]) ==> NodeCount(d[block]) > 0
  {
  }

  lemma SearchEnds(d: Volume, block: u32, key: u32, levels: nat)
    requires block == 0 || levels == 0
    ensures Search(d, block, key, levels) == Err(NoFile)
  {
  }

  /** sfs_read_file_contents. */
  method ReadFile(d: Volume, root: u32, first: u32, byteSize: u32) returns (r: Result<seq<u8>>)
    ensures r == ReadChain(ByTree(d, root), d, first, byteSize, GUARD)
  {
    hide Lookup, ReadChain, ReadRun, Prepend;
    var out: seq<u8> := [];
    var key := first;
    var guard: nat := 0;
    ghost var find := ByTree(d, root);
    ghost var all := ReadChain(find, d, first, byteSize, GUARD);
    PrependTwice([], [], all);
    while |out| < byteSize && key != 0
      invariant guard <= GUARD && |out| <= byteSize
      invariant all == Prepend(out, ReadChain(find, d, key, byteSize - |out|, GUARD - guard))
      decreases GUARD - guard
    {
      ReadChainStep(find, d, key, byteSize - |out|, GUARD - guard, out);
      if guard + 1 > GUARD {
        return Err(ReadError);
      }
      guard := guard + 1;
      var run := LookupExtent(d, root, key);
      if run.Err? {
        return Err(run.error);
      }
      if run.value.count == 0 {
        return Ok(out);
      }
      var s := CopyRun(d, run.value, byteSize - |out|);
      if s.Err? {
        return Err(s.error);
      }
      out := out + s.value;
      key := run.value.next;
    }
    ReadChainEnds(find, d, key, byteSize - |out|, GUARD - guard, out);
    r := Ok(out);
  }

  /** On a well-ordered volume the file read is the wanted prefix of its extents laid end to end. */
  lemma FileIsPrefix(d: Volume, root: u32, t: Tree, runs: seq<Run>, first: u32, end: u32, byteSize: u32)
    requires Stored(d, root, t) && Ordered(t) && Lower(t, 32)
    requires Linked(ByScan(t), d, runs, first, end) && |runs| <= 65536
    requires Stops(ByScan(t), end, |LinkedData(ByScan(t), d, runs, first, end)| >= byteSize, GUARD - |runs|)
    ensures ReadChain(ByTree(d, root), d, first, byteSize, GUARD) ==
            Ok(Prefix(LinkedData(ByScan(t), d, runs, first, end), byteSize))
  {
    hide Stored, Ordered, Lower, Flatten, Lookup, Linked, ReadChain, FileData, Readable;
    var find, plain := ByTree(d, root), ByScan(t);
    forall k ensures find(k) == plain(k) {
      LookupExactly(d, root, t, k);
    }
    SameLinks(plain, find, d, runs, first, end);
    ReadChainIsPrefix(find, d, runs, first, end, byteSize, GUARD);
  }
}
