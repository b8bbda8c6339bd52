/** The PFS3 anode tree: three levels addressed by division and remainder, and the files threaded through it. */
module Pfs {
  import opened Bits
  import opened Endian
  import opened Disk
  import opened Chunks
  import opened RunFiles

  const ID_IB: u16 := 0x4942
  const ID_AB: u16 := 0x4142
  const INDEX_BLOCKS: nat := 99
  const IB_INDEX_BASE: nat := 12
  const AB_NODES_BASE: nat := 16
  const ANODE_SIZE: nat := 12
  const SUPERINDEX_BIT: nat := 7

  /** The cached per-volume state. */
  datatype Pfs = Pfs(anodesPerBlock: nat, entriesPerIndex: nat, index: seq<u32>)

  datatype OpenError = NoFilesystem | RootUnreadable

  datatype Opened = Opened(v: Pfs) | NotOpened(why: OpenError)

  /** pfs_open_volume: the root block is block 2 of the partition. */
  function Open(d: Volume, dostype: u32): (o: Opened)
    ensures o.Opened? ==> o.v.anodesPerBlock == 41 && o.v.entriesPerIndex == 125 && |o.v.index| == INDEX_BLOCKS
  {
    if 2 !in d then NotOpened(RootUnreadable)
    else
      var b := d[2];
      var bsize: nat := Be16(b, 64);
      if || Be32(b, 0) != dostype || Bit(Be32(b, 4), SUPERINDEX_BIT) || bsize != BSIZE
         || Be32(b, 84) == 0 || Be32(b, 56) == 0 || Be32(b, 52) < Be32(b, 56)
      then NotOpened(NoFilesystem)
      else Opened(Pfs((bsize - AB_NODES_BASE) / ANODE_SIZE, (bsize - IB_INDEX_BASE) / 4,
                      seq(INDEX_BLOCKS, i requires 0 <= i => Be32(b, 116 + i * 4))))
  }

  function Anode(b: Block, k: nat): Run {
    var a := AB_NODES_BASE + k * ANODE_SIZE;
    Run(Be32(b, a + 4), Be32(b, a), Be32(b, a + 8))
  }

  /** The block behind a pointer, if it can be read and carries this identifier. */
  function Load(d: Volume, block: u32, id: u16): Result<Block> {
    if block == 0 then Err(ReadError)
    else if block !in d then Err(DeviceError)
    else if Be16(d[block], 0) != id then Err(ReadError)
    else Ok(d[block])
  }

  /** pfs_get_anode. */
  method GetAnode(d: Volume, v: Pfs, anodenr: u32) returns (r: Result<Run>)
    requires |v.index| == INDEX_BLOCKS
    ensures r == AnodeAt(d, v, anodenr)
  {
    var apb, epi := v.anodesPerBlock, v.entriesPerIndex;
    if apb == 0 || epi == 0 {
      return Err(ReadError);
    }
    var abIdx, abOff := Div(anodenr, apb), Mod(anodenr, apb);
    var ibIdx, ibSub := Div(abIdx, epi), Mod(abIdx, epi);
    if ibIdx >= INDEX_BLOCKS {
      return Err(ReadError);
    }
    var ib := Load(d, v.index[ibIdx], ID_IB);
    if ib.Err? {
      return Err(ib.error);
    }
    var ab := Load(d, Be32(ib.value, IB_INDEX_BASE + ibSub * 4), ID_AB);
    if ab.Err? {
      return Err(ab.error);
    }
    r := Ok(Anode(ab.value, abOff));
  }

  function Div(n: nat, m: nat): nat
    requires m > 0
  {
    n / m
  }

  function Mod(n: nat, m: nat): (r: nat)
    requires m > 0
    ensures r < m
  {
    n % m
  }

  /** What the descent computes. */
  function AnodeAt(d: Volume, v: Pfs, n: u32): Result<Run>
    requires |v.index| == INDEX_BLOCKS
  {
    var apb, epi := v.anodesPerBlock, v.entriesPerIndex;
    if apb == 0 || epi == 0 then Err(ReadError)
    else
      var i, j, k := Div(Div(n, apb), epi), Mod(Div(n, apb), epi), Mod(n, apb);
      if i >= INDEX_BLOCKS then Err(ReadError)
      else
        match Load(d, v.index[i], ID_IB)
        case Err(e) => Err(e)
        case Ok(ib) =>
          match Load(d, Be32(ib, IB_INDEX_BASE + j * 4), ID_AB)
          case Err(e) => Err(e)
          case Ok(ab) => Ok(Anode(ab, k))
  }

  // ---------- the flat table the tree stands for ----------

  /** The anode blocks named by one index block, all of them errors if it cannot be used. */
  ghost function IndexEntries(d: Volume, v: Pfs, block: u32): (s: seq<Result<u32>>)
    ensures |s| == v.entriesPerIndex
  {
    match Load(d, block, ID_IB)
    case Err(e) => seq(v.entriesPerIndex, _ => Err(e))
    case Ok(ib) => seq(v.entriesPerIndex, j requires 0 <= j => Ok(Be32(ib, IB_INDEX_BASE + j * 4)))
  }

  ghost function BlockAnodes(d: Volume, v: Pfs, block: Result<u32>): (s: seq<Result<Run>>)
    ensures |s| == v.anodesPerBlock
  {
    match block
    case Err(e) => seq(v.anodesPerBlock, _ => Err(e))
    case Ok(b) =>
      match Load(d, b, ID_AB)
      case Err(e) => seq(v.anodesPerBlock, _ => Err(e))
      case Ok(ab) => seq(v.anodesPerBlock, k requires 0 <= k => Ok(Anode(ab, k)))
  }

  ghost function AnodeBlocks(d: Volume, v: Pfs): seq<Result<u32>> {
    Concat(seq(|v.index|, i requires 0 <= i < |v.index| => IndexEntries(d, v, v.index[i])))
  }

  /** Every anode of the volume, in order. */
  ghost function Table(d: Volume, v: Pfs): seq<Result<Run>> {
    var blocks := AnodeBlocks(d, v);
    Concat(seq(|blocks|, i requires 0 <= i < |blocks| => BlockAnodes(d, v, blocks[i])))
  }

  lemma AnodeBlocksAt(d: Volume, v: Pfs, m: nat)
    requires v.entriesPerIndex > 0
    ensures |AnodeBlocks(d, v)| == |v.index| * v.entriesPerIndex
    ensures m < |AnodeBlocks(d, v)| ==>
      m / v.entriesPerIndex < |v.index|
      && AnodeBlocks(d, v)[m] == IndexEntries(d, v, v.index[m / v.entriesPerIndex])[m % v.entriesPerIndex]
  {
    hide IndexEntries, Concat, Steps, Rest;
    var chunks := seq(|v.index|, i requires 0 <= i < |v.index| => IndexEntries(d, v, v.index[i]));
    ConcatLength(chunks, v.entriesPerIndex);
    if m < |Concat(chunks)| {
      ConcatAt(chunks, v.entriesPerIndex, m);
      DivisionBySteps(m, v.entriesPerIndex);
    }
  }

  lemma TableAt(d: Volume, v: Pfs, n: nat)
    requires v.anodesPerBlock > 0
    ensures |Table(d, v)| == |AnodeBlocks(d, v)| * v.anodesPerBlock
    ensures n < |Table(d, v)| ==>
      n / v.anodesPerBlock < |AnodeBlocks(d, v)|
      && Table(d, v)[n] == BlockAnodes(d, v, AnodeBlocks(d, v)[n / v.anodesPerBlock])[n % v.anodesPerBlock]
  {
    hide BlockAnodes, AnodeBlocks, Concat, Steps, Rest;
    var blocks := AnodeBlocks(d, v);
    var chunks := seq(|blocks|, i requires 0 <= i < |blocks| => BlockAnodes(d, v, blocks[i]));
    ConcatLength(chunks, v.anodesPerBlock);
    if n < |Concat(chunks)| {
      ConcatAt(chunks, v.anodesPerBlock, n);
      DivisionBySteps(n, v.anodesPerBlock);
    }
  }

  /** A number past the end of the table leads past the end of the index. */
  lemma PastEnd(n: nat, blocks: nat, apb: nat, epi: nat)
    requires apb > 0 && epi > 0 && n >= blocks * epi * apb
    ensures n / apb / epi >= blocks
  {
    assert n / apb >= blocks * epi by { QuotientAtLeast(n, apb, blocks * epi); }
    QuotientAtLeast(n / apb, epi, blocks);
  }

  lemma QuotientAtLeast(n: nat, m: nat, q: nat)
    requires m > 0 && n >= q * m
    ensures n / m >= q
  {
    assert n < (n / m + 1) * m;
    MulCancel(q, n / m + 1, m);
  }

  /** The descent by division and remainder is indexing the flat table, and fails beyond it. */
  lemma DescentIsTable(d: Volume, v: Pfs, n: u32)
    requires |v.index| == INDEX_BLOCKS && v.anodesPerBlock > 0 && v.entriesPerIndex > 0
    ensures |Table(d, v)| == INDEX_BLOCKS * v.entriesPerIndex * v.anodesPerBlock
    ensures AnodeAt(d, v, n) == if n < |Table(d, v)| then Table(d, v)[n] else Err(ReadError)
  {
    hide Table, AnodeBlocks, Load, Anode, Div, Mod, IndexEntries, BlockAnodes;
    TableAt(d, v, n);
    AnodeBlocksAt(d, v, Div(n, v.anodesPerBlock));
    DivIs(n, v.anodesPerBlock);
    DivIs(Div(n, v.anodesPerBlock), v.entriesPerIndex);
    if n >= |Table(d, v)| {
      PastEnd(n, INDEX_BLOCKS, v.anodesPerBlock, v.entriesPerIndex);
    } else {
      var m := Div(n, v.anodesPerBlock);
      EntryIs(d, v, v.index[Div(m, v.entriesPerIndex)], Mod(m, v.entriesPerIndex));
      AnodeIs(d, v, AnodeBlocks(d, v)[m], Mod(n, v.anodesPerBlock));
    }
  }

  lemma DivIs(n: nat, m: nat)
    requires m > 0
    ensures Div(n, m) == n / m && Mod(n, m) == n % m
  {
  }

  /** Entry j of an index block. */
  lemma EntryIs(d: Volume, v: Pfs, block: u32, j: nat)
    requires j < v.entriesPerIndex
    ensures IndexEntries(d, v, block)[j] ==
      match Load(d, block, ID_IB)
      case Err(e) => Err(e)
      case Ok(ib) => Ok(Be32(ib, IB_INDEX_BASE + j * 4))
  {
    hide Load;
  }

  /** Anode k of an anode block. */
  lemma AnodeIs(d: Volume, v: Pfs, block: Result<u32>, k: nat)
    requires k < v.anodesPerBlock
    ensures BlockAnodes(d, v, block)[k] ==
      match block
      case Err(e) => Err(e)
      case Ok(b) =>
        match Load(d, b, ID_AB)
        case Err(e) => Err(e)
        case Ok(ab) => Ok(Anode(ab, k))
  {
    hide Load, Anode;
  }

  /** On an opened volume: 99 * 125 * 41 anodes, each inside its block, as is each index entry. */
  lemma OpenedVolume(d: Volume, dostype: u32, n: u32)
    requires Open(d, dostype).Opened?
    ensures var v := Open(d, dostype).v;
      && |Table(d, v)| == 99 * 125 * 41
      && IB_INDEX_BASE + n / v.anodesPerBlock % v.entriesPerIndex * 4 + 4 <= BSIZE
      && AB_NODES_BASE + n % v.anodesPerBlock * ANODE_SIZE + ANODE_SIZE <= BSIZE
  {
    hide Table;
    DescentIsTable(d, Open(d, dostype).v, n);
  }

  // ---------- the same, byte by byte ----------

  /** A block that can be read and starts with these two letters. */
  predicate Tagged(d: Volume, block: nat, c0: u8, c1: u8) {
    block != 0 && block in d && d[block][0] == c0 && d[block][1] == c1
  }

  /** Why a block could not be used: the device, if it cannot be read, and else a bad pointer or bad letters. */
  function Fault(d: Volume, block: nat): Error {
    if block != 0 && block !in d then DeviceError else ReadError
  }

  /**
   On an opened volume anode (125i + j) * 41 + k is twelve bytes of the j-th anode block
   of the i-th index block: the index pointers stand at byte 116 of the root block, an
   index block starts with "IB" and has its pointers at byte 12, and an anode block
   starts with "AB" and has its anodes (size, first block, next) at byte 16.
   */
  lemma AnodeOnDisk(d: Volume, dostype: u32, i: nat, j: nat, k: nat)
    requires Open(d, dostype).Opened? && i < 99 && j < 125 && k < 41
    ensures var v := Open(d, dostype).v; var n: u32 := (125 * i + j) * 41 + k;
      var ib := Number(d[2], 116 + 4 * i);
      if !Tagged(d, ib, 0x49, 0x42) then AnodeAt(d, v, n) == Err(Fault(d, ib))
      else
        var ab := Number(d[ib], 12 + 4 * j);
        if !Tagged(d, ab, 0x41, 0x42) then AnodeAt(d, v, n) == Err(Fault(d, ab))
        else
          var o := 16 + 12 * k;
          AnodeAt(d, v, n) == Ok(Run(Number(d[ab], o + 4), Number(d[ab], o), Number(d[ab], o + 8)))
  {
    hide Be32, Number;
    var v := Open(d, dostype).v;
    Descent(i, j, k);
    Be32IsNumber(d[2], 116 + 4 * i);
    LoadExactly(d, v.index[i], 0x49, 0x42);
    if Tagged(d, v.index[i], 0x49, 0x42) {
      var b := d[v.index[i]];
      Be32IsNumber(b, 12 + 4 * j);
      LoadExactly(d, Be32(b, 12 + 4 * j), 0x41, 0x42);
      if Tagged(d, Be32(b, 12 + 4 * j), 0x41, 0x42) {
        var a := d[Be32(b, 12 + 4 * j)];
        Be32IsNumber(a, 16 + 12 * k);
        Be32IsNumber(a, 16 + 12 * k + 4);
        Be32IsNumber(a, 16 + 12 * k + 8);
      }
    }
  }

  lemma Descent(i: nat, j: nat, k: nat)
    requires i < 99 && j < 125 && k < 41
    ensures var n := (125 * i + j) * 41 + k; n / 41 / 125 == i && n / 41 % 125 == j && n % 41 == k
  {
  }

  lemma LoadExactly(d: Volume, block: u32, c0: u8, c1: u8)
    ensures Tagged(d, block, c0, c1) ==> Load(d, block, Word(c1, c0)) == Ok(d[block])
    ensures !Tagged(d, block, c0, c1) ==> Load(d, block, Word(c1, c0)) == Err(Fault(d, block))
  {
  }

  /** The checks on the root block, by its bytes. */
  lemma OpenExactly(d: Volume, dostype: u32)
    ensures Open(d, dostype).Opened? <==>
      && 2 in d && var b := d[2];
      && Number(b, 0) == dostype && b[7] / 0x80 == 0 && b[64] == 2 && b[65] == 0
      && Number(b, 84) != 0 && Number(b, 56) != 0 && Number(b, 52) >= Number(b, 56)
  {
    if 2 in d {
      var b := d[2];
      Be32IsNumber(b, 0);
      Be32IsNumber(b, 4);
      Be32IsNumber(b, 52);
      Be32IsNumber(b, 56);
      Be32IsNumber(b, 84);
      SuperIndexBit(b);
      hide Be32, Number;
    }
  }

  lemma Pow7()
    ensures Pow2(8) == 0x100 && Pow2(7) == 0x80
  {
  }

  /** Bit 7 of the options is the top bit of their last byte. */
  lemma SuperIndexBit(b: Block)
    ensures Bit(Be32(b, 4), 7) <==> b[7] / 0x80 == 1
  {
    hide Bit, Low, Pow2;
    var x: nat := Be32(b, 4);
    assert x % 0x100 == b[7];
    Pow7();
    LowIsMod(x, 8);
    BitOfLow(x, 8, 7);
    LowNext(b[7], 7);
    LowSmall(b[7], 8);
  }

  // ---------- files ----------

  ghost function ByDescent(d: Volume, v: Pfs): u32 -> Result<Run>
    requires |v.index| == INDEX_BLOCKS
  {
    (n: u32) => AnodeAt(d, v, n)
  }

  ghost function ByTable(d: Volume, v: Pfs): u32 -> Result<Run> {
    (n: u32) => if n < |Table(d, v)| then Table(d, v)[n] else Err(ReadError)
  }

  /** pfs_read_file. */
  method ReadFile(d: Volume, v: Pfs, anode: u32, byteSize: u32) returns (r: Result<seq<u8>>)
    requires |v.index| == INDEX_BLOCKS
    ensures r == ReadChain(ByDescent(d, v), d, anode, byteSize, GUARD)
  {
    hide AnodeAt, ReadChain, ReadRun, Prepend;
    var out: seq<u8> := [];
    var anr := anode;
    var guard: nat := 0;
    ghost var find := ByDescent(d, v);
    ghost var all := ReadChain(find, d, anode, byteSize, GUARD);
    PrependTwice([], [], all);
    while |out| < byteSize && anr != 0
      invariant guard <= GUARD && |out| <= byteSize
      invariant all == Prepend(out, ReadChain(find, d, anr, byteSize - |out|, GUARD - guard))
      decreases GUARD - guard
    {
      ReadChainStep(find, d, anr, byteSize - |out|, GUARD - guard, out);
      if guard + 1 > GUARD {
        return Err(ReadError);
      }
      guard := guard + 1;
      var run := GetAnode(d, v, anr);
      if run.Err? {
        return Err(run.error);
      }
      if run.value.count == 0 {
        return Ok(out);
      }
      var s := CopyRun(d, run.value, byteSize - |out|);
      if s.Err? {
        return Err(s.error);
      }
      out := out + s.value;
      anr := run.value.next;
    }
    ReadChainEnds(find, d, anr, byteSize - |out|, GUARD - guard, out);
    r := Ok(out);
  }

  /** The file read is the wanted prefix of the clusters along the chain of the flat table. */
  lemma FileIsPrefix(d: Volume, v: Pfs, runs: seq<Run>, anode: u32, end: u32, byteSize: u32)
    requires |v.index| == INDEX_BLOCKS && v.anodesPerBlock > 0 && v.entriesPerIndex > 0
    requires Linked(ByTable(d, v), d, runs, anode, end) && |runs| <= 65536
    requires Stops(ByTable(d, v), end, |LinkedData(ByTable(d, v), d, runs, anode, end)| >= byteSize, GUARD - |runs|)
    ensures ReadChain(ByDescent(d, v), d, anode, byteSize, GUARD) ==
            Ok(Prefix(LinkedData(ByTable(d, v), d, runs, anode, end), byteSize))
  {
    hide Table, AnodeAt, Linked, ReadChain, FileData, Readable;
    var find, plain := ByDescent(d, v), ByTable(d, v);
    forall n ensures find(n) == plain(n) {
      DescentIsTable(d, v, n);
    }
    SameLinks(plain, find, d, runs, anode, end);
    ReadChainIsPrefix(find, d, runs, anode, end, byteSize, GUARD);
  }
}
