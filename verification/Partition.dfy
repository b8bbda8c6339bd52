/** A partition as a seekable window on a disk: its cursor, its reads, and where the window comes from. */
module Partition {
  import opened Bits
  import opened Disk

  /** What the parent disk answers to a one-block read. */
  datatype Fetch = Data(block: Block) | Short | Failed

  /** The disk, by the 32-bit block number passed to it. */
  type Parent = u32 -> Fetch

  function Fetched(disk: Parent, p: nat): Fetch {
    disk(Wrap32(p / BSIZE))
  }

  /** The disk bytes from p on, as far as they can be fetched at all. */
  ghost predicate Readable(disk: Parent, p: nat, n: nat) {
    forall q :: p <= q < p + n ==> Fetched(disk, q).Data?
  }

  ghost function Bytes(disk: Parent, p: nat, n: nat): (s: seq<u8>)
    requires Readable(disk, p, n)
    ensures |s| == n
  {
    seq(n, i requires 0 <= i < n => Fetched(disk, p + i).block[(p + i) % BSIZE])
  }

  /** A byte range of one block. */
  lemma BytesOfBlock(disk: Parent, p: nat, n: nat)
    requires Fetched(disk, p).Data? && p % BSIZE + n <= BSIZE
    ensures Readable(disk, p, n)
    ensures Bytes(disk, p, n) == Fetched(disk, p).block[p % BSIZE..p % BSIZE + n]
  {
    forall q | p <= q < p + n
      ensures Fetched(disk, q) == Fetched(disk, p) && q % BSIZE == p % BSIZE + (q - p)
    {
      InBlock(p, q - p);
    }
    forall i | 0 <= i < n
      ensures Bytes(disk, p, n)[i] == Fetched(disk, p).block[p % BSIZE + i]
    {
      InBlock(p, i);
    }
  }

  lemma InBlock(p: nat, i: nat)
    requires p % BSIZE + i < BSIZE
    ensures (p + i) / BSIZE == p / BSIZE && (p + i) % BSIZE == p % BSIZE + i
  {
  }

  lemma BytesConcat(disk: Parent, p: nat, m: nat, n: nat)
    requires Readable(disk, p, m) && Readable(disk, p + m, n)
    ensures Readable(disk, p, m + n) && Bytes(disk, p, m + n) == Bytes(disk, p, m) + Bytes(disk, p + m, n)
  {
  }

  /** How many of the n bytes from p on come before the first missing block. */
  function Span(disk: Parent, p: nat, n: nat): (k: nat)
    ensures k <= n
    decreases n
  {
    if n == 0 || !Fetched(disk, p).Data? then 0 else 1 + Span(disk, p + 1, n - 1)
  }

  lemma {:induction false} SpanUnique(disk: Parent, p: nat, n: nat, k: nat)
    requires k <= n && Readable(disk, p, k) && (k < n ==> !Fetched(disk, p + k).Data?)
    ensures k == Span(disk, p, n)
    decreases n
  {
    hide Fetched;
    if k > 0 {
      SpanUnique(disk, p + 1, n - 1, k - 1);
    }
  }

  lemma {:induction false} SpanReadable(disk: Parent, p: nat, n: nat)
    ensures Readable(disk, p, Span(disk, p, n))
    decreases n
  {
    hide Fetched;
    if n > 0 && Fetched(disk, p).Data? {
      SpanReadable(disk, p + 1, n - 1);
    }
  }

  class Window {
    const disk: Parent
    const start: u64
    const size: u64
    var cursor: nat

    /** The block numbers asked of the parent so far. */
    ghost var asked: set<nat>

    /** f_part_open: a new instance starts at the beginning. */
    constructor (parent: Parent, startByte: u64, sizeBytes: u64)
      requires startByte % BSIZE == 0 && sizeBytes % BSIZE == 0 && startByte + sizeBytes < B64
      ensures Valid() && disk == parent && start == startByte && size == sizeBytes && cursor == 0 && asked == {}
    {
      disk, start, size, cursor, asked := parent, startByte, sizeBytes, 0, {};
    }

    ghost predicate Valid()
      reads this
    {
      && start % BSIZE == 0 && size % BSIZE == 0
      && start + size < B64
      && cursor <= size
    }

    /** Every block number of the partition fits the 32-bit cell it is passed in. */
    ghost predicate Addressable() {
      start + size <= 0x1_0000_0000 * BSIZE
    }

    ghost predicate Inside(b: nat) {
      start <= b * BSIZE && (b + 1) * BSIZE <= start + size
    }

    /** f_part_seek: the position arrives as two cells. */
    method Seek(lo: u32, hi: u32) returns (status: int)
      requires Valid()
      modifies this`cursor
      ensures Valid()
      ensures var pos := lo + hi * 0x1_0000_0000;
        if pos > size then status == -1 && cursor == old(cursor) else status == 0 && cursor == pos
    {
      var pos := lo + hi * 0x1_0000_0000;
      if pos > size {
        return -1;
      }
      cursor := pos;
      status := 0;
    }

    /** How much of a read of len bytes lies in the partition. */
    ghost function Clipped(len: nat): nat
      requires Valid()
      reads this
    {
      Clip(size, cursor, len)
    }

    /** One turn of f_part_read's loop: fetch the block under the cursor and cut out what is wanted of it. */
    method Chunk(remain: nat) returns (got: Fetch, piece: seq<u8>)
      requires Valid() && 0 < remain <= size - cursor
      modifies this`asked
      ensures got == Fetched(disk, start + cursor)
      ensures got.Data? ==>
        && 0 < |piece| <= remain
        && Readable(disk, start + cursor, |piece|) && piece == Bytes(disk, start + cursor, |piece|)
      ensures Addressable() ==> forall b :: b in asked ==> b in old(asked) || Inside(b)
    {
      hide Bytes, Readable;
      var absByte := start + cursor;
      var absBlock := absByte / BSIZE;
      var off := absByte - absBlock * BSIZE;
      var chunk := BSIZE - off;
      if chunk > remain {
        chunk := remain;
      }
      WithinWindow(start, size, cursor);
      asked := asked + {Wrap32(absBlock)};
      got := disk(Wrap32(absBlock));
      piece := [];
      if got.Data? {
        BytesOfBlock(disk, absByte, chunk);
        piece := got.block[off..off + chunk];
      }
    }

    /**
     f_part_read: the bytes copied out, and whether the parent reported an error.
     It stops short only at a block the parent does not deliver.
     */
    method Read(len: u32) returns (out: seq<u8>, failed: bool)
      requires Valid()
      modifies this`cursor, this`asked
      ensures Valid()
      ensures cursor == AfterRead(disk, start, size, old(cursor), len) == old(cursor) + |out|
      ensures out == Got(disk, start, size, old(cursor), len)
      ensures failed <==> |out| < old(Clipped(len)) && Fetched(disk, start + cursor).Failed?
      ensures Addressable() ==> forall b :: b in asked ==> b in old(asked) || Inside(b)
    {
      hide Bytes, Readable, Fetched, Inside, Span;
      out, failed := [], false;
      ghost var c0 := cursor;
      NoBytes(disk, start + c0);
      if len == 0 || cursor >= size {
        SpanUnique(disk, start + c0, 0, 0);
        return;
      }
      var remain: nat := len;
      if cursor + remain > size {
        remain := size - cursor;
      }
      ghost var want: nat := remain;
      while remain > 0
        invariant cursor == c0 + |out| && remain == want - |out| && cursor <= size && c0 + want <= size
        invariant Readable(disk, start + c0, |out|) && out == Bytes(disk, start + c0, |out|)
        invariant Addressable() ==> forall b :: b in asked ==> b in old(asked) || Inside(b)
      {
        var got, piece := Chunk(remain);
        if !got.Data? {
          SpanUnique(disk, start + c0, want, |out|);
        }
        if got.Failed? {
          failed := true;
          return;
        }
        if !got.Data? {
          return;
        }
        BytesConcat(disk, start + c0, |out|, |piece|);
        out := out + piece;
        cursor := cursor + |piece|;
        remain := remain - |piece|;
      }
      SpanUnique(disk, start + c0, want, |out|);
    }

    /** f_part_read_blocks: forwarded to the parent at the partition's first block plus block; not clipped. */
    method ReadBlocks(block: u32, n: u32) returns (out: seq<u8>)
      requires Valid()
      ensures Readable(disk, start + block * BSIZE, n * BSIZE) ==> out == Bytes(disk, start + block * BSIZE, n * BSIZE)
    {
      hide Readable, Bytes, Delivered;
      var first := start / BSIZE + block;
      assert first * BSIZE == start + block * BSIZE;
      out := Delivered(disk, first, n);
      DeliveredWhole(disk, first, n);
    }
  }

  lemma NoBytes(disk: Parent, p: nat)
    ensures Readable(disk, p, 0) && Bytes(disk, p, 0) == []
  {
  }

  /** The block under the cursor lies in the partition. */
  lemma WithinWindow(start: nat, size: nat, cursor: nat)
    requires start % BSIZE == 0 && size % BSIZE == 0 && cursor < size
    ensures var b := (start + cursor) / BSIZE;
      && start <= b * BSIZE && (b + 1) * BSIZE <= start + size
      && (start + size <= 0x1_0000_0000 * BSIZE ==> Wrap32(b) == b)
  {
  }

  /** The blocks a parent delivers before the first one it cannot. */
  function Delivered(disk: Parent, block: nat, n: nat): seq<u8>
    decreases n
  {
    if n == 0 || !disk(Wrap32(block)).Data? then []
    else disk(Wrap32(block)).block + Delivered(disk, block + 1, n - 1)
  }

  /** Whole blocks are the disk bytes at their address. */
  lemma {:induction false} DeliveredBytes(disk: Parent, block: nat, n: nat)
    requires Readable(disk, block * BSIZE, n * BSIZE)
    ensures Delivered(disk, block, n) == Bytes(disk, block * BSIZE, n * BSIZE)
    decreases n
  {
    hide Bytes;
    if n == 0 {
      NoBytes(disk, block * BSIZE);
    } else {
      assert Fetched(disk, block * BSIZE).Data?;
      BytesOfBlock(disk, block * BSIZE, BSIZE);
      assert Readable(disk, (block + 1) * BSIZE, (n - 1) * BSIZE);
      DeliveredBytes(disk, block + 1, n - 1);
      BytesConcat(disk, block * BSIZE, BSIZE, (n - 1) * BSIZE);
    }
  }

  lemma DeliveredWhole(disk: Parent, block: nat, n: nat)
    ensures Readable(disk, block * BSIZE, n * BSIZE) ==>
      Delivered(disk, block, n) == Bytes(disk, block * BSIZE, n * BSIZE)
  {
    hide Readable, Bytes, Delivered;
    if Readable(disk, block * BSIZE, n * BSIZE) {
      DeliveredBytes(disk, block, n);
    }
  }

  /** read-blocks of block b agrees with a seek to b * 512 and a read, for blocks of the partition that can be read. */
  lemma BlocksAgreeWithCursor(disk: Parent, start: nat, size: nat, block: nat, n: nat)
    requires start % BSIZE == 0 && (block + n) * BSIZE <= size
    requires Readable(disk, start + block * BSIZE, n * BSIZE)
    ensures Got(disk, start, size, block * BSIZE, n * BSIZE) == Delivered(disk, start / BSIZE + block, n)
  {
    hide Bytes;
    var b := start / BSIZE + block;
    assert b * BSIZE == start + block * BSIZE;
    SpanUnique(disk, start + block * BSIZE, n * BSIZE, n * BSIZE);
    DeliveredBytes(disk, b, n);
  }

  // ---------- sequences of operations ----------

  function Clip(size: nat, cursor: nat, len: nat): (n: nat)
    requires cursor <= size
    ensures cursor + n <= size
  {
    if cursor + len > size then size - cursor else len
  }

  /** The cursor after reading len bytes. */
  function AfterRead(disk: Parent, start: nat, size: nat, cursor: nat, len: nat): (c: nat)
    requires cursor <= size
    ensures cursor <= c <= size
  {
    cursor + Span(disk, start + cursor, Clip(size, cursor, len))
  }

  /** The bytes such a read returns: those of the disk, clipped to the partition and cut at the first missing block. */
  ghost function Got(disk: Parent, start: nat, size: nat, cursor: nat, len: nat): (s: seq<u8>)
    requires cursor <= size
    ensures cursor + |s| == AfterRead(disk, start, size, cursor, len)
  {
    SpanReadable(disk, start + cursor, Clip(size, cursor, len));
    Bytes(disk, start + cursor, Span(disk, start + cursor, Clip(size, cursor, len)))
  }

  function AfterReads(disk: Parent, start: nat, size: nat, cursor: nat, lens: seq<nat>): (c: nat)
    requires cursor <= size
    ensures cursor <= c <= size
    decreases |lens|
  {
    if lens == [] then cursor
    else AfterReads(disk, start, size, AfterRead(disk, start, size, cursor, lens[0]), lens[1..])
  }

  /** What successive reads return, put together. */
  ghost function GotAll(disk: Parent, start: nat, size: nat, cursor: nat, lens: seq<nat>): seq<u8>
    requires cursor <= size
    decreases |lens|
  {
    if lens == [] then []
    else
      Got(disk, start, size, cursor, lens[0])
      + GotAll(disk, start, size, AfterRead(disk, start, size, cursor, lens[0]), lens[1..])
  }

  function Sum(lens: seq<nat>): nat {
    if lens == [] then 0 else lens[0] + Sum(lens[1..])
  }

  lemma {:induction false} SpanSplit(disk: Parent, p: nat, m: nat, n: nat)
    ensures var k := Span(disk, p, m); Span(disk, p, m + n) == if k == m then m + Span(disk, p + m, n) else k
    ensures var k := Span(disk, p, m); k < m ==> !Fetched(disk, p + k).Data?
    decreases m
  {
    hide Fetched;
    if m > 0 && Fetched(disk, p).Data? {
      SpanSplit(disk, p + 1, m - 1, n);
      var k := Span(disk, p, m);
      assert p + k == p + 1 + Span(disk, p + 1, m - 1);
    }
  }

  /** Reading in two goes is reading once. */
  lemma ReadTwice(disk: Parent, start: nat, size: nat, cursor: nat, m: nat, n: nat)
    requires cursor <= size
    ensures var c := AfterRead(disk, start, size, cursor, m);
      && AfterRead(disk, start, size, c, n) == AfterRead(disk, start, size, cursor, m + n)
      && Got(disk, start, size, cursor, m) + Got(disk, start, size, c, n) == Got(disk, start, size, cursor, m + n)
  {
    hide Span, Bytes, Readable;
    var a, b := Clip(size, cursor, m), Clip(size, cursor, m + n);
    SpanSplit(disk, start + cursor, a, b - a);
    var c := AfterRead(disk, start, size, cursor, m);
    if c < cursor + a {
      NoBytes(disk, start + c);
      SpanUnique(disk, start + c, Clip(size, c, n), 0);
    }
    SpanReadable(disk, start + cursor, a);
    SpanReadable(disk, start + c, Clip(size, c, n));
    BytesConcat(disk, start + cursor, Span(disk, start + cursor, a), Span(disk, start + c, Clip(size, c, n)));
  }

  /** However a stretch is cut into reads, they return together what one read of the total returns. */
  lemma {:induction false} PiecewiseIsWhole(disk: Parent, start: nat, size: nat, cursor: nat, lens: seq<nat>)
    requires cursor <= size
    ensures AfterReads(disk, start, size, cursor, lens) == AfterRead(disk, start, size, cursor, Sum(lens))
    ensures GotAll(disk, start, size, cursor, lens) == Got(disk, start, size, cursor, Sum(lens))
    decreases |lens|
  {
    hide AfterRead, Got;
    if lens == [] {
      ReadNothing(disk, start, size, cursor);
    } else {
      PiecewiseIsWhole(disk, start, size, AfterRead(disk, start, size, cursor, lens[0]), lens[1..]);
      ReadTwice(disk, start, size, cursor, lens[0], Sum(lens[1..]));
    }
  }

  lemma ReadNothing(disk: Parent, start: nat, size: nat, cursor: nat)
    requires cursor <= size
    ensures AfterRead(disk, start, size, cursor, 0) == cursor && Got(disk, start, size, cursor, 0) == []
  {
  }

  // ---------- geometry ----------

  datatype Extent = Extent(start: u64, size: u64, blockSize: u32, blocks: u64)

  datatype Decoded = Usable(e: Extent) | Rejected

  const B64: nat := 0x1_0000_0000_0000_0000

  /** A product in 64 bits. */
  function Times64(x: nat, y: nat): u64 {
    x * y % B64
  }

  /** Bytes per cylinder. */
  function Bpc(longs: u32, surfaces: u32, perTrack: u32): u64 {
    Times64(Times64(Times64(surfaces, perTrack), longs), 4)
  }

  /** The window described by a partition block; 64-bit products wrap. */
  function Decode(longs: u32, surfaces: u32, perTrack: u32, low: u32, high: u32): Decoded {
    if longs == 0 || surfaces == 0 || perTrack == 0 || high < low then Rejected
    else
      var bpc := Bpc(longs, surfaces, perTrack);
      var bs := if Wrap32(longs * 4) == 0 then 512 else Wrap32(longs * 4);
      var size := Times64(Wrap32(high - low + 1), bpc);
      Usable(Extent(Times64(low, bpc), size, bs, Quotient(size, bs)))
  }

  function Quotient(x: u64, m: u32): (q: u64)
    requires m > 0
  {
    QuotientSmaller(x, m);
    x / m
  }

  lemma QuotientSmaller(x: nat, m: nat)
    requires m > 0
    ensures 0 <= x / m <= x
  {
    assert x / m * m <= x;
    MulMonotone(1, m, x / m);
  }

  lemma SmallProduct(x: nat, y: nat, bound: nat)
    requires x <= bound && bound * y < B64
    ensures Times64(x, y) == x * y
  {
    MulMonotone(x, bound, y);
  }

  /** A cylinder is a whole number of blocks of four bytes per long. */
  lemma CylinderBytes(longs: u32, surfaces: u32, perTrack: u32, c: nat)
    requires c == surfaces * perTrack && c * (longs * 4) < B64
    ensures Bpc(longs, surfaces, perTrack) == c * (longs * 4)
  {
    assert 0 <= c by { MulMonotone(0, surfaces, perTrack); }
    if longs == 0 {
      Zero(surfaces, perTrack);
    } else {
      Products(c, longs);
      assert Times64(surfaces, perTrack) == c;
      assert Times64(c, longs) == c * longs;
    }
  }

  lemma Zero(surfaces: u32, perTrack: u32)
    ensures Bpc(0, surfaces, perTrack) == 0
  {
  }

  lemma Products(c: nat, longs: nat)
    requires longs > 0 && c * (longs * 4) < B64
    ensures c < B64 && 0 <= c * longs < B64 && c * longs * 4 == c * (longs * 4)
  {
    MulMonotone(1, longs, c);
  }

  /**
   Geometry whose last cylinder ends inside 64 bits gives a window of whole blocks, from
   the first cylinder to the end of the last; a block is four bytes for every long.
   */
  lemma GeometryAligned(longs: u32, surfaces: u32, perTrack: u32, low: u32, high: u32, bpc: nat)
    requires 0 < longs < 0x4000_0000 && surfaces > 0 && perTrack > 0
    requires low <= high && high - low + 1 < 0x1_0000_0000
    requires bpc == surfaces * perTrack * (longs * 4) && bpc > 0 && (high + 1) * bpc < B64
    ensures var d := Decode(longs, surfaces, perTrack, low, high);
      && d.Usable? && d.e.blockSize == longs * 4
      && d.e.start % (longs * 4) == 0 && d.e.size % (longs * 4) == 0 && d.e.blocks * (longs * 4) == d.e.size
      && d.e.start == low * bpc && d.e.start + d.e.size == (high + 1) * bpc
  {
    hide Times64, Bpc, Quotient;
    var c, bs := surfaces * perTrack, longs * 4;
    MulMonotone(1, high + 1, bpc);
    CylinderBytes(longs, surfaces, perTrack, c);
    SmallProduct(low, bpc, high + 1);
    SmallProduct(high - low + 1, bpc, high + 1);
    Cylinders(c, bs, bpc, low, high);
    WholeBlocks((high - low + 1) * bpc, bs);
  }

  lemma WholeBlocks(x: nat, bs: u32)
    requires bs > 0 && x % bs == 0 && x < B64
    ensures Quotient(x, bs) * bs == x
  {
  }

  lemma Cylinders(c: nat, bs: nat, bpc: nat, low: nat, high: nat)
    requires low <= high && bs > 0 && bpc == c * bs
    ensures low * bpc + (high - low + 1) * bpc == (high + 1) * bpc
    ensures low * bpc % bs == 0 && (high - low + 1) * bpc % bs == 0
  {
    Multiple(low, c, bs);
    Multiple(high - low + 1, c, bs);
  }

  lemma Multiple(n: nat, c: nat, bs: nat)
    requires bs > 0
    ensures n * (c * bs) % bs == 0
  {
    assert n * (c * bs) == n * c * bs;
    ModUnique(n * c * bs, bs, n * c, 0);
  }
}
