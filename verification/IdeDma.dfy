/** IDE bus-master reads: register encodings, chunking into 64 KiB transfers, and the PIO fallback. */
module IdeDma {
  import opened Bits
  import opened Endian
  import opened AddressSpace

  const SECTOR: nat := 512
  const LBA28: nat := 0x1000_0000
  const CHUNK: nat := 128
  const SDH_IBM: u8 := 0xA0
  const SDH_LBA: u8 := 0xE0

  type Sector = s: seq<u8> | |s| == SECTOR witness seq(SECTOR, _ => 0)

  /** The medium, by logical block address. */
  type Medium = nat -> Sector

  /** count sectors from block on, end to end. */
  ghost function Sectors(d: Medium, block: nat, count: nat): (s: seq<u8>)
    ensures |s| == count * SECTOR
  {
    if count == 0 then [] else Sectors(d, block, count - 1) + d(block + count - 1)
  }

  // ---------- encodings ----------

  function Bswap16(v: u16): u16 {
    Word(Byte(v, 1), Byte(v, 0))
  }

  function Bswap32(v: u32): u32 {
    Long(Byte(v, 3), Byte(v, 2), Byte(v, 1), Byte(v, 0))
  }

  /** A load by the little-endian bus master. */
  function Le16(s: seq<u8>): u16
    requires |s| == 2
  {
    Word(s[0], s[1])
  }

  function Le32(s: seq<u8>): u32
    requires |s| == 4
  {
    Long(s[0], s[1], s[2], s[3])
  }

  /** The one descriptor: address, count and the end-of-table flag. */
  function Prd(buf: u32, bytes: u32): (p: seq<u8>)
    ensures |p| == 8
  {
    Be32Bytes(Bswap32(buf)) + Be16Bytes(Bswap16(bytes % 0x1_0000)) + Be16Bytes(Bswap16(0x8000))
  }

  /** The descriptor as the bus master reads it; a count of 0 stands for 64 KiB. */
  function PrdAddress(p: seq<u8>): u32
    requires |p| == 8
  {
    Le32(p[..4])
  }

  function PrdBytes(p: seq<u8>): nat
    requires |p| == 8
  {
    var n := Le16(p[4..6]);
    if n == 0 then 0x1_0000 else n
  }

  predicate PrdLast(p: seq<u8>)
    requires |p| == 8
  {
    Le16(p[6..]) >= 0x8000
  }

  lemma PrdRoundTrip(buf: u32, bytes: u32)
    requires 0 < bytes <= 0x1_0000
    ensures PrdAddress(Prd(buf, bytes)) == buf && PrdBytes(Prd(buf, bytes)) == bytes && PrdLast(Prd(buf, bytes))
  {
    hide Be16Bytes, Be32Bytes, Le16, Le32, Bswap16, Bswap32;
    var p := Prd(buf, bytes);
    SwapReads32(buf);
    SwapReads16(bytes % 0x1_0000);
    SwapReads16(0x8000);
    assert p[..4] == Be32Bytes(Bswap32(buf));
    assert p[4..6] == Be16Bytes(Bswap16(bytes % 0x1_0000));
    assert p[6..] == Be16Bytes(Bswap16(0x8000));
  }

  lemma SwapReads16(v: u16)
    ensures Le16(Be16Bytes(Bswap16(v))) == v
  {
    hide Byte;
    BytesOfWord(Byte(v, 1), Byte(v, 0));
    WordOfBytes(v);
  }

  lemma SwapReads32(v: u32)
    ensures Le32(Be32Bytes(Bswap32(v))) == v
  {
    hide Byte, Long;
    BytesOfLong(Byte(v, 3), Byte(v, 2), Byte(v, 1), Byte(v, 0));
    LongOfBytes(v);
  }

  /** The task file: drive and head, sector count, and the three low address bytes. */
  datatype TaskFile = TaskFile(sdh: u8, count: u8, sector: u8, cylLo: u8, cylHi: u8)

  function Program(id: nat, block: u32, count: u32): TaskFile
    requires id < 2
  {
    SdhIs(id, Byte(block, 3) % 16);
    TaskFile(Or(Or(Or(SDH_IBM, id * 16), SDH_LBA), Byte(block, 3) % 16),
             Byte(count, 0), Byte(block, 0), Byte(block, 1), Byte(block, 2))
  }

  lemma SdhIs(id: nat, nibble: nat)
    requires id < 2 && nibble < 16
    ensures Or(Or(Or(SDH_IBM, id * 16), SDH_LBA), nibble) == 0xE0 + 16 * id + nibble
  {
    hide Or, Low;
    SelectBits(id);
    assert Pow2(4) == 16;
    LowUnique(0xE0 + 16 * id, 4, 14 + id, 0);
    OrAdd(4, 0xE0 + 16 * id, nibble);
  }

  lemma SelectBits(id: nat)
    requires id < 2
    ensures Or(Or(SDH_IBM, id * 16), SDH_LBA) == 0xE0 + 16 * id
  {
    hide Or;
    OrSmall();
    OrShift(10, id);
    OrShift(10 + id, 14);
    assert SDH_IBM == 16 * 10 && SDH_LBA == 16 * 14 && id * 16 == 16 * id;
  }

  lemma OrSmall()
    ensures Or(10, 0) == 10 && Or(10, 1) == 11 && Or(10, 14) == 14 && Or(11, 14) == 15
  {
  }

  lemma OrEven(x: nat, y: nat)
    ensures Or(2 * x, 2 * y) == 2 * Or(x, y)
  {
    assert 2 * x / 2 == x && 2 * y / 2 == y;
  }

  lemma OrShift(x: nat, y: nat)
    ensures Or(16 * x, 16 * y) == 16 * Or(x, y)
  {
    hide Or;
    OrEven(x, y);
    OrEven(2 * x, 2 * y);
    OrEven(4 * x, 4 * y);
    OrEven(8 * x, 8 * y);
  }

  function Lba(t: TaskFile): nat {
    Long(t.sector, t.cylLo, t.cylHi, t.sdh % 16)
  }

  /** A sector count of 0 stands for 256. */
  function SectorCount(t: TaskFile): nat {
    if t.count == 0 then 256 else t.count
  }

  /** The address read back is the one programmed exactly when it fits 28 bits. */
  lemma LbaRoundTrip(id: nat, block: u32, count: u32)
    requires id < 2
    ensures Lba(Program(id, block, count)) == block % LBA28
    ensures Lba(Program(id, block, count)) == block <==> block < LBA28
    ensures 0 < count <= 256 ==> SectorCount(Program(id, block, count)) == count
    ensures Program(id, block, count).sdh / 16 % 2 == id
  {
    hide Or, Byte, Long;
    SdhIs(id, Byte(block, 3) % 16);
    LongOfBytes(block);
    LongMod(Byte(block, 0), Byte(block, 1), Byte(block, 2), Byte(block, 3));
    CountByte(count);
  }

  lemma CountByte(count: u32)
    ensures Byte(count, 0) == count % 0x100
  {
  }

  lemma LongMod(b0: nat, b1: nat, b2: nat, b3: nat)
    requires b0 < 0x100 && b1 < 0x100 && b2 < 0x100
    ensures Long(b0, b1, b2, b3) % LBA28 == Long(b0, b1, b2, b3 % 16)
  {
    ModUnique(Long(b0, b1, b2, b3), LBA28, b3 / 16, Long(b0, b1, b2, b3 % 16));
  }

  // ---------- transfers ----------

  /** Memory with bytes stored from a on. */
  function Stored(m: Memory, a: nat, bytes: seq<u8>): Memory
    requires a + |bytes| <= SPACE
  {
    m[..a] + bytes + m[a + |bytes|..]
  }

  /** What one DMA attempt does: all of it, or fail after putting anything at all in its own part of the buffer. */
  datatype Attempt = Done | Broken(garbage: seq<u8>)

  /** A transfer never leaves its part of the buffer. */
  function Cut(s: seq<u8>, n: nat): (r: seq<u8>)
    ensures |r| <= n
  {
    if |s| <= n then s else s[..n]
  }

  /** What the PIO path does with what is left: an error, or all but the last `short` sectors read in order. */
  datatype Pio = PioError | PioRead(short: nat)

  function PioCount(pio: Pio, asked: nat): (n: nat)
    requires pio.PioRead?
    ensures n <= asked
  {
    if pio.short > asked then 0 else asked - pio.short
  }

  datatype Outcome = Read(n: nat) | Error

  /** The address of sector i of a request, of which the first dma sectors came by DMA and the others by PIO. */
  function Origin(block: u32, dma: nat, i: nat): nat {
    if i < dma then Wrap32(block + i / CHUNK * CHUNK) % LBA28 + i % CHUNK
    else Wrap32(block + dma) + (i - dma)
  }

  /** The first n sectors of a request, end to end. */
  ghost function Gathered(d: Medium, block: u32, dma: nat, n: nat): (s: seq<u8>)
    ensures |s| == n * SECTOR
  {
    if n == 0 then [] else Gathered(d, block, dma, n - 1) + d(Origin(block, dma, n - 1))
  }

  /** One more chunk by DMA. */
  lemma {:induction false} GatherChunk(d: Medium, block: u32, dma: nat, n: nat, k: nat)
    requires n % CHUNK == 0 && k <= CHUNK && n + k <= dma
    ensures Gathered(d, block, dma, n + k) == Gathered(d, block, dma, n) + Sectors(d, Wrap32(block + n) % LBA28, k)
    decreases k
  {
    hide Wrap32, Origin;
    if k > 0 {
      GatherChunk(d, block, dma, n, k - 1);
      OriginInChunk(block, dma, n, k - 1);
      var a, b := Gathered(d, block, dma, n), Sectors(d, Wrap32(block + n) % LBA28, k - 1);
      var c := d(Wrap32(block + n) % LBA28 + (k - 1));
      assert (a + b) + c == a + (b + c);
    } else {
      assert Gathered(d, block, dma, n) + [] == Gathered(d, block, dma, n);
    }
  }

  lemma OriginInChunk(block: u32, dma: nat, n: nat, i: nat)
    requires n % CHUNK == 0 && i < CHUNK && n + i < dma
    ensures Origin(block, dma, n + i) == Wrap32(block + n) % LBA28 + i
  {
    hide Wrap32;
    assert (n + i) / CHUNK * CHUNK == n && (n + i) % CHUNK == i;
  }

  /** The rest by PIO. */
  lemma {:induction false} GatherPio(d: Medium, block: u32, dma: nat, k: nat)
    ensures Gathered(d, block, dma, dma + k) == Gathered(d, block, dma, dma) + Sectors(d, Wrap32(block + dma), k)
  {
    hide Wrap32;
    if k > 0 {
      GatherPio(d, block, dma, k - 1);
      var a, b := Gathered(d, block, dma, dma), Sectors(d, Wrap32(block + dma), k - 1);
      var c := d(Wrap32(block + dma) + (k - 1));
      assert (a + b) + c == a + (b + c);
    } else {
      assert Gathered(d, block, dma, dma) + [] == Gathered(d, block, dma, dma);
    }
  }

  /** Sectors read by DMA do not depend on where PIO takes over. */
  lemma {:induction false} GatheredSame(d: Medium, block: u32, dma: nat, more: nat, n: nat)
    requires n <= dma && n <= more
    ensures Gathered(d, block, dma, n) == Gathered(d, block, more, n)
  {
    if n > 0 {
      GatheredSame(d, block, dma, more, n - 1);
    }
  }

  /** A request that ends within 28 bits gets its own sectors, in order. */
  lemma {:induction false} GatheredExactly(d: Medium, block: u32, dma: nat, n: nat)
    requires block + n <= LBA28
    ensures Gathered(d, block, dma, n) == Sectors(d, block, n)
  {
    if n > 0 {
      GatheredExactly(d, block, dma, n - 1);
      OriginExactly(block, dma, n - 1);
    }
  }

  lemma OriginExactly(block: u32, dma: nat, i: nat)
    requires block + i < LBA28
    ensures Origin(block, dma, i) == block + i
  {
  }

  /** A request starting beyond 28 bits that is served by DMA at all gets its first sector from somewhere else. */
  lemma BeyondIsWrong(block: u32, dma: nat)
    requires block >= LBA28 && dma > 0
    ensures Origin(block, dma, 0) == block % LBA28 != block
  {
  }

  /** The buffer holds the first n sectors of the request and nothing outside the buffer has changed. */
  ghost predicate Holds(d: Medium, m0: Memory, m: Memory, addr: nat, block: u32, dma: nat, count: nat, n: nat) {
    && n <= count && addr + count * SECTOR <= SPACE
    && m[addr..addr + n * SECTOR] == Gathered(d, block, dma, n)
    && m[..addr] == m0[..addr] && m[addr + count * SECTOR..] == m0[addr + count * SECTOR..]
  }

  /** Bytes stored right after those already held. */
  lemma HoldsMore(d: Medium, m0: Memory, m: Memory, addr: nat, block: u32, dma: nat, count: nat, n: nat, k: nat,
                  s: seq<u8>)
    requires Holds(d, m0, m, addr, block, dma, count, n) && n + k <= count
    requires |s| == k * SECTOR && Gathered(d, block, dma, n + k) == Gathered(d, block, dma, n) + s
    ensures Holds(d, m0, Stored(m, addr + n * SECTOR, s), addr, block, dma, count, n + k)
  {
    hide Gathered;
    var a := addr + n * SECTOR;
    var m' := Stored(m, a, s);
    assert m'[addr..a] == m[addr..a];
    assert m'[a..a + |s|] == s;
    assert m'[addr..addr + (n + k) * SECTOR] == m'[addr..a] + m'[a..a + |s|];
    assert m'[..addr] == m[..addr];
    assert m'[addr + count * SECTOR..] == m[addr + count * SECTOR..];
  }

  /** Garbage inside the unread part of the buffer does no harm. */
  lemma HoldsStill(d: Medium, m0: Memory, m: Memory, addr: nat, block: u32, dma: nat, count: nat, n: nat, s: seq<u8>)
    requires Holds(d, m0, m, addr, block, dma, count, n) && n * SECTOR + |s| <= count * SECTOR
    ensures Holds(d, m0, Stored(m, addr + n * SECTOR, s), addr, block, dma, count, n)
  {
    hide Gathered;
    var a := addr + n * SECTOR;
    var m' := Stored(m, a, s);
    assert m'[addr..a] == m[addr..a];
    assert m'[..addr] == m[..addr];
    assert m'[addr + count * SECTOR..] == m[addr + count * SECTOR..];
  }

  class Channel {
    const medium: Medium
    const id: nat
    var mem: Memory
    var prd: seq<u8>
    var task: TaskFile

    constructor (disk: Medium, drive: nat, memory: Memory)
      requires drive < 2
      ensures Valid() && medium == disk && id == drive && mem == memory
    {
      medium, id, mem := disk, drive, memory;
      prd, task := Prd(0, 0), TaskFile(0, 0, 0, 0, 0);
    }

    ghost predicate Valid()
      reads this
    {
      id < 2 && |prd| == 8
    }

    /** The bus master and drive at work: they know only the descriptor and the task file. */
    method Transfer(attempt: Attempt) returns (ok: bool)
      requires Valid()
      requires PrdAddress(prd) + PrdBytes(prd) <= SPACE && SectorCount(task) * SECTOR == PrdBytes(prd)
      modifies this`mem
      ensures ok == attempt.Done?
      ensures mem == Stored(old(mem), PrdAddress(prd),
                            if ok then Sectors(medium, Lba(task), SectorCount(task))
                            else Cut(attempt.garbage, PrdBytes(prd)))
    {
      match attempt
      case Broken(garbage) =>
        mem := Stored(mem, PrdAddress(prd), Cut(garbage, PrdBytes(prd)));
        ok := false;
      case Done =>
        var n, out := 0, [];
        while n < SectorCount(task)
          invariant n <= SectorCount(task) && out == Sectors(medium, Lba(task), n)
        {
          out := out + medium(Lba(task) + n);
          n := n + 1;
        }
        mem := Stored(mem, PrdAddress(prd), out);
        ok := true;
    }

    /** dma_read_one: fill in the descriptor and the task file and let the hardware go. */
    method DmaReadOne(buf: u32, block: u32, count: u32, attempt: Attempt) returns (ok: bool)
      requires Valid() && 0 < count <= CHUNK && buf + count * SECTOR <= SPACE
      modifies this`mem, this`prd, this`task
      ensures Valid() && ok == attempt.Done?
      ensures mem == Stored(old(mem), buf,
                            if ok then Sectors(medium, block % LBA28, count)
                            else Cut(attempt.garbage, count * SECTOR))
    {
      hide Prd, PrdAddress, PrdBytes, Program, Lba, SectorCount, Sectors;
      PrdRoundTrip(buf, count * SECTOR);
      LbaRoundTrip(id, block, count);
      prd := Prd(buf, count * SECTOR);
      task := Program(id, block, count);
      ok := Transfer(attempt);
    }

    /** f_ata_disk_read_blocks, as far as its caller relies on it. */
    method PioReadBlocks(buf: u32, block: u32, count: u32, pio: Pio) returns (r: Outcome)
      requires buf + count * SECTOR <= SPACE
      modifies this`mem
      ensures pio.PioError? ==> r == Error && mem == old(mem)
      ensures pio.PioRead? ==>
        r == Read(PioCount(pio, count)) && mem == Stored(old(mem), buf, Sectors(medium, block, PioCount(pio, count)))
    {
      match pio
      case PioError =>
        r := Error;
      case PioRead(_) =>
        var k := PioCount(pio, count);
        var n, out := 0, [];
        while n < k
          invariant n <= k && out == Sectors(medium, block, n)
        {
          out := out + medium(block + n);
          n := n + 1;
        }
        mem := Stored(mem, buf, out);
        r := Read(k);
    }

    /** The chunk loop of f_dma_read_blocks: the number of sectors read before a chunk failed, if one did. */
    method ReadChunks(addr: u32, block: u32, count: u32, attempts: nat -> Attempt) returns (done: nat)
      requires Valid() && addr + count * SECTOR <= SPACE
      modifies this`mem, this`prd, this`task
      ensures Valid() && done <= count
      ensures Holds(medium, old(mem), mem, addr, block, done, count, done)
      ensures (forall i :: attempts(i).Done?) ==> done == count
    {
      hide Sectors, Gathered, Holds, Wrap32;
      HoldsNothing(medium, mem, addr, block, count, count);
      var chunk: nat := 0;
      done := 0;
      ghost var m0 := mem;
      while done < count
        invariant done <= count && Valid() && (done < count ==> done % CHUNK == 0)
        invariant Holds(medium, m0, mem, addr, block, count, count, done)
      {
        var size := if count - done > CHUNK then CHUNK else count - done;
        var attempt := attempts(chunk);
        ghost var sectors := Sectors(medium, Wrap32(block + done) % LBA28, size);
        GatherChunk(medium, block, count, done, size);
        HoldsMore(medium, m0, mem, addr, block, count, count, done, size, sectors);
        if attempt.Broken? {
          HoldsStill(medium, m0, mem, addr, block, count, count, done, Cut(attempt.garbage, size * SECTOR));
        }
        var ok := DmaReadOne(addr + done * SECTOR, Wrap32(block + done), size, attempt);
        if !ok {
          break;
        }
        done := done + size;
        chunk := chunk + 1;
      }
      HoldsAs(medium, m0, mem, addr, block, count, done);
    }

    /**
     f_dma_read_blocks. attempts tells what happens to each DMA chunk in turn
     and pio what the fallback does if it is needed; dma sectors come by DMA.
     */
    method ReadBlocks(addr: u32, block: u32, count: u32, attempts: nat -> Attempt, pio: Pio)
      returns (r: Outcome, ghost dma: nat)
      requires Valid() && addr + count * SECTOR <= SPACE
      modifies this`mem, this`prd, this`task
      ensures Valid() && dma <= count
      ensures r.Read? ==> Holds(medium, old(mem), mem, addr, block, dma, count, r.n)
      ensures r.Read? && block + count <= LBA28 ==> mem[addr..addr + r.n * SECTOR] == Sectors(medium, block, r.n)
      ensures r.Error? ==> pio.PioError? && Holds(medium, old(mem), mem, addr, block, dma, count, dma)
      ensures pio == PioRead(0) ==> r == Read(count)
      ensures (forall i :: attempts(i).Done?) ==> r == Read(count) && dma == count
    {
      hide Sectors, Gathered, Holds, Wrap32;
      ghost var m0 := mem;
      HoldsNothing(medium, mem, addr, block, 0, count);
      HoldsExactly(medium, mem, mem, addr, block, 0, count, 0);
      if count == 0 {
        return Read(0), 0;
      }
      var done := ReadChunks(addr, block, count, attempts);
      dma := done;
      if done < count {
        if pio.PioRead? {
          ghost var k := PioCount(pio, count - done);
          GatherPio(medium, block, done, k);
          HoldsMore(medium, m0, mem, addr, block, dma, count, done, k, Sectors(medium, Wrap32(block + done), k));
        }
        r := PioReadBlocks(addr + done * SECTOR, Wrap32(block + done), count - done, pio);
        if r.Error? {
          return;
        }
        done := done + r.n;
      }
      r := Read(done);
      HoldsExactly(medium, m0, mem, addr, block, dma, count, done);
    }
  }

  lemma HoldsNothing(d: Medium, m: Memory, addr: nat, block: u32, dma: nat, count: nat)
    requires addr + count * SECTOR <= SPACE
    ensures Holds(d, m, m, addr, block, dma, count, 0)
  {
  }

  /** DMA has stopped after n sectors. */
  lemma HoldsAs(d: Medium, m0: Memory, m: Memory, addr: nat, block: u32, count: nat, n: nat)
    requires Holds(d, m0, m, addr, block, count, count, n)
    ensures Holds(d, m0, m, addr, block, n, count, n)
  {
    GatheredSame(d, block, count, n, n);
  }

  lemma HoldsExactly(d: Medium, m0: Memory, m: Memory, addr: nat, block: u32, dma: nat, count: nat, n: nat)
    requires Holds(d, m0, m, addr, block, dma, count, n)
    ensures block + count <= LBA28 ==> m[addr..addr + n * SECTOR] == Sectors(d, block, n)
  {
    if block + count <= LBA28 {
      GatheredExactly(d, block, dma, n);
    }
  }
}
