/** The two-pass ELF32 loader: validate everything, then place the segments; and the stack handed to the kernel. */
module ElfLoader {
  import opened Bits
  import opened Endian
  import opened AddressSpace

  const FLASH: nat := 0xFFF0_0000

  const MIN_PHENTSZ: nat := 32
  const MAX_PHENTSZ: nat := 256
  const MAX_PHNUM: nat := 32

  /** Pointers wrap at 32 bits. */
  function Addr(base: nat, off: nat): (a: u32) {
    (base + off) % SPACE
  }

  function Be16(m: Memory, base: nat, off: nat): u16 {
    Word(m[Addr(base, off + 1)], m[Addr(base, off)])
  }

  function Be32(m: Memory, base: nat, off: nat): u32 {
    Long(m[Addr(base, off + 3)], m[Addr(base, off + 2)], m[Addr(base, off + 1)], m[Addr(base, off)])
  }

  // ---------- headers ----------

  /** elf32_ppc_be_is_exec. */
  function IsExec(m: Memory, load: u32, loadlen: u32): bool {
    && load != 0 && loadlen >= 32
    && m[Addr(load, 0)] == 0x7F && m[Addr(load, 1)] == 0x45 && m[Addr(load, 2)] == 0x4C && m[Addr(load, 3)] == 0x46
    && m[Addr(load, 4)] == 1 && m[Addr(load, 5)] == 2 && m[Addr(load, 6)] == 1
    && (Be16(m, load, 16) == 2 || Be16(m, load, 16) == 3)
    && Be16(m, load, 18) == 20
  }

  /** The fields of the ELF header that the loader keeps. */
  datatype Header = Header(entry: u32, phoff: u32, phentsz: u16, phnum: u16)

  function HeaderOf(m: Memory, load: u32): Header {
    Header(Be32(m, load, 24), Be32(m, load, 28), Be16(m, load, 42), Be16(m, load, 44))
  }

  datatype Segment = Segment(typ: u32, offset: u32, vaddr: u32, filesz: u32, memsz: u32)

  function PhOffset(h: Header, i: nat): nat {
    var size: nat := h.phentsz;
    h.phoff + i * size
  }

  /** Where byte k of program header i is read. */
  function PhByte(load: u32, h: Header, i: nat, k: nat): u32 {
    Addr(load, PhOffset(h, i) + k)
  }

  function PhWord(m: Memory, load: u32, h: Header, i: nat, k: nat): u32 {
    Long(m[PhByte(load, h, i, k + 3)], m[PhByte(load, h, i, k + 2)],
         m[PhByte(load, h, i, k + 1)], m[PhByte(load, h, i, k)])
  }

  /** Program header i. */
  function SegmentAt(m: Memory, load: u32, h: Header, i: nat): Segment {
    Segment(PhWord(m, load, h, i, 0), PhWord(m, load, h, i, 4), PhWord(m, load, h, i, 8),
            PhWord(m, load, h, i, 16), PhWord(m, load, h, i, 20))
  }

  /** Where byte k of a segment's file part is read. */
  function FileByte(load: u32, s: Segment, k: nat): u32 {
    Addr(load, s.offset + k)
  }

  predicate Loadable(s: Segment) { s.typ == 1 && s.memsz != 0 }

  predicate HeaderOk(h: Header) {
    && h.phoff != 0 && h.phnum != 0
    && MIN_PHENTSZ <= h.phentsz <= MAX_PHENTSZ
    && h.phnum <= MAX_PHNUM
    && PhOffset(h, h.phnum) < SPACE
  }

  predicate SegmentOk(s: Segment) {
    Loadable(s) ==>
      && s.filesz <= s.memsz
      && s.offset + s.filesz < SPACE
      && s.vaddr + s.memsz < SPACE
      && s.vaddr < FLASH && s.vaddr + s.memsz <= FLASH
  }

  predicate Covers(s: Segment, a: nat) {
    Loadable(s) && s.vaddr <= a < s.vaddr + s.memsz
  }

  /** What an acceptable image is. */
  ghost predicate Accepted(m: Memory, load: u32, loadlen: u32) {
    var h := HeaderOf(m, load);
    && IsExec(m, load, loadlen) && HeaderOk(h)
    && (forall i :: 0 <= i < h.phnum ==> SegmentOk(SegmentAt(m, load, h, i)))
    && exists i :: 0 <= i < h.phnum && Covers(SegmentAt(m, load, h, i), h.entry)
  }

  /** The highest segment end among the first n headers. */
  ghost function HighEnd(m: Memory, load: u32, h: Header, n: nat): nat {
    if n == 0 then 0
    else
      var s, e := SegmentAt(m, load, h, n - 1), HighEnd(m, load, h, n - 1);
      if Loadable(s) && s.vaddr + s.memsz > e then s.vaddr + s.memsz else e
  }

  // ---------- images by their bytes ----------

  /** These bytes stand at this offset of the image. */
  ghost predicate Has(m: Memory, load: u32, off: nat, s: seq<u8>) {
    forall k :: 0 <= k < |s| ==> HasAt(m, load, off, s, k)
  }

  ghost predicate HasAt(m: Memory, load: u32, off: nat, s: seq<u8>, k: nat)
    requires k < |s|
  {
    m[Addr(load, off + k)] == s[k]
  }

  lemma HasBe16(m: Memory, load: u32, off: nat, v: u16)
    requires Has(m, load, off, Be16Bytes(v))
    ensures Be16(m, load, off) == v
  {
    hide Addr, Byte;
    var s := Be16Bytes(v);
    assert HasAt(m, load, off, s, 0) && HasAt(m, load, off, s, 1);
    WordOfBytes(v);
  }

  lemma HasBe32(m: Memory, load: u32, off: nat, v: u32)
    requires Has(m, load, off, Be32Bytes(v))
    ensures Be32(m, load, off) == v
  {
    hide Addr, Byte, Long;
    var s := Be32Bytes(v);
    assert HasAt(m, load, off, s, 0) && HasAt(m, load, off, s, 1);
    assert HasAt(m, load, off, s, 2) && HasAt(m, load, off, s, 3);
    LongOfBytes(v);
  }

  /** The ELF header as its specification lays it out, as far as the loader looks. */
  datatype Ehdr = Ehdr(class32: u8, msb: u8, version: u8, typ: u16, machine: u16,
                       entry: u32, phoff: u32, phentsz: u16, phnum: u16)

  ghost predicate HasEhdr(m: Memory, load: u32, e: Ehdr) {
    && Has(m, load, 0, [0x7F, 0x45, 0x4C, 0x46, e.class32, e.msb, e.version])
    && Has(m, load, 16, Be16Bytes(e.typ)) && Has(m, load, 18, Be16Bytes(e.machine))
    && Has(m, load, 24, Be32Bytes(e.entry)) && Has(m, load, 28, Be32Bytes(e.phoff))
    && Has(m, load, 42, Be16Bytes(e.phentsz)) && Has(m, load, 44, Be16Bytes(e.phnum))
  }

  /** Program header number i, from byte phoff + i * phentsz of the image on. */
  ghost predicate HasPhdr(m: Memory, load: u32, off: nat, s: Segment) {
    && Has(m, load, off, Be32Bytes(s.typ)) && Has(m, load, off + 4, Be32Bytes(s.offset))
    && Has(m, load, off + 8, Be32Bytes(s.vaddr)) && Has(m, load, off + 16, Be32Bytes(s.filesz))
    && Has(m, load, off + 20, Be32Bytes(s.memsz))
  }

  lemma HeaderRead(m: Memory, load: u32, loadlen: u32, e: Ehdr)
    requires HasEhdr(m, load, e)
    ensures HeaderOf(m, load) == Header(e.entry, e.phoff, e.phentsz, e.phnum)
    ensures IsExec(m, load, loadlen) <==>
      && load != 0 && loadlen >= 32 && e.class32 == 1 && e.msb == 2 && e.version == 1
      && (e.typ == 2 || e.typ == 3) && e.machine == 20
  {
    hide Addr, Be16, Be32, Be16Bytes, Be32Bytes;
    HasBe16(m, load, 16, e.typ);
    HasBe16(m, load, 18, e.machine);
    HasBe32(m, load, 24, e.entry);
    HasBe32(m, load, 28, e.phoff);
    HasBe16(m, load, 42, e.phentsz);
    HasBe16(m, load, 44, e.phnum);
    var id := [0x7F, 0x45, 0x4C, 0x46, e.class32, e.msb, e.version];
    assert HasAt(m, load, 0, id, 0) && HasAt(m, load, 0, id, 1) && HasAt(m, load, 0, id, 2) && HasAt(m, load, 0, id, 3);
    assert HasAt(m, load, 0, id, 4) && HasAt(m, load, 0, id, 5) && HasAt(m, load, 0, id, 6);
  }

  /** Anything else at the start of the image is not executable. */
  lemma NotElf(m: Memory, load: u32, loadlen: u32)
    requires !Has(m, load, 0, [0x7F, 0x45, 0x4C, 0x46])
    ensures !IsExec(m, load, loadlen)
  {
    hide Addr;
    var id := [0x7F, 0x45, 0x4C, 0x46];
    if IsExec(m, load, loadlen) {
      forall k | 0 <= k < |id|
        ensures HasAt(m, load, 0, id, k)
      {
      }
    }
  }

  lemma SegmentRead(m: Memory, load: u32, h: Header, i: nat, s: Segment, size: nat)
    requires size == h.phentsz && HasPhdr(m, load, h.phoff + i * size, s)
    ensures SegmentAt(m, load, h, i) == s
  {
    hide Addr, Be32, Be32Bytes, PhWord;
    var o := h.phoff + i * size;
    HasBe32(m, load, o, s.typ);
    HasBe32(m, load, o + 4, s.offset);
    HasBe32(m, load, o + 8, s.vaddr);
    HasBe32(m, load, o + 16, s.filesz);
    HasBe32(m, load, o + 20, s.memsz);
    WordIs(m, load, h, i, 0);
    WordIs(m, load, h, i, 4);
    WordIs(m, load, h, i, 8);
    WordIs(m, load, h, i, 16);
    WordIs(m, load, h, i, 20);
  }

  lemma WordIs(m: Memory, load: u32, h: Header, i: nat, k: nat)
    ensures PhWord(m, load, h, i, k) == Be32(m, load, PhOffset(h, i) + k)
  {
    hide Addr, Long;
  }

  /** A loadable segment that may be placed. */
  predicate Placeable(s: Segment) {
    && s.filesz <= s.memsz && s.offset + s.filesz < 0x1_0000_0000
    && s.vaddr < 0xFFF0_0000 && s.vaddr + s.memsz <= 0xFFF0_0000
  }

  predicate HoldsEntry(s: Segment, entry: u32) {
    s.typ == 1 && s.vaddr <= entry < s.vaddr + s.memsz
  }

  /**
   Which images are accepted, from their bytes: a 32-bit big-endian PowerPC executable
   with 1 to 32 program headers of 32 to 256 bytes that end below 4 GiB, whose loadable
   segments keep clear of the flash and one of which holds the entry point.
   */
  lemma AcceptedExactly(m: Memory, load: u32, loadlen: u32, e: Ehdr, segments: seq<Segment>)
    requires HasEhdr(m, load, e) && |segments| == e.phnum
    requires var size: nat := e.phentsz;
      forall i :: 0 <= i < |segments| ==> HasPhdr(m, load, e.phoff + i * size, segments[i])
    ensures Accepted(m, load, loadlen) <==>
      && load != 0 && loadlen >= 32 && e.class32 == 1 && e.msb == 2 && e.version == 1
      && (e.typ == 2 || e.typ == 3) && e.machine == 20
      && e.phoff != 0 && 1 <= |segments| <= 32 && 32 <= e.phentsz <= 256
      && e.phoff + |segments| * e.phentsz < 0x1_0000_0000
      && (forall i :: 0 <= i < |segments| && segments[i].typ == 1 && segments[i].memsz != 0 ==> Placeable(segments[i]))
      && exists i :: 0 <= i < |segments| && HoldsEntry(segments[i], e.entry)
  {
    hide HasPhdr, SegmentAt, IsExec, HeaderOf, HasEhdr;
    HeaderRead(m, load, loadlen, e);
    var h := HeaderOf(m, load);
    var size: nat := e.phentsz;
    forall i | 0 <= i < |segments|
      ensures SegmentAt(m, load, h, i) == segments[i]
    {
      SegmentRead(m, load, h, i, segments[i], size);
    }
    assert HeaderOk(h) <==>
      && e.phoff != 0 && 1 <= |segments| <= 32 && 32 <= e.phentsz <= 256
      && e.phoff + |segments| * e.phentsz < 0x1_0000_0000;
    assert forall i :: 0 <= i < |segments| ==>
      (SegmentOk(segments[i]) <==> (segments[i].typ == 1 && segments[i].memsz != 0 ==> Placeable(segments[i])));
    if Accepted(m, load, loadlen) {
      var i :| 0 <= i < h.phnum && Covers(SegmentAt(m, load, h, i), h.entry);
      assert HoldsEntry(segments[i], e.entry);
    }
    if i :| 0 <= i < |segments| && HoldsEntry(segments[i], e.entry) {
      assert Covers(SegmentAt(m, load, h, i), h.entry);
    }
  }

  // ---------- the memory that should result ----------

  /**
   Byte j of a segment placed in memory m: from the file, then zeros. The copy runs
   upwards, so a file byte the segment has already overwritten is the byte put there.
   */
  ghost function Content(m: Memory, load: u32, s: Segment, j: nat): u8 {
    if j >= s.filesz then 0
    else
      var from := FileByte(load, s, j);
      if s.vaddr <= from < s.vaddr + j then Content(m, load, s, from - s.vaddr) else m[from]
  }

  /** Memory m with one segment placed. */
  ghost function WithSegment(m: Memory, load: u32, s: Segment): Memory {
    seq(SPACE, a requires 0 <= a < SPACE => if Covers(s, a) then Content(m, load, s, a - s.vaddr) else m[a])
  }

  /** Memory m with the first n segments of its image placed, one after the other. */
  ghost function Placed(m: Memory, load: u32, h: Header, n: nat): Memory {
    if n == 0 then m else WithSegment(Placed(m, load, h, n - 1), load, SegmentAt(m, load, h, n - 1))
  }

  /** No segment overwrites a program header that is still to be read. */
  ghost predicate HeadersKept(m: Memory, load: u32, h: Header) {
    forall i, j :: 0 <= i < j < h.phnum ==> MissesHeader(SegmentAt(m, load, h, i), load, h, j)
  }

  ghost predicate MissesHeader(s: Segment, load: u32, h: Header, j: nat) {
    forall k :: 0 <= k < 24 ==> !Covers(s, PhByte(load, h, j, k))
  }

  lemma {:induction false} PlacedOutside(m: Memory, load: u32, h: Header, n: nat, a: u32)
    requires forall i :: 0 <= i < n ==> !Covers(SegmentAt(m, load, h, i), a)
    ensures Placed(m, load, h, n)[a] == m[a]
  {
    hide SegmentAt, Covers, Content;
    if n > 0 {
      PlacedOutside(m, load, h, n - 1, a);
    }
  }

  /** A header is unchanged if its bytes are. */
  lemma FieldsIntact(m0: Memory, m: Memory, load: u32, h: Header, j: nat)
    requires forall k :: 0 <= k < 24 ==> m[PhByte(load, h, j, k)] == m0[PhByte(load, h, j, k)]
    ensures SegmentAt(m, load, h, j) == SegmentAt(m0, load, h, j)
  {
    hide PhByte, Long;
  }

  /** Pass 2 reads the same header as pass 1 did. */
  lemma NextHeader(m: Memory, load: u32, h: Header, n: nat)
    requires HeadersKept(m, load, h) && n < h.phnum
    ensures SegmentAt(Placed(m, load, h, n), load, h, n) == SegmentAt(m, load, h, n)
  {
    hide Covers, PhByte, SegmentAt, Placed;
    forall i | 0 <= i < n
      ensures MissesHeader(SegmentAt(m, load, h, i), load, h, n)
    {
    }
    forall k | 0 <= k < 24
      ensures Placed(m, load, h, n)[PhByte(load, h, n, k)] == m[PhByte(load, h, n, k)]
    {
      PlacedOutside(m, load, h, n, PhByte(load, h, n, k));
    }
    FieldsIntact(m, Placed(m, load, h, n), load, h, n);
  }

  // ---------- the code ----------

  datatype Outcome = Loaded(entry: u32) | BadImage

  class Loader {
    var mem: Memory
    var highEnd: u32

    /** Pass 1: check every segment; report the highest end and whether the entry lies in one. */
    method Validate(load: u32, h: Header) returns (ok: bool, entryIn: bool, high: nat)
      requires HeaderOk(h)
      ensures ok <==> forall i :: 0 <= i < h.phnum ==> SegmentOk(SegmentAt(mem, load, h, i))
      ensures ok ==> (entryIn <==> exists i :: 0 <= i < h.phnum && Covers(SegmentAt(mem, load, h, i), h.entry))
      ensures ok ==> high == HighEnd(mem, load, h, h.phnum) && high <= FLASH
    {
      hide SegmentAt;
      ok, entryIn, high := true, false, 0;
      var i: nat := 0;
      while i < h.phnum
        invariant i <= h.phnum
        invariant forall j :: 0 <= j < i ==> SegmentOk(SegmentAt(mem, load, h, j))
        invariant entryIn <==> exists j :: 0 <= j < i && Covers(SegmentAt(mem, load, h, j), h.entry)
        invariant high == HighEnd(mem, load, h, i) && high <= FLASH
      {
        var s := SegmentAt(mem, load, h, i);
        if Loadable(s) {
          if s.filesz > s.memsz || s.offset + s.filesz >= SPACE || s.vaddr + s.memsz >= SPACE {
            ok := false;
            return;
          }
          var dstEnd := s.vaddr + s.memsz;
          if s.vaddr >= FLASH || dstEnd > FLASH {
            ok := false;
            return;
          }
          if h.entry >= s.vaddr && h.entry < dstEnd {
            entryIn := true;
          }
          if dstEnd > high {
            high := dstEnd;
          }
        }
        i := i + 1;
      }
    }

    /** Copy one segment's file bytes and zero the rest of it. */
    method Place(load: u32, s: Segment)
      modifies this`mem
      ensures Loadable(s) && SegmentOk(s) ==> mem == WithSegment(old(mem), load, s)
    {
      hide Filled, FileByte, Addr, WithSegment;
      ghost var m0 := mem;
      ghost var fine := Loadable(s) && SegmentOk(s);
      var j: nat := 0;
      FillStart(m0, load, s);
      while j < s.filesz
        invariant j <= s.filesz
        invariant fine ==> Filled(m0, mem, load, s, j)
      {
        if fine {
          FillStep(m0, mem, load, s, j);
        }
        mem := mem[Addr(s.vaddr, j) := mem[FileByte(load, s, j)]];
        j := j + 1;
      }
      while j < s.memsz
        invariant fine ==> j <= s.memsz
        invariant fine ==> Filled(m0, mem, load, s, j)
      {
        if fine {
          FillStep(m0, mem, load, s, j);
        }
        mem := mem[Addr(s.vaddr, j) := 0];
        j := j + 1;
      }
      if fine {
        FillEnd(m0, mem, load, s);
      }
    }

    /** Pass 2: place every segment; the headers are read again from memory. */
    method PlaceAll(load: u32, h: Header)
      requires forall i :: 0 <= i < h.phnum ==> SegmentOk(SegmentAt(mem, load, h, i))
      modifies this`mem
      ensures HeadersKept(old(mem), load, h) ==> mem == Placed(old(mem), load, h, h.phnum)
    {
      hide SegmentAt, Covers, HeadersKept, SegmentOk, WithSegment;
      ghost var m0 := mem;
      var i: nat := 0;
      while i < h.phnum
        invariant i <= h.phnum
        invariant HeadersKept(m0, load, h) ==> mem == Placed(m0, load, h, i)
      {
        if HeadersKept(m0, load, h) {
          NextHeader(m0, load, h, i);
        }
        var s := SegmentAt(mem, load, h, i);
        SkippedSegment(mem, load, s);
        if Loadable(s) {
          Place(load, s);
        }
        i := i + 1;
      }
    }

    /** elf32_ppc_be_load. */
    method Load(load: u32, loadlen: u32) returns (r: Outcome)
      modifies this
      ensures r.Loaded? <==> Accepted(old(mem), load, loadlen)
      ensures r.BadImage? ==> mem == old(mem) && highEnd == old(highEnd)
      ensures r.Loaded? ==>
        var h := HeaderOf(old(mem), load);
        && r.entry == h.entry
        && highEnd == HighEnd(old(mem), load, h, h.phnum)
        && (HeadersKept(old(mem), load, h) ==> mem == Placed(old(mem), load, h, h.phnum))
    {
      hide SegmentAt, Covers, SegmentOk, Placed, HighEnd;
      if !IsExec(mem, load, loadlen) {
        return BadImage;
      }
      var h := HeaderOf(mem, load);
      if !HeaderOk(h) {
        return BadImage;
      }
      var ok, entryIn, high := Validate(load, h);
      if !ok || !entryIn {
        return BadImage;
      }
      PlaceAll(load, h);
      highEnd := high;
      r := Loaded(h.entry);
    }
  }

  /** The first j bytes of the segment are in place and nothing else has changed. */
  ghost predicate Filled(m0: Memory, m: Memory, load: u32, s: Segment, j: nat) {
    forall a: u32 :: m[a] == if s.vaddr <= a < s.vaddr + j then Content(m0, load, s, a - s.vaddr) else m0[a]
  }

  lemma FillStart(m0: Memory, load: u32, s: Segment)
    ensures Filled(m0, m0, load, s, 0)
  {
  }

  lemma FillStep(m0: Memory, m: Memory, load: u32, s: Segment, j: nat)
    requires Filled(m0, m, load, s, j) && j < s.memsz && s.vaddr + s.memsz < SPACE
    ensures Filled(m0, m[Addr(s.vaddr, j) := if j < s.filesz then m[FileByte(load, s, j)] else 0], load, s, j + 1)
  {
    hide FileByte;
    assert Addr(s.vaddr, j) == s.vaddr + j;
    assert j < s.filesz ==> m[FileByte(load, s, j)] == Content(m0, load, s, j);
    hide Content;
  }

  lemma FillEnd(m0: Memory, m: Memory, load: u32, s: Segment)
    requires Filled(m0, m, load, s, s.memsz) && Loadable(s)
    ensures m == WithSegment(m0, load, s)
  {
    hide Content;
    var w := WithSegment(m0, load, s);
    forall a: u32
      ensures m[a] == w[a]
    {
    }
  }

  lemma SkippedSegment(m: Memory, load: u32, s: Segment)
    ensures !Loadable(s) ==> WithSegment(m, load, s) == m
  {
  }

  // ---------- consequences ----------

  lemma {:induction false} HighEndBounds(m: Memory, load: u32, h: Header, n: nat, i: nat)
    requires forall j :: 0 <= j < n ==> SegmentOk(SegmentAt(m, load, h, j))
    ensures HighEnd(m, load, h, n) <= FLASH
    ensures i < n && Loadable(SegmentAt(m, load, h, i)) ==>
      SegmentAt(m, load, h, i).vaddr + SegmentAt(m, load, h, i).memsz <= HighEnd(m, load, h, n)
  {
    hide SegmentAt;
    if n > 0 {
      HighEndBounds(m, load, h, n - 1, i);
    }
  }

  /** The highest end is that of some segment. */
  lemma {:induction false} HighEndReached(m: Memory, load: u32, h: Header, n: nat) returns (i: nat)
    requires HighEnd(m, load, h, n) > 0
    ensures i < n && Loadable(SegmentAt(m, load, h, i))
    ensures SegmentAt(m, load, h, i).vaddr + SegmentAt(m, load, h, i).memsz == HighEnd(m, load, h, n)
  {
    hide SegmentAt;
    var s, e := SegmentAt(m, load, h, n - 1), HighEnd(m, load, h, n - 1);
    if Loadable(s) && s.vaddr + s.memsz > e {
      i := n - 1;
    } else {
      i := HighEndReached(m, load, h, n - 1);
    }
  }

  /** The last segment to cover an address decides its byte. */
  lemma {:induction false} LastSegmentWins(m: Memory, load: u32, h: Header, n: nat, i: nat, a: u32)
    requires i < n && Covers(SegmentAt(m, load, h, i), a)
    requires forall j :: i < j < n ==> !Covers(SegmentAt(m, load, h, j), a)
    ensures var s := SegmentAt(m, load, h, i);
      Placed(m, load, h, n)[a] == Content(Placed(m, load, h, i), load, s, a - s.vaddr)
    decreases n
  {
    hide SegmentAt, Covers, Content;
    if i < n - 1 {
      LastSegmentWins(m, load, h, n - 1, i, a);
    }
  }

  /** The copy does not run into its own source: the destination is disjoint from it, or not above it. */
  ghost predicate CopiesCleanly(load: u32, s: Segment) {
    forall k :: 0 <= k < s.filesz ==> !(s.vaddr <= FileByte(load, s, k) < s.vaddr + k)
  }

  /** Such a copy yields the file bytes as they were. */
  lemma CleanContent(m: Memory, load: u32, s: Segment, j: nat)
    requires CopiesCleanly(load, s)
    ensures Content(m, load, s, j) == if j < s.filesz then m[FileByte(load, s, j)] else 0
  {
    hide FileByte;
  }

  /** Moving a segment down in place, as an image loaded at its own link address does, is clean. */
  lemma DownwardIsClean(load: u32, s: Segment)
    requires load + s.offset + s.filesz <= SPACE && s.vaddr <= load + s.offset
    ensures CopiesCleanly(load, s)
  {
  }

  /** Moving a segment up by d over its own source repeats the first d bytes of the file. */
  lemma {:induction false} UpwardRepeats(m: Memory, load: u32, s: Segment, d: nat, j: nat)
    requires load + s.offset + s.filesz <= SPACE && s.vaddr == load + s.offset + d && d > 0 && j < s.filesz
    ensures Content(m, load, s, j) == m[load + s.offset + j % d]
    decreases j
  {
    assert FileByte(load, s, j) == load + s.offset + j;
    if j < d {
      ModUnique(j, d, 0, j);
    } else {
      UpwardRepeats(m, load, s, d, j - d);
      Shifted(j, d);
    }
  }

  lemma Shifted(j: nat, d: nat)
    requires d > 0 && j >= d
    ensures (j - d) % d == j % d
  {
    var q, r := (j - d) / d, (j - d) % d;
    assert (q + 1) * d == q * d + d;
    ModUnique(j, d, q + 1, r);
  }

  /**
   Where the last segment to cover an address copies cleanly, and its file byte was
   not overwritten by an earlier segment, the address holds that byte of the file.
   */
  lemma LoadedByte(m: Memory, load: u32, h: Header, i: nat, a: u32)
    requires i < h.phnum && Covers(SegmentAt(m, load, h, i), a) && CopiesCleanly(load, SegmentAt(m, load, h, i))
    requires forall j :: i < j < h.phnum ==> !Covers(SegmentAt(m, load, h, j), a)
    requires var s := SegmentAt(m, load, h, i); a - s.vaddr < s.filesz ==>
      forall j :: 0 <= j < i ==> !Covers(SegmentAt(m, load, h, j), FileByte(load, s, a - s.vaddr))
    ensures var s := SegmentAt(m, load, h, i);
      Placed(m, load, h, h.phnum)[a] == if a - s.vaddr < s.filesz then m[FileByte(load, s, a - s.vaddr)] else 0
  {
    hide SegmentAt, Content, Placed, CopiesCleanly;
    var s := SegmentAt(m, load, h, i);
    LastSegmentWins(m, load, h, h.phnum, i, a);
    CleanContent(Placed(m, load, h, i), load, s, a - s.vaddr);
    if a - s.vaddr < s.filesz {
      PlacedOutside(m, load, h, i, FileByte(load, s, a - s.vaddr));
    }
  }

  /** A successful load leaves everything at and above the flash alone, and its entry is below it inside a segment. */
  lemma LoadedImage(m: Memory, load: u32, loadlen: u32, a: u32)
    requires Accepted(m, load, loadlen)
    ensures var h := HeaderOf(m, load);
      && (a >= 0xFFF0_0000 ==> Placed(m, load, h, h.phnum)[a] == m[a])
      && h.entry < 0xFFF0_0000 && exists i :: 0 <= i < h.phnum && Covers(SegmentAt(m, load, h, i), h.entry)
  {
    hide SegmentAt, HeaderOf, IsExec, Placed;
    var h := HeaderOf(m, load);
    if a >= FLASH {
      PlacedOutside(m, load, h, h.phnum, a);
    }
  }

  /** f_boot_kernel's stack top, with its overflow fallback. */
  function BootStackTop(highEnd: u32): u32 {
    var sum := (highEnd + 0x1000) % SPACE;
    And(if sum < highEnd then highEnd else sum, 0xFFFF_FFF0)
  }

  /** machine_go's. */
  function GoStackTop(highEnd: u32): u32 {
    var top := (highEnd + 0x1000) % SPACE;
    if top < highEnd then And(highEnd, 0xFFFF_FFF0) else And(top, 0xFFFF_FFF0)
  }

  predicate EndsAt(s: Segment, end: nat) {
    Loadable(s) && s.vaddr + s.memsz == end
  }

  /**
   After a successful load the fallback cannot be taken, and both paths hand
   over the same 16-byte aligned stack top, 4 KiB above the last loaded byte.
   */
  lemma StackAboveImage(m: Memory, load: u32, loadlen: u32, highEnd: u32, i: nat)
    requires Accepted(m, load, loadlen) && highEnd == HighEnd(m, load, HeaderOf(m, load), HeaderOf(m, load).phnum)
    ensures (highEnd + 0x1000) % SPACE >= highEnd
    ensures BootStackTop(highEnd) == GoStackTop(highEnd)
    ensures BootStackTop(highEnd) % 16 == 0 && highEnd + 0xFF0 < BootStackTop(highEnd) <= highEnd + 0x1000
    ensures var s := SegmentAt(m, load, HeaderOf(m, load), i);
      i < HeaderOf(m, load).phnum && Loadable(s) ==> s.vaddr + s.memsz < BootStackTop(highEnd)
    ensures exists k :: 0 <= k < HeaderOf(m, load).phnum && EndsAt(SegmentAt(m, load, HeaderOf(m, load), k), highEnd)
  {
    hide SegmentAt, BootStackTop, GoStackTop, HighEnd, HeaderOf, IsExec;
    var h := HeaderOf(m, load);
    HighEndBounds(m, load, h, h.phnum, i);
    var entry: nat :| entry < h.phnum && Covers(SegmentAt(m, load, h, entry), h.entry);
    HighEndBounds(m, load, h, h.phnum, entry);
    var k := HighEndReached(m, load, h, h.phnum);
    assert EndsAt(SegmentAt(m, load, h, k), highEnd);
    StackTops(highEnd);
  }

  lemma StackTops(highEnd: u32)
    requires highEnd <= FLASH
    ensures (highEnd + 0x1000) % SPACE >= highEnd
    ensures BootStackTop(highEnd) == GoStackTop(highEnd)
    ensures BootStackTop(highEnd) % 16 == 0 && highEnd + 0xFF0 < BootStackTop(highEnd) <= highEnd + 0x1000
  {
    hide And;
    Align16(highEnd + 0x1000);
  }

  lemma Align16(x: u32)
    ensures And(x, 0xFFFF_FFF0) == x - x % 16
  {
    hide And, Low;
    Pow32();
    AndHigh(32, 4, x);
    LowIsMod(x, 4);
    assert Pow2(4) == 16;
  }
}
