/** exFAT file contents: clusters along the FAT chain, or contiguous when the stream says so. */
module Exfat {
  import opened Bits
  import opened Endian
  import opened Disk
  import opened RunFiles

  const END: u32 := 0xFFFF_FFFF
  const MAX_CLUSTERS: nat := 100000

  /** The boot-sector fields kept for an open volume; sectors are 512 bytes. */
  datatype Geometry = Geometry(fatOffset: u32, heapOffset: u32, clusters: u32, perCluster: nat)

  function Le32(b: seq<u8>, i: nat): u32 {
    Long(At(b, i), At(b, i + 1), At(b, i + 2), At(b, i + 3))
  }

  predicate InHeap(g: Geometry, c: u32) {
    2 <= c <= Wrap32(g.clusters + 1)
  }

  /** exfat_fat_next. */
  function FatNext(d: Volume, g: Geometry, c: u32): u32 {
    if !InHeap(g, c) then END
    else
      var entry := Wrap32(c * 4);
      var sector := Wrap32(g.fatOffset + entry / BSIZE);
      if sector !in d then END else Le32(d[sector], entry % BSIZE)
  }

  /** exfat_cluster_to_sector, for a cluster of the heap: its sectors as a run. */
  function Cluster(g: Geometry, c: u32): Run {
    Run(if c < 2 then 0 else Wrap32(g.heapOffset + (c - 2) * g.perCluster), g.perCluster, 0)
  }

  /** The cluster after c, or END. */
  function Next(d: Volume, g: Geometry, noFat: bool, c: u32): u32 {
    if noFat then Wrap32(c + 1) else FatNext(d, g, c)
  }

  predicate Stops(g: Geometry, noFat: bool, c: u32) {
    (!noFat && c == END) || !InHeap(g, c)
  }

  /** Up to want bytes from cluster c on, over no more than guard clusters; running out early is no error. */
  function Contents(d: Volume, g: Geometry, noFat: bool, c: u32, want: nat, guard: nat): Result<seq<u8>>
    decreases guard
  {
    if want == 0 || !InHeap(g, c) || guard == 0 then Ok([])
    else
      match ReadRun(d, Cluster(g, c), want)
      case Err(e) => Err(e)
      case Ok(s) =>
        if |s| >= want || (!noFat && FatNext(d, g, c) == END) then Ok(s)
        else Prepend(s, Contents(d, g, noFat, Next(d, g, noFat, c), want - |s|, guard - 1))
  }

  /** exfat_read_contents. */
  method ReadContents(d: Volume, g: Geometry, first: u32, len: u32, noFat: bool) returns (r: Result<seq<u8>>)
    ensures r == Contents(d, g, noFat, first, len, MAX_CLUSTERS)
  {
    hide Contents, ReadRun, Prepend, FatNext;
    var c := first;
    var out: seq<u8> := [];
    var guard: nat := 0;
    ghost var all := Contents(d, g, noFat, first, len, MAX_CLUSTERS);
    PrependTwice([], [], all);
    while |out| < len && InHeap(g, c) && guard < MAX_CLUSTERS
      invariant guard <= MAX_CLUSTERS && |out| <= len
      invariant all == Prepend(out, Contents(d, g, noFat, c, len - |out|, MAX_CLUSTERS - guard))
      decreases MAX_CLUSTERS - guard
    {
      ContentsStep(d, g, noFat, c, len - |out|, MAX_CLUSTERS - guard, out);
      guard := guard + 1;
      var s := CopyRun(d, Cluster(g, c), len - |out|);
      if s.Err? {
        return Err(s.error);
      }
      out := out + s.value;
      if |out| >= len {
        return Ok(out);
      }
      if noFat {
        c := Next(d, g, true, c);
      } else {
        c := FatNext(d, g, c);
        if c == END {
          return Ok(out);
        }
      }
    }
    ContentsEnds(d, g, noFat, c, len - |out|, MAX_CLUSTERS - guard, out);
    r := Ok(out);
  }

  lemma ContentsStep(d: Volume, g: Geometry, noFat: bool, c: u32, want: nat, guard: nat, out: seq<u8>)
    requires want > 0 && InHeap(g, c) && guard > 0
    ensures Prepend(out, Contents(d, g, noFat, c, want, guard)) ==
      match ReadRun(d, Cluster(g, c), want)
      case Err(e) => Err(e)
      case Ok(s) =>
        if |s| >= want || (!noFat && FatNext(d, g, c) == END) then Ok(out + s)
        else Prepend(out + s, Contents(d, g, noFat, Next(d, g, noFat, c), want - |s|, guard - 1))
    ensures var s := ReadRun(d, Cluster(g, c), want); s.Ok? ==> |s.value| <= want
  {
    hide FatNext, Cluster;
    ReadRunBound(d, Cluster(g, c), want);
    var s := ReadRun(d, Cluster(g, c), want);
    if s.Ok? && |s.value| < want {
      PrependTwice(out, s.value, Contents(d, g, noFat, Next(d, g, noFat, c), want - |s.value|, guard - 1));
    }
  }

  lemma ContentsEnds(d: Volume, g: Geometry, noFat: bool, c: u32, want: nat, guard: nat, out: seq<u8>)
    requires want == 0 || !InHeap(g, c) || guard == 0
    ensures Prepend(out, Contents(d, g, noFat, c, want, guard)) == Ok(out)
  {
    assert out + [] == out;
  }

  // ---------- the file ----------

  /** Each cluster of the list leads to the next one, and the last one to `end`. */
  ghost predicate Follows(d: Volume, g: Geometry, noFat: bool, cs: seq<u32>, c: u32, end: u32) {
    if cs == [] then c == end
    else
      && cs[0] == c && !Stops(g, noFat, c) && Readable(d, Cluster(g, c))
      && Follows(d, g, noFat, cs[1..], Next(d, g, noFat, c), end)
  }

  /** The clusters of the list, laid end to end. */
  ghost function Data(d: Volume, g: Geometry, noFat: bool, cs: seq<u32>, c: u32, end: u32): seq<u8>
    requires Follows(d, g, noFat, cs, c, end)
  {
    if cs == [] then []
    else RunData(d, Cluster(g, c)) + Data(d, g, noFat, cs[1..], Next(d, g, noFat, c), end)
  }

  /** The bytes read are the wanted prefix of the clusters in order, in either mode. */
  lemma {:induction false} ContentsIsPrefix(d: Volume, g: Geometry, noFat: bool, cs: seq<u32>, c: u32, end: u32,
                                            want: nat, guard: nat)
    requires Follows(d, g, noFat, cs, c, end) && |cs| <= guard
    requires |Data(d, g, noFat, cs, c, end)| >= want || Stops(g, noFat, end) || |cs| == guard
    requires noFat || c != END
    ensures Contents(d, g, noFat, c, want, guard) == Ok(Prefix(Data(d, g, noFat, cs, c, end), want))
    decreases |cs|
  {
    hide Readable, ReadRun, RunData, FatNext, Cluster;
    if cs != [] && want > 0 {
      var r, next := Cluster(g, c), Next(d, g, noFat, c);
      ReadRunIsPrefix(d, r, want);
      var s := Prefix(RunData(d, r), want);
      PrefixConcat(RunData(d, r), Data(d, g, noFat, cs[1..], next, end), want);
      assert s == RunData(d, r)[..|s|];
      if |s| < want {
        if !noFat && next == END {
          assert cs[1..] == [] && s + [] == s;
        } else {
          ContentsIsPrefix(d, g, noFat, cs[1..], next, end, want - |s|, guard - 1);
        }
      }
    }
  }

  /** A sector that is needed and cannot be read is the error of the read. */
  lemma {:induction false} ContentsBreaks(d: Volume, g: Geometry, noFat: bool, cs: seq<u32>, c: u32, end: u32,
                                          want: nat, guard: nat)
    requires Follows(d, g, noFat, cs, c, end) && |cs| < guard && !Stops(g, noFat, end) && (noFat || c != END)
    requires |Data(d, g, noFat, cs, c, end)| < want
    requires Broken(d, Cluster(g, end), want - |Data(d, g, noFat, cs, c, end)|)
    ensures Contents(d, g, noFat, c, want, guard) == Err(DeviceError)
    decreases |cs|
  {
    hide Readable, ReadRun, RunData, FatNext, Cluster, Broken;
    if cs == [] {
      BrokenFails(d, Cluster(g, c), want);
    } else {
      var r, next := Cluster(g, c), Next(d, g, noFat, c);
      ReadRunIsPrefix(d, r, want);
      if noFat || next != END {
        ContentsBreaks(d, g, noFat, cs[1..], next, end, want - |RunData(d, r)|, guard - 1);
      }
    }
  }

  /** A file read stops after 100000 clusters; short of that it is the wanted prefix of all of them. */
  lemma FileIsPrefix(d: Volume, g: Geometry, noFat: bool, cs: seq<u32>, first: u32, end: u32, len: u32)
    requires Follows(d, g, noFat, cs, first, end) && |cs| <= 100000 && (noFat || first != END)
    requires |Data(d, g, noFat, cs, first, end)| >= len || Stops(g, noFat, end) || |cs| == 100000
    ensures Contents(d, g, noFat, first, len, MAX_CLUSTERS) == Ok(Prefix(Data(d, g, noFat, cs, first, end), len))
  {
    hide Follows, Contents, Data;
    ContentsIsPrefix(d, g, noFat, cs, first, end, len, MAX_CLUSTERS);
  }

  // ---------- the volume as a flat image ----------

  /**
   The file allocation table is one array of little-endian words, 128 to a sector, indexed
   by cluster; the byte offset has 32 bits, so the index is taken modulo 2^30.
   */
  lemma FatOnDisk(d: Volume, g: Geometry, c: u32, e: nat, next: u32)
    requires 2 <= c && c - 2 < g.clusters < 0xFFFF_FFFF && e == c % 0x4000_0000
    requires var sector := Wrap32(g.fatOffset + e / 128); sector in d && Has(d[sector], e % 128 * 4, Le32Bytes(next))
    ensures FatNext(d, g, c) == next
  {
    hide Byte, Long, At, Has;
    assert Wrap32(c * 4) == e * 4;
    assert e * 4 / BSIZE == e / 128 && e * 4 % BSIZE == e % 128 * 4;
    var b, o := d[Wrap32(g.fatOffset + e / 128)], e % 128 * 4;
    HasByte(b, o, Le32Bytes(next), 0);
    HasByte(b, o, Le32Bytes(next), 1);
    HasByte(b, o, Le32Bytes(next), 2);
    HasByte(b, o, Le32Bytes(next), 3);
    LongOfBytes(next);
  }

  /** Sector t of the heap is the t-th piece of this image. */
  ghost predicate HeapIs(d: Volume, g: Geometry, heap: seq<Block>) {
    && g.heapOffset + |heap| <= 0x1_0000_0000
    && forall t :: 0 <= t < |heap| ==> g.heapOffset + t in d && d[g.heapOffset + t] == heap[t]
  }

  /** Sectors from t on, laid end to end. */
  ghost function Pieces(heap: seq<Block>, t: nat, n: nat): seq<u8>
    requires t + n <= |heap|
    decreases n
  {
    if n == 0 then [] else heap[t] + Pieces(heap, t + 1, n - 1)
  }

  lemma {:induction false} RunIsPieces(d: Volume, g: Geometry, heap: seq<Block>, t: nat, n: nat)
    requires HeapIs(d, g, heap) && t + n <= |heap|
    ensures var r := Run(Wrap32(g.heapOffset + t), n, 0); Readable(d, r) && RunData(d, r) == Pieces(heap, t, n)
    decreases n
  {
    if n > 0 {
      var sector := heap[t];
      assert Wrap32(g.heapOffset + t) == g.heapOffset + t;
      assert g.heapOffset + t in d && d[g.heapOffset + t] == sector;
      RunIsPieces(d, g, heap, t + 1, n - 1);
    }
  }

  /** The clusters, from number 2 on, cut the heap into consecutive pieces. */
  lemma ClusterOnDisk(d: Volume, g: Geometry, heap: seq<Block>, c: u32, t: nat)
    requires HeapIs(d, g, heap) && |heap| == g.clusters * g.perCluster && 2 <= c && c - 2 < g.clusters
    requires t == (c - 2) * g.perCluster
    ensures t + g.perCluster <= |heap| && Readable(d, Cluster(g, c))
    ensures RunData(d, Cluster(g, c)) == Pieces(heap, t, g.perCluster)
  {
    hide HeapIs, Readable, RunData, Pieces;
    NextPiece(c - 2, g.clusters, g.perCluster);
    RunIsPieces(d, g, heap, t, g.perCluster);
  }

  lemma NextPiece(i: nat, n: nat, size: nat)
    requires i < n
    ensures i * size + size <= n * size
  {
    MulMonotone(i + 1, n, size);
  }

  /** A cluster number is one of the heap if and only if there are that many clusters. */
  lemma InHeapExactly(g: Geometry, c: u32)
    requires g.clusters < 0xFFFF_FFFF
    ensures InHeap(g, c) <==> 2 <= c && c - 2 < g.clusters
  {
  }

  // ---------- the two modes ----------

  /** The FAT links the clusters a read of want bytes needs one after the other. */
  ghost predicate Consecutive(d: Volume, g: Geometry, c: u32, want: nat, guard: nat)
    decreases guard
  {
    guard == 0 || !InHeap(g, c) || want <= BSIZE * g.perCluster
    || (FatNext(d, g, c) == Wrap32(c + 1) && Consecutive(d, g, Wrap32(c + 1), want - BSIZE * g.perCluster, guard - 1))
  }

  /**
   On such a chain the contiguous mode and the FAT mode read the same thing, errors
   included. Cluster counts above 2^32 - 11 are outside the exFAT specification.
   */
  lemma {:induction false} ModesAgree(d: Volume, g: Geometry, c: u32, want: nat, guard: nat)
    requires g.clusters <= 0xFFFF_FFF5 && Consecutive(d, g, c, want, guard)
    ensures Contents(d, g, true, c, want, guard) == Contents(d, g, false, c, want, guard)
    decreases guard
  {
    hide ReadRun, FatNext, Prepend, Cluster;
    if want > 0 && InHeap(g, c) && guard > 0 {
      var s := ReadRun(d, Cluster(g, c), want);
      if s.Ok? {
        ClusterLength(d, g, c, want);
        if |s.value| < want {
          ModesAgree(d, g, Wrap32(c + 1), want - |s.value|, guard - 1);
        }
      }
    }
  }

  lemma ClusterLength(d: Volume, g: Geometry, c: u32, want: nat)
    requires ReadRun(d, Cluster(g, c), want).Ok?
    ensures var all := BSIZE * g.perCluster;
      |ReadRun(d, Cluster(g, c), want).value| == if want < all then want else all
  {
    ReadRunLength(d, Cluster(g, c), want);
  }
}
