/** Blocks of a volume, as the file-system readers see them. */
module Disk {
  import opened Bits
  import opened Endian

  const BSIZE: nat := 512

  type Block = b: seq<u8> | |b| == BSIZE witness seq(BSIZE, _ => 0)

  /** The readable blocks; reading any other one fails. */
  type Volume = map<nat, Block>

  datatype Error = NoFile | ReadError | DeviceError

  datatype Result<T> = Ok(value: T) | Err(error: Error)

  /** A byte of a block; 0 past its end, where no well-formed block is read. */
  function At(b: seq<u8>, i: nat): u8 {
    if i < |b| then b[i] else 0
  }

  function Be16(b: seq<u8>, i: nat): u16 {
    Word(At(b, i + 1), At(b, i))
  }

  function Be32(b: seq<u8>, i: nat): u32 {
    Long(At(b, i + 3), At(b, i + 2), At(b, i + 1), At(b, i))
  }

  function Prefix<T>(s: seq<T>, n: nat): (r: seq<T>)
    ensures |r| == if n < |s| then n else |s|
  {
    if n < |s| then s[..n] else s
  }

  lemma PrefixConcat<T>(s: seq<T>, t: seq<T>, n: nat)
    ensures n <= |s| ==> Prefix(s + t, n) == s[..n]
    ensures n >= |s| ==> Prefix(s + t, n) == s + Prefix(t, n - |s|)
  {
  }

  /** The number four bytes of a block stand for, highest byte first. */
  function Number(b: Block, o: nat): nat
    requires o + 4 <= BSIZE
  {
    var b0: nat, b1: nat, b2: nat, b3: nat := b[o], b[o + 1], b[o + 2], b[o + 3];
    0x100_0000 * b0 + 0x1_0000 * b1 + 0x100 * b2 + b3
  }

  lemma Be32IsNumber(b: Block, o: nat)
    requires o + 4 <= BSIZE
    ensures Be32(b, o) == Number(b, o)
  {
  }

  /** These bytes stand at this place of the block. */
  predicate Has(b: seq<u8>, i: nat, s: seq<u8>) {
    i + |s| <= |b| && b[i..i + |s|] == s
  }

  lemma HasByte(b: seq<u8>, i: nat, s: seq<u8>, k: nat)
    requires Has(b, i, s) && k < |s|
    ensures At(b, i + k) == s[k]
  {
    assert b[i..i + |s|][k] == b[i + k];
  }

  lemma HasBe16(b: seq<u8>, i: nat, v: u16)
    requires Has(b, i, Be16Bytes(v))
    ensures Be16(b, i) == v
  {
    hide Byte, Has, At;
    HasByte(b, i, Be16Bytes(v), 0);
    HasByte(b, i, Be16Bytes(v), 1);
    WordOfBytes(v);
  }

  lemma HasBe32(b: seq<u8>, i: nat, v: u32)
    requires Has(b, i, Be32Bytes(v))
    ensures Be32(b, i) == v
  {
    hide Byte, Has, At, Long;
    var s := Be32Bytes(v);
    HasByte(b, i, s, 0);
    HasByte(b, i, s, 1);
    HasByte(b, i, s, 2);
    HasByte(b, i, s, 3);
    LongOfBytes(v);
  }

  /** A block made of consecutive parts has each part where the ones before it end. */
  lemma HasPart(a: seq<u8>, s: seq<u8>, c: seq<u8>)
    ensures Has(a + s + c, |a|, s)
  {
    assert (a + s + c)[|a|..|a| + |s|] == s;
  }

  lemma HasWithin(b: seq<u8>, i: nat, s: seq<u8>, j: nat, t: seq<u8>)
    requires Has(b, i, s) && Has(s, j, t)
    ensures Has(b, i + j, t)
  {
    forall k | 0 <= k < |t|
      ensures b[i + j + k] == t[k]
    {
      assert b[i..i + |s|][j + k] == s[j + k] == s[j..j + |t|][k];
    }
  }
}
