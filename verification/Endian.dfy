/** Words as bytes, lowest byte first. */
module Endian {
  import opened Bits

  /** Byte k of a word. */
  function Byte(v: nat, k: nat): u8 {
    if k == 0 then v % 0x100 else Byte(v / 0x100, k - 1)
  }

  function Word(b0: nat, b1: nat): nat {
    b0 + 0x100 * b1
  }

  function Long(b0: nat, b1: nat, b2: nat, b3: nat): nat {
    b0 + 0x100 * (b1 + 0x100 * (b2 + 0x100 * b3))
  }

  lemma BytesOfWord(b0: nat, b1: nat)
    requires b0 < 0x100 && b1 < 0x100
    ensures Byte(Word(b0, b1), 0) == b0 && Byte(Word(b0, b1), 1) == b1
  {
    assert Byte(Word(b0, b1), 1) == Byte(b1, 0);
  }

  lemma BytesOfLong(b0: nat, b1: nat, b2: nat, b3: nat)
    requires b0 < 0x100 && b1 < 0x100 && b2 < 0x100 && b3 < 0x100
    ensures var v := Long(b0, b1, b2, b3);
      Byte(v, 0) == b0 && Byte(v, 1) == b1 && Byte(v, 2) == b2 && Byte(v, 3) == b3
  {
    var v := Long(b0, b1, b2, b3);
    assert v / 0x100 == Long(b1, b2, b3, 0);
    assert Byte(v, 1) == Byte(v / 0x100, 0);
    assert v / 0x100 / 0x100 == Word(b2, b3);
    assert Byte(v, 2) == Byte(v / 0x100 / 0x100, 0) && Byte(v, 3) == Byte(v / 0x100 / 0x100, 1);
    BytesOfWord(b2, b3);
  }

  lemma WordOfBytes(v: u16)
    ensures Word(Byte(v, 0), Byte(v, 1)) == v
  {
    assert Byte(v, 1) == Byte(v / 0x100, 0) == v / 0x100;
  }

  lemma LongOfBytes(v: u32)
    ensures Long(Byte(v, 0), Byte(v, 1), Byte(v, 2), Byte(v, 3)) == v
  {
    assert Byte(v, 1) == v / 0x100 % 0x100;
    assert Byte(v, 2) == Byte(v / 0x100, 1) == v / 0x100 / 0x100 % 0x100;
    assert Byte(v, 3) == Byte(v / 0x100 / 0x100, 1) == v / 0x100 / 0x100 / 0x100;
  }

  /** A word stored highest byte first. */
  function Be16Bytes(v: u16): (s: seq<u8>)
    ensures |s| == 2
  {
    [Byte(v, 1), Byte(v, 0)]
  }

  function Be32Bytes(v: u32): (s: seq<u8>)
    ensures |s| == 4
  {
    [Byte(v, 3), Byte(v, 2), Byte(v, 1), Byte(v, 0)]
  }

  /** A word stored lowest byte first. */
  function Le32Bytes(v: u32): (s: seq<u8>)
    ensures |s| == 4
  {
    [Byte(v, 0), Byte(v, 1), Byte(v, 2), Byte(v, 3)]
  }
}
