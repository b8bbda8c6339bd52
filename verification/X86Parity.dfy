/** The emulator's parity table, and that it counts bits. */
module X86Parity {
  import opened Bits
  import opened Endian

  /** How many bits of x are set. */
  function Ones(x: nat): nat {
    if x == 0 then 0 else x % 2 + Ones(x / 2)
  }

  predicate EvenParity(x: nat) {
    Ones(x) % 2 == 0
  }

  const TAB: seq<u32> :=
    [0x9669_6996, 0x6996_9669, 0x6996_9669, 0x9669_6996, 0x6996_9669, 0x9669_6996, 0x9669_6996, 0x6996_9669]

  /** The PARITY macro on the low byte of x. */
  predicate Parity(x: nat) {
    !Bit(TAB[x % 0x100 / 32], x % 0x100 % 32)
  }

  lemma {:induction false} OnesSplit(n: nat, j: nat, k: nat)
    requires k < Pow2(n)
    ensures Ones(Pow2(n) * j + k) == Ones(j) + Ones(k)
  {
    if n > 0 {
      var x := Pow2(n) * j + k;
      assert x == 2 * (Pow2(n - 1) * j) + k;
      assert x / 2 == Pow2(n - 1) * j + k / 2 && x % 2 == k % 2;
      OnesSplit(n - 1, j, k / 2);
    }
  }

  lemma BitShifted4(x: nat, k: nat)
    ensures Bit(x / 16, k) == Bit(x, k + 4)
  {
    assert Bit(x, k + 4) == Bit(x / 2, k + 3) == Bit(x / 2 / 2, k + 2);
    assert Bit(x / 2 / 2, k + 2) == Bit(x / 2 / 2 / 2, k + 1) == Bit(x / 2 / 2 / 2 / 2, k);
    assert x / 2 / 2 / 2 / 2 == x / 16;
  }

  lemma BitShifted8(x: nat, k: nat)
    ensures Bit(x / 0x100, k) == Bit(x, k + 8)
  {
    hide Bit;
    BitShifted4(x, k + 4);
    BitShifted4(x / 16, k);
    assert x / 16 / 16 == x / 0x100;
  }

  /** Bit 8j + k of a word is bit k of its byte j. */
  lemma {:induction false} BitOfByte(x: nat, j: nat, k: nat)
    requires k < 8
    ensures Bit(x, 8 * j + k) == Bit(Byte(x, j), k)
  {
    hide Bit;
    Pow8();
    if j == 0 {
      BitOfLow(x, 8, k);
      LowIsMod(x, 8);
    } else {
      BitShifted8(x, 8 * (j - 1) + k);
      BitOfByte(x / 0x100, j - 1, k);
    }
  }

  lemma Pow8()
    ensures Pow2(8) == 0x100
  {
  }

  /** The byte that holds the parities of eight numbers, when the rest of them is even or odd. */
  function Pattern(j: nat): u8 {
    if EvenParity(j) then 0x96 else 0x69
  }

  lemma PatternBits(k: nat)
    requires k < 8
    ensures Bit(0x96, k) == !EvenParity(k) && Bit(0x69, k) == EvenParity(k)
  {
    SmallOnes();
    assert !Bit(0x96, 0) && Bit(0x96, 1) && Bit(0x96, 2) && !Bit(0x96, 3);
    assert Bit(0x96, 4) && !Bit(0x96, 5) && !Bit(0x96, 6) && Bit(0x96, 7);
    assert Bit(0x69, 0) && !Bit(0x69, 1) && !Bit(0x69, 2) && Bit(0x69, 3);
    assert !Bit(0x69, 4) && Bit(0x69, 5) && Bit(0x69, 6) && !Bit(0x69, 7);
  }

  /** Byte j of word i of the table covers the numbers from 32i + 8j on. */
  lemma TableByte(i: nat, j: nat)
    requires i < 8 && j < 4
    ensures Byte(TAB[i], j) == Pattern(4 * i + j)
  {
    hide Byte, Ones, Long;
    TableWords();
    WordPatterns(i);
    BytesOfLong(0x96, 0x69, 0x69, 0x96);
    BytesOfLong(0x69, 0x96, 0x96, 0x69);
  }

  lemma TableWords()
    ensures Long(0x96, 0x69, 0x69, 0x96) == 0x9669_6996 && Long(0x69, 0x96, 0x96, 0x69) == 0x6996_9669
  {
  }

  /** The four patterns of word i are those of word 0, or all the other way round. */
  lemma WordPatterns(i: nat)
    requires i < 8
    ensures TAB[i] == if EvenParity(i) then 0x9669_6996 else 0x6996_9669
    ensures EvenParity(4 * i) == EvenParity(i) && EvenParity(4 * i + 1) == !EvenParity(i)
    ensures EvenParity(4 * i + 2) == !EvenParity(i) && EvenParity(4 * i + 3) == EvenParity(i)
  {
    hide Ones, Pow2;
    SmallOnes();
    Pow4();
    OnesSplit(2, i, 0);
    OnesSplit(2, i, 1);
    OnesSplit(2, i, 2);
    OnesSplit(2, i, 3);
  }

  lemma Pow4()
    ensures Pow2(2) == 4 && Pow2(3) == 8
  {
  }

  lemma SmallOnes()
    ensures Ones(0) == 0 && Ones(1) == 1 && Ones(2) == 1 && Ones(3) == 2
    ensures Ones(4) == 1 && Ones(5) == 2 && Ones(6) == 2 && Ones(7) == 3
  {
  }

  /** The table says whether the low byte has an even number of bits set. */
  lemma TableCountsBits(x: nat)
    ensures Parity(x) == EvenParity(Low(x, 8))
  {
    hide Bit, Byte, Ones, Low, Pow2;
    Pow8();
    LowIsMod(x, 8);
    var y := x % 0x100;
    var i, m := y / 32, y % 32;
    var j, k := m / 8, m % 8;
    assert m == 8 * j + k && y == 8 * (4 * i + j) + k;
    BitOfByte(TAB[i], j, k);
    TableByte(i, j);
    PatternBits(k);
    Pow4();
    OnesSplit(3, 4 * i + j, k);
  }
}
