/** The board's 32-bit physical address space as bytes. */
module AddressSpace {
  import opened Bits

  const SPACE: nat := 0x1_0000_0000

  type Memory = m: seq<u8> | |m| == SPACE witness seq(SPACE, _ => 0)
}
