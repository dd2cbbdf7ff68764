/** The machine's word and page sizes, and where user addresses end (threads/vaddr.h). */
module Vaddr {
  const W32: nat := 0x1_0000_0000
  const PGSIZE: nat := 4096
  const PHYS_BASE: nat := 0xC000_0000

  /** Truncation to a 32-bit unsigned integer. */
  function U32(x: int): (r: nat)
    ensures r < W32 && (0 <= x < W32 ==> r == x)
  {
    x % W32
  }
}
