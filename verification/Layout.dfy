/** Sizes shared by the paging code (harmony/kernel/src/arch/x86_64/paging.rs). */
module Layout {
  const PAGE_SIZE: nat := 4096
  const FRAME_SIZE: nat := 4096

  /** Physical addresses have 52 bits, so frame numbers have 40. */
  const MAX_FRAMES: nat := 0x100_0000_0000

  /** Entries in a page table of any level. */
  const ENTRIES: nat := 512
}
