/** `mmdef.h` */
module MemoryLayout {
  const PAGE_SIZE: nat := 0x1000
  const LARGE_PAGE_SIZE: nat := 0x40_0000
  const KERNEL_VIRTUAL_BASE: nat := 0xC000_0000
  const DMA_MEMORY_LIMIT: nat := 0x100_0000

  /** `calc_required_page_count` */
  function RequiredPages(size: nat): nat {
    (size + PAGE_SIZE - 1) / PAGE_SIZE
  }
}
