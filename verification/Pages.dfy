/** The page size, and rounding to it. */
module Pages {
  const PAGE_SIZE: nat := 4096

  /** The least whole number of pages, in bytes, that covers n. */
  function RoundUp(n: nat): (r: nat)
    ensures n <= r < n + PAGE_SIZE && r % PAGE_SIZE == 0
  {
    (n + PAGE_SIZE - 1) / PAGE_SIZE * PAGE_SIZE
  }
}
