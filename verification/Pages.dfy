/** The page size of the SGX driver. */
module Pages {
  const PAGE_SIZE: nat := 4096
}
