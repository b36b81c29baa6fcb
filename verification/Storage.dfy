/** Sizes shared by the page files (file_io.h) and the buffer pool (buffer_pool.h). */
module Storage {
  const PAGE_SIZE := 128
  const CACHE_PAGE := 8
}
