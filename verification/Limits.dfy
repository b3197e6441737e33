/** Resource limits shared by every archive parser. */
module Limits {
  const MAX_ARCHIVE_ENTRIES: nat := 10_000
  const MAX_EXPANDED_BYTES: nat := 50 * 1024 * 1024 * 1024
  const COPY_CHUNK_SIZE: nat := 64 * 1024
}
