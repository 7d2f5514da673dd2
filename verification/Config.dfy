/** The constants the components share. */
module Config {
  const INVALID_PAGE_ID: int := -1
  const INVALID_TXN_ID: int := -1
  const INVALID_LSN: int := -1
  const PAGE_SIZE: nat := 4096
  const BUCKET_SIZE: nat := 50
}
