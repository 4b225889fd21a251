/** File metadata as the store keeps it and peers exchange it. */
module Meta {

  datatype Option<+T> = None | Some(value: T)

  newtype int64 = x: int | -0x8000_0000_0000_0000 <= x <= 0x7FFF_FFFF_FFFF_FFFF

  const MAX_INT64: int64 := 0x7FFF_FFFF_FFFF_FFFF

  /** `version` is local to the node that holds the row; everything else is the
      replicated state. An empty `supersededBy` or `conflictOf` means "not set". */
  datatype FileMeta = FileMeta(
    name: string,
    modTime: int64,
    size: int64,
    hash: string,
    deleted: bool,
    version: int,
    clock: int64,
    bigClock: string,
    supersededBy: string,
    conflictOf: string)
  {
    /** Rows written before clocks existed carry clock 0 and rank by their mtime. */
    function StateClock(): int64 {
      if clock != 0 then clock else modTime
    }
  }
}
