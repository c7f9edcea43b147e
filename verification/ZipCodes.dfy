// The return codes of the archive functions; 0 is success.
module ZipCodes {
  import opened CInt

  const ITERATION_END: int32 := -1
  const ZLIB_ERROR: int32 := -2
  const INVALID_FILE: int32 := -3
  const INVALID_HANDLE: int32 := -4
  const DUPLICATE_ENTRY: int32 := -5
  const EMPTY_ARCHIVE: int32 := -6
  const ENTRY_NOT_FOUND: int32 := -7
  const INVALID_OFFSET: int32 := -8
  const INCONSISTENT_INFORMATION: int32 := -9
  const INVALID_ENTRY_NAME: int32 := -10
  const IO_ERROR: int32 := -11
  const MMAP_FAILED: int32 := -12
}
