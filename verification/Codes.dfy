/** Return codes, with the values the repository gives them. */
module Codes {
  const OK: int := 0

  // lib/simple_something_error.h
  const WRONG_INPUT: int := 401
  const CORRUPTED_DATA: int := 402
  const SEARCH_FAIL: int := 404
  const GENERAL_FAIL: int := 405

  // src/ffprinter.h
  const FREAD_ERROR: int := 10
  const FIND_FAIL: int := 13
  const DUPLICATE_ERROR: int := 15
  const FILE_BROKEN: int := 16
  const BUFFER_NO_SPACE: int := 17
  const BUFFER_FULL: int := 21
  const FILE_END: int := 22
  const FILE_END_TOO_SOON: int := 24
  const LOGIC_ERROR: int := 20
  const WRONG_ARGS: int := 25
  const VERIFY_FAIL: int := 26
  const FILE_NOSUPPORT: int := 34
  const INDEX_OUT_OF_RANGE: int := 46

  // src/ffp_directory.h
  const NO_SUCH_LOGIC_DIR: int := 120
  const PATH_TOO_LONG: int := 121
  const EMPTY_PATH: int := 122
  const FOUND_DUPLICATE: int := 124

  // src/ffp_fingerprint.h
  const FS_FILE_TOO_LARGE: int := 502
}
