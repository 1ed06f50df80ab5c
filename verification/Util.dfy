/** What many parts need. */
module Util {
  datatype Option<+T> = None | Some(value: T)

  // src/ffprinter.h
  const FILE_NAME_MAX: nat := 260
  const EXTRACT_MAX_NUM: nat := 5
  const EXTRACT_SIZE_MAX: nat := 4

  function Min(x: nat, y: nat): nat { if x < y then x else y }
}
