/** Optional results. */
module Wrappers {

  datatype Option<+T> = None | Some(value: T)
}

/** The range of 64-bit integers. */
module Integers {

  const I64_MIN: int := -0x8000_0000_0000_0000
  const I64_MAX: int := 0x7FFF_FFFF_FFFF_FFFF
}

/** Results of operations that can fail. */
module Fallible {

  datatype Result<+T> = Ok(value: T) | Err
}
