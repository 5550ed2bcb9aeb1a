/** Error numbers, and what a call answers that returns nothing else. */
module Errno {

  datatype Result = Ok | Err(errno: int)

  const EIO: int := 5
  const E2BIG: int := 7
  const EAGAIN: int := 11
  const ENOMEM: int := 12
  const EBUSY: int := 16
  const EEXIST: int := 17
  const EINVAL: int := 22
  const EFBIG: int := 27
  const ENOSPC: int := 28
  const ENODATA: int := 61
  const EOPNOTSUPP: int := 95
  const EFSCORRUPTED: int := 117
}
