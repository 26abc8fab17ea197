/** How firmware errors reach a caller. */
module Errors {

  /** The errno values firmware errors are turned into: ENOENT, EIO, EACCES, EINVAL, ENOSPC, EROFS. */
  type Fault = e: int | e in {2, 5, 13, 22, 28, 30} witness 5

  /** What a firmware call that may succeed comes to, 0 for success. */
  type Errno = e: int | e == 0 || e in {2, 5, 13, 22, 28, 30}

  /** How a call reports an errno. */
  function Failure(errno: int): int {
    -errno
  }
}
