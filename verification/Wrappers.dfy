/** Option and Result, with the error numbers the model distinguishes. */
module Wrappers {
  datatype Option<+T> = None | Some(value: T)

  /** The errno carried by an error. */
  datatype Errno =
    | EIO | EINVAL | EROFS | EFBIG | ENOENT | EEXIST | ENOTDIR | EISDIR
    | ENOTEMPTY | EPERM | ENAMETOOLONG | ELOOP

  datatype Result<+T> = Ok(value: T) | Err(error: Errno)
}
