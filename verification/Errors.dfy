// Error codes, and a value that may be missing.
module Errors {
  const ENOENT := -2
  const EIO := -5
  const E2BIG := -7
  const EINVAL := -22

  datatype Option<T> = None | Some(value: T)
}
