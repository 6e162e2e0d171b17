/** The error numbers the modelled functions report through `errno`. */
module Errnos {
  datatype Errno =
    | EINVAL | ENOENT | ENAMETOOLONG | ELOOP | ENOTDIR | EACCES | ERANGE | ENOMEM
    | OtherErrno(code: int)
}
