/** The errno values the trampolines of macelf/mactrampolines.c set or
    return. Their numeric values come from system headers that are not part
    of this model, so they are names only. */
module Errnos {
  datatype Errno = EPERM | ENOTSUP | EINVAL | ENOMEM
}
