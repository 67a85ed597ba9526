/** Numbers and error codes that several parts of the kernel share. */
module Limits {

  const NR_TASKS: nat := 64
  const NR_OPEN: nat := 32
  const FRAME_SIZE: nat := 0x1000

  /** The descriptors of all tasks. */
  const NR_SLOTS: nat := NR_TASKS * NR_OPEN

  datatype Errno =
    | Ok | EPERM | EINVAL | ESRCH | ECHILD
    | ENOENT | ENOTDIR | EACCES | EGENERIC | EMLINK | EMFILE | EBADF
}
