/** Error numbers of Linux. */
module Errno {
  const ENOENT := 2
  const ENXIO := 6
  const E2BIG := 7
  const ENOTDIR := 20
  const EISDIR := 21
  const EINVAL := 22
  const EPIPE := 32
  const ENOSYS := 38
  const EPROTO := 71
  const EOVERFLOW := 75
  const ENOTSUP := 95
  const EKEYEXPIRED := 127
}
