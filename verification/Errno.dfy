/** Error numbers, with newlib's values. */
module Errno {
  const EIO := 5
  const EWOULDBLOCK := 11
  const EACCES := 13
  const ENODEV := 19
  const EINVAL := 22
  const EMFILE := 24
  const ENOTTY := 25
  const EBADFD := 81
  const ENOSYS := 88
  const ENOTSUP := 134
}
