/** The results the kernel functions return: success, or the error number named
    in the source (`return -EIO;` is `Eio` here). */
module Errno {
  datatype Status =
    | Ok
    | Eacces | Eagain | Ebusy | Efault | Eidrm | Einval | Eintr | Eio | Emsgsize
    | Enomem | Enomsg | Enospc | Eopnotsupp | Etimedout | E2big | Etoomanyrefs
}
