/** The error numbers the thread extensions return, with their Linux values. */
module Errno {

  /** No such thread: the handle fails the descriptor validity check. */
  const ESRCH: int := 3

  /** Invalid argument: a NULL key, an empty store or a key that is not there. */
  const EINVAL: int := 22
}
