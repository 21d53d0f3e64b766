/** What several of the modelled files share. */
module Options {
  datatype Option<+T> = None | Some(value: T)
}

/** The error numbers that the modelled calls return, negated. */
module Errno {
  const ENOMEM := 12
  const EINVAL := 22
  const ETIMEDOUT := 110
}
