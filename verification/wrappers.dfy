/** Optional values and pass/fail outcomes, used where the source returns
    `undefined` or throws one of its exception classes. */
module Wrappers {

  datatype Option<+T> = None | Some(value: T)

  /** `Pass` is a call that returned normally; `Fail(e)` is one that threw `e`. */
  datatype Outcome<+E> = Pass | Fail(error: E)
}
