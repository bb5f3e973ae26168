/** Small value wrappers shared by the store and the bot. */
module Wrappers {

  /** A value that may be absent: Go's comma-ok lookups and nil-able results. */
  datatype Option<+T> = None | Some(value: T)

  /** A non-nil Go `error` returned by a configuration store. */
  datatype StoreError = StoreError(message: string)
}
