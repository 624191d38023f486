/** The failure-carrying result used wherever an operation can fail: a malformed
    day identifier, or a day that has no four-digit-year identifier. */
module Optional {

  datatype Option<+T> = None | Some(value: T)
}
