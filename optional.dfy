/** The absent-or-present value used wherever the Java code uses `null`:
    an empty array slot, a missing key, a null result. */
module Optional {

  datatype Option<+T> = None | Some(value: T)
}
