/**
 * The optional value used where a Python helper either produces a value or
 * fails, and the Python exceptions the modelled code can raise.
 */
module Options {

  datatype Option<+T> = None | Some(value: T)

  /** A Python exception: `KeyError` from a missing label, `ValueError` from a conversion. */
  datatype Error = KeyError | ValueError

}
