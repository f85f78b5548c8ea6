/** Small failure-carrying datatypes shared by every module of the model.
    Python raises exceptions; the model returns one of these instead. */
module Outcomes {

  /** A value that may be absent (a Python lookup that raised, or a `None`). */
  datatype Option<+T> = None | Some(value: T)

  /** A value, or the error a Python call would have raised instead. */
  datatype Result<+T, +E> = Ok(value: T) | Err(error: E)

  /** The value a device's `on_serial_read` hands back to the framework:
      `True`, `False`, or an error message string. */
  datatype ReadValue = ReadTrue | ReadFalse | ReadMessage(text: string)
  {
    /** The framework treats only `True` as a successful handshake. */
    predicate IsSuccess() { ReadTrue? }
  }
}
