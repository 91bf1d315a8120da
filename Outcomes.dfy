/** Success and failure values shared by the whole model.  A Python
    exception is modelled as a returned `Fault` naming its class. */
module Outcomes {

  /** The exception classes the modelled code raises. */
  datatype Fault =
    | KeyError            // a dict lookup or `del` on a missing key
    | ValueError          // raised explicitly by the source
    | ZeroDivisionError   // float division by zero
    | RuntimeError        // wrapper raised by the batch builders, or a dict resized while iterated
    | AttributeError      // an attribute read on None
    | IndexError          // indexing an empty list
    | GenericException    // a bare `raise Exception(...)`

  /** Result of an operation that returns nothing on success. */
  datatype Outcome = Pass | Fail(fault: Fault)

  /** Result of an operation that returns a value on success. */
  datatype Result<T> = Ok(value: T) | Err(fault: Fault)

  datatype Option<T> = None | Some(value: T)
}
