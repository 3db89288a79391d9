/** The two Java exceptions the graph core can raise, and a result type that
    carries either a returned value or the exception that ended the call.
    A thrown exception does not roll back what the call already changed. */
module Errors {

  datatype Exception =
    | IndexOutOfBounds  // ArrayList.get/remove with a position outside the list
    | NullPointer       // a method called on a null reference

  datatype Result<+T> = Ok(value: T) | Throws(exception: Exception)
}
