/** Optional values, the failures the services raise, and a failure-compatible
    result type shared by every module of the model. */
module Wrappers {

  datatype Option<+T> = None | Some(value: T)

  /** The exceptions the modelled Python code can raise. `BadRequest` is the
      application's own user-facing error (infra.exceptions.BadRequest) and
      carries its message; the others stand for the Python or Django
      exceptions that escape from the services unchanged. */
  datatype Error =
    | BadRequest(message: string)
    | DoesNotExist                    // Model.objects.get found no row
    | IntegrityError                  // a unique constraint was violated
    | ValueError                      // int() of a non-number, tuple unpacking of the wrong length
    | IndexError                      // a spreadsheet cell or list element that is not there
    | KeyError                        // a dictionary lookup of a missing key
    | AttributeError                  // an attribute read on None or on a value of the wrong type
    | Diverges                        // a walk along parent pointers that would never end

  datatype Result<+T> = Success(value: T) | Failure(error: Error) {
    predicate IsFailure() {
      Failure?
    }

    function PropagateFailure<U>(): Result<U>
      requires Failure?
    {
      Failure(error)
    }

    function Extract(): T
      requires Success?
    {
      value
    }
  }
}
