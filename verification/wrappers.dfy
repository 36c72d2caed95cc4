/** Option and Result types shared by every module, and the error taxonomy of
    the two blog backends: a field-keyed validation failure, "not found",
    "forbidden", "not authenticated", a uniqueness conflict, the two
    Python exceptions the identity rules raise, and the Express handlers'
    catch-all "server error". */
module Wrappers {

  datatype Option<+T> = None | Some(value: T)

  /** One entry of a field-keyed error body: DRF's `{"title": [...]}` or one
      element of express-validator's `errors.array()`. Errors that belong to
      no field use the key "non_field_errors", as DRF does. */
  datatype FieldError = FieldError(field: string, message: string)

  datatype Error =
    | Invalid(errors: seq<FieldError>)   // ValidationError, HTTP 400
    | NotFound                           // HTTP 404
    | Forbidden                          // HTTP 403
    | Unauthenticated                    // HTTP 401
    | Conflict(field: string)            // unique-column violation
    | ValueError(message: string)        // Python ValueError
    | IndexError                         // Python IndexError
    | ServerError                        // an exception caught by a handler, HTTP 500

  datatype Result<+T> = Ok(value: T) | Err(error: Error)

  /** A validation failure on a single field. */
  function FieldInvalid(field: string, message: string): Error
  {
    Invalid([FieldError(field, message)])
  }

  const NonFieldErrors: string := "non_field_errors"
}
