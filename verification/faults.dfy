/**
 The data shared by every part of the error-to-response layer: the closed set of
 exceptions a request handler can raise, the JSON error body returned to API
 clients, and the response a handler produces.
 */
module Faults {

  /** The conventional Some/None datatype, used where the source returns a
      value or nothing. */
  datatype Option<+T> = None | Some(value: T)

  /** A raised exception, reduced to the three kinds the handlers tell apart.
      - IllegalArg: java.lang.IllegalArgumentException (and its subclasses);
      - UserEx: the application's own UserException;
      - Other: any other exception, e.g. the RuntimeException raised by the controller.
      Every kind carries the message given when it was constructed. */
  datatype Fault =
    | IllegalArg(msg: string)
    | UserEx(msg: string)
    | Other(msg: string)

  /** The error body serialised to the client: `{"code": ..., "message": ...}`. */
  datatype ErrorResult = ErrorResult(code: string, message: string)

  /** What an exception handler answers with: an HTTP status and an error body. */
  datatype Response = Response(status: int, body: ErrorResult)

  /** HttpStatus.BAD_REQUEST and HttpServletResponse.SC_BAD_REQUEST */
  const BadRequest: int := 400

  /** HttpStatus.INTERNAL_SERVER_ERROR */
  const InternalServerError: int := 500

  /** The error codes each handler puts in the body. */
  const BadCode: string := "BAD"
  const UserExCode: string := "USER-EX"
  const ExCode: string := "EX"

  /** The fixed message of the catch-all handler ("internal error"). */
  const InternalErrorMessage: string := "내부 오류"
}
