/** Option and Result values shared by the whole model, and the error codes of the
    backend's ResultCode table that the modelled services raise. */
module Wrappers {

  datatype Option<T> = None | Some(value: T)

  /** A service call either returns its value or fails with a business error; the
      enclosing database transaction is then rolled back. */
  datatype Result<T> = Ok(value: T) | Err(error: ErrorCode)

  /** The ResultCode constants raised by the modelled code. `Internal` stands for a
      BusinessException built from a bare message, which carries INTERNAL_ERROR;
      `Uncaught` a Java runtime exception that is not a BusinessException (the
      global exception handler is not part of this model and is taken to answer
      500 for it). */
  datatype ErrorCode =
    | BadRequest
    | Forbidden
    | NotFound
    | Conflict
    | Internal(message: string)
    | Uncaught(exception: string)
    | UserNotFound
    | ProjectNotFound
    | InvalidProjectStatus
    | BidAlreadyExists
    | OrderNotFound
    | InvalidOrderStatus
    | OrderCannotCancel
    | OrderAlreadyPaid
  {
    /** The numeric code each constant carries in ResultCode. */
    function Code(): int
    {
      match this
      case BadRequest => 400
      case Forbidden => 403
      case NotFound => 404
      case Conflict => 409
      case Internal(_) => 500
      case Uncaught(_) => 500
      case UserNotFound => 1001
      case ProjectNotFound => 2001
      case InvalidProjectStatus => 2004
      case BidAlreadyExists => 2502
      case OrderNotFound => 3001
      case InvalidOrderStatus => 3002
      case OrderCannotCancel => 3003
      case OrderAlreadyPaid => 3004
    }
  }
}
