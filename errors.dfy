/** The closed set of error codes that the services raise, and the result
    datatypes that stand for "returns normally" or "throws a GlobalException
    carrying this code". */
module Errors {

  /** The subset of GlobalErrorCode that the modelled services throw. */
  datatype ErrorCode =
    | UserNotFound
    | UnauthorizedUser
    | PostNotFound
    | RecruitmentClosed
    | AlreadyRecruitment
    | RecruitmentNotFound
    | RecruitmentStatusNotSupport

  /** A call that returns nothing: it either completes or throws. */
  datatype Outcome = Pass | Fail(code: ErrorCode)

  /** A call that returns a value or throws. */
  datatype Result<+T> = Success(value: T) | Failure(code: ErrorCode)

  /** A nullable value (Kotlin `T?`). */
  datatype Option<+T> = None | Some(value: T)
}
