/** Failure-carrying results and small integer helpers shared by every module. */
module Common {

  datatype Option<+T> = None | Some(value: T)

  /** The HTTP error kinds the services raise: NotFoundException (404),
      HttpStatus.CONFLICT (409) and BadRequestException (400). */
  datatype ErrorKind = NotFound | Conflict | BadRequest

  datatype Result<+T> = Success(value: T) | Failure(error: ErrorKind)

  function Max(a: int, b: int): (m: int)
    ensures m >= a && m >= b
    ensures m == a || m == b
  {
    if a >= b then a else b
  }

  function Min(a: int, b: int): (m: int)
    ensures m <= a && m <= b
    ensures m == a || m == b
  {
    if a <= b then a else b
  }
}
