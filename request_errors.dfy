/**
 * The request exception hierarchy: the failures an outgoing request can end
 * in, and the per-class tables of server error codes that each exception
 * class claims through the static isMyCode check.
 */
module RequestErrors {

  /**
   * The failures of the userbot core, one constructor per exception class.
   * PHP exceptions carry a message and an integer code (0 unless given).
   */
  datatype Error =
    | Runtime(message: string)                          // \RuntimeException
    | BadRequest(message: string, code: int)            // Exception\Request\BadRequestException
    | InProgress(message: string, code: int)            // Exception\Request\RequestInProgressException
    | UnexpectedResponse(message: string, code: int)    // Exception\Request\UnexpectedResponseException
    | UserNotFound(message: string)                     // Exception\Request\UserNotFoundException
    | BadCommand(message: string)                       // Exception\Webhook\BadCommandException
    | TypeFault                                         // a \TypeError from a strict_types check

  /** The request exception classes that declare a BOUND_CODES table. */
  datatype ExceptionClass = AbstractRequestClass | BadRequestClass | RequestInProgressClass

  /** BadRequestException::BOUND_CODES. */
  const BAD_REQUEST_CODES: seq<int> := [1, 2, 3, 4, 8]

  /** RequestInProgressException::BOUND_CODES. */
  const IN_PROGRESS_CODES: seq<int> := [7]

  /** static::BOUND_CODES, resolved by late static binding on the class isMyCode is called on. */
  function BoundCodes(c: ExceptionClass): seq<int>
  {
    match c
    case AbstractRequestClass => []
    case BadRequestClass => BAD_REQUEST_CODES
    case RequestInProgressClass => IN_PROGRESS_CODES
  }

  /** in_array($code, static::BOUND_CODES, true). */
  predicate IsMyCode(c: ExceptionClass, code: int)
  {
    exists i :: 0 <= i < |BoundCodes(c)| && BoundCodes(c)[i] == code
  }

  /** The bad-request class claims exactly the codes 1, 2, 3, 4 and 8. */
  lemma BadRequestClaims(code: int)
    ensures IsMyCode(BadRequestClass, code) <==> code in {1, 2, 3, 4, 8}
  {
    if code in {1, 2, 3, 4, 8} {
      var i := if code == 8 then 4 else code - 1;
      assert BoundCodes(BadRequestClass)[i] == code;
    }
  }

  /** The in-progress class claims code 7 and nothing else. */
  lemma InProgressClaims(code: int)
    ensures IsMyCode(RequestInProgressClass, code) <==> code == 7
  {
    if code == 7 {
      assert BoundCodes(RequestInProgressClass)[0] == 7;
    }
  }

  /** The base table is empty, so a class that does not override it claims no code. */
  lemma AbstractClaimsNothing(code: int)
    ensures !IsMyCode(AbstractRequestClass, code)
  {
  }

  /** No code is claimed by both tables, so classifying a server error is unambiguous. */
  lemma TablesDisjoint(code: int)
    ensures !(IsMyCode(BadRequestClass, code) && IsMyCode(RequestInProgressClass, code))
  {
    BadRequestClaims(code);
    InProgressClaims(code);
  }
}
