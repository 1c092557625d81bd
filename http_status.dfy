/** The statuses the server itself can send, each a fixed code and reason phrase. */
module HttpStatuses {

  datatype HttpStatus = OK | BAD_REQUEST | NOT_FOUND | METHOD_NOT_ALLOWED | INTERNAL_SERVER_ERROR
  {
    /** `code()`: a three-digit status code of the success, client-error or server-error class. */
    function Code(): (c: int)
      ensures 200 <= c <= 599
      ensures (c < 300) <==> this == OK
      ensures (500 <= c) <==> this == INTERNAL_SERVER_ERROR
    {
      match this
      case OK => 200
      case BAD_REQUEST => 400
      case NOT_FOUND => 404
      case METHOD_NOT_ALLOWED => 405
      case INTERNAL_SERVER_ERROR => 500
    }

    /** `reason()`: the canonical reason phrase. */
    function Reason(): (r: string)
      ensures |r| > 0
    {
      match this
      case OK => "OK"
      case BAD_REQUEST => "Bad Request"
      case NOT_FOUND => "Not Found"
      case METHOD_NOT_ALLOWED => "Method Not Allowed"
      case INTERNAL_SERVER_ERROR => "Internal Server Error"
    }
  }

  /** No two constants share a status code, so a code names at most one status. */
  lemma CodesDistinct(a: HttpStatus, b: HttpStatus)
    ensures a.Code() == b.Code() ==> a == b
  {
  }

  /** No two constants share a reason phrase. */
  lemma ReasonsDistinct(a: HttpStatus, b: HttpStatus)
    ensures a.Reason() == b.Reason() ==> a == b
  {
  }
}
