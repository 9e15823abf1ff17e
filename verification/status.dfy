/** The status catalogue (`HttpStatus`): thirteen named statuses, each with a
    fixed code and reason phrase, looked up by code in declaration order. */
module Status {
  import Wrappers
  import Numbers

  datatype HttpStatus =
    | Ok | Created
    | MovedPermanently | Found | NotModified
    | BadRequest | Unauthorized | Forbidden | NotFound | MethodNotAllowed
    | InternalServerError | NotImplemented | ServiceUnavailable

  /** The constants in declaration order, as `values()` lists them. */
  const AllStatuses: seq<HttpStatus> := [
    Ok, Created, MovedPermanently, Found, NotModified,
    BadRequest, Unauthorized, Forbidden, NotFound, MethodNotAllowed,
    InternalServerError, NotImplemented, ServiceUnavailable
  ]

  function Code(s: HttpStatus): int {
    match s
    case Ok => 200
    case Created => 201
    case MovedPermanently => 301
    case Found => 302
    case NotModified => 304
    case BadRequest => 400
    case Unauthorized => 401
    case Forbidden => 403
    case NotFound => 404
    case MethodNotAllowed => 405
    case InternalServerError => 500
    case NotImplemented => 501
    case ServiceUnavailable => 503
  }

  function Reason(s: HttpStatus): string {
    match s
    case Ok => "OK"
    case Created => "Created"
    case MovedPermanently => "Moved Permanently"
    case Found => "Found"
    case NotModified => "Not Modified"
    case BadRequest => "Bad Request"
    case Unauthorized => "Unauthorized"
    case Forbidden => "Forbidden"
    case NotFound => "Not Found"
    case MethodNotAllowed => "Method Not Allowed"
    case InternalServerError => "Internal Server Error"
    case NotImplemented => "Not Implemented"
    case ServiceUnavailable => "Service Unavailable"
  }

  /** The first of `candidates` whose code is `code`, if any. */
  function FindByCode(candidates: seq<HttpStatus>, code: int): (r: Wrappers.Option<HttpStatus>)
    ensures r.Some? ==> r.value in candidates && Code(r.value) == code
    ensures r.None? ==> forall k :: 0 <= k < |candidates| ==> Code(candidates[k]) != code
  {
    if |candidates| == 0 then Wrappers.None
    else if Code(candidates[0]) == code then Wrappers.Some(candidates[0])
    else FindByCode(candidates[1..], code)
  }

  /** The position of each constant in `AllStatuses`. */
  function Ordinal(t: HttpStatus): (k: nat)
    ensures k < |AllStatuses| && AllStatuses[k] == t
  {
    match t
    case Ok => 0
    case Created => 1
    case MovedPermanently => 2
    case Found => 3
    case NotModified => 4
    case BadRequest => 5
    case Unauthorized => 6
    case Forbidden => 7
    case NotFound => 8
    case MethodNotAllowed => 9
    case InternalServerError => 10
    case NotImplemented => 11
    case ServiceUnavailable => 12
  }

  lemma NoneFound(code: int)
    requires FindByCode(AllStatuses, code).None?
    ensures forall t: HttpStatus :: Code(t) != code
  {
    forall t: HttpStatus ensures Code(t) != code {
      var k := Ordinal(t);
    }
  }

  /** `HttpStatus.fromCode`: the constant with that code, or InternalServerError
      when the code is not in the table. */
  function FromCode(code: int): (s: HttpStatus)
    ensures Code(s) == code || (s == InternalServerError && forall t: HttpStatus :: Code(t) != code)
  {
    var found := FindByCode(AllStatuses, code);
    if found.Some? then found.value
    else
      NoneFound(code);
      InternalServerError
  }

  /** `HttpStatus.toString`: code, one space, reason phrase. */
  function ToString(s: HttpStatus): (r: string)
    ensures Numbers.IntToString(Code(s)) <= r
    ensures r[|Numbers.IntToString(Code(s))|..] == " " + Reason(s)
  {
    Numbers.IntToString(Code(s)) + " " + Reason(s)
  }

  /** No two constants share a code, so a code names at most one status. */
  lemma CodesDistinct(s: HttpStatus, t: HttpStatus)
    ensures Code(s) == Code(t) ==> s == t
  {
  }

  /** `fromCode(s.getCode()) == s` for every constant. */
  lemma FromCodeOfCode(s: HttpStatus)
    ensures FromCode(Code(s)) == s
  {
    CodesDistinct(s, FromCode(Code(s)));
  }

  /** Codes outside the table fall back to 500. */
  lemma FromCodeUnknown(code: int)
    requires forall t: HttpStatus :: Code(t) != code
    ensures FromCode(code) == InternalServerError
  {
  }

  /** Every code in the table is a three-digit status between 200 and 503. */
  lemma CodeRange(s: HttpStatus)
    ensures 200 <= Code(s) <= 503
  {
  }
}
