/**
 * `ApiError` of `crates/api/src/error.rs` and its conversion into an HTTP
 * error response: a status, an S3 error code and a message, sent as a JSON
 * body with the fields Code, Message and RequestId. The wrapped `anyhow` and
 * `sqlx` errors are represented by their display text.
 */
module Errors {
  import opened Text

  datatype ApiError =
    | BucketNotFound(detail: string)
    | ObjectNotFound(detail: string)
    | BucketAlreadyExists(detail: string)
    | InvalidBucketName(detail: string)
    | InvalidObjectKey(detail: string)
    | AuthenticationFailed(detail: string)
    | AuthorizationFailed(detail: string)
    | Internal(detail: string)
    | Database(detail: string)
    | Storage(detail: string)
    | BadRequest(detail: string)

  /** The text the `#[error(...)]` attribute puts before the wrapped value. */
  function DisplayPrefix(e: ApiError): string {
    match e
    case BucketNotFound(_) => "Bucket not found: "
    case ObjectNotFound(_) => "Object not found: "
    case BucketAlreadyExists(_) => "Bucket already exists: "
    case InvalidBucketName(_) => "Invalid bucket name: "
    case InvalidObjectKey(_) => "Invalid object key: "
    case AuthenticationFailed(_) => "Authentication failed: "
    case AuthorizationFailed(_) => "Authorization failed: "
    case Internal(_) => "Internal server error: "
    case Database(_) => "Database error: "
    case Storage(_) => "Storage error: "
    case BadRequest(_) => "Invalid request: "
  }

  /** `self.to_string()`: the variant's prefix, then the wrapped text. */
  function Display(e: ApiError): (s: string)
    ensures StartsWith(s, DisplayPrefix(e))
    ensures s[|DisplayPrefix(e)|..] == e.detail
  {
    DisplayPrefix(e) + e.detail
  }

  const NilRequestId := "00000000-0000-0000-0000-000000000000"

  datatype ErrorResponse = ErrorResponse(status: nat, code: string, message: string, requestId: string)

  /** Errors the server answers with 500; their text is logged, not sent. */
  predicate IsServerError(e: ApiError) {
    e.Internal? || e.Database? || e.Storage?
  }

  /**
   * `into_response`: one (status, code, message) per variant. Client errors
   * carry their display text; server errors a fixed generic message.
   */
  function IntoResponse(e: ApiError): (r: ErrorResponse)
    ensures r.requestId == NilRequestId
    ensures r.status == 500 <==> IsServerError(e)
    ensures IsServerError(e) ==> r.code == "InternalError"
    ensures !IsServerError(e) ==> r.message == Display(e) && 400 <= r.status < 500
    ensures e.Storage? ==> r.message == "Storage operation failed"
    ensures e.Internal? || e.Database? ==> r.message == "Internal server error"
    ensures r.code == "AccessDenied" <==> e.AuthenticationFailed? || e.AuthorizationFailed?
    ensures r.status == 404 <==> e.BucketNotFound? || e.ObjectNotFound?
    ensures r.status == 400 <==> e.InvalidBucketName? || e.InvalidObjectKey? || e.BadRequest?
    ensures r.status == 409 <==> e.BucketAlreadyExists?
    ensures r.status == 401 <==> e.AuthenticationFailed?
    ensures r.status == 403 <==> e.AuthorizationFailed?
    ensures r.code == "NoSuchBucket" <==> e.BucketNotFound?
    ensures r.code == "NoSuchKey" <==> e.ObjectNotFound?
    ensures r.code == "BucketAlreadyExists" <==> e.BucketAlreadyExists?
    ensures r.code == "InvalidBucketName" <==> e.InvalidBucketName?
    ensures r.code == "InvalidObjectKey" <==> e.InvalidObjectKey?
    ensures r.code == "InvalidRequest" <==> e.BadRequest?
  {
    match e
    case BucketNotFound(_) => ErrorResponse(404, "NoSuchBucket", Display(e), NilRequestId)
    case ObjectNotFound(_) => ErrorResponse(404, "NoSuchKey", Display(e), NilRequestId)
    case BucketAlreadyExists(_) => ErrorResponse(409, "BucketAlreadyExists", Display(e), NilRequestId)
    case InvalidBucketName(_) => ErrorResponse(400, "InvalidBucketName", Display(e), NilRequestId)
    case InvalidObjectKey(_) => ErrorResponse(400, "InvalidObjectKey", Display(e), NilRequestId)
    case AuthenticationFailed(_) => ErrorResponse(401, "AccessDenied", Display(e), NilRequestId)
    case AuthorizationFailed(_) => ErrorResponse(403, "AccessDenied", Display(e), NilRequestId)
    case BadRequest(_) => ErrorResponse(400, "InvalidRequest", Display(e), NilRequestId)
    case Storage(_) => ErrorResponse(500, "InternalError", "Storage operation failed", NilRequestId)
    case Internal(_) => ErrorResponse(500, "InternalError", "Internal server error", NilRequestId)
    case Database(_) => ErrorResponse(500, "InternalError", "Internal server error", NilRequestId)
  }

  /**
   * The JSON body sent for an error: exactly the fields Code, Message and
   * RequestId, the last always the all-zero UUID.
   */
  function ErrorBody(e: ApiError): (fields: seq<(string, string)>)
    ensures |fields| == 3
    ensures fields[0].0 == "Code" && fields[1].0 == "Message" && fields[2] == ("RequestId", NilRequestId)
    ensures fields[0].1 == IntoResponse(e).code && fields[1].1 == IntoResponse(e).message
  {
    var r := IntoResponse(e);
    [("Code", r.code), ("Message", r.message), ("RequestId", r.requestId)]
  }

  /** A server error's response never depends on the wrapped error text. */
  lemma ServerErrorHidesDetail(e1: ApiError, e2: ApiError)
    requires IsServerError(e1) && IsServerError(e2)
    requires e1.Storage? <==> e2.Storage?
    ensures IntoResponse(e1) == IntoResponse(e2)
  {
  }

  /** A client error can be told back from its response: variant and text are both recoverable. */
  lemma ClientErrorRecoverable(e1: ApiError, e2: ApiError)
    requires !IsServerError(e1) && IntoResponse(e1) == IntoResponse(e2)
    ensures e1 == e2
  {
    var r := IntoResponse(e1);
    assert !IsServerError(e2);
    // Status and code single out the variant, hence the prefix.
    assert DisplayPrefix(e1) == DisplayPrefix(e2) by {
      match e1
      case BucketNotFound(_) => assert r.code == "NoSuchBucket";
      case ObjectNotFound(_) => assert r.code == "NoSuchKey";
      case InvalidBucketName(_) => assert r.code == "InvalidBucketName";
      case InvalidObjectKey(_) => assert r.code == "InvalidObjectKey";
      case BadRequest(_) => assert r.code == "InvalidRequest";
      case _ =>
    }
    assert e1.detail == Display(e1)[|DisplayPrefix(e1)|..] == Display(e2)[|DisplayPrefix(e2)|..] == e2.detail;
  }
}
