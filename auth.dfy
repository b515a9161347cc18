/**
 * `AuthService::validate_signature` of `crates/auth/src/lib.rs`: look up the
 * active access key, refuse it once expired, then let the SigV4 check decide.
 * The access-key table is passed as its rows; one clock reading `now` serves
 * both the expiry test and the SigV4 timestamp window.
 */
module Auth {
  import opened Wrappers
  import Keys
  import SigV4

  datatype AuthContext = AuthContext(
    accessKeyId: string,
    authenticated: bool,
    policies: seq<string>,
    sessionToken: Option<string>)

  datatype SignatureValidationRequest = SignatureValidationRequest(
    accessKeyId: string,
    signature: string,
    signedHeaders: seq<(string, string)>,
    verb: string,
    uri: string,
    queryString: string,
    payloadHash: string,
    timestamp: int,
    region: string,
    service: string)

  datatype AuthError =
    | AccessKeyNotFound
    | AccessKeyExpired
    | SignatureCheck(cause: SigV4.SigV4Error)
    | InvalidSignature

  /** A key with an expiry is expired once `now` is strictly after it. */
  predicate ExpiredAt(key: Keys.AccessKey, now: int) {
    key.expiresAt.Some? && now > key.expiresAt.value
  }

  /** The signature the request must carry to be signed with this key's secret. */
  function ExpectedFor(p: SigV4.Primitives, key: Keys.AccessKey, req: SignatureValidationRequest): string {
    SigV4.ExpectedSignature(p, key.secretAccessKey, req.verb, req.uri, req.queryString,
      req.signedHeaders, req.payloadHash, req.timestamp, req.region, req.service)
  }

  function InWindow(now: int, req: SignatureValidationRequest): bool {
    SigV4.Abs(now - req.timestamp) <= SigV4.MaxAge
  }

  /**
   * The active key's context, once the lookup, the expiry test, the
   * timestamp window and the signature have all passed, in that order;
   * `ValidationOutcomes` states which failure each earlier stop reports.
   */
  function ValidateSignature(p: SigV4.Primitives, rows: seq<Keys.AccessKey>, now: int, req: SignatureValidationRequest)
    : (r: Result<AuthContext, AuthError>)
    ensures r.Ok? ==> Keys.ActiveKey(rows, req.accessKeyId).Some?
    ensures r.Ok? ==>
      var key := Keys.ActiveKey(rows, req.accessKeyId).value;
      && key in rows && key.isActive && key.accessKeyId == req.accessKeyId
      && r.value == AuthContext(key.accessKeyId, true, key.policies, None)
  {
    match Keys.ActiveKey(rows, req.accessKeyId)
    case None => Err(AccessKeyNotFound)
    case Some(key) =>
      if key.expiresAt.Some? && now > key.expiresAt.value then Err(AccessKeyExpired)
      else
        match SigV4.ValidateSignature(p, now, key.secretAccessKey, req.verb, req.uri, req.queryString,
          req.signedHeaders, req.payloadHash, req.signature, req.timestamp, req.region, req.service)
        case Err(e) => Err(SignatureCheck(e))
        case Ok(valid) =>
          if !valid then Err(InvalidSignature)
          else Ok(AuthContext(key.accessKeyId, true, key.policies, None))
  }

  /**
   * The decision sequence: lookup, expiry, timestamp window, signature. Each
   * outcome holds exactly when every earlier check passed and its own failed.
   */
  lemma ValidationOutcomes(p: SigV4.Primitives, rows: seq<Keys.AccessKey>, now: int, req: SignatureValidationRequest)
    ensures var r := ValidateSignature(p, rows, now, req);
      var found := Keys.ActiveKey(rows, req.accessKeyId);
      && (r == Err(AccessKeyNotFound) <==> found.None?)
      && (r == Err(AccessKeyExpired) <==> found.Some? && ExpiredAt(found.value, now))
      && (r == Err(SignatureCheck(SigV4.TimestampTooOld)) <==>
            found.Some? && !ExpiredAt(found.value, now) && !InWindow(now, req))
      && (r.Err? && r.error.SignatureCheck? ==> r.error.cause == SigV4.TimestampTooOld)
      && (r == Err(InvalidSignature) <==>
            found.Some? && !ExpiredAt(found.value, now) && InWindow(now, req)
            && req.signature != ExpectedFor(p, found.value, req))
  {
    var found := Keys.ActiveKey(rows, req.accessKeyId);
    if found.Some? && !ExpiredAt(found.value, now) {
      var key := found.value;
      var v := SigV4.ValidateSignature(p, now, key.secretAccessKey, req.verb, req.uri, req.queryString,
        req.signedHeaders, req.payloadHash, req.signature, req.timestamp, req.region, req.service);
      assert v.Err? <==> !InWindow(now, req);
      assert v.Ok? ==> (v.value <==> req.signature == ExpectedFor(p, key, req));
    }
  }

  /**
   * A request is accepted exactly when an active, unexpired key with its
   * access key id exists, its timestamp is in the window, and it carries the
   * signature that key's secret produces.
   */
  lemma AcceptedIff(p: SigV4.Primitives, rows: seq<Keys.AccessKey>, now: int, req: SignatureValidationRequest)
    ensures ValidateSignature(p, rows, now, req).Ok? <==>
      exists key :: key in rows && key.accessKeyId == req.accessKeyId && key.isActive
        && !ExpiredAt(key, now) && InWindow(now, req) && req.signature == ExpectedFor(p, key, req)
        && Keys.ActiveKey(rows, req.accessKeyId) == Some(key)
  {
    ValidationOutcomes(p, rows, now, req);
    var found := Keys.ActiveKey(rows, req.accessKeyId);
    var r := ValidateSignature(p, rows, now, req);
    if r.Ok? {
      var key := found.value;
      assert key in rows && key.accessKeyId == req.accessKeyId && key.isActive;
    } else if found.Some? && !ExpiredAt(found.value, now) && InWindow(now, req) {
      match r.error
      case AccessKeyNotFound =>
      case AccessKeyExpired =>
      case SignatureCheck(_) =>
      case InvalidSignature =>
        assert req.signature != ExpectedFor(p, found.value, req);
    }
  }

  /** A present but deactivated key is reported as not found, before anything else is looked at. */
  lemma InactiveKeyNotFound(p: SigV4.Primitives, rows: seq<Keys.AccessKey>, now: int, req: SignatureValidationRequest)
    requires forall k :: k in rows && k.accessKeyId == req.accessKeyId ==> !k.isActive
    ensures ValidateSignature(p, rows, now, req) == Err(AccessKeyNotFound)
  {
  }

  /** Expiry is checked before the timestamp and the signature: an expired key fails as expired, whatever was signed. */
  lemma ExpiryBeforeSignature(p: SigV4.Primitives, rows: seq<Keys.AccessKey>, now: int, req: SignatureValidationRequest, req2: SignatureValidationRequest)
    requires Keys.ActiveKey(rows, req.accessKeyId).Some?
    requires ExpiredAt(Keys.ActiveKey(rows, req.accessKeyId).value, now)
    requires req2.accessKeyId == req.accessKeyId
    ensures ValidateSignature(p, rows, now, req) == ValidateSignature(p, rows, now, req2) == Err(AccessKeyExpired)
  {
  }

  /** After `deactivate`, every request under that access key id is refused as not found. */
  lemma DeactivateRevokes(p: SigV4.Primitives, rows: seq<Keys.AccessKey>, now: int, req: SignatureValidationRequest)
    ensures ValidateSignature(p, Keys.Deactivated(rows, req.accessKeyId), now, req) == Err(AccessKeyNotFound)
  {
    var after := Keys.Deactivated(rows, req.accessKeyId);
    forall k | k in after && k.accessKeyId == req.accessKeyId
      ensures !k.isActive
    {
      var i :| 0 <= i < |after| && after[i] == k;
    }
    InactiveKeyNotFound(p, after, now, req);
  }

  /**
   * Cleaning up expired keys at the same instant changes no outcome: the
   * keys it deactivates (expiry before `now`) are exactly the ones the
   * service already refuses as expired (`now` after the expiry), so only the
   * reported error changes, from expired to not found.
   */
  lemma CleanupAgreesWithExpiry(p: SigV4.Primitives, rows: seq<Keys.AccessKey>, now: int, req: SignatureValidationRequest)
    requires Keys.UniqueKeys(rows)
    ensures ValidateSignature(p, Keys.ExpireBefore(rows, now), now, req).Ok?
        <==> ValidateSignature(p, rows, now, req).Ok?
    ensures ValidateSignature(p, rows, now, req) == Err(AccessKeyExpired)
        ==> ValidateSignature(p, Keys.ExpireBefore(rows, now), now, req) == Err(AccessKeyNotFound)
  {
    var after := Keys.ExpireBefore(rows, now);
    Keys.ActiveAfterCleanup(rows, now, req.accessKeyId);
    var found := Keys.ActiveKey(rows, req.accessKeyId);
    if found.Some? && !Keys.ExpiredBefore(found.value, now) {
      SameKeySameOutcome(p, rows, after, now, req);
    } else {
      assert Keys.ActiveKey(after, req.accessKeyId).None?;
    }
  }

  /** The outcome depends on the table only through the active key it finds. */
  lemma SameKeySameOutcome(p: SigV4.Primitives, rows: seq<Keys.AccessKey>, rows2: seq<Keys.AccessKey>, now: int, req: SignatureValidationRequest)
    requires Keys.ActiveKey(rows, req.accessKeyId) == Keys.ActiveKey(rows2, req.accessKeyId)
    ensures ValidateSignature(p, rows, now, req) == ValidateSignature(p, rows2, now, req)
  {
  }
}
