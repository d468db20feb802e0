/**
 * `requireAuth`: bearer-header parsing and the mapping of verification
 * failures to 401 errors. The framework's `next()` call becomes the
 * successful result carrying the request's principal.
 */
module RequireAuth {
  import opened Results
  import opened Errors
  import opened Text
  import opened Tokens

  const BearerPrefix := "Bearer "

  const MissingToken := AppError(401, "UNAUTHORIZED", "Missing token")
  const TokenExpired := AppError(401, "TOKEN_EXPIRED", "Access token has expired")
  const InvalidToken := AppError(401, "INVALID_TOKEN", "Invalid access token")
  const TokenNotActive := AppError(401, "TOKEN_NOT_ACTIVE", "Token not active yet")
  const AuthenticationFailed := AppError(401, "UNAUTHORISED", "Authentication failed")

  /**
   * The second field of the header split on single spaces: everything after
   * "Bearer " up to the next space.
   */
  function BearerToken(header: string): (r: string)
    requires StartsWith(header, BearerPrefix)
    ensures r == TakeUntil(header[|BearerPrefix|..], ' ')
  {
    var rest := header[|BearerPrefix|..];
    assert header == "Bearer" + [' '] + rest;
    SplitAfterPrefix("Bearer", rest, ' ');
    SplitHead(rest, ' ');
    Split(header, ' ')[1]
  }

  /** The classification of a verification error by the library's error name. */
  function VerificationError(errorName: string): (e: AppError)
    ensures e.status == 401
    ensures e.code == "TOKEN_EXPIRED" <==> errorName == "TokenExpiredError"
    ensures e.code == "INVALID_TOKEN" <==> errorName == "JsonWebTokenError"
    ensures e.code == "TOKEN_NOT_ACTIVE" <==> errorName == "NotBeforeError"
  {
    if errorName == "TokenExpiredError" then TokenExpired
    else if errorName == "JsonWebTokenError" then InvalidToken
    else if errorName == "NotBeforeError" then TokenNotActive
    else AuthenticationFailed
  }

  /** The middleware: the verified access-token payload, or a 401. */
  function Authenticate(header: Option<string>, signer: Signer): (r: Result<Claims, AppError>)
    ensures header.None? || !StartsWith(header.value, BearerPrefix) ==> r == Err(MissingToken)
    ensures r.Err? ==> r.error.status == 401
    ensures r.Ok? <==> header.Some? && StartsWith(header.value, BearerPrefix)
                       && signer.verify(Access, TakeUntil(header.value[|BearerPrefix|..], ' ')).Verified?
    ensures r.Ok? ==> r == Ok(signer.verify(Access, TakeUntil(header.value[|BearerPrefix|..], ' ')).claims)
  {
    if header.None? || !StartsWith(header.value, BearerPrefix) then Err(MissingToken)
    else
      match signer.verify(Access, BearerToken(header.value))
      case Verified(claims) => Ok(claims)
      case Rejected(name) => Err(VerificationError(name))
  }

  /** A bare "Bearer " header yields the empty token, which is what gets verified. */
  lemma BareBearerGivesEmptyToken()
    ensures BearerToken("Bearer ") == ""
  {
    assert "Bearer "[|BearerPrefix|..] == "";
  }

  /** Only the second space-separated field is the token; later fields are ignored. */
  lemma TokenStopsAtNextSpace(token: string, tail: string)
    requires ' ' !in token
    ensures BearerToken(BearerPrefix + token + [' '] + tail) == token
  {
    var h := BearerPrefix + token + [' '] + tail;
    assert h[|BearerPrefix|..] == token + [' '] + tail;
    TakeUntilPrefix(token, tail);
  }

  lemma {:induction false} TakeUntilPrefix(token: string, tail: string)
    requires ' ' !in token
    ensures TakeUntil(token + [' '] + tail, ' ') == token
    decreases |token|
  {
    if |token| == 0 {
      assert (token + [' '] + tail)[0] == ' ';
    } else {
      var s := token + [' '] + tail;
      assert s[0] == token[0];
      assert s[1..] == token[1..] + [' '] + tail;
      TakeUntilPrefix(token[1..], tail);
      assert [token[0]] + token[1..] == token;
    }
  }

  /** Expired, malformed and not-yet-valid tokens are told apart, so a client can refresh only when expired. */
  lemma VerificationFailuresDistinguished()
    ensures VerificationError("TokenExpiredError").code != VerificationError("JsonWebTokenError").code
    ensures VerificationError("TokenExpiredError").code != VerificationError("NotBeforeError").code
    ensures VerificationError("JsonWebTokenError").code != VerificationError("NotBeforeError").code
    ensures VerificationError("SomethingElse") == AuthenticationFailed
  {
  }
}

/**
 * The two error handlers: `errorWrapper` (mounted by the application) and
 * the older `errorHandler`. Each recognises its own error class by
 * `instanceof`; every other thrown value becomes a generic 500.
 */
module ErrorResponse {
  import opened Results
  import opened Errors

  /** Which of the two identically shaped error classes a value was built from. */
  datatype ErrorClass = SharedAppError | LegacyAppError

  /**
   * A thrown value: an application error of one of the two classes, or
   * anything else. Anything else has a stack only when it is an `Error`;
   * a thrown string or plain object has none.
   */
  datatype Thrown =
    | AppThrown(cls: ErrorClass, err: AppError, stack: string)
    | OtherThrown(name: string, message: string, errStack: Option<string>)

  datatype ErrorBody = ErrorBody(status: string, code: string, message: string, stack: Option<string>)
  datatype Response = Response(httpStatus: int, body: ErrorBody)

  const GenericMessage := "An unexpected error occurred"

  /** `err.stack`, which is undefined for a thrown value that is not an `Error`. */
  function StackOf(t: Thrown): Option<string> {
    match t
    case AppThrown(_, _, s) => Some(s)
    case OtherThrown(_, _, s) => s
  }

  /** The shared response shape, given which class the handler recognises. */
  function Respond(t: Thrown, recognised: ErrorClass, isDev: bool): (r: Response)
    ensures r.body.status == "error"
    ensures r.body.stack == (if isDev then StackOf(t) else None)
    ensures t.AppThrown? && t.cls == recognised ==>
              r.httpStatus == t.err.status && r.body.code == t.err.code && r.body.message == t.err.message
    ensures !(t.AppThrown? && t.cls == recognised) ==>
              r.httpStatus == 500 && r.body.code == InternalServerError && r.body.message == GenericMessage
  {
    var isApp := t.AppThrown? && t.cls == recognised;
    var status := if isApp then t.err.status else 500;
    var code := if isApp then t.err.code else InternalServerError;
    var message := if isApp then t.err.message else GenericMessage;
    Response(status, ErrorBody("error", code, message, if isDev then StackOf(t) else None))
  }

  /** `errorWrapper`: passes the shared application error through, hides everything else. */
  function ErrorWrapper(t: Thrown, isDev: bool): (r: Response)
    ensures r.body.status == "error"
    ensures r.body.stack == (if isDev then StackOf(t) else None)
    ensures t.AppThrown? ==> (r.body.stack.Some? <==> isDev)
    ensures t.AppThrown? && t.cls == SharedAppError ==>
              (r.httpStatus, r.body.code, r.body.message) == (t.err.status, t.err.code, t.err.message)
    ensures !(t.AppThrown? && t.cls == SharedAppError) ==>
              (r.httpStatus, r.body.code, r.body.message) == (500, InternalServerError, GenericMessage)
  {
    Respond(t, SharedAppError, isDev)
  }

  /** `errorHandler`: the same mapping for the older error class with string codes. */
  function ErrorHandler(t: Thrown, isDev: bool): (r: Response)
    ensures r.body.status == "error"
    ensures r.body.stack == (if isDev then StackOf(t) else None)
    ensures t.AppThrown? ==> (r.body.stack.Some? <==> isDev)
    ensures t.AppThrown? && t.cls == LegacyAppError ==>
              (r.httpStatus, r.body.code, r.body.message) == (t.err.status, t.err.code, t.err.message)
    ensures !(t.AppThrown? && t.cls == LegacyAppError) ==>
              (r.httpStatus, r.body.code, r.body.message) == (500, InternalServerError, GenericMessage)
  {
    Respond(t, LegacyAppError, isDev)
  }

  /** An unexpected error's own name and message never reach the response. */
  lemma UnexpectedErrorsAreOpaque(n1: string, m1: string, n2: string, m2: string, stack: Option<string>, isDev: bool)
    ensures ErrorWrapper(OtherThrown(n1, m1, stack), isDev) == ErrorWrapper(OtherThrown(n2, m2, stack), isDev)
    ensures ErrorHandler(OtherThrown(n1, m1, stack), isDev) == ErrorHandler(OtherThrown(n2, m2, stack), isDev)
  {
  }

  /** Outside dev, nothing about an unexpected error is exposed at all, not even its stack. */
  lemma NonDevResponsesCarryNoStack(t: Thrown)
    ensures ErrorWrapper(t, false).body.stack.None?
    ensures !t.AppThrown? ==> ErrorWrapper(t, false) == Response(500, ErrorBody("error", InternalServerError, GenericMessage, None))
  {
  }

  /**
   * The two handlers disagree on each other's classes: an error of the
   * older class reaching `errorWrapper` is reported as a generic 500.
   */
  lemma HandlersRecogniseOnlyTheirOwnClass(e: AppError, stack: string, isDev: bool)
    requires e != AppError(500, InternalServerError, GenericMessage)
    ensures ErrorWrapper(AppThrown(LegacyAppError, e, stack), isDev).httpStatus == 500
    ensures ErrorHandler(AppThrown(LegacyAppError, e, stack), isDev).body.code == e.code
    ensures ErrorWrapper(AppThrown(LegacyAppError, e, stack), isDev) != ErrorHandler(AppThrown(LegacyAppError, e, stack), isDev)
  {
  }
}
