/** The API server's own decisions: the `/mailcheck` handler, which turns the
    results of the format check, the disposable-domain check and the MX
    lookup into one response, and the `validateApiKey` gate. The three
    checks live in a module outside this model and are parameters here. */
module Server {
  import opened Wrappers
  import opened JsString
  import opened Json

  /** What `validateEmail(email)` returns. */
  datatype EmailValidation = EmailValidation(isValid: bool, reason: JsonValue, domain: JsonValue)

  /** What `checkDisposableDomain(domain)` resolves to. */
  datatype DisposableCheck = DisposableCheck(isDisposable: bool)

  /** What `checkMXRecords(domain)` resolves to. */
  datatype MxRecords = MxRecords(primary: JsonValue, info: JsonValue, ip: JsonValue)

  /** Each check returns its record, or fails with the message of what it
      throws (or of the Promise it rejects). */
  type Validator = string -> Result<EmailValidation, string>
  type DisposableChecker = JsonValue -> Result<DisposableCheck, string>
  type MxChecker = JsonValue -> Result<MxRecords, string>

  /** A response body. */
  datatype Body =
    /** An error object: `error`, `message`, and the extra fields in order. */
    | Problem(error: string, message: string, extra: seq<(string, string)>)
    /** The verdict object of `/mailcheck`. */
    | Verdict(email: string, valid: bool, reason: JsonValue, domain: JsonValue,
              mxHost: JsonValue, mxInfo: JsonValue, mxIp: JsonValue)

  datatype Response = Response(status: nat, body: Body)

  const MissingEmail: Response :=
    Response(400, Problem("Email parameter is required", "Please provide an email address to validate",
                          [("example", "/mailcheck?email=test@example.com")]))

  function InternalError(timestamp: string): (r: Response) {
    Response(500, Problem("Internal server error",
                          "An unexpected error occurred while validating the email",
                          [("timestamp", timestamp)]))
  }

  /** `!email`: the query has no `email`, or it is the empty string. */
  predicate Missing(email: Option<string>) {
    email.None? || email.value == ""
  }

  /** The verdict for an address whose format is valid. */
  function Judge(email: string, ev: EmailValidation, dc: DisposableCheck, mx: MxRecords): (b: Body)
    ensures b.Verdict? && b.email == email && (b.valid <==> !dc.isDisposable)
    ensures b.reason.JString? && (b.reason.s == "Blacklist" <==> dc.isDisposable) && (b.reason.s == "Valid" <==> !dc.isDisposable)
    ensures b.domain == ev.domain && b.mxHost == mx.primary && b.mxInfo == mx.info && b.mxIp == mx.ip
  {
    Verdict(email, !dc.isDisposable, JString(if dc.isDisposable then "Blacklist" else "Valid"),
            ev.domain, mx.primary, mx.info, mx.ip)
  }

  /** The `/mailcheck` handler. `now` is the time stamp of a 500 response.
      Every response is a 200 verdict, the 400 for a missing address, or the
      500 for a check that failed. */
  function Mailcheck(email: Option<string>, validate: Validator, checkDisposable: DisposableChecker,
                     checkMx: MxChecker, now: string): (r: Response)
    ensures r.status == 200 || r.status == 400 || r.status == 500
    ensures r.status == 200 <==> r.body.Verdict?
    ensures r.status == 400 <==> Missing(email)
    ensures r.body.Verdict? ==> r.body.email == email.value
  {
    if Missing(email) then MissingEmail
    else
      match validate(email.value)
      case Failure(_) => InternalError(now)
      case Success(ev) =>
        if !ev.isValid then
          Response(200, Verdict(email.value, false, ev.reason, ev.domain, JNull, JNull, JNull))
        else
          match (checkDisposable(ev.domain), checkMx(ev.domain))
          case (Success(dc), Success(mx)) => Response(200, Judge(email.value, ev, dc, mx))
          case _ => InternalError(now)
  }

  /** A missing or empty address is answered with the 400 error before any
      check runs: the checks do not matter. */
  lemma MissingEmailRejected(email: Option<string>, validate: Validator, checkDisposable: DisposableChecker,
                             checkMx: MxChecker, now: string,
                             validate': Validator, checkDisposable': DisposableChecker,
                             checkMx': MxChecker, now': string)
    requires Missing(email)
    ensures Mailcheck(email, validate, checkDisposable, checkMx, now) == MissingEmail
    ensures Mailcheck(email, validate, checkDisposable, checkMx, now) ==
            Mailcheck(email, validate', checkDisposable', checkMx', now')
  {
  }

  /** An address the format check rejects gets `valid: false`, the
      validator's reason and domain and null MX fields, and neither the
      disposable check nor the MX lookup affects the response. */
  lemma InvalidFormatShortCircuits(email: string, validate: Validator, ev: EmailValidation,
                                   checkDisposable: DisposableChecker, checkMx: MxChecker, now: string,
                                   checkDisposable': DisposableChecker, checkMx': MxChecker)
    requires email != "" && validate(email) == Success(ev) && !ev.isValid
    ensures Mailcheck(Some(email), validate, checkDisposable, checkMx, now) ==
            Response(200, Verdict(email, false, ev.reason, ev.domain, JNull, JNull, JNull))
    ensures Mailcheck(Some(email), validate, checkDisposable, checkMx, now) ==
            Mailcheck(Some(email), validate, checkDisposable', checkMx', now)
  {
  }

  /** An address with a valid format: `valid` is the negation of
      `isDisposable`, the reason is `Blacklist` exactly when the domain is
      disposable and `Valid` otherwise, the domain is the validator's, and
      the MX fields are the lookup's, copied as they are. */
  lemma ValidFormatVerdict(email: string, validate: Validator, ev: EmailValidation,
                           checkDisposable: DisposableChecker, dc: DisposableCheck,
                           checkMx: MxChecker, mx: MxRecords, now: string)
    requires email != "" && validate(email) == Success(ev) && ev.isValid
    requires checkDisposable(ev.domain) == Success(dc) && checkMx(ev.domain) == Success(mx)
    ensures var r := Mailcheck(Some(email), validate, checkDisposable, checkMx, now);
            r.status == 200 && r.body.Verdict? &&
            (r.body.valid <==> !dc.isDisposable) &&
            (r.body.reason == JString("Blacklist") <==> dc.isDisposable) &&
            (r.body.reason == JString("Valid") <==> !dc.isDisposable) &&
            r.body.domain == ev.domain &&
            r.body.mxHost == mx.primary && r.body.mxInfo == mx.info && r.body.mxIp == mx.ip
  {
  }

  /** The MX lookup never changes `valid` or `reason`: two lookups that both
      succeed give the same verdict up to the MX fields. */
  lemma MxDoesNotDecide(email: string, validate: Validator, checkDisposable: DisposableChecker,
                        checkMx: MxChecker, checkMx': MxChecker, now: string)
    requires email != "" && validate(email).Success? && validate(email).value.isValid
    requires checkDisposable(validate(email).value.domain).Success?
    requires checkMx(validate(email).value.domain).Success? && checkMx'(validate(email).value.domain).Success?
    ensures var r, r' := Mailcheck(Some(email), validate, checkDisposable, checkMx, now),
                         Mailcheck(Some(email), validate, checkDisposable, checkMx', now);
            r.body.Verdict? && r'.body.Verdict? &&
            r.body.valid == r'.body.valid && r.body.reason == r'.body.reason && r.body.domain == r'.body.domain
  {
  }

  /** A check that fails on the path the handler takes gives the 500 error
      with the time stamp: the format check for any present address, and
      either the disposable check or the MX lookup once the format is valid. */
  lemma FailingCheckIsInternalError(email: string, validate: Validator, checkDisposable: DisposableChecker,
                                    checkMx: MxChecker, now: string)
    requires email != ""
    requires validate(email).Failure? ||
             (validate(email).value.isValid &&
              (checkDisposable(validate(email).value.domain).Failure? ||
               checkMx(validate(email).value.domain).Failure?))
    ensures Mailcheck(Some(email), validate, checkDisposable, checkMx, now) == InternalError(now)
  {
  }

  // ---------------------------------------------------------------------
  // The API-key gate

  /** What the gate does with a request: pass it on, or answer it. */
  datatype Gate = Next | Reject(response: Response)

  const KeyRequired: Response :=
    Response(401, Problem("API key required", "Please provide a valid RapidAPI key via x-rapidapi-key header", []))

  const KeyInvalid: Response :=
    Response(401, Problem("Invalid API key", "Invalid RapidAPI key format", []))

  /** `req.headers['x-rapidapi-key'] || req.headers['X-RapidAPI-Key']`: the
      first header when it is a non-empty string, else the second. */
  function ApiKey(lowerHeader: Option<string>, camelHeader: Option<string>): (key: Option<string>)
    ensures key == lowerHeader || key == camelHeader
    ensures lowerHeader.Some? && lowerHeader.value != "" ==> key == lowerHeader
    ensures (key.None? || key.value == "") <==>
            (lowerHeader.None? || lowerHeader.value == "") && (camelHeader.None? || camelHeader.value == "")
  {
    if lowerHeader.Some? && lowerHeader.value != "" then lowerHeader else camelHeader
  }

  /** `validateApiKey`: development mode passes every request; otherwise a
      missing or empty key is refused, a key shorter than ten UTF-16 code
      units is refused, and any other key passes. */
  function ValidateApiKey(nodeEnv: Option<string>, lowerHeader: Option<string>, camelHeader: Option<string>): (g: Gate)
    ensures g.Reject? ==> g.response.status == 401
  {
    var apiKey := ApiKey(lowerHeader, camelHeader);
    if nodeEnv == Some("development") then Next
    else if apiKey.None? || apiKey.value == "" then Reject(KeyRequired)
    else if Length(apiKey.value) < 10 then Reject(KeyInvalid)
    else Next
  }

  /** The gate passes a request exactly in development mode or when a key
      of at least ten code units is present. */
  lemma ApiKeyGate(nodeEnv: Option<string>, lowerHeader: Option<string>, camelHeader: Option<string>)
    ensures var key := ApiKey(lowerHeader, camelHeader);
            ValidateApiKey(nodeEnv, lowerHeader, camelHeader) == Next <==>
            nodeEnv == Some("development") || (key.Some? && key.value != "" && Length(key.value) >= 10)
  {
  }

  lemma DevelopmentPasses(lowerHeader: Option<string>, camelHeader: Option<string>)
    ensures ValidateApiKey(Some("development"), lowerHeader, camelHeader) == Next
  {
  }

  /** Outside development, a request with neither header set to a non-empty
      string is refused as unauthenticated. */
  lemma MissingKeyRefused(nodeEnv: Option<string>, lowerHeader: Option<string>, camelHeader: Option<string>)
    requires nodeEnv != Some("development")
    requires lowerHeader.None? || lowerHeader.value == ""
    requires camelHeader.None? || camelHeader.value == ""
    ensures ValidateApiKey(nodeEnv, lowerHeader, camelHeader) == Reject(KeyRequired)
  {
  }

  /** Outside development, a key of one to nine code units is refused as
      malformed. */
  lemma ShortKeyRefused(nodeEnv: Option<string>, lowerHeader: Option<string>, camelHeader: Option<string>)
    requires nodeEnv != Some("development")
    requires var key := ApiKey(lowerHeader, camelHeader); key.Some? && key.value != "" && Length(key.value) < 10
    ensures ValidateApiKey(nodeEnv, lowerHeader, camelHeader) == Reject(KeyInvalid)
  {
  }

  /** The second header is consulted only when the first is missing or
      empty. */
  lemma FirstHeaderWins(nodeEnv: Option<string>, key: string, camelHeader: Option<string>, camelHeader': Option<string>)
    requires key != ""
    ensures ValidateApiKey(nodeEnv, Some(key), camelHeader) == ValidateApiKey(nodeEnv, Some(key), camelHeader')
  {
  }

  /** The length test counts UTF-16 code units, so five characters outside
      the Basic Multilingual Plane make a key long enough. */
  lemma AstralKeyIsLongEnough()
    ensures ValidateApiKey(None, Some("\U{1F600}\U{1F600}\U{1F600}\U{1F600}\U{1F600}"), None) == Next
  {
    var key := "\U{1F600}\U{1F600}\U{1F600}\U{1F600}\U{1F600}";
    assert forall i :: 0 <= i < |key| ==> key[i] as int >= 0x10000;
  }
}
