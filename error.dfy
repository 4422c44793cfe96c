/** The application error type of backend/src/error.rs, the conversions from
    library errors into it, and the HTTP response each error becomes. */
module Errors {
  import opened Wrappers
  import opened JsonValue

  /** Errors raised by libraries outside this repository, reduced to the text
      their Display implementation prints. sqlx's "no row" error is kept apart
      because fetching an absent user raises it. */
  datatype SqlxError = RowNotFound | SqlxFailure(text: string)
  datatype ReqwestError = ReqwestError(text: string)
  datatype SerdeError = SerdeError(text: string)
  datatype AnyhowError = AnyhowError(text: string)

  function SqlxText(e: SqlxError): string
  {
    match e
    case RowNotFound => "no rows returned by a query that expected to return at least one row"
    case SqlxFailure(t) => t
  }

  datatype EventError = InvalidId

  /** A derived Display prints a unit variant as its name. */
  function EventText(e: EventError): string
  {
    match e
    case InvalidId => "InvalidId"
  }

  datatype AppError =
    | Event(event: EventError)
    | Database(db: SqlxError)
    | MissingCredentials
    | InvalidPassword
    | UserDoesNotExist
    | UserAlreadyExists
    | InvalidToken
    | InternalServerError
    | Any(any: AnyhowError)
    | RequestAPI(request: ReqwestError)
    | SerdeParse(serde: SerdeError)
  {
    /** The variants that concern the caller's credentials or token. */
    predicate IsCredentialError()
    {
      MissingCredentials? || UserDoesNotExist? || UserAlreadyExists? || InvalidToken? || InvalidPassword?
    }

    /** The variants that report a fault inside this server. */
    predicate IsServerFault()
    {
      InternalServerError? || Any? || SerdeParse?
    }

    /** The variants that report a service this server depends on. */
    predicate IsUpstreamFault()
    {
      Database? || RequestAPI?
    }
  }

  newtype StatusCode = c: int | 100 <= c < 1000 witness 200

  const NOT_FOUND: StatusCode := 404
  const UNAUTHORIZED: StatusCode := 401
  const INTERNAL_SERVER_ERROR: StatusCode := 500
  const SERVICE_UNAVAILABLE: StatusCode := 503

  const ANY_PREFIX := "Internal server error! "
  const MISSING_CREDENTIALS_MESSAGE := "Your credentials were missing or otherwise incorrect"
  const USER_DOES_NOT_EXIST_MESSAGE := "Your account does not exist!"
  const USER_ALREADY_EXISTS_MESSAGE := "There is already an account with that email address in the system"
  const INVALID_TOKEN_MESSAGE := "Invalid Token"
  const INVALID_PASSWORD_MESSAGE := "Invalid Password"
  const INTERNAL_SERVER_ERROR_MESSAGE := "Something terrible happened"

  /** From<sqlx::Error>: the `?` operator's conversion of a database error. */
  function FromSqlx(e: SqlxError): (r: AppError)
    ensures r.Database? && r.db == e
    ensures Classify(r) == (SERVICE_UNAVAILABLE, SqlxText(e))
  {
    Database(e)
  }

  /** From<reqwest::Error>. */
  function FromReqwest(e: ReqwestError): (r: AppError)
    ensures r.RequestAPI? && r.request == e
    ensures Classify(r) == (SERVICE_UNAVAILABLE, e.text)
  {
    RequestAPI(e)
  }

  /** From<serde_json::Error>. */
  function FromSerde(e: SerdeError): (r: AppError)
    ensures r.SerdeParse? && r.serde == e
    ensures Classify(r) == (INTERNAL_SERVER_ERROR, e.text)
  {
    SerdeParse(e)
  }

  /** The (status, message) pair that into_response's match picks. Every
      variant falls in exactly one of four status groups. */
  function Classify(e: AppError): (r: (StatusCode, string))
    ensures r.0 in {UNAUTHORIZED, NOT_FOUND, INTERNAL_SERVER_ERROR, SERVICE_UNAVAILABLE}
    ensures r.0 == UNAUTHORIZED <==> e.IsCredentialError()
    ensures r.0 == NOT_FOUND <==> e.Event?
    ensures r.0 == INTERNAL_SERVER_ERROR <==> e.IsServerFault()
    ensures r.0 == SERVICE_UNAVAILABLE <==> e.IsUpstreamFault()
  {
    match e
    case Event(err) =>
      (match err
       case InvalidId => (NOT_FOUND, EventText(err)))
    case Database(err) => (SERVICE_UNAVAILABLE, SqlxText(err))
    case Any(err) => (INTERNAL_SERVER_ERROR, ANY_PREFIX + err.text)
    case MissingCredentials => (UNAUTHORIZED, MISSING_CREDENTIALS_MESSAGE)
    case UserDoesNotExist => (UNAUTHORIZED, USER_DOES_NOT_EXIST_MESSAGE)
    case UserAlreadyExists => (UNAUTHORIZED, USER_ALREADY_EXISTS_MESSAGE)
    case InvalidToken => (UNAUTHORIZED, INVALID_TOKEN_MESSAGE)
    case InvalidPassword => (UNAUTHORIZED, INVALID_PASSWORD_MESSAGE)
    case InternalServerError => (INTERNAL_SERVER_ERROR, INTERNAL_SERVER_ERROR_MESSAGE)
    case RequestAPI(err) => (SERVICE_UNAVAILABLE, err.text)
    case SerdeParse(err) => (INTERNAL_SERVER_ERROR, err.text)
  }

  datatype Response = Response(status: StatusCode, body: Json)

  /** into_response: the status of the match and the body {"error": message}. */
  function IntoResponse(e: AppError): (r: Response)
    ensures r.status == Classify(e).0
    ensures Keys(r.body) == ["error"]
    ensures Field(r.body, "error") == Some(JString(Classify(e).1))
  {
    var (status, message) := Classify(e);
    Response(status, JObject([("error", JString(message))]))
  }

  /** The errors that carry a library error show that library's own text,
      unchanged; Any adds a fixed prefix in front of it. */
  lemma ForeignMessagesPassThrough(e: AppError)
    ensures e.Database? ==> Classify(e).1 == SqlxText(e.db)
    ensures e.RequestAPI? ==> Classify(e).1 == e.request.text
    ensures e.SerdeParse? ==> Classify(e).1 == e.serde.text
    ensures e.Any? ==> |Classify(e).1| >= |ANY_PREFIX|
                       && Classify(e).1[..|ANY_PREFIX|] == ANY_PREFIX
                       && Classify(e).1[|ANY_PREFIX|..] == e.any.text
  {
  }

  /** The five credential errors share status 401, so the message alone tells
      them apart: no two of them carry the same message. */
  lemma CredentialMessagesDistinct(e1: AppError, e2: AppError)
    requires e1.IsCredentialError() && e2.IsCredentialError()
    requires e1 != e2
    ensures Classify(e1).1 != Classify(e2).1
  {
  }

  /** The 404 group is exactly Event(InvalidId), whose message is its name. */
  lemma NotFoundIsInvalidId(e: AppError)
    ensures IntoResponse(e).status == NOT_FOUND <==> e == Event(InvalidId)
    ensures e == Event(InvalidId) ==> Classify(e).1 == "InvalidId"
  {
  }
}
