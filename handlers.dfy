/** The request handlers of backend/src/handlers.rs, as synchronous
    operations on their extracted inputs. */
module Handlers {
  import opened Wrappers
  import opened JsonValue
  import opened Errors
  import opened Db

  /** The identity a session token asserts. Its definition lives in
      models/users.rs, which is not part of this model; no handler reads its
      fields, so the ones given here are a placeholder. */
  datatype Claims = Claims(email: string, exp: int, isAdmin: bool)

  /** The values root puts into the template context. */
  datatype ContextValue = Text(text: string) | Flag(flag: bool) | ClaimsData(claims: Claims)

  /** What root hands to the template engine: a template name and its context. */
  datatype RenderRequest = RenderRequest(template: string, context: map<string, ContextValue>)

  const LOGGED_IN_TEMPLATE := "pages.html"
  const ANONYMOUS_TEMPLATE := "index.html"

  /** root: a visitor with claims gets the logged-in page, with the claims and
      is_logged_in = true in the context; any other visitor gets the index
      page with is_logged_in = false and no claims. */
  method Root(claims: Option<Claims>) returns (page: RenderRequest)
    ensures page.template == LOGGED_IN_TEMPLATE <==> claims.Some?
    ensures page.template == ANONYMOUS_TEMPLATE <==> claims.None?
    ensures "is_logged_in" in page.context && page.context["is_logged_in"] == Flag(claims.Some?)
    ensures "claims" in page.context <==> claims.Some?
    ensures claims.Some? ==> page.context["claims"] == ClaimsData(claims.value)
    ensures "name" in page.context && page.context["name"] == Text("Ian")
    ensures page.context.Keys <= {"name", "claims", "is_logged_in"}
  {
    var context: map<string, ContextValue> := map[];
    context := context["name" := Text("Ian")];
    var templateName;
    if claims.Some? {
      context := context["claims" := ClaimsData(claims.value)];
      context := context["is_logged_in" := Flag(true)];
      templateName := LOGGED_IN_TEMPLATE;
    } else {
      context := context["is_logged_in" := Flag(false)];
      templateName := ANONYMOUS_TEMPLATE;
    }
    page := RenderRequest(templateName, context);
  }

  const CLAIMS_PREFIX := "Your claim data is: "

  /** protected: the claims' display text after a fixed prefix. How claims
      display is defined next to Claims, so it is a parameter here. */
  function Protected(claims: Claims, display: Claims -> string): (r: Result<string, AppError>)
    ensures r.Success?
    ensures ClaimText(r.value) == Some(display(claims))
  {
    Success(CLAIMS_PREFIX + display(claims))
  }

  /** Reads the claims text back out of protected's answer. */
  function ClaimText(s: string): (r: Option<string>)
    ensures r.Some? <==> |s| >= |CLAIMS_PREFIX| && s[..|CLAIMS_PREFIX|] == CLAIMS_PREFIX
    ensures r.Some? ==> CLAIMS_PREFIX + r.value == s
  {
    if |s| >= |CLAIMS_PREFIX| && s[..|CLAIMS_PREFIX|] == CLAIMS_PREFIX then Some(s[|CLAIMS_PREFIX|..]) else None
  }

  /** argon2::hash_encoded(password, salt) with the default configuration:
      the encoded hash, or None when the library refuses its inputs. */
  type Hasher = (string, string) -> Option<string>

  /** The outcome of the two database calls register may make: an error on
      the lookup, and whether the insert is refused. */
  datatype DbFaults = DbFaults(lookup: Option<SqlxError>, insertRejected: bool)

  const HASH_FAILED := "Password hashing failed"

  /** The credential checks register runs before touching the store. */
  predicate WellFormed(c: UserSignup)
  {
    c.email != "" && c.password != "" && c.password == c.confirmPassword
  }

  /** The result and the new table of one register request. A failed request
      leaves the table as it was; a request succeeds exactly when the form is
      well formed, no user has the email, hashing works and the insert is
      accepted, and then it stores the hash in place of the password. */
  function RegisterOutcome(users: Users, credentials: UserSignup, salt: string, hash: Hasher, faults: DbFaults)
    : (r: (Result<Json, AppError>, Users))
    requires KeyedByEmail(users)
    ensures KeyedByEmail(r.1)
    ensures r.0.Failure? ==> r.1 == users
    ensures r.0.Success? <==>
              WellFormed(credentials) && credentials.email !in users
              && hash(credentials.password, salt).Some? && !faults.insertRejected
    ensures r.0.Success? ==>
              r.0.value == CreatedBody()
              && r.1 == users[credentials.email := User(credentials.email, hash(credentials.password, salt).value, credentials.isAdmin)]
  {
    if credentials.email == "" || credentials.password == "" then (Failure(MissingCredentials), users)
    else if credentials.password != credentials.confirmPassword then (Failure(MissingCredentials), users)
    else if Lookup(users, credentials.email, faults.lookup).Success? then (Failure(UserAlreadyExists), users)
    else match hash(credentials.password, salt)
      case None => (Failure(Any(AnyhowError(HASH_FAILED))), users)
      case Some(hashed) => Insert(users, credentials.(password := hashed), faults.insertRejected)
  }

  /** register: the checks in source order, each returning early, then the
      password replaced by its hash and the user inserted. */
  method Register(database: Store, credentials: UserSignup, salt: string, hash: Hasher, faults: DbFaults)
    returns (r: Result<Json, AppError>)
    requires database.Valid()
    modifies database
    ensures database.Valid()
    ensures (r, database.users) == RegisterOutcome(old(database.users), credentials, salt, hash, faults)
  {
    var credentials := credentials;
    if credentials.email == "" || credentials.password == "" {
      return Failure(MissingCredentials);
    }
    if credentials.password != credentials.confirmPassword {
      return Failure(MissingCredentials);
    }
    var existingUser := database.GetUser(credentials.email, faults.lookup);
    if existingUser.Success? {
      return Failure(UserAlreadyExists);
    }
    var hashedPassword;
    match hash(credentials.password, salt) {
      case Some(result) => hashedPassword := result;
      case None => return Failure(Any(AnyhowError(HASH_FAILED)));
    }
    credentials := credentials.(password := hashedPassword);
    r := database.CreateUser(credentials, faults.insertRejected);
  }
}
