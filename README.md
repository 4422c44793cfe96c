# Rust-Blog backend: error responses and registration, in Dafny

This project models two pieces of the blogging service's backend:

- the application error type `AppError` (with `EventError`), the `From`
  conversions from library errors into it, and `into_response`, which turns
  each error into an HTTP status and a JSON body `{"error": message}`;
- the request handlers `register`, `root` and `protected`. `register` checks
  the sign-up form, looks the email up in the users table, hashes the
  password with argon2 and inserts the user; `root` picks the logged-in or
  the anonymous page from the optional claims; `protected` echoes the
  claims.

Files and modules:

- `wrappers.dfy` (`Wrappers`): `Option` and `Result`.
- `json.dfy` (`JsonValue`): the strings and objects the handlers build as
  JSON, with `Keys` and `Field` to read an object back.
- `error.dfy` (`Errors`): `AppError`, the conversions, `Classify` (the
  status and message chosen by `into_response`'s match) and `IntoResponse`.
- `db.dfy` (`Db`): the users table as a `map` from email to `User`, held in
  the class `Store`. `GetUser` and `CreateUser` are the lookup and the insert.
  A database fault is an input to them.
- `handlers.dfy` (`Handlers`): `Root`, `Protected`, `Register` (imperative,
  over a `Store`) and `RegisterOutcome`, the function that specifies it.
- `registration.dfy` (`Registration`): lemmas about `RegisterOutcome`.
  They cover the order of the checks, what each error leaves in the table
  and what any run of registrations can store (`Replay`).

Inputs that come from outside the handlers are parameters. These are the
argon2 hasher (`Hasher`, a function from password and salt to an optional
encoded hash), the `SALT` value, the outcome of the two database calls
(`DbFaults`) and the display text of the claims.

## Notes on the code's behaviour


- A hashing failure becomes `AppError::Any("Password hashing failed")`. That
  is a 500 whose message is "Internal server error! Password hashing
  failed". It is not `InternalServerError`.
- All five credential errors share status 401. They differ only in their
  messages, and `CredentialMessagesDistinct` proves those messages differ.
- A password/confirmation mismatch gives the same `MissingCredentials` as an
  empty field. So the order of those two checks cannot be observed.
  `EmptyCredentialsRejectedFirst` and `MismatchRejected` state both outcomes.

## Model

| member | source | states |
|---|---|---|
| `Errors.FromSqlx` | backend/src/error.rs:80-84 | a sqlx error is wrapped unchanged in `Database` and answers 503 with the error's own text |
| `Errors.FromReqwest` | backend/src/error.rs:30-34 | a reqwest error is wrapped unchanged in `RequestAPI` and answers 503 with its text |
| `Errors.FromSerde` | backend/src/error.rs:36-40 | a serde_json error is wrapped unchanged in `SerdeParse` and answers 500 with its text |
| `Errors.Classify` | backend/src/error.rs:44-73 | every variant gets exactly one of 401, 404, 500, 503; 401 exactly for the five credential errors, 404 exactly for `Event`, 500 exactly for `InternalServerError`, `Any` and `SerdeParse`, 503 exactly for `Database` and `RequestAPI` |
| `Errors.IntoResponse` | backend/src/error.rs:42-77 | the response has the classified status and a body that is an object with the single key "error", holding the classified message |
| `Errors.ForeignMessagesPassThrough` | backend/src/error.rs:48-72 | `Database`, `RequestAPI` and `SerdeParse` show the library's text unchanged; `Any` shows "Internal server error! " followed by the inner error's text |
| `Errors.CredentialMessagesDistinct` | backend/src/error.rs:53-66 | no two credential errors share a message, so a 401 body tells them apart |
| `Errors.NotFoundIsInvalidId` | backend/src/error.rs:45-47 | a response is 404 exactly for `Event(InvalidId)`, whose message is "InvalidId" |
| `Db.CreatedBody` | backend/src/db.rs:82-84 | the success body is an object with the single key "message" holding "User created successfully!" |
| `Db.Lookup` | backend/src/db.rs:56-67 | the lookup succeeds exactly when the database works and a row has the email, and returns that row; an absent row is `Database(RowNotFound)`; every failure is a 503 |
| `Db.Insert` | backend/src/db.rs:69-86 | the insert succeeds exactly when the database accepts it and the email is new; it then adds the row with email, password and admin flag as given and keeps every other row; a refused insert is `InternalServerError` and changes nothing |
| `Db.Store.constructor` | backend/src/db.rs:38-42 | a store starts with the given table, every row filed under its own email |
| `Db.Store.GetUser` | backend/src/db.rs:56-67 | reading the table gives `Lookup`'s answer |
| `Db.Store.CreateUser` | backend/src/db.rs:69-86 | the answer and the new table are `Insert`'s, and every row stays filed under its email |
| `Handlers.Root` | backend/src/handlers.rs:21-46 | with claims: "pages.html", the claims in the context and is_logged_in = true; without: "index.html", no claims and is_logged_in = false; "name" is always "Ian" |
| `Handlers.Protected` | backend/src/handlers.rs:85-90 | always succeeds, and the answer is "Your claim data is: " followed by the claims' display text, which `ClaimText` recovers |
| `Handlers.RegisterOutcome` | backend/src/handlers.rs:48-83 | a failed request leaves the table unchanged; a request succeeds exactly when the form is well formed, the email is new, hashing works and the insert is accepted; then the table gains the user with the hash as password |
| `Handlers.Register` | backend/src/handlers.rs:48-83 | running the handler on a store gives `RegisterOutcome`'s answer and new table |
| `Registration.EmptyCredentialsRejectedFirst` | backend/src/handlers.rs:52-54 | an empty email or password yields `MissingCredentials` and an unchanged table, whatever the table, hasher or database do |
| `Registration.MismatchRejected` | backend/src/handlers.rs:56-58 | a confirmation that differs from the password yields `MissingCredentials` and an unchanged table |
| `Registration.ExistingUserRejected` | backend/src/handlers.rs:60-64 | a well-formed form whose email the lookup finds yields `UserAlreadyExists`, whether or not hashing would work, and nothing is inserted |
| `Registration.LookupErrorTreatedAsAbsent` | backend/src/handlers.rs:60-62 | a failed lookup never yields `UserAlreadyExists`, and for a new email the outcome is the same as with a working lookup |
| `Registration.InsertRefusalIsInternalError` | backend/src/handlers.rs:81 | once the checks, the lookup and the hash have passed, an insert the database refuses (including one for an email already stored whose lookup failed) yields `InternalServerError` and leaves the table unchanged |
| `Registration.HashFailureCreatesNothing` | backend/src/handlers.rs:66-77 | a hasher failure yields `Any("Password hashing failed")`, a 500 reading "Internal server error! Password hashing failed", and no user |
| `Registration.SuccessStoresHash` | backend/src/handlers.rs:79-82 | after a success the stored password is the hasher's output, the email and admin flag are as posted, and every other user is unchanged |
| `Registration.SecondRegistrationFails` | backend/src/handlers.rs:60-64 | registering an already registered email fails and changes nothing; with a working lookup and a well-formed form the error is `UserAlreadyExists` |
| `Registration.Replay` | backend/src/handlers.rs:48-83 | a run of register requests against one table gives one answer per request and keeps every row under its own email |
| `Registration.ReplayKeepsUsers` | backend/src/handlers.rs:60-82 | no later request removes or overwrites a stored user |
| `Registration.ReplaySuccessIsNew` | backend/src/handlers.rs:60-82 | a successful request in a run registered an email absent at the start and present at the end |
| `Registration.OneRegistrationPerEmail` | backend/src/handlers.rs:60-82 | in any run, whatever the hasher returns and whichever lookups fail or inserts are refused, no two successful requests share an email; where a lookup failed for a stored email this rests on the assumption that the database refuses an insert for an email it already holds |

## Left out

- Postgres, the connection pool, migrations and the SQL text in db.rs. The table is a map keyed by email. The model assumes the database refuses an insert for an email already present, because the lookup treats the email as identifying one row.
- The migrations are not part of this model. If the table lets an email repeat, a registration whose lookup failed could store a second row for that email. The model cannot show that case.
- argon2 `hash_encoded` and `Config::default()`: a foreign cryptographic library. It is the `Hasher` parameter. So the model proves the stored password is the hasher's output. It cannot prove that output differs from the plaintext.
- `std::env::var("SALT").expect(...)`: a configuration read that panics when the variable is missing. The salt is a parameter.
- Tera template rendering, its `panic!` on failure, and the `tracing` log lines in `root`. `Root` returns the template name and context it would render.
- `Claims`, `OptionalClaims`, `User`, `UserSignup` and the token extractors come from models/users.rs, which is not part of this model. No handler reads a field of `Claims`; the fields of the model's `Claims` are a placeholder the model never reads. The fields of `User` and `UserSignup` are inferred from how the handlers and db.rs use them. The claims' display text is a parameter of `Protected`.
- The texts of sqlx, reqwest, serde_json and anyhow errors are opaque strings. The one exception is sqlx's `RowNotFound`, whose message is written out.
- async/await and the axum extractors (`State`, `Json`): the handlers are synchronous operations on their inputs.
- Router wiring, CORS and trace layers and the 404 fallback in routes/main_routes.rs; the HTTP client in client/src/main.rs; the blog and page models: plumbing with nothing to state.
- Token issuing and verification, the authentication extractors and the markup-to-HTML transformer live in source files that are not part of this model. So the handlers receive claims that have already been extracted. `root`'s unused database handle is dropped.
- `Registration.Replay` handles requests one after another. In the server the lookup and the insert of `register` are not atomic, so two simultaneous registrations of a new email can both pass the lookup and the second then fails with `InternalServerError` rather than `UserAlreadyExists`; that race is outside the model.
