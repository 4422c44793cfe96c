/** The users table behind backend/src/db.rs, reduced to a map from email to
    user record. The SQL round trips are replaced by lookups and inserts on
    that map; a database fault is supplied by the caller. */
module Db {
  import opened Wrappers
  import opened JsonValue
  import opened Errors

  /** A row of the users table. */
  datatype User = User(email: string, password: string, isAdmin: bool)

  /** The registration form as the client posts it. */
  datatype UserSignup = UserSignup(email: string, password: string, confirmPassword: string, isAdmin: bool)

  type Users = map<string, User>

  const CREATED_MESSAGE := "User created successfully!"

  /** The body create_user answers with: {"message": "User created successfully!"}. */
  function CreatedBody(): (j: Json)
    ensures Keys(j) == ["message"]
    ensures Field(j, "message") == Some(JString(CREATED_MESSAGE))
  {
    JObject([("message", JString(CREATED_MESSAGE))])
  }

  /** get_user: the row with that email, or the database error that `?`
      converts; an absent row is sqlx's RowNotFound. */
  function Lookup(users: Users, email: string, fault: Option<SqlxError>): (r: Result<User, AppError>)
    requires KeyedByEmail(users)
    ensures r.Success? <==> fault.None? && email in users
    ensures r.Success? ==> r.value == users[email] && r.value.email == email
    ensures r.Failure? ==> Classify(r.error).0 == SERVICE_UNAVAILABLE
    ensures fault.None? && email !in users ==> r == Failure(Database(RowNotFound))
  {
    if fault.Some? then Failure(FromSqlx(fault.value))
    else if email in users then Success(users[email])
    else Failure(FromSqlx(RowNotFound))
  }

  /** Every row is filed under its own email. */
  ghost predicate KeyedByEmail(users: Users)
  {
    forall e :: e in users ==> users[e].email == e
  }

  /** create_user: the INSERT of email, password and is_admin. An insert the
      database refuses (the statement fails or touches no row) is
      InternalServerError; so is one whose email is already a key. */
  function Insert(users: Users, user: UserSignup, rejected: bool): (r: (Result<Json, AppError>, Users))
    ensures r.0.Success? <==> !rejected && user.email !in users
    ensures r.0.Failure? ==> r.0.error == InternalServerError && r.1 == users
    ensures r.0.Success? ==> r.0.value == CreatedBody()
    ensures r.0.Success? ==> r.1.Keys == users.Keys + {user.email}
    ensures r.0.Success? ==> r.1[user.email] == User(user.email, user.password, user.isAdmin)
    ensures forall e :: e in users ==> e in r.1 && r.1[e] == users[e]
  {
    if rejected || user.email in users then (Failure(InternalServerError), users)
    else (Success(CreatedBody()), users[user.email := User(user.email, user.password, user.isAdmin)])
  }

  /** The connection pool, seen through the one table the handlers use. */
  class Store {
    var users: Users

    ghost predicate Valid()
      reads this
    {
      KeyedByEmail(users)
    }

    constructor (initial: Users)
      requires KeyedByEmail(initial)
      ensures Valid() && users == initial
    {
      users := initial;
    }

    method GetUser(email: string, fault: Option<SqlxError>) returns (r: Result<User, AppError>)
      requires Valid()
      ensures r == Lookup(users, email, fault)
    {
      if fault.Some? {
        return Failure(FromSqlx(fault.value));
      }
      if email in users {
        r := Success(users[email]);
      } else {
        r := Failure(FromSqlx(RowNotFound));
      }
    }

    method CreateUser(user: UserSignup, rejected: bool) returns (r: Result<Json, AppError>)
      requires Valid()
      modifies this
      ensures Valid()
      ensures (r, users) == Insert(old(users), user, rejected)
    {
      if rejected || user.email in users {
        return Failure(InternalServerError);
      }
      users := users[user.email := User(user.email, user.password, user.isAdmin)];
      r := Success(CreatedBody());
    }
  }
}
