/** Properties of the register handler: the order of its checks, what each
    error leaves behind, and what a run of registrations can store. */
module Registration {
  import opened Wrappers
  import opened JsonValue
  import opened Errors
  import opened Db
  import opened Handlers

  /** An empty email or password is refused before anything else is looked
      at: whatever the table, the hasher or the database does, the answer is
      MissingCredentials and the table is untouched. */
  lemma EmptyCredentialsRejectedFirst(users: Users, c: UserSignup, salt: string, hash: Hasher, faults: DbFaults)
    requires KeyedByEmail(users)
    requires c.email == "" || c.password == ""
    ensures RegisterOutcome(users, c, salt, hash, faults) == (Failure(MissingCredentials), users)
  {
  }

  /** A confirmation that differs from the password is refused with the same
      error, again before the table is consulted. */
  lemma MismatchRejected(users: Users, c: UserSignup, salt: string, hash: Hasher, faults: DbFaults)
    requires KeyedByEmail(users)
    requires c.password != c.confirmPassword
    ensures RegisterOutcome(users, c, salt, hash, faults) == (Failure(MissingCredentials), users)
  {
  }

  /** A well-formed form whose email the lookup finds is refused with
      UserAlreadyExists before the password is hashed. */
  lemma ExistingUserRejected(users: Users, c: UserSignup, salt: string, hash: Hasher, faults: DbFaults)
    requires KeyedByEmail(users)
    requires WellFormed(c) && faults.lookup.None? && c.email in users
    ensures RegisterOutcome(users, c, salt, hash, faults) == (Failure(UserAlreadyExists), users)
  {
  }

  /** Only a successful lookup counts as "exists": a lookup that fails never
      yields UserAlreadyExists, and for a new email it changes nothing. */
  lemma LookupErrorTreatedAsAbsent(users: Users, c: UserSignup, salt: string, hash: Hasher, fault: SqlxError, rejected: bool)
    requires KeyedByEmail(users)
    ensures RegisterOutcome(users, c, salt, hash, DbFaults(Some(fault), rejected)).0 != Failure(UserAlreadyExists)
    ensures c.email !in users ==>
              RegisterOutcome(users, c, salt, hash, DbFaults(Some(fault), rejected))
              == RegisterOutcome(users, c, salt, hash, DbFaults(None, rejected))
  {
  }

  /** A hasher that refuses its inputs ends the request with Any, which the
      client sees as a 500 with the fixed prefix; no user is created. */
  lemma HashFailureCreatesNothing(users: Users, c: UserSignup, salt: string, hash: Hasher, faults: DbFaults)
    requires KeyedByEmail(users)
    requires WellFormed(c) && !(faults.lookup.None? && c.email in users)
    requires hash(c.password, salt).None?
    ensures RegisterOutcome(users, c, salt, hash, faults) == (Failure(Any(AnyhowError(HASH_FAILED))), users)
    ensures Classify(Any(AnyhowError(HASH_FAILED))) == (INTERNAL_SERVER_ERROR, "Internal server error! Password hashing failed")
  {
    assert ANY_PREFIX + HASH_FAILED == "Internal server error! Password hashing failed";
  }

  /** Once the checks, the lookup and the hash have passed, an insert the
      database refuses is passed on by `?` as InternalServerError. That
      covers an email already stored whose lookup failed. */
  lemma InsertRefusalIsInternalError(users: Users, c: UserSignup, salt: string, hash: Hasher, faults: DbFaults)
    requires KeyedByEmail(users)
    requires WellFormed(c) && !(faults.lookup.None? && c.email in users)
    requires hash(c.password, salt).Some?
    requires faults.insertRejected || c.email in users
    ensures RegisterOutcome(users, c, salt, hash, faults) == (Failure(InternalServerError), users)
  {
  }

  /** A successful registration stores the hasher's output as the password,
      with the email and the admin flag as posted, and changes no other user. */
  lemma SuccessStoresHash(users: Users, c: UserSignup, salt: string, hash: Hasher, faults: DbFaults)
    requires KeyedByEmail(users)
    requires RegisterOutcome(users, c, salt, hash, faults).0.Success?
    ensures var after := RegisterOutcome(users, c, salt, hash, faults).1;
            && c.email in after
            && after[c.email].password == hash(c.password, salt).value
            && after[c.email].email == c.email
            && after[c.email].isAdmin == c.isAdmin
            && after.Keys == users.Keys + {c.email}
            && forall e :: e in users ==> after[e] == users[e]
  {
  }

  /** Registering an email a second time fails and leaves the table as the
      first registration left it; when the lookup works the error is
      UserAlreadyExists. */
  lemma SecondRegistrationFails(users: Users, first: UserSignup, second: UserSignup, salt: string, hash: Hasher,
                                faults1: DbFaults, faults2: DbFaults)
    requires KeyedByEmail(users)
    requires RegisterOutcome(users, first, salt, hash, faults1).0.Success?
    requires second.email == first.email
    ensures var after := RegisterOutcome(users, first, salt, hash, faults1).1;
            var again := RegisterOutcome(after, second, salt, hash, faults2);
            && again.0.Failure?
            && again.1 == after
            && (WellFormed(second) && faults2.lookup.None? ==> again.0.error == UserAlreadyExists)
  {
  }

  /** One register request: the form and what the database does with it. */
  datatype Request = Request(credentials: UserSignup, faults: DbFaults)

  /** Handles the requests one after another against one table: the answer
      to each, and the table at the end. */
  function Replay(users: Users, requests: seq<Request>, salt: string, hash: Hasher)
    : (r: (seq<Result<Json, AppError>>, Users))
    requires KeyedByEmail(users)
    ensures |r.0| == |requests|
    ensures KeyedByEmail(r.1)
    decreases |requests|
  {
    if requests == [] then ([], users)
    else
      var (answer, next) := RegisterOutcome(users, requests[0].credentials, salt, hash, requests[0].faults);
      var (answers, final) := Replay(next, requests[1..], salt, hash);
      ([answer] + answers, final)
  }

  /** Once stored, a user is never removed or overwritten by later requests. */
  lemma {:induction false} ReplayKeepsUsers(users: Users, requests: seq<Request>, salt: string, hash: Hasher)
    requires KeyedByEmail(users)
    ensures forall e :: e in users ==> e in Replay(users, requests, salt, hash).1
                                       && Replay(users, requests, salt, hash).1[e] == users[e]
    decreases |requests|
  {
    if requests != [] {
      var next := RegisterOutcome(users, requests[0].credentials, salt, hash, requests[0].faults).1;
      ReplayKeepsUsers(next, requests[1..], salt, hash);
    }
  }

  /** A request that succeeds registered an email the table did not hold at
      the start, and that email is in the table at the end. */
  lemma {:induction false} ReplaySuccessIsNew(users: Users, requests: seq<Request>, salt: string, hash: Hasher, i: nat)
    requires KeyedByEmail(users)
    requires i < |requests|
    requires Replay(users, requests, salt, hash).0[i].Success?
    ensures requests[i].credentials.email !in users
    ensures requests[i].credentials.email in Replay(users, requests, salt, hash).1
    decreases |requests|
  {
    var next := RegisterOutcome(users, requests[0].credentials, salt, hash, requests[0].faults).1;
    if i == 0 {
      ReplayKeepsUsers(next, requests[1..], salt, hash);
    } else {
      ReplaySuccessIsNew(next, requests[1..], salt, hash, i - 1);
    }
  }

  /** However the requests, the hasher and the database behave, no two
      requests in a run register the same email. */
  lemma {:induction false} OneRegistrationPerEmail(users: Users, requests: seq<Request>, salt: string, hash: Hasher,
                                                   i: nat, j: nat)
    requires KeyedByEmail(users)
    requires i < j < |requests|
    requires Replay(users, requests, salt, hash).0[i].Success?
    requires Replay(users, requests, salt, hash).0[j].Success?
    ensures requests[i].credentials.email != requests[j].credentials.email
    decreases |requests|
  {
    var next := RegisterOutcome(users, requests[0].credentials, salt, hash, requests[0].faults).1;
    if i == 0 {
      ReplaySuccessIsNew(next, requests[1..], salt, hash, j - 1);
    } else {
      OneRegistrationPerEmail(next, requests[1..], salt, hash, i - 1, j - 1);
    }
  }
}
