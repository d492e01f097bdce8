/** The user table and the `handle` of the create-account controller: a body
    whose e-mail fails the format check is refused, an e-mail already on file
    is a conflict, and otherwise one user is stored with the hash of the
    password in place of the password. */
module Accounts {
  import opened Common

  datatype User = User(id: string, name: string, email: string, password: string)

  /** The user table, keyed by the unique e-mail column. */
  type Users = map<string, User>

  /** Every user is filed under its own e-mail, so there is at most one user
      per e-mail address. */
  predicate KeyedByEmail(users: Users) {
    forall e :: e in users ==> users[e].email == e
  }

  /** No two users share an identifier. */
  predicate DistinctIds(users: Users) {
    forall e, f :: e in users && f in users && e != f ==> users[e].id != users[f].id
  }

  datatype CreateAccountBody = CreateAccountBody(name: string, email: string, password: string)

  /** The cost factor the password is hashed with. */
  const HashCost: nat := 8
  const DuplicateEmailMessage: string := "User with same e-mail address already exists"

  /** The lookup by the unique e-mail column. */
  function FindByEmail(users: Users, email: string): (r: Option<User>)
    requires KeyedByEmail(users)
    ensures r.Some? ==> r.value in users.Values && r.value.email == email
    ensures r.None? <==> forall u :: u in users.Values ==> u.email != email
  {
    if email in users then Some(users[email]) else None
  }

  /** A sign-up: the outcome and the table afterwards. */
  datatype SignUp = SignUp(outcome: Result<()>, users: Users)

  /** Creates an account. The identifier the database assigns is the argument `id`. */
  function CreateAccount(users: Users, body: CreateAccountBody, services: Services, id: string): (r: SignUp)
    requires KeyedByEmail(users)
    ensures !services.isEmail(body.email) ==> r == SignUp(Fail(BadRequest), users)
    ensures services.isEmail(body.email) && body.email in users ==>
              r == SignUp(Fail(Conflict(DuplicateEmailMessage)), users)
    ensures r.outcome.Ok? <==> services.isEmail(body.email) && body.email !in users
    ensures r.outcome.Ok? ==>
              && r.users.Keys == users.Keys + {body.email}
              && |r.users| == |users| + 1
              && r.users[body.email].name == body.name
              && r.users[body.email].email == body.email
              && r.users[body.email].password == services.hash(body.password, HashCost)
              && r.users[body.email].id == id
    ensures forall e :: e in users ==> e in r.users && r.users[e] == users[e]
    ensures KeyedByEmail(r.users)
  {
    if !services.isEmail(body.email) then SignUp(Fail(BadRequest), users)
    else match FindByEmail(users, body.email)
      case Some(_) => SignUp(Fail(Conflict(DuplicateEmailMessage)), users)
      case None =>
        var hashed := services.hash(body.password, HashCost);
        SignUp(Ok(()), users[body.email := User(id, body.name, body.email, hashed)])
  }

  /** A sign-up with an identifier no user has keeps identifiers distinct. */
  lemma SignUpKeepsIdsDistinct(users: Users, body: CreateAccountBody, services: Services, id: string)
    requires KeyedByEmail(users) && DistinctIds(users)
    requires forall e :: e in users ==> users[e].id != id
    ensures DistinctIds(CreateAccount(users, body, services, id).users)
  {
  }

  /** Signing up twice with one e-mail: the second attempt is a conflict and
      the table still holds the first user only. */
  lemma SecondSignUpConflicts(users: Users, first: CreateAccountBody, second: CreateAccountBody,
                              services: Services, id1: string, id2: string)
    requires KeyedByEmail(users)
    requires first.email == second.email && first.email !in users && services.isEmail(first.email)
    ensures var once := CreateAccount(users, first, services, id1);
            var twice := CreateAccount(once.users, second, services, id2);
            && once.outcome.Ok?
            && twice.outcome == Fail(Conflict(DuplicateEmailMessage))
            && twice.users == once.users
            && twice.users[second.email].id == id1
  {
  }
}
