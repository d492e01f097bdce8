/** The `handle` of the authenticate controller: the user is looked up by
    e-mail and the password compared with the stored hash. Both failures give
    the same outcome; success gives a token whose subject is the user's id. */
module Sessions {
  import opened Common
  import opened Accounts

  datatype AuthenticateBody = AuthenticateBody(email: string, password: string)

  /** The answer to a successful sign-in. */
  datatype Session = Session(accessToken: string)

  const CredentialsMismatchMessage: string := "User credentials do not match."

  /** Signs in. The table is only read. */
  function Authenticate(users: Users, body: AuthenticateBody, services: Services): (r: Result<Session>)
    requires KeyedByEmail(users)
    ensures !services.isEmail(body.email) ==> r == Fail(BadRequest)
    ensures services.isEmail(body.email) ==>
              (r.Ok? <==> body.email in users && services.compare(body.password, users[body.email].password))
    ensures services.isEmail(body.email) && r.Fail? ==> r.error == Unauthorized(CredentialsMismatchMessage)
    ensures r.Ok? ==> exists u :: u in users.Values && u.email == body.email
                                  && r.value.accessToken == services.sign(UserPayload(u.id))
  {
    if !services.isEmail(body.email) then Fail(BadRequest)
    else match FindByEmail(users, body.email)
      case None => Fail(Unauthorized(CredentialsMismatchMessage))
      case Some(user) =>
        if !services.compare(body.password, user.password) then Fail(Unauthorized(CredentialsMismatchMessage))
        else Ok(Session(services.sign(UserPayload(user.id))))
  }

  /** An unknown e-mail and a wrong password cannot be told apart. */
  lemma FailuresIndistinguishable(usersA: Users, bodyA: AuthenticateBody,
                                  usersB: Users, bodyB: AuthenticateBody, services: Services)
    requires KeyedByEmail(usersA) && KeyedByEmail(usersB)
    requires services.isEmail(bodyA.email) && services.isEmail(bodyB.email)
    requires bodyA.email !in usersA
    requires bodyB.email in usersB && !services.compare(bodyB.password, usersB[bodyB.email].password)
    ensures Authenticate(usersA, bodyA, services) == Authenticate(usersB, bodyB, services)
    ensures Authenticate(usersA, bodyA, services) == Fail(Unauthorized(CredentialsMismatchMessage))
  {
  }

  /** After signing up, the same e-mail and password sign in, provided the
      comparison accepts a password against its own hash; the token names the
      new user. */
  lemma SignUpThenSignIn(users: Users, name: string, email: string, password: string,
                         services: Services, id: string)
    requires KeyedByEmail(users)
    requires services.isEmail(email) && email !in users
    requires services.compare(password, services.hash(password, HashCost))
    ensures var after := CreateAccount(users, CreateAccountBody(name, email, password), services, id).users;
            Authenticate(after, AuthenticateBody(email, password), services)
              == Ok(Session(services.sign(UserPayload(id))))
  {
  }
}
