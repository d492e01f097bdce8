/** The four routes over one store. The question routes sit behind the token
    guard, which runs before the page query is converted; the account and
    session routes are open. A request either completes or changes nothing. */
module Api {
  import opened Common
  import opened Accounts
  import opened Sessions
  import opened Questions
  import opened RecentQuestions

  /** The two tables. */
  datatype State = State(users: Users, questions: seq<Question>)

  /** What the routes keep true: one user per e-mail and well-formed slugs.
      Only the first half is needed to serve a request; a table of questions
      written by other means may hold any slugs. */
  predicate Valid(s: State) {
    KeyedByEmail(s.users) && SlugsWellFormed(s.questions)
  }

  datatype Request =
    | PostAccounts(account: CreateAccountBody)
    | PostSessions(credentials: AuthenticateBody)
    | PostQuestions(bearer: Option<string>, question: CreateQuestionBody)
    | GetQuestions(bearer: Option<string>, page: Option<string>)

  /** A successful answer: 201 with no body, the access token, or one page. */
  datatype Reply = Created | AccessToken(token: string) | QuestionList(questions: seq<Question>)

  /** A request's answer and the store afterwards. */
  datatype Exchange = Exchange(reply: Result<Reply>, state: State)

  /** The guard's refusal. */
  const GuardMessage: string := "Unauthorized"

  /** The token guard: the caller is the payload of a token that verifies. */
  function Guard(bearer: Option<string>, services: Services): (r: Result<UserPayload>)
    ensures r.Ok? <==> bearer.Some? && services.verify(bearer.value).Some?
    ensures r.Ok? ==> Some(r.value) == services.verify(bearer.value)
    ensures r.Fail? ==> r.error == Unauthorized(GuardMessage)
  {
    if bearer.None? then Fail(Unauthorized(GuardMessage))
    else match services.verify(bearer.value)
      case None => Fail(Unauthorized(GuardMessage))
      case Some(user) => Ok(user)
  }

  /** Serves one request; `id` and `now` are what the database would assign
      to a row created by it. */
  function Handle(state: State, req: Request, services: Services, id: string, now: int): (r: Exchange)
    requires KeyedByEmail(state.users)
    ensures KeyedByEmail(r.state.users)
    ensures Valid(state) ==> Valid(r.state)
    ensures r.reply.Fail? ==> r.state == state
    ensures req.PostSessions? || req.GetQuestions? ==> r.state == state
    ensures req.PostAccounts? ==> r.state.questions == state.questions
    ensures req.PostQuestions? ==> r.state.users == state.users
    ensures (req.PostQuestions? || req.GetQuestions?) && Guard(req.bearer, services).Fail? ==>
              r.reply == Fail(Unauthorized(GuardMessage))
    ensures req.PostAccounts? ==>
              var signUp := CreateAccount(state.users, req.account, services, id);
              && r.state.users == signUp.users
              && (signUp.outcome.Ok? ==> r.reply == Ok(Created))
              && (signUp.outcome.Fail? ==> r.reply == Fail(signUp.outcome.error))
    ensures req.PostSessions? ==>
              var signIn := Authenticate(state.users, req.credentials, services);
              && (signIn.Ok? ==> r.reply == Ok(AccessToken(signIn.value.accessToken)))
              && (signIn.Fail? ==> r.reply == Fail(signIn.error))
    ensures req.PostQuestions? && Guard(req.bearer, services).Ok? ==>
              && r.reply == Ok(Created)
              && r.state.questions
                   == CreateQuestion(state.questions, Guard(req.bearer, services).value, req.question, id, now)
    ensures req.GetQuestions? && Guard(req.bearer, services).Ok? ==>
              var listing := FetchRecentQuestions(state.questions, req.page);
              && (listing.Ok? ==> r.reply == Ok(QuestionList(listing.value)))
              && (listing.Fail? ==> r.reply == Fail(listing.error))
  {
    match req
    case PostAccounts(body) =>
      var s := CreateAccount(state.users, body, services, id);
      if s.outcome.Fail? then Exchange(Fail(s.outcome.error), state)
      else Exchange(Ok(Created), state.(users := s.users))
    case PostSessions(body) =>
      (match Authenticate(state.users, body, services)
       case Fail(e) => Exchange(Fail(e), state)
       case Ok(session) => Exchange(Ok(AccessToken(session.accessToken)), state))
    case PostQuestions(bearer, body) =>
      (match Guard(bearer, services)
       case Fail(e) => Exchange(Fail(e), state)
       case Ok(user) =>
         Exchange(Ok(Created), state.(questions := CreateQuestion(state.questions, user, body, id, now))))
    case GetQuestions(bearer, page) =>
      match Guard(bearer, services)
      case Fail(e) => Exchange(Fail(e), state)
      case Ok(_) =>
        (match FetchRecentQuestions(state.questions, page)
         case Fail(e) => Exchange(Fail(e), state)
         case Ok(qs) => Exchange(Ok(QuestionList(qs)), state))
  }

  /** Without a token even a malformed page is answered by the guard. */
  lemma GuardRunsBeforePage(state: State, page: Option<string>, services: Services, id: string, now: int)
    requires KeyedByEmail(state.users)
    requires ParsePage(page).Fail?
    ensures Handle(state, GetQuestions(None, page), services, id, now).reply == Fail(Unauthorized(GuardMessage))
  {
  }

  /** Signing up, signing in and posting with the token stores a question
      whose author is the new user, provided the comparison accepts a
      password against its own hash and a signed payload verifies. */
  lemma SignUpSignInPost(state: State, account: CreateAccountBody, question: CreateQuestionBody,
                         services: Services, userId: string, questionId: string, now: int)
    requires KeyedByEmail(state.users)
    requires services.isEmail(account.email) && account.email !in state.users
    requires services.compare(account.password, services.hash(account.password, HashCost))
    requires services.verify(services.sign(UserPayload(userId))) == Some(UserPayload(userId))
    ensures var s1 := Handle(state, PostAccounts(account), services, userId, now);
            var s2 := Handle(s1.state, PostSessions(AuthenticateBody(account.email, account.password)),
                             services, questionId, now);
            && s2.reply.Ok? && s2.reply.value.AccessToken?
            && var s3 := Handle(s2.state, PostQuestions(Some(s2.reply.value.token), question),
                                services, questionId, now);
               && s3.reply == Ok(Created)
               && s3.state.users == s1.state.users
               && |s3.state.questions| == |state.questions| + 1
               && s3.state.questions[|state.questions|].authorId == userId
  {
  }

  /** A question created later than every stored one is alone on page 1. */
  lemma NewQuestionListedFirst(state: State, bearer: string, question: CreateQuestionBody,
                               services: Services, id: string, now: int)
    requires KeyedByEmail(state.users)
    requires services.verify(bearer).Some?
    requires forall i :: 0 <= i < |state.questions| ==> state.questions[i].createdAt < now
    ensures var s1 := Handle(state, PostQuestions(Some(bearer), question), services, id, now);
            var s2 := Handle(s1.state, GetQuestions(Some(bearer), None), services, id, now);
            && s2.reply.Ok? && s2.reply.value.QuestionList?
            && s2.reply.value.questions == [s1.state.questions[|state.questions|]]
  {
    var s1 := Handle(state, PostQuestions(Some(bearer), question), services, id, now);
    var user := services.verify(bearer).value;
    var q := CreateQuestion(state.questions, user, question, id, now)[|state.questions|];
    assert s1.state.questions == state.questions + [q];
    NewestIsListedFirst(state.questions, q);
  }
}
