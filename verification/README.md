# nest-clean-ignite controllers in Dafny

A model of the four HTTP controllers of a small NestJS question-and-answer
backend, with proofs of what they promise:

- **create-question**: `convertToSlug` turns a title into a URL slug. It
  lower-cases the title, decomposes it, deletes combining marks, deletes
  every character that is not a word character, white space or `-`, and
  turns each run of white space into one `-`. `handle` then stores one
  question record. That record has the title and content verbatim, the
  slug, and the token's subject as author.
- **fetch-recent-questions**: the `page` query pipe defaults an absent page
  to `"1"`, converts it with `Number` and refuses anything below 1. The
  handler answers with one page (`perPage = 1`) of the questions ordered
  by creation time, newest first, skipping `(page - 1) * perPage`.
- **create-account**: a sign-up is refused when the e-mail fails the
  format check and conflicts when the e-mail is already on file. Otherwise
  one user is stored, with the bcrypt hash (cost 8) in place of the
  password.
- **authenticate**: the user is looked up by e-mail and the password
  compared with the stored hash. An unknown e-mail and a wrong password
  both give the same "User credentials do not match." refusal. Success
  gives a token signed over `{sub: user.id}`.

The store is immutable data: a map from e-mail to user, and a sequence of
questions in insertion order. Every operation is a pure function that
returns its outcome together with the new store. The collaborators the
controllers call are uninterpreted function fields of `Common.Services`:
the zod e-mail check, bcrypt `hash`/`compare`, and JWT `sign`/`verify`.
Identifiers and creation times that the database assigns are arguments.

Modules, one file each:

| file | module | contents |
|---|---|---|
| common.dfy | `Common` | `Option`, `Result`, the HTTP error kinds, the token payload, the collaborators |
| text.dfy | `Text` | JavaScript character classes (`\w`, `\s`), order-keeping filtering, trimming |
| slug.dfy | `Slug` | `convertToSlug` and its properties |
| questions.dfy | `Questions` | the question record and its creation |
| recent_questions.dfy | `RecentQuestions` | page conversion, newest-first order, pages |
| accounts.dfy | `Accounts` | the user table and sign-up |
| sessions.dfy | `Sessions` | sign-in |
| api.dfy | `Api` | the four routes, the token guard in front of the question routes, cross-route properties |

`Text.IsSpace` is the set JavaScript's `\s` matches: white space and line
terminators, up to U+FEFF. `Number` trims the same set. `Text.IsWordChar`
is `[A-Za-z0-9_]`, which is what `\w` means without the `u` flag.

The e2e test at
src/controllers/fetch-recent-questions.controller.e2e-spec.ts:59-65
expects two questions, oldest first, on the default page. The controller
takes one question per page, newest first
(src/controllers/fetch-recent-questions.controller.ts:25-31). The model
follows the controller.

## Model

| member | source | states |
|---|---|---|
| Text.Filter | src/controllers/create-question.controller.ts:49-50 | a deleting replacement: what remains is no longer than the input, every character left satisfies the predicate, and a character occurs in the result exactly when it occurs in the input and satisfies the predicate |
| Text.FilterConcat | src/controllers/create-question.controller.ts:49-50 | deleting from a concatenation is deleting from each part |
| Text.FilterKeepsAll | src/controllers/create-question.controller.ts:49-50 | a replacement that matches nothing leaves the text unchanged |
| Text.FilterNarrower | src/controllers/create-question.controller.ts:49-50 | after deleting with a wider class first, keeping a narrower class gives the same result as keeping it directly |
| Text.Trim | src/controllers/fetch-recent-questions.controller.ts:12 | the trimmed text is a contiguous part of the input with only white space before and after it, and it neither starts nor ends with white space; a text that already does neither is unchanged |
| Text.TrimPadded | src/controllers/fetch-recent-questions.controller.ts:12 | white space around a text that neither starts nor ends with white space is exactly what trimming removes, so together with `Text.Trim` the result is determined for every input |
| Slug.LowerChar | src/controllers/create-question.controller.ts:47 | the result is never an ASCII capital; a capital moves to its lower-case letter and any other character is unchanged |
| Slug.ToLowerCase | src/controllers/create-question.controller.ts:47 | the length is kept and each character is lower-cased in place |
| Slug.Hyphenate | src/controllers/create-question.controller.ts:51 | after the run replacement no white space is left, and every character is `-` or comes from the input |
| Slug.HyphenateSpaces | src/controllers/create-question.controller.ts:51 | after the run replacement no white space is left |
| Slug.HyphenateNoSpace | src/controllers/create-question.controller.ts:51 | text without white space passes through unchanged |
| Slug.HyphenateRun | src/controllers/create-question.controller.ts:51 | a non-empty run of white space becomes exactly one `-` |
| Slug.HyphenateSplit | src/controllers/create-question.controller.ts:51 | the replacement over `a + b` is the replacement over `a` followed by that over `b`, started inside a run exactly when `a` ends in one |
| Slug.HyphenateConcat | src/controllers/create-question.controller.ts:51 | the replacement commutes with concatenation when the cut is not inside a run of white space |
| Slug.HyphenateThreeWords | src/controllers/create-question.controller.ts:51 | three words separated by two runs of white space become the words joined by two single `-` |
| Slug.HyphenateCountsHyphens | src/controllers/create-question.controller.ts:51 | the replacement keeps every `-` of its input and adds exactly one per maximal run of white space |
| Slug.HyphenateKeepsWordChars | src/controllers/create-question.controller.ts:51 | the replacement neither adds, drops nor reorders word characters |
| Slug.ConvertToSlug | src/controllers/create-question.controller.ts:45-52 | every character of a slug is a lower-case ASCII letter, a digit, `_` or `-` |
| Slug.SlugHasNoSpaceNorUpper | src/controllers/create-question.controller.ts:47-51 | a slug holds no white space and no upper-case ASCII letter |
| Slug.SlugKeepsWordChars | src/controllers/create-question.controller.ts:47-51 | the word characters of the slug are exactly those of the lower-cased title, in the same order |
| Slug.SlugCountsHyphens | src/controllers/create-question.controller.ts:47-51 | the slug holds every `-` of the lower-cased title plus exactly one per run of white space left after the deletions |
| Slug.SlugIsFixedPoint | src/controllers/create-question.controller.ts:45-52 | a string made only of slug characters is its own slug |
| Slug.SlugIdempotent | src/controllers/create-question.controller.ts:45-52 | converting a slug again changes nothing |
| Slug.FilteredKeepsAllowed | src/controllers/create-question.controller.ts:46-50 | a title made only of word characters, white space and `-` loses nothing to the two deleting replacements |
| Slug.NewQuestionExample | src/controllers/create-question.controller.ts:45-52 | `"New Question 01"` becomes `"new-question-01"`, the pairing the listing test stores |
| Slug.HyphensKeptExample | src/controllers/create-question.controller.ts:50-51 | `"a - b"` becomes `"a---b"`: hyphens in the title are kept next to the one a run of white space becomes |
| Questions.CreateQuestion | src/controllers/create-question.controller.ts:31-42 | exactly one record is appended and the others stay; it holds the title and content verbatim, the slug of the title and the caller's subject as author; stored slugs stay well formed |
| Questions.StoredSlugIsStable | src/controllers/create-question.controller.ts:33-42 | the stored slug is its own slug |
| RecentQuestions.DecimalRoundTrip | src/controllers/fetch-recent-questions.controller.ts:12 | reading back the decimal digits of a number gives the number |
| RecentQuestions.StringToNumber | src/controllers/fetch-recent-questions.controller.ts:12 | after trimming, an empty text is 0, a run of digits is its decimal value, a sign followed by digits is the signed value, and every other text is not a number |
| RecentQuestions.DecimalNumber | src/controllers/fetch-recent-questions.controller.ts:12 | `Number` of the decimal digits of `n` is `n`, for `n` up to 2^53 - 1 |
| RecentQuestions.PaddedDecimalNumber | src/controllers/fetch-recent-questions.controller.ts:12 | white space around the digits and zeros in front of them do not change the number, for `n` up to 2^53 - 1 |
| RecentQuestions.LeadingZerosIgnored | src/controllers/fetch-recent-questions.controller.ts:12 | zeros in front of a decimal numeral do not change its value |
| RecentQuestions.ParsePage | src/controllers/fetch-recent-questions.controller.ts:8-13 | the text, or `"1"` when absent, is accepted exactly when `Number` of it is a number of at least 1, and then the page is that number; a refusal is a validation failure |
| RecentQuestions.PaddedPageAccepted | src/controllers/fetch-recent-questions.controller.ts:8-13 | a decimal page with white space around it and zeros in front, up to 2^53 - 1, is accepted as its value exactly when that is at least 1 |
| RecentQuestions.AbsentPageIsFirst | src/controllers/fetch-recent-questions.controller.ts:11 | an absent page is page 1 |
| RecentQuestions.DecimalPageAccepted | src/controllers/fetch-recent-questions.controller.ts:8-13 | a page written in decimal, up to 2^53 - 1, is accepted, as itself, exactly when it is at least 1 |
| RecentQuestions.NegativePageRejected | src/controllers/fetch-recent-questions.controller.ts:12-13 | a negative page is refused |
| RecentQuestions.RejectedPageExamples | src/controllers/fetch-recent-questions.controller.ts:8-13 | `"0"`, `"-2"`, `"abc"` and `""` are refused |
| RecentQuestions.Skip | src/controllers/fetch-recent-questions.controller.ts:28 | the offset is never negative and is the first index of the page: page = offset / perPage + 1 with no remainder |
| RecentQuestions.InsertByCreatedAt | src/controllers/fetch-recent-questions.controller.ts:29-31 | inserting into a newest-first sequence keeps it newest first and adds exactly the one question |
| RecentQuestions.SortNewestFirst | src/controllers/fetch-recent-questions.controller.ts:29-31 | the listing order is newest first and is a permutation of the table |
| RecentQuestions.NewestFirstIsUnique | src/controllers/fetch-recent-questions.controller.ts:29-31 | with distinct creation times there is only one newest-first permutation, so the listing does not depend on how it is sorted |
| RecentQuestions.PageOf | src/controllers/fetch-recent-questions.controller.ts:27-28 | a page holds at most `perPage` questions, exactly as many as remain after the offset, and the i-th is the question at offset + i |
| RecentQuestions.FetchRecentQuestions | src/controllers/fetch-recent-questions.controller.ts:24-34 | the listing fails exactly when the page is refused, and then with a validation failure; otherwise it answers with at most `perPage` questions, all from the table |
| RecentQuestions.FetchIsSlice | src/controllers/fetch-recent-questions.controller.ts:26-32 | an accepted page is the slice of the newest-first table from the offset, at most `perPage` long |
| RecentQuestions.FirstPageIsNewest | src/controllers/fetch-recent-questions.controller.ts:27-31 | page 1 holds a newest question of the table, or nothing when the table is empty |
| RecentQuestions.NewestIsListedFirst | src/controllers/fetch-recent-questions.controller.ts:27-31 | a question newer than every other is alone on page 1 |
| RecentQuestions.PageBeyondEndIsEmpty | src/controllers/fetch-recent-questions.controller.ts:27-34 | a page, up to 2^53 - 1, whose offset reaches the end of the table is empty |
| RecentQuestions.AdjacentPages | src/controllers/fetch-recent-questions.controller.ts:27-31 | pages p and p + 1 are adjacent slices of the newest-first table |
| RecentQuestions.PagesTile | src/controllers/fetch-recent-questions.controller.ts:27-31 | pages 1 to k in a row are the first k * perPage questions, each once |
| Accounts.FindByEmail | src/controllers/create-account.controller.ts:34-36 | the lookup finds a user exactly when one has that e-mail, and then that user |
| Accounts.CreateAccount | src/controllers/create-account.controller.ts:31-52 | a bad e-mail is a validation failure and a known e-mail a conflict with the source's message, both leaving the table as it was; otherwise exactly one user is added, under its e-mail, with the name, the e-mail, the hash of the password at cost 8 and the new id; other users are unchanged; one user per e-mail is kept |
| Accounts.SignUpKeepsIdsDistinct | src/controllers/create-account.controller.ts:46-52 | a sign-up with an unused id keeps ids distinct |
| Accounts.SecondSignUpConflicts | src/controllers/create-account.controller.ts:34-42 | signing up twice with one e-mail conflicts the second time and keeps the first user |
| Sessions.Authenticate | src/controllers/authenticate.controller.ts:34-54 | a bad e-mail is a validation failure; otherwise sign-in succeeds exactly when the e-mail is known and the password matches its hash, and fails with "User credentials do not match."; the token is signed over the id of the user with that e-mail |
| Sessions.FailuresIndistinguishable | src/controllers/authenticate.controller.ts:41-49 | an unknown e-mail and a wrong password give the same outcome |
| Sessions.SignUpThenSignIn | src/controllers/authenticate.controller.ts:37-53 | after signing up, the same credentials sign in and the token's subject is the new user's id |
| Api.Guard | src/controllers/create-question.controller.ts:20 | a caller is admitted exactly when it presents a token that verifies, and is then the token's payload |
| Api.Handle | src/controllers/create-question.controller.ts:19-43 | every route keeps one user per e-mail, and keeps stored slugs well formed when they were; a refused request changes nothing; sign-in and listing only read; sign-up touches only users and question creation only questions; without a verifying token the question routes are refused by the guard; otherwise sign-up answers as `CreateAccount` and stores its table, sign-in answers with `Authenticate`'s token or error, question creation answers 201 and stores `CreateQuestion`'s table for the token's payload, and the listing answers with `FetchRecentQuestions`' page or error |
| Api.GuardRunsBeforePage | src/controllers/fetch-recent-questions.controller.ts:19-24 | without a token even a malformed page is answered by the guard, not by the page pipe |
| Api.SignUpSignInPost | src/controllers/create-question.controller.ts:27-42 | signing up, signing in and posting with the token stores a question whose author is the new user |
| Api.NewQuestionListedFirst | src/controllers/fetch-recent-questions.controller.ts:24-34 | a question created after every stored one is alone on the default page |

## Left out

- Slug.LowerChar: only the ASCII capitals are lower-cased. Full Unicode case mapping is a table this model does not carry.
- Slug.ToLowerCase: same reason as `Slug.LowerChar`. Non-ASCII letters pass through unchanged.
- Slug.NormalizeNfd: canonical decomposition is the identity here. That is exact on ASCII titles. A precomposed letter such as `é` is therefore not split into `e` and a combining mark, and so is deleted rather than kept as `e`.
- RecentQuestions.ParsePage: `Number` is modelled on trimmed decimal integers with an optional sign, and an empty or blank text is 0. Every other text is treated as NaN and refused. The source accepts some of those texts. `"1.5"` gives a fractional page and skip. `"1e0"`, `"1.0"` and `"0x1"` give page 1. These are floating-point and radix forms.
- RecentQuestions.StringToNumber: a decimal text is read as an exact integer of any size. `Number` returns a double: above 2^53 - 1 the value is rounded (`"9007199254740993"` gives 9007199254740992), and a decimal value of 2^1024 - 2^970 (about 1.8 × 10^308) or more gives `Infinity`, which the minimum check accepts. The model accepts such a page as its exact value. Double rounding is floating point.
- RecentQuestions.ParsePage: same gap as `RecentQuestions.StringToNumber` for pages above 2^53 - 1 and for `Infinity`.
- RecentQuestions.DecimalNumber: stated only up to `RecentQuestions.MaxSafeInteger` (2^53 - 1), the range where `Number` is exact.
- RecentQuestions.DecimalPageAccepted: stated only up to 2^53 - 1, for the same reason.
- RecentQuestions.PageBeyondEndIsEmpty: stated only up to 2^53 - 1, for the same reason.
- Zod internals: the e-mail format check is the uninterpreted `Services.isEmail`. The bodies are typed records, so a body with a missing or non-string field cannot be written. A validation failure is the bare `BadRequest` tag, without zod's issue list.
- Common.Services: `hash` and `sign` are functions of their arguments. bcrypt draws a fresh random salt on every call, and the token signer stamps the issue time, so neither is deterministic in the source. No property here relies on two calls agreeing.
- bcrypt and JWT are uninterpreted functions. `Sessions.SignUpThenSignIn` and `Api.SignUpSignInPost` state as requirements the two laws they rely on: `compare` accepts a password against its own hash, and `verify` reads back what `sign` signed.
- The token guard and its strategy (src/auth/jwt-auth.guard.ts, src/auth/jwt.strategy.ts) are not part of this model. `Api.Guard` is `verify` applied to the bearer token, and the refusal message is the constant `Api.GuardMessage`.
- Api.Handle: a store is only required to keep one user per e-mail. Slugs are shown to stay well formed only for a store whose slugs already were; questions written directly into the table, as the listing test does, may hold any slug.
- The database: ids and creation times are arguments. The unique e-mail column is the map key. The database schema is not part of this model, so neither is any uniqueness of slugs or the foreign key from question to author. Database errors are not modelled.
- The race between two concurrent sign-ups with one e-mail between the lookup and the insert. The model is sequential.
- RecentQuestions.SortNewestFirst: the database leaves the order of equal creation times open. The model fixes one order, and `RecentQuestions.NewestFirstIsUnique` shows that with distinct creation times no other order exists.
- HTTP status codes, response wrappers (`{questions}`, `{access_token}`), NestJS decorators and dependency injection: these are outcome tags and plain arguments.
- test/setup-e2e.ts: environment set-up and schema migrations for the tests.
