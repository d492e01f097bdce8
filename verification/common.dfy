/** Outcomes shared by every controller, and the collaborators the controllers
    call but whose behaviour is not modelled (password hashing, token signing,
    the e-mail format check). Each collaborator is an uninterpreted function
    passed in by the caller, so no property proved here depends on how it works.
 */
module Common {

  datatype Option<+T> = None | Some(value: T)

  /** The error kinds a request can end in, each standing for an HTTP exception. */
  datatype HttpError =
    | BadRequest                   // a validation pipe rejected the body or query
    | Conflict(message: string)    // ConflictException, 409
    | Unauthorized(message: string) // UnauthorizedException, 401

  datatype Result<+T> = Ok(value: T) | Fail(error: HttpError)

  /** The payload of a session token: the user's identifier as the subject. */
  datatype UserPayload = UserPayload(sub: string)

  /** The external functions the controllers call.
      - isEmail: the e-mail format check of the request schemas;
      - hash: password hashing with a cost factor;
      - compare: checks a plaintext password against a stored hash;
      - sign / verify: issue and check session tokens. */
  datatype Services = Services(
    isEmail: string -> bool,
    hash: (string, nat) -> string,
    compare: (string, string) -> bool,
    sign: UserPayload -> string,
    verify: string -> Option<UserPayload>)
}
