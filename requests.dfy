/**
 * What the views receive from a request and what they hand back, and the
 * small shapes shared by the apps. Rendering, redirects and flash messages
 * are collapsed into one Outcome per request.
 */
module Requests {

  /** A user's primary key. */
  type UserId = nat

  /** An uploaded file (image, avatar, resource document) as an opaque token. */
  type Blob = nat

  /** The GET or POST parameters of a request. */
  type Params = map<string, string>

  /** `params.get(key, default)`. */
  function Param(params: Params, key: string, default: string): string {
    if key in params then params[key] else default
  }

  /** `params.get(key)`, which yields None for a missing key. */
  function OptParam(params: Params, key: string): Option<string> {
    if key in params then Some(params[key]) else None
  }

  /** `params.get(key) == 'on'`: how an HTML checkbox arrives. */
  predicate Checked(params: Params, key: string) {
    key in params && params[key] == "on"
  }

  datatype Option<T> = None | Some(value: T)

  /** One `(code, label)` pair of a choices list, as the models and views tabulate them. */
  datatype Choice = Choice(code: string, name: string)

  /** Why a form was refused. */
  datatype Problem =
    | PasswordsDiffer       // "Passwords do not match."
    | PasswordTooShort      // "Password must be at least 6 characters."
    | UsernameTaken         // "Username already taken."
    | EmailTaken            // "Email already registered."
    | TitleAndBodyRequired  // "Title and body are required."
    | FormErrors            // the upload form did not validate

  /** The result of one request to a view. */
  datatype Outcome =
    | LoginRequired         // anonymous user redirected to the login page
    | AlreadySignedIn       // signed-in user sent away from the signup page
    | FacultyOnly           // role check failed; nothing was changed
    | NotFound              // no announcement with that primary key (404)
    | Invalid(problem: Problem)  // form re-rendered with an error; nothing was changed
    | FormShown             // GET: the page or the empty form is rendered
    | Ignored               // GET on a POST-only action: redirect, nothing changed
    | IntegrityError        // the database refused to save a NULL into a NOT NULL column
    | Done                  // the action was performed
}
