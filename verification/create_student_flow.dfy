/** The server action that creates a student's sign-in account
    (src/ai/flows/create-student-flow.ts).

    The action validates its input, builds a display name, asks the identity
    provider to create the account and folds every outcome into an output that
    carries exactly one of `uid` or `error`. It writes no profile document: the
    client does that afterwards.

    External collaborators are parameters: the e-mail syntax check is a
    predicate `isEmail`, the admin SDK handle is an `AdminAuth` value and the
    provider's `createUser` is a function from request to outcome. The result
    is the output together with the trace of externally visible effects. */
module CreateStudentFlow {
  import opened Wrappers

  /** The input as received: a field that is missing or is not a string is `None`. */
  datatype Input = Input(
    email: Option<string>,
    password: Option<string>,
    firstName: Option<string>,
    lastName: Option<string>)

  /** The input once the schema has accepted it. */
  datatype ValidInput = ValidInput(email: string, password: string, firstName: string, lastName: string)

  /** What the action hands to the provider's `createUser`. */
  datatype UserRequest = UserRequest(email: string, password: string, displayName: string)

  /** A thrown error: `code` and `message` may each be absent. */
  datatype JsError = JsError(code: Option<string>, message: Option<string>)

  /** How the provider's `createUser` settles. */
  datatype CreateUserOutcome = Created(uid: string) | Rejected(error: JsError)

  /** What the admin SDK accessor gives back: a usable handle, a falsy handle, or a throw. */
  datatype AdminAuth = AuthReady | AuthMissing | AuthThrows(error: JsError)

  /** The action's result object `{ uid?, error? }`. */
  datatype Output = Output(uid: Option<string>, error: Option<string>)

  /** Externally visible effects, in the order they happen. */
  datatype Effect = CreateAuthAccount(request: UserRequest) | LogError(message: string)

  datatype Run = Run(output: Output, effects: seq<Effect>)

  const InvalidInputMessage := "Invalid input."
  const NotInitializedMessage :=
    "Firebase Admin SDK not initialized. Please ensure FIREBASE_SERVICE_ACCOUNT_JSON is set in environment variables."
  const DefaultErrorMessage := "An unexpected error occurred during user creation."
  const MinPasswordLength := 6

  /** JavaScript truthiness of an optional string: present and non-empty. */
  predicate Truthy(s: Option<string>) {
    s.Some? && s.value != ""
  }

  /** How a template literal renders an optional string (`undefined` when absent). */
  function Render(s: Option<string>): string {
    match s
    case Some(v) => v
    case None => "undefined"
  }

  /** The input schema: a syntactically valid e-mail, a password of at least six
      characters, and names that are strings (possibly empty). */
  function Validate(input: Input, isEmail: string -> bool): (r: Option<ValidInput>)
    ensures r.Some? <==>
      && input.email.Some? && isEmail(input.email.value)
      && input.password.Some? && |input.password.value| >= MinPasswordLength
      && input.firstName.Some? && input.lastName.Some?
    ensures r.Some? ==>
      && Some(r.value.email) == input.email && Some(r.value.password) == input.password
      && Some(r.value.firstName) == input.firstName && Some(r.value.lastName) == input.lastName
  {
    match input
    case Input(Some(email), Some(password), Some(first), Some(last)) =>
      if isEmail(email) && |password| >= MinPasswordLength
      then Some(ValidInput(email, password, first, last))
      else None
    case _ => None
  }

  /** Empty names pass validation: only the e-mail and the password are checked. */
  lemma EmptyNamesAccepted(email: string, password: string, isEmail: string -> bool)
    requires isEmail(email) && |password| >= MinPasswordLength
    ensures Validate(Input(Some(email), Some(password), Some(""), Some("")), isEmail)
            == Some(ValidInput(email, password, "", ""))
  {
  }

  /** The display name: first name, one space, last name. */
  function DisplayName(firstName: string, lastName: string): (r: string)
    ensures |r| == |firstName| + 1 + |lastName|
    ensures r[..|firstName|] == firstName
    ensures r[|firstName|] == ' '
    ensures r[|firstName| + 1..] == lastName
  {
    firstName + " " + lastName
  }

  /** The display name determines both names once the length of the first is known. */
  lemma DisplayNameInjective(f1: string, l1: string, f2: string, l2: string)
    requires |f1| == |f2| && DisplayName(f1, l1) == DisplayName(f2, l2)
    ensures f1 == f2 && l1 == l2
  {
  }

  /** The request for validated input: its e-mail and password, and a display name that
      splits back into its first and last name at the added space. */
  function RequestFor(v: ValidInput): (req: UserRequest)
    ensures req.email == v.email && req.password == v.password
    ensures |req.displayName| == |v.firstName| + 1 + |v.lastName|
    ensures req.displayName[..|v.firstName|] == v.firstName && req.displayName[|v.firstName|] == ' '
    ensures req.displayName[|v.firstName| + 1..] == v.lastName
  {
    UserRequest(v.email, v.password, DisplayName(v.firstName, v.lastName))
  }

  /** The text reported for a caught error: with a code, "Error (code): message";
      otherwise the message; otherwise the fixed default. */
  function ErrorMessage(e: JsError): (m: string)
    ensures Truthy(e.code) ==> m == "Error (" + e.code.value + "): " + Render(e.message)
    ensures !Truthy(e.code) && Truthy(e.message) ==> m == e.message.value
    ensures !Truthy(e.code) && !Truthy(e.message) ==> m == DefaultErrorMessage
    ensures m != ""
  {
    if Truthy(e.code) then "Error (" + e.code.value + "): " + Render(e.message)
    else if Truthy(e.message) then e.message.value
    else DefaultErrorMessage
  }

  /** The catch block: log the message and return it as the error. */
  function Caught(prior: seq<Effect>, e: JsError): Run {
    var m := ErrorMessage(e);
    Run(Output(None, Some(m)), prior + [LogError(m)])
  }

  /** `createStudentAuthUser(input)`. */
  function CreateStudentAuthUser(
    input: Input, isEmail: string -> bool, auth: AdminAuth, createUser: UserRequest -> CreateUserOutcome): (r: Run)
    // Every path sets exactly one of `uid` and `error`, and an error is never the empty string.
    ensures r.output.uid.Some? != r.output.error.Some?
    ensures r.output.error.Some? ==> r.output.error.value != ""
    // Invalid input: the fixed message, and no external call at all.
    ensures Validate(input, isEmail).None? ==> r == Run(Output(None, Some(InvalidInputMessage)), [])
    // A throwing admin SDK accessor is caught: its formatted message is logged once and
    // returned, and no account is requested.
    ensures Validate(input, isEmail).Some? && auth.AuthThrows? ==>
      var m := ErrorMessage(auth.error);
      r == Run(Output(None, Some(m)), [LogError(m)])
    // A falsy handle returns the fixed not-initialised message without logging anything.
    ensures Validate(input, isEmail).Some? && auth.AuthMissing? ==>
      r == Run(Output(None, Some(NotInitializedMessage)), [])
    // `createUser` is called at most once, only on valid input, and with the validated data.
    ensures |r.effects| <= 2
    ensures forall i :: 0 <= i < |r.effects| && r.effects[i].CreateAuthAccount? ==>
      i == 0 && Validate(input, isEmail).Some? && auth.AuthReady?
      && r.effects[i].request == RequestFor(Validate(input, isEmail).value)
    // Success means exactly: valid input, a usable handle and an account created; the
    // uid is the provider's, and the account request is the only effect (no profile write).
    ensures r.output.uid.Some? <==>
      Validate(input, isEmail).Some? && auth.AuthReady?
      && createUser(RequestFor(Validate(input, isEmail).value)).Created?
    ensures r.output.uid.Some? ==>
      var req := RequestFor(Validate(input, isEmail).value);
      r.output.uid.value == createUser(req).uid && r.effects == [CreateAuthAccount(req)]
  {
    match Validate(input, isEmail)
    case None => Run(Output(None, Some(InvalidInputMessage)), [])
    case Some(v) =>
      match auth
      case AuthThrows(e) => Caught([], e)
      case AuthMissing => Run(Output(None, Some(NotInitializedMessage)), [])
      case AuthReady =>
        var req := RequestFor(v);
        match createUser(req)
        case Created(uid) => Run(Output(Some(uid), None), [CreateAuthAccount(req)])
        case Rejected(e) => Caught([CreateAuthAccount(req)], e)
  }

  /** A rejection from the provider surfaces its formatted message, after the one account request. */
  lemma ProviderRejectionReported(
    input: Input, isEmail: string -> bool, createUser: UserRequest -> CreateUserOutcome)
    requires Validate(input, isEmail).Some?
    requires createUser(RequestFor(Validate(input, isEmail).value)).Rejected?
    ensures var req := RequestFor(Validate(input, isEmail).value);
            var m := ErrorMessage(createUser(req).error);
            CreateStudentAuthUser(input, isEmail, AuthReady, createUser)
              == Run(Output(None, Some(m)), [CreateAuthAccount(req), LogError(m)])
  {
  }
}
