/**
  The front end's sign-in and sign-up forms: the checks that run before a
  request is sent, in their order, and how each server reply becomes a
  signed-in user or an error message. Server replies are inputs; the
  network and the browser's storage are not modelled.
 */
module AuthForms {
  import opened Wrappers
  import opened Text

  /** The errors a form can show: translated labels, or a message text. */
  datatype FormError =
    | RequiredFields
    | InvalidEmail
    | PolyuEmail
    | PasswordMismatch
    | Message(text: string)

  /** A JSON error body's fields, as far as the forms read them. */
  datatype Body<U> = Body(success: bool, user: Option<U>, message: Option<string>, detail: Option<string>)

  /**
    What a request brings back: a response with its status flag and its
    body (`None` when the body is not JSON), or a failure thrown before any
    response, with its message.
   */
  datatype Reply<U> = Response(ok: bool, body: Option<Body<U>>) | Thrown(error: string)

  /** JavaScript truthiness of an optional string. */
  predicate Truthy(s: Option<string>)
  {
    s.Some? && s.value != ""
  }

  /** `a || b || fallback` over optional strings. */
  function FirstText(a: Option<string>, b: Option<string>, fallback: string): (r: string)
    ensures Truthy(a) ==> r == a.value
    ensures !Truthy(a) && Truthy(b) ==> r == b.value
    ensures !Truthy(a) && !Truthy(b) ==> r == fallback
    ensures fallback != "" ==> r != ""
  {
    if Truthy(a) then a.value else if Truthy(b) then b.value else fallback
  }

  // ---------------------------------------------------------------------
  // Sign in
  // ---------------------------------------------------------------------

  const LoginFailed: string := "Login failed"

  /** The form's checks, in order: both fields filled, then an `@` in the address. */
  function CheckLogin(email: string, password: string): (r: Option<FormError>)
    ensures r == Some(RequiredFields) <==> email == "" || password == ""
    ensures r == Some(InvalidEmail) <==> email != "" && password != "" && '@' !in email
    ensures r.None? <==> email != "" && password != "" && '@' in email
  {
    if email == "" || password == "" then Some(RequiredFields)
    else if '@' !in email then Some(InvalidEmail)
    else None
  }

  datatype LoginOutcome<U> = Rejected(error: FormError) | LoggedIn(user: U)

  /**
    The login modal: a failed check sends nothing; a non-OK response fails
    with its message, else its detail, else "Login failed" (also when the
    body is not JSON); an OK response signs in only when it reports success
    and carries a user; any other OK response fails with its message,
    detail or "Login failed"; a thrown failure shows its own message.
   */
  function ModalLogin<U>(email: string, password: string, reply: Reply<U>): (r: LoginOutcome<U>)
    ensures CheckLogin(email, password).Some? ==> r == Rejected(CheckLogin(email, password).value)
    ensures r.LoggedIn? <==>
              CheckLogin(email, password).None? && reply.Response? && reply.ok && reply.body.Some?
              && reply.body.value.success && reply.body.value.user.Some?
    ensures r.LoggedIn? ==> r.user == reply.body.value.user.value
    ensures CheckLogin(email, password).None? && reply.Response? && r.Rejected? ==>
              r.error.Message? && r.error.text != ""
    ensures CheckLogin(email, password).None? && reply.Response? && reply.body.Some?
            && !reply.body.value.success ==>
              r == Rejected(Message(FirstText(reply.body.value.message, reply.body.value.detail, LoginFailed)))
  {
    match CheckLogin(email, password)
    case Some(e) => Rejected(e)
    case None =>
      match reply
      case Thrown(error) => Rejected(Message(error))
      case Response(ok, body) =>
        var data := body.GetOr(Body(false, None, Some(LoginFailed), None));
        if !ok then Rejected(Message(FirstText(data.message, data.detail, LoginFailed)))
        else if data.success then
          // handleLogin returns `{ success: true, user }` without a message
          match data.user
          case Some(u) => LoggedIn(u)
          case None => Rejected(Message(LoginFailed))
        else Rejected(Message(FirstText(data.message, data.detail, LoginFailed)))
  }

  /**
    The login component: the same checks; a non-OK response fails with its
    message or "Login failed" (the detail is not read); a body that is not
    JSON fails with the parser's error `parseError`; an OK response signs in
    when it reports success and carries a user, and otherwise fails with
    its message or "Login failed".
   */
  function ComponentLogin<U>(email: string, password: string, reply: Reply<U>, parseError: string): (r: LoginOutcome<U>)
    ensures CheckLogin(email, password).Some? ==> r == Rejected(CheckLogin(email, password).value)
    ensures r.LoggedIn? <==>
              CheckLogin(email, password).None? && reply.Response? && reply.ok && reply.body.Some?
              && reply.body.value.success && reply.body.value.user.Some?
    ensures r.LoggedIn? ==> r.user == reply.body.value.user.value
    ensures CheckLogin(email, password).None? && reply.Response? && reply.body.Some? && r.Rejected? ==>
              r == Rejected(Message(FirstText(reply.body.value.message, None, LoginFailed)))
  {
    match CheckLogin(email, password)
    case Some(e) => Rejected(e)
    case None =>
      match reply
      case Thrown(error) => Rejected(Message(error))
      case Response(ok, body) =>
        match body
        case None => Rejected(Message(parseError))
        case Some(data) =>
          if ok && data.success && data.user.Some? then LoggedIn(data.user.value)
          else Rejected(Message(FirstText(data.message, None, LoginFailed)))
  }

  /** A failed check sends no request: the outcome is the same whatever the server would say. */
  lemma ChecksSendNothing<U>(email: string, password: string, a: Reply<U>, b: Reply<U>, e1: string, e2: string)
    requires CheckLogin(email, password).Some?
    ensures ModalLogin(email, password, a) == ModalLogin(email, password, b)
    ensures ComponentLogin(email, password, a, e1) == ComponentLogin(email, password, b, e2)
  {
  }

  /** Both sign-in forms sign in on exactly the same JSON replies, with the same user. */
  lemma FormsAgreeOnSignIn<U>(email: string, password: string, reply: Reply<U>, parseError: string)
    requires reply.Thrown? || reply.body.Some?
    ensures ModalLogin(email, password, reply).LoggedIn? <==> ComponentLogin(email, password, reply, parseError).LoggedIn?
    ensures ModalLogin(email, password, reply).LoggedIn? ==>
              ModalLogin(email, password, reply) == ComponentLogin(email, password, reply, parseError)
  {
  }

  /** A rejection that carries only a `detail` shows it in the modal but "Login failed" in the component. */
  lemma DetailOnlyInModal<U>(parseError: string)
    ensures var reply: Reply<U> := Response(false, Some(Body(false, None, None, Some("Invalid credentials"))));
            ModalLogin("a@b", "pw", reply) == Rejected(Message("Invalid credentials"))
            && ComponentLogin("a@b", "pw", reply, parseError) == Rejected(Message(LoginFailed))
  {
    assert '@' in "a@b" by { assert "a@b"[1] == '@'; }
  }

  /** The fields of a sign-in form. */
  datatype LoginForm = LoginForm(email: string, password: string, error: Option<FormError>)

  /** `resetForm`: every field cleared. */
  const EmptyLoginForm: LoginForm := LoginForm("", "", None)

  /** The form after a submission: cleared on sign-in, otherwise the inputs kept and the error shown. */
  function AfterLogin<U>(form: LoginForm, outcome: LoginOutcome<U>): (r: LoginForm)
    ensures outcome.LoggedIn? ==> r == EmptyLoginForm
    ensures outcome.Rejected? ==> r.email == form.email && r.password == form.password && r.error == Some(outcome.error)
  {
    match outcome
    case LoggedIn(_) => EmptyLoginForm
    case Rejected(e) => LoginForm(form.email, form.password, Some(e))
  }

  // ---------------------------------------------------------------------
  // Sign up
  // ---------------------------------------------------------------------

  /** The only e-mail domain accepted for registration. */
  const PolyuDomain: string := "@connect.polyu.hk"

  /** `/@connect\.polyu\.hk$/i`: the address ends with the PolyU domain, in any letter case. */
  predicate IsPolyuEmail(email: string)
  {
    EndsWith(Lower(email), PolyuDomain)
  }

  /** The domain check ignores letter case. */
  lemma PolyuCaseInsensitive(a: string, b: string)
    requires Lower(a) == Lower(b)
    ensures IsPolyuEmail(a) <==> IsPolyuEmail(b)
  {
  }

  /** A PolyU address is never shorter than the domain, so an empty address never passes. */
  lemma PolyuNotEmpty(email: string)
    requires IsPolyuEmail(email)
    ensures |email| >= |PolyuDomain| && email != ""
  {
  }

  /** The seconds before another code may be requested. */
  const ResendSeconds: nat := 60

  /** What a code request leaves behind. */
  datatype SendCodeState = SendCodeState(canInputCode: bool, countdown: int, error: Option<FormError>, noted: bool)

  /**
    `handleSendCode`: an empty or non-PolyU address is refused without a
    request; an OK response enables the code field and starts the 60-second
    countdown; otherwise the message, detail or "Failed to send code" is
    shown (the thrown failure's own message when there is no response).
   */
  function SendCode<U>(state: SendCodeState, email: string, reply: Reply<U>): (r: SendCodeState)
    ensures email == "" || !IsPolyuEmail(email) ==>
              r == SendCodeState(state.canInputCode, state.countdown, Some(PolyuEmail), false)
    ensures !(email != "" && IsPolyuEmail(email) && reply.Response? && reply.ok) ==>
              r.countdown == state.countdown && r.canInputCode == state.canInputCode && r.error.Some? && !r.noted
    ensures email != "" && IsPolyuEmail(email) && reply.Response? && reply.ok ==>
              r == SendCodeState(true, ResendSeconds, None, true)
  {
    if email == "" || !IsPolyuEmail(email) then SendCodeState(state.canInputCode, state.countdown, Some(PolyuEmail), false)
    else
      match reply
      case Thrown(error) => SendCodeState(state.canInputCode, state.countdown, Some(Message(error)), false)
      case Response(ok, body) =>
        if ok then SendCodeState(true, ResendSeconds, None, true)
        else
          var data := body.GetOr(Body(false, None, None, None));
          SendCodeState(state.canInputCode, state.countdown, Some(Message(FirstText(data.message, data.detail, "Failed to send code"))), false)
  }

  /** One second of the countdown: one less, never below zero. */
  function Tick(countdown: int): (r: int)
    ensures r >= 0
    ensures countdown > 0 ==> r == countdown - 1
    ensures countdown <= 0 ==> r == 0
  {
    if countdown > 0 then countdown - 1 else 0
  }

  function Ticks(countdown: int, seconds: nat): int
    decreases seconds
  {
    if seconds == 0 then countdown else Ticks(Tick(countdown), seconds - 1)
  }

  /** After `n` seconds a countdown started at `c >= 0` shows `max(c - n, 0)`. */
  lemma {:induction false} TicksFloor(c: int, n: nat)
    requires c >= 0
    ensures Ticks(c, n) == if c - n > 0 then c - n else 0
    decreases n
  {
    if n > 0 {
      TicksFloor(Tick(c), n - 1);
    }
  }

  /** The send button is disabled while sending, registering, or counting down. */
  predicate ResendDisabled(isSending: bool, isRegistering: bool, countdown: int)
  {
    isSending || isRegistering || countdown > 0
  }

  /**
    The button stays disabled for 59 seconds after a successful send, and
    after 60 it is disabled exactly while a request is in flight.
   */
  lemma ResendAfterSixty(isSending: bool, isRegistering: bool)
    ensures ResendDisabled(isSending, isRegistering, Ticks(ResendSeconds, 59))
    ensures ResendDisabled(isSending, isRegistering, Ticks(ResendSeconds, 60)) <==> isSending || isRegistering
  {
    TicksFloor(ResendSeconds, 59);
    TicksFloor(ResendSeconds, 60);
  }

  /** The fields of the registration form. */
  datatype RegisterForm = RegisterForm(nickname: string, email: string, code: string, password: string, confirm: string)

  /** The submit checks, in order: all five fields, the PolyU domain, the repeated password. */
  function CheckRegister(f: RegisterForm): (r: Option<FormError>)
    ensures r == Some(RequiredFields) <==>
              f.nickname == "" || f.email == "" || f.password == "" || f.confirm == "" || f.code == ""
    ensures r == Some(PolyuEmail) <==>
              f.nickname != "" && f.email != "" && f.password != "" && f.confirm != "" && f.code != ""
              && !IsPolyuEmail(f.email)
    ensures r == Some(PasswordMismatch) <==>
              f.nickname != "" && f.email != "" && f.password != "" && f.confirm != "" && f.code != ""
              && IsPolyuEmail(f.email) && f.password != f.confirm
    ensures r.None? ==> IsPolyuEmail(f.email) && f.password == f.confirm && f.password != ""
  {
    if f.nickname == "" || f.email == "" || f.password == "" || f.confirm == "" || f.code == "" then Some(RequiredFields)
    else if !IsPolyuEmail(f.email) then Some(PolyuEmail)
    else if f.password != f.confirm then Some(PasswordMismatch)
    else None
  }

  const RegisterFailed: string := "Register failed"

  datatype RegisterOutcome<U> = RegisterRejected(error: FormError) | Registered(user: Option<U>)

  /**
    `handleSubmit` of the registration page: a failed check sends nothing;
    the account is made only by an OK response reporting success; any
    other response fails with its message, detail or "Register failed".
   */
  function SubmitRegister<U>(f: RegisterForm, reply: Reply<U>): (r: RegisterOutcome<U>)
    ensures CheckRegister(f).Some? ==> r == RegisterRejected(CheckRegister(f).value)
    ensures r.Registered? <==>
              CheckRegister(f).None? && reply.Response? && reply.ok && reply.body.Some? && reply.body.value.success
    ensures CheckRegister(f).None? && reply.Response? && r.RegisterRejected? ==>
              r.error.Message? && r.error.text != ""
  {
    match CheckRegister(f)
    case Some(e) => RegisterRejected(e)
    case None =>
      match reply
      case Thrown(error) => RegisterRejected(Message(error))
      case Response(ok, body) =>
        var data := body.GetOr(Body(false, None, Some(RegisterFailed), None));
        if !ok || !data.success then RegisterRejected(Message(FirstText(data.message, data.detail, RegisterFailed)))
        else Registered(data.user)
  }

  /** An address outside the PolyU domain can neither request a code nor register. */
  lemma NonPolyuNeverRegisters<U>(state: SendCodeState, f: RegisterForm, a: Reply<U>, b: Reply<U>)
    requires !IsPolyuEmail(f.email)
    ensures SendCode(state, f.email, a).error.Some? && !SendCode(state, f.email, a).noted
    ensures !SubmitRegister(f, b).Registered?
  {
  }
}
