/**
  The e-mail verification and registration flow of the accounts views, as a
  state machine over an explicit clock.

  The cache is a map from key to value and expiry instant; an entry is live
  while the clock is strictly before its expiry. The clock (`now`, seconds)
  and the random number behind a code are parameters.
 */
module Verification {
  import opened Wrappers
  import opened Text
  import opened Decimal
  import opened Accounts

  // ---------------------------------------------------------------------
  // Cache
  // ---------------------------------------------------------------------

  datatype CacheValue = Code(code: string) | Flag

  datatype Entry = Entry(value: CacheValue, expiresAt: int)

  type Cache = map<string, Entry>

  /** `cache.get(key)`: the value while its entry is live, else nothing. */
  function Get(c: Cache, key: string, now: int): (r: Option<CacheValue>)
    ensures r.Some? <==> key in c && now < c[key].expiresAt
    ensures r.Some? ==> r.value == c[key].value
  {
    if key in c && now < c[key].expiresAt then Some(c[key].value) else None
  }

  /** `cache.set(key, value, timeout)`: the entry lives for `timeout` seconds from `now`. */
  function Set(c: Cache, key: string, v: CacheValue, now: int, timeout: nat): Cache
  {
    c[key := Entry(v, now + timeout)]
  }

  /** `cache.delete(key)`. */
  function Delete(c: Cache, key: string): Cache
  {
    c - {key}
  }

  /** A set value can be read back for exactly `timeout` seconds. */
  lemma SetThenGet(c: Cache, key: string, v: CacheValue, now: int, timeout: nat, t: int)
    requires now <= t
    ensures Get(Set(c, key, v, now, timeout), key, t) == if t < now + timeout then Some(v) else None
  {
  }

  /** Setting one key leaves every other key as it was. */
  lemma SetOther(c: Cache, key: string, v: CacheValue, now: int, timeout: nat, other: string, t: int)
    requires other != key
    ensures Get(Set(c, key, v, now, timeout), other, t) == Get(c, other, t)
  {
  }

  /** Python truthiness of a cache read: an absent value, `False` or `""` is false. */
  predicate Truthy(r: Option<CacheValue>)
  {
    match r
    case None => false
    case Some(Flag) => true
    case Some(Code(s)) => s != ""
  }

  /** `c2` agrees with `c1` on every key outside `keys`. */
  ghost predicate SameExcept(c1: Cache, c2: Cache, keys: set<string>)
  {
    forall k :: k !in keys ==> (k in c1 <==> k in c2) && (k in c1 ==> c1[k] == c2[k])
  }

  // ---------------------------------------------------------------------
  // Keys
  // ---------------------------------------------------------------------

  const CodePrefix: string := "accounts:verify:code:"
  const ThrottlePrefix: string := "accounts:verify:throttle:"

  function CodeKey(email: string): string
  {
    CodePrefix + email
  }

  function ThrottleKey(email: string): string
  {
    ThrottlePrefix + email
  }

  /** A code key is never a throttle key, whatever the two addresses. */
  lemma KeysDisjoint(a: string, b: string)
    ensures CodeKey(a) != ThrottleKey(b)
  {
    assert CodeKey(a)[16] == 'c' && ThrottleKey(b)[16] == 't';
  }

  /** Different addresses have different code keys and different throttle keys. */
  lemma KeysInjective(a: string, b: string)
    ensures CodeKey(a) == CodeKey(b) ==> a == b
    ensures ThrottleKey(a) == ThrottleKey(b) ==> a == b
  {
    assert CodeKey(a)[|CodePrefix|..] == a && CodeKey(b)[|CodePrefix|..] == b;
    assert ThrottleKey(a)[|ThrottlePrefix|..] == a && ThrottleKey(b)[|ThrottlePrefix|..] == b;
  }

  // ---------------------------------------------------------------------
  // State, settings, responses
  // ---------------------------------------------------------------------

  /** The throttle window and the code lifetime, in seconds. */
  datatype Config = Config(requestInterval: nat, codeTtl: nat)

  const DefaultConfig: Config := Config(60, 60 * 15)

  datatype State = State(cache: Cache, dir: Directory, nextPk: nat)
  {
    /** The directory is consistent, the next key is positive, and every key in use is below it. */
    ghost predicate Valid()
    {
      dir.Valid() && nextPk >= 1 && forall pk :: pk in dir.users ==> pk < nextPk
    }
  }

  datatype Body =
    | Ok
    | Message(text: string)
    | FieldErrors(fields: seq<string>)
    | UserInfo(id: string, email: string, name: string)
      /** `{"success": true, "user": …}`: sign-in and registration wrap the user payload. */
    | SignedIn(user: Body)

  datatype Response = Response(status: nat, body: Body)

  datatype Outcome = Outcome(state: State, response: Response)

  const MsgWait: string := "Please wait before requesting another code."
  const MsgBadCode: string := "Invalid or expired verification code."
  const MsgTaken: string := "Email already registered."
  const MsgBadCredentials: string := "Invalid credentials"
  const MsgNotAuthenticated: string := "Not authenticated"

  // ---------------------------------------------------------------------
  // send_verification_code
  // ---------------------------------------------------------------------

  /** `secrets.randbelow(999999)` yields a number below this bound. */
  const CodeBound: nat := 999999

  /** `f"{r:06d}"`. */
  function IssueCode(r: nat): (code: string)
    requires r < CodeBound
    ensures |code| == 6 && AllDigits(code) && Value(code) == r
  {
    ZeroPadWidth(r, 6);
    ZeroPad(r, 6)
  }

  /** Distinct draws give distinct codes: the leading zeros are kept. */
  lemma IssueCodeInjective(r1: nat, r2: nat)
    requires r1 < CodeBound && r2 < CodeBound
    requires IssueCode(r1) == IssueCode(r2)
    ensures r1 == r2
  {
  }

  /**
    Validate the body, lower-case the address, refuse with 429 while the
    throttle flag is live, else store a fresh six-digit code for `codeTtl`
    seconds and the throttle flag for `requestInterval` seconds.
   */
  function SendVerificationCode(st: State, req: SendCodeRequest, now: int, r: nat, cfg: Config): (o: Outcome)
    requires r < CodeBound
    ensures ValidateSendCode(req).Failure? ==> o == Outcome(st, Response(400, FieldErrors(["email"])))
    ensures ValidateSendCode(req).Success? ==>
              var email := Lower(ValidateSendCode(req).value);
              if Truthy(Get(st.cache, ThrottleKey(email), now)) then
                o == Outcome(st, Response(429, Message(MsgWait)))
              else
                && o.response == Response(200, Ok)
                && o.state.dir == st.dir && o.state.nextPk == st.nextPk
                && CodeKey(email) in o.state.cache && ThrottleKey(email) in o.state.cache
                && o.state.cache[CodeKey(email)] == Entry(Code(IssueCode(r)), now + cfg.codeTtl)
                && o.state.cache[ThrottleKey(email)] == Entry(Flag, now + cfg.requestInterval)
                && SameExcept(st.cache, o.state.cache, {CodeKey(email), ThrottleKey(email)})
  {
    match ValidateSendCode(req)
    case Failure(fields) => Outcome(st, Response(400, FieldErrors(fields)))
    case Success(raw) =>
      var email := Lower(raw);
      if Truthy(Get(st.cache, ThrottleKey(email), now)) then
        Outcome(st, Response(429, Message(MsgWait)))
      else
        KeysDisjoint(email, email);
        var c1 := Set(st.cache, CodeKey(email), Code(IssueCode(r)), now, cfg.codeTtl);
        var c2 := Set(c1, ThrottleKey(email), Flag, now, cfg.requestInterval);
        Outcome(st.(cache := c2), Response(200, Ok))
  }

  // ---------------------------------------------------------------------
  // register
  // ---------------------------------------------------------------------

  /** `expected_code` is truthy and equal to the submitted code. */
  predicate CodeAccepted(c: Cache, email: string, code: string, now: int)
  {
    Truthy(Get(c, CodeKey(email), now)) && Get(c, CodeKey(email), now) == Some(Code(code))
  }

  /** `User.objects.filter(email=email).exists()`. */
  predicate EmailTaken(d: Directory, email: string)
  {
    exists pk :: pk in d.users && d.users[pk].email == email
  }

  /** Some user already holds the username that `create_user` would insert. */
  predicate UsernameTaken(d: Directory, username: string)
  {
    exists pk :: pk in d.users && d.users[pk].username == username
  }

  /**
    Validate the body, check the stored code (before anything else about
    the account), refuse an address already registered, then create the
    user (username and e-mail both the lower-cased address) and a profile
    named after the nickname, delete the code and answer 201.

    A username that exists under another e-mail makes `create_user` fail;
    the surrounding transaction is rolled back and the server answers 500.
   */
  function Register(st: State, req: RegisterRequest, now: int): (o: Outcome)
    ensures ValidateRegister(req).Failure? ==>
              o == Outcome(st, Response(400, FieldErrors(ValidateRegister(req).error)))
    ensures ValidateRegister(req).Success? ==>
              var data := ValidateRegister(req).value;
              var email := Lower(data.email);
              && (!CodeAccepted(st.cache, email, data.code, now) ==>
                    o == Outcome(st, Response(400, Message(MsgBadCode))))
              && (CodeAccepted(st.cache, email, data.code, now) && EmailTaken(st.dir, email) ==>
                    o == Outcome(st, Response(400, Message(MsgTaken))))
              && ((CodeAccepted(st.cache, email, data.code, now) && !EmailTaken(st.dir, email) &&
                   UsernameTaken(st.dir, email)) ==> o.state == st && o.response.status == 500)
    ensures o.response.status == 201 <==>
              && ValidateRegister(req).Success?
              && CodeAccepted(st.cache, Lower(ValidateRegister(req).value.email), ValidateRegister(req).value.code, now)
              && !EmailTaken(st.dir, Lower(ValidateRegister(req).value.email))
              && !UsernameTaken(st.dir, Lower(ValidateRegister(req).value.email))
    ensures o.response.status == 201 ==>
              var data := ValidateRegister(req).value;
              var email := Lower(data.email);
              var pk := st.nextPk;
              && o.response.body == SignedIn(UserInfo(NatToString(pk), email, data.nickname))
              && o.state.nextPk == pk + 1
              && o.state.dir.users == st.dir.users[pk := User(pk, email, email, data.password)]
              && o.state.dir.profiles == st.dir.profiles[pk := Profile(data.nickname, "")]
              && CodeKey(email) !in o.state.cache
              && SameExcept(st.cache, o.state.cache, {CodeKey(email)})
    ensures o.response.status != 201 ==> o.state == st
  {
    match ValidateRegister(req)
    case Failure(fields) => Outcome(st, Response(400, FieldErrors(fields)))
    case Success(data) =>
      var email := Lower(data.email);
      if !CodeAccepted(st.cache, email, data.code, now) then
        Outcome(st, Response(400, Message(MsgBadCode)))
      else if EmailTaken(st.dir, email) then
        Outcome(st, Response(400, Message(MsgTaken)))
      else if UsernameTaken(st.dir, email) then
        Outcome(st, Response(500, Message("")))
      else
        var pk := st.nextPk;
        var users := st.dir.users[pk := User(pk, email, email, data.password)];
        var profiles := st.dir.profiles[pk := Profile(data.nickname, "")];
        var st' := State(Delete(st.cache, CodeKey(email)), Directory(users, profiles), pk + 1);
        Outcome(st', Response(201, SignedIn(UserInfo(NatToString(pk), email, data.nickname))))
  }

  // ---------------------------------------------------------------------
  // login_view and me
  // ---------------------------------------------------------------------

  /** The `{id, email, name}` payload both views answer with. */
  function UserPayload(d: Directory, pk: nat): Body
    requires pk in d.users
  {
    UserInfo(NatToString(pk), d.users[pk].email, DisplayName(d, pk))
  }

  /**
    `authenticated` is what `authenticate` returned: the primary key of the
    user whose credentials matched, or nothing.
   */
  function Login(st: State, authenticated: Option<nat>): (r: Response)
    requires authenticated.Some? ==> authenticated.value in st.dir.users
    ensures authenticated.None? ==> r == Response(400, Message(MsgBadCredentials))
    ensures authenticated.Some? ==>
              && r.status == 200 && r.body.SignedIn? && r.body.user.UserInfo?
              && AllDigits(r.body.user.id) && Value(r.body.user.id) == authenticated.value
              && r.body.user.email == st.dir.users[authenticated.value].email
              && r.body.user.name == AuthorPayloadFor(st.dir, authenticated.value).name
  {
    match authenticated
    case None => Response(400, Message(MsgBadCredentials))
    case Some(pk) =>
      DisplayNameIsAuthorName(st.dir, pk);
      Response(200, SignedIn(UserPayload(st.dir, pk)))
  }

  /**
    `session` is the primary key of the signed-in user, if any. The answer
    is the flat user payload, without the `success` wrapper of sign-in.
   */
  function Me(st: State, session: Option<nat>): (r: Response)
    requires session.Some? ==> session.value in st.dir.users
    ensures session.None? ==> r == Response(401, Message(MsgNotAuthenticated))
    ensures session.Some? ==> r.status == 200 && r.body.UserInfo? && Login(st, session).body == SignedIn(r.body)
  {
    match session
    case None => Response(401, Message(MsgNotAuthenticated))
    case Some(pk) => Response(200, UserPayload(st.dir, pk))
  }

  // ---------------------------------------------------------------------
  // Properties of the flow
  // ---------------------------------------------------------------------

  /** Both steps keep the state valid. */
  lemma SendPreservesValid(st: State, req: SendCodeRequest, now: int, r: nat, cfg: Config)
    requires st.Valid() && r < CodeBound
    ensures SendVerificationCode(st, req, now, r, cfg).state.Valid()
  {
  }

  /** Adding a fresh user with a fresh username and a short display name keeps the state valid. */
  lemma AddUserValid(st: State, email: string, password: string, nickname: string)
    requires st.Valid() && !UsernameTaken(st.dir, email) && |nickname| <= DisplayNameMax
    ensures var pk := st.nextPk;
            State(st.cache, Directory(st.dir.users[pk := User(pk, email, email, password)],
                                      st.dir.profiles[pk := Profile(nickname, "")]), pk + 1).Valid()
  {
    var pk := st.nextPk;
    var users := st.dir.users[pk := User(pk, email, email, password)];
    assert pk !in st.dir.users;
    assert forall q :: q in st.dir.users ==> st.dir.users[q].username != email;
  }

  /** A state whose directory is `st`'s plus one fresh user and profile is valid, whatever its cache. */
  lemma AddedUserValid(st: State, o: State, email: string, password: string, nickname: string)
    requires st.Valid() && !UsernameTaken(st.dir, email) && |nickname| <= DisplayNameMax
    requires o.nextPk == st.nextPk + 1
    requires o.dir.users == st.dir.users[st.nextPk := User(st.nextPk, email, email, password)]
    requires o.dir.profiles == st.dir.profiles[st.nextPk := Profile(nickname, "")]
    ensures o.Valid()
  {
    AddUserValid(st, email, password, nickname);
    assert o.dir == Directory(o.dir.users, o.dir.profiles);
  }

  lemma RegisterPreservesValid(st: State, req: RegisterRequest, now: int)
    requires st.Valid()
    ensures Register(st, req, now).state.Valid()
  {
    var o := Register(st, req, now);
    if o.response.status == 201 {
      var data := ValidateRegister(req).value;
      AddedUserValid(st, o.state, Lower(data.email), data.password, data.nickname);
    }
  }

  /** Only the lower-cased address matters: differently-cased requests behave alike. */
  lemma SendIgnoresCase(st: State, a: SendCodeRequest, b: SendCodeRequest, now: int, r: nat, cfg: Config)
    requires r < CodeBound
    requires ValidateSendCode(a).Success? && ValidateSendCode(b).Success?
    requires Lower(ValidateSendCode(a).value) == Lower(ValidateSendCode(b).value)
    ensures SendVerificationCode(st, a, now, r, cfg) == SendVerificationCode(st, b, now, r, cfg)
  {
  }

  /** Within the throttle window a second request for the same address is refused. */
  lemma {:induction false} ThrottledWithinInterval(st: State, req1: SendCodeRequest, req2: SendCodeRequest,
                                                   t1: int, t2: int, r1: nat, r2: nat, cfg: Config)
    requires r1 < CodeBound && r2 < CodeBound
    requires SendVerificationCode(st, req1, t1, r1, cfg).response.status == 200
    requires ValidateSendCode(req2).Success?
    requires Lower(ValidateSendCode(req1).value) == Lower(ValidateSendCode(req2).value)
    requires t1 <= t2 < t1 + cfg.requestInterval
    ensures var st1 := SendVerificationCode(st, req1, t1, r1, cfg).state;
            SendVerificationCode(st1, req2, t2, r2, cfg) == Outcome(st1, Response(429, Message(MsgWait)))
  {
    var email := Lower(ValidateSendCode(req1).value);
    var st1 := SendVerificationCode(st, req1, t1, r1, cfg).state;
    assert st1.cache[ThrottleKey(email)] == Entry(Flag, t1 + cfg.requestInterval);
    assert Truthy(Get(st1.cache, ThrottleKey(email), t2));
  }

  /** Once the window has passed, the flag no longer blocks a new code. */
  lemma {:induction false} ThrottleLapses(st: State, req1: SendCodeRequest, req2: SendCodeRequest,
                                          t1: int, t2: int, r1: nat, r2: nat, cfg: Config)
    requires r1 < CodeBound && r2 < CodeBound
    requires SendVerificationCode(st, req1, t1, r1, cfg).response.status == 200
    requires ValidateSendCode(req2).Success?
    requires Lower(ValidateSendCode(req1).value) == Lower(ValidateSendCode(req2).value)
    requires t1 + cfg.requestInterval <= t2
    ensures SendVerificationCode(SendVerificationCode(st, req1, t1, r1, cfg).state, req2, t2, r2, cfg)
              .response.status == 200
  {
    var email := Lower(ValidateSendCode(req1).value);
    var st1 := SendVerificationCode(st, req1, t1, r1, cfg).state;
    assert Get(st1.cache, ThrottleKey(email), t2).None?;
  }

  /**
    The code just sent, entered before it expires for an address not yet
    registered, creates the account.
   */
  lemma {:induction false} SendThenRegister(st: State, sreq: SendCodeRequest, rreq: RegisterRequest,
                                            t1: int, t2: int, r: nat, cfg: Config)
    requires r < CodeBound
    requires SendVerificationCode(st, sreq, t1, r, cfg).response.status == 200
    requires ValidateRegister(rreq).Success?
    requires Lower(ValidateRegister(rreq).value.email) == Lower(ValidateSendCode(sreq).value)
    requires ValidateRegister(rreq).value.code == IssueCode(r)
    requires t1 <= t2 < t1 + cfg.codeTtl
    requires !UsernameTaken(st.dir, Lower(ValidateSendCode(sreq).value))
    requires !EmailTaken(st.dir, Lower(ValidateSendCode(sreq).value))
    ensures Register(SendVerificationCode(st, sreq, t1, r, cfg).state, rreq, t2).response.status == 201
  {
    var email := Lower(ValidateSendCode(sreq).value);
    var st1 := SendVerificationCode(st, sreq, t1, r, cfg).state;
    assert Get(st1.cache, CodeKey(email), t2) == Some(Code(IssueCode(r)));
    assert CodeAccepted(st1.cache, email, IssueCode(r), t2);
  }

  /** After the code's lifetime it is refused, however correct it is. */
  lemma {:induction false} CodeExpires(st: State, sreq: SendCodeRequest, rreq: RegisterRequest,
                                       t1: int, t2: int, r: nat, cfg: Config)
    requires r < CodeBound
    requires SendVerificationCode(st, sreq, t1, r, cfg).response.status == 200
    requires ValidateRegister(rreq).Success?
    requires Lower(ValidateRegister(rreq).value.email) == Lower(ValidateSendCode(sreq).value)
    requires t1 + cfg.codeTtl <= t2
    ensures var st1 := SendVerificationCode(st, sreq, t1, r, cfg).state;
            Register(st1, rreq, t2) == Outcome(st1, Response(400, Message(MsgBadCode)))
  {
    var email := Lower(ValidateSendCode(sreq).value);
    var st1 := SendVerificationCode(st, sreq, t1, r, cfg).state;
    assert Get(st1.cache, CodeKey(email), t2).None?;
  }

  /** A code that has registered an account cannot register another. */
  lemma {:induction false} CodeSingleUse(st: State, req1: RegisterRequest, req2: RegisterRequest, t1: int, t2: int)
    requires Register(st, req1, t1).response.status == 201
    requires ValidateRegister(req2).Success?
    requires Lower(ValidateRegister(req2).value.email) == Lower(ValidateRegister(req1).value.email)
    ensures var st1 := Register(st, req1, t1).state;
            Register(st1, req2, t2) == Outcome(st1, Response(400, Message(MsgBadCode)))
  {
    var email := Lower(ValidateRegister(req1).value.email);
    var st1 := Register(st, req1, t1).state;
    assert CodeKey(email) !in st1.cache;
    assert Get(st1.cache, CodeKey(email), t2).None?;
  }

  /**
    The account a registration creates signs in under the nickname it was
    registered with, and both answers carry the same payload.
   */
  lemma {:induction false} RegisterThenLogin(st: State, req: RegisterRequest, now: int)
    requires st.Valid()
    requires Register(st, req, now).response.status == 201
    ensures var o := Register(st, req, now);
            && st.nextPk in o.state.dir.users
            && Login(o.state, Some(st.nextPk)).body == o.response.body
  {
    var o := Register(st, req, now);
    var pk := st.nextPk;
    assert o.state.dir.profiles[pk].displayName == ValidateRegister(req).value.nickname;
  }
}
