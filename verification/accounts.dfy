/**
  Accounts: users, profiles, the Author payload the front end consumes,
  and the request bodies of the send-code and register endpoints.

  A user's primary key is a natural number; the user store is a map from
  primary key to user, and the profile store a map from primary key to
  profile (a one-to-one relation, so a user has at most one profile).
 */
module Accounts {
  import opened Wrappers
  import opened Text
  import opened Decimal

  datatype User = User(pk: nat, username: string, email: string, password: string)

  /** `display_name` may be blank; `avatar_url` may be blank. */
  datatype Profile = Profile(displayName: string, avatarUrl: string)

  /** The front end's `Author` type: `{id, name, avatar}`. */
  datatype Author = Author(id: string, name: string, avatar: Option<string>)

  datatype Directory = Directory(users: map<nat, User>, profiles: map<nat, Profile>)
  {
    /**
      Keys agree with the stored primary keys, every profile belongs to a
      user, usernames are unique (Django's auth table enforces it),
      display names fit their 100-character column, and keys start at 1,
      as an auto-incremented primary key does.
     */
    ghost predicate Valid()
    {
      && (forall pk :: pk in users ==> users[pk].pk == pk)
      && profiles.Keys <= users.Keys
      && (forall a, b :: a in users && b in users && users[a].username == users[b].username ==> a == b)
      && (forall pk :: pk in profiles ==> |profiles[pk].displayName| <= DisplayNameMax)
      && (forall pk :: pk in users ==> pk >= 1)
    }
  }

  const DisplayNameMax: nat := 100

  /** Python's truthiness of a nullable key column (`if obj.x_id:`): neither `None` nor `0`. */
  predicate KeyTruthy(k: Option<nat>)
  {
    k.Some? && k.value != 0
  }

  /** In a consistent directory, a key naming a user is truthy. */
  lemma UserKeyTruthy(d: Directory, k: Option<nat>)
    requires d.Valid() && k.Some? && k.value in d.users
    ensures KeyTruthy(k)
  {
  }

  /** Python's `a or b` on strings: `a` unless it is empty. */
  function OrElse(a: string, b: string): string
  {
    if a != "" then a else b
  }

  /** `str(profile)`: the display name, falling back to the username. */
  function ProfileText(u: User, p: Profile): string
  {
    OrElse(p.displayName, u.username)
  }

  /**
    `Profile.author_payload`: the id is the decimal text of the primary key,
    the name prefers the display name over the username, and a blank avatar
    URL becomes `None`.
   */
  function AuthorPayload(u: User, p: Profile): (a: Author)
    ensures AllDigits(a.id) && Value(a.id) == u.pk
    ensures p.displayName != "" ==> a.name == p.displayName
    ensures p.displayName == "" ==> a.name == u.username
    ensures a.avatar.None? <==> p.avatarUrl == ""
    ensures a.avatar.Some? ==> a.avatar.value == p.avatarUrl
  {
    Author(NatToString(u.pk), OrElse(p.displayName, u.username),
           if p.avatarUrl != "" then Some(p.avatarUrl) else None)
  }

  /** Two users' payloads carry the same id only when they are the same user. */
  lemma AuthorIdInjective(u: User, p: Profile, v: User, q: Profile)
    requires AuthorPayload(u, p).id == AuthorPayload(v, q).id
    ensures u.pk == v.pk
  {
    NatToStringInjective(u.pk, v.pk);
  }

  /** The payload's name is the profile's textual form. */
  lemma PayloadNameIsProfileText(u: User, p: Profile)
    ensures AuthorPayload(u, p).name == ProfileText(u, p)
  {
  }

  /**
    `_author_payload_for(user)`: the profile's payload, or, for a user
    without a profile, the primary key, the username and no avatar.
   */
  function AuthorPayloadFor(d: Directory, pk: nat): (a: Author)
    requires pk in d.users
    ensures pk in d.profiles ==> a == AuthorPayload(d.users[pk], d.profiles[pk])
    ensures pk !in d.profiles ==> a.id == NatToString(pk) && a.name == d.users[pk].username && a.avatar.None?
  {
    if pk in d.profiles then AuthorPayload(d.users[pk], d.profiles[pk])
    else Author(NatToString(pk), d.users[pk].username, None)
  }

  /** The fallback is exactly the payload a blank profile would produce. */
  lemma FallbackIsBlankProfile(d: Directory, pk: nat)
    requires d.Valid() && pk in d.users && pk !in d.profiles
    ensures AuthorPayloadFor(d, pk) == AuthorPayload(d.users[pk], Profile("", ""))
  {
  }

  /** `getattr(user.profile, "display_name", None) or user.get_username()`. */
  function DisplayName(d: Directory, pk: nat): (name: string)
    requires pk in d.users
    ensures pk in d.profiles && d.profiles[pk].displayName != "" ==> name == d.profiles[pk].displayName
    ensures (pk !in d.profiles || d.profiles[pk].displayName == "") ==> name == d.users[pk].username
  {
    if pk in d.profiles then OrElse(d.profiles[pk].displayName, d.users[pk].username)
    else d.users[pk].username
  }

  /** The login/me name always agrees with the Author payload's name. */
  lemma DisplayNameIsAuthorName(d: Directory, pk: nat)
    requires pk in d.users
    ensures DisplayName(d, pk) == AuthorPayloadFor(d, pk).name
  {
  }

  // ---------------------------------------------------------------------
  // Request validation, as Django REST framework fields do it.
  // ---------------------------------------------------------------------

  datatype FieldError = Required | Blank | TooLong(max: nat) | InvalidEmail

  /**
    A required `CharField`: a missing value is an error; surrounding
    whitespace is removed with Python's `str.strip()`; a blank value is
    rejected; the maximum length, if any, is checked on the stripped text.
   */
  function CharField(raw: Option<string>, maxLength: Option<nat>): (r: Result<string, FieldError>)
    ensures raw.None? ==> r == Failure(Required)
    ensures raw.Some? && AllPySpace(raw.value) ==> r == Failure(Blank)
    ensures r.Success? ==> raw.Some? && r.value == Strip(raw.value) && r.value != ""
    ensures r.Success? && maxLength.Some? ==> |r.value| <= maxLength.value
    ensures (raw.Some? && !AllPySpace(raw.value) && maxLength.Some? && |Strip(raw.value)| > maxLength.value)
              ==> r == Failure(TooLong(maxLength.value))
    ensures (raw.Some? && !AllPySpace(raw.value) && (maxLength.None? || |Strip(raw.value)| <= maxLength.value))
              ==> r.Success?
  {
    match raw
    case None => Failure(Required)
    case Some(s) =>
      var t := Strip(s);
      if t == "" then Failure(Blank)
      else if maxLength.Some? && |t| > maxLength.value then Failure(TooLong(maxLength.value))
      else Success(t)
  }

  /** Python whitespace around a value, the separators U+001C to U+001F included, does not change how it is read. */
  lemma CharFieldIgnoresSurrounding(p: string, s: string, q: string, maxLength: Option<nat>)
    requires AllPySpace(p) && AllPySpace(q)
    ensures CharField(Some(p + s + q), maxLength) == CharField(Some(s), maxLength)
  {
    StripSurrounding(p, s, q);
  }

  /** The file separator U+001C alone is blank: `str.strip` removes it. */
  lemma SeparatorBlank(maxLength: Option<nat>)
    ensures CharField(Some("\U{1C}"), maxLength) == Failure(Blank)
  {
    assert AllPySpace("\U{1C}");
  }

  /** Django's e-mail validator refuses addresses longer than this (section 3 of RFC 3696). */
  const EmailMaxLength: nat := 320

  predicate IsAlnum(c: char)
  {
    'a' <= c <= 'z' || 'A' <= c <= 'Z' || '0' <= c <= '9'
  }

  /** A character of an unquoted local part: a letter, a digit or one of ``!#$%&'*+-/=?^_`{|}~``. */
  predicate IsAtomChar(c: char)
  {
    IsAlnum(c) || c in "!#$%&'*+-/=?^_`{|}~"
  }

  /** A dot-atom: one or more non-empty runs of atom characters, joined by single dots. */
  predicate IsDotAtom(s: string)
  {
    var parts := Split(s, ".");
    forall i :: 0 <= i < |parts| ==> |parts[i]| > 0 && forall j :: 0 <= j < |parts[i]| ==> IsAtomChar(parts[i][j])
  }

  predicate IsLabelChar(c: char)
  {
    IsAlnum(c) || c == '-'
  }

  /** A host label: 1 to 63 letters, digits and hyphens, starting and ending with a letter or digit. */
  predicate IsLabel(s: string)
  {
    1 <= |s| <= 63 && IsAlnum(s[0]) && IsAlnum(s[|s| - 1]) && forall i :: 0 <= i < |s| ==> IsLabelChar(s[i])
  }

  /** The last label: 2 to 63 letters, digits and hyphens, not ending with a hyphen. */
  predicate IsTopLabel(s: string)
  {
    2 <= |s| <= 63 && s[|s| - 1] != '-' && forall i :: 0 <= i < |s| ==> IsLabelChar(s[i])
  }

  /** At least one label and a dot before the last label. */
  predicate IsHostname(s: string)
  {
    var parts := Split(s, ".");
    && |parts| >= 2
    && (forall i :: 0 <= i < |parts| - 1 ==> IsLabel(parts[i]))
    && IsTopLabel(parts[|parts| - 1])
  }

  /**
    Django's `EmailValidator` on an ASCII address: at most 320 characters;
    the text before the last `@` is a dot-atom; the text after it is
    `localhost` or a host name.
   */
  predicate EmailShape(s: string)
  {
    && |s| <= EmailMaxLength
    && match LastIndexOfChar(s, '@')
       case None => false
       case Some(i) => IsDotAtom(s[..i]) && IsDomain(s[i + 1..])
  }

  /** The domain part: the allowed name `localhost`, or a host name. */
  predicate IsDomain(s: string)
  {
    s == "localhost" || IsHostname(s)
  }

  /** A character of a split-then-joined text is a separator character or a character of a part. */
  lemma SplitChar(s: string, sep: string, k: nat)
    requires |sep| > 0 && k < |s|
    ensures s[k] in sep || exists i, j :: 0 <= i < |Split(s, sep)| && 0 <= j < |Split(s, sep)[i]| && s[k] == Split(s, sep)[i][j]
  {
    JoinSplit(s, sep);
    JoinChar(Split(s, sep), sep, k);
  }

  /** Every character of a dot-atom is an atom character or a dot. */
  lemma DotAtomChar(s: string, j: nat)
    requires IsDotAtom(s) && j < |s|
    ensures IsAtomChar(s[j]) || s[j] == '.'
  {
    SplitChar(s, ".", j);
  }

  /** Every character of a host name is a label character or a dot. */
  lemma HostnameChar(s: string, j: nat)
    requires IsHostname(s) && j < |s|
    ensures IsLabelChar(s[j]) || s[j] == '.'
  {
    var parts := Split(s, ".");
    SplitChar(s, ".", j);
    if s[j] != '.' {
      var a, b :| 0 <= a < |parts| && 0 <= b < |parts[a]| && s[j] == parts[a][b];
      if a < |parts| - 1 {
        assert IsLabel(parts[a]);
      }
    }
  }

  /** Every character of a domain part is a label character or a dot. */
  lemma DomainChar(s: string, j: nat)
    requires IsDomain(s) && j < |s|
    ensures IsLabelChar(s[j]) || s[j] == '.'
  {
    if s == "localhost" {
      assert forall i :: 0 <= i < |s| ==> IsAlnum(s[i]);
    } else {
      HostnameChar(s, j);
    }
  }

  /** No character of a dot-atom prefix is an `@` or whitespace. */
  lemma LocalPartChars(s: string, k: nat)
    requires k <= |s| && IsDotAtom(s[..k])
    ensures forall j :: 0 <= j < k ==> s[j] != '@' && !IsPySpace(s[j])
  {
    forall j | 0 <= j < k
      ensures s[j] != '@' && !IsPySpace(s[j])
    {
      assert s[j] == s[..k][j];
      DotAtomChar(s[..k], j);
    }
  }

  /** No character of a domain suffix is an `@` or whitespace. */
  lemma DomainPartChars(s: string, k: nat)
    requires k < |s| && IsDomain(s[k + 1..])
    ensures forall j :: k < j < |s| ==> s[j] != '@' && !IsPySpace(s[j])
  {
    forall j | k < j < |s|
      ensures s[j] != '@' && !IsPySpace(s[j])
    {
      assert s[j] == s[k + 1..][j - k - 1];
      DomainChar(s[k + 1..], j - k - 1);
    }
  }

  /** An accepted address holds exactly one `@` and no Python whitespace. */
  lemma EmailShapeChars(s: string)
    requires EmailShape(s)
    ensures exists k :: 0 <= k < |s| && s[k] == '@' && forall j :: 0 <= j < |s| && j != k ==> s[j] != '@'
    ensures forall j :: 0 <= j < |s| ==> !IsPySpace(s[j])
  {
    var k := LastIndexOfChar(s, '@').value;
    LocalPartChars(s, k);
    DomainPartChars(s, k);
  }

  /** An address with two `@` signs is refused, although a bare `@` test would pass it (`a@b@c.com`). */
  lemma TwoAtsRefused(s: string, a: nat, b: nat)
    requires a < b < |s| && s[a] == '@' && s[b] == '@'
    ensures !EmailShape(s)
  {
    if EmailShape(s) {
      EmailShapeChars(s);
    }
  }

  /** An address with whitespace is refused, although a bare `@` test would pass it (`a b@c.com`). */
  lemma SpaceRefused(s: string, a: nat)
    requires a < |s| && IsPySpace(s[a])
    ensures !EmailShape(s)
  {
    if EmailShape(s) {
      EmailShapeChars(s);
    }
  }

  /** An `EmailField`: a required character field whose trimmed text passes the e-mail validator. */
  function EmailField(raw: Option<string>): (r: Result<string, FieldError>)
    ensures r.Success? <==> CharField(raw, None).Success? && EmailShape(CharField(raw, None).value)
    ensures r.Success? ==> r.value == CharField(raw, None).value && '@' in r.value
  {
    match CharField(raw, None)
    case Failure(e) => Failure(e)
    case Success(t) => if EmailShape(t) then Success(t) else Failure(InvalidEmail)
  }

  /** An address is read after stripping: surrounding Python whitespace changes nothing. */
  lemma EmailIgnoresSurrounding(p: string, s: string, q: string)
    requires AllPySpace(p) && AllPySpace(q)
    ensures EmailField(Some(p + s + q)) == EmailField(Some(s))
  {
    CharFieldIgnoresSurrounding(p, s, q, None);
  }

  predicate Distinct(names: seq<string>)
  {
    forall i, j :: 0 <= i < j < |names| ==> names[i] != names[j]
  }

  /**
    The names of the fields whose results are failures, in declaration
    order: like the keys of `serializer.errors`, a declared field is named
    exactly when it failed.
   */
  function FailedFields(names: seq<string>, results: seq<Result<string, FieldError>>): (bad: seq<string>)
    requires |names| == |results| && Distinct(names)
    ensures forall n :: n in bad ==> n in names
    ensures forall i :: 0 <= i < |names| ==> (names[i] in bad <==> results[i].Failure?)
    ensures bad == [] <==> forall i :: 0 <= i < |results| ==> results[i].Success?
    decreases |names|
  {
    if |names| == 0 then []
    else
      var rest := FailedFields(names[1..], results[1..]);
      assert forall i :: 1 <= i < |names| ==> names[i] == names[1..][i - 1] && results[i] == results[1..][i - 1];
      (if results[0].Failure? then [names[0]] else []) + rest
  }

  /** `SendCodeSerializer`: `{email}`. */
  datatype SendCodeRequest = SendCodeRequest(email: Option<string>)

  function ValidateSendCode(req: SendCodeRequest): (r: Result<string, seq<string>>)
    ensures r.Success? <==> EmailField(req.email).Success?
    ensures r.Success? ==> r.value == EmailField(req.email).value
    ensures r.Failure? ==> r.error == ["email"]
  {
    match EmailField(req.email)
    case Success(e) => Success(e)
    case Failure(_) => Failure(["email"])
  }

  /** `RegisterSerializer`: `{nickname, email, verification_code, password}`. */
  datatype RegisterRequest = RegisterRequest(
    nickname: Option<string>, email: Option<string>,
    verificationCode: Option<string>, password: Option<string>)

  datatype RegisterData = RegisterData(nickname: string, email: string, code: string, password: string)

  const NicknameMax: nat := 100
  const CodeMax: nat := 16

  /**
    All four fields are validated and exactly the failing fields are reported.
    Like every `CharField`, the password is stripped too.
   */
  function ValidateRegister(req: RegisterRequest): (r: Result<RegisterData, seq<string>>)
    ensures r.Success? <==>
              && CharField(req.nickname, Some(NicknameMax)).Success?
              && EmailField(req.email).Success?
              && CharField(req.verificationCode, Some(CodeMax)).Success?
              && CharField(req.password, None).Success?
    ensures r.Success? ==>
              && r.value.nickname == Strip(req.nickname.value) && |r.value.nickname| <= NicknameMax
              && r.value.email == EmailField(req.email).value
              && r.value.code == Strip(req.verificationCode.value) && |r.value.code| <= CodeMax
              && r.value.password == Strip(req.password.value)
    ensures r.Failure? ==> r.error != [] && forall n :: n in r.error ==> n in RegisterFields
    ensures r.Failure? ==>
              && ("nickname" in r.error <==> CharField(req.nickname, Some(NicknameMax)).Failure?)
              && ("email" in r.error <==> EmailField(req.email).Failure?)
              && ("verification_code" in r.error <==> CharField(req.verificationCode, Some(CodeMax)).Failure?)
              && ("password" in r.error <==> CharField(req.password, None).Failure?)
  {
    var results := RegisterResults(req);
    RegisterFieldsDistinct();
    var bad := FailedFields(RegisterFields, results);
    if bad == [] then
      assert results[0].Success? && results[1].Success? && results[2].Success? && results[3].Success?;
      Success(RegisterData(results[0].value, results[1].value, results[2].value, results[3].value))
    else
      Failure(bad)
  }

  /** The four field results, in the order of `RegisterFields`. */
  function RegisterResults(req: RegisterRequest): (rs: seq<Result<string, FieldError>>)
    ensures |rs| == |RegisterFields|
    ensures rs[0] == CharField(req.nickname, Some(NicknameMax)) && rs[1] == EmailField(req.email)
    ensures rs[2] == CharField(req.verificationCode, Some(CodeMax)) && rs[3] == CharField(req.password, None)
  {
    [CharField(req.nickname, Some(NicknameMax)), EmailField(req.email),
     CharField(req.verificationCode, Some(CodeMax)), CharField(req.password, None)]
  }

  lemma RegisterFieldsDistinct()
    ensures Distinct(RegisterFields) && |RegisterFields| == 4
    ensures RegisterFields[0] == "nickname" && RegisterFields[1] == "email"
    ensures RegisterFields[2] == "verification_code" && RegisterFields[3] == "password"
  {
  }

  const RegisterFields: seq<string> := ["nickname", "email", "verification_code", "password"]
}
