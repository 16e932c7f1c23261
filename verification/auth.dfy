/** Registration and login (`routes/auth.js`): the input sanitiser, the three validators,
    the order in which registration applies them, and the uniform login failure. The
    user table is a map from user id; password hashing and comparison are parameters. */
module Auth {
  import opened Wrappers
  import opened JsText

  /** `sanitizeInput`: '' for anything that is not a string, else the trimmed text cut to
      `maxLength` code units. */
  function SanitizeInput(f: Field, maxLength: nat): (r: string)
    ensures Length(r) <= maxLength && |r| <= maxLength
    ensures !f.Text? ==> r == ""
    ensures f.Text? ==> r == CutUnits(Trim(f.s), maxLength)
    ensures f.Text? && Length(Trim(f.s)) <= maxLength ==> r == Trim(f.s)
  {
    if f.Text? then CutUnits(Trim(f.s), maxLength) else ""
  }

  /** The number of white-space characters `trim` drops at the front of `s`. */
  function Skipped(s: string): (n: nat)
    ensures n <= |s|
  {
    |s| - |TrimStart(s)|
  }

  /** The sanitised text is the piece of the input that starts after its leading white
      space, cut at the end only. */
  lemma SanitizeIsSlice(s: string, maxLength: nat)
    ensures Skipped(s) + |SanitizeInput(Text(s), maxLength)| <= |s|
    ensures s[Skipped(s)..Skipped(s) + |SanitizeInput(Text(s), maxLength)|] == SanitizeInput(Text(s), maxLength)
  {
    var t := TrimStart(s);
    var u := Trim(s);
    var r := SanitizeInput(Text(s), maxLength);
    assert r == CutUnits(u, maxLength);
    SliceChain(s, Skipped(s), t, u, r);
  }

  /** A prefix of a prefix of a suffix of `s` is the slice of `s` it covers. */
  lemma SliceChain(s: string, i: nat, t: string, u: string, r: string)
    requires i <= |s| && t == s[i..]
    requires |u| <= |t| && u == t[..|u|]
    requires |r| <= |u| && r == u[..|r|]
    ensures i + |r| <= |s| && s[i..i + |r|] == r
  {
    assert forall k :: 0 <= k < |r| ==> r[k] == u[k] == t[k] == s[i + k];
  }

  // ---------------------------------------------------------------------------
  // Validators
  // ---------------------------------------------------------------------------

  /** `[a-zA-Z0-9_]` */
  predicate IsWordChar(c: char) {
    ('a' <= c <= 'z') || ('A' <= c <= 'Z') || ('0' <= c <= '9') || c == '_'
  }

  /** The language of `^[a-zA-Z0-9_]{3,20}$`. */
  predicate IsUserId(s: string) {
    3 <= |s| <= 20 && forall i :: 0 <= i < |s| ==> IsWordChar(s[i])
  }

  /** `validateUserId`, scanning the characters. */
  method ValidateUserId(s: string) returns (ok: bool)
    ensures ok <==> IsUserId(s)
  {
    if |s| < 3 || |s| > 20 {
      return false;
    }
    var i := 0;
    while i < |s|
      invariant 0 <= i <= |s|
      invariant forall j :: 0 <= j < i ==> IsWordChar(s[j])
    {
      if !IsWordChar(s[i]) {
        return false;
      }
      i := i + 1;
    }
    return true;
  }

  predicate IsForbiddenNameChar(c: char) {
    c == '<' || c == '>' || c == '\'' || c == '"'
  }

  /** Names `validateUsername` accepts: 3 to 50 code units, none of `< > ' "`. */
  predicate IsUsername(s: string) {
    3 <= Length(s) <= 50 && forall i :: 0 <= i < |s| ==> !IsForbiddenNameChar(s[i])
  }

  /** `validateUsername`: rejects the empty name, bad lengths, then any dangerous char. */
  method ValidateUsername(s: string) returns (ok: bool)
    ensures ok <==> IsUsername(s)
    ensures s == "" ==> !ok
  {
    var length := Length(s);
    if s == "" || length < 3 || length > 50 {
      return false;
    }
    var i := 0;
    while i < |s|
      invariant 0 <= i <= |s|
      invariant forall j :: 0 <= j < i ==> !IsForbiddenNameChar(s[j])
    {
      if IsForbiddenNameChar(s[i]) {
        return false;
      }
      i := i + 1;
    }
    return true;
  }

  /** The bounds count code units: a letter followed by a character outside the Basic
      Multilingual Plane is three units long, so it is a valid name. */
  lemma AstralCharCountsTwice()
    ensures Length("a\U{1F600}") == 3 && IsUsername("a\U{1F600}")
  {
  }

  /** `validatePassword`: `password && password.length >= 8`. A string needs at least 8
      code units; another truthy value passes when its `length` property reaches 8. */
  function IsPassword(f: Field): (ok: bool)
    ensures ok ==> FieldTruthy(f)
    ensures f.Text? ==> (ok <==> Length(f.s) >= 8)
    ensures f.NonText? ==> (ok <==> f.truthy && f.length.Some? && f.length.value >= 8)
  {
    match f
    case Absent => false
    case Text(s) => s != "" && Length(s) >= 8
    case NonText(truthy, length) => truthy && length.Some? && length.value >= 8
  }

  /** Four characters outside the Basic Multilingual Plane are eight code units, enough
      for a password. */
  lemma AstralPasswordIsLongEnough()
    ensures IsPassword(Text("\U{1F600}\U{1F601}\U{1F602}\U{1F603}"))
  {
  }

  // ---------------------------------------------------------------------------
  // Register and login
  // ---------------------------------------------------------------------------

  datatype User = User(username: string, passwordHash: string, score: Option<int>, role: Option<string>)

  type Users = map<string, User>

  const UserIdMessage := "ユーザーIDは英数字とアンダースコアのみ、3-20文字で入力してください"
  const UsernameMessage := "ユーザー名は3-50文字で入力してください"
  const PasswordMessage := "パスワードは8文字以上で入力してください"
  const DuplicateMessage := "登録失敗: IDが既に使用されています"
  const BadCredentials := "ユーザーIDまたはパスワードが正しくありません"
  const LoginFailed := "ログインに失敗しました"
  const SessionMessage := "セッションエラーが発生しました"

  datatype RegisterOutcome =
    | Invalid(message: string)     // status 400
    | HashRejected                 // bcrypt.hash rejects a non-string password: no reply
    | Duplicate                    // insert refused, success false
    | Registered(users: Users)

  /** `POST /register`: sanitise the id (20) and name (50), validate id, name, password in
      that order, hash the password, then insert with score 0 and role 'user'. `hashed` is
      the bcrypt hash of the password. */
  function Register(users: Users, userid: Field, username: Field, password: Field, hashed: string)
    : (r: RegisterOutcome)
    ensures var id := SanitizeInput(userid, 20);
      var name := SanitizeInput(username, 50);
      && (r.Invalid? <==> !(IsUserId(id) && IsUsername(name) && IsPassword(password)))
      && (!IsUserId(id) ==> r == Invalid(UserIdMessage))
      && (IsUserId(id) && !IsUsername(name) ==> r == Invalid(UsernameMessage))
      && (IsUserId(id) && IsUsername(name) && !IsPassword(password) ==> r == Invalid(PasswordMessage))
      && (r.HashRejected? <==> !r.Invalid? && !password.Text?)
      && (r.Duplicate? <==> !r.Invalid? && password.Text? && id in users)
      && (r.Registered? ==>
            && password.Text? && id !in users
            && r.users == users[id := User(name, hashed, Some(0), Some("user"))])
  {
    var id := SanitizeInput(userid, 20);
    var name := SanitizeInput(username, 50);
    if !IsUserId(id) then Invalid(UserIdMessage)
    else if !IsUsername(name) then Invalid(UsernameMessage)
    else if !IsPassword(password) then Invalid(PasswordMessage)
    else if !password.Text? then HashRejected
    else if id in users then Duplicate
    else Registered(users[id := User(name, hashed, Some(0), Some("user"))])
  }

  /** Every registered account has a valid id and name and was given role 'user' and
      score 0; the existing accounts are untouched. */
  lemma RegisteredAccountsAreValid(users: Users, userid: Field, username: Field, password: Field, hashed: string)
    requires Register(users, userid, username, password, hashed).Registered?
    ensures var after := Register(users, userid, username, password, hashed).users;
      var id := SanitizeInput(userid, 20);
      && after.Keys == users.Keys + {id}
      && IsUserId(id) && IsUsername(after[id].username) && IsPassword(password)
      && after[id].role == Some("user") && after[id].score == Some(0)
      && forall k :: k in users ==> after[k] == users[k]
  {
  }

  datatype LoginOutcome =
    | Failure(message: string)
    | Success(userid: string, role: string, username: string)
    | NoReply     // the hash comparison throws on a non-string password

  /** `POST /login`. `users` is `None` when the account query fails, and `hasSession`
      says whether the request carries a session object. `matches(p, h)` is the bcrypt
      comparison of password `p` with hash `h`. */
  function Login(users: Option<Users>, userid: Field, password: Field, hasSession: bool,
                 matches: (string, string) -> bool)
    : (r: LoginOutcome)
    ensures var id := SanitizeInput(userid, 20);
      r.Success? <==>
        IsUserId(id) && password.Text? && password.s != "" && users.Some? && id in users.value
        && matches(password.s, users.value[id].passwordHash) && hasSession
    ensures r.Success? ==> r.userid == SanitizeInput(userid, 20)
    ensures r.Success? ==> r.role == OrElse(users.value[r.userid].role, "user") && r.role != ""
    ensures r.Failure? ==> r.message in {BadCredentials, LoginFailed, SessionMessage}
    ensures r == Failure(LoginFailed) <==>
      IsUserId(SanitizeInput(userid, 20)) && FieldTruthy(password) && users.None?
    ensures r == Failure(SessionMessage) ==> password.Text? && !hasSession
    ensures r.NoReply? <==>
      IsUserId(SanitizeInput(userid, 20)) && password.NonText? && password.truthy && users.Some?
  {
    var id := SanitizeInput(userid, 20);
    if !IsUserId(id) || !FieldTruthy(password) then Failure(BadCredentials)
    else if users.None? then Failure(LoginFailed)
    else if !password.Text? then NoReply
    else if id !in users.value then Failure(BadCredentials)
    else if !matches(password.s, users.value[id].passwordHash) then Failure(BadCredentials)
    else if !hasSession then Failure(SessionMessage)
    else Success(id, OrElse(users.value[id].role, "user"), users.value[id].username)
  }

  /** An account registration creates can log in with the password it was given: the
      password rule already excludes the empty password the login check refuses. */
  lemma RegisteredAccountLogsIn(users: Users, userid: Field, username: Field, password: Field, hashed: string,
                                matches: (string, string) -> bool)
    requires Register(users, userid, username, password, hashed).Registered?
    requires password.Text? && matches(password.s, hashed)
    ensures var after := Register(users, userid, username, password, hashed).users;
      Login(Some(after), userid, password, true, matches)
        == Success(SanitizeInput(userid, 20), "user", SanitizeInput(username, 50))
  {
  }

  /** A string password gets the same reply whether the id is malformed, unknown, or
      known with a different password: removing the account or replacing it by one the
      password does not match leaves the reply unchanged. */
  lemma LoginFailureIsUniform(users: Users, userid: Field, password: string, other: User, hasSession: bool,
                              matches: (string, string) -> bool)
    requires !matches(password, other.passwordHash)
    ensures var id := SanitizeInput(userid, 20);
      && Login(Some(users - {id}), userid, Text(password), hasSession, matches) == Failure(BadCredentials)
      && Login(Some(users[id := other]), userid, Text(password), hasSession, matches) == Failure(BadCredentials)
  {
  }
}
