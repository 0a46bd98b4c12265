/** controllers/authController.js: registration, login, access-token
    refresh and logout, each a step from one store to the next. Signing and
    hashing are the abstractions of the `Tokens` and `Crypto` modules; the
    clock reading `now` and the fresh `userId` are inputs. */
module Auth {
  import opened Base
  import opened Crypto
  import opened Principals
  import opened Tokens
  import opened Collections
  import opened Http
  import opened Database
  import Users

  /** The body of `POST /api/auth/register`. */
  datatype RegisterForm = RegisterForm(
    firstName: string, lastName: string, email: string, password: string, role: Option<string>)

  datatype AuthReply =
    | Registered(message: string, userId: UserId)
      // the JSON body of a login, plus the value of the `refreshToken` cookie it sets
    | LoggedIn(userId: UserId, email: string, role: Role, accessToken: Token, cookie: Token)
    | Refreshed(accessToken: Token)
      // the message, plus the value the `refreshToken` cookie is overwritten with
    | LoggedOut(message: string, cookie: Token)

  const UserExists := "User already exists"
  const InvalidCredentials := "Invalid email or password"
  const TokenMissing := "Refresh token not found"
  const TokenInvalid := "Invalid refresh token"
  const LogoutDone := "Logged out successfully"

  /** The user a registration form creates, before the pre-save hook. */
  function Registrant(form: RegisterForm, userId: UserId, role: Role): Users.User
  {
    Users.NewUser(userId, form.firstName, form.lastName, form.email, form.password, role)
  }

  /** `registerUser`: an e-mail already on file is refused with 400;
      otherwise the new user (role defaulting to `customer`) is validated,
      its password hashed and the document appended, answering 201 with the
      new `userId`. That happens exactly when the role is one of the enum
      values and the new document passes the validators and both unique
      indexes. Whenever it does not answer 201 the store is unchanged. */
  function Register(st: Store, form: RegisterForm, freshId: UserId): (s: Step<AuthReply>)
    ensures UserByEmail(st.users, form.email).Some? ==> s == Step(st, Refuse(400, UserExists))
    ensures !s.outcome.Reply? ==> s.store == st
    ensures UserByEmail(st.users, form.email).None? ==>
              (s.outcome.Reply? <==>
                 && ParseRole(form.role).Some?
                 && var u := Registrant(form, freshId, ParseRole(form.role).value);
                 && Users.Conforms(u) && !Clashes(st.users, None, u, Users.IdOf) && !Clashes(st.users, None, u, Users.EmailOf))
    ensures s.outcome.Reply? ==>
              && UserByEmail(st.users, form.email).None?
              && ParseRole(form.role).Some?
              && s.outcome == Reply(201, Registered("User registered successfully", freshId))
              && s.store == st.(users := st.users + [Users.PreSave(Registrant(form, freshId, ParseRole(form.role).value))])
  {
    if UserByEmail(st.users, form.email).Some? then Step(st, Refuse(400, UserExists))
    else
      match ParseRole(form.role)
      case None => Step(st, Forward(ValidationError("User", "role")))
      case Some(role) =>
        match SaveUser(st, None, Registrant(form, freshId, role))
        case Err(e) => Step(st, Forward(e))
        case Ok(st') => Step(st', Reply(201, Registered("User registered successfully", freshId)))
  }

  /** `loginUser`: on a known e-mail with a matching password, mint an access
      token and a refresh token, store the refresh token's hash in place of
      whatever was there, and answer with the user's id, e-mail and role and
      the access token; the refresh token goes into the cookie. An unknown
      e-mail and a wrong password get the same 401 and change nothing. */
  function Login(st: Store, email: string, password: string, now: int, life: Lifetimes): (s: Step<AuthReply>)
    ensures UserByEmail(st.users, email).None? ==> s == Step(st, Refuse(401, InvalidCredentials))
    ensures (UserByEmail(st.users, email).Some?
             && !Users.MatchPassword(st.users[UserByEmail(st.users, email).value], password))
            ==> s == Step(st, Refuse(401, InvalidCredentials))
    ensures !s.outcome.Reply? ==> s.store == st
    ensures s.outcome.Reply? ==> LoginWrote(st, s, email, password, now, life)
  {
    match UserByEmail(st.users, email)
    case None => Step(st, Refuse(401, InvalidCredentials))
    case Some(i) =>
      var u := st.users[i];
      if !Users.MatchPassword(u, password) then Step(st, Refuse(401, InvalidCredentials))
      else
        var access := IssueAccess(u.userId, u.role, now, life);
        var refresh := IssueRefresh(u.userId, st.issued, now, life);
        match SaveUser(st.(issued := st.issued + 1), Some(i), u.(refreshToken := Some(Hash(refresh))))
        case Err(e) => Step(st, Forward(e))
        case Ok(st') => Step(st', Reply(200, LoggedIn(u.userId, u.email, u.role, access, refresh)))
  }

  /** What a successful login did: the user found by e-mail, whose password
      matched, now holds the hash of a freshly numbered refresh token and
      nothing else about any user changed; the reply carries that user's id,
      e-mail and role, a new access token, and the refresh token as cookie. */
  ghost predicate LoginWrote(st: Store, s: Step<AuthReply>, email: string, password: string, now: int, life: Lifetimes)
  {
    && UserByEmail(st.users, email).Some?
    && var i := UserByEmail(st.users, email).value;
    && var u := st.users[i];
    && var refresh := IssueRefresh(u.userId, st.issued, now, life);
    && Users.MatchPassword(u, password)
    && s.store == st.(users := st.users[i := u.(refreshToken := Some(Hash(refresh)))], issued := st.issued + 1)
    && s.outcome == Reply(200, LoggedIn(u.userId, u.email, u.role, IssueAccess(u.userId, u.role, now, life), refresh))
  }

  /** A refresh token is accepted at time `now` when it verifies and the user
      it names has the hash of exactly this token on file. */
  predicate Refreshable(st: Store, token: Token, now: int)
  {
    match VerifyRefresh(token, now)
    case None => false
    case Some(id) =>
      match UserById(st.users, id)
      case None => false
      case Some(i) => st.users[i].refreshToken.Some? && Compare(token, st.users[i].refreshToken.value)
  }

  /** `Refreshable` as bcrypt really computes it: the stored digest was made
      from the first 72 bytes of the token issued at login, and the
      presented token is cut the same way before it is compared. Every token
      the intended check accepts is accepted here too. */
  predicate RefreshableAsWritten(st: Store, token: Token, now: int): (r: bool)
    ensures Refreshable(st, token, now) ==> r
  {
    match VerifyRefresh(token, now)
    case None => false
    case Some(id) =>
      match UserById(st.users, id)
      case None => false
      case Some(i) =>
        && st.users[i].refreshToken.Some?
        && Compare(BcryptPrefix(token), Hash(BcryptPrefix(st.users[i].refreshToken.value.of)))
  }

  /** `refreshToken`: no cookie (or an empty one) is 401; a cookie that does
      not verify, names no user, names a user with no stored hash, or does
      not match the stored hash is 403; otherwise a new access token for the
      user named in the token. The store is never written. */
  function Refresh(st: Store, cookie: Option<Token>, now: int, life: Lifetimes): (s: Step<AuthReply>)
    ensures s.store == st
    ensures !Presented(cookie) <==> s.outcome == Refuse(401, TokenMissing)
    ensures Presented(cookie) && !Refreshable(st, cookie.value, now) ==> s.outcome == Refuse(403, TokenInvalid)
    ensures s.outcome.Reply? <==> Presented(cookie) && Refreshable(st, cookie.value, now)
    ensures s.outcome.Reply? ==>
              var i := UserById(st.users, cookie.value.subject).value;
              s.outcome == Reply(200, Refreshed(IssueAccess(cookie.value.subject, st.users[i].role, now, life)))
  {
    if !Presented(cookie) then Step(st, Refuse(401, TokenMissing))
    else
      var token := cookie.value;
      match VerifyRefresh(token, now)
      case None => Step(st, Refuse(403, TokenInvalid))
      case Some(id) =>
        match UserById(st.users, id)
        case None => Step(st, Refuse(403, TokenInvalid))
        case Some(i) =>
          var u := st.users[i];
          if u.refreshToken.None? then Step(st, Refuse(403, TokenInvalid))
          else if !Compare(token, u.refreshToken.value) then Step(st, Refuse(403, TokenInvalid))
          else Step(st, Reply(200, Refreshed(IssueAccess(u.userId, u.role, now, life))))
  }

  const NoCookies := Error("TypeError", "Cannot read properties of undefined (reading 'refreshToken')")

  /** `refreshToken` as the server is wired: no cookie parser is mounted, so
      `req.cookies` is undefined and the handler's first line throws before
      its `try`. Whatever the request carries, the handler's promise
      rejects, the store is untouched and no response is written. */
  function RefreshAsWired(st: Store, cookie: Option<Token>): (s: Step<AuthReply>)
    ensures s.store == st
    ensures forall production: bool :: ResponseStatus(s.outcome, production).None?
  {
    Step(st, Unhandled(NoCookies))
  }

  /** `logoutUser` for the authenticated caller: clear the caller's stored
      refresh-token hash if the caller has a record, then answer 200 and
      overwrite the cookie with an empty value. A caller without a record
      gets the same answer and the store is unchanged. */
  function Logout(st: Store, caller: Principal): (s: Step<AuthReply>)
    ensures UserById(st.users, caller.userId).None? ==> s == Step(st, Reply(200, LoggedOut(LogoutDone, Garbage(""))))
    ensures s.outcome.Reply? ==> s.outcome == Reply(200, LoggedOut(LogoutDone, Garbage("")))
    ensures UserById(st.users, caller.userId).Some? && s.outcome.Reply? ==>
              var i := UserById(st.users, caller.userId).value;
              s.store == st.(users := st.users[i := Users.PreSave(st.users[i].(refreshToken := None))])
    ensures !s.outcome.Reply? ==> s.store == st
  {
    match UserById(st.users, caller.userId)
    case None => Step(st, Reply(200, LoggedOut(LogoutDone, Garbage(""))))
    case Some(i) =>
      match SaveUser(st, Some(i), st.users[i].(refreshToken := None))
      case Err(e) => Step(st, Forward(e))
      case Ok(st') => Step(st', Reply(200, LoggedOut(LogoutDone, Garbage(""))))
  }
}
