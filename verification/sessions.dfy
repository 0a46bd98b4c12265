/** Properties of sequences of authentication calls: the session life cycle
    of a refresh token (issued by login, honoured by refresh, superseded by
    the next login, revoked by logout) and the store invariant every call
    keeps. */
module Sessions {
  import opened Base
  import opened Crypto
  import opened Principals
  import opened Tokens
  import opened Collections
  import opened Http
  import opened Database
  import opened Auth
  import opened Profiles
  import Users

  /** Under the unique index on `userId`, a refresh token is accepted
      exactly when it is an unexpired refresh token and the user it names
      holds the hash of this very token. */
  lemma RefreshableExactly(st: Store, token: Token, now: int)
    requires Unique(st.users, Users.IdOf)
    ensures Refreshable(st, token, now) <==>
              && token.RefreshJwt? && now < token.expiresAt
              && exists i :: 0 <= i < |st.users| && st.users[i].userId == token.subject
                                                 && st.users[i].refreshToken == Some(Hash(token))
  {
    if token.RefreshJwt? && now < token.expiresAt {
      if i :| 0 <= i < |st.users| && st.users[i].userId == token.subject
                                 && st.users[i].refreshToken == Some(Hash(token)) {
        UserByIdUnique(st.users, i);
      }
    }
  }

  /** A registration keeps the store valid. */
  lemma RegisterKeepsValid(st: Store, form: RegisterForm, freshId: UserId)
    requires Valid(st)
    ensures Valid(Register(st, form, freshId).store)
  {
    if Register(st, form, freshId).outcome.Reply? {
      var u := Registrant(form, freshId, ParseRole(form.role).value);
      SaveUserKeepsValid(st, None, u);
    }
  }

  /** A login keeps the store valid. */
  lemma LoginKeepsValid(st: Store, email: string, password: string, now: int, life: Lifetimes)
    requires Valid(st)
    ensures Valid(Login(st, email, password, now, life).store)
  {
    var l := Login(st, email, password, now, life);
    if l.outcome.Reply? {
      var i := UserByEmail(st.users, email).value;
      var u := st.users[i];
      var u' := u.(refreshToken := Some(Hash(IssueRefresh(u.userId, st.issued, now, life))));
      ReplaceUserKeepsValid(st, i, u');
    }
  }

  /** A logout keeps the store valid. */
  lemma LogoutKeepsValid(st: Store, caller: Principal)
    requires Valid(st)
    ensures Valid(Logout(st, caller).store)
  {
    var o := Logout(st, caller);
    if o.outcome.Reply? && UserById(st.users, caller.userId).Some? {
      var i := UserById(st.users, caller.userId).value;
      ReplaceUserKeepsValid(st, i, st.users[i].(refreshToken := None));
    }
  }

  /** A login keeps the unique index on `userId`: it only rewrites the
      refresh-token hash of the user who logged in. */
  lemma LoginKeepsIds(st: Store, email: string, password: string, now: int, life: Lifetimes)
    requires Unique(st.users, Users.IdOf)
    ensures Unique(Login(st, email, password, now, life).store.users, Users.IdOf)
  {
    var l := Login(st, email, password, now, life);
    if l.outcome.Reply? {
      var i := UserByEmail(st.users, email).value;
      var u := st.users[i];
      RewriteKeepsUnique(st.users, i, u.(refreshToken := Some(Hash(IssueRefresh(u.userId, st.issued, now, life)))), Users.IdOf);
    }
  }

  /** Logout always answers 200 when the stored users are valid, and it
      clears exactly the caller's refresh-token hash. */
  lemma LogoutSucceeds(st: Store, caller: Principal)
    requires UsersValid(st.users)
    ensures Logout(st, caller).outcome == Reply(200, LoggedOut(LogoutDone, Garbage("")))
    ensures UserById(st.users, caller.userId).Some? ==>
              var i := UserById(st.users, caller.userId).value;
              Logout(st, caller).store == st.(users := st.users[i := st.users[i].(refreshToken := None)])
  {
    if UserById(st.users, caller.userId).Some? {
      var i := UserById(st.users, caller.userId).value;
      ResaveUser(st, i, st.users[i].(refreshToken := None));
    }
  }

  /** Logging out twice leaves the store as logging out once. */
  lemma LogoutIdempotent(st: Store, caller: Principal)
    requires Unique(st.users, Users.IdOf)
    ensures Logout(Logout(st, caller).store, caller).store == Logout(st, caller).store
  {
    var st1 := Logout(st, caller).store;
    if UserById(st.users, caller.userId).Some? && Logout(st, caller).outcome.Reply? {
      var i := UserById(st.users, caller.userId).value;
      var v := Users.PreSave(st.users[i].(refreshToken := None));
      Users.PreSaveSpec(st.users[i].(refreshToken := None));
      RewriteKeepsUnique(st.users, i, v, Users.IdOf);
      UserByIdUnique(st1.users, i);
      assert Users.PreSave(st1.users[i].(refreshToken := None)) == st1.users[i];
      assert st1.users[i := st1.users[i]] == st1.users;
    }
  }

  /** After a logout (which always answers 200 on valid users, see
      `LogoutSucceeds`) no refresh token naming the caller is accepted any
      more: refreshing with one is refused with 403, and a client that kept
      the emptied cookie gets 401. */
  lemma LogoutRevokes(st: Store, caller: Principal, token: Token, now: int, life: Lifetimes)
    requires Unique(st.users, Users.IdOf)
    requires Logout(st, caller).outcome.Reply?
    requires token.RefreshJwt? && token.subject == caller.userId
    ensures !Refreshable(Logout(st, caller).store, token, now)
    ensures Refresh(Logout(st, caller).store, Some(token), now, life).outcome == Refuse(403, TokenInvalid)
    ensures Refresh(Logout(st, caller).store, Some(Logout(st, caller).outcome.body.cookie), now, life).outcome
              == Refuse(401, TokenMissing)
  {
    var st1 := Logout(st, caller).store;
    if UserById(st.users, caller.userId).Some? {
      var i := UserById(st.users, caller.userId).value;
      var v := Users.PreSave(st.users[i].(refreshToken := None));
      RewriteKeepsUnique(st.users, i, v, Users.IdOf);
      UserByIdUnique(st1.users, i);
    }
  }

  /** A token from a successful login is accepted by refresh for the rest of
      its lifetime, and the new access token is for the user who logged in,
      with that user's role. */
  lemma LoginThenRefresh(st: Store, email: string, password: string, now: int, later: int, life: Lifetimes)
    requires Unique(st.users, Users.IdOf)
    requires Login(st, email, password, now, life).outcome.Reply?
    requires now <= later < now + life.refresh
    ensures var l := Login(st, email, password, now, life);
            Refresh(l.store, Some(l.outcome.body.cookie), later, life).outcome
              == Reply(200, Refreshed(IssueAccess(l.outcome.body.userId, l.outcome.body.role, later, life)))
  {
    var l := Login(st, email, password, now, life);
    var i := UserByEmail(st.users, email).value;
    LoginKeepsIds(st, email, password, now, life);
    UserByIdUnique(l.store.users, i);
  }

  /** A login makes every refresh token issued earlier to the same user
      worthless: only the token it just issued matches the stored hash. */
  lemma LoginSupersedes(st: Store, email: string, password: string, now: int, life: Lifetimes,
                        stale: Token, later: int)
    requires Unique(st.users, Users.IdOf)
    requires Login(st, email, password, now, life).outcome.Reply?
    requires stale.RefreshJwt? && stale.serial < st.issued
    requires stale.subject == Login(st, email, password, now, life).outcome.body.userId
    ensures !Refreshable(Login(st, email, password, now, life).store, stale, later)
  {
    var l := Login(st, email, password, now, life);
    var i := UserByEmail(st.users, email).value;
    LoginKeepsIds(st, email, password, now, life);
    UserByIdUnique(l.store.users, i);
  }

  /** Two logins in a row by the same user: refreshing with the first
      login's cookie is refused with 403. */
  lemma SecondLoginRevokesFirst(st: Store, email: string, password: string, email2: string, password2: string,
                                t1: int, t2: int, later: int, life: Lifetimes)
    requires Unique(st.users, Users.IdOf)
    requires Login(st, email, password, t1, life).outcome.Reply?
    requires
      var st1 := Login(st, email, password, t1, life).store;
      && Login(st1, email2, password2, t2, life).outcome.Reply?
      && Login(st1, email2, password2, t2, life).outcome.body.userId
           == Login(st, email, password, t1, life).outcome.body.userId
    ensures
      var l1 := Login(st, email, password, t1, life);
      var l2 := Login(l1.store, email2, password2, t2, life);
      Refresh(l2.store, Some(l1.outcome.body.cookie), later, life).outcome == Refuse(403, TokenInvalid)
  {
    var l1 := Login(st, email, password, t1, life);
    LoginKeepsIds(st, email, password, t1, life);
    LoginSupersedes(l1.store, email2, password2, t2, life, l1.outcome.body.cookie, later);
  }

  /** As written, a second login does not revoke the first login's cookie:
      both refresh tokens name the same user, so they agree on the 72 bytes
      bcrypt reads, and the first is accepted until it expires. The intended
      check refuses it (`SecondLoginRevokesFirst`). */
  lemma SecondLoginKeepsFirstAsWritten(st: Store, email: string, password: string, email2: string, password2: string,
                                       t1: int, t2: int, later: int, life: Lifetimes)
    requires Unique(st.users, Users.IdOf)
    requires Login(st, email, password, t1, life).outcome.Reply?
    requires
      var st1 := Login(st, email, password, t1, life).store;
      && Login(st1, email2, password2, t2, life).outcome.Reply?
      && Login(st1, email2, password2, t2, life).outcome.body.userId
           == Login(st, email, password, t1, life).outcome.body.userId
    requires later < t1 + life.refresh
    ensures
      var l1 := Login(st, email, password, t1, life);
      var l2 := Login(l1.store, email2, password2, t2, life);
      && RefreshableAsWritten(l2.store, l1.outcome.body.cookie, later)
      && !Refreshable(l2.store, l1.outcome.body.cookie, later)
  {
    var l1 := Login(st, email, password, t1, life);
    var l2 := Login(l1.store, email2, password2, t2, life);
    LoginKeepsIds(st, email, password, t1, life);
    LoginKeepsIds(l1.store, email2, password2, t2, life);
    var j := UserByEmail(l1.store.users, email2).value;
    UserByIdUnique(l2.store.users, j);
    LoginSupersedes(l1.store, email2, password2, t2, life, l1.outcome.body.cookie, later);
  }

  /** As wired, no refresh request is ever answered; with a cookie parser in
      place every one is, with 200, 401 or 403. */
  lemma RefreshAnsweredWithParser(st: Store, cookie: Option<Token>, now: int, life: Lifetimes, production: bool)
    ensures ResponseStatus(RefreshAsWired(st, cookie).outcome, production).None?
    ensures var status := ResponseStatus(Refresh(st, cookie, now, life).outcome, production);
            status == Some(200) || status == Some(401) || status == Some(403)
  {
  }

  /** A login touches no other user's session: tokens naming anyone else are
      accepted afterwards exactly when they were accepted before. */
  lemma LoginLeavesOthers(st: Store, email: string, password: string, now: int, life: Lifetimes,
                          token: Token, later: int)
    requires Unique(st.users, Users.IdOf)
    requires Login(st, email, password, now, life).outcome.Reply?
    requires token.RefreshJwt? && token.subject != Login(st, email, password, now, life).outcome.body.userId
    ensures Refreshable(Login(st, email, password, now, life).store, token, later) <==> Refreshable(st, token, later)
  {
    var l := Login(st, email, password, now, life);
    LoginKeepsIds(st, email, password, now, life);
    RefreshableExactly(st, token, later);
    RefreshableExactly(l.store, token, later);
    var i := UserByEmail(st.users, email).value;
    forall j | 0 <= j < |st.users| && st.users[j].userId == token.subject
      ensures l.store.users[j] == st.users[j]
    {
    }
  }

  /** Under the unique indexes, login succeeds for a conforming user whose
      password matches. */
  lemma LoginSucceeds(st: Store, email: string, password: string, now: int, life: Lifetimes)
    requires Unique(st.users, Users.IdOf) && Unique(st.users, Users.EmailOf)
    requires UserByEmail(st.users, email).Some?
    requires Users.Conforms(st.users[UserByEmail(st.users, email).value])
    requires Users.MatchPassword(st.users[UserByEmail(st.users, email).value], password)
    ensures Login(st, email, password, now, life).outcome.Reply?
    ensures Login(st, email, password, now, life).outcome.body.userId == st.users[UserByEmail(st.users, email).value].userId
  {
    var k := UserByEmail(st.users, email).value;
    var u := st.users[k];
    ResaveUser(st.(issued := st.issued + 1), k, u.(refreshToken := Some(Hash(IssueRefresh(u.userId, st.issued, now, life)))));
  }

  /** A registration appends the new user, with its password hashed, and
      keeps the unique indexes. */
  lemma RegisterAppends(st: Store, form: RegisterForm, freshId: UserId)
    requires Unique(st.users, Users.IdOf) && Unique(st.users, Users.EmailOf)
    requires Register(st, form, freshId).outcome.Reply?
    ensures var st1 := Register(st, form, freshId).store;
            var u := Users.PreSave(Registrant(form, freshId, ParseRole(form.role).value));
            && st1.users == st.users + [u]
            && Users.Conforms(u) && Users.MatchPassword(u, form.password)
            && Unique(st1.users, Users.IdOf) && Unique(st1.users, Users.EmailOf)
            && UserByEmail(st1.users, form.email) == Some(|st.users|)
  {
    var st1 := Register(st, form, freshId).store;
    var reg := Registrant(form, freshId, ParseRole(form.role).value);
    var u := Users.PreSave(reg);
    var k := |st.users|;
    assert SaveUser(st, None, reg).Ok?;
    Users.PreSaveSpec(reg);
    PutKeepsUnique(st.users, None, u, Users.IdOf);
    PutKeepsUnique(st.users, None, u, Users.EmailOf);
    UserByEmailOfLast(st.users, u, form.email);
  }

  /** On a new e-mail the e-mail index can never refuse the registration,
      since the lookup that found no user compares the same normalised
      e-mail: registration answers 201 exactly when the role is valid, the
      new user conforms and its `userId` is not taken. */
  lemma RegisterExactly(st: Store, form: RegisterForm, freshId: UserId)
    requires UserByEmail(st.users, form.email).None?
    ensures Register(st, form, freshId).outcome.Reply? <==>
              && ParseRole(form.role).Some?
              && var u := Registrant(form, freshId, ParseRole(form.role).value);
              && Users.Conforms(u) && !Clashes(st.users, None, u, Users.IdOf)
  {
    if ParseRole(form.role).Some? {
      var u := Registrant(form, freshId, ParseRole(form.role).value);
      assert !Clashes(st.users, None, u, Users.EmailOf) by {
        forall j | 0 <= j < |st.users|
          ensures Users.EmailOf(st.users[j]) != Users.EmailOf(u)
        {
        }
      }
    }
  }

  /** A user who has just registered can log in with the same e-mail and
      password, and the login names the new user. */
  lemma RegisterThenLogin(st: Store, form: RegisterForm, freshId: UserId, now: int, life: Lifetimes)
    requires Unique(st.users, Users.IdOf) && Unique(st.users, Users.EmailOf)
    requires Register(st, form, freshId).outcome.Reply?
    ensures var l := Login(Register(st, form, freshId).store, form.email, form.password, now, life);
            l.outcome.Reply? && l.outcome.body.userId == freshId
  {
    RegisterAppends(st, form, freshId);
    LoginSucceeds(Register(st, form, freshId).store, form.email, form.password, now, life);
  }

  /** After a password change the caller logs in with the new password,
      and the old one is refused like any wrong password. */
  lemma ChangePasswordThenLogin(st: Store, caller: Principal, oldPassword: Option<string>,
                                newPassword: Option<string>, email: string, now: int, life: Lifetimes)
    requires Unique(st.users, Users.IdOf) && Unique(st.users, Users.EmailOf)
    requires ChangePassword(st, caller, oldPassword, newPassword).outcome.Reply?
    requires UserByEmail(st.users, email) == UserById(st.users, caller.userId)
    ensures var st1 := ChangePassword(st, caller, oldPassword, newPassword).store;
            Login(st1, email, newPassword.value, now, life).outcome.Reply?
    ensures var st1 := ChangePassword(st, caller, oldPassword, newPassword).store;
            oldPassword != newPassword ==>
              Login(st1, email, oldPassword.value, now, life).outcome == Refuse(401, InvalidCredentials)
  {
    var st1 := ChangePassword(st, caller, oldPassword, newPassword).store;
    var i := UserById(st.users, caller.userId).value;
    var u := st.users[i];
    assert SaveUser(st, Some(i), u.(password := Users.Plain(newPassword.value))).Ok?;
    UserByEmailSameEmails(st.users, st1.users, email);
    RewriteKeepsUnique(st.users, i, st1.users[i], Users.IdOf);
    RewriteKeepsUnique(st.users, i, st1.users[i], Users.EmailOf);
    ChangePasswordEffect(st, caller, oldPassword, newPassword, Garbage(""), now);
    LoginSucceeds(st1, email, newPassword.value, now, life);
  }
}
