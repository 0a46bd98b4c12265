/** controllers/userController.js: the caller's own profile — reading it,
    updating the name and phone fields, and changing the password. */
module Profiles {
  import opened Base
  import opened Text
  import opened Crypto
  import opened Principals
  import opened Tokens
  import opened Collections
  import opened Http
  import opened Database
  import opened Auth
  import Users

  /** A user document as `.select('-password -refreshToken')` returns it. */
  datatype Profile = Profile(
    userId: UserId, firstName: string, lastName: string, email: string,
    role: Role, phoneNumber: Option<string>, isActive: bool)

  datatype ProfileReply =
    | Shown(profile: Profile)
      // the five fields `updateUserProfile` echoes
    | Updated(userId: UserId, firstName: string, lastName: string, email: string, phoneNumber: Option<string>)
    | PasswordChanged(message: string)

  const UserNotFound := "User not found"
  const InvalidOldPassword := "Invalid old password"
  const PasswordChangedDone := "Password changed successfully"

  /** The projection that drops the two secret paths. */
  function ProfileOf(u: Users.User): Profile
  {
    Profile(u.userId, u.firstName, u.lastName, u.email, u.role, u.phoneNumber, u.isActive)
  }

  /** The profile carries every field but the secrets: two users have the
      same profile exactly when they differ at most in their password and
      refresh-token hash. */
  lemma ProfileHidesSecrets(u: Users.User, v: Users.User)
    ensures ProfileOf(u) == ProfileOf(v) <==> u.(password := v.password, refreshToken := v.refreshToken) == v
  {
  }

  /** `getUserProfile`: the caller's document without its secrets, or 404.
      The store is never written. */
  function GetUserProfile(st: Store, caller: Principal): (s: Step<ProfileReply>)
    ensures s.store == st
    ensures UserById(st.users, caller.userId).None? <==> s.outcome == Refuse(404, UserNotFound)
    ensures s.outcome.Reply? <==> UserById(st.users, caller.userId).Some?
    ensures s.outcome.Reply? ==>
              s.outcome.status == 200 && s.outcome.body.Shown?
              && var p := s.outcome.body.profile;
                 exists i :: 0 <= i < |st.users| && st.users[i].userId == caller.userId
                                                 && ProfileOf(st.users[i]) == p
  {
    match UserById(st.users, caller.userId)
    case None => Step(st, Refuse(404, UserNotFound))
    case Some(i) => Step(st, Reply(200, Shown(ProfileOf(st.users[i]))))
  }

  /** `x || old` for a string path with a `trim` setter: a truthy request
      value replaces the stored one (through the setter); an absent or empty
      one keeps it. */
  function MergeText(request: Option<string>, stored: string): (r: string)
    ensures !TruthyText(request) ==> r == stored
    ensures TruthyText(request) ==> r == Trim(request.value)
    ensures Trimmed(stored) ==> Trimmed(r)
  {
    if TruthyText(request) then TrimSpec(request.value); Trim(request.value) else stored
  }

  /** The same merge for the optional `phoneNumber` path. */
  function MergePhone(request: Option<string>, stored: Option<string>): (r: Option<string>)
    ensures !TruthyText(request) ==> r == stored
    ensures TruthyText(request) ==> r == Some(Trim(request.value))
    ensures (stored.Some? ==> Trimmed(stored.value)) ==> (r.Some? ==> Trimmed(r.value))
  {
    if TruthyText(request) then TrimSpec(request.value); Some(Trim(request.value)) else stored
  }

  /** Merging the same request twice is merging it once. */
  lemma MergeIdempotent(request: Option<string>, stored: string, phone: Option<string>)
    ensures MergeText(request, MergeText(request, stored)) == MergeText(request, stored)
    ensures MergePhone(request, MergePhone(request, phone)) == MergePhone(request, phone)
  {
  }

  /** The caller's document after the three merges of `updateUserProfile`:
      only the two names and the phone number can differ. */
  function Edited(u: Users.User, firstName: Option<string>, lastName: Option<string>,
                  phoneNumber: Option<string>): (v: Users.User)
    ensures Users.Normalized(u) ==> Users.Normalized(v)
    ensures v.(firstName := u.firstName, lastName := u.lastName, phoneNumber := u.phoneNumber) == u
    ensures v.firstName == MergeText(firstName, u.firstName)
    ensures v.lastName == MergeText(lastName, u.lastName)
    ensures v.phoneNumber == MergePhone(phoneNumber, u.phoneNumber)
  {
    u.(firstName := MergeText(firstName, u.firstName),
       lastName := MergeText(lastName, u.lastName),
       phoneNumber := MergePhone(phoneNumber, u.phoneNumber))
  }

  /** `updateUserProfile`: 404 without a record; otherwise the merged
      document is saved (its validators may refuse the new names) and its
      public fields are echoed. */
  function UpdateUserProfile(st: Store, caller: Principal, firstName: Option<string>, lastName: Option<string>,
                             phoneNumber: Option<string>): (s: Step<ProfileReply>)
    ensures UserById(st.users, caller.userId).None? ==> s == Step(st, Refuse(404, UserNotFound))
    ensures !s.outcome.Reply? ==> s.store == st
    ensures s.outcome.Reply? ==> UpdateWrote(st, s, caller, firstName, lastName, phoneNumber)
  {
    match UserById(st.users, caller.userId)
    case None => Step(st, Refuse(404, UserNotFound))
    case Some(i) =>
      var v := Edited(st.users[i], firstName, lastName, phoneNumber);
      match SaveUser(st, Some(i), v)
      case Err(e) => Step(st, Forward(e))
      case Ok(st') => Step(st', Reply(200, Updated(v.userId, v.firstName, v.lastName, v.email, v.phoneNumber)))
  }

  /** What a successful profile update did: the caller's document now holds
      the merged names and phone number, with its password and everything
      else left alone (the hook re-hashes only a plain password), and the
      reply echoes exactly userId, the names, email and phone number. */
  ghost predicate UpdateWrote(st: Store, s: Step<ProfileReply>, caller: Principal,
                              firstName: Option<string>, lastName: Option<string>, phoneNumber: Option<string>)
  {
    && UserById(st.users, caller.userId).Some?
    && var i := UserById(st.users, caller.userId).value;
    && var u := st.users[i];
    && var w := u.(firstName := MergeText(firstName, u.firstName),
                   lastName := MergeText(lastName, u.lastName),
                   phoneNumber := MergePhone(phoneNumber, u.phoneNumber));
    && s.store == st.(users := st.users[i := Users.PreSave(w)])
    && s.outcome == Reply(200, Updated(u.userId, w.firstName, w.lastName, u.email, w.phoneNumber))
  }

  /** Under the unique indexes a profile update fails only on the name
      bounds: it succeeds exactly when both merged names are 2..50
      characters long. */
  lemma UpdateProfileExactly(st: Store, caller: Principal, firstName: Option<string>, lastName: Option<string>,
                             phoneNumber: Option<string>)
    requires Unique(st.users, Users.IdOf) && Unique(st.users, Users.EmailOf)
    requires UserById(st.users, caller.userId).Some?
    requires Users.Conforms(st.users[UserById(st.users, caller.userId).value])
    ensures var u := st.users[UserById(st.users, caller.userId).value];
            (UpdateUserProfile(st, caller, firstName, lastName, phoneNumber).outcome.Reply?)
              <==> (&& Users.MinNameLength <= |MergeText(firstName, u.firstName)| <= Users.MaxNameLength
                    && Users.MinNameLength <= |MergeText(lastName, u.lastName)| <= Users.MaxNameLength)
  {
    var i := UserById(st.users, caller.userId).value;
    var v := Edited(st.users[i], firstName, lastName, phoneNumber);
    if Users.Conforms(v) {
      ResaveUser(st, i, v);
    }
  }

  /** A profile update never touches another user, nor the caller's
      password, e-mail, role, active flag or refresh-token hash, when the
      stored password is a digest. */
  lemma UpdateProfileKeepsRest(st: Store, caller: Principal, firstName: Option<string>, lastName: Option<string>,
                               phoneNumber: Option<string>)
    requires UserById(st.users, caller.userId).Some?
    requires st.users[UserById(st.users, caller.userId).value].password.Hashed?
    ensures var i := UserById(st.users, caller.userId).value;
            var s := UpdateUserProfile(st, caller, firstName, lastName, phoneNumber);
            && |s.store.users| == |st.users|
            && s.store.products == st.products && s.store.categories == st.categories
            && (forall j :: 0 <= j < |st.users| && j != i ==> s.store.users[j] == st.users[j])
            && s.store.users[i].userId == st.users[i].userId
            && s.store.users[i].password == st.users[i].password
            && s.store.users[i].email == st.users[i].email
            && s.store.users[i].role == st.users[i].role
            && s.store.users[i].refreshToken == st.users[i].refreshToken
            && s.store.users[i].isActive == st.users[i].isActive
  {
  }

  /** Sending the same profile update twice leaves the store as sending it
      once. */
  lemma UpdateProfileIdempotent(st: Store, caller: Principal, firstName: Option<string>, lastName: Option<string>,
                                phoneNumber: Option<string>)
    requires Unique(st.users, Users.IdOf)
    ensures var st1 := UpdateUserProfile(st, caller, firstName, lastName, phoneNumber).store;
            UpdateUserProfile(st1, caller, firstName, lastName, phoneNumber).store == st1
  {
    var st1 := UpdateUserProfile(st, caller, firstName, lastName, phoneNumber).store;
    if UserById(st.users, caller.userId).Some? && st1 != st {
      var i := UserById(st.users, caller.userId).value;
      var w := Users.PreSave(Edited(st.users[i], firstName, lastName, phoneNumber));
      Users.PreSaveSpec(Edited(st.users[i], firstName, lastName, phoneNumber));
      RewriteKeepsUnique(st.users, i, w, Users.IdOf);
      UserByIdUnique(st1.users, i);
      MergeIdempotent(firstName, st.users[i].firstName, phoneNumber);
      MergeIdempotent(lastName, st.users[i].lastName, st.users[i].phoneNumber);
      assert Users.PreSave(Edited(st1.users[i], firstName, lastName, phoneNumber)) == st1.users[i];
      assert st1.users[i := st1.users[i]] == st1.users;
    }
  }

  /** A profile update keeps the store valid: the merged names and phone
      number go through the setters and the validators before they are
      written. */
  lemma UpdateProfileKeepsValid(st: Store, caller: Principal, firstName: Option<string>, lastName: Option<string>,
                                phoneNumber: Option<string>)
    requires Valid(st)
    ensures Valid(UpdateUserProfile(st, caller, firstName, lastName, phoneNumber).store)
  {
    if UpdateUserProfile(st, caller, firstName, lastName, phoneNumber).outcome.Reply? {
      var i := UserById(st.users, caller.userId).value;
      SaveUserKeepsValid(st, Some(i), Edited(st.users[i], firstName, lastName, phoneNumber));
    }
  }

  /** What `bcrypt.compare` rejects with when the candidate password is not
      a string (the request had no `oldPassword`). */
  const IllegalArguments := Error("Error", "Illegal arguments: undefined, string")

  /** `changePassword`: no record for the caller, or an old password that
      does not match, is 401 and changes nothing; otherwise the new password
      is assigned and saved, which validates its length and hashes it. */
  function ChangePassword(st: Store, caller: Principal, oldPassword: Option<string>,
                          newPassword: Option<string>): (s: Step<ProfileReply>)
    ensures UserById(st.users, caller.userId).None? ==> s == Step(st, Refuse(401, InvalidOldPassword))
    ensures (&& UserById(st.users, caller.userId).Some? && oldPassword.Some?
             && !Users.MatchPassword(st.users[UserById(st.users, caller.userId).value], oldPassword.value))
            ==> s == Step(st, Refuse(401, InvalidOldPassword))
    ensures !s.outcome.Reply? ==> s.store == st
    ensures s.outcome.Reply? ==>
              && UserById(st.users, caller.userId).Some? && oldPassword.Some? && newPassword.Some?
              && var i := UserById(st.users, caller.userId).value;
              && Users.MatchPassword(st.users[i], oldPassword.value)
              && |newPassword.value| >= Users.MinPasswordLength
              && s.outcome == Reply(200, PasswordChanged(PasswordChangedDone))
              && s.store == st.(users := st.users[i := st.users[i].(password := Users.Hashed(Hash(newPassword.value)))])
  {
    match UserById(st.users, caller.userId)
    case None => Step(st, Refuse(401, InvalidOldPassword))
    case Some(i) =>
      var u := st.users[i];
      match oldPassword
      case None => Step(st, Forward(IllegalArguments))
      case Some(p) =>
        if !Users.MatchPassword(u, p) then Step(st, Refuse(401, InvalidOldPassword))
        else
          match newPassword
          case None => Step(st, Forward(ValidationError("User", "password")))
          case Some(q) =>
            match SaveUser(st, Some(i), u.(password := Users.Plain(q)))
            case Err(e) => Step(st, Forward(e))
            case Ok(st') => Step(st', Reply(200, PasswordChanged(PasswordChangedDone)))
  }

  /** Under the unique indexes, with the caller's record conforming and its
      old password matching, the change succeeds exactly when a new password
      of at least six characters is given. */
  lemma ChangePasswordExactly(st: Store, caller: Principal, oldPassword: string, newPassword: Option<string>)
    requires Unique(st.users, Users.IdOf) && Unique(st.users, Users.EmailOf)
    requires UserById(st.users, caller.userId).Some?
    requires Users.Conforms(st.users[UserById(st.users, caller.userId).value])
    requires Users.MatchPassword(st.users[UserById(st.users, caller.userId).value], oldPassword)
    ensures (ChangePassword(st, caller, Some(oldPassword), newPassword).outcome.Reply?)
              <==> (newPassword.Some? && |newPassword.value| >= Users.MinPasswordLength)
  {
    var i := UserById(st.users, caller.userId).value;
    if newPassword.Some? && |newPassword.value| >= Users.MinPasswordLength {
      ResaveUser(st, i, st.users[i].(password := Users.Plain(newPassword.value)));
    }
  }

  /** After a successful change the new password is the only one that
      matches — the old one no longer does unless it was the same — and the
      caller's refresh-token hash is left in place, so no session of the
      caller is revoked by it. */
  lemma ChangePasswordEffect(st: Store, caller: Principal, oldPassword: Option<string>, newPassword: Option<string>,
                             token: Token, now: int)
    requires ChangePassword(st, caller, oldPassword, newPassword).outcome.Reply?
    ensures var s := ChangePassword(st, caller, oldPassword, newPassword);
            var i := UserById(st.users, caller.userId).value;
            && Users.MatchPassword(s.store.users[i], newPassword.value)
            && (Users.MatchPassword(s.store.users[i], oldPassword.value) <==> oldPassword == newPassword)
            && s.store.users[i].refreshToken == st.users[i].refreshToken
            && (Refreshable(s.store, token, now) <==> Refreshable(st, token, now))
  {
    var s := ChangePassword(st, caller, oldPassword, newPassword);
    var i := UserById(st.users, caller.userId).value;
    Users.MatchPasswordExact(s.store.users[i], oldPassword.value, newPassword.value);
    if VerifyRefresh(token, now).Some? {
      var id := VerifyRefresh(token, now).value;
      UserByIdSameIds(st.users, s.store.users, id);
    }
  }

  /** A password change keeps the store valid: the new password is
      validated and hashed before it is written. */
  lemma ChangePasswordKeepsValid(st: Store, caller: Principal, oldPassword: Option<string>, newPassword: Option<string>)
    requires Valid(st)
    ensures Valid(ChangePassword(st, caller, oldPassword, newPassword).store)
  {
    if ChangePassword(st, caller, oldPassword, newPassword).outcome.Reply? {
      var i := UserById(st.users, caller.userId).value;
      SaveUserKeepsValid(st, Some(i), st.users[i].(password := Users.Plain(newPassword.value)));
    }
  }
}
