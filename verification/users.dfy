/** The user document of models/User.js: its fields, the values its setters
    store, its validators, the pre-save hook that hashes a new password, and
    `matchPassword`. */
module Users {
  import opened Base
  import opened Text
  import opened Crypto
  import opened Principals
  import opened Tokens

  /** The `password` path: plain text right after it is assigned, a bcrypt
      digest once the pre-save hook has run. */
  datatype Secret = Plain(text: string) | Hashed(digest: Digest<string>)

  datatype User = User(
    userId: UserId,
    firstName: string,
    lastName: string,
    email: string,
    password: Secret,
    role: Role,
    phoneNumber: Option<string>,
    isActive: bool,
    refreshToken: Option<Digest<Token>>)

  const MinNameLength := 2
  const MaxNameLength := 50
  const MinPasswordLength := 6

  function IdOf(u: User): UserId
  {
    u.userId
  }

  function EmailOf(u: User): string
  {
    u.email
  }

  /** The `trim` and `lowercase` setters of the `email` path. Mongoose runs
      them on assignment and on the `email` of a query filter alike. */
  function NormalizeEmail(e: string): string
  {
    Lower(Trim(e))
  }

  /** The setters are idempotent on e-mails: a stored e-mail is already in
      the form a query filter is brought to, so looking a user up by the
      e-mail on file finds them. */
  lemma NormalizeEmailIdempotent(e: string)
    ensures Trimmed(NormalizeEmail(e)) && NoUpper(NormalizeEmail(e))
    ensures NormalizeEmail(NormalizeEmail(e)) == NormalizeEmail(e)
  {
    TrimSpec(e);
    LowerFacts(Trim(e));
    TrimSpec(NormalizeEmail(e));
    LowerFacts(NormalizeEmail(e));
  }

  /** What the setters guarantee of the stored strings. */
  predicate Normalized(u: User)
  {
    && Trimmed(u.firstName)
    && Trimmed(u.lastName)
    && Trimmed(u.email)
    && NoUpper(u.email)
    && (u.phoneNumber.Some? ==> Trimmed(u.phoneNumber.value))
  }

  /** The validators of the schema: required fields, name lengths, the
      e-mail pattern and the minimum password length. The role enum is
      enforced by the `Role` type, and a digest is 60 characters long, so
      only a plain password can be too short. */
  predicate Conforms(u: User)
  {
    && u.userId != ""
    && MinNameLength <= |u.firstName| <= MaxNameLength
    && MinNameLength <= |u.lastName| <= MaxNameLength
    && EmailShaped(u.email)
    && (u.password.Plain? ==> |u.password.text| >= MinPasswordLength)
  }

  /** Document validation: the first path whose validator fails, if any. */
  function Violation(u: User): (path: Option<string>)
    ensures path.None? <==> Conforms(u)
    ensures path.Some? ==> path.value in ["userId", "firstName", "lastName", "email", "password"]
  {
    if u.userId == "" then Some("userId")
    else if !(MinNameLength <= |u.firstName| <= MaxNameLength) then Some("firstName")
    else if !(MinNameLength <= |u.lastName| <= MaxNameLength) then Some("lastName")
    else if !EmailShaped(u.email) then Some("email")
    else if u.password.Plain? && |u.password.text| < MinPasswordLength then Some("password")
    else None
  }

  /** A fresh document from the registration fields, through the setters and
      the schema defaults: active, no phone number, no refresh token, and the
      password still in plain text. */
  function NewUser(userId: UserId, firstName: string, lastName: string, email: string,
                   password: string, role: Role): (u: User)
    ensures Normalized(u)
    ensures u.userId == userId && u.role == role && u.password == Plain(password)
    ensures u.email == NormalizeEmail(email)
    ensures u.isActive && u.phoneNumber.None? && u.refreshToken.None?
  {
    TrimSpec(firstName);
    TrimSpec(lastName);
    TrimSpec(email);
    LowerFacts(Trim(email));
    User(userId, Trim(firstName), Trim(lastName), NormalizeEmail(email), Plain(password),
         role, None, true, None)
  }

  /** The pre-save hook: the password is hashed only when it was modified,
      which in this model means it holds plain text. */
  function PreSave(u: User): User
  {
    match u.password
    case Plain(text) => u.(password := Hashed(Hash(text)))
    case Hashed(_) => u
  }

  /** `user.matchPassword(p)`: `bcrypt.compare` against the stored password.
      A plain-text password is not a bcrypt digest, so nothing matches it. */
  predicate MatchPassword(u: User, p: string)
  {
    u.password.Hashed? && Compare(p, u.password.digest)
  }

  /** After the hook the password is a digest; a newly set password is the
      one that matches; an already hashed one is left alone; and no other
      field changes. */
  lemma PreSaveSpec(u: User)
    ensures PreSave(u).password.Hashed?
    ensures u.password.Plain? ==> MatchPassword(PreSave(u), u.password.text)
    ensures u.password.Hashed? ==> PreSave(u) == u
    ensures PreSave(u).(password := u.password) == u
  {
  }

  /** `matchPassword(p)` holds exactly when the stored digest is the hash of
      `p`, so a stored digest matches one password and no other. */
  lemma MatchPasswordExact(u: User, p: string, q: string)
    ensures MatchPassword(u, p) <==> u.password == Hashed(Hash(p))
    ensures MatchPassword(u, p) && MatchPassword(u, q) ==> p == q
  {
  }
}
