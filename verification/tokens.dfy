/** JSON Web Tokens as the model sees them. Signing is not modelled: a token
    is either one the server issued (an access or a refresh token, each
    signed with its own secret) or anything else a client may send. A
    refresh token carries a serial number drawn from a counter the server
    advances on every issue, so no two issued refresh tokens are equal. */
module Tokens {
  import opened Base
  import opened Principals

  datatype Token =
    | AccessJwt(subject: UserId, role: Role, expiresAt: int)
    | RefreshJwt(subject: UserId, serial: nat, expiresAt: int)
    | Garbage(text: string)

  /** Token lifetimes, in the same unit as the clock readings passed to the
      handlers. */
  datatype Lifetimes = Lifetimes(access: nat, refresh: nat)

  /** `generateAccessToken(userId, role)` at time `now`. */
  function IssueAccess(userId: UserId, role: Role, now: int, life: Lifetimes): Token
  {
    AccessJwt(userId, role, now + life.access)
  }

  /** `generateRefreshToken(userId)` at time `now`, with serial `serial`. */
  function IssueRefresh(userId: UserId, serial: nat, now: int, life: Lifetimes): Token
  {
    RefreshJwt(userId, serial, now + life.refresh)
  }

  /** The part of a refresh token that bcrypt reads. bcrypt hashes at most
      72 bytes of its input; a signed token begins with a 36-character
      header, a dot and the encoded payload `{"userId":"…`, so the issue
      time and the expiry (and the serial that stands for them here) lie
      past the cut, and what remains names the token's user. Tokens of the
      other kinds never reach bcrypt: verification turns them away first. */
  function BcryptPrefix(t: Token): (r: Token)
    ensures t.RefreshJwt? ==> r.RefreshJwt? && r.subject == t.subject
  {
    if t.RefreshJwt? then RefreshJwt(t.subject, 0, 0) else t
  }

  /** Two refresh tokens of one user look alike to bcrypt, whatever their
      serials and expiry times. */
  lemma PrefixIgnoresIssue(u: UserId, m: nat, n: nat, t1: int, t2: int, life: Lifetimes)
    ensures BcryptPrefix(IssueRefresh(u, m, t1, life)) == BcryptPrefix(IssueRefresh(u, n, t2, life))
  {
  }

  /** JavaScript truthiness of `req.cookies.refreshToken`: an absent cookie
      and an empty one are both falsy. */
  predicate Presented(cookie: Option<Token>)
  {
    cookie.Some? && cookie.value != Garbage("")
  }

  /** `jwt.verify(token, JWT_REFRESH_SECRET)` at time `now`: the user id in
      the payload, or `None` when the call would throw (wrong kind of token,
      not a token at all, or expired). */
  function VerifyRefresh(token: Token, now: int): Option<UserId>
  {
    if token.RefreshJwt? && now < token.expiresAt then Some(token.subject) else None
  }

  /** Verification accepts exactly the refresh tokens the server issued, for
      their lifetime, and reports the user they were issued to; access
      tokens are never accepted in their place. */
  lemma VerifyIssued(userId: UserId, serial: nat, issuedAt: int, now: int, role: Role, life: Lifetimes)
    ensures VerifyRefresh(IssueRefresh(userId, serial, issuedAt, life), now)
              == (if now < issuedAt + life.refresh then Some(userId) else None)
    ensures VerifyRefresh(IssueAccess(userId, role, issuedAt, life), now) == None
  {
  }
}
