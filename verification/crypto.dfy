/** bcrypt as the model sees it. A digest is an injective image of the hashed
    value; the per-hash salt and the cost factor are not modelled, so every
    hash of the same value is the same digest, and `bcrypt.compare(x, d)`
    holds exactly when `d` is a hash of `x`. Nothing in the model reads a
    digest's contents except `Compare` and `Auth.RefreshableAsWritten`,
    which models bcrypt's 72-byte cut on refresh tokens. */
module Crypto {

  datatype Digest<T> = Digest(of: T)

  /** `bcrypt.hash(x, salt)`. */
  function Hash<T>(x: T): Digest<T>
  {
    Digest(x)
  }

  /** `bcrypt.compare(x, d)`. */
  predicate Compare<T(==)>(x: T, d: Digest<T>)
  {
    d == Hash(x)
  }

  /** A digest matches exactly the value it was made from: different values
      never share a digest, and every value matches its own. */
  lemma CompareExact<T>(x: T, y: T)
    ensures Compare(x, Hash(y)) <==> x == y
  {
  }
}
