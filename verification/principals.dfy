/** Who is calling: user identifiers, the closed set of roles of the user
    schema, and the `(userId, role)` pair the authentication gate places on
    `req.user` before a protected handler runs. */
module Principals {
  import opened Base

  type UserId = string

  /** The `role` enum of the user schema: `customer`, `seller`, `admin`. */
  datatype Role = Customer | Seller | Admin

  /** The string the schema stores for a role. */
  function RoleName(r: Role): string
  {
    match r
    case Customer => "customer"
    case Seller => "seller"
    case Admin => "admin"
  }

  /** Casting the request's `role` onto the schema: an absent role takes the
      default `customer`; a given one must be one of the enum's strings,
      otherwise validation fails (`None`). */
  function ParseRole(name: Option<string>): (r: Option<Role>)
    ensures name.None? ==> r == Some(Customer)
    ensures name.Some? ==> (r.Some? <==> name.value in ["customer", "seller", "admin"])
    ensures name.Some? && r.Some? ==> RoleName(r.value) == name.value
  {
    match name
    case None => Some(Customer)
    case Some(s) =>
      if s == "customer" then Some(Customer)
      else if s == "seller" then Some(Seller)
      else if s == "admin" then Some(Admin)
      else None
  }

  /** Every role survives the trip to its stored string and back. */
  lemma RoleRoundTrip(r: Role)
    ensures ParseRole(Some(RoleName(r))) == Some(r)
  {
  }

  /** The authenticated caller of a protected route. */
  datatype Principal = Principal(userId: UserId, role: Role)
}
