/** The database: the three collections, the counter of issued refresh
    tokens, the invariant every stored document keeps, and `save()` for each
    model (validators, then pre-save hooks, then the unique indexes). */
module Database {
  import opened Base
  import opened Collections
  import opened Http
  import Users
  import Products
  import Categories

  datatype Store = Store(
    users: seq<Users.User>,
    products: seq<Products.Product>,
    categories: seq<Categories.Category>,
    issued: nat)

  /** A handler's effect: the store afterwards and what it answers. */
  datatype Step<+R> = Step(store: Store, outcome: Outcome<R>)

  predicate UsersValid(us: seq<Users.User>)
  {
    && (forall i :: 0 <= i < |us| ==>
          Users.Conforms(us[i]) && Users.Normalized(us[i]) && us[i].password.Hashed?)
    && Unique(us, Users.IdOf)
    && Unique(us, Users.EmailOf)
  }

  predicate ProductsValid(ps: seq<Products.Product>)
  {
    && (forall i :: 0 <= i < |ps| ==> Products.Conforms(ps[i]) && Products.Normalized(ps[i]))
    && Unique(ps, Products.IdOf)
    && Unique(ps, Products.SlugOf)
    && Unique(ps, Products.SkuOf)
  }

  predicate CategoriesValid(cs: seq<Categories.Category>)
  {
    && (forall i :: 0 <= i < |cs| ==> Categories.Conforms(cs[i]) && Categories.Normalized(cs[i]))
    && Unique(cs, Categories.IdOf)
    && Unique(cs, Categories.NameOf)
    && Unique(cs, Categories.SlugOf)
  }

  /** Every stored document passed its validators, went through its setters
      (and, for a user, the password hook), and no unique index is broken. */
  predicate Valid(st: Store)
  {
    UsersValid(st.users) && ProductsValid(st.products) && CategoriesValid(st.categories)
  }

  /** `User.findOne({ email })`, with the setters of `email` applied to the
      filter. */
  function UserByEmail(us: seq<Users.User>, email: string): (r: Option<nat>)
    ensures r.Some? ==> r.value < |us| && us[r.value].email == Users.NormalizeEmail(email)
    ensures r.Some? ==> forall j :: 0 <= j < r.value ==> us[j].email != Users.NormalizeEmail(email)
    ensures r.None? <==> forall j :: 0 <= j < |us| ==> us[j].email != Users.NormalizeEmail(email)
  {
    FindFirst(us, (u: Users.User) => u.email == Users.NormalizeEmail(email))
  }

  /** A user appended under an e-mail nobody else has is the one a lookup
      by that e-mail finds. */
  lemma UserByEmailOfLast(us: seq<Users.User>, u: Users.User, email: string)
    requires UserByEmail(us, email).None?
    requires u.email == Users.NormalizeEmail(email)
    ensures UserByEmail(us + [u], email) == Some(|us|)
  {
    var vs := us + [u];
    assert vs[|us|] == u;
    assert forall j :: 0 <= j < |us| ==> vs[j] == us[j];
  }

  /** A lookup by e-mail only looks at the e-mails: two collections with
      the same e-mails in the same places answer it alike. */
  lemma UserByEmailSameEmails(us: seq<Users.User>, vs: seq<Users.User>, email: string)
    requires |us| == |vs| && forall j :: 0 <= j < |us| ==> us[j].email == vs[j].email
    ensures UserByEmail(us, email) == UserByEmail(vs, email)
  {
    var r, t := UserByEmail(us, email), UserByEmail(vs, email);
    if r.Some? && t.Some? {
      assert !(r.value < t.value) && !(t.value < r.value);
    }
  }

  /** `User.findOne({ userId })`. */
  function UserById(us: seq<Users.User>, userId: string): (r: Option<nat>)
    ensures r.Some? ==> r.value < |us| && us[r.value].userId == userId
    ensures r.Some? ==> forall j :: 0 <= j < r.value ==> us[j].userId != userId
    ensures r.None? <==> forall j :: 0 <= j < |us| ==> us[j].userId != userId
  {
    FindFirst(us, (u: Users.User) => u.userId == userId)
  }

  /** A lookup by `userId` only looks at the ids: two collections with the
      same ids in the same places answer it alike. */
  lemma UserByIdSameIds(us: seq<Users.User>, vs: seq<Users.User>, userId: string)
    requires |us| == |vs| && forall j :: 0 <= j < |us| ==> us[j].userId == vs[j].userId
    ensures UserById(us, userId) == UserById(vs, userId)
  {
    var r, t := UserById(us, userId), UserById(vs, userId);
    if r.Some? && t.Some? {
      assert !(r.value < t.value) && !(t.value < r.value);
    }
  }

  /** Under the unique index on `userId`, a lookup finds the one user with
      that id. */
  lemma UserByIdUnique(us: seq<Users.User>, i: nat)
    requires Unique(us, Users.IdOf) && i < |us|
    ensures UserById(us, us[i].userId) == Some(i)
  {
    var r := UserById(us, us[i].userId);
    assert r.Some?;
    assert Users.IdOf(us[r.value]) == Users.IdOf(us[i]);
  }

  /** Writing a user back with the same `userId` and `email` passes the
      unique indexes, and passes validation when the fields still conform. */
  lemma ResaveUser(st: Store, i: nat, u: Users.User)
    requires Unique(st.users, Users.IdOf) && Unique(st.users, Users.EmailOf) && i < |st.users|
    requires u.userId == st.users[i].userId && u.email == st.users[i].email
    requires Users.Conforms(u)
    ensures SaveUser(st, Some(i), u).Ok?
  {
    RewriteNoClash(st.users, i, u, Users.IdOf);
    RewriteNoClash(st.users, i, u, Users.EmailOf);
  }

  /** Replacing a user by a conforming, normalized record with a hashed
      password and the same `userId` and `email` keeps the store valid. */
  lemma ReplaceUserKeepsValid(st: Store, i: nat, u: Users.User)
    requires Valid(st) && i < |st.users|
    requires u.userId == st.users[i].userId && u.email == st.users[i].email
    requires Users.Conforms(u) && Users.Normalized(u) && u.password.Hashed?
    ensures Valid(st.(users := st.users[i := u]))
  {
    ResaveUser(st, i, u);
    SaveUserKeepsValid(st, Some(i), u);
  }

  function ValidationError(model: string, path: string): Error
  {
    Error("ValidationError", model + " validation failed: " + path)
  }

  function DuplicateKey(index: string): Error
  {
    Error("MongoServerError", "E11000 duplicate key error: " + index)
  }

  /** `user.save()` of the document at `at` (or of a new one): the
      validators, then the pre-save hook, then the unique indexes on `userId`
      and `email`. A failure leaves the store as it was. */
  function SaveUser(st: Store, at: Option<nat>, u: Users.User): (r: Result<Store>)
    requires at.Some? ==> at.value < |st.users|
    ensures r.Ok? <==> Users.Conforms(u) && !Clashes(st.users, at, u, Users.IdOf)
                                         && !Clashes(st.users, at, u, Users.EmailOf)
    ensures r.Ok? ==> r.value == st.(users := Put(st.users, at, Users.PreSave(u)))
  {
    match Users.Violation(u)
    case Some(path) => Err(ValidationError("User", path))
    case None =>
      if Clashes(st.users, at, u, Users.IdOf) then Err(DuplicateKey("userId"))
      else if Clashes(st.users, at, u, Users.EmailOf) then Err(DuplicateKey("email"))
      else Ok(st.(users := Put(st.users, at, Users.PreSave(u))))
  }

  /** `product.save()`: the validators, then the unique indexes on
      `productId`, `slug` and `sku`. */
  function SaveProduct(st: Store, at: Option<nat>, p: Products.Product): (r: Result<Store>)
    requires at.Some? ==> at.value < |st.products|
    ensures r.Ok? <==> Products.Conforms(p) && !Clashes(st.products, at, p, Products.IdOf)
                                            && !Clashes(st.products, at, p, Products.SlugOf)
                                            && !Clashes(st.products, at, p, Products.SkuOf)
    ensures r.Ok? ==> r.value == st.(products := Put(st.products, at, p))
  {
    match Products.Violation(p)
    case Some(path) => Err(ValidationError("Product", path))
    case None =>
      if Clashes(st.products, at, p, Products.IdOf) then Err(DuplicateKey("productId"))
      else if Clashes(st.products, at, p, Products.SlugOf) then Err(DuplicateKey("slug"))
      else if Clashes(st.products, at, p, Products.SkuOf) then Err(DuplicateKey("sku"))
      else Ok(st.(products := Put(st.products, at, p)))
  }

  /** `category.save()`: the validators, then the unique indexes on
      `categoryId`, `name` and `slug`. */
  function SaveCategory(st: Store, at: Option<nat>, c: Categories.Category): (r: Result<Store>)
    requires at.Some? ==> at.value < |st.categories|
    ensures r.Ok? <==> Categories.Conforms(c) && !Clashes(st.categories, at, c, Categories.IdOf)
                                              && !Clashes(st.categories, at, c, Categories.NameOf)
                                              && !Clashes(st.categories, at, c, Categories.SlugOf)
    ensures r.Ok? ==> r.value == st.(categories := Put(st.categories, at, c))
  {
    match Categories.Violation(c)
    case Some(path) => Err(ValidationError("Category", path))
    case None =>
      if Clashes(st.categories, at, c, Categories.IdOf) then Err(DuplicateKey("categoryId"))
      else if Clashes(st.categories, at, c, Categories.NameOf) then Err(DuplicateKey("name"))
      else if Clashes(st.categories, at, c, Categories.SlugOf) then Err(DuplicateKey("slug"))
      else Ok(st.(categories := Put(st.categories, at, c)))
  }

  /** A successful user save keeps the store valid, provided the document
      went through its setters. */
  lemma SaveUserKeepsValid(st: Store, at: Option<nat>, u: Users.User)
    requires at.Some? ==> at.value < |st.users|
    requires Valid(st) && Users.Normalized(u) && SaveUser(st, at, u).Ok?
    ensures Valid(SaveUser(st, at, u).value)
  {
    var v := Users.PreSave(u);
    Users.PreSaveSpec(u);
    assert Users.IdOf(v) == Users.IdOf(u) && Users.EmailOf(v) == Users.EmailOf(u);
    PutKeepsUnique(st.users, at, v, Users.IdOf);
    PutKeepsUnique(st.users, at, v, Users.EmailOf);
    var us := Put(st.users, at, v);
    forall i | 0 <= i < |us|
      ensures Users.Conforms(us[i]) && Users.Normalized(us[i]) && us[i].password.Hashed?
    {
      if at.None? && i == |st.users| {
        assert us[i] == v;
      } else if at.Some? && i == at.value {
        assert us[i] == v;
      } else {
        assert us[i] == st.users[i];
      }
    }
  }

  /** A successful product save keeps the store valid, provided the document
      went through its setters. */
  lemma SaveProductKeepsValid(st: Store, at: Option<nat>, p: Products.Product)
    requires at.Some? ==> at.value < |st.products|
    requires Valid(st) && Products.Normalized(p) && SaveProduct(st, at, p).Ok?
    ensures Valid(SaveProduct(st, at, p).value)
  {
    PutKeepsUnique(st.products, at, p, Products.IdOf);
    PutKeepsUnique(st.products, at, p, Products.SlugOf);
    PutKeepsUnique(st.products, at, p, Products.SkuOf);
    var ps := Put(st.products, at, p);
    forall i | 0 <= i < |ps|
      ensures Products.Conforms(ps[i]) && Products.Normalized(ps[i])
    {
      if (at.None? && i == |st.products|) || (at.Some? && i == at.value) {
        assert ps[i] == p;
      } else {
        assert ps[i] == st.products[i];
      }
    }
  }

  /** A successful category save keeps the store valid, provided the
      document went through its setters. */
  lemma SaveCategoryKeepsValid(st: Store, at: Option<nat>, c: Categories.Category)
    requires at.Some? ==> at.value < |st.categories|
    requires Valid(st) && Categories.Normalized(c) && SaveCategory(st, at, c).Ok?
    ensures Valid(SaveCategory(st, at, c).value)
  {
    PutKeepsUnique(st.categories, at, c, Categories.IdOf);
    PutKeepsUnique(st.categories, at, c, Categories.NameOf);
    PutKeepsUnique(st.categories, at, c, Categories.SlugOf);
    var cs := Put(st.categories, at, c);
    forall i | 0 <= i < |cs|
      ensures Categories.Conforms(cs[i]) && Categories.Normalized(cs[i])
    {
      if (at.None? && i == |st.categories|) || (at.Some? && i == at.value) {
        assert cs[i] == c;
      } else {
        assert cs[i] == st.categories[i];
      }
    }
  }
}
