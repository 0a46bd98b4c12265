/** controllers/productController.js: creating a product from a form and its
    uploaded images, the public paged listing, reading one product, the
    owner-or-admin update with its `x || old` merge, and the soft delete. */
module Catalog {
  import opened Base
  import opened Text
  import opened Principals
  import opened Collections
  import opened Http
  import opened Database
  import Products

  /** The fields of `POST /api/products` the handler reads (prices in whole
      cents; `specifications` is not modelled). */
  datatype ProductForm = ProductForm(
    name: Option<string>, description: Option<string>, price: Option<int>, stock: Option<int>,
    sku: Option<string>, categoryId: Option<string>, tags: Option<string>)

  /** The fields of `PUT /api/products/:productId` the handler reads. */
  datatype ProductPatch = ProductPatch(
    name: Option<string>, description: Option<string>, price: Option<int>, stock: Option<int>,
    categoryId: Option<string>)

  datatype CatalogReply =
    | Created(product: Products.Product)
    | Page(products: seq<Products.Product>, page: int, pages: int)
    | Found(product: Products.Product)
    | Changed(product: Products.Product)
    | Deleted

  const PageSize := 10
  const UploadPrefix := "/uploads/"
  const NoImages := "At least one image is required."
  const ProductNotFound := "Product not found"
  const NotAllowedToUpdate := "User not authorized to update this product"
  const NotAllowedToDelete := "User not authorized to delete this product"

  /** `createSlug(undefined)` throws before anything is saved. */
  const NoName := Error("TypeError", "Cannot read properties of undefined (reading 'toLowerCase')")

  /** A negative `skip` is refused by the database; `getProducts` has no
      `try`, so the rejection escapes the handler. */
  const NegativeSkip := Error("MongoServerError", "Skip value must be non-negative")
  /** A keyword the database cannot compile as a regular expression (such
      as `(` or `[`) fails the count; this too escapes `getProducts`. */
  const BadPattern := Error("MongoServerError", "Regular expression is invalid")

  /** `Product.findOne({ productId })`. */
  function ProductById(ps: seq<Products.Product>, productId: string): (r: Option<nat>)
    ensures r.Some? ==> r.value < |ps| && ps[r.value].productId == productId
    ensures r.Some? ==> forall j :: 0 <= j < r.value ==> ps[j].productId != productId
    ensures r.None? <==> forall j :: 0 <= j < |ps| ==> ps[j].productId != productId
  {
    FindFirst(ps, (p: Products.Product) => p.productId == productId)
  }

  /** `Product.findOne({ productId, isActive: true })`. */
  function ActiveProductById(ps: seq<Products.Product>, productId: string): (r: Option<nat>)
    ensures r.Some? ==> r.value < |ps| && ps[r.value].productId == productId && ps[r.value].isActive
    ensures r.None? <==> forall j :: 0 <= j < |ps| ==> !(ps[j].productId == productId && ps[j].isActive)
  {
    FindFirst(ps, (p: Products.Product) => p.productId == productId && p.isActive)
  }

  /** The owner-or-admin gate of update and delete. */
  predicate MayEdit(caller: Principal, p: Products.Product)
  {
    p.sellerId == caller.userId || caller.role == Admin
  }

  /** The image paths stored for the uploaded files, in upload order. */
  function ImagePaths(files: seq<string>): (r: seq<string>)
    ensures |r| == |files|
    ensures forall k :: 0 <= k < |r| ==> r[k] == UploadPrefix + files[k]
  {
    seq(|files|, k requires 0 <= k < |files| => UploadPrefix + files[k])
  }

  /** `tags ? tags.split(',') : []`. */
  function TagList(tags: Option<string>): (r: seq<string>)
    ensures !TruthyText(tags) ==> r == []
    ensures TruthyText(tags) ==> Join(r, ',') == tags.value && |r| >= 1
  {
    if TruthyText(tags) then JoinSplit(tags.value, ','); Split(tags.value, ',') else []
  }

  /** The document `new Product({...})` builds from a form with a name and a
      price, after the setters and the schema defaults. Absent strings are
      left empty, which the `required` validators refuse as they refuse
      `undefined`. */
  function Drafted(form: ProductForm, name: string, price: int, sellerId: UserId,
                   images: seq<string>, productId: string): (p: Products.Product)
    ensures Products.Normalized(p)
    ensures p.productId == productId && p.sellerId == sellerId && p.images == images
    ensures p.name == Trim(name) && p.slug == CreateSlug(name) && p.price == price
    ensures p.stock == (if form.stock.Some? then form.stock.value else Products.DefaultStock)
    ensures p.discountPrice.None? && p.rating == Products.DefaultRating && p.isActive
  {
    TrimSpec(name);
    SlugShape(name);
    LowerFacts(CreateSlug(name));
    Products.Product(
      productId, Trim(name), Lower(CreateSlug(name)),
      if form.description.Some? then form.description.value else "",
      price, None,
      if form.stock.Some? then form.stock.value else Products.DefaultStock,
      if form.sku.Some? then form.sku.value else "",
      if form.categoryId.Some? then form.categoryId.value else "",
      sellerId, images, TagList(form.tags), Products.DefaultRating, true)
  }

  /** `createProduct`: no uploaded image is 400 before anything else; a
      missing name throws in `createSlug`; otherwise the new document is
      validated and saved, and returned with 201 exactly when it conforms
      and its id, slug and SKU are free. A product the caller
      creates is theirs, its slug is made from the name as sent, and its
      tags are the comma-separated pieces of the tag string. */
  function CreateProduct(st: Store, caller: Principal, form: ProductForm, files: seq<string>,
                         productId: string): (s: Step<CatalogReply>)
    ensures files == [] ==> s == Step(st, Refuse(400, NoImages))
    ensures files != [] && form.name.None? ==> s == Step(st, Forward(NoName))
    ensures !s.outcome.Reply? ==> s.store == st
    ensures files != [] && form.name.Some? && form.price.Some? ==>
              (s.outcome.Reply? <==>
                 var p := Drafted(form, form.name.value, form.price.value, caller.userId, ImagePaths(files), productId);
                 && Products.Conforms(p) && !Clashes(st.products, None, p, Products.IdOf)
                 && !Clashes(st.products, None, p, Products.SlugOf) && !Clashes(st.products, None, p, Products.SkuOf))
    ensures s.outcome.Reply? ==>
              && s.outcome.status == 201 && s.outcome.body.Created?
              && var p := s.outcome.body.product;
              && s.store == st.(products := st.products + [p])
              && form.name.Some? && form.price.Some?
              && p.productId == productId && p.sellerId == caller.userId
              && p.name == Trim(form.name.value) && p.slug == CreateSlug(form.name.value)
              && p.price == form.price.value
              && p.images == ImagePaths(files) && p.tags == TagList(form.tags)
              && p.stock == (if form.stock.Some? then form.stock.value else Products.DefaultStock)
              && p.discountPrice.None? && p.rating == Products.DefaultRating && p.isActive
  {
    if |files| == 0 then Step(st, Refuse(400, NoImages))
    else
      match form.name
      case None => Step(st, Forward(NoName))
      case Some(name) =>
        match form.price
        case None => Step(st, Forward(ValidationError("Product", "price")))
        case Some(price) =>
          var p := Drafted(form, name, price, caller.userId, ImagePaths(files), productId);
          match SaveProduct(st, None, p)
          case Err(e) => Step(st, Forward(e))
          case Ok(st') => Step(st', Reply(201, Created(p)))
  }

  /** The page `getProducts` serves: `Number(pageNumber) || 1`, so an
      absent, unparsable or zero page number means page 1. */
  function PageOf(pageNumber: Option<int>): (page: int)
    ensures !TruthyNumber(pageNumber) ==> page == 1
    ensures TruthyNumber(pageNumber) ==> page == pageNumber.value && page != 0
  {
    if TruthyNumber(pageNumber) then pageNumber.value else 1
  }

  /** The products the listing counts and pages through: the active ones,
      and, when a keyword is given, only those whose name it matches
      (`matches` stands for the case-insensitive `$regex` filter). */
  function Listed(ps: seq<Products.Product>, keyword: Option<string>, matches: (string, string) -> bool)
    : (r: seq<Products.Product>)
    ensures forall k :: 0 <= k < |r| ==>
              r[k] in ps && r[k].isActive && (TruthyText(keyword) ==> matches(keyword.value, r[k].name))
    ensures forall j :: 0 <= j < |ps| && ps[j].isActive && (TruthyText(keyword) ==> matches(keyword.value, ps[j].name))
              ==> ps[j] in r
    ensures forall p :: multiset(r)[p] ==
              if p.isActive && (TruthyText(keyword) ==> matches(keyword.value, p.name)) then multiset(ps)[p] else 0
  {
    var shown := (p: Products.Product) => p.isActive && (!TruthyText(keyword) || matches(keyword.value, p.name));
    FilterCounts(ps, shown);
    Filter(ps, shown)
  }

  /** `Math.ceil(count / pageSize)` for a count of documents. */
  function PageCount(count: nat): (pages: nat)
    ensures (pages - 1) * PageSize < count <= pages * PageSize
  {
    (count + PageSize - 1) / PageSize
  }

  /** A search the database accepts: no keyword, or one that is a valid
      regular expression (`isPattern` stands for the database's pattern
      syntax). */
  predicate Searchable(keyword: Option<string>, isPattern: string -> bool)
  {
    !TruthyText(keyword) || isPattern(keyword.value)
  }

  /** `getProducts`: the requested page of the listed products, at most ten,
      in collection order, with the page number and the page count. Nothing
      in the handler catches a rejection: a keyword that is not a valid
      regular expression fails the count, and a page number below 1 makes
      the skip of the query that follows negative. The store is never
      written. */
  function GetProducts(st: Store, pageNumber: Option<int>, keyword: Option<string>,
                       isPattern: string -> bool, matches: (string, string) -> bool): (s: Step<CatalogReply>)
    ensures s.store == st
    ensures s.outcome.Unhandled? <==> !Searchable(keyword, isPattern) || PageOf(pageNumber) < 1
    ensures s.outcome.Reply? <==> Searchable(keyword, isPattern) && PageOf(pageNumber) >= 1
    ensures !Searchable(keyword, isPattern) ==> s.outcome == Unhandled(BadPattern)
    ensures s.outcome.Reply? ==>
              && var listed := Listed(st.products, keyword, matches);
              && var skip := PageSize * (PageOf(pageNumber) - 1);
              && s.outcome.status == 200 && s.outcome.body.Page?
              && s.outcome.body.page == PageOf(pageNumber)
              && s.outcome.body.pages == PageCount(|listed|)
              && |s.outcome.body.products| <= PageSize
              && (|s.outcome.body.products| < PageSize ==> skip + |s.outcome.body.products| >= |listed|)
              && forall k :: 0 <= k < |s.outcome.body.products| ==>
                   skip + k < |listed| && s.outcome.body.products[k] == listed[skip + k]
  {
    var page := PageOf(pageNumber);
    if !Searchable(keyword, isPattern) then Step(st, Unhandled(BadPattern))
    // the skip `PageSize * (page - 1)` is negative exactly when the page is below 1
    else if page < 1 then Step(st, Unhandled(NegativeSkip))
    else Step(st, Reply(200, PageBody(Listed(st.products, keyword, matches), page)))
  }

  /** The body of one page of `listed`: the consecutive run of at most ten
      products that starts after the `10 * (page - 1)` skipped ones. */
  function PageBody(listed: seq<Products.Product>, page: int): (r: CatalogReply)
    requires page >= 1
    ensures r.Page? && r.page == page && r.pages == PageCount(|listed|)
    ensures |r.products| <= PageSize
    ensures |r.products| < PageSize ==> PageSize * (page - 1) + |r.products| >= |listed|
    ensures forall k :: 0 <= k < |r.products| ==>
              PageSize * (page - 1) + k < |listed| && r.products[k] == listed[PageSize * (page - 1) + k]
  {
    Page(Window(listed, PageSize * (page - 1), PageSize), page, PageCount(|listed|))
  }

  /** Every listed product is served exactly where paging puts it: the
      `j`-th one is item `j % 10` of page `j / 10 + 1`, and that page is
      within the page count. */
  lemma ListedOnItsPage(st: Store, keyword: Option<string>, isPattern: string -> bool,
                        matches: (string, string) -> bool, j: nat)
    requires Searchable(keyword, isPattern)
    requires j < |Listed(st.products, keyword, matches)|
    ensures var o := GetProducts(st, Some(j / PageSize + 1), keyword, isPattern, matches).outcome;
            && o.Reply? && j % PageSize < |o.body.products|
            && o.body.products[j % PageSize] == Listed(st.products, keyword, matches)[j]
            && o.body.page <= o.body.pages
  {
    var listed := Listed(st.products, keyword, matches);
    var skip := PageSize * (j / PageSize);
    assert skip + j % PageSize == j;
    var o := GetProducts(st, Some(j / PageSize + 1), keyword, isPattern, matches).outcome;
    assert |o.body.products| == if skip + PageSize <= |listed| then PageSize else |listed| - skip;
  }

  /** A page past the last one is empty. */
  lemma PastTheLastPage(st: Store, page: int, keyword: Option<string>, isPattern: string -> bool,
                        matches: (string, string) -> bool)
    requires Searchable(keyword, isPattern)
    requires page > PageCount(|Listed(st.products, keyword, matches)|) && page >= 1
    ensures GetProducts(st, Some(page), keyword, isPattern, matches).outcome.body.products == []
  {
  }

  /** `getProductById`: the active product with that id, or 404. Inactive
      (soft-deleted) products are not found. */
  function GetProductById(st: Store, productId: string): (s: Step<CatalogReply>)
    ensures s.store == st
    ensures s.outcome.Reply? <==> exists j :: 0 <= j < |st.products| && st.products[j].productId == productId
                                                                    && st.products[j].isActive
    ensures !s.outcome.Reply? ==> s.outcome == Refuse(404, ProductNotFound)
    ensures s.outcome.Reply? ==>
              && s.outcome.status == 200 && s.outcome.body.Found?
              && s.outcome.body.product in st.products
              && s.outcome.body.product.productId == productId && s.outcome.body.product.isActive
  {
    match ActiveProductById(st.products, productId)
    case None => Step(st, Refuse(404, ProductNotFound))
    case Some(i) => Step(st, Reply(200, Found(st.products[i])))
  }

  /** The merge of `updateProduct`: each of name, description, price, stock
      and category takes the request value only when it is truthy — so a
      price or stock of 0 cannot be set — the slug is remade only when a
      name is given, and every other field is kept. */
  function Patched(p: Products.Product, patch: ProductPatch): (q: Products.Product)
    ensures Products.Normalized(p) ==> Products.Normalized(q)
    ensures q.(name := p.name, slug := p.slug, description := p.description, price := p.price,
               stock := p.stock, categoryId := p.categoryId) == p
    ensures q.name == (if TruthyText(patch.name) then Trim(patch.name.value) else p.name)
    ensures q.slug == (if TruthyText(patch.name) then CreateSlug(patch.name.value) else p.slug)
    ensures q.description == (if TruthyText(patch.description) then patch.description.value else p.description)
    ensures q.price == (if TruthyNumber(patch.price) then patch.price.value else p.price)
    ensures q.stock == (if TruthyNumber(patch.stock) then patch.stock.value else p.stock)
    ensures q.categoryId == (if TruthyText(patch.categoryId) then patch.categoryId.value else p.categoryId)
  {
    if TruthyText(patch.name) then
      var name := patch.name.value;
      TrimSpec(name);
      SlugShape(name);
      LowerFacts(CreateSlug(name));
      Merged(p, patch).(name := Trim(name), slug := Lower(CreateSlug(name)))
    else Merged(p, patch)
  }

  /** The four merges of `updateProduct` that involve no setter. */
  function Merged(p: Products.Product, patch: ProductPatch): Products.Product
  {
    p.(description := if TruthyText(patch.description) then patch.description.value else p.description,
       price := if TruthyNumber(patch.price) then patch.price.value else p.price,
       stock := if TruthyNumber(patch.stock) then patch.stock.value else p.stock,
       categoryId := if TruthyText(patch.categoryId) then patch.categoryId.value else p.categoryId)
  }

  /** `updateProduct`: 404 for an unknown id, 403 unless the caller is the
      seller or an admin (both before any write), otherwise the merged
      document is validated and saved and returned. */
  function UpdateProduct(st: Store, caller: Principal, productId: string, patch: ProductPatch): (s: Step<CatalogReply>)
    ensures ProductById(st.products, productId).None? ==> s == Step(st, Refuse(404, ProductNotFound))
    ensures (ProductById(st.products, productId).Some?
             && !MayEdit(caller, st.products[ProductById(st.products, productId).value]))
            ==> s == Step(st, Refuse(403, NotAllowedToUpdate))
    ensures !s.outcome.Reply? ==> s.store == st
    ensures s.outcome.Reply? ==>
              && ProductById(st.products, productId).Some?
              && var i := ProductById(st.products, productId).value;
              && MayEdit(caller, st.products[i])
              && s.store == st.(products := st.products[i := Patched(st.products[i], patch)])
              && s.outcome == Reply(200, Changed(Patched(st.products[i], patch)))
  {
    match ProductById(st.products, productId)
    case None => Step(st, Refuse(404, ProductNotFound))
    case Some(i) =>
      if !MayEdit(caller, st.products[i]) then Step(st, Refuse(403, NotAllowedToUpdate))
      else
        var q := Patched(st.products[i], patch);
        match SaveProduct(st, Some(i), q)
        case Err(e) => Step(st, Forward(e))
        case Ok(st') => Step(st', Reply(200, Changed(q)))
  }

  /** Under the unique indexes an allowed update fails only through the
      validators or when the new name's slug is taken: it succeeds exactly
      when the merged document conforms and no other product has its slug. */
  lemma UpdateProductExactly(st: Store, caller: Principal, productId: string, patch: ProductPatch)
    requires Unique(st.products, Products.IdOf) && Unique(st.products, Products.SkuOf)
    requires ProductById(st.products, productId).Some?
    requires MayEdit(caller, st.products[ProductById(st.products, productId).value])
    ensures var i := ProductById(st.products, productId).value;
            var q := Patched(st.products[i], patch);
            (UpdateProduct(st, caller, productId, patch).outcome.Reply?)
              <==> (Products.Conforms(q) && !Clashes(st.products, Some(i), q, Products.SlugOf))
  {
    var i := ProductById(st.products, productId).value;
    var q := Patched(st.products[i], patch);
    RewriteNoClash(st.products, i, q, Products.IdOf);
    RewriteNoClash(st.products, i, q, Products.SkuOf);
  }

  /** The falsy-value quirk of the merge: asking for a stock or price of 0
      leaves the stored value as it was. */
  lemma ZeroCannotBeSet(p: Products.Product, patch: ProductPatch)
    requires patch.stock == Some(0) || patch.price == Some(0)
    ensures patch.stock == Some(0) ==> Patched(p, patch).stock == p.stock
    ensures patch.price == Some(0) ==> Patched(p, patch).price == p.price
  {
  }

  /** `deleteProduct`: the same 404 and 403 gates as update; otherwise the
      product is marked inactive, and nothing else about it changes, and
      the answer is 204 with no body. */
  function DeleteProduct(st: Store, caller: Principal, productId: string): (s: Step<CatalogReply>)
    ensures ProductById(st.products, productId).None? ==> s == Step(st, Refuse(404, ProductNotFound))
    ensures (ProductById(st.products, productId).Some?
             && !MayEdit(caller, st.products[ProductById(st.products, productId).value]))
            ==> s == Step(st, Refuse(403, NotAllowedToDelete))
    ensures !s.outcome.Reply? ==> s.store == st
    ensures s.outcome.Reply? ==>
              && ProductById(st.products, productId).Some?
              && var i := ProductById(st.products, productId).value;
              && MayEdit(caller, st.products[i])
              && s.store == st.(products := st.products[i := st.products[i].(isActive := false)])
              && s.outcome == Reply(204, Deleted)
  {
    match ProductById(st.products, productId)
    case None => Step(st, Refuse(404, ProductNotFound))
    case Some(i) =>
      if !MayEdit(caller, st.products[i]) then Step(st, Refuse(403, NotAllowedToDelete))
      else
        match SaveProduct(st, Some(i), st.products[i].(isActive := false))
        case Err(e) => Step(st, Forward(e))
        case Ok(st') => Step(st', Reply(204, Deleted))
  }

  /** On a valid store an allowed delete always answers 204, also when the
      product is already inactive. */
  lemma DeleteProductSucceeds(st: Store, caller: Principal, productId: string)
    requires ProductsValid(st.products)
    requires ProductById(st.products, productId).Some?
    requires MayEdit(caller, st.products[ProductById(st.products, productId).value])
    ensures DeleteProduct(st, caller, productId).outcome == Reply(204, Deleted)
  {
    var i := ProductById(st.products, productId).value;
    var q := st.products[i].(isActive := false);
    assert Products.Conforms(st.products[i]);
    RewriteNoClash(st.products, i, q, Products.IdOf);
    RewriteNoClash(st.products, i, q, Products.SlugOf);
    RewriteNoClash(st.products, i, q, Products.SkuOf);
  }

  /** Deleting twice leaves the store as deleting once. */
  lemma DeleteProductIdempotent(st: Store, caller: Principal, productId: string)
    ensures var st1 := DeleteProduct(st, caller, productId).store;
            DeleteProduct(st1, caller, productId).store == st1
  {
    var st1 := DeleteProduct(st, caller, productId).store;
    if DeleteProduct(st, caller, productId).outcome.Reply? {
      var i := ProductById(st.products, productId).value;
      assert ProductById(st1.products, productId) == Some(i) by {
        var r := ProductById(st1.products, productId);
        assert r.Some?;
        assert !(r.value < i) && !(i < r.value);
      }
      assert st1.products[i := st1.products[i].(isActive := false)] == st1.products;
    }
  }

  /** A deleted product is gone from the public reads: fetching it by id is
      404 and no listing shows it. */
  lemma DeletedIsHidden(st: Store, caller: Principal, productId: string, pageNumber: Option<int>,
                        keyword: Option<string>, isPattern: string -> bool, matches: (string, string) -> bool)
    requires Unique(st.products, Products.IdOf)
    requires DeleteProduct(st, caller, productId).outcome.Reply?
    ensures GetProductById(DeleteProduct(st, caller, productId).store, productId).outcome
              == Refuse(404, ProductNotFound)
    ensures var o := GetProducts(DeleteProduct(st, caller, productId).store, pageNumber, keyword, isPattern, matches).outcome;
            o.Reply? ==> forall k :: 0 <= k < |o.body.products| ==> o.body.products[k].productId != productId
  {
    var st1 := DeleteProduct(st, caller, productId).store;
    var i := ProductById(st.products, productId).value;
    forall j | 0 <= j < |st1.products| && st1.products[j].productId == productId
      ensures !st1.products[j].isActive
    {
      assert |st1.products| == |st.products|;
      assert st.products[j].productId == productId || j == i;
      SameKeySamePlace(st.products, Products.IdOf, i, j);
    }
  }

  /** Creating, updating and deleting products keep the store valid. */
  lemma CreateProductKeepsValid(st: Store, caller: Principal, form: ProductForm, files: seq<string>,
                                productId: string)
    requires Valid(st)
    ensures Valid(CreateProduct(st, caller, form, files, productId).store)
  {
    if CreateProduct(st, caller, form, files, productId).outcome.Reply? {
      var p := Drafted(form, form.name.value, form.price.value, caller.userId, ImagePaths(files), productId);
      SaveProductKeepsValid(st, None, p);
    }
  }

  lemma UpdateProductKeepsValid(st: Store, caller: Principal, productId: string, patch: ProductPatch)
    requires Valid(st)
    ensures Valid(UpdateProduct(st, caller, productId, patch).store)
  {
    if UpdateProduct(st, caller, productId, patch).outcome.Reply? {
      var i := ProductById(st.products, productId).value;
      SaveProductKeepsValid(st, Some(i), Patched(st.products[i], patch));
    }
  }

  lemma DeleteProductKeepsValid(st: Store, caller: Principal, productId: string)
    requires Valid(st)
    ensures Valid(DeleteProduct(st, caller, productId).store)
  {
    if DeleteProduct(st, caller, productId).outcome.Reply? {
      var i := ProductById(st.products, productId).value;
      SaveProductKeepsValid(st, Some(i), st.products[i].(isActive := false));
    }
  }

  /** The slug is made from the name as sent, before the `trim` setter runs
      on the name: a name sent with a leading blank is stored without it,
      but its slug starts with a hyphen. */
  lemma SlugOfUntrimmedName()
    ensures Trim(" Tv") == "Tv"
    ensures CreateSlug(" Tv") == "-tv"
  {
    TrimSpec(" Tv");
    assert LeadingSpaces(" Tv") == 1;
    assert Lower(" Tv") == " tv";
    assert LeadingSpaces(" tv") == 1;
    assert Hyphenate("tv") == "tv";
  }
}
