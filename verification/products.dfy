/** The product document of models/Product.js: fields, defaults, setters,
    validators and unique keys. Prices are whole cents. */
module Products {
  import opened Base
  import opened Text
  import opened Principals

  datatype Product = Product(
    productId: string,
    name: string,
    slug: string,
    description: string,
    price: int,
    discountPrice: Option<int>,
    stock: int,
    sku: string,
    categoryId: string,
    sellerId: UserId,
    images: seq<string>,
    tags: seq<string>,
    rating: real,
    isActive: bool)

  const MaxNameLength := 200
  const MinDescriptionLength := 50
  const DefaultStock := 0
  const DefaultRating := 0.0
  const MaxRating := 5.0

  function IdOf(p: Product): string
  {
    p.productId
  }

  function SlugOf(p: Product): string
  {
    p.slug
  }

  function SkuOf(p: Product): string
  {
    p.sku
  }

  /** What the `trim` setter of `name` and the `lowercase` setter of `slug`
      guarantee of the stored strings. */
  predicate Normalized(p: Product)
  {
    Trimmed(p.name) && NoUpper(p.slug)
  }

  /** The validators of the schema: required paths, the name and description
      length bounds, non-negative prices and stock, non-empty image paths
      and a rating within 0..5. */
  predicate Conforms(p: Product)
  {
    && p.productId != ""
    && p.name != "" && |p.name| <= MaxNameLength
    && p.slug != ""
    && |p.description| >= MinDescriptionLength
    && p.price >= 0
    && (p.discountPrice.Some? ==> p.discountPrice.value >= 0)
    && p.stock >= 0
    && p.sku != ""
    && p.categoryId != ""
    && p.sellerId != ""
    && (forall i :: 0 <= i < |p.images| ==> p.images[i] != "")
    && 0.0 <= p.rating <= MaxRating
  }

  /** Document validation: the first path whose validator fails, if any. */
  function Violation(p: Product): (path: Option<string>)
    ensures path.None? <==> Conforms(p)
  {
    if p.productId == "" then Some("productId")
    else if p.name == "" || |p.name| > MaxNameLength then Some("name")
    else if p.slug == "" then Some("slug")
    else if |p.description| < MinDescriptionLength then Some("description")
    else if p.price < 0 then Some("price")
    else if p.discountPrice.Some? && p.discountPrice.value < 0 then Some("discountPrice")
    else if p.stock < 0 then Some("stock")
    else if p.sku == "" then Some("sku")
    else if p.categoryId == "" then Some("categoryId")
    else if p.sellerId == "" then Some("sellerId")
    else if exists i :: 0 <= i < |p.images| && p.images[i] == "" then Some("images")
    else if !(0.0 <= p.rating <= MaxRating) then Some("rating")
    else None
  }
}
