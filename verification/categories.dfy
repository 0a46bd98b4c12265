/** The category document of models/Category.js: fields, defaults, setters,
    validators and unique keys. `isActive` is optional because an update
    can write `undefined` into it, which removes the field. */
module Categories {
  import opened Base
  import opened Text

  datatype Category = Category(
    categoryId: string,
    name: string,
    slug: string,
    description: Option<string>,
    parentCategoryId: Option<string>,
    isActive: Option<bool>)

  function IdOf(c: Category): string
  {
    c.categoryId
  }

  function NameOf(c: Category): string
  {
    c.name
  }

  function SlugOf(c: Category): string
  {
    c.slug
  }

  /** What the `trim` setters of `name` and `description` and the
      `lowercase` setter of `slug` guarantee of the stored strings. */
  predicate Normalized(c: Category)
  {
    && Trimmed(c.name)
    && NoUpper(c.slug)
    && (c.description.Some? ==> Trimmed(c.description.value))
  }

  /** The validators of the schema: the three required paths. */
  predicate Conforms(c: Category)
  {
    c.categoryId != "" && c.name != "" && c.slug != ""
  }

  /** Document validation: the first path whose validator fails, if any. */
  function Violation(c: Category): (path: Option<string>)
    ensures path.None? <==> Conforms(c)
  {
    if c.categoryId == "" then Some("categoryId")
    else if c.name == "" then Some("name")
    else if c.slug == "" then Some("slug")
    else None
  }

  /** A new category as `new Category({ name, slug, description,
      parentCategoryId })` builds it: setters applied, active by default,
      and no parent unless one is given. */
  function NewCategory(categoryId: string, name: string, slug: string,
                       description: Option<string>, parentCategoryId: Option<string>): (c: Category)
    ensures Normalized(c)
    ensures c.categoryId == categoryId && c.name == Trim(name) && c.slug == Lower(slug)
    ensures c.parentCategoryId == parentCategoryId
    ensures c.isActive == Some(true)
  {
    TrimSpec(name);
    LowerFacts(slug);
    Category(categoryId, Trim(name), Lower(slug), TrimDescription(description), parentCategoryId, Some(true))
  }

  /** The `trim` setter of `description`, which leaves an absent value absent. */
  function TrimDescription(d: Option<string>): (r: Option<string>)
    ensures r.Some? <==> d.Some?
    ensures r.Some? ==> Trimmed(r.value)
  {
    match d
    case None => None
    case Some(text) => TrimSpec(text); Some(Trim(text))
  }
}
