/** controllers/categoryController.js: creating a category, listing the
    active ones, the update with its partial merge and its unconditional
    overwrites, and the soft delete. The routes admit administrators only,
    so the handlers have no gate of their own. */
module Taxonomy {
  import opened Base
  import opened Text
  import opened Collections
  import opened Http
  import opened Database
  import Categories

  /** The fields of a category request body. */
  datatype CategoryForm = CategoryForm(
    name: Option<string>, description: Option<string>, parentCategoryId: Option<string>, isActive: Option<bool>)

  datatype CategoryReply =
    | Made(category: Categories.Category)
    | Listing(categories: seq<Categories.Category>)
    | Revised(category: Categories.Category)
    | Removed

  const NameTaken := "Category name already exists."
  const CategoryNotFound := "Category not found"

  /** `createSlug(undefined)` throws before anything is read or saved. */
  const NoName := Error("TypeError", "Cannot read properties of undefined (reading 'toLowerCase')")

  /** `Category.findOne({ name })`, with the `trim` setter applied to the
      filter. */
  function CategoryByName(cs: seq<Categories.Category>, name: string): (r: Option<nat>)
    ensures r.Some? ==> r.value < |cs| && cs[r.value].name == Trim(name)
    ensures r.None? <==> forall j :: 0 <= j < |cs| ==> cs[j].name != Trim(name)
  {
    FindFirst(cs, (c: Categories.Category) => c.name == Trim(name))
  }

  /** `Category.findOne({ categoryId })`. */
  function CategoryById(cs: seq<Categories.Category>, categoryId: string): (r: Option<nat>)
    ensures r.Some? ==> r.value < |cs| && cs[r.value].categoryId == categoryId
    ensures r.Some? ==> forall j :: 0 <= j < r.value ==> cs[j].categoryId != categoryId
    ensures r.None? <==> forall j :: 0 <= j < |cs| ==> cs[j].categoryId != categoryId
  {
    FindFirst(cs, (c: Categories.Category) => c.categoryId == categoryId)
  }

  /** `createCategory`: a missing name throws in `createSlug`; a name that
      is already taken — by an active or an inactive category — is 400;
      otherwise the new category, active and with the slug of the name as
      sent, is validated and saved and returned with 201 exactly when it
      conforms and its id, name and slug are free. */
  function CreateCategory(st: Store, form: CategoryForm, categoryId: string): (s: Step<CategoryReply>)
    ensures form.name.None? ==> s == Step(st, Forward(NoName))
    ensures (form.name.Some? && CategoryByName(st.categories, form.name.value).Some?)
              ==> s == Step(st, Refuse(400, NameTaken))
    ensures !s.outcome.Reply? ==> s.store == st
    ensures form.name.Some? && CategoryByName(st.categories, form.name.value).None? ==>
              (s.outcome.Reply? <==>
                 var c := Categories.NewCategory(categoryId, form.name.value, CreateSlug(form.name.value),
                                                 form.description, form.parentCategoryId);
                 && Categories.Conforms(c) && !Clashes(st.categories, None, c, Categories.IdOf)
                 && !Clashes(st.categories, None, c, Categories.NameOf) && !Clashes(st.categories, None, c, Categories.SlugOf))
    ensures s.outcome.Reply? ==>
              && form.name.Some?
              && s.outcome.status == 201 && s.outcome.body.Made?
              && var c := s.outcome.body.category;
              && s.store == st.(categories := st.categories + [c])
              && c.categoryId == categoryId
              && c.name == Trim(form.name.value) && c.slug == CreateSlug(form.name.value)
              && (forall j :: 0 <= j < |st.categories| ==> st.categories[j].name != c.name)
              && c.description == Categories.TrimDescription(form.description)
              && c.parentCategoryId == form.parentCategoryId
              && c.isActive == Some(true)
  {
    match form.name
    case None => Step(st, Forward(NoName))
    case Some(name) =>
      var slug := CreateSlug(name);
      if CategoryByName(st.categories, name).Some? then Step(st, Refuse(400, NameTaken))
      else
        var c := Categories.NewCategory(categoryId, name, slug, form.description, form.parentCategoryId);
        SlugShape(name);
        LowerFacts(slug);
        match SaveCategory(st, None, c)
        case Err(e) => Step(st, Forward(e))
        case Ok(st') => Step(st', Reply(201, Made(c)))
  }

  /** `getCategories`: every category whose `isActive` is `true`, in
      collection order, and no other. The store is never written. */
  function GetCategories(st: Store): (s: Step<CategoryReply>)
    ensures s.store == st
    ensures s.outcome.Reply? && s.outcome.status == 200 && s.outcome.body.Listing?
    ensures var r := s.outcome.body.categories;
            && (forall k :: 0 <= k < |r| ==> r[k] in st.categories && r[k].isActive == Some(true))
            && (forall j :: 0 <= j < |st.categories| && st.categories[j].isActive == Some(true)
                  ==> st.categories[j] in r)
    ensures var r := s.outcome.body.categories;
            forall c :: multiset(r)[c] == if c.isActive == Some(true) then multiset(st.categories)[c] else 0
  {
    var active := (c: Categories.Category) => c.isActive == Some(true);
    FilterCounts(st.categories, active);
    Step(st, Reply(200, Listing(Filter(st.categories, active))))
  }

  /** The name index can never refuse a category whose name the lookup
      found free: creation answers 201 exactly when the new category
      conforms and its id and slug are not taken. */
  lemma CreateCategoryExactly(st: Store, form: CategoryForm, categoryId: string)
    requires form.name.Some? && CategoryByName(st.categories, form.name.value).None?
    ensures var c := Categories.NewCategory(categoryId, form.name.value, CreateSlug(form.name.value),
                                            form.description, form.parentCategoryId);
            CreateCategory(st, form, categoryId).outcome.Reply? <==>
              && Categories.Conforms(c) && !Clashes(st.categories, None, c, Categories.IdOf)
              && !Clashes(st.categories, None, c, Categories.SlugOf)
  {
    var c := Categories.NewCategory(categoryId, form.name.value, CreateSlug(form.name.value),
                                    form.description, form.parentCategoryId);
    assert !Clashes(st.categories, None, c, Categories.NameOf) by {
      forall j | 0 <= j < |st.categories|
        ensures Categories.NameOf(st.categories[j]) != Categories.NameOf(c)
      {
      }
    }
  }

  /** A category just created is listed, after every category listed
      before it and with nothing else added. */
  lemma CreatedIsListed(st: Store, form: CategoryForm, categoryId: string)
    requires CreateCategory(st, form, categoryId).outcome.Reply?
    ensures var s := CreateCategory(st, form, categoryId);
            GetCategories(s.store).outcome.body.categories
              == GetCategories(st).outcome.body.categories + [s.outcome.body.category]
  {
    var s := CreateCategory(st, form, categoryId);
    var c := s.outcome.body.category;
    var active := (c: Categories.Category) => c.isActive == Some(true);
    FilterConcat(st.categories, [c], active);
    assert Filter([c], active) == [c];
  }

  /** Under the unique index on `categoryId`, a deleted category is no longer
      listed, and every other listed category still is. */
  lemma DeletedIsUnlisted(st: Store, categoryId: string)
    requires Unique(st.categories, Categories.IdOf)
    requires DeleteCategory(st, categoryId).outcome.Reply?
    ensures var r := GetCategories(DeleteCategory(st, categoryId).store).outcome.body.categories;
            && (forall k :: 0 <= k < |r| ==> r[k].categoryId != categoryId)
            && (forall c :: c in GetCategories(st).outcome.body.categories && c.categoryId != categoryId ==> c in r)
  {
    var st1 := DeleteCategory(st, categoryId).store;
    var i := CategoryById(st.categories, categoryId).value;
    forall j | 0 <= j < |st1.categories| && st1.categories[j].isActive == Some(true)
      ensures st1.categories[j].categoryId != categoryId
    {
      if j < i {
        assert Categories.IdOf(st.categories[j]) != Categories.IdOf(st.categories[i]);
      } else if i < j {
        assert Categories.IdOf(st.categories[i]) != Categories.IdOf(st.categories[j]);
      }
    }
    forall c | c in GetCategories(st).outcome.body.categories && c.categoryId != categoryId
      ensures c in st1.categories
    {
      var j :| 0 <= j < |st.categories| && st.categories[j] == c;
      assert st1.categories[j] == c;
    }
  }

  /** The merge of `updateCategory`: name and description take the request
      value only when it is truthy, the slug is remade only when a name is
      given, while the parent and the active flag are overwritten with the
      request values even when those are absent. */
  function Reworked(c: Categories.Category, form: CategoryForm): (d: Categories.Category)
    ensures Categories.Normalized(c) ==> Categories.Normalized(d)
    ensures d.categoryId == c.categoryId
    ensures d.name == (if TruthyText(form.name) then Trim(form.name.value) else c.name)
    ensures d.slug == (if TruthyText(form.name) then CreateSlug(form.name.value) else c.slug)
    ensures d.description == (if TruthyText(form.description) then Some(Trim(form.description.value))
                              else c.description)
    ensures d.parentCategoryId == form.parentCategoryId
    ensures d.isActive == form.isActive
  {
    var described :=
      if TruthyText(form.description) then Categories.TrimDescription(form.description) else c.description;
    var overwritten := c.(description := described, parentCategoryId := form.parentCategoryId,
                          isActive := form.isActive);
    if TruthyText(form.name) then
      var name := form.name.value;
      TrimSpec(name);
      SlugShape(name);
      LowerFacts(CreateSlug(name));
      overwritten.(name := Trim(name), slug := Lower(CreateSlug(name)))
    else overwritten
  }

  /** `updateCategory`: 404 for an unknown id; otherwise the merged
      document is validated and saved and returned, exactly when it conforms
      and no other category holds its id, name or slug. */
  function UpdateCategory(st: Store, categoryId: string, form: CategoryForm): (s: Step<CategoryReply>)
    ensures CategoryById(st.categories, categoryId).None? ==> s == Step(st, Refuse(404, CategoryNotFound))
    ensures !s.outcome.Reply? ==> s.store == st
    ensures CategoryById(st.categories, categoryId).Some? ==>
              var i := CategoryById(st.categories, categoryId).value;
              var d := Reworked(st.categories[i], form);
              (s.outcome.Reply? <==>
                 && Categories.Conforms(d) && !Clashes(st.categories, Some(i), d, Categories.IdOf)
                 && !Clashes(st.categories, Some(i), d, Categories.NameOf)
                 && !Clashes(st.categories, Some(i), d, Categories.SlugOf))
    ensures s.outcome.Reply? ==>
              && CategoryById(st.categories, categoryId).Some?
              && var i := CategoryById(st.categories, categoryId).value;
              && s.store == st.(categories := st.categories[i := Reworked(st.categories[i], form)])
              && s.outcome == Reply(200, Revised(Reworked(st.categories[i], form)))
  {
    match CategoryById(st.categories, categoryId)
    case None => Step(st, Refuse(404, CategoryNotFound))
    case Some(i) =>
      var d := Reworked(st.categories[i], form);
      match SaveCategory(st, Some(i), d)
      case Err(e) => Step(st, Forward(e))
      case Ok(st') => Step(st', Reply(200, Revised(d)))
  }

  /** Under the unique index on `categoryId` the id never clashes, since the
      merge keeps it: an update of a known category succeeds exactly when the
      merged document conforms and no other category holds its name or
      slug. */
  lemma UpdateCategoryExactly(st: Store, categoryId: string, form: CategoryForm)
    requires Unique(st.categories, Categories.IdOf)
    requires CategoryById(st.categories, categoryId).Some?
    ensures var i := CategoryById(st.categories, categoryId).value;
            var d := Reworked(st.categories[i], form);
            UpdateCategory(st, categoryId, form).outcome.Reply? <==>
              && Categories.Conforms(d)
              && !Clashes(st.categories, Some(i), d, Categories.NameOf)
              && !Clashes(st.categories, Some(i), d, Categories.SlugOf)
  {
    var i := CategoryById(st.categories, categoryId).value;
    RewriteNoClash(st.categories, i, Reworked(st.categories[i], form), Categories.IdOf);
  }

  /** The overwrite quirk: an update that does not mention `isActive`
      removes the flag, so the category drops out of the public listing
      even though nobody deleted it. */
  lemma UpdateWithoutFlagHides(st: Store, categoryId: string, form: CategoryForm)
    requires Unique(st.categories, Categories.IdOf)
    requires form.isActive.None?
    requires UpdateCategory(st, categoryId, form).outcome.Reply?
    ensures var st1 := UpdateCategory(st, categoryId, form).store;
            var listed := GetCategories(st1).outcome.body.categories;
            forall k :: 0 <= k < |listed| ==> listed[k].categoryId != categoryId
  {
    var st1 := UpdateCategory(st, categoryId, form).store;
    var i := CategoryById(st.categories, categoryId).value;
    forall j | 0 <= j < |st1.categories| && st1.categories[j].categoryId == categoryId
      ensures st1.categories[j].isActive != Some(true)
    {
      assert st.categories[j].categoryId == categoryId || j == i;
      SameKeySamePlace(st.categories, Categories.IdOf, i, j);
    }
  }

  /** `deleteCategory`: 404 for an unknown id; otherwise the category is
      marked inactive, nothing else about it changes, and the answer is 204
      with no body. */
  function DeleteCategory(st: Store, categoryId: string): (s: Step<CategoryReply>)
    ensures CategoryById(st.categories, categoryId).None? ==> s == Step(st, Refuse(404, CategoryNotFound))
    ensures !s.outcome.Reply? ==> s.store == st
    ensures s.outcome.Reply? ==>
              && CategoryById(st.categories, categoryId).Some?
              && var i := CategoryById(st.categories, categoryId).value;
              && s.store == st.(categories := st.categories[i := st.categories[i].(isActive := Some(false))])
              && s.outcome == Reply(204, Removed)
  {
    match CategoryById(st.categories, categoryId)
    case None => Step(st, Refuse(404, CategoryNotFound))
    case Some(i) =>
      match SaveCategory(st, Some(i), st.categories[i].(isActive := Some(false)))
      case Err(e) => Step(st, Forward(e))
      case Ok(st') => Step(st', Reply(204, Removed))
  }

  /** On a valid store deleting a known category always answers 204, also
      when it is already inactive. */
  lemma DeleteCategorySucceeds(st: Store, categoryId: string)
    requires CategoriesValid(st.categories)
    requires CategoryById(st.categories, categoryId).Some?
    ensures DeleteCategory(st, categoryId).outcome == Reply(204, Removed)
  {
    var i := CategoryById(st.categories, categoryId).value;
    var d := st.categories[i].(isActive := Some(false));
    assert Categories.Conforms(st.categories[i]);
    RewriteNoClash(st.categories, i, d, Categories.IdOf);
    RewriteNoClash(st.categories, i, d, Categories.NameOf);
    RewriteNoClash(st.categories, i, d, Categories.SlugOf);
  }

  /** Deleting twice leaves the store as deleting once. */
  lemma DeleteCategoryIdempotent(st: Store, categoryId: string)
    ensures var st1 := DeleteCategory(st, categoryId).store;
            DeleteCategory(st1, categoryId).store == st1
  {
    var st1 := DeleteCategory(st, categoryId).store;
    if DeleteCategory(st, categoryId).outcome.Reply? {
      var i := CategoryById(st.categories, categoryId).value;
      assert CategoryById(st1.categories, categoryId) == Some(i) by {
        var r := CategoryById(st1.categories, categoryId);
        assert r.Some?;
        assert !(r.value < i) && !(i < r.value);
      }
      assert st1.categories[i := st1.categories[i].(isActive := Some(false))] == st1.categories;
    }
  }

  /** Creating, updating and deleting categories keep the store valid. */
  lemma CreateCategoryKeepsValid(st: Store, form: CategoryForm, categoryId: string)
    requires Valid(st)
    ensures Valid(CreateCategory(st, form, categoryId).store)
  {
    if CreateCategory(st, form, categoryId).outcome.Reply? {
      var name := form.name.value;
      var c := Categories.NewCategory(categoryId, name, CreateSlug(name), form.description, form.parentCategoryId);
      SaveCategoryKeepsValid(st, None, c);
    }
  }

  lemma UpdateCategoryKeepsValid(st: Store, categoryId: string, form: CategoryForm)
    requires Valid(st)
    ensures Valid(UpdateCategory(st, categoryId, form).store)
  {
    if UpdateCategory(st, categoryId, form).outcome.Reply? {
      var i := CategoryById(st.categories, categoryId).value;
      SaveCategoryKeepsValid(st, Some(i), Reworked(st.categories[i], form));
    }
  }

  lemma DeleteCategoryKeepsValid(st: Store, categoryId: string)
    requires Valid(st)
    ensures Valid(DeleteCategory(st, categoryId).store)
  {
    if DeleteCategory(st, categoryId).outcome.Reply? {
      var i := CategoryById(st.categories, categoryId).value;
      SaveCategoryKeepsValid(st, Some(i), st.categories[i].(isActive := Some(false)));
    }
  }
}
