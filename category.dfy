/** Categories: creating one under a unique name (POST /api/categories) and
    listing them (GET /api/categories). */
module CategoryController {
  import opened Common
  import opened Store

  const NameRequiredMessage := "Category name is required"
  const ExistsMessage := "Category already exists"
  const CreateErrorMessage := "Error creating category"

  /** findOne({ name }): the first category stored under that exact name. */
  function FindByName(categories: seq<Category>, name: string): (r: Option<Category>)
    ensures r.Some? <==> exists k :: 0 <= k < |categories| && categories[k].name == name
    ensures r.Some? ==> r.value in categories && r.value.name == name
  {
    if |categories| == 0 then None
    else if categories[0].name == name then Some(categories[0])
    else FindByName(categories[1..], name)
  }

  /** No two categories share a name. */
  predicate NamesUnique(categories: seq<Category>) {
    forall i, j :: 0 <= i < j < |categories| ==> categories[i].name != categories[j].name
  }

  /** createCategory on a database state: a non-empty name not yet taken is
      stored as a new category. */
  function CreateCategorySpec(s: State, name: string, newId: Id): (Response<Category>, State)
  {
    if name == "" then (Invalid([NameRequiredMessage]), s)
    else if FindByName(s.categories, name).Some? then (BadRequest(ExistsMessage), s)
    else if !Unused(s, newId) then (ServerError(CreateErrorMessage), s)
    else
      var category := Category(newId, name);
      (Created(category), s.(categories := s.categories + [category]))
  }

  method CreateCategory(db: Database, name: string, newId: Id) returns (r: Response<Category>)
    modifies db
    ensures (r, db.Contents()) == CreateCategorySpec(old(db.Contents()), name, newId)
  {
    if name == "" {
      return Invalid([NameRequiredMessage]);
    }
    var existing := FindByName(db.categories, name);
    if existing.Some? {
      return BadRequest(ExistsMessage);
    }
    var category := Category(newId, name);
    var inserted := db.InsertCategory(category);
    if !inserted {
      return ServerError(CreateErrorMessage);
    }
    return Created(category);
  }

  /** An empty name is a 400 with the validation message and a taken name a
      400 with "already exists"; every rejection leaves the store unchanged.
      A category is created exactly when the name is non-empty and new. */
  lemma CreateCategoryOutcome(s: State, name: string, newId: Id)
    ensures var (r, s') := CreateCategorySpec(s, name, newId);
      && (!r.Created? ==> s' == s)
      && (name == "" ==> r == Invalid([NameRequiredMessage]))
      && (name != "" && (exists c :: c in s.categories && c.name == name) ==> r == BadRequest(ExistsMessage))
      && (r.Created? <==> name != "" && (forall c :: c in s.categories ==> c.name != name) && Unused(s, newId))
      && (r.Created? ==> r.body == Category(newId, name) &&
                         s' == s.(categories := s.categories + [r.body]))
  {
    if name != "" && exists c :: c in s.categories && c.name == name {
      var c :| c in s.categories && c.name == name;
      var k :| 0 <= k < |s.categories| && s.categories[k] == c;
    }
  }

  /** Creation keeps category names unique, and the new name is held by
      exactly one category. */
  lemma CreateCategoryKeepsNamesUnique(s: State, name: string, newId: Id)
    requires NamesUnique(s.categories)
    ensures NamesUnique(CreateCategorySpec(s, name, newId).1.categories)
    ensures var (r, s') := CreateCategorySpec(s, name, newId);
      r.Created? ==> forall k :: 0 <= k < |s'.categories| && s'.categories[k].name == name ==>
                       k == |s.categories|
  {
  }

  /** getCategories: every stored category, in storage order. */
  function GetCategories(s: State): (r: Response<seq<Category>>)
    ensures r.Ok?
    ensures |r.body| == |s.categories|
    ensures forall c :: c in r.body <==> c in s.categories
  {
    Ok(s.categories)
  }

  /** After a successful creation the listing holds the new category, last,
      after every category listed before; after a refused one the listing is
      as it was. */
  lemma CreatedCategoryIsListed(s: State, name: string, newId: Id)
    ensures var (r, s') := CreateCategorySpec(s, name, newId);
      && (r.Created? ==> GetCategories(s').body == GetCategories(s).body + [r.body]
                           && r.body.name == name && Category(newId, name) in GetCategories(s').body)
      && (!r.Created? ==> GetCategories(s') == GetCategories(s))
  {
  }
}
