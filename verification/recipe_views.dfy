/** `RecipeViewSet`: the list query with its `tags` / `ingredients` filters,
    and the detail actions that look a recipe up through the caller's
    queryset — delete and `upload-image`. Create and update are in
    `Serializers`. */
module RecipeViews {
  import opened Wrappers
  import opened Models
  import opened Sorting
  import opened QueryParams
  import opened ImagePath

  /** One filter parameter, read the way `if tags:` reads it: absent and
      empty both mean no filter; otherwise the ids of `_params_to_ints`, or
      its `ValueError`. */
  function ParseFilter(param: Option<string>): (r: Result<Option<set<int>>, Error>)
    ensures param.None? || param == Some("") ==> r == Ok(None)
    ensures param.Some? && param.value != "" ==> (r.Err? <==> ParamsToInts(param.value).None?)
    ensures r.Err? ==> r.error == InvalidInteger
    ensures r.Ok? && r.value.Some? ==>
              param.Some? && ParamsToInts(param.value).Some? &&
              forall x :: x in r.value.value <==> x in ParamsToInts(param.value).value
  {
    match param
    case None => Ok(None)
    case Some(qs) =>
      if qs == "" then Ok(None)
      else
        match ParamsToInts(qs)
        case None => Err(InvalidInteger)
        case Some(ids) => Ok(Some(set x | x in ids))
  }

  /** The reference reading of `field__id__in=ids`: some linked id is
      listed. No filter admits everything. */
  predicate Admits(linked: set<Id>, filter: Option<set<int>>) {
    filter.None? || exists t :: t in linked && t in filter.value
  }

  /** The rows one `__id__in` join yields for a recipe: one per linked id in
      the list (one row when there is no filter). */
  function JoinCount(linked: set<Id>, filter: Option<set<int>>): nat {
    if filter.None? then 1 else |set t | t in linked && t in filter.value|
  }

  /** A recipe survives the join exactly when the filter admits it. */
  lemma JoinCountPositive(linked: set<Id>, filter: Option<set<int>>)
    ensures JoinCount(linked, filter) > 0 <==> Admits(linked, filter)
  {
    if filter.Some? {
      var hits := set t | t in linked && t in filter.value;
      if Admits(linked, filter) {
        var t :| t in linked && t in filter.value;
        assert t in hits;
      }
      if |hits| > 0 {
        var t :| t in hits;
        assert t in linked && t in filter.value;
      }
    }
  }

  /** The rows of the joined query for one recipe before `.distinct()`:
      the tag join times the ingredient join. */
  function RowCount(rec: Recipe, tagFilter: Option<set<int>>, ingredientFilter: Option<set<int>>): (n: nat)
    ensures n > 0 <==> Admits(rec.tags, tagFilter) && Admits(rec.ingredients, ingredientFilter)
  {
    JoinCountPositive(rec.tags, tagFilter);
    JoinCountPositive(rec.ingredients, ingredientFilter);
    JoinCount(rec.tags, tagFilter) * JoinCount(rec.ingredients, ingredientFilter)
  }

  /** A recipe linked to two listed tags comes out of the join twice: the
      reason for `.distinct()`. */
  lemma JoinDuplicates(rec: Recipe)
    requires rec.tags == {1, 2}
    ensures RowCount(rec, Some({1, 2}), None) == 2
  {
    var listed: set<int> := {1, 2};
    var hits := set t | t in rec.tags && t in listed;
    assert hits == {1, 2};
    assert |hits| == 2;
    assert JoinCount(rec.tags, Some(listed)) == |hits|;
  }

  /** The caller's recipes that some row of the joined query carries, i.e.
      the query after `.distinct()`. */
  function Selected(s: Store, caller: Id, tagFilter: Option<set<int>>, ingredientFilter: Option<set<int>>): (sel: set<Id>)
    ensures forall rid :: rid in sel <==>
              OwnedBy(s, rid, caller) && Admits(s.recipes[rid].tags, tagFilter) && Admits(s.recipes[rid].ingredients, ingredientFilter)
  {
    set rid | rid in s.recipes && s.recipes[rid].owner == caller && RowCount(s.recipes[rid], tagFilter, ingredientFilter) > 0
  }

  /** `list` on recipes. `Backend` parses both filters (a non-integer piece
      is an error), keeps the caller's recipes that pass every present
      filter, and orders them by id descending, each once. `App` reads no
      parameter and lists all the caller's recipes by id descending. */
  function ListRecipes(v: Variant, s: Store, caller: Id, tagsParam: Option<string>, ingredientsParam: Option<string>): (r: Result<seq<Id>, Error>)
    ensures v.App? ==> r.Ok?
    ensures v.Backend? ==> (r.Err? <==> ParseFilter(tagsParam).Err? || ParseFilter(ingredientsParam).Err?)
    ensures r.Err? ==> r.error == InvalidInteger
    ensures r.Ok? ==> forall i, j :: 0 <= i < j < |r.value| ==> r.value[i] > r.value[j]
    ensures r.Ok? && v.App? ==> forall rid :: rid in r.value <==> OwnedBy(s, rid, caller)
    ensures r.Ok? && v.Backend? ==>
              var tagFilter := ParseFilter(tagsParam).value;
              var ingredientFilter := ParseFilter(ingredientsParam).value;
              forall rid :: rid in r.value <==>
                OwnedBy(s, rid, caller) && Admits(s.recipes[rid].tags, tagFilter) && Admits(s.recipes[rid].ingredients, ingredientFilter)
  {
    var (tagFilter, ingredientFilter) :=
      if v.App? then (Ok(None), Ok(None)) else (ParseFilter(tagsParam), ParseFilter(ingredientsParam));
    var tf :- tagFilter;
    var inf :- ingredientFilter;
    var sel := Selected(s, caller, tf, inf);
    GreaterIsStrictTotal(sel);
    Ok(SortDesc(sel, Greater))
  }

  /** An absent or empty filter restricts nothing: the current snapshot then
      lists exactly what the earlier one does. */
  lemma EmptyFiltersListAll(s: Store, caller: Id, tagsParam: Option<string>, ingredientsParam: Option<string>)
    requires tagsParam.None? || tagsParam == Some("")
    requires ingredientsParam.None? || ingredientsParam == Some("")
    ensures ListRecipes(Backend, s, caller, tagsParam, ingredientsParam) == ListRecipes(App, s, caller, None, None)
  {
  }

  /** Two filters together select exactly the recipes each selects alone. */
  lemma FiltersConjoin(s: Store, caller: Id, tagsParam: string, ingredientsParam: string)
    requires ListRecipes(Backend, s, caller, Some(tagsParam), Some(ingredientsParam)).Ok?
    ensures var both := ListRecipes(Backend, s, caller, Some(tagsParam), Some(ingredientsParam)).value;
            var byTags := ListRecipes(Backend, s, caller, Some(tagsParam), None).value;
            var byIngredients := ListRecipes(Backend, s, caller, None, Some(ingredientsParam)).value;
            forall rid :: rid in both <==> rid in byTags && rid in byIngredients
  {
  }

  /** Listing the ids a client joined with commas filters by exactly those
      ids. */
  lemma JoinedIdsFilter(s: Store, caller: Id, ids: seq<int>)
    requires |ids| >= 1
    ensures var r := ListRecipes(Backend, s, caller, Some(JoinInts(ids)), None);
            && r.Ok?
            && forall rid :: rid in r.value <==>
                 OwnedBy(s, rid, caller) && exists t :: t in s.recipes[rid].tags && t in ids
  {
    var qs := JoinInts(ids);
    IdsFilter(ids);
    ListByTagIds(s, caller, qs, ids);
  }

  /** The filter a joined id list parses to. */
  lemma IdsFilter(ids: seq<int>)
    requires |ids| >= 1
    ensures ParseFilter(Some(JoinInts(ids))) == Ok(Some(set x | x in ids))
  {
    JoinParse(ids);
    var f := ParseFilter(Some(JoinInts(ids)));
    assert f.Ok? && f.value.Some?;
    assert f.value.value == set x | x in ids;
  }

  lemma ListByTagIds(s: Store, caller: Id, qs: string, ids: seq<int>)
    requires ParseFilter(Some(qs)) == Ok(Some(set x | x in ids))
    ensures var r := ListRecipes(Backend, s, caller, Some(qs), None);
            && r.Ok?
            && forall rid :: rid in r.value <==>
                 OwnedBy(s, rid, caller) && exists t :: t in s.recipes[rid].tags && t in ids
  {
  }

  /** `destroy` on recipe `rid`: only the caller's recipe is found; deleting
      it removes its links with it, never a tag or ingredient row. */
  function DestroyRecipe(s: Store, caller: Id, rid: Id): (r: Result<Store, Error>)
    ensures r.Err? <==> !OwnedBy(s, rid, caller)
    ensures r.Err? ==> r.error == NotFound
    ensures r.Ok? ==> r.value.recipes.Keys == s.recipes.Keys - {rid}
    ensures r.Ok? ==> forall x :: x in r.value.recipes ==> r.value.recipes[x] == s.recipes[x]
    ensures r.Ok? ==> r.value.users == s.users && r.value.tags == s.tags && r.value.ingredients == s.ingredients
    ensures r.Ok? && Valid(s) ==> Valid(r.value)
  {
    if !OwnedBy(s, rid, caller) then Err(NotFound)
    else Ok(s.(recipes := s.recipes - {rid}))
  }

  /** What the `image` key of an upload holds: nothing, an explicit null
      (a form's empty value reads the same), or a file whose decoding as an
      image is decided outside this model. */
  datatype ImageInput = Missing | Null | File(name: string, size: nat, decodes: bool)

  /** `max_length` of the `ImageField`, the Django default, which the
      serializer applies to the uploaded file's name. */
  const FileNameMaxLength: nat := 100

  /** The serializer's `ImageField` accepts the file: it has a name no
      longer than the limit, some content, decodes as an image, and its
      name carries one of `imageExtensions`, the extensions the imaging
      library registers. */
  predicate FileAccepted(f: ImageInput, imageExtensions: set<string>)
    requires f.File?
  {
    f.name != "" && |f.name| <= FileNameMaxLength && f.size > 0 && f.decodes
    && ImageExtensionAllowed(f.name, imageExtensions)
  }

  /** `upload_image` (POST `recipes/<id>/upload-image/`, `Backend` only):
      the caller's recipe is looked up first, then the required `image` is
      validated against `imageExtensions`; an accepted file is stored under the path
      `recipe_image_file_path` gives for the drawn `uuid`, and a null clears
      the image. Nothing else changes. */
  function UploadImage(v: Variant, s: Store, caller: Id, rid: Id, image: ImageInput, uuid: string, imageExtensions: set<string>): (r: Result<Store, Error>)
    requires IsUuidText(uuid)
    ensures v.App? ==> r == Err(NotFound)
    ensures v.Backend? ==> (r == Err(NotFound) <==> !OwnedBy(s, rid, caller))
    ensures v.Backend? && OwnedBy(s, rid, caller) ==>
              (r.Ok? <==> image.Null? || (image.File? && FileAccepted(image, imageExtensions)))
    ensures r.Err? ==> r.error == NotFound || r.error == Invalid(ImageField)
    ensures r.Ok? ==> r.value.users == s.users && r.value.tags == s.tags && r.value.ingredients == s.ingredients
    ensures r.Ok? ==> r.value.recipes.Keys == s.recipes.Keys
    ensures r.Ok? ==> forall x :: x in s.recipes && x != rid ==> r.value.recipes[x] == s.recipes[x]
    ensures r.Ok? ==> r.value.recipes[rid].(image := s.recipes[rid].image) == s.recipes[rid]
    ensures r.Ok? && image.File? ==> r.value.recipes[rid].image == Some(RecipeImageFilePath(uuid, image.name))
    ensures r.Ok? && image.Null? ==> r.value.recipes[rid].image == None
  {
    if v.App? || !OwnedBy(s, rid, caller) then Err(NotFound)
    else
      var stored :- match image
        case Missing => Err(Invalid(ImageField))
        case Null => Ok(None)
        case File(name, _, _) =>
          if FileAccepted(image, imageExtensions) then Ok(Some(RecipeImageFilePath(uuid, name))) else Err(Invalid(ImageField));
      var rec := s.recipes[rid];
      Ok(s.(recipes := s.recipes[rid := rec.(image := stored)]))
  }

  /** Every stored image name sits under `static/recipe/` and keeps the
      uploaded file's extension. */
  lemma StoredImageKeepsExtension(s: Store, caller: Id, rid: Id, name: string, size: nat, uuid: string, imageExtensions: set<string>)
    requires IsUuidText(uuid)
    requires UploadImage(Backend, s, caller, rid, File(name, size, true), uuid, imageExtensions).Ok?
    ensures var stored := UploadImage(Backend, s, caller, rid, File(name, size, true), uuid, imageExtensions).value.recipes[rid].image.value;
            && stored[..|Directory|] == Directory
            && SplitExt(stored).1 == SplitExt(name).1
  {
    PathKeepsExtension(uuid, name);
  }

  /** A file name without a dot has no suffix, so no image extension: the
      upload is refused however well the content decodes. */
  lemma DotlessNameRefused(s: Store, caller: Id, rid: Id, name: string, size: nat, uuid: string, imageExtensions: set<string>)
    requires IsUuidText(uuid) && OwnedBy(s, rid, caller)
    requires '.' !in name && "" !in imageExtensions
    ensures UploadImage(Backend, s, caller, rid, File(name, size, true), uuid, imageExtensions) == Err(Invalid(ImageField))
  {
    assert Suffix(name) == "";
  }
}
