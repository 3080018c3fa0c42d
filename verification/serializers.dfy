/** `RecipeSerializer` / `RecipeDetailSerializer`: validation of a submitted
    recipe body and the `create` / `update` that save it, for both snapshots.
    Writes are all-or-nothing here: a failing save changes no row. */
module Serializers {
  import opened Wrappers
  import opened Text
  import opened Models
  import opened Price
  import opened Sorting
  import opened Registries

  /** A submitted recipe body, `None` for an absent key. Tag and ingredient
      entries are their `name` values. `user` may be sent but is no
      serializer field. */
  datatype Payload = Payload(
    title: Option<string>,
    description: Option<string>,
    timeMinutes: Option<int>,
    price: Option<DecimalInput>,
    link: Option<string>,
    tags: Option<seq<string>>,
    ingredients: Option<seq<string>>,
    user: Option<Id>)

  /** `validated_data`: the keys that survived validation, cleaned. */
  datatype Changes = Changes(
    title: Option<string>,
    description: Option<string>,
    timeMinutes: Option<int>,
    priceCents: Option<int>,
    link: Option<string>,
    tags: Option<seq<string>>,
    ingredients: Option<seq<string>>)

  /** When a `CharField` accepts a raw string: a blank value only if blanks
      are allowed, otherwise the stripped text within `maxLength` and free
      of NUL characters. */
  predicate TextAccepted(raw: string, allowBlank: bool, maxLength: Option<nat>) {
    var t := Trim(raw);
    if t == "" then allowBlank
    else (maxLength.None? || |t| <= maxLength.value) && '\0' !in t
  }

  /** A `CharField(trim_whitespace=True)`: the stripped string, or the
      field's validation error. */
  function CleanText(raw: string, allowBlank: bool, maxLength: Option<nat>, field: Field): (r: Result<string, Error>)
    ensures r.Ok? <==> TextAccepted(raw, allowBlank, maxLength)
    ensures r.Ok? ==> r.value == Trim(raw)
    ensures r.Ok? && !allowBlank ==> r.value != ""
    ensures r.Ok? && maxLength.Some? ==> |r.value| <= maxLength.value
    ensures r.Err? ==> r.error == Invalid(field)
  {
    var t := Trim(raw);
    if t == "" then
      if allowBlank then Ok("") else Err(Invalid(field))
    else if maxLength.Some? && |t| > maxLength.value then Err(Invalid(field))
    else if '\0' in t then Err(Invalid(field))
    else Ok(t)
  }

  /** An optional key through `CleanText`: absent stays absent. */
  function CleanOptional(raw: Option<string>, allowBlank: bool, maxLength: Option<nat>, field: Field): (r: Result<Option<string>, Error>)
    ensures r.Ok? <==> (raw.Some? ==> TextAccepted(raw.value, allowBlank, maxLength))
    ensures r.Ok? ==> (r.value.Some? <==> raw.Some?)
    ensures r.Ok? && raw.Some? ==> r.value.value == Trim(raw.value)
    ensures r.Err? ==> r.error == Invalid(field)
  {
    match raw
    case None => Ok(None)
    case Some(x) =>
      var t :- CleanText(x, allowBlank, maxLength, field);
      Ok(Some(t))
  }

  /** The `name` of a nested tag or ingredient: required, not blank, at
      most 255 characters. */
  predicate NameAccepted(raw: string) {
    TextAccepted(raw, false, Some(MaxLength))
  }

  /** A nested `many=True` list of names, each cleaned in turn. */
  function CleanNames(names: seq<string>, field: Field): (r: Result<seq<string>, Error>)
    ensures r.Ok? <==> forall i :: 0 <= i < |names| ==> NameAccepted(names[i])
    ensures r.Ok? ==> |r.value| == |names|
    ensures r.Ok? ==> forall i :: 0 <= i < |names| ==> r.value[i] == Trim(names[i])
    ensures r.Err? ==> r.error == Invalid(field)
  {
    if |names| == 0 then Ok([])
    else
      var rest := CleanNames(names[1..], field);
      ConsMapped(NameAccepted, Trim, names, if rest.Ok? then Some(rest.value) else None);
      var first :- CleanText(names[0], false, Some(MaxLength), field);
      var tail :- rest;
      Ok([first] + tail)
  }

  /** Mapping `f` over a non-empty list succeeds exactly when `ok` holds of
      the head and the mapped tail succeeded, and then yields `f` of every
      element. */
  lemma ConsMapped(ok: string -> bool, f: string -> string, names: seq<string>, rest: Option<seq<string>>)
    requires |names| > 0
    requires rest.Some? <==> forall i :: 0 <= i < |names| - 1 ==> ok(names[1..][i])
    requires rest.Some? ==> |rest.value| == |names| - 1
    requires rest.Some? ==> forall i :: 0 <= i < |names| - 1 ==> rest.value[i] == f(names[1..][i])
    ensures (ok(names[0]) && rest.Some?) <==> forall i :: 0 <= i < |names| ==> ok(names[i])
    ensures ok(names[0]) && rest.Some? ==> forall i :: 0 <= i < |names| ==> ([f(names[0])] + rest.value)[i] == f(names[i])
  {
    assert forall i :: 1 <= i < |names| ==> names[1..][i - 1] == names[i];
    if rest.None? {
      var i :| 0 <= i < |names| - 1 && !ok(names[1..][i]);
      assert !ok(names[i + 1]);
    }
  }

  /** An optional list of names: absent stays absent. */
  function CleanNameList(names: Option<seq<string>>, field: Field): (r: Result<Option<seq<string>>, Error>)
    ensures r.Ok? <==> (names.Some? ==> forall i :: 0 <= i < |names.value| ==> NameAccepted(names.value[i]))
    ensures r.Ok? ==> (r.value.Some? <==> names.Some?)
    ensures r.Ok? && names.Some? ==> r.value.value == CleanNames(names.value, field).value
    ensures r.Err? ==> r.error == Invalid(field)
  {
    match names
    case None => Ok(None)
    case Some(ns) =>
      var cleaned :- CleanNames(ns, field);
      Ok(Some(cleaned))
  }

  /** The serializer's `price` field: the `DecimalField` of the variant's
      column, giving cents. */
  function CleanPrice(v: Variant, d: Option<DecimalInput>): (r: Result<Option<int>, Error>)
    ensures r.Ok? <==> (d.Some? ==> ToCents(PriceMaxDigits(v), d.value).Ok?)
    ensures r.Ok? ==> (r.value.Some? <==> d.Some?)
    ensures r.Ok? && d.Some? ==> r.value.value == ToCents(PriceMaxDigits(v), d.value).value
    ensures r.Ok? && d.Some? ==> Abs(r.value.value) < Pow10(PriceMaxDigits(v))
    ensures r.Err? ==> r.error == Invalid(PriceField)
  {
    match d
    case None => Ok(None)
    case Some(x) =>
      match ToCents(PriceMaxDigits(v), x)
      case Ok(c) => Ok(Some(c))
      case Err(_) => Err(Invalid(PriceField))
  }

  /** Everything in `p` the serializer accepts: the required keys (`title`,
      `time_minutes`, `price`) present unless the update is partial, and
      every present field valid. `ingredients` is only a field of `Backend`. */
  ghost predicate PayloadAccepted(v: Variant, p: Payload, partial: bool) {
    && (partial || (p.title.Some? && p.timeMinutes.Some? && p.price.Some?))
    && FieldsAccepted(v, p)
  }

  /** Every field present in `p` is valid. */
  ghost predicate FieldsAccepted(v: Variant, p: Payload) {
    && (p.title.Some? ==> TextAccepted(p.title.value, false, Some(MaxLength)))
    && (p.description.Some? ==> TextAccepted(p.description.value, true, None))
    && (p.link.Some? ==> TextAccepted(p.link.value, true, Some(MaxLength)))
    && (p.price.Some? ==> ToCents(PriceMaxDigits(v), p.price.value).Ok?)
    && (p.tags.Some? ==> forall i :: 0 <= i < |p.tags.value| ==> NameAccepted(p.tags.value[i]))
    && (v.Backend? && p.ingredients.Some? ==>
          forall i :: 0 <= i < |p.ingredients.value| ==> NameAccepted(p.ingredients.value[i]))
  }

  /** `is_valid()` and `validated_data`. */
  function Validate(v: Variant, p: Payload, partial: bool): (r: Result<Changes, Error>)
    ensures r.Ok? <==> PayloadAccepted(v, p, partial)
    ensures r.Err? ==> r.error.Invalid?
    ensures r.Ok? ==> var c := r.value;
              && (c.title.Some? <==> p.title.Some?)
              && (c.description.Some? <==> p.description.Some?)
              && (c.timeMinutes == p.timeMinutes)
              && (c.priceCents.Some? <==> p.price.Some?)
              && (c.link.Some? <==> p.link.Some?)
              && (c.tags.Some? <==> p.tags.Some?)
              && (c.ingredients.Some? <==> v.Backend? && p.ingredients.Some?)
    ensures r.Ok? ==> var c := r.value;
              && (p.title.Some? ==> c.title.value == Trim(p.title.value) && c.title.value != "" && |c.title.value| <= MaxLength)
              && (p.description.Some? ==> c.description.value == Trim(p.description.value))
              && (p.link.Some? ==> c.link.value == Trim(p.link.value) && |c.link.value| <= MaxLength)
              && (p.price.Some? ==> c.priceCents.value == ToCents(PriceMaxDigits(v), p.price.value).value)
              && (p.tags.Some? ==> c.tags.value == CleanNames(p.tags.value, TagNameField).value)
              && (c.ingredients.Some? ==> c.ingredients.value == CleanNames(p.ingredients.value, IngredientNameField).value)
    ensures r.Ok? && !partial ==> r.value.title.Some? && r.value.timeMinutes.Some? && r.value.priceCents.Some?
  {
    if !partial && (p.title.None? || p.timeMinutes.None? || p.price.None?) then
      Err(Invalid(if p.title.None? then TitleField else if p.timeMinutes.None? then TimeMinutesField else PriceField))
    else
      DeclaredAccepted(v, p);
      CleanFields(v, DeclaredFields(v, p))
  }

  /** Dropping the undeclared keys changes no field's acceptance. */
  lemma DeclaredAccepted(v: Variant, p: Payload)
    ensures FieldsAccepted(v, DeclaredFields(v, p)) <==> FieldsAccepted(v, p)
  {
  }

  /** The keys of a body the serializer reads: `user` is no field, and
      `App` declares no `ingredients`; other keys are dropped unread. */
  function DeclaredFields(v: Variant, p: Payload): (q: Payload)
    ensures q.user.None? && (v.App? ==> q.ingredients.None?)
    ensures q.title == p.title && q.description == p.description && q.timeMinutes == p.timeMinutes
    ensures q.price == p.price && q.link == p.link && q.tags == p.tags
    ensures v.Backend? ==> q.ingredients == p.ingredients
  {
    if v.App? then p.(user := None, ingredients := None) else p.(user := None)
  }

  /** The present declared fields, each cleaned in declaration order; the
      first invalid one is the error. */
  function CleanFields(v: Variant, p: Payload): (r: Result<Changes, Error>)
    requires v.App? ==> p.ingredients.None?
    ensures r.Ok? <==> FieldsAccepted(v, p)
    ensures r.Err? ==> r.error.Invalid? && r.error.field != TimeMinutesField
    ensures r.Ok? ==> var c := r.value;
              && (c.title.Some? <==> p.title.Some?)
              && (c.description.Some? <==> p.description.Some?)
              && (c.timeMinutes == p.timeMinutes)
              && (c.priceCents.Some? <==> p.price.Some?)
              && (c.link.Some? <==> p.link.Some?)
              && (c.tags.Some? <==> p.tags.Some?)
              && (c.ingredients.Some? <==> v.Backend? && p.ingredients.Some?)
    ensures r.Ok? ==> var c := r.value;
              && (p.title.Some? ==> c.title.value == Trim(p.title.value) && c.title.value != "" && |c.title.value| <= MaxLength)
              && (p.description.Some? ==> c.description.value == Trim(p.description.value))
              && (p.link.Some? ==> c.link.value == Trim(p.link.value) && |c.link.value| <= MaxLength)
              && (p.price.Some? ==> c.priceCents.value == ToCents(PriceMaxDigits(v), p.price.value).value)
              && (p.tags.Some? ==> c.tags.value == CleanNames(p.tags.value, TagNameField).value)
              && (c.ingredients.Some? ==> c.ingredients.value == CleanNames(p.ingredients.value, IngredientNameField).value)
  {
    var title :- CleanOptional(p.title, false, Some(MaxLength), TitleField);
    var price :- CleanPrice(v, p.price);
    var link :- CleanOptional(p.link, true, Some(MaxLength), LinkField);
    var tags :- CleanNameList(p.tags, TagNameField);
    var ingredients :- CleanNameList(p.ingredients, IngredientNameField);
    var description :- CleanOptional(p.description, true, None, DescriptionField);
    Ok(Changes(title, description, p.timeMinutes, price, link, tags, ingredients))
  }

  /** The `tags` or `ingredients` half of a save. Absent names keep
      `current` (the empty set on create, the recipe's links on update);
      present names, even none, are resolved and replace them. */
  function Associate(reg: Registry, owner: Id, names: Option<seq<string>>, current: set<Id>): (r: Result<(Registry, set<Id>), Error>)
    ensures names.None? ==> r == Ok((reg, current))
    ensures names.Some? ==> r == ResolveAll(reg, owner, names.value)
  {
    match names
    case None => Ok((reg, current))
    case Some(ns) => ResolveAll(reg, owner, ns)
  }

  /** Some payload name has several rows of the owner already. */
  ghost predicate Ambiguous(reg: Registry, owner: Id, names: Option<seq<string>>) {
    names.Some? && exists i :: 0 <= i < |names.value| && |Matches(reg, owner, names.value[i])| > 1
  }

  /** The outcome of the two get-or-create loops of a save. */
  datatype Links = Links(tags: Registry, tagIds: set<Id>, ingredients: Registry, ingredientIds: set<Id>)

  /** `_get_or_create_tags` then `_get_or_create_ingredients`, each over its
      own table; `currentTags` / `currentIngredients` are kept for an absent
      list. */
  function AssociateBoth(s: Store, owner: Id, c: Changes, currentTags: set<Id>, currentIngredients: set<Id>): (r: Result<Links, Error>)
    ensures r.Err? <==> Ambiguous(s.tags, owner, c.tags) || Ambiguous(s.ingredients, owner, c.ingredients)
    ensures r.Err? ==> r.error == MultipleObjectsReturned
    ensures r.Ok? ==> Associate(s.tags, owner, c.tags, currentTags) == Ok((r.value.tags, r.value.tagIds))
    ensures r.Ok? ==> Associate(s.ingredients, owner, c.ingredients, currentIngredients) == Ok((r.value.ingredients, r.value.ingredientIds))
  {
    var tagged :- Associate(s.tags, owner, c.tags, currentTags);
    var withIngredients :- Associate(s.ingredients, owner, c.ingredients, currentIngredients);
    Ok(Links(tagged.0, tagged.1, withIngredients.0, withIngredients.1))
  }

  /** `serializer.save(user=caller)` → `create(validated_data)`: a new
      recipe owned by the caller, linked to the caller's rows named in the
      lists; an absent list means no links. A name with several rows of the
      caller already is an error. */
  function Create(s: Store, caller: Id, c: Changes): (r: Result<(Store, Id), Error>)
    requires c.title.Some? && c.timeMinutes.Some? && c.priceCents.Some?
    ensures r.Err? <==> Ambiguous(s.tags, caller, c.tags) || Ambiguous(s.ingredients, caller, c.ingredients)
    ensures r.Err? ==> r.error == MultipleObjectsReturned
    ensures r.Ok? ==> var (s', rid) := r.value;
              && rid !in s.recipes
              && s'.recipes.Keys == s.recipes.Keys + {rid}
              && (forall x :: x in s.recipes ==> s'.recipes[x] == s.recipes[x])
              && s'.users == s.users
              && Extends(s.tags, s'.tags)
              && Extends(s.ingredients, s'.ingredients)
              && OnlyNewNames(s.tags, s'.tags, caller, c.tags.GetOr([]))
              && OnlyNewNames(s.ingredients, s'.ingredients, caller, c.ingredients.GetOr([]))
    ensures r.Ok? ==> var (s', rid) := r.value; var rec := s'.recipes[rid];
              && rec.owner == caller
              && rec.title == c.title.value
              && rec.description == c.description.GetOr("")
              && rec.timeMinutes == c.timeMinutes.value
              && rec.priceCents == c.priceCents.value
              && rec.link == c.link.GetOr("")
              && rec.image == None
              && rec.tags == OwnedNamed(s'.tags, caller, c.tags.GetOr([]))
              && rec.ingredients == OwnedNamed(s'.ingredients, caller, c.ingredients.GetOr([]))
    ensures r.Ok? && c.tags.None? ==> r.value.0.recipes[r.value.1].tags == {} && r.value.0.tags == s.tags
    ensures r.Ok? && c.ingredients.None? ==>
              r.value.0.recipes[r.value.1].ingredients == {} && r.value.0.ingredients == s.ingredients
  {
    var links :- AssociateBoth(s, caller, c, {}, {});
    var rid := FreshId(s.recipes.Keys);
    var recipe := Recipe(caller, c.title.value, c.description.GetOr(""), c.timeMinutes.value,
                         c.priceCents.value, c.link.GetOr(""), links.tagIds, links.ingredientIds, None);
    Ok((Store(s.users, links.tags, links.ingredients, s.recipes[rid := recipe]), rid))
  }

  /** `update(instance, validated_data)` on recipe `rid`: present keys
      replace, absent keys, the owner and the image keep their values; a
      present list, even empty, replaces the links and an absent one leaves
      them. */
  function Update(s: Store, caller: Id, rid: Id, c: Changes): (r: Result<Store, Error>)
    requires OwnedBy(s, rid, caller)
    ensures r.Err? <==> Ambiguous(s.tags, caller, c.tags) || Ambiguous(s.ingredients, caller, c.ingredients)
    ensures r.Err? ==> r.error == MultipleObjectsReturned
    ensures r.Ok? ==> var s' := r.value;
              && s'.users == s.users
              && s'.recipes.Keys == s.recipes.Keys
              && (forall x :: x in s.recipes && x != rid ==> s'.recipes[x] == s.recipes[x])
              && Extends(s.tags, s'.tags)
              && Extends(s.ingredients, s'.ingredients)
    ensures r.Ok? ==> var old_ := s.recipes[rid]; var rec := r.value.recipes[rid];
              && rec.owner == old_.owner
              && rec.image == old_.image
              && rec.title == c.title.GetOr(old_.title)
              && rec.description == c.description.GetOr(old_.description)
              && rec.timeMinutes == c.timeMinutes.GetOr(old_.timeMinutes)
              && rec.priceCents == c.priceCents.GetOr(old_.priceCents)
              && rec.link == c.link.GetOr(old_.link)
    ensures r.Ok? ==> var old_ := s.recipes[rid]; var rec := r.value.recipes[rid];
              && (c.tags.None? ==> rec.tags == old_.tags && r.value.tags == s.tags)
              && (c.tags.Some? ==> rec.tags == OwnedNamed(r.value.tags, caller, c.tags.value))
              && (c.tags.Some? ==> OnlyNewNames(s.tags, r.value.tags, caller, c.tags.value))
              && (c.ingredients.None? ==> rec.ingredients == old_.ingredients && r.value.ingredients == s.ingredients)
              && (c.ingredients.Some? ==> rec.ingredients == OwnedNamed(r.value.ingredients, caller, c.ingredients.value))
              && (c.ingredients.Some? ==> OnlyNewNames(s.ingredients, r.value.ingredients, caller, c.ingredients.value))
    ensures r.Ok? && c.tags.Some? ==>
              forall i :: 0 <= i < |c.tags.value| ==> |Matches(r.value.tags, caller, c.tags.value[i])| == 1
    ensures r.Ok? && c.ingredients.Some? ==>
              forall i :: 0 <= i < |c.ingredients.value| ==> |Matches(r.value.ingredients, caller, c.ingredients.value[i])| == 1
  {
    var old_ := s.recipes[rid];
    var links :- AssociateBoth(s, caller, c, old_.tags, old_.ingredients);
    var updated := old_.(
      title := c.title.GetOr(old_.title),
      description := c.description.GetOr(old_.description),
      timeMinutes := c.timeMinutes.GetOr(old_.timeMinutes),
      priceCents := c.priceCents.GetOr(old_.priceCents),
      link := c.link.GetOr(old_.link),
      tags := links.tagIds,
      ingredients := links.ingredientIds);
    Ok(Store(s.users, links.tags, links.ingredients, s.recipes[rid := updated]))
  }

  /** POST to the recipe list: validation, then `create` with the caller as
      owner, whatever `user` the body names. */
  function CreateRecipe(v: Variant, s: Store, caller: Id, p: Payload): (r: Result<(Store, Id), Error>)
    ensures Validate(v, p, false).Err? ==> r == Err(Validate(v, p, false).error)
    ensures r.Err? ==> r.error.Invalid? || r.error == MultipleObjectsReturned
    ensures Validate(v, p, false).Ok? ==> var c := Validate(v, p, false).value;
              (r.Err? <==> Ambiguous(s.tags, caller, c.tags) || Ambiguous(s.ingredients, caller, c.ingredients))
    ensures r.Ok? ==> var (s', rid) := r.value;
              && rid !in s.recipes && s'.recipes.Keys == s.recipes.Keys + {rid}
              && (forall x :: x in s.recipes ==> s'.recipes[x] == s.recipes[x])
              && s'.users == s.users
    ensures r.Ok? ==> var (s', rid) := r.value; var rec := s'.recipes[rid];
              && rec.owner == caller
              && rec.title == Trim(p.title.value)
              && rec.description == (if p.description.Some? then Trim(p.description.value) else "")
              && rec.timeMinutes == p.timeMinutes.value
              && rec.priceCents == ToCents(PriceMaxDigits(v), p.price.value).value
              && rec.link == (if p.link.Some? then Trim(p.link.value) else "")
              && rec.image == None
              && (p.tags.None? ==> rec.tags == {} && s'.tags == s.tags)
              && (p.tags.Some? ==> rec.tags == OwnedNamed(s'.tags, caller, CleanNames(p.tags.value, TagNameField).value))
              && (v.App? || p.ingredients.None? ==> rec.ingredients == {} && s'.ingredients == s.ingredients)
              && (v.Backend? && p.ingredients.Some? ==>
                    rec.ingredients == OwnedNamed(s'.ingredients, caller, CleanNames(p.ingredients.value, IngredientNameField).value))
  {
    var c :- Validate(v, p, false);
    Create(s, caller, c)
  }

  /** PUT (`partial` false) or PATCH (`partial` true) on recipe `rid`. The
      lookup goes through the caller's queryset, so another user's recipe,
      or none, is `NotFound`; then validation, then `update`. */
  function UpdateRecipe(v: Variant, s: Store, caller: Id, rid: Id, p: Payload, partial: bool): (r: Result<Store, Error>)
    ensures r == Err(NotFound) <==> !OwnedBy(s, rid, caller)
    ensures OwnedBy(s, rid, caller) && Validate(v, p, partial).Err? ==> r == Err(Validate(v, p, partial).error)
    ensures OwnedBy(s, rid, caller) && Validate(v, p, partial).Ok? ==> var c := Validate(v, p, partial).value;
              (r.Err? <==> Ambiguous(s.tags, caller, c.tags) || Ambiguous(s.ingredients, caller, c.ingredients))
    ensures r.Ok? ==> OwnedBy(s, rid, caller) && r.value.recipes.Keys == s.recipes.Keys && r.value.users == s.users
    ensures r.Ok? ==> var old_ := s.recipes[rid]; var rec := r.value.recipes[rid];
              && (forall x :: x in s.recipes && x != rid ==> r.value.recipes[x] == s.recipes[x])
              && rec.owner == old_.owner
              && rec.image == old_.image
              && rec.title == (if p.title.Some? then Trim(p.title.value) else old_.title)
              && rec.description == (if p.description.Some? then Trim(p.description.value) else old_.description)
              && rec.timeMinutes == p.timeMinutes.GetOr(old_.timeMinutes)
              && rec.priceCents == (if p.price.Some? then ToCents(PriceMaxDigits(v), p.price.value).value else old_.priceCents)
              && rec.link == (if p.link.Some? then Trim(p.link.value) else old_.link)
    ensures r.Ok? ==> var old_ := s.recipes[rid]; var rec := r.value.recipes[rid];
              && (p.tags.None? ==> rec.tags == old_.tags && r.value.tags == s.tags)
              && (p.tags.Some? ==> rec.tags == OwnedNamed(r.value.tags, caller, CleanNames(p.tags.value, TagNameField).value))
              && (v.App? || p.ingredients.None? ==> rec.ingredients == old_.ingredients && r.value.ingredients == s.ingredients)
              && (v.Backend? && p.ingredients.Some? ==>
                    rec.ingredients == OwnedNamed(r.value.ingredients, caller, CleanNames(p.ingredients.value, IngredientNameField).value))
  {
    if !OwnedBy(s, rid, caller) then Err(NotFound)
    else
      var c :- Validate(v, p, partial);
      Update(s, caller, rid, c)
  }

  /** The rows added to `reg'` belong to `owner`. */
  ghost predicate NewRowsOwnedBy(reg: Registry, reg': Registry, owner: Id) {
    forall t :: t in reg' && t !in reg ==> reg'[t].owner == owner
  }

  /** Saving one recipe of `owner` — registries grown by rows of `owner` only,
      that recipe linked to rows of `owner`, every other recipe as it was —
      keeps the store valid. */
  lemma SaveKeepsValid(s: Store, s': Store, rid: Id, owner: Id)
    requires Valid(s) && owner in s.users && s'.users == s.users
    requires Extends(s.tags, s'.tags) && NewRowsOwnedBy(s.tags, s'.tags, owner)
    requires Extends(s.ingredients, s'.ingredients) && NewRowsOwnedBy(s.ingredients, s'.ingredients, owner)
    requires rid in s'.recipes && s'.recipes[rid].owner == owner
    requires RefsOwned(s'.tags, s'.recipes[rid].tags, owner)
    requires RefsOwned(s'.ingredients, s'.recipes[rid].ingredients, owner)
    requires forall x :: x in s'.recipes && x != rid ==> x in s.recipes && s'.recipes[x] == s.recipes[x]
    ensures Valid(s')
  {
  }

  /** Resolved links point at rows of the owner. */
  lemma OwnedNamedOwned(reg: Registry, owner: Id, names: seq<string>)
    ensures RefsOwned(reg, OwnedNamed(reg, owner, names), owner)
  {
  }

  /** A created recipe keeps the store valid: every row it links, old or
      new, belongs to the caller. */
  lemma CreateKeepsValid(s: Store, caller: Id, c: Changes)
    requires Valid(s) && caller in s.users
    requires c.title.Some? && c.timeMinutes.Some? && c.priceCents.Some?
    requires Create(s, caller, c).Ok?
    ensures Valid(Create(s, caller, c).value.0)
  {
    var (s', rid) := Create(s, caller, c).value;
    OwnedNamedOwned(s'.tags, caller, c.tags.GetOr([]));
    OwnedNamedOwned(s'.ingredients, caller, c.ingredients.GetOr([]));
    SaveKeepsValid(s, s', rid, caller);
  }

  /** An updated recipe keeps the store valid. */
  lemma UpdateKeepsValid(s: Store, caller: Id, rid: Id, c: Changes)
    requires Valid(s) && OwnedBy(s, rid, caller)
    requires Update(s, caller, rid, c).Ok?
    ensures Valid(Update(s, caller, rid, c).value)
  {
    var s' := Update(s, caller, rid, c).value;
    if c.tags.Some? {
      OwnedNamedOwned(s'.tags, caller, c.tags.value);
    }
    if c.ingredients.Some? {
      OwnedNamedOwned(s'.ingredients, caller, c.ingredients.value);
    }
    SaveKeepsValid(s, s', rid, caller);
  }

  /** Creating a second recipe from the same data reuses every tag and
      ingredient the first one resolved: no row is created twice, and both
      recipes link the same rows. */
  lemma SecondCreateReusesRows(s: Store, caller: Id, c: Changes)
    requires c.title.Some? && c.timeMinutes.Some? && c.priceCents.Some?
    requires Create(s, caller, c).Ok?
    ensures var (s1, rid1) := Create(s, caller, c).value;
            var second := Create(s1, caller, c);
            && second.Ok?
            && second.value.0.tags == s1.tags
            && second.value.0.ingredients == s1.ingredients
            && second.value.0.recipes[second.value.1].tags == s1.recipes[rid1].tags
            && second.value.0.recipes[second.value.1].ingredients == s1.recipes[rid1].ingredients
  {
    var (s1, rid1) := Create(s, caller, c).value;
    var first := AssociateBoth(s, caller, c, {}, {}).value;
    assert s1.tags == first.tags && s1.ingredients == first.ingredients;
    if c.tags.Some? {
      ResolveExisting(s1.tags, caller, c.tags.value);
    }
    if c.ingredients.Some? {
      ResolveExisting(s1.ingredients, caller, c.ingredients.value);
    }
    var again := AssociateBoth(s1, caller, c, {}, {});
    assert again == Ok(Links(s1.tags, first.tagIds, s1.ingredients, first.ingredientIds));
  }

  /** Applying the same changes twice changes nothing the second time. */
  lemma UpdateIdempotent(s: Store, caller: Id, rid: Id, c: Changes)
    requires OwnedBy(s, rid, caller)
    requires Update(s, caller, rid, c).Ok?
    ensures Update(Update(s, caller, rid, c).value, caller, rid, c) == Ok(Update(s, caller, rid, c).value)
  {
    var s1 := Update(s, caller, rid, c).value;
    if c.tags.Some? {
      ResolveExisting(s1.tags, caller, c.tags.value);
    }
    if c.ingredients.Some? {
      ResolveExisting(s1.ingredients, caller, c.ingredients.value);
    }
    var rec := s1.recipes[rid];
    var again := AssociateBoth(s1, caller, c, rec.tags, rec.ingredients);
    assert again == Ok(Links(s1.tags, rec.tags, s1.ingredients, rec.ingredients));
    assert s1.recipes[rid := rec] == s1.recipes;
  }

  /** `tags: []` clears the recipe's tags and leaves the tag table alone. */
  lemma EmptyListClears(v: Variant, s: Store, caller: Id, rid: Id, p: Payload, partial: bool)
    requires p.tags == Some([])
    requires UpdateRecipe(v, s, caller, rid, p, partial).Ok?
    ensures var s' := UpdateRecipe(v, s, caller, rid, p, partial).value;
            s'.recipes[rid].tags == {} && s'.tags == s.tags
  {
    var c := Validate(v, p, partial).value;
    assert c.tags == Some([]);
    var s' := Update(s, caller, rid, c).value;
    NoNamesNoRows(s.tags, s'.tags, caller);
  }

  /** Resolving no names adds no row. */
  lemma NoNamesNoRows(reg: Registry, reg': Registry, owner: Id)
    requires Extends(reg, reg') && OnlyNewNames(reg, reg', owner, [])
    ensures reg' == reg
  {
    assert reg'.Keys == reg.Keys;
  }

  /** The earlier snapshot has no `ingredients` field: whatever the body
      says about ingredients, validation drops it. */
  lemma AppIgnoresIngredients(p: Payload, partial: bool)
    ensures Validate(App, p, partial) == Validate(App, p.(ingredients := None), partial)
  {
    assert DeclaredFields(App, p) == DeclaredFields(App, p.(ingredients := None));
  }

  /** `user` in the body is not a field: validation drops it. */
  lemma UserFieldIgnored(v: Variant, p: Payload, partial: bool)
    ensures Validate(v, p, partial) == Validate(v, p.(user := None), partial)
  {
    assert DeclaredFields(v, p) == DeclaredFields(v, p.(user := None));
  }
}
