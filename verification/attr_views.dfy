/** `BaseRecipeAttrViewSet` (`TagViewSet`, `IngredientViewSet`): listing
    with `assigned_only` and `-name` ordering, and the rename and delete the
    update and destroy mixins offer. One definition serves both kinds. */
module AttrViews {
  import opened Wrappers
  import opened Text
  import opened Models
  import opened Sorting
  import opened QueryParams
  import opened Serializers
  import opened Registries

  /** `bool(int(query_params.get('assigned_only', 0)))`: absent means the
      integer default 0; a present value goes through `int()` and is true
      when non-zero. A value that is no integer, the empty one included, is
      the `ValueError`. */
  function ParseAssignedOnly(param: Option<string>): (r: Result<bool, Error>)
    ensures param.None? ==> r == Ok(false)
    ensures param.Some? ==> (r.Err? <==> ParseInt(param.value).None?)
    ensures r.Err? ==> r.error == InvalidInteger
    ensures param.Some? && r.Ok? ==> (r.value <==> ParseInt(param.value).value != 0)
  {
    match param
    case None => Ok(false)
    case Some(text) =>
      match ParseInt(text)
      case None => Err(InvalidInteger)
      case Some(n) => Ok(n != 0)
  }

  /** The decimal form of any integer switches the flag exactly when the
      integer is non-zero; `""` is refused. */
  lemma AssignedOnlyOfInteger(n: int)
    ensures ParseAssignedOnly(Some(FormatInt(n))) == Ok(n != 0)
    ensures ParseAssignedOnly(Some("")).Err?
  {
    ParseFormat(n);
  }

  /** `recipe__isnull=False`: some recipe links row `t`. */
  predicate Assigned(s: Store, k: Kind, t: Id) {
    exists rid :: rid in s.recipes && t in Refs(s.recipes[rid], k)
  }

  /** The rows `filter(user=caller)` keeps, narrowed to assigned rows when
      asked; `.distinct()` makes each row count once. */
  function Scope(s: Store, k: Kind, caller: Id, assignedOnly: bool): (sc: set<Id>)
    ensures forall t :: t in sc <==>
              t in RegistryOf(s, k) && RegistryOf(s, k)[t].owner == caller && (assignedOnly ==> Assigned(s, k, t))
  {
    var reg := RegistryOf(s, k);
    set t | t in reg && reg[t].owner == caller && (!assignedOnly || Assigned(s, k, t))
  }

  /** The flag `get_queryset` computes: `Backend` reads `assigned_only`,
      `App` reads no parameter. */
  function AssignedFlag(v: Variant, assignedOnly: Option<string>): (r: Result<bool, Error>)
    ensures v.App? ==> r == Ok(false)
    ensures v.Backend? ==> r == ParseAssignedOnly(assignedOnly)
  {
    if v.App? then Ok(false) else ParseAssignedOnly(assignedOnly)
  }

  /** Row `t` is in the queryset: the caller's, and linked to a recipe
      when `onlyAssigned` is set. */
  predicate InScope(s: Store, k: Kind, caller: Id, onlyAssigned: bool, t: Id) {
    t in RegistryOf(s, k) && RegistryOf(s, k)[t].owner == caller && (onlyAssigned ==> Assigned(s, k, t))
  }

  /** `order_by('-name')`: a row comes before another with a smaller name.
      The database leaves equal names unordered; they are put in id
      descending order here. */
  predicate NameAbove(reg: Registry, a: Id, b: Id) {
    a in reg && b in reg && (LexLess(reg[b].name, reg[a].name) || (reg[a].name == reg[b].name && a > b))
  }

  /** `NameAbove` on `reg`, as the order a sort takes. */
  function NameOrder(reg: Registry): (nat, nat) -> bool {
    (a: nat, b: nat) => NameAbove(reg, a, b)
  }

  lemma NameAboveIsStrictTotal(reg: Registry, ids: set<Id>)
    requires ids <= reg.Keys
    ensures StrictTotalOn(NameOrder(reg), ids)
  {
    var above := NameOrder(reg);
    forall x | x in ids
      ensures !above(x, x)
    {
      LexIrreflexive(reg[x].name);
    }
    forall x, y | x in ids && y in ids && x != y
      ensures above(x, y) || above(y, x)
    {
      LexTotal(reg[x].name, reg[y].name);
    }
    forall x, y, z | x in ids && y in ids && z in ids && above(x, y) && above(y, z)
      ensures above(x, z)
    {
      var nx, ny, nz := reg[x].name, reg[y].name, reg[z].name;
      if LexLess(ny, nx) && LexLess(nz, ny) {
        LexTransitive(nz, ny, nx);
      }
    }
  }

  /** `list` on tags or ingredients. `Backend` reads `assigned_only` and
      lists the caller's rows (only the assigned ones when it is set) by
      name descending, each once. `App` reads no parameter and lists all
      the caller's rows by name descending. */
  function ListAttrs(v: Variant, s: Store, k: Kind, caller: Id, assignedOnly: Option<string>): (r: Result<seq<Id>, Error>)
    ensures v.App? ==> r.Ok?
    ensures v.Backend? ==> (r.Err? <==> ParseAssignedOnly(assignedOnly).Err?)
    ensures r.Err? ==> r.error == InvalidInteger
    ensures r.Ok? ==> var onlyAssigned := v.Backend? && ParseAssignedOnly(assignedOnly).value;
              forall t :: t in r.value <==>
                t in RegistryOf(s, k) && RegistryOf(s, k)[t].owner == caller && (onlyAssigned ==> Assigned(s, k, t))
    ensures r.Ok? ==> forall i, j :: 0 <= i < j < |r.value| ==> NameNotBelow(RegistryOf(s, k), r.value[i], r.value[j])
    ensures r.Ok? ==> forall i, j :: 0 <= i < j < |r.value| ==> r.value[i] != r.value[j]
  {
    var onlyAssigned :- AssignedFlag(v, assignedOnly);
    var reg := RegistryOf(s, k);
    var sc := Scope(s, k, caller, onlyAssigned);
    NameAboveIsStrictTotal(reg, sc);
    var sorted := SortDesc(sc, NameOrder(reg));
    OrderedIsDistinct(sorted, NameOrder(reg), sc);
    NameAboveNotBelow(reg, sorted);
    Ok(sorted)
  }

  /** Row `a` may be listed before row `b` under `-name`: both exist and
      `a`'s name is not the smaller. */
  predicate NameNotBelow(reg: Registry, a: Id, b: Id) {
    a in reg && b in reg && !LexLess(reg[a].name, reg[b].name)
  }

  /** A sequence in `NameAbove` order has non-increasing names. */
  lemma NameAboveNotBelow(reg: Registry, sorted: seq<Id>)
    requires forall i, j :: 0 <= i < j < |sorted| ==> NameOrder(reg)(sorted[i], sorted[j])
    ensures forall i, j :: 0 <= i < j < |sorted| ==> NameNotBelow(reg, sorted[i], sorted[j])
  {
    forall i, j | 0 <= i < j < |sorted|
      ensures NameNotBelow(reg, sorted[i], sorted[j])
    {
      assert NameOrder(reg)(sorted[i], sorted[j]);
      var a, b := reg[sorted[i]].name, reg[sorted[j]].name;
      if LexLess(b, a) {
        LexAsymmetric(b, a);
      } else {
        LexIrreflexive(a);
      }
    }
  }

  /** In a valid store only the caller's own recipes can link the caller's
      rows, so `assigned_only` keeps exactly the rows the caller uses. */
  lemma AssignedMeansUsedByCaller(s: Store, k: Kind, caller: Id, t: Id)
    requires Valid(s)
    requires t in RegistryOf(s, k) && RegistryOf(s, k)[t].owner == caller
    ensures Assigned(s, k, t) <==> exists rid :: OwnedBy(s, rid, caller) && t in Refs(s.recipes[rid], k)
  {
    if Assigned(s, k, t) {
      var rid :| rid in s.recipes && t in Refs(s.recipes[rid], k);
      assert OwnedBy(s, rid, caller);
    }
  }

  /** Row `t` of `reg` under a new name; its owner and every other row
      stay. */
  function RenameRow(reg: Registry, t: Id, newName: string): (r: Registry)
    requires t in reg
    ensures r.Keys == reg.Keys
    ensures r[t] == Named(reg[t].owner, newName)
    ensures forall x :: x in reg && x != t ==> r[x] == reg[x]
  {
    reg[t := reg[t].(name := newName)]
  }

  /** Replacing a registry by one with the same rows and owners keeps the
      store valid. */
  lemma SameOwnersKeepValid(s: Store, k: Kind, reg': Registry)
    requires Valid(s)
    requires reg'.Keys == RegistryOf(s, k).Keys
    requires forall x :: x in reg' ==> reg'[x].owner == RegistryOf(s, k)[x].owner
    ensures Valid(WithRegistry(s, k, reg'))
  {
    var s' := WithRegistry(s, k, reg');
    forall r | r in s'.recipes
      ensures RefsOwned(RegistryOf(s', k), Refs(s'.recipes[r], k), s'.recipes[r].owner)
    {
      assert RefsOwned(RegistryOf(s, k), Refs(s.recipes[r], k), s.recipes[r].owner);
    }
  }

  /** PATCH / PUT on a tag or ingredient. The row is looked up in the
      caller's queryset, so `assigned_only` is read first (a value that is
      no integer is the `ValueError`) and, when set, hides rows no recipe
      links. `name` is required unless the update is partial; when given it
      is cleaned like any `CharField(max_length=255)` and replaces the old
      name. Recipes keep their links. */
  function RenameAttr(v: Variant, s: Store, k: Kind, caller: Id, t: Id, assignedOnly: Option<string>, name: Option<string>, partial: bool): (r: Result<Store, Error>)
    ensures r == Err(InvalidInteger) <==> AssignedFlag(v, assignedOnly).Err?
    ensures AssignedFlag(v, assignedOnly).Ok? ==>
              (r == Err(NotFound) <==> !InScope(s, k, caller, AssignedFlag(v, assignedOnly).value, t))
    ensures r == Err(Invalid(NameField)) <==>
              && AssignedFlag(v, assignedOnly).Ok?
              && InScope(s, k, caller, AssignedFlag(v, assignedOnly).value, t)
              && (if name.Some? then !NameAccepted(name.value) else !partial)
    ensures r.Err? ==> r.error == InvalidInteger || r.error == NotFound || r.error == Invalid(NameField)
    ensures r.Ok? ==> r.value.users == s.users && r.value.recipes == s.recipes
    ensures r.Ok? ==> (k.TagKind? ==> r.value.ingredients == s.ingredients) && (k.IngredientKind? ==> r.value.tags == s.tags)
    ensures r.Ok? ==> RegistryOf(r.value, k).Keys == RegistryOf(s, k).Keys
    ensures r.Ok? ==> forall x :: x in RegistryOf(s, k) && x != t ==> RegistryOf(r.value, k)[x] == RegistryOf(s, k)[x]
    ensures r.Ok? ==> RegistryOf(r.value, k)[t].owner == caller
    ensures r.Ok? ==> RegistryOf(r.value, k)[t].name == (if name.Some? then Trim(name.value) else RegistryOf(s, k)[t].name)
  {
    var onlyAssigned :- AssignedFlag(v, assignedOnly);
    var reg := RegistryOf(s, k);
    if !InScope(s, k, caller, onlyAssigned, t) then Err(NotFound)
    else if name.None? && !partial then Err(Invalid(NameField))
    else
      var cleaned :- CleanOptional(name, false, Some(MaxLength), NameField);
      Ok(WithRegistry(s, k, RenameRow(reg, t, cleaned.GetOr(reg[t].name))))
  }

  /** A PATCH without `name` finds the row and changes nothing. */
  lemma PatchWithoutNameKeeps(v: Variant, s: Store, k: Kind, caller: Id, t: Id)
    requires t in RegistryOf(s, k) && RegistryOf(s, k)[t].owner == caller
    ensures RenameAttr(v, s, k, caller, t, None, None, true) == Ok(s)
  {
    var reg := RegistryOf(s, k);
    assert RenameRow(reg, t, reg[t].name) == reg;
    assert WithRegistry(s, k, reg) == s;
  }

  /** A rename keeps owners and keys, so the store stays valid. */
  lemma RenameKeepsValid(v: Variant, s: Store, k: Kind, caller: Id, t: Id, assignedOnly: Option<string>, name: Option<string>, partial: bool)
    requires Valid(s)
    requires RenameAttr(v, s, k, caller, t, assignedOnly, name, partial).Ok?
    ensures Valid(RenameAttr(v, s, k, caller, t, assignedOnly, name, partial).value)
  {
    var s' := RenameAttr(v, s, k, caller, t, assignedOnly, name, partial).value;
    var reg' := RegistryOf(s', k);
    assert s' == WithRegistry(s, k, reg');
    SameOwnersKeepValid(s, k, reg');
  }

  /** Nothing stops a rename from giving one of the caller's rows the name
      of another; the next save naming it then meets
      `MultipleObjectsReturned`. */
  lemma RenameCanDuplicate(v: Variant, s: Store, k: Kind, caller: Id, t1: Id, t2: Id, n: string, partial: bool)
    requires t1 != t2 && NameAccepted(n) && Trim(n) == n
    requires t1 in RegistryOf(s, k) && RegistryOf(s, k)[t1] == Named(caller, n)
    requires t2 in RegistryOf(s, k) && RegistryOf(s, k)[t2].owner == caller
    ensures RenameAttr(v, s, k, caller, t2, None, Some(n), partial).Ok?
    ensures GetOrCreate(RegistryOf(RenameAttr(v, s, k, caller, t2, None, Some(n), partial).value, k), caller, n) == Err(MultipleObjectsReturned)
  {
    var reg' := RegistryOf(RenameAttr(v, s, k, caller, t2, None, Some(n), partial).value, k);
    TwoNamesakesFail(reg', caller, n, t1, t2);
  }

  /** DELETE on a tag or ingredient: looked up in the caller's queryset
      like a rename (`assigned_only` included); the row goes, and every
      recipe loses its link to it (the link table rows are deleted with
      it). Recipes themselves stay. */
  function DestroyAttr(v: Variant, s: Store, k: Kind, caller: Id, t: Id, assignedOnly: Option<string>): (r: Result<Store, Error>)
    ensures r == Err(InvalidInteger) <==> AssignedFlag(v, assignedOnly).Err?
    ensures r == Err(NotFound) <==>
              AssignedFlag(v, assignedOnly).Ok? && !InScope(s, k, caller, AssignedFlag(v, assignedOnly).value, t)
    ensures r.Err? ==> r.error == InvalidInteger || r.error == NotFound
    ensures r.Ok? ==> RegistryOf(r.value, k) == RegistryOf(s, k) - {t}
    ensures r.Ok? ==> r.value.users == s.users && r.value.recipes.Keys == s.recipes.Keys
    ensures r.Ok? ==> forall rid :: rid in s.recipes ==>
              && t !in Refs(r.value.recipes[rid], k)
              && Refs(r.value.recipes[rid], k) == Refs(s.recipes[rid], k) - {t}
              && WithRefs(r.value.recipes[rid], k, Refs(s.recipes[rid], k)) == s.recipes[rid]
    ensures r.Ok? ==> (k.TagKind? ==> r.value.ingredients == s.ingredients) && (k.IngredientKind? ==> r.value.tags == s.tags)
    ensures r.Ok? && Valid(s) ==> Valid(r.value)
  {
    var onlyAssigned :- AssignedFlag(v, assignedOnly);
    var reg := RegistryOf(s, k);
    if !InScope(s, k, caller, onlyAssigned, t) then Err(NotFound)
    else
      var recipes := map rid | rid in s.recipes :: WithRefs(s.recipes[rid], k, Refs(s.recipes[rid], k) - {t});
      Ok(WithRegistry(s, k, reg - {t}).(recipes := recipes))
  }

  /** With `assigned_only=1` a row no recipe links is outside the queryset:
      renaming or deleting it is `NotFound` although the caller owns it. */
  lemma AssignedOnlyHidesUnlinked(s: Store, k: Kind, caller: Id, t: Id, name: Option<string>, partial: bool)
    requires t in RegistryOf(s, k) && RegistryOf(s, k)[t].owner == caller && !Assigned(s, k, t)
    ensures RenameAttr(Backend, s, k, caller, t, Some("1"), name, partial) == Err(NotFound)
    ensures DestroyAttr(Backend, s, k, caller, t, Some("1")) == Err(NotFound)
  {
    AssignedOnlyOfInteger(1);
  }
}
