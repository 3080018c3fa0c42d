/** The database tables of `core/models.py` as one immutable store: users,
    the tag and ingredient registries, and recipes with their many-to-many
    links held as id sets. Both snapshots of the application share these
    types; `Variant` says which one a call runs as. */
module Models {
  import opened Wrappers

  type Id = nat

  /** What `set_password` stores: nothing usable for `None`, otherwise the
      output of the (external) password hasher. */
  datatype Credential = Unusable | Hashed(digest: string)

  datatype User = User(
    email: string,
    name: string,
    credential: Credential,
    isActive: bool,
    isStaff: bool,
    isSuperuser: bool)

  /** A `Tag` or `Ingredient` row: its owner and its name. */
  datatype Named = Named(owner: Id, name: string)

  /** The `Tag` or the `Ingredient` table, by primary key. */
  type Registry = map<Id, Named>

  /** A `Recipe` row. `priceCents` is the decimal price times 100; `tags`
      and `ingredients` are the many-to-many links; `image` is the stored
      file name, `None` for `null`. */
  datatype Recipe = Recipe(
    owner: Id,
    title: string,
    description: string,
    timeMinutes: int,
    priceCents: int,
    link: string,
    tags: set<Id>,
    ingredients: set<Id>,
    image: Option<string>)

  datatype Store = Store(
    users: map<Id, User>,
    tags: Registry,
    ingredients: Registry,
    recipes: map<Id, Recipe>)

  /** `App` is the earlier snapshot (tags only in the serializer, no list
      filters, no image, 5-digit prices); `Backend` is the current one. */
  datatype Variant = App | Backend

  /** `max_digits` of `Recipe.price`. */
  function PriceMaxDigits(v: Variant): nat {
    if v.App? then 5 else 8
  }

  /** `max_length` of every bounded `CharField` in the core. */
  const MaxLength: nat := 255

  /** Tags and ingredients have the same shape and the same rules. */
  datatype Kind = TagKind | IngredientKind

  function RegistryOf(s: Store, k: Kind): Registry {
    if k.TagKind? then s.tags else s.ingredients
  }

  function WithRegistry(s: Store, k: Kind, reg: Registry): Store {
    if k.TagKind? then s.(tags := reg) else s.(ingredients := reg)
  }

  function Refs(r: Recipe, k: Kind): set<Id> {
    if k.TagKind? then r.tags else r.ingredients
  }

  function WithRefs(r: Recipe, k: Kind, ids: set<Id>): Recipe {
    if k.TagKind? then r.(tags := ids) else r.(ingredients := ids)
  }

  /** The input fields validation can reject. */
  datatype Field =
    | TitleField | DescriptionField | TimeMinutesField | PriceField | LinkField
    | TagNameField | IngredientNameField | ImageField | NameField

  datatype Error =
    | EmptyEmail               // create_user's ValueError
    | DuplicateEmail           // the unique constraint on User.email
    | NotFound                 // no such row in the caller's queryset (404)
    | Invalid(field: Field)    // serializer validation (400)
    | MultipleObjectsReturned  // get_or_create found more than one row
    | InvalidInteger           // int() of a query parameter raised ValueError

  /** Every id in `ids` is a row of `reg` owned by `owner`. */
  ghost predicate RefsOwned(reg: Registry, ids: set<Id>, owner: Id) {
    forall t :: t in ids ==> t in reg && reg[t].owner == owner
  }

  ghost predicate OwnersExist(reg: Registry, users: map<Id, User>) {
    forall t :: t in reg ==> reg[t].owner in users
  }

  /** The store invariant: foreign keys point at existing rows, and a recipe
      links only tags and ingredients of its own owner. */
  ghost predicate Valid(s: Store) {
    && OwnersExist(s.tags, s.users)
    && OwnersExist(s.ingredients, s.users)
    && forall r :: r in s.recipes ==>
         && s.recipes[r].owner in s.users
         && RefsOwned(s.tags, s.recipes[r].tags, s.recipes[r].owner)
         && RefsOwned(s.ingredients, s.recipes[r].ingredients, s.recipes[r].owner)
  }

  /** `reg'` keeps every row of `reg` unchanged: rows are only ever added. */
  ghost predicate Extends(reg: Registry, reg': Registry) {
    forall t :: t in reg ==> t in reg' && reg'[t] == reg[t]
  }

  /** The caller-visible recipe queryset: `Recipe.objects.filter(user=caller)`. */
  predicate OwnedBy(s: Store, rid: Id, caller: Id) {
    rid in s.recipes && s.recipes[rid].owner == caller
  }
}
