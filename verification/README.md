# Recipe backend: a Dafny model

This project models the core of a small Django REST Framework recipe service. Users own recipes. Each recipe links a set of the owner's tags and a set of the owner's ingredients. Tags and ingredients are rows of per-user registries keyed by `(owner, name)`.

The database is one immutable `Models.Store`, made of maps from ids to users, tags, ingredients and recipes. Every operation is a pure function from a store and a request to a `Result`: either a new store (plus an id where one is created) or an `Error`.

Two snapshots of the code are modelled, told apart by `Models.Variant`:

- `Backend` is the current code in `backend/`.
- `App` is the earlier snapshot in `app/`. It has tags only, no list filters, no `assigned_only`, no image upload, and a price column of 5 digits instead of 8.

Modules follow the program's structure:

- `Models`: the tables, the variant's column widths, the error kinds, and the store invariant `Valid`. `Valid` says every row has an existing owner, and a recipe links only rows of its own owner.
- `Registries`: `get_or_create` keyed on `(user, name)`, and the loop that resolves a payload's names.
- `Serializers`: `RecipeSerializer` / `RecipeDetailSerializer` field validation, then `create` and `update`, plus `perform_create` forcing the owner.
- `RecipeViews`: the recipe list query with its `tags` / `ingredients` filters, recipe deletion, and `upload-image`.
- `AttrViews`: tag and ingredient listing with `assigned_only`, rename, and delete.
- `Users`: `create_user`, `create_superuser`, and the `CASCADE` deletion of a user.
- Supporting modules:
  - `QueryParams`: `str.split(',')` and Python `int()`.
  - `Price`: DRF `DecimalField` precision checks, giving integer cents.
  - `ImagePath`: `os.path.splitext` and `recipe_image_file_path`.
  - `Text`: whitespace trimming and lexicographic order.
  - `Sorting`: ordering a set into a sequence, and fresh ids.

Inputs from outside the program are parameters:

- The image file's uuid is supplied by the caller.
- Whether an uploaded file decodes as an image is a flag of the input.
- The image extensions the imaging library registers (the list Django's `validate_image_file_extension` checks against) are a set parameter of `RecipeViews.UploadImage`.
- `normalize_email` and the password hasher are opaque functions in `Users.Hooks`.

Writes are all-or-nothing: an operation that fails returns an error and no store.

The price column is a signed `DecimalField` with no minimum, so negative prices are accepted.

## Model

| member | source | states |
|---|---|---|
| Registries.GetOrCreate | backend/recipe/serializers.py:37-42 | Exactly one existing row of `(user, name)` is returned unchanged. None means a new row under a fresh id, and no other row changes. Two or more is `MultipleObjectsReturned`, and that is the only failure. After success, exactly one row matches. The earlier snapshot resolves tags with the same get-or-create on `(user, name)`. |
| Registries.ResolveAll | backend/recipe/serializers.py:33-54 | The loop over a payload's names fails exactly when some name already has several of the owner's rows. On success: existing rows stay as they were. The collected set is exactly the owner's rows whose names occur in the payload. Each name then has exactly one row. Only names without a row gain one, each once, owned by the caller. |
| Registries.ResolveExisting | backend/recipe/serializers.py:36-43 | When every name already has its row, resolving creates nothing and collects exactly those rows. |
| Registries.ResolveIdempotent | backend/recipe/serializers.py:33-43 | Resolving the same names a second time finds what the first time made: nothing new, and the same ids. |
| Serializers.CleanText | backend/core/models.py:77-81 | A `CharField` value is accepted exactly when its stripped form passes three tests: it is non-blank unless blanks are allowed, it fits `max_length`, and it has no NUL. The stored value is the stripped form. |
| Serializers.CleanNames | backend/recipe/serializers.py:9-26 | A nested `many=True` list of `{name}` entries is accepted exactly when every name is acceptable (required, non-blank, at most 255 characters). Each entry becomes its stripped name, in order. |
| Serializers.CleanPrice | backend/core/models.py:80 | A supplied price is accepted exactly when it fits the variant's `DecimalField` precision. The cents it yields satisfy `abs(cents) < 10^max_digits`. |
| Serializers.Validate | backend/recipe/serializers.py:24-93 | Validation succeeds exactly when required keys are present (unless partial) and every present field is acceptable. `validated_data` keeps exactly the present writable keys, cleaned. `ingredients` is kept only for `Backend`. The detail serializer adds `description`, which may be blank and has no length limit. |
| Serializers.AssociateBoth | backend/recipe/serializers.py:61-62 | The tag loop and the ingredient loop each work on their own table. An absent list keeps the current links. The save fails exactly when either list names an ambiguous row. |
| Serializers.Create | backend/recipe/serializers.py:56-64 | A new recipe under a fresh id, owned by the caller, with the validated scalar values. Its tags are exactly the caller's tags named in the payload, or none when `tags` is absent; the same holds for ingredients. Tables only grow, and only by the caller's rows with payload names that had no row. Other recipes are unchanged. The earlier snapshot behaves the same for `tags`; it has no ingredients. |
| Serializers.Update | backend/recipe/serializers.py:66-87 | Present scalar keys replace and absent ones keep their values. The owner and the image never change. A present `tags` or `ingredients` list, even `[]`, replaces that link set by the named rows; an absent one leaves the links and the table alone. The two halves are independent. Tables only grow, and other recipes are unchanged. The earlier snapshot has the same replace-or-keep rule for `tags` and the scalar keys. |
| Serializers.CreateRecipe | backend/recipe/views.py:114-122 | A POST is validation then `create`. A validation error is returned as is. The new recipe's owner is the caller whatever `user` the body names. A valid body fails only when a tag or ingredient name already has several rows of the caller; otherwise it succeeds. The new recipe's title, description, link, time and price are the cleaned payload's values, with `""` for an absent description or link. It has no image. Its tags and ingredients are exactly the caller's rows with the listed names. Every earlier recipe is unchanged. In the earlier snapshot the owner is likewise the caller, and ingredients in the body are ignored, so the recipe has none. |
| Serializers.UpdateRecipe | backend/recipe/views.py:96 | A PUT or PATCH on a recipe that is not the caller's (or does not exist) is `NotFound`, because lookup goes through the caller's queryset. Otherwise it is validation then `update`. A valid body fails only when a listed name already has several rows of the caller. A present key replaces its field with the cleaned value, and an absent key keeps the old value. Owner and image are always kept. A present `tags` list, or in the later version a present `ingredients` list, replaces those links. Other recipes are unchanged. The earlier snapshot scopes the detail lookup to the caller in the same way. |
| Serializers.CreateKeepsValid | backend/recipe/serializers.py:34-42 | Creating a recipe keeps the store invariant: every row the recipe links, old or new, belongs to its owner. |
| Serializers.UpdateKeepsValid | backend/recipe/serializers.py:71-80 | Updating a recipe keeps the store invariant. |
| Serializers.SecondCreateReusesRows | backend/recipe/serializers.py:37-43 | Creating a second recipe from the same data creates no tag or ingredient row, and links the same rows as the first. |
| Serializers.UpdateIdempotent | backend/recipe/serializers.py:66-87 | Applying the same update twice: the second application returns the store unchanged. |
| Serializers.EmptyListClears | backend/recipe/serializers.py:74-76 | `tags: []` leaves the recipe with no tags and deletes no tag row. |
| Serializers.AppIgnoresIngredients | app/recipe/serializers.py:24-31 | In the earlier snapshot `ingredients` is not a serializer field: validation gives the same result whatever the body says about ingredients. |
| Serializers.UserFieldIgnored | backend/recipe/serializers.py:30 | `user` is not among the serializer's fields: validation gives the same result whatever `user` the body names. |
| QueryParams.Split | backend/recipe/views.py:73 | `str.split(',')` returns at least one piece. No piece contains the separator, and joining the pieces with it gives back the input. |
| QueryParams.SplitJoin | backend/recipe/views.py:73 | Splitting a join of separator-free pieces gives back the pieces. |
| QueryParams.SplitCount | backend/recipe/views.py:73 | Splitting gives one more piece than there are separators. |
| QueryParams.ParseInt | backend/recipe/views.py:73 | Python `int()` gives `n` exactly when the string is whitespace, then an optional `+` or `-` and a run of digits (single `_` allowed between digits) whose value is `n`, then whitespace. Here whitespace means what `int()` skips: ASCII space, tab, newline, vertical tab, form feed and carriage return, plus non-ASCII characters that `str.isspace()` accepts. The separators U+001C to U+001F are not skipped. Anything else, an all-whitespace or empty string included, is an error. |
| QueryParams.IntPadding | backend/recipe/views.py:73 | `int()` accepts a string exactly when `str.strip()` padding would give the same number and the string has no U+001C to U+001F. No number's digits contain one of these separators, so `int()` and `strip()` disagree only on them. |
| QueryParams.InfoSeparatorNotSkipped | backend/recipe/views.py:73 | `str.strip()` turns `"\x1c1"` into `"1"`, but `int("\x1c1")` is an error. So `?tags=%1C1` is refused. |
| QueryParams.ParseFormat | backend/recipe/views.py:73 | `int()` of an integer's decimal form gives the integer back. |
| QueryParams.ParamsToInts | backend/recipe/views.py:67-73 | `_params_to_ints` fails exactly when some comma-separated piece is not an integer; the empty string fails. Otherwise it yields one integer per piece, in order: element `i` is `int()` of piece `i`. |
| QueryParams.JoinParse | backend/recipe/views.py:67-73 | Joining a non-empty list of integers with commas and parsing it gives back the list. |
| QueryParams.EmptyPieceRejected | backend/recipe/views.py:73 | An empty piece, as in `"1,,2"`, makes the whole parameter an error. |
| RecipeViews.ParseFilter | backend/recipe/views.py:77-94 | A filter parameter that is absent or empty imposes no filter (`if tags:`). Otherwise it is the set of parsed ids, or the `ValueError` of `_params_to_ints`. |
| RecipeViews.JoinCountPositive | backend/recipe/views.py:88 | The `tags__id__in` join yields a row for a recipe exactly when one of its linked ids is listed. |
| RecipeViews.RowCount | backend/recipe/views.py:86-95 | A recipe yields joined rows exactly when each present filter admits it. |
| RecipeViews.JoinDuplicates | backend/recipe/views.py:96 | A recipe linked to two listed tags yields two joined rows, which is why `.distinct()` is needed. |
| RecipeViews.Selected | backend/recipe/views.py:85-96 | The filtered, de-duplicated queryset is exactly the caller's recipes that every present filter admits. |
| RecipeViews.ListRecipes | backend/recipe/views.py:75-96 | In `Backend` the list fails exactly when a present filter does not parse. Otherwise it holds exactly the caller's recipes having some listed tag (when `tags` is given) and some listed ingredient (when `ingredients` is given). It is strictly decreasing by id, hence free of duplicates. In the earlier snapshot the list always succeeds and holds exactly the caller's recipes, strictly decreasing by id. |
| RecipeViews.EmptyFiltersListAll | backend/recipe/views.py:86-96 | Absent or empty filters list exactly what the unfiltered query lists. |
| RecipeViews.FiltersConjoin | backend/recipe/views.py:86-96 | With both filters, a recipe is listed exactly when it is listed under each filter alone (AND across fields). |
| RecipeViews.JoinedIdsFilter | backend/recipe/views.py:67-88 | Filtering by a comma-joined list of tag ids lists exactly the caller's recipes linked to one of those ids (OR within the field). |
| RecipeViews.DestroyRecipe | backend/core/models.py:82-83 | Deleting a recipe that is not the caller's is `NotFound`. Otherwise exactly that recipe goes. Every tag, ingredient, user and other recipe stays, and the store invariant is kept. |
| RecipeViews.UploadImage | backend/recipe/views.py:130-143 | `upload-image` (`Backend` only) is `NotFound` unless the recipe is the caller's. It then succeeds exactly when the required image is null, or is a file with a name of 1 to 100 characters, some content, valid image data, and a name whose `Path.suffix`, lower-cased, is a registered image extension. A file is stored under `recipe_image_file_path` and a null clears the image. Nothing else changes. `RecipeImageSerializer` makes `image` required, so a missing image is a validation error. |
| RecipeViews.DotlessNameRefused | backend/recipe/views.py:130-143 | A file name without a dot, such as `photo`, has no image extension, so the upload is refused even when the content decodes. |
| RecipeViews.StoredImageKeepsExtension | backend/core/models.py:15-20 | An uploaded file's stored name lies under `static/recipe/` and keeps the file's extension. |
| ImagePath.SplitExt | backend/core/models.py:17 | `os.path.splitext` splits a path into root and extension that concatenate back to it. The extension is empty or a dot followed by a dot-free, slash-free tail. |
| ImagePath.SplitExtFindsExtension | backend/core/models.py:17 | The extension is non-empty exactly when the last path component has a dot preceded by a non-dot character. |
| ImagePath.SplitExtOf | backend/core/models.py:17 | Appending an extension to a root with a non-dot character in its last component splits back into that root and extension. |
| ImagePath.SplitExtNoDot | backend/core/models.py:17 | A name without a dot has no extension. |
| ImagePath.Suffix | backend/core/models.py:84 | `PurePath(name).suffix`, which the image field's extension validator reads: non-empty exactly when the last path component has a last dot that is neither its first nor its last character, and then the name's tail from that dot. |
| ImagePath.RecipeImageFilePath | backend/core/models.py:15-20 | The path is `static/recipe/`, then the 36-character uuid text, then the original file name's extension. |
| ImagePath.PathKeepsExtension | backend/core/models.py:17-20 | The generated path has the original file name's extension. |
| ImagePath.DistinctUuidsDistinctPaths | backend/core/models.py:18-20 | Distinct uuids give distinct paths, whatever the file names. |
| ImagePath.StemIgnored | backend/core/models.py:17-18 | The path depends on the file name's extension only, never on its stem. |
| Price.ToCents | backend/core/models.py:80 | A non-finite value is refused. An accepted decimal has at most 2 fractional digits, and its value in cents satisfies `abs(cents) < 10^max_digits`, that is, at most `max_digits` digits in all. |
| Price.CentsAccepted | backend/core/models.py:80 | Every cent amount below `10^max_digits` in absolute value, negative ones included, is accepted and read back exactly. |
| Price.NarrowerAcceptsLess | app/core/models.py:59 | Whatever the 5-digit column of the earlier snapshot accepts, the 8-digit column accepts with the same value. |
| Price.ThousandNeedsWideColumn | app/core/models.py:59 | 1000.00 is refused by the 5-digit column and accepted by the 8-digit one. |
| Price.TrailingZerosCount | backend/core/models.py:80 | `1.500` is refused for having 3 decimal places, while `1.50` is accepted. |
| Users.CredentialFor | backend/core/models.py:35 | `set_password(None)` stores an unusable password; any string stores its hash. |
| Users.CreateUser | backend/core/models.py:27-38 | An empty email fails, and that is the only `EmptyEmail` case. An email whose normalized form is taken fails as `DuplicateEmail`. Otherwise exactly one new user appears under a fresh id. The new user has the normalized email and the given name, and is active, not staff and not superuser. Nothing else changes. Email uniqueness and the store invariant are kept. The earlier snapshot has the same empty-email check and the same defaults. |
| Users.CreateSuperuser | backend/core/models.py:40-47 | `create_superuser` fails exactly when `create_user` does, with the same error. Otherwise it is the same store and row, with `is_staff` and `is_superuser` both set. The earlier snapshot promotes in the same way. |
| Users.SecondAccountRefused | backend/core/models.py:57 | After one account is created, a second one for the same email is refused, whatever its password or name. |
| Users.WithoutOwner | backend/core/models.py:92-95 | The rows surviving a user's deletion are exactly those of other owners, unchanged. |
| Users.DeleteUser | backend/core/models.py:73-76 | Deleting an existing user also deletes exactly that user's recipes, tags and ingredients (`on_delete=CASCADE`). Surviving recipes lose only links to deleted rows, which in a valid store means none. The invariant is kept. A missing user is `NotFound`. The earlier snapshot's foreign keys cascade in the same way. |
| Users.SurvivorsKeepLinks | backend/core/models.py:102-105 | In a valid store, the recipes surviving a user's deletion keep all their links. |
| AttrViews.ParseAssignedOnly | backend/recipe/views.py:175-177 | `bool(int(assigned_only))` is false when the parameter is absent. A present value is an error exactly when `int()` refuses it. Otherwise the flag is true exactly when the integer is non-zero. |
| AttrViews.AssignedOnlyOfInteger | backend/recipe/views.py:175-177 | Any integer's decimal form sets the flag exactly when the integer is non-zero, and an empty value is an error. |
| AttrViews.Scope | backend/recipe/views.py:184-189 | The queryset is exactly the caller's rows, restricted, when `assigned_only` is set, to rows some recipe links (`recipe__isnull=False`). |
| AttrViews.NameAboveIsStrictTotal | backend/recipe/views.py:189 | `-name` ordering, with ties broken by id, is a strict total order on the listed rows. |
| AttrViews.ListAttrs | backend/recipe/views.py:170-189 | In `Backend` the list fails exactly when `assigned_only` does not parse. Otherwise it holds exactly the caller's rows (only the assigned ones when the flag is set), each once, with names non-increasing. In the earlier snapshot the tag and ingredient lists always succeed and hold exactly the caller's rows, each once, names non-increasing. |
| AttrViews.NameAboveNotBelow | backend/recipe/views.py:189 | A sequence in `-name` order never lists a name before a larger one. |
| AttrViews.AssignedMeansUsedByCaller | backend/recipe/views.py:185-186 | In a valid store a caller's row is assigned exactly when one of the caller's own recipes links it. |
| AttrViews.RenameAttr | backend/recipe/views.py:161-189 | A PATCH or PUT on a tag or ingredient first reads `assigned_only` (in `Backend`), and a value that is no integer is the error. A row outside the caller's queryset (not the caller's, or unassigned while the flag is set) is `NotFound`. A PUT without `name`, or any unacceptable name, is a validation error. Otherwise only that row's name changes, to the stripped new name; a PATCH without `name` changes nothing. Keys, owners, other rows, recipes and the other table are unchanged. |
| AttrViews.PatchWithoutNameKeeps | backend/recipe/views.py:161-162 | A PATCH with no `name` on the caller's row succeeds and leaves the store as it was. |
| AttrViews.AssignedOnlyHidesUnlinked | backend/recipe/views.py:175-186 | With `assigned_only=1`, renaming or deleting a caller's row that no recipe links is `NotFound`. |
| AttrViews.RenameKeepsValid | backend/recipe/views.py:161-162 | A rename keeps the store invariant. |
| AttrViews.RenameCanDuplicate | backend/recipe/serializers.py:37-42 | A rename can give two of a caller's rows the same name. A later save naming it then fails with `MultipleObjectsReturned`. |
| AttrViews.DestroyAttr | backend/recipe/views.py:162-189 | A DELETE on a tag or ingredient reads `assigned_only` like a rename, and a row outside the caller's queryset is `NotFound`. Otherwise exactly that row goes and every recipe loses only its link to it. Recipes, users and the other table stay, and the invariant is kept. |
| Sorting.SortDesc | backend/recipe/views.py:96 | `order_by` of a set gives a sequence with exactly the set's elements, each once, in the given order. |
| Sorting.FreshId | backend/core/models.py:72 | A new primary key is positive and greater than every existing key, so it is unused. |
| Text.Trim | backend/core/models.py:77 | DRF's `trim_whitespace` (`str.strip()`) returns the infix of the input that has only whitespace before and after it and starts and ends with a non-whitespace character. The result is empty exactly when the input is all whitespace. |
| Text.LexTotal | backend/recipe/views.py:189 | Lexicographic name order relates any two distinct names. |
| Text.LexTransitive | backend/recipe/views.py:189 | Lexicographic name order is transitive. |

## Left out

- Authentication and tokens (`TokenAuthentication`, the user app's serializers and views): every operation takes the authenticated caller's id as a parameter.
- Password hashing and `normalize_email`: both are opaque functions in `Users.Hooks`.
- Image decoding and file storage: "decodes as an image" is a flag of the input, and the uuid is a parameter. The extension check lower-cases ASCII letters only; Python's `lower()` also maps a few non-ASCII characters to ASCII ones. Storage renaming on a name clash and the `FileField` `max_length` of the stored path are not modelled.
- Setting the image through the recipe detail serializer (`image` is also a field of `RecipeDetailSerializer`): the model changes the image only through `upload-image`.
- Concurrency: operations are sequential, so the race between two `get_or_create` calls is not modelled.
- Partial writes before an error: a save that hits `MultipleObjectsReturned` midway has already created rows and links in the source, unless the request runs in a transaction. Here a failed operation returns no store.
- Database collation: `-name` ordering is lexicographic order on characters.
- `AttrViews.ListAttrs`: equal names are ordered by id descending, a tie-break the database does not promise. The contract itself only says names are non-increasing.
- `RecipeViews.ListRecipes`: the `App` snapshot has no `.distinct()`. The model still lists each recipe once, which is what the unjoined query returns.
- Recipe detail lookups on `Backend` pass through the same filtered queryset as the list, so a `tags` or `ingredients` parameter on a recipe PATCH, PUT, DELETE or `upload-image` request would also filter or fail it. The model's recipe detail operations ignore query parameters. Tag and ingredient detail operations do read `assigned_only`, as their queryset does.
- Serializers.Validate: DRF reports every failing field at once. The model reports one failing field; which one is not part of the contract.
- Integer column ranges: `time_minutes` is an unbounded integer, and the database's 32-bit range check is not modelled.
- `email` `max_length=255`: the model does not check the email's length.
- `QueryParams.ParseInt`: `int()` also accepts non-ASCII Unicode decimal digits; the model accepts only ASCII digits. From Python 3.11, `int()` also refuses a decimal string of more than 4300 digits by default (`sys.int_max_str_digits`). The model has no such limit, because the Python version is not fixed by the repository.
- `Users.CreateSuperuser`: `PermissionsMixin` fields other than `is_superuser` (groups, permissions) are not modelled.
- Admin screens, routing tables and the OpenAPI schema decorators.
