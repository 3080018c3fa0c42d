/** `UserManager.create_user` / `create_superuser` and what deleting a user
    does to the rows that point at it (`on_delete=CASCADE` everywhere). */
module Users {
  import opened Wrappers
  import opened Models
  import opened Sorting

  /** The Django internals the manager calls and this model keeps closed:
      `normalize_email` and the password hasher behind `set_password`. */
  datatype Hooks = Hooks(normalizeEmail: string -> string, hashPassword: string -> string)

  /** Some user already holds this email. */
  predicate EmailTaken(users: map<Id, User>, email: string) {
    exists u :: u in users && users[u].email == email
  }

  /** The `unique=True` constraint on `User.email`. */
  ghost predicate UniqueEmails(users: map<Id, User>) {
    forall u1, u2 :: u1 in users && u2 in users && users[u1].email == users[u2].email ==> u1 == u2
  }

  /** What `set_password(password)` stores. */
  function CredentialFor(hooks: Hooks, password: Option<string>): (c: Credential)
    ensures password.None? <==> c.Unusable?
  {
    match password
    case None => Unusable
    case Some(p) => Hashed(hooks.hashPassword(p))
  }

  /** The row `create_user` builds: the normalized email, the name, the
      stored password, and the field defaults (active, not staff, not
      superuser). */
  function NewUser(hooks: Hooks, email: string, password: Option<string>, name: string): (u: User)
    ensures u.email == hooks.normalizeEmail(email) && u.name == name
    ensures u.credential == CredentialFor(hooks, password)
    ensures u.isActive && !u.isStaff && !u.isSuperuser
  {
    User(hooks.normalizeEmail(email), name, CredentialFor(hooks, password), true, false, false)
  }

  /** Adding a user under an unused id with an untaken email keeps emails
      unique and the store valid. */
  lemma AddUserKeeps(s: Store, id: Id, u: User)
    requires id !in s.users && !EmailTaken(s.users, u.email)
    ensures UniqueEmails(s.users) ==> UniqueEmails(s.users[id := u])
    ensures Valid(s) ==> Valid(s.(users := s.users[id := u]))
  {
  }

  /** `create_user(email, password, name=name)`: an empty email is refused
      before anything is saved; otherwise a new active, non-staff,
      non-superuser row with the normalized email, unless that email is
      already taken. */
  function CreateUser(s: Store, hooks: Hooks, email: string, password: Option<string>, name: string): (r: Result<(Store, Id), Error>)
    ensures r == Err(EmptyEmail) <==> email == ""
    ensures r == Err(DuplicateEmail) <==> email != "" && EmailTaken(s.users, hooks.normalizeEmail(email))
    ensures r.Err? ==> r.error == EmptyEmail || r.error == DuplicateEmail
    ensures r.Ok? ==> r.value.1 !in s.users && r.value.0 == s.(users := s.users[r.value.1 := NewUser(hooks, email, password, name)])
    ensures r.Ok? ==> r.value.0.users.Keys == s.users.Keys + {r.value.1}
    ensures r.Ok? ==> forall u :: u in s.users ==> r.value.0.users[u] == s.users[u]
    ensures r.Ok? ==> var u := r.value.0.users[r.value.1];
              && u.email == hooks.normalizeEmail(email)
              && u.name == name
              && u.credential == CredentialFor(hooks, password)
              && u.isActive && !u.isStaff && !u.isSuperuser
    ensures r.Ok? && UniqueEmails(s.users) ==> UniqueEmails(r.value.0.users)
    ensures r.Ok? && Valid(s) ==> Valid(r.value.0)
  {
    if email == "" then Err(EmptyEmail)
    else if EmailTaken(s.users, hooks.normalizeEmail(email)) then Err(DuplicateEmail)
    else
      var id := FreshId(s.users.Keys);
      var user := NewUser(hooks, email, password, name);
      AddUserKeeps(s, id, user);
      Ok((s.(users := s.users[id := user]), id))
  }

  /** `create_superuser(email, password)`: `create_user` with no name, then
      both staff and superuser flags raised on the same row. */
  function CreateSuperuser(s: Store, hooks: Hooks, email: string, password: Option<string>): (r: Result<(Store, Id), Error>)
    ensures r.Err? <==> CreateUser(s, hooks, email, password, "").Err?
    ensures r.Err? ==> r == CreateUser(s, hooks, email, password, "")
    ensures r.Ok? ==> var (plain, id) := CreateUser(s, hooks, email, password, "").value;
              && r.value.1 == id
              && r.value.0.(users := plain.users) == plain
              && r.value.0.users.Keys == plain.users.Keys
              && (forall u :: u in plain.users && u != id ==> r.value.0.users[u] == plain.users[u])
              && r.value.0.users[id].(isStaff := false, isSuperuser := false) == plain.users[id]
    ensures r.Ok? ==> var u := r.value.0.users[r.value.1];
              u.isActive && u.isStaff && u.isSuperuser && u.email == hooks.normalizeEmail(email)
  {
    var (plain, id) :- CreateUser(s, hooks, email, password, "");
    var u := plain.users[id];
    Ok((plain.(users := plain.users[id := u.(isStaff := true, isSuperuser := true)]), id))
  }

  /** A second account for the same email is refused, whatever its password
      or name. */
  lemma SecondAccountRefused(s: Store, hooks: Hooks, email: string, p1: Option<string>, n1: string, p2: Option<string>, n2: string)
    requires CreateUser(s, hooks, email, p1, n1).Ok?
    ensures CreateUser(CreateUser(s, hooks, email, p1, n1).value.0, hooks, email, p2, n2) == Err(DuplicateEmail)
  {
    var (s', id) := CreateUser(s, hooks, email, p1, n1).value;
    assert s'.users[id].email == hooks.normalizeEmail(email);
  }

  /** The rows of `reg` whose owner is not `uid`. */
  function WithoutOwner(reg: Registry, uid: Id): (r: Registry)
    ensures forall t :: t in r <==> t in reg && reg[t].owner != uid
    ensures forall t :: t in r ==> r[t] == reg[t]
  {
    map t | t in reg && reg[t].owner != uid :: reg[t]
  }

  /** Deleting a user: the user's recipes, tags and ingredients go with it,
      and surviving recipes lose their links to deleted tags and
      ingredients. `NotFound` when there is no such user. */
  function DeleteUser(s: Store, uid: Id): (r: Result<Store, Error>)
    ensures r.Err? <==> uid !in s.users
    ensures r.Err? ==> r.error == NotFound
    ensures r.Ok? ==> r.value.users == s.users - {uid}
    ensures r.Ok? ==> forall t :: t in r.value.tags <==> t in s.tags && s.tags[t].owner != uid
    ensures r.Ok? ==> forall t :: t in r.value.ingredients <==> t in s.ingredients && s.ingredients[t].owner != uid
    ensures r.Ok? ==> forall rid :: rid in r.value.recipes <==> rid in s.recipes && s.recipes[rid].owner != uid
    ensures r.Ok? ==> forall t :: t in r.value.tags ==> r.value.tags[t] == s.tags[t]
    ensures r.Ok? ==> forall t :: t in r.value.ingredients ==> r.value.ingredients[t] == s.ingredients[t]
    ensures r.Ok? ==> forall rid :: rid in r.value.recipes ==>
              r.value.recipes[rid] == s.recipes[rid].(
                tags := s.recipes[rid].tags * r.value.tags.Keys,
                ingredients := s.recipes[rid].ingredients * r.value.ingredients.Keys)
    ensures r.Ok? && Valid(s) ==> Valid(r.value)
    ensures r.Ok? && Valid(s) ==> forall rid :: rid in r.value.recipes ==> r.value.recipes[rid] == s.recipes[rid]
  {
    if uid !in s.users then Err(NotFound)
    else
      var tags := WithoutOwner(s.tags, uid);
      var ingredients := WithoutOwner(s.ingredients, uid);
      var recipes := map rid | rid in s.recipes && s.recipes[rid].owner != uid ::
        s.recipes[rid].(tags := s.recipes[rid].tags * tags.Keys, ingredients := s.recipes[rid].ingredients * ingredients.Keys);
      var s' := Store(s.users - {uid}, tags, ingredients, recipes);
      SurvivorsKeepLinks(s, uid, s');
      Ok(s')
  }

  /** In a valid store a surviving recipe links only rows of its own, still
      living, owner: pruning removes nothing from it. */
  lemma SurvivorsKeepLinks(s: Store, uid: Id, s': Store)
    requires s'.users == s.users - {uid}
    requires s'.tags == WithoutOwner(s.tags, uid) && s'.ingredients == WithoutOwner(s.ingredients, uid)
    requires forall rid :: rid in s'.recipes <==> rid in s.recipes && s.recipes[rid].owner != uid
    requires forall rid :: rid in s'.recipes ==>
               s'.recipes[rid] == s.recipes[rid].(
                 tags := s.recipes[rid].tags * s'.tags.Keys,
                 ingredients := s.recipes[rid].ingredients * s'.ingredients.Keys)
    ensures Valid(s) ==> Valid(s')
    ensures Valid(s) ==> forall rid :: rid in s'.recipes ==> s'.recipes[rid] == s.recipes[rid]
  {
    if Valid(s) {
      forall rid | rid in s'.recipes
        ensures s'.recipes[rid] == s.recipes[rid]
      {
        var rec := s.recipes[rid];
        assert rec.tags * s'.tags.Keys == rec.tags;
        assert rec.ingredients * s'.ingredients.Keys == rec.ingredients;
      }
    }
  }
}
