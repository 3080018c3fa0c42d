/** `Tag.objects.get_or_create(user=auth_user, name=...)` and the loop of
    `_get_or_create_tags` / `_get_or_create_ingredients`, over one registry. */
module Registries {
  import opened Wrappers
  import opened Models
  import opened Sorting

  /** The rows `get(user=owner, name=name)` would find. */
  function Matches(reg: Registry, owner: Id, name: string): set<Id> {
    set t | t in reg && reg[t] == Named(owner, name)
  }

  /** The owner's rows whose name occurs in `names`. */
  function OwnedNamed(reg: Registry, owner: Id, names: seq<string>): set<Id> {
    set t | t in reg && reg[t].owner == owner && reg[t].name in names
  }

  lemma SingletonOf(m: set<Id>, x: Id)
    requires |m| == 1 && x in m
    ensures m == {x}
  {
    assert |m - {x}| == 0;
  }

  /** `create(user=owner, name=name)`: a new row under an unused id. */
  function Insert(reg: Registry, row: Named): (r: (Registry, Id))
    ensures r.1 !in reg && r.0.Keys == reg.Keys + {r.1}
    ensures Extends(reg, r.0) && r.0[r.1] == row
    ensures Matches(r.0, row.owner, row.name) == Matches(reg, row.owner, row.name) + {r.1}
  {
    var id := FreshId(reg.Keys);
    MatchesInsert(reg, id, row);
    (reg[id := row], id)
  }

  lemma MatchesInsert(reg: Registry, id: Id, row: Named)
    requires id !in reg
    ensures Matches(reg[id := row], row.owner, row.name) == Matches(reg, row.owner, row.name) + {id}
  {
    var reg' := reg[id := row];
    forall x | x in reg'
      ensures x in Matches(reg', row.owner, row.name) <==> x in Matches(reg, row.owner, row.name) + {id}
    {
      if x != id {
        assert reg'[x] == reg[x];
      }
    }
  }

  /** The element of a one-element set. */
  function TheOnly(m: set<Id>): (x: Id)
    requires |m| == 1
    ensures m == {x}
  {
    GreaterIsStrictTotal(m);
    var x := SortDesc(m, Greater)[0];
    SingletonOf(m, x);
    x
  }

  /** `get_or_create` on one (owner, name): the single existing row, or a new
      row under a fresh id when there is none; more than one existing row is
      the `MultipleObjectsReturned` error. */
  function GetOrCreate(reg: Registry, owner: Id, name: string): (r: Result<(Registry, Id), Error>)
    ensures r.Err? <==> |Matches(reg, owner, name)| > 1
    ensures r.Err? ==> r.error == MultipleObjectsReturned
    ensures r.Ok? ==> Extends(reg, r.value.0)
    ensures r.Ok? ==> Matches(r.value.0, owner, name) == {r.value.1}
    ensures r.Ok? && Matches(reg, owner, name) != {} ==> r.value.0 == reg
    ensures r.Ok? && Matches(reg, owner, name) == {} ==>
              r.value.1 !in reg && r.value.0.Keys == reg.Keys + {r.value.1}
    ensures r.Ok? ==> forall t :: t in r.value.0 && t !in reg ==> t == r.value.1
  {
    var m := Matches(reg, owner, name);
    if |m| == 0 then
      Ok(Insert(reg, Named(owner, name)))
    else if |m| == 1 then
      Ok((reg, TheOnly(m)))
    else
      Err(MultipleObjectsReturned)
  }

  /** Rows added since `reg` are all the owner's, carry names from `names`,
      and had no namesake in `reg`. */
  ghost predicate OnlyNewNames(reg: Registry, reg': Registry, owner: Id, names: seq<string>) {
    forall t :: t in reg' && t !in reg ==>
      && reg'[t].owner == owner
      && reg'[t].name in names
      && Matches(reg, owner, reg'[t].name) == {}
  }

  /** No two rows added since `reg` are the same (owner, name). */
  ghost predicate NoNewDuplicates(reg: Registry, reg': Registry) {
    forall t1, t2 :: t1 in reg' && t2 in reg' && t1 !in reg && t2 !in reg && reg'[t1] == reg'[t2] ==> t1 == t2
  }

  /** Adding rows for other names leaves a name's matches alone. */
  lemma MatchesStable(reg: Registry, reg': Registry, owner: Id, name: string)
    requires Extends(reg, reg')
    requires forall t :: t in reg' && t !in reg ==> reg'[t] != Named(owner, name)
    ensures Matches(reg', owner, name) == Matches(reg, owner, name)
  {
  }

  /** The get-or-create loop: every name resolved in turn (possibly creating
      a row) and its row collected. On success the collected set is exactly
      the owner's rows named in the payload, existing rows are untouched,
      and only names without a row gain one, once. It fails exactly when
      some name already has several rows. */
  function ResolveAll(reg: Registry, owner: Id, names: seq<string>): (r: Result<(Registry, set<Id>), Error>)
    ensures r.Err? <==> exists i :: 0 <= i < |names| && |Matches(reg, owner, names[i])| > 1
    ensures r.Err? ==> r.error == MultipleObjectsReturned
    ensures r.Ok? ==> Extends(reg, r.value.0)
    ensures r.Ok? ==> r.value.1 == OwnedNamed(r.value.0, owner, names)
    ensures r.Ok? ==> forall i :: 0 <= i < |names| ==> |Matches(r.value.0, owner, names[i])| == 1
    ensures r.Ok? ==> OnlyNewNames(reg, r.value.0, owner, names)
    ensures r.Ok? ==> NoNewDuplicates(reg, r.value.0)
    decreases |names|
  {
    if |names| == 0 then
      Ok((reg, {}))
    else
      match GetOrCreate(reg, owner, names[0])
      case Err(e) => Err(e)
      case Ok((reg1, id)) =>
        match ResolveAll(reg1, owner, names[1..])
        case Err(e) =>
          ResolveErrStep(reg, reg1, id, owner, names);
          Err(e)
        case Ok((reg2, ids)) =>
          ResolveOkStep(reg, reg1, reg2, id, ids, owner, names);
          Ok((reg2, {id} + ids))
  }

  /** A later name's duplicate rows were already there before the first
      name was resolved, and vice versa. */
  lemma ResolveErrStep(reg: Registry, reg1: Registry, id: Id, owner: Id, names: seq<string>)
    requires |names| > 0
    requires GetOrCreate(reg, owner, names[0]) == Ok((reg1, id))
    ensures (exists i :: 0 <= i < |names| - 1 && |Matches(reg1, owner, names[1..][i])| > 1)
        <==> (exists i :: 0 <= i < |names| && |Matches(reg, owner, names[i])| > 1)
  {
    forall i | 0 <= i < |names|
      ensures |Matches(reg, owner, names[i])| > 1 <==> |Matches(reg1, owner, names[i])| > 1
    {
      DuplicatesStable(reg, reg1, id, owner, names[0], names[i]);
    }
    if exists i :: 0 <= i < |names| && |Matches(reg, owner, names[i])| > 1 {
      var i :| 0 <= i < |names| && |Matches(reg, owner, names[i])| > 1;
      assert i > 0;
      assert names[1..][i - 1] == names[i];
    }
    if exists i :: 0 <= i < |names| - 1 && |Matches(reg1, owner, names[1..][i])| > 1 {
      var i :| 0 <= i < |names| - 1 && |Matches(reg1, owner, names[1..][i])| > 1;
      assert names[1..][i] == names[i + 1];
    }
  }

  /** Resolving `first` neither creates nor removes duplicates of any
      name. */
  lemma DuplicatesStable(reg: Registry, reg1: Registry, id: Id, owner: Id, first: string, name: string)
    requires GetOrCreate(reg, owner, first) == Ok((reg1, id))
    ensures |Matches(reg, owner, name)| > 1 <==> |Matches(reg1, owner, name)| > 1
  {
    if name != first {
      MatchesStable(reg, reg1, owner, name);
    }
  }

  lemma SubsetCard(a: set<Id>, b: set<Id>)
    requires a <= b
    ensures |a| <= |b|
  {
    assert b == a + (b - a);
  }

  /** Two rows of the same (owner, name) make `get_or_create` on that pair
      fail. */
  lemma TwoNamesakesFail(reg: Registry, owner: Id, name: string, t1: Id, t2: Id)
    requires t1 != t2
    requires t1 in reg && reg[t1] == Named(owner, name)
    requires t2 in reg && reg[t2] == Named(owner, name)
    ensures GetOrCreate(reg, owner, name) == Err(MultipleObjectsReturned)
  {
    var m := Matches(reg, owner, name);
    assert t1 in m && t2 in m;
    SubsetCard({t1, t2}, m);
  }

  /** Facts about the rest of the loop that every combining step uses. */
  ghost predicate RestResolved(reg1: Registry, reg2: Registry, ids: set<Id>, owner: Id, rest: seq<string>) {
    && Extends(reg1, reg2)
    && ids == OwnedNamed(reg2, owner, rest)
    && (forall i :: 0 <= i < |rest| ==> |Matches(reg2, owner, rest[i])| == 1)
    && OnlyNewNames(reg1, reg2, owner, rest)
    && NoNewDuplicates(reg1, reg2)
  }

  /** The first name keeps its single row through the rest of the loop. */
  lemma FirstStaysUnique(reg: Registry, reg1: Registry, reg2: Registry, id: Id, ids: set<Id>, owner: Id, names: seq<string>)
    requires |names| > 0
    requires GetOrCreate(reg, owner, names[0]) == Ok((reg1, id))
    requires RestResolved(reg1, reg2, ids, owner, names[1..])
    ensures Matches(reg2, owner, names[0]) == {id}
  {
    assert forall t :: t in reg2 && t !in reg1 ==> reg2[t] != Named(owner, names[0]);
    MatchesStable(reg1, reg2, owner, names[0]);
  }

  /** A name with one row at the end of the loop had at most one at the
      start. */
  lemma CountBefore(reg: Registry, reg1: Registry, reg2: Registry, id: Id, owner: Id, first: string, name: string)
    requires GetOrCreate(reg, owner, first) == Ok((reg1, id))
    requires Extends(reg1, reg2)
    requires |Matches(reg2, owner, name)| == 1
    ensures |Matches(reg, owner, name)| <= 1
  {
    if name != first {
      MatchesStable(reg, reg1, owner, name);
      SubsetCard(Matches(reg1, owner, name), Matches(reg2, owner, name));
    }
  }

  /** Every name ends with one row, and none had several at the start. */
  lemma StepCounts(reg: Registry, reg1: Registry, reg2: Registry, id: Id, ids: set<Id>, owner: Id, names: seq<string>)
    requires |names| > 0
    requires GetOrCreate(reg, owner, names[0]) == Ok((reg1, id))
    requires RestResolved(reg1, reg2, ids, owner, names[1..])
    requires Matches(reg2, owner, names[0]) == {id}
    ensures forall i :: 0 <= i < |names| ==> |Matches(reg2, owner, names[i])| == 1
    ensures forall i :: 0 <= i < |names| ==> |Matches(reg, owner, names[i])| <= 1
  {
    forall i | 0 <= i < |names|
      ensures |Matches(reg2, owner, names[i])| == 1
    {
      if i > 0 {
        assert names[1..][i - 1] == names[i];
      }
    }
    forall i | 0 <= i < |names|
      ensures |Matches(reg, owner, names[i])| <= 1
    {
      CountBefore(reg, reg1, reg2, id, owner, names[0], names[i]);
    }
  }

  /** The collected set is the owner's rows named anywhere in the payload. */
  lemma StepCollected(reg2: Registry, id: Id, ids: set<Id>, owner: Id, names: seq<string>)
    requires |names| > 0
    requires ids == OwnedNamed(reg2, owner, names[1..])
    requires Matches(reg2, owner, names[0]) == {id}
    ensures {id} + ids == OwnedNamed(reg2, owner, names)
  {
    forall t | t in reg2 && reg2[t].owner == owner && reg2[t].name in names
      ensures t in {id} + ids
    {
      if reg2[t].name !in names[1..] {
        assert t in Matches(reg2, owner, names[0]);
      }
    }
  }

  /** Rows new since the start carry payload names that had no row. */
  lemma StepNew(reg: Registry, reg1: Registry, reg2: Registry, id: Id, ids: set<Id>, owner: Id, names: seq<string>)
    requires |names| > 0
    requires GetOrCreate(reg, owner, names[0]) == Ok((reg1, id))
    requires RestResolved(reg1, reg2, ids, owner, names[1..])
    requires Matches(reg2, owner, names[0]) == {id}
    ensures OnlyNewNames(reg, reg2, owner, names)
    ensures NoNewDuplicates(reg, reg2)
  {
    forall t | t in reg2 && t !in reg
      ensures reg2[t].owner == owner && reg2[t].name in names && Matches(reg, owner, reg2[t].name) == {}
    {
      if t !in reg1 {
        var n := reg2[t].name;
        assert n != names[0];
        MatchesStable(reg, reg1, owner, n);
      }
    }
  }

  /** Combining the first name's resolution with the rest's. */
  lemma ResolveOkStep(reg: Registry, reg1: Registry, reg2: Registry, id: Id, ids: set<Id>, owner: Id, names: seq<string>)
    requires |names| > 0
    requires GetOrCreate(reg, owner, names[0]) == Ok((reg1, id))
    requires RestResolved(reg1, reg2, ids, owner, names[1..])
    ensures !(exists i :: 0 <= i < |names| && |Matches(reg, owner, names[i])| > 1)
    ensures Extends(reg, reg2)
    ensures {id} + ids == OwnedNamed(reg2, owner, names)
    ensures forall i :: 0 <= i < |names| ==> |Matches(reg2, owner, names[i])| == 1
    ensures OnlyNewNames(reg, reg2, owner, names)
    ensures NoNewDuplicates(reg, reg2)
  {
    FirstStaysUnique(reg, reg1, reg2, id, ids, owner, names);
    StepCounts(reg, reg1, reg2, id, ids, owner, names);
    StepCollected(reg2, id, ids, owner, names);
    StepNew(reg, reg1, reg2, id, ids, owner, names);
  }

  /** When every name already has exactly one row, resolving creates nothing
      and collects exactly those rows. */
  lemma {:induction false} ResolveExisting(reg: Registry, owner: Id, names: seq<string>)
    requires forall i :: 0 <= i < |names| ==> |Matches(reg, owner, names[i])| == 1
    ensures ResolveAll(reg, owner, names) == Ok((reg, OwnedNamed(reg, owner, names)))
    decreases |names|
  {
    if |names| > 0 {
      ResolveExisting(reg, owner, names[1..]);
      assert GetOrCreate(reg, owner, names[0]).value.0 == reg;
    }
  }

  /** Resolving the same payload twice: the second time finds every row the
      first time made, so it creates nothing more and links the same rows. */
  lemma ResolveIdempotent(reg: Registry, owner: Id, names: seq<string>)
    requires ResolveAll(reg, owner, names).Ok?
    ensures var (reg', ids) := ResolveAll(reg, owner, names).value;
            ResolveAll(reg', owner, names) == Ok((reg', ids))
  {
    var (reg', ids) := ResolveAll(reg, owner, names).value;
    ResolveExisting(reg', owner, names);
  }
}
