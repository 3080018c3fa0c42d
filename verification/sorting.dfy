/** Turning a finite set of ids into the sequence an `order_by(...)` query
    returns, and choosing a fresh primary key. */
module Sorting {

  /** `above` is a strict total order on `s`: irreflexive, transitive, and
      relating every two distinct members one way or the other. */
  ghost predicate StrictTotalOn(above: (nat, nat) -> bool, s: set<nat>) {
    && (forall x :: x in s ==> !above(x, x))
    && (forall x, y :: x in s && y in s && x != y ==> above(x, y) || above(y, x))
    && (forall x, y, z :: x in s && y in s && z in s && above(x, y) && above(y, z) ==> above(x, z))
  }

  /** `m` comes before every other member of `s`. */
  predicate IsTop(above: (nat, nat) -> bool, m: nat, s: set<nat>) {
    forall y :: y in s && y != m ==> above(m, y)
  }

  /** Every non-empty finite set has a first element under a strict total order. */
  lemma {:induction false} TopExists(above: (nat, nat) -> bool, s: set<nat>)
    requires s != {} && StrictTotalOn(above, s)
    ensures exists m :: m in s && IsTop(above, m, s)
  {
    var x :| x in s;
    if s != {x} {
      var rest := s - {x};
      TopExists(above, rest);
      var m :| m in rest && IsTop(above, m, rest);
      if !above(m, x) {
        assert above(x, m);
        assert IsTop(above, x, s);
      } else {
        assert IsTop(above, m, s);
      }
    } else {
      assert IsTop(above, x, s);
    }
  }

  /** The members of `s`, each exactly once, in `above` order. */
  function SortDesc(s: set<nat>, above: (nat, nat) -> bool): (r: seq<nat>)
    requires StrictTotalOn(above, s)
    ensures |r| == |s|
    ensures forall i :: 0 <= i < |r| ==> r[i] in s
    ensures forall x :: x in s ==> x in r
    ensures forall i, j :: 0 <= i < j < |r| ==> above(r[i], r[j])
    decreases |s|
  {
    if s == {} then []
    else
      TopExists(above, s);
      var m :| m in s && IsTop(above, m, s);
      [m] + SortDesc(s - {m}, above)
  }

  /** Descending order on ids, the order of `order_by('-id')`. */
  predicate Greater(a: nat, b: nat) {
    a > b
  }

  lemma GreaterIsStrictTotal(s: set<nat>)
    ensures StrictTotalOn(Greater, s)
  {
  }

  /** A sequence in `above` order holds no element twice. */
  lemma OrderedIsDistinct(r: seq<nat>, above: (nat, nat) -> bool, s: set<nat>)
    requires StrictTotalOn(above, s)
    requires forall i :: 0 <= i < |r| ==> r[i] in s
    requires forall i, j :: 0 <= i < j < |r| ==> above(r[i], r[j])
    ensures forall i, j :: 0 <= i < j < |r| ==> r[i] != r[j]
  {
  }

  /** A primary key for a new row: positive and above every key in use, as an
      auto-increment column hands out. */
  function FreshId(ids: set<nat>): (r: nat)
    ensures r > 0
    ensures forall i :: i in ids ==> i < r
    ensures r !in ids
  {
    GreaterIsStrictTotal(ids);
    var sorted := SortDesc(ids, Greater);
    if |sorted| == 0 then 1 else sorted[0] + 1
  }
}
