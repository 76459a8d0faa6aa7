/** The `.sort({...: -1})` of a database query: a set of documents listed in
    descending order of a (primary, secondary) key. As in the database, the
    relative order of documents with equal keys is left unspecified. */
module Sorting {
  import opened Common

  datatype SortKey = SortKey(primary: int, secondary: int)

  /** `a` may come before `b` in a descending sort on (primary, secondary). */
  predicate AtLeast(a: SortKey, b: SortKey)
  {
    a.primary > b.primary || (a.primary == b.primary && a.secondary >= b.secondary)
  }

  predicate Descending(s: seq<Id>, key: Id -> SortKey)
  {
    forall i, j :: 0 <= i < j < |s| ==> AtLeast(key(s[i]), key(s[j]))
  }

  predicate Distinct(s: seq<Id>)
  {
    forall i, j :: 0 <= i < j < |s| ==> s[i] != s[j]
  }

  /** `m` is a member of `ids` whose key is greatest. */
  predicate IsMax(m: Id, ids: set<Id>, key: Id -> SortKey)
  {
    m in ids && forall y :: y in ids ==> AtLeast(key(m), key(y))
  }

  /** Of two candidates for the greatest key, one survives adding the
      other. */
  lemma MaxOfAdded(m: Id, rest: set<Id>, x: Id, key: Id -> SortKey)
    requires IsMax(m, rest, key)
    ensures AtLeast(key(m), key(x)) ==> IsMax(m, rest + {x}, key)
    ensures !AtLeast(key(m), key(x)) ==> IsMax(x, rest + {x}, key)
  {
  }

  /** Every finite non-empty set has an element whose key is greatest. */
  lemma {:induction false} MaxExists(ids: set<Id>, key: Id -> SortKey)
    requires ids != {}
    ensures exists m :: IsMax(m, ids, key)
    decreases |ids|
  {
    var x :| x in ids;
    var rest := ids - {x};
    if rest == {} {
      assert ids == {x};
      assert IsMax(x, ids, key);
    } else {
      assert |rest| < |ids|;
      MaxExists(rest, key);
      var m :| IsMax(m, rest, key);
      MaxOfAdded(m, rest, x, key);
      assert rest + {x} == ids;
    }
  }

  /** Putting a greatest element in front of a sorted listing of the
      others gives a sorted listing of all. */
  lemma PrependMax(ids: set<Id>, key: Id -> SortKey, m: Id, rest: seq<Id>)
    requires IsMax(m, ids, key)
    requires forall i :: 0 <= i < |rest| ==> rest[i] in ids - {m}
    requires Distinct(rest) && Descending(rest, key)
    ensures Distinct([m] + rest) && Descending([m] + rest, key)
  {
    var s := [m] + rest;
    assert forall i :: 0 < i < |s| ==> s[i] == rest[i - 1];
  }

  /** The ids of `ids`, each once, greatest key first. */
  ghost function SortDescending(ids: set<Id>, key: Id -> SortKey): (s: seq<Id>)
    ensures |s| == |ids|
    ensures forall i :: 0 <= i < |s| ==> s[i] in ids
    ensures forall x :: x in ids ==> x in s
    ensures Distinct(s)
    ensures Descending(s, key)
    decreases |ids|
  {
    if ids == {} then []
    else
      MaxExists(ids, key);
      var m :| IsMax(m, ids, key);
      var rest := SortDescending(ids - {m}, key);
      PrependMax(ids, key, m, rest);
      assert forall x :: x in ids ==> x == m || x in ids - {m};
      [m] + rest
  }
}
