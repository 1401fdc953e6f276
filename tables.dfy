/**
 * A database table held as the sequence of its rows in storage order.
 * Every row carries a primary key, read through a key function, so that the
 * users, articles and comments tables share one definition of lookup,
 * deletion and auto-increment.
 */
module Tables {
  import opened Optional

  type Id = nat

  /** No two rows share a primary key. */
  predicate Distinct<T>(s: seq<T>, key: T -> Id) {
    forall i, j :: 0 <= i < j < |s| ==> key(s[i]) != key(s[j])
  }

  /** Keys grow along storage order, as auto-increment keys of a clustered index do. */
  predicate Increasing<T>(s: seq<T>, key: T -> Id) {
    forall i, j :: 0 <= i < j < |s| ==> key(s[i]) < key(s[j])
  }

  lemma IncreasingIsDistinct<T>(s: seq<T>, key: T -> Id)
    requires Increasing(s, key)
    ensures Distinct(s, key)
  {
  }

  /** `WHERE id = ?`: the position of the first row with that key, if any. */
  function Find<T>(s: seq<T>, key: T -> Id, id: Id): (r: Option<nat>)
    ensures r.Some? ==> r.value < |s| && key(s[r.value]) == id
    ensures r.Some? ==> forall j :: 0 <= j < r.value ==> key(s[j]) != id
    ensures r.None? <==> forall j :: 0 <= j < |s| ==> key(s[j]) != id
  {
    if s == [] then None
    else if key(s[0]) == id then Some(0)
    else match Find(s[1..], key, id)
      case None => None
      case Some(k) =>
        assert key(s[k + 1]) == key(s[1..][k]);
        Some(k + 1)
  }

  /** With distinct keys, the row at position k is the one found by its key. */
  lemma FindUnique<T>(s: seq<T>, key: T -> Id, k: nat)
    requires Distinct(s, key) && k < |s|
    ensures Find(s, key, key(s[k])) == Some(k)
  {
  }

  /** Lookup depends on the keys alone: rewriting other columns does not change it. */
  lemma {:induction false} FindSameKeys<T>(s: seq<T>, t: seq<T>, key: T -> Id, id: Id)
    requires |s| == |t|
    requires forall i :: 0 <= i < |s| ==> key(s[i]) == key(t[i])
    ensures Find(s, key, id) == Find(t, key, id)
  {
    if s != [] {
      FindSameKeys(s[1..], t[1..], key, id);
    }
  }

  /** `FindSameKeys` for every key at once. */
  lemma FindSameKeysEverywhere<T>(s: seq<T>, t: seq<T>, key: T -> Id)
    requires |s| == |t|
    requires forall i :: 0 <= i < |s| ==> key(s[i]) == key(t[i])
    ensures forall id :: Find(s, key, id) == Find(t, key, id)
  {
    forall id ensures Find(s, key, id) == Find(t, key, id) {
      FindSameKeys(s, t, key, id);
    }
  }

  /** `DELETE ... WHERE id = ?`. */
  function Delete<T>(s: seq<T>, key: T -> Id, id: Id): (r: seq<T>)
    ensures Find(s, key, id).None? ==> r == s
    ensures Find(s, key, id).Some? ==> |r| == |s| - 1
    ensures Distinct(s, key) ==> Find(r, key, id).None?
    ensures forall i :: 0 <= i < |r| ==> r[i] in s
    ensures Distinct(s, key) ==> forall i :: 0 <= i < |r| ==> key(r[i]) != id
    ensures forall i :: 0 <= i < |s| && key(s[i]) != id ==> s[i] in r
    ensures Increasing(s, key) ==> Increasing(r, key)
  {
    match Find(s, key, id)
    case None => s
    case Some(k) =>
      DeleteAtKeeps(s, key, k);
      s[..k] + s[k + 1..]
  }

  lemma DeleteAtKeeps<T>(s: seq<T>, key: T -> Id, k: nat)
    requires k < |s|
    ensures var r := s[..k] + s[k + 1..];
      && |r| == |s| - 1
      && (forall i :: 0 <= i < k ==> r[i] == s[i])
      && (forall i :: k <= i < |r| ==> r[i] == s[i + 1])
      && (forall j :: 0 <= j < |r| ==> r[j] in s)
      && (forall j :: 0 <= j < |s| && key(s[j]) != key(s[k]) ==> s[j] in r)
      && (Distinct(s, key) ==> forall j :: 0 <= j < |r| ==> key(r[j]) != key(s[k]))
      && (Increasing(s, key) ==> Increasing(r, key))
  {
    var r := s[..k] + s[k + 1..];
    assert forall i :: 0 <= i < k ==> r[i] == s[i];
    assert forall i :: k <= i < |r| ==> r[i] == s[i + 1];
    forall j | 0 <= j < |s| && key(s[j]) != key(s[k])
      ensures s[j] in r
    {
      if j < k { assert r[j] == s[j]; } else { assert r[j - 1] == s[j]; }
    }
  }

  /** Replacing a row by one with the same key keeps the keys in order. */
  lemma ReplaceKeepsIncreasing<T>(s: seq<T>, key: T -> Id, k: nat, x: T)
    requires k < |s| && key(x) == key(s[k]) && Increasing(s, key)
    ensures Increasing(s[k := x], key)
  {
    var r := s[k := x];
    assert forall i :: 0 <= i < |r| ==> key(r[i]) == key(s[i]);
  }

  /** Appending a row whose key exceeds every key in the table keeps the keys in order. */
  lemma AppendKeepsIncreasing<T>(s: seq<T>, key: T -> Id, x: T)
    requires Increasing(s, key)
    requires forall i :: 0 <= i < |s| ==> key(s[i]) < key(x)
    ensures Increasing(s + [x], key)
  {
    var r := s + [x];
    assert forall i :: 0 <= i < |s| ==> r[i] == s[i];
  }

  /** The next AUTO_INCREMENT value for a table: above every key present, and at least 1. */
  function NextId<T>(s: seq<T>, key: T -> Id): (n: Id)
    ensures 1 <= n
    ensures forall i :: 0 <= i < |s| ==> key(s[i]) < n
  {
    if s == [] then 1
    else
      var m := NextId(s[1..], key);
      assert forall i :: 1 <= i < |s| ==> key(s[i]) == key(s[1..][i - 1]);
      if key(s[0]) < m then m else key(s[0]) + 1
  }

  /** `s` keeps a selection of the rows of `t` in their order. */
  predicate Subsequence<T(==)>(s: seq<T>, t: seq<T>)
    decreases |t|
  {
    if s == [] then true
    else if t == [] then false
    else (s[0] == t[0] && Subsequence(s[1..], t[1..])) || Subsequence(s, t[1..])
  }
}
