/**
 * Python dicts with string keys, as association lists in insertion order: assigning to
 * an existing key replaces its value in place, a new key goes at the end.
 */
module Dicts {
  import opened Wrappers

  type Dict<V> = seq<(string, V)>

  /** `list(d)`: the keys in insertion order. */
  function KeyList<V>(d: Dict<V>): (r: seq<string>)
    ensures |r| == |d|
    ensures forall i :: 0 <= i < |d| ==> r[i] == d[i].0
  {
    if d == [] then [] else [d[0].0] + KeyList(d[1..])
  }

  /** The key set. */
  function Keys<V>(d: Dict<V>): (r: set<string>)
    ensures forall k :: k in r <==> k in KeyList(d)
  {
    set k | k in KeyList(d)
  }

  /** A dict holds each key once. */
  predicate UniqueKeys<V>(d: Dict<V>) {
    forall i, j :: 0 <= i < j < |d| ==> d[i].0 != d[j].0
  }

  /** `d[k]`, None standing for the KeyError. */
  function Get<V>(d: Dict<V>, k: string): (r: Option<V>)
    ensures r.Some? <==> k in Keys(d)
  {
    if d == [] then None else if d[0].0 == k then Some(d[0].1) else Get(d[1..], k)
  }

  /** In a dict, looking up an item's key finds that item's value. */
  lemma {:induction false} GetUnique<V>(d: Dict<V>, i: nat)
    requires UniqueKeys(d) && i < |d|
    ensures Get(d, d[i].0) == Some(d[i].1)
  {
    if i > 0 {
      assert UniqueKeys(d[1..]);
      GetUnique(d[1..], i - 1);
      assert d[1..][i - 1] == d[i];
    }
  }

  /** `d[k] = v`. */
  function Assign<V>(d: Dict<V>, k: string, v: V): (r: Dict<V>)
    ensures Get(r, k) == Some(v)
    ensures forall j :: j != k ==> Get(r, j) == Get(d, j)
  {
    if d == [] then [(k, v)]
    else if d[0].0 == k then [(k, v)] + d[1..]
    else [d[0]] + Assign(d[1..], k, v)
  }

  /** Insertion order: a new key goes at the end, an existing one keeps its place. */
  lemma {:induction false} AssignPlace<V>(d: Dict<V>, k: string, v: V)
    ensures k !in Keys(d) ==> Assign(d, k, v) == d + [(k, v)]
    ensures k in Keys(d) ==> KeyList(Assign(d, k, v)) == KeyList(d)
  {
    if d != [] && d[0].0 != k {
      AssignPlace(d[1..], k, v);
      var r := Assign(d, k, v);
      assert r == [d[0]] + Assign(d[1..], k, v);
      assert k in Keys(d) <==> k in Keys(d[1..]);
      if k !in Keys(d) {
        assert d == [d[0]] + d[1..];
      } else {
        assert KeyList(r) == [d[0].0] + KeyList(Assign(d[1..], k, v));
      }
    } else if d != [] {
      assert KeyList(Assign(d, k, v)) == [k] + KeyList(d[1..]);
    }
  }

  /** Assignment adds its key to the key set. */
  lemma {:induction false} AssignKeys<V>(d: Dict<V>, k: string, v: V)
    ensures Keys(Assign(d, k, v)) == Keys(d) + {k}
  {
    if d != [] && d[0].0 != k {
      AssignKeys(d[1..], k, v);
      assert KeyList(Assign(d, k, v)) == [d[0].0] + KeyList(Assign(d[1..], k, v));
      assert KeyList(d) == [d[0].0] + KeyList(d[1..]);
    }
  }

  /** Uniqueness depends only on the key list. */
  lemma SameKeysUnique<V>(d: Dict<V>, r: Dict<V>)
    requires UniqueKeys(d) && KeyList(r) == KeyList(d)
    ensures UniqueKeys(r)
  {
    forall i, j | 0 <= i < j < |r|
      ensures r[i].0 != r[j].0
    {
      assert r[i].0 == KeyList(d)[i] && r[j].0 == KeyList(d)[j];
    }
  }

  /** Appending an item under a new key keeps keys unique. */
  lemma AppendUnique<V>(d: Dict<V>, k: string, v: V)
    requires UniqueKeys(d) && k !in Keys(d)
    ensures UniqueKeys(d + [(k, v)])
  {
    var r := d + [(k, v)];
    forall i, j | 0 <= i < j < |r|
      ensures r[i].0 != r[j].0
    {
      assert r[i] == d[i] && KeyList(d)[i] == d[i].0;
    }
  }

  /** Assignment keeps keys unique. */
  lemma AssignUnique<V>(d: Dict<V>, k: string, v: V)
    requires UniqueKeys(d)
    ensures UniqueKeys(Assign(d, k, v))
  {
    AssignPlace(d, k, v);
    if k in Keys(d) {
      SameKeysUnique(d, Assign(d, k, v));
    } else {
      AppendUnique(d, k, v);
    }
  }

  /** `d.get(k, dflt)`. */
  function GetOr<V>(d: Dict<V>, k: string, dflt: V): (r: V)
    ensures k !in Keys(d) ==> r == dflt
    ensures k in Keys(d) ==> Some(r) == Get(d, k)
  {
    if Get(d, k).Some? then Get(d, k).value else dflt
  }

  /** Every item after an assignment is the assigned one or was there before. */
  lemma {:induction false} AssignIn<V>(d: Dict<V>, k: string, v: V)
    ensures forall e :: e in Assign(d, k, v) ==> e == (k, v) || e in d
  {
    if d != [] && d[0].0 != k {
      AssignIn(d[1..], k, v);
      assert Assign(d, k, v) == [d[0]] + Assign(d[1..], k, v);
    } else if d != [] {
      assert Assign(d, k, v) == [(k, v)] + d[1..];
    }
  }

  /** A value found under a key is an item of the dict. */
  lemma {:induction false} GetIn<V>(d: Dict<V>, k: string)
    requires Get(d, k).Some?
    ensures (k, Get(d, k).value) in d
  {
    if d[0].0 != k {
      GetIn(d[1..], k);
    }
  }

  /** A non-empty sequence is its prefix and its last element. */
  lemma InitLast<T>(s: seq<T>)
    requires s != []
    ensures s == s[..|s| - 1] + [s[|s| - 1]]
  {
  }

  /** The sum of the values of a dict of counts. */
  function Sum(d: Dict<int>): int {
    if d == [] then 0 else d[0].1 + Sum(d[1..])
  }

  /** Replacing or adding one count changes the sum by the difference. */
  lemma {:induction false} SumAssign(d: Dict<int>, k: string, v: int)
    ensures Sum(Assign(d, k, v)) == Sum(d) - GetOr(d, k, 0) + v
    decreases |d|
  {
    if d != [] && d[0].0 != k {
      SumAssign(d[1..], k, v);
      assert Assign(d, k, v)[1..] == Assign(d[1..], k, v);
    } else if d != [] {
      assert Assign(d, k, v)[1..] == d[1..];
    }
  }

  /** `d.values()`, in insertion order. */
  function ValueList<V>(d: Dict<V>): (r: seq<V>)
    ensures |r| == |d|
    ensures forall i :: 0 <= i < |d| ==> r[i] == d[i].1
  {
    if d == [] then [] else [d[0].1] + ValueList(d[1..])
  }

  /** `del d[k]`: the items under other keys, in order. */
  function Remove<V>(d: Dict<V>, k: string): (r: Dict<V>)
    ensures |r| <= |d|
  {
    if d == [] then [] else (if d[0].0 == k then [] else [d[0]]) + Remove(d[1..], k)
  }

  /** Removing a key the dict lacks changes nothing. */
  lemma {:induction false} RemoveAbsent<V>(d: Dict<V>, k: string)
    requires k !in Keys(d)
    ensures Remove(d, k) == d
  {
    if d != [] {
      assert d[0].0 in KeyList(d);
      assert forall j :: j in KeyList(d[1..]) ==> j in KeyList(d);
      RemoveAbsent(d[1..], k);
    }
  }

  /** Removal works item by item across a concatenation. */
  lemma {:induction false} RemoveAppend<V>(a: Dict<V>, b: Dict<V>, k: string)
    ensures Remove(a + b, k) == Remove(a, k) + Remove(b, k)
  {
    if a != [] {
      assert (a + b)[0] == a[0] && (a + b)[1..] == a[1..] + b;
      RemoveAppend(a[1..], b, k);
    } else {
      assert a + b == b;
    }
  }

  /** Deleting a key held once, between two parts that lack it, leaves the two parts. */
  lemma RemoveBetween<V>(a: Dict<V>, x: (string, V), b: Dict<V>)
    requires x.0 !in Keys(a) && x.0 !in Keys(b)
    ensures Remove(a + ([x] + b), x.0) == a + b
  {
    RemoveAppend(a, [x] + b, x.0);
    RemoveAppend([x], b, x.0);
    assert Remove([x], x.0) == [];
    RemoveAbsent(a, x.0);
    RemoveAbsent(b, x.0);
    assert [] + b == b;
  }

  /** Deleting a key removes whatever assigning it put there. */
  lemma {:induction false} RemoveAssign<V>(d: Dict<V>, k: string, v: V)
    ensures Remove(Assign(d, k, v), k) == Remove(d, k)
  {
    if d != [] && d[0].0 != k {
      var r := Assign(d, k, v);
      assert r == [d[0]] + Assign(d[1..], k, v);
      assert r[0] == d[0] && r[1..] == Assign(d[1..], k, v);
      RemoveAssign(d[1..], k, v);
    }
  }

  /** Whether an optional assignment writes key `k`. */
  predicate Assigns<V>(o: Option<(string, V)>, k: string) {
    o.Some? && o.value.0 == k
  }

  /** `for k, v in kvs: d[k] = v`, where a `None` in `kvs` assigns nothing. */
  function AssignAll<V>(d: Dict<V>, kvs: seq<Option<(string, V)>>): (r: Dict<V>)
  {
    if kvs == [] then d else AssignOpt(AssignAll(d, kvs[..|kvs| - 1]), kvs[|kvs| - 1])
  }

  /** `d[k] = v` when there is an assignment, nothing otherwise. */
  function AssignOpt<V>(d: Dict<V>, o: Option<(string, V)>): Dict<V> {
    match o
    case None => d
    case Some(kv) => Assign(d, kv.0, kv.1)
  }

  /** One more assignment, made last. */
  lemma AssignAllSnoc<V>(d: Dict<V>, kvs: seq<Option<(string, V)>>, o: Option<(string, V)>)
    ensures AssignAll(d, kvs + [o]) == AssignOpt(AssignAll(d, kvs), o)
  {
    assert (kvs + [o])[..|kvs|] == kvs;
  }

  /** Assigning in turn keeps keys unique. */
  lemma {:induction false} AssignAllUnique<V>(d: Dict<V>, kvs: seq<Option<(string, V)>>)
    requires UniqueKeys(d)
    ensures UniqueKeys(AssignAll(d, kvs))
  {
    if kvs != [] {
      var r0 := AssignAll(d, kvs[..|kvs| - 1]);
      AssignAllUnique(d, kvs[..|kvs| - 1]);
      if kvs[|kvs| - 1].Some? {
        AssignUnique(r0, kvs[|kvs| - 1].value.0, kvs[|kvs| - 1].value.1);
      }
    }
  }

  /** The last assignment to a key decides its value. */
  lemma {:induction false} AssignAllLast<V>(d: Dict<V>, kvs: seq<Option<(string, V)>>, i: nat)
    requires i < |kvs| && kvs[i].Some?
    requires forall j :: i < j < |kvs| ==> !Assigns(kvs[j], kvs[i].value.0)
    ensures Get(AssignAll(d, kvs), kvs[i].value.0) == Some(kvs[i].value.1)
  {
    var n := |kvs| - 1;
    if i < n {
      AssignAllLast(d, kvs[..n], i);
      assert !Assigns(kvs[n], kvs[i].value.0);
    }
  }

  /** A key nothing assigns keeps its value, or its absence. */
  lemma {:induction false} AssignAllUntouched<V>(d: Dict<V>, kvs: seq<Option<(string, V)>>, k: string)
    requires forall j :: 0 <= j < |kvs| ==> !Assigns(kvs[j], k)
    ensures Get(AssignAll(d, kvs), k) == Get(d, k)
  {
    if kvs != [] {
      AssignAllUntouched(d, kvs[..|kvs| - 1], k);
      assert !Assigns(kvs[|kvs| - 1], k);
    }
  }

  /** Whether some assignment of `kvs` writes key `k`. */
  predicate AssignedIn<V>(kvs: seq<Option<(string, V)>>, k: string) {
    exists j :: 0 <= j < |kvs| && Assigns(kvs[j], k)
  }

  lemma AssignedInSnoc<V>(kvs: seq<Option<(string, V)>>, k: string)
    requires kvs != []
    ensures AssignedIn(kvs, k) <==> AssignedIn(kvs[..|kvs| - 1], k) || Assigns(kvs[|kvs| - 1], k)
  {
    var init := kvs[..|kvs| - 1];
    if AssignedIn(init, k) {
      var j :| 0 <= j < |init| && Assigns(init[j], k);
      assert kvs[j] == init[j];
    }
    if AssignedIn(kvs, k) {
      var j :| 0 <= j < |kvs| && Assigns(kvs[j], k);
      if j < |init| {
        assert Assigns(init[j], k);
      }
    }
  }

  /** After assigning in turn, a key is present iff it was before or something assigned it. */
  lemma {:induction false} AssignAllKeys<V>(d: Dict<V>, kvs: seq<Option<(string, V)>>, k: string)
    ensures k in Keys(AssignAll(d, kvs)) <==> k in Keys(d) || AssignedIn(kvs, k)
  {
    if kvs != [] {
      var n := |kvs| - 1;
      AssignAllKeys(d, kvs[..n], k);
      AssignedInSnoc(kvs, k);
      if kvs[n].Some? {
        AssignKeys(AssignAll(d, kvs[..n]), kvs[n].value.0, kvs[n].value.1);
      }
    }
  }
}
