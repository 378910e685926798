/**
 * Comparing what the gateway and the IOC returned (gateway_tests/conftest.py
 * find_differences, compare_structures, find_pvinfo_differences): the keys of the two
 * dicts are visited in sorted order, skipped keys are ignored, a key present on one side
 * only raises RuntimeError, arrays are compared as tuples, a key whose two values are
 * both NaN is not a difference, and every other key whose values are unequal is reported.
 */
module Differences {
  import opened Wrappers
  import opened Dicts
  import opened Strings
  import opened Values
  import opened PvInfo

  /** One reported difference: the key, the first struct's value, the second's. */
  datatype Diff = Diff(key: string, v1: Value, v2: Value)

  /** The keys `find_differences` skips when none are given. */
  const DefaultSkip: seq<string> := ["chid"]

  /** The keys `find_pvinfo_differences` skips when none are given. */
  const DefaultPvinfoSkip: seq<string> := ["address"]

  /** `tuple(v.tolist())` for an ndarray; any other value as it is. */
  function Plain(v: Value): Value {
    if v.VArray? then VTuple(v.items) else v
  }

  /** The RuntimeError for a key that one side lacks; `which` is "first" or "second". */
  function Missing(key: string, which: string): PyExc {
    RuntimeError([Lit("Missing key " + key + " in " + which + " struct")])
  }

  /** The sorted union of the two key sets. */
  function UnionKeys(s1: Struct, s2: Struct): (r: seq<string>)
    ensures StrictlySorted(r)
    ensures forall k :: k in r <==> k in Keys(s1) || k in Keys(s2)
  {
    SortedUnique(KeyList(s1) + KeyList(s2))
  }

  /** An unskipped key that only one of the two structs holds. */
  predicate Unmatched(s1: Struct, s2: Struct, skip: seq<string>, k: string) {
    k !in skip && (k in Keys(s1) || k in Keys(s2)) && !(k in Keys(s1) && k in Keys(s2))
  }

  /**
   * An unskipped key both structs hold, whose values (arrays taken as tuples) are not both
   * NaN and are unequal.
   */
  predicate Differs(s1: Struct, s2: Struct, skip: seq<string>, k: string) {
    k !in skip && Get(s1, k).Some? && Get(s2, k).Some? &&
    var v1 := Plain(Get(s1, k).value);
    var v2 := Plain(Get(s2, k).value);
    !(IsNaN(v1) && IsNaN(v2)) && !PyEq(v2, v1)
  }

  /** What one key contributes: nothing, one difference, or the RuntimeError. */
  function KeyStep(s1: Struct, s2: Struct, skip: seq<string>, k: string): (r: Result<Option<Diff>, PyExc>)
    ensures r.Err? <==> Unmatched(s1, s2, skip, k) || (k !in skip && k !in Keys(s1) && k !in Keys(s2))
    ensures r.Ok? && r.value.Some? <==> Differs(s1, s2, skip, k)
    ensures r.Ok? && r.value.Some? ==>
      r.value.value == Diff(k, Plain(Get(s1, k).value), Plain(Get(s2, k).value))
  {
    if k in skip then Ok(None)
    else if Get(s1, k).None? then Err(Missing(k, "first"))
    else if Get(s2, k).None? then Err(Missing(k, "second"))
    else
      var v1 := Plain(Get(s1, k).value);
      var v2 := Plain(Get(s2, k).value);
      if IsNaN(v1) && IsNaN(v2) then Ok(None)
      else if !PyEq(v2, v1) then Ok(Some(Diff(k, v1, v2)))
      else Ok(None)
  }

  /** What `find_differences` does with one visited key. */
  type Step = string -> Result<Option<Diff>, PyExc>

  /** The per-key step of `find_differences(struct1, struct2, skip_keys)`. */
  function StepOf(s1: Struct, s2: Struct, skip: seq<string>): Step {
    k => KeyStep(s1, s2, skip, k)
  }

  /** A step reports a difference under the key it was given. */
  ghost predicate Keyed(step: Step) {
    forall k :: step(k).Ok? && step(k).value.Some? ==> step(k).value.value.key == k
  }

  lemma StepOfKeyed(s1: Struct, s2: Struct, skip: seq<string>)
    ensures Keyed(StepOf(s1, s2, skip))
  {
  }

  /** The differences of the keys `keys`, visited in order; the first error stops the scan. */
  function Scan(keys: seq<string>, step: Step): Result<seq<Diff>, PyExc> {
    if keys == [] then Ok([])
    else if step(keys[0]).Err? then Err(step(keys[0]).error)
    else
      var rest := Scan(keys[1..], step);
      if rest.Err? then rest
      else Ok((if step(keys[0]).value.Some? then [step(keys[0]).value.value] else []) + rest.value)
  }

  /** `list(find_differences(struct1, struct2, skip_keys))`. */
  function Differences(s1: Struct, s2: Struct, skip: seq<string>): Result<seq<Diff>, PyExc> {
    Scan(UnionKeys(s1, s2), StepOf(s1, s2, skip))
  }

  /** The keys of a list of differences, in order. */
  function DiffKeys(ds: seq<Diff>): (r: seq<string>)
    ensures |r| == |ds|
    ensures forall i :: 0 <= i < |ds| ==> r[i] == ds[i].key
  {
    seq(|ds|, i requires 0 <= i < |ds| => ds[i].key)
  }

  /** `find_differences` as the loop it is: each visited key yields at most one difference. */
  method FindDifferences(s1: Struct, s2: Struct, skip: seq<string>) returns (r: Result<seq<Diff>, PyExc>)
    ensures r == Differences(s1, s2, skip)
  {
    var keys := UnionKeys(s1, s2);
    ghost var steps := StepOf(s1, s2, skip);
    var found: seq<Diff> := [];
    var i := 0;
    ThenNothing(Scan(keys, steps));
    assert keys[i..] == keys;
    while i < |keys|
      invariant i <= |keys|
      invariant Differences(s1, s2, skip) == Then(found, Scan(keys[i..], steps))
    {
      var step := KeyStep(s1, s2, skip, keys[i]);
      assert steps(keys[i]) == step;
      ScanAt(keys, i, steps);
      if step.Err? {
        return Err(step.error);
      }
      ThenThen(found, Emit(step.value), Scan(keys[i + 1..], steps));
      if step.value.Some? {
        found := found + [step.value.value];
      } else {
        assert found + [] == found;
      }
      i := i + 1;
    }
    assert keys[i..] == [];
    assert found + [] == found;
    return Ok(found);
  }

  /** What one step adds to the differences. */
  function Emit(o: Option<Diff>): seq<Diff> {
    if o.Some? then [o.value] else []
  }

  /** The differences `found` so far, followed by those still to come. */
  function Then(found: seq<Diff>, rest: Result<seq<Diff>, PyExc>): Result<seq<Diff>, PyExc> {
    if rest.Err? then rest else Ok(found + rest.value)
  }

  lemma ThenNothing(rest: Result<seq<Diff>, PyExc>)
    ensures Then([], rest) == rest
  {
    if rest.Ok? { assert [] + rest.value == rest.value; }
  }

  lemma ThenThen(a: seq<Diff>, b: seq<Diff>, rest: Result<seq<Diff>, PyExc>)
    ensures Then(a, Then(b, rest)) == Then(a + b, rest)
  {
    if rest.Ok? { assert a + (b + rest.value) == (a + b) + rest.value; }
  }

  /** The scan from position `i` is the step at `i`, then the scan from `i + 1`. */
  lemma ScanAt(keys: seq<string>, i: nat, step: Step)
    requires i < |keys|
    ensures step(keys[i]).Err? ==> Scan(keys[i..], step) == Err(step(keys[i]).error)
    ensures step(keys[i]).Ok? ==> Scan(keys[i..], step) == Then(Emit(step(keys[i]).value), Scan(keys[i + 1..], step))
  {
    assert keys[i..][0] == keys[i] && keys[i..][1..] == keys[i + 1..];
  }

  /** Every difference of a scan comes from a visited key, as that key's step reports it. */
  lemma {:induction false} ScanSound(keys: seq<string>, step: Step)
    requires Keyed(step) && Scan(keys, step).Ok?
    ensures forall d :: d in Scan(keys, step).value ==> d.key in keys && step(d.key) == Ok(Some(d))
  {
    if keys != [] {
      ScanSound(keys[1..], step);
    }
  }

  /** A visited key whose step reports a difference has that difference in the scan. */
  lemma {:induction false} ScanComplete(keys: seq<string>, step: Step, k: string)
    requires Scan(keys, step).Ok? && k in keys
    requires step(k).Ok? && step(k).value.Some?
    ensures step(k).value.value in Scan(keys, step).value
  {
    if keys[0] != k {
      ScanComplete(keys[1..], step, k);
    }
  }

  /** A key below every key of a strictly sorted list keeps it strictly sorted in front. */
  lemma SortedCons(x: string, ks: seq<string>)
    requires StrictlySorted(ks) && forall k :: k in ks ==> Less(x, k)
    ensures StrictlySorted([x] + ks)
  {
    var r := [x] + ks;
    forall i, j | 0 <= i < j < |r| ensures Less(r[i], r[j]) {
      assert r[j] == ks[j - 1];
      if i > 0 { assert r[i] == ks[i - 1]; }
    }
  }

  /** The tail of a strictly sorted list is strictly sorted and above its head. */
  lemma SortedTail(keys: seq<string>)
    requires StrictlySorted(keys) && keys != []
    ensures StrictlySorted(keys[1..]) && forall k :: k in keys[1..] ==> Less(keys[0], k)
  {
    var tail := keys[1..];
    forall i, j | 0 <= i < j < |tail| ensures Less(tail[i], tail[j]) {
      assert tail[i] == keys[i + 1] && tail[j] == keys[j + 1];
    }
  }

  /** Over strictly sorted keys, the differences come out in strictly sorted key order. */
  lemma {:induction false} ScanSorted(keys: seq<string>, step: Step)
    requires Keyed(step) && StrictlySorted(keys) && Scan(keys, step).Ok?
    ensures StrictlySorted(DiffKeys(Scan(keys, step).value))
  {
    if keys != [] {
      var tail := keys[1..];
      SortedTail(keys);
      ScanSorted(tail, step);
      var rest := Scan(tail, step).value;
      if step(keys[0]).value.Some? {
        ScanSound(tail, step);
        assert forall k :: k in DiffKeys(rest) ==> k in tail;
        SortedCons(keys[0], DiffKeys(rest));
        assert DiffKeys([step(keys[0]).value.value] + rest) == [keys[0]] + DiffKeys(rest);
      } else {
        assert [] + rest == rest;
      }
    }
  }

  /** A scan fails exactly when some visited key's step fails, with the first such error. */
  lemma {:induction false} ScanFails(keys: seq<string>, step: Step)
    ensures Scan(keys, step).Err? <==> exists i :: 0 <= i < |keys| && step(keys[i]).Err?
    ensures Scan(keys, step).Err? ==>
      exists i :: 0 <= i < |keys| && step(keys[i]) == Err(Scan(keys, step).error) &&
        forall j :: 0 <= j < i ==> step(keys[j]).Ok?
  {
    if keys != [] {
      ScanFails(keys[1..], step);
      if step(keys[0]).Ok? && Scan(keys[1..], step).Err? {
        var i :| 0 <= i < |keys[1..]| && step(keys[1..][i]) == Err(Scan(keys[1..], step).error) &&
          forall j :: 0 <= j < i ==> step(keys[1..][j]).Ok?;
        assert keys[1..][i] == keys[i + 1];
        forall j | 0 <= j < i + 1 ensures step(keys[j]).Ok? {
          if j > 0 { assert keys[j] == keys[1..][j - 1]; }
        }
      }
      if exists i :: 0 <= i < |keys| && step(keys[i]).Err? {
        var i :| 0 <= i < |keys| && step(keys[i]).Err?;
        if i > 0 { assert keys[i] == keys[1..][i - 1]; }
      }
    }
  }

  /**
   * What `find_differences` yields: each key that differs, once, with both values (arrays
   * as tuples); only such keys; in sorted key order.
   */
  lemma DifferencesReported(s1: Struct, s2: Struct, skip: seq<string>)
    requires Differences(s1, s2, skip).Ok?
    ensures forall d :: d in Differences(s1, s2, skip).value ==>
      Differs(s1, s2, skip, d.key) &&
      d == Diff(d.key, Plain(Get(s1, d.key).value), Plain(Get(s2, d.key).value))
    ensures forall k :: Differs(s1, s2, skip, k) ==> k in DiffKeys(Differences(s1, s2, skip).value)
    ensures StrictlySorted(DiffKeys(Differences(s1, s2, skip).value))
    ensures Differences(s1, s2, skip).value == [] <==> forall k :: !Differs(s1, s2, skip, k)
  {
    var keys := UnionKeys(s1, s2);
    StepOfKeyed(s1, s2, skip);
    ScanSound(keys, StepOf(s1, s2, skip));
    ScanSorted(keys, StepOf(s1, s2, skip));
    var ds := Differences(s1, s2, skip).value;
    forall k | Differs(s1, s2, skip, k) ensures k in DiffKeys(ds) {
      ScanComplete(keys, StepOf(s1, s2, skip), k);
      var d := KeyStep(s1, s2, skip, k).value.value;
      var i :| 0 <= i < |ds| && ds[i] == d;
      assert DiffKeys(ds)[i] == k;
    }
    if ds != [] {
      assert ds[0] in ds;
    }
  }

  /** `find_differences` raises exactly when an unskipped key is held by one struct only. */
  lemma DifferencesRaise(s1: Struct, s2: Struct, skip: seq<string>)
    ensures Differences(s1, s2, skip).Err? <==> exists k :: Unmatched(s1, s2, skip, k)
  {
    var keys := UnionKeys(s1, s2);
    ScanFails(keys, StepOf(s1, s2, skip));
    if exists k :: Unmatched(s1, s2, skip, k) {
      var k :| Unmatched(s1, s2, skip, k);
      var i :| 0 <= i < |keys| && keys[i] == k;
      assert KeyStep(s1, s2, skip, keys[i]).Err?;
    }
  }

  /**
   * The error names the first unmatched key in sorted order, and the struct that lacks it.
   */
  lemma DifferencesRaiseFirst(s1: Struct, s2: Struct, skip: seq<string>)
    requires Differences(s1, s2, skip).Err?
    ensures exists k :: (Unmatched(s1, s2, skip, k) &&
      Differences(s1, s2, skip).error == Missing(k, if k in Keys(s1) then "second" else "first") &&
      forall j :: Unmatched(s1, s2, skip, j) && j != k ==> Less(k, j))
  {
    var keys := UnionKeys(s1, s2);
    ScanFails(keys, StepOf(s1, s2, skip));
    var r := Differences(s1, s2, skip);
    var i :| 0 <= i < |keys| && KeyStep(s1, s2, skip, keys[i]) == Err(r.error) &&
      forall j :: 0 <= j < i ==> KeyStep(s1, s2, skip, keys[j]).Ok?;
    var k := keys[i];
    assert Unmatched(s1, s2, skip, k);
    forall j | Unmatched(s1, s2, skip, j) && j != k ensures Less(k, j) {
      var m :| 0 <= m < |keys| && keys[m] == j;
      assert KeyStep(s1, s2, skip, keys[m]).Err?;
      assert i < m;
    }
  }

  /** `tuple(tolist())` keeps a value free of NaN. */
  lemma PlainNanFree(v: Value)
    requires NanFree(v)
    ensures NanFree(Plain(v)) && (IsNaN(Plain(v)) <==> IsNaN(v))
  {
  }

  /** In a dict, a key it holds finds one of its items. */
  lemma GetItem(s: Struct, k: string)
    requires UniqueKeys(s) && k in Keys(s)
    ensures exists i :: 0 <= i < |s| && s[i].0 == k && Get(s, k) == Some(s[i].1)
  {
    var i :| 0 <= i < |s| && KeyList(s)[i] == k;
    GetUnique(s, i);
  }

  /**
   * A struct compared with itself has no differences, provided no value other than a bare
   * NaN holds a NaN (an array holding NaN is reported; see ArrayNaNDiffers).
   */
  lemma IdenticalNoDifferences(s: Struct, skip: seq<string>)
    requires UniqueKeys(s)
    requires forall i :: 0 <= i < |s| && s[i].0 !in skip ==> NanFree(s[i].1) || IsNaN(s[i].1)
    ensures Differences(s, s, skip) == Ok([])
  {
    DifferencesRaise(s, s, skip);
    forall k ensures !Differs(s, s, skip, k) {
      if k !in skip && k in Keys(s) {
        GetItem(s, k);
        var i :| 0 <= i < |s| && s[i].0 == k && Get(s, k) == Some(s[i].1);
        if NanFree(s[i].1) {
          PlainNanFree(s[i].1);
          PyEqReflexive(Plain(s[i].1));
        }
      }
    }
    DifferencesReported(s, s, skip);
  }

  /**
   * An array holding NaN is a difference even against itself: `tolist()` gives fresh float
   * objects, and NaN equals nothing.
   */
  lemma ArrayNaNDiffers()
    ensures Differences([("value", VArray([VFloat(NaN)]))], [("value", VArray([VFloat(NaN)]))], DefaultSkip)
      == Ok([Diff("value", VTuple([VFloat(NaN)]), VTuple([VFloat(NaN)]))])
  {
    var s: Struct := [("value", VArray([VFloat(NaN)]))];
    assert KeyList(s) == ["value"];
    assert KeyList(s) + KeyList(s) == ["value", "value"];
    assert SortedUnique(["value"]) == ["value"];
    assert UnionKeys(s, s) == ["value"];
    assert !PyEq(VFloat(NaN), VFloat(NaN));
    assert !ItemsEq([VFloat(NaN)], [VFloat(NaN)]);
    assert Get(s, "value") == Some(VArray([VFloat(NaN)]));
    assert KeyStep(s, s, DefaultSkip, "value") == Ok(Some(Diff("value", VTuple([VFloat(NaN)]), VTuple([VFloat(NaN)]))));
    assert ["value"][1..] == [];
    assert Scan([], StepOf(s, s, DefaultSkip)) == Ok([]);
    var d := Diff("value", VTuple([VFloat(NaN)]), VTuple([VFloat(NaN)]));
    assert [d] + [] == [d];
    assert Scan(["value"], StepOf(s, s, DefaultSkip)) == Ok([Diff("value", VTuple([VFloat(NaN)]), VTuple([VFloat(NaN)]))]);
  }

  /** Piece `i` of the text is literal and spells out `sub`. */
  predicate SaysAt(t: Text, i: int, sub: string) {
    0 <= i < |t| && t[i].Lit? && Contains(t[i].text, sub)
  }

  /**
   * The message for one difference, with the two values shown as `str()` shows them:
   * it names the key and the first description, shows the first value, then names the
   * second description and shows the second value; it shows no other value and is
   * never blank.
   */
  function Message(d: Diff, desc1: string, desc2: string): (r: Text)
    ensures |r| == 5
    ensures SaysAt(r, 0, d.key) && SaysAt(r, 0, desc1) && r[1] == Shown(d.v1)
    ensures SaysAt(r, 2, desc2) && r[3] == Shown(d.v2)
    ensures forall i :: 0 <= i < |r| && !r[i].Lit? ==> i == 1 || i == 3
    ensures !Blank(r)
  {
    var head := "Element '" + d.key + "' : " + desc1 + " has '";
    ContainsInfix("Element '", d.key, "' : " + desc1 + " has '");
    assert head == "Element '" + d.key + ("' : " + desc1 + " has '");
    ContainsInfix("Element '" + d.key + "' : ", desc1, " has '");
    ContainsInfix("', but ", desc2, " has '");
    var t := [Lit(head), Shown(d.v1), Lit("', but " + desc2 + " has '"), Shown(d.v2), Lit("'")];
    NotBlankAt(t, 4);
    t
  }

  /** The messages of a list of differences, in order. */
  function Messages(ds: seq<Diff>, desc1: string, desc2: string): (r: seq<Text>)
    ensures |r| == |ds|
    ensures forall i :: 0 <= i < |ds| ==> r[i] == Message(ds[i], desc1, desc2)
  {
    seq(|ds|, i requires 0 <= i < |ds| => Message(ds[i], desc1, desc2))
  }

  /** `compare_structures(struct1, struct2, desc1, desc2)`: the messages joined by "\n\t". */
  function Comparison(s1: Struct, s2: Struct, desc1: string, desc2: string): Result<Text, PyExc> {
    var ds := Differences(s1, s2, DefaultSkip);
    if ds.Err? then Err(ds.error) else Ok(JoinText("\n\t", Messages(ds.value, desc1, desc2)))
  }

  /** `compare_structures` as the loop it is: one message appended per difference. */
  method CompareStructures(s1: Struct, s2: Struct, desc1: string, desc2: string) returns (r: Result<Text, PyExc>)
    ensures r == Comparison(s1, s2, desc1, desc2)
  {
    var ds := FindDifferences(s1, s2, DefaultSkip);
    if ds.Err? {
      return Err(ds.error);
    }
    var messages := Describe(ds.value, desc1, desc2);
    return Ok(JoinText("\n\t", messages));
  }

  /** The loop of `compare_structures`: one message appended per difference. */
  method Describe(ds: seq<Diff>, desc1: string, desc2: string) returns (messages: seq<Text>)
    ensures messages == Messages(ds, desc1, desc2)
  {
    messages := [];
    for i := 0 to |ds|
      invariant |messages| == i
      invariant forall j :: 0 <= j < i ==> messages[j] == Message(ds[j], desc1, desc2)
    {
      messages := messages + [Message(ds[i], desc1, desc2)];
    }
  }

  /** A joined list of messages renders empty only when there are none. */
  lemma JoinedMessagesBlank(ds: seq<Diff>, desc1: string, desc2: string)
    ensures Blank(JoinText("\n\t", Messages(ds, desc1, desc2))) <==> ds == []
  {
    var ms := Messages(ds, desc1, desc2);
    if ds != [] {
      var t := JoinText("\n\t", ms);
      if |ms| == 1 {
        assert t[0] == Message(ds[0], desc1, desc2)[0];
      } else {
        assert t == ms[0] + [Lit("\n\t")] + JoinText("\n\t", ms[1..]);
        assert t[0] == ms[0][0];
      }
      assert !RendersEmpty(t[0]);
    }
  }

  /**
   * "Identical structures will return an empty string": the comparison is empty exactly
   * when no key differs, and it raises exactly when an unskipped key is on one side only.
   */
  lemma ComparisonEmpty(s1: Struct, s2: Struct, desc1: string, desc2: string)
    ensures Comparison(s1, s2, desc1, desc2).Err? <==> exists k :: Unmatched(s1, s2, DefaultSkip, k)
    ensures Comparison(s1, s2, desc1, desc2).Ok? ==>
      (Blank(Comparison(s1, s2, desc1, desc2).value) <==> forall k :: !Differs(s1, s2, DefaultSkip, k))
  {
    DifferencesRaise(s1, s2, DefaultSkip);
    var ds := Differences(s1, s2, DefaultSkip);
    if ds.Ok? {
      JoinedMessagesBlank(ds.value, desc1, desc2);
      DifferencesReported(s1, s2, DefaultSkip);
    }
  }

  /** `{f'{prefix}{k}': v for k, v in (md or {}).items()}`. */
  function Prefixed(prefix: string, md: Option<Struct>): (r: Struct)
    ensures md.None? ==> r == []
    ensures md.Some? ==> (|r| == |md.value| &&
      forall i :: 0 <= i < |r| ==> r[i] == (prefix + md.value[i].0, md.value[i].1))
  {
    if md.None? then []
    else seq(|md.value|, i requires 0 <= i < |md.value| => (prefix + md.value[i].0, md.value[i].1))
  }

  /** Differences so far, then more: the first error wins, as `yield from` runs in turn. */
  function Chain(a: Result<seq<Diff>, PyExc>, b: Result<seq<Diff>, PyExc>): Result<seq<Diff>, PyExc> {
    if a.Err? then a else if b.Err? then b else Ok(a.value + b.value)
  }

  /** The dataclass fields, compared without the two metadata dicts. */
  function BasicDifferences(p1: PVInfo, p2: PVInfo, skip: seq<string>): Result<seq<Diff>, PyExc> {
    Differences(AsDict(p1), AsDict(p2), skip + ["time_md", "control_md"])
  }

  /** The `time_`-prefixed timestamp/alarm metadata, unless "time_md" is skipped. */
  function TimeDifferences(p1: PVInfo, p2: PVInfo, skip: seq<string>): Result<seq<Diff>, PyExc> {
    if "time_md" in skip then Ok([])
    else Differences(Prefixed("time_", p1.timeMd), Prefixed("time_", p2.timeMd), skip)
  }

  /** The `ctrl_`-prefixed control metadata, unless "control_md" is skipped. */
  function ControlDifferences(p1: PVInfo, p2: PVInfo, skip: seq<string>): Result<seq<Diff>, PyExc> {
    if "control_md" in skip then Ok([])
    else Differences(Prefixed("ctrl_", p1.controlMd), Prefixed("ctrl_", p2.controlMd), skip)
  }

  /** `list(find_pvinfo_differences(pvinfo1, pvinfo2, skip_keys))`. */
  function PvinfoDifferences(p1: PVInfo, p2: PVInfo, skip: seq<string>): Result<seq<Diff>, PyExc> {
    Chain(BasicDifferences(p1, p2, skip), Chain(TimeDifferences(p1, p2, skip), ControlDifferences(p1, p2, skip)))
  }

  /** Two records' dict forms hold the same keys, so their comparison never raises. */
  lemma BasicNeverRaises(p1: PVInfo, p2: PVInfo, skip: seq<string>)
    ensures BasicDifferences(p1, p2, skip).Ok?
  {
    var skip' := skip + ["time_md", "control_md"];
    DifferencesRaise(AsDict(p1), AsDict(p2), skip');
    forall k ensures !Unmatched(AsDict(p1), AsDict(p2), skip', k) {
      assert KeyList(AsDict(p1)) == KeyList(AsDict(p2));
    }
  }

  /**
   * `find_pvinfo_differences` raises exactly when a compared metadata dict has an unskipped
   * key the other record's dict lacks; a missing dict counts as empty.
   */
  lemma PvinfoDifferencesRaise(p1: PVInfo, p2: PVInfo, skip: seq<string>)
    ensures PvinfoDifferences(p1, p2, skip).Err? <==>
      ("time_md" !in skip &&
        exists k :: Unmatched(Prefixed("time_", p1.timeMd), Prefixed("time_", p2.timeMd), skip, k)) ||
      ("control_md" !in skip &&
        exists k :: Unmatched(Prefixed("ctrl_", p1.controlMd), Prefixed("ctrl_", p2.controlMd), skip, k))
  {
    BasicNeverRaises(p1, p2, skip);
    DifferencesRaise(Prefixed("time_", p1.timeMd), Prefixed("time_", p2.timeMd), skip);
    DifferencesRaise(Prefixed("ctrl_", p1.controlMd), Prefixed("ctrl_", p2.controlMd), skip);
  }

  /** Every key a prefixed dict holds starts with the prefix. */
  lemma PrefixedKeys(prefix: string, md: Option<Struct>)
    ensures forall k :: k in Keys(Prefixed(prefix, md)) ==> StartsWith(k, prefix)
  {
    forall k | k in Keys(Prefixed(prefix, md)) ensures StartsWith(k, prefix) {
      var i :| 0 <= i < |Prefixed(prefix, md)| && KeyList(Prefixed(prefix, md))[i] == k;
      assert k == prefix + md.value[i].0;
      assert k[..|prefix|] == prefix;
    }
  }

  /** A difference of the dict forms names an unskipped field other than the metadata. */
  lemma BasicDiffKeys(p1: PVInfo, p2: PVInfo, skip: seq<string>)
    requires BasicDifferences(p1, p2, skip).Ok?
    ensures forall d :: d in BasicDifferences(p1, p2, skip).value ==>
      d.key !in skip && d.key in FieldNames && d.key != "time_md" && d.key != "control_md"
  {
    DifferencesReported(AsDict(p1), AsDict(p2), skip + ["time_md", "control_md"]);
    forall d | d in BasicDifferences(p1, p2, skip).value ensures d.key in FieldNames {
      var i :| 0 <= i < |AsDict(p1)| && KeyList(AsDict(p1))[i] == d.key;
    }
  }

  /** A difference of two prefixed metadata dicts names an unskipped prefixed key. */
  lemma MdDiffKeys(prefix: string, m1: Option<Struct>, m2: Option<Struct>, skip: seq<string>)
    requires Differences(Prefixed(prefix, m1), Prefixed(prefix, m2), skip).Ok?
    ensures forall d :: d in Differences(Prefixed(prefix, m1), Prefixed(prefix, m2), skip).value ==>
      d.key !in skip && StartsWith(d.key, prefix)
  {
    DifferencesReported(Prefixed(prefix, m1), Prefixed(prefix, m2), skip);
    PrefixedKeys(prefix, m1);
  }

  /**
   * A record difference names an unskipped key: a dataclass field other than the two
   * metadata dicts, or a `time_`/`ctrl_` metadata key whose dict is compared.
   */
  lemma PvinfoDiffKeys(p1: PVInfo, p2: PVInfo, skip: seq<string>)
    requires PvinfoDifferences(p1, p2, skip).Ok?
    ensures forall d :: d in PvinfoDifferences(p1, p2, skip).value ==> (d.key !in skip &&
      ((d.key in FieldNames && d.key != "time_md" && d.key != "control_md") ||
       ("time_md" !in skip && StartsWith(d.key, "time_")) ||
       ("control_md" !in skip && StartsWith(d.key, "ctrl_"))))
  {
    BasicDiffKeys(p1, p2, skip);
    if "time_md" !in skip {
      MdDiffKeys("time_", p1.timeMd, p2.timeMd, skip);
    }
    if "control_md" !in skip {
      MdDiffKeys("ctrl_", p1.controlMd, p2.controlMd, skip);
    }
  }

  /** Prefixing keeps the keys of a dict distinct. */
  lemma PrefixedUnique(prefix: string, md: Option<Struct>)
    requires md.Some? ==> UniqueKeys(md.value)
    ensures UniqueKeys(Prefixed(prefix, md))
  {
    var r := Prefixed(prefix, md);
    forall i, j | 0 <= i < j < |r| ensures r[i].0 != r[j].0 {
      assert (prefix + md.value[i].0)[|prefix|..] == md.value[i].0;
      assert (prefix + md.value[j].0)[|prefix|..] == md.value[j].0;
    }
  }

  /** A metadata dict held as a Python dict with no NaN inside a value. */
  predicate CleanMd(md: Option<Struct>) {
    md.Some? ==> (UniqueKeys(md.value) &&
      forall i :: 0 <= i < |md.value| ==> NanFree(md.value[i].1) || IsNaN(md.value[i].1))
  }

  /** A record's own dict form shows no differences once the metadata dicts are skipped. */
  lemma SameBasicNoDifferences(p: PVInfo, skip: seq<string>)
    requires NanFree(p.value) || IsNaN(p.value)
    ensures BasicDifferences(p, p, skip) == Ok([])
  {
    var s := AsDict(p);
    var skip' := skip + ["time_md", "control_md"];
    assert UniqueKeys(s);
    forall i | 0 <= i < |s| && s[i].0 !in skip' ensures NanFree(s[i].1) || IsNaN(s[i].1) {
      assert i != 6 && i != 7;
    }
    IdenticalNoDifferences(s, skip');
  }

  /** A metadata dict compared with itself shows no differences. */
  lemma SameMdNoDifferences(prefix: string, md: Option<Struct>, skip: seq<string>)
    requires CleanMd(md)
    ensures Differences(Prefixed(prefix, md), Prefixed(prefix, md), skip) == Ok([])
  {
    PrefixedUnique(prefix, md);
    IdenticalNoDifferences(Prefixed(prefix, md), skip);
  }

  /** A record compared with itself shows no differences, whatever is skipped. */
  lemma SameRecordNoDifferences(p: PVInfo, skip: seq<string>)
    requires NanFree(p.value) || IsNaN(p.value)
    requires CleanMd(p.timeMd) && CleanMd(p.controlMd)
    ensures PvinfoDifferences(p, p, skip) == Ok([])
  {
    SameBasicNoDifferences(p, skip);
    SameMdNoDifferences("time_", p.timeMd, skip);
    SameMdNoDifferences("ctrl_", p.controlMd, skip);
  }
}
