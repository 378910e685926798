/**
 * The record of one caget (gateway_tests/util.py PVInfo), its dict form, the enum-name
 * helper, and the JSON sanitiser applied before results are saved.
 */
module PvInfo {
  import opened Wrappers
  import opened Dicts
  import opened Strings
  import opened Values

  /**
   * What one caget returned for one PV. `value` is the Python object itself (`VNone`
   * when it is None); the metadata dicts and the circuit address are None or present.
   */
  datatype PVInfo = PVInfo(
    name: string,
    access: Option<string>,
    dataType: Option<string>,
    dataCount: Option<int>,
    value: Value,
    error: Option<string>,
    timeMd: Option<Struct>,
    controlMd: Option<Struct>,
    address: Option<(string, int)>)

  /** `PVInfo(name=name)`: every other field at its default, None. */
  function Bare(name: string): PVInfo {
    PVInfo(name, None, None, None, VNone, None, None, None, None)
  }

  /** The dataclass's field names, in declaration order. */
  const FieldNames: seq<string> :=
    ["name", "access", "data_type", "data_count", "value", "error", "time_md", "control_md", "address"]

  function StrOrNone(o: Option<string>): Value {
    if o.Some? then VStr(o.value) else VNone
  }

  function IntOrNone(o: Option<int>): Value {
    if o.Some? then VInt(o.value) else VNone
  }

  function DictOrNone(o: Option<Struct>): Value {
    if o.Some? then VDict(o.value) else VNone
  }

  function AddressValue(o: Option<(string, int)>): Value {
    if o.Some? then VTuple([VStr(o.value.0), VInt(o.value.1)]) else VNone
  }

  /**
   * `dataclasses.asdict(p)`: one item per field, named as the field, in declaration
   * order; the address tuple stays a tuple.
   */
  function AsDict(p: PVInfo): (r: Struct)
    ensures |r| == |FieldNames| && forall i :: 0 <= i < |r| ==> r[i].0 == FieldNames[i]
    ensures r[0].1 == VStr(p.name) && r[4].1 == p.value
  {
    [("name", VStr(p.name)), ("access", StrOrNone(p.access)), ("data_type", StrOrNone(p.dataType)),
     ("data_count", IntOrNone(p.dataCount)), ("value", p.value), ("error", StrOrNone(p.error)),
     ("time_md", DictOrNone(p.timeMd)), ("control_md", DictOrNone(p.controlMd)),
     ("address", AddressValue(p.address))]
  }

  /** The dict form loses nothing: distinct records have distinct dicts. */
  lemma AsDictInjective(p: PVInfo, q: PVInfo)
    requires AsDict(p) == AsDict(q)
    ensures p == q
  {
    assert AsDict(p)[1] == AsDict(q)[1] && AsDict(p)[2] == AsDict(q)[2] && AsDict(p)[3] == AsDict(q)[3];
    assert AsDict(p)[5] == AsDict(q)[5] && AsDict(p)[6] == AsDict(q)[6] && AsDict(p)[7] == AsDict(q)[7];
    assert AsDict(p)[8] == AsDict(q)[8];
  }

  /**
   * `_basic_enum_name`: the text after the first '.' of an enum member's `str()`, e.g.
   * "AccessRights.READ" gives "READ"; without a '.', indexing `[1]` raises IndexError.
   */
  function BasicEnumName(shown: string): (r: Result<string, PyExc>)
    ensures r.Err? <==> '.' !in shown
    ensures r.Err? ==> r.error == IndexError
    ensures r.Ok? ==> exists cls :: shown == cls + "." + r.value && '.' !in cls
  {
    var parts := SplitOnce(shown, ".");
    ContainsChar(shown, '.');
    if |parts| < 2 then Err(IndexError)
    else
      ContainsChar(parts[0], '.');
      Ok(parts[1])
  }

  /** The class part ends at the first '.', so any member name comes back whole. */
  lemma BasicEnumNameOf(cls: string, member: string)
    requires '.' !in cls
    ensures BasicEnumName(cls + "." + member) == Ok(member)
  {
    var shown := cls + "." + member;
    FindChar(cls, '.', member);
    assert shown[..|cls|] == cls && shown[|cls| + 1..] == member;
  }

  /** Scalars: what `_filter_data` returns unchanged. */
  predicate Scalar(v: Value) {
    v.VNone? || v.VBool? || v.VInt? || v.VFloat? || v.VStr?
  }

  /**
   * `_filter_data` as written: dicts keep their keys with filtered values; an ndarray
   * becomes its `tolist()`, whose items are not filtered; lists and tuples become lists
   * of filtered items; bytes are decoded as latin-1; anything else is kept.
   */
  function FilterData(v: Value): (r: Value)
    decreases v, 1
    ensures v.VDict? ==> r.VDict? && KeyList(r.entries) == KeyList(v.entries)
    ensures v.VList? || v.VTuple? ==> r.VList? && |r.items| == |v.items|
    ensures v.VArray? ==> r == VList(v.items)
    ensures v.VBytes? ==> r.VStr? && |r.s| == |v.bytes|
    ensures Scalar(v) ==> r == v
  {
    match v
    case VDict(xs) => VDict(FilterEntries(xs))
    case VArray(xs) => VList(xs)
    case VList(xs) => VList(FilterItems(xs))
    case VTuple(xs) => VList(FilterItems(xs))
    case VBytes(b) => VStr(Latin1(b))
    case _ => v
  }

  function FilterItems(xs: seq<Value>): (r: seq<Value>)
    decreases xs, 0
    ensures |r| == |xs|
  {
    if xs == [] then [] else [FilterData(xs[0])] + FilterItems(xs[1..])
  }

  function FilterEntries(xs: Struct): (r: Struct)
    decreases xs, 0
    ensures KeyList(r) == KeyList(xs)
  {
    if xs == [] then []
    else
      assert xs[0].1 < xs[0];
      [(xs[0].0, FilterData(xs[0].1))] + FilterEntries(xs[1..])
  }

  /**
   * A value `json.dump` can write as is: no bytes, tuples or ndarrays anywhere inside.
   * (Tuples would be written as lists, so only a value without them survives a reload.)
   */
  predicate JsonSafe(v: Value)
    decreases v
  {
    match v
    case VBytes(_) => false
    case VTuple(_) => false
    case VArray(_) => false
    case VList(xs) => forall i :: 0 <= i < |xs| ==> JsonSafe(xs[i])
    case VDict(xs) => forall i :: 0 <= i < |xs| ==> JsonSafe(xs[i].1)
    case _ => true
  }

  /** An ndarray of byte strings: `tolist()` hands back the bytes unfiltered. */
  lemma FilterDataKeepsArrayBytes()
    ensures var v := VArray([VBytes([0x41])]);
      FilterData(v) == VList([VBytes([0x41])]) && !JsonSafe(FilterData(v))
      && FilterData(FilterData(v)) != FilterData(v)
  {
    var v := VArray([VBytes([0x41])]);
    assert FilterData(v) == VList([VBytes([0x41])]);
    assert !JsonSafe(VBytes([0x41]));
    assert FilterItems([VBytes([0x41])]) == [VStr(Latin1([0x41]))];
  }

  /**
   * `_filter_data` as its docstring intends: the items of an ndarray's `tolist()` are
   * filtered too, so byte strings inside arrays are decoded like any others.
   */
  function FilterDataDeep(v: Value): (r: Value)
    decreases v, 1
    ensures JsonSafe(r)
    ensures v.VDict? ==> r.VDict? && KeyList(r.entries) == KeyList(v.entries)
    ensures v.VList? || v.VTuple? || v.VArray? ==> r.VList? && |r.items| == |v.items|
    ensures v.VBytes? ==> r.VStr? && |r.s| == |v.bytes|
    ensures Scalar(v) ==> r == v
  {
    match v
    case VDict(xs) => VDict(FilterEntriesDeep(xs))
    case VArray(xs) => VList(FilterItemsDeep(xs))
    case VList(xs) => VList(FilterItemsDeep(xs))
    case VTuple(xs) => VList(FilterItemsDeep(xs))
    case VBytes(b) => VStr(Latin1(b))
    case _ => v
  }

  function FilterItemsDeep(xs: seq<Value>): (r: seq<Value>)
    decreases xs, 0
    ensures |r| == |xs|
    ensures forall i :: 0 <= i < |r| ==> JsonSafe(r[i])
  {
    if xs == [] then [] else [FilterDataDeep(xs[0])] + FilterItemsDeep(xs[1..])
  }

  function FilterEntriesDeep(xs: Struct): (r: Struct)
    decreases xs, 0
    ensures KeyList(r) == KeyList(xs)
    ensures forall i :: 0 <= i < |r| ==> JsonSafe(r[i].1)
  {
    if xs == [] then []
    else
      assert xs[0].1 < xs[0];
      [(xs[0].0, FilterDataDeep(xs[0].1))] + FilterEntriesDeep(xs[1..])
  }

  /** The sanitiser leaves a JSON-safe value alone. */
  lemma {:induction false} FilterDataDeepKeepsSafe(v: Value)
    requires JsonSafe(v)
    ensures FilterDataDeep(v) == v
    decreases v, 1
  {
    match v
    case VList(xs) => FilterItemsDeepKeepsSafe(xs);
    case VDict(xs) => FilterEntriesDeepKeepsSafe(xs);
    case _ =>
  }

  lemma {:induction false} FilterItemsDeepKeepsSafe(xs: seq<Value>)
    requires forall i :: 0 <= i < |xs| ==> JsonSafe(xs[i])
    ensures FilterItemsDeep(xs) == xs
    decreases xs, 0
  {
    if xs != [] {
      FilterDataDeepKeepsSafe(xs[0]);
      FilterItemsDeepKeepsSafe(xs[1..]);
    }
  }

  lemma {:induction false} FilterEntriesDeepKeepsSafe(xs: Struct)
    requires forall i :: 0 <= i < |xs| ==> JsonSafe(xs[i].1)
    ensures FilterEntriesDeep(xs) == xs
    decreases xs, 0
  {
    if xs != [] {
      assert xs[0].1 < xs[0];
      FilterDataDeepKeepsSafe(xs[0].1);
      FilterEntriesDeepKeepsSafe(xs[1..]);
    }
  }

  /** Sanitising twice is sanitising once. */
  lemma FilterDataDeepIdempotent(v: Value)
    ensures FilterDataDeep(FilterDataDeep(v)) == FilterDataDeep(v)
  {
    FilterDataDeepKeepsSafe(FilterDataDeep(v));
  }

  /** Where no ndarray is involved, the two versions agree. */
  predicate ArrayFree(v: Value)
    decreases v
  {
    match v
    case VArray(_) => false
    case VList(xs) => forall i :: 0 <= i < |xs| ==> ArrayFree(xs[i])
    case VTuple(xs) => forall i :: 0 <= i < |xs| ==> ArrayFree(xs[i])
    case VDict(xs) => forall i :: 0 <= i < |xs| ==> ArrayFree(xs[i].1)
    case _ => true
  }

  lemma {:induction false} FilterDataAgrees(v: Value)
    requires ArrayFree(v)
    ensures FilterData(v) == FilterDataDeep(v)
    decreases v, 1
  {
    match v
    case VList(xs) => FilterItemsAgree(xs);
    case VTuple(xs) => FilterItemsAgree(xs);
    case VDict(xs) => FilterEntriesAgree(xs);
    case _ =>
  }

  lemma {:induction false} FilterItemsAgree(xs: seq<Value>)
    requires forall i :: 0 <= i < |xs| ==> ArrayFree(xs[i])
    ensures FilterItems(xs) == FilterItemsDeep(xs)
    decreases xs, 0
  {
    if xs != [] {
      FilterDataAgrees(xs[0]);
      FilterItemsAgree(xs[1..]);
    }
  }

  lemma {:induction false} FilterEntriesAgree(xs: Struct)
    requires forall i :: 0 <= i < |xs| ==> ArrayFree(xs[i].1)
    ensures FilterEntries(xs) == FilterEntriesDeep(xs)
    decreases xs, 0
  {
    if xs != [] {
      assert xs[0].1 < xs[0];
      FilterDataAgrees(xs[0].1);
      FilterEntriesAgree(xs[1..]);
    }
  }
}
