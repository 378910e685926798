/**
 * The Python objects the test-suite compares: PV snapshot fields, metadata and
 * subscription-event dictionaries, with Python's `==` on them.
 */
module Values {
  import opened Wrappers
  import opened Dicts

  /** A Python float: NaN, or a finite number. */
  datatype Float = NaN | Num(r: real)

  /**
   * A Python object as it appears in the test data. `VArray` is a numpy ndarray, held
   * as the items its `tolist()` returns; `VDict` is a dict, held as its items in order.
   */
  datatype Value =
    | VNone
    | VBool(b: bool)
    | VInt(i: int)
    | VFloat(f: Float)
    | VStr(s: string)
    | VBytes(bytes: seq<bv8>)
    | VList(items: seq<Value>)
    | VTuple(items: seq<Value>)
    | VArray(items: seq<Value>)
    | VDict(entries: seq<(string, Value)>)

  /** A dict with string keys, as its items in insertion order. */
  type Struct = Dict<Value>

  predicate IsNumber(v: Value) {
    v.VBool? || v.VInt? || v.VFloat?
  }

  /** `math.isnan(v)` holds. */
  predicate IsNaN(v: Value) {
    v == VFloat(NaN)
  }

  /** The numeric value of a bool, int or non-NaN float. */
  function NumValue(v: Value): real
    requires IsNumber(v) && !IsNaN(v)
  {
    match v
    case VBool(b) => if b then 1.0 else 0.0
    case VInt(i) => i as real
    case VFloat(f) => f.r
  }

  /**
   * Python's `a == b`: numbers compare by value across bool, int and float and NaN equals
   * nothing; str, bytes and None compare with their own kind; lists, tuples and arrays
   * compare item by item with their own kind; dicts compare by key set and values.
   */
  predicate PyEq(a: Value, b: Value)
    decreases a
  {
    if IsNumber(a) && IsNumber(b) then
      !IsNaN(a) && !IsNaN(b) && NumValue(a) == NumValue(b)
    else
      match a
      case VNone => b.VNone?
      case VStr(x) => b.VStr? && x == b.s
      case VBytes(x) => b.VBytes? && x == b.bytes
      case VList(xs) => b.VList? && ItemsEq(xs, b.items)
      case VTuple(xs) => b.VTuple? && ItemsEq(xs, b.items)
      case VArray(xs) => b.VArray? && ItemsEq(xs, b.items)
      case VDict(xs) => b.VDict? && |xs| == |b.entries| && EntriesIn(xs, b.entries)
      case _ => false
  }

  predicate ItemsEq(xs: seq<Value>, ys: seq<Value>)
    decreases xs
  {
    |xs| == |ys| && (xs == [] || (PyEq(xs[0], ys[0]) && ItemsEq(xs[1..], ys[1..])))
  }

  /** Every item of `xs` has its key in `ys`, with an equal value. */
  predicate EntriesIn(xs: seq<(string, Value)>, ys: seq<(string, Value)>)
    decreases xs
  {
    xs == [] ||
    (var w := Get(ys, xs[0].0);
     assert xs[0].1 < xs[0];
     w.Some? && PyEq(xs[0].1, w.value) && EntriesIn(xs[1..], ys))
  }

  /**
   * No NaN anywhere inside `v` (NaN is the one value not equal to itself), and every dict
   * inside has each key once, as a Python dict does.
   */
  predicate NanFree(v: Value)
    decreases v
  {
    match v
    case VFloat(f) => f.Num?
    case VList(xs) => forall i :: 0 <= i < |xs| ==> NanFree(xs[i])
    case VTuple(xs) => forall i :: 0 <= i < |xs| ==> NanFree(xs[i])
    case VArray(xs) => forall i :: 0 <= i < |xs| ==> NanFree(xs[i])
    case VDict(xs) => UniqueKeys(xs) && forall i :: 0 <= i < |xs| ==> NanFree(xs[i].1)
    case _ => true
  }

  /** Apart from NaN, every value equals itself. */
  lemma {:induction false} PyEqReflexive(v: Value)
    requires NanFree(v)
    ensures PyEq(v, v)
    decreases v, 1
  {
    match v
    case VList(xs) => ItemsEqReflexive(xs);
    case VTuple(xs) => ItemsEqReflexive(xs);
    case VArray(xs) => ItemsEqReflexive(xs);
    case VDict(xs) =>
      EntriesInReflexive(xs, xs, 0);
    case _ =>
  }

  lemma {:induction false} ItemsEqReflexive(xs: seq<Value>)
    requires forall i :: 0 <= i < |xs| ==> NanFree(xs[i])
    ensures ItemsEq(xs, xs)
    decreases xs, 0
  {
    if xs != [] {
      PyEqReflexive(xs[0]);
      ItemsEqReflexive(xs[1..]);
    }
  }

  lemma {:induction false} EntriesInReflexive(xs: Struct, whole: Struct, from: nat)
    requires from <= |whole| && xs == whole[from..] && UniqueKeys(whole)
    requires forall i :: 0 <= i < |xs| ==> NanFree(xs[i].1)
    ensures EntriesIn(xs, whole)
    decreases xs, 0
  {
    if xs != [] {
      GetUnique(whole, from);
      assert xs[0].1 < xs[0];
      PyEqReflexive(xs[0].1);
      EntriesInReflexive(xs[1..], whole, from + 1);
    }
  }

  /**
   * Text whose rendering is not modelled: literal pieces, and values shown with Python's
   * `str()` inside f-strings.
   */
  datatype Seg =
    | Lit(text: string)
    | Shown(v: Value)
    /** f"{abs(a - b) / 60 / 60:.2f}": the hours between two timestamps. */
    | HoursBetween(a: Value, b: Value)

  type Text = seq<Seg>

  /** `str(v)` is empty only for the empty string. */
  predicate RendersEmpty(g: Seg) {
    g == Lit("") || g == Shown(VStr(""))
  }

  /** Python's truth value of the rendered text is False. */
  predicate Blank(t: Text) {
    forall i :: 0 <= i < |t| ==> RendersEmpty(t[i])
  }

  /** A text with a non-empty literal piece renders non-empty. */
  lemma NotBlankAt(t: Text, i: nat)
    requires i < |t| && t[i].Lit? && t[i].text != ""
    ensures !Blank(t)
  {
    assert !RendersEmpty(t[i]);
  }

  /** Python `sep.join(parts)` on texts. */
  function JoinText(sep: string, parts: seq<Text>): (r: Text)
    ensures parts == [] ==> r == []
    ensures |parts| == 1 ==> r == parts[0]
  {
    if |parts| == 0 then []
    else if |parts| == 1 then parts[0]
    else parts[0] + [Lit(sep)] + JoinText(sep, parts[1..])
  }

  /** The Python exceptions the modelled code raises, with the message where it matters. */
  datatype PyExc =
    | ValueError(msg: Text)
    | KeyError(key: string)
    | IndexError
    | TypeError
    | AttributeError
    | RuntimeError(msg: Text)
    | NotImplementedError(msg: Text)
    | AssertionError
}
