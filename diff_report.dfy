/**
 * Classifying record differences (gateway_tests/conftest.py PVInfoDiff, cache_diff,
 * interpret_pvinfo_differences, pvinfo_diff_report): each difference gets a category and
 * a sentence, the categories are appended to a per-PV cache, and the report counts the
 * cached categories by name.
 */
module DiffReport {
  import opened Wrappers
  import opened Dicts
  import opened Values
  import opened Differences

  /** `PVInfoDiff`: why a gateway record differs from the IOC's. */
  datatype PVInfoDiff = Other | Timeout | InvalidTimestamp | IncorrectTimestamp | ValueDiff | Metadata

  /** The enum member's `name`, the key the report counts it under. */
  function Name(c: PVInfoDiff): (r: string)
    ensures r in Names
  {
    match c
    case Other => "OTHER"
    case Timeout => "TIMEOUT"
    case InvalidTimestamp => "INVALID_TIMESTAMP"
    case IncorrectTimestamp => "INCORRECT_TIMESTAMP"
    case ValueDiff => "VALUE"
    case Metadata => "METADATA"
  }

  const Names: set<string> :=
    {"OTHER", "TIMEOUT", "INVALID_TIMESTAMP", "INCORRECT_TIMESTAMP", "VALUE", "METADATA"}

  /** Distinct categories are counted under distinct names. */
  lemma NameInjective(c: PVInfoDiff, c': PVInfoDiff)
    requires c != c'
    ensures Name(c) != Name(c')
  {
  }

  /** `EPICS_EPOCH`: the timestamp of a record that was never processed. */
  const EpicsEpoch: Value := VFloat(Num(631152000.0))

  predicate TimedOut(v: Value) {
    PyEq(v, VStr("timeout"))
  }

  predicate AtEpoch(v: Value) {
    PyEq(v, EpicsEpoch)
  }

  /**
   * `inner_describe(key, val1, val2)`: the category cached and the sentence returned, or
   * the TypeError that `abs(val1 - val2)` raises for a timestamp that is not a number.
   * `desc1` describes the first record, `desc2` the second.
   */
  function DescribeOne(d: Diff, pvname: string, desc1: string, desc2: string): Result<(PVInfoDiff, Text), PyExc> {
    if d.key == "name" then
      Ok((Other, [Lit("Comparing two unrelated PVs")]))
    else if d.key == "error" && TimedOut(d.v1) then
      Ok((Timeout, [Lit(desc1 + " PV " + pvname + " timed out, but " + desc2 + " responded")]))
    else if d.key == "error" && TimedOut(d.v2) then
      Ok((Timeout, [Lit(desc2 + " PV " + pvname + " timed out, but " + desc1 + " responded")]))
    else if d.key == "time_timestamp" && AtEpoch(d.v1) then
      Ok((InvalidTimestamp, [Lit(desc1 + " PV " + pvname + " had an invalid timestamp")]))
    else if d.key == "time_timestamp" && AtEpoch(d.v2) then
      Ok((InvalidTimestamp, [Lit(desc2 + " PV " + pvname + " had an invalid timestamp")]))
    else if d.key == "time_timestamp" then
      if IsNumber(d.v1) && IsNumber(d.v2) then
        Ok((IncorrectTimestamp,
            [Lit("For " + pvname + " there was a timestamp diff of "), HoursBetween(d.v1, d.v2), Lit(" hours")]))
      else Err(TypeError)
    else
      Ok((if d.key == "value" then ValueDiff else Metadata,
          [Lit("For " + pvname + ", " + desc1 + " " + d.key + " == "), Shown(d.v1),
           Lit(", but " + desc2 + " " + d.key + " == "), Shown(d.v2)]))
  }

  /**
   * The category of a difference: the key "name" is an unrelated PV, an "error" where one
   * side timed out is a timeout, a timestamp at the EPICS epoch is invalid and any other
   * timestamp is incorrect, "value" is a value difference and everything else metadata;
   * only a timestamp that is neither at the epoch nor a number on both sides raises.
   */
  lemma Classification(d: Diff, pvname: string, desc1: string, desc2: string)
    ensures var r := DescribeOne(d, pvname, desc1, desc2);
      (r.Err? <==>
        d.key == "time_timestamp" && !AtEpoch(d.v1) && !AtEpoch(d.v2) && !(IsNumber(d.v1) && IsNumber(d.v2))) &&
      (r.Err? ==> r.error == TypeError) &&
      (r.Ok? ==> (r.value.0 == Other <==> d.key == "name")) &&
      (r.Ok? ==> (r.value.0 == Timeout <==> d.key == "error" && (TimedOut(d.v1) || TimedOut(d.v2)))) &&
      (r.Ok? ==> (r.value.0 == InvalidTimestamp <==> d.key == "time_timestamp" && (AtEpoch(d.v1) || AtEpoch(d.v2)))) &&
      (r.Ok? ==> (r.value.0 == IncorrectTimestamp <==> d.key == "time_timestamp" && !AtEpoch(d.v1) && !AtEpoch(d.v2))) &&
      (r.Ok? ==> (r.value.0 == ValueDiff <==> d.key == "value")) &&
      (r.Ok? ==> (r.value.0 == Metadata <==>
        d.key !in {"name", "time_timestamp", "value"} && !(d.key == "error" && (TimedOut(d.v1) || TimedOut(d.v2)))))
  {
  }

  /** The sentences for all differences, in order, or the first exception. */
  function DescribeAll(ds: seq<Diff>, pvname: string, desc1: string, desc2: string): Result<seq<Text>, PyExc> {
    if ds == [] then Ok([])
    else
      var one := DescribeOne(ds[0], pvname, desc1, desc2);
      if one.Err? then Err(one.error)
      else
        var rest := DescribeAll(ds[1..], pvname, desc1, desc2);
        if rest.Err? then rest else Ok([one.value.1] + rest.value)
  }

  /** The categories cached while describing: those described before any exception. */
  function Categories(ds: seq<Diff>, pvname: string, desc1: string, desc2: string): seq<PVInfoDiff> {
    if ds == [] then []
    else
      var one := DescribeOne(ds[0], pvname, desc1, desc2);
      if one.Err? then [] else [one.value.0] + Categories(ds[1..], pvname, desc1, desc2)
  }

  /** The text `interpret_pvinfo_differences(diff, pvname, desc1, desc2)` returns. */
  function Interpret(ds: seq<Diff>, pvname: string, desc1: string, desc2: string): Result<Text, PyExc> {
    if ds == [] then Ok([Lit("No differences.")])
    else
      var texts := DescribeAll(ds, pvname, desc1, desc2);
      if texts.Err? then Err(texts.error)
      else if |texts.value| == 1 then Ok(texts.value[0])
      else Ok(JoinText(". ", texts.value))
  }

  /** A PV's cached categories after `cache_diff` has appended `cs` to them in turn. */
  function Recorded(d: Dict<seq<PVInfoDiff>>, pvname: string, cs: seq<PVInfoDiff>): Dict<seq<PVInfoDiff>> {
    if cs == [] then d else Assign(d, pvname, GetOr(d, pvname, []) + cs)
  }

  /** Every cached category, PV after PV. */
  function Flatten(d: Dict<seq<PVInfoDiff>>): seq<PVInfoDiff> {
    if d == [] then [] else d[0].1 + Flatten(d[1..])
  }

  /** `PVINFO_DIFF_CACHE`: the categories seen for each PV name, in order. */
  class DiffCache {
    var entries: Dict<seq<PVInfoDiff>>

    ghost predicate Valid()
      reads this
    {
      UniqueKeys(entries)
    }

    constructor()
      ensures entries == [] && Valid()
    {
      entries := [];
    }

    /** `cache_diff(pvname, category)`. */
    method CacheDiff(pvname: string, category: PVInfoDiff)
      requires Valid()
      modifies this
      ensures Valid()
      ensures entries == Recorded(old(entries), pvname, [category])
    {
      AssignUnique(entries, pvname, GetOr(entries, pvname, []) + [category]);
      entries := Assign(entries, pvname, GetOr(entries, pvname, []) + [category]);
    }

    /**
     * The counts `pvinfo_diff_report` writes: every category that occurs, under its name,
     * with the number of times it was cached; the counts add up to the cached total.
     */
    method Report() returns (counts: Dict<int>)
      ensures UniqueKeys(counts) && Keys(counts) <= Names
      ensures forall c :: Get(counts, Name(c)) == Count(multiset(Flatten(entries)), c)
      ensures Sum(counts) == |Flatten(entries)|
    {
      counts := [];
      for i := 0 to |entries|
        invariant Tallies(counts, multiset(Flatten(entries[..i])))
        invariant Sum(counts) == |Flatten(entries[..i])|
      {
        counts := CountInto(counts, entries[i].1, multiset(Flatten(entries[..i])));
        FlattenSnoc(entries, i);
      }
      assert entries[..|entries|] == entries;
    }
  }

  /** The inner loop of `pvinfo_diff_report`: one more count for each category of `diffs`. */
  method CountInto(counts0: Dict<int>, diffs: seq<PVInfoDiff>, ghost seen: multiset<PVInfoDiff>) returns (counts: Dict<int>)
    requires Tallies(counts0, seen)
    ensures Tallies(counts, seen + multiset(diffs))
    ensures Sum(counts) == Sum(counts0) + |diffs|
  {
    counts := counts0;
    ghost var now := seen;
    for j := 0 to |diffs|
      invariant now == seen + multiset(diffs[..j])
      invariant Tallies(counts, now)
      invariant Sum(counts) == Sum(counts0) + j
    {
      PrefixMultiset(diffs, j);
      Increment(counts, diffs[j], now);
      counts := Bump(counts, diffs[j]);
      now := now + multiset{diffs[j]};
    }
    PrefixMultiset(diffs, |diffs|);
  }

  lemma PrefixMultiset(xs: seq<PVInfoDiff>, j: nat)
    requires j <= |xs|
    ensures j < |xs| ==> multiset(xs[..j + 1]) == multiset(xs[..j]) + multiset{xs[j]}
    ensures j == |xs| ==> xs[..j] == xs
  {
    if j < |xs| { assert xs[..j + 1] == xs[..j] + [xs[j]]; }
  }

  /** `counts` holds, under each category's name, how often `seen` holds it, and nothing else. */
  predicate Tallies(counts: Dict<int>, seen: multiset<PVInfoDiff>) {
    UniqueKeys(counts) && Keys(counts) <= Names && forall c :: Get(counts, Name(c)) == Count(seen, c)
  }

  /** How often `c` occurs, absent when never. */
  function Count(m: multiset<PVInfoDiff>, c: PVInfoDiff): Option<int> {
    if c in m then Some(m[c]) else None
  }

  /** `counts[c.name] += 1` on a `defaultdict(int)`. */
  function Bump(counts: Dict<int>, c: PVInfoDiff): Dict<int> {
    Assign(counts, Name(c), GetOr(counts, Name(c), 0) + 1)
  }

  /** Counting one more category keeps the counts in step with what was seen. */
  lemma Increment(counts: Dict<int>, c: PVInfoDiff, seen: multiset<PVInfoDiff>)
    requires Tallies(counts, seen)
    ensures Tallies(Bump(counts, c), seen + multiset{c})
    ensures Sum(Bump(counts, c)) == Sum(counts) + 1
  {
    var v := GetOr(counts, Name(c), 0) + 1;
    AssignUnique(counts, Name(c), v);
    AssignKeys(counts, Name(c), v);
    SumAssign(counts, Name(c), v);
    IncrementGet(counts, c, seen);
  }

  /** The incremented count is one more, every other count stays. */
  lemma IncrementGet(counts: Dict<int>, c: PVInfoDiff, seen: multiset<PVInfoDiff>)
    requires forall c' :: Get(counts, Name(c')) == Count(seen, c')
    ensures forall c' :: Get(Bump(counts, c), Name(c')) == Count(seen + multiset{c}, c')
  {
    forall c' ensures Get(Bump(counts, c), Name(c')) == Count(seen + multiset{c}, c') {
      if c' == c {
        IncrementSame(counts, c, seen);
      } else {
        IncrementOther(counts, c, c', seen);
      }
    }
  }

  lemma IncrementSame(counts: Dict<int>, c: PVInfoDiff, seen: multiset<PVInfoDiff>)
    requires Get(counts, Name(c)) == Count(seen, c)
    ensures Get(Bump(counts, c), Name(c)) == Count(seen + multiset{c}, c)
  {
    var v := GetOr(counts, Name(c), 0);
    assert v == seen[c];
    assert Get(Bump(counts, c), Name(c)) == Some(v + 1);
    assert (seen + multiset{c})[c] == seen[c] + 1;
  }

  lemma IncrementOther(counts: Dict<int>, c: PVInfoDiff, c': PVInfoDiff, seen: multiset<PVInfoDiff>)
    requires c' != c && Get(counts, Name(c')) == Count(seen, c')
    ensures Get(Bump(counts, c), Name(c')) == Count(seen + multiset{c}, c')
  {
    NameInjective(c, c');
    var k, k' := Name(c), Name(c');
    var d := Assign(counts, k, GetOr(counts, k, 0) + 1);
    assert Get(d, k') == Get(counts, k');
    assert (seen + multiset{c})[c'] == seen[c'];
  }

  /** The cached categories of the first `i + 1` PVs are those of the first `i`, then the next. */
  lemma FlattenSnoc(d: Dict<seq<PVInfoDiff>>, i: nat)
    requires i < |d|
    ensures Flatten(d[..i + 1]) == Flatten(d[..i]) + d[i].1
  {
    FlattenAppend(d[..i], [d[i]]);
    assert d[..i + 1] == d[..i] + [d[i]];
    assert Flatten([d[i]]) == d[i].1 + Flatten([]);
  }

  lemma {:induction false} FlattenAppend(a: Dict<seq<PVInfoDiff>>, b: Dict<seq<PVInfoDiff>>)
    ensures Flatten(a + b) == Flatten(a) + Flatten(b)
  {
    if a != [] {
      FlattenAppend(a[1..], b);
      assert (a + b)[1..] == a[1..] + b;
    } else {
      assert a + b == b;
    }
  }

  /** Caching categories for a PV adds exactly those categories to the cache's contents. */
  lemma {:induction false} RecordedFlatten(d: Dict<seq<PVInfoDiff>>, pvname: string, cs: seq<PVInfoDiff>)
    ensures multiset(Flatten(Recorded(d, pvname, cs))) == multiset(Flatten(d)) + multiset(cs)
  {
    if cs != [] && d != [] {
      if d[0].0 == pvname {
        assert Recorded(d, pvname, cs) == [(pvname, d[0].1 + cs)] + d[1..];
        assert Recorded(d, pvname, cs)[1..] == d[1..];
      } else {
        RecordedFlatten(d[1..], pvname, cs);
        assert Recorded(d, pvname, cs) == [d[0]] + Recorded(d[1..], pvname, cs);
        assert Recorded(d, pvname, cs)[1..] == Recorded(d[1..], pvname, cs);
      }
    }
  }

  /** Assigning twice to one key is assigning the second value. */
  lemma {:induction false} AssignTwice<V>(d: Dict<V>, k: string, v: V, w: V)
    ensures Assign(Assign(d, k, v), k, w) == Assign(d, k, w)
  {
    if d != [] && d[0].0 != k {
      AssignTwice(d[1..], k, v, w);
      assert Assign(d, k, v)[1..] == Assign(d[1..], k, v);
    }
  }

  /** Caching one more category continues the PV's list. */
  lemma RecordedMore(d: Dict<seq<PVInfoDiff>>, pvname: string, cs: seq<PVInfoDiff>, c: PVInfoDiff)
    ensures Recorded(Recorded(d, pvname, cs), pvname, [c]) == Recorded(d, pvname, cs + [c])
  {
    if cs != [] {
      var g := GetOr(d, pvname, []);
      var a := Assign(d, pvname, g + cs);
      assert Get(a, pvname) == Some(g + cs);
      assert GetOr(a, pvname, []) == g + cs;
      assert (g + cs) + [c] == g + (cs + [c]);
      AssignTwice(d, pvname, g + cs, g + (cs + [c]));
    } else {
      assert cs + [c] == [c];
    }
  }

  /** The sentences from position `i` on: the one at `i`, then the rest. */
  lemma DescribeAt(ds: seq<Diff>, i: nat, pvname: string, desc1: string, desc2: string)
    requires i < |ds|
    ensures DescribeOne(ds[i], pvname, desc1, desc2).Err? ==>
      DescribeAll(ds[i..], pvname, desc1, desc2) == Err(DescribeOne(ds[i], pvname, desc1, desc2).error) &&
      Categories(ds[i..], pvname, desc1, desc2) == []
    ensures DescribeOne(ds[i], pvname, desc1, desc2).Ok? ==>
      DescribeAll(ds[i..], pvname, desc1, desc2) ==
        Before([DescribeOne(ds[i], pvname, desc1, desc2).value.1], DescribeAll(ds[i + 1..], pvname, desc1, desc2)) &&
      Categories(ds[i..], pvname, desc1, desc2) ==
        [DescribeOne(ds[i], pvname, desc1, desc2).value.0] + Categories(ds[i + 1..], pvname, desc1, desc2)
  {
    assert ds[i..][0] == ds[i] && ds[i..][1..] == ds[i + 1..];
  }

  /** Sentences so far, followed by those still to come. */
  function Before(done: seq<Text>, rest: Result<seq<Text>, PyExc>): Result<seq<Text>, PyExc> {
    if rest.Err? then rest else Ok(done + rest.value)
  }

  lemma BeforeBefore(a: seq<Text>, b: seq<Text>, rest: Result<seq<Text>, PyExc>)
    ensures Before(a, Before(b, rest)) == Before(a + b, rest)
  {
    if rest.Ok? { assert a + (b + rest.value) == (a + b) + rest.value; }
  }

  /**
   * `interpret_pvinfo_differences(diff, pvname, desc1, desc2)`: describes the differences
   * in turn, caching each one's category for the PV, and returns the sentences.
   */
  method InterpretPvinfoDifferences(cache: DiffCache, ds: seq<Diff>, pvname: string, desc1: string, desc2: string)
    returns (r: Result<Text, PyExc>)
    requires cache.Valid()
    modifies cache
    ensures cache.Valid()
    ensures r == Interpret(ds, pvname, desc1, desc2)
    ensures cache.entries == Recorded(old(cache.entries), pvname, Categories(ds, pvname, desc1, desc2))
  {
    if ds == [] {
      return Ok([Lit("No differences.")]);
    }
    var descs := DescribeEach(cache, ds, pvname, desc1, desc2);
    if descs.Err? {
      return Err(descs.error);
    }
    if |descs.value| == 1 {
      return Ok(descs.value[0]);
    }
    return Ok(JoinText(". ", descs.value));
  }

  /** The loop of `interpret_pvinfo_differences`: one sentence and one cached category each. */
  method DescribeEach(cache: DiffCache, ds: seq<Diff>, pvname: string, desc1: string, desc2: string)
    returns (r: Result<seq<Text>, PyExc>)
    requires cache.Valid()
    modifies cache
    ensures cache.Valid()
    ensures r == DescribeAll(ds, pvname, desc1, desc2)
    ensures cache.entries == Recorded(old(cache.entries), pvname, Categories(ds, pvname, desc1, desc2))
  {
    ghost var start := cache.entries;
    var descs: seq<Text> := [];
    ghost var cats: seq<PVInfoDiff> := [];
    assert ds[0..] == ds;
    BeforeNothing(DescribeAll(ds, pvname, desc1, desc2));
    for i := 0 to |ds|
      invariant cache.Valid()
      invariant DescribeAll(ds, pvname, desc1, desc2) == Before(descs, DescribeAll(ds[i..], pvname, desc1, desc2))
      invariant Categories(ds, pvname, desc1, desc2) == cats + Categories(ds[i..], pvname, desc1, desc2)
      invariant cache.entries == Recorded(start, pvname, cats)
    {
      var one := DescribeOne(ds[i], pvname, desc1, desc2);
      DescribeAt(ds, i, pvname, desc1, desc2);
      if one.Err? {
        assert cats + [] == cats;
        return Err(one.error);
      }
      cache.CacheDiff(pvname, one.value.0);
      RecordedMore(start, pvname, cats, one.value.0);
      BeforeBefore(descs, [one.value.1], DescribeAll(ds[i + 1..], pvname, desc1, desc2));
      AppendAssoc(cats, one.value.0, Categories(ds[i + 1..], pvname, desc1, desc2));
      cats := cats + [one.value.0];
      descs := descs + [one.value.1];
    }
    assert ds[|ds|..] == [];
    assert descs + [] == descs && cats + [] == cats;
    return Ok(descs);
  }

  lemma BeforeNothing(rest: Result<seq<Text>, PyExc>)
    ensures Before([], rest) == rest
  {
    if rest.Ok? { assert [] + rest.value == rest.value; }
  }

  lemma AppendAssoc(a: seq<PVInfoDiff>, c: PVInfoDiff, b: seq<PVInfoDiff>)
    ensures a + ([c] + b) == (a + [c]) + b
  {
  }

  /**
   * The categories cached are one per difference, in order, up to the first difference
   * that cannot be described; that one raises and nothing after it is looked at.
   */
  lemma {:induction false} CategoriesCached(ds: seq<Diff>, pvname: string, desc1: string, desc2: string)
    ensures |Categories(ds, pvname, desc1, desc2)| <= |ds|
    ensures forall i :: 0 <= i < |Categories(ds, pvname, desc1, desc2)| ==>
      DescribeOne(ds[i], pvname, desc1, desc2).Ok? &&
      Categories(ds, pvname, desc1, desc2)[i] == DescribeOne(ds[i], pvname, desc1, desc2).value.0
    ensures DescribeAll(ds, pvname, desc1, desc2).Ok? <==> |Categories(ds, pvname, desc1, desc2)| == |ds|
    ensures |Categories(ds, pvname, desc1, desc2)| < |ds| ==>
      var n := |Categories(ds, pvname, desc1, desc2)|;
      DescribeOne(ds[n], pvname, desc1, desc2).Err? &&
      DescribeAll(ds, pvname, desc1, desc2) == Err(DescribeOne(ds[n], pvname, desc1, desc2).error)
  {
    if ds != [] {
      CategoriesCached(ds[1..], pvname, desc1, desc2);
      var cs := Categories(ds, pvname, desc1, desc2);
      if DescribeOne(ds[0], pvname, desc1, desc2).Ok? {
        forall i | 0 < i < |cs| ensures cs[i] == Categories(ds[1..], pvname, desc1, desc2)[i - 1] && ds[i] == ds[1..][i - 1] {
        }
        var n := |cs|;
        if n < |ds| {
          assert ds[n] == ds[1..][n - 1];
        }
      }
    }
  }

  /** Every description opens with a piece other than the "No differences." sentence. */
  lemma DescriptionNotEmptyVerdict(d: Diff, pvname: string, desc1: string, desc2: string)
    requires DescribeOne(d, pvname, desc1, desc2).Ok?
    ensures DescribeOne(d, pvname, desc1, desc2).value.1 != [Lit("No differences.")]
    ensures |DescribeOne(d, pvname, desc1, desc2).value.1| >= 1
  {
    var t := DescribeOne(d, pvname, desc1, desc2).value.1;
    if |t| == 1 && t[0].Lit? && t[0].text != "Comparing two unrelated PVs" {
      assert |t[0].text| > |"No differences."|;
    }
  }

  /** "No differences." is returned exactly when there are none. */
  lemma InterpretNoDifferences(ds: seq<Diff>, pvname: string, desc1: string, desc2: string)
    ensures Interpret(ds, pvname, desc1, desc2) == Ok([Lit("No differences.")]) <==> ds == []
  {
    var texts := DescribeAll(ds, pvname, desc1, desc2);
    if ds != [] && texts.Ok? {
      CategoriesCached(ds, pvname, desc1, desc2);
      DescribeAllTexts(ds, pvname, desc1, desc2);
      DescriptionNotEmptyVerdict(ds[0], pvname, desc1, desc2);
      if |texts.value| > 1 {
        var j := JoinText(". ", texts.value);
        assert j == texts.value[0] + [Lit(". ")] + JoinText(". ", texts.value[1..]);
      }
    }
  }

  /** The sentences are the descriptions of the differences, one each, in order. */
  lemma {:induction false} DescribeAllTexts(ds: seq<Diff>, pvname: string, desc1: string, desc2: string)
    requires DescribeAll(ds, pvname, desc1, desc2).Ok?
    ensures |DescribeAll(ds, pvname, desc1, desc2).value| == |ds|
    ensures forall i :: 0 <= i < |ds| ==> (DescribeOne(ds[i], pvname, desc1, desc2).Ok? &&
      DescribeAll(ds, pvname, desc1, desc2).value[i] == DescribeOne(ds[i], pvname, desc1, desc2).value.1)
  {
    if ds != [] {
      DescribeAllTexts(ds[1..], pvname, desc1, desc2);
      forall i | 0 < i < |ds| ensures ds[i] == ds[1..][i - 1] {
      }
    }
  }

  /**
   * After describing, the cache holds what it held before plus one category per
   * difference described; the report then counts them.
   */
  lemma InterpretCaches(d: Dict<seq<PVInfoDiff>>, ds: seq<Diff>, pvname: string, desc1: string, desc2: string)
    requires Interpret(ds, pvname, desc1, desc2).Ok?
    ensures multiset(Flatten(Recorded(d, pvname, Categories(ds, pvname, desc1, desc2)))) ==
      multiset(Flatten(d)) + multiset(Categories(ds, pvname, desc1, desc2))
    ensures |Categories(ds, pvname, desc1, desc2)| == |ds|
  {
    RecordedFlatten(d, pvname, Categories(ds, pvname, desc1, desc2));
    CategoriesCached(ds, pvname, desc1, desc2);
  }
}
