/**
 * The older structure comparison of the gateway test suite: every key of the IOC's
 * structure is looked up in the gateway's, and each value that differs (the channel id
 * aside) gives one line "Element 'k' : GW has '…', IOC has '…'".
 */
module LegacyCompare {
  import opened Wrappers
  import opened Dicts
  import opened Values
  import Strings
  import Differences

  /**
   * The line for one differing key: it shows the gateway's value, then the IOC's, and no
   * other value, and it is never blank. `LineMentions` gives the names it spells out.
   */
  function Line(key: string, gatewayValue: Value, iocValue: Value): (r: Text)
    ensures |r| == 5 && r[1] == Shown(gatewayValue) && r[3] == Shown(iocValue)
    ensures forall i :: 0 <= i < |r| && !r[i].Lit? ==> i == 1 || i == 3
    ensures !Blank(r)
  {
    var t := [Lit("Element '" + key + "' : " + "GW" + " has '"), Shown(gatewayValue),
              Lit("', " + "IOC" + " has '"), Shown(iocValue), Lit("'")];
    NotBlankAt(t, 4);
    t
  }

  /**
   * The line names the key and "GW" before the gateway's value, and "IOC" before the
   * IOC's.
   */
  lemma LineMentions(key: string, gatewayValue: Value, iocValue: Value)
    ensures var r := Line(key, gatewayValue, iocValue);
      Differences.SaysAt(r, 0, key) && Differences.SaysAt(r, 0, "GW") && Differences.SaysAt(r, 2, "IOC")
  {
    var head := "Element '" + key + "' : " + "GW" + " has '";
    Strings.ContainsInfix("Element '", key, "' : " + "GW" + " has '");
    assert head == "Element '" + key + ("' : " + "GW" + " has '");
    Strings.ContainsInfix("Element '" + key + "' : ", "GW", " has '");
    Strings.ContainsInfix("', ", "IOC", " has '");
  }

  /** One turn of the loop: look the IOC entry up in the gateway structure. */
  function Step(acc: Result<seq<Text>, PyExc>, gw: Struct, entry: (string, Value)): (r: Result<seq<Text>, PyExc>)
    ensures acc.Err? ==> r == acc
    ensures acc.Ok? && entry.0 !in Keys(gw) ==> r == Err(KeyError(entry.0))
  {
    if acc.Err? then acc
    else
      match Get(gw, entry.0)
      case None => Err(KeyError(entry.0))
      case Some(gatewayValue) =>
        if entry.0 != "chid" && !PyEq(entry.1, gatewayValue)
        then Ok(acc.value + [Line(entry.0, gatewayValue, entry.1)])
        else acc
  }

  /** The lines collected over the IOC entries, or the KeyError that stops the loop. */
  function Lines(gw: Struct, ioc: Struct): Result<seq<Text>, PyExc>
  {
    if ioc == [] then Ok([])
    else Step(Lines(gw, ioc[..|ioc| - 1]), gw, ioc[|ioc| - 1])
  }

  /** `compare_structures(gw_struct, ioc_struct)`: the lines joined by "\n\t". */
  function Comparison(gw: Struct, ioc: Struct): Result<Text, PyExc> {
    var ls := Lines(gw, ioc);
    if ls.Err? then Err(ls.error) else Ok(JoinText("\n\t", ls.value))
  }

  /** `compare_structures` as the loop it is, stopping at the first key the gateway lacks. */
  method CompareStructures(gw: Struct, ioc: Struct) returns (r: Result<Text, PyExc>)
    ensures r == Comparison(gw, ioc)
  {
    var differences: seq<Text> := [];
    for i := 0 to |ioc|
      invariant Lines(gw, ioc[..i]) == Ok(differences)
    {
      var key := ioc[i].0;
      var iocValue := ioc[i].1;
      assert ioc[..i + 1][..i] == ioc[..i];
      var found := Get(gw, key);
      if found.None? {
        ErrorStays(gw, ioc, i + 1);
        return Err(KeyError(key));
      }
      var gatewayValue := found.value;
      if key != "chid" && !PyEq(iocValue, gatewayValue) {
        differences := differences + [Line(key, gatewayValue, iocValue)];
      }
    }
    assert ioc[..|ioc|] == ioc;
    return Ok(JoinText("\n\t", differences));
  }

  /** Once a prefix of the entries has raised, the whole loop raises the same. */
  lemma {:induction false} ErrorStays(gw: Struct, ioc: Struct, i: nat)
    requires i <= |ioc| && Lines(gw, ioc[..i]).Err?
    ensures Lines(gw, ioc) == Lines(gw, ioc[..i])
    decreases |ioc|
  {
    if i < |ioc| {
      var init := ioc[..|ioc| - 1];
      assert init[..i] == ioc[..i];
      ErrorStays(gw, init, i);
    } else {
      assert ioc[..i] == ioc;
    }
  }

  /** Entry `i` of the IOC structure has no counterpart in the gateway's. */
  predicate Missing(gw: Struct, ioc: Struct, i: int)
    requires 0 <= i < |ioc|
  {
    ioc[i].0 !in Keys(gw)
  }

  /** Entry `i` of the IOC structure is reported: not the channel id, and unequal. */
  predicate Reported(gw: Struct, ioc: Struct, i: int)
    requires 0 <= i < |ioc|
  {
    Get(gw, ioc[i].0).Some? && ioc[i].0 != "chid" && !PyEq(ioc[i].1, Get(gw, ioc[i].0).value)
  }

  /** The line entry `i` gives when it is reported. */
  function LineAt(gw: Struct, ioc: Struct, i: int): Text
    requires 0 <= i < |ioc| && Get(gw, ioc[i].0).Some?
  {
    Line(ioc[i].0, Get(gw, ioc[i].0).value, ioc[i].1)
  }

  /** The last entry's turn of the loop, in terms of `Missing` and `Reported`. */
  lemma LinesLast(gw: Struct, ioc: Struct)
    requires ioc != []
    ensures var n := |ioc| - 1; var before := Lines(gw, ioc[..n]);
      Lines(gw, ioc) ==
        if before.Err? then before
        else if Missing(gw, ioc, n) then Err(KeyError(ioc[n].0))
        else if Reported(gw, ioc, n) then Ok(before.value + [LineAt(gw, ioc, n)])
        else before
  {
  }

  /** Some key of the IOC structure is not in the gateway's. */
  predicate AnyMissing(gw: Struct, ioc: Struct) {
    exists i :: 0 <= i < |ioc| && Missing(gw, ioc, i)
  }

  lemma AnyMissingLast(gw: Struct, ioc: Struct)
    requires ioc != []
    ensures AnyMissing(gw, ioc) <==> AnyMissing(gw, ioc[..|ioc| - 1]) || Missing(gw, ioc, |ioc| - 1)
  {
    var n := |ioc| - 1;
    if AnyMissing(gw, ioc[..n]) {
      var i :| 0 <= i < n && Missing(gw, ioc[..n], i);
      PrefixAgrees(gw, ioc, i);
    }
    if AnyMissing(gw, ioc) {
      var i :| 0 <= i < |ioc| && Missing(gw, ioc, i);
      if i < n {
        PrefixAgrees(gw, ioc, i);
      }
    }
  }

  /** The loop raises exactly when some key of the IOC structure is not in the gateway's. */
  lemma {:induction false} LinesRaise(gw: Struct, ioc: Struct)
    ensures Lines(gw, ioc).Err? <==> AnyMissing(gw, ioc)
    decreases |ioc|
  {
    if ioc != [] {
      LinesRaise(gw, ioc[..|ioc| - 1]);
      LinesLast(gw, ioc);
      AnyMissingLast(gw, ioc);
    }
  }

  /**
   * The KeyError names the first key in IOC order that the gateway lacks, even when that
   * key is the channel id.
   */
  lemma {:induction false} FirstMissingRaises(gw: Struct, ioc: Struct, i: int)
    requires 0 <= i < |ioc| && Missing(gw, ioc, i)
    requires forall j :: 0 <= j < i ==> !Missing(gw, ioc, j)
    ensures Lines(gw, ioc) == Err(KeyError(ioc[i].0))
    decreases |ioc|
  {
    var n := |ioc| - 1;
    var init := ioc[..n];
    LinesLast(gw, ioc);
    if i < n {
      PrefixAgrees(gw, ioc, i);
      forall j | 0 <= j < i ensures !Missing(gw, init, j) {
        PrefixAgrees(gw, ioc, j);
      }
      FirstMissingRaises(gw, init, i);
    } else {
      LinesRaise(gw, init);
      if AnyMissing(gw, init) {
        var j :| 0 <= j < n && Missing(gw, init, j);
        PrefixAgrees(gw, ioc, j);
      }
    }
  }

  /** Entries before the last are looked at by the shorter loop as by the whole. */
  lemma PrefixAgrees(gw: Struct, ioc: Struct, i: int)
    requires 0 <= i < |ioc| - 1
    ensures Missing(gw, ioc[..|ioc| - 1], i) == Missing(gw, ioc, i)
    ensures Reported(gw, ioc[..|ioc| - 1], i) == Reported(gw, ioc, i)
    ensures Reported(gw, ioc, i) ==> LineAt(gw, ioc[..|ioc| - 1], i) == LineAt(gw, ioc, i)
  {
    assert ioc[..|ioc| - 1][i] == ioc[i];
  }

  /** `line` is the line of some reported entry. */
  predicate FromReported(gw: Struct, ioc: Struct, line: Text) {
    exists i :: 0 <= i < |ioc| && Reported(gw, ioc, i) && line == LineAt(gw, ioc, i)
  }

  /** Each line of a finished loop comes from a reported entry. */
  lemma {:induction false} LinesFromReported(gw: Struct, ioc: Struct, ls: seq<Text>, j: int)
    requires Lines(gw, ioc) == Ok(ls) && 0 <= j < |ls|
    ensures exists i :: 0 <= i < |ioc| && Reported(gw, ioc, i) && ls[j] == LineAt(gw, ioc, i)
    decreases |ioc|
  {
    var n := |ioc| - 1;
    var init := ioc[..n];
    LinesLast(gw, ioc);
    var before := Lines(gw, init).value;
    if j < |before| {
      LinesFromReported(gw, init, before, j);
      var i :| 0 <= i < n && Reported(gw, init, i) && before[j] == LineAt(gw, init, i);
      PrefixAgrees(gw, ioc, i);
      assert ls[j] == before[j];
    } else {
      assert Reported(gw, ioc, n) && ls[j] == LineAt(gw, ioc, n);
    }
  }

  /** Each reported entry has its line in a finished loop. */
  lemma {:induction false} ReportedHasLine(gw: Struct, ioc: Struct, ls: seq<Text>, i: int)
    requires Lines(gw, ioc) == Ok(ls) && 0 <= i < |ioc| && Reported(gw, ioc, i)
    ensures exists j :: 0 <= j < |ls| && ls[j] == LineAt(gw, ioc, i)
    decreases |ioc|
  {
    var n := |ioc| - 1;
    var init := ioc[..n];
    LinesLast(gw, ioc);
    var before := Lines(gw, init).value;
    if i < n {
      PrefixAgrees(gw, ioc, i);
      ReportedHasLine(gw, init, before, i);
      var j :| 0 <= j < |before| && before[j] == LineAt(gw, init, i);
      assert ls[j] == before[j];
      assert 0 <= j < |ls| && ls[j] == LineAt(gw, ioc, i);
    } else {
      var j := |ls| - 1;
      assert ls[j] == LineAt(gw, ioc, i);
    }
  }

  /**
   * When the loop runs to its end there is one line per reported entry: line `j` comes
   * from a reported entry, and each reported entry has its line.
   */
  lemma LinesReport(gw: Struct, ioc: Struct, ls: seq<Text>)
    requires Lines(gw, ioc) == Ok(ls)
    ensures forall j :: 0 <= j < |ls| ==> FromReported(gw, ioc, ls[j])
    ensures forall i :: 0 <= i < |ioc| && Reported(gw, ioc, i) ==>
      exists j :: 0 <= j < |ls| && ls[j] == LineAt(gw, ioc, i)
  {
    forall j | 0 <= j < |ls| ensures FromReported(gw, ioc, ls[j]) {
      LinesFromReported(gw, ioc, ls, j);
    }
    forall i | 0 <= i < |ioc| && Reported(gw, ioc, i)
      ensures exists j :: 0 <= j < |ls| && ls[j] == LineAt(gw, ioc, i)
    {
      ReportedHasLine(gw, ioc, ls, i);
    }
  }

  /** A joined list of lines renders empty only when there are none. */
  lemma JoinedLinesBlank(ls: seq<Text>)
    requires forall j :: 0 <= j < |ls| ==> |ls[j]| == 5 && ls[j][0].Lit? && |ls[j][0].text| > 0
    ensures Blank(JoinText("\n\t", ls)) <==> ls == []
  {
    if ls != [] {
      var t := JoinText("\n\t", ls);
      if |ls| > 1 {
        assert t == ls[0] + [Lit("\n\t")] + JoinText("\n\t", ls[1..]);
      }
      assert t[0] == ls[0][0];
      assert !RendersEmpty(t[0]);
    }
  }

  /**
   * The comparison is empty exactly when no entry is reported; keys only the gateway has,
   * and any difference in the channel id, leave it empty.
   */
  lemma ComparisonEmpty(gw: Struct, ioc: Struct)
    requires Comparison(gw, ioc).Ok?
    ensures Blank(Comparison(gw, ioc).value) <==> forall i :: 0 <= i < |ioc| ==> !Reported(gw, ioc, i)
  {
    var ls: seq<Text> := Lines(gw, ioc).value;
    LinesReport(gw, ioc, ls);
    forall j | 0 <= j < |ls| ensures |ls[j]| == 5 && ls[j][0].Lit? && |ls[j][0].text| > 0 {
      var i :| 0 <= i < |ioc| && Reported(gw, ioc, i) && ls[j] == LineAt(gw, ioc, i);
    }
    JoinedLinesBlank(ls);
    if ls != [] {
      var i :| 0 <= i < |ioc| && Reported(gw, ioc, i) && ls[0] == LineAt(gw, ioc, i);
    }
  }

  /** Only the gateway's values under the IOC's keys matter: its other keys are ignored. */
  lemma {:induction false} GatewayExtrasIgnored(gw1: Struct, gw2: Struct, ioc: Struct)
    requires forall i :: 0 <= i < |ioc| ==> Get(gw1, ioc[i].0) == Get(gw2, ioc[i].0)
    ensures Lines(gw1, ioc) == Lines(gw2, ioc)
    decreases |ioc|
  {
    if ioc != [] {
      var init := ioc[..|ioc| - 1];
      assert forall i :: 0 <= i < |init| ==> init[i] == ioc[i];
      GatewayExtrasIgnored(gw1, gw2, init);
    }
  }

  /** An entry of a dict without NaN is found, and equal, in that same dict. */
  lemma SelfEntry(s: Struct, i: int)
    requires UniqueKeys(s) && 0 <= i < |s| && NanFree(s[i].1)
    ensures !Missing(s, s, i) && !Reported(s, s, i)
  {
    GetUnique(s, i);
    PyEqReflexive(s[i].1);
  }

  /** A structure without NaN compared with itself gives the empty string. */
  lemma IdenticalEmpty(s: Struct)
    requires UniqueKeys(s)
    requires forall i :: 0 <= i < |s| ==> NanFree(s[i].1)
    ensures Comparison(s, s) == Ok([])
  {
    forall i | 0 <= i < |s| ensures !Missing(s, s, i) && !Reported(s, s, i) {
      SelfEntry(s, i);
    }
    LinesRaise(s, s);
    var ls := Lines(s, s).value;
    LinesReport(s, s, ls);
    assert ls != [] ==> FromReported(s, s, ls[0]);
  }
}
