/**
 * The comparison tool's missing-PV report: the happi records that no IOC pvlist
 * accounts for, in sorted order, each with the happi items that use it.
 */
module Compare {
  import opened Wrappers
  import opened Dicts
  import opened Strings
  import opened Config

  /** The records of `pvs`, in that order, that `pvToIoc` lacks. */
  function Unaccounted(pvs: seq<string>, pvToIoc: Dict<string>): (r: seq<string>)
    ensures forall pv :: pv in r <==> pv in pvs && pv !in Keys(pvToIoc)
    ensures StrictlySorted(pvs) ==> StrictlySorted(r)
  {
    if pvs == [] then []
    else
      var rest := Unaccounted(pvs[1..], pvToIoc);
      if pvs[0] in Keys(pvToIoc) then rest
      else
        assert StrictlySorted(pvs) ==> StrictlySorted([pvs[0]] + rest) by {
          if StrictlySorted(pvs) {
            SortedHead(pvs);
            assert forall j :: 0 <= j < |rest| ==> rest[j] in pvs[1..];
          }
        }
        [pvs[0]] + rest
  }

  /** The head of a strictly sorted list is below everything after it. */
  lemma SortedHead(xs: seq<string>)
    requires StrictlySorted(xs) && xs != []
    ensures forall y :: y in xs[1..] ==> Less(xs[0], y)
  {
    forall y | y in xs[1..] ensures Less(xs[0], y) {
      var j :| 0 <= j < |xs[1..]| && xs[1..][j] == y;
      assert xs[j + 1] == y;
    }
  }

  /**
   * `get_missing_pvs`: the happi records with no IOC, in ascending order, each mapped to
   * its happi item names.
   */
  function MissingPvs(info: HappiInfo, pvToIoc: Dict<string>): (r: Dict<seq<string>>)
    ensures forall pv :: pv in Keys(r) <==> pv in Keys(info.recordToMetadataKeys) && pv !in Keys(pvToIoc)
    ensures StrictlySorted(KeyList(r))
    ensures forall i :: 0 <= i < |r| ==> Get(info.recordToMetadataKeys, r[i].0) == Some(r[i].1)
  {
    var happi := info.recordToMetadataKeys;
    var pvs := Unaccounted(SortedUnique(PvList(info)), pvToIoc);
    var r := seq(|pvs|, i requires 0 <= i < |pvs| => (pvs[i], GetOr(happi, pvs[i], [])));
    assert KeyList(r) == pvs;
    assert forall pv :: pv in PvList(info) <==> pv in Keys(happi) by {
      forall pv ensures pv in PvList(info) <==> pv in Keys(happi) {
        assert PvList(info) == KeyList(happi);
      }
    }
    r
  }

  /** No record appears twice in the report. */
  lemma MissingPvsOnce(info: HappiInfo, pvToIoc: Dict<string>)
    ensures UniqueKeys(MissingPvs(info, pvToIoc))
  {
    var r := MissingPvs(info, pvToIoc);
    forall i, j | 0 <= i < j < |r| ensures r[i].0 != r[j].0 {
      assert KeyList(r)[i] == r[i].0 && KeyList(r)[j] == r[j].0;
      SortedDistinct(KeyList(r), i, j);
    }
  }

  /**
   * `missing_pvs_report`: one printed line per record, in the report's order. A record name
   * without a space reads back as the text before the line's first space, and the rest of
   * the line is its happi items joined by ", ".
   */
  function ReportLines(missing: Dict<seq<string>>): (r: seq<string>)
    ensures |r| == |missing|
    ensures forall i :: 0 <= i < |r| && ' ' !in missing[i].0 ==>
      SplitOnce(r[i], " ") == [missing[i].0, Join(", ", missing[i].1)]
  {
    var r := seq(|missing|, i requires 0 <= i < |missing| => missing[i].0 + " " + Join(", ", missing[i].1));
    forall i | 0 <= i < |r| && ' ' !in missing[i].0
      ensures SplitOnce(r[i], " ") == [missing[i].0, Join(", ", missing[i].1)]
    {
      SplitOnceAt(missing[i].0, Join(", ", missing[i].1), ' ');
    }
    r
  }

  /** The record a report line names: the text before its first space. */
  function LineRecord(line: string): (r: string)
    ensures Contains(line, " ") ==> ' ' !in r && StartsWith(line, r + " ")
  {
    var parts := SplitOnce(line, " ");
    ContainsChar(parts[0], ' ');
    assert |parts| == 2 ==> line == (parts[0] + " ") + parts[1];
    parts[0]
  }

  /** The records a report names, line by line. */
  function ReportRecords(lines: seq<string>): (r: seq<string>)
    ensures |r| == |lines|
  {
    seq(|lines|, i requires 0 <= i < |lines| => LineRecord(lines[i]))
  }

  /**
   * When record names hold no space, the report names exactly the happi records that no
   * IOC lists, one per line, in ascending order.
   */
  lemma MissingReport(info: HappiInfo, pvToIoc: Dict<string>)
    requires forall pv :: pv in Keys(info.recordToMetadataKeys) ==> ' ' !in pv
    ensures StrictlySorted(ReportRecords(ReportLines(MissingPvs(info, pvToIoc))))
    ensures forall pv :: pv in ReportRecords(ReportLines(MissingPvs(info, pvToIoc))) <==>
      pv in Keys(info.recordToMetadataKeys) && pv !in Keys(pvToIoc)
  {
    var missing := MissingPvs(info, pvToIoc);
    var lines := ReportLines(missing);
    var names := ReportRecords(lines);
    forall i | 0 <= i < |lines| ensures names[i] == KeyList(missing)[i] {
      assert missing[i].0 in Keys(missing);
      assert names[i] == LineRecord(lines[i]);
    }
    assert names == KeyList(missing);
  }

  /** When record names hold no space, each report line ends in its record's happi items. */
  lemma MissingReportItems(info: HappiInfo, pvToIoc: Dict<string>, i: nat)
    requires forall pv :: pv in Keys(info.recordToMetadataKeys) ==> ' ' !in pv
    requires i < |ReportLines(MissingPvs(info, pvToIoc))|
    ensures var line := ReportLines(MissingPvs(info, pvToIoc))[i];
      line == LineRecord(line) + " " + Join(", ", GetOr(info.recordToMetadataKeys, LineRecord(line), []))
  {
    var missing := MissingPvs(info, pvToIoc);
    var line := ReportLines(missing)[i];
    assert missing[i].0 in Keys(missing);
    assert LineRecord(line) == missing[i].0;
    assert Get(info.recordToMetadataKeys, missing[i].0) == Some(missing[i].1);
  }
}
