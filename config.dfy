/**
 * The site configuration tables: IOC pv lists, the PV to IOC inversion, the IOC to host
 * table read from iocmanager configuration lines, the happi PV index, and the
 * process-wide configuration object. Files are given as their lines; reading them,
 * the directory globs and the iocmanager regular expression are not part of this model.
 */
module Config {
  import opened Wrappers
  import opened Dicts
  import opened Strings

  /** `split_rtype`: a pvlist line split into the record name and its type. */
  function SplitRType(line: string): (r: (string, string))
    ensures Contains(line, ",") ==> r.0 + "," + r.1 == line && !Contains(r.0, ",")
    ensures !Contains(line, ",") ==> r == (line, "unknown")
  {
    var parts := SplitOnce(line, ",");
    if |parts| == 2 then (parts[0], parts[1]) else (line, "unknown")
  }

  /** A record name and type written as a pvlist line split back into the two. */
  lemma SplitRTypeRoundTrip(name: string, rtype: string)
    requires !Contains(name, ",")
    ensures SplitRType(name + "," + rtype) == (name, rtype)
  {
    var line := name + "," + rtype;
    ContainsAt(line, ",", |name|);
    assert line[|name|..][..1] == ",";
    var r := SplitRType(line);
    if |r.0| < |name| {
      assert line[|r.0|] == ',' && line[|r.0|] == name[|r.0|];
      assert name[|r.0|..][..1] == [name[|r.0|]];
      ContainsAt(name, ",", |r.0|);
    } else if |r.0| > |name| {
      assert r.0[|name|] == line[|name|] == ',';
      assert r.0[|name|..][..1] == [r.0[|name|]];
      ContainsAt(r.0, ",", |name|);
    }
    assert r.0 == line[..|r.0|] == name;
  }

  /** The items of one IOC's pvlist: `dict(split_rtype(line) for line in lines)`. */
  function PvTypes(lines: seq<string>): Dict<string> {
    AssignAll([], seq(|lines|, j requires 0 <= j < |lines| => Some(SplitRType(lines[j]))))
  }

  /** A record listed again later in the file takes the later line's type. */
  lemma PvTypesLastLine(lines: seq<string>, i: nat)
    requires i < |lines|
    requires forall j :: i < j < |lines| ==> SplitRType(lines[j]).0 != SplitRType(lines[i]).0
    ensures Get(PvTypes(lines), SplitRType(lines[i]).0) == Some(SplitRType(lines[i]).1)
  {
    var kvs := seq(|lines|, j requires 0 <= j < |lines| => Some(SplitRType(lines[j])));
    AssignAllLast([], kvs, i);
  }

  /** `{pv: ioc for pv in pvs}` added to `d`, for one IOC. */
  function Fill(d: Dict<string>, pvs: seq<string>, ioc: string): (r: Dict<string>)
    ensures forall pv :: pv in pvs ==> Get(r, pv) == Some(ioc)
    ensures forall pv :: pv !in pvs ==> Get(r, pv) == Get(d, pv)
  {
    if pvs == [] then d else Assign(Fill(d, pvs[..|pvs| - 1], ioc), pvs[|pvs| - 1], ioc)
  }

  /** Whether the `i`-th IOC's pvlist names `pv`. */
  ghost predicate Lists(iocToPvs: Dict<Dict<string>>, i: int, pv: string) {
    0 <= i < |iocToPvs| && pv in Keys(iocToPvs[i].1)
  }

  /** `get_pv_to_ioc`: each PV of every IOC's pvlist, mapped to its IOC. */
  function PvToIoc(iocToPvs: Dict<Dict<string>>): Dict<string> {
    if iocToPvs == [] then []
    else
      var n := |iocToPvs| - 1;
      Fill(PvToIoc(iocToPvs[..n]), KeyList(iocToPvs[n].1), iocToPvs[n].0)
  }

  /**
   * The inversion holds exactly the PVs some IOC lists, and maps each of them to an IOC
   * that lists it.
   */
  lemma {:induction false} PvToIocFound(iocToPvs: Dict<Dict<string>>, pv: string)
    ensures pv in Keys(PvToIoc(iocToPvs)) <==> exists i :: Lists(iocToPvs, i, pv)
    ensures pv in Keys(PvToIoc(iocToPvs)) ==>
      exists i :: Lists(iocToPvs, i, pv) && Get(PvToIoc(iocToPvs), pv) == Some(iocToPvs[i].0)
  {
    if iocToPvs != [] {
      var n := |iocToPvs| - 1;
      var prefix := iocToPvs[..n];
      PvToIocFound(prefix, pv);
      if pv in KeyList(iocToPvs[n].1) {
        assert Lists(iocToPvs, n, pv);
      } else {
        assert !Lists(iocToPvs, n, pv);
        assert Get(PvToIoc(iocToPvs), pv) == Get(PvToIoc(prefix), pv);
        assert forall i :: Lists(prefix, i, pv) ==> Lists(iocToPvs, i, pv) && prefix[i] == iocToPvs[i];
        if exists i :: Lists(iocToPvs, i, pv) {
          var i :| Lists(iocToPvs, i, pv);
          assert Lists(prefix, i, pv);
        }
      }
    }
  }

  /** On a PV listed by several IOCs, the IOC iterated last wins. */
  lemma {:induction false} PvToIocLastWins(iocToPvs: Dict<Dict<string>>, i: nat, pv: string)
    requires Lists(iocToPvs, i, pv)
    requires forall j :: i < j < |iocToPvs| ==> pv !in Keys(iocToPvs[j].1)
    ensures Get(PvToIoc(iocToPvs), pv) == Some(iocToPvs[i].0)
  {
    var n := |iocToPvs| - 1;
    var prefix := iocToPvs[..n];
    if i < n {
      assert prefix[i] == iocToPvs[i];
      assert forall j :: i < j < |prefix| ==> prefix[j] == iocToPvs[j];
      PvToIocLastWins(prefix, i, pv);
      assert pv !in Keys(iocToPvs[n].1);
      assert pv !in KeyList(iocToPvs[n].1);
    } else {
      assert pv in KeyList(iocToPvs[n].1);
    }
  }

  /** The regular expression that picks an IOC name and host out of an iocmanager line. */
  type Matcher = string -> Option<(string, string)>

  /** What the matcher finds on each line once it is stripped. */
  function LineMatches(lines: seq<string>, matcher: Matcher): (r: seq<Option<(string, string)>>)
    ensures |r| == |lines|
  {
    if lines == [] then [] else LineMatches(lines[..|lines| - 1], matcher) + [matcher(Strip(lines[|lines| - 1]))]
  }

  /** The lines of all configuration files, file after file. */
  function Concat(files: seq<seq<string>>): (r: seq<string>) {
    if files == [] then [] else Concat(files[..|files| - 1]) + files[|files| - 1]
  }

  /** `get_ioc_to_host`: every matching line, in file and line order, assigns its IOC's host. */
  method IocToHost(cfgs: seq<seq<string>>, matcher: Matcher) returns (iocToHost: Dict<string>)
    ensures iocToHost == AssignAll([], LineMatches(Concat(cfgs), matcher))
  {
    iocToHost := [];
    for f := 0 to |cfgs|
      invariant iocToHost == AssignAll([], LineMatches(Concat(cfgs[..f]), matcher))
    {
      var lines := cfgs[f];
      ghost var before := Concat(cfgs[..f]);
      SliceSnoc(before, lines, -1);
      for i := 0 to |lines|
        invariant iocToHost == AssignAll([], LineMatches(before + lines[..i], matcher))
      {
        SliceSnoc(before, lines, i);
        ScanStep(before + lines[..i], lines[i], matcher);
        var line := Strip(lines[i]);
        var found := matcher(line);
        if found.Some? {
          var (iocname, hostname) := found.value;
          iocToHost := Assign(iocToHost, iocname, hostname);
        }
      }
      assert lines[..|lines|] == lines;
      assert cfgs[..f + 1][..f] == cfgs[..f];
    }
    assert cfgs[..|cfgs|] == cfgs;
  }

  lemma {:induction false} LineMatchesAt(lines: seq<string>, matcher: Matcher, j: nat)
    requires j < |lines|
    ensures LineMatches(lines, matcher)[j] == matcher(Strip(lines[j]))
  {
    if j < |lines| - 1 {
      LineMatchesAt(lines[..|lines| - 1], matcher, j);
    }
  }

  /** Sequence arithmetic for the loops, on any element type. */
  lemma SliceSnoc<T>(a: seq<T>, b: seq<T>, i: int)
    requires -1 <= i < |b|
    ensures i == -1 ==> a + b[..0] == a
    ensures 0 <= i ==> a + b[..i + 1] == (a + b[..i]) + [b[i]]
  {
  }


  /** One more line: its match, if any, is assigned last. */
  lemma ScanStep(xs: seq<string>, line: string, matcher: Matcher)
    ensures AssignAll([], LineMatches(xs + [line], matcher))
      == AssignOpt(AssignAll([], LineMatches(xs, matcher)), matcher(Strip(line)))
  {
    assert (xs + [line])[..|xs|] == xs;
    AssignAllSnoc([], LineMatches(xs, matcher), matcher(Strip(line)));
  }

  /** A later matching line for the same IOC overwrites an earlier one: the last one decides. */
  lemma IocToHostLastMatch(cfgs: seq<seq<string>>, matcher: Matcher, i: nat, ioc: string, host: string)
    requires i < |Concat(cfgs)| && matcher(Strip(Concat(cfgs)[i])) == Some((ioc, host))
    requires forall j :: i < j < |Concat(cfgs)| ==> !Assigns(matcher(Strip(Concat(cfgs)[j])), ioc)
    ensures Get(AssignAll([], LineMatches(Concat(cfgs), matcher)), ioc) == Some(host)
  {
    var kvs := LineMatches(Concat(cfgs), matcher);
    forall j | i <= j < |kvs|
      ensures kvs[j] == matcher(Strip(Concat(cfgs)[j]))
    {
      LineMatchesAt(Concat(cfgs), matcher, j);
    }
    AssignAllLast([], kvs, i);
  }

  /** An IOC no line names gets no host. */
  lemma IocToHostUnnamed(cfgs: seq<seq<string>>, matcher: Matcher, ioc: string)
    requires forall j :: 0 <= j < |Concat(cfgs)| ==> !Assigns(matcher(Strip(Concat(cfgs)[j])), ioc)
    ensures ioc !in Keys(AssignAll([], LineMatches(Concat(cfgs), matcher)))
  {
    var kvs := LineMatches(Concat(cfgs), matcher);
    forall j | 0 <= j < |kvs|
      ensures kvs[j] == matcher(Strip(Concat(cfgs)[j]))
    {
      LineMatchesAt(Concat(cfgs), matcher, j);
    }
    AssignAllUntouched([], kvs, ioc);
  }

  /** The happi plugin results: each record with the names of the happi items that use it. */
  datatype HappiInfo = HappiInfo(recordToMetadataKeys: Dict<seq<string>>)

  /** `HappiInfo.pvlist`: the records, in order. */
  function PvList(info: HappiInfo): (r: seq<string>)
    ensures |r| == |info.recordToMetadataKeys|
    ensures forall i :: 0 <= i < |r| ==> r[i] == info.recordToMetadataKeys[i].0
    ensures UniqueKeys(info.recordToMetadataKeys) ==> forall i, j :: 0 <= i < j < |r| ==> r[i] != r[j]
  {
    KeyList(info.recordToMetadataKeys)
  }

  /** `dct[name].append(pv)` on a `defaultdict(list)`. */
  function Append(d: Dict<seq<string>>, name: string, pv: string): Dict<seq<string>> {
    Assign(d, name, GetOr(d, name, []) + [pv])
  }

  /** The inner loop of `get_pvlist_by_key`: `pv` appended under each of its names. */
  function AddNames(d: Dict<seq<string>>, pv: string, names: seq<string>): Dict<seq<string>> {
    if names == [] then d else Append(AddNames(d, pv, names[..|names| - 1]), names[|names| - 1], pv)
  }

  /** The whole loop of `get_pvlist_by_key`, over the records in order. */
  function ByKey(entries: Dict<seq<string>>): Dict<seq<string>> {
    if entries == [] then []
    else AddNames(ByKey(entries[..|entries| - 1]), entries[|entries| - 1].0, entries[|entries| - 1].1)
  }

  /** `get_pvlist_by_key`: for each happi name, the records that list it. */
  method GetPvlistByKey(info: HappiInfo) returns (dct: Dict<seq<string>>)
    ensures dct == ByKey(info.recordToMetadataKeys)
  {
    var entries := info.recordToMetadataKeys;
    dct := [];
    for i := 0 to |entries|
      invariant dct == ByKey(entries[..i])
    {
      var (pvname, nameList) := entries[i];
      ghost var start := dct;
      for k := 0 to |nameList|
        invariant dct == AddNames(start, pvname, nameList[..k])
      {
        assert nameList[..k + 1][..k] == nameList[..k];
        dct := Append(dct, nameList[k], pvname);
      }
      assert nameList[..|nameList|] == nameList;
      assert entries[..i + 1][..i] == entries[..i];
    }
    assert entries[..|entries|] == entries;
  }

  /** `n` copies of `x`. */
  function Repeat(x: string, n: nat): (r: seq<string>)
    ensures |r| == n && forall j :: 0 <= j < n ==> r[j] == x
  {
    seq(n, _ => x)
  }

  /**
   * The records naming `name`, in record order, each once per time its name list holds
   * `name`: the reference the loop is checked against.
   */
  function PvsNaming(entries: Dict<seq<string>>, name: string): seq<string> {
    if entries == [] then []
    else Repeat(entries[0].0, multiset(entries[0].1)[name]) + PvsNaming(entries[1..], name)
  }

  lemma {:induction false} PvsNamingSnoc(entries: Dict<seq<string>>, x: (string, seq<string>), name: string)
    ensures PvsNaming(entries + [x], name) == PvsNaming(entries, name) + Repeat(x.0, multiset(x.1)[name])
  {
    if entries != [] {
      assert (entries + [x])[1..] == entries[1..] + [x];
      PvsNamingSnoc(entries[1..], x, name);
    } else {
      assert PvsNaming([x], name) == Repeat(x.0, multiset(x.1)[name]) + PvsNaming([], name);
    }
  }

  lemma AppendGet(d: Dict<seq<string>>, k: string, pv: string, name: string)
    ensures GetOr(Append(d, k, pv), name, []) == GetOr(d, name, []) + (if k == name then [pv] else [])
  {
  }

  lemma Occurrences(names: seq<string>, name: string)
    requires names != []
    ensures multiset(names)[name]
      == multiset(names[..|names| - 1])[name] + (if names[|names| - 1] == name then 1 else 0)
  {
    InitLast(names);
  }

  lemma {:induction false} AddNamesGet(d: Dict<seq<string>>, pv: string, names: seq<string>, name: string)
    ensures GetOr(AddNames(d, pv, names), name, []) == GetOr(d, name, []) + Repeat(pv, multiset(names)[name])
  {
    if names != [] {
      var n := |names| - 1;
      AddNamesGet(d, pv, names[..n], name);
      AppendGet(AddNames(d, pv, names[..n]), names[n], pv, name);
      Occurrences(names, name);
      var c := multiset(names[..n])[name];
      if names[n] == name {
        assert Repeat(pv, c + 1) == Repeat(pv, c) + [pv];
      }
    }
  }

  /** Each name's list holds exactly the records naming it, in record order. */
  lemma {:induction false} ByKeyLists(entries: Dict<seq<string>>, name: string)
    ensures GetOr(ByKey(entries), name, []) == PvsNaming(entries, name)
  {
    if entries != [] {
      var n := |entries| - 1;
      ByKeyLists(entries[..n], name);
      AddNamesGet(ByKey(entries[..n]), entries[n].0, entries[n].1, name);
      InitLast(entries);
      PvsNamingSnoc(entries[..n], entries[n], name);
    }
  }

  /** A record is in a name's list iff the record's name list holds that name. */
  lemma {:induction false} PvsNamingMembers(entries: Dict<seq<string>>, name: string, pv: string)
    ensures pv in PvsNaming(entries, name) <==> exists i :: 0 <= i < |entries| && entries[i].0 == pv && name in entries[i].1
  {
    if entries != [] {
      PvsNamingMembers(entries[1..], name, pv);
      var head := Repeat(entries[0].0, multiset(entries[0].1)[name]);
      assert pv in head <==> entries[0].0 == pv && name in entries[0].1 by {
        if pv in head { assert head[0] == entries[0].0; }
        if entries[0].0 == pv && name in entries[0].1 { assert head[0] == pv; }
      }
      if exists i :: 0 <= i < |entries| && entries[i].0 == pv && name in entries[i].1 {
        var i :| 0 <= i < |entries| && entries[i].0 == pv && name in entries[i].1;
        if i > 0 { assert entries[1..][i - 1] == entries[i]; }
      }
      if exists i :: 0 <= i < |entries[1..]| && entries[1..][i].0 == pv && name in entries[1..][i].1 {
        var i :| 0 <= i < |entries[1..]| && entries[1..][i].0 == pv && name in entries[1..][i].1;
        assert entries[i + 1] == entries[1..][i];
      }
    }
  }

  /** `get_pvlist_by_key` membership: pv is under `name` iff pv's happi names hold `name`. */
  lemma PvlistByKeyMembers(info: HappiInfo, name: string, pv: string)
    ensures pv in GetOr(ByKey(info.recordToMetadataKeys), name, [])
        <==> exists i :: 0 <= i < |info.recordToMetadataKeys|
               && info.recordToMetadataKeys[i].0 == pv && name in info.recordToMetadataKeys[i].1
  {
    ByKeyLists(info.recordToMetadataKeys, name);
    PvsNamingMembers(info.recordToMetadataKeys, name, pv);
  }

  /** The number of entries over all lists of a dict. */
  function Total(d: Dict<seq<string>>): nat {
    if d == [] then 0 else |d[0].1| + Total(d[1..])
  }

  /** The number of happi names over all records. */
  function NameCount(entries: Dict<seq<string>>): nat {
    if entries == [] then 0 else NameCount(entries[..|entries| - 1]) + |entries[|entries| - 1].1|
  }

  lemma {:induction false} TotalAppend(d: Dict<seq<string>>, name: string, pv: string)
    requires UniqueKeys(d)
    ensures Total(Append(d, name, pv)) == Total(d) + 1
    ensures UniqueKeys(Append(d, name, pv))
  {
    AssignUnique(d, name, GetOr(d, name, []) + [pv]);
    if d != [] && d[0].0 != name {
      assert UniqueKeys(d[1..]);
      TotalAppend(d[1..], name, pv);
      assert Get(d, name) == Get(d[1..], name);
      assert Append(d, name, pv) == [d[0]] + Append(d[1..], name, pv);
    }
  }

  lemma {:induction false} TotalAddNames(d: Dict<seq<string>>, pv: string, names: seq<string>)
    requires UniqueKeys(d)
    ensures Total(AddNames(d, pv, names)) == Total(d) + |names|
    ensures UniqueKeys(AddNames(d, pv, names))
  {
    if names != [] {
      var n := |names| - 1;
      TotalAddNames(d, pv, names[..n]);
      TotalAppend(AddNames(d, pv, names[..n]), names[n], pv);
    }
  }

  /** The lists of `get_pvlist_by_key` hold as many entries as all the name lists together. */
  lemma {:induction false} ByKeyTotal(entries: Dict<seq<string>>)
    ensures Total(ByKey(entries)) == NameCount(entries)
    ensures UniqueKeys(ByKey(entries))
  {
    if entries != [] {
      var n := |entries| - 1;
      ByKeyTotal(entries[..n]);
      TotalAddNames(ByKey(entries[..n]), entries[n].0, entries[n].1);
    }
  }

  /** The process-wide configuration, built from the site files once loaded. */
  class PcdsConfiguration {
    const happiInfo: HappiInfo
    const pvToIoc: Dict<string>
    const iocToHost: Dict<string>

    constructor (happiInfo: HappiInfo, iocToPvs: Dict<Dict<string>>, cfgs: seq<seq<string>>, matcher: Matcher)
      ensures this.happiInfo == happiInfo
      ensures pvToIoc == PvToIoc(iocToPvs)
      ensures iocToHost == AssignAll([], LineMatches(Concat(cfgs), matcher))
    {
      var hosts := IocToHost(cfgs, matcher);
      this.happiInfo := happiInfo;
      pvToIoc := PvToIoc(iocToPvs);
      iocToHost := hosts;
    }
  }

  /** The `PCDSConfiguration` class object, holding the `_instance_` attribute once set. */
  class PcdsConfigurationClass {
    var instance: PcdsConfiguration?

    constructor ()
      ensures instance == null
    {
      instance := null;
    }

    /** `instance()`: builds the configuration on the first call only. */
    method Instance(happiInfo: HappiInfo, iocToPvs: Dict<Dict<string>>, cfgs: seq<seq<string>>, matcher: Matcher)
      returns (c: PcdsConfiguration)
      modifies this
      ensures old(instance) != null ==> c == old(instance)
      ensures old(instance) == null ==> (fresh(c) && c.happiInfo == happiInfo && c.pvToIoc == PvToIoc(iocToPvs)
        && c.iocToHost == AssignAll([], LineMatches(Concat(cfgs), matcher)))
      ensures instance == c
    {
      if instance == null {
        instance := new PcdsConfiguration(happiInfo, iocToPvs, cfgs, matcher);
      }
      c := instance;
    }
  }

  /**
   * Every call of `instance()` returns the same object, built from the files as the first
   * call found them, whatever they hold at later calls.
   */
  method InstanceShared(cls: PcdsConfigurationClass,
                        info1: HappiInfo, iocToPvs1: Dict<Dict<string>>, cfgs1: seq<seq<string>>, matcher1: Matcher,
                        info2: HappiInfo, iocToPvs2: Dict<Dict<string>>, cfgs2: seq<seq<string>>, matcher2: Matcher)
    returns (first: PcdsConfiguration, second: PcdsConfiguration)
    modifies cls
    ensures first == second == cls.instance
    ensures old(cls.instance) == null ==> (first.happiInfo == info1 && first.pvToIoc == PvToIoc(iocToPvs1)
      && first.iocToHost == AssignAll([], LineMatches(Concat(cfgs1), matcher1)))
  {
    first := cls.Instance(info1, iocToPvs1, cfgs1, matcher1);
    second := cls.Instance(info2, iocToPvs2, cfgs2, matcher2);
  }

}
