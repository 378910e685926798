/**
 * The production-configuration checks: the client hosts the gateway is read from, the
 * `.NORD` companions of waveform records, which hosts are worth asking for a PV, which
 * fields each host's answer is compared on, and when the check fails. The channel
 * access reads themselves are given as functions of the host.
 */
module ProdConfig {
  import opened Wrappers
  import opened Dicts
  import opened Strings
  import opened Values
  import opened PvInfo
  import opened Differences
  import opened DiffReport

  const Hutches: seq<string> := ["tmo", "rix", "xpp", "xcs", "mfx", "cxi", "mec"]
  const Suffs: seq<string> := ["control", "daq"]

  /** `[f'{hutch}-{suff}' for hutch in hutches for suff in suffs]`, one row per hutch. */
  function HostNames(hutches: seq<string>, suffs: seq<string>): seq<string> {
    if hutches == [] then [] else Row(hutches[0], suffs) + HostNames(hutches[1..], suffs)
  }

  /** One hutch's hosts, in suffix order. */
  function Row(hutch: string, suffs: seq<string>): seq<string> {
    seq(|suffs|, j requires 0 <= j < |suffs| => hutch + "-" + suffs[j])
  }

  /** Every host name pairs a hutch with a suffix, and every such pair is named. */
  lemma {:induction false} HostNamesCover(hutches: seq<string>, suffs: seq<string>, x: string)
    ensures x in HostNames(hutches, suffs) <==>
      exists i, j :: 0 <= i < |hutches| && 0 <= j < |suffs| && x == hutches[i] + "-" + suffs[j]
  {
    if hutches != [] {
      var row := Row(hutches[0], suffs);
      HostNamesCover(hutches[1..], suffs, x);
      if exists i, j :: 0 <= i < |hutches| && 0 <= j < |suffs| && x == hutches[i] + "-" + suffs[j] {
        var i, j :| 0 <= i < |hutches| && 0 <= j < |suffs| && x == hutches[i] + "-" + suffs[j];
        if i == 0 {
          assert row[j] == x;
        } else {
          assert hutches[1..][i - 1] == hutches[i];
        }
      }
      if x in row {
        var j :| 0 <= j < |row| && row[j] == x;
        assert x == hutches[0] + "-" + suffs[j];
      }
      if exists i, j :: 0 <= i < |hutches[1..]| && 0 <= j < |suffs| && x == hutches[1..][i] + "-" + suffs[j] {
        var i, j :| 0 <= i < |hutches[1..]| && 0 <= j < |suffs| && x == hutches[1..][i] + "-" + suffs[j];
        assert hutches[i + 1] == hutches[1..][i];
      }
    }
  }

  /** `CLIENT_HOSTS`. */
  const ClientHosts: seq<string> := HostNames(Hutches, Suffs)

  /** Fourteen hosts, hutch by hutch, control before daq. */
  lemma ClientHostsListed()
    ensures ClientHosts == ["tmo-control", "tmo-daq", "rix-control", "rix-daq", "xpp-control", "xpp-daq",
                            "xcs-control", "xcs-daq", "mfx-control", "mfx-daq", "cxi-control", "cxi-daq",
                            "mec-control", "mec-daq"]
  {
    var h := Hutches;
    var hosts: seq<string> := [];
    assert HostNames(h[7..], Suffs) == hosts;
    HostsFrom(h, 6, "mec", "mec-control", "mec-daq");
    hosts := ["mec-control", "mec-daq"] + hosts;
    HostsFrom(h, 5, "cxi", "cxi-control", "cxi-daq");
    hosts := ["cxi-control", "cxi-daq"] + hosts;
    HostsFrom(h, 4, "mfx", "mfx-control", "mfx-daq");
    hosts := ["mfx-control", "mfx-daq"] + hosts;
    HostsFrom(h, 3, "xcs", "xcs-control", "xcs-daq");
    hosts := ["xcs-control", "xcs-daq"] + hosts;
    HostsFrom(h, 2, "xpp", "xpp-control", "xpp-daq");
    hosts := ["xpp-control", "xpp-daq"] + hosts;
    HostsFrom(h, 1, "rix", "rix-control", "rix-daq");
    hosts := ["rix-control", "rix-daq"] + hosts;
    HostsFrom(h, 0, "tmo", "tmo-control", "tmo-daq");
    hosts := ["tmo-control", "tmo-daq"] + hosts;
    assert h[0..] == h;
  }

  /** The hosts from the `k`-th hutch on: that hutch's two rows, then the rest. */
  lemma HostsFrom(h: seq<string>, k: nat, hutch: string, control: string, daq: string)
    requires k < |h| && h[k] == hutch && control == hutch + "-control" && daq == hutch + "-daq"
    ensures HostNames(h[k..], Suffs) == [control, daq] + HostNames(h[k + 1..], Suffs)
  {
    assert h[k..][1..] == h[k + 1..];
    var row := Row(hutch, Suffs);
    assert row[0] == hutch + "-" + "control" == hutch + "-control";
    assert row[1] == hutch + "-" + "daq" == hutch + "-daq";
    assert row == [row[0], row[1]];
  }

  const ArrayData: string := ":ArrayData"

  /** The `.NORD` record of each waveform `:ArrayData` record, in list order. */
  function ExtraPvs(pvlist: seq<string>): (r: seq<string>)
    ensures forall y :: y in r <==> exists p :: p in pvlist && EndsWith(p, ArrayData) && y == p + ".NORD"
    ensures |r| <= |pvlist|
  {
    if pvlist == [] then []
    else
      var rest := ExtraPvs(pvlist[1..]);
      assert forall p :: p in pvlist <==> p == pvlist[0] || p in pvlist[1..];
      (if EndsWith(pvlist[0], ArrayData) then [pvlist[0] + ".NORD"] else []) + rest
  }

  /** The extra records of a concatenation are those of each part, in order. */
  lemma {:induction false} ExtraPvsAppend(a: seq<string>, b: seq<string>)
    ensures ExtraPvs(a + b) == ExtraPvs(a) + ExtraPvs(b)
  {
    if a != [] {
      assert (a + b)[0] == a[0] && (a + b)[1..] == a[1..] + b;
      ExtraPvsAppend(a[1..], b);
    } else {
      assert a + b == b;
    }
  }

  /** `get_extra_pvs`. */
  method GetExtraPvs(pvlist: seq<string>) returns (extraPvs: seq<string>)
    ensures extraPvs == ExtraPvs(pvlist)
  {
    extraPvs := [];
    for i := 0 to |pvlist|
      invariant extraPvs == ExtraPvs(pvlist[..i])
    {
      var pvname := pvlist[i];
      assert pvlist[..i + 1] == pvlist[..i] + [pvname];
      ExtraPvsAppend(pvlist[..i], [pvname]);
      if EndsWith(pvname, ArrayData) {
        extraPvs := extraPvs + [pvname + ".NORD"];
      }
    }
    assert pvlist[..|pvlist|] == pvlist;
  }

  /** `interface_config.subnet_from_hostname`: a host name resolved, then its subnet's name. */
  type SubnetOfHost = string -> Result<string, PyExc>

  /** The hosts of `hosts`, in order, whose subnet is not `pvSubnet`; the first lookup error raises. */
  function OtherSubnets(hosts: seq<string>, pvSubnet: string, subnetOf: SubnetOfHost): (r: Result<seq<string>, PyExc>)
    ensures r.Ok? <==> forall i :: 0 <= i < |hosts| ==> subnetOf(hosts[i]).Ok?
    ensures r.Ok? ==> forall h :: h in r.value <==> h in hosts && subnetOf(h).value != pvSubnet
    ensures r.Err? ==> exists i :: 0 <= i < |hosts| && subnetOf(hosts[i]) == Err(r.error)
  {
    if hosts == [] then Ok([])
    else
      var head := subnetOf(hosts[0]);
      if head.Err? then Err(head.error)
      else
        var rest := OtherSubnets(hosts[1..], pvSubnet, subnetOf);
        assert forall i :: 0 < i < |hosts| ==> hosts[i] == hosts[1..][i - 1];
        assert forall h :: h in hosts <==> h == hosts[0] || h in hosts[1..];
        if rest.Err? then
          assert exists i :: 0 < i < |hosts| && subnetOf(hosts[i]) == Err(rest.error) by {
            var i :| 0 <= i < |hosts[1..]| && subnetOf(hosts[1..][i]) == Err(rest.error);
            assert hosts[i + 1] == hosts[1..][i];
          }
          Err(rest.error)
        else
          assert forall i :: 0 < i < |hosts| ==> subnetOf(hosts[i]).Ok?;
          Ok((if head.value != pvSubnet then [hosts[0]] else []) + rest.value)
  }

  /** When no lookup fails, the kept hosts of a concatenation are those of each part, in order. */
  lemma {:induction false} OtherSubnetsAppend(a: seq<string>, b: seq<string>, pvSubnet: string, subnetOf: SubnetOfHost)
    requires forall i :: 0 <= i < |a| ==> subnetOf(a[i]).Ok?
    requires forall i :: 0 <= i < |b| ==> subnetOf(b[i]).Ok?
    ensures OtherSubnets(a + b, pvSubnet, subnetOf).Ok?
    ensures OtherSubnets(a + b, pvSubnet, subnetOf).value
      == OtherSubnets(a, pvSubnet, subnetOf).value + OtherSubnets(b, pvSubnet, subnetOf).value
  {
    if a != [] {
      assert forall i :: 0 <= i < |a[1..]| ==> a[1..][i] == a[i + 1];
      assert (a + b)[0] == a[0] && (a + b)[1..] == a[1..] + b;
      OtherSubnetsAppend(a[1..], b, pvSubnet, subnetOf);
    } else {
      assert a + b == b;
    }
  }

  /**
   * The host filter of `compare_gets_all_reasonable_hosts`: the PV's IOC, that IOC's host
   * and its subnet are looked up, then the client hosts on other subnets are kept.
   */
  function ReasonableHosts(pvToIoc: Dict<string>, iocToHost: Dict<string>, subnetOf: SubnetOfHost, pvname: string)
    : (r: Result<seq<string>, PyExc>)
    ensures pvname !in Keys(pvToIoc) ==> r == Err(KeyError(pvname))
    ensures (pvname in Keys(pvToIoc) && Get(pvToIoc, pvname).value !in Keys(iocToHost)) ==>
              r == Err(KeyError(Get(pvToIoc, pvname).value))
  {
    match Get(pvToIoc, pvname)
    case None => Err(KeyError(pvname))
    case Some(iocname) =>
      match Get(iocToHost, iocname)
      case None => Err(KeyError(iocname))
      case Some(hostname) =>
        match subnetOf(hostname)
        case Err(e) => Err(e)
        case Ok(pvSubnet) => OtherSubnets(ClientHosts, pvSubnet, subnetOf)
  }

  /**
   * With every lookup answering, the hosts asked are exactly the client hosts whose subnet
   * differs from that of the host running the PV's IOC.
   */
  lemma ReasonableHostsKept(pvToIoc: Dict<string>, iocToHost: Dict<string>, subnetOf: SubnetOfHost, pvname: string,
                            iocname: string, hostname: string, pvSubnet: string)
    requires Get(pvToIoc, pvname) == Some(iocname) && Get(iocToHost, iocname) == Some(hostname)
    requires subnetOf(hostname) == Ok(pvSubnet)
    requires forall h :: h in ClientHosts ==> subnetOf(h).Ok?
    ensures ReasonableHosts(pvToIoc, iocToHost, subnetOf, pvname).Ok?
    ensures forall h :: h in ReasonableHosts(pvToIoc, iocToHost, subnetOf, pvname).value <==>
      h in ClientHosts && subnetOf(h).value != pvSubnet
  {
    assert forall i :: 0 <= i < |ClientHosts| ==> ClientHosts[i] in ClientHosts;
  }

  /** `{key: (v1, v2) for key, v1, v2 in diffs}`. */
  function SanityDiff(ds: seq<Diff>): Dict<(Value, Value)> {
    AssignAll([], seq(|ds|, i requires 0 <= i < |ds| => Some((ds[i].key, (ds[i].v1, ds[i].v2)))))
  }

  /** `['address'] + list(sanity_diff.keys())`. */
  function SkipKeys(sanity: seq<Diff>): seq<string> {
    ["address"] + KeyList(SanityDiff(sanity))
  }

  /** A key is skipped iff it is "address" or a field that changed between the two IOC reads. */
  lemma SkipKeysMeaning(sanity: seq<Diff>, k: string)
    ensures k in SkipKeys(sanity) <==> k == "address" || exists d :: d in sanity && d.key == k
  {
    var kvs := seq(|sanity|, i requires 0 <= i < |sanity| => Some((sanity[i].key, (sanity[i].v1, sanity[i].v2))));
    AssignAllKeys([], kvs, k);
    if exists d :: d in sanity && d.key == k {
      var d :| d in sanity && d.key == k;
      var i :| 0 <= i < |sanity| && sanity[i] == d;
      assert Assigns(kvs[i], k);
    }
    if AssignedIn(kvs, k) {
      var j :| 0 <= j < |kvs| && Assigns(kvs[j], k);
      assert sanity[j] in sanity;
    }
  }

  /** The expected answer each host should give, worked out from the IOC's own reading. */
  type Answer = string -> PVInfo

  /** The per-host loop of `compare_gets`, over the hosts asked, the first raise winning. */
  function HostDiffs(hosts: seq<string>, caget: string -> PVInfo, answer: Answer, skip: seq<string>)
    : Result<Dict<seq<Diff>>, PyExc>
  {
    if hosts == [] then Ok([])
    else
      var h := hosts[|hosts| - 1];
      match HostDiffs(hosts[..|hosts| - 1], caget, answer, skip)
      case Err(e) => Err(e)
      case Ok(done) =>
        match PvinfoDifferences(answer(h), caget(h), skip)
        case Err(e) => Err(e)
        case Ok(ds) => Ok(Assign(done, h, ds))
  }

  /** When the loop finishes, each host holds the differences of its answer from its reading. */
  lemma {:induction false} HostDiffsAt(hosts: seq<string>, caget: string -> PVInfo, answer: Answer, skip: seq<string>)
    requires HostDiffs(hosts, caget, answer, skip).Ok?
    ensures forall h :: h in Keys(HostDiffs(hosts, caget, answer, skip).value) <==> h in hosts
    ensures forall h :: h in hosts ==>
              (PvinfoDifferences(answer(h), caget(h), skip).Ok? &&
               Get(HostDiffs(hosts, caget, answer, skip).value, h) == Some(PvinfoDifferences(answer(h), caget(h), skip).value))
  {
    if hosts != [] {
      var n := |hosts| - 1;
      var init := hosts[..n];
      HostDiffsAt(init, caget, answer, skip);
      var done := HostDiffs(init, caget, answer, skip).value;
      AssignKeys(done, hosts[n], PvinfoDifferences(answer(hosts[n]), caget(hosts[n]), skip).value);
      assert forall h :: h in hosts <==> h in init || h == hosts[n] by {
        InitLast(hosts);
      }
    }
  }


  /**
   * `compare_gets`: the IOC is read before and after the gateway reads; each host's answer
   * is compared with its reading, skipping "address" and whatever changed in between.
   */
  function CompareGets(hosts: seq<string>, truePvinfo: PVInfo, caget: string -> PVInfo, postPvinfo: PVInfo, answer: Answer)
    : Result<Dict<seq<Diff>>, PyExc>
  {
    match PvinfoDifferences(truePvinfo, postPvinfo, DefaultPvinfoSkip)
    case Err(e) => Err(e)
    case Ok(sanity) => HostDiffs(hosts, caget, answer, SkipKeys(sanity))
  }

  /**
   * No host's differences name "address" or a field that changed between the two IOC reads,
   * and each host's list is what comparing its answer with its reading yields.
   */
  lemma CompareGetsSkips(hosts: seq<string>, truePvinfo: PVInfo, caget: string -> PVInfo, postPvinfo: PVInfo, answer: Answer)
    requires CompareGets(hosts, truePvinfo, caget, postPvinfo, answer).Ok?
    ensures PvinfoDifferences(truePvinfo, postPvinfo, DefaultPvinfoSkip).Ok?
    ensures forall h :: h in Keys(CompareGets(hosts, truePvinfo, caget, postPvinfo, answer).value) <==> h in hosts
    ensures forall i, d ::
      (0 <= i < |CompareGets(hosts, truePvinfo, caget, postPvinfo, answer).value| &&
       d in CompareGets(hosts, truePvinfo, caget, postPvinfo, answer).value[i].1) ==>
        (d.key != "address" &&
         forall s :: s in PvinfoDifferences(truePvinfo, postPvinfo, DefaultPvinfoSkip).value ==> d.key != s.key)
  {
    var sanity := PvinfoDifferences(truePvinfo, postPvinfo, DefaultPvinfoSkip).value;
    var skip := SkipKeys(sanity);
    var all := HostDiffs(hosts, caget, answer, skip).value;
    HostDiffsAt(hosts, caget, answer, skip);
    forall i, d | 0 <= i < |all| && d in all[i].1
      ensures d.key != "address" && forall s :: s in sanity ==> d.key != s.key
    {
      var h := all[i].0;
      GetIn(all, h);
      assert h in Keys(all) by { assert KeyList(all)[i] == h; }
      assert h in hosts;
      PvinfoDiffKeys(answer(h), caget(h), skip);
      assert Get(all, h) == Some(all[i].1) by {
        HostDiffsUnique(hosts, caget, answer, skip);
        GetUnique(all, i);
      }
      assert d.key !in skip;
      forall s | s in sanity ensures d.key != s.key {
        SkipKeysMeaning(sanity, s.key);
      }
      SkipKeysMeaning(sanity, "address");
    }
  }

  lemma {:induction false} HostDiffsUnique(hosts: seq<string>, caget: string -> PVInfo, answer: Answer, skip: seq<string>)
    requires HostDiffs(hosts, caget, answer, skip).Ok?
    ensures UniqueKeys(HostDiffs(hosts, caget, answer, skip).value)
  {
    if hosts != [] {
      var n := |hosts| - 1;
      HostDiffsUnique(hosts[..n], caget, answer, skip);
      var done := HostDiffs(hosts[..n], caget, answer, skip).value;
      AssignUnique(done, hosts[n], PvinfoDifferences(answer(hosts[n]), caget(hosts[n]), skip).value);
    }
  }

  /**
   * The verdict of `assert_cagets` over the hosts' differences in order: the first non-empty
   * list fails the assertion, after its message is built; building it may raise first.
   */
  function CagetsVerdict(diffs: Dict<seq<Diff>>, pvname: string): (r: Option<PyExc>)
    ensures r.None? <==> forall i :: 0 <= i < |diffs| ==> diffs[i].1 == []
  {
    if diffs == [] then None
    else if diffs[0].1 != [] then
      match Interpret(diffs[0].1, pvname, "IOC", "Gateway")
      case Err(e) => Some(e)
      case Ok(_) => Some(AssertionError)
    else
      var rest := CagetsVerdict(diffs[1..], pvname);
      assert forall i :: 0 < i < |diffs| ==> diffs[i] == diffs[1..][i - 1];
      rest
  }

  /** The first non-empty diff list, if any, with the lists before it. */
  function FirstFailing(diffs: Dict<seq<Diff>>): (r: Option<nat>)
    ensures r.Some? ==> r.value < |diffs| && diffs[r.value].1 != [] && forall i :: 0 <= i < r.value ==> diffs[i].1 == []
    ensures r.None? ==> forall i :: 0 <= i < |diffs| ==> diffs[i].1 == []
  {
    if diffs == [] then None
    else if diffs[0].1 != [] then Some(0)
    else
      match FirstFailing(diffs[1..])
      case None => None
      case Some(k) => Some(k + 1)
  }

  /** The verdict is that of the first host whose differences are not empty. */
  lemma {:induction false} CagetsVerdictFirst(diffs: Dict<seq<Diff>>, pvname: string, k: nat)
    requires k < |diffs| && diffs[k].1 != [] && forall i :: 0 <= i < k ==> diffs[i].1 == []
    ensures CagetsVerdict(diffs, pvname)
      == match Interpret(diffs[k].1, pvname, "IOC", "Gateway") case Err(e) => Some(e) case Ok(_) => Some(AssertionError)
  {
    if k > 0 {
      CagetsVerdictFirst(diffs[1..], pvname, k - 1);
    }
  }

  /**
   * `assert_cagets` once the diffs are known: each host's list in turn must be empty. The
   * message of the failing assertion is built by `interpret_pvinfo_differences`, which
   * records the categories in the cache.
   */
  method AssertCagets(cache: DiffCache, diffs: Dict<seq<Diff>>, pvname: string) returns (r: Option<PyExc>)
    requires cache.Valid()
    modifies cache
    ensures cache.Valid()
    ensures r == CagetsVerdict(diffs, pvname)
    ensures FirstFailing(diffs).None? ==> cache.entries == old(cache.entries)
    ensures FirstFailing(diffs).Some? ==>
              cache.entries == Recorded(old(cache.entries), pvname,
                                        Categories(diffs[FirstFailing(diffs).value].1, pvname, "IOC", "Gateway"))
  {
    for i := 0 to |diffs|
      invariant forall j :: 0 <= j < i ==> diffs[j].1 == []
      invariant cache.entries == old(cache.entries)
    {
      var (host, diff) := diffs[i];
      if diff != [] {
        var message := InterpretPvinfoDifferences(cache, diff, pvname, "IOC", "Gateway");
        CagetsVerdictFirst(diffs, pvname, i);
        FirstFailingAt(diffs, i);
        if message.Err? {
          return Some(message.error);
        }
        return Some(AssertionError);
      }
    }
    FirstFailingAt(diffs, |diffs|);
    return None;
  }

  lemma FirstFailingAt(diffs: Dict<seq<Diff>>, k: nat)
    requires k <= |diffs| && forall i :: 0 <= i < k ==> diffs[i].1 == []
    ensures k < |diffs| && diffs[k].1 != [] ==> FirstFailing(diffs) == Some(k)
    ensures k == |diffs| ==> FirstFailing(diffs).None?
  {
    var f := FirstFailing(diffs);
    if f.Some? && k < |diffs| && diffs[k].1 != [] {
      assert !(f.value < k);
      assert !(k < f.value);
    }
  }
}
