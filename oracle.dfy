/**
 * The access oracle (gateway_tests/util.py correct_gateway_pvinfo): from what the IOC
 * answered for a PV, what the gateway should answer to a given host, according to the
 * pvlist files of the PV's subnet and the access-security groups they name.
 */
module Oracle {
  import opened Wrappers
  import opened Dicts
  import opened Strings
  import opened Values
  import opened Access
  import opened PvInfo
  import opened PcdsSubnet

  /** A pvlist rule as parsed: its command text and, for ALLOW, the optional access group. */
  datatype PvlistRule = PvlistRule(command: string, accessGroup: Option<string>)

  /** One pvlist line that matches the PV, with the file it comes from. */
  datatype PvlistMatch = PvlistMatch(filename: string, rule: PvlistRule)

  /** An access-security RULE: the host groups it is restricted to (None: any host), and its permission. */
  datatype AsgRule = AsgRule(hosts: Option<seq<string>>, options: string)

  /** The parsed access-security file: its ASG groups and its HAG host groups. */
  datatype AccessSecurity = AccessSecurity(groups: Dict<seq<AsgRule>>, hosts: Dict<seq<string>>)

  /**
   * The configuration the oracle reads: the pvlist matches of each PV name, in file
   * order, and the access-security file.
   */
  datatype Configuration = Configuration(matchesOf: string -> seq<PvlistMatch>, acs: AccessSecurity)

  /** How the first loop reads a command. The order of the tests matters. */
  datatype Command = DenyCmd | AllowCmd | DenyFromCmd | UnknownCmd

  function Classify(command: string): (r: Command)
    ensures r == DenyCmd <==> command == "DENY"
    ensures r == AllowCmd <==> command != "DENY" && Contains(command, "ALLOW")
    ensures r == DenyFromCmd <==> command != "DENY" && !Contains(command, "ALLOW") && Contains(command, "DENY FROM")
  {
    if command == "DENY" then DenyCmd
    else if Contains(command, "ALLOW") then AllowCmd
    else if Contains(command, "DENY FROM") then DenyFromCmd
    else UnknownCmd
  }

  /** A match counts only when its file's basename starts with the PV's subnet name. */
  predicate OnSubnet(m: PvlistMatch, subnet: string) {
    StartsWith(Basename(m.filename), subnet)
  }

  /** What the first loop has gathered: the files seen, and the last DENY and ALLOW match per file. */
  datatype Tables = Tables(filenames: set<string>, deny: map<string, PvlistMatch>, allow: map<string, PvlistMatch>)

  const NoTables := Tables({}, map[], map[])

  predicate WellFormed(t: Tables) {
    t.deny.Keys <= t.filenames && t.allow.Keys <= t.filenames
  }

  /** How the first loop ends: with its tables, by the requesting host's DENY FROM, or by an unknown command. */
  datatype Scan = Scanned(t: Tables) | HostDenied | Unrecognised(command: string)

  /** Whether match `m` is the requesting host's DENY FROM. */
  predicate DeniesHost(m: PvlistMatch, hostname: string) {
    Classify(m.rule.command) == DenyFromCmd && m.rule.command == "DENY FROM " + hostname
  }

  /** A match of the subnet that ends the first loop: the host's DENY FROM, or an unknown command. */
  predicate Decisive(m: PvlistMatch, subnet: string, hostname: string) {
    OnSubnet(m, subnet) && (DeniesHost(m, hostname) || Classify(m.rule.command) == UnknownCmd)
  }

  /**
   * The tables after visiting a match that does not end the loop: a match of another
   * subnet changes nothing; one of the subnet records its file, and a DENY or ALLOW
   * becomes its file's last DENY or ALLOW match.
   */
  function Advance(t: Tables, m: PvlistMatch, subnet: string): (r: Tables)
    ensures WellFormed(t) ==> WellFormed(r)
    ensures t.filenames <= r.filenames && t.deny.Keys <= r.deny.Keys
    ensures OnSubnet(m, subnet) ==> r.filenames == t.filenames + {m.filename}
    ensures !OnSubnet(m, subnet) ==> r == t
  {
    if !OnSubnet(m, subnet) then t
    else
      var seen := t.(filenames := t.filenames + {m.filename});
      match Classify(m.rule.command)
      case DenyCmd => seen.(deny := seen.deny[m.filename := m])
      case AllowCmd => seen.(allow := seen.allow[m.filename := m])
      case _ => seen
  }

  /** The first loop, from tables `t` over the matches `ms` still to visit. */
  function ScanFrom(t: Tables, ms: seq<PvlistMatch>, subnet: string, hostname: string): (r: Scan)
    decreases |ms|
    ensures WellFormed(t) && r.Scanned? ==> WellFormed(r.t)
    ensures r.Scanned? ==> t.filenames <= r.t.filenames && t.deny.Keys <= r.t.deny.Keys
    ensures r.Unrecognised? ==> exists i :: 0 <= i < |ms| && ms[i].rule.command == r.command && Classify(r.command) == UnknownCmd
  {
    if ms == [] then Scanned(t)
    else if Decisive(ms[0], subnet, hostname) then
      if DeniesHost(ms[0], hostname) then HostDenied
      else
        var r := Unrecognised(ms[0].rule.command);
        assert ms[0].rule.command == r.command;
        r
    else ScanFrom(Advance(t, ms[0], subnet), ms[1..], subnet, hostname)
  }

  /** The error an unknown command raises. */
  function UnknownCommandError(command: string): PyExc {
    NotImplementedError([Lit("Programmer did not know that match.rule.command could be "), Lit(command)])
  }

  /**
   * `hosts.update(...)` over the host groups `hgs`, from the hosts `acc`; a host group the
   * file does not define raises KeyError.
   */
  function HostsFrom(acc: set<string>, hgs: seq<string>, acs: AccessSecurity): (r: Result<set<string>, PyExc>)
    decreases |hgs|
    ensures r.Ok? <==> forall i :: 0 <= i < |hgs| ==> hgs[i] in Keys(acs.hosts)
    ensures r.Err? ==> exists i :: 0 <= i < |hgs| && hgs[i] !in Keys(acs.hosts) && r.error == KeyError(hgs[i])
    ensures r.Ok? ==> forall h :: h in r.value <==>
      h in acc || exists i :: 0 <= i < |hgs| && h in Get(acs.hosts, hgs[i]).value
  {
    if hgs == [] then Ok(acc)
    else
      match Get(acs.hosts, hgs[0])
      case None => Err(KeyError(hgs[0]))
      case Some(hs) =>
        var r := HostsFrom(acc + (set h | h in hs), hgs[1..], acs);
        assert forall i :: 1 <= i < |hgs| ==> hgs[i] == hgs[1..][i - 1];
        r
  }

  /** Whether an access-security rule speaks for `hostname`. */
  function RuleApplies(rule: AsgRule, acs: AccessSecurity, hostname: string): (r: Result<bool, PyExc>)
    ensures rule.hosts.None? ==> r == Ok(true)
    ensures rule.hosts.Some? ==> r.Ok? == HostsFrom({}, rule.hosts.value, acs).Ok?
    ensures rule.hosts.Some? && r.Ok? ==>
      (r.value <==> exists i :: 0 <= i < |rule.hosts.value| && hostname in Get(acs.hosts, rule.hosts.value[i]).value)
  {
    if rule.hosts.None? then Ok(true)
    else
      match HostsFrom({}, rule.hosts.value, acs)
      case Err(e) => Err(e)
      case Ok(hs) => Ok(hostname in hs)
  }

  /**
   * The rule loop: starting from `acc`, each rule that applies promotes the behavior to
   * its permission; the first error (an unknown host group, an uninterpretable
   * permission) ends it.
   */
  function PromoteRules(acc: Behavior, rules: seq<AsgRule>, acs: AccessSecurity, hostname: string): (r: Result<Behavior, PyExc>)
    decreases |rules|
    ensures r.Ok? ==> AtMost(acc, r.value)
  {
    if rules == [] then Ok(acc)
    else
      match RuleApplies(rules[0], acs, hostname)
      case Err(e) => Err(e)
      case Ok(applies) =>
        if !applies then PromoteRules(acc, rules[1..], acs, hostname)
        else
          match Promote(Member(acc), StrArg(rules[0].options))
          case Err(e) => Err(e)
          case Ok(b) => PromoteRules(b, rules[1..], acs, hostname)
  }

  /** The permission rule `i` grants, when it applies and its permission reads. */
  predicate Grants(rules: seq<AsgRule>, i: int, acs: AccessSecurity, hostname: string, b: Behavior)
    requires 0 <= i < |rules|
  {
    RuleApplies(rules[i], acs, hostname) == Ok(true) && Interpret(StrArg(rules[i].options)) == Ok(b)
  }

  /**
   * The rule loop computes a maximum: every rule applying to the host grants no more than
   * the result, and the result is the start value or what some applying rule grants.
   */
  lemma {:induction false} PromoteRulesIsMax(acc: Behavior, rules: seq<AsgRule>, acs: AccessSecurity, hostname: string)
    requires PromoteRules(acc, rules, acs, hostname).Ok?
    ensures var r := PromoteRules(acc, rules, acs, hostname).value;
      (forall i :: 0 <= i < |rules| ==> RuleApplies(rules[i], acs, hostname).Ok?)
      && (forall i :: 0 <= i < |rules| && RuleApplies(rules[i], acs, hostname) == Ok(true) ==>
            Interpret(StrArg(rules[i].options)).Ok? && AtMost(Interpret(StrArg(rules[i].options)).value, r))
      && (r == acc || exists i :: 0 <= i < |rules| && Grants(rules, i, acs, hostname, r))
    decreases |rules|
  {
    if rules != [] {
      var r := PromoteRules(acc, rules, acs, hostname).value;
      var next := if RuleApplies(rules[0], acs, hostname) == Ok(true)
        then Promote(Member(acc), StrArg(rules[0].options)).value else acc;
      assert PromoteRules(next, rules[1..], acs, hostname) == PromoteRules(acc, rules, acs, hostname);
      PromoteRulesIsMax(next, rules[1..], acs, hostname);
      forall i | 1 <= i < |rules|
        ensures RuleApplies(rules[i], acs, hostname) == RuleApplies(rules[1..][i - 1], acs, hostname)
        ensures Grants(rules, i, acs, hostname, r) == Grants(rules[1..], i - 1, acs, hostname, r)
      {
      }
      if r != acc && r == next {
        assert Grants(rules, 0, acs, hostname, r);
      }
    }
  }

  /** Adding a rule at the end never lowers the group's behavior. */
  lemma {:induction false} PromoteRulesAppend(acc: Behavior, rules: seq<AsgRule>, rule: AsgRule, acs: AccessSecurity, hostname: string)
    requires PromoteRules(acc, rules + [rule], acs, hostname).Ok?
    ensures PromoteRules(acc, rules, acs, hostname).Ok?
    ensures AtMost(PromoteRules(acc, rules, acs, hostname).value, PromoteRules(acc, rules + [rule], acs, hostname).value)
    decreases |rules|
  {
    if rules == [] {
      assert [rule][1..] == [];
    } else {
      assert (rules + [rule])[0] == rules[0] && (rules + [rule])[1..] == rules[1..] + [rule];
      var next := if RuleApplies(rules[0], acs, hostname) == Ok(true)
        then Promote(Member(acc), StrArg(rules[0].options)).value else acc;
      PromoteRulesAppend(next, rules[1..], rule, acs, hostname);
    }
  }

  /** An access group's behavior for `hostname`: the rule loop from DISCONNECTED; an unknown group raises KeyError. */
  function GroupBehavior(acs: AccessSecurity, group: string, hostname: string): (r: Result<Behavior, PyExc>)
    ensures group !in Keys(acs.groups) ==> r == Err(KeyError(group))
    ensures group in Keys(acs.groups) ==> r == PromoteRules(Disconnected, Get(acs.groups, group).value, acs, hostname)
  {
    match Get(acs.groups, group)
    case None => Err(KeyError(group))
    case Some(rules) => PromoteRules(Disconnected, rules, acs, hostname)
  }

  /** The innermost loop of `correct_gateway_pvinfo`: the union of the host groups' members. */
  method GatherHosts(acs: AccessSecurity, hgs: seq<string>) returns (r: Result<set<string>, PyExc>)
    ensures r == HostsFrom({}, hgs, acs)
  {
    var hosts: set<string> := {};
    var j := 0;
    while j < |hgs|
      invariant 0 <= j <= |hgs|
      invariant HostsFrom({}, hgs, acs) == HostsFrom(hosts, hgs[j..], acs)
    {
      assert hgs[j..][0] == hgs[j] && hgs[j..][1..] == hgs[j + 1..];
      var members := Get(acs.hosts, hgs[j]);
      if members.None? {
        return Err(KeyError(hgs[j]));
      }
      hosts := hosts + (set h | h in members.value);
      j := j + 1;
    }
    return Ok(hosts);
  }

  /**
   * The inner loops of `correct_gateway_pvinfo` for an ALLOW naming `group`: rule by rule,
   * gather the hosts of a restricted rule's host groups and promote when `hostname` is among them.
   */
  method EvaluateGroup(acs: AccessSecurity, group: string, hostname: string) returns (r: Result<Behavior, PyExc>)
    ensures r == GroupBehavior(acs, group, hostname)
  {
    var found := Get(acs.groups, group);
    if found.None? {
      return Err(KeyError(group));
    }
    var rules := found.value;
    var behavior := Disconnected;
    var i := 0;
    while i < |rules|
      invariant 0 <= i <= |rules|
      invariant PromoteRules(Disconnected, rules, acs, hostname) == PromoteRules(behavior, rules[i..], acs, hostname)
    {
      var rule := rules[i];
      assert rules[i..][0] == rule && rules[i..][1..] == rules[i + 1..];
      var applies := true;
      if rule.hosts.Some? {
        var hosts := GatherHosts(acs, rule.hosts.value);
        if hosts.Err? {
          return Err(hosts.error);
        }
        applies := hostname in hosts.value;
      }
      if applies {
        var promoted := Promote(Member(behavior), StrArg(rule.options));
        if promoted.Err? {
          return Err(promoted.error);
        }
        behavior := promoted.value;
      }
      i := i + 1;
    }
    return Ok(behavior);
  }

  /**
   * What one relevant file says about the PV: DISCONNECTED for a DENY, READ for an ALLOW
   * without an access group, else that group's behavior; None when the file only held a
   * DENY FROM another host.
   */
  function FileVerdict(t: Tables, acs: AccessSecurity, hostname: string, f: string): (r: Result<Option<Behavior>, PyExc>)
    ensures f in t.deny ==> r == Ok(Some(Disconnected))
    ensures f !in t.deny && f in t.allow && t.allow[f].rule.accessGroup.None? ==> r == Ok(Some(Read))
    ensures f !in t.deny && f in t.allow && t.allow[f].rule.accessGroup.Some? ==>
      var g := GroupBehavior(acs, t.allow[f].rule.accessGroup.value, hostname);
      (r.Ok? <==> g.Ok?) && (r.Ok? ==> r.value == Some(g.value)) && (r.Err? ==> r.error == g.error)
    ensures f !in t.deny && f !in t.allow ==> r == Ok(None)
  {
    if f in t.deny then Ok(Some(Disconnected))
    else if f in t.allow then
      match t.allow[f].rule.accessGroup
      case None => Ok(Some(Read))
      case Some(group) =>
        match GroupBehavior(acs, group, hostname)
        case Err(e) => Err(e)
        case Ok(b) => Ok(Some(b))
    else Ok(None)
  }

  /** `gateway_access_summary` once the files `done` have been visited without error. */
  function Summary(t: Tables, acs: AccessSecurity, hostname: string, done: set<string>): map<string, Behavior> {
    map f | f in done && FileVerdict(t, acs, hostname, f).Ok? && FileVerdict(t, acs, hostname, f).value.Some?
      :: FileVerdict(t, acs, hostname, f).value.value
  }

  /** The files whose behavior is not DISCONNECTED. */
  function Connected(summary: map<string, Behavior>): (r: set<string>)
    ensures forall f :: f in r <==> f in summary && summary[f] != Disconnected
  {
    set f | f in summary && summary[f] != Disconnected
  }

  /** How the gateway renders a behavior in its access field. */
  function Rendering(b: Behavior): (r: string)
    ensures Interpret(StrArg(r)) == Ok(b)
    ensures r == "WRITE|READ" <==> b == Write
  {
    InterpretRoundTrip(b);
    InterpretRenderings();
    if b == Write then "WRITE|READ" else Name(b)
  }

  /**
   * The answer when exactly one file connects with behavior `b`: the IOC's record
   * without its address, with the access demoted to `b`.
   */
  function Expected(pvinfo: PVInfo, b: Behavior): (r: Result<PVInfo, PyExc>)
    ensures r.Err? <==> Interpret(ArgOf(pvinfo.access)).Err?
    ensures r.Err? ==> r.error == Interpret(ArgOf(pvinfo.access)).error
    ensures r.Ok? ==> r.value == pvinfo.(access := r.value.access, address := None)
    ensures r.Ok? ==> r.value.access.Some? && Interpret(StrArg(r.value.access.value)) == Demote(ArgOf(pvinfo.access), Member(b))
    ensures r.Ok? ==> var a := Interpret(StrArg(r.value.access.value)).value;
      AtMost(a, Interpret(ArgOf(pvinfo.access)).value) && AtMost(a, b)
  {
    match Demote(ArgOf(pvinfo.access), Member(b))
    case Err(e) => Err(e)
    case Ok(a) => Ok(pvinfo.(access := Some(Rendering(a)), address := None))
  }

  /** The record of a PV that does not connect. */
  function TimedOut(name: string): PVInfo {
    Bare(name).(error := Some("timeout"))
  }

  /** The record of a PV the gateway denies to the host. */
  function NoAccess(name: string): PVInfo {
    Bare(name).(access := Some("NO_ACCESS"))
  }

  /** The error for more than one connecting file (the list of them it names is not modelled). */
  const Inconsistent := RuntimeError([Lit("Gateway configs are inconsistent: ")])

  /** Combining the per-file behaviors: none connects, exactly one, or more. */
  ghost function Combine(pvinfo: PVInfo, summary: map<string, Behavior>): (r: Result<PVInfo, PyExc>)
    ensures |Connected(summary)| == 0 ==> r == Ok(TimedOut(pvinfo.name))
    ensures |Connected(summary)| >= 2 ==> r == Err(Inconsistent)
    ensures |Connected(summary)| == 1 ==> exists f :: f in Connected(summary) && r == Expected(pvinfo, summary[f])
  {
    var gw := Connected(summary);
    if |gw| == 0 then Ok(TimedOut(pvinfo.name))
    else if |gw| == 1 then
      var f :| f in gw;
      Expected(pvinfo, summary[f])
    else Err(Inconsistent)
  }

  /** A set of one element has only that element. */
  lemma SingletonMember<T>(s: set<T>, x: T, y: T)
    requires |s| == 1 && x in s && y in s
    ensures x == y
  {
    var rest := s - {x};
    assert |rest| == 0;
    assert y in rest || y == x;
  }

  /**
   * Every answer `correct_gateway_pvinfo` may give. Python iterates the set of files in
   * an order it does not promise, so when several files fail, any of their errors may
   * surface; otherwise there is exactly one answer.
   */
  ghost function Outcomes(cfg: Configuration, pvinfo: PVInfo, hostname: string): (r: set<Result<PVInfo, PyExc>>)
    ensures r != {}
  {
    if pvinfo.error == Some("timeout") then {Ok(pvinfo)}
    else if pvinfo.address.None? then {Err(TypeError)}
    else
      match FirstSubnet(Pscag01Ifs, pvinfo.address.value.0, Pings)
      case Err(e) => {Err(e)}
      case Ok(subnet) => SubnetOutcomes(cfg, pvinfo, subnet, hostname)
  }

  /** The answers once the PV's address is known to be on `subnet`. */
  ghost function SubnetOutcomes(cfg: Configuration, pvinfo: PVInfo, subnet: string, hostname: string): (r: set<Result<PVInfo, PyExc>>)
    ensures r != {}
  {
    match ScanFrom(NoTables, cfg.matchesOf(pvinfo.name), subnet, hostname)
    case HostDenied => {Ok(NoAccess(pvinfo.name))}
    case Unrecognised(command) => {Err(UnknownCommandError(command))}
    case Scanned(t) => FromTables(t, cfg.acs, pvinfo, hostname)
  }

  /** The errors of the files whose behavior cannot be evaluated. */
  ghost function Failures(t: Tables, acs: AccessSecurity, hostname: string): (r: set<Result<PVInfo, PyExc>>)
    ensures forall f :: f in t.filenames && FileVerdict(t, acs, hostname, f).Err? ==>
      Err(FileVerdict(t, acs, hostname, f).error) in r
    ensures r == {} <==> forall f :: f in t.filenames ==> FileVerdict(t, acs, hostname, f).Ok?
  {
    set f | f in t.filenames && FileVerdict(t, acs, hostname, f).Err? :: Err(FileVerdict(t, acs, hostname, f).error)
  }

  /** The answers once the first loop has gathered its tables. */
  ghost function FromTables(t: Tables, acs: AccessSecurity, pvinfo: PVInfo, hostname: string): (r: set<Result<PVInfo, PyExc>>)
    ensures r != {}
  {
    var failures := Failures(t, acs, hostname);
    if failures != {} then failures
    else {Combine(pvinfo, Summary(t, acs, hostname, t.filenames))}
  }

  /**
   * The first loop of `correct_gateway_pvinfo`: gather the files of the subnet and their
   * last DENY and ALLOW matches, stopping at a DENY FROM the host or an unknown command.
   */
  method ScanMatches(ms: seq<PvlistMatch>, subnet: string, hostname: string) returns (s: Scan)
    ensures s == ScanFrom(NoTables, ms, subnet, hostname)
  {
    var filenames: set<string> := {};
    var denyMatches: map<string, PvlistMatch> := map[];
    var allowMatches: map<string, PvlistMatch> := map[];
    var i := 0;
    while i < |ms|
      invariant 0 <= i <= |ms|
      invariant ScanFrom(NoTables, ms, subnet, hostname) == ScanFrom(Tables(filenames, denyMatches, allowMatches), ms[i..], subnet, hostname)
    {
      var m := ms[i];
      assert ms[i..][0] == m && ms[i..][1..] == ms[i + 1..];
      if OnSubnet(m, subnet) {
        filenames := filenames + {m.filename};
        if m.rule.command == "DENY" {
          denyMatches := denyMatches[m.filename := m];
        } else if Contains(m.rule.command, "ALLOW") {
          allowMatches := allowMatches[m.filename := m];
        } else if Contains(m.rule.command, "DENY FROM") {
          if m.rule.command == "DENY FROM " + hostname {
            return HostDenied;
          }
        } else {
          return Unrecognised(m.rule.command);
        }
      }
      i := i + 1;
    }
    return Scanned(Tables(filenames, denyMatches, allowMatches));
  }

  /** One pass of the second loop: the behavior one file's matches give the PV. */
  method FileBehavior(t: Tables, acs: AccessSecurity, hostname: string, f: string) returns (r: Result<Option<Behavior>, PyExc>)
    ensures r == FileVerdict(t, acs, hostname, f)
  {
    if f in t.deny {
      return Ok(Some(Disconnected));
    }
    if f !in t.allow {
      return Ok(None);
    }
    var group := t.allow[f].rule.accessGroup;
    if group.None? {
      return Ok(Some(Read));
    }
    var b := EvaluateGroup(acs, group.value, hostname);
    if b.Err? {
      return Err(b.error);
    }
    return Ok(Some(b.value));
  }

  /**
   * The second loop: each file's behavior, visiting the files in whatever order the set
   * gives; the first file whose group cannot be evaluated ends it with that error.
   */
  method SummarizeFiles(t: Tables, acs: AccessSecurity, hostname: string) returns (r: Result<map<string, Behavior>, PyExc>)
    ensures r.Ok? ==> r.value == Summary(t, acs, hostname, t.filenames)
    ensures r.Ok? ==> forall f :: f in t.filenames ==> FileVerdict(t, acs, hostname, f).Ok?
    ensures r.Err? ==> exists f :: f in t.filenames && FileVerdict(t, acs, hostname, f) == Err(r.error)
  {
    var summary: map<string, Behavior> := map[];
    var remaining := t.filenames;
    while remaining != {}
      invariant remaining <= t.filenames
      invariant forall f :: f in t.filenames - remaining ==> FileVerdict(t, acs, hostname, f).Ok?
      invariant summary == Summary(t, acs, hostname, t.filenames - remaining)
      decreases |remaining|
    {
      var f :| f in remaining;
      var verdict := FileBehavior(t, acs, hostname, f);
      if verdict.Err? {
        return Err(verdict.error);
      }
      if verdict.value.Some? {
        summary := summary[f := verdict.value.value];
      }
      remaining := remaining - {f};
      assert Summary(t, acs, hostname, t.filenames - remaining) == summary;
    }
    assert t.filenames - remaining == t.filenames;
    return Ok(summary);
  }

  /** `correct_gateway_pvinfo(config, pvinfo, hostname)`. */
  method CorrectGatewayPvinfo(cfg: Configuration, pvinfo: PVInfo, hostname: string) returns (r: Result<PVInfo, PyExc>)
    ensures r in Outcomes(cfg, pvinfo, hostname)
  {
    if pvinfo.error == Some("timeout") {
      return Ok(pvinfo);
    }
    if pvinfo.address.None? {
      return Err(TypeError);
    }
    var found := GetPcdsSubnet(pvinfo.address.value.0);
    if found.Err? {
      return Err(found.error);
    }
    r := AnswerOnSubnet(cfg, pvinfo, found.value, hostname);
  }

  /** The rest of `correct_gateway_pvinfo` once the PV's address is known to be on `subnet`. */
  method AnswerOnSubnet(cfg: Configuration, pvinfo: PVInfo, subnet: string, hostname: string) returns (r: Result<PVInfo, PyExc>)
    ensures r in SubnetOutcomes(cfg, pvinfo, subnet, hostname)
  {
    var scan := ScanMatches(cfg.matchesOf(pvinfo.name), subnet, hostname);
    match scan
    case HostDenied => return Ok(NoAccess(pvinfo.name));
    case Unrecognised(command) => return Err(UnknownCommandError(command));
    case Scanned(t) => r := Decide(t, cfg.acs, pvinfo, hostname);
  }

  /**
   * The second half of `correct_gateway_pvinfo`, once the first loop has gathered its
   * tables: summarize the files and combine the gateway instances that connect.
   */
  method Decide(t: Tables, acs: AccessSecurity, pvinfo: PVInfo, hostname: string) returns (r: Result<PVInfo, PyExc>)
    ensures r in FromTables(t, acs, pvinfo, hostname)
  {
    var summarized := SummarizeFiles(t, acs, hostname);
    if summarized.Err? {
      return Err(summarized.error);
    }
    var summary := summarized.value;
    var gw := set f | f in summary && summary[f] != Disconnected;
    assert gw == Connected(summary);
    if |gw| == 0 {
      return Ok(TimedOut(pvinfo.name));
    } else if |gw| == 1 {
      var f :| f in gw;
      ghost var g :| g in gw && Combine(pvinfo, summary) == Expected(pvinfo, summary[g]);
      SingletonMember(gw, f, g);
      return Expected(pvinfo, summary[f]);
    } else {
      return Err(Inconsistent);
    }
  }

  /** An IOC record that timed out is the answer, whatever the configuration says. */
  lemma TimeoutUnchanged(cfg: Configuration, pvinfo: PVInfo, hostname: string)
    requires pvinfo.error == Some("timeout")
    ensures Outcomes(cfg, pvinfo, hostname) == {Ok(pvinfo)}
  {
  }

  /** The matches of files on the subnet, in order. */
  function OnSubnetOnly(ms: seq<PvlistMatch>, subnet: string): (r: seq<PvlistMatch>)
    ensures forall m :: m in r <==> m in ms && OnSubnet(m, subnet)
  {
    if ms == [] then []
    else if OnSubnet(ms[0], subnet) then [ms[0]] + OnSubnetOnly(ms[1..], subnet)
    else
      assert forall m :: m in ms <==> m == ms[0] || m in ms[1..];
      OnSubnetOnly(ms[1..], subnet)
  }

  /** Matches from pvlist files of other subnets never influence the first loop. */
  lemma {:induction false} ScanIgnoresOtherSubnets(t: Tables, ms: seq<PvlistMatch>, subnet: string, hostname: string)
    ensures ScanFrom(t, ms, subnet, hostname) == ScanFrom(t, OnSubnetOnly(ms, subnet), subnet, hostname)
    decreases |ms|
  {
    if ms != [] {
      var m := ms[0];
      ScanIgnoresOtherSubnets(Advance(t, m, subnet), ms[1..], subnet, hostname);
      if OnSubnet(m, subnet) {
        var kept := OnSubnetOnly(ms, subnet);
        assert kept[0] == m && kept[1..] == OnSubnetOnly(ms[1..], subnet);
      }
    }
  }

  /**
   * The first match of the subnet that is the requesting host's DENY FROM or an unknown
   * command decides the first loop: NO_ACCESS for the former, NotImplementedError for the latter.
   */
  lemma {:induction false} FirstDecisiveDecides(t: Tables, ms: seq<PvlistMatch>, subnet: string, hostname: string, i: nat)
    requires i < |ms| && Decisive(ms[i], subnet, hostname)
    requires forall j :: 0 <= j < i ==> !Decisive(ms[j], subnet, hostname)
    ensures DeniesHost(ms[i], hostname) ==> ScanFrom(t, ms, subnet, hostname) == HostDenied
    ensures !DeniesHost(ms[i], hostname) ==> ScanFrom(t, ms, subnet, hostname) == Unrecognised(ms[i].rule.command)
    decreases i
  {
    if i > 0 {
      var rest, next := ms[1..], Advance(t, ms[0], subnet);
      assert !Decisive(ms[0], subnet, hostname);
      assert ScanFrom(t, ms, subnet, hostname) == ScanFrom(next, rest, subnet, hostname);
      assert rest[i - 1] == ms[i];
      forall j | 0 <= j < i - 1
        ensures !Decisive(rest[j], subnet, hostname)
      {
        assert rest[j] == ms[j + 1];
      }
      FirstDecisiveDecides(next, rest, subnet, hostname, i - 1);
    }
  }

  /** Past the timeout and address checks, the answers are those of the PV's subnet. */
  lemma OutcomesOnSubnet(cfg: Configuration, pvinfo: PVInfo, hostname: string, subnet: string)
    requires pvinfo.error != Some("timeout") && pvinfo.address.Some?
    requires FirstSubnet(Pscag01Ifs, pvinfo.address.value.0, Pings) == Ok(subnet)
    ensures Outcomes(cfg, pvinfo, hostname) == SubnetOutcomes(cfg, pvinfo, subnet, hostname)
  {
  }

  /**
   * The PV's record with NO_ACCESS and every other field None, when its subnet's pvlist
   * files deny the requesting host before any unknown command.
   */
  lemma DenyFromHostGivesNoAccess(cfg: Configuration, pvinfo: PVInfo, subnet: string, hostname: string, i: nat)
    requires var ms := cfg.matchesOf(pvinfo.name);
      i < |ms| && OnSubnet(ms[i], subnet) && DeniesHost(ms[i], hostname)
      && forall j :: 0 <= j < i ==> !Decisive(ms[j], subnet, hostname)
    ensures SubnetOutcomes(cfg, pvinfo, subnet, hostname) == {Ok(NoAccess(pvinfo.name))}
  {
    FirstDecisiveDecides(NoTables, cfg.matchesOf(pvinfo.name), subnet, hostname, i);
  }

  /** The same for an unknown command: the answer is its NotImplementedError. */
  lemma UnknownCommandRaises(cfg: Configuration, pvinfo: PVInfo, subnet: string, hostname: string, i: nat)
    requires var ms := cfg.matchesOf(pvinfo.name);
      i < |ms| && OnSubnet(ms[i], subnet) && Classify(ms[i].rule.command) == UnknownCmd
      && forall j :: 0 <= j < i ==> !Decisive(ms[j], subnet, hostname)
    ensures SubnetOutcomes(cfg, pvinfo, subnet, hostname) == {Err(UnknownCommandError(cfg.matchesOf(pvinfo.name)[i].rule.command))}
  {
    var ms := cfg.matchesOf(pvinfo.name);
    assert !DeniesHost(ms[i], hostname);
    FirstDecisiveDecides(NoTables, ms, subnet, hostname, i);
    assert ScanFrom(NoTables, ms, subnet, hostname) == Unrecognised(ms[i].rule.command);
  }

  /** A plain DENY anywhere in a file of the subnet is recorded, whatever precedes or follows it. */
  lemma {:induction false} ScanRecordsDeny(t: Tables, ms: seq<PvlistMatch>, subnet: string, hostname: string, i: nat)
    requires i < |ms| && OnSubnet(ms[i], subnet) && ms[i].rule.command == "DENY"
    requires ScanFrom(t, ms, subnet, hostname).Scanned?
    ensures ms[i].filename in ScanFrom(t, ms, subnet, hostname).t.deny
    decreases i
  {
    var next := Advance(t, ms[0], subnet);
    assert ScanFrom(t, ms, subnet, hostname) == ScanFrom(next, ms[1..], subnet, hostname);
    if i == 0 {
      assert ms[0].filename in next.deny;
    } else {
      assert ms[1..][i - 1] == ms[i];
      ScanRecordsDeny(next, ms[1..], subnet, hostname, i - 1);
    }
  }

  /** DENY beats ALLOW: a file with a plain DENY match is DISCONNECTED, in any order of its matches. */
  lemma DenyWins(ms: seq<PvlistMatch>, subnet: string, hostname: string, acs: AccessSecurity, i: nat)
    requires i < |ms| && OnSubnet(ms[i], subnet) && ms[i].rule.command == "DENY"
    requires ScanFrom(NoTables, ms, subnet, hostname).Scanned?
    ensures FileVerdict(ScanFrom(NoTables, ms, subnet, hostname).t, acs, hostname, ms[i].filename) == Ok(Some(Disconnected))
  {
    ScanRecordsDeny(NoTables, ms, subnet, hostname, i);
  }

  /**
   * When the files could all be evaluated, no connecting file means a timeout, one means
   * the IOC's record with demoted access, and more means the configs are inconsistent.
   */
  lemma CombineCases(cfg: Configuration, pvinfo: PVInfo, subnet: string, hostname: string, t: Tables)
    requires ScanFrom(NoTables, cfg.matchesOf(pvinfo.name), subnet, hostname) == Scanned(t)
    requires forall f :: f in t.filenames ==> FileVerdict(t, cfg.acs, hostname, f).Ok?
    ensures var gw := Connected(Summary(t, cfg.acs, hostname, t.filenames));
      && (|gw| == 0 ==> SubnetOutcomes(cfg, pvinfo, subnet, hostname) == {Ok(TimedOut(pvinfo.name))})
      && (|gw| >= 2 ==> SubnetOutcomes(cfg, pvinfo, subnet, hostname) == {Err(Inconsistent)})
      && (|gw| == 1 ==> exists f :: (f in gw && FileVerdict(t, cfg.acs, hostname, f) == Ok(Some(Summary(t, cfg.acs, hostname, t.filenames)[f]))
            && SubnetOutcomes(cfg, pvinfo, subnet, hostname) == {Expected(pvinfo, Summary(t, cfg.acs, hostname, t.filenames)[f])}))
  {
    assert Failures(t, cfg.acs, hostname) == {};
    var summary := Summary(t, cfg.acs, hostname, t.filenames);
    assert FromTables(t, cfg.acs, pvinfo, hostname) == {Combine(pvinfo, summary)};
  }

  /** The access-security file of the permission tests: HAG mfxhosts, ASG DEFAULT and ASG RWMFX. */
  const MinimalAcs := AccessSecurity(
    [("DEFAULT", [AsgRule(None, "READ")]),
     ("RWMFX", [AsgRule(None, "READ"), AsgRule(Some(["mfxhosts"]), "WRITE")])],
    [("mfxhosts", ["mfx-control", "mfx-console"])])

  /** DEFAULT gives READ to every host. */
  lemma DefaultReads(hostname: string)
    ensures GroupBehavior(MinimalAcs, "DEFAULT", hostname) == Ok(Read)
  {
    var rules := [AsgRule(None, "READ")];
    assert Get(MinimalAcs.groups, "DEFAULT") == Some(rules);
    assert Promote(Member(Disconnected), StrArg("READ")) == Ok(Read);
    assert PromoteRules(Read, rules[1..], MinimalAcs, hostname) == Ok(Read);
  }

  /** RWMFX gives WRITE to the mfxhosts and READ to every other host. */
  lemma RwmfxScenario(hostname: string)
    ensures GroupBehavior(MinimalAcs, "RWMFX", hostname)
      == if hostname in {"mfx-control", "mfx-console"} then Ok(Write) else Ok(Read)
  {
    var rules := [AsgRule(None, "READ"), AsgRule(Some(["mfxhosts"]), "WRITE")];
    assert Get(MinimalAcs.groups, "RWMFX") == Some(rules);
    assert Promote(Member(Disconnected), StrArg("READ")) == Ok(Read);
    MfxHosts();
    assert Promote(Member(Read), StrArg("WRITE")) == Ok(Write);
    assert rules[1..][1..] == [];
  }

  /** The host group mfxhosts names the two mfx hosts. */
  lemma MfxHosts()
    ensures HostsFrom({}, ["mfxhosts"], MinimalAcs) == Ok({"mfx-control", "mfx-console"})
  {
    var hosts := ["mfx-control", "mfx-console"];
    assert Get(MinimalAcs.hosts, "mfxhosts") == Some(hosts);
    var hgs := ["mfxhosts"];
    assert hgs[0] == "mfxhosts" && hgs[1..] == [];
    var named := set h | h in hosts;
    assert named == {"mfx-control", "mfx-console"};
    assert HostsFrom({}, hgs, MinimalAcs) == HostsFrom({} + named, hgs[1..], MinimalAcs);
    assert {} + named == named;
  }
}
