/**
 * The gateway host's interface table (gateway_tests/interface.py InterfaceConfig): the
 * subnets the epicscagp script defines, and which gateway host has an interface on each.
 */
module InterfaceTable {
  import opened Wrappers
  import opened Dicts
  import opened Strings
  import opened Values
  import opened Interface

  /**
   * One line of the epicscagp script, already matched. For an `export VAR=a.b.c.d` line,
   * `broadcast` is what precedes `_BC` when VAR matches `(.*)_BC`, `iface` is what
   * precedes `_IF` and the two digits after it when VAR matches `(.*)_IF(\d\d)`, and
   * `addr` is the address; any other line has neither.
   */
  datatype EpicsLine = EpicsLine(broadcast: Option<string>, iface: Option<(string, string)>, addr: string)

  /** Subnets the table never holds. */
  const IgnoreSubnets: seq<string> := ["mcc", "mcc1", "mcc2"]

  /**
   * An interface of a gateway host: the name of its subnet and its address. Its subnet
   * is the table's entry under that name.
   */
  datatype InterfaceInfo = InterfaceInfo(name: string, ipaddr: string)

  type Hosts = Dict<Dict<InterfaceInfo>>

  /** A name the table can hold: lower-case and not ignored. */
  predicate Kept(name: string) {
    Lower(name) == name && name !in IgnoreSubnets
  }

  lemma LowerTwice(s: string)
    ensures Lower(Lower(s)) == Lower(s)
  {
  }

  // ---------------------------------------------------------------- first pass

  /** The subnet a broadcast line defines, when it defines one the table keeps. */
  predicate Defines(line: EpicsLine, name: string) {
    line.broadcast.Some? && Lower(line.broadcast.value) == name && name !in IgnoreSubnets
  }

  /** One line of the first pass: a broadcast line (re)defines its subnet, with no mask yet. */
  function SubnetStep(subnets: Dict<SubnetInfo>, line: EpicsLine): Dict<SubnetInfo> {
    if line.broadcast.None? then subnets
    else
      var name := Lower(line.broadcast.value);
      if name in IgnoreSubnets then subnets
      else Assign(subnets, name, SubnetInfo(name, "", line.addr))
  }

  /** The first pass over the lines still to read. */
  function SubnetsFrom(subnets: Dict<SubnetInfo>, lines: seq<EpicsLine>): Dict<SubnetInfo>
    decreases |lines|
  {
    if lines == [] then subnets else SubnetsFrom(SubnetStep(subnets, lines[0]), lines[1..])
  }

  /** Every entry of the subnet table is keyed by its own name, which the table can hold. */
  predicate SubnetsNamed(subnets: Dict<SubnetInfo>) {
    UniqueKeys(subnets) && forall e :: e in subnets ==> e.1.name == e.0 && Kept(e.0)
  }

  /** No subnet has a mask yet. */
  predicate Unmasked(subnets: Dict<SubnetInfo>) {
    forall e :: e in subnets ==> e.1.mask == ""
  }

  /** The first pass keeps the table well named and leaves every mask empty. */
  lemma {:induction false} SubnetsFromShape(subnets: Dict<SubnetInfo>, lines: seq<EpicsLine>)
    requires SubnetsNamed(subnets) && Unmasked(subnets)
    ensures SubnetsNamed(SubnetsFrom(subnets, lines)) && Unmasked(SubnetsFrom(subnets, lines))
    decreases |lines|
  {
    if lines != [] {
      var line := lines[0];
      if line.broadcast.Some? && Lower(line.broadcast.value) !in IgnoreSubnets {
        var name := Lower(line.broadcast.value);
        AssignIn(subnets, name, SubnetInfo(name, "", line.addr));
        AssignUnique(subnets, name, SubnetInfo(name, "", line.addr));
        LowerTwice(line.broadcast.value);
      }
      SubnetsFromShape(SubnetStep(subnets, line), lines[1..]);
    }
  }

  /** The first pass defines exactly the subnets some broadcast line names. */
  lemma {:induction false} SubnetsFromKeys(subnets: Dict<SubnetInfo>, lines: seq<EpicsLine>, k: string)
    ensures k in Keys(SubnetsFrom(subnets, lines)) <==>
      k in Keys(subnets) || exists i :: 0 <= i < |lines| && Defines(lines[i], k)
    decreases |lines|
  {
    if lines != [] {
      var line := lines[0];
      if line.broadcast.Some? && Lower(line.broadcast.value) !in IgnoreSubnets {
        AssignKeys(subnets, Lower(line.broadcast.value), SubnetInfo(Lower(line.broadcast.value), "", line.addr));
      }
      SubnetsFromKeys(SubnetStep(subnets, line), lines[1..], k);
      assert forall i :: 1 <= i < |lines| ==> lines[i] == lines[1..][i - 1];
      if exists i :: 0 <= i < |lines| && Defines(lines[i], k) {
        var i :| 0 <= i < |lines| && Defines(lines[i], k);
        if i > 0 {
          assert Defines(lines[1..][i - 1], k);
        }
      }
    }
  }

  // --------------------------------------------------------------- second pass

  /** The subnet an interface line names. */
  function IfaceSubnet(line: EpicsLine): string
    requires line.iface.Some?
  {
    Lower(line.iface.value.0)
  }

  /** An interface line the second pass reads (its subnet is not ignored). */
  predicate Counts(line: EpicsLine) {
    line.iface.Some? && IfaceSubnet(line) !in IgnoreSubnets
  }

  /** An interface line whose subnet the first pass did not define. */
  predicate Undefined(subnets: Dict<SubnetInfo>, line: EpicsLine) {
    Counts(line) && IfaceSubnet(line) !in Keys(subnets)
  }

  /**
   * The second pass over the lines still to read: an interface line records
   * interface `subnet` of host "pscag" + the two digits. The host's entry is created
   * before the subnet is looked up, so a KeyError for an undefined subnet leaves it behind.
   */
  function InterfacesFrom(hosts: Hosts, subnets: Dict<SubnetInfo>, lines: seq<EpicsLine>): (r: (Hosts, Option<PyExc>))
    decreases |lines|
    ensures r.1.Some? ==> r.1.value.KeyError?
  {
    if lines == [] then (hosts, None)
    else
      var line := lines[0];
      if !Counts(line) then InterfacesFrom(hosts, subnets, lines[1..])
      else
        var subnet, host := IfaceSubnet(line), "pscag" + line.iface.value.1;
        var hosts' := AddHost(hosts, host);
        if subnet !in Keys(subnets) then (hosts', Some(KeyError(subnet)))
        else InterfacesFrom(Record(hosts', host, subnet, line.addr), subnets, lines[1..])
  }

  /** `hosts[host]`, created empty when missing. */
  function AddHost(hosts: Hosts, host: string): Hosts {
    if host in Keys(hosts) then hosts else hosts + [(host, [])]
  }

  /** `hosts[host][subnet] = InterfaceInfo(subnet, addr)`. */
  function Record(hosts: Hosts, host: string, subnet: string, addr: string): Hosts {
    Assign(hosts, host, Assign(GetOr(hosts, host, []), subnet, InterfaceInfo(subnet, addr)))
  }

  /**
   * The second pass raises KeyError exactly when an interface line names an undefined
   * subnet, and then for the first such line.
   */
  lemma {:induction false} InterfacesFromError(hosts: Hosts, subnets: Dict<SubnetInfo>, lines: seq<EpicsLine>)
    decreases |lines|
    ensures InterfacesFrom(hosts, subnets, lines).1.None? <==>
      forall i :: 0 <= i < |lines| ==> !Undefined(subnets, lines[i])
    ensures InterfacesFrom(hosts, subnets, lines).1.Some? ==> exists i :: (0 <= i < |lines| && Undefined(subnets, lines[i])
      && InterfacesFrom(hosts, subnets, lines).1 == Some(KeyError(IfaceSubnet(lines[i])))
      && forall j :: 0 <= j < i ==> !Undefined(subnets, lines[j]))
  {
    if lines != [] {
      var line := lines[0];
      assert forall i :: 1 <= i < |lines| ==> lines[i] == lines[1..][i - 1];
      if !Undefined(subnets, line) {
        var next := if !Counts(line) then hosts
          else Record(AddHost(hosts, "pscag" + line.iface.value.1), "pscag" + line.iface.value.1, IfaceSubnet(line), line.addr);
        assert InterfacesFrom(hosts, subnets, lines) == InterfacesFrom(next, subnets, lines[1..]);
        InterfacesFromError(next, subnets, lines[1..]);
        if InterfacesFrom(next, subnets, lines[1..]).1.Some? {
          var i :| 0 <= i < |lines[1..]| && Undefined(subnets, lines[1..][i])
            && InterfacesFrom(next, subnets, lines[1..]).1 == Some(KeyError(IfaceSubnet(lines[1..][i])))
            && forall j :: 0 <= j < i ==> !Undefined(subnets, lines[1..][j]);
          assert Undefined(subnets, lines[i + 1]);
        }
      }
    }
  }

  /**
   * Shape of the hosts table: every host is named "pscag" + digits, and each of its
   * interfaces is keyed by its subnet's name, a subnet of the table.
   */
  predicate HostsShaped(hosts: Hosts, subnets: Dict<SubnetInfo>) {
    forall h :: h in hosts ==> (StartsWith(h.0, "pscag")
      && forall f :: f in h.1 ==> f.1.name == f.0 && f.0 in Keys(subnets) && Kept(f.0))
  }

  /** The second pass keeps that shape, whether or not it raises. */
  lemma {:induction false} InterfacesFromShape(hosts: Hosts, subnets: Dict<SubnetInfo>, lines: seq<EpicsLine>)
    requires HostsShaped(hosts, subnets)
    ensures HostsShaped(InterfacesFrom(hosts, subnets, lines).0, subnets)
    decreases |lines|
  {
    if lines != [] && Counts(lines[0]) {
      var line := lines[0];
      var subnet, host := IfaceSubnet(line), "pscag" + line.iface.value.1;
      if subnet in Keys(subnets) {
        LowerTwice(line.iface.value.0);
        RecordShaped(hosts, subnets, host, subnet, line.addr);
        InterfacesFromShape(Record(AddHost(hosts, host), host, subnet, line.addr), subnets, lines[1..]);
      } else {
        assert HostsShaped(AddHost(hosts, host), subnets);
      }
    } else if lines != [] {
      InterfacesFromShape(hosts, subnets, lines[1..]);
    }
  }

  /** Recording a kept subnet of the table under a "pscag" host keeps the shape. */
  lemma RecordShaped(hosts: Hosts, subnets: Dict<SubnetInfo>, host: string, subnet: string, addr: string)
    requires HostsShaped(hosts, subnets) && StartsWith(host, "pscag")
    requires subnet in Keys(subnets) && Kept(subnet)
    ensures HostsShaped(Record(AddHost(hosts, host), host, subnet, addr), subnets)
  {
    var hosts' := AddHost(hosts, host);
    assert HostsShaped(hosts', subnets);
    var info := GetOr(hosts', host, []);
    if host in Keys(hosts') {
      GetIn(hosts', host);
    }
    assert forall f :: f in info ==> f.1.name == f.0 && f.0 in Keys(subnets) && Kept(f.0);
    var info' := Assign(info, subnet, InterfaceInfo(subnet, addr));
    AssignIn(info, subnet, InterfaceInfo(subnet, addr));
    assert forall f :: f in info' ==> f.1.name == f.0 && f.0 in Keys(subnets) && Kept(f.0);
    AssignIn(hosts', host, info');
  }

  /** `h2` records every interface `h1` records. */
  predicate Records(h1: Hosts, h2: Hosts) {
    forall host, k :: host in Keys(h1) && k in Keys(Get(h1, host).value) ==>
      host in Keys(h2) && k in Keys(Get(h2, host).value)
  }

  /** The host's interface on `subnet` is recorded. */
  predicate Recorded(hosts: Hosts, host: string, subnet: string) {
    host in Keys(hosts) && subnet in Keys(Get(hosts, host).value)
  }

  /** One step of the second pass forgets nothing and records its own line. */
  lemma InterfaceStepRecords(hosts: Hosts, host: string, subnet: string, x: InterfaceInfo)
    ensures var next := Record(AddHost(hosts, host), host, subnet, x.ipaddr);
      Records(hosts, next) && Recorded(next, host, subnet)
  {
    var hosts' := AddHost(hosts, host);
    var info := GetOr(hosts', host, []);
    var x := InterfaceInfo(subnet, x.ipaddr);
    AssignKeys(info, subnet, x);
    AssignKeys(hosts', host, Assign(info, subnet, x));
    if host !in Keys(hosts) {
      assert forall j :: j != host ==> Get(hosts', j) == Get(hosts, j) by {
        AssignPlace(hosts, host, []);
      }
    }
  }

  /**
   * After a second pass that does not raise, every interface line is recorded under
   * host "pscag" + its two digits, keyed by its lower-cased subnet.
   */
  lemma {:induction false} InterfacesFromRecords(hosts: Hosts, subnets: Dict<SubnetInfo>, lines: seq<EpicsLine>)
    requires InterfacesFrom(hosts, subnets, lines).1.None?
    ensures Records(hosts, InterfacesFrom(hosts, subnets, lines).0)
    ensures forall i :: 0 <= i < |lines| && Counts(lines[i]) ==>
      Recorded(InterfacesFrom(hosts, subnets, lines).0, "pscag" + lines[i].iface.value.1, IfaceSubnet(lines[i]))
    decreases |lines|
  {
    if lines != [] {
      var line := lines[0];
      var r := InterfacesFrom(hosts, subnets, lines).0;
      assert forall i :: 1 <= i < |lines| ==> lines[i] == lines[1..][i - 1];
      if Counts(line) {
        var subnet, host := IfaceSubnet(line), "pscag" + line.iface.value.1;
        var next := Record(AddHost(hosts, host), host, subnet, line.addr);
        InterfaceStepRecords(hosts, host, subnet, InterfaceInfo(subnet, line.addr));
        InterfacesFromRecords(next, subnets, lines[1..]);
        assert r == InterfacesFrom(next, subnets, lines[1..]).0;
      } else {
        InterfacesFromRecords(hosts, subnets, lines[1..]);
      }
    }
  }

  // ---------------------------------------------------------------- third pass

  /** `host_info.values()` for each host in turn: every interface, in table order. */
  function Interfaces(hosts: Hosts): (r: seq<InterfaceInfo>)
    decreases |hosts|
    ensures forall x :: x in r ==> exists h, f :: h in hosts && f in h.1 && f.1 == x
  {
    if hosts == [] then []
    else
      var r := ValueList(hosts[0].1) + Interfaces(hosts[1..]);
      assert forall x :: x in ValueList(hosts[0].1) ==> exists f :: f in hosts[0].1 && f.1 == x;
      r
  }

  /**
   * The third pass over the interfaces still to visit: an interface whose subnet has no
   * mask yet sets it to `get_mask` of its address and the subnet's broadcast address;
   * a ValueError from `get_mask` stops the pass with the masks set so far.
   */
  function Backfill(subnets: Dict<SubnetInfo>, ifs: seq<InterfaceInfo>, getMask: (string, string) -> Result<string, PyExc>): (r: (Dict<SubnetInfo>, Option<PyExc>))
    decreases |ifs|
    ensures KeyList(r.0) == KeyList(subnets)
  {
    if ifs == [] then (subnets, None)
    else
      var x := ifs[0];
      match Get(subnets, x.name)
      case None => Backfill(subnets, ifs[1..], getMask)
      case Some(s) =>
        if s.mask != "" then Backfill(subnets, ifs[1..], getMask)
        else
          match getMask(x.ipaddr, s.bcaddr)
          case Err(e) => (subnets, Some(e))
          case Ok(m) =>
            AssignPlace(subnets, x.name, s.(mask := m));
            Backfill(Assign(subnets, x.name, s.(mask := m)), ifs[1..], getMask)
  }

  /** `getMask` never answers with an empty mask. */
  ghost predicate MaskGiven(getMask: (string, string) -> Result<string, PyExc>) {
    forall ip, bc :: getMask(ip, bc).Ok? ==> getMask(ip, bc).value != ""
  }

  /** `get_mask` never answers with an empty mask: each of its guesses is a mask. */
  lemma MaskOfGiven()
    ensures MaskGiven(MaskOf)
  {
    forall ip, bc | MaskOf(ip, bc).Ok?
      ensures MaskOf(ip, bc).value != ""
    {
      MaskOfFits(ip, bc);
    }
  }

  /** The third pass over `a + b` is the pass over `a` and, unless that raised, then over `b`. */
  lemma {:induction false} BackfillAppend(subnets: Dict<SubnetInfo>, a: seq<InterfaceInfo>, b: seq<InterfaceInfo>, getMask: (string, string) -> Result<string, PyExc>)
    ensures Backfill(subnets, a + b, getMask) ==
      if Backfill(subnets, a, getMask).1.Some? then Backfill(subnets, a, getMask)
      else Backfill(Backfill(subnets, a, getMask).0, b, getMask)
    decreases |a|
  {
    if a == [] {
      assert a + b == b;
    } else {
      assert (a + b)[0] == a[0] && (a + b)[1..] == a[1..] + b;
      var s := Get(subnets, a[0].name);
      if s.Some? && s.value.mask == "" && getMask(a[0].ipaddr, s.value.bcaddr).Ok? {
        BackfillAppend(Assign(subnets, a[0].name, s.value.(mask := getMask(a[0].ipaddr, s.value.bcaddr).value)), a[1..], b, getMask);
      } else if s.Some? && s.value.mask == "" {
      } else {
        BackfillAppend(subnets, a[1..], b, getMask);
      }
    }
  }

  /** The mask of the subnet under `k`. */
  function MaskAt(subnets: Dict<SubnetInfo>, k: string): string
    requires k in Keys(subnets)
  {
    Get(subnets, k).value.mask
  }

  /**
   * Interface `i` gave subnet `k` its mask: it is on `k`, `getMask` of its address and
   * `bcaddr` is that mask, and every earlier interface on `k` got the empty mask, so the
   * `if not mask` test let the later one try again.
   */
  predicate MaskedBy(ifs: seq<InterfaceInfo>, getMask: (string, string) -> Result<string, PyExc>, bcaddr: string, k: string, mask: string, i: int) {
    && 0 <= i < |ifs| && ifs[i].name == k && getMask(ifs[i].ipaddr, bcaddr) == Ok(mask)
    && forall j :: 0 <= j < i && ifs[j].name == k ==> getMask(ifs[j].ipaddr, bcaddr) == Ok("")
  }

  /** No interface before `i` is on subnet `k`. */
  predicate FirstOn(ifs: seq<InterfaceInfo>, k: string, i: int) {
    forall j :: 0 <= j < i && j < |ifs| ==> ifs[j].name != k
  }

  /** An interface that set the mask after the first one still did so after an extra one in front. */
  lemma MaskedByShift(x: InterfaceInfo, ifs: seq<InterfaceInfo>, getMask: (string, string) -> Result<string, PyExc>, bcaddr: string, k: string, mask: string, i: int)
    requires MaskedBy(ifs, getMask, bcaddr, k, mask, i)
    requires x.name == k ==> getMask(x.ipaddr, bcaddr) == Ok("")
    ensures MaskedBy([x] + ifs, getMask, bcaddr, k, mask, i + 1)
  {
    var xs := [x] + ifs;
    forall j | 0 <= j < i + 1 && xs[j].name == k
      ensures getMask(xs[j].ipaddr, bcaddr) == Ok("")
    {
      if j > 0 {
        assert xs[j] == ifs[j - 1];
      }
    }
  }

  /** When `getMask` never gives the empty mask, the interface that set it is the first on its subnet. */
  lemma MaskedByFirst(ifs: seq<InterfaceInfo>, getMask: (string, string) -> Result<string, PyExc>, bcaddr: string, k: string, mask: string, i: int)
    requires MaskedBy(ifs, getMask, bcaddr, k, mask, i) && MaskGiven(getMask)
    ensures FirstOn(ifs, k, i)
  {
    forall j | 0 <= j < i && j < |ifs|
      ensures ifs[j].name != k
    {
      assert getMask(ifs[j].ipaddr, bcaddr) != Ok("");
    }
  }

  /**
   * The third pass changes only masks that were empty, and a mask it sets is the one
   * `getMask` gives for the first interface on that subnet it did not answer with the
   * empty mask, and the subnet's broadcast address.
   */
  lemma {:induction false} BackfillSets(subnets: Dict<SubnetInfo>, ifs: seq<InterfaceInfo>, getMask: (string, string) -> Result<string, PyExc>, k: string)
    requires k in Keys(subnets)
    ensures var r := Backfill(subnets, ifs, getMask).0;
      k in Keys(r) && (Get(r, k) == Get(subnets, k) || (MaskAt(subnets, k) == ""
        && Get(r, k).value == Get(subnets, k).value.(mask := MaskAt(r, k))
        && exists i :: MaskedBy(ifs, getMask, Get(r, k).value.bcaddr, k, MaskAt(r, k), i)))
    decreases |ifs|
  {
    if ifs != [] {
      var x := ifs[0];
      assert ifs == [x] + ifs[1..];
      var s := Get(subnets, x.name);
      var r := Backfill(subnets, ifs, getMask).0;
      if s.Some? && s.value.mask == "" && getMask(x.ipaddr, s.value.bcaddr).Ok? {
        var m := getMask(x.ipaddr, s.value.bcaddr).value;
        var next := Assign(subnets, x.name, s.value.(mask := m));
        AssignKeys(subnets, x.name, s.value.(mask := m));
        BackfillSets(next, ifs[1..], getMask, k);
        if k == x.name && m != "" {
          BackfillStable(next, ifs[1..], getMask, k);
          assert MaskedBy(ifs, getMask, Get(r, k).value.bcaddr, k, MaskAt(r, k), 0);
        } else if Get(r, k) != Get(subnets, k) {
          assert Get(next, k) == Get(subnets, k);
          var i :| MaskedBy(ifs[1..], getMask, Get(r, k).value.bcaddr, k, MaskAt(r, k), i);
          MaskedByShift(x, ifs[1..], getMask, Get(r, k).value.bcaddr, k, MaskAt(r, k), i);
        }
      } else if s.Some? && s.value.mask == "" {
      } else {
        BackfillSets(subnets, ifs[1..], getMask, k);
        if Get(r, k) != Get(subnets, k) {
          var i :| MaskedBy(ifs[1..], getMask, Get(r, k).value.bcaddr, k, MaskAt(r, k), i);
          MaskedByShift(x, ifs[1..], getMask, Get(r, k).value.bcaddr, k, MaskAt(r, k), i);
        }
      }
    }
  }

  /** The third pass leaves a subnet that has a mask alone. */
  lemma {:induction false} BackfillStable(subnets: Dict<SubnetInfo>, ifs: seq<InterfaceInfo>, getMask: (string, string) -> Result<string, PyExc>, k: string)
    requires k in Keys(subnets) && MaskAt(subnets, k) != ""
    ensures Get(Backfill(subnets, ifs, getMask).0, k) == Get(subnets, k)
    decreases |ifs|
  {
    if ifs != [] {
      var x := ifs[0];
      var s := Get(subnets, x.name);
      if s.Some? && s.value.mask == "" && getMask(x.ipaddr, s.value.bcaddr).Ok? {
        var m := getMask(x.ipaddr, s.value.bcaddr).value;
        AssignKeys(subnets, x.name, s.value.(mask := m));
        BackfillStable(Assign(subnets, x.name, s.value.(mask := m)), ifs[1..], getMask, k);
      } else if s.Some? && s.value.mask == "" {
      } else {
        BackfillStable(subnets, ifs[1..], getMask, k);
      }
    }
  }

  /** A third pass that does not raise gives a mask to every subnet some interface names. */
  lemma {:induction false} BackfillCovers(subnets: Dict<SubnetInfo>, ifs: seq<InterfaceInfo>, getMask: (string, string) -> Result<string, PyExc>, i: nat)
    requires i < |ifs| && ifs[i].name in Keys(subnets)
    requires Backfill(subnets, ifs, getMask).1.None? && MaskGiven(getMask)
    ensures ifs[i].name in Keys(Backfill(subnets, ifs, getMask).0)
    ensures MaskAt(Backfill(subnets, ifs, getMask).0, ifs[i].name) != ""
    decreases |ifs|
  {
    var x := ifs[0];
    var s := Get(subnets, x.name);
    if s.Some? && s.value.mask == "" {
      var m := getMask(x.ipaddr, s.value.bcaddr).value;
      var next := Assign(subnets, x.name, s.value.(mask := m));
      AssignKeys(subnets, x.name, s.value.(mask := m));
      if i == 0 {
        BackfillStable(next, ifs[1..], getMask, x.name);
      } else {
        assert ifs[1..][i - 1] == ifs[i];
        BackfillCovers(next, ifs[1..], getMask, i - 1);
      }
    } else if i == 0 {
      BackfillStable(subnets, ifs[1..], getMask, x.name);
    } else {
      assert ifs[1..][i - 1] == ifs[i];
      BackfillCovers(subnets, ifs[1..], getMask, i - 1);
    }
  }

  // --------------------------------------------------------------- fourth pass

  /** The subnets that have a mask, in table order. */
  function Prune(subnets: Dict<SubnetInfo>): (r: Dict<SubnetInfo>)
    ensures |r| <= |subnets|
  {
    if subnets == [] then []
    else (if subnets[0].1.mask == "" then [] else [subnets[0]]) + Prune(subnets[1..])
  }

  /** The pruned table holds exactly the items that have a mask. */
  lemma {:induction false} PruneIn(subnets: Dict<SubnetInfo>)
    ensures forall e :: e in Prune(subnets) <==> e in subnets && e.1.mask != ""
  {
    if subnets != [] {
      PruneIn(subnets[1..]);
      assert forall e :: e in subnets <==> e == subnets[0] || e in subnets[1..];
    }
  }

  lemma {:induction false} PruneAppend(a: Dict<SubnetInfo>, b: Dict<SubnetInfo>)
    ensures Prune(a + b) == Prune(a) + Prune(b)
  {
    if a != [] {
      assert (a + b)[0] == a[0] && (a + b)[1..] == a[1..] + b;
      PruneAppend(a[1..], b);
    } else {
      assert a + b == b;
    }
  }

  /** With unique keys, the pruned table holds a key exactly when its subnet has a mask. */
  lemma PruneKeys(subnets: Dict<SubnetInfo>, k: string)
    requires UniqueKeys(subnets)
    ensures k in Keys(Prune(subnets)) <==> k in Keys(subnets) && MaskAt(subnets, k) != ""
  {
    var p := Prune(subnets);
    PruneIn(subnets);
    if k in Keys(p) {
      var j :| 0 <= j < |p| && p[j].0 == k;
      assert p[j] in p;
      var i :| 0 <= i < |subnets| && subnets[i] == p[j];
      GetUnique(subnets, i);
    }
    if k in Keys(subnets) {
      var i :| 0 <= i < |subnets| && subnets[i].0 == k;
      GetUnique(subnets, i);
      if MaskAt(subnets, k) != "" {
        assert subnets[i] in p;
        var j :| 0 <= j < |p| && p[j] == subnets[i];
      }
    }
  }

  /** With unique keys, pruning keeps the subnet under each key it keeps. */
  lemma PruneGet(subnets: Dict<SubnetInfo>, k: string)
    requires UniqueKeys(subnets) && k in Keys(Prune(subnets))
    ensures Get(Prune(subnets), k) == Get(subnets, k)
  {
    var p := Prune(subnets);
    PruneIn(subnets);
    var j :| 0 <= j < |p| && p[j].0 == k;
    assert p[j] in p;
    var i :| 0 <= i < |subnets| && subnets[i] == p[j];
    GetUnique(subnets, i);
    PruneUnique(subnets);
    GetUnique(p, j);
  }

  lemma {:induction false} PruneUnique(subnets: Dict<SubnetInfo>)
    requires UniqueKeys(subnets)
    ensures UniqueKeys(Prune(subnets))
  {
    if subnets != [] {
      assert UniqueKeys(subnets[1..]);
      PruneUnique(subnets[1..]);
      var rest := Prune(subnets[1..]);
      PruneIn(subnets[1..]);
      forall j | 0 <= j < |rest|
        ensures rest[j].0 != subnets[0].0
      {
        assert rest[j] in rest;
        var m :| 0 <= m < |subnets[1..]| && subnets[1..][m] == rest[j];
        assert subnets[m + 1] == rest[j];
      }
    }
  }

  // --------------------------------------------------------------- the whole read

  /**
   * What `reread_epicscagp` leaves in the hosts and subnets tables, and what it raises,
   * with `getMask` in the place of `get_mask` (the class passes `MaskOf`).
   */
  function Reading(lines: seq<EpicsLine>, getMask: (string, string) -> Result<string, PyExc>): (Hosts, Dict<SubnetInfo>, Option<PyExc>) {
    var subnets := SubnetsFrom([], lines);
    var (hosts, err) := InterfacesFrom([], subnets, lines);
    if err.Some? then (hosts, subnets, err)
    else
      var (masked, err') := Backfill(subnets, Interfaces(hosts), getMask);
      if err'.Some? then (hosts, masked, err')
      else (hosts, Prune(masked), None)
  }

  /** The third pass keeps the keys unique, and each subnet under its own lower-case name. */
  lemma BackfillNamed(subnets: Dict<SubnetInfo>, ifs: seq<InterfaceInfo>, getMask: (string, string) -> Result<string, PyExc>)
    requires SubnetsNamed(subnets)
    ensures SubnetsNamed(Backfill(subnets, ifs, getMask).0)
  {
    var r := Backfill(subnets, ifs, getMask).0;
    assert UniqueKeys(r) by {
      forall i, j | 0 <= i < j < |r| ensures r[i].0 != r[j].0 {
        assert r[i].0 == KeyList(r)[i] == subnets[i].0;
        assert r[j].0 == KeyList(r)[j] == subnets[j].0;
      }
    }
    forall e | e in r
      ensures e.1.name == e.0 && Kept(e.0)
    {
      var i :| 0 <= i < |r| && r[i] == e;
      assert e.0 == KeyList(r)[i] == subnets[i].0;
      GetUnique(r, i);
      GetUnique(subnets, i);
      assert subnets[i] in subnets;
      BackfillSets(subnets, ifs, getMask, e.0);
    }
  }

  /** Every name in either table is lower-case and not ignored, whatever the read raised. */
  lemma ReadingNames(lines: seq<EpicsLine>, getMask: (string, string) -> Result<string, PyExc>)
    ensures var (hosts, subnets, _) := Reading(lines, getMask);
      SubnetsNamed(subnets)
      && forall h :: h in hosts ==> StartsWith(h.0, "pscag") && forall f :: f in h.1 ==> Kept(f.0)
  {
    var s1 := SubnetsFrom([], lines);
    SubnetsFromShape([], lines);
    InterfacesFromShape([], s1, lines);
    var (hosts, err) := InterfacesFrom([], s1, lines);
    if err.None? {
      var masked := Backfill(s1, Interfaces(hosts), getMask).0;
      BackfillNamed(s1, Interfaces(hosts), getMask);
      PruneIn(masked);
      PruneUnique(masked);
    }
  }

  /**
   * From a table with no masks yet, a subnet kept by the third and fourth passes has the
   * mask its first interface not answered with the empty mask gave it.
   */
  lemma KeptMaskedBy(subnets: Dict<SubnetInfo>, ifs: seq<InterfaceInfo>, getMask: (string, string) -> Result<string, PyExc>, k: string)
    requires SubnetsNamed(subnets) && Unmasked(subnets)
    requires k in Keys(Prune(Backfill(subnets, ifs, getMask).0))
    ensures var r := Prune(Backfill(subnets, ifs, getMask).0);
      exists i :: (MaskedBy(ifs, getMask, Get(r, k).value.bcaddr, k, MaskAt(r, k), i)
        && (MaskGiven(getMask) ==> FirstOn(ifs, k, i)))
  {
    var masked := Backfill(subnets, ifs, getMask).0;
    BackfillNamed(subnets, ifs, getMask);
    PruneKeys(masked, k);
    PruneGet(masked, k);
    assert k in Keys(subnets);
    var i :| 0 <= i < |subnets| && subnets[i].0 == k;
    GetUnique(subnets, i);
    assert subnets[i] in subnets;
    BackfillSets(subnets, ifs, getMask, k);
    var r := Prune(masked);
    assert Get(r, k) == Get(masked, k);
    var j :| MaskedBy(ifs, getMask, Get(masked, k).value.bcaddr, k, MaskAt(masked, k), j);
    if MaskGiven(getMask) {
      MaskedByFirst(ifs, getMask, Get(masked, k).value.bcaddr, k, MaskAt(masked, k), j);
    }
    assert MaskedBy(ifs, getMask, Get(r, k).value.bcaddr, k, MaskAt(r, k), j)
      && (MaskGiven(getMask) ==> FirstOn(ifs, k, j));
  }

  /**
   * Every subnet's mask is the one `getMask` gave for its broadcast address and the first
   * of `ifs` on it not answered with the empty mask; when `getMask` never answers so, that
   * is the first of `ifs` on the subnet.
   */
  ghost predicate MasksFromFirst(ifs: seq<InterfaceInfo>, subnets: Dict<SubnetInfo>, getMask: (string, string) -> Result<string, PyExc>) {
    forall k :: k in Keys(subnets) ==> exists i ::
      && MaskedBy(ifs, getMask, Get(subnets, k).value.bcaddr, k, MaskAt(subnets, k), i)
      && (MaskGiven(getMask) ==> FirstOn(ifs, k, i))
  }

  /**
   * A read that raises nothing leaves every subnet with the mask `getMask` gave for the
   * subnet's broadcast address and the first of the gateway's interfaces on it that was
   * not answered with the empty mask; when `getMask` never answers so, that is the first
   * interface on the subnet in the order the hosts and their interfaces were read.
   */
  lemma ReadingMasks(lines: seq<EpicsLine>, getMask: (string, string) -> Result<string, PyExc>)
    requires Reading(lines, getMask).2.None?
    ensures var (hosts, subnets, _) := Reading(lines, getMask);
      MasksFromFirst(Interfaces(hosts), subnets, getMask)
  {
    var s1 := SubnetsFrom([], lines);
    SubnetsFromShape([], lines);
    var (hosts, subnets, _) := Reading(lines, getMask);
    var ifs := Interfaces(hosts);
    assert subnets == Prune(Backfill(s1, ifs, getMask).0);
    forall k | k in Keys(subnets)
      ensures exists i :: (MaskedBy(ifs, getMask, Get(subnets, k).value.bcaddr, k, MaskAt(subnets, k), i)
        && (MaskGiven(getMask) ==> FirstOn(ifs, k, i)))
    {
      KeptMaskedBy(s1, ifs, getMask, k);
      var i :| MaskedBy(ifs, getMask, Get(subnets, k).value.bcaddr, k, MaskAt(subnets, k), i)
        && (MaskGiven(getMask) ==> FirstOn(ifs, k, i));
      assert MaskedBy(ifs, getMask, Get(subnets, k).value.bcaddr, k, MaskAt(subnets, k), i);
    }
    assert MasksFromFirst(ifs, subnets, getMask);
  }


  /** Every subnet's mask is the one `getMask` gave for the first of `ifs` on it and its broadcast address. */
  ghost predicate FirstMasks(ifs: seq<InterfaceInfo>, subnets: Dict<SubnetInfo>, getMask: (string, string) -> Result<string, PyExc>) {
    forall k :: k in Keys(subnets) ==> exists i ::
      (MaskedBy(ifs, getMask, Get(subnets, k).value.bcaddr, k, MaskAt(subnets, k), i) && FirstOn(ifs, k, i))
  }

  /** When `getMask` never answers with the empty mask, the masks come from the first interfaces. */
  lemma FirstMasksGiven(ifs: seq<InterfaceInfo>, subnets: Dict<SubnetInfo>, getMask: (string, string) -> Result<string, PyExc>)
    requires MasksFromFirst(ifs, subnets, getMask) && MaskGiven(getMask)
    ensures FirstMasks(ifs, subnets, getMask)
  {
    forall k | k in Keys(subnets)
      ensures exists i :: (MaskedBy(ifs, getMask, Get(subnets, k).value.bcaddr, k, MaskAt(subnets, k), i)
        && FirstOn(ifs, k, i))
    {
      var i :| MaskedBy(ifs, getMask, Get(subnets, k).value.bcaddr, k, MaskAt(subnets, k), i)
        && (MaskGiven(getMask) ==> FirstOn(ifs, k, i));
      assert MaskedBy(ifs, getMask, Get(subnets, k).value.bcaddr, k, MaskAt(subnets, k), i);
    }
  }

  /**
   * With `get_mask`, a read that raises nothing leaves every subnet with the mask
   * `get_mask` gives for the first of the gateway's interfaces on it, in the order the
   * hosts and their interfaces were read, and the subnet's broadcast address.
   */
  lemma ReadingMaskOfFirst(lines: seq<EpicsLine>)
    requires Reading(lines, MaskOf).2.None?
    ensures var (hosts, subnets, _) := Reading(lines, MaskOf);
      FirstMasks(Interfaces(hosts), subnets, MaskOf)
  {
    var (hosts, subnets, _) := Reading(lines, MaskOf);
    ReadingMasks(lines, MaskOf);
    MaskOfGiven();
    FirstMasksGiven(Interfaces(hosts), subnets, MaskOf);
  }

  /**
   * With `get_mask`, a read that raises nothing leaves every subnet with one of its
   * guesses as the mask, and containing the address of one of the gateway's interfaces.
   */
  lemma ReadingContains(lines: seq<EpicsLine>)
    requires Reading(lines, MaskOf).2.None?
    ensures var (hosts, subnets, _) := Reading(lines, MaskOf);
      forall k :: k in Keys(subnets) ==> (MaskAt(subnets, k) in MaskGuesses
        && exists x :: x in Interfaces(hosts) && x.name == k && ContainsIp(Get(subnets, k).value, x.ipaddr) == Ok(true))
  {
    var (hosts, subnets, _) := Reading(lines, MaskOf);
    ReadingMasks(lines, MaskOf);
    forall k | k in Keys(subnets)
      ensures MaskAt(subnets, k) in MaskGuesses
      ensures exists x :: x in Interfaces(hosts) && x.name == k && ContainsIp(Get(subnets, k).value, x.ipaddr) == Ok(true)
    {
      var i :| MaskedBy(Interfaces(hosts), MaskOf, Get(subnets, k).value.bcaddr, k, MaskAt(subnets, k), i);
      var x := Interfaces(hosts)[i];
      MaskOfFits(x.ipaddr, Get(subnets, k).value.bcaddr);
    }
  }

  /**
   * From a table with no masks yet, a third pass that does not raise followed by the
   * fourth keeps exactly the subnets some interface names.
   */
  lemma MaskedKeeps(subnets: Dict<SubnetInfo>, ifs: seq<InterfaceInfo>, getMask: (string, string) -> Result<string, PyExc>, k: string)
    requires SubnetsNamed(subnets) && Unmasked(subnets)
    requires Backfill(subnets, ifs, getMask).1.None? && MaskGiven(getMask)
    ensures k in Keys(Prune(Backfill(subnets, ifs, getMask).0)) <==>
      k in Keys(subnets) && exists x :: x in ifs && x.name == k
  {
    var masked := Backfill(subnets, ifs, getMask).0;
    BackfillNamed(subnets, ifs, getMask);
    PruneKeys(masked, k);
    if k in Keys(subnets) {
      GetIn(subnets, k);
      BackfillSets(subnets, ifs, getMask, k);
      if exists x :: x in ifs && x.name == k {
        var x :| x in ifs && x.name == k;
        var i :| 0 <= i < |ifs| && ifs[i] == x;
        BackfillCovers(subnets, ifs, getMask, i);
      }
    }
  }

  /**
   * A read that raises nothing keeps exactly the subnets that some broadcast line
   * defines and some interface of the gateway is on.
   */
  lemma ReadingKeeps(lines: seq<EpicsLine>, getMask: (string, string) -> Result<string, PyExc>, k: string)
    requires Reading(lines, getMask).2.None? && MaskGiven(getMask)
    ensures var (hosts, subnets, _) := Reading(lines, getMask);
      k in Keys(subnets) <==> ((exists i :: 0 <= i < |lines| && Defines(lines[i], k))
        && exists x :: x in Interfaces(hosts) && x.name == k)
  {
    var s1 := SubnetsFrom([], lines);
    SubnetsFromShape([], lines);
    SubnetsFromKeys([], lines, k);
    InterfacesFromShape([], s1, lines);
    var hosts := InterfacesFrom([], s1, lines).0;
    MaskedKeeps(s1, Interfaces(hosts), getMask, k);
    if exists x :: x in Interfaces(hosts) && x.name == k {
      var x :| x in Interfaces(hosts) && x.name == k;
      var h, f :| h in hosts && f in h.1 && f.1 == x;
    }
  }

  /** A read that raises nothing resolves every interface's subnet in the table. */
  lemma ReadingResolves(lines: seq<EpicsLine>, getMask: (string, string) -> Result<string, PyExc>)
    requires Reading(lines, getMask).2.None? && MaskGiven(getMask)
    ensures var (hosts, subnets, _) := Reading(lines, getMask);
      forall x :: x in Interfaces(hosts) ==> x.name in Keys(subnets)
  {
    var (hosts, subnets, _) := Reading(lines, getMask);
    forall x | x in Interfaces(hosts)
      ensures x.name in Keys(subnets)
    {
      var s1 := SubnetsFrom([], lines);
      SubnetsFromShape([], lines);
      InterfacesFromShape([], s1, lines);
      ReadingKeeps(lines, getMask, x.name);
      assert x.name in Keys(s1);
      SubnetsFromKeys([], lines, x.name);
    }
  }

  // ----------------------------------------------------------- subnet lookup

  function NonPcdsError(ipaddr: string): PyExc {
    ValueError([Lit("Recieved non-pcds ip address "), Lit(ipaddr)])
  }

  /**
   * `subnet_from_ip` over the subnets still to try: the first in table order that
   * contains the address; an error from `contains_ip` propagates, and when none
   * contains it, ValueError.
   */
  function SubnetOf(subnets: Dict<SubnetInfo>, ipaddr: string, contains: (SubnetInfo, string) -> Result<bool, PyExc>): (r: Result<string, PyExc>)
    decreases |subnets|
    ensures r.Ok? ==> r.value in Keys(subnets)
  {
    if subnets == [] then Err(NonPcdsError(ipaddr))
    else
      match contains(subnets[0].1, ipaddr)
      case Err(e) => Err(e)
      case Ok(true) => Ok(subnets[0].0)
      case Ok(false) => SubnetOf(subnets[1..], ipaddr, contains)
  }

  /** `subnet_from_ip` answers with the first subnet in table order that contains the address. */
  lemma {:induction false} SubnetOfFirst(subnets: Dict<SubnetInfo>, ipaddr: string, contains: (SubnetInfo, string) -> Result<bool, PyExc>, i: nat)
    requires i < |subnets| && contains(subnets[i].1, ipaddr) == Ok(true)
    requires forall j :: 0 <= j < i ==> contains(subnets[j].1, ipaddr) == Ok(false)
    ensures SubnetOf(subnets, ipaddr, contains) == Ok(subnets[i].0)
    decreases i
  {
    if i > 0 {
      assert forall j :: 0 <= j < i - 1 ==> subnets[1..][j] == subnets[j + 1];
      SubnetOfFirst(subnets[1..], ipaddr, contains, i - 1);
    }
  }

  /** An answer of `subnet_from_ip` is a subnet that contains the address, and none before it does. */
  lemma {:induction false} SubnetOfOk(subnets: Dict<SubnetInfo>, ipaddr: string, contains: (SubnetInfo, string) -> Result<bool, PyExc>)
    requires SubnetOf(subnets, ipaddr, contains).Ok?
    ensures exists i :: (0 <= i < |subnets| && subnets[i].0 == SubnetOf(subnets, ipaddr, contains).value
      && contains(subnets[i].1, ipaddr) == Ok(true)
      && forall j :: 0 <= j < i ==> contains(subnets[j].1, ipaddr) == Ok(false))
    decreases |subnets|
  {
    if contains(subnets[0].1, ipaddr) == Ok(false) {
      SubnetOfOk(subnets[1..], ipaddr, contains);
      var i :| 0 <= i < |subnets[1..]| && subnets[1..][i].0 == SubnetOf(subnets, ipaddr, contains).value
        && contains(subnets[1..][i].1, ipaddr) == Ok(true)
        && forall j :: 0 <= j < i ==> contains(subnets[1..][j].1, ipaddr) == Ok(false);
      forall j | 1 <= j <= i
        ensures contains(subnets[j].1, ipaddr) == Ok(false)
      {
        assert subnets[j] == subnets[1..][j - 1];
      }
      assert subnets[i + 1] == subnets[1..][i];
    }
  }

  /** When no subnet contains the address, `subnet_from_ip` raises ValueError. */
  lemma {:induction false} SubnetOfNone(subnets: Dict<SubnetInfo>, ipaddr: string, contains: (SubnetInfo, string) -> Result<bool, PyExc>)
    requires forall j :: 0 <= j < |subnets| ==> contains(subnets[j].1, ipaddr) == Ok(false)
    ensures SubnetOf(subnets, ipaddr, contains) == Err(NonPcdsError(ipaddr))
    decreases |subnets|
  {
    if subnets != [] {
      assert forall j :: 0 <= j < |subnets| - 1 ==> subnets[1..][j] == subnets[j + 1];
      SubnetOfNone(subnets[1..], ipaddr, contains);
    }
  }

  /**
   * Any other answer of `subnet_from_ip` is the error `contains_ip` raised on a subnet,
   * after every subnet before it did not contain the address.
   */
  lemma {:induction false} SubnetOfError(subnets: Dict<SubnetInfo>, ipaddr: string, contains: (SubnetInfo, string) -> Result<bool, PyExc>)
    requires SubnetOf(subnets, ipaddr, contains).Err? && SubnetOf(subnets, ipaddr, contains) != Err(NonPcdsError(ipaddr))
    ensures exists i :: (0 <= i < |subnets| && contains(subnets[i].1, ipaddr) == Err(SubnetOf(subnets, ipaddr, contains).error)
      && forall j :: 0 <= j < i ==> contains(subnets[j].1, ipaddr) == Ok(false))
    decreases |subnets|
  {
    var c := contains(subnets[0].1, ipaddr);
    if c.Err? {
      assert 0 <= 0 < |subnets| && contains(subnets[0].1, ipaddr) == Err(SubnetOf(subnets, ipaddr, contains).error);
    } else {
      SubnetOfError(subnets[1..], ipaddr, contains);
      var i :| 0 <= i < |subnets[1..]| && contains(subnets[1..][i].1, ipaddr) == Err(SubnetOf(subnets, ipaddr, contains).error)
        && forall j :: 0 <= j < i ==> contains(subnets[1..][j].1, ipaddr) == Ok(false);
      assert forall j :: 1 <= j < |subnets| ==> subnets[j] == subnets[1..][j - 1];
      assert contains(subnets[i + 1].1, ipaddr) == Err(SubnetOf(subnets, ipaddr, contains).error);
    }
  }

  /** `InterfaceInfo.can_ping`: whether the interface's subnet contains the address. */
  function CanPing(subnets: Dict<SubnetInfo>, iface: InterfaceInfo, ipaddr: string): (r: Result<bool, PyExc>)
    requires iface.name in Keys(subnets)
    ensures r == Ok(true) <==> BcaddrOf(ipaddr, MaskAt(subnets, iface.name)) == Ok(Get(subnets, iface.name).value.bcaddr)
  {
    ContainsIp(Get(subnets, iface.name).value, ipaddr)
  }

  /**
   * When every test answers and some subnet contains the address, `subnet_from_ip`
   * answers.
   */
  lemma {:induction false} SubnetOfFound(subnets: Dict<SubnetInfo>, ipaddr: string, contains: (SubnetInfo, string) -> Result<bool, PyExc>, i: nat)
    requires i < |subnets| && contains(subnets[i].1, ipaddr) == Ok(true)
    requires forall j :: 0 <= j < |subnets| ==> contains(subnets[j].1, ipaddr).Ok?
    ensures SubnetOf(subnets, ipaddr, contains).Ok?
    decreases i
  {
    if i > 0 && contains(subnets[0].1, ipaddr) == Ok(false) {
      assert forall j :: 0 <= j < |subnets| - 1 ==> subnets[1..][j] == subnets[j + 1];
      SubnetOfFound(subnets[1..], ipaddr, contains, i - 1);
    }
  }

  /**
   * After a read with `get_mask` that raises nothing, every subnet contains the address
   * of some interface on it, and `subnet_from_ip` of that address answers.
   */
  lemma SubnetOfInterface(lines: seq<EpicsLine>, k: string)
    requires Reading(lines, MaskOf).2.None?
    requires k in Keys(Reading(lines, MaskOf).1)
    ensures var (hosts, subnets, _) := Reading(lines, MaskOf);
      exists x :: (x in Interfaces(hosts) && x.name == k
        && CanPing(subnets, x, x.ipaddr) == Ok(true) && SubnetOf(subnets, x.ipaddr, ContainsIp).Ok?)
  {
    var (hosts, subnets, _) := Reading(lines, MaskOf);
    ReadingContains(lines);
    ReadingNames(lines, MaskOf);
    var x :| x in Interfaces(hosts) && x.name == k && ContainsIp(Get(subnets, k).value, x.ipaddr) == Ok(true);
    var i :| 0 <= i < |subnets| && subnets[i].0 == k;
    GetUnique(subnets, i);
    forall j | 0 <= j < |subnets|
      ensures ContainsIp(subnets[j].1, x.ipaddr).Ok?
    {
      GetUnique(subnets, j);
      var y :| y in Interfaces(hosts) && y.name == subnets[j].0 && ContainsIp(subnets[j].1, y.ipaddr) == Ok(true);
    }
    SubnetOfFound(subnets, x.ipaddr, ContainsIp, i);
  }

  // ------------------------------------------------------------------ the class

  /** The hosts and subnets tables of `InterfaceConfig`. */
  class InterfaceConfig {
    var hosts: Hosts
    var subnets: Dict<SubnetInfo>

    /** Empty tables, before the script is read. */
    constructor ()
      ensures hosts == [] && subnets == []
    {
      hosts := [];
      subnets := [];
    }

    /**
     * `reread_epicscagp`: discard both tables and rebuild them from the script's lines;
     * an exception stops the read part-way, with the tables as they were then.
     */
    method Reread(lines: seq<EpicsLine>) returns (err: Option<PyExc>)
      modifies this
      ensures (hosts, subnets, err) == Reading(lines, MaskOf)
    {
      hosts := [];
      subnets := [];
      ReadSubnets(lines);
      err := ReadInterfaces(lines);
      if err.Some? {
        return;
      }
      err := BackfillMasks();
      if err.Some? {
        return;
      }
      SubnetsFromShape([], lines);
      assert UniqueKeys(subnets) by {
        var s1 := SubnetsFrom([], lines);
        forall i, j | 0 <= i < j < |subnets| ensures subnets[i].0 != subnets[j].0 {
          assert subnets[i].0 == KeyList(subnets)[i] == s1[i].0;
          assert subnets[j].0 == KeyList(subnets)[j] == s1[j].0;
        }
      }
      PruneSubnets();
    }

    /** The first pass: define a subnet, without a mask, for each broadcast line. */
    method ReadSubnets(lines: seq<EpicsLine>)
      modifies this
      ensures subnets == SubnetsFrom(old(subnets), lines) && hosts == old(hosts)
    {
      var i := 0;
      while i < |lines|
        invariant 0 <= i <= |lines| && hosts == old(hosts)
        invariant SubnetsFrom(old(subnets), lines) == SubnetsFrom(subnets, lines[i..])
      {
        assert lines[i..][0] == lines[i] && lines[i..][1..] == lines[i + 1..];
        var line := lines[i];
        if line.broadcast.Some? {
          var subnet := Lower(line.broadcast.value);
          if subnet !in IgnoreSubnets {
            subnets := Assign(subnets, subnet, SubnetInfo(subnet, "", line.addr));
          }
        }
        i := i + 1;
      }
    }

    /** The second pass: record each interface line under its gateway host. */
    method ReadInterfaces(lines: seq<EpicsLine>) returns (err: Option<PyExc>)
      modifies this
      ensures (hosts, err) == InterfacesFrom(old(hosts), subnets, lines) && subnets == old(subnets)
    {
      var i := 0;
      while i < |lines|
        invariant 0 <= i <= |lines| && subnets == old(subnets)
        invariant InterfacesFrom(old(hosts), subnets, lines) == InterfacesFrom(hosts, subnets, lines[i..])
      {
        assert lines[i..][0] == lines[i] && lines[i..][1..] == lines[i + 1..];
        var line := lines[i];
        if line.iface.Some? {
          var subnet := Lower(line.iface.value.0);
          if subnet !in IgnoreSubnets {
            var host := "pscag" + line.iface.value.1;
            ghost var before := hosts;
            if host !in Keys(hosts) {
              hosts := hosts + [(host, [])];
            }
            assert hosts == AddHost(before, host);
            var hostInfo := GetOr(hosts, host, []);
            if subnet !in Keys(subnets) {
              return Some(KeyError(subnet));
            }
            hosts := Assign(hosts, host, Assign(hostInfo, subnet, InterfaceInfo(subnet, line.addr)));
            assert hosts == Record(AddHost(before, host), host, subnet, line.addr);
          }
        }
        i := i + 1;
      }
      return None;
    }

    /** The third pass: give each subnet the mask of the first interface on it. */
    method BackfillMasks() returns (err: Option<PyExc>)
      modifies this
      ensures (subnets, err) == Backfill(old(subnets), Interfaces(hosts), MaskOf) && hosts == old(hosts)
    {
      var i := 0;
      while i < |hosts|
        invariant 0 <= i <= |hosts| && hosts == old(hosts)
        invariant Backfill(old(subnets), Interfaces(hosts), MaskOf) == Backfill(subnets, Interfaces(hosts[i..]), MaskOf)
      {
        assert hosts[i..][0] == hosts[i] && hosts[i..][1..] == hosts[i + 1..];
        BackfillAppend(subnets, ValueList(hosts[i].1), Interfaces(hosts[i + 1..]), MaskOf);
        err := BackfillHost(hosts[i].1, MaskOf);
        if err.Some? {
          return;
        }
        i := i + 1;
      }
      return None;
    }

    /** The third pass over the interfaces of one gateway host. */
    method BackfillHost(hostInfo: Dict<InterfaceInfo>, getMask: (string, string) -> Result<string, PyExc>) returns (err: Option<PyExc>)
      modifies this
      ensures (subnets, err) == Backfill(old(subnets), ValueList(hostInfo), getMask) && hosts == old(hosts)
    {
      var table := subnets;
      var ifs := ValueList(hostInfo);
      var j := 0;
      while j < |ifs|
        invariant 0 <= j <= |ifs|
        invariant Backfill(subnets, ifs, getMask) == Backfill(table, ifs[j..], getMask)
      {
        assert ifs[j..][0] == ifs[j] && ifs[j..][1..] == ifs[j + 1..];
        var subnet := Get(table, ifs[j].name);
        if subnet.Some? && subnet.value.mask == "" {
          var mask := getMask(ifs[j].ipaddr, subnet.value.bcaddr);
          if mask.Err? {
            subnets := table;
            return Some(mask.error);
          }
          table := Assign(table, ifs[j].name, subnet.value.(mask := mask.value));
        }
        j := j + 1;
      }
      subnets := table;
      return None;
    }

    /** The fourth pass: delete the subnets no interface gave a mask. */
    method PruneSubnets()
      requires UniqueKeys(subnets)
      modifies this
      ensures subnets == Prune(old(subnets)) && hosts == old(hosts)
    {
      var items := subnets;
      var i := 0;
      while i < |items|
        invariant 0 <= i <= |items| && hosts == old(hosts) && items == old(subnets)
        invariant subnets == Prune(items[..i]) + items[i..]
      {
        var (name, info) := items[i];
        PruneStep(items, i);
        if info.mask == "" {
          subnets := Remove(subnets, name);
        }
        i := i + 1;
      }
      assert items[..i] == items;
    }

    /** `subnet_from_ip`: the first subnet, in table order, that contains the address. */
    method SubnetFromIp(ipaddr: string) returns (r: Result<string, PyExc>)
      ensures r == SubnetOf(subnets, ipaddr, ContainsIp)
    {
      var i := 0;
      while i < |subnets|
        invariant 0 <= i <= |subnets|
        invariant SubnetOf(subnets, ipaddr, ContainsIp) == SubnetOf(subnets[i..], ipaddr, ContainsIp)
      {
        assert subnets[i..][0] == subnets[i] && subnets[i..][1..] == subnets[i + 1..];
        var (name, info) := subnets[i];
        var contains := ContainsIp(info, ipaddr);
        if contains.Err? {
          return Err(contains.error);
        }
        if contains.value {
          return Ok(name);
        }
        i := i + 1;
      }
      return Err(NonPcdsError(ipaddr));
    }
  }

  /** One step of the fourth pass, on the snapshot of the table it iterates over. */
  lemma PruneStep(items: Dict<SubnetInfo>, i: nat)
    requires UniqueKeys(items) && i < |items|
    ensures items[i].1.mask == "" ==>
      Remove(Prune(items[..i]) + items[i..], items[i].0) == Prune(items[..i + 1]) + items[i + 1..]
    ensures items[i].1.mask != "" ==> Prune(items[..i]) + items[i..] == Prune(items[..i + 1]) + items[i + 1..]
  {
    PruneAppend(items[..i], [items[i]]);
    assert items[..i + 1] == items[..i] + [items[i]];
    assert items[i..] == [items[i]] + items[i + 1..];
    if items[i].1.mask == "" {
      assert Prune([items[i]]) == [];
      UniqueBefore(items, i);
      RemoveBetween(Prune(items[..i]), items[i], items[i + 1..]);
    } else {
      assert Prune([items[i]]) == [items[i]];
      assert Prune(items[..i]) + ([items[i]] + items[i + 1..]) == (Prune(items[..i]) + [items[i]]) + items[i + 1..];
    }
  }

  /** In a table with unique keys, the key at `i` is in neither the pruned part before it nor the rest after it. */
  lemma UniqueBefore(items: Dict<SubnetInfo>, i: nat)
    requires UniqueKeys(items) && i < |items|
    ensures items[i].0 !in Keys(Prune(items[..i])) && items[i].0 !in Keys(items[i + 1..])
  {
    var p := Prune(items[..i]);
    PruneIn(items[..i]);
    forall j | 0 <= j < |p|
      ensures p[j].0 != items[i].0
    {
      assert p[j] in p;
      var m :| 0 <= m < i && items[..i][m] == p[j];
      assert items[m] == p[j];
    }
    var rest := items[i + 1..];
    forall j | 0 <= j < |rest|
      ensures rest[j].0 != items[i].0
    {
      assert rest[j] == items[i + 1 + j];
    }
  }
}
