/**
 * The process environment the Channel Access client reads, and the context managers of
 * gateway_tests/conftest.py that change it for the length of a `with` block:
 * `context_set_env`, `prod_addr_list` and its presets `prod_gw_addrs` and
 * `prod_ioc_addrs`. Entering and leaving a context manager are two methods; what the
 * block does in between is whatever the caller does to `vars`.
 */
module Environment {
  import opened Wrappers
  import opened Dicts
  import opened Strings
  import opened Values
  import opened Interface

  /** `os.environ`: variable name to value. */
  type Env = map<string, string>

  const AddrList: string := "EPICS_CA_ADDR_LIST"
  const AutoAddr: string := "EPICS_CA_AUTO_ADDR_LIST"

  /** `os.environ.get(key, None)`. */
  function Lookup(env: Env, key: string): (r: Option<string>)
    ensures r.Some? <==> key in env
    ensures r.Some? ==> r.value == env[key]
  {
    if key in env then Some(env[key]) else None
  }

  // ------------------------------------------------------------- context_set_env

  /**
   * Leaving `context_set_env` (its `finally`, so also after an exception): the variable
   * gets its previous value back when it had one; a variable that was unset stays set.
   */
  function Reset(env: Env, key: string, orig: Option<string>): (r: Env)
    ensures orig.Some? ==> r == env[key := orig.value]
    ensures orig.None? ==> r == env
  {
    if orig.Some? then env[key := orig.value] else env
  }

  /**
   * Entering and at once leaving `context_set_env(key, value)` gives the environment
   * back exactly when the variable was set before; an unset one is left holding `value`.
   */
  lemma SetEnvRoundTrip(env: Env, key: string, value: string)
    ensures key in env ==> Reset(env[key := value], key, Lookup(env, key)) == env
    ensures key !in env ==> Reset(env[key := value], key, Lookup(env, key)) == env[key := value] != env
  {
    if key in env {
      assert env[key := value][key := env[key]] == env;
    } else {
      assert key in env[key := value] && key !in env;
    }
  }

  /**
   * Whatever the block did, leaving `context_set_env` puts back a previous value of the
   * variable and touches no other variable.
   */
  lemma SetEnvExit(env: Env, during: Env, key: string)
    ensures key in env ==> key in Reset(during, key, Lookup(env, key)) && Reset(during, key, Lookup(env, key))[key] == env[key]
    ensures key !in env ==> Reset(during, key, Lookup(env, key)) == during
    ensures forall k :: k != key ==> (k in Reset(during, key, Lookup(env, key)) <==> k in during)
    ensures forall k :: k != key && k in during ==> Reset(during, key, Lookup(env, key))[k] == during[k]
  {
  }

  // -------------------------------------------------------------- prod_addr_list

  /**
   * The broadcast addresses of the named subnets, in the order named; a name the
   * interface table lacks raises KeyError.
   */
  function BroadcastAddrs(table: Dict<SubnetInfo>, subnets: seq<string>): (r: Result<seq<string>, PyExc>)
    ensures r.Ok? <==> forall i :: 0 <= i < |subnets| ==> subnets[i] in Keys(table)
    ensures r.Ok? ==> |r.value| == |subnets|
    ensures r.Ok? ==> forall i :: 0 <= i < |subnets| ==> r.value[i] == Get(table, subnets[i]).value.bcaddr
    ensures r.Err? ==> exists i :: 0 <= i < |subnets| && subnets[i] !in Keys(table) && r.error == KeyError(subnets[i])
  {
    if subnets == [] then Ok([])
    else
      match Get(table, subnets[0])
      case None => Err(KeyError(subnets[0]))
      case Some(info) =>
        match BroadcastAddrs(table, subnets[1..])
        case Err(e) => Err(e)
        case Ok(rest) => Ok([info.bcaddr] + rest)
  }

  /** The KeyError names the first subnet, in the order named, that the table lacks. */
  lemma {:induction false} BroadcastAddrsFirstMissing(table: Dict<SubnetInfo>, subnets: seq<string>, i: nat)
    requires i < |subnets| && subnets[i] !in Keys(table)
    requires forall j :: 0 <= j < i ==> subnets[j] in Keys(table)
    ensures BroadcastAddrs(table, subnets) == Err(KeyError(subnets[i]))
  {
    if i > 0 {
      assert subnets[0] in Keys(table);
      BroadcastAddrsFirstMissing(table, subnets[1..], i - 1);
    }
  }

  /** The address list the client is given: the broadcast addresses joined by spaces. */
  function AddrListValue(addrs: seq<string>): string {
    Join(" ", addrs)
  }

  /**
   * The address list the variable holds splits back, on spaces, into the broadcast
   * addresses of the named subnets, in order (no address holding a space).
   */
  lemma AddrListSplits(table: Dict<SubnetInfo>, subnets: seq<string>)
    requires BroadcastAddrs(table, subnets).Ok? && |subnets| >= 1
    requires forall i :: 0 <= i < |subnets| ==> ' ' !in Get(table, subnets[i]).value.bcaddr
    ensures Split(AddrListValue(BroadcastAddrs(table, subnets).value), " ") == BroadcastAddrs(table, subnets).value
  {
    var addrs := BroadcastAddrs(table, subnets).value;
    assert forall k :: 0 <= k < |addrs| ==> ' ' !in addrs[k];
    SplitJoin(addrs, ' ');
  }

  /** What entering `prod_addr_list` saves: the two variables' previous values. */
  datatype Saved = Saved(addrList: Option<string>, autoAddr: Option<string>)

  /** The environment inside `prod_addr_list`. */
  function AddrListSet(env: Env, addrs: seq<string>): (r: Env)
    ensures r.Keys == env.Keys + {AddrList, AutoAddr}
    ensures r[AddrList] == AddrListValue(addrs) && r[AutoAddr] == "NO"
    ensures forall k :: k in env && k != AddrList && k != AutoAddr ==> r[k] == env[k]
  {
    env[AddrList := AddrListValue(addrs)][AutoAddr := "NO"]
  }

  /**
   * Leaving `prod_addr_list` for one variable: put back its previous value, or delete
   * it when it was unset before, which raises KeyError when the block deleted it.
   */
  function Restore(env: Env, key: string, orig: Option<string>): (r: Result<Env, PyExc>)
    ensures r.Err? <==> orig.None? && key !in env
    ensures r.Ok? ==> r.value.Keys == if orig.Some? then env.Keys + {key} else env.Keys - {key}
    ensures r.Ok? && orig.Some? ==> r.value[key] == orig.value
    ensures r.Ok? ==> forall k :: k in env && k != key ==> r.value[k] == env[k]
  {
    if orig.Some? then Ok(env[key := orig.value])
    else if key in env then Ok(env - {key})
    else Err(KeyError(key))
  }

  /** Leaving `prod_addr_list`: the address list first, then the auto flag. */
  function Unset(env: Env, saved: Saved): Result<Env, PyExc> {
    match Restore(env, AddrList, saved.addrList)
    case Err(e) => Err(e)
    case Ok(e1) => Restore(e1, AutoAddr, saved.autoAddr)
  }

  /**
   * Entering `prod_addr_list` and leaving it with the two variables as the block found
   * them gives back the environment as it was, whether they were set before or not.
   */
  lemma AddrListRoundTrip(env: Env, addrs: seq<string>, during: Env)
    requires during.Keys == env.Keys + {AddrList, AutoAddr}
    requires forall k :: k in env && k != AddrList && k != AutoAddr ==> during[k] == env[k]
    ensures Unset(during, Saved(Lookup(env, AddrList), Lookup(env, AutoAddr))) == Ok(env)
  {
    assert AddrList != AutoAddr;
    var r1 := Restore(during, AddrList, Lookup(env, AddrList));
    assert r1.Ok?;
    var e1 := r1.value;
    assert AutoAddr in e1;
    var r2 := Restore(e1, AutoAddr, Lookup(env, AutoAddr));
    var e2 := r2.value;
    assert Unset(during, Saved(Lookup(env, AddrList), Lookup(env, AutoAddr))) == r2;
    assert e2.Keys == env.Keys;
    forall k | k in env
      ensures e2[k] == env[k]
    {
      if k != AddrList && k != AutoAddr {
        assert e1[k] == during[k];
      }
    }
    assert e2 == env;
  }

  /** `prod_ioc_addrs`: every subnet of the table except "dev" and "srv", in table order. */
  function IocSubnets(table: Dict<SubnetInfo>): (r: seq<string>)
    ensures forall s :: s in r <==> s in Keys(table) && s != "dev" && s != "srv"
    ensures |r| <= |table|
  {
    if table == [] then []
    else
      var k := table[0].0;
      assert forall s :: s in Keys(table) <==> s == k || s in Keys(table[1..]);
      (if k == "dev" || k == "srv" then [] else [k]) + IocSubnets(table[1..])
  }

  /** `prod_gw_addrs`: the "dev" subnet alone. */
  const GatewaySubnets: seq<string> := ["dev"]

  /** The IOC preset never raises: every subnet it names is in the table. */
  lemma IocAddrsFound(table: Dict<SubnetInfo>)
    ensures BroadcastAddrs(table, IocSubnets(table)).Ok?
  {
    var names := IocSubnets(table);
    assert forall i :: 0 <= i < |names| ==> names[i] in names;
  }

  /** The gateway preset raises KeyError exactly when the table has no "dev" subnet. */
  lemma GatewayAddrs(table: Dict<SubnetInfo>)
    ensures BroadcastAddrs(table, GatewaySubnets).Err? <==> "dev" !in Keys(table)
    ensures BroadcastAddrs(table, GatewaySubnets).Err? ==> BroadcastAddrs(table, GatewaySubnets).error == KeyError("dev")
  {
    if "dev" !in Keys(table) {
      BroadcastAddrsFirstMissing(table, GatewaySubnets, 0);
    }
  }

  // ------------------------------------------------------------------- the class

  /** `os.environ`, which the context managers change in place. */
  class ProcessEnvironment {
    var vars: Env

    constructor (initial: Env)
      ensures vars == initial
    {
      vars := initial;
    }

    /** Entering `context_set_env(key, value)`: yields the previous value, then sets the variable. */
    method SetEnv(key: string, value: string) returns (orig: Option<string>)
      modifies this
      ensures orig == Lookup(old(vars), key)
      ensures vars == old(vars)[key := value]
    {
      orig := if key in vars then Some(vars[key]) else None;
      vars := vars[key := value];
    }

    /** Leaving `context_set_env`. */
    method ResetEnv(key: string, orig: Option<string>)
      modifies this
      ensures vars == Reset(old(vars), key, orig)
    {
      if orig.Some? {
        vars := vars[key := orig.value];
      }
    }

    /**
     * Entering `prod_addr_list(config, subnets)`: save both variables, then set the
     * address list and turn automatic addressing off. A subnet missing from the table
     * raises KeyError before anything is set.
     */
    method EnterAddrList(table: Dict<SubnetInfo>, subnets: seq<string>) returns (r: Result<Saved, PyExc>)
      modifies this
      ensures r.Ok? <==> BroadcastAddrs(table, subnets).Ok?
      ensures r.Err? ==> r.error == BroadcastAddrs(table, subnets).error && vars == old(vars)
      ensures r.Ok? ==> r.value == Saved(Lookup(old(vars), AddrList), Lookup(old(vars), AutoAddr))
      ensures r.Ok? ==> vars == AddrListSet(old(vars), BroadcastAddrs(table, subnets).value)
    {
      var oldAddrList := if AddrList in vars then Some(vars[AddrList]) else None;
      var oldAutoAddr := if AutoAddr in vars then Some(vars[AutoAddr]) else None;
      var addrs := BroadcastAddrs(table, subnets);
      if addrs.Err? {
        return Err(addrs.error);
      }
      vars := vars[AddrList := AddrListValue(addrs.value)];
      vars := vars[AutoAddr := "NO"];
      return Ok(Saved(oldAddrList, oldAutoAddr));
    }

    /**
     * Leaving `prod_addr_list` after the block returns normally: restore or delete the
     * address list, then the auto flag; a KeyError from the first stops the second.
     */
    method ExitAddrList(saved: Saved) returns (err: Option<PyExc>)
      modifies this
      ensures Unset(old(vars), saved).Ok? ==> err == None && vars == Unset(old(vars), saved).value
      ensures Unset(old(vars), saved).Err? ==> err == Some(Unset(old(vars), saved).error)
      ensures Restore(old(vars), AddrList, saved.addrList).Err? ==> vars == old(vars)
      ensures Restore(old(vars), AddrList, saved.addrList).Ok? ==> Unset(old(vars), saved).Err? ==> vars == Restore(old(vars), AddrList, saved.addrList).value
    {
      err := RestoreOne(AddrList, saved.addrList);
      if err.Some? {
        return;
      }
      err := RestoreOne(AutoAddr, saved.autoAddr);
    }

    /** One variable of `ExitAddrList`. */
    method RestoreOne(key: string, orig: Option<string>) returns (err: Option<PyExc>)
      modifies this
      ensures Restore(old(vars), key, orig).Ok? ==> err == None && vars == Restore(old(vars), key, orig).value
      ensures Restore(old(vars), key, orig).Err? ==> err == Some(Restore(old(vars), key, orig).error) && vars == old(vars)
    {
      if orig.None? {
        if key !in vars {
          return Some(KeyError(key));
        }
        vars := vars - {key};
      } else {
        vars := vars[key := orig.value];
      }
      return None;
    }
  }
}
