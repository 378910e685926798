/**
 * The gateway host's interface table and the subnet lookup by octet masking
 * (gateway_tests/util.py InterfaceInfo, PSCAG01_IFS, get_pcds_subnet).
 */
module PcdsSubnet {
  import opened Wrappers
  import opened Strings
  import opened Values

  /** Python `a & b` on non-negative integers, bit by bit. */
  function AndNat(a: nat, b: nat): (r: nat)
    ensures r <= a && r <= b
  {
    if a == 0 || b == 0 then 0
    else 2 * AndNat(a / 2, b / 2) + (if a % 2 == 1 && b % 2 == 1 then 1 else 0)
  }

  /** `a & b == a & b`, and masking twice is masking once. */
  lemma {:induction false} AndNatIdempotent(a: nat, b: nat)
    ensures AndNat(AndNat(a, b), b) == AndNat(a, b)
  {
    if a != 0 && b != 0 {
      AndNatIdempotent(a / 2, b / 2);
      var r := AndNat(a, b);
      assert r / 2 == AndNat(a / 2, b / 2);
      assert r % 2 == (if a % 2 == 1 && b % 2 == 1 then 1 else 0);
    }
  }

  /** The ValueError `int(s)` raises for a string that is not a decimal number. */
  function IntLiteralError(s: string): PyExc {
    ValueError([Lit("invalid literal for int() with base 10: '"), Lit(s), Lit("'")])
  }

  /** An interface of the gateway host: its subnet name, address and netmask, as dotted text. */
  datatype InterfaceInfo = InterfaceInfo(name: string, ipaddr: string, mask: string)

  /**
   * The comparison `can_ping` makes over the three octet lists. The octets are parsed
   * lazily, as `zip` pulls them from the three generators in turn, and the walk stops at
   * the shortest list or at the first octet pair that differs under the mask.
   */
  function PingOctets(mine: seq<string>, mask: seq<string>, yours: seq<string>): (r: Result<bool, PyExc>)
  {
    if mine == [] then Ok(true)
    else if ParseNat(mine[0]).None? then Err(IntLiteralError(mine[0]))
    else if mask == [] then Ok(true)
    else if ParseNat(mask[0]).None? then Err(IntLiteralError(mask[0]))
    else if yours == [] then Ok(true)
    else if ParseNat(yours[0]).None? then Err(IntLiteralError(yours[0]))
    else
      var m := ParseNat(mask[0]).value;
      if AndNat(ParseNat(mine[0]).value, m) != AndNat(ParseNat(yours[0]).value, m) then Ok(false)
      else PingOctets(mine[1..], mask[1..], yours[1..])
  }

  /** Every item is a decimal octet `int()` accepts. */
  predicate Numeric(octets: seq<string>) {
    forall i :: 0 <= i < |octets| ==> ParseNat(octets[i]).Some?
  }

  /** The octets agree under the mask at position i. */
  predicate AgreeAt(mine: seq<string>, mask: seq<string>, yours: seq<string>, i: nat)
    requires Numeric(mine) && Numeric(mask) && Numeric(yours)
    requires i < |mine| && i < |mask| && i < |yours|
  {
    AndNat(ParseNat(mine[i]).value, ParseNat(mask[i]).value)
      == AndNat(ParseNat(yours[i]).value, ParseNat(mask[i]).value)
  }

  /** On numeric octets nothing raises, and the answer is agreement at every zipped position. */
  lemma {:induction false} PingOctetsMeaning(mine: seq<string>, mask: seq<string>, yours: seq<string>)
    requires Numeric(mine) && Numeric(mask) && Numeric(yours)
    ensures PingOctets(mine, mask, yours).Ok?
    ensures PingOctets(mine, mask, yours).value <==>
      forall i :: 0 <= i < |mine| && i < |mask| && i < |yours| ==> AgreeAt(mine, mask, yours, i)
  {
    if mine != [] && mask != [] && yours != [] {
      var m := ParseNat(mask[0]).value;
      if AndNat(ParseNat(mine[0]).value, m) == AndNat(ParseNat(yours[0]).value, m) {
        assert Numeric(mine[1..]) && Numeric(mask[1..]) && Numeric(yours[1..]);
        PingOctetsMeaning(mine[1..], mask[1..], yours[1..]);
        assert AgreeAt(mine, mask, yours, 0);
        forall i | 0 <= i < |mine| && i < |mask| && i < |yours| && i > 0
          ensures AgreeAt(mine, mask, yours, i) <==> AgreeAt(mine[1..], mask[1..], yours[1..], i - 1)
        {
          assert mine[1..][i - 1] == mine[i] && mask[1..][i - 1] == mask[i] && yours[1..][i - 1] == yours[i];
        }
        var all := forall i :: 0 <= i < |mine| && i < |mask| && i < |yours| ==> AgreeAt(mine, mask, yours, i);
        var tail := forall i :: 0 <= i < |mine| - 1 && i < |mask| - 1 && i < |yours| - 1 ==> AgreeAt(mine[1..], mask[1..], yours[1..], i);
        if tail {
          forall i | 0 <= i < |mine| && i < |mask| && i < |yours| ensures AgreeAt(mine, mask, yours, i) {
            if i > 0 { assert AgreeAt(mine[1..], mask[1..], yours[1..], i - 1); }
          }
        }
        if all {
          forall i | 0 <= i < |mine| - 1 && i < |mask| - 1 && i < |yours| - 1 ensures AgreeAt(mine[1..], mask[1..], yours[1..], i) {
            assert AgreeAt(mine, mask, yours, i + 1);
          }
        }
      } else {
        assert !AgreeAt(mine, mask, yours, 0);
      }
    }
  }

  /**
   * `InterfaceInfo.can_ping` (util.py): the interface reaches `ipaddr` when every zipped
   * octet pair is equal under the mask. A search loop with early return, as in the source.
   */
  method CanPing(iface: InterfaceInfo, ipaddr: string) returns (r: Result<bool, PyExc>)
    ensures r == PingOctets(Split(iface.ipaddr, "."), Split(iface.mask, "."), Split(ipaddr, "."))
  {
    var mine := Split(iface.ipaddr, ".");
    var mask := Split(iface.mask, ".");
    var yours := Split(ipaddr, ".");
    var i := 0;
    while i < |mine|
      invariant 0 <= i <= |mine| && i <= |mask| && i <= |yours|
      invariant PingOctets(mine, mask, yours) == PingOctets(mine[i..], mask[i..], yours[i..])
    {
      var a := ParseNat(mine[i]);
      if a.None? { return Err(IntLiteralError(mine[i])); }
      if i == |mask| { return Ok(true); }
      var m := ParseNat(mask[i]);
      if m.None? { return Err(IntLiteralError(mask[i])); }
      if i == |yours| { return Ok(true); }
      var y := ParseNat(yours[i]);
      if y.None? { return Err(IntLiteralError(yours[i])); }
      if AndNat(a.value, m.value) != AndNat(y.value, m.value) {
        return Ok(false);
      }
      assert mine[i..][1..] == mine[i + 1..] && mask[i..][1..] == mask[i + 1..] && yours[i..][1..] == yours[i + 1..];
      i := i + 1;
    }
    return Ok(true);
  }

  /** The same test as a function, for the specifications below. */
  function Pings(iface: InterfaceInfo, ipaddr: string): Result<bool, PyExc> {
    PingOctets(Split(iface.ipaddr, "."), Split(iface.mask, "."), Split(ipaddr, "."))
  }

  /** An interface with numeric octets reaches its own address. */
  lemma PingsOwnAddress(iface: InterfaceInfo)
    requires Numeric(Split(iface.ipaddr, ".")) && Numeric(Split(iface.mask, "."))
    ensures Pings(iface, iface.ipaddr) == Ok(true)
  {
    PingOctetsMeaning(Split(iface.ipaddr, "."), Split(iface.mask, "."), Split(iface.ipaddr, "."));
  }

  /** PSCAG01_IFS: the gateway host's interfaces, in the order they are searched, each address the dotted text of its four octets. */
  const Pscag01Ifs: seq<InterfaceInfo> := [
    InterfaceInfo("cxi", Dotted([172, 21, 68, 10]), Dotted(Mask22)),
    InterfaceInfo("det", Dotted([172, 21, 58, 10]), Dotted(Mask24)),
    InterfaceInfo("dev", Dotted([134, 79, 165, 10]), Dotted(Mask24)),
    InterfaceInfo("drp", Dotted([172, 21, 156, 10]), Dotted(Mask22)),
    InterfaceInfo("kfe", Dotted([172, 21, 92, 10]), Dotted(Mask22)),
    InterfaceInfo("las", Dotted([172, 21, 160, 10]), Dotted(Mask22)),
    InterfaceInfo("lfe", Dotted([172, 21, 88, 10]), Dotted(Mask22)),
    InterfaceInfo("mcc", Dotted([172, 21, 40, 10]), Dotted(Mask26)),
    InterfaceInfo("mec", Dotted([172, 21, 76, 10]), Dotted(Mask26)),
    InterfaceInfo("mfx", Dotted([172, 21, 72, 10]), Dotted(Mask22)),
    InterfaceInfo("rix", Dotted([172, 21, 140, 10]), Dotted(Mask22)),
    InterfaceInfo("srv", Dotted([172, 21, 32, 154]), Dotted(Mask24)),
    InterfaceInfo("tmo", Dotted([172, 21, 132, 10]), Dotted(Mask22)),
    InterfaceInfo("tst", Dotted([172, 21, 148, 10]), Dotted(Mask22)),
    InterfaceInfo("xcs", Dotted([172, 21, 80, 10]), Dotted(Mask22)),
    InterfaceInfo("xpp", Dotted([172, 21, 84, 10]), Dotted(Mask22)),
    InterfaceInfo("ued", Dotted([172, 21, 36, 10]), Dotted(Mask22))
  ]

  /**
   * The first interface of `ifs` that reaches `ipaddr` by the test `pings` (`can_ping`
   * in `get_pcds_subnet`), its error if the test raises first, or the ValueError for an
   * address no interface reaches.
   */
  function FirstSubnet(ifs: seq<InterfaceInfo>, ipaddr: string, pings: (InterfaceInfo, string) -> Result<bool, PyExc>): (r: Result<string, PyExc>)
    ensures r.Ok? ==> exists i :: 0 <= i < |ifs| && ifs[i].name == r.value && pings(ifs[i], ipaddr) == Ok(true)
  {
    if ifs == [] then
      Err(ValueError([Lit("Recieved non-pcds ip address "), Lit(ipaddr), Lit(".")]))
    else
      match pings(ifs[0], ipaddr)
      case Err(e) => Err(e)
      case Ok(hit) =>
        if hit then Ok(ifs[0].name)
        else
          var r := FirstSubnet(ifs[1..], ipaddr, pings);
          assert r.Ok? ==> exists i :: 1 <= i < |ifs| && ifs[i].name == r.value && pings(ifs[i], ipaddr) == Ok(true) by {
            if r.Ok? {
              var i :| 0 <= i < |ifs[1..]| && ifs[1..][i].name == r.value && pings(ifs[1..][i], ipaddr) == Ok(true);
              assert ifs[i + 1] == ifs[1..][i];
            }
          }
          r
  }

  /** An address no interface reaches, with no test raising, gets the non-pcds ValueError. */
  lemma {:induction false} FirstSubnetNone(ifs: seq<InterfaceInfo>, ipaddr: string, pings: (InterfaceInfo, string) -> Result<bool, PyExc>)
    requires forall i :: 0 <= i < |ifs| ==> pings(ifs[i], ipaddr) == Ok(false)
    ensures FirstSubnet(ifs, ipaddr, pings) == Err(ValueError([Lit("Recieved non-pcds ip address "), Lit(ipaddr), Lit(".")]))
  {
    if ifs != [] {
      assert forall i :: 0 <= i < |ifs[1..]| ==> ifs[1..][i] == ifs[i + 1];
      FirstSubnetNone(ifs[1..], ipaddr, pings);
    }
  }

  /** Interfaces before the one FirstSubnet reports do not reach the address. */
  lemma {:induction false} FirstSubnetIsFirst(ifs: seq<InterfaceInfo>, ipaddr: string, pings: (InterfaceInfo, string) -> Result<bool, PyExc>, j: nat)
    requires FirstSubnet(ifs, ipaddr, pings).Ok? && j < |ifs|
    requires pings(ifs[j], ipaddr) == Ok(true)
    ensures exists i :: 0 <= i <= j && ifs[i].name == FirstSubnet(ifs, ipaddr, pings).value
  {
    if pings(ifs[0], ipaddr) != Ok(true) {
      assert j > 0 && ifs[1..][j - 1] == ifs[j];
      FirstSubnetIsFirst(ifs[1..], ipaddr, pings, j - 1);
      var i :| 0 <= i <= j - 1 && ifs[1..][i].name == FirstSubnet(ifs[1..], ipaddr, pings).value;
      assert ifs[i + 1] == ifs[1..][i];
    }
  }

  /** `get_pcds_subnet`: the name of the first PSCAG01_IFS interface that reaches `ipaddr`. */
  method GetPcdsSubnet(ipaddr: string) returns (r: Result<string, PyExc>)
    ensures r == FirstSubnet(Pscag01Ifs, ipaddr, Pings)
  {
    var i := 0;
    while i < |Pscag01Ifs|
      invariant 0 <= i <= |Pscag01Ifs|
      invariant FirstSubnet(Pscag01Ifs, ipaddr, Pings) == FirstSubnet(Pscag01Ifs[i..], ipaddr, Pings)
    {
      var hit := CanPing(Pscag01Ifs[i], ipaddr);
      if hit.Err? { return Err(hit.error); }
      if hit.value { return Ok(Pscag01Ifs[i].name); }
      assert Pscag01Ifs[i..][1..] == Pscag01Ifs[i + 1..];
      i := i + 1;
    }
    return FirstSubnet([], ipaddr, Pings);
  }

  lemma NoDot(n: nat)
    ensures '.' !in NatToStr(n)
  {
    var t := NatToStr(n);
    assert forall j :: 0 <= j < |t| ==> t[j] != '.';
  }

  /** Four dot-free strings joined by dots split back into them. */
  lemma SplitQuad(a: string, b: string, c: string, d: string)
    requires '.' !in a && '.' !in b && '.' !in c && '.' !in d
    ensures Split(a + "." + b + "." + c + "." + d, ".") == [a, b, c, d]
  {
    var q := [a, b, c, d];
    JoinFour(".", a, b, c, d);
    assert forall k :: 0 <= k < |q| ==> '.' !in q[k];
    SplitJoin(q, '.');
  }

  /** The dotted text of four numbers. */
  function Dotted(q: seq<nat>): string
    requires |q| == 4
  {
    NatToStr(q[0]) + "." + NatToStr(q[1]) + "." + NatToStr(q[2]) + "." + NatToStr(q[3])
  }

  /** A dotted quad splits into four octets that parse back to its numbers. */
  lemma QuadParts(q: seq<nat>)
    requires |q| == 4
    ensures var p := Split(Dotted(q), ".");
      |p| == 4 && Numeric(p) && forall i :: 0 <= i < 4 ==> ParseNat(p[i]) == Some(q[i])
  {
    var t := [NatToStr(q[0]), NatToStr(q[1]), NatToStr(q[2]), NatToStr(q[3])];
    forall k | 0 <= k < 4
      ensures '.' !in t[k] && ParseNat(t[k]) == Some(q[k])
    {
      NoDot(q[k]);
      ParseNatToStr(q[k]);
    }
    SplitQuad(t[0], t[1], t[2], t[3]);
  }

  /** On dotted quads, `can_ping` compares the four octet pairs under the mask. */
  lemma PingsQuads(iface: InterfaceInfo, ipaddr: string, mine: seq<nat>, mask: seq<nat>, yours: seq<nat>)
    requires |mine| == 4 && |mask| == 4 && |yours| == 4
    requires iface.ipaddr == Dotted(mine) && iface.mask == Dotted(mask) && ipaddr == Dotted(yours)
    ensures Pings(iface, ipaddr) == Ok(forall i :: 0 <= i < 4 ==> AndNat(mine[i], mask[i]) == AndNat(yours[i], mask[i]))
  {
    QuadParts(mine);
    QuadParts(mask);
    QuadParts(yours);
    OctetsAgree(Split(iface.ipaddr, "."), Split(iface.mask, "."), Split(ipaddr, "."), mine, mask, yours);
  }

  /** Four octets on each side that parse to the given numbers agree exactly where the numbers do. */
  lemma OctetsAgree(ms: seq<string>, ks: seq<string>, ys: seq<string>, mine: seq<nat>, mask: seq<nat>, yours: seq<nat>)
    requires |ms| == |ks| == |ys| == |mine| == |mask| == |yours| == 4
    requires forall i :: 0 <= i < 4 ==> ParseNat(ms[i]) == Some(mine[i])
    requires forall i :: 0 <= i < 4 ==> ParseNat(ks[i]) == Some(mask[i])
    requires forall i :: 0 <= i < 4 ==> ParseNat(ys[i]) == Some(yours[i])
    ensures PingOctets(ms, ks, ys) == Ok(forall i :: 0 <= i < 4 ==> AndNat(mine[i], mask[i]) == AndNat(yours[i], mask[i]))
  {
    PingOctetsMeaning(ms, ks, ys);
    forall i | 0 <= i < 4
      ensures AgreeAt(ms, ks, ys, i) <==> AndNat(mine[i], mask[i]) == AndNat(yours[i], mask[i])
    {
    }
  }

  function Pow2(k: nat): (r: nat)
    ensures r >= 1
  {
    if k == 0 then 1 else 2 * Pow2(k - 1)
  }

  /** Masking with k one-bits keeps a number below 2^k. */
  lemma {:induction false} AndAllOnes(a: nat, k: nat)
    requires a < Pow2(k)
    ensures AndNat(a, Pow2(k) - 1) == a
  {
    if a != 0 {
      assert k > 0;
      var m := Pow2(k) - 1;
      assert m / 2 == Pow2(k - 1) - 1 && m % 2 == 1;
      AndAllOnes(a / 2, k - 1);
    }
  }

  /** `a & 255 == a` for an octet. */
  lemma AndOctetOnes(a: nat)
    requires a < 256
    ensures AndNat(a, 255) == a
  {
    assert Pow2(8) == 256;
    AndAllOnes(a, 8);
  }

  /** `a & 252` clears the two low bits of an octet. */
  lemma AndOctet252(a: nat)
    requires a < 256
    ensures AndNat(a, 252) == a - a % 4
  {
    var h := a / 4;
    assert a == 4 * h + a % 4;
    assert AndNat(a, 252) == 2 * AndNat(a / 2, 126);
    assert AndNat(a / 2, 126) == 2 * AndNat(h, 63) by {
      assert (a / 2) / 2 == h;
    }
    assert Pow2(6) == 64;
    AndAllOnes(h, 6);
  }

  const Probe: seq<nat> := [172, 21, 90, 5]
  const Mask22: seq<nat> := [255, 255, 252, 0]
  const Mask24: seq<nat> := [255, 255, 255, 0]
  const Mask26: seq<nat> := [255, 255, 255, 192]

  lemma CxiRefuses()
    ensures Pings(Pscag01Ifs[0], Dotted(Probe)) == Ok(false)
  {
    PingsQuads(Pscag01Ifs[0], Dotted(Probe), [172, 21, 68, 10], Mask22, Probe);
    AndOctet252(68);
    AndOctet252(90);
  }

  lemma DetRefuses()
    ensures Pings(Pscag01Ifs[1], Dotted(Probe)) == Ok(false)
  {
    PingsQuads(Pscag01Ifs[1], Dotted(Probe), [172, 21, 58, 10], Mask24, Probe);
    AndOctetOnes(58);
    AndOctetOnes(90);
  }

  lemma DevRefuses()
    ensures Pings(Pscag01Ifs[2], Dotted(Probe)) == Ok(false)
  {
    PingsQuads(Pscag01Ifs[2], Dotted(Probe), [134, 79, 165, 10], Mask24, Probe);
    AndOctetOnes(134);
    AndOctetOnes(172);
  }

  lemma DrpRefuses()
    ensures Pings(Pscag01Ifs[3], Dotted(Probe)) == Ok(false)
  {
    PingsQuads(Pscag01Ifs[3], Dotted(Probe), [172, 21, 156, 10], Mask22, Probe);
    AndOctet252(156);
    AndOctet252(90);
  }

  lemma KfeRefuses()
    ensures Pings(Pscag01Ifs[4], Dotted(Probe)) == Ok(false)
  {
    PingsQuads(Pscag01Ifs[4], Dotted(Probe), [172, 21, 92, 10], Mask22, Probe);
    AndOctet252(92);
    AndOctet252(90);
  }

  lemma LasRefuses()
    ensures Pings(Pscag01Ifs[5], Dotted(Probe)) == Ok(false)
  {
    PingsQuads(Pscag01Ifs[5], Dotted(Probe), [172, 21, 160, 10], Mask22, Probe);
    AndOctet252(160);
    AndOctet252(90);
  }

  lemma LfeAccepts()
    ensures Pings(Pscag01Ifs[6], Dotted(Probe)) == Ok(true)
  {
    var mine: seq<nat> := [172, 21, 88, 10];
    PingsQuads(Pscag01Ifs[6], Dotted(Probe), mine, Mask22, Probe);
    AndOctetOnes(172);
    AndOctetOnes(21);
    AndOctet252(88);
    AndOctet252(90);
    forall i | 0 <= i < 4
      ensures AndNat(mine[i], Mask22[i]) == AndNat(Probe[i], Mask22[i])
    {
    }
  }

  /** The probe address in its dotted text. */
  lemma ProbeText()
    ensures Dotted(Probe) == "172.21.90.5"
  {
    assert NatToStr(17) == "17";
    assert NatToStr(172) == "172";
    assert NatToStr(21) == "21";
    assert NatToStr(90) == "90";
    assert NatToStr(5) == "5";
  }

  /** An interface that does not reach the address is passed over. */
  lemma FirstSubnetSkips(ifs: seq<InterfaceInfo>, ipaddr: string, k: nat)
    requires k < |ifs| && Pings(ifs[k], ipaddr) == Ok(false)
    ensures FirstSubnet(ifs[k..], ipaddr, Pings) == FirstSubnet(ifs[k + 1..], ipaddr, Pings)
  {
    assert ifs[k..][0] == ifs[k] && ifs[k..][1..] == ifs[k + 1..];
  }

  /**
   * 172.21.90.5 is on lfe (172.21.88.0/22): cxi, det, dev, drp, kfe and las, searched
   * first, do not reach it, and lfe does.
   */
  lemma GetPcdsSubnetLfe()
    ensures FirstSubnet(Pscag01Ifs, "172.21.90.5", Pings) == Ok("lfe")
  {
    ProbeText();
    var ip, ifs := Dotted(Probe), Pscag01Ifs;
    LfeAccepts();
    assert ifs[6..][0] == ifs[6];
    CxiRefuses();
    FirstSubnetSkips(ifs, ip, 0);
    DetRefuses();
    FirstSubnetSkips(ifs, ip, 1);
    DevRefuses();
    FirstSubnetSkips(ifs, ip, 2);
    DrpRefuses();
    FirstSubnetSkips(ifs, ip, 3);
    KfeRefuses();
    FirstSubnetSkips(ifs, ip, 4);
    LasRefuses();
    FirstSubnetSkips(ifs, ip, 5);
    assert ifs[0..] == ifs;
  }
}
