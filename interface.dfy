/**
 * IPv4 arithmetic on dotted text and the gateway host's interface table read from the
 * epicscagp script (gateway_tests/interface.py).
 */
module Interface {
  import opened Wrappers
  import opened Dicts
  import opened Strings
  import opened Values
  import PcdsSubnet

  const Two32: int := 0x1_0000_0000

  /**
   * `ip_to_int`'s fold over the dot-separated pieces still to read, from `acc`: shift
   * left by eight bits and add the next piece's `int()`; a piece that is not a decimal
   * number raises ValueError.
   */
  function IpFold(acc: int, parts: seq<string>): (r: Result<int, PyExc>)
    decreases |parts|
    ensures r.Ok? <==> forall i :: 0 <= i < |parts| ==> ParseNat(parts[i]).Some?
    ensures r.Err? ==> exists i :: 0 <= i < |parts| && ParseNat(parts[i]).None? && r.error == PcdsSubnet.IntLiteralError(parts[i])
    ensures r.Ok? && acc >= 0 ==> r.value >= 0
  {
    if parts == [] then Ok(acc)
    else
      var r := match ParseNat(parts[0])
        case None => Err(PcdsSubnet.IntLiteralError(parts[0]))
        case Some(v) => IpFold(acc * 256 + v, parts[1..]);
      assert forall i :: 1 <= i < |parts| ==> parts[i] == parts[1..][i - 1];
      r
  }

  /** The value `ip_to_int` computes for `ipaddr`. */
  function IpValue(ipaddr: string): Result<int, PyExc> {
    IpFold(0, Split(ipaddr, "."))
  }

  /** `ip_to_int`. */
  method IpToInt(ipaddr: string) returns (r: Result<int, PyExc>)
    ensures r == IpValue(ipaddr)
  {
    var parts := Split(ipaddr, ".");
    var retval := 0;
    var i := 0;
    while i < |parts|
      invariant 0 <= i <= |parts|
      invariant IpFold(0, parts) == IpFold(retval, parts[i..])
    {
      var octet := ParseNat(parts[i]);
      if octet.None? {
        assert parts[i..][0] == parts[i];
        return Err(PcdsSubnet.IntLiteralError(parts[i]));
      }
      retval := IpShift(retval, parts, i, octet.value);
      i := i + 1;
    }
    return Ok(retval);
  }

  /** `retval = (retval << 8) + int(octet)` for the piece at `i`, which parses to `v`. */
  function IpShift(retval: int, parts: seq<string>, i: nat, v: nat): (r: int)
    requires i < |parts| && ParseNat(parts[i]) == Some(v)
    ensures IpFold(retval, parts[i..]) == IpFold(r, parts[i + 1..])
  {
    assert parts[i..][0] == parts[i] && parts[i..][1..] == parts[i + 1..];
    IpFoldStep(retval, parts[i..], v);
    retval * 256 + v
  }

  /** One step of the fold: a piece that parses to `v` shifts `v` in. */
  lemma IpFoldStep(acc: int, parts: seq<string>, v: nat)
    requires parts != [] && ParseNat(parts[0]) == Some(v)
    ensures IpFold(acc, parts) == IpFold(acc * 256 + v, parts[1..])
  {
  }

  /** Four pieces that parse to `a`, `b`, `c`, `d` fold big-endian. */
  lemma IpFoldFour(p: seq<string>, a: nat, b: nat, c: nat, d: nat)
    requires |p| == 4
    requires ParseNat(p[0]) == Some(a) && ParseNat(p[1]) == Some(b)
    requires ParseNat(p[2]) == Some(c) && ParseNat(p[3]) == Some(d)
    ensures IpFold(0, p) == Ok(((a * 256 + b) * 256 + c) * 256 + d)
  {
    IpFoldStep(0, p, a);
    IpFoldStep(a, p[1..], b);
    IpFoldStep(a * 256 + b, p[2..], c);
    IpFoldStep((a * 256 + b) * 256 + c, p[3..], d);
    assert p[1..][1..] == p[2..] && p[2..][1..] == p[3..] && p[3..][1..] == [];
  }

  /** A dotted quad of decimal numbers folds big-endian. */
  lemma IpValueOfQuad(a: nat, b: nat, c: nat, d: nat)
    ensures IpValue(PcdsSubnet.Dotted([a, b, c, d])) == Ok(((a * 256 + b) * 256 + c) * 256 + d)
  {
    PcdsSubnet.QuadParts([a, b, c, d]);
    IpFoldFour(Split(PcdsSubnet.Dotted([a, b, c, d]), "."), a, b, c, d);
  }

  /** The low `k` bytes of `n`, least significant first: `n & 255`, then `n >> 8`, as Python does on any int. */
  function LowOctets(n: int, k: nat): (r: seq<nat>)
    decreases k
    ensures |r| == k
    ensures forall i :: 0 <= i < k ==> r[i] < 256
  {
    if k == 0 then [] else [n % 256] + LowOctets(n / 256, k - 1)
  }

  /** Python's `reversed`. */
  function Reversed<T>(s: seq<T>): (r: seq<T>)
    ensures |r| == |s|
    ensures forall i :: 0 <= i < |s| ==> r[i] == s[|s| - 1 - i]
  {
    if s == [] then [] else Reversed(s[1..]) + [s[0]]
  }

  /** The dotted text of the low 32 bits of `n`, most significant octet first. */
  function IpText(n: int): string {
    var o := LowOctets(n, 4);
    PcdsSubnet.Dotted([o[3], o[2], o[1], o[0]])
  }

  /** `ip_to_str`: four rounds of taking the low octet and shifting right, then the octets joined in reverse. */
  method IpToStr(ipaddr: int) returns (r: string)
    ensures r == IpText(ipaddr)
  {
    var octets: seq<string> := [];
    ghost var values: seq<nat> := [];
    var n := ipaddr;
    var k := 0;
    while k < 4
      invariant 0 <= k <= 4
      invariant |octets| == |values| == k
      invariant forall i :: 0 <= i < k ==> octets[i] == NatToStr(values[i])
      invariant LowOctets(ipaddr, 4) == values + LowOctets(n, 4 - k)
    {
      octets := octets + [NatToStr(n % 256)];
      values := values + [n % 256];
      n := n / 256;
      k := k + 1;
    }
    assert values == LowOctets(ipaddr, 4);
    JoinReversed(octets, values);
    return Join(".", Reversed(octets));
  }

  /** Joining four rendered octets in reverse is the dotted text of the reversed octets. */
  lemma JoinReversed(octets: seq<string>, o: seq<nat>)
    requires |octets| == |o| == 4
    requires forall i :: 0 <= i < 4 ==> octets[i] == NatToStr(o[i])
    ensures Join(".", Reversed(octets)) == PcdsSubnet.Dotted([o[3], o[2], o[1], o[0]])
  {
    assert Reversed(octets) == [octets[3], octets[2], octets[1], octets[0]];
    JoinFour(".", octets[3], octets[2], octets[1], octets[0]);
  }

  /** Division and remainder by a positive divisor are the unique quotient and remainder. */
  lemma DivModUnique(n: int, d: int, q: int, m: int)
    requires d > 0 && n == q * d + m && 0 <= m < d
    ensures n / d == q && n % d == m
  {
    var q0, m0 := n / d, n % d;
    assert (q - q0) * d == m0 - m;
    SmallMultiple(q - q0, d);
  }

  /** The only multiple of `d` strictly between `-d` and `d` is zero. */
  lemma SmallMultiple(x: int, d: int)
    requires d > 0 && -d < x * d < d
    ensures x == 0
  {
    if x >= 1 {
      MulAtLeast(x, d);
    } else if x <= -1 {
      MulAtLeast(-x, d);
    }
  }

  lemma MulAtLeast(x: int, d: int)
    requires x >= 1 && d > 0
    ensures x * d >= d && (-x) * d <= -d
  {
    var y := x - 1;
    assert y * d >= 0;
    assert x * d == y * d + d;
  }

  /** `ip_to_str` reads only the low 32 bits of its argument. */
  lemma {:induction false} LowOctetsLow(n: int, k: nat)
    decreases k
    ensures LowOctets(n, k) == LowOctets(n % Pow256(k), k)
  {
    if k > 0 {
      var P := Pow256(k - 1);
      var q, m := n / Pow256(k), n % Pow256(k);
      assert Pow256(k) == 256 * P;
      assert n == (q * P + m / 256) * 256 + m % 256;
      DivModUnique(n, 256, q * P + m / 256, m % 256);
      DivModUnique(n / 256, P, q, m / 256);
      LowOctetsLow(n / 256, k - 1);
      LowOctetsLow(m / 256, k - 1);
    }
  }

  function Pow256(k: nat): (r: int)
    ensures r > 0
  {
    if k == 0 then 1 else 256 * Pow256(k - 1)
  }

  /** `n // 256 < b` whenever `0 <= n < 256 * b`. */
  lemma DivBound(n: int, b: int)
    requires 0 <= n < 256 * b
    ensures 0 <= n / 256 < b
  {
    var q := n / 256;
    if q >= b {
      MulAtLeast(q - b + 1, 256);
    }
  }

  /** The four octets of a number below 2**32 recompose it big-endian. */
  lemma LowOctetsRecompose(n: int)
    requires 0 <= n < Two32
    ensures var o := LowOctets(n, 4); ((o[3] * 256 + o[2]) * 256 + o[1]) * 256 + o[0] == n
  {
    var n1 := n / 256;
    DivBound(n, 0x100_0000);
    var n2 := n1 / 256;
    DivBound(n1, 0x1_0000);
    var n3 := n2 / 256;
    DivBound(n2, 0x100);
    DivModUnique(n3, 256, 0, n3);
    assert LowOctets(n, 4) == [n % 256, n1 % 256, n2 % 256, n3 % 256];
  }

  /** The octets of a big-endian quad are its numbers, lowest first. */
  lemma LowOctetsOfQuad(a: nat, b: nat, c: nat, d: nat)
    requires a < 256 && b < 256 && c < 256 && d < 256
    ensures LowOctets(((a * 256 + b) * 256 + c) * 256 + d, 4) == [d, c, b, a]
  {
    var n := ((a * 256 + b) * 256 + c) * 256 + d;
    DivModUnique(n, 256, (a * 256 + b) * 256 + c, d);
    DivModUnique((a * 256 + b) * 256 + c, 256, a * 256 + b, c);
    DivModUnique(a * 256 + b, 256, a, b);
    DivModUnique(a, 256, 0, a);
    assert LowOctets(n, 4) == [n % 256] + LowOctets(n / 256, 3);
    assert LowOctets(n / 256, 3) == [c] + LowOctets(a * 256 + b, 2);
    assert LowOctets(a * 256 + b, 2) == [b] + LowOctets(a, 1);
  }

  /** Round trip: `ip_to_int(ip_to_str(n)) == n` for every 32-bit `n`. */
  lemma IpValueOfText(n: int)
    requires 0 <= n < Two32
    ensures IpValue(IpText(n)) == Ok(n)
  {
    var o := LowOctets(n, 4);
    IpValueOfQuad(o[3], o[2], o[1], o[0]);
    LowOctetsRecompose(n);
  }

  /** Round trip: `ip_to_str(ip_to_int(s)) == s` for a dotted quad of octets. */
  lemma IpTextOfValue(a: nat, b: nat, c: nat, d: nat)
    requires a < 256 && b < 256 && c < 256 && d < 256
    ensures IpValue(PcdsSubnet.Dotted([a, b, c, d])).Ok?
    ensures IpText(IpValue(PcdsSubnet.Dotted([a, b, c, d])).value) == PcdsSubnet.Dotted([a, b, c, d])
  {
    IpValueOfQuad(a, b, c, d);
    LowOctetsOfQuad(a, b, c, d);
  }

  /** `ip_to_str` renders only the low 32 bits, whatever the sign of its argument. */
  lemma IpTextLow32(n: int)
    ensures IpText(n) == IpText(n % Two32)
  {
    LowOctetsLow(n, 4);
    assert Pow256(4) == Two32;
  }

  /** The low 32 bits of a Python int, as a 32-bit word. */
  function Low32(n: int): bv32 {
    (n % Two32) as bv32
  }

  /**
   * The low 32 bits of `ip | ~mask`: the network bits of `ip` under `mask`, every host
   * bit set.
   */
  function Broadcast(ip: int, mask: int): (r: bv32)
    ensures r & Low32(mask) == Low32(ip) & Low32(mask)
    ensures r | Low32(mask) == 0xFFFF_FFFF
  {
    Low32(ip) | !Low32(mask)
  }

  /** Those two properties determine the broadcast word. */
  lemma BroadcastUnique(ip: int, mask: int, w: bv32)
    requires w & Low32(mask) == Low32(ip) & Low32(mask)
    requires w | Low32(mask) == 0xFFFF_FFFF
    ensures w == Broadcast(ip, mask)
  {
  }

  /** Setting the host bits twice sets them once. */
  lemma BroadcastIdempotent(ip: int, mask: int)
    ensures Broadcast(Broadcast(ip, mask) as int, mask) == Broadcast(ip, mask)
  {
    var w := Broadcast(ip, mask);
    Low32Word(w);
    OrTwice(Low32(ip), !Low32(mask));
  }

  /** A 32-bit word read back as an int keeps its bits. */
  lemma Low32Word(w: bv32)
    ensures Low32(w as int) == w
  {
    var n := w as int;
    assert 0 <= n < Two32;
    DivModUnique(n, Two32, 0, n);
  }

  lemma OrTwice(a: bv32, b: bv32)
    ensures (a | b) | b == a | b
  {
  }

  /**
   * `get_bcaddr`: the address with every host bit of `ipaddr` set, as dotted text; the
   * address is parsed before the mask, and either parse can raise ValueError.
   */
  function BcaddrOf(ipaddr: string, mask: string): (r: Result<string, PyExc>)
    ensures r.Err? <==> IpValue(ipaddr).Err? || IpValue(mask).Err?
    ensures IpValue(ipaddr).Err? ==> r == Err(IpValue(ipaddr).error)
    ensures IpValue(ipaddr).Ok? && IpValue(mask).Err? ==> r == Err(IpValue(mask).error)
  {
    match IpValue(ipaddr)
    case Err(e) => Err(e)
    case Ok(i) =>
      match IpValue(mask)
      case Err(e) => Err(e)
      case Ok(m) => Ok(IpText(Broadcast(i, m) as int))
  }

  /** The broadcast text reads back as the broadcast word. */
  lemma BcaddrValue(ipaddr: string, mask: string)
    requires BcaddrOf(ipaddr, mask).Ok?
    ensures IpValue(BcaddrOf(ipaddr, mask).value) == Ok(Broadcast(IpValue(ipaddr).value, IpValue(mask).value) as int)
  {
    IpValueOfText(Broadcast(IpValue(ipaddr).value, IpValue(mask).value) as int);
  }

  /** `get_bcaddr` is idempotent: a broadcast address is its own broadcast address. */
  lemma BcaddrIdempotent(ipaddr: string, mask: string)
    requires BcaddrOf(ipaddr, mask).Ok?
    ensures BcaddrOf(BcaddrOf(ipaddr, mask).value, mask) == BcaddrOf(ipaddr, mask)
  {
    var i, m := IpValue(ipaddr).value, IpValue(mask).value;
    BcaddrValue(ipaddr, mask);
    BroadcastIdempotent(i, m);
    var b := BcaddrOf(ipaddr, mask).value;
    assert IpValue(b) == Ok(Broadcast(i, m) as int);
    assert BcaddrOf(b, mask) == Ok(IpText(Broadcast(Broadcast(i, m) as int, m) as int));
  }

  /** `get_bcaddr`. */
  method GetBcaddr(ipaddr: string, mask: string) returns (r: Result<string, PyExc>)
    ensures r == BcaddrOf(ipaddr, mask)
  {
    var ipint := IpToInt(ipaddr);
    if ipint.Err? {
      return Err(ipint.error);
    }
    var maskint := IpToInt(mask);
    if maskint.Err? {
      return Err(maskint.error);
    }
    var bcaddr := IpToStr(Broadcast(ipint.value, maskint.value) as int);
    return Ok(bcaddr);
  }

  /** A subnet of the gateway host: its name, netmask and broadcast address, as dotted text. */
  datatype SubnetInfo = SubnetInfo(name: string, mask: string, bcaddr: string)

  /**
   * `SubnetInfo.contains_ip`: whether the address's broadcast address under this
   * subnet's mask is the subnet's own; parsing either can raise ValueError.
   */
  function ContainsIp(s: SubnetInfo, ipaddr: string): (r: Result<bool, PyExc>)
    ensures r.Err? <==> BcaddrOf(ipaddr, s.mask).Err?
    ensures r == Ok(true) <==> BcaddrOf(ipaddr, s.mask) == Ok(s.bcaddr)
  {
    match BcaddrOf(ipaddr, s.mask)
    case Err(e) => Err(e)
    case Ok(b) => Ok(s.bcaddr == b)
  }

  /** A subnet whose broadcast address is a broadcast address under its mask contains it. */
  lemma ContainsOwnBcaddr(s: SubnetInfo, ipaddr: string)
    requires BcaddrOf(ipaddr, s.mask) == Ok(s.bcaddr)
    ensures ContainsIp(s, s.bcaddr) == Ok(true)
  {
    BcaddrIdempotent(ipaddr, s.mask);
  }

  /** Distinct 32-bit numbers have distinct dotted texts. */
  lemma IpTextInjective(a: int, b: int)
    requires 0 <= a < Two32 && 0 <= b < Two32 && IpText(a) == IpText(b)
    ensures a == b
  {
    IpValueOfText(a);
    IpValueOfText(b);
  }

  /** A word is the broadcast word exactly when it has the two defining properties. */
  lemma BroadcastIff(ip: int, mask: int, w: bv32)
    ensures w == Broadcast(ip, mask) <==>
      (w & Low32(mask) == Low32(ip) & Low32(mask) && w | Low32(mask) == 0xFFFF_FFFF)
  {
    if w & Low32(mask) == Low32(ip) & Low32(mask) && w | Low32(mask) == 0xFFFF_FFFF {
      BroadcastUnique(ip, mask, w);
    }
  }

  /** Distinct words have distinct dotted texts. */
  lemma SameWord(v: bv32, w: bv32)
    requires IpText(v as int) == IpText(w as int)
    ensures v == w
  {
    SameWordValue(v, w);
    WordInjective(v, w);
  }

  lemma SameWordValue(v: bv32, w: bv32)
    requires IpText(v as int) == IpText(w as int)
    ensures v as int == w as int
  {
    IpTextInjective(v as int, w as int);
  }

  lemma WordInjective(v: bv32, w: bv32)
    requires v as int == w as int
    ensures v == w
  {
    Low32Word(v);
    Low32Word(w);
  }

  /**
   * For a subnet whose broadcast address is the dotted text of the word `bc`,
   * `contains_ip` holds exactly when the address agrees with `bc` on every network bit
   * and `bc` has every host bit set.
   */
  lemma ContainsIpMeaning(s: SubnetInfo, ipaddr: string, bc: bv32, i: int, mask: int)
    requires s.bcaddr == IpText(bc as int)
    requires IpValue(ipaddr) == Ok(i) && IpValue(s.mask) == Ok(mask)
    ensures ContainsIp(s, ipaddr) == Ok(Low32(i) & Low32(mask) == bc & Low32(mask) && bc | Low32(mask) == 0xFFFF_FFFF)
  {
    var w := Broadcast(i, mask);
    ContainsIpBy(s, ipaddr, i, mask);
    if IpText(bc as int) == IpText(w as int) {
      SameWord(bc, w);
    }
    BroadcastIff(i, mask, bc);
  }

  lemma ContainsIpBy(s: SubnetInfo, ipaddr: string, i: int, mask: int)
    requires IpValue(ipaddr) == Ok(i) && IpValue(s.mask) == Ok(mask)
    ensures ContainsIp(s, ipaddr) == Ok(s.bcaddr == IpText(Broadcast(i, mask) as int))
  {
  }

  /** The netmasks `get_mask` tries, in order. */
  const MaskGuesses: seq<string> := ["255.255.252.0", "255.255.255.0"]

  function NoMaskError(ipaddr: string, bcaddr: string): PyExc {
    ValueError([Lit("Could not find a valid netmask for ip="), Lit(ipaddr), Lit(", bc="), Lit(bcaddr)])
  }

  /** Under `guess`, `bcaddrOf` gives the address a broadcast address, and it is not `bcaddr`. */
  predicate Misses(ipaddr: string, guess: string, bcaddr: string, bcaddrOf: (string, string) -> Result<string, PyExc>) {
    bcaddrOf(ipaddr, guess).Ok? && bcaddrOf(ipaddr, guess).value != bcaddr
  }

  /**
   * `get_mask`'s loop over the guesses still to try, with `bcaddrOf` standing for
   * `get_bcaddr`: the first guess under which the address's broadcast address is
   * `bcaddr`; an error from `bcaddrOf` propagates, and when no guess fits, ValueError.
   */
  function MaskFrom(guesses: seq<string>, ipaddr: string, bcaddr: string,
                    bcaddrOf: (string, string) -> Result<string, PyExc>): (r: Result<string, PyExc>)
    decreases |guesses|
    ensures r.Ok? ==> r.value in guesses && bcaddrOf(ipaddr, r.value) == Ok(bcaddr)
  {
    if guesses == [] then Err(NoMaskError(ipaddr, bcaddr))
    else
      match bcaddrOf(ipaddr, guesses[0])
      case Err(e) => Err(e)
      case Ok(b) => if b == bcaddr then Ok(guesses[0]) else MaskFrom(guesses[1..], ipaddr, bcaddr, bcaddrOf)
  }

  /** `get_mask` returns the first guess that fits, after guesses that all miss. */
  lemma {:induction false} MaskFromFirst(guesses: seq<string>, ipaddr: string, bcaddr: string,
                                         bcaddrOf: (string, string) -> Result<string, PyExc>)
    requires MaskFrom(guesses, ipaddr, bcaddr, bcaddrOf).Ok?
    ensures exists k :: (0 <= k < |guesses| && guesses[k] == MaskFrom(guesses, ipaddr, bcaddr, bcaddrOf).value
      && forall j :: 0 <= j < k ==> Misses(ipaddr, guesses[j], bcaddr, bcaddrOf))
    decreases |guesses|
  {
    var r := MaskFrom(guesses, ipaddr, bcaddr, bcaddrOf);
    if Misses(ipaddr, guesses[0], bcaddr, bcaddrOf) {
      MaskFromFirst(guesses[1..], ipaddr, bcaddr, bcaddrOf);
      var k :| 0 <= k < |guesses[1..]| && guesses[1..][k] == r.value
        && forall j :: 0 <= j < k ==> Misses(ipaddr, guesses[1..][j], bcaddr, bcaddrOf);
      assert guesses[k + 1] == r.value;
      forall j | 1 <= j <= k
        ensures Misses(ipaddr, guesses[j], bcaddr, bcaddrOf)
      {
        assert guesses[j] == guesses[1..][j - 1];
      }
    } else {
      assert guesses[0] == r.value;
    }
  }

  /** `get_mask` raises the no-netmask ValueError when every guess misses. */
  lemma {:induction false} MaskFromNone(guesses: seq<string>, ipaddr: string, bcaddr: string,
                                        bcaddrOf: (string, string) -> Result<string, PyExc>)
    requires forall j :: 0 <= j < |guesses| ==> Misses(ipaddr, guesses[j], bcaddr, bcaddrOf)
    ensures MaskFrom(guesses, ipaddr, bcaddr, bcaddrOf) == Err(NoMaskError(ipaddr, bcaddr))
    decreases |guesses|
  {
    if guesses != [] {
      assert Misses(ipaddr, guesses[0], bcaddr, bcaddrOf);
      assert forall j :: 0 <= j < |guesses[1..]| ==> Misses(ipaddr, guesses[1..][j], bcaddr, bcaddrOf);
      MaskFromNone(guesses[1..], ipaddr, bcaddr, bcaddrOf);
    }
  }

  /**
   * Any other error `get_mask` raises is what `bcaddrOf` raised for a guess after
   * guesses that all miss.
   */
  lemma {:induction false} MaskFromError(guesses: seq<string>, ipaddr: string, bcaddr: string,
                                         bcaddrOf: (string, string) -> Result<string, PyExc>)
    requires MaskFrom(guesses, ipaddr, bcaddr, bcaddrOf).Err?
    requires MaskFrom(guesses, ipaddr, bcaddr, bcaddrOf) != Err(NoMaskError(ipaddr, bcaddr))
    ensures exists k :: (0 <= k < |guesses| && bcaddrOf(ipaddr, guesses[k]) == MaskFrom(guesses, ipaddr, bcaddr, bcaddrOf)
      && forall j :: 0 <= j < k ==> Misses(ipaddr, guesses[j], bcaddr, bcaddrOf))
    decreases |guesses|
  {
    var r := MaskFrom(guesses, ipaddr, bcaddr, bcaddrOf);
    if Misses(ipaddr, guesses[0], bcaddr, bcaddrOf) {
      MaskFromError(guesses[1..], ipaddr, bcaddr, bcaddrOf);
      var k :| 0 <= k < |guesses[1..]| && bcaddrOf(ipaddr, guesses[1..][k]) == r
        && forall j :: 0 <= j < k ==> Misses(ipaddr, guesses[1..][j], bcaddr, bcaddrOf);
      assert bcaddrOf(ipaddr, guesses[k + 1]) == r;
      forall j | 1 <= j <= k
        ensures Misses(ipaddr, guesses[j], bcaddr, bcaddrOf)
      {
        assert guesses[j] == guesses[1..][j - 1];
      }
    } else {
      assert bcaddrOf(ipaddr, guesses[0]) == r;
    }
  }

  /** What `get_mask(ipaddr, bcaddr)` returns or raises. */
  function MaskOf(ipaddr: string, bcaddr: string): Result<string, PyExc> {
    MaskFrom(MaskGuesses, ipaddr, bcaddr, BcaddrOf)
  }

  /** `get_mask`. */
  method GetMask(ipaddr: string, bcaddr: string) returns (r: Result<string, PyExc>)
    ensures r == MaskOf(ipaddr, bcaddr)
  {
    var guesses := MaskGuesses;
    var i := 0;
    while i < |guesses|
      invariant 0 <= i <= |guesses|
      invariant MaskFrom(guesses, ipaddr, bcaddr, BcaddrOf) == MaskFrom(guesses[i..], ipaddr, bcaddr, BcaddrOf)
    {
      assert guesses[i..][0] == guesses[i] && guesses[i..][1..] == guesses[i + 1..];
      var b := GetBcaddr(ipaddr, guesses[i]);
      if b.Err? {
        return Err(b.error);
      }
      if b.value == bcaddr {
        return Ok(guesses[i]);
      }
      i := i + 1;
    }
    return Err(NoMaskError(ipaddr, bcaddr));
  }

  /** A mask `get_mask` returns is one of the guesses and reproduces the broadcast address. */
  lemma MaskOfFits(ipaddr: string, bcaddr: string)
    requires MaskOf(ipaddr, bcaddr).Ok?
    ensures MaskOf(ipaddr, bcaddr).value in MaskGuesses && MaskOf(ipaddr, bcaddr).value != ""
    ensures BcaddrOf(ipaddr, MaskOf(ipaddr, bcaddr).value) == Ok(bcaddr)
  {
  }
}
