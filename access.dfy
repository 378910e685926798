/**
 * The gateway's three answers for a PV (gateway_tests/util.py AccessBehavior), and the
 * conversions and max/min used to combine them.
 */
module Access {
  import opened Wrappers
  import opened Strings
  import opened Values

  /** AccessBehavior, an IntEnum: DISCONNECTED = 0 < READ = 1 < WRITE = 2. */
  datatype Behavior = Disconnected | Read | Write

  /** The member's integer value. */
  function Level(b: Behavior): (r: nat)
    ensures r <= 2
  {
    match b
    case Disconnected => 0
    case Read => 1
    case Write => 2
  }

  /** The member's name. */
  function Name(b: Behavior): (r: string)
    ensures r != []
  {
    match b
    case Disconnected => "DISCONNECTED"
    case Read => "READ"
    case Write => "WRITE"
  }

  /** What `interpret_access` may be handed: a member, an int, a str, or None. */
  datatype AccessArg = Member(b: Behavior) | IntArg(i: int) | StrArg(s: string) | NoneArg

  /** A PVInfo access field as an argument: a string, or None. */
  function ArgOf(access: Option<string>): (r: AccessArg)
    ensures access.None? <==> r == NoneArg
    ensures access.Some? ==> r == StrArg(access.value)
  {
    if access.Some? then StrArg(access.value) else NoneArg
  }

  /** `AccessBehavior(i)`: lookup by value. */
  function ByValue(i: int): (r: Option<Behavior>)
    ensures r.Some? <==> 0 <= i <= 2
    ensures r.Some? ==> Level(r.value) == i
  {
    if i == 0 then Some(Disconnected)
    else if i == 1 then Some(Read)
    else if i == 2 then Some(Write)
    else None
  }

  /** `AccessBehavior[s]`: lookup by name. */
  function ByName(s: string): (r: Option<Behavior>)
    ensures r.Some? ==> Name(r.value) == s
    ensures r.None? ==> forall b: Behavior :: Name(b) != s
  {
    if s == "DISCONNECTED" then Some(Disconnected)
    else if s == "READ" then Some(Read)
    else if s == "WRITE" then Some(Write)
    else None
  }

  /**
   * `interpret_access`: a member is itself; an int is looked up by value; a str is looked
   * up by name, else any str starting "WRITE" is WRITE; a str that is neither raises
   * ValueError, and an int out of range or None reaches `.startswith` and raises
   * AttributeError.
   */
  function Interpret(a: AccessArg): (r: Result<Behavior, PyExc>)
    ensures a.Member? ==> r == Ok(a.b)
    ensures a.IntArg? ==> (r.Ok? <==> 0 <= a.i <= 2) && (r.Ok? ==> Level(r.value) == a.i)
    ensures a.StrArg? ==> (r.Ok? <==> ByName(a.s).Some? || StartsWith(a.s, "WRITE"))
    ensures a.StrArg? && r.Ok? ==> Name(r.value) == a.s || r.value == Write
    ensures r.Err? ==> (a.StrArg? <==> r.error.ValueError?)
    ensures a.NoneArg? ==> r == Err(AttributeError)
  {
    match a
    case Member(b) => Ok(b)
    case IntArg(i) =>
      if ByValue(i).Some? then Ok(ByValue(i).value) else Err(AttributeError)
    case StrArg(s) =>
      if ByName(s).Some? then Ok(ByName(s).value)
      else if StartsWith(s, "WRITE") then Ok(Write)
      else Err(ValueError([Lit("Could not interpret "), Shown(VStr(s)), Lit(" as an AccessBehavior.")]))
    case NoneArg => Err(AttributeError)
  }

  /** Every member is recovered from its value and from its name. */
  lemma InterpretRoundTrip(b: Behavior)
    ensures Interpret(IntArg(Level(b))) == Ok(b)
    ensures Interpret(StrArg(Name(b))) == Ok(b)
  {
  }

  /** The renderings the oracle reads back: "WRITE|READ" is WRITE, "NO_ACCESS" is refused. */
  lemma InterpretRenderings()
    ensures Interpret(StrArg("WRITE|READ")) == Ok(Write)
    ensures Interpret(StrArg("NO_ACCESS")).Err? && Interpret(StrArg("NO_ACCESS")).error.ValueError?
  {
    assert StartsWith("WRITE|READ", "WRITE") by { assert "WRITE|READ"[..5] == "WRITE"; }
    assert !StartsWith("NO_ACCESS", "WRITE") by { assert "NO_ACCESS"[0] != "WRITE"[0]; }
  }

  /** b1 is no higher than b2 in the IntEnum order. */
  predicate AtMost(b1: Behavior, b2: Behavior) {
    Level(b1) <= Level(b2)
  }

  /**
   * `promote_access(current, new)`: the higher of the two interpreted arguments; the
   * first argument is interpreted first, so its error wins.
   */
  function Promote(current: AccessArg, next: AccessArg): (r: Result<Behavior, PyExc>)
    ensures Interpret(current).Err? ==> r == Err(Interpret(current).error)
    ensures Interpret(current).Ok? && Interpret(next).Err? ==> r == Err(Interpret(next).error)
    ensures r.Ok? <==> Interpret(current).Ok? && Interpret(next).Ok?
    ensures r.Ok? ==> r.value == Interpret(current).value || r.value == Interpret(next).value
    ensures r.Ok? ==> AtMost(Interpret(current).value, r.value) && AtMost(Interpret(next).value, r.value)
  {
    match Interpret(current)
    case Err(e) => Err(e)
    case Ok(c) =>
      match Interpret(next)
      case Err(e) => Err(e)
      case Ok(n) => if Level(n) > Level(c) then Ok(n) else Ok(c)
  }

  /** `demote_access(current, new)`: the lower of the two interpreted arguments. */
  function Demote(current: AccessArg, next: AccessArg): (r: Result<Behavior, PyExc>)
    ensures Interpret(current).Err? ==> r == Err(Interpret(current).error)
    ensures Interpret(current).Ok? && Interpret(next).Err? ==> r == Err(Interpret(next).error)
    ensures r.Ok? <==> Interpret(current).Ok? && Interpret(next).Ok?
    ensures r.Ok? ==> r.value == Interpret(current).value || r.value == Interpret(next).value
    ensures r.Ok? ==> AtMost(r.value, Interpret(current).value) && AtMost(r.value, Interpret(next).value)
  {
    match Interpret(current)
    case Err(e) => Err(e)
    case Ok(c) =>
      match Interpret(next)
      case Err(e) => Err(e)
      case Ok(n) => if Level(n) < Level(c) then Ok(n) else Ok(c)
  }

  /** Promotion and demotion of members are commutative: the order is total. */
  lemma PromoteDemoteCommute(b1: Behavior, b2: Behavior)
    ensures Promote(Member(b1), Member(b2)) == Promote(Member(b2), Member(b1))
    ensures Demote(Member(b1), Member(b2)) == Demote(Member(b2), Member(b1))
  {
  }
}
