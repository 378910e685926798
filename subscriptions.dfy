/**
 * The verdict on two lists of subscription events, one from the gateway and one from the
 * IOC (gateway_tests/process/test_subscriptions.py compare_subscription_events): the
 * events are compared pair by pair, then a gateway that sent one event too many is either
 * tolerated or refused, and otherwise the two lists must be of the same length.
 */
module Subscriptions {
  import opened Wrappers
  import opened Dicts
  import opened Strings
  import opened Values
  import opened Differences

  /**
   * How the comparison ends: it returns after every check passed, it returns after
   * logging a warning that the gateway behaved slightly differently, or it raises.
   */
  datatype Outcome = Passed | Tolerated | Raised(error: PyExc)

  /** An event as the pair loop compares it: for "ctrl", a copy without "timestamp". */
  function Prepared(form: string, event: Struct): Struct {
    if form == "ctrl" then Remove(event, "timestamp") else event
  }

  /** The RuntimeError for the `idx`-th pair (from 1) of `total` IOC events. */
  function EventError(idx: nat, total: nat, differences: Text): PyExc {
    RuntimeError([Lit("Differences in event "), Lit(NatToStr(idx)), Lit(" of "), Lit(NatToStr(total)), Lit(":\n")] + differences)
  }

  /** One pair of the loop: None when it passes, else what is raised. */
  function PairCheck(form: string, gateway: Struct, ioc: Struct, idx: nat, total: nat): Option<PyExc> {
    match Comparison(Prepared(form, gateway), Prepared(form, ioc), "Gateway", "IOC")
    case Err(e) => Some(e)
    case Ok(t) => if Blank(t) then None else Some(EventError(idx, total, t))
  }

  /** A check of one pair given its 1-based index; the loop uses `CheckOf`. */
  type Checker = (Struct, Struct, nat) -> Option<PyExc>

  /** The pair check of `form` among `total` IOC events. */
  function CheckOf(form: string, total: nat): Checker {
    (gateway: Struct, ioc: Struct, idx: nat) => PairCheck(form, gateway, ioc, idx, total)
  }

  /** The loop over the zipped events from the `k`-th pair (from 0) on. */
  function PairsFrom(gateway: seq<Struct>, ioc: seq<Struct>, k: nat, check: Checker): Option<PyExc>
    decreases |gateway| - k
  {
    if k >= |gateway| || k >= |ioc| then None
    else
      match check(gateway[k], ioc[k], k + 1)
      case Some(e) => Some(e)
      case None => PairsFrom(gateway, ioc, k + 1, check)
  }

  /** Every difference between the two gateway events is NaN in the first and 0.0 in the second. */
  predicate NanThenZero(first: Struct, second: Struct) {
    match Differences.Differences(first, second, DefaultSkip)
    case Err(_) => false
    case Ok(ds) => forall d :: d in ds ==> IsNaN(d.v1) && PyEq(d.v2, VFloat(Num(0.0)))
  }

  /** After the loop: the two-gateway-events-for-one check, then the length assertion. */
  function AfterPairs(gateway: seq<Struct>, ioc: seq<Struct>, strict: bool): Outcome {
    if |gateway| == 2 && |ioc| == 1 then
      match Comparison(gateway[0], gateway[1], "event 0", "event 1")
      case Err(e) => Raised(e)
      case Ok(t) =>
        if Blank(t) then
          if strict then Raised(RuntimeError([Lit("Duplicate initial event received")])) else Tolerated
        else if NanThenZero(gateway[0], gateway[1]) then
          if strict then Raised(RuntimeError([Lit("NaN event and then 0.0 event:\n")] + t)) else Tolerated
        else Raised(RuntimeError([Lit("Differences in events:\n")] + t))
    else if |gateway| == |ioc| then Passed
    else Raised(AssertionError)
  }

  /** `compare_subscription_events(gateway_events, form, ioc_events, strict)`. */
  function Compare(gateway: seq<Struct>, form: string, ioc: seq<Struct>, strict: bool): Outcome {
    match PairsFrom(gateway, ioc, 0, CheckOf(form, |ioc|))
    case Some(e) => Raised(e)
    case None => AfterPairs(gateway, ioc, strict)
  }

  /** `compare_subscription_events` as the loop it is. */
  method CompareSubscriptionEvents(gateway: seq<Struct>, form: string, ioc: seq<Struct>, strict: bool) returns (r: Outcome)
    ensures r == Compare(gateway, form, ioc, strict)
  {
    var n := if |gateway| < |ioc| then |gateway| else |ioc|;
    for k := 0 to n
      invariant PairsFrom(gateway, ioc, 0, CheckOf(form, |ioc|)) == PairsFrom(gateway, ioc, k, CheckOf(form, |ioc|))
    {
      var gatewayEvent := gateway[k];
      var iocEvent := ioc[k];
      if form == "ctrl" {
        gatewayEvent := Remove(gatewayEvent, "timestamp");
        iocEvent := Remove(iocEvent, "timestamp");
      }
      var differences := CompareStructures(gatewayEvent, iocEvent, "Gateway", "IOC");
      if differences.Err? {
        return Raised(differences.error);
      }
      if !Blank(differences.value) {
        return Raised(EventError(k + 1, |ioc|, differences.value));
      }
    }
    if |gateway| == 2 && |ioc| == 1 {
      var differences := CompareStructures(gateway[0], gateway[1], "event 0", "event 1");
      if differences.Err? {
        return Raised(differences.error);
      }
      if Blank(differences.value) {
        if strict {
          return Raised(RuntimeError([Lit("Duplicate initial event received")]));
        }
        return Tolerated;
      }
      if NanThenZero(gateway[0], gateway[1]) {
        if strict {
          return Raised(RuntimeError([Lit("NaN event and then 0.0 event:\n")] + differences.value));
        }
        return Tolerated;
      }
      return Raised(RuntimeError([Lit("Differences in events:\n")] + differences.value));
    }
    if |gateway| != |ioc| {
      return Raised(AssertionError);
    }
    return Passed;
  }

  // -------------------------------------------------------------------- lemmas

  /** Two events that compare equal: every unskipped key is on both sides, and none differs. */
  ghost predicate Same(s1: Struct, s2: Struct) {
    (forall k :: !Unmatched(s1, s2, DefaultSkip, k)) && forall k :: !Differs(s1, s2, DefaultSkip, k)
  }

  /**
   * A pair passes exactly when its prepared events compare equal; a pair whose keys
   * match but whose values differ raises the message naming its index.
   */
  lemma PairCheckMeaning(form: string, gateway: Struct, ioc: Struct, idx: nat, total: nat)
    ensures PairCheck(form, gateway, ioc, idx, total).None? <==> Same(Prepared(form, gateway), Prepared(form, ioc))
    ensures (forall k :: !Unmatched(Prepared(form, gateway), Prepared(form, ioc), DefaultSkip, k))
            && PairCheck(form, gateway, ioc, idx, total).Some? ==>
      Comparison(Prepared(form, gateway), Prepared(form, ioc), "Gateway", "IOC").Ok? &&
      PairCheck(form, gateway, ioc, idx, total)
        == Some(EventError(idx, total, Comparison(Prepared(form, gateway), Prepared(form, ioc), "Gateway", "IOC").value))
  {
    ComparisonEmpty(Prepared(form, gateway), Prepared(form, ioc), "Gateway", "IOC");
  }

  /** The loop passes from `k` on when every later pair passes. */
  lemma {:induction false} PairsPass(gateway: seq<Struct>, ioc: seq<Struct>, k: nat, check: Checker)
    requires forall j :: k <= j < |gateway| && j < |ioc| ==> check(gateway[j], ioc[j], j + 1).None?
    ensures PairsFrom(gateway, ioc, k, check) == None
    decreases |gateway| - k
  {
    if k < |gateway| && k < |ioc| {
      PairsPass(gateway, ioc, k + 1, check);
    }
  }

  /** The loop raises what the first failing pair raises. */
  lemma {:induction false} PairsFirstFailure(gateway: seq<Struct>, ioc: seq<Struct>, k: nat, m: nat, check: Checker)
    requires k <= m < |gateway| && m < |ioc|
    requires forall j :: k <= j < m ==> check(gateway[j], ioc[j], j + 1).None?
    requires check(gateway[m], ioc[m], m + 1).Some?
    ensures PairsFrom(gateway, ioc, k, check) == check(gateway[m], ioc[m], m + 1)
    decreases m - k
  {
    if k < m {
      PairsFirstFailure(gateway, ioc, k + 1, m, check);
    }
  }

  /** Pairs that compare equal pass the check of the loop. */
  lemma SamePairsPass(gateway: seq<Struct>, form: string, ioc: seq<Struct>, n: nat)
    requires forall j :: 0 <= j < n && j < |gateway| && j < |ioc| ==> Same(Prepared(form, gateway[j]), Prepared(form, ioc[j]))
    ensures forall j :: 0 <= j < n && j < |gateway| && j < |ioc| ==> CheckOf(form, |ioc|)(gateway[j], ioc[j], j + 1).None?
  {
    forall j | 0 <= j < n && j < |gateway| && j < |ioc|
      ensures CheckOf(form, |ioc|)(gateway[j], ioc[j], j + 1).None?
    {
      PairCheckMeaning(form, gateway[j], ioc[j], j + 1, |ioc|);
    }
  }

  /** Lists of the same length whose events compare equal pair by pair pass. */
  lemma EqualEventsPass(gateway: seq<Struct>, form: string, ioc: seq<Struct>, strict: bool)
    requires |gateway| == |ioc|
    requires forall j :: 0 <= j < |gateway| ==> Same(Prepared(form, gateway[j]), Prepared(form, ioc[j]))
    ensures Compare(gateway, form, ioc, strict) == Passed
  {
    SamePairsPass(gateway, form, ioc, |gateway|);
    PairsPass(gateway, ioc, 0, CheckOf(form, |ioc|));
  }

  /**
   * The first pair whose keys match but whose values differ raises RuntimeError naming
   * its 1-based index and the number of IOC events.
   */
  lemma FirstDifferenceRaises(gateway: seq<Struct>, form: string, ioc: seq<Struct>, strict: bool, m: nat)
    requires m < |gateway| && m < |ioc|
    requires forall j :: 0 <= j < m ==> Same(Prepared(form, gateway[j]), Prepared(form, ioc[j]))
    requires forall k :: !Unmatched(Prepared(form, gateway[m]), Prepared(form, ioc[m]), DefaultSkip, k)
    requires exists k :: Differs(Prepared(form, gateway[m]), Prepared(form, ioc[m]), DefaultSkip, k)
    ensures Comparison(Prepared(form, gateway[m]), Prepared(form, ioc[m]), "Gateway", "IOC").Ok?
    ensures Compare(gateway, form, ioc, strict)
      == Raised(EventError(m + 1, |ioc|, Comparison(Prepared(form, gateway[m]), Prepared(form, ioc[m]), "Gateway", "IOC").value))
  {
    SamePairsPass(gateway, form, ioc, m);
    PairCheckMeaning(form, gateway[m], ioc[m], m + 1, |ioc|);
    PairsFirstFailure(gateway, ioc, 0, m, CheckOf(form, |ioc|));
  }

  /**
   * Two identical gateway events for one IOC event (after a passing first pair): strict
   * mode raises, otherwise the comparison returns with a warning and no length check.
   */
  lemma DuplicateInitialEvent(gateway: seq<Struct>, form: string, ioc: seq<Struct>, strict: bool)
    requires |gateway| == 2 && |ioc| == 1
    requires Same(Prepared(form, gateway[0]), Prepared(form, ioc[0]))
    requires Same(gateway[0], gateway[1])
    ensures strict ==> Compare(gateway, form, ioc, strict) == Raised(RuntimeError([Lit("Duplicate initial event received")]))
    ensures !strict ==> Compare(gateway, form, ioc, strict) == Tolerated
  {
    SamePairsPass(gateway, form, ioc, 1);
    PairsPass(gateway, ioc, 0, CheckOf(form, |ioc|));
    ComparisonEmpty(gateway[0], gateway[1], "event 0", "event 1");
  }

  /** The first gateway event is NaN under `k` and the second equals 0.0 there. */
  ghost predicate NanToZero(first: Struct, second: Struct, k: string) {
    Get(first, k).Some? && Get(second, k).Some?
    && IsNaN(Plain(Get(first, k).value)) && PyEq(Plain(Get(second, k).value), VFloat(Num(0.0)))
  }

  /**
   * Two gateway events for one IOC event, differing: when every difference is NaN then
   * 0.0, strict mode raises and otherwise the comparison returns with a warning; any
   * other difference raises in both modes.
   */
  lemma NanThenZeroEvents(gateway: seq<Struct>, form: string, ioc: seq<Struct>, strict: bool)
    requires |gateway| == 2 && |ioc| == 1
    requires Same(Prepared(form, gateway[0]), Prepared(form, ioc[0]))
    requires forall k :: !Unmatched(gateway[0], gateway[1], DefaultSkip, k)
    requires exists k :: Differs(gateway[0], gateway[1], DefaultSkip, k)
    ensures Comparison(gateway[0], gateway[1], "event 0", "event 1").Ok?
    ensures var t := Comparison(gateway[0], gateway[1], "event 0", "event 1").value;
      if forall k :: Differs(gateway[0], gateway[1], DefaultSkip, k) ==> NanToZero(gateway[0], gateway[1], k) then
        Compare(gateway, form, ioc, strict)
          == if strict then Raised(RuntimeError([Lit("NaN event and then 0.0 event:\n")] + t)) else Tolerated
      else Compare(gateway, form, ioc, strict) == Raised(RuntimeError([Lit("Differences in events:\n")] + t))
  {
    SamePairsPass(gateway, form, ioc, 1);
    PairsPass(gateway, ioc, 0, CheckOf(form, |ioc|));
    ComparisonEmpty(gateway[0], gateway[1], "event 0", "event 1");
    NanThenZeroMeaning(gateway[0], gateway[1]);
  }

  /** The `all(...)` over the differences holds exactly when every differing key is NaN then 0.0. */
  lemma NanThenZeroMeaning(first: Struct, second: Struct)
    requires Differences.Differences(first, second, DefaultSkip).Ok?
    ensures NanThenZero(first, second) <==> forall k :: Differs(first, second, DefaultSkip, k) ==> NanToZero(first, second, k)
  {
    DifferencesReported(first, second, DefaultSkip);
    var ds := Differences.Differences(first, second, DefaultSkip).value;
    if NanThenZero(first, second) {
      forall k | Differs(first, second, DefaultSkip, k)
        ensures NanToZero(first, second, k)
      {
        var i :| 0 <= i < |ds| && DiffKeys(ds)[i] == k;
        assert ds[i] in ds;
      }
    }
  }

  /** Any other length mismatch, after passing pairs, fails the final assertion. */
  lemma LengthMismatch(gateway: seq<Struct>, form: string, ioc: seq<Struct>, strict: bool)
    requires |gateway| != |ioc| && !(|gateway| == 2 && |ioc| == 1)
    requires forall j :: 0 <= j < |gateway| && j < |ioc| ==> Same(Prepared(form, gateway[j]), Prepared(form, ioc[j]))
    ensures Compare(gateway, form, ioc, strict) == Raised(AssertionError)
  {
    SamePairsPass(gateway, form, ioc, |gateway|);
    PairsPass(gateway, ioc, 0, CheckOf(form, |ioc|));
  }

  /** For "ctrl" the pair loop does not see a timestamp: setting one changes nothing. */
  lemma CtrlIgnoresTimestamp(event: Struct, v: Value)
    ensures Prepared("ctrl", Assign(event, "timestamp", v)) == Prepared("ctrl", event)
  {
    RemoveAssign(event, "timestamp", v);
  }
}
