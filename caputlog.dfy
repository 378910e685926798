/**
 * The caPutLog parser of gateway_tests/process/test_logging.py: a log is a header, the
 * line "Attempted Writes:", then one put per line, each
 * `<month> <day> <time> <user>@<host> <pvname> <value>[ old=<old value>]`.
 */
module Caputlog {
  import opened Wrappers
  import opened Strings
  import opened Values

  /** The line that ends the header. */
  const Marker: string := "Attempted Writes:"

  /** What separates a put's new value from its old one. */
  const OldSep: string := " old="

  /**
   * A put's value: the text before " old=" when the line has an old value, and
   * otherwise the list of the space-separated tokens after the PV name.
   */
  datatype PutValue = Joined(text: string) | Tokens(items: seq<string>)

  /** `Caput`, its date kept as the unparsed text of the line's first three tokens. */
  datatype Caput = Caput(date: string, user: string, host: string, pvname: string, value: PutValue, oldValue: Option<string>)

  datatype CaputLog = CaputLog(header: seq<string>, puts: seq<Caput>)

  /** `a, b = pieces`, which raises ValueError unless there are exactly two. */
  function Unpack2(pieces: seq<string>): (r: Result<(string, string), PyExc>)
    ensures r.Ok? <==> |pieces| == 2
    ensures r.Ok? ==> r.value == (pieces[0], pieces[1])
    ensures r.Err? ==> r.error.ValueError?
  {
    if |pieces| == 2 then Ok((pieces[0], pieces[1]))
    else if |pieces| < 2 then
      Err(ValueError([Lit("not enough values to unpack (expected 2, got "), Lit(NatToStr(|pieces|)), Lit(")")]))
    else Err(ValueError([Lit("too many values to unpack (expected 2)")]))
  }

  /** Python `parts[n:]`, empty when there are at most `n` parts. */
  function From(parts: seq<string>, n: nat): seq<string> {
    if |parts| <= n then [] else parts[n..]
  }

  /** The value and old value: one split on " old=" when the line holds it, else the tokens. */
  function ValueAndOld(line: string, parts: seq<string>): Result<(PutValue, Option<string>), PyExc> {
    if Contains(line, OldSep) then
      match Unpack2(Split(Join(" ", From(parts, 5)), OldSep))
      case Err(e) => Err(e)
      case Ok(p) => Ok((Joined(p.0), Some(p.1)))
    else Ok((Tokens(From(parts, 5)), None))
  }

  /**
   * `Caput.from_line`, with the date left unparsed. Python evaluates `parts[3]` (an
   * IndexError for fewer than four tokens), unpacks user and host, splits off the old
   * value, and only then reads `parts[4]`.
   */
  function FromLine(line: string): Result<Caput, PyExc> {
    var parts := Split(line, " ");
    if |parts| < 4 then Err(IndexError)
    else
      match Unpack2(Split(parts[3], "@"))
      case Err(e) => Err(e)
      case Ok(who) =>
        match ValueAndOld(line, parts)
        case Err(e) => Err(e)
        case Ok(vo) =>
          if |parts| < 5 then Err(IndexError)
          else Ok(Caput(Join(" ", parts[..3]), who.0, who.1, parts[4], vo.0, vo.1))
  }

  /**
   * What a parsed put holds: the PV name is the fifth token, user and host are the two
   * sides of the fourth token's only "@", and the value is either the text before the
   * only " old=" with the old value after it, or the tokens after the PV name.
   */
  lemma FromLineFields(line: string)
    requires FromLine(line).Ok?
    ensures var parts := Split(line, " "); var c := FromLine(line).value;
      |parts| >= 5 && c.pvname == parts[4] && c.date == Join(" ", parts[..3])
      && c.user + "@" + c.host == parts[3] && '@' !in c.user && '@' !in c.host
      && (Contains(line, OldSep) ==>
            c.value.Joined? && c.oldValue.Some? && c.value.text + OldSep + c.oldValue.value == Join(" ", parts[5..])
            && !Contains(c.value.text, OldSep) && !Contains(c.oldValue.value, OldSep))
      && (!Contains(line, OldSep) ==> c.value == Tokens(parts[5..]) && c.oldValue == None)
  {
    var parts := Split(line, " ");
    UserAtHost(parts[3]);
    if Contains(line, OldSep) {
      ValueOldFields(line, parts);
    }
  }

  /** User and host are the two sides of the token's only "@". */
  lemma UserAtHost(token: string)
    requires |Split(token, "@")| == 2
    ensures Split(token, "@")[0] + "@" + Split(token, "@")[1] == token
    ensures '@' !in Split(token, "@")[0] && '@' !in Split(token, "@")[1]
  {
    var who := Split(token, "@");
    JoinSplit(token, "@");
    SplitPiecesFree(token, "@");
    ContainsChar(who[0], '@');
    ContainsChar(who[1], '@');
  }

  /** The value and old value are the two sides of the only " old=" after the PV name. */
  lemma ValueOldFields(line: string, parts: seq<string>)
    requires ValueAndOld(line, parts).Ok? && |parts| >= 5 && Contains(line, OldSep)
    ensures var vo := ValueAndOld(line, parts).value;
      vo.0.Joined? && vo.1.Some? && vo.0.text + OldSep + vo.1.value == Join(" ", parts[5..])
      && !Contains(vo.0.text, OldSep) && !Contains(vo.1.value, OldSep)
  {
    var tail := Join(" ", parts[5..]);
    JoinSplit(tail, OldSep);
    SplitPiecesFree(tail, OldSep);
  }

  /**
   * The fourth token must hold exactly one "@": with fewer than five tokens or a
   * different number of "@", parsing fails.
   */
  lemma FromLineAt(line: string)
    requires |Split(line, " ")| >= 4
    ensures multiset(Split(line, " ")[3])['@'] != 1 ==> FromLine(line).Err? && FromLine(line).error.ValueError?
    ensures |Split(line, " ")| == 4 && multiset(Split(line, " ")[3])['@'] == 1 ==> FromLine(line).Err?
  {
    SplitCount(Split(line, " ")[3], '@');
  }

  /** A second " old=" after the PV name makes parsing fail with ValueError. */
  lemma FromLineTwoOlds(line: string, a: string, b: string, c: string)
    requires |Split(line, " ")| >= 4 && multiset(Split(line, " ")[3])['@'] == 1
    requires Join(" ", From(Split(line, " "), 5)) == a + OldSep + b + OldSep + c
    ensures FromLine(line).Err? && FromLine(line).error.ValueError?
  {
    SplitCount(Split(line, " ")[3], '@');
    TwoOlds(line, a, b, c);
  }

  /** The value split fails with ValueError when the tail after the PV name holds " old=" twice. */
  lemma TwoOlds(line: string, a: string, b: string, c: string)
    requires Join(" ", From(Split(line, " "), 5)) == a + OldSep + b + OldSep + c
    ensures ValueAndOld(line, Split(line, " ")).Err? && ValueAndOld(line, Split(line, " ")).error.ValueError?
  {
    var parts := Split(line, " ");
    SplitTwice(a, b, c, OldSep);
    assert |Join(" ", From(parts, 5))| >= |OldSep|;
    assert From(parts, 5) != [];
    TailInLine(line);
    var n := |Join(" ", parts[..5])| + 1 + |a|;
    assert line[n..][..|OldSep|] == OldSep;
    ContainsAt(line, OldSep, n);
  }

  /** A line of more than five tokens is the first five, a space, and the rest joined. */
  lemma TailInLine(line: string)
    requires |Split(line, " ")| > 5
    ensures line == Join(" ", Split(line, " ")[..5]) + " " + Join(" ", Split(line, " ")[5..])
  {
    JoinAt(" ", Split(line, " "), 5);
    JoinSplit(line, " ");
  }

  // ------------------------------------------------------------------- writing

  /** The tokens of a put's line, as caPutLog writes them. */
  function LineTokens(c: Caput): seq<string> {
    Split(c.date, " ") + [c.user + "@" + c.host, c.pvname]
    + match c.value
      case Joined(t) => [t] + (if c.oldValue.Some? then ["old=" + c.oldValue.value] else [])
      case Tokens(ts) => ts
  }

  /** A put's line: its tokens joined by single spaces. */
  function FormatLine(c: Caput): string {
    Join(" ", LineTokens(c))
  }

  /**
   * A put the parser can read back: a three-token date, no space inside a token, one
   * "@" between user and host, and either a value with an old value or value tokens
   * with no "=" anywhere (so no " old=" can appear).
   */
  predicate WellFormed(c: Caput) {
    var toks := LineTokens(c);
    |Split(c.date, " ")| == 3
    && (forall k :: 0 <= k < |toks| ==> ' ' !in toks[k])
    && '@' !in c.user && '@' !in c.host
    && (c.value.Joined? <==> c.oldValue.Some?)
    && (c.value.Tokens? ==> forall k :: 0 <= k < |toks| ==> '=' !in toks[k])
  }

  /** Parsing a written line gives back the put it was written from. */
  lemma FormatParses(c: Caput)
    requires WellFormed(c)
    ensures FromLine(FormatLine(c)) == Ok(c)
  {
    var toks := LineTokens(c);
    var line := FormatLine(c);
    FormatTokens(c);
    var vo := ValueAndOld(line, toks);
    match c.value
    case Joined(t) =>
      FormatJoined(c, t, c.oldValue.value);
    case Tokens(ts) =>
      FormatTokensOnly(c, ts);
  }

  /** The tokens of a written line are the ones it was written from, the date and user@host among them. */
  lemma FormatTokens(c: Caput)
    requires WellFormed(c)
    ensures Split(FormatLine(c), " ") == LineTokens(c)
    ensures Join(" ", LineTokens(c)[..3]) == c.date
    ensures LineTokens(c)[4] == c.pvname
    ensures Split(LineTokens(c)[3], "@") == [c.user, c.host]
  {
    var toks := LineTokens(c);
    assert Split(FormatLine(c), " ") == toks by {
      SplitJoin(toks, ' ');
    }
    assert Join(" ", toks[..3]) == c.date by {
      assert toks[..3] == Split(c.date, " ");
      JoinSplit(c.date, " ");
    }
    assert Split(toks[3], "@") == [c.user, c.host] by {
      assert toks[3] == c.user + "@" + c.host == Join("@", [c.user, c.host]);
      SplitJoin([c.user, c.host], '@');
    }
  }

  /** A written line with an old value holds " old=", and its tail splits into value and old value. */
  lemma FormatJoined(c: Caput, t: string, o: string)
    requires WellFormed(c) && c.value == Joined(t) && c.oldValue == Some(o)
    ensures Split(FormatLine(c), " ") == LineTokens(c)
    ensures ValueAndOld(FormatLine(c), LineTokens(c)) == Ok((Joined(t), Some(o)))
  {
    var toks := LineTokens(c);
    var line := FormatLine(c);
    FormatTokens(c);
    assert toks[5..] == [t, "old=" + o];
    assert Join(" ", toks[5..]) == t + OldSep + o;
    JoinAt(" ", toks, 5);
    var n := |Join(" ", toks[..5])| + 1 + |t|;
    assert line[n..][..|OldSep|] == OldSep;
    ContainsAt(line, OldSep, n);
    assert toks[5] == t && toks[6] == "old=" + o;
    InSuffix("old=", o, ' ');
    SplitOld(t, o);
  }

  /** A written line without an old value holds no "=", so no " old=": the value is the tokens. */
  lemma FormatTokensOnly(c: Caput, ts: seq<string>)
    requires WellFormed(c) && c.value == Tokens(ts)
    ensures ValueAndOld(FormatLine(c), LineTokens(c)) == Ok((Tokens(ts), None))
  {
    var toks := LineTokens(c);
    var line := FormatLine(c);
    assert toks[5..] == ts;
    JoinFree(" ", toks, '=');
    ContainsChars(line, OldSep);
    assert OldSep[4] == '=';
  }

  /** A character of a suffix is a character of the whole. */
  lemma InSuffix(p: string, o: string, ch: char)
    ensures ch in o ==> ch in p + o
  {
    if ch in o {
      var j :| 0 <= j < |o| && o[j] == ch;
      assert (p + o)[|p| + j] == ch;
    }
  }

  /** Splitting `t + " old=" + o` on " old=" gives `t` and `o` when neither holds a space. */
  lemma SplitOld(t: string, o: string)
    requires ' ' !in t && ' ' !in o
    ensures Split(t + OldSep + o, OldSep) == [t, o]
  {
    var s := t + OldSep + o;
    assert s[|t|..][..|OldSep|] == OldSep;
    FindAtMost(s, OldSep, |t|);
    var i := Find(s, OldSep).value;
    assert s[i] == ' ';
    assert forall j :: 0 <= j < |t| ==> s[j] == t[j];
    assert i == |t|;
    assert s[..i] == t && s[i + |OldSep|..] == o;
    ContainsChars(o, OldSep);
    assert OldSep[0] == ' ';
    assert Find(o, OldSep).None?;
    SplitUnfold(s, OldSep, i);
    assert Split(o, OldSep) == [o];
  }

  // ------------------------------------------------------------------ the log

  /** `lines.index(x)`: the first index holding `x`, None for the ValueError. */
  function IndexOf(lines: seq<string>, x: string): (r: Option<nat>)
    ensures r.None? <==> x !in lines
    ensures r.Some? ==> r.value < |lines| && lines[r.value] == x && x !in lines[..r.value]
  {
    if lines == [] then None
    else if lines[0] == x then Some(0)
    else
      match IndexOf(lines[1..], x)
      case None => None
      case Some(i) =>
        assert lines[..i + 1] == [lines[0]] + lines[1..][..i];
        Some(i + 1)
  }

  /** A parser for one put line; the log is parsed with `FromLine`. */
  type Parser = string -> Result<Caput, PyExc>

  /** `[parse(line) for line in lines]`: the first line that fails fails the list. */
  function ParseAll(lines: seq<string>, parse: Parser): (r: Result<seq<Caput>, PyExc>)
    ensures r.Ok? <==> forall k :: 0 <= k < |lines| ==> parse(lines[k]).Ok?
    ensures r.Ok? ==> |r.value| == |lines| && forall k :: 0 <= k < |lines| ==> r.value[k] == parse(lines[k]).value
  {
    if lines == [] then Ok([])
    else
      match parse(lines[0])
      case Err(e) => Err(e)
      case Ok(c) =>
        match ParseAll(lines[1..], parse)
        case Err(e) => Err(e)
        case Ok(cs) => Ok([c] + cs)
  }

  /** The error of the list is the error of its first line that fails. */
  lemma {:induction false} ParseAllFirstError(lines: seq<string>, parse: Parser, k: nat)
    requires k < |lines| && parse(lines[k]).Err?
    requires forall j :: 0 <= j < k ==> parse(lines[j]).Ok?
    ensures ParseAll(lines, parse) == Err(parse(lines[k]).error)
  {
    if k > 0 {
      assert parse(lines[0]).Ok?;
      ParseAllFirstError(lines[1..], parse, k - 1);
    }
  }

  /** The error of a failing list is the error of one of its lines. */
  lemma {:induction false} ParseAllError(lines: seq<string>, parse: Parser)
    requires ParseAll(lines, parse).Err?
    ensures exists k :: 0 <= k < |lines| && parse(lines[k]) == Err(ParseAll(lines, parse).error)
  {
    if parse(lines[0]).Ok? {
      ParseAllError(lines[1..], parse);
      var k :| 0 <= k < |lines| - 1 && parse(lines[1..][k]) == Err(ParseAll(lines[1..], parse).error);
      assert lines[k + 1] == lines[1..][k];
    }
  }

  /** The RuntimeError for a log without the marker line, which shows the lines. */
  function NoMarkerError(lines: seq<string>): PyExc {
    RuntimeError([Lit("Invalid caputlog? Lines: "), Shown(VList(seq(|lines|, i requires 0 <= i < |lines| => VStr(lines[i]))))])
  }

  /** `CaputLog.from_string` after `splitlines()`, with `parse` for `Caput.from_line`. */
  function ParseLines(lines: seq<string>, parse: Parser): Result<CaputLog, PyExc> {
    match IndexOf(lines, Marker)
    case None => Err(NoMarkerError(lines))
    case Some(i) =>
      match ParseAll(lines[i + 1..], parse)
      case Err(e) => Err(e)
      case Ok(puts) => Ok(CaputLog(lines[..i], puts))
  }

  /** `CaputLog.from_string`. */
  function FromString(contents: string): Result<CaputLog, PyExc> {
    ParseLines(SplitLines(contents), FromLine)
  }

  /** `CaputLog.from_bytes`: the bytes decoded as latin-1, then parsed. */
  function FromBytes(raw: seq<bv8>): Result<CaputLog, PyExc> {
    FromString(Latin1(raw))
  }

  /** A line parser that never raises RuntimeError. */
  ghost predicate NoRuntimeError(parse: Parser) {
    forall line :: parse(line).Err? ==> !parse(line).error.RuntimeError?
  }

  /** `Caput.from_line` fails with IndexError or ValueError only. */
  lemma FromLineNoRuntimeError()
    ensures NoRuntimeError(FromLine)
  {
    forall line | FromLine(line).Err?
      ensures !FromLine(line).error.RuntimeError?
    {
      var parts := Split(line, " ");
      if |parts| >= 4 && Unpack2(Split(parts[3], "@")).Ok? {
        assert ValueAndOld(line, parts).Err? ==> ValueAndOld(line, parts).error.ValueError?;
      }
    }
  }

  /** No line reading exactly "Attempted Writes:" is the one way to get a RuntimeError. */
  lemma ParseLinesNoMarker(lines: seq<string>, parse: Parser)
    requires NoRuntimeError(parse)
    ensures ParseLines(lines, parse).Err? && ParseLines(lines, parse).error.RuntimeError? <==> Marker !in lines
  {
    if Marker in lines {
      var rest := lines[IndexOf(lines, Marker).value + 1..];
      if ParseAll(rest, parse).Err? {
        ParseAllError(rest, parse);
      }
    }
  }

  /** `from_string` raises RuntimeError exactly when no line is the marker. */
  lemma FromStringNoMarker(contents: string)
    ensures FromString(contents).Err? && FromString(contents).error.RuntimeError?
            <==> Marker !in SplitLines(contents)
  {
    FromLineNoRuntimeError();
    ParseLinesNoMarker(SplitLines(contents), FromLine);
  }

  /**
   * A parsed log: the header is every line before the first marker line, each later line
   * is one put in order, and the marker is in neither.
   */
  lemma ParseLinesSplits(lines: seq<string>, parse: Parser)
    requires ParseLines(lines, parse).Ok?
    ensures var log := ParseLines(lines, parse).value;
      lines == log.header + [Marker] + lines[|log.header| + 1..]
      && Marker !in log.header
      && |log.puts| == |lines| - |log.header| - 1
      && forall k :: 0 <= k < |log.puts| ==> parse(lines[|log.header| + 1 + k]) == Ok(log.puts[k])
  {
    var i := IndexOf(lines, Marker).value;
    assert lines == lines[..i] + [Marker] + lines[i + 1..];
    var rest := lines[i + 1..];
    assert forall k :: 0 <= k < |rest| ==> rest[k] == lines[i + 1 + k];
  }

  /** With the marker present, the log fails exactly with the error of the first put line that fails. */
  lemma ParseLinesPutFails(lines: seq<string>, parse: Parser, i: nat, k: nat)
    requires IndexOf(lines, Marker) == Some(i)
    requires var rest := lines[i + 1..];
      k < |rest| && parse(rest[k]).Err? && forall j :: 0 <= j < k ==> parse(rest[j]).Ok?
    ensures ParseLines(lines, parse) == Err(parse(lines[i + 1 + k]).error)
  {
    var rest := lines[i + 1..];
    assert rest[k] == lines[i + 1 + k];
    ParseAllFirstError(rest, parse, k);
  }

  /** Bytes parse as their latin-1 text does: one character per byte, the same marker rule. */
  lemma FromBytesDecodes(raw: seq<bv8>)
    ensures FromBytes(raw).Err? && FromBytes(raw).error.RuntimeError? <==> Marker !in SplitLines(Latin1(raw))
    ensures FromBytes(raw).Ok? ==> FromBytes(raw).value.header == SplitLines(Latin1(raw))[..|FromBytes(raw).value.header|]
  {
    FromStringNoMarker(Latin1(raw));
    if FromBytes(raw).Ok? {
      ParseLinesSplits(SplitLines(Latin1(raw)), FromLine);
    }
  }
}
