/**
 * The Python `str` operations the gateway test-suite relies on (find, split, join,
 * splitlines, strip, lower, startswith, int(), str() of a natural number, and the
 * ordering used by sorted()), over Dafny strings of code points.
 */
module Strings {
  import opened Wrappers

  predicate StartsWith(s: string, prefix: string) {
    |prefix| <= |s| && s[..|prefix|] == prefix
  }

  predicate EndsWith(s: string, suffix: string) {
    |suffix| <= |s| && s[|s| - |suffix|..] == suffix
  }

  /** Python `s.find(sub)`: the first index where `sub` occurs, or None. */
  function Find(s: string, sub: string): (r: Option<nat>)
    ensures r.Some? ==> r.value + |sub| <= |s| && s[r.value..r.value + |sub|] == sub
    ensures r.Some? ==> StartsWith(s[r.value..], sub)
  {
    if StartsWith(s, sub) then Some(0)
    else if s == [] then None
    else
      match Find(s[1..], sub)
      case None => None
      case Some(i) =>
        assert s[i + 1..] == s[1..][i..];
        Some(i + 1)
  }

  /** Find reports the first occurrence: `sub` starts at no earlier index, and nowhere when None. */
  lemma {:induction false} FindFirst(s: string, sub: string, j: nat)
    requires j <= |s|
    requires Find(s, sub).None? || j < Find(s, sub).value
    ensures !StartsWith(s[j..], sub)
  {
    if j > 0 && !StartsWith(s, sub) && s != [] {
      FindFirst(s[1..], sub, j - 1);
      assert s[j..] == s[1..][j - 1..];
    }
  }

  /** An occurrence at index j means Find reports one at or before j. */
  lemma FindAtMost(s: string, sub: string, j: nat)
    requires j <= |s| && StartsWith(s[j..], sub)
    ensures Find(s, sub).Some? && Find(s, sub).value <= j
  {
    if Find(s, sub).None? || j < Find(s, sub).value { FindFirst(s, sub, j); }
  }

  /** A one-character needle is found exactly where the character first occurs. */
  lemma {:induction false} FindChar(prefix: string, c: char, rest: string)
    requires c !in prefix
    ensures Find(prefix + [c] + rest, [c]) == Some(|prefix|)
  {
    var s := prefix + [c] + rest;
    if prefix != [] {
      assert s[..1] == [prefix[0]] && prefix[0] != c;
      assert s[1..] == prefix[1..] + [c] + rest;
      FindChar(prefix[1..], c, rest);
    } else {
      assert s[..1] == [c];
    }
  }

  /** `[c] in s` is `c` occurring in `s`. */
  lemma {:induction false} ContainsChar(s: string, c: char)
    ensures Find(s, [c]).Some? <==> c in s
  {
    if s != [] {
      if s[0] != c {
        assert s[..1] == [s[0]];
        ContainsChar(s[1..], c);
        assert c in s <==> c in s[1..] by { assert s == [s[0]] + s[1..]; }
      } else {
        assert s[..1] == [c];
      }
    }
  }

  /** Python `sub in s`. */
  predicate Contains(s: string, sub: string) {
    Find(s, sub).Some?
  }

  /** Python `s.split(sep)` for a non-empty separator: the pieces between the occurrences of `sep`. */
  function Split(s: string, sep: string): (r: seq<string>)
    requires sep != []
    ensures |r| >= 1
    decreases |s|
  {
    match Find(s, sep)
    case None => [s]
    case Some(i) => [s[..i]] + Split(s[i + |sep|..], sep)
  }

  /** Python `sep.join(parts)`. */
  function Join(sep: string, parts: seq<string>): string {
    if |parts| == 0 then ""
    else if |parts| == 1 then parts[0]
    else parts[0] + sep + Join(sep, parts[1..])
  }

  /** Joining the pieces of a split with the same separator gives back the original string. */
  lemma {:induction false} JoinSplit(s: string, sep: string)
    requires sep != []
    ensures Join(sep, Split(s, sep)) == s
    decreases |s|
  {
    var f := Find(s, sep);
    if f.Some? {
      var i := f.value;
      var head, rest := s[..i], s[i + |sep|..];
      JoinSplit(rest, sep);
      var tail := Split(rest, sep);
      SplitUnfold(s, sep, i);
      JoinCons(sep, head, tail);
      Around(s, sep, i);
    }
  }

  lemma Around(s: string, sep: string, i: nat)
    requires i + |sep| <= |s| && s[i..i + |sep|] == sep
    ensures s == s[..i] + sep + s[i + |sep|..]
  {
    assert s[i..] == sep + s[i + |sep|..] by {
      assert s[i..][..|sep|] == sep;
      assert s[i..][|sep|..] == s[i + |sep|..];
    }
    assert s == s[..i] + s[i..];
  }

  lemma SplitUnfold(s: string, sep: string, i: nat)
    requires sep != [] && Find(s, sep) == Some(i)
    ensures Split(s, sep) == [s[..i]] + Split(s[i + |sep|..], sep)
  {
  }

  lemma JoinCons(sep: string, head: string, tail: seq<string>)
    requires tail != []
    ensures Join(sep, [head] + tail) == head + sep + Join(sep, tail)
  {
    assert ([head] + tail)[1..] == tail;
  }

  /** Joining four pieces puts the separator between each pair. */
  lemma JoinFour(sep: string, a: string, b: string, c: string, d: string)
    ensures Join(sep, [a, b, c, d]) == a + sep + b + sep + c + sep + d
  {
    assert Join(sep, [d]) == d;
    JoinCons(sep, c, [d]);
    assert [c, d] == [c] + [d];
    JoinCons(sep, b, [c, d]);
    assert [b, c, d] == [b] + [c, d];
    JoinCons(sep, a, [b, c, d]);
    assert [a, b, c, d] == [a] + [b, c, d];
  }

  /** Joining a prefix and a suffix of the parts with the separator between them joins all of them. */
  lemma {:induction false} JoinAt(sep: string, parts: seq<string>, k: nat)
    requires 0 < k < |parts|
    ensures Join(sep, parts[..k]) + sep + Join(sep, parts[k..]) == Join(sep, parts)
  {
    if k > 1 {
      JoinAt(sep, parts[1..], k - 1);
      assert parts[..k][1..] == parts[1..][..k - 1];
      assert parts[1..][k - 1..] == parts[k..];
    } else {
      assert parts[..1] == [parts[0]];
    }
  }

  /** For a one-character separator, splitting a join of separator-free parts gives the parts back. */
  lemma {:induction false} SplitJoin(parts: seq<string>, c: char)
    requires |parts| >= 1
    requires forall k :: 0 <= k < |parts| ==> c !in parts[k]
    ensures Split(Join([c], parts), [c]) == parts
  {
    var s := Join([c], parts);
    var head := parts[0];
    if |parts| == 1 {
      NoSplitIn(head, c);
    } else {
      var tail := Join([c], parts[1..]);
      JoinCons([c], head, parts[1..]);
      assert parts == [head] + parts[1..];
      assert s == head + [c] + tail;
      FirstSeparator(head, tail, c);
      SplitUnfold(s, [c], |head|);
      assert s[..|head|] == head;
      assert s[|head| + 1..] == tail;
      SplitJoin(parts[1..], c);
      assert Split(s, [c]) == [head] + parts[1..];
    }
  }

  lemma FirstSeparator(head: string, tail: string, c: char)
    requires c !in head
    ensures Find(head + [c] + tail, [c]) == Some(|head|)
  {
    var s := head + [c] + tail;
    assert s[|head|..][..1] == [c];
    FindAtMost(s, [c], |head|);
    var f := Find(s, [c]).value;
    assert s[f] == c;
    assert forall k :: 0 <= k < |head| ==> s[k] == head[k];
  }

  lemma {:induction false} NoSplitIn(s: string, c: char)
    requires c !in s
    ensures Find(s, [c]) == None
  {
    if s != [] {
      assert s[0] in s;
      assert s[..1][0] != c;
      NoSplitIn(s[1..], c);
    }
  }

  /** Python `s.split(sep, 1)`: at most one split, at the first occurrence. */
  function SplitOnce(s: string, sep: string): (r: seq<string>)
    requires sep != []
    ensures 1 <= |r| <= 2
    ensures |r| == 1 <==> !Contains(s, sep)
    ensures |r| == 1 ==> r[0] == s
    ensures |r| == 2 ==> r[0] + sep + r[1] == s && !Contains(r[0], sep)
  {
    match Find(s, sep)
    case None => [s]
    case Some(i) =>
      assert s == s[..i] + sep + s[i + |sep|..];
      PrefixBeforeFind(s, sep, i);
      [s[..i], s[i + |sep|..]]
  }

  /** Splitting once at a character absent from the head gives back the head and the tail. */
  lemma SplitOnceAt(head: string, tail: string, c: char)
    requires c !in head
    ensures SplitOnce(head + [c] + tail, [c]) == [head, tail]
  {
    var s := head + [c] + tail;
    FirstSeparator(head, tail, c);
    assert s[..|head|] == head;
    assert s[|head| + 1..] == tail;
  }

  lemma PrefixBeforeFind(s: string, sep: string, i: nat)
    requires sep != [] && Find(s, sep) == Some(i)
    ensures !Contains(s[..i], sep)
  {
    var p := s[..i];
    if Find(p, sep).Some? {
      var j := Find(p, sep).value;
      assert j + |sep| <= i;
      assert s[j..][..|sep|] == p[j..][..|sep|];
      FindFirst(s, sep, j);
    }
  }

  /** The characters Python's `str.splitlines` treats as line boundaries. */
  predicate IsLineBreak(c: char) {
    c == '\n' || c == '\r' || c as int == 0x0b || c as int == 0x0c
    || 0x1c <= c as int <= 0x1e || c as int == 0x85 || c as int == 0x2028 || c as int == 0x2029
  }

  /** The first line boundary: its index and its width ("\r\n" counts as one boundary of width 2). */
  function FindBreak(s: string): (r: Option<(nat, nat)>)
    ensures r.Some? ==> r.value.0 < |s| && IsLineBreak(s[r.value.0]) && 1 <= r.value.1 <= 2
                        && r.value.0 + r.value.1 <= |s|
    ensures r.Some? ==> forall j :: 0 <= j < r.value.0 ==> !IsLineBreak(s[j])
    ensures r.None? ==> forall j :: 0 <= j < |s| ==> !IsLineBreak(s[j])
  {
    if s == [] then None
    else if IsLineBreak(s[0]) then
      Some((0, if s[0] == '\r' && |s| > 1 && s[1] == '\n' then 2 else 1))
    else
      match FindBreak(s[1..])
      case None => None
      case Some(p) => Some((p.0 + 1, p.1))
  }

  /** Python `s.splitlines()`: the lines without their boundaries, and no trailing empty line. */
  function SplitLines(s: string): (r: seq<string>)
    ensures forall k :: 0 <= k < |r| ==> forall j :: 0 <= j < |r[k]| ==> !IsLineBreak(r[k][j])
    decreases |s|
  {
    if s == [] then []
    else
      match FindBreak(s)
      case None => [s]
      case Some(p) => [s[..p.0]] + SplitLines(s[p.0 + p.1..])
  }

  /** The characters Python's `str.strip()` removes (`str.isspace`). */
  predicate IsSpace(c: char) {
    var n := c as int;
    n == 32 || 9 <= n <= 13 || 0x1c <= n <= 0x1f || n == 0x85 || n == 0xa0 || n == 0x1680
    || 0x2000 <= n <= 0x200a || n == 0x2028 || n == 0x2029 || n == 0x202f || n == 0x205f || n == 0x3000
  }

  function StripLeft(s: string): (r: string)
    ensures |r| <= |s| && r == s[|s| - |r|..]
    ensures r == [] || !IsSpace(r[0])
  {
    if s != [] && IsSpace(s[0]) then
      var r := StripLeft(s[1..]);
      assert s[1..][|s| - 1 - |r|..] == s[|s| - |r|..];
      r
    else s
  }

  function StripRight(s: string): (r: string)
    ensures |r| <= |s| && r == s[..|r|]
    ensures r == [] || !IsSpace(r[|r| - 1])
  {
    if s != [] && IsSpace(s[|s| - 1]) then
      var r := StripRight(s[..|s| - 1]);
      assert s[..|s| - 1][..|r|] == s[..|r|];
      r
    else s
  }

  /** Python `s.strip()`. */
  function Strip(s: string): (r: string)
    ensures r == [] || (!IsSpace(r[0]) && !IsSpace(r[|r| - 1]))
  {
    var l := StripLeft(s);
    var r := StripRight(l);
    assert r != [] ==> r[0] == l[0];
    r
  }

  function LowerChar(c: char): char {
    if 'A' <= c <= 'Z' then (c as int + 32) as char else c
  }

  /** Python `s.lower()` on ASCII letters; other characters are left as they are. */
  function Lower(s: string): (r: string)
    ensures |r| == |s|
    ensures forall i :: 0 <= i < |s| ==> r[i] == LowerChar(s[i])
  {
    seq(|s|, i requires 0 <= i < |s| => LowerChar(s[i]))
  }

  /** Python `os.path.basename(p)`: everything after the last '/'. */
  function Basename(p: string): (r: string)
    ensures EndsWith(p, r) && '/' !in r
    ensures |r| < |p| ==> p[|p| - |r| - 1] == '/'
  {
    if p == [] || p[|p| - 1] == '/' then []
    else
      var r := Basename(p[..|p| - 1]);
      r + [p[|p| - 1]]
  }

  predicate IsDigit(c: char) {
    '0' <= c <= '9'
  }

  predicate AllDigits(s: string) {
    forall i :: 0 <= i < |s| ==> IsDigit(s[i])
  }

  function DigitsValue(s: string): nat
    requires AllDigits(s)
  {
    if s == [] then 0
    else DigitsValue(s[..|s| - 1]) * 10 + (s[|s| - 1] as int - '0' as int)
  }

  /**
   * Python `int(s)` restricted to unsigned ASCII decimal text: a non-empty run of the
   * digits 0-9 gives its value and anything else is refused here as a ValueError. Python
   * also accepts a sign, surrounding whitespace, underscores between digits and non-ASCII
   * decimal digits; those inputs are outside this function.
   */
  function ParseNat(s: string): (r: Option<nat>)
    ensures r.Some? <==> s != [] && AllDigits(s)
  {
    if s != [] && AllDigits(s) then Some(DigitsValue(s)) else None
  }

  function DigitChar(d: nat): char
    requires d < 10
  {
    ('0' as int + d) as char
  }

  /** Python `str(n)` for a natural number. */
  function NatToStr(n: nat): (r: string)
    ensures r != [] && AllDigits(r)
    ensures r[0] != '0' || r == "0"
  {
    if n < 10 then [DigitChar(n)] else NatToStr(n / 10) + [DigitChar(n % 10)]
  }

  /** int(str(n)) == n. */
  lemma {:induction false} ParseNatToStr(n: nat)
    ensures ParseNat(NatToStr(n)) == Some(n)
  {
    var s := NatToStr(n);
    if n >= 10 {
      ParseNatToStr(n / 10);
      assert s[..|s| - 1] == NatToStr(n / 10);
      assert DigitsValue(s) == DigitsValue(NatToStr(n / 10)) * 10 + n % 10;
    } else {
      assert s[..0] == [];
      assert DigitsValue(s) == DigitsValue([]) * 10 + n;
    }
  }

  /** A decimal numeral without superfluous leading zeros, as str() writes it. */
  predicate CanonicalNat(s: string) {
    s != [] && AllDigits(s) && (s[0] != '0' || |s| == 1)
  }

  lemma {:induction false} LeadingDigitPositive(s: string)
    requires s != [] && AllDigits(s) && s[0] != '0'
    ensures DigitsValue(s) >= 1
  {
    if |s| > 1 {
      LeadingDigitPositive(s[..|s| - 1]);
    }
  }

  /** str(int(s)) == s for a canonical numeral. */
  lemma {:induction false} NatToStrParse(s: string)
    requires CanonicalNat(s)
    ensures NatToStr(DigitsValue(s)) == s
  {
    if |s| > 1 {
      var init := s[..|s| - 1];
      LeadingDigitPositive(init);
      NatToStrParse(init);
      var n := DigitsValue(s);
      assert n / 10 == DigitsValue(init);
      assert n % 10 == s[|s| - 1] as int - '0' as int;
    }
  }

  /** Python's `a < b` on strings: lexicographic by code point, a proper prefix first. */
  predicate Less(a: string, b: string) {
    if a == [] then b != []
    else if b == [] then false
    else if a[0] != b[0] then a[0] < b[0]
    else Less(a[1..], b[1..])
  }

  lemma {:induction false} LessIrreflexive(a: string)
    ensures !Less(a, a)
  {
    if a != [] { LessIrreflexive(a[1..]); }
  }

  lemma {:induction false} LessTransitive(a: string, b: string, c: string)
    requires Less(a, b) && Less(b, c)
    ensures Less(a, c)
  {
    if a != [] && b != [] && c != [] && a[0] == b[0] == c[0] {
      LessTransitive(a[1..], b[1..], c[1..]);
    }
  }

  lemma {:induction false} LessTotal(a: string, b: string)
    ensures a == b || Less(a, b) || Less(b, a)
  {
    if a != [] && b != [] && a[0] == b[0] {
      LessTotal(a[1..], b[1..]);
      if a[1..] == b[1..] { assert a == [a[0]] + a[1..]; assert b == [b[0]] + b[1..]; }
    }
  }

  lemma LessAsymmetric(a: string, b: string)
    requires Less(a, b)
    ensures !Less(b, a)
  {
    if Less(b, a) {
      LessTransitive(a, b, a);
      LessIrreflexive(a);
    }
  }

  predicate StrictlySorted(xs: seq<string>) {
    forall i, j :: 0 <= i < j < |xs| ==> Less(xs[i], xs[j])
  }

  /** Inserts `x` into a strictly sorted list unless it is already there. */
  function Insert(x: string, xs: seq<string>): (r: seq<string>)
    requires StrictlySorted(xs)
    ensures StrictlySorted(r)
    ensures forall y :: y in r <==> y == x || y in xs
    ensures |r| <= |xs| + 1
  {
    if xs == [] then [x]
    else if x == xs[0] then xs
    else if Less(x, xs[0]) then
      forall j | 0 < j < |xs| ensures Less(x, xs[j]) { LessTransitive(x, xs[0], xs[j]); }
      [x] + xs
    else
      LessTotal(x, xs[0]);
      var rest := Insert(x, xs[1..]);
      assert forall y :: y in rest ==> Less(xs[0], y);
      [xs[0]] + rest
  }

  /** Python `sorted(set(xs))`: the distinct elements in ascending order. */
  function SortedUnique(xs: seq<string>): (r: seq<string>)
    ensures StrictlySorted(r)
    ensures forall y :: y in r <==> y in xs
  {
    if xs == [] then [] else Insert(xs[0], SortedUnique(xs[1..]))
  }

  /** A strictly sorted list has no repeated element. */
  lemma SortedDistinct(xs: seq<string>, i: int, j: int)
    requires StrictlySorted(xs) && 0 <= i < |xs| && 0 <= j < |xs| && i != j
    ensures xs[i] != xs[j]
  {
    if i < j { LessIrreflexive(xs[i]); } else { LessIrreflexive(xs[j]); }
  }

  /** `str(b, "latin-1")`: every byte becomes the code point of the same number. */
  function Latin1(b: seq<bv8>): (r: string)
    ensures |r| == |b|
    ensures forall i :: 0 <= i < |b| ==> r[i] as int == b[i] as int
  {
    seq(|b|, i requires 0 <= i < |b| => (b[i] as int) as char)
  }

  /** No piece of a split holds the separator. */
  lemma {:induction false} SplitPiecesFree(s: string, sep: string)
    requires sep != []
    ensures forall k :: 0 <= k < |Split(s, sep)| ==> !Contains(Split(s, sep)[k], sep)
    decreases |s|
  {
    match Find(s, sep)
    case None =>
    case Some(i) =>
      var rest := s[i + |sep|..];
      PrefixBeforeFind(s, sep, i);
      SplitPiecesFree(rest, sep);
      SplitUnfold(s, sep, i);
      forall k | 0 <= k < |Split(s, sep)|
        ensures !Contains(Split(s, sep)[k], sep)
      {
        if k > 0 {
          assert Split(s, sep)[k] == Split(rest, sep)[k - 1];
        }
      }
  }

  /** Splitting on one character gives one piece more than the character's occurrences. */
  lemma {:induction false} SplitCount(s: string, c: char)
    ensures |Split(s, [c])| == multiset(s)[c] + 1
    decreases |s|
  {
    ContainsChar(s, c);
    match Find(s, [c])
    case None =>
    case Some(i) =>
      PrefixBeforeFind(s, [c], i);
      ContainsChar(s[..i], c);
      Around(s, [c], i);
      assert multiset(s) == multiset(s[..i]) + multiset([c]) + multiset(s[i + 1..]) by {
        assert s == s[..i] + [c] + s[i + 1..];
      }
      SplitCount(s[i + 1..], c);
  }

  /** An occurrence anywhere makes `sub in s` hold. */
  lemma ContainsAt(s: string, sub: string, j: nat)
    requires j <= |s| && StartsWith(s[j..], sub)
    ensures Contains(s, sub)
  {
    FindAtMost(s, sub, j);
  }

  /** A string holds whatever was put in its middle. */
  lemma ContainsInfix(before: string, sub: string, after: string)
    ensures Contains(before + sub + after, sub)
  {
    var s := before + sub + after;
    assert s[|before|..][..|sub|] == sub;
    ContainsAt(s, sub, |before|);
  }

  /** A string that contains `sub` holds every character of `sub`. */
  lemma ContainsChars(s: string, sub: string)
    ensures Contains(s, sub) ==> forall k :: 0 <= k < |sub| ==> sub[k] in s
  {
    if Find(s, sub).Some? {
      var i := Find(s, sub).value;
      forall k | 0 <= k < |sub|
        ensures sub[k] in s
      {
        assert s[i + k] == sub[k];
      }
    }
  }

  /** A character in neither the separator nor any part is not in their join. */
  lemma {:induction false} JoinFree(sep: string, parts: seq<string>, c: char)
    requires c !in sep && forall k :: 0 <= k < |parts| ==> c !in parts[k]
    ensures c !in Join(sep, parts)
  {
    if |parts| > 1 {
      JoinFree(sep, parts[1..], c);
    }
  }

  /** A string with two occurrences of the separator splits into at least three pieces. */
  lemma SplitTwice(a: string, b: string, c: string, sep: string)
    requires sep != []
    ensures |Split(a + sep + b + sep + c, sep)| >= 3
  {
    var s := a + sep + b + sep + c;
    var j := |a| + |sep| + |b|;
    assert Find(s, sep).Some? && Find(s, sep).value <= |a| by {
      SepAt(a, sep, b + sep + c);
      assert s == a + sep + (b + sep + c);
      FindAtMost(s, sep, |a|);
    }
    var i := Find(s, sep).value;
    var rest := s[i + |sep|..];
    assert Contains(rest, sep) by {
      SepAt(a + sep + b, sep, c);
      DropStarts(s, i + |sep|, j, sep);
      ContainsAt(rest, sep, j - i - |sep|);
    }
    SplitUnfold(s, sep, i);
    SplitUnfold(rest, sep, Find(rest, sep).value);
  }

  /** The separator starts right after what precedes it. */
  lemma SepAt(x: string, sep: string, y: string)
    ensures StartsWith((x + sep + y)[|x|..], sep)
  {
    assert (x + sep + y)[|x|..][..|sep|] == sep;
  }

  /** An occurrence at `j` is still one, at `j - d`, after dropping `d <= j` characters. */
  lemma DropStarts(s: string, d: nat, j: nat, sub: string)
    requires d <= j <= |s| && StartsWith(s[j..], sub)
    ensures StartsWith(s[d..][j - d..], sub)
  {
    assert s[d..][j - d..] == s[j..];
  }
}
