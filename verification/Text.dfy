/** The string operations of the standard library that the parsers rely on. */
module Text {
  import opened Wrappers

  // ------------------------------------------------------------- searching

  predicate MatchesAt(s: string, sep: string, i: nat) {
    i + |sep| <= |s| && s[i..i + |sep|] == sep
  }

  /** First position at or after `from` where `sep` occurs. */
  function FindFrom(s: string, sep: string, from: nat): (r: Option<nat>)
    ensures r.Some? ==> from <= r.value && MatchesAt(s, sep, r.value)
    ensures r.Some? ==> forall j :: from <= j < r.value ==> !MatchesAt(s, sep, j)
    ensures r.None? ==> forall j :: from <= j ==> !MatchesAt(s, sep, j)
    decreases |s| - from
  {
    if MatchesAt(s, sep, from) then Some(from)
    else if from >= |s| then None
    else FindFrom(s, sep, from + 1)
  }

  predicate Contains(s: string, sep: string) {
    FindFrom(s, sep, 0).Some?
  }

  /** `split_once`. */
  function SplitOnce(s: string, sep: string): Option<(string, string)> {
    match FindFrom(s, sep, 0)
    case None => None
    case Some(i) => Some((s[..i], s[i + |sep|..]))
  }

  lemma FindUnique(s: string, sep: string, i: nat)
    requires MatchesAt(s, sep, i)
    requires forall j :: 0 <= j < i ==> !MatchesAt(s, sep, j)
    ensures FindFrom(s, sep, 0) == Some(i)
  {
  }

  /** Splitting at a character that does not occur on the left. */
  lemma SplitOnceAt(left: string, c: char, right: string)
    requires c !in left
    ensures FindFrom(left + [c] + right, [c], 0) == Some(|left|)
    ensures SplitOnce(left + [c] + right, [c]) == Some((left, right))
  {
    var s := left + [c] + right;
    assert MatchesAt(s, [c], |left|);
    forall j | 0 <= j < |left| ensures !MatchesAt(s, [c], j) {
      assert s[j] == left[j];
    }
    FindUnique(s, [c], |left|);
    assert s[..|left|] == left && s[|left| + 1..] == right;
  }

  /** `rfind` of a character. */
  function LastIndexOf(s: string, c: char): (r: Option<nat>)
    ensures r.Some? ==> r.value < |s| && s[r.value] == c && c !in s[r.value + 1..]
    ensures r.None? ==> c !in s
  {
    if s == [] then None
    else if s[|s| - 1] == c then Some(|s| - 1)
    else
      var r := LastIndexOf(s[..|s| - 1], c);
      assert s == s[..|s| - 1] + [s[|s| - 1]];
      assert r.Some? ==> s[r.value + 1..] == s[..|s| - 1][r.value + 1..] + [s[|s| - 1]];
      r
  }

  lemma {:induction false} LastIndexAt(left: string, c: char, right: string)
    requires c !in right
    ensures LastIndexOf(left + [c] + right, c) == Some(|left|)
    decreases |right|
  {
    var s := left + [c] + right;
    if right != [] {
      var n := |right| - 1;
      assert s[..|s| - 1] == left + [c] + right[..n];
      LastIndexAt(left, c, right[..n]);
    }
  }

  /** `strip_suffix`. */
  function StripSuffix(s: string, suffix: string): Option<string> {
    if |suffix| <= |s| && s[|s| - |suffix|..] == suffix then Some(s[..|s| - |suffix|]) else None
  }

  lemma StripSuffixAt(left: string, suffix: string)
    ensures StripSuffix(left + suffix, suffix) == Some(left)
  {
  }

  /** `split` at a character; always at least one piece. */
  function Split(s: string, c: char): (r: seq<string>)
    ensures |r| > 0
    decreases |s|
  {
    match SplitOnce(s, [c])
    case None => [s]
    case Some((left, right)) => [left] + Split(right, c)
  }

  lemma SplitAt(left: string, c: char, right: string)
    requires c !in left
    ensures Split(left + [c] + right, c) == [left] + Split(right, c)
  {
    SplitOnceAt(left, c, right);
  }

  lemma SplitLast(s: string, c: char)
    requires c !in s
    ensures Split(s, c) == [s]
  {
    forall j: nat ensures !MatchesAt(s, [c], j) {
      if j < |s| {
        assert s[j..j + 1] == [s[j]];
      }
    }
  }

  function Join(lines: seq<string>, sep: string): string {
    if lines == [] then ""
    else if |lines| == 1 then lines[0]
    else lines[0] + sep + Join(lines[1..], sep)
  }

  // ------------------------------------------------------------- whitespace

  /** Unicode White_Space, which `trim` strips. */
  predicate IsWhitespace(c: char) {
    || '\t' <= c <= '\r' || c == ' ' || c == '\U{85}' || c == '\U{A0}' || c == '\U{1680}'
    || '\U{2000}' <= c <= '\U{200A}' || c == '\U{2028}' || c == '\U{2029}'
    || c == '\U{202F}' || c == '\U{205F}' || c == '\U{3000}'
  }

  function TrimStart(s: string): string {
    if s != [] && IsWhitespace(s[0]) then TrimStart(s[1..]) else s
  }

  function TrimEnd(s: string): string {
    if s != [] && IsWhitespace(s[|s| - 1]) then TrimEnd(s[..|s| - 1]) else s
  }

  function Trim(s: string): string { TrimEnd(TrimStart(s)) }

  predicate Blank(s: string) { forall i :: 0 <= i < |s| ==> IsWhitespace(s[i]) }

  /** `t` is `s` without the whitespace around it. */
  predicate Trimmed(s: string, t: string, left: string, right: string) {
    && s == left + t + right && Blank(left) && Blank(right)
    && (t != "" ==> !IsWhitespace(t[0]) && !IsWhitespace(t[|t| - 1]))
  }

  lemma {:induction false} TrimEndCuts(s: string) returns (right: string)
    ensures s == TrimEnd(s) + right && Blank(right)
    ensures TrimEnd(s) != "" ==> TrimEnd(s)[0] == s[0] && !IsWhitespace(TrimEnd(s)[|TrimEnd(s)| - 1])
    decreases |s|
  {
    right := "";
    if s != "" && IsWhitespace(s[|s| - 1]) {
      right := TrimEndCuts(s[..|s| - 1]);
      right := right + [s[|s| - 1]];
    }
  }

  /** `trim` removes exactly the surrounding whitespace. */
  lemma {:induction false} TrimCuts(s: string) returns (left: string, right: string)
    ensures Trimmed(s, Trim(s), left, right)
    decreases |s|
  {
    if s != "" && IsWhitespace(s[0]) {
      left, right := TrimCuts(s[1..]);
      left := [s[0]] + left;
    } else {
      left := "";
      right := TrimEndCuts(s);
    }
  }

  lemma TrimBlankIff(s: string)
    ensures Trim(s) == "" <==> Blank(s)
  {
    var left, right := TrimCuts(s);
    if Trim(s) != "" {
      assert s[|left|] == Trim(s)[0];
    }
  }

  lemma {:induction false} TrimEndIgnores(s: string, right: string)
    requires Blank(right) && s != ""
    ensures TrimEnd(s + right) == TrimEnd(s)
    decreases |right|
  {
    if right == "" {
      assert s + right == s;
    } else {
      assert (s + right)[..|s + right| - 1] == s + right[..|right| - 1];
      TrimEndIgnores(s, right[..|right| - 1]);
    }
  }

  /** Whitespace around a text does not change what `trim` leaves of it. */
  lemma {:induction false} TrimIgnores(left: string, s: string, right: string)
    requires Blank(left) && Blank(right)
    ensures Trim(left + s + right) == Trim(s)
    decreases |left| + |s|
  {
    if left != "" {
      assert (left + s + right)[1..] == left[1..] + s + right;
      TrimIgnores(left[1..], s, right);
    } else if Blank(s) {
      TrimBlankIff(s);
      TrimBlankIff(left + s + right);
    } else if IsWhitespace(s[0]) {
      assert (left + s + right)[1..] == left + s[1..] + right;
      TrimIgnores(left, s[1..], right);
    } else {
      assert left + s + right == s + right;
      TrimEndIgnores(s, right);
    }
  }

  // ---------------------------------------------------------------- numbers

  predicate IsDigit(c: char) { '0' <= c <= '9' }

  predicate AllDigits(s: string) { forall i :: 0 <= i < |s| ==> IsDigit(s[i]) }

  function DigitValue(c: char): nat
    requires IsDigit(c)
  {
    c as int - '0' as int
  }

  function DigitChar(d: nat): (c: char)
    requires d < 10
    ensures IsDigit(c) && DigitValue(c) == d
  {
    ('0' as int + d) as char
  }

  function Decimal(s: string): nat
    requires AllDigits(s)
  {
    if s == [] then 0 else 10 * Decimal(s[..|s| - 1]) + DigitValue(s[|s| - 1])
  }

  const U64_MAX := 0xFFFF_FFFF_FFFF_FFFF
  const I64_MAX := 0x7FFF_FFFF_FFFF_FFFF

  /** `parse::<u64>`: an optional plus sign and at least one digit. */
  function ParseU64(s: string): (r: Option<nat>)
    ensures r.Some? ==> r.value <= U64_MAX
  {
    var body := if s != [] && s[0] == '+' then s[1..] else s;
    if body == [] || !AllDigits(body) || Decimal(body) > U64_MAX then None else Some(Decimal(body))
  }

  /** `parse::<i64>`. */
  function ParseI64(s: string): (r: Option<int>)
    ensures r.Some? ==> -I64_MAX - 1 <= r.value <= I64_MAX
  {
    var negative := s != [] && s[0] == '-';
    var body := if s != [] && (s[0] == '+' || s[0] == '-') then s[1..] else s;
    if body == [] || !AllDigits(body) then None
    else
      var v: int := if negative then 0 - Decimal(body) else Decimal(body);
      if -I64_MAX - 1 <= v <= I64_MAX then Some(v) else None
  }

  /** Signs: unsigned numbers may carry a plus but no minus, signed ones either. */
  lemma SignsRead(digits: string)
    requires digits != "" && AllDigits(digits)
    ensures ParseU64("+" + digits) == ParseU64(digits) && ParseU64("-" + digits) == None
    ensures ParseI64("+" + digits) == ParseI64(digits)
    ensures ParseI64(digits).Some? ==> ParseI64("-" + digits) == Some(-ParseI64(digits).value)
  {
    assert ("+" + digits)[1..] == digits && ("-" + digits)[1..] == digits;
    assert ("-" + digits)[0] == '-' && !AllDigits("-" + digits);
  }

  /** Decimal digits without a sign, as the formatter prints them. */
  function Digits(n: nat): (s: string)
    ensures s != [] && AllDigits(s)
  {
    if n < 10 then [DigitChar(n)] else Digits(n / 10) + [DigitChar(n % 10)]
  }

  /** `{n:0width}`. */
  function Padded(n: nat, width: nat): (s: string)
    ensures s != [] && AllDigits(s)
    decreases width
  {
    if |Digits(n)| >= width || width == 0 then Digits(n)
    else seq(width - |Digits(n)|, _ => '0') + Digits(n)
  }

  lemma {:induction false} DecimalOfDigits(n: nat)
    ensures Decimal(Digits(n)) == n
  {
    if n >= 10 {
      DecimalOfDigits(n / 10);
      assert Digits(n)[..|Digits(n)| - 1] == Digits(n / 10);
    }
  }

  lemma {:induction false} LeadingZeros(k: nat, s: string)
    requires AllDigits(s)
    ensures AllDigits(seq(k, _ => '0') + s) && Decimal(seq(k, _ => '0') + s) == Decimal(s)
    decreases |s| + k
  {
    var z := seq(k, _ => '0') + s;
    if s != [] {
      LeadingZeros(k, s[..|s| - 1]);
      assert z[..|z| - 1] == seq(k, _ => '0') + s[..|s| - 1];
    } else if k > 0 {
      LeadingZeros(k - 1, []);
      assert z[..|z| - 1] == seq(k - 1, _ => '0') + [];
    }
  }

  lemma DecimalOfPadded(n: nat, width: nat)
    ensures Decimal(Padded(n, width)) == n
  {
    DecimalOfDigits(n);
    if |Digits(n)| < width {
      LeadingZeros(width - |Digits(n)|, Digits(n));
    }
  }

  /** Printed numbers read back, with or without padding. */
  lemma PaddedRoundTrip(n: nat, width: nat)
    requires n <= U64_MAX
    ensures ParseU64(Padded(n, width)) == Some(n)
    ensures n <= I64_MAX ==> ParseI64(Padded(n, width)) == Some(n)
  {
    DecimalOfPadded(n, width);
    assert IsDigit(Padded(n, width)[0]);
  }

  // ------------------------------------------------------------------ lines

  /** `lines`: split after every LF; an LF ends a line and takes one CR with it, and
      a final LF starts no further line. */
  function Lines(s: string): seq<string>
    decreases |s|
  {
    if s == [] then []
    else
      match SplitOnce(s, "\n")
      case None => [s]
      case Some((line, rest)) => [WithoutCr(line)] + Lines(rest)
  }

  function WithoutCr(line: string): string {
    if line != [] && line[|line| - 1] == '\r' then line[..|line| - 1] else line
  }

  predicate OneLine(s: string) { '\n' !in s && '\r' !in s }

  /** Lines joined by LF are read back, provided the last one is not empty. */
  lemma {:induction false} LinesOfJoin(lines: seq<string>)
    requires lines != [] && lines[|lines| - 1] != ""
    requires forall i :: 0 <= i < |lines| ==> OneLine(lines[i])
    ensures Lines(Join(lines, "\n")) == lines
    decreases |lines|
  {
    if |lines| == 1 {
      SplitLast(lines[0], '\n');
    } else {
      LinesOfJoin(lines[1..]);
      SplitOnceAt(lines[0], '\n', Join(lines[1..], "\n"));
      assert Join(lines, "\n") == lines[0] + "\n" + Join(lines[1..], "\n");
    }
  }

  lemma CrLfLine(line: string, tail: string)
    requires OneLine(line)
    ensures Lines(line + "\r\n" + tail) == [line] + Lines(tail)
  {
    assert line + "\r\n" + tail == (line + "\r") + ['\n'] + tail;
    SplitOnceAt(line + "\r", '\n', tail);
    hide SplitOnce;
    assert WithoutCr(line + "\r") == line;
  }

  /** ... and lines joined by CR LF are read the same way. */
  lemma {:induction false} LinesOfCrLfJoin(lines: seq<string>)
    requires lines != [] && lines[|lines| - 1] != ""
    requires forall i :: 0 <= i < |lines| ==> OneLine(lines[i])
    ensures Lines(Join(lines, "\r\n")) == lines
    decreases |lines|
  {
    if |lines| == 1 {
      SplitLast(lines[0], '\n');
    } else {
      LinesOfCrLfJoin(lines[1..]);
      var tail := Join(lines[1..], "\r\n");
      CrLfLine(lines[0], tail);
      assert Join(lines, "\r\n") == lines[0] + "\r\n" + tail;
    }
  }
}
