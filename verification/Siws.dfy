/** Sign-in messages: the dashboard prints them, the gateway parses and validates
    them. */
module Siws {
  import opened Calendar
  import opened Text
  import opened Timestamp
  import opened Wrappers

  datatype SiwsMessage = SiwsMessage(
    domain: string,
    address: string,
    statement: Option<string>,
    uri: Option<string>,
    version: Option<string>,
    chainId: Option<string>,
    nonce: string,
    issuedAt: string,
    expirationTime: Option<string>)

  datatype GatewayError = InvalidMessage | MessageExpired

  const HEADER := " wants you to sign in" + " with your Solana account:"
  const FIELD := ": "

  // ----------------------------------------------------------------- parsing

  predicate StatementLine(line: string) { line != "" && !Contains(line, FIELD) }

  /** First line at or after `i` that is empty or looks like a field. */
  function StatementEnd(lines: seq<string>, i: nat): (e: nat)
    requires i <= |lines|
    ensures i <= e <= |lines|
    ensures forall k :: i <= k < e ==> StatementLine(lines[k])
    ensures e < |lines| ==> !StatementLine(lines[e])
    decreases |lines| - i
  {
    if i == |lines| || !StatementLine(lines[i]) then i else StatementEnd(lines, i + 1)
  }

  function StatementOf(lines: seq<string>): (r: (Option<string>, nat))
    requires |lines| >= 2
    ensures r.1 <= |lines|
  {
    if |lines| <= 2 || lines[2] != "" then (None, 2)
    else
      var e := StatementEnd(lines, 3);
      if e == 3 then (None, 3)
      else (Some(Join(lines[3..e], "\n")), if e < |lines| && lines[e] == "" then e + 1 else e)
  }

  /** The value on the last line carrying `key`. */
  function Lookup(lines: seq<string>, key: string): Option<string> {
    if lines == [] then None
    else
      var n := |lines| - 1;
      match SplitOnce(lines[n], FIELD)
      case Some((k, v)) => if k == key then Some(v) else Lookup(lines[..n], key)
      case None => Lookup(lines[..n], key)
  }

  function Parse(message: string): Result<SiwsMessage, GatewayError> {
    var lines := Lines(message);
    if |lines| < 2 then Err(InvalidMessage)
    else if StripSuffix(lines[0], HEADER).None? || Trim(lines[1]) == "" then Err(InvalidMessage)
    else
      var (statement, start) := StatementOf(lines);
      var rest := lines[start..];
      if Lookup(rest, "Nonce").None? || Lookup(rest, "Issued At").None? then Err(InvalidMessage)
      else
        Ok(SiwsMessage(
             StripSuffix(lines[0], HEADER).value, Trim(lines[1]), statement,
             Lookup(rest, "URI"), Lookup(rest, "Version"), Lookup(rest, "Chain ID"),
             Lookup(rest, "Nonce").value, Lookup(rest, "Issued At").value, Lookup(rest, "Expiration Time")))
  }

  /** `parse_statement`. */
  method ParseStatement(lines: seq<string>) returns (statement: Option<string>, fieldStart: nat)
    requires |lines| >= 2
    ensures (statement, fieldStart) == StatementOf(lines)
  {
    if |lines| <= 2 || lines[2] != "" {
      return None, 2;
    }
    var stmtLines: seq<string> := [];
    var i := 3;
    while i < |lines| && lines[i] != "" && !Contains(lines[i], FIELD)
      invariant 3 <= i <= |lines| && stmtLines == lines[3..i]
      invariant StatementEnd(lines, 3) == StatementEnd(lines, i)
    {
      stmtLines := stmtLines + [lines[i]];
      i := i + 1;
    }
    if stmtLines == [] {
      return None, 3;
    }
    fieldStart := i;
    if fieldStart < |lines| && lines[fieldStart] == "" {
      fieldStart := fieldStart + 1;
    }
    statement := Some(Join(stmtLines, "\n"));
  }

  datatype ParsedFields = ParsedFields(
    uri: Option<string>, version: Option<string>, chainId: Option<string>,
    nonce: Option<string>, issuedAt: Option<string>, expirationTime: Option<string>)

  ghost predicate LooksUp(f: ParsedFields, lines: seq<string>) {
    && f.uri == Lookup(lines, "URI") && f.version == Lookup(lines, "Version")
    && f.chainId == Lookup(lines, "Chain ID") && f.nonce == Lookup(lines, "Nonce")
    && f.issuedAt == Lookup(lines, "Issued At") && f.expirationTime == Lookup(lines, "Expiration Time")
  }

  function SetField(f: ParsedFields, key: string, val: string): ParsedFields {
    if key == "URI" then f.(uri := Some(val))
    else if key == "Version" then f.(version := Some(val))
    else if key == "Chain ID" then f.(chainId := Some(val))
    else if key == "Nonce" then f.(nonce := Some(val))
    else if key == "Issued At" then f.(issuedAt := Some(val))
    else if key == "Expiration Time" then f.(expirationTime := Some(val))
    else f
  }

  lemma LookupLast(lines: seq<string>, line: string, key: string)
    ensures Lookup(lines + [line], key) ==
            match SplitOnce(line, FIELD)
            case Some((k, v)) => if k == key then Some(v) else Lookup(lines, key)
            case None => Lookup(lines, key)
  {
    assert (lines + [line])[..|lines|] == lines;
  }

  lemma SetFieldLooksUp(f: ParsedFields, lines: seq<string>, line: string)
    requires LooksUp(f, lines)
    ensures LooksUp(match SplitOnce(line, FIELD)
                    case Some((k, v)) => SetField(f, k, v)
                    case None => f, lines + [line])
  {
    hide Lookup, SplitOnce;
    LookupLast(lines, line, "URI");
    LookupLast(lines, line, "Version");
    LookupLast(lines, line, "Chain ID");
    LookupLast(lines, line, "Nonce");
    LookupLast(lines, line, "Issued At");
    LookupLast(lines, line, "Expiration Time");
  }

  /** `parse_fields`: every line is examined, later ones overwrite earlier ones. */
  method ParseFieldLines(lines: seq<string>) returns (f: ParsedFields)
    ensures LooksUp(f, lines)
  {
    f := ParsedFields(None, None, None, None, None, None);
    for i := 0 to |lines|
      invariant LooksUp(f, lines[..i])
    {
      SetFieldLooksUp(f, lines[..i], lines[i]);
      assert lines[..i + 1] == lines[..i] + [lines[i]];
      match SplitOnce(lines[i], FIELD) {
        case Some((key, val)) => f := SetField(f, key, val);
        case None =>
      }
    }
    assert lines[..|lines|] == lines;
  }

  /** `parse_message`. */
  method ParseMessage(message: string) returns (r: Result<SiwsMessage, GatewayError>)
    ensures r == Parse(message)
  {
    var lines := Lines(message);
    if |lines| < 2 {
      return Err(InvalidMessage);
    }
    var domain := StripSuffix(lines[0], HEADER);
    if domain.None? {
      return Err(InvalidMessage);
    }
    var address := Trim(lines[1]);
    if address == "" {
      return Err(InvalidMessage);
    }
    var statement, fieldStart := ParseStatement(lines);
    var fields := ParseFieldLines(lines[fieldStart..]);
    if fields.nonce.None? || fields.issuedAt.None? {
      return Err(InvalidMessage);
    }
    r := Ok(SiwsMessage(domain.value, address, statement, fields.uri, fields.version, fields.chainId,
                        fields.nonce.value, fields.issuedAt.value, fields.expirationTime));
  }

  // ---------------------------------------------------------------- printing

  function FieldLine(key: string, value: string): string { key + FIELD + value }

  type Pairs = seq<(string, Option<string>)>

  function FieldLines(pairs: Pairs): seq<string> {
    if pairs == [] then []
    else
      var n := |pairs| - 1;
      FieldLines(pairs[..n]) +
      if pairs[n].1.None? then [] else [FieldLine(pairs[n].0, pairs[n].1.value)]
  }

  function FieldPairs(m: SiwsMessage): Pairs {
    [("URI", m.uri), ("Version", m.version), ("Chain ID", m.chainId), ("Nonce", Some(m.nonce)),
     ("Issued At", Some(m.issuedAt)), ("Expiration Time", m.expirationTime)]
  }

  /** The message layout, for any subset of the optional fields. */
  function MessageLines(m: SiwsMessage, stmt: seq<string>): seq<string> {
    [m.domain + HEADER, m.address, ""] + (if stmt == [] then [] else stmt + [""]) + FieldLines(FieldPairs(m))
  }

  function Print(m: SiwsMessage, stmt: seq<string>): string {
    Join(MessageLines(m, stmt), "\n")
  }

  /** `generateSIWSMessage`; page host, wallet and clock are parameters. */
  function Generate(domain: string, address: string, nonce: string, issuedAt: string): string {
    Join([domain + " wants you to sign in with your Solana account:", address, "", "Sign in to ZKSettle", "",
          "Nonce: " + nonce, "Issued At: " + issuedAt], "\n")
  }

  // ------------------------------------------------------------------ lemmas

  predicate Keys(pairs: Pairs) {
    && (forall i :: 0 <= i < |pairs| ==> ':' !in pairs[i].0)
    && (forall i, j :: 0 <= i < j < |pairs| ==> pairs[i].0 != pairs[j].0)
  }

  lemma FieldLineSplits(key: string, value: string)
    requires ':' !in key
    ensures SplitOnce(FieldLine(key, value), FIELD) == Some((key, value))
  {
    var s := FieldLine(key, value);
    assert MatchesAt(s, FIELD, |key|);
    forall j | 0 <= j < |key| ensures !MatchesAt(s, FIELD, j) {
      assert s[j] == key[j];
      if j + 2 <= |s| {
        assert s[j..j + 2][0] == s[j];
      }
    }
    FindUnique(s, FIELD, |key|);
    assert s[..|key|] == key && s[|key| + 2..] == value;
  }

  lemma {:induction false} AbsentKey(pairs: Pairs, key: string)
    requires Keys(pairs) && forall i :: 0 <= i < |pairs| ==> pairs[i].0 != key
    ensures Lookup(FieldLines(pairs), key) == None
    decreases |pairs|
  {
    if pairs != [] {
      var n := |pairs| - 1;
      AbsentKey(pairs[..n], key);
      if pairs[n].1.Some? {
        FieldLineSplits(pairs[n].0, pairs[n].1.value);
        LookupLast(FieldLines(pairs[..n]), FieldLine(pairs[n].0, pairs[n].1.value), key);
      } else {
        assert FieldLines(pairs) == FieldLines(pairs[..n]);
      }
    }
  }

  /** Printed fields are looked up again, whichever of them are present. */
  lemma {:induction false} LookupField(pairs: Pairs, i: nat)
    requires Keys(pairs) && i < |pairs|
    ensures Lookup(FieldLines(pairs), pairs[i].0) == pairs[i].1
    decreases |pairs|
  {
    var n := |pairs| - 1;
    if i < n {
      LookupField(pairs[..n], i);
    } else {
      AbsentKey(pairs[..n], pairs[n].0);
    }
    if pairs[n].1.Some? {
      FieldLineSplits(pairs[n].0, pairs[n].1.value);
      LookupLast(FieldLines(pairs[..n]), FieldLine(pairs[n].0, pairs[n].1.value), pairs[i].0);
    } else {
      assert FieldLines(pairs) == FieldLines(pairs[..n]);
    }
  }

  lemma AllFieldsLookedUp(m: SiwsMessage)
    ensures var lines := FieldLines(FieldPairs(m));
            && Lookup(lines, "URI") == m.uri && Lookup(lines, "Version") == m.version
            && Lookup(lines, "Chain ID") == m.chainId && Lookup(lines, "Nonce") == Some(m.nonce)
            && Lookup(lines, "Issued At") == Some(m.issuedAt) && Lookup(lines, "Expiration Time") == m.expirationTime
  {
    var pairs := FieldPairs(m);
    assert Keys(pairs);
    hide Lookup, FieldLines, Keys;
    LookupField(pairs, 0);
    LookupField(pairs, 1);
    LookupField(pairs, 2);
    LookupField(pairs, 3);
    LookupField(pairs, 4);
    LookupField(pairs, 5);
  }

  predicate OptionOneLine(o: Option<string>) { o.Some? ==> OneLine(o.value) }

  /** What a message needs in order to survive printing. */
  predicate Printable(m: SiwsMessage, stmt: seq<string>) {
    && OneLine(m.domain) && OneLine(m.address) && OneLine(m.nonce) && OneLine(m.issuedAt)
    && Trim(m.address) == m.address != ""
    && OptionOneLine(m.uri) && OptionOneLine(m.version) && OptionOneLine(m.chainId) && OptionOneLine(m.expirationTime)
    && (forall i :: 0 <= i < |stmt| ==> OneLine(stmt[i]) && StatementLine(stmt[i]))
  }

  predicate FieldLike(line: string) { OneLine(line) && line != "" && Contains(line, FIELD) }

  lemma {:induction false} FieldLinesShape(pairs: Pairs)
    requires Keys(pairs)
    requires forall i :: 0 <= i < |pairs| ==> OneLine(pairs[i].0) && OptionOneLine(pairs[i].1)
    ensures forall i :: 0 <= i < |FieldLines(pairs)| ==> FieldLike(FieldLines(pairs)[i])
    decreases |pairs|
  {
    if pairs != [] {
      var n := |pairs| - 1;
      FieldLinesShape(pairs[..n]);
      if pairs[n].1.Some? {
        FieldLineSplits(pairs[n].0, pairs[n].1.value);
      }
    }
  }

  lemma FieldLinesNonEmpty(m: SiwsMessage)
    ensures FieldLines(FieldPairs(m)) != []
  {
    AllFieldsLookedUp(m);
  }

  lemma PairsShape(m: SiwsMessage)
    requires Printable(m, [])
    ensures var lines := FieldLines(FieldPairs(m)); lines != [] && forall i :: 0 <= i < |lines| ==> FieldLike(lines[i])
  {
    var pairs := FieldPairs(m);
    assert Keys(pairs);
    assert forall i :: 0 <= i < |pairs| ==> OneLine(pairs[i].0) && OptionOneLine(pairs[i].1);
    FieldLinesNonEmpty(m);
    FieldLinesShape(pairs);
  }

  lemma HeaderIsOneLine()
    ensures OneLine(HEADER)
  {
    assert '\n' !in " wants you to sign in" && '\n' !in " with your Solana account:";
    assert '\r' !in " wants you to sign in" && '\r' !in " with your Solana account:";
  }

  lemma PrintedLines(m: SiwsMessage, stmt: seq<string>)
    requires Printable(m, []) && forall i :: 0 <= i < |stmt| ==> OneLine(stmt[i])
    ensures Lines(Print(m, stmt)) == MessageLines(m, stmt)
  {
    PrintedLinesShape(m, stmt);
    LinesOfJoin(MessageLines(m, stmt));
  }

  lemma PrintedLinesShape(m: SiwsMessage, stmt: seq<string>)
    requires Printable(m, []) && forall i :: 0 <= i < |stmt| ==> OneLine(stmt[i])
    ensures var lines := MessageLines(m, stmt);
            lines != [] && lines[|lines| - 1] != "" && forall i :: 0 <= i < |lines| ==> OneLine(lines[i])
  {
    var fields, lines := FieldLines(FieldPairs(m)), MessageLines(m, stmt);
    PairsShape(m);
    hide FieldLines, FieldPairs;
    assert lines[|lines| - 1] == fields[|fields| - 1];
    HeaderIsOneLine();
    assert OneLine(m.domain + HEADER);
  }

  lemma StatementEndAt(lines: seq<string>, i: nat, e: nat)
    requires i <= e < |lines| && !StatementLine(lines[e])
    requires forall k :: i <= k < e ==> StatementLine(lines[k])
    ensures StatementEnd(lines, i) == e
  {
  }

  lemma StatementFound(m: SiwsMessage, stmt: seq<string>)
    requires Printable(m, stmt)
    ensures var lines := MessageLines(m, stmt);
            var (s, start) := StatementOf(lines);
            && s == (if stmt == [] then None else Some(Join(stmt, "\n")))
            && lines[start..] == FieldLines(FieldPairs(m))
  {
    var fields, lines := FieldLines(FieldPairs(m)), MessageLines(m, stmt);
    PairsShape(m);
    hide FieldLines, FieldPairs, Join, Contains, StatementEnd;
    if stmt == [] {
      assert lines == [m.domain + HEADER, m.address, ""] + fields;
      assert lines[3] == fields[0];
      StatementEndAt(lines, 3, 3);
    } else {
      var e := 3 + |stmt|;
      assert forall k :: 3 <= k < e ==> lines[k] == stmt[k - 3];
      assert lines[e] == "";
      StatementEndAt(lines, 3, e);
      assert lines[3..e] == stmt && lines[e + 1..] == fields;
    }
  }

  /** The round trip, for every subset of the optional fields and any statement whose
      lines are non-empty and contain no ": ". */
  lemma MessageRoundTrip(m: SiwsMessage, stmt: seq<string>)
    requires Printable(m, stmt)
    requires m.statement == if stmt == [] then None else Some(Join(stmt, "\n"))
    ensures Parse(Print(m, stmt)) == Ok(m)
  {
    PrintedLines(m, stmt);
    StatementFound(m, stmt);
    AllFieldsLookedUp(m);
    StripSuffixAt(m.domain, HEADER);
    hide Lookup, FieldLines, StatementOf, Lines, Print, StripSuffix, FieldPairs, Trim;
  }

  const STATEMENT := "Sign in to ZKSettle"

  lemma {:induction false} AllPresent(pairs: Pairs)
    requires forall i :: 0 <= i < |pairs| ==> pairs[i].1.Some?
    ensures |FieldLines(pairs)| == |pairs|
    ensures forall i :: 0 <= i < |pairs| ==> FieldLines(pairs)[i] == FieldLine(pairs[i].0, pairs[i].1.value)
    decreases |pairs|
  {
    if pairs != [] {
      AllPresent(pairs[..|pairs| - 1]);
    }
  }

  /** The keys as they are spelled in a message that has every field. */
  lemma FieldTexts(m: SiwsMessage)
    requires m.uri.Some? && m.version.Some? && m.chainId.Some? && m.expirationTime.Some?
    ensures FieldLines(FieldPairs(m)) ==
            ["URI: " + m.uri.value, "Version: " + m.version.value, "Chain ID: " + m.chainId.value, "Nonce: " + m.nonce,
             "Issued At: " + m.issuedAt, "Expiration Time: " + m.expirationTime.value]
  {
    AllPresent(FieldPairs(m));
    hide FieldLines;
    assert "URI" + FIELD == "URI: " && "Version" + FIELD == "Version: " && "Chain ID" + FIELD == "Chain ID: ";
    assert "Nonce" + FIELD == "Nonce: " && "Issued At" + FIELD == "Issued At: " && "Expiration Time" + FIELD == "Expiration Time: ";
  }

  lemma DashboardLines(domain: string, address: string, nonce: string, issuedAt: string)
    ensures var m := SiwsMessage(domain, address, Some(STATEMENT), None, None, None, nonce, issuedAt, None);
            MessageLines(m, [STATEMENT]) ==
            [domain + HEADER, address, "", STATEMENT, "", "Nonce: " + nonce, "Issued At: " + issuedAt]
  {
    var m := SiwsMessage(domain, address, Some(STATEMENT), None, None, None, nonce, issuedAt, None);
    var p := FieldPairs(m);
    assert "Nonce" + FIELD == "Nonce: " && "Issued At" + FIELD == "Issued At: ";
    assert FieldLines(p[..1]) == [] && FieldLines(p[..2]) == [] by { assert p[..2][..1] == p[..1]; }
    assert FieldLines(p[..3]) == [] by { assert p[..3][..2] == p[..2]; }
    assert FieldLines(p[..4]) == ["Nonce: " + nonce] by { assert p[..4][..3] == p[..3]; }
    assert FieldLines(p[..5]) == ["Nonce: " + nonce, "Issued At: " + issuedAt] by { assert p[..5][..4] == p[..4]; }
  }

  /** The two services spell the header alike. */
  lemma HeadersAgree()
    ensures HEADER == " wants you to sign in with your Solana account:"
  {
  }

  lemma GenerateIsPrint(domain: string, address: string, nonce: string, issuedAt: string)
    ensures var m := SiwsMessage(domain, address, Some(STATEMENT), None, None, None, nonce, issuedAt, None);
            Generate(domain, address, nonce, issuedAt) == Print(m, [STATEMENT])
  {
    hide MessageLines, Join;
    HeadersAgree();
    DashboardLines(domain, address, nonce, issuedAt);
  }

  /** What the dashboard prints, the gateway reads. */
  lemma GeneratedMessageParses(domain: string, address: string, nonce: string, issuedAt: string)
    requires OneLine(domain) && OneLine(address) && OneLine(nonce) && OneLine(issuedAt)
    requires Trim(address) == address != ""
    ensures Parse(Generate(domain, address, nonce, issuedAt)) ==
            Ok(SiwsMessage(domain, address, Some(STATEMENT), None, None, None, nonce, issuedAt, None))
  {
    var m := SiwsMessage(domain, address, Some(STATEMENT), None, None, None, nonce, issuedAt, None);
    StatementIsLine();
    hide Parse, Generate, Print, StatementLine, Trim, OneLine;
    GenerateIsPrint(domain, address, nonce, issuedAt);
    MessageRoundTrip(m, [STATEMENT]);
  }

  lemma StatementIsLine()
    ensures OneLine(STATEMENT) && StatementLine(STATEMENT)
  {
    assert ':' !in STATEMENT;
    forall j: nat ensures !MatchesAt(STATEMENT, FIELD, j) {
      if j + 2 <= |STATEMENT| {
        assert STATEMENT[j..j + 2][0] == STATEMENT[j];
      }
    }
  }

  /** Whatever precedes the printed fields, a field that was printed is found. */
  lemma {:induction false} LookupSuffix(before: seq<string>, lines: seq<string>, key: string)
    requires Lookup(lines, key).Some?
    ensures Lookup(before + lines, key) == Lookup(lines, key)
    decreases |lines|
  {
    var n := |lines| - 1;
    assert (before + lines)[..|before| + n] == before + lines[..n];
    if SplitOnce(lines[n], FIELD).None? || SplitOnce(lines[n], FIELD).value.0 != key {
      LookupSuffix(before, lines[..n], key);
    }
  }

  lemma {:induction false} JoinShorter(lines: seq<string>, k: nat)
    requires 0 < k < |lines|
    ensures |Join(lines[..k], "\n")| < |Join(lines, "\n")|
    decreases k
  {
    if k > 1 {
      JoinShorter(lines[1..], k - 1);
      assert lines[..k][1..] == lines[1..][..k - 1];
    }
  }

  predicate PlainLines(stmt: seq<string>) { forall i :: 0 <= i < |stmt| ==> StatementLine(stmt[i]) }

  lemma EmptyIsNoStatement()
    ensures !StatementLine("")
  {
  }

  /** The end of the statement: its last line, or its first line that is not plain. */
  lemma StatementStops(lines: seq<string>, stmt: seq<string>)
    requires 3 + |stmt| < |lines| && lines[3..3 + |stmt|] == stmt && lines[3 + |stmt|] == ""
    ensures var e := StatementEnd(lines, 3);
            3 <= e <= 3 + |stmt| && lines[3..e] == stmt[..e - 3] && (e == 3 + |stmt| <==> PlainLines(stmt))
  {
    hide StatementLine;
    EmptyIsNoStatement();
    var e := StatementEnd(lines, 3);
    assert forall k :: 3 <= k < 3 + |stmt| ==> lines[k] == stmt[k - 3];
    if e < 3 + |stmt| {
      assert !StatementLine(stmt[e - 3]);
    }
  }

  /** What the parser takes for the statement, and where it goes on. */
  lemma StatementCut(lines: seq<string>, stmt: seq<string>)
    requires stmt != [] && 3 + |stmt| < |lines| && lines[2] == ""
    requires lines[3..3 + |stmt|] == stmt && lines[3 + |stmt|] == ""
    ensures var (s, start) := StatementOf(lines);
            start <= 4 + |stmt| && (s == Some(Join(stmt, "\n")) <==> PlainLines(stmt))
  {
    hide StatementLine, StatementEnd, Join, PlainLines;
    StatementStops(lines, stmt);
    var e := StatementEnd(lines, 3);
    if e == 3 + |stmt| {
      assert stmt[..|stmt|] == stmt;
    } else if e > 3 {
      JoinShorter(stmt, e - 3);
    }
  }

  lemma MessageShape(m: SiwsMessage, stmt: seq<string>)
    requires stmt != []
    ensures var lines, fields := MessageLines(m, stmt), FieldLines(FieldPairs(m));
            && |lines| == 4 + |stmt| + |fields| && lines[0] == m.domain + HEADER && lines[1] == m.address && lines[2] == ""
            && lines[3..3 + |stmt|] == stmt && lines[3 + |stmt|] == "" && lines[4 + |stmt|..] == fields
  {
    hide FieldLines, FieldPairs;
  }

  /** The lines the parser sees, and the fields at their end. */
  lemma CutLines(m: SiwsMessage, stmt: seq<string>)
    requires Printable(m, []) && stmt != [] && forall i :: 0 <= i < |stmt| ==> OneLine(stmt[i])
    ensures var lines, fields := MessageLines(m, stmt), FieldLines(FieldPairs(m));
            && Lines(Print(m, stmt)) == lines
            && |lines| > 2 && lines[0] == m.domain + HEADER && lines[1] == m.address && Trim(m.address) == m.address != ""
            && |fields| <= |lines| && StatementOf(lines).1 <= |lines| - |fields| && lines[|lines| - |fields|..] == fields
            && (StatementOf(lines).0 == Some(Join(stmt, "\n")) <==> PlainLines(stmt))
  {
    assert Trim(m.address) == m.address != "";
    hide *;
    PrintedLines(m, stmt);
    MessageShape(m, stmt);
    var lines, fields := MessageLines(m, stmt), FieldLines(FieldPairs(m));
    StatementCut(lines, stmt);
  }

  lemma LookupFromEnd(lines: seq<string>, fields: seq<string>, start: nat, key: string)
    requires |fields| <= |lines| && start <= |lines| - |fields| && lines[|lines| - |fields|..] == fields
    requires Lookup(fields, key).Some?
    ensures Lookup(lines[start..], key) == Lookup(fields, key)
  {
    hide Lookup;
    var before := lines[start..|lines| - |fields|];
    assert lines[start..] == before + fields;
    LookupSuffix(before, fields, key);
  }

  lemma ParsedParts(message: string, domain: string, address: string, nonce: string, issuedAt: string)
    requires var lines := Lines(message);
             && |lines| >= 2 && StripSuffix(lines[0], HEADER) == Some(domain) && Trim(lines[1]) == address != ""
             && Lookup(lines[StatementOf(lines).1..], "Nonce") == Some(nonce)
             && Lookup(lines[StatementOf(lines).1..], "Issued At") == Some(issuedAt)
    ensures var r := Parse(message);
            && r.Ok? && r.value.domain == domain && r.value.address == address && r.value.nonce == nonce
            && r.value.issuedAt == issuedAt && r.value.statement == StatementOf(Lines(message)).0
  {
    hide Lines, Lookup, StripSuffix, Trim, StatementOf;
  }

  /** Exactly the statements that survive: printed with any lines, the statement is
      recovered if and only if every line is non-empty and contains no ": ".  Domain,
      address, nonce and issue time survive either way. */
  lemma StatementSurvivesIff(m: SiwsMessage, stmt: seq<string>)
    requires Printable(m, []) && stmt != [] && forall i :: 0 <= i < |stmt| ==> OneLine(stmt[i])
    ensures var r := Parse(Print(m, stmt));
            && r.Ok? && r.value.domain == m.domain && r.value.address == m.address
            && r.value.nonce == m.nonce && r.value.issuedAt == m.issuedAt
            && (r.value.statement == Some(Join(stmt, "\n")) <==> PlainLines(stmt))
  {
    hide *;
    CutLines(m, stmt);
    AllFieldsLookedUp(m);
    StripSuffixAt(m.domain, HEADER);
    var lines, fields := MessageLines(m, stmt), FieldLines(FieldPairs(m));
    LookupFromEnd(lines, fields, StatementOf(lines).1, "Nonce");
    LookupFromEnd(lines, fields, StatementOf(lines).1, "Issued At");
    ParsedParts(Print(m, stmt), m.domain, m.address, m.nonce, m.issuedAt);
  }

  // ------------------------------------------------------- what the parser accepts

  /** The line carries `key`: it starts with the key, a colon and a space. */
  predicate HasKey(line: string, key: string) { key + FIELD <= line }

  lemma SplitOnceIff(line: string, key: string)
    requires ':' !in key
    ensures (SplitOnce(line, FIELD).Some? && SplitOnce(line, FIELD).value.0 == key) <==> HasKey(line, key)
    ensures HasKey(line, key) ==> line == FieldLine(key, SplitOnce(line, FIELD).value.1)
  {
    if HasKey(line, key) {
      var value := line[|key| + 2..];
      assert line == FieldLine(key, value);
      FieldLineSplits(key, value);
    } else if SplitOnce(line, FIELD).Some? {
      var i := FindFrom(line, FIELD, 0).value;
      assert line == line[..i] + line[i..i + 2] + line[i + 2..];
    }
  }

  lemma {:induction false} LookupNoneIff(lines: seq<string>, key: string)
    requires ':' !in key
    ensures Lookup(lines, key).None? <==> forall i :: 0 <= i < |lines| ==> !HasKey(lines[i], key)
    decreases |lines|
  {
    if lines != [] {
      var n := |lines| - 1;
      SplitOnceIff(lines[n], key);
      LookupNoneIff(lines[..n], key);
      hide SplitOnce, HasKey;
    }
  }

  /** A field is what follows its key on the last line that carries it. */
  lemma {:induction false} LookupIsLast(lines: seq<string>, key: string, i: nat)
    requires ':' !in key && i < |lines| && HasKey(lines[i], key)
    requires forall j :: i < j < |lines| ==> !HasKey(lines[j], key)
    ensures Lookup(lines, key).Some? && lines[i] == FieldLine(key, Lookup(lines, key).value)
    decreases |lines|
  {
    var n := |lines| - 1;
    SplitOnceIff(lines[n], key);
    if i < n {
      LookupIsLast(lines[..n], key, i);
    }
  }

  lemma KeyedIsNoStatement(line: string, key: string)
    requires HasKey(line, key)
    ensures line != "" && !StatementLine(line)
  {
    assert MatchesAt(line, FIELD, |key|);
  }

  /** Nothing that carries a key is taken for the statement. */
  lemma KeysSurvive(lines: seq<string>, key: string)
    requires |lines| >= 2
    ensures 2 <= StatementOf(lines).1
    ensures (exists i :: 2 <= i < |lines| && HasKey(lines[i], key)) <==>
            (exists i :: StatementOf(lines).1 <= i < |lines| && HasKey(lines[i], key))
  {
    hide Join, StatementLine, HasKey;
    var start := StatementOf(lines).1;
    forall i | 2 <= i < start ensures !HasKey(lines[i], key) {
      if HasKey(lines[i], key) {
        KeyedIsNoStatement(lines[i], key);
      }
    }
  }

  ghost predicate Carries(lines: seq<string>, from: nat, key: string) {
    exists i :: from <= i < |lines| && HasKey(lines[i], key)
  }

  lemma LookupFromIff(lines: seq<string>, from: nat, key: string)
    requires from <= |lines| && ':' !in key
    ensures Lookup(lines[from..], key).Some? <==> Carries(lines, from, key)
  {
    hide HasKey, Lookup;
    LookupNoneIff(lines[from..], key);
    if Lookup(lines[from..], key).Some? {
      var i :| 0 <= i < |lines| - from && HasKey(lines[from..][i], key);
      assert HasKey(lines[from + i], key);
    } else {
      forall i | from <= i < |lines| ensures !HasKey(lines[i], key) {
        assert !HasKey(lines[from..][i - from], key);
      }
    }
  }

  /** Exactly the messages the parser accepts: two lines or more, the first ending in the
      header, the second not blank, and from the third line on one that carries the nonce
      and one that carries the issue time, wherever the statement ends. */
  lemma ParseAcceptsIff(message: string)
    ensures var lines := Lines(message);
            Parse(message).Ok? <==>
            && |lines| >= 2
            && (exists domain :: lines[0] == domain + " wants you to sign in with your Solana account:")
            && !Blank(lines[1])
            && Carries(lines, 2, "Nonce") && Carries(lines, 2, "Issued At")
    ensures Parse(message).Err? ==> Parse(message).error == InvalidMessage
  {
    hide Lookup, StatementOf, Lines, Blank, Trim, StripSuffix, Carries;
    var lines := Lines(message);
    HeadersAgree();
    if |lines| >= 2 {
      TrimBlankIff(lines[1]);
      StripSuffixIff(lines[0]);
      FieldsFoundIff(lines, "Nonce");
      FieldsFoundIff(lines, "Issued At");
    }
  }

  lemma StripSuffixIff(line: string)
    ensures StripSuffix(line, HEADER).Some? <==> exists domain :: line == domain + HEADER
  {
    if StripSuffix(line, HEADER).Some? {
      assert line == line[..|line| - |HEADER|] + HEADER;
    }
  }

  lemma FieldsFoundIff(lines: seq<string>, key: string)
    requires |lines| >= 2 && ':' !in key
    ensures Lookup(lines[StatementOf(lines).1..], key).Some? <==> Carries(lines, 2, key)
  {
    hide Lookup, StatementOf, HasKey;
    KeysSurvive(lines, key);
    LookupFromIff(lines, StatementOf(lines).1, key);
  }

  // -------------------------------------------------------------- validation

  datatype Verdict = Valid | Refused(error: GatewayError) | Crashed

  predicate IsAsciiAlphanumeric(c: char) {
    'a' <= c <= 'z' || 'A' <= c <= 'Z' || '0' <= c <= '9'
  }

  predicate GoodNonce(nonce: string) {
    |nonce| >= 8 && forall i :: 0 <= i < |nonce| ==> IsAsciiAlphanumeric(nonce[i])
  }

  function AbsDiff(a: nat, b: nat): nat { if a >= b then a - b else b - a }

  /** `validate_message`. */
  function Validate(m: SiwsMessage, now: nat, expectedDomain: Option<string>): Verdict {
    if expectedDomain.Some? && m.domain != expectedDomain.value then Refused(InvalidMessage)
    else if !GoodNonce(m.nonce) then Refused(InvalidMessage)
    else
      match ParseIso8601(m.issuedAt)
      case Rejected => Refused(InvalidMessage)
      case Panics => Crashed
      case Value(issued) =>
        if AbsDiff(now, issued) > 300 then Refused(MessageExpired)
        else if m.expirationTime.None? then Valid
        else
          match ParseIso8601(m.expirationTime.value)
          case Rejected => Refused(InvalidMessage)
          case Panics => Crashed
          case Value(expires) => if now > expires then Refused(MessageExpired) else Valid
  }

  lemma GoodNonceIff(nonce: string)
    ensures GoodNonce(nonce) <==>
            |nonce| >= 8 && !exists c :: c in nonce && !('a' <= c <= 'z' || 'A' <= c <= 'Z' || '0' <= c <= '9')
  {
    if |nonce| >= 8 && !GoodNonce(nonce) {
      var i :| 0 <= i < |nonce| && !IsAsciiAlphanumeric(nonce[i]);
      assert nonce[i] in nonce;
    }
  }

  /** The verdict on every message without an expiry. */
  lemma FreshVerdict(m: SiwsMessage, issued: Parsed<nat>, now: nat, expectedDomain: Option<string>)
    requires m.expirationTime == None && issued == ParseIso8601(m.issuedAt)
    ensures Validate(m, now, expectedDomain) ==
            if expectedDomain.Some? && expectedDomain.value != m.domain then Refused(InvalidMessage)
            else if |m.nonce| < 8 || exists c :: c in m.nonce && !('a' <= c <= 'z' || 'A' <= c <= 'Z' || '0' <= c <= '9')
            then Refused(InvalidMessage)
            else if issued == Rejected then Refused(InvalidMessage)
            else if issued == Panics then Crashed
            else if -300 <= now - issued.value <= 300 then Valid
            else Refused(MessageExpired)
  {
    GoodNonceIff(m.nonce);
    hide ParseIso8601, GoodNonce;
  }

  /** An expiry is looked at only in an otherwise valid message, and must be a timestamp that
      has not passed. */
  lemma ExpiryVerdict(m: SiwsMessage, expiry: Parsed<nat>, now: nat, expectedDomain: Option<string>)
    requires m.expirationTime.Some? && expiry == ParseIso8601(m.expirationTime.value)
    ensures var base := Validate(m.(expirationTime := None), now, expectedDomain);
            Validate(m, now, expectedDomain) ==
            if base != Valid then base
            else if expiry == Rejected then Refused(InvalidMessage)
            else if expiry == Panics then Crashed
            else if now <= expiry.value then Valid
            else Refused(MessageExpired)
  {
    hide ParseIso8601, GoodNonce;
  }

  /** The whole login path: the verdict at time `now` on the message the dashboard builds at
      the instant `f` (as `toISOString` prints it).  It is valid exactly when the domain is
      the expected one, the nonce has eight or more letters and digits and nothing else,
      and the clocks are within five minutes. */
  lemma LoginAcceptedIff(domain: string, address: string, nonce: string, f: Fields, ms: nat,
                         now: nat, expectedDomain: Option<string>)
    requires OneLine(domain) && OneLine(address) && OneLine(nonce) && Trim(address) == address != ""
    requires ValidFields(f) && 1970 <= f.year <= 9999 && ms < 1000
    ensures var r := Parse(Generate(domain, address, nonce, Iso(f, Millis(ms), Zulu)));
            && r.Ok?
            && UnixSeconds(f) >= 0
            && Validate(r.value, now, expectedDomain) ==
               if expectedDomain.Some? && expectedDomain.value != domain then Refused(InvalidMessage)
               else if |nonce| < 8 || exists c :: c in nonce && !('a' <= c <= 'z' || 'A' <= c <= 'Z' || '0' <= c <= '9')
               then Refused(InvalidMessage)
               else if -300 <= now - UnixSeconds(f) <= 300 then Valid
               else Refused(MessageExpired)
  {
    hide *;
    var issuedAt := Iso(f, Millis(ms), Zulu);
    IsoIsOneLine(f, Millis(ms));
    GeneratedMessageParses(domain, address, nonce, issuedAt);
    LoginTime(f, ms);
    FreshVerdict(Parse(Generate(domain, address, nonce, issuedAt)).value, Value(UnixSeconds(f)), now, expectedDomain);
  }

  /** An expiry is honoured to the second, and changes nothing else. */
  lemma ExpiryRespected(m: SiwsMessage, g: Fields, ms: nat, now: nat, expectedDomain: Option<string>)
    requires ValidFields(g) && 1970 <= g.year <= 9999 && m.expirationTime == Some(Iso(g, Millis(ms), Zulu))
    ensures Validate(m, now, expectedDomain) ==
            if Validate(m.(expirationTime := None), now, expectedDomain) == Valid && now > UnixSeconds(g)
            then Refused(MessageExpired) else Validate(m.(expirationTime := None), now, expectedDomain)
  {
    hide Iso, ParseIso8601, UnixSeconds, ValidFields, Validate;
    LoginTime(g, ms);
    ExpiryVerdict(m, Value(UnixSeconds(g)), now, expectedDomain);
  }

  /** A client that ends its lines with CR LF is understood as well. */
  lemma CrLfMessageParses(m: SiwsMessage, stmt: seq<string>)
    requires Printable(m, stmt)
    requires m.statement == if stmt == [] then None else Some(Join(stmt, "\n"))
    ensures Parse(Join(MessageLines(m, stmt), "\r\n")) == Ok(m)
  {
    PrintedLinesShape(m, stmt);
    LinesOfCrLfJoin(MessageLines(m, stmt));
    PrintedLines(m, stmt);
    MessageRoundTrip(m, stmt);
    hide Lookup, FieldLines, StatementOf, Lines, StripSuffix, FieldPairs, Trim, MessageLines, Join, Printable;
  }

  lemma LoginTime(f: Fields, ms: nat)
    requires ValidFields(f) && 1970 <= f.year <= 9999
    ensures UnixSeconds(f) >= 0 && ParseIso8601(Iso(f, Millis(ms), Zulu)) == Value(UnixSeconds(f))
  {
    EpochSplitsDates(Date(f.year, f.month, f.day));
    hide ParseIso8601, Iso;
    TimestampTheorem(f, Millis(ms), Zulu);
  }

  lemma IsoIsOneLine(f: Fields, x: Fraction)
    ensures OneLine(Iso(f, x, Zulu))
  {
    hide Padded;
    assert OneLine(DateString(f.year, f.month, f.day));
    assert OneLine(TimeString(f, x));
  }
}
