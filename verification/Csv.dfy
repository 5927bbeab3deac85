/** The CSV export of settlement events against a reader of RFC 4180 section 2 with LF
    as the record separator. */
module Csv {
  import opened Text
  import opened Wrappers

  // ---------------------------------------------------------------- printing

  predicate NeedsQuotes(v: string) { ',' in v || '"' in v || '\n' in v }

  function DoubleQuotes(v: string): string {
    if v == "" then "" else (if v[0] == '"' then "\"\"" else [v[0]]) + DoubleQuotes(v[1..])
  }

  /** `escapeCsvField`. */
  function Escape(v: string): string {
    if NeedsQuotes(v) then "\"" + DoubleQuotes(v) + "\"" else v
  }

  function EscapeAll(fields: seq<string>): (r: seq<string>)
    ensures |r| == |fields|
  {
    if fields == [] then [] else [Escape(fields[0])] + EscapeAll(fields[1..])
  }

  function Row(fields: seq<string>): string { Join(EscapeAll(fields), ",") }

  function Rows(rows: seq<seq<string>>): (r: seq<string>)
    ensures |r| == |rows|
  {
    if rows == [] then [] else [Row(rows[0])] + Rows(rows[1..])
  }

  /** `buildCsvContent`: the header is joined as it is, the rows are escaped. */
  function BuildContent(header: seq<string>, rows: seq<seq<string>>): string {
    Join([Join(header, ",")] + Rows(rows), "\n")
  }

  // ----------------------------------------------------------------- reading

  predicate AtEnd(s: string) { s == "" || s[0] == ',' || s[0] == '\n' }

  /** The rest of a quoted field, up to and including its closing quote. */
  function ReadQuoted(s: string): (r: Option<(string, string)>)
    ensures r.Some? ==> |r.value.1| < |s|
    decreases |s|
  {
    if s == "" then None
    else if s[0] != '"' then
      match ReadQuoted(s[1..])
      case None => None
      case Some((v, rest)) => Some(([s[0]] + v, rest))
    else if |s| > 1 && s[1] == '"' then
      match ReadQuoted(s[2..])
      case None => None
      case Some((v, rest)) => Some((['"'] + v, rest))
    else Some(("", s[1..]))
  }

  /** The rest of an unquoted field; a quote is not allowed inside it. */
  function ReadPlain(s: string): (r: Option<(string, string)>)
    ensures r.Some? ==> |r.value.1| <= |s|
    decreases |s|
  {
    if AtEnd(s) then Some(("", s))
    else if s[0] == '"' then None
    else
      match ReadPlain(s[1..])
      case None => None
      case Some((v, rest)) => Some(([s[0]] + v, rest))
  }

  function ReadField(s: string): (r: Option<(string, string)>)
    ensures r.Some? ==> |r.value.1| <= |s| && AtEnd(r.value.1)
  {
    if s != "" && s[0] == '"' then
      match ReadQuoted(s[1..])
      case None => None
      case Some((v, rest)) => if AtEnd(rest) then Some((v, rest)) else None
    else PlainEndsAtEnd(s); ReadPlain(s)
  }

  lemma PlainEndsAtEnd(s: string)
    ensures ReadPlain(s).Some? ==> AtEnd(ReadPlain(s).value.1)
    decreases |s|
  {
  }

  function ReadRecord(s: string): (r: Option<(seq<string>, string)>)
    ensures r.Some? ==> |r.value.1| <= |s|
    ensures r.Some? && r.value.1 != "" ==> r.value.1[0] == '\n'
    decreases |s|
  {
    match ReadField(s)
    case None => None
    case Some((v, rest)) =>
      if rest == "" || rest[0] == '\n' then Some(([v], rest))
      else
        match ReadRecord(rest[1..])
        case None => None
        case Some((vs, rest')) => Some(([v] + vs, rest'))
  }

  function ReadAll(s: string): Option<seq<seq<string>>>
    decreases |s|
  {
    match ReadRecord(s)
    case None => None
    case Some((fields, rest)) =>
      if rest == "" then Some([fields])
      else
        match ReadAll(rest[1..])
        case None => None
        case Some(more) => Some([fields] + more)
  }

  // -------------------------------------------------------------- round trip

  lemma {:induction false} QuotedRoundTrip(v: string, rest: string)
    requires AtEnd(rest)
    ensures ReadQuoted(DoubleQuotes(v) + "\"" + rest) == Some((v, rest))
    decreases |v|
  {
    var s := DoubleQuotes(v) + "\"" + rest;
    if v == "" {
      assert s == "\"" + rest && s[1..] == rest;
    } else {
      QuotedRoundTrip(v[1..], rest);
      assert [v[0]] + v[1..] == v;
      var tail := DoubleQuotes(v[1..]) + "\"" + rest;
      if v[0] == '"' {
        assert s == "\"\"" + tail && s[2..] == tail;
      } else {
        assert s == [v[0]] + tail && s[1..] == tail;
      }
    }
  }

  lemma {:induction false} PlainRoundTrip(v: string, rest: string)
    requires AtEnd(rest) && !NeedsQuotes(v)
    ensures ReadPlain(v + rest) == Some((v, rest))
    decreases |v|
  {
    if v == "" {
      assert v + rest == rest;
    } else {
      assert (v + rest)[1..] == v[1..] + rest && (v + rest)[0] == v[0];
      assert v[0] in v && !NeedsQuotes(v[1..]);
      assert [v[0]] + v[1..] == v;
      PlainRoundTrip(v[1..], rest);
    }
  }

  /** One field, whatever it contains, followed by anything that ends a field. */
  lemma FieldRoundTrip(v: string, rest: string)
    requires AtEnd(rest)
    ensures ReadField(Escape(v) + rest) == Some((v, rest))
  {
    hide ReadQuoted, ReadPlain, DoubleQuotes;
    if NeedsQuotes(v) {
      QuotedRoundTrip(v, rest);
      assert (Escape(v) + rest)[1..] == DoubleQuotes(v) + "\"" + rest;
    } else {
      PlainRoundTrip(v, rest);
      assert v != "" ==> (v + rest)[0] == v[0] && v[0] in v;
      assert v == "" ==> v + rest == rest;
    }
  }

  predicate AtLineEnd(s: string) { s == "" || s[0] == '\n' }

  lemma {:induction false} RecordRoundTrip(fields: seq<string>, rest: string)
    requires fields != [] && AtLineEnd(rest)
    ensures ReadRecord(Row(fields) + rest) == Some((fields, rest))
    decreases |fields|
  {
    var escaped := EscapeAll(fields);
    if |fields| == 1 {
      assert fields == [fields[0]];
      FieldRoundTrip(fields[0], rest);
    } else {
      var tail := Row(fields[1..]) + rest;
      assert escaped[1..] == EscapeAll(fields[1..]);
      assert Row(fields) + rest == Escape(fields[0]) + ("," + tail);
      FieldRoundTrip(fields[0], "," + tail);
      assert ("," + tail)[1..] == tail;
      RecordRoundTrip(fields[1..], rest);
      assert [fields[0]] + fields[1..] == fields;
    }
  }

  lemma {:induction false} RowsRoundTrip(rows: seq<seq<string>>)
    requires rows != [] && forall i :: 0 <= i < |rows| ==> rows[i] != []
    ensures ReadAll(Join(Rows(rows), "\n")) == Some(rows)
    decreases |rows|
  {
    if |rows| == 1 {
      assert rows == [rows[0]];
      RecordRoundTrip(rows[0], "");
      assert Row(rows[0]) + "" == Row(rows[0]);
    } else {
      var tail := Join(Rows(rows[1..]), "\n");
      assert Rows(rows)[1..] == Rows(rows[1..]);
      assert Join(Rows(rows), "\n") == Row(rows[0]) + ("\n" + tail);
      RecordRoundTrip(rows[0], "\n" + tail);
      assert ("\n" + tail)[1..] == tail;
      RowsRoundTrip(rows[1..]);
      assert [rows[0]] + rows[1..] == rows;
    }
  }

  lemma {:induction false} PlainHeader(header: seq<string>)
    requires forall i :: 0 <= i < |header| ==> !NeedsQuotes(header[i])
    ensures EscapeAll(header) == header
    decreases |header|
  {
    if header != [] {
      PlainHeader(header[1..]);
    }
  }

  lemma {:induction false} DoublingGrows(v: string)
    ensures |DoubleQuotes(v)| >= |v|
  {
    if v != "" {
      DoublingGrows(v[1..]);
    }
  }

  /** A field is quoted exactly when it contains a comma, a quote or a line feed, and is
      otherwise printed as it is. */
  lemma QuotedIff(v: string)
    ensures Escape(v) == v <==> ',' !in v && '"' !in v && '\n' !in v
    ensures Escape(v) != v ==> |Escape(v)| >= |v| + 2 && Escape(v)[0] == '"' == Escape(v)[|Escape(v)| - 1]
  {
    DoublingGrows(v);
  }

  /** The export loses nothing: the reader recovers the header and every row of arbitrary
      field strings. */
  lemma ContentRoundTrip(header: seq<string>, rows: seq<seq<string>>)
    requires header != [] && forall i :: 0 <= i < |header| ==> !NeedsQuotes(header[i])
    requires forall i :: 0 <= i < |rows| ==> |rows[i]| == |header|
    ensures ReadAll(BuildContent(header, rows)) == Some([header] + rows)
  {
    PlainHeader(header);
    var all := [header] + rows;
    assert all[1..] == rows;
    assert Rows(all) == [Join(header, ",")] + Rows(rows);
    RowsRoundTrip(all);
  }

  const CSV_COLUMNS: seq<string> := [
    "signature", "slot", "timestamp", "issuer", "nullifier_hash", "merkle_root", "sanctions_root",
    "jurisdiction_root", "mint", "recipient", "payer", "amount", "epoch"]

  lemma ColumnsArePlain()
    ensures forall i :: 0 <= i < |CSV_COLUMNS| ==> !NeedsQuotes(CSV_COLUMNS[i])
  {
  }

  /** The export as it is configured: thirteen fixed columns. */
  lemma EventExportRoundTrip(rows: seq<seq<string>>)
    requires forall i :: 0 <= i < |rows| ==> |rows[i]| == |CSV_COLUMNS|
    ensures ReadAll(BuildContent(CSV_COLUMNS, rows)) == Some([CSV_COLUMNS] + rows)
  {
    ColumnsArePlain();
    hide NeedsQuotes;
    ContentRoundTrip(CSV_COLUMNS, rows);
  }
}
