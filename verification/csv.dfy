/** The CSV text the table browser exports, and a reader for it in the manner
    of section 2 of RFC 4180: fields are separated by commas and records by
    line feeds (the export writes `\n`, not the CRLF of rule 2), and a quoted
    field holds each of its double quotes doubled (rule 7). */
module Csv {
  import opened Wrappers

  /** `t.replace(/"/g, '""')`. */
  function Escape(t: string): (r: string)
    ensures |r| >= |t|
  {
    if t == [] then []
    else (if t[0] == '"' then "\"\"" else [t[0]]) + Escape(t[1..])
  }

  /** A cell as the export writes it: the escaped text between double quotes. */
  function QuoteField(t: string): (r: string)
    ensures |r| >= 2 && r[0] == '"'
  {
    "\"" + Escape(t) + "\""
  }

  /** `parts.join(sep)`. */
  function Join(parts: seq<string>, sep: char): string {
    if parts == [] then []
    else if |parts| == 1 then parts[0]
    else parts[0] + [sep] + Join(parts[1..], sep)
  }

  /** One exported record: every cell quoted, joined by commas. */
  function QuotedLine(cells: seq<string>): string {
    if cells == [] then []
    else if |cells| == 1 then QuoteField(cells[0])
    else QuoteField(cells[0]) + "," + QuotedLine(cells[1..])
  }

  /** Exported records joined by line feeds. */
  function QuotedLines(rows: seq<seq<string>>): string {
    if rows == [] then []
    else if |rows| == 1 then QuotedLine(rows[0])
    else QuotedLine(rows[0]) + "\n" + QuotedLines(rows[1..])
  }

  /** The inside of a quoted field, starting after its opening quote: the text
      with doubled quotes undone, and what follows the closing quote. `None`
      when the quote is never closed. */
  function QuotedBody(s: string): (r: Option<(string, string)>)
    ensures r.Some? ==> |r.value.1| < |s|
    decreases |s|
  {
    if s == [] then None
    else if s[0] == '"' then
      if |s| >= 2 && s[1] == '"' then
        match QuotedBody(s[2..])
        case None => None
        case Some((t, rest)) => Some(("\"" + t, rest))
      else Some(([], s[1..]))
    else
      match QuotedBody(s[1..])
      case None => None
      case Some((t, rest)) => Some(([s[0]] + t, rest))
  }

  /** The length of an unquoted field: up to the next comma or line feed. */
  function PlainLength(s: string): (n: nat)
    ensures n <= |s|
    ensures forall i :: 0 <= i < n ==> s[i] != ',' && s[i] != '\n'
    ensures n < |s| ==> s[n] == ',' || s[n] == '\n'
  {
    if s == [] || s[0] == ',' || s[0] == '\n' then 0 else 1 + PlainLength(s[1..])
  }

  /** One field and the text after it. */
  function ParseField(s: string): (r: Option<(string, string)>)
    ensures r.Some? ==> |r.value.1| <= |s|
  {
    if s != [] && s[0] == '"' then QuotedBody(s[1..])
    else
      var n := PlainLength(s);
      Some((s[..n], s[n..]))
  }

  /** One record and the text after its line feed. A closing quote followed by
      anything but a comma, a line feed or the end is malformed. */
  function ParseRecord(s: string): (r: Option<(seq<string>, string)>)
    ensures r.Some? ==> r.value.0 != [] && (r.value.1 == [] || |r.value.1| < |s|)
    decreases |s|
  {
    match ParseField(s)
    case None => None
    case Some((f, rest)) =>
      if rest == [] then Some(([f], []))
      else if rest[0] == '\n' then Some(([f], rest[1..]))
      else if rest[0] == ',' then
        match ParseRecord(rest[1..])
        case None => None
        case Some((fs, after)) => Some(([f] + fs, after))
      else None
  }

  /** A whole document as its records. */
  function ParseCsv(s: string): (r: Option<seq<seq<string>>>)
    ensures r.Some? ==> r.value != []
    decreases |s|
  {
    match ParseRecord(s)
    case None => None
    case Some((record, rest)) =>
      if rest == [] then Some([record])
      else
        match ParseCsv(rest)
        case None => None
        case Some(records) => Some([record] + records)
  }

  /** Text that can stand unquoted in a field. */
  predicate PlainText(t: string) {
    (t == [] || t[0] != '"') && forall i :: 0 <= i < |t| ==> t[i] != ',' && t[i] != '\n'
  }

  /** What may follow a field inside a record. */
  predicate FieldEnd(rest: string) {
    rest == [] || rest[0] == ',' || rest[0] == '\n'
  }

  /** What may follow a record. */
  predicate RecordEnd(rest: string) {
    rest == [] || rest[0] == '\n'
  }

  /** The text after a record's line feed. */
  function AfterRecord(rest: string): string {
    if rest == [] then [] else rest[1..]
  }

  /** Undoing the doubling gives back the cell text, and the reader stops at
      the closing quote. */
  lemma {:induction false} QuotedBodyRoundTrip(t: string, rest: string)
    requires rest == [] || rest[0] != '"'
    ensures QuotedBody(Escape(t) + "\"" + rest) == Some((t, rest))
    decreases |t|
  {
    var s := Escape(t) + "\"" + rest;
    if t == [] {
      assert s == "\"" + rest;
      assert s[1..] == rest;
    } else if t[0] == '"' {
      QuotedBodyRoundTrip(t[1..], rest);
      assert s == "\"\"" + (Escape(t[1..]) + "\"" + rest);
      assert s[2..] == Escape(t[1..]) + "\"" + rest;
      assert "\"" + t[1..] == t;
    } else {
      QuotedBodyRoundTrip(t[1..], rest);
      assert s == [t[0]] + (Escape(t[1..]) + "\"" + rest);
      assert s[1..] == Escape(t[1..]) + "\"" + rest;
      assert [t[0]] + t[1..] == t;
    }
  }

  /** A quoted cell reads back as its text. */
  lemma QuotedFieldRoundTrip(t: string, rest: string)
    requires FieldEnd(rest)
    ensures ParseField(QuoteField(t) + rest) == Some((t, rest))
  {
    var s := QuoteField(t) + rest;
    assert s[1..] == Escape(t) + "\"" + rest;
    QuotedBodyRoundTrip(t, rest);
  }

  /** An unquoted cell reads back as its text. */
  lemma {:induction false} PlainLengthOf(t: string, rest: string)
    requires (forall i :: 0 <= i < |t| ==> t[i] != ',' && t[i] != '\n') && FieldEnd(rest)
    ensures PlainLength(t + rest) == |t|
    decreases |t|
  {
    if t != [] {
      assert (t + rest)[1..] == t[1..] + rest;
      PlainLengthOf(t[1..], rest);
    }
  }

  lemma PlainFieldRoundTrip(t: string, rest: string)
    requires PlainText(t) && FieldEnd(rest)
    ensures ParseField(t + rest) == Some((t, rest))
  {
    PlainLengthOf(t, rest);
    assert (t + rest)[..|t|] == t && (t + rest)[|t|..] == rest;
    if t == [] {
      assert t + rest == rest;
    }
  }

  /** The last field of a record. */
  lemma RecordLast(s: string, f: string, rest: string)
    requires ParseField(s) == Some((f, rest)) && RecordEnd(rest)
    ensures ParseRecord(s) == Some(([f], AfterRecord(rest)))
  {
  }

  /** A field followed by a comma and the rest of the record. */
  lemma RecordNext(s: string, f: string, tail: string, fs: seq<string>, after: string)
    requires ParseField(s) == Some((f, "," + tail)) && ParseRecord(tail) == Some((fs, after))
    ensures ParseRecord(s) == Some(([f] + fs, after))
  {
    assert ("," + tail)[1..] == tail;
  }

  /** Moves the text after a separator into one suffix. */
  lemma Regroup(a: string, sep: char, b: string, rest: string)
    ensures a + [sep] + b + rest == a + ([sep] + (b + rest))
  {
  }

  /** A quoted record reads back as its cells. */
  lemma {:induction false} QuotedLineRoundTrip(cells: seq<string>, rest: string)
    requires cells != [] && RecordEnd(rest)
    ensures ParseRecord(QuotedLine(cells) + rest) == Some((cells, AfterRecord(rest)))
    decreases |cells|
  {
    if |cells| == 1 {
      QuotedFieldRoundTrip(cells[0], rest);
      RecordLast(QuotedLine(cells) + rest, cells[0], rest);
      assert cells == [cells[0]];
    } else {
      var tail := QuotedLine(cells[1..]) + rest;
      assert QuotedLine(cells) == QuoteField(cells[0]) + [','] + QuotedLine(cells[1..]);
      Regroup(QuoteField(cells[0]), ',', QuotedLine(cells[1..]), rest);
      QuotedFieldRoundTrip(cells[0], "," + tail);
      QuotedLineRoundTrip(cells[1..], rest);
      RecordNext(QuotedLine(cells) + rest, cells[0], tail, cells[1..], AfterRecord(rest));
      assert [cells[0]] + cells[1..] == cells;
    }
  }

  /** A header of plain column names reads back as the names. */
  lemma {:induction false} HeaderRoundTrip(names: seq<string>, rest: string)
    requires names != [] && (forall i :: 0 <= i < |names| ==> PlainText(names[i])) && RecordEnd(rest)
    ensures ParseRecord(Join(names, ',') + rest) == Some((names, AfterRecord(rest)))
    decreases |names|
  {
    if |names| == 1 {
      assert Join(names, ',') == names[0];
      PlainFieldRoundTrip(names[0], rest);
      RecordLast(Join(names, ',') + rest, names[0], rest);
      assert names == [names[0]];
    } else {
      assert forall i :: 0 <= i < |names[1..]| ==> names[1..][i] == names[i + 1];
      HeaderRoundTrip(names[1..], rest);
      HeaderNext(names, rest);
    }
  }

  /** A plain name, a comma, and a header that reads back. */
  lemma HeaderNext(names: seq<string>, rest: string)
    requires |names| > 1 && PlainText(names[0])
    requires ParseRecord(Join(names[1..], ',') + rest) == Some((names[1..], AfterRecord(rest)))
    ensures ParseRecord(Join(names, ',') + rest) == Some((names, AfterRecord(rest)))
  {
    var tail := Join(names[1..], ',') + rest;
    JoinText(names, rest);
    PlainFieldRoundTrip(names[0], "," + tail);
    RecordNext(names[0] + ("," + tail), names[0], tail, names[1..], AfterRecord(rest));
    assert [names[0]] + names[1..] == names;
  }

  lemma JoinText(names: seq<string>, rest: string)
    requires |names| > 1
    ensures Join(names, ',') + rest == names[0] + ("," + (Join(names[1..], ',') + rest))
  {
  }

  /** The last record of a document. */
  lemma DocumentLast(s: string, record: seq<string>)
    requires ParseRecord(s) == Some((record, []))
    ensures ParseCsv(s) == Some([record])
  {
  }

  /** A record followed by further records. */
  lemma DocumentNext(s: string, record: seq<string>, rest: string, records: seq<seq<string>>)
    requires ParseRecord(s) == Some((record, rest)) && rest != [] && ParseCsv(rest) == Some(records)
    ensures ParseCsv(s) == Some([record] + records)
  {
  }

  lemma QuotedLinesNotEmpty(rows: seq<seq<string>>)
    requires rows != [] && rows[0] != []
    ensures QuotedLines(rows) != []
  {
    var first := QuotedLine(rows[0]);
    assert |first| >= 2;
    if |rows| > 1 {
      assert QuotedLines(rows) == first + ("\n" + QuotedLines(rows[1..]));
    }
  }

  /** Quoted records joined by line feeds read back as the records. */
  lemma {:induction false} QuotedLinesRoundTrip(rows: seq<seq<string>>)
    requires rows != [] && forall i :: 0 <= i < |rows| ==> rows[i] != []
    ensures ParseCsv(QuotedLines(rows)) == Some(rows)
    decreases |rows|
  {
    if |rows| == 1 {
      QuotedLinesLast(rows);
    } else {
      assert forall i :: 0 <= i < |rows[1..]| ==> rows[1..][i] == rows[i + 1];
      QuotedLinesNotEmpty(rows[1..]);
      QuotedLinesRoundTrip(rows[1..]);
      QuotedLinesNext(rows);
    }
  }

  /** A single quoted record is the whole document. */
  lemma QuotedLinesLast(rows: seq<seq<string>>)
    requires |rows| == 1 && rows[0] != []
    ensures ParseCsv(QuotedLines(rows)) == Some(rows)
  {
    assert QuotedLines(rows) == QuotedLine(rows[0]) + [];
    QuotedLineRoundTrip(rows[0], []);
    DocumentLast(QuotedLines(rows), rows[0]);
    assert rows == [rows[0]];
  }

  /** A quoted record, a line feed, and a document of further records. */
  lemma QuotedLinesNext(rows: seq<seq<string>>)
    requires |rows| > 1 && rows[0] != [] && QuotedLines(rows[1..]) != []
    requires ParseCsv(QuotedLines(rows[1..])) == Some(rows[1..])
    ensures ParseCsv(QuotedLines(rows)) == Some(rows)
  {
    var more := QuotedLines(rows[1..]);
    var rest := "\n" + more;
    LinesText(rows);
    QuotedLineRoundTrip(rows[0], rest);
    assert AfterRecord(rest) == more;
    DocumentNext(QuotedLines(rows), rows[0], more, rows[1..]);
    assert [rows[0]] + rows[1..] == rows;
  }

  lemma LinesText(rows: seq<seq<string>>)
    requires |rows| > 1
    ensures QuotedLines(rows) == QuotedLine(rows[0]) + ("\n" + QuotedLines(rows[1..]))
  {
  }

  /** A document of a plain header line and quoted records reads back as the
      header followed by the records: one record per exported row. */
  lemma DocumentRoundTrip(names: seq<string>, rows: seq<seq<string>>)
    requires names != [] && forall i :: 0 <= i < |names| ==> PlainText(names[i])
    requires rows != [] && forall i :: 0 <= i < |rows| ==> rows[i] != []
    ensures ParseCsv(Join(names, ',') + "\n" + QuotedLines(rows)) == Some([names] + rows)
  {
    var rest := "\n" + QuotedLines(rows);
    assert Join(names, ',') + "\n" + QuotedLines(rows) == Join(names, ',') + rest;
    HeaderRoundTrip(names, rest);
    assert rest[1..] == QuotedLines(rows);
    QuotedLinesRoundTrip(rows);
  }
}
