/** The CSV printer for report exports, and a reader for the format it prints:
    section 2 of RFC 4180 with a single LF as the record separator. */
module Csv {
  import opened Common

  const MAX_EXPORT_ROWS := 10000

  /** A report row: its own keys in order, and the string form of each value
      (None for null).  A key that is absent reads as undefined. */
  datatype Row = Row(keys: seq<string>, cells: map<string, Option<string>>)

  // ----- the printer -----

  predicate Special(c: char)
  {
    c == ',' || c == '"' || c == '\n' || c == '\r'
  }

  /** Every double quote written twice. */
  function DoubleQuotes(s: string): string
  {
    if s == "" then ""
    else (if s[0] == '"' then "\"\"" else [s[0]]) + DoubleQuotes(s[1..])
  }

  predicate NeedsQuotes(s: string)
  {
    exists c :: c in s && Special(c)
  }

  function EscapeField(s: string): string
  {
    if NeedsQuotes(s) then "\"" + DoubleQuotes(s) + "\"" else s
  }

  function CellText(row: Row, col: string): string
  {
    if col in row.cells && row.cells[col].Some? then row.cells[col].value else ""
  }

  function Cells(row: Row, cols: seq<string>): (r: seq<string>)
    ensures |r| == |cols|
  {
    seq(|cols|, i requires 0 <= i < |cols| => CellText(row, cols[i]))
  }

  function Join(parts: seq<string>, separator: string): string
  {
    if parts == [] then ""
    else if |parts| == 1 then parts[0]
    else parts[0] + separator + Join(parts[1..], separator)
  }

  function Line(fields: seq<string>): string
  {
    Join(seq(|fields|, i requires 0 <= i < |fields| => EscapeField(fields[i])), ",")
  }

  function Lines(records: seq<seq<string>>): (r: seq<string>)
    ensures |r| == |records|
  {
    seq(|records|, i requires 0 <= i < |records| => Line(records[i]))
  }

  function Text(records: seq<seq<string>>): string
  {
    Join(Lines(records), "\n")
  }

  function ExportedRows(rows: seq<Row>): seq<Row>
  {
    if |rows| <= MAX_EXPORT_ROWS then rows else rows[..MAX_EXPORT_ROWS]
  }

  function Columns(rows: seq<Row>, columns: Option<seq<string>>): seq<string>
    requires rows != []
  {
    match columns
    case Some(cols) => cols
    case None => rows[0].keys
  }

  function Table(rows: seq<Row>, cols: seq<string>): (t: seq<seq<string>>)
    ensures |t| == |rows| + 1
  {
    [cols] + seq(|rows|, i requires 0 <= i < |rows| => Cells(rows[i], cols))
  }

  function RowsToCsv(rows: seq<Row>, columns: Option<seq<string>>): string
  {
    if rows == [] then ""
    else
      var limited := ExportedRows(rows);
      Text(Table(limited, Columns(limited, columns)))
  }

  // ----- the reader -----

  /** The rest of a quoted field, after its opening quote: its contents and the
      text after its closing quote, or None when the quote is never closed. */
  function ReadQuoted(s: string): (r: Option<(string, string)>)
    ensures r.Some? ==> |r.value.1| < |s|
  {
    if s == "" then None
    else if s[0] != '"' then
      match ReadQuoted(s[1..])
      case None => None
      case Some(p) => Some(([s[0]] + p.0, p.1))
    else if |s| > 1 && s[1] == '"' then
      match ReadQuoted(s[2..])
      case None => None
      case Some(p) => Some((['"'] + p.0, p.1))
    else Some(("", s[1..]))
  }

  /** The longest run of characters allowed in an unquoted field. */
  function ReadPlain(s: string): (r: (string, string))
    ensures |r.1| <= |s|
  {
    if s == "" || Special(s[0]) then ("", s)
    else
      var p := ReadPlain(s[1..]);
      ([s[0]] + p.0, p.1)
  }

  function ReadField(s: string): (r: Option<(string, string)>)
    ensures r.Some? ==> |r.value.1| <= |s|
  {
    if s != "" && s[0] == '"' then ReadQuoted(s[1..]) else Some(ReadPlain(s))
  }

  /** One record: fields separated by commas. */
  function ReadRecord(s: string): (r: Option<(seq<string>, string)>)
    ensures r.Some? ==> |r.value.1| <= |s|
    decreases |s|
  {
    match ReadField(s)
    case None => None
    case Some((field, rest)) =>
      if rest != "" && rest[0] == ',' then
        match ReadRecord(rest[1..])
        case None => None
        case Some((fields, rest')) => Some(([field] + fields, rest'))
      else Some(([field], rest))
  }

  /** A file: records separated by line feeds. */
  function ReadFile(s: string): Option<seq<seq<string>>>
    decreases |s|
  {
    match ReadRecord(s)
    case None => None
    case Some((record, rest)) =>
      if rest == "" then Some([record])
      else if rest[0] == '\n' then
        match ReadFile(rest[1..])
        case None => None
        case Some(records) => Some([record] + records)
      else None
  }

  /** A file whose last record may also be ended by a line feed. */
  function ReadFileEnded(s: string): Option<seq<seq<string>>>
    decreases |s|
  {
    match ReadRecord(s)
    case None => None
    case Some((record, rest)) =>
      if rest == "" || rest == "\n" then Some([record])
      else if rest[0] == '\n' then
        match ReadFileEnded(rest[1..])
        case None => None
        case Some(records) => Some([record] + records)
      else None
  }

  // ----- the reader inverts the printer -----

  /** A field ends where the text ends, or at a comma or a line feed. */
  predicate Ends(rest: string)
  {
    rest == "" || rest[0] == ',' || rest[0] == '\n'
  }

  lemma {:induction false} QuotedRoundTrip(s: string, rest: string)
    requires Ends(rest)
    ensures ReadQuoted(DoubleQuotes(s) + "\"" + rest) == Some((s, rest))
  {
    if s == "" {
      assert DoubleQuotes(s) + "\"" + rest == "\"" + rest;
    } else {
      QuotedRoundTrip(s[1..], rest);
      var tail := DoubleQuotes(s[1..]) + "\"" + rest;
      if s[0] == '"' {
        assert DoubleQuotes(s) + "\"" + rest == "\"\"" + tail;
        assert ("\"\"" + tail)[2..] == tail;
      } else {
        assert DoubleQuotes(s) + "\"" + rest == [s[0]] + tail;
      }
      assert [s[0]] + s[1..] == s;
    }
  }

  lemma {:induction false} PlainRoundTrip(s: string, rest: string)
    requires Ends(rest) && forall c :: c in s ==> !Special(c)
    ensures ReadPlain(s + rest) == (s, rest)
  {
    if s == "" {
      assert s + rest == rest;
    } else {
      PlainRoundTrip(s[1..], rest);
      assert (s + rest)[1..] == s[1..] + rest;
      assert s[0] in s;
      assert [s[0]] + s[1..] == s;
    }
  }

  lemma FieldRoundTrip(s: string, rest: string)
    requires Ends(rest)
    ensures ReadField(EscapeField(s) + rest) == Some((s, rest))
  {
    if NeedsQuotes(s) {
      QuotedRoundTrip(s, rest);
      assert EscapeField(s) + rest == "\"" + (DoubleQuotes(s) + "\"" + rest);
    } else {
      PlainRoundTrip(s, rest);
      if s != "" {
        assert s[0] in s;
      }
    }
  }

  lemma LineSplits(fields: seq<string>)
    requires |fields| > 1
    ensures Line(fields) == EscapeField(fields[0]) + "," + Line(fields[1..])
  {
    var escaped := seq(|fields|, i requires 0 <= i < |fields| => EscapeField(fields[i]));
    var tail := fields[1..];
    assert escaped[1..] == seq(|tail|, i requires 0 <= i < |tail| => EscapeField(tail[i]));
  }

  lemma LineAndRestSplits(fields: seq<string>, rest: string)
    requires |fields| > 1
    ensures Line(fields) + rest == EscapeField(fields[0]) + ("," + (Line(fields[1..]) + rest))
  {
    LineSplits(fields);
  }

  lemma LastFieldRead(field: string, rest: string)
    requires rest == "" || rest[0] == '\n'
    ensures ReadRecord(EscapeField(field) + rest) == Some(([field], rest))
  {
    FieldRoundTrip(field, rest);
  }

  lemma FieldAndCommaRead(field: string, last: string, fields: seq<string>, rest: string)
    requires ReadRecord(last) == Some((fields, rest))
    ensures ReadRecord(EscapeField(field) + ("," + last)) == Some(([field] + fields, rest))
  {
    FieldRoundTrip(field, "," + last);
    assert ("," + last)[1..] == last;
  }

  lemma {:induction false} RecordRoundTrip(fields: seq<string>, rest: string)
    requires fields != []
    requires rest == "" || rest[0] == '\n'
    ensures ReadRecord(Line(fields) + rest) == Some((fields, rest))
    decreases |fields|
  {
    if |fields| == 1 {
      LastFieldRead(fields[0], rest);
      assert Line(fields) == EscapeField(fields[0]);
      assert fields == [fields[0]];
    } else {
      RecordRoundTrip(fields[1..], rest);
      FieldAndCommaRead(fields[0], Line(fields[1..]) + rest, fields[1..], rest);
      LineAndRestSplits(fields, rest);
      assert fields == [fields[0]] + fields[1..];
    }
  }

  lemma TextSplits(records: seq<seq<string>>)
    requires |records| > 1
    ensures Text(records) == Line(records[0]) + ("\n" + Text(records[1..]))
  {
    assert Lines(records)[1..] == Lines(records[1..]);
  }

  lemma {:induction false} FileRoundTrip(records: seq<seq<string>>)
    requires records != [] && forall i :: 0 <= i < |records| ==> records[i] != []
    ensures ReadFile(Text(records)) == Some(records)
    decreases |records|
  {
    if |records| == 1 {
      RecordRoundTrip(records[0], "");
      assert Line(records[0]) + "" == Line(records[0]);
      assert records == [records[0]];
    } else {
      FileRoundTrip(records[1..]);
      TextSplits(records);
      RecordRoundTrip(records[0], "\n" + Text(records[1..]));
      assert records == [records[0]] + records[1..];
    }
  }

  /** A line that is not empty is never mistaken for the end of the file, and an
      empty line is the record with one empty field. */
  lemma EmptyLine(fields: seq<string>)
    requires fields != []
    ensures Line(fields) == "" <==> fields == [""]
  {
    if |fields| > 1 {
      LineSplits(fields);
    } else {
      assert fields == [fields[0]];
    }
  }

  /** What a reader that accepts a final line feed makes of these records. */
  function WithoutBlankEnd(records: seq<seq<string>>): seq<seq<string>>
  {
    if |records| > 1 && records[|records| - 1] == [""] then records[..|records| - 1] else records
  }

  lemma BlankEndSplits(records: seq<seq<string>>)
    requires |records| > 1
    ensures WithoutBlankEnd(records)
         == if records[1..] == [[""]] then [records[0]] else [records[0]] + WithoutBlankEnd(records[1..])
  {
    assert records[1..] == [[""]] <==> |records| == 2 && records[1] == [""];
    assert records == [records[0]] + records[1..];
    assert records[1..][|records| - 2] == records[|records| - 1];
  }

  lemma {:induction false} EndedFileRoundTrip(records: seq<seq<string>>)
    requires records != [] && forall i :: 0 <= i < |records| ==> records[i] != []
    ensures ReadFileEnded(Text(records)) == Some(WithoutBlankEnd(records))
    decreases |records|
  {
    if |records| == 1 {
      RecordRoundTrip(records[0], "");
      assert Line(records[0]) + "" == Line(records[0]);
      assert records == [records[0]];
    } else {
      EndedFileRoundTrip(records[1..]);
      TextSplits(records);
      RecordRoundTrip(records[0], "\n" + Text(records[1..]));
      EmptyText(records[1..]);
      BlankEndSplits(records);
    }
  }

  lemma EmptyText(records: seq<seq<string>>)
    requires records != [] && forall i :: 0 <= i < |records| ==> records[i] != []
    ensures Text(records) == "" <==> records == [[""]]
  {
    EmptyLine(records[0]);
    if |records| == 1 {
      assert records == [records[0]];
    }
  }

  /** The records of an export: the header, and for each of the first 10,000 rows
      the value in each column, or nothing where there is none. */
  lemma TableIs(rows: seq<Row>, cols: seq<string>)
    ensures var records := Table(ExportedRows(rows), cols);
            && |records| == 1 + (if |rows| <= 10_000 then |rows| else 10_000) && records[0] == cols
            && (forall i :: 0 <= i < |records| ==> |records[i]| == |cols|)
            && forall i, j :: 1 <= i < |records| && 0 <= j < |cols| ==>
                 var cells := rows[i - 1].cells;
                 records[i][j] == if cols[j] in cells && cells[cols[j]].Some? then cells[cols[j]].value else ""
  {
  }

  /** What the reader sees of an export: the header and the first 10,000 rows.
      Without explicit columns the header is the keys of the first row. */
  lemma ExportIsRead(rows: seq<Row>, columns: Option<seq<string>>)
    requires rows != [] && Columns(rows, columns) != []
    ensures ReadFile(RowsToCsv(rows, columns)) == Some(Table(ExportedRows(rows), Columns(rows, columns)))
    ensures var cols := if columns.Some? then columns.value else rows[0].keys;
            var records := ReadFile(RowsToCsv(rows, columns)).value;
            && |records| == 1 + (if |rows| <= 10_000 then |rows| else 10_000) && records[0] == cols
            && forall i, j :: 1 <= i < |records| && 0 <= j < |cols| ==>
                 && |records[i]| == |cols|
                 && var cells := rows[i - 1].cells;
                    records[i][j] == if cols[j] in cells && cells[cols[j]].Some? then cells[cols[j]].value else ""
  {
    TableIs(rows, Columns(rows, columns));
    assert ExportedRows(rows)[0] == rows[0];
    hide Table, Text;
    FileRoundTrip(Table(ExportedRows(rows), Columns(rows, columns)));
  }

  /** A field is printed as it is when nothing in it needs quotes, and two fields
      with a comma between them. */
  lemma PlainFields(a: string, b: string)
    requires forall c :: c in a + b ==> c != ',' && c != '"' && c != '\n' && c != '\r'
    ensures Line([a]) == a && Line([a, b]) == a + "," + b
  {
    assert EscapeField(a) == a && EscapeField(b) == b by {
      assert forall c :: c in a || c in b ==> c in a + b;
    }
    var one := seq(1, i requires 0 <= i < 1 => EscapeField([a][i]));
    var two := seq(2, i requires 0 <= i < 2 => EscapeField([a, b][i]));
    assert one == [a] && two == [a, b];
    assert two[1..] == [b];
    assert Line([a]) == Join(one, ",") && Line([a, b]) == Join(two, ",");
    assert Join(two, ",") == two[0] + "," + Join(two[1..], ",");
  }

  /** An export reads back as exactly its column names and cells, up to 10,000
      rows.  It does not without any row, because then the header is lost too
      (unless the header is one empty name, which prints as nothing). */
  lemma ExportRoundTrip(rows: seq<Row>, cols: seq<string>)
    requires cols != []
    ensures ReadFile(RowsToCsv(rows, Some(cols))) == Some(Table(rows, cols))
        <==> |rows| <= MAX_EXPORT_ROWS && (rows != [] || cols == [""])
  {
    if rows == [] {
      assert ReadFile("") == Some([[""]]);
      assert Table(rows, cols) == [cols];
      assert [cols][0] == cols && [[""]][0] == [""];
    } else {
      ExportIsRead(rows, Some(cols));
    }
  }

  /** The variant reader recovers the same table exactly when the last record is
      not a single empty cell. */
  lemma EndedExportRoundTrip(rows: seq<Row>, cols: seq<string>)
    requires cols != [] && 0 < |rows| <= MAX_EXPORT_ROWS
    ensures ReadFileEnded(RowsToCsv(rows, Some(cols))) == Some(Table(rows, cols))
        <==> !(|cols| == 1 && CellText(rows[|rows| - 1], cols[0]) == "")
  {
    var table := Table(rows, cols);
    EndedFileRoundTrip(table);
    var last := table[|table| - 1];
    assert last == Cells(rows[|rows| - 1], cols);
    assert last == [""] <==> |cols| == 1 && last[0] == "";
  }
}
