/** The audit export: every cell quoted, rows on lines, a byte order mark in front. */
module CsvExport {
  import opened Options

  type Cell = string
  type Row = seq<Cell>

  const BOM := '\U{FEFF}'

  // ----- the encoder -----

  /** cell.replace(/"/g, '""') */
  function Escape(cell: Cell): string {
    if cell == "" then ""
    else (if cell[0] == '"' then "\"\"" else [cell[0]]) + Escape(cell[1..])
  }

  function Quote(cell: Cell): string {
    "\"" + Escape(cell) + "\""
  }

  function EncodeRow(row: Row): string {
    if row == [] then ""
    else if |row| == 1 then Quote(row[0])
    else Quote(row[0]) + "," + EncodeRow(row[1..])
  }

  function EncodeRows(rows: seq<Row>): string {
    if rows == [] then ""
    else if |rows| == 1 then EncodeRow(rows[0])
    else EncodeRow(rows[0]) + "\n" + EncodeRows(rows[1..])
  }

  function Encode(rows: seq<Row>): string {
    [BOM] + EncodeRows(rows)
  }

  // ----- the export of audit events -----

  datatype AuditEvent = AuditEvent(
    id: string, tenantId: string, userId: Option<string>, action: string, resource: string,
    resourceId: Option<string>, ipAddress: string, userAgent: string,
    previousState: Option<string>, newState: Option<string>, timestamp: string, severity: string)

  const HEADERS: Row := [
    "id", "tenantId", "userId", "action", "resource", "resourceId",
    "ipAddress", "userAgent", "previousState", "newState", "timestamp", "severity"]

  /** previousState and newState hold the JSON text of the value, if there is one. */
  function RowOf(e: AuditEvent): (r: Row)
    ensures |r| == |HEADERS|
  {
    [e.id, e.tenantId, e.userId.GetOr(""), e.action, e.resource, e.resourceId.GetOr(""),
     e.ipAddress, e.userAgent, e.previousState.GetOr(""), e.newState.GetOr(""), e.timestamp, e.severity]
  }

  function Matrix(events: seq<AuditEvent>): (r: seq<Row>)
    ensures |r| == |events| + 1 && r[0] == HEADERS
    ensures forall i :: 0 <= i < |events| ==> r[i + 1] == RowOf(events[i])
  {
    [HEADERS] + seq(|events|, i requires 0 <= i < |events| => RowOf(events[i]))
  }

  function Export(events: seq<AuditEvent>): string {
    Encode(Matrix(events))
  }

  // ----- a reader for RFC 4180 section 2, with line feeds between records -----

  datatype Mode =
    | FieldStart     // nothing of the field read yet
    | Bare           // inside a field that is not quoted
    | Quoted         // inside a quoted field
    | QuoteSeen      // a quote inside a quoted field: an escape or the end
    | Malformed

  /** Records finished, fields of the current record finished, and the current field. */
  datatype Reader = Reader(rows: seq<Row>, row: Row, field: Cell, mode: Mode) {
    function EndField(): Reader {
      Reader(rows, row + [field], "", FieldStart)
    }

    function EndRecord(): Reader {
      Reader(rows + [row + [field]], [], "", FieldStart)
    }

    function Take(c: char, m: Mode): Reader {
      Reader(rows, row, field + [c], m)
    }
  }

  function Read(r: Reader, c: char): Reader {
    match r.mode
    case FieldStart =>
      if c == '"' then r.(mode := Quoted)
      else if c == ',' then r.EndField()
      else if c == '\n' then r.EndRecord()
      else r.Take(c, Bare)
    case Bare =>
      if c == '"' then r.(mode := Malformed)
      else if c == ',' then r.EndField()
      else if c == '\n' then r.EndRecord()
      else r.Take(c, Bare)
    case Quoted =>
      if c == '"' then r.(mode := QuoteSeen) else r.Take(c, Quoted)
    case QuoteSeen =>
      if c == '"' then r.Take(c, Quoted)
      else if c == ',' then r.EndField()
      else if c == '\n' then r.EndRecord()
      else r.(mode := Malformed)
    case Malformed => r
  }

  function ReadAll(r: Reader, text: string): Reader
    decreases text
  {
    if text == "" then r else ReadAll(Read(r, text[0]), text[1..])
  }

  /** The text after the mark, unless it breaks off in a quoted field or is malformed. */
  function Decode(text: string): Option<seq<Row>> {
    if text == "" || text[0] != BOM then None
    else
      var r := ReadAll(Reader([], [], "", FieldStart), text[1..]);
      if r.mode == Quoted || r.mode == Malformed then None
      else Some(r.EndRecord().rows)
  }

  // ----- the round trip -----

  lemma {:induction false} ReadConcat(r: Reader, a: string, b: string)
    ensures ReadAll(r, a + b) == ReadAll(ReadAll(r, a), b)
    decreases a
  {
    if a == "" {
      assert a + b == b;
    } else {
      assert (a + b)[0] == a[0] && (a + b)[1..] == a[1..] + b;
      ReadConcat(Read(r, a[0]), a[1..], b);
    }
  }

  lemma ReadChar(r: Reader, c: char)
    ensures ReadAll(r, [c]) == Read(r, c)
  {
    assert [c][1..] == "";
  }

  /** Reading an escaped cell inside quotes takes exactly the cell. */
  lemma {:induction false} ReadEscaped(r: Reader, cell: Cell)
    requires r.mode == Quoted
    ensures ReadAll(r, Escape(cell)) == r.(field := r.field + cell)
    decreases cell
  {
    if cell == "" {
      assert r.field + cell == r.field;
    } else {
      var first := if cell[0] == '"' then "\"\"" else [cell[0]];
      var r' := r.Take(cell[0], Quoted);
      assert ReadAll(r, first) == r' by {
        if cell[0] == '"' {
          assert first == "\"" + "\"";
          ReadConcat(r, "\"", "\"");
          ReadChar(r, '"');
          ReadChar(Read(r, '"'), '"');
        } else {
          ReadChar(r, cell[0]);
        }
      }
      ReadConcat(r, first, Escape(cell[1..]));
      ReadEscaped(r', cell[1..]);
      assert r.field + [cell[0]] + cell[1..] == r.field + cell;
    }
  }

  lemma ReadQuoted(r: Reader, cell: Cell)
    requires r.mode == FieldStart && r.field == ""
    ensures ReadAll(r, Quote(cell)) == Reader(r.rows, r.row, cell, QuoteSeen)
  {
    ReadConcat(r, "\"" + Escape(cell), "\"");
    ReadConcat(r, "\"", Escape(cell));
    ReadChar(r, '"');
    var inside := r.(mode := Quoted);
    ReadEscaped(inside, cell);
    assert "" + cell == cell;
    ReadChar(inside.(field := cell), '"');
  }

  /** Reading a piece of text, a separator, and the rest. */
  lemma ReadAcross(r: Reader, piece: string, c: char, rest: string)
    ensures ReadAll(r, piece + [c] + rest) == ReadAll(Read(ReadAll(r, piece), c), rest)
  {
    ReadConcat(r, piece + [c], rest);
    ReadConcat(r, piece, [c]);
    ReadChar(ReadAll(r, piece), c);
  }

  lemma {:induction false} ReadRow(r: Reader, row: Row)
    requires r.mode == FieldStart && r.field == "" && row != []
    ensures ReadAll(r, EncodeRow(row)) == Reader(r.rows, r.row + row[..|row| - 1], row[|row| - 1], QuoteSeen)
    decreases row
  {
    ReadQuoted(r, row[0]);
    if |row| == 1 {
      assert r.row + row[..0] == r.row;
    } else {
      ReadAcross(r, Quote(row[0]), ',', EncodeRow(row[1..]));
      ReadRow(Reader(r.rows, r.row + [row[0]], "", FieldStart), row[1..]);
      assert r.row + [row[0]] + row[1..][..|row| - 2] == r.row + row[..|row| - 1];
    }
  }

  /** The last field completes the row. */
  lemma EndsRow(r: Reader, rows: seq<Row>, row: Row)
    requires row != [] && r == Reader(rows, row[..|row| - 1], row[|row| - 1], QuoteSeen)
    ensures r.EndRecord() == Reader(rows + [row], [], "", FieldStart)
  {
    assert row[..|row| - 1] + [row[|row| - 1]] == row;
  }

  lemma ReadWholeRow(r: Reader, row: Row)
    requires r.mode == FieldStart && r.field == "" && r.row == [] && row != []
    ensures ReadAll(r, EncodeRow(row)).mode == QuoteSeen
    ensures ReadAll(r, EncodeRow(row)).EndRecord() == Reader(r.rows + [row], [], "", FieldStart)
  {
    ReadRow(r, row);
    assert [] + row[..|row| - 1] == row[..|row| - 1];
    EndsRow(ReadAll(r, EncodeRow(row)), r.rows, row);
  }

  ghost predicate NoEmptyRow(rows: seq<Row>) {
    forall i :: 0 <= i < |rows| ==> rows[i] != []
  }

  lemma {:induction false} ReadRows(r: Reader, rows: seq<Row>)
    requires r.mode == FieldStart && r.field == "" && r.row == []
    requires rows != [] && NoEmptyRow(rows)
    ensures ReadAll(r, EncodeRows(rows)).mode == QuoteSeen
    ensures ReadAll(r, EncodeRows(rows)).EndRecord().rows == r.rows + rows
    decreases rows
  {
    ReadWholeRow(r, rows[0]);
    if |rows| == 1 {
      assert r.rows + [rows[0]] == r.rows + rows;
    } else {
      ReadAcross(r, EncodeRow(rows[0]), '\n', EncodeRows(rows[1..]));
      ReadRows(Reader(r.rows + [rows[0]], [], "", FieldStart), rows[1..]);
      assert r.rows + [rows[0]] + rows[1..] == r.rows + rows;
    }
  }

  /** Any table of non-empty rows is recovered, whatever quotes, commas and line ends its cells hold. */
  lemma RoundTrip(rows: seq<Row>)
    requires rows != [] && NoEmptyRow(rows)
    ensures Decode(Encode(rows)) == Some(rows)
  {
    assert Encode(rows)[1..] == EncodeRows(rows);
    ReadRows(Reader([], [], "", FieldStart), rows);
    assert [] + rows == rows;
  }

  lemma ExportRoundTrip(events: seq<AuditEvent>)
    ensures Decode(Export(events)) == Some(Matrix(events))
  {
    RoundTrip(Matrix(events));
  }

  // ----- the file by its header line -----

  /** What a column of the given name shows of an event; an absent value is an empty text. */
  function FieldNamed(e: AuditEvent, name: string): Option<string> {
    if name == "id" then Some(e.id)
    else if name == "tenantId" then Some(e.tenantId)
    else if name == "userId" then Some(match e.userId case None => "" case Some(u) => u)
    else if name == "action" then Some(e.action)
    else if name == "resource" then Some(e.resource)
    else if name == "resourceId" then Some(match e.resourceId case None => "" case Some(r) => r)
    else if name == "ipAddress" then Some(e.ipAddress)
    else if name == "userAgent" then Some(e.userAgent)
    else if name == "previousState" then Some(match e.previousState case None => "" case Some(s) => s)
    else if name == "newState" then Some(match e.newState case None => "" case Some(s) => s)
    else if name == "timestamp" then Some(e.timestamp)
    else if name == "severity" then Some(e.severity)
    else None
  }

  lemma CellUnderHeader(e: AuditEvent, j: nat)
    requires j < 12
    ensures |HEADERS| == 12 && |RowOf(e)| == 12 && FieldNamed(e, HEADERS[j]) == Some(RowOf(e)[j])
  {
  }

  /**
   * The file holds the header and then a line for each event, and under each name of the header the
   * line of an event shows the event's value of that name.
   */
  lemma ExportByHeader(events: seq<AuditEvent>)
    ensures Decode(Export(events)).Some?
    ensures var file := Decode(Export(events)).value;
      && |file| == |events| + 1
      && file[0] == ["id", "tenantId", "userId", "action", "resource", "resourceId",
                     "ipAddress", "userAgent", "previousState", "newState", "timestamp", "severity"]
      && forall i {:trigger events[i]} :: 0 <= i < |events| ==>
           && |file[i + 1]| == 12
           && forall j :: 0 <= j < 12 ==> FieldNamed(events[i], file[0][j]) == Some(file[i + 1][j])
  {
    ExportRoundTrip(events);
    var file := Matrix(events);
    forall i, j | 0 <= i < |events| && 0 <= j < 12
      ensures |file[i + 1]| == 12 && FieldNamed(events[i], file[0][j]) == Some(file[i + 1][j])
    {
      CellUnderHeader(events[i], j);
    }
  }

  // ----- the file as a text -----

  /** Texts one after another, with a separator between. */
  function Join(parts: seq<string>, separator: string): string {
    if parts == [] then ""
    else if |parts| == 1 then parts[0]
    else Join(parts[..|parts| - 1], separator) + separator + parts[|parts| - 1]
  }

  lemma {:induction false} JoinFront(parts: seq<string>, separator: string)
    requires |parts| > 1
    ensures Join(parts, separator) == parts[0] + separator + Join(parts[1..], separator)
  {
    var n := |parts| - 1;
    if n > 1 {
      JoinFront(parts[..n], separator);
      assert parts[..n][1..] == parts[1..][..n - 1];
      assert parts[1..][n - 1] == parts[n];
    } else {
      assert parts[..1] == [parts[0]] && parts[1..] == [parts[1]];
    }
  }

  /** The characters of a cell, each quote mark twice. */
  function Doubled(cell: Cell): seq<string> {
    seq(|cell|, i requires 0 <= i < |cell| => if cell[i] == '"' then "\"\"" else [cell[i]])
  }

  lemma {:induction false} EscapeIsDoubled(cell: Cell)
    ensures Escape(cell) == Join(Doubled(cell), "")
  {
    if cell != "" {
      EscapeIsDoubled(cell[1..]);
      assert Doubled(cell)[1..] == Doubled(cell[1..]);
      if |cell| > 1 {
        JoinFront(Doubled(cell), "");
      }
    }
  }

  /** Every cell in quote marks, its own ones doubled. */
  function QuotedCells(row: Row): seq<string> {
    seq(|row|, i requires 0 <= i < |row| => "\"" + Join(Doubled(row[i]), "") + "\"")
  }

  lemma {:induction false} RowIsJoined(row: Row)
    ensures EncodeRow(row) == Join(QuotedCells(row), ",")
  {
    if row != [] {
      EscapeIsDoubled(row[0]);
      RowIsJoined(row[1..]);
      assert QuotedCells(row)[1..] == QuotedCells(row[1..]);
      if |row| > 1 { JoinFront(QuotedCells(row), ","); }
    }
  }

  function Lines(rows: seq<Row>): seq<string> {
    seq(|rows|, i requires 0 <= i < |rows| => Join(QuotedCells(rows[i]), ","))
  }

  /** The text is the mark and the lines, each the quoted cells with commas between, line feeds between them. */
  lemma {:induction false} RowsAreJoined(rows: seq<Row>)
    ensures EncodeRows(rows) == Join(Lines(rows), "\n")
    ensures Encode(rows) == ['\U{FEFF}'] + Join(Lines(rows), "\n")
  {
    if rows != [] {
      RowIsJoined(rows[0]);
      RowsAreJoined(rows[1..]);
      assert Lines(rows)[1..] == Lines(rows[1..]);
      if |rows| > 1 { JoinFront(Lines(rows), "\n"); }
    }
  }

  // The file keeps everything about the events but one thing: an absent value reads as an empty one.

  function Blank(o: Option<string>): Option<string> {
    if o == Some("") then None else o
  }

  function Blanked(e: AuditEvent): AuditEvent {
    e.(userId := Blank(e.userId), resourceId := Blank(e.resourceId),
       previousState := Blank(e.previousState), newState := Blank(e.newState))
  }

  lemma BlankExact(a: Option<string>, b: Option<string>)
    ensures a.GetOr("") == b.GetOr("") <==> Blank(a) == Blank(b)
  {
  }

  lemma RowDeterminesEvent(a: AuditEvent, b: AuditEvent)
    ensures RowOf(a) == RowOf(b) <==> Blanked(a) == Blanked(b)
  {
    BlankExact(a.userId, b.userId);
    BlankExact(a.resourceId, b.resourceId);
    BlankExact(a.previousState, b.previousState);
    BlankExact(a.newState, b.newState);
    assert RowOf(a) == RowOf(b) <==> forall k :: 0 <= k < 12 ==> RowOf(a)[k] == RowOf(b)[k];
  }

  /** Two exports are the same file exactly if they list the same events, absent and empty values aside. */
  lemma ExportDeterminesEvents(a: seq<AuditEvent>, b: seq<AuditEvent>)
    ensures Export(a) == Export(b) <==>
            |a| == |b| && forall i :: 0 <= i < |a| ==> Blanked(a[i]) == Blanked(b[i])
  {
    ExportRoundTrip(a);
    ExportRoundTrip(b);
    if |a| == |b| {
      forall i | 0 <= i < |a|
        ensures Matrix(a)[i + 1] == Matrix(b)[i + 1] <==> Blanked(a[i]) == Blanked(b[i])
      {
        RowDeterminesEvent(a[i], b[i]);
      }
      if forall i :: 0 <= i < |a| ==> Blanked(a[i]) == Blanked(b[i]) {
        assert Matrix(a) == Matrix(b);
      }
    } else {
      assert |Matrix(a)| != |Matrix(b)|;
    }
  }
}
