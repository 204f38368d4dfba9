/** The camera batch CSV parser: a character-level scanner (section 2 of RFC 4180, with CR, LF and CRLF
    row ends), and a printer it inverts, whose cells are quoted or bare. */
module CsvRecords {
  import opened Wrappers

  datatype RawRow = RawRow(line: nat, cells: seq<string>)

  datatype CsvRecord = CsvRecord(line: nat, values: map<string, string>)

  datatype ParsedCsv = ParsedCsv(headers: seq<string>, rows: seq<CsvRecord>)

  datatype CsvError = Empty | UnterminatedQuote(line: nat) | DuplicateHeader(line: nat) | TooManyRows

  // ----- white space -----

  predicate IsSpace(c: char) {
    || '\U{0009}' <= c <= '\U{000D}' || c == ' ' || c == '\U{00A0}' || c == '\U{1680}'
    || '\U{2000}' <= c <= '\U{200A}' || c == '\U{2028}' || c == '\U{2029}' || c == '\U{202F}'
    || c == '\U{205F}' || c == '\U{3000}' || c == '\U{FEFF}'
  }

  function TrimStart(s: string): string {
    if s != "" && IsSpace(s[0]) then TrimStart(s[1..]) else s
  }

  function TrimEnd(s: string): string {
    if s != "" && IsSpace(s[|s| - 1]) then TrimEnd(s[..|s| - 1]) else s
  }

  function Trim(s: string): string {
    TrimEnd(TrimStart(s))
  }

  predicate IsBlankRow(cells: seq<string>) {
    forall i :: 0 <= i < |cells| ==> Trim(cells[i]) == ""
  }

  // ----- the scanner -----

  datatype Scanner = Scanner(rows: seq<RawRow>, cells: seq<string>, cell: string, quoted: bool, line: nat, rowLine: nat)

  const FRESH := Scanner([], [], "", false, 1, 1)

  function PushRow(s: Scanner): Scanner {
    var cells := s.cells + [s.cell];
    s.(rows := if IsBlankRow(cells) then s.rows else s.rows + [RawRow(s.rowLine, cells)],
       cells := [], cell := "", rowLine := s.line)
  }

  /** Reads one character, or two for a doubled quote and for CRLF. */
  function Read(s: Scanner, rest: string): (r: (Scanner, string))
    requires rest != ""
    ensures |r.1| < |rest|
  {
    var c, next := rest[0], if |rest| > 1 then Some(rest[1]) else None;
    if s.quoted then
      if c == '"' then
        if next == Some('"') then (s.(cell := s.cell + "\""), rest[2..]) else (s.(quoted := false), rest[1..])
      else (s.(cell := s.cell + [c], line := if c == '\n' then s.line + 1 else s.line), rest[1..])
    else if c == '"' && s.cell == "" then (s.(quoted := true), rest[1..])
    else if c == ',' then (s.(cells := s.cells + [s.cell], cell := ""), rest[1..])
    else if c == '\n' || c == '\r' then
      (PushRow(s.(line := s.line + 1)), if c == '\r' && next == Some('\n') then rest[2..] else rest[1..])
    else (s.(cell := s.cell + [c]), rest[1..])
  }

  function Scan(s: Scanner, rest: string): Scanner
    decreases |rest|
  {
    if rest == "" then s
    else
      var (s', rest') := Read(s, rest);
      Scan(s', rest')
  }

  /** The last row needs no row end. */
  function FinishScan(s: Scanner): Scanner {
    if s.cell != "" || s.cells != [] then PushRow(s) else s
  }

  // ----- the records -----

  function WithoutBom(input: string): string {
    if input != "" && input[0] == '\U{FEFF}' then input[1..] else input
  }

  function Normalized(cells: seq<string>, lower: string -> string): seq<string> {
    seq(|cells|, i requires 0 <= i < |cells| => lower(Trim(cells[i])))
  }

  predicate HasDuplicate(headers: seq<string>) {
    exists i, j :: 0 <= i < j < |headers| && headers[i] != "" && headers[i] == headers[j]
  }

  /** Object.fromEntries: a later entry of the same header overwrites an earlier one. */
  function Values(headers: seq<string>, cells: seq<string>): map<string, string> {
    if headers == [] then map[]
    else
      var n := |headers| - 1;
      Values(headers[..n], cells)[headers[n] := if n < |cells| then cells[n] else ""]
  }

  function Records(headers: seq<string>, rows: seq<RawRow>): seq<CsvRecord> {
    seq(|rows|, i requires 0 <= i < |rows| => CsvRecord(rows[i].line, Values(headers, rows[i].cells)))
  }

  function FromRows(rows: seq<RawRow>, maxRows: int, lower: string -> string): Result<ParsedCsv, CsvError> {
    if rows == [] then Failure(Empty)
    else
      var headers := Normalized(rows[0].cells, lower);
      if HasDuplicate(headers) then Failure(DuplicateHeader(rows[0].line))
      else if |rows| - 1 > maxRows then Failure(TooManyRows)
      else Success(ParsedCsv(headers, Records(headers, rows[1..])))
  }

  function Parsed(input: string, maxRows: int, lower: string -> string): Result<ParsedCsv, CsvError> {
    var text := WithoutBom(input);
    if Trim(text) == "" then Failure(Empty)
    else
      var s := Scan(FRESH, text);
      if s.quoted then Failure(UnterminatedQuote(s.rowLine))
      else FromRows(FinishScan(s).rows, maxRows, lower)
  }

  // ----- the program -----

  method HeadersRepeat(headers: seq<string>) returns (repeated: bool)
    ensures repeated <==> HasDuplicate(headers)
  {
    var seen := {};
    for i := 0 to |headers|
      invariant seen == set j | 0 <= j < i && headers[j] != "" :: headers[j]
      invariant !HasDuplicate(headers[..i])
    {
      if headers[i] != "" && headers[i] in seen {
        var j :| 0 <= j < i && headers[j] == headers[i];
        return true;
      }
      if headers[i] != "" {
        seen := seen + {headers[i]};
      }
    }
    assert headers[..|headers|] == headers;
    return false;
  }

  /** The index loop of the source, one character ahead where it skips. */
  method ScanText(text: string) returns (s: Scanner)
    ensures s == Scan(FRESH, text)
  {
    var rows: seq<RawRow>, cells: seq<string>, cell, quoted, line, rowLine := [], [], "", false, 1, 1;
    var index := 0;
    while index < |text|
      invariant 0 <= index <= |text|
      invariant Scan(FRESH, text) == Scan(Scanner(rows, cells, cell, quoted, line, rowLine), text[index..])
      decreases |text| - index
    {
      ghost var before, rest := Scanner(rows, cells, cell, quoted, line, rowLine), text[index..];
      var c := text[index];
      assert rest[1..] == text[index + 1..];
      assert |rest| > 1 ==> rest[1] == text[index + 1] && rest[2..] == text[index + 2..];
      if quoted {
        if c == '"' {
          if index + 1 < |text| && text[index + 1] == '"' {
            cell := cell + "\"";
            index := index + 1;
          } else {
            quoted := false;
          }
        } else {
          cell := cell + [c];
          if c == '\n' {
            line := line + 1;
          }
        }
      } else if c == '"' && |cell| == 0 {
        quoted := true;
      } else if c == ',' {
        cells := cells + [cell];
        cell := "";
      } else if c == '\n' || c == '\r' {
        if c == '\r' && index + 1 < |text| && text[index + 1] == '\n' {
          index := index + 1;
        }
        line := line + 1;
        cells := cells + [cell];
        cell := "";
        if !IsBlankRow(cells) {
          rows := rows + [RawRow(rowLine, cells)];
        }
        cells := [];
        rowLine := line;
      } else {
        cell := cell + [c];
      }
      index := index + 1;
      assert Read(before, rest) == (Scanner(rows, cells, cell, quoted, line, rowLine), text[index..]);
    }
    return Scanner(rows, cells, cell, quoted, line, rowLine);
  }

  method ParseCsvRecords(input: string, maxRows: int, lower: string -> string)
      returns (result: Result<ParsedCsv, CsvError>)
    ensures result == Parsed(input, maxRows, lower)
  {
    var text := WithoutBom(input);
    if Trim(text) == "" {
      return Failure(Empty);
    }
    var s := ScanText(text);
    if s.quoted {
      return Failure(UnterminatedQuote(s.rowLine));
    }
    var rows := s.rows;
    if |s.cell| > 0 || |s.cells| > 0 {
      var cells := s.cells + [s.cell];
      if !IsBlankRow(cells) {
        rows := rows + [RawRow(s.rowLine, cells)];
      }
    }
    if rows == [] {
      return Failure(Empty);
    }
    var headers := Normalized(rows[0].cells, lower);
    var repeated := HeadersRepeat(headers);
    if repeated {
      return Failure(DuplicateHeader(rows[0].line));
    }
    if |rows[1..]| > maxRows {
      return Failure(TooManyRows);
    }
    return Success(ParsedCsv(headers, Records(headers, rows[1..])));
  }

  // ----- the printer -----

  datatype RowEnd = Lf | CrLf | Cr {
    function Text(): string {
      match this
      case Lf => "\n"
      case CrLf => "\r\n"
      case Cr => "\r"
    }
  }

  /** A cell printed bare, or quoted and followed by a bare rest. */
  datatype Printed = Bare(text: string) | Wrapped(inside: string, rest: string) {
    function Content(): string {
      if Bare? then text else inside + rest
    }
  }

  function ContentsOf(cells: seq<Printed>): seq<string> {
    seq(|cells|, i requires 0 <= i < |cells| => cells[i].Content())
  }

  datatype PrintedRow = PrintedRow(cells: seq<Printed>, rowEnd: RowEnd) {
    function Contents(): seq<string> { ContentsOf(cells) }
  }

  predicate NoSeparators(text: string) {
    forall i :: 0 <= i < |text| ==> text[i] != ',' && text[i] != '\n' && text[i] != '\r'
  }

  /** What may stand outside quotes: no separator, and no quote at its beginning, which would open a cell. */
  predicate Plain(text: string) {
    (text != "" ==> text[0] != '"') && NoSeparators(text)
  }

  predicate PrintableCell(cell: Printed) {
    if cell.Bare? then Plain(cell.text) else Plain(cell.rest)
  }

  function Escaped(cell: string): string {
    if cell == "" then "" else (if cell[0] == '"' then "\"\"" else [cell[0]]) + Escaped(cell[1..])
  }

  function Quoted(cell: string): string {
    "\"" + Escaped(cell) + "\""
  }

  function CellText(cell: Printed): string {
    if cell.Bare? then cell.text else Quoted(cell.inside) + cell.rest
  }

  function PrintCells(cells: seq<Printed>): string
    requires cells != []
  {
    if |cells| == 1 then CellText(cells[0]) else CellText(cells[0]) + "," + PrintCells(cells[1..])
  }

  predicate Printable(table: seq<PrintedRow>) {
    forall i :: 0 <= i < |table| ==>
      table[i].cells != [] && forall k :: 0 <= k < |table[i].cells| ==> PrintableCell(table[i].cells[k])
  }

  /** A row that is one empty bare cell and ends in LF would make CRLF of a CR before it. */
  predicate Unambiguous(table: seq<PrintedRow>, terminated: bool) {
    forall i :: 0 < i < |table| && table[i - 1].rowEnd == Cr && table[i].cells == [Bare("")] && table[i].rowEnd == Lf
                ==> i == |table| - 1 && !terminated
  }

  function EndText(row: PrintedRow, ended: bool): string {
    if ended then row.rowEnd.Text() else ""
  }

  /** The last row end is optional. */
  function Print(table: seq<PrintedRow>, terminated: bool): string
    requires Printable(table)
  {
    if table == [] then ""
    else
      PrintCells(table[0].cells) + EndText(table[0], |table| > 1 || terminated) + Print(table[1..], terminated)
  }

  /** Line breaks the scanner counts inside a cell. */
  function LineFeeds(cell: string): nat {
    if cell == "" then 0 else (if cell[0] == '\n' then 1 else 0) + LineFeeds(cell[1..])
  }

  function RowLineFeeds(cells: seq<string>): nat {
    if cells == [] then 0 else LineFeeds(cells[0]) + RowLineFeeds(cells[1..])
  }

  /** What the cells of a table hold. */
  function Cells(table: seq<PrintedRow>): seq<seq<string>> {
    seq(|table|, i requires 0 <= i < |table| => table[i].Contents())
  }

  predicate AllSpace(s: string) {
    forall i :: 0 <= i < |s| ==> IsSpace(s[i])
  }

  /** Every cell holds white space at most. */
  predicate AllBlank(cells: seq<string>) {
    forall k :: 0 <= k < |cells| ==> AllSpace(cells[k])
  }

  /** The rows the parser is to see when the table starts on the given line. */
  function RowsFrom(rows: seq<seq<string>>, line: nat): seq<RawRow> {
    if rows == [] then []
    else
      (if AllBlank(rows[0]) then [] else [RawRow(line, rows[0])])
      + RowsFrom(rows[1..], line + RowLineFeeds(rows[0]) + 1)
  }

  lemma {:induction false} CellsCons(table: seq<PrintedRow>)
    requires table != []
    ensures Cells(table)[0] == table[0].Contents() && Cells(table)[1..] == Cells(table[1..])
  {}

  // ----- blank text -----


  lemma {:induction false} AllSpaceAppend(a: string, b: string)
    ensures AllSpace(a + b) <==> AllSpace(a) && AllSpace(b)
  {
    assert forall i :: 0 <= i < |a| ==> (a + b)[i] == a[i];
    assert forall i :: 0 <= i < |b| ==> (a + b)[|a| + i] == b[i];
  }

  lemma {:induction false} TrimStartBlank(s: string)
    ensures TrimStart(s) == "" <==> AllSpace(s)
    ensures TrimStart(s) != "" ==> !IsSpace(TrimStart(s)[0])
  {
    if s != "" {
      AllSpaceAppend([s[0]], s[1..]);
      assert s == [s[0]] + s[1..];
      TrimStartBlank(s[1..]);
    }
  }

  lemma {:induction false} TrimEndBlank(s: string)
    ensures TrimEnd(s) == "" <==> AllSpace(s)
    ensures TrimEnd(s) != "" ==> !IsSpace(TrimEnd(s)[|TrimEnd(s)| - 1])
    ensures TrimEnd(s) <= s
  {
    if s != "" {
      AllSpaceAppend(s[..|s| - 1], [s[|s| - 1]]);
      assert s == s[..|s| - 1] + [s[|s| - 1]];
      TrimEndBlank(s[..|s| - 1]);
    }
  }

  /** Trimming leaves nothing exactly of white space, and otherwise neither begins nor ends with any. */
  lemma {:induction false} TrimIsExact(s: string)
    ensures Trim(s) == "" <==> AllSpace(s)
    ensures Trim(s) != "" ==> !IsSpace(Trim(s)[0]) && !IsSpace(Trim(s)[|Trim(s)| - 1])
  {
    TrimStartBlank(s);
    TrimEndBlank(TrimStart(s));
  }

  lemma {:induction false} TrimStartDrops(s: string) returns (dropped: string)
    ensures s == dropped + TrimStart(s) && AllSpace(dropped)
  {
    if s != "" && IsSpace(s[0]) {
      dropped := TrimStartDrops(s[1..]);
      dropped := [s[0]] + dropped;
    } else {
      dropped := "";
    }
  }

  lemma {:induction false} TrimEndDrops(s: string) returns (dropped: string)
    ensures s == TrimEnd(s) + dropped && AllSpace(dropped)
  {
    if s != "" && IsSpace(s[|s| - 1]) {
      dropped := TrimEndDrops(s[..|s| - 1]);
      dropped := dropped + [s[|s| - 1]];
    } else {
      dropped := "";
    }
  }

  /** Trimming drops only white space, and only at the ends. */
  lemma {:induction false} TrimDropsSpace(s: string) returns (before: string, after: string)
    ensures s == before + Trim(s) + after && AllSpace(before) && AllSpace(after)
  {
    before := TrimStartDrops(s);
    after := TrimEndDrops(TrimStart(s));
  }

  lemma {:induction false} WrappedStarts(cell: Printed)
    requires cell.Wrapped?
    ensures CellText(cell) != "" && CellText(cell)[0] == '"' && !AllSpace(CellText(cell))
  {}

  /** Blank text holds no quote, so that its cells are bare. */
  lemma {:induction false} BlankCell(cell: Printed)
    requires AllSpace(CellText(cell))
    ensures AllSpace(cell.Content())
  {
    if cell.Wrapped? {
      WrappedStarts(cell);
    }
  }

  lemma {:induction false} BlankParts(a: string, b: string, c: string)
    requires AllSpace(a + b + c)
    ensures AllSpace(a) && AllSpace(c)
  {
    AllSpaceAppend(a + b, c);
    AllSpaceAppend(a, b);
  }

  lemma {:induction false} BlankCells(cells: seq<Printed>, k: nat)
    requires k < |cells| && AllSpace(PrintCells(cells))
    ensures AllSpace(cells[k].Content())
  {
    if |cells| > 1 {
      BlankParts(CellText(cells[0]), ",", PrintCells(cells[1..]));
    }
    if k == 0 {
      BlankCell(cells[0]);
    } else {
      BlankCells(cells[1..], k - 1);
    }
  }

  lemma {:induction false} BlankRow(row: PrintedRow)
    requires row.cells != [] && AllSpace(PrintCells(row.cells))
    ensures AllBlank(row.Contents())
  {
    forall k | 0 <= k < |row.cells| ensures AllSpace(row.Contents()[k]) {
      BlankCells(row.cells, k);
    }
  }

  /** A table whose text is blank has only blank rows. */
  lemma {:induction false} BlankTable(table: seq<PrintedRow>, terminated: bool, line: nat)
    requires Printable(table) && AllSpace(Print(table, terminated))
    ensures RowsFrom(Cells(table), line) == []
    decreases |table|
  {
    if table != [] {
      BlankParts(PrintCells(table[0].cells), EndText(table[0], |table| > 1 || terminated),
        Print(table[1..], terminated));
      BlankRow(table[0]);
      CellsCons(table);
      BlankTable(table[1..], terminated, line + RowLineFeeds(table[0].Contents()) + 1);
    }
  }

  // ----- parsing undoes printing -----

  predicate NoQuoteAhead(rest: string) {
    rest != "" ==> rest[0] != '"'
  }

  lemma {:induction false} ScanReads(s: Scanner, head: string, rest: string, next: Scanner)
    requires head != "" && Read(s, head + rest).0 == next && |Read(s, head + rest).1| == |rest|
    ensures Scan(s, head + rest) == Scan(next, rest)
  {
    assert (head + rest)[|head|..] == rest;
  }

  lemma {:induction false} ReadInside(s: Scanner, c: char, rest: string)
    requires s.quoted
    ensures c != '"' ==>
              Scan(s, [c] + rest) == Scan(s.(cell := s.cell + [c], line := s.line + LineFeeds([c])), rest)
  {
    if c != '"' {
      ScanReads(s, [c], rest, s.(cell := s.cell + [c], line := if c == '\n' then s.line + 1 else s.line));
    }
    ScanReads(s, "\"\"", rest, s.(cell := s.cell + "\""));
  }

  lemma {:induction false} ReadQuote(s: Scanner, rest: string)
    requires if s.quoted then NoQuoteAhead(rest) else s.cell == ""
    ensures Scan(s, "\"" + rest) == Scan(s.(quoted := !s.quoted), rest)
  {
    ScanReads(s, "\"", rest, s.(quoted := !s.quoted));
  }

  lemma {:induction false} ReadComma(s: Scanner, rest: string)
    requires !s.quoted
    ensures Scan(s, "," + rest) == Scan(s.(cells := s.cells + [s.cell], cell := ""), rest)
  {
    ScanReads(s, ",", rest, s.(cells := s.cells + [s.cell], cell := ""));
  }

  lemma {:induction false} ReadRowEnd(s: Scanner, rowEnd: RowEnd, rest: string)
    requires !s.quoted && (rowEnd == Cr ==> rest == "" || rest[0] != '\n')
    ensures Scan(s, rowEnd.Text() + rest) == Scan(PushRow(s.(line := s.line + 1)), rest)
  {
    ScanReads(s, rowEnd.Text(), rest, PushRow(s.(line := s.line + 1)));
  }

  lemma {:induction false} EscapedCons(read: string, cell: string, rest: string)
    requires cell != ""
    ensures read + [cell[0]] + cell[1..] == read + cell
    ensures Escaped(cell) + rest == (if cell[0] == '"' then "\"\"" else [cell[0]]) + (Escaped(cell[1..]) + rest)
  {}

  /** Inside quotes, up to the closing quote or the end of the text. */
  lemma {:induction false} ScanEscaped(s: Scanner, cell: string, rest: string)
    requires s.quoted
    ensures Scan(s, Escaped(cell) + rest) == Scan(s.(cell := s.cell + cell, line := s.line + LineFeeds(cell)), rest)
    decreases |cell|
  {
    if cell == "" {
      assert Escaped(cell) + rest == rest && s.cell + cell == s.cell;
    } else {
      EscapedCons(s.cell, cell, rest);
      ReadInside(s, cell[0], Escaped(cell[1..]) + rest);
      var after := s.(cell := s.cell + [cell[0]], line := s.line + LineFeeds([cell[0]]));
      ScanEscaped(after, cell[1..], rest);
    }
  }

  lemma {:induction false} OpenedCell(s: Scanner, cell: string, closing: string)
    requires !s.quoted && s.cell == ""
    ensures Scan(s, "\"" + (Escaped(cell) + closing))
         == Scan(s.(quoted := true, cell := cell, line := s.line + LineFeeds(cell)), closing)
  {
    ReadQuote(s, Escaped(cell) + closing);
    ScanEscaped(s.(quoted := true), cell, closing);
    assert "" + cell == cell;
  }

  lemma {:induction false} ScanQuoted(s: Scanner, cell: string, rest: string)
    requires !s.quoted && s.cell == "" && NoQuoteAhead(rest)
    ensures Scan(s, Quoted(cell) + rest) == Scan(s.(cell := cell, line := s.line + LineFeeds(cell)), rest)
  {
    assert Quoted(cell) + rest == "\"" + (Escaped(cell) + ("\"" + rest));
    OpenedCell(s, cell, "\"" + rest);
    ReadQuote(s.(quoted := true, cell := cell, line := s.line + LineFeeds(cell)), rest);
  }

  lemma {:induction false} ReadPlain(s: Scanner, c: char, rest: string)
    requires !s.quoted && c != ',' && c != '\n' && c != '\r' && (c == '"' ==> s.cell != "")
    ensures Scan(s, [c] + rest) == Scan(s.(cell := s.cell + [c]), rest)
  {
    ScanReads(s, [c], rest, s.(cell := s.cell + [c]));
  }

  /** Outside quotes every character but a separator is taken as it is. */
  lemma {:induction false} ScanPlain(s: Scanner, text: string, rest: string)
    requires !s.quoted && NoSeparators(text) && (text != "" && text[0] == '"' ==> s.cell != "")
    ensures Scan(s, text + rest) == Scan(s.(cell := s.cell + text), rest)
    decreases |text|
  {
    if text == "" {
      assert text + rest == rest && s.cell + text == s.cell;
    } else {
      assert text + rest == [text[0]] + (text[1..] + rest);
      assert s.cell + [text[0]] + text[1..] == s.cell + text;
      ReadPlain(s, text[0], text[1..] + rest);
      ScanPlain(s.(cell := s.cell + [text[0]]), text[1..], rest);
    }
  }

  lemma {:induction false} PlainHasNoLines(text: string)
    requires NoSeparators(text)
    ensures LineFeeds(text) == 0
  {
    if text != "" {
      PlainHasNoLines(text[1..]);
    }
  }

  lemma {:induction false} LineFeedsAppend(a: string, b: string)
    ensures LineFeeds(a + b) == LineFeeds(a) + LineFeeds(b)
  {
    if a == "" {
      assert a + b == b;
    } else {
      assert (a + b)[1..] == a[1..] + b;
      LineFeedsAppend(a[1..], b);
    }
  }

  lemma {:induction false} ScanBare(s: Scanner, text: string, rest: string)
    requires !s.quoted && s.cell == "" && Plain(text)
    ensures Scan(s, text + rest) == Scan(s.(cell := text, line := s.line + LineFeeds(text)), rest)
  {
    PlainHasNoLines(text);
    ScanPlain(s, text, rest);
    assert "" + text == text;
  }

  lemma {:induction false} WrappedLines(inside: string, after: string)
    requires NoSeparators(after)
    ensures LineFeeds(inside + after) == LineFeeds(inside)
  {
    PlainHasNoLines(after);
    LineFeedsAppend(inside, after);
  }

  lemma {:induction false} PlainGoesOn(after: string, rest: string)
    requires Plain(after) && NoQuoteAhead(rest)
    ensures NoQuoteAhead(after + rest)
  {
    if after == "" {
      assert after + rest == rest;
    }
  }

  lemma {:induction false} ScanWrapped(s: Scanner, inside: string, after: string, rest: string)
    requires !s.quoted && s.cell == "" && Plain(after) && NoQuoteAhead(rest)
    ensures Scan(s, Quoted(inside) + (after + rest))
         == Scan(s.(cell := inside + after, line := s.line + LineFeeds(inside)), rest)
  {
    PlainGoesOn(after, rest);
    ScanQuoted(s, inside, after + rest);
    ScanPlain(s.(cell := inside, line := s.line + LineFeeds(inside)), after, rest);
  }

  lemma {:induction false} ScanCell(s: Scanner, cell: Printed, rest: string)
    requires !s.quoted && s.cell == "" && PrintableCell(cell) && NoQuoteAhead(rest)
    ensures Scan(s, CellText(cell) + rest)
         == Scan(s.(cell := cell.Content(), line := s.line + LineFeeds(cell.Content())), rest)
  {
    if cell.Bare? {
      ScanBare(s, cell.text, rest);
    } else {
      assert CellText(cell) + rest == Quoted(cell.inside) + (cell.rest + rest);
      WrappedLines(cell.inside, cell.rest);
      ScanWrapped(s, cell.inside, cell.rest, rest);
    }
  }

  /** The scanner at the end of a row's last cell. */
  function AfterCells(s: Scanner, cells: seq<string>): Scanner
    requires cells != []
  {
    s.(cells := s.cells + cells[..|cells| - 1], cell := cells[|cells| - 1], line := s.line + RowLineFeeds(cells))
  }

  function AfterCell(s: Scanner, content: string): Scanner {
    s.(cells := s.cells + [content], cell := "", line := s.line + LineFeeds(content))
  }

  lemma {:induction false} AfterCellsCons(s: Scanner, cells: seq<string>)
    requires |cells| > 1
    ensures AfterCells(AfterCell(s, cells[0]), cells[1..]) == AfterCells(s, cells)
  {
    assert s.cells + [cells[0]] + cells[1..][..|cells| - 2] == s.cells + cells[..|cells| - 1];
  }

  lemma {:induction false} PrintCellsCons(cells: seq<Printed>, rest: string)
    requires |cells| > 1
    ensures PrintCells(cells) + rest == CellText(cells[0]) + ("," + (PrintCells(cells[1..]) + rest))
  {}

  lemma {:induction false} ScanCellAndComma(s: Scanner, cell: Printed, rest: string)
    requires !s.quoted && s.cell == "" && PrintableCell(cell)
    ensures Scan(s, CellText(cell) + ("," + rest))
         == Scan(AfterCell(s, cell.Content()), rest)
  {
    ScanCell(s, cell, "," + rest);
    ReadComma(s.(cell := cell.Content(), line := s.line + LineFeeds(cell.Content())), rest);
  }

  lemma {:induction false} ScanLastCell(s: Scanner, cell: Printed, rest: string)
    requires !s.quoted && s.cell == "" && PrintableCell(cell) && NoQuoteAhead(rest)
    ensures Scan(s, PrintCells([cell]) + rest) == Scan(AfterCells(s, [cell.Content()]), rest)
  {
    var contents := [cell.Content()];
    assert contents[1..] == [] && s.cells + contents[..0] == s.cells && RowLineFeeds(contents[1..]) == 0;
    ScanCell(s, cell, rest);
  }

  lemma {:induction false} ScanFirstCell(s: Scanner, cells: seq<Printed>, rest: string)
    requires !s.quoted && s.cell == "" && |cells| > 1 && PrintableCell(cells[0])
    ensures Scan(s, PrintCells(cells) + rest)
         == Scan(AfterCell(s, cells[0].Content()), PrintCells(cells[1..]) + rest)
  {
    PrintCellsCons(cells, rest);
    ScanCellAndComma(s, cells[0], PrintCells(cells[1..]) + rest);
  }

  lemma {:induction false} CellsGoOn(s: Scanner, cells: seq<Printed>)
    requires |cells| > 1
    ensures AfterCells(AfterCell(s, cells[0].Content()), ContentsOf(cells[1..])) == AfterCells(s, ContentsOf(cells))
  {
    var contents := ContentsOf(cells);
    AfterCellsCons(s, contents);
    assert contents[0] == cells[0].Content() && contents[1..] == ContentsOf(cells[1..]);
  }

  lemma {:induction false} ScanCells(s: Scanner, cells: seq<Printed>, rest: string)
    requires !s.quoted && s.cell == "" && cells != [] && NoQuoteAhead(rest)
    requires forall k :: 0 <= k < |cells| ==> PrintableCell(cells[k])
    ensures Scan(s, PrintCells(cells) + rest) == Scan(AfterCells(s, ContentsOf(cells)), rest)
    decreases |cells|
  {
    if |cells| == 1 {
      assert cells == [cells[0]] && ContentsOf(cells) == [cells[0].Content()];
      ScanLastCell(s, cells[0], rest);
    } else {
      ScanFirstCell(s, cells, rest);
      CellsGoOn(s, cells);
      ScanCells(AfterCell(s, cells[0].Content()), cells[1..], rest);
    }
  }

  /** Between rows nothing is pending. */
  predicate AtRowStart(s: Scanner) {
    s.cells == [] && s.cell == "" && !s.quoted && s.rowLine == s.line
  }

  function AfterRow(s: Scanner, cells: seq<string>): Scanner {
    var line := s.line + RowLineFeeds(cells) + 1;
    Scanner(if IsBlankRow(cells) then s.rows else s.rows + [RawRow(s.line, cells)], [], "", false, line, line)
  }

  lemma {:induction false} PushAfterCells(s: Scanner, cells: seq<string>)
    requires AtRowStart(s) && cells != []
    ensures !AfterCells(s, cells).quoted
    ensures PushRow(AfterCells(s, cells).(line := AfterCells(s, cells).line + 1)) == AfterRow(s, cells)
  {
    assert AfterCells(s, cells).cells + [AfterCells(s, cells).cell] == cells;
  }

  lemma {:induction false} ScanEndOfRow(s: Scanner, cells: seq<string>, rowEnd: RowEnd, rest: string)
    requires AtRowStart(s) && cells != [] && (rowEnd == Cr ==> rest == "" || rest[0] != '\n')
    ensures Scan(AfterCells(s, cells), rowEnd.Text() + rest) == Scan(AfterRow(s, cells), rest)
  {
    PushAfterCells(s, cells);
    ReadRowEnd(AfterCells(s, cells), rowEnd, rest);
  }

  lemma {:induction false} ScanRow(s: Scanner, row: PrintedRow, rest: string)
    requires AtRowStart(s) && row.cells != [] && forall k :: 0 <= k < |row.cells| ==> PrintableCell(row.cells[k])
    requires row.rowEnd == Cr ==> rest == "" || rest[0] != '\n'
    ensures Scan(s, PrintCells(row.cells) + (row.rowEnd.Text() + rest)) == Scan(AfterRow(s, row.Contents()), rest)
  {
    ScanCells(s, row.cells, row.rowEnd.Text() + rest);
    ScanEndOfRow(s, row.Contents(), row.rowEnd, rest);
  }

  /** A last row without a row end is pushed at the end, or is a lone empty cell and would be dropped. */
  lemma {:induction false} FinishAfterCells(s: Scanner, cells: seq<string>)
    requires AtRowStart(s) && cells != []
    ensures FinishScan(AfterCells(s, cells)).rows == AfterRow(s, cells).rows
  {
    var full := AfterCells(s, cells);
    assert full.cells + [full.cell] == cells;
    if full.cell == "" && full.cells == [] {
      assert cells == [""] && IsBlankRow(cells);
    }
  }

  lemma {:induction false} FinishLastRow(s: Scanner, row: PrintedRow)
    requires AtRowStart(s) && row.cells != [] && forall k :: 0 <= k < |row.cells| ==> PrintableCell(row.cells[k])
    ensures var last := Scan(s, PrintCells(row.cells));
            !last.quoted && FinishScan(last).rows == AfterRow(s, row.Contents()).rows
  {
    assert PrintCells(row.cells) + "" == PrintCells(row.cells);
    ScanCells(s, row.cells, "");
    FinishAfterCells(s, row.Contents());
  }

  lemma {:induction false} CellStarts(cell: Printed)
    requires PrintableCell(cell)
    ensures CellText(cell) == "" <==> cell == Bare("")
    ensures CellText(cell) != "" ==> CellText(cell)[0] != '\n'
  {
    if cell.Wrapped? {
      WrappedStarts(cell);
    }
  }

  /** The text of a row begins with a line feed only if it is that of one empty bare cell and its row end. */
  lemma {:induction false} RowStarts(row: PrintedRow, rest: string)
    requires row.cells != [] && PrintableCell(row.cells[0]) && rest != ""
    ensures var text := PrintCells(row.cells) + rest;
            text != "" && (text[0] == '\n' ==> row.cells == [Bare("")] && rest[0] == '\n')
  {
    CellStarts(row.cells[0]);
    if |row.cells| > 1 {
      PrintCellsCons(row.cells, rest);
    }
  }

  lemma {:induction false} PrintCons(table: seq<PrintedRow>, terminated: bool)
    requires Printable(table) && (|table| > 1 || (|table| == 1 && terminated))
    ensures Print(table, terminated)
            == PrintCells(table[0].cells) + (table[0].rowEnd.Text() + Print(table[1..], terminated))
  {}

  lemma {:induction false} LastRowStarts(row: PrintedRow)
    requires row.cells != [] && PrintableCell(row.cells[0])
    ensures PrintCells(row.cells) == "" || PrintCells(row.cells)[0] != '\n'
  {
    CellStarts(row.cells[0]);
    if |row.cells| > 1 {
      assert PrintCells(row.cells) == CellText(row.cells[0]) + ("," + PrintCells(row.cells[1..]));
    }
  }

  lemma {:induction false} EndedRowStarts(row: PrintedRow, more: string)
    requires row.cells != [] && PrintableCell(row.cells[0]) && !(row.cells == [Bare("")] && row.rowEnd == Lf)
    ensures var text := PrintCells(row.cells) + (row.rowEnd.Text() + more); text != "" && text[0] != '\n'
  {
    RowStarts(row, row.rowEnd.Text() + more);
  }

  /** A table begins with a line feed only if it begins with an empty bare row that ends in LF. */
  lemma {:induction false} TableStarts(table: seq<PrintedRow>, terminated: bool)
    requires Printable(table) && table != []
    requires table[0].cells == [Bare("")] && table[0].rowEnd == Lf ==> |table| == 1 && !terminated
    ensures var text := Print(table, terminated); text == "" || text[0] != '\n'
    ensures |table| > 1 || terminated ==> Print(table, terminated) != ""
  {
    if |table| > 1 || terminated {
      PrintCons(table, terminated);
      EndedRowStarts(table[0], Print(table[1..], terminated));
    } else {
      LastRowStarts(table[0]);
      assert Print(table[1..], terminated) == "" && Print(table, terminated) == PrintCells(table[0].cells);
    }
  }

  /** After a CR the text goes on with a line feed only where the table is ambiguous. */
  lemma {:induction false} NoLineFeedAfterCr(table: seq<PrintedRow>, terminated: bool)
    requires Printable(table) && table != [] && Unambiguous(table, terminated) && table[0].rowEnd == Cr
    ensures var text := Print(table[1..], terminated);
            && (text == "" || text[0] != '\n') && (|table| > 1 && terminated ==> text != "")
  {
    if |table| > 1 {
      assert table[1..][0] == table[1];
      TableStarts(table[1..], terminated);
    }
  }

  lemma {:induction false} Regrouped(a: seq<RawRow>, b: seq<RawRow>, c: seq<RawRow>)
    ensures a + b + c == a + (b + c) && a + [] + c == a + c
  {}

  lemma {:induction false} BlankRowIsExact(cells: seq<string>)
    ensures IsBlankRow(cells) <==> AllBlank(cells)
  {
    forall k | 0 <= k < |cells| ensures Trim(cells[k]) == "" <==> AllSpace(cells[k]) {
      TrimIsExact(cells[k]);
    }
  }

  lemma {:induction false} RowsFromCons(s: Scanner, rows: seq<seq<string>>)
    requires rows != []
    ensures var after := AfterRow(s, rows[0]);
            after.rows + RowsFrom(rows[1..], after.line) == s.rows + RowsFrom(rows, s.line)
  {
    var rest := RowsFrom(rows[1..], AfterRow(s, rows[0]).line);
    BlankRowIsExact(rows[0]);
    Regrouped(s.rows, [RawRow(s.line, rows[0])], rest);
    assert RowsFrom(rows, s.line) == (if AllBlank(rows[0]) then [] else [RawRow(s.line, rows[0])]) + rest;
  }

  lemma {:induction false} UnambiguousTail(table: seq<PrintedRow>, terminated: bool)
    requires table != [] && Unambiguous(table, terminated)
    ensures Unambiguous(table[1..], terminated)
  {
    var tail := table[1..];
    assert forall i :: 0 <= i < |tail| ==> tail[i] == table[i + 1];
  }

  lemma {:induction false} ScanFirstRow(s: Scanner, table: seq<PrintedRow>, terminated: bool)
    requires AtRowStart(s) && Printable(table) && Unambiguous(table, terminated)
    requires |table| > 1 || (|table| == 1 && terminated)
    ensures Scan(s, Print(table, terminated)) == Scan(AfterRow(s, table[0].Contents()), Print(table[1..], terminated))
  {
    PrintCons(table, terminated);
    if table[0].rowEnd == Cr {
      NoLineFeedAfterCr(table, terminated);
    }
    ScanRow(s, table[0], Print(table[1..], terminated));
  }

  lemma {:induction false} ScanOnlyRow(s: Scanner, table: seq<PrintedRow>)
    requires AtRowStart(s) && Printable(table) && |table| == 1
    ensures var last := Scan(s, Print(table, false));
            !last.quoted && FinishScan(last).rows == AfterRow(s, table[0].Contents()).rows
  {
    assert Print(table[1..], false) == "" && Print(table, false) == PrintCells(table[0].cells);
    FinishLastRow(s, table[0]);
  }

  lemma {:induction false} ScanTable(s: Scanner, table: seq<PrintedRow>, terminated: bool)
    requires AtRowStart(s) && Printable(table) && Unambiguous(table, terminated)
    ensures var last := Scan(s, Print(table, terminated));
            !last.quoted && FinishScan(last).rows == s.rows + RowsFrom(Cells(table), s.line)
    decreases |table|
  {
    if table == [] {
      assert s.rows + [] == s.rows;
    } else {
      CellsCons(table);
      RowsFromCons(s, Cells(table));
      var after := AfterRow(s, table[0].Contents());
      if |table| == 1 && !terminated {
        assert RowsFrom(Cells(table)[1..], after.line) == [] && after.rows + [] == after.rows;
        ScanOnlyRow(s, table);
      } else {
        ScanFirstRow(s, table, terminated);
        UnambiguousTail(table, terminated);
        ScanTable(after, table[1..], terminated);
      }
    }
  }

  const BOM := '\U{FEFF}'

  /** A byte order mark at the beginning is dropped, once. */
  lemma {:induction false} BomIsDropped(text: string, maxRows: int, lower: string -> string)
    requires text == "" || text[0] != BOM
    ensures Parsed([BOM] + text, maxRows, lower) == Parsed(text, maxRows, lower)
  {
    assert ([BOM] + text)[1..] == text;
  }

  /** Parsing undoes printing: for every table whose text does not begin with a byte order mark, cells bare
      or quoted and row ends mixed at will and the last one optional, the rows the parser builds its records
      from are the printed rows that are not blank, cell for cell, each numbered by the line breaks counted
      before it. */
  lemma {:induction false} ParsingUndoesPrinting(table: seq<PrintedRow>, terminated: bool, maxRows: int,
      lower: string -> string)
    requires Printable(table) && Unambiguous(table, terminated)
    requires Print(table, terminated) == "" || Print(table, terminated)[0] != BOM
    ensures Parsed(Print(table, terminated), maxRows, lower) == FromRows(RowsFrom(Cells(table), 1), maxRows, lower)
  {
    var text := Print(table, terminated);
    assert WithoutBom(text) == text;
    TrimIsExact(text);
    if Trim(text) == "" {
      BlankTable(table, terminated, 1);
    } else {
      ScanTable(FRESH, table, terminated);
      assert FRESH.rows + RowsFrom(Cells(table), 1) == RowsFrom(Cells(table), 1);
    }
  }

  /** Under distinct non-empty headers each record holds exactly its row's cells. */
  lemma {:induction false} RecordHoldsItsCells(headers: seq<string>, cells: seq<string>, i: nat)
    requires i < |headers| && !HasDuplicate(headers) && headers[i] != ""
    ensures headers[i] in Values(headers, cells)
    ensures Values(headers, cells)[headers[i]] == if i < |cells| then cells[i] else ""
  {
    var n := |headers| - 1;
    if i < n {
      assert headers[i] != headers[n];
      RecordHoldsItsCells(headers[..n], cells, i);
    }
  }

  function LineBreaks(rows: seq<seq<string>>): nat {
    if rows == [] then 0 else RowLineFeeds(rows[0]) + 1 + LineBreaks(rows[1..])
  }

  function AfterRows(s: Scanner, rows: seq<seq<string>>): Scanner
    decreases |rows|
  {
    if rows == [] then s else AfterRows(AfterRow(s, rows[0]), rows[1..])
  }

  lemma {:induction false} Joined(a: string, b: string, c: string, d: string)
    ensures a + (b + c) + d == a + (b + (c + d))
  {}

  lemma {:induction false} PrintConsThen(table: seq<PrintedRow>, rest: string)
    requires Printable(table) && table != []
    ensures Print(table, true) + rest
         == PrintCells(table[0].cells) + (table[0].rowEnd.Text() + (Print(table[1..], true) + rest))
  {
    PrintCons(table, true);
    Joined(PrintCells(table[0].cells), table[0].rowEnd.Text(), Print(table[1..], true), rest);
  }

  lemma {:induction false} NoLineFeedThen(table: seq<PrintedRow>, rest: string)
    requires Printable(table) && table != [] && Unambiguous(table, true) && table[0].rowEnd == Cr
    requires rest != "" && rest[0] != '\n'
    ensures (Print(table[1..], true) + rest)[0] != '\n'
  {
    NoLineFeedAfterCr(table, true);
  }

  lemma {:induction false} ScanFirstOf(s: Scanner, table: seq<PrintedRow>, rest: string)
    requires AtRowStart(s) && Printable(table) && Unambiguous(table, true) && table != []
    requires rest != "" && rest[0] != '\n'
    ensures Scan(s, Print(table, true) + rest) == Scan(AfterRow(s, table[0].Contents()), Print(table[1..], true) + rest)
  {
    PrintConsThen(table, rest);
    if table[0].rowEnd == Cr {
      NoLineFeedThen(table, rest);
    }
    ScanRow(s, table[0], Print(table[1..], true) + rest);
  }

  lemma {:induction false} ScanTerminated(s: Scanner, table: seq<PrintedRow>, rest: string)
    requires AtRowStart(s) && Printable(table) && Unambiguous(table, true) && rest != "" && rest[0] != '\n'
    ensures Scan(s, Print(table, true) + rest) == Scan(AfterRows(s, Cells(table)), rest)
    ensures AtRowStart(AfterRows(s, Cells(table)))
    ensures AfterRows(s, Cells(table)).line == s.line + LineBreaks(Cells(table))
    decreases |table|
  {
    if table == [] {
      assert Print(table, true) + rest == rest;
    } else {
      CellsCons(table);
      ScanFirstOf(s, table, rest);
      UnambiguousTail(table, true);
      ScanTerminated(AfterRow(s, table[0].Contents()), table[1..], rest);
    }
  }

  lemma {:induction false} ScanOpenCell(s: Scanner, cell: string)
    requires s.quoted
    ensures Scan(s, Escaped(cell)).quoted && Scan(s, Escaped(cell)).rowLine == s.rowLine
  {
    ScanEscaped(s, cell, "");
    assert Escaped(cell) + "" == Escaped(cell);
  }

  lemma {:induction false} ScanUnclosed(table: seq<PrintedRow>, cell: string)
    requires Printable(table) && Unambiguous(table, true)
    ensures var s := Scan(FRESH, Print(table, true) + ("\"" + Escaped(cell)));
            s.quoted && s.rowLine == 1 + LineBreaks(Cells(table))
  {
    ScanTerminated(FRESH, table, "\"" + Escaped(cell));
    var start := AfterRows(FRESH, Cells(table));
    ReadQuote(start, Escaped(cell));
    ScanOpenCell(start.(quoted := true), cell);
  }

  lemma {:induction false} QuoteIsNotBlank(before: string, tail: string)
    requires tail != "" && tail[0] == '"'
    ensures Trim(before + tail) != ""
  {
    TrimIsExact(before + tail);
    assert (before + tail)[|before|] == '"';
  }

  /** A cell that is opened and never closed rejects the text, at the line where its row starts. */
  lemma {:induction false} UnclosedQuoteIsRejected(table: seq<PrintedRow>, cell: string, maxRows: int,
      lower: string -> string)
    requires Printable(table) && Unambiguous(table, true)
    requires Print(table, true) == "" || Print(table, true)[0] != BOM
    ensures var text := Print(table, true) + "\"" + Escaped(cell);
            Parsed(text, maxRows, lower) == Failure(UnterminatedQuote(1 + LineBreaks(Cells(table))))
  {
    var tail := "\"" + Escaped(cell);
    var text := Print(table, true) + "\"" + Escaped(cell);
    assert text == Print(table, true) + tail;
    QuoteIsNotBlank(Print(table, true), tail);
    ScanUnclosed(table, cell);
  }

  lemma {:induction false} RowsOfNonBlank(rows: seq<seq<string>>, line: nat, k: nat)
    requires forall i :: 0 <= i < |rows| ==> !AllBlank(rows[i])
    requires k < |rows|
    ensures |RowsFrom(rows, line)| == |rows|
    ensures RowsFrom(rows, line)[k] == RawRow(line + LineBreaks(rows[..k]), rows[k])
    decreases |rows|
  {
    var next := line + RowLineFeeds(rows[0]) + 1;
    if k > 0 {
      RowsOfNonBlank(rows[1..], next, k - 1);
      assert rows[..k][1..] == rows[1..][..k - 1];
    } else if |rows| > 1 {
      RowsOfNonBlank(rows[1..], next, 0);
    } else {
      assert RowsFrom(rows[1..], next) == [];
    }
  }

  /** A table of non-blank rows that the parser can be given. */
  predicate Readable(table: seq<PrintedRow>, terminated: bool) {
    && Printable(table) && Unambiguous(table, terminated) && table != []
    && (Print(table, terminated) == "" || Print(table, terminated)[0] != BOM)
    && forall r :: 0 <= r < |table| ==> !AllBlank(table[r].Contents())
  }

  lemma {:induction false} AcceptedRows(rows: seq<seq<string>>, maxRows: int, lower: string -> string, k: nat, i: nat)
    requires 0 < k < |rows| && |rows| - 1 <= maxRows && forall r :: 0 <= r < |rows| ==> !AllBlank(rows[r])
    requires !HasDuplicate(Normalized(rows[0], lower)) && i < |rows[0]| && lower(Trim(rows[0][i])) != ""
    ensures var result := FromRows(RowsFrom(rows, 1), maxRows, lower);
            && result.Success? && |result.value.rows| == |rows| - 1
            && |result.value.headers| == |rows[0]| && result.value.headers[i] == lower(Trim(rows[0][i]))
            && var record := result.value.rows[k - 1];
            && record.line == 1 + LineBreaks(rows[..k])
            && result.value.headers[i] in record.values
            && record.values[result.value.headers[i]] == if i < |rows[k]| then rows[k][i] else ""
  {
    RowsOfNonBlank(rows, 1, 0);
    RowsOfNonBlank(rows, 1, k);
    RecordHoldsItsCells(Normalized(rows[0], lower), rows[k], i);
    assert RowsFrom(rows, 1)[1..][k - 1] == RowsFrom(rows, 1)[k];
  }

  /** The whole round trip, for a printed table of non-blank rows whose first row holds the headers. */
  lemma {:induction false} TableRoundTrip(table: seq<PrintedRow>, terminated: bool, maxRows: int,
      lower: string -> string, k: nat, i: nat)
    requires Readable(table, terminated) && 0 < k < |table| && |table| - 1 <= maxRows
    requires !HasDuplicate(Normalized(table[0].Contents(), lower))
    requires i < |table[0].cells| && lower(Trim(table[0].cells[i].Content())) != ""
    ensures var result := Parsed(Print(table, terminated), maxRows, lower);
            && result.Success? && |result.value.rows| == |table| - 1
            && |result.value.headers| == |table[0].cells|
            && result.value.headers[i] == lower(Trim(table[0].cells[i].Content()))
            && var record := result.value.rows[k - 1];
            && record.line == 1 + LineBreaks(Cells(table)[..k])
            && result.value.headers[i] in record.values
            && record.values[result.value.headers[i]] == if i < |table[k].cells| then table[k].cells[i].Content()
               else ""
  {
    ParsingUndoesPrinting(table, terminated, maxRows, lower);
    AcceptedRows(Cells(table), maxRows, lower, k, i);
  }

  lemma {:induction false} RefusedRows(rows: seq<seq<string>>, maxRows: int, lower: string -> string)
    requires rows != [] && forall r :: 0 <= r < |rows| ==> !AllBlank(rows[r])
    ensures var result := FromRows(RowsFrom(rows, 1), maxRows, lower);
            var repeats := HasDuplicate(Normalized(rows[0], lower));
            && (result == Failure(DuplicateHeader(1)) <==> repeats)
            && (result == Failure(TooManyRows) <==> !repeats && |rows| - 1 > maxRows)
            && (result.Success? <==> !repeats && |rows| - 1 <= maxRows)
  {
    RowsOfNonBlank(rows, 1, 0);
    assert rows[..0] == [];
  }

  /** Such a table is refused exactly for a repeated header, at the line of the headers, and otherwise for
      too many rows. */
  lemma {:induction false} TableIsRefusedExactly(table: seq<PrintedRow>, terminated: bool, maxRows: int,
      lower: string -> string)
    requires Readable(table, terminated)
    ensures var result, headers := Parsed(Print(table, terminated), maxRows, lower), table[0].Contents();
            var repeats := exists i, j :: 0 <= i < j < |headers| && lower(Trim(headers[i])) != ""
                                          && lower(Trim(headers[i])) == lower(Trim(headers[j]));
            && (result == Failure(DuplicateHeader(1)) <==> repeats)
            && (result == Failure(TooManyRows) <==> !repeats && |table| - 1 > maxRows)
            && (result.Success? <==> !repeats && |table| - 1 <= maxRows)
  {
    ParsingUndoesPrinting(table, terminated, maxRows, lower);
    RefusedRows(Cells(table), maxRows, lower);
    var headers, names := table[0].Contents(), Normalized(table[0].Contents(), lower);
    assert forall i :: 0 <= i < |headers| ==> names[i] == lower(Trim(headers[i]));
    assert HasDuplicate(names) <==> exists i, j :: 0 <= i < j < |names| && names[i] != "" && names[i] == names[j];
  }
}
