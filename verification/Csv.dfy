/**
 The CSV printer behind the member export and the CSV parser behind the member
 import. Both follow section 2 of RFC 4180; the parser additionally trims every
 cell and drops rows that are blank throughout.
 */
module Csv {
  import opened Common
  import opened Text

  type Row = seq<string>
  type Table = seq<Row>

  // ---------------------------------------------------------------- printing

  /** The characters that force a cell into quotes. */
  predicate Special(c: char) {
    c == '"' || c == ',' || c == '\n' || c == '\r'
  }

  predicate NeedsQuotes(text: string) {
    exists i :: 0 <= i < |text| && Special(text[i])
  }

  /** Every quote written twice. */
  function DoubleQuotes(text: string): string {
    if text == "" then ""
    else (if text[0] == '"' then "\"\"" else [text[0]]) + DoubleQuotes(text[1..])
  }

  function PrintText(text: string): string {
    if NeedsQuotes(text) then "\"" + DoubleQuotes(text) + "\"" else text
  }

  /** `csvCell`: an absent value prints as nothing. */
  function CsvCell(value: Option<string>): string {
    match value
    case None => ""
    case Some(text) => PrintText(text)
  }

  function PrintCells(row: Row): seq<string> {
    seq(|row|, i requires 0 <= i < |row| => PrintText(row[i]))
  }

  function PrintRow(row: Row): string {
    Join(PrintCells(row), ",")
  }

  function PrintRows(table: Table): seq<string> {
    seq(|table|, i requires 0 <= i < |table| => PrintRow(table[i]))
  }

  predicate LineEnd(eol: string) {
    eol == "\n" || eol == "\r" || eol == "\r\n"
  }

  /** A whole file: optional byte-order mark, joined rows, optional last terminator. */
  function Print(table: Table, eol: string, bom: bool, last: bool): string {
    (if bom then [BOM] else "") + Join(PrintRows(table), eol) + (if last then eol else "")
  }

  // ----------------------------------------------------------------- parsing

  /** The loop variables of `parseCsv`. */
  datatype Scanner = Scanner(rows: Table, row: Row, cell: string, inQuotes: bool)

  const START := Scanner([], [], "", false)

  predicate NonBlank(row: Row) {
    exists i :: 0 <= i < |row| && row[i] != ""
  }

  function EndCell(st: Scanner): Scanner {
    st.(row := st.row + [Trim(st.cell)], cell := "")
  }

  function EndRow(st: Scanner): Scanner {
    st.(rows := if NonBlank(st.row) then st.rows + [st.row] else st.rows, row := [])
  }

  /** The automaton: what the rest of the text makes of a scanner. */
  function Scan(s: string, st: Scanner): Scanner
    decreases |s|
  {
    if s == "" then st
    else if st.inQuotes then
      if s[0] == '"' then
        if |s| > 1 && s[1] == '"' then Scan(s[2..], st.(cell := st.cell + "\""))
        else Scan(s[1..], st.(inQuotes := false))
      else Scan(s[1..], st.(cell := st.cell + [s[0]]))
    else if s[0] == '"' then Scan(s[1..], st.(inQuotes := true))
    else if s[0] == ',' then Scan(s[1..], EndCell(st))
    else if s[0] == '\n' then Scan(s[1..], EndRow(EndCell(st)))
    else if s[0] == '\r' then
      Scan(if |s| > 1 && s[1] == '\n' then s[2..] else s[1..], EndRow(EndCell(st)))
    else Scan(s[1..], st.(cell := st.cell + [s[0]]))
  }

  /** What is left when the text runs out: a last row without a terminator. */
  function Finish(st: Scanner): Table {
    if st.cell != "" || |st.row| > 0 then EndRow(EndCell(st)).rows else st.rows
  }

  function StripBom(text: string): string {
    if text != "" && text[0] == BOM then text[1..] else text
  }

  function Parse(text: string): Table {
    Finish(Scan(StripBom(text), START))
  }

  /** `row.some((value) => value !== '')` */
  method SomeNonEmpty(row: Row) returns (found: bool)
    ensures found == NonBlank(row)
  {
    for i := 0 to |row|
      invariant forall j :: 0 <= j < i ==> row[j] == ""
    {
      if row[i] != "" {
        return true;
      }
    }
    return false;
  }

  /** `parseCsv`: one pass over an index that also skips over second characters. */
  method ParseCsv(text: string) returns (rows: Table)
    ensures rows == Parse(text)
    ensures forall i, j :: 0 <= i < |rows| && 0 <= j < |rows[i]| ==> Trimmed(rows[i][j])
    ensures forall i :: 0 <= i < |rows| ==> NonBlank(rows[i])
  {
    rows := [];
    var row: Row := [];
    var cell := "";
    var inQuotes := false;
    var source := StripBom(text);
    var index := 0;
    while index < |source|
      invariant 0 <= index <= |source|
      invariant Scan(source[index..], Scanner(rows, row, cell, inQuotes)) == Scan(source, START)
    {
      var c := source[index];
      if inQuotes {
        if c == '"' {
          if index + 1 < |source| && source[index + 1] == '"' {
            cell := cell + "\"";
            index := index + 1;
          } else {
            inQuotes := false;
          }
        } else {
          cell := cell + [c];
        }
      } else if c == '"' {
        inQuotes := true;
      } else if c == ',' {
        row := row + [Trim(cell)];
        cell := "";
      } else if c == '\n' || c == '\r' {
        if c == '\r' && index + 1 < |source| && source[index + 1] == '\n' {
          index := index + 1;
        }
        row := row + [Trim(cell)];
        cell := "";
        var keep := SomeNonEmpty(row);
        if keep {
          rows := rows + [row];
        }
        row := [];
      } else {
        cell := cell + [c];
      }
      index := index + 1;
    }
    assert source[index..] == "";
    if cell != "" || |row| > 0 {
      row := row + [Trim(cell)];
      var keep := SomeNonEmpty(row);
      if keep {
        rows := rows + [row];
      }
    }
    ParseIsNormal(text);
  }

  // ------------------------------------------------------------- normal form

  function TrimRow(row: Row): Row {
    seq(|row|, i requires 0 <= i < |row| => Trim(row[i]))
  }

  /** What a table looks like after a trip through a file. */
  function Clean(table: Table): Table {
    if |table| == 0 then []
    else (if NonBlank(TrimRow(table[0])) then [TrimRow(table[0])] else []) + Clean(table[1..])
  }

  predicate AllTrimmed(row: Row) {
    forall i :: 0 <= i < |row| ==> Trimmed(row[i])
  }

  /** Every cell trimmed, no row blank. */
  predicate Normal(table: Table) {
    forall i :: 0 <= i < |table| ==> AllTrimmed(table[i]) && NonBlank(table[i])
  }

  lemma EndsAreNormal(st: Scanner)
    requires Normal(st.rows) && AllTrimmed(st.row)
    ensures Normal(EndCell(st).rows) && AllTrimmed(EndCell(st).row)
    ensures Normal(EndRow(EndCell(st)).rows) && AllTrimmed(EndRow(EndCell(st)).row)
  {
    TrimIsTrimmed(st.cell);
  }

  lemma {:induction false} ScanIsNormal(s: string, st: Scanner)
    requires Normal(st.rows) && AllTrimmed(st.row)
    ensures Normal(Scan(s, st).rows) && AllTrimmed(Scan(s, st).row)
    decreases |s|
  {
    EndsAreNormal(st);
    if s == "" {
    } else if st.inQuotes {
      if s[0] == '"' {
        if |s| > 1 && s[1] == '"' {
          ScanIsNormal(s[2..], st.(cell := st.cell + "\""));
        } else {
          ScanIsNormal(s[1..], st.(inQuotes := false));
        }
      } else {
        ScanIsNormal(s[1..], st.(cell := st.cell + [s[0]]));
      }
    } else if s[0] == '"' {
      ScanIsNormal(s[1..], st.(inQuotes := true));
    } else if s[0] == ',' {
      ScanIsNormal(s[1..], EndCell(st));
    } else if s[0] == '\n' {
      ScanIsNormal(s[1..], EndRow(EndCell(st)));
    } else if s[0] == '\r' {
      ScanIsNormal(if |s| > 1 && s[1] == '\n' then s[2..] else s[1..], EndRow(EndCell(st)));
    } else {
      ScanIsNormal(s[1..], st.(cell := st.cell + [s[0]]));
    }
  }

  /** Whatever the text, malformed quoting included, the result is in normal form. */
  lemma ParseIsNormal(text: string)
    ensures Normal(Parse(text))
  {
    var st := Scan(StripBom(text), START);
    ScanIsNormal(StripBom(text), START);
    TrimIsTrimmed(st.cell);
  }

  lemma {:induction false} CleanFixesNormal(table: Table)
    requires Normal(table)
    ensures Clean(table) == table
  {
    if |table| > 0 {
      var row := table[0];
      forall i | 0 <= i < |row| ensures Trim(row[i]) == row[i] {
        TrimFixesTrimmed(row[i]);
      }
      assert TrimRow(row) == row;
      assert AllTrimmed(table[0]) && NonBlank(table[0]);
      CleanFixesNormal(table[1..]);
    }
  }

  // -------------------------------------------------------------- round trip

  /** What may follow a printed cell: a separator, a line end, or nothing. */
  predicate CellEnds(rest: string) {
    rest == "" || rest[0] == ',' || rest[0] == '\n' || rest[0] == '\r'
  }

  lemma {:induction false} ScanPlain(text: string, rest: string, st: Scanner)
    requires !NeedsQuotes(text) && !st.inQuotes
    ensures Scan(text + rest, st) == Scan(rest, st.(cell := st.cell + text))
  {
    if text == "" {
      assert text + rest == rest && st.cell + text == st.cell;
    } else {
      assert !Special(text[0]);
      assert forall i :: 0 <= i < |text[1..]| ==> text[1..][i] == text[i + 1];
      assert (text + rest)[1..] == text[1..] + rest;
      assert st.cell + [text[0]] + text[1..] == st.cell + text;
      ScanPlain(text[1..], rest, st.(cell := st.cell + [text[0]]));
    }
  }

  lemma {:induction false} ScanQuoted(text: string, rest: string, st: Scanner)
    requires st.inQuotes && (rest == "" || rest[0] != '"')
    ensures Scan(DoubleQuotes(text) + "\"" + rest, st)
         == Scan(rest, st.(cell := st.cell + text, inQuotes := false))
  {
    var all := DoubleQuotes(text) + "\"" + rest;
    if text == "" {
      assert all == "\"" + rest && all[1..] == rest && st.cell + text == st.cell;
    } else {
      assert st.cell + [text[0]] + text[1..] == st.cell + text;
      var tail := DoubleQuotes(text[1..]) + "\"" + rest;
      if text[0] == '"' {
        assert all == "\"\"" + tail && all[2..] == tail;
      } else {
        assert all == [text[0]] + tail && all[1..] == tail;
      }
      ScanQuoted(text[1..], rest, st.(cell := st.cell + [text[0]]));
    }
  }

  lemma ScanOpenQuote(rest: string, st: Scanner)
    requires !st.inQuotes
    ensures Scan("\"" + rest, st) == Scan(rest, st.(inQuotes := true))
  {
    assert ("\"" + rest)[1..] == rest;
  }

  /** A printed cell is read back exactly, before trimming. */
  lemma ScanCell(text: string, rest: string, st: Scanner)
    requires st.cell == "" && !st.inQuotes && CellEnds(rest)
    ensures Scan(PrintText(text) + rest, st) == Scan(rest, st.(cell := text))
  {
    if NeedsQuotes(text) {
      var inside := DoubleQuotes(text) + "\"" + rest;
      assert PrintText(text) + rest == "\"" + inside;
      ScanOpenQuote(inside, st);
      ScanQuoted(text, rest, st.(inQuotes := true));
    } else {
      ScanPlain(text, rest, st);
      assert "" + text == text;
    }
  }

  lemma PrintRowCons(row: Row)
    requires |row| > 1
    ensures PrintRow(row) == PrintText(row[0]) + ("," + PrintRow(row[1..]))
  {
    assert PrintCells(row)[1..] == PrintCells(row[1..]);
  }

  lemma ScanComma(rest: string, st: Scanner)
    requires !st.inQuotes
    ensures Scan("," + rest, st) == Scan(rest, EndCell(st))
  {
    assert ("," + rest)[1..] == rest;
  }

  lemma TrimRowCons(row: Row, before: Row)
    requires |row| > 1
    ensures before + TrimRow(row[..|row| - 1])
         == before + [Trim(row[0])] + TrimRow(row[1..][..|row| - 2])
  {
  }

  /** The scanner after a printed row: all cells but the last are already closed. */
  lemma {:induction false} ScanRow(row: Row, rest: string, st: Scanner)
    requires |row| > 0 && st.cell == "" && !st.inQuotes && CellEnds(rest)
    ensures Scan(PrintRow(row) + rest, st)
         == Scan(rest, st.(row := st.row + TrimRow(row[..|row| - 1]), cell := row[|row| - 1]))
  {
    if |row| == 1 {
      assert TrimRow(row[..0]) == [] && st.row + [] == st.row;
      ScanCell(row[0], rest, st);
    } else {
      PrintRowCons(row);
      TrimRowCons(row, st.row);
      var tail := PrintRow(row[1..]) + rest;
      assert PrintRow(row) + rest == PrintText(row[0]) + ("," + tail);
      ScanCell(row[0], "," + tail, st);
      ScanComma(tail, st.(cell := row[0]));
      ScanRow(row[1..], rest, EndCell(st.(cell := row[0])));
    }
  }

  /** A row with no cells prints like a row with one empty cell. */
  function Padded(row: Row): Row {
    if |row| == 0 then [""] else row
  }

  lemma PaddedPrints(row: Row)
    ensures PrintRow(Padded(row)) == PrintRow(row)
    ensures NonBlank(TrimRow(Padded(row))) == NonBlank(TrimRow(row))
    ensures NonBlank(TrimRow(row)) ==> TrimRow(Padded(row)) == TrimRow(row)
  {
    if |row| == 0 {
      assert !NeedsQuotes("");
      assert PrintCells([""]) == [""];
    }
  }

  /** The scanner between two rows. */
  function Between(rows: Table): Scanner {
    Scanner(rows, [], "", false)
  }

  function CleanRow(row: Row): Table {
    if NonBlank(TrimRow(row)) then [TrimRow(row)] else []
  }

  lemma FinishRow(row: Row, rows: Table)
    requires |row| > 0
    ensures EndRow(EndCell(Scanner(rows, TrimRow(row[..|row| - 1]), row[|row| - 1], false)))
         == Between(rows + CleanRow(row))
  {
    assert TrimRow(row[..|row| - 1]) + [Trim(row[|row| - 1])] == TrimRow(row);
    assert rows + [] == rows;
  }

  /** A printed row and its terminator add the cleaned row and nothing else. */
  lemma ScanLine(row: Row, eol: string, rest: string, rows: Table)
    requires LineEnd(eol) && (eol == "\r" ==> rest == "" || rest[0] != '\n')
    ensures Scan(PrintRow(row) + (eol + rest), Between(rows)) == Scan(rest, Between(rows + CleanRow(row)))
  {
    var full := Padded(row);
    PaddedPrints(row);
    ScanRow(full, eol + rest, Between(rows));
    FinishRow(full, rows);
    assert [] + TrimRow(full[..|full| - 1]) == TrimRow(full[..|full| - 1]);
    assert (eol + rest)[|eol|..] == rest;
  }

  /** A printed last row without a terminator. */
  lemma FinishLine(row: Row, rows: Table)
    ensures Finish(Scan(PrintRow(row), Between(rows))) == rows + CleanRow(row)
  {
    var full := Padded(row);
    PaddedPrints(row);
    assert PrintRow(full) + "" == PrintRow(row);
    ScanRow(full, "", Between(rows));
    FinishRow(full, rows);
    assert [] + TrimRow(full[..|full| - 1]) == TrimRow(full[..|full| - 1]);
    if full == [""] {
      assert !NonBlank(TrimRow([""]));
    }
  }

  /** No printed row starts with a line feed, so a lone CR never meets one. */
  lemma PrintRowStart(row: Row)
    ensures PrintRow(row) == "" || (PrintRow(row)[0] != '\n' && PrintRow(row)[0] != '\r')
  {
    if |row| > 0 {
      var text := row[0];
      if text != "" && Special(text[0]) {
        assert NeedsQuotes(text);
      }
    }
  }

  /** Everything after the mark: the rows, then the last terminator if there is one. */
  function Body(table: Table, eol: string, last: bool): string {
    Join(PrintRows(table), eol) + (if last then eol else "")
  }

  lemma PrintIsBody(table: Table, eol: string, last: bool)
    ensures Print(table, eol, false, last) == Body(table, eol, last)
    ensures Print(table, eol, true, last) == [BOM] + Body(table, eol, last)
  {
    var lines, end := Join(PrintRows(table), eol), if last then eol else "";
    assert "" + lines + end == lines + end;
    assert [BOM] + lines + end == [BOM] + (lines + end);
  }

  lemma BodyCons(table: Table, eol: string, last: bool)
    requires |table| > 1
    ensures Body(table, eol, last) == PrintRow(table[0]) + (eol + Body(table[1..], eol, last))
  {
    assert PrintRows(table)[1..] == PrintRows(table[1..]);
  }

  lemma BodyStart(table: Table, eol: string, last: bool)
    requires LineEnd(eol) && |table| > 0
    ensures var body := Body(table, eol, last); body == "" || body[0] != '\n' || eol == "\n"
  {
    PrintRowStart(table[0]);
    if |table| > 1 {
      BodyCons(table, eol, last);
    }
  }

  /** At most one row is left; none at all prints like a row without cells. */
  lemma LastBody(table: Table, eol: string, last: bool)
    requires |table| <= 1
    ensures var row := if |table| == 0 then [] else table[0];
      Body(table, eol, last) == PrintRow(row) + (if last then eol else "") && Clean(table) == CleanRow(row)
  {
    if |table| == 1 {
      CleanCons(table);
      assert PrintRows(table) == [PrintRow(table[0])];
    } else {
      assert table == [] && PrintRows([]) == [] && PrintCells([]) == [];
      assert TrimRow([]) == [];
    }
  }

  lemma CleanCons(table: Table)
    requires |table| > 0
    ensures Clean(table) == CleanRow(table[0]) + Clean(table[1..])
  {
  }

  /** What the rest of a file gives behind one more printed line. */
  lemma LineThen(row: Row, eol: string, rest: string, rows: Table, result: Table)
    requires LineEnd(eol) && (eol == "\r" ==> rest == "" || rest[0] != '\n')
    requires Finish(Scan(rest, Between(rows + CleanRow(row)))) == result
    ensures Finish(Scan(PrintRow(row) + (eol + rest), Between(rows))) == result
  {
    ScanLine(row, eol, rest, rows);
  }

  lemma ScanLastLine(row: Row, eol: string, last: bool, rows: Table)
    requires LineEnd(eol)
    ensures Finish(Scan(PrintRow(row) + (if last then eol else ""), Between(rows))) == rows + CleanRow(row)
  {
    if last {
      assert eol + "" == eol;
      ScanLine(row, eol, "", rows);
    } else {
      assert PrintRow(row) + "" == PrintRow(row);
      FinishLine(row, rows);
    }
  }

  lemma {:induction false} ScanTable(table: Table, eol: string, last: bool, rows: Table)
    requires LineEnd(eol)
    ensures Finish(Scan(Body(table, eol, last), Between(rows))) == rows + Clean(table)
    decreases |table|
  {
    if |table| > 1 {
      var rest := Body(table[1..], eol, last);
      BodyCons(table, eol, last);
      BodyStart(table[1..], eol, last);
      ScanTable(table[1..], eol, last, rows + CleanRow(table[0]));
      CleanCons(table);
      assert rows + CleanRow(table[0]) + Clean(table[1..]) == rows + Clean(table);
      LineThen(table[0], eol, rest, rows, rows + Clean(table));
    } else {
      ScanLastLine(if |table| == 0 then [] else table[0], eol, last, rows);
      LastBody(table, eol, last);
    }
  }

  // --------------------------------------------------- the byte-order mark

  /** The same table with the first character of its first cell gone. */
  function DropFirst(table: Table): Table
    requires |table| > 0 && |table[0]| > 0 && table[0][0] != ""
  {
    table[0 := table[0][0 := table[0][0][1..]]]
  }

  /** Dropping the first character of the first part drops it from the join. */
  lemma JoinDrop(parts: seq<string>, separator: string)
    requires |parts| > 0 && parts[0] != ""
    ensures Join(parts, separator) != "" && Join(parts, separator)[0] == parts[0][0]
    ensures Join(parts[0 := parts[0][1..]], separator) == Join(parts, separator)[1..]
  {
    if |parts| > 1 {
      var rest := separator + Join(parts[1..], separator);
      assert Join(parts, separator) == parts[0] + rest;
      assert (parts[0] + rest)[1..] == parts[0][1..] + rest;
      assert parts[0 := parts[0][1..]][1..] == parts[1..];
    }
  }

  lemma RowLeadingBom(row: Row)
    requires PrintRow(row) != "" && PrintRow(row)[0] == BOM
    ensures |row| > 0 && row[0] != "" && row[0][0] == BOM
    ensures PrintRow(row[0 := row[0][1..]]) == PrintRow(row)[1..]
  {
    var cells := PrintCells(row);
    assert row[0] != "" && row[0][0] == BOM by {
      if |row| > 1 {
        PrintRowCons(row);
      }
    }
    assert !NeedsQuotes(row[0]);
    var text := row[0][1..];
    assert !NeedsQuotes(text) by {
      assert forall i :: 0 <= i < |text| ==> text[i] == row[0][i + 1];
    }
    assert PrintCells(row[0 := text]) == cells[0 := text];
    JoinDrop(cells, ",");
  }

  lemma FirstLine(table: Table, eol: string, last: bool)
    requires LineEnd(eol)
    requires var text := Body(table, eol, last); text != "" && text[0] == BOM
    ensures |table| > 0 && PrintRow(table[0]) != "" && PrintRow(table[0])[0] == BOM
  {
    if |table| > 1 {
      BodyCons(table, eol, last);
    }
  }

  /** A file without a mark of its own starts with U+FEFF only inside its first cell. */
  lemma LeadingBom(table: Table, eol: string, last: bool)
    requires LineEnd(eol)
    requires var text := Body(table, eol, last); text != "" && text[0] == BOM
    ensures |table| > 0 && |table[0]| > 0 && table[0][0] != "" && table[0][0][0] == BOM
    ensures Body(DropFirst(table), eol, last) == Body(table, eol, last)[1..]
  {
    FirstLine(table, eol, last);
    RowLeadingBom(table[0]);
    var lines := PrintRows(table);
    assert PrintRows(DropFirst(table)) == lines[0 := lines[0][1..]];
    JoinDrop(lines, eol);
  }

  lemma CleanDropFirst(table: Table)
    requires |table| > 0 && |table[0]| > 0 && table[0][0] != "" && table[0][0][0] == BOM
    ensures Clean(DropFirst(table)) == Clean(table)
  {
    var row, row' := table[0], DropFirst(table)[0];
    assert Trim(row'[0]) == Trim(row[0]);
    assert TrimRow(row') == TrimRow(row);
    assert DropFirst(table)[1..] == table[1..];
  }

  // ------------------------------------------------------ malformed quoting

  /** A quoted piece may stand anywhere in a cell; it adds its text to what is there. */
  lemma QuotedPiece(text: string, rest: string, st: Scanner)
    requires !st.inQuotes && (rest == "" || rest[0] != '"')
    ensures Scan("\"" + (DoubleQuotes(text) + "\"" + rest), st) == Scan(rest, st.(cell := st.cell + text))
  {
    var inner := DoubleQuotes(text) + "\"" + rest;
    assert ("\"" + inner)[1..] == inner;
    ScanQuoted(text, rest, st.(inQuotes := true));
  }

  lemma {:induction false} ScanOpen(text: string, st: Scanner)
    requires st.inQuotes
    ensures Scan(DoubleQuotes(text), st) == st.(cell := st.cell + text)
  {
    var all := DoubleQuotes(text);
    if text == "" {
      assert st.cell + text == st.cell;
    } else {
      assert st.cell + [text[0]] + text[1..] == st.cell + text;
      if text[0] == '"' {
        assert all[2..] == DoubleQuotes(text[1..]);
      } else {
        assert all[1..] == DoubleQuotes(text[1..]);
      }
      ScanOpen(text[1..], st.(cell := st.cell + [text[0]]));
    }
  }

  lemma TrimRowSnoc(row: Row, text: string)
    ensures TrimRow(row + [text]) == TrimRow(row) + [Trim(text)]
  {
  }

  lemma TrimRowLast(row: Row)
    requires |row| > 0
    ensures TrimRow(row[..|row| - 1]) + [Trim(row[|row| - 1])] == TrimRow(row)
  {
    TrimRowSnoc(row[..|row| - 1], row[|row| - 1]);
    assert row[..|row| - 1] + [row[|row| - 1]] == row;
  }

  /** Rows with a terminator each. */
  function Lines(table: Table, eol: string): string {
    if |table| == 0 then "" else PrintRow(table[0]) + (eol + Lines(table[1..], eol))
  }

  predicate StartsLine(text: string) {
    text == "" || text[0] != '\n'
  }

  lemma LinesStart(table: Table, eol: string, rest: string)
    requires LineEnd(eol) && StartsLine(rest)
    ensures eol == "\r" ==> StartsLine(Lines(table, eol) + rest)
  {
    if |table| > 0 {
      PrintRowStart(table[0]);
    }
  }

  lemma LinesCons(table: Table, eol: string, rest: string)
    requires |table| > 0
    ensures Lines(table, eol) + rest == PrintRow(table[0]) + (eol + (Lines(table[1..], eol) + rest))
  {
  }

  lemma CleanAppend(rows: Table, table: Table)
    requires |table| > 0
    ensures rows + CleanRow(table[0]) + Clean(table[1..]) == rows + Clean(table)
  {
    CleanCons(table);
  }

  /** What the rest of a file gives behind one more line, before it is finished. */
  lemma ScanLinesNext(table: Table, eol: string, rest: string, rows: Table, result: Scanner)
    requires LineEnd(eol) && StartsLine(rest) && |table| > 0
    requires Scan(Lines(table[1..], eol) + rest, Between(rows + CleanRow(table[0]))) == result
    ensures Scan(Lines(table, eol) + rest, Between(rows)) == result
  {
    LinesStart(table[1..], eol, rest);
    LinesCons(table, eol, rest);
    ScanLine(table[0], eol, Lines(table[1..], eol) + rest, rows);
  }

  lemma {:induction false} ScanLines(table: Table, eol: string, rest: string, rows: Table)
    requires LineEnd(eol) && StartsLine(rest)
    ensures Scan(Lines(table, eol) + rest, Between(rows)) == Scan(rest, Between(rows + Clean(table)))
    decreases |table|
  {
    if |table| == 0 {
      assert Lines(table, eol) + rest == rest;
      assert rows + Clean(table) == rows;
    } else {
      ScanLines(table[1..], eol, rest, rows + CleanRow(table[0]));
      CleanAppend(rows, table);
      ScanLinesNext(table, eol, rest, rows, Scan(rest, Between(rows + Clean(table))));
    }
  }

  /** Cells with a comma behind each. */
  function Cells(row: Row): string {
    if |row| == 0 then "" else PrintRow(row) + ","
  }

  lemma ScanCells(row: Row, rest: string, rows: Table)
    ensures Scan(Cells(row) + rest, Between(rows)) == Scan(rest, Between(rows).(row := TrimRow(row)))
  {
    if |row| == 0 {
      assert Cells(row) + rest == rest && TrimRow(row) == [];
    } else {
      assert Cells(row) + rest == PrintRow(row) + ("," + rest);
      ScanRow(row, "," + rest, Between(rows));
      assert [] + TrimRow(row[..|row| - 1]) == TrimRow(row[..|row| - 1]);
      ScanComma(rest, Scanner(rows, TrimRow(row[..|row| - 1]), row[|row| - 1], false));
      TrimRowLast(row);
    }
  }

  /** A cell that starts plainly and then opens a quote for good. */
  lemma ScanUnclosed(start: string, text: string, st: Scanner)
    requires !NeedsQuotes(start) && !st.inQuotes && st.cell == ""
    ensures Scan(start + ("\"" + DoubleQuotes(text)), st) == st.(cell := start + text, inQuotes := true)
  {
    var rest := "\"" + DoubleQuotes(text);
    ScanPlain(start, rest, st);
    assert rest[1..] == DoubleQuotes(text) && "" + start == start;
    ScanOpen(text, st.(cell := start, inQuotes := true));
  }

  lemma FinishUnclosed(table: Table, row: Row, text: string)
    ensures Finish(Scanner(Clean(table), TrimRow(row), text, true)) == Clean(table) + CleanRow(row + [text])
  {
    TrimRowSnoc(row, text);
    if row == [] && text == "" {
      assert Trim("") == "" && !NonBlank(TrimRow([""]));
      assert row + [text] == [""];
    }
  }

  lemma {:induction false} CleanSnoc(table: Table, row: Row)
    ensures Clean(table + [row]) == Clean(table) + CleanRow(row)
    decreases |table|
  {
    var all := table + [row];
    CleanCons(all);
    if |table| == 0 {
      assert all[1..] == [] && Clean([]) == [];
    } else {
      CleanSnoc(table[1..], row);
      CleanCons(table);
      assert all[1..] == table[1..] + [row];
    }
  }

  /** A file whose last cell opens a quote that no later quote closes. */
  function Unclosed(table: Table, eol: string, row: Row, start: string, text: string): string {
    Lines(table, eol) + (Cells(row) + (start + ("\"" + DoubleQuotes(text))))
  }

  lemma UnclosedStarts(row: Row, start: string, text: string)
    requires !NeedsQuotes(start)
    ensures StartsLine(Cells(row) + (start + ("\"" + DoubleQuotes(text))))
  {
    PrintRowStart(row);
    if start != "" {
      assert !Special(start[0]);
    }
  }

  /**
   A quote that is never closed swallows the rest of the file into one last cell,
   line ends, commas and doubled quotes included, wherever in a file it opens:
   behind any rows, behind any cells of its row, behind any plain start of its cell.
   */
  lemma UnclosedQuote(table: Table, eol: string, row: Row, start: string, text: string)
    requires LineEnd(eol) && !NeedsQuotes(start)
    ensures var file := Unclosed(table, eol, row, start, text);
      && Parse([BOM] + file) == Clean(table + [row + [start + text]])
      && (file[0] != BOM ==> Parse(file) == Parse([BOM] + file))
  {
    var file := Unclosed(table, eol, row, start, text);
    var opening := start + ("\"" + DoubleQuotes(text));
    UnclosedStarts(row, start, text);
    ScanLines(table, eol, Cells(row) + opening, []);
    assert [] + Clean(table) == Clean(table);
    ScanCells(row, opening, Clean(table));
    ScanUnclosed(start, text, Between(Clean(table)).(row := TrimRow(row)));
    FinishUnclosed(table, row, start + text);
    CleanSnoc(table, row + [start + text]);
    assert ([BOM] + file)[1..] == file;
  }

  // ---------------------------------------------------------- the format itself

  /** Quotes are doubled one by one, everything else is left alone: section 2, rule 7 of RFC 4180. */
  lemma {:induction false} DoublesQuotes(a: string, b: string)
    ensures DoubleQuotes(a + b) == DoubleQuotes(a) + DoubleQuotes(b)
  {
    if a == "" {
      assert a + b == b;
    } else {
      assert (a + b)[1..] == a[1..] + b;
      DoublesQuotes(a[1..], b);
    }
  }

  lemma DoublesOne(c: char)
    ensures DoubleQuotes([c]) == if c == '"' then "\"\"" else [c]
  {
    assert [c][1..] == "" && DoubleQuotes("") == "";
  }

  predicate Plain(text: string) {
    forall i :: 0 <= i < |text| ==> text[i] != '"' && text[i] != ',' && text[i] != '\n' && text[i] != '\r'
  }

  /** A cell is printed as it is when plain, and else between quotes with its quotes doubled. */
  lemma PrintsAs(text: string)
    ensures PrintText(text) == if Plain(text) then text else "\"" + DoubleQuotes(text) + "\""
  {
  }

  function CommaLines(table: Table): seq<string> {
    seq(|table|, i requires 0 <= i < |table| => Join(table[i], ","))
  }

  lemma PlainRow(row: Row)
    requires forall i :: 0 <= i < |row| ==> Plain(row[i])
    ensures PrintRow(row) == Join(row, ",")
  {
    forall i | 0 <= i < |row| ensures PrintText(row[i]) == row[i] {
      PrintsAs(row[i]);
    }
    assert PrintCells(row) == row;
  }

  /** A file without quotes is lines of cells between commas, under either line ending. */
  lemma PlainFile(table: Table, eol: string)
    requires eol == "\n" || eol == "\r\n"
    requires forall i, j :: 0 <= i < |table| && 0 <= j < |table[i]| ==> Plain(table[i][j])
    ensures Parse(Join(CommaLines(table), eol)) == Clean(table)
  {
    forall i | 0 <= i < |table| ensures PrintRow(table[i]) == Join(table[i], ",") {
      PlainRow(table[i]);
    }
    assert PrintRows(table) == CommaLines(table);
    var text := Join(CommaLines(table), eol);
    assert "" + text + "" == text;
    RoundTrip(table, eol, false, false);
  }

  // ------------------------------------------------------------ main results

  /**
   Printing and parsing again gives the table with every cell trimmed and every
   blank row gone, for any cells at all, under each line ending, with or without
   the byte-order mark and the last terminator.
   */
  lemma RoundTrip(table: Table, eol: string, bom: bool, last: bool)
    requires LineEnd(eol)
    ensures Parse(Print(table, eol, bom, last)) == Clean(table)
  {
    var body := Body(table, eol, last);
    PrintIsBody(table, eol, last);
    assert [] + Clean(table) == Clean(table);
    if !bom && body != "" && body[0] == BOM {
      LeadingBom(table, eol, last);
      CleanDropFirst(table);
      ScanTable(DropFirst(table), eol, last, []);
      assert [] + Clean(DropFirst(table)) == Clean(table);
    } else {
      assert StripBom(Print(table, eol, bom, last)) == body;
      ScanTable(table, eol, last, []);
    }
  }

  /** Parsed tables survive any further print and parse unchanged. */
  lemma ParsePrintParse(text: string, eol: string, bom: bool, last: bool)
    requires LineEnd(eol)
    ensures Parse(Print(Parse(text), eol, bom, last)) == Parse(text)
  {
    ParseIsNormal(text);
    CleanFixesNormal(Parse(text));
    RoundTrip(Parse(text), eol, bom, last);
  }
}
