/** The member export, and the rows the import screen makes of a file. */
module MemberExport {
  import opened Common
  import opened Text
  import opened Csv

  datatype Definition = Definition(key: string, caption: string, archivedAt: Option<string>)

  /** A member as the API shows it; an attribute value is its text, or null. */
  datatype MemberDto = MemberDto(
    code: string, fullName: string, email: Option<string>, phone: Option<string>, status: string,
    attributes: map<string, Option<string>>, consentAt: Option<string>, faceEnrolledAt: Option<string>)

  /** The keys of the definitions that are not archived, in order. */
  function ActiveKeys(definitions: seq<Definition>): seq<string> {
    if definitions == [] then []
    else if definitions[0].archivedAt.None? then [definitions[0].key] + ActiveKeys(definitions[1..])
    else ActiveKeys(definitions[1..])
  }

  const CORE_COLUMNS := ["code", "fullName", "email", "phone", "status"]
  const LAST_COLUMNS := ["consentAt", "faceEnrolledAt"]

  function Header(keys: seq<string>): seq<string> {
    CORE_COLUMNS + keys + LAST_COLUMNS
  }

  /** The value a member really has under a key. */
  function Attribute(member: MemberDto, key: string): Option<string> {
    if key in member.attributes then member.attributes[key] else None
  }

  /** `member.attributes[key]`: the member's value, or else what the prototype has under that name. */
  function Lookup(member: MemberDto, key: string): Option<string> {
    if key !in member.attributes && key in OBJECT_PROPERTIES then Some(FunctionText(key)) else Attribute(member, key)
  }

  function Values(member: MemberDto, keys: seq<string>): seq<Option<string>> {
    [Some(member.code), Some(member.fullName), member.email, member.phone, Some(member.status)]
    + seq(|keys|, i requires 0 <= i < |keys| => Lookup(member, keys[i]))
    + [member.consentAt, member.faceEnrolledAt]
  }

  function Cells(values: seq<Option<string>>): seq<string> {
    seq(|values|, i requires 0 <= i < |values| => CsvCell(values[i]))
  }

  function Lines(members: seq<MemberDto>, keys: seq<string>): seq<string> {
    seq(|members|, i requires 0 <= i < |members| => Join(Cells(Values(members[i], keys)), ","))
  }

  /** `toCsv`: the header names are joined as they are, without quoting. */
  function ToCsv(members: seq<MemberDto>, definitions: seq<Definition>): string {
    var keys := ActiveKeys(definitions);
    [BOM] + Join([Join(Header(keys), ",")] + Lines(members, keys), "\r\n") + "\r\n"
  }

  // -------------------------------------------------------- the import screen

  /** `Object.fromEntries(headers.map((h, i) => [h, cells[i] ?? '']))`: the last of equal names wins. */
  function RowObject(header: seq<string>, cells: seq<string>): map<string, string>
    decreases |header|
  {
    if |header| == 0 then map[]
    else
      var n := |header| - 1;
      RowObject(header[..n], cells)[header[n] := if n < |cells| then cells[n] else ""]
  }

  /** No column behind this one has its name. */
  predicate LastOfName(header: seq<string>, i: nat) {
    i < |header| && forall j :: i < j < |header| ==> header[j] != header[i]
  }

  lemma {:induction false} RowObjectAt(header: seq<string>, cells: seq<string>, i: nat)
    requires LastOfName(header, i)
    ensures header[i] in RowObject(header, cells)
    ensures RowObject(header, cells)[header[i]] == if i < |cells| then cells[i] else ""
    decreases |header|
  {
    var n := |header| - 1;
    if i < n {
      RowObjectAt(header[..n], cells, i);
    }
  }

  datatype Sheet = Sheet(header: seq<string>, rows: seq<map<string, string>>)

  /** `onFile`: a file needs a header and at least one data row. */
  function ReadFile(text: string): Option<Sheet> {
    var parsed := Parse(text);
    if |parsed| < 2 then None
    else
      Some(Sheet(parsed[0], seq(|parsed| - 1, i requires 0 <= i < |parsed| - 1 => RowObject(parsed[0], parsed[i + 1]))))
  }

  // ------------------------------------------------------ the export as a table

  function TextOf(value: Option<string>): string {
    value.GetOr("")
  }

  function Texts(values: seq<Option<string>>): Row {
    seq(|values|, i requires 0 <= i < |values| => TextOf(values[i]))
  }

  function Sheetlike(members: seq<MemberDto>, keys: seq<string>): Table {
    [Header(keys)] + seq(|members|, i requires 0 <= i < |members| => Texts(Values(members[i], keys)))
  }

  /** What the field-key rule allows: a lower-case letter, then letters and digits. */
  predicate FieldKey(key: string) {
    && key != "" && 'a' <= key[0] <= 'z'
    && forall i :: 0 <= i < |key| ==> 'a' <= key[i] <= 'z' || 'A' <= key[i] <= 'Z' || Digit(key[i])
  }

  predicate FieldKeys(keys: seq<string>) {
    && (forall i :: 0 <= i < |keys| ==> FieldKey(keys[i]))
    && (forall i, j :: 0 <= i < j < |keys| ==> keys[i] != keys[j])
  }

  lemma FieldKeyIsPlain(key: string)
    requires FieldKey(key)
    ensures !NeedsQuotes(key) && Trimmed(key) && Trim(key) == key
  {
  }

  lemma HeaderNames(keys: seq<string>)
    requires forall i :: 0 <= i < |keys| ==> FieldKey(keys[i])
    ensures forall i :: 0 <= i < |Header(keys)| ==> FieldKey(Header(keys)[i])
  {
    assert FieldKey("code") && FieldKey("fullName") && FieldKey("email") && FieldKey("phone") && FieldKey("status");
    assert FieldKey("consentAt") && FieldKey("faceEnrolledAt");
    forall i | 0 <= i < |Header(keys)| ensures FieldKey(Header(keys)[i]) {
      if 5 <= i < 5 + |keys| {
        assert Header(keys)[i] == keys[i - 5];
      }
    }
  }

  lemma HeaderPrints(keys: seq<string>)
    requires forall i :: 0 <= i < |keys| ==> FieldKey(keys[i])
    ensures PrintRow(Header(keys)) == Join(Header(keys), ",")
    ensures TrimRow(Header(keys)) == Header(keys) && NonBlank(Header(keys))
  {
    HeaderNames(keys);
    var header := Header(keys);
    forall i | 0 <= i < |header| ensures PrintText(header[i]) == header[i] && Trim(header[i]) == header[i] {
      FieldKeyIsPlain(header[i]);
    }
    assert PrintCells(header) == header && TrimRow(header) == header;
    assert header[0] == "code";
  }

  lemma CellsPrint(values: seq<Option<string>>)
    ensures Cells(values) == PrintCells(Texts(values))
  {
    assert !NeedsQuotes("");
  }

  lemma LinesPrint(members: seq<MemberDto>, keys: seq<string>)
    ensures forall i :: 0 <= i < |members| ==> Lines(members, keys)[i] == PrintRow(Sheetlike(members, keys)[i + 1])
  {
    forall i | 0 <= i < |members| ensures Lines(members, keys)[i] == PrintRow(Sheetlike(members, keys)[i + 1]) {
      CellsPrint(Values(members[i], keys));
    }
  }

  lemma SheetPrints(members: seq<MemberDto>, keys: seq<string>)
    requires forall i :: 0 <= i < |keys| ==> FieldKey(keys[i])
    ensures PrintRows(Sheetlike(members, keys)) == [Join(Header(keys), ",")] + Lines(members, keys)
  {
    HeaderPrints(keys);
    LinesPrint(members, keys);
    var sheet, lines := Sheetlike(members, keys), Lines(members, keys);
    assert sheet[0] == Header(keys) && |sheet| == |lines| + 1;
    forall i | 0 <= i < |sheet| ensures PrintRows(sheet)[i] == ([PrintRow(sheet[0])] + lines)[i] {
      assert i > 0 ==> lines[i - 1] == PrintRow(sheet[i - 1 + 1]);
    }
  }

  /** The exported text is the printed table: header, then one row a member. */
  lemma ToCsvPrints(members: seq<MemberDto>, definitions: seq<Definition>)
    requires forall i :: 0 <= i < |ActiveKeys(definitions)| ==> FieldKey(ActiveKeys(definitions)[i])
    ensures ToCsv(members, definitions) == Print(Sheetlike(members, ActiveKeys(definitions)), "\r\n", true, true)
  {
    SheetPrints(members, ActiveKeys(definitions));
  }

  predicate HasCode(member: MemberDto) {
    Trim(member.code) != ""
  }

  lemma {:induction false} CleanAll(table: Table)
    requires forall i :: 0 <= i < |table| ==> NonBlank(TrimRow(table[i]))
    ensures |Clean(table)| == |table|
    ensures forall i :: 0 <= i < |table| ==> Clean(table)[i] == TrimRow(table[i])
  {
    if |table| > 0 {
      CleanAll(table[1..]);
    }
  }

  /** The cells of an exported row as the parser hands them on. */
  function ReadCells(member: MemberDto, keys: seq<string>): Row {
    TrimRow(Texts(Values(member, keys)))
  }

  function RowObjects(members: seq<MemberDto>, keys: seq<string>): seq<map<string, string>> {
    seq(|members|, i requires 0 <= i < |members| => RowObject(Header(keys), ReadCells(members[i], keys)))
  }

  lemma SheetRows(members: seq<MemberDto>, keys: seq<string>)
    requires forall i :: 0 <= i < |members| ==> HasCode(members[i])
    ensures forall i :: 0 < i < |Sheetlike(members, keys)| ==>
      && TrimRow(Sheetlike(members, keys)[i]) == ReadCells(members[i - 1], keys)
      && NonBlank(ReadCells(members[i - 1], keys))
  {
    forall i | 0 < i < |Sheetlike(members, keys)|
      ensures TrimRow(Sheetlike(members, keys)[i]) == ReadCells(members[i - 1], keys)
        && NonBlank(ReadCells(members[i - 1], keys))
    {
      CodeCell(members[i - 1], keys);
    }
  }

  /** Nothing is lost when the exported table is cleaned: every member has a code. */
  lemma SheetClean(members: seq<MemberDto>, keys: seq<string>)
    requires forall i :: 0 <= i < |members| ==> HasCode(members[i])
    requires forall i :: 0 <= i < |keys| ==> FieldKey(keys[i])
    ensures var clean := Clean(Sheetlike(members, keys));
      && |clean| == |members| + 1 && clean[0] == Header(keys)
      && forall i :: 0 <= i < |members| ==> clean[i + 1] == ReadCells(members[i], keys)
  {
    var table := Sheetlike(members, keys);
    HeaderPrints(keys);
    SheetRows(members, keys);
    assert table[0] == Header(keys) && |table| == |members| + 1;
    CleanAll(table);
    forall i | 0 <= i < |members| ensures Clean(table)[i + 1] == ReadCells(members[i], keys) {
      assert TrimRow(table[i + 1]) == ReadCells(members[i], keys);
    }
  }

  lemma ExportParses(members: seq<MemberDto>, definitions: seq<Definition>)
    requires forall i :: 0 <= i < |members| ==> HasCode(members[i])
    requires forall i :: 0 <= i < |ActiveKeys(definitions)| ==> FieldKey(ActiveKeys(definitions)[i])
    ensures Parse(ToCsv(members, definitions)) == Clean(Sheetlike(members, ActiveKeys(definitions)))
  {
    ToCsvPrints(members, definitions);
    RoundTrip(Sheetlike(members, ActiveKeys(definitions)), "\r\n", true, true);
  }

  /**
   Exporting members and opening the file in the import screen gives one row
   object a member, each cell under its header name and trimmed.
   */
  lemma ExportReadsBack(members: seq<MemberDto>, definitions: seq<Definition>)
    requires members != [] && forall i :: 0 <= i < |members| ==> HasCode(members[i])
    requires forall i :: 0 <= i < |ActiveKeys(definitions)| ==> FieldKey(ActiveKeys(definitions)[i])
    ensures ReadFile(ToCsv(members, definitions))
         == Some(Sheet(Header(ActiveKeys(definitions)), RowObjects(members, ActiveKeys(definitions))))
  {
    var keys := ActiveKeys(definitions);
    ExportParses(members, definitions);
    SheetClean(members, keys);
    var read := ReadFile(ToCsv(members, definitions)).value;
    assert read.rows == RowObjects(members, keys);
  }

  lemma CodeCell(member: MemberDto, keys: seq<string>)
    requires HasCode(member)
    ensures NonBlank(TrimRow(Texts(Values(member, keys))))
  {
    var row := TrimRow(Texts(Values(member, keys)));
    assert row[0] == Trim(member.code);
  }

  /** The exported attribute columns: the fields that are not archived, in their order. */
  lemma {:induction false} ActiveKeysAre(definitions: seq<Definition>, key: string)
    ensures key in ActiveKeys(definitions) <==>
      exists i :: 0 <= i < |definitions| && definitions[i].key == key && definitions[i].archivedAt.None?
  {
    if definitions != [] {
      ActiveKeysAre(definitions[1..], key);
      if key in ActiveKeys(definitions[1..]) {
        var i :| 0 <= i < |definitions| - 1 && definitions[1..][i].key == key && definitions[1..][i].archivedAt.None?;
        assert definitions[i + 1].key == key && definitions[i + 1].archivedAt.None?;
      }
      forall i | 0 < i < |definitions| ensures definitions[i] == definitions[1..][i - 1] {
      }
    }
  }

  lemma {:induction false} ActiveKeysInOrder(front: seq<Definition>, back: seq<Definition>)
    ensures ActiveKeys(front + back) == ActiveKeys(front) + ActiveKeys(back)
  {
    if front == [] {
      assert front + back == back;
    } else {
      assert (front + back)[1..] == front[1..] + back;
      ActiveKeysInOrder(front[1..], back);
    }
  }

  /** An export without members is a header without data rows, which the import screen refuses. */
  lemma EmptyExportRefused(definitions: seq<Definition>)
    requires forall i :: 0 <= i < |ActiveKeys(definitions)| ==> FieldKey(ActiveKeys(definitions)[i])
    ensures ReadFile(ToCsv([], definitions)) == None
  {
    ExportParses([], definitions);
    SheetClean([], ActiveKeys(definitions));
  }
}
