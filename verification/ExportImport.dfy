/** From an export to the import's payloads: which members come back as they were. */
module ExportImport {
  import opened Common
  import opened Text
  import opened MemberExport
  import MemberImport

  const CORE_TARGETS := {"code", "fullName", "email", "phone"}

  function KeySet(keys: seq<string>): set<string> {
    set i | 0 <= i < |keys| :: keys[i]
  }

  /** Every target reads the column of its own name. */
  function IdentityMapping(keys: seq<string>): map<string, string> {
    map target | target in CORE_TARGETS + KeySet(keys) :: target
  }

  function CoreValue(member: MemberDto, target: string): Option<string> {
    match target
    case "code" => Some(member.code)
    case "fullName" => Some(member.fullName)
    case "email" => member.email
    case _ => member.phone
  }

  /** The member as the import should see it: absent values empty, everything trimmed. */
  function Expected(member: MemberDto, keys: seq<string>): MemberImport.Payload {
    MemberImport.Payload(
      map target | target in CORE_TARGETS :: Trim(TextOf(CoreValue(member, target))),
      map key | key in KeySet(keys) :: Trim(TextOf(Attribute(member, key))))
  }

  /** What `mapRow` makes of the member's exported row under the identity mapping. */
  function Reimported(member: MemberDto, keys: seq<string>): MemberImport.Payload {
    MemberImport.Mapped(RowObject(Header(keys), ReadCells(member, keys)), IdentityMapping(keys), KeySet(keys))
  }

  /** Column names that an attribute key must not repeat. */
  const TAKEN_COLUMNS := ["code", "fullName", "email", "phone", "consentAt", "faceEnrolledAt"]

  predicate NoClash(keys: seq<string>) {
    forall i :: 0 <= i < |keys| ==> keys[i] !in TAKEN_COLUMNS
  }

  // --------------------------------------------------------- finding the columns

  lemma CoreColumn(member: MemberDto, keys: seq<string>, i: nat)
    requires i < 4 && NoClash(keys)
    ensures var raw := RowObject(Header(keys), ReadCells(member, keys));
      Header(keys)[i] in raw && raw[Header(keys)[i]] == Trim(TextOf(Values(member, keys)[i]))
  {
    var header := Header(keys);
    forall j | i < j < |header| ensures header[j] != header[i] {
      if 5 <= j < 5 + |keys| {
        assert header[j] == keys[j - 5] && header[i] == TAKEN_COLUMNS[i];
      }
    }
    RowObjectAt(header, ReadCells(member, keys), i);
  }

  /** The name of an attribute does not come again behind its own column. */
  lemma AttributeIsLast(keys: seq<string>, i: nat)
    requires i < |keys| && NoClash(keys) && FieldKeys(keys)
    ensures LastOfName(Header(keys), 5 + i) && Header(keys)[5 + i] == keys[i]
  {
    var header := Header(keys);
    forall j | 5 + i < j < |header| ensures header[j] != keys[i] {
      if j < 5 + |keys| {
        assert header[j] == keys[j - 5];
      } else {
        assert header[j] == TAKEN_COLUMNS[4 + j - 5 - |keys|];
      }
    }
  }

  lemma AttributeCell(member: MemberDto, keys: seq<string>, i: nat)
    requires i < |keys|
    ensures |ReadCells(member, keys)| == |keys| + 7
    ensures ReadCells(member, keys)[5 + i] == Trim(TextOf(Lookup(member, keys[i])))
  {
    assert Values(member, keys)[5 + i] == Lookup(member, keys[i]);
  }

  lemma AttributeColumn(keys: seq<string>, cells: seq<string>, i: nat)
    requires i < |keys| && NoClash(keys) && FieldKeys(keys) && |cells| == |keys| + 7
    ensures keys[i] in RowObject(Header(keys), cells)
    ensures RowObject(Header(keys), cells)[keys[i]] == cells[5 + i]
  {
    AttributeIsLast(keys, i);
    RowObjectAt(Header(keys), cells, 5 + i);
  }

  lemma TrimTwice(s: string)
    ensures Trim(Trim(s)) == Trim(s)
  {
    TrimIsTrimmed(s);
    TrimFixesTrimmed(Trim(s));
  }

  lemma CoreAt(member: MemberDto, keys: seq<string>, i: nat)
    requires i < 4 && NoClash(keys)
    ensures TAKEN_COLUMNS[i] in Reimported(member, keys).core
    ensures Reimported(member, keys).core[TAKEN_COLUMNS[i]] == Trim(TextOf(Values(member, keys)[i]))
  {
    CoreColumn(member, keys, i);
    TrimTwice(TextOf(Values(member, keys)[i]));
    assert Header(keys)[i] == TAKEN_COLUMNS[i] && TAKEN_COLUMNS[i] in IdentityMapping(keys);
    assert TAKEN_COLUMNS[i] !in KeySet(keys);
  }

  lemma CoreTarget(member: MemberDto, keys: seq<string>, target: string)
    requires target in CORE_TARGETS && NoClash(keys)
    ensures target in Reimported(member, keys).core
    ensures Reimported(member, keys).core[target] == Trim(TextOf(CoreValue(member, target)))
  {
    var i := if target == "code" then 0 else if target == "fullName" then 1
             else if target == "email" then 2 else 3;
    assert TAKEN_COLUMNS[i] == target && Values(member, keys)[i] == CoreValue(member, target);
    CoreAt(member, keys, i);
  }

  lemma CoreKeys(member: MemberDto, keys: seq<string>)
    ensures Reimported(member, keys).core.Keys <= CORE_TARGETS
  {
  }

  lemma CoreComesBack(member: MemberDto, keys: seq<string>)
    requires NoClash(keys)
    ensures Reimported(member, keys).core == Expected(member, keys).core
  {
    CoreKeys(member, keys);
    forall target | target in CORE_TARGETS
      ensures target in Reimported(member, keys).core
        && Reimported(member, keys).core[target] == Trim(TextOf(CoreValue(member, target)))
    {
      CoreTarget(member, keys, target);
    }
  }

  /** What the import reads as an attribute is what the export looked up. */
  lemma AttributeAt(member: MemberDto, keys: seq<string>, key: string)
    requires NoClash(keys) && FieldKeys(keys) && key in KeySet(keys)
    ensures key in Reimported(member, keys).attributes
    ensures Reimported(member, keys).attributes[key] == Trim(TextOf(Lookup(member, key)))
  {
    var i :| 0 <= i < |keys| && keys[i] == key;
    AttributeCell(member, keys, i);
    AttributeColumn(keys, ReadCells(member, keys), i);
    TrimTwice(TextOf(Lookup(member, key)));
  }

  /** The member has a value of its own, null perhaps, under every key that objects inherit. */
  predicate OwnsInherited(member: MemberDto, keys: seq<string>) {
    forall i :: 0 <= i < |keys| && keys[i] in OBJECT_PROPERTIES ==> keys[i] in member.attributes
  }

  lemma AttributesComeBack(member: MemberDto, keys: seq<string>)
    requires NoClash(keys) && FieldKeys(keys) && OwnsInherited(member, keys)
    ensures Reimported(member, keys).attributes == Expected(member, keys).attributes
  {
    var attributes := Reimported(member, keys).attributes;
    forall key | key in KeySet(keys)
      ensures key in attributes && attributes[key] == Trim(TextOf(Attribute(member, key)))
    {
      AttributeAt(member, keys, key);
      var i :| 0 <= i < |keys| && keys[i] == key;
      assert keys[i] in OBJECT_PROPERTIES ==> keys[i] in member.attributes;
    }
  }

  // ---------------------------------------------------------- and losing them

  /** A core field whose name is also an attribute key goes to the attributes and is missing. */
  lemma CoreClash(member: MemberDto, keys: seq<string>, key: string)
    requires key in KeySet(keys) && key in CORE_TARGETS
    ensures Reimported(member, keys) != Expected(member, keys)
  {
    assert key !in Reimported(member, keys).core;
    assert key in Expected(member, keys).core;
  }

  /** The last column of a name is the one a row object keeps. */
  lemma LastColumn(member: MemberDto, keys: seq<string>, key: string)
    requires member.consentAt == None && member.faceEnrolledAt == None
    requires key == "consentAt" || key == "faceEnrolledAt"
    ensures var raw := RowObject(Header(keys), ReadCells(member, keys)); key in raw && raw[key] == ""
  {
    var header, values := Header(keys), Values(member, keys);
    var n := if key == "consentAt" then |keys| + 5 else |keys| + 6;
    assert header[n] == key && header[|keys| + 6] == "faceEnrolledAt" && |header| == |values| == |keys| + 7;
    assert values[n] == None && Trim("") == "";
    RowObjectAt(header, ReadCells(member, keys), n);
  }

  lemma LastColumnLoses(member: MemberDto, keys: seq<string>, key: string)
    requires member.consentAt == None && member.faceEnrolledAt == None
    requires key in KeySet(keys) && (key == "consentAt" || key == "faceEnrolledAt")
    requires key in member.attributes && member.attributes[key] == Some("x")
    ensures Reimported(member, keys) != Expected(member, keys)
  {
    LastColumn(member, keys, key);
    AttributeReads(RowObject(Header(keys), ReadCells(member, keys)), keys, key);
    AttributeExpected(member, keys, key, "x");
  }

  /** An attribute named like one of the last two columns reads that column instead. */
  lemma LastColumnClash(keys: seq<string>, key: string) returns (member: MemberDto)
    requires key in KeySet(keys) && (key == "consentAt" || key == "faceEnrolledAt")
    ensures HasCode(member) && Reimported(member, keys) != Expected(member, keys)
  {
    member := MemberDto("1", "A", None, None, "active", map[key := Some("x")], None, None);
    assert Trim("1") == "1";
    LastColumnLoses(member, keys, key);
  }

  lemma AttributeExpected(member: MemberDto, keys: seq<string>, key: string, value: string)
    requires key in KeySet(keys) && key in member.attributes && member.attributes[key] == Some(value)
    requires Trimmed(value)
    ensures var payload := Expected(member, keys);
      key in payload.attributes && payload.attributes[key] == value
  {
  }

  lemma AttributeReads(raw: map<string, string>, keys: seq<string>, key: string)
    requires key in KeySet(keys) && key in raw && raw[key] == "" && key != ""
    ensures var payload := MemberImport.Mapped(raw, IdentityMapping(keys), KeySet(keys));
      key in payload.attributes && payload.attributes[key] == ""
  {
    assert key in IdentityMapping(keys) && Trim("") == "";
  }

  lemma ClashLoses(keys: seq<string>) returns (member: MemberDto)
    requires !NoClash(keys)
    ensures HasCode(member) && Reimported(member, keys) != Expected(member, keys)
  {
    var i :| 0 <= i < |keys| && keys[i] in TAKEN_COLUMNS;
    assert keys[i] in KeySet(keys);
    if keys[i] in CORE_TARGETS {
      member := MemberDto("1", "A", None, None, "active", map[], None, None);
      assert Trim("1") == "1";
      CoreClash(member, keys, keys[i]);
    } else {
      member := LastColumnClash(keys, keys[i]);
    }
  }

  /** A printed function is never blank. */
  lemma FunctionShows(key: string)
    ensures Trim(FunctionText(key)) != ""
  {
    var text := FunctionText(key);
    assert text == "function " + ((if key == "constructor" then "Object" else key) + "() { [native code] }");
    assert text[0] == 'f' && text[|text| - 1] == '}';
    TrimFixesTrimmed(text);
  }

  /** A missing attribute comes back as the text of the function the export found instead. */
  lemma InheritedLoses(member: MemberDto, keys: seq<string>, i: nat)
    requires FieldKeys(keys) && NoClash(keys) && i < |keys|
    requires keys[i] in OBJECT_PROPERTIES && keys[i] !in member.attributes
    ensures Reimported(member, keys) != Expected(member, keys)
  {
    assert keys[i] in KeySet(keys);
    AttributeAt(member, keys, keys[i]);
    FunctionShows(keys[i]);
    assert Trim("") == "";
    assert Expected(member, keys).attributes[keys[i]] == "";
  }

  /**
   Export, parse, build the row objects, map them: while no attribute key repeats
   a column, a member comes back with its code, name, email, phone and attributes
   exactly when it lacks no attribute whose key is also an inherited name.
   */
  lemma MemberComesBackIff(member: MemberDto, keys: seq<string>)
    requires FieldKeys(keys) && NoClash(keys)
    ensures Reimported(member, keys) == Expected(member, keys) <==> OwnsInherited(member, keys)
  {
    if OwnsInherited(member, keys) {
      CoreComesBack(member, keys);
      AttributesComeBack(member, keys);
    } else {
      var i :| 0 <= i < |keys| && keys[i] in OBJECT_PROPERTIES && keys[i] !in member.attributes;
      InheritedLoses(member, keys, i);
    }
  }

  predicate NoneInherited(keys: seq<string>) {
    forall i :: 0 <= i < |keys| ==> keys[i] !in OBJECT_PROPERTIES
  }

  /** Of the names that objects inherit, a field key can be these seven. */
  lemma InheritedNames(key: string)
    requires FieldKey(key)
    ensures key in OBJECT_PROPERTIES <==>
      key in {"constructor", "toString", "valueOf", "hasOwnProperty", "isPrototypeOf", "propertyIsEnumerable",
              "toLocaleString"}
  {
    assert key[0] != '_';
  }

  /** A member without attributes, for a set of keys with an inherited name among them. */
  lemma InheritedClash(keys: seq<string>) returns (member: MemberDto)
    requires FieldKeys(keys) && NoClash(keys) && !NoneInherited(keys)
    ensures HasCode(member) && Reimported(member, keys) != Expected(member, keys)
  {
    member := MemberDto("1", "A", None, None, "active", map[], None, None);
    assert Trim("1") == "1";
    var i :| 0 <= i < |keys| && keys[i] in OBJECT_PROPERTIES;
    InheritedLoses(member, keys, i);
  }

  ghost predicate AllComeBack(keys: seq<string>) {
    forall member :: HasCode(member) ==> Reimported(member, keys) == Expected(member, keys)
  }

  /**
   Every member comes back, whatever its values, exactly when no attribute key
   repeats one of the columns that the export itself writes and none is a name
   that objects inherit.
   */
  lemma ComesBackIff(keys: seq<string>)
    requires FieldKeys(keys)
    ensures AllComeBack(keys) <==> NoClash(keys) && NoneInherited(keys)
  {
    if !NoClash(keys) {
      var member := ClashLoses(keys);
    } else if !NoneInherited(keys) {
      var member := InheritedClash(keys);
    } else {
      forall member | HasCode(member) ensures Reimported(member, keys) == Expected(member, keys) {
        MemberComesBackIff(member, keys);
      }
    }
  }

  /** Every column of the identity mapping is in the file, so no row can make `mapRow` throw. */
  lemma RowsReadable(member: MemberDto, keys: seq<string>)
    requires FieldKeys(keys) && NoClash(keys)
    ensures MemberImport.RowReadable(
      RowObject(Header(keys), ReadCells(member, keys)), IdentityMapping(keys), OBJECT_PROPERTIES)
  {
    var raw, mapping := RowObject(Header(keys), ReadCells(member, keys)), IdentityMapping(keys);
    forall target | target in mapping ensures target in raw {
      if target in KeySet(keys) {
        var i :| 0 <= i < |keys| && keys[i] == target;
        AttributeCell(member, keys, i);
        AttributeColumn(keys, ReadCells(member, keys), i);
      } else {
        var i := if target == "code" then 0 else if target == "fullName" then 1
                 else if target == "email" then 2 else 3;
        CoreColumn(member, keys, i);
        assert Header(keys)[i] == target;
      }
    }
  }

  /** The pipeline as a whole, for a file of any number of members. */
  lemma ExportThenImport(members: seq<MemberDto>, definitions: seq<Definition>)
    requires members != [] && forall i :: 0 <= i < |members| ==> HasCode(members[i])
    requires FieldKeys(ActiveKeys(definitions)) && NoClash(ActiveKeys(definitions))
    ensures var keys := ActiveKeys(definitions);
      var sheet := ReadFile(ToCsv(members, definitions));
      && sheet.Some? && |sheet.value.rows| == |members|
      && forall i :: 0 <= i < |members| ==>
           var payload := MemberImport.Mapped(sheet.value.rows[i], IdentityMapping(keys), KeySet(keys));
           && MemberImport.RowReadable(sheet.value.rows[i], IdentityMapping(keys), OBJECT_PROPERTIES)
           && (payload == Expected(members[i], keys) <==> OwnsInherited(members[i], keys))
  {
    var keys := ActiveKeys(definitions);
    ExportReadsBack(members, definitions);
    forall i | 0 <= i < |members|
      ensures Reimported(members[i], keys) == Expected(members[i], keys) <==> OwnsInherited(members[i], keys)
      ensures MemberImport.RowReadable(
        RowObjects(members, keys)[i], IdentityMapping(keys), OBJECT_PROPERTIES)
    {
      MemberComesBackIff(members[i], keys);
      RowsReadable(members[i], keys);
    }
  }

  // ------------------------------------------------ the columns nobody imports

  lemma LastTwoColumns(keys: seq<string>)
    ensures var header := Header(keys);
      && |header| == |keys| + 7 && header[|keys| + 5] == "consentAt" && header[|keys| + 6] == "faceEnrolledAt"
      && LastOfName(header, |keys| + 5) && LastOfName(header, |keys| + 6)
  {
  }

  lemma StatusIsLast(keys: seq<string>)
    requires "status" !in keys
    ensures Header(keys)[4] == "status" && LastOfName(Header(keys), 4)
  {
    var header := Header(keys);
    forall j | 4 < j < |header| ensures header[j] != "status" {
      if j < 5 + |keys| {
        assert header[j] == keys[j - 5];
      }
    }
  }

  /** The export also tells status, consent date and enrolment date, each under its own name. */
  lemma OtherColumns(member: MemberDto, keys: seq<string>)
    ensures var raw := RowObject(Header(keys), ReadCells(member, keys));
      && "consentAt" in raw && raw["consentAt"] == Trim(TextOf(member.consentAt))
      && "faceEnrolledAt" in raw && raw["faceEnrolledAt"] == Trim(TextOf(member.faceEnrolledAt))
      && ("status" !in keys ==> "status" in raw && raw["status"] == Trim(member.status))
  {
    var cells := ReadCells(member, keys);
    LastTwoColumns(keys);
    assert cells[|keys| + 5] == Trim(TextOf(member.consentAt));
    assert cells[|keys| + 6] == Trim(TextOf(member.faceEnrolledAt)) && cells[4] == Trim(member.status);
    RowObjectAt(Header(keys), cells, |keys| + 5);
    RowObjectAt(Header(keys), cells, |keys| + 6);
    if "status" !in keys {
      StatusIsLast(keys);
      RowObjectAt(Header(keys), cells, 4);
    }
  }

  // ------------------------------------------------------- guessing the mapping

  /** A field the import can fill: its key and the caption shown for it. */
  datatype Target = Target(key: string, caption: string)

  /** Same letters and digits as the key or the caption, once both are normalised. */
  predicate Resembles(header: string, target: Target, normalise: string -> string) {
    normalise(header) == normalise(target.key) || normalise(header) == normalise(target.caption)
  }

  /** `headerRow.find(...)` */
  function FirstResembling(header: seq<string>, target: Target, normalise: string -> string): Option<string> {
    if header == [] then None
    else if Resembles(header[0], target, normalise) then Some(header[0])
    else FirstResembling(header[1..], target, normalise)
  }

  function Guessed(header: seq<string>, targets: seq<Target>, normalise: string -> string): map<string, string>
    decreases |targets|
  {
    if |targets| == 0 then map[]
    else
      var before := Guessed(header, targets[..|targets| - 1], normalise);
      var target := targets[|targets| - 1];
      var found := FirstResembling(header, target, normalise).GetOr("");
      if found == "" then before else before[target.key := found]
  }

  /** The loop that fills in the column choices. */
  method GuessMapping(header: seq<string>, targets: seq<Target>, normalise: string -> string)
    returns (guessed: map<string, string>)
    ensures guessed == Guessed(header, targets, normalise)
  {
    guessed := map[];
    for i := 0 to |targets|
      invariant guessed == Guessed(header, targets[..i], normalise)
    {
      assert targets[..i + 1][..i] == targets[..i];
      var found := FirstResembling(header, targets[i], normalise).GetOr("");
      if found != "" {
        guessed := guessed[targets[i].key := found];
      }
    }
    assert targets[..|targets|] == targets;
  }

  lemma {:induction false} FirstIs(header: seq<string>, target: Target, normalise: string -> string, i: nat)
    requires i < |header| && header[i] == target.key && target.key !in header[..i]
    ensures FirstResembling(header, target, normalise) == Some(target.key)
       <==> forall j :: 0 <= j < i ==> !Resembles(header[j], target, normalise)
  {
    if i > 0 {
      assert header[0] in header[..i];
      if !Resembles(header[0], target, normalise) {
        assert header[1..][..i - 1] == header[..i][1..];
        FirstIs(header[1..], target, normalise, i - 1);
        assert forall j :: 0 <= j < i - 1 ==> header[1..][j] == header[j + 1];
      }
    }
  }

  /** Every target is guessed to read the column of its own name. */
  predicate AllOwn(guessed: map<string, string>, targets: seq<Target>) {
    forall i :: 0 <= i < |targets| ==> targets[i].key in guessed && guessed[targets[i].key] == targets[i].key
  }

  lemma {:induction false} GuessedAt(header: seq<string>, targets: seq<Target>, normalise: string -> string, i: nat)
    requires i < |targets|
    requires forall j, k :: 0 <= j < k < |targets| ==> targets[j].key != targets[k].key
    ensures var found := FirstResembling(header, targets[i], normalise).GetOr("");
      var guessed := Guessed(header, targets, normalise);
      if found == "" then targets[i].key !in guessed
      else targets[i].key in guessed && guessed[targets[i].key] == found
    decreases |targets|
  {
    var n := |targets| - 1;
    if i < n {
      GuessedAt(header, targets[..n], normalise, i);
    } else {
      GuessedKeys(header, targets[..n], normalise, targets[n].key);
    }
  }

  lemma {:induction false} GuessedKeys(header: seq<string>, targets: seq<Target>,
                                       normalise: string -> string, key: string)
    requires forall j :: 0 <= j < |targets| ==> targets[j].key != key
    ensures key !in Guessed(header, targets, normalise)
    decreases |targets|
  {
    if |targets| > 0 {
      GuessedKeys(header, targets[..|targets| - 1], normalise, key);
    }
  }

  /** No column in front of the first of the target's name resembles the target. */
  predicate Unmistakable(header: seq<string>, target: Target, normalise: string -> string) {
    forall j :: 0 <= j < |header| && InFront(header, target.key, j) ==> !Resembles(header[j], target, normalise)
  }

  /** Column `j` comes before any column of this name. */
  predicate InFront(header: seq<string>, key: string, j: nat)
    requires j < |header|
  {
    key !in header[..j + 1]
  }

  lemma FirstOf(header: seq<string>, key: string) returns (p: nat)
    requires key in header
    ensures p < |header| && header[p] == key && key !in header[..p]
    ensures forall j :: 0 <= j < |header| ==> (InFront(header, key, j) <==> j < p)
  {
    p := 0;
    while header[p] != key
      invariant p < |header| && key !in header[..p] && key in header[p..]
      decreases |header| - p
    {
      assert header[..p + 1] == header[..p] + [header[p]] && header[p..] == [header[p]] + header[p + 1..];
      p := p + 1;
    }
    forall j | 0 <= j < |header| ensures InFront(header, key, j) <==> j < p {
      if j < p {
        assert header[..j + 1] == header[..p][..j + 1];
      } else {
        assert header[..j + 1][p] == key;
      }
    }
  }

  /**
   Opening an export, the screen guesses the identity mapping exactly when no
   target's key or caption resembles a column further left than its own.
   A field captioned "Email" behind the core column is mapped to the wrong one.
   */
  lemma GuessIsIdentityIff(header: seq<string>, targets: seq<Target>, normalise: string -> string)
    requires forall j, k :: 0 <= j < k < |targets| ==> targets[j].key != targets[k].key
    requires forall i :: 0 <= i < |targets| ==> targets[i].key != "" && targets[i].key in header
    ensures AllOwn(Guessed(header, targets, normalise), targets)
       <==> forall i :: 0 <= i < |targets| ==> Unmistakable(header, targets[i], normalise)
  {
    var guessed := Guessed(header, targets, normalise);
    forall i | 0 <= i < |targets|
      ensures (targets[i].key in guessed && guessed[targets[i].key] == targets[i].key)
         <==> Unmistakable(header, targets[i], normalise)
    {
      var p := FirstOf(header, targets[i].key);
      GuessedAt(header, targets, normalise, i);
      FirstIs(header, targets[i], normalise, p);
    }
  }

  /** Such a field: captioned like the core column that the export prints in front of it. */
  lemma GuessMisses(normalise: string -> string)
    requires normalise("email") == normalise("Email")
    ensures var header, targets := Header(["parentEmail"]), [Target("parentEmail", "Email")];
      var guessed := Guessed(header, targets, normalise);
      && "parentEmail" in header && "parentEmail" in guessed
      && guessed["parentEmail"] != "parentEmail" && !AllOwn(guessed, targets)
  {
    var header, target := Header(["parentEmail"]), Target("parentEmail", "Email");
    assert header[5] == "parentEmail" && header[2] == "email";
    FirstIsEarly(header, target, normalise, 2);
    assert [target][..0] == [];
    assert Guessed(header, [], normalise) == map[];
  }

  /** Whatever is found stands no further right than the first column known to resemble. */
  lemma {:induction false} FirstIsEarly(header: seq<string>, target: Target, normalise: string -> string, i: nat)
    requires i < |header| && Resembles(header[i], target, normalise)
    ensures var found := FirstResembling(header, target, normalise);
      found.Some? && exists j :: 0 <= j <= i && found.value == header[j]
  {
    if !Resembles(header[0], target, normalise) {
      FirstIsEarly(header[1..], target, normalise, i - 1);
      var j :| 0 <= j <= i - 1 && FirstResembling(header[1..], target, normalise).value == header[1..][j];
      assert header[j + 1] == header[1..][j];
    }
  }
}
