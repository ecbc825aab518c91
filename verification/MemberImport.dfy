/**
 The bulk member import: map columns, validate every row, report every problem,
 and only then write all rows or none.
 */
module MemberImport {
  import opened Common
  import opened Text

  type Code = string
  type Id = string
  type Raw = map<string, string>

  // ---------------------------------------------------------- column mapping

  /** What is handed to the validation schema. */
  datatype Payload = Payload(core: map<string, string>, attributes: map<string, string>)

  /** `(raw[column] ?? '').trim()` */
  function Column(raw: Raw, column: string): string {
    Trim(if column in raw then raw[column] else "")
  }

  /** `(raw[column] ?? '').trim()` does not throw, where objects inherit these names. */
  predicate Readable(raw: Raw, column: string, inherited: set<string>) {
    column in raw || column !in inherited
  }

  predicate RowReadable(raw: Raw, mapping: map<string, string>, inherited: set<string>) {
    forall target :: target in mapping && mapping[target] != "" ==> Readable(raw, mapping[target], inherited)
  }

  /** The first `n` rows can be mapped. */
  predicate ReadableTo(rows: seq<Raw>, mapping: map<string, string>, inherited: set<string>, n: nat)
    requires n <= |rows|
  {
    n == 0 || (ReadableTo(rows, mapping, inherited, n - 1) && RowReadable(rows[n - 1], mapping, inherited))
  }

  predicate AllReadable(rows: seq<Raw>, mapping: map<string, string>, inherited: set<string>) {
    ReadableTo(rows, mapping, inherited, |rows|)
  }

  lemma {:induction false} ReadableToIff(rows: seq<Raw>, mapping: map<string, string>, inherited: set<string>, n: nat)
    requires n <= |rows|
    ensures ReadableTo(rows, mapping, inherited, n)
       <==> forall i :: 0 <= i < n ==> RowReadable(rows[i], mapping, inherited)
  {
    if n > 0 {
      ReadableToIff(rows, mapping, inherited, n - 1);
    }
  }

  /** The mapped targets that are (`dynamic`) or are not attribute keys, with their values. */
  function Picked(raw: Raw, mapping: map<string, string>, targets: set<string>): map<string, string>
    requires targets <= mapping.Keys
  {
    map target | target in targets && mapping[target] != "" :: Column(raw, mapping[target])
  }

  /**
   Core columns and attributes of one row. A core column called `attributes` is
   lost, because the object literal puts the attributes over it.
   */
  function Mapped(raw: Raw, mapping: map<string, string>, attributeKeys: set<string>): Payload {
    Payload(Picked(raw, mapping, mapping.Keys - attributeKeys - {"attributes"}),
            Picked(raw, mapping, mapping.Keys * attributeKeys))
  }

  lemma PickedNext(raw: Raw, mapping: map<string, string>, done: set<string>, target: string)
    requires done <= mapping.Keys && target in mapping
    ensures Picked(raw, mapping, done + {target})
         == if mapping[target] != "" then Picked(raw, mapping, done)[target := Column(raw, mapping[target])]
            else Picked(raw, mapping, done)
  {
  }

  /** `mapRow`: visits the mapping entry by entry; the order does not matter. None means it throws. */
  method MapRow(raw: Raw, mapping: map<string, string>, attributeKeys: set<string>, inherited: set<string>)
    returns (payload: Option<Payload>)
    ensures payload
      == if RowReadable(raw, mapping, inherited) then Some(Mapped(raw, mapping, attributeKeys)) else None
  {
    var core: map<string, string> := map[];
    var attributes: map<string, string> := map[];
    var todo := mapping.Keys;
    ghost var dynamic, fixed: set<string> := {}, {};
    while todo != {}
      invariant todo <= mapping.Keys
      invariant forall t :: t in mapping.Keys - todo && mapping[t] != "" ==> Readable(raw, mapping[t], inherited)
      invariant fixed == mapping.Keys - attributeKeys - todo && core == Picked(raw, mapping, fixed)
      invariant dynamic == mapping.Keys * attributeKeys - todo && attributes == Picked(raw, mapping, dynamic)
    {
      var target :| target in todo;
      todo := todo - {target};
      PickedNext(raw, mapping, if target in attributeKeys then dynamic else fixed, target);
      if target in attributeKeys {
        dynamic := dynamic + {target};
      } else {
        fixed := fixed + {target};
      }
      var column := mapping[target];
      if column != "" {
        if column !in raw && column in inherited {
          assert !Readable(raw, mapping[target], inherited);
          return None;
        }
        var value := Column(raw, column);
        if target in attributeKeys {
          attributes := attributes[target := value];
        } else {
          core := core[target := value];
        }
      }
    }
    assert mapping.Keys - todo == mapping.Keys;
    assert RowReadable(raw, mapping, inherited) by {
      assert forall t :: t in mapping ==> t in mapping.Keys - todo;
    }
    assert fixed == mapping.Keys - attributeKeys && dynamic == mapping.Keys * attributeKeys;
    assert core - {"attributes"} == Picked(raw, mapping, fixed - {"attributes"});
    payload := Some(Payload(core - {"attributes"}, attributes));
  }

  // -------------------------------------------------------------- validation

  datatype Record = Record(
    code: Code, fullName: string, email: Option<string>, phone: Option<string>,
    attributes: map<string, string>)

  datatype Issue = Issue(field: string, message: string)

  /** The schema either gives a record or complains at least once. */
  datatype Verdict = Valid(record: Record) | Rejected(first: Issue, more: seq<Issue>)

  datatype Reason =
    | Invalid(issue: Issue)
    | DuplicateOf(firstRow: nat)
    | Exists(code: Code)

  datatype RowError = RowError(row: nat, reason: Reason)

  /** Row 1 is the header, so data starts at row 2. */
  const FIRST_DATA_ROW := 2

  datatype Entry = Entry(row: nat, data: Record)

  predicate IsAt(verdicts: seq<Verdict>, i: nat, code: Code)
    requires i < |verdicts|
  {
    verdicts[i].Valid? && verdicts[i].record.code == code
  }

  predicate Has(verdicts: seq<Verdict>, n: nat, code: Code)
    requires n <= |verdicts|
  {
    exists i :: 0 <= i < n && IsAt(verdicts, i, code)
  }

  /** The first row that carries a code. */
  function First(verdicts: seq<Verdict>, n: nat, code: Code): (first: nat)
    requires n <= |verdicts| && Has(verdicts, n, code)
    ensures first < n && IsAt(verdicts, first, code)
    ensures !Has(verdicts, first, code)
  {
    if Has(verdicts, n - 1, code) then First(verdicts, n - 1, code) else n - 1
  }

  predicate Accepted(verdicts: seq<Verdict>, i: nat)
    requires i < |verdicts|
  {
    verdicts[i].Valid? && !Has(verdicts, i, verdicts[i].record.code)
  }

  /** The codes seen so far, with the row each was first accepted on: `seenCodes`. */
  function Seen(verdicts: seq<Verdict>, n: nat): map<Code, nat>
    requires n <= |verdicts|
  {
    if n == 0 then map[]
    else if Accepted(verdicts, n - 1) then
      Seen(verdicts, n - 1)[verdicts[n - 1].record.code := n - 1 + FIRST_DATA_ROW]
    else Seen(verdicts, n - 1)
  }

  lemma {:induction false} SeenIsFirst(verdicts: seq<Verdict>, n: nat, code: Code)
    requires n <= |verdicts|
    ensures code in Seen(verdicts, n) <==> Has(verdicts, n, code)
    ensures code in Seen(verdicts, n) ==>
      Seen(verdicts, n)[code] == First(verdicts, n, code) + FIRST_DATA_ROW
  {
    if n > 0 {
      SeenIsFirst(verdicts, n - 1, code);
      HasNext(verdicts, n - 1);
    }
  }

  /** The rows that pass validation and do not repeat an earlier one. */
  function Prepared(verdicts: seq<Verdict>, n: nat): seq<Entry>
    requires n <= |verdicts|
  {
    if n == 0 then []
    else if Accepted(verdicts, n - 1) then
      Prepared(verdicts, n - 1) + [Entry(n - 1 + FIRST_DATA_ROW, verdicts[n - 1].record)]
    else Prepared(verdicts, n - 1)
  }

  function IssueErrors(row: nat, issues: seq<Issue>): seq<RowError> {
    seq(|issues|, i requires 0 <= i < |issues| => RowError(row, Invalid(issues[i])))
  }

  function RowProblems(verdicts: seq<Verdict>, i: nat): seq<RowError>
    requires i < |verdicts|
  {
    match verdicts[i]
    case Rejected(first, more) => IssueErrors(i + FIRST_DATA_ROW, [first] + more)
    case Valid(record) =>
      if Has(verdicts, i, record.code)
      then [RowError(i + FIRST_DATA_ROW,
                     DuplicateOf(First(verdicts, i, record.code) + FIRST_DATA_ROW))]
      else []
  }

  function FileErrors(verdicts: seq<Verdict>, n: nat): seq<RowError>
    requires n <= |verdicts|
  {
    if n == 0 then [] else FileErrors(verdicts, n - 1) + RowProblems(verdicts, n - 1)
  }

  // ------------------------------------------------------------- the database

  datatype Member = Member(
    tenant: string, code: Code, fullName: string, email: Option<string>, phone: Option<string>,
    attributes: map<string, string>, consentAt: Option<int>, consentVersion: Option<string>)

  type Members = map<Id, Member>

  /** The index `members_tenant_id_code_key`. */
  ghost predicate UniqueCodes(members: Members) {
    forall a, b :: a in members && b in members && a != b && members[a].tenant == members[b].tenant
      ==> members[a].code != members[b].code
  }

  /** `view` is the tenant's members by code. */
  ghost predicate Shows(view: map<Code, Member>, members: Members, tenant: string) {
    && (forall id :: id in members && members[id].tenant == tenant ==>
          members[id].code in view && view[members[id].code] == members[id])
    && (forall code :: code in view ==> CodeTaken(members, tenant, code))
  }

  predicate CodeTaken(members: Members, tenant: string, code: Code) {
    exists id :: id in members && members[id].tenant == tenant && members[id].code == code
  }

  /** The ids of the tenant's members among some codes. */
  function IdsByCode(members: Members, tenant: string, codes: set<Code>): map<Code, Id>
    requires UniqueCodes(members)
  {
    map id | id in members && members[id].tenant == tenant && members[id].code in codes
      :: members[id].code := id
  }

  function EntryCodes(entries: seq<Entry>): set<Code> {
    set i | 0 <= i < |entries| :: entries[i].data.code
  }

  // ----------------------------------------------------------------- planning

  /** Prepared rows split by what the database already holds. */
  datatype Plan = Plan(create: seq<Entry>, update: seq<Entry>, conflicts: seq<RowError>)

  function Split(prepared: seq<Entry>, existing: set<Code>, updateExisting: bool): Plan
    decreases |prepared|
  {
    if |prepared| == 0 then Plan([], [], [])
    else
      var front := Split(prepared[..|prepared| - 1], existing, updateExisting);
      var entry := prepared[|prepared| - 1];
      if entry.data.code !in existing then front.(create := front.create + [entry])
      else if updateExisting then front.(update := front.update + [entry])
      else front.(conflicts := front.conflicts + [RowError(entry.row, Exists(entry.data.code))])
  }

  // ------------------------------------------------------------------ writing

  /** Import never grants consent. */
  function NewMember(tenant: string, data: Record): Member {
    Member(tenant, data.code, data.fullName, data.email, data.phone, data.attributes, None, None)
  }

  /** The columns an update writes. */
  function Patched(member: Member, data: Record): Member {
    member.(fullName := data.fullName, email := data.email, phone := data.phone,
            attributes := data.attributes)
  }

  function CreateAll(members: Members, tenant: string, entries: seq<Entry>, newId: nat -> Id): Members
    decreases |entries|
  {
    if |entries| == 0 then members
    else
      var k := |entries| - 1;
      CreateAll(members, tenant, entries[..k], newId)[newId(k) := NewMember(tenant, entries[k].data)]
  }

  function UpdateAll(members: Members, entries: seq<Entry>, ids: map<Code, Id>): Members
    decreases |entries|
  {
    if |entries| == 0 then members
    else
      var before := UpdateAll(members, entries[..|entries| - 1], ids);
      var data := entries[|entries| - 1].data;
      if data.code in ids && ids[data.code] in before
      then before[ids[data.code] := Patched(before[ids[data.code]], data)]
      else before
  }

  // ------------------------------------------------------------------ the run

  datatype Options = Options(dryRun: bool, updateExisting: bool)

  datatype Report = Report(
    dryRun: bool, totalRows: nat, valid: nat, created: nat, updated: nat, skipped: int,
    errors: seq<RowError>)

  /** A run ends with a report, or it throws: while mapping the rows, or in the transaction. */
  datatype Outcome = Done(report: Report) | RolledBack | Crashed

  function Verdicts(rows: seq<Raw>, mapping: map<string, string>, attributeKeys: set<string>,
                    validate: Payload -> Verdict): seq<Verdict> {
    seq(|rows|, i requires 0 <= i < |rows| => VerdictOf(rows[i], mapping, attributeKeys, validate))
  }

  function VerdictOf(raw: Raw, mapping: map<string, string>, attributeKeys: set<string>,
                     validate: Payload -> Verdict): Verdict {
    validate(Mapped(raw, mapping, attributeKeys))
  }

  function PreparedIds(members: Members, tenant: string, verdicts: seq<Verdict>): map<Code, Id>
    requires UniqueCodes(members)
  {
    IdsByCode(members, tenant, EntryCodes(Prepared(verdicts, |verdicts|)))
  }

  /** Everything a run decides before it writes. */
  function MakePlan(members: Members, tenant: string, verdicts: seq<Verdict>, updateExisting: bool): Plan
    requires UniqueCodes(members)
  {
    Split(Prepared(verdicts, |verdicts|), PreparedIds(members, tenant, verdicts).Keys, updateExisting)
  }

  function Errors(members: Members, tenant: string, verdicts: seq<Verdict>, updateExisting: bool)
    : seq<RowError>
    requires UniqueCodes(members)
  {
    FileErrors(verdicts, |verdicts|) + MakePlan(members, tenant, verdicts, updateExisting).conflicts
  }

  /** Nothing is written on a dry run or while any row has a problem. */
  predicate Writes(members: Members, tenant: string, verdicts: seq<Verdict>, options: Options)
    requires UniqueCodes(members)
  {
    !options.dryRun && Errors(members, tenant, verdicts, options.updateExisting) == []
  }

  function ReportOf(members: Members, tenant: string, verdicts: seq<Verdict>, options: Options): Report
    requires UniqueCodes(members)
  {
    var plan := MakePlan(members, tenant, verdicts, options.updateExisting);
    var valid := |plan.create| + |plan.update|;
    var writes := Writes(members, tenant, verdicts, options);
    Report(options.dryRun, |verdicts|, valid,
           if writes then |plan.create| else 0, if writes then |plan.update| else 0,
           |verdicts| - valid, Errors(members, tenant, verdicts, options.updateExisting))
  }

  /** The members after the transaction of a run that writes. */
  function Committed(members: Members, tenant: string, verdicts: seq<Verdict>,
                     updateExisting: bool, newId: nat -> Id): Members
    requires UniqueCodes(members)
  {
    var plan := MakePlan(members, tenant, verdicts, updateExisting);
    UpdateAll(CreateAll(members, tenant, plan.create, newId), plan.update,
              PreparedIds(members, tenant, verdicts))
  }

  /** A run whose rows could all be mapped: what is answered and what the table then holds. */
  function AfterRun(members: Members, tenant: string, verdicts: seq<Verdict>, options: Options,
                    newId: nat -> Id, commits: bool): (Outcome, Members)
    requires UniqueCodes(members)
  {
    if !Writes(members, tenant, verdicts, options) then
      (Done(ReportOf(members, tenant, verdicts, options)), members)
    else if !commits then (RolledBack, members)
    else
      (Done(ReportOf(members, tenant, verdicts, options)),
       Committed(members, tenant, verdicts, options.updateExisting, newId))
  }

  /** A run from start to end. */
  function AfterImport(members: Members, tenant: string, rows: seq<Raw>, mapping: map<string, string>,
                       attributeKeys: set<string>, options: Options, validate: Payload -> Verdict,
                       newId: nat -> Id, commits: bool): (Outcome, Members)
    requires UniqueCodes(members)
  {
    if !AllReadable(rows, mapping, OBJECT_PROPERTIES) then (Crashed, members)
    else AfterRun(members, tenant, Verdicts(rows, mapping, attributeKeys, validate), options, newId, commits)
  }

  /** Ids the database hands out: pairwise distinct and not in use. */
  ghost predicate FreshIds(newId: nat -> Id, members: Members) {
    && (forall k: nat :: newId(k) !in members)
    && (forall j: nat, k: nat :: newId(j) == newId(k) ==> j == k)
  }

  /** The `members` table, every tenant's rows in it. */
  class MemberTable {
    var members: Members

    constructor ()
      ensures members == map[]
    {
      members := map[];
    }

    /**
     `run`. `validate` is the schema, `newId` the ids the database will hand out,
     and `commits` says whether the transaction goes through.
     */
    method Run(tenant: string, rows: seq<Raw>, mapping: map<string, string>,
               attributeKeys: set<string>, options: Options,
               validate: Payload -> Verdict, newId: nat -> Id, commits: bool)
      returns (outcome: Outcome)
      requires UniqueCodes(members)
      modifies this
      ensures (outcome, members)
        == AfterImport(old(members), tenant, rows, mapping, attributeKeys, options, validate, newId, commits)
    {
      ghost var verdicts := Verdicts(rows, mapping, attributeKeys, validate);
      var prepared, fileErrors, crashed :=
        CheckRows(rows, mapping, attributeKeys, OBJECT_PROPERTIES, validate);
      if crashed {
        return Crashed;
      }
      outcome := ImportPrepared(tenant, |rows|, prepared, fileErrors, options, newId, commits, verdicts);
    }

    /** The second half of `run`: compare with the database, report, and write. */
    method ImportPrepared(tenant: string, totalRows: nat, prepared: seq<Entry>, fileErrors: seq<RowError>,
                          options: Options, newId: nat -> Id, commits: bool, ghost verdicts: seq<Verdict>)
      returns (outcome: Outcome)
      requires UniqueCodes(members) && totalRows == |verdicts|
      requires prepared == Prepared(verdicts, |verdicts|) && fileErrors == FileErrors(verdicts, |verdicts|)
      modifies this
      ensures (outcome, members) == AfterRun(old(members), tenant, verdicts, options, newId, commits)
    {
      var existingByCode := IdsByCode(members, tenant, EntryCodes(prepared));
      var toCreate, toUpdate, errors :=
        SplitRows(prepared, existingByCode.Keys, options.updateExisting, fileErrors);

      ghost var before := members;
      assert existingByCode == PreparedIds(before, tenant, verdicts);
      ghost var plan := MakePlan(before, tenant, verdicts, options.updateExisting);
      assert toCreate == plan.create && toUpdate == plan.update;
      assert errors == Errors(before, tenant, verdicts, options.updateExisting);

      var valid := |toCreate| + |toUpdate|;
      var report := Report(options.dryRun, totalRows, valid, 0, 0, totalRows - valid, errors);
      if options.dryRun || errors != [] {
        return Done(report);
      }
      assert Writes(before, tenant, verdicts, options);
      report := report.(created := |toCreate|, updated := |toUpdate|);
      assert report == ReportOf(before, tenant, verdicts, options);

      WritePlan(tenant, toCreate, toUpdate, existingByCode, newId, commits);
      assert commits ==> members == Committed(before, tenant, verdicts, options.updateExisting, newId);
      return if commits then Done(report) else RolledBack;
    }

    /** The transaction: creates in one statement, updates one by one, all of it or none. */
    method WritePlan(tenant: string, toCreate: seq<Entry>, toUpdate: seq<Entry>, ids: map<Code, Id>,
                     newId: nat -> Id, commits: bool)
      modifies this
      ensures members == if commits then UpdateAll(CreateAll(old(members), tenant, toCreate, newId), toUpdate, ids)
                         else old(members)
    {
      var created := CreateMany(members, tenant, toCreate, newId);
      var updated := UpdateEach(created, toUpdate, ids);
      if commits {
        members := updated;
      }
    }
  }

  /** What a rejected row does to the loop variables of `CheckRows`. */
  lemma RejectedRow(verdicts: seq<Verdict>, n: nat)
    requires n < |verdicts| && verdicts[n].Rejected?
    ensures Seen(verdicts, n + 1) == Seen(verdicts, n)
    ensures Prepared(verdicts, n + 1) == Prepared(verdicts, n)
    ensures FileErrors(verdicts, n + 1) == FileErrors(verdicts, n)
      + IssueErrors(n + FIRST_DATA_ROW, [verdicts[n].first] + verdicts[n].more)
  {
  }

  /** What a repeated code does to them. */
  lemma RepeatedRow(verdicts: seq<Verdict>, n: nat)
    requires n < |verdicts| && verdicts[n].Valid? && verdicts[n].record.code in Seen(verdicts, n)
    ensures Seen(verdicts, n + 1) == Seen(verdicts, n)
    ensures Prepared(verdicts, n + 1) == Prepared(verdicts, n)
    ensures FileErrors(verdicts, n + 1) == FileErrors(verdicts, n)
      + [RowError(n + FIRST_DATA_ROW, DuplicateOf(Seen(verdicts, n)[verdicts[n].record.code]))]
  {
    SeenIsFirst(verdicts, n, verdicts[n].record.code);
  }

  /** What an accepted row does to them. */
  lemma AcceptedRow(verdicts: seq<Verdict>, n: nat)
    requires n < |verdicts| && verdicts[n].Valid? && verdicts[n].record.code !in Seen(verdicts, n)
    ensures Seen(verdicts, n + 1) == Seen(verdicts, n)[verdicts[n].record.code := n + FIRST_DATA_ROW]
    ensures Prepared(verdicts, n + 1)
         == Prepared(verdicts, n) + [Entry(n + FIRST_DATA_ROW, verdicts[n].record)]
    ensures FileErrors(verdicts, n + 1) == FileErrors(verdicts, n)
  {
    SeenIsFirst(verdicts, n, verdicts[n].record.code);
  }

  /** Where that loop stands after `n` rows. */
  ghost predicate Checked(verdicts: seq<Verdict>, n: nat, seenCodes: map<Code, nat>, prepared: seq<Entry>,
                          errors: seq<RowError>) {
    && n <= |verdicts| && seenCodes == Seen(verdicts, n)
    && prepared == Prepared(verdicts, n) && errors == FileErrors(verdicts, n)
  }

  /** What a validated row does to the loop variables. */
  method TakeVerdict(ghost verdicts: seq<Verdict>, index: nat, parsed: Verdict,
                  seenCodes: map<Code, nat>, prepared: seq<Entry>, errors: seq<RowError>)
    returns (seen': map<Code, nat>, prepared': seq<Entry>, errors': seq<RowError>)
    requires index < |verdicts| && parsed == verdicts[index]
    requires Checked(verdicts, index, seenCodes, prepared, errors)
    ensures Checked(verdicts, index + 1, seen', prepared', errors')
  {
    seen', prepared', errors' := seenCodes, prepared, errors;
    var rowNumber := index + FIRST_DATA_ROW;
    match parsed {
      case Rejected(first, more) =>
        RejectedRow(verdicts, index);
        errors' := PushIssues(rowNumber, [first] + more, errors);
      case Valid(record) =>
        if record.code in seenCodes {
          RepeatedRow(verdicts, index);
          errors' := errors + [RowError(rowNumber, DuplicateOf(seenCodes[record.code]))];
        } else {
          AcceptedRow(verdicts, index);
          seen' := seenCodes[record.code := rowNumber];
          prepared' := prepared + [Entry(rowNumber, record)];
        }
    }
  }

  method ValidateRow(raw: Raw, mapping: map<string, string>, attributeKeys: set<string>,
                     inherited: set<string>, validate: Payload -> Verdict)
    returns (parsed: Option<Verdict>)
    ensures parsed.None? <==> !RowReadable(raw, mapping, inherited)
    ensures parsed.Some? ==> parsed.value == VerdictOf(raw, mapping, attributeKeys, validate)
  {
    var payload := MapRow(raw, mapping, attributeKeys, inherited);
    parsed := if payload.None? then None else Some(validate(payload.value));
  }

  /** One turn of that loop. */
  method CheckRow(rows: seq<Raw>, index: nat, mapping: map<string, string>, attributeKeys: set<string>,
                  inherited: set<string>, validate: Payload -> Verdict, ghost verdicts: seq<Verdict>,
                  seenCodes: map<Code, nat>, prepared: seq<Entry>, errors: seq<RowError>)
    returns (seen': map<Code, nat>, prepared': seq<Entry>, errors': seq<RowError>, crashed: bool)
    requires index < |rows| && verdicts == Verdicts(rows, mapping, attributeKeys, validate)
    requires Checked(verdicts, index, seenCodes, prepared, errors)
    ensures crashed <==> !RowReadable(rows[index], mapping, inherited)
    ensures !crashed ==> Checked(verdicts, index + 1, seen', prepared', errors')
  {
    seen', prepared', errors', crashed := seenCodes, prepared, errors, true;
    var parsed := ValidateRow(rows[index], mapping, attributeKeys, inherited, validate);
    if parsed.Some? {
      seen', prepared', errors' := TakeVerdict(verdicts, index, parsed.value, seenCodes, prepared, errors);
      crashed := false;
    }
  }

  /** The loop over the file: validate, then refuse codes seen on an earlier row. */
  method CheckRows(rows: seq<Raw>, mapping: map<string, string>, attributeKeys: set<string>,
                   inherited: set<string>, validate: Payload -> Verdict)
    returns (prepared: seq<Entry>, errors: seq<RowError>, crashed: bool)
    ensures crashed <==> !AllReadable(rows, mapping, inherited)
    ensures !crashed ==>
      var verdicts := Verdicts(rows, mapping, attributeKeys, validate);
      prepared == Prepared(verdicts, |rows|) && errors == FileErrors(verdicts, |rows|)
  {
    ghost var verdicts := Verdicts(rows, mapping, attributeKeys, validate);
    errors, prepared, crashed := [], [], false;
    var seenCodes: map<Code, nat> := map[];
    assert Checked(verdicts, 0, seenCodes, prepared, errors);
    for index := 0 to |rows|
      invariant Checked(verdicts, index, seenCodes, prepared, errors)
      invariant !crashed && ReadableTo(rows, mapping, inherited, index)
    {
      seenCodes, prepared, errors, crashed :=
        CheckRow(rows, index, mapping, attributeKeys, inherited, validate, verdicts, seenCodes, prepared, errors);
      if crashed {
        ReadableToIff(rows, mapping, inherited, |rows|);
        return;
      }
    }
  }

  /** The loop over the prepared rows: create, update, or report the clash. */
  method SplitRows(prepared: seq<Entry>, existing: set<Code>, updateExisting: bool,
                   fileErrors: seq<RowError>)
    returns (toCreate: seq<Entry>, toUpdate: seq<Entry>, errors: seq<RowError>)
    ensures var plan := Split(prepared, existing, updateExisting);
      toCreate == plan.create && toUpdate == plan.update && errors == fileErrors + plan.conflicts
  {
    toCreate, toUpdate, errors := [], [], fileErrors;
    for k := 0 to |prepared|
      invariant var plan := Split(prepared[..k], existing, updateExisting);
        toCreate == plan.create && toUpdate == plan.update && errors == fileErrors + plan.conflicts
    {
      var entry := prepared[k];
      assert prepared[..k + 1][..k] == prepared[..k];
      if entry.data.code !in existing {
        toCreate := toCreate + [entry];
      } else if updateExisting {
        toUpdate := toUpdate + [entry];
      } else {
        errors := errors + [RowError(entry.row, Exists(entry.data.code))];
      }
    }
    assert prepared[..|prepared|] == prepared;
  }

  /** One error per issue, behind the errors so far. */
  method PushIssues(row: nat, issues: seq<Issue>, errors: seq<RowError>) returns (all: seq<RowError>)
    ensures all == errors + IssueErrors(row, issues)
  {
    all := errors;
    for k := 0 to |issues|
      invariant all == errors + IssueErrors(row, issues)[..k]
    {
      all := all + [RowError(row, Invalid(issues[k]))];
    }
  }

  method CreateMany(members: Members, tenant: string, entries: seq<Entry>, newId: nat -> Id)
    returns (written: Members)
    ensures written == CreateAll(members, tenant, entries, newId)
  {
    written := members;
    for k := 0 to |entries|
      invariant written == CreateAll(members, tenant, entries[..k], newId)
    {
      assert entries[..k + 1][..k] == entries[..k];
      written := written[newId(k) := NewMember(tenant, entries[k].data)];
    }
    assert entries[..|entries|] == entries;
  }

  method UpdateEach(members: Members, entries: seq<Entry>, ids: map<Code, Id>)
    returns (written: Members)
    ensures written == UpdateAll(members, entries, ids)
  {
    written := members;
    for k := 0 to |entries|
      invariant written == UpdateAll(members, entries[..k], ids)
    {
      assert entries[..k + 1][..k] == entries[..k];
      var data := entries[k].data;
      if data.code in ids && ids[data.code] in written {
        written := written[ids[data.code] := Patched(written[ids[data.code]], data)];
      }
    }
    assert entries[..|entries|] == entries;
  }

  lemma HasNext(verdicts: seq<Verdict>, n: nat)
    requires n < |verdicts|
    ensures forall code :: Has(verdicts, n + 1, code) == (Has(verdicts, n, code) || IsAt(verdicts, n, code))
  {
    forall code
      ensures Has(verdicts, n + 1, code) == (Has(verdicts, n, code) || IsAt(verdicts, n, code))
    {
      if Has(verdicts, n + 1, code) {
        var i :| 0 <= i < n + 1 && IsAt(verdicts, i, code);
        assert i < n ==> Has(verdicts, n, code);
      } else {
        assert !IsAt(verdicts, n, code);
      }
    }
  }
}
