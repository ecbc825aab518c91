/**
 What an import leaves in every column of every member, said column by column of
 the file, and what it tells about the file row by row.
 */
module ImportFields {
  import opened Common
  import opened Text
  import opened MemberImport
  import opened ImportTheorems

  // --------------------------------------------------------------- the columns

  /** The member's columns are the record's, each its own. */
  predicate Holds(member: Member, record: Record) {
    && member.code == record.code
    && member.fullName == record.fullName
    && member.email == record.email
    && member.phone == record.phone
    && member.attributes == record.attributes
  }

  /** A new member has the record's columns and no consent. */
  predicate HoldsNew(member: Member, tenant: string, record: Record) {
    Holds(member, record) && member.tenant == tenant && member.consentAt == None && member.consentVersion == None
  }

  /** A member that was there has the record's columns, and its own id, tenant and consent. */
  predicate HoldsUpdated(member: Member, before: Member, record: Record) {
    && Holds(member, record) && member.tenant == before.tenant
    && member.consentAt == before.consentAt && member.consentVersion == before.consentVersion
  }

  predicate HoldsRow(view: View, view': View, tenant: string, record: Record) {
    && record.code in view'
    && (if record.code in view then HoldsUpdated(view'[record.code], view[record.code], record)
        else HoldsNew(view'[record.code], tenant, record))
  }

  /** Every member stands under its own code. */
  predicate Keyed(view: View) {
    forall code :: code in view ==> view[code].code == code
  }

  lemma UpsertHolds(view: View, tenant: string, record: Record)
    requires Keyed(view)
    ensures Keyed(Upsert(view, tenant, record))
    ensures HoldsRow(view, Upsert(view, tenant, record), tenant, record)
    ensures forall code :: code != record.code ==>
      (code in view <==> code in Upsert(view, tenant, record))
      && (code in view ==> Upsert(view, tenant, record)[code] == view[code])
  {
  }

  lemma {:induction false} UpsertAllKeyed(view: View, tenant: string, entries: seq<Entry>)
    requires Keyed(view)
    ensures Keyed(UpsertAll(view, tenant, Datas(entries)))
    decreases |entries|
  {
    if |entries| > 0 {
      var front, final := entries[..|entries| - 1], entries[|entries| - 1];
      assert entries == front + [final];
      UpsertSnoc(view, tenant, front, final);
      UpsertAllKeyed(view, tenant, front);
      UpsertHolds(UpsertAll(view, tenant, Datas(front)), tenant, final.data);
    }
  }

  lemma {:induction false} UpsertAllHolds(view: View, tenant: string, entries: seq<Entry>, i: nat)
    requires Keyed(view) && DistinctCodes(entries) && i < |entries|
    ensures HoldsRow(view, UpsertAll(view, tenant, Datas(entries)), tenant, entries[i].data)
    decreases |entries|
  {
    var front, final := entries[..|entries| - 1], entries[|entries| - 1];
    assert entries == front + [final];
    UpsertSnoc(view, tenant, front, final);
    FrontDiffers(entries);
    var before := UpsertAll(view, tenant, Datas(front));
    UpsertAllKeyed(view, tenant, front);
    UpsertHolds(before, tenant, final.data);
    if i < |front| {
      UpsertAllHolds(view, tenant, front, i);
      assert front[i].data.code in EntryCodes(front);
    } else {
      UpsertAllOther(view, tenant, front, final.data.code);
    }
  }

  /** Codes that are not in the file keep their member, and none appears. */
  lemma {:induction false} UpsertAllOther(view: View, tenant: string, entries: seq<Entry>, code: Code)
    requires code !in EntryCodes(entries)
    ensures var after := UpsertAll(view, tenant, Datas(entries));
      (code in view <==> code in after) && (code in view ==> after[code] == view[code])
    decreases |entries|
  {
    if |entries| > 0 {
      var front, final := entries[..|entries| - 1], entries[|entries| - 1];
      assert entries == front + [final];
      CodesSnoc(front, final);
      UpsertSnoc(view, tenant, front, final);
      UpsertAllOther(view, tenant, front, code);
    }
  }

  /** The tenant's members by code. */
  function ViewOf(members: Members, tenant: string): View
    requires UniqueCodes(members)
  {
    map id | id in members && members[id].tenant == tenant :: members[id].code := members[id]
  }

  lemma ViewShows(members: Members, tenant: string)
    requires UniqueCodes(members)
    ensures Shows(ViewOf(members, tenant), members, tenant) && Keyed(ViewOf(members, tenant))
  {
    var view := ViewOf(members, tenant);
    forall id | id in members && members[id].tenant == tenant
      ensures members[id].code in view && view[members[id].code] == members[id]
    {
    }
    forall code | code in view ensures CodeTaken(members, tenant, code) && view[code].code == code {
      var id :| id in members && members[id].tenant == tenant && members[id].code == code;
    }
  }

  /** The member a code of the tenant stands for. */
  predicate Stands(members: Members, tenant: string, code: Code, id: Id) {
    id in members && members[id].tenant == tenant && members[id].code == code
  }

  /** After a run, row `i` of the file is in the table, column by column. */
  ghost predicate RowStored(before: Members, after: Members, tenant: string, record: Record) {
    exists id :: Stands(after, tenant, record.code, id)
      && (if id in before then HoldsUpdated(after[id], before[id], record)
          else HoldsNew(after[id], tenant, record))
  }

  lemma StandsFor(members: Members, tenant: string, view: View, code: Code) returns (id: Id)
    requires Shows(view, members, tenant) && code in view
    ensures Stands(members, tenant, code, id) && members[id] == view[code]
  {
    assert CodeTaken(members, tenant, code);
    id :| id in members && members[id].tenant == tenant && members[id].code == code;
  }

  lemma EntryOfRow(verdicts: seq<Verdict>, i: nat)
    requires AllAccepted(verdicts) && i < |verdicts|
    ensures |Prepared(verdicts, |verdicts|)| == |verdicts|
    ensures Prepared(verdicts, |verdicts|)[i].data == verdicts[i].record
  {
    AcceptedFile(verdicts, |verdicts|);
    assert |Datas(Prepared(verdicts, |verdicts|))| == |Records(verdicts, |verdicts|)|;
    assert Datas(Prepared(verdicts, |verdicts|))[i] == Records(verdicts, |verdicts|)[i];
  }

  /**
   After a run that writes, every row of the file is found under its code with its
   name, email, phone and attributes, each in its own column: in a member that was
   there, with its consent as before, or in a new one without consent.
   */
  lemma RunStoresRows(members: Members, tenant: string, verdicts: seq<Verdict>, options: Options,
                      newId: nat -> Id, i: nat)
    requires UniqueCodes(members) && FreshIds(newId, members) && i < |verdicts|
    requires Writes(members, tenant, verdicts, options)
    ensures verdicts[i].Valid?
    ensures RowStored(members, AfterRun(members, tenant, verdicts, options, newId, true).1, tenant, verdicts[i].record)
  {
    var view := ViewOf(members, tenant);
    ViewShows(members, tenant);
    RunRefinesUpsert(members, tenant, view, verdicts, options, newId);
    var after := AfterRun(members, tenant, verdicts, options, newId, true).1;
    var entries := Prepared(verdicts, |verdicts|);
    EntryOfRow(verdicts, i);
    AcceptedFile(verdicts, |verdicts|);
    PreparedDistinct(verdicts, |verdicts|);
    UpsertAllHolds(view, tenant, entries, i);
    var record := verdicts[i].record;
    var id := StandsFor(after, tenant, UpsertAll(view, tenant, Datas(entries)), record.code);
    RowIsStored(members, after, tenant, view, UpsertAll(view, tenant, Datas(entries)), record, id);
  }

  lemma RowIsStored(members: Members, after: Members, tenant: string, view: View, view': View, record: Record, id: Id)
    requires UniqueCodes(after) && OnlyTouches(members, after, tenant) && Shows(view, members, tenant)
    requires HoldsRow(view, view', tenant, record)
    requires Stands(after, tenant, record.code, id) && after[id] == view'[record.code]
    ensures RowStored(members, after, tenant, record)
  {
    if record.code in view {
      var old' := StandsFor(members, tenant, view, record.code);
      assert RowKept(members[old'], after[old'], tenant);
      assert old' == id;
    } else if id in members {
      assert false;
    }
  }

  /** A member of another tenant, or whose code is not in the file, is exactly as it was. */
  lemma RunSparesOthers(members: Members, tenant: string, verdicts: seq<Verdict>, options: Options,
                        newId: nat -> Id, id: Id)
    requires UniqueCodes(members) && FreshIds(newId, members) && id in members
    requires Writes(members, tenant, verdicts, options)
    requires members[id].tenant != tenant || forall i :: 0 <= i < |verdicts| ==> !IsAt(verdicts, i, members[id].code)
    ensures var after := AfterRun(members, tenant, verdicts, options, newId, true).1;
      id in after && after[id] == members[id]
  {
    var view := ViewOf(members, tenant);
    ViewShows(members, tenant);
    RunRefinesUpsert(members, tenant, view, verdicts, options, newId);
    var after := AfterRun(members, tenant, verdicts, options, newId, true).1;
    assert RowKept(members[id], after[id], tenant);
    if members[id].tenant == tenant {
      var entries, code := Prepared(verdicts, |verdicts|), members[id].code;
      PreparedDistinct(verdicts, |verdicts|);
      AcceptedFile(verdicts, |verdicts|);
      assert code !in EntryCodes(entries);
      UpsertAllOther(view, tenant, entries, code);
      assert view[code] == members[id];
    }
  }

  /** Every new row of the table is a row of the file. */
  lemma RunAddsOnlyRows(members: Members, tenant: string, verdicts: seq<Verdict>, options: Options,
                        newId: nat -> Id, id: Id)
    requires UniqueCodes(members) && FreshIds(newId, members)
    requires Writes(members, tenant, verdicts, options)
    requires id in AfterRun(members, tenant, verdicts, options, newId, true).1 && id !in members
    ensures var after := AfterRun(members, tenant, verdicts, options, newId, true).1;
      after[id].tenant == tenant && exists i :: 0 <= i < |verdicts| && IsAt(verdicts, i, after[id].code)
  {
    var view := ViewOf(members, tenant);
    ViewShows(members, tenant);
    RunRefinesUpsert(members, tenant, view, verdicts, options, newId);
    var after := AfterRun(members, tenant, verdicts, options, newId, true).1;
    var entries := Prepared(verdicts, |verdicts|);
    assert RowNew(after[id], tenant);
    PreparedDistinct(verdicts, |verdicts|);
    AcceptedFile(verdicts, |verdicts|);
    var code := after[id].code;
    if code !in EntryCodes(entries) {
      UpsertAllOther(view, tenant, entries, code);
      assert code in UpsertAll(view, tenant, Datas(entries));
      var old' := StandsFor(members, tenant, view, code);
      assert false;
    }
    assert Has(verdicts, |verdicts|, code);
  }

  // ------------------------------------------------------------- the column mapping

  /** A row's cell under a column: trimmed, and empty when the row has no such column. */
  predicate CellIs(raw: Raw, column: string, value: string) {
    if column in raw then value == Trim(raw[column]) else value == ""
  }

  /**
   The payload has, for each target with a column, that column's cell, among the
   attributes when the target is an attribute key and else among the core fields,
   and nothing besides. A core target called `attributes` is dropped.
   */
  lemma MappedCells(raw: Raw, mapping: map<string, string>, attributeKeys: set<string>, target: string)
    ensures var payload := Mapped(raw, mapping, attributeKeys);
      var mapped := target in mapping && mapping[target] != "";
      && (target in payload.attributes <==> mapped && target in attributeKeys)
      && (target in payload.core <==> mapped && target !in attributeKeys && target != "attributes")
      && (target in payload.attributes ==> CellIs(raw, mapping[target], payload.attributes[target]))
      && (target in payload.core ==> CellIs(raw, mapping[target], payload.core[target]))
  {
    assert Trim("") == "";
  }

  /** A payload as `MappedCells` describes it. */
  ghost predicate PayloadIs(payload: Payload, raw: Raw, mapping: map<string, string>, attributeKeys: set<string>) {
    && (forall target :: target in payload.attributes <==>
          target in mapping && mapping[target] != "" && target in attributeKeys)
    && (forall target :: target in payload.core <==>
          target in mapping && mapping[target] != "" && target !in attributeKeys && target != "attributes")
    && (forall target :: target in payload.attributes ==>
          target in mapping && CellIs(raw, mapping[target], payload.attributes[target]))
    && (forall target :: target in payload.core ==>
          target in mapping && CellIs(raw, mapping[target], payload.core[target]))
  }

  /** The verdict on row `i` is what the schema says to the mapped cells of row `i`. */
  lemma VerdictsAre(rows: seq<Raw>, mapping: map<string, string>, attributeKeys: set<string>,
                    validate: Payload -> Verdict, i: nat)
    requires i < |rows|
    ensures |Verdicts(rows, mapping, attributeKeys, validate)| == |rows|
    ensures exists payload ::
      && PayloadIs(payload, rows[i], mapping, attributeKeys)
      && Verdicts(rows, mapping, attributeKeys, validate)[i] == validate(payload)
  {
    var payload := Mapped(rows[i], mapping, attributeKeys);
    forall target: string
      ensures target in payload.attributes <==>
        target in mapping && mapping[target] != "" && target in attributeKeys
      ensures target in payload.core <==>
        target in mapping && mapping[target] != "" && target !in attributeKeys && target != "attributes"
      ensures target in payload.attributes ==> CellIs(rows[i], mapping[target], payload.attributes[target])
      ensures target in payload.core ==> CellIs(rows[i], mapping[target], payload.core[target])
    {
      MappedCells(rows[i], mapping, attributeKeys, target);
    }
    assert PayloadIs(payload, rows[i], mapping, attributeKeys);
  }

  // ------------------------------------------------------------------ the report

  /** What the report counts as created and as updated. */
  lemma ReportCounts(members: Members, tenant: string, verdicts: seq<Verdict>, options: Options)
    requires UniqueCodes(members)
    ensures var report := ReportOf(members, tenant, verdicts, options);
      var tally := multiset(Fates(members, tenant, verdicts, options.updateExisting));
      && report.dryRun == options.dryRun
      && (Writes(members, tenant, verdicts, options) ==>
            report.created == tally[ToBeCreated] && report.updated == tally[ToBeUpdated])
      && (!Writes(members, tenant, verdicts, options) ==> report.created == 0 && report.updated == 0)
  {
    PreparedIdsKnow(members, tenant, verdicts);
    SplitTallies(members, tenant, verdicts, PreparedIds(members, tenant, verdicts).Keys, options.updateExisting);
  }

  /** Errors come in the order of the file: first those of the file itself, then the clashes. */
  predicate InFileOrder(errors: seq<RowError>) {
    forall j, k :: 0 <= j < k < |errors| ==> errors[j].row <= errors[k].row
  }

  lemma OrderAppends(front: seq<RowError>, back: seq<RowError>, row: nat)
    requires InFileOrder(front) && forall j :: 0 <= j < |front| ==> front[j].row < row && !front[j].reason.Exists?
    requires forall j :: 0 <= j < |back| ==> back[j].row == row && !back[j].reason.Exists?
    ensures InFileOrder(front + back)
    ensures forall j :: 0 <= j < |front + back| ==> (front + back)[j].row < row + 1 && !(front + back)[j].reason.Exists?
  {
  }

  lemma {:induction false} FileErrorsInOrder(verdicts: seq<Verdict>, n: nat)
    requires n <= |verdicts|
    ensures InFileOrder(FileErrors(verdicts, n))
    ensures forall j :: 0 <= j < |FileErrors(verdicts, n)| ==> FileErrors(verdicts, n)[j].row < n + 2
    ensures forall j :: 0 <= j < |FileErrors(verdicts, n)| ==> !FileErrors(verdicts, n)[j].reason.Exists?
  {
    if n > 0 {
      FileErrorsInOrder(verdicts, n - 1);
      ProblemRows(verdicts, n - 1);
      OrderAppends(FileErrors(verdicts, n - 1), RowProblems(verdicts, n - 1), n + 1);
    }
  }

  lemma ProblemRows(verdicts: seq<Verdict>, i: nat)
    requires i < |verdicts|
    ensures forall j :: 0 <= j < |RowProblems(verdicts, i)| ==>
      RowProblems(verdicts, i)[j].row == i + 2 && !RowProblems(verdicts, i)[j].reason.Exists?
  {
  }

  lemma {:induction false} ConflictsInOrder(prepared: seq<Entry>, existing: set<Code>, updateExisting: bool)
    requires forall j, k :: 0 <= j < k < |prepared| ==> prepared[j].row < prepared[k].row
    ensures var conflicts := Split(prepared, existing, updateExisting).conflicts;
      && InFileOrder(conflicts)
      && (forall j :: 0 <= j < |conflicts| ==> |prepared| > 0 && conflicts[j].row <= prepared[|prepared| - 1].row)
      && (forall j :: 0 <= j < |conflicts| ==> conflicts[j].reason.Exists?)
    decreases |prepared|
  {
    if |prepared| > 0 {
      var n := |prepared| - 1;
      ConflictsInOrder(prepared[..n], existing, updateExisting);
    }
  }

  lemma {:induction false} PreparedRows(verdicts: seq<Verdict>, n: nat)
    requires n <= |verdicts|
    ensures forall j, k :: 0 <= j < k < |Prepared(verdicts, n)| ==>
      Prepared(verdicts, n)[j].row < Prepared(verdicts, n)[k].row
    ensures forall j :: 0 <= j < |Prepared(verdicts, n)| ==> Prepared(verdicts, n)[j].row < n + 2
  {
    if n > 0 {
      PreparedRows(verdicts, n - 1);
    }
  }

  /** The error list: the file's own problems in row order, then the clashes with the database in row order. */
  lemma ErrorsInOrder(members: Members, tenant: string, verdicts: seq<Verdict>, updateExisting: bool)
    requires UniqueCodes(members)
    ensures var errors := Errors(members, tenant, verdicts, updateExisting);
      exists n :: 0 <= n <= |errors|
        && InFileOrder(errors[..n]) && InFileOrder(errors[n..])
        && (forall j :: 0 <= j < n ==> !errors[j].reason.Exists?)
        && (forall j :: n <= j < |errors| ==> errors[j].reason.Exists?)
  {
    FileErrorsInOrder(verdicts, |verdicts|);
    PreparedRows(verdicts, |verdicts|);
    ConflictsInOrder(Prepared(verdicts, |verdicts|), PreparedIds(members, tenant, verdicts).Keys, updateExisting);
    var errors := Errors(members, tenant, verdicts, updateExisting);
    var n := |FileErrors(verdicts, |verdicts|)|;
    assert errors[..n] == FileErrors(verdicts, |verdicts|);
    assert errors[n..] == MakePlan(members, tenant, verdicts, updateExisting).conflicts;
  }
}
