/** What the import promises: accounting, all-or-nothing, and refinement of a per-row upsert. */
module ImportTheorems {
  import opened Common
  import opened MemberImport
  import Text

  // --------------------------------------------------------- the fate of a row

  datatype Fate = ParseFailure | InFileDuplicate | ExistingConflict | ToBeCreated | ToBeUpdated

  /** What should become of row `i`, read off the file and the database alone. */
  function FateOf(members: Members, tenant: string, verdicts: seq<Verdict>, updateExisting: bool, i: nat): Fate
    requires i < |verdicts|
  {
    match verdicts[i]
    case Rejected(_, _) => ParseFailure
    case Valid(record) =>
      if Has(verdicts, i, record.code) then InFileDuplicate
      else if !CodeTaken(members, tenant, record.code) then ToBeCreated
      else if updateExisting then ToBeUpdated
      else ExistingConflict
  }

  function Fates(members: Members, tenant: string, verdicts: seq<Verdict>, updateExisting: bool): seq<Fate> {
    seq(|verdicts|, i requires 0 <= i < |verdicts| => FateOf(members, tenant, verdicts, updateExisting, i))
  }

  /** An error that row `i` calls for. */
  predicate Explains(members: Members, tenant: string, verdicts: seq<Verdict>, updateExisting: bool,
                     i: nat, error: RowError)
    requires i < |verdicts|
  {
    && error.row == i + 2 // row 1 is the header
    && match FateOf(members, tenant, verdicts, updateExisting, i)
       case ParseFailure =>
         error.reason.Invalid? && error.reason.issue in [verdicts[i].first] + verdicts[i].more
       case InFileDuplicate =>
         error.reason == DuplicateOf(First(verdicts, i, verdicts[i].record.code) + 2)
       case ExistingConflict => error.reason == Exists(verdicts[i].record.code)
       case _ => false
  }

  // ------------------------------------------------ the plan follows the fates

  /** On the accepted rows of a file, `existing` says which codes are taken. */
  predicate Knows(existing: set<Code>, members: Members, tenant: string, verdicts: seq<Verdict>) {
    forall i :: 0 <= i < |verdicts| && Accepted(verdicts, i) ==>
      (verdicts[i].record.code in existing <==> CodeTaken(members, tenant, verdicts[i].record.code))
  }

  lemma {:induction false} AcceptedIsPrepared(verdicts: seq<Verdict>, n: nat, i: nat)
    requires i < n <= |verdicts| && Accepted(verdicts, i)
    ensures verdicts[i].record.code in EntryCodes(Prepared(verdicts, n))
  {
    var prepared := Prepared(verdicts, n);
    if i == n - 1 {
      assert prepared[|prepared| - 1].data == verdicts[i].record;
    } else {
      AcceptedIsPrepared(verdicts, n - 1, i);
      var k :| 0 <= k < |Prepared(verdicts, n - 1)|
        && Prepared(verdicts, n - 1)[k].data.code == verdicts[i].record.code;
      assert prepared[k] == Prepared(verdicts, n - 1)[k];
    }
  }

  lemma PreparedIdsKnow(members: Members, tenant: string, verdicts: seq<Verdict>)
    requires UniqueCodes(members)
    ensures Knows(PreparedIds(members, tenant, verdicts).Keys, members, tenant, verdicts)
  {
    var codes := EntryCodes(Prepared(verdicts, |verdicts|));
    forall i | 0 <= i < |verdicts| && Accepted(verdicts, i)
      ensures verdicts[i].record.code in PreparedIds(members, tenant, verdicts)
         <==> CodeTaken(members, tenant, verdicts[i].record.code)
    {
      AcceptedIsPrepared(verdicts, |verdicts|, i);
    }
  }

  lemma SplitSnoc(prepared: seq<Entry>, entry: Entry, existing: set<Code>, updateExisting: bool)
    ensures var front := Split(prepared, existing, updateExisting);
      Split(prepared + [entry], existing, updateExisting)
      == if entry.data.code !in existing then front.(create := front.create + [entry])
         else if updateExisting then front.(update := front.update + [entry])
         else front.(conflicts := front.conflicts + [RowError(entry.row, Exists(entry.data.code))])
  {
    assert (prepared + [entry])[..|prepared|] == prepared;
  }

  /** The branch the row takes in the plan is the one its fate names. */
  lemma FateByPlan(members: Members, tenant: string, verdicts: seq<Verdict>,
                   existing: set<Code>, updateExisting: bool, i: nat)
    requires i < |verdicts| && Knows(existing, members, tenant, verdicts)
    ensures var fate := FateOf(members, tenant, verdicts, updateExisting, i);
      if !Accepted(verdicts, i) then fate in {ParseFailure, InFileDuplicate}
      else if verdicts[i].record.code !in existing then fate == ToBeCreated
      else if updateExisting then fate == ToBeUpdated
      else fate == ExistingConflict
  {
  }

  /** One more row lengthens the part of the plan its fate names, and no other. */
  predicate Grows(plan: Plan, longer: Plan, fate: Fate) {
    && |longer.create| == |plan.create| + (if fate == ToBeCreated then 1 else 0)
    && |longer.update| == |plan.update| + (if fate == ToBeUpdated then 1 else 0)
    && |longer.conflicts| == |plan.conflicts| + (if fate == ExistingConflict then 1 else 0)
  }

  lemma SplitGrows(members: Members, tenant: string, verdicts: seq<Verdict>,
                   existing: set<Code>, updateExisting: bool, i: nat)
    requires i < |verdicts| && Knows(existing, members, tenant, verdicts)
    ensures Grows(Split(Prepared(verdicts, i), existing, updateExisting),
                  Split(Prepared(verdicts, i + 1), existing, updateExisting),
                  FateOf(members, tenant, verdicts, updateExisting, i))
  {
    FateByPlan(members, tenant, verdicts, existing, updateExisting, i);
    if Accepted(verdicts, i) {
      SplitSnoc(Prepared(verdicts, i), Entry(i + FIRST_DATA_ROW, verdicts[i].record), existing, updateExisting);
    }
  }

  /** A plan that grows row by row ends up counting the fates. */
  lemma {:induction false} PlansTally(fates: seq<Fate>, plans: seq<Plan>, n: nat)
    requires n <= |fates| && |plans| == |fates| + 1 && plans[0] == Plan([], [], [])
    requires forall i :: 0 <= i < |fates| ==> Grows(plans[i], plans[i + 1], fates[i])
    ensures var tally := multiset(fates[..n]);
      && |plans[n].create| == tally[ToBeCreated]
      && |plans[n].update| == tally[ToBeUpdated]
      && |plans[n].conflicts| == tally[ExistingConflict]
  {
    if n > 0 {
      PlansTally(fates, plans, n - 1);
      assert fates[..n] == fates[..n - 1] + [fates[n - 1]];
      assert Grows(plans[n - 1], plans[n - 1 + 1], fates[n - 1]);
    }
  }

  lemma SplitTallies(members: Members, tenant: string, verdicts: seq<Verdict>,
                     existing: set<Code>, updateExisting: bool)
    requires Knows(existing, members, tenant, verdicts)
    ensures var plan := Split(Prepared(verdicts, |verdicts|), existing, updateExisting);
      var tally := multiset(Fates(members, tenant, verdicts, updateExisting));
      && |plan.create| == tally[ToBeCreated]
      && |plan.update| == tally[ToBeUpdated]
      && |plan.conflicts| == tally[ExistingConflict]
  {
    var n, fates := |verdicts|, Fates(members, tenant, verdicts, updateExisting);
    var plans := seq(n + 1, i requires 0 <= i <= n => Split(Prepared(verdicts, i), existing, updateExisting));
    forall i | 0 <= i < n ensures Grows(plans[i], plans[i + 1], fates[i]) {
      SplitGrows(members, tenant, verdicts, existing, updateExisting, i);
    }
    PlansTally(fates, plans, n);
    assert fates[..n] == fates;
  }

  // ----------------------------------------------------- errors name their rows

  lemma FileErrorsAre(members: Members, tenant: string, verdicts: seq<Verdict>,
                      updateExisting: bool, n: nat, error: RowError)
    requires n <= |verdicts|
    ensures error in FileErrors(verdicts, n) <==>
      exists i :: 0 <= i < n && Explains(members, tenant, verdicts, updateExisting, i, error)
               && !error.reason.Exists?
  {
    var sums := seq(n + 1, i requires 0 <= i <= n => FileErrors(verdicts, i));
    var parts := seq(n, i requires 0 <= i < n => RowProblems(verdicts, i));
    JoinedHas(sums, parts, n, error);
    forall i | 0 <= i < n
      ensures error in parts[i]
         <==> Explains(members, tenant, verdicts, updateExisting, i, error) && !error.reason.Exists?
    {
      RowProblemsAre(members, tenant, verdicts, updateExisting, i, error);
    }
  }

  /** An error is in a list built up part by part exactly when it is in one of the parts. */
  lemma {:induction false} JoinedHas(sums: seq<seq<RowError>>, parts: seq<seq<RowError>>, n: nat, error: RowError)
    requires |sums| == |parts| + 1 && sums[0] == [] && n <= |parts|
    requires forall i :: 0 <= i < |parts| ==> sums[i + 1] == sums[i] + parts[i]
    ensures error in sums[n] <==> exists i :: 0 <= i < n && error in parts[i]
  {
    if n > 0 {
      JoinedHas(sums, parts, n - 1, error);
      assert sums[n - 1 + 1] == sums[n - 1] + parts[n - 1];
    }
  }

  lemma RowProblemsAre(members: Members, tenant: string, verdicts: seq<Verdict>,
                       updateExisting: bool, i: nat, error: RowError)
    requires i < |verdicts|
    ensures error in RowProblems(verdicts, i) <==>
      Explains(members, tenant, verdicts, updateExisting, i, error) && !error.reason.Exists?
  {
    if verdicts[i].Rejected? {
      IssueErrorsAre(i + FIRST_DATA_ROW, [verdicts[i].first] + verdicts[i].more, error);
    }
  }

  lemma IssueErrorsAre(row: nat, issues: seq<Issue>, error: RowError)
    ensures error in IssueErrors(row, issues)
       <==> error.row == row && error.reason.Invalid? && error.reason.issue in issues
  {
    if error.row == row && error.reason.Invalid? && error.reason.issue in issues {
      var k :| 0 <= k < |issues| && issues[k] == error.reason.issue;
      assert IssueErrors(row, issues)[k] == error;
    }
  }

  lemma RowConflict(members: Members, tenant: string, verdicts: seq<Verdict>,
                    existing: set<Code>, updateExisting: bool, i: nat, error: RowError)
    requires i < |verdicts| && Knows(existing, members, tenant, verdicts)
    ensures Explains(members, tenant, verdicts, updateExisting, i, error) && error.reason.Exists? <==>
      && Accepted(verdicts, i) && verdicts[i].record.code in existing && !updateExisting
      && error == RowError(i + FIRST_DATA_ROW, Exists(verdicts[i].record.code))
  {
  }

  lemma {:induction false} ConflictsAre(members: Members, tenant: string, verdicts: seq<Verdict>,
                                        existing: set<Code>, updateExisting: bool, n: nat, error: RowError)
    requires n <= |verdicts| && Knows(existing, members, tenant, verdicts)
    ensures error in Split(Prepared(verdicts, n), existing, updateExisting).conflicts <==>
      exists i :: 0 <= i < n && Explains(members, tenant, verdicts, updateExisting, i, error)
               && error.reason.Exists?
  {
    if n > 0 {
      ConflictsAre(members, tenant, verdicts, existing, updateExisting, n - 1, error);
      RowConflict(members, tenant, verdicts, existing, updateExisting, n - 1, error);
      if Accepted(verdicts, n - 1) {
        SplitSnoc(Prepared(verdicts, n - 1), Entry(n - 1 + FIRST_DATA_ROW, verdicts[n - 1].record),
                  existing, updateExisting);
      }
    }
  }

  /**
   The report lists exactly the problems the rows call for: each rejected row all
   its issues, each repeated code the row that first carried it, each clash its code.
   */
  lemma ErrorsNameRows(members: Members, tenant: string, verdicts: seq<Verdict>, updateExisting: bool,
                       error: RowError)
    requires UniqueCodes(members)
    ensures error in Errors(members, tenant, verdicts, updateExisting) <==>
      exists i :: 0 <= i < |verdicts| && Explains(members, tenant, verdicts, updateExisting, i, error)
  {
    PreparedIdsKnow(members, tenant, verdicts);
    FileErrorsAre(members, tenant, verdicts, updateExisting, |verdicts|, error);
    ConflictsAre(members, tenant, verdicts, PreparedIds(members, tenant, verdicts).Keys, updateExisting,
                 |verdicts|, error);
  }

  lemma BadRowExplained(members: Members, tenant: string, verdicts: seq<Verdict>, updateExisting: bool, i: nat)
    returns (error: RowError)
    requires i < |verdicts|
    requires FateOf(members, tenant, verdicts, updateExisting, i) !in {ToBeCreated, ToBeUpdated}
    ensures Explains(members, tenant, verdicts, updateExisting, i, error)
  {
    match FateOf(members, tenant, verdicts, updateExisting, i)
    case ParseFailure => error := RowError(i + FIRST_DATA_ROW, Invalid(verdicts[i].first));
    case InFileDuplicate =>
      error := RowError(i + FIRST_DATA_ROW,
                        DuplicateOf(First(verdicts, i, verdicts[i].record.code) + FIRST_DATA_ROW));
    case ExistingConflict => error := RowError(i + FIRST_DATA_ROW, Exists(verdicts[i].record.code));
  }

  // ---------------------------------------------------------------- accounting

  lemma {:induction false} FateCardinality(fates: seq<Fate>)
    ensures var tally := multiset(fates);
      |fates| == tally[ParseFailure] + tally[InFileDuplicate] + tally[ExistingConflict]
               + tally[ToBeCreated] + tally[ToBeUpdated]
  {
    if fates != [] {
      FateCardinality(fates[1..]);
      assert fates == [fates[0]] + fates[1..];
      assert multiset(fates) == multiset{fates[0]} + multiset(fates[1..]);
      match fates[0]
      case ParseFailure =>
      case InFileDuplicate =>
      case ExistingConflict =>
      case ToBeCreated =>
      case ToBeUpdated =>
    }
  }

  /** Every row is accounted for once, and a clean report is one with nothing skipped. */
  lemma Accounting(members: Members, tenant: string, verdicts: seq<Verdict>, options: Options)
    requires UniqueCodes(members)
    ensures var report := ReportOf(members, tenant, verdicts, options);
      var tally := multiset(Fates(members, tenant, verdicts, options.updateExisting));
      && report.totalRows == |verdicts|
      && report.valid == tally[ToBeCreated] + tally[ToBeUpdated]
      && report.skipped == tally[ParseFailure] + tally[InFileDuplicate] + tally[ExistingConflict]
      && report.valid + report.skipped == report.totalRows
      && (report.errors == [] <==> report.skipped == 0)
  {
    var ue := options.updateExisting;
    PreparedIdsKnow(members, tenant, verdicts);
    SplitTallies(members, tenant, verdicts, PreparedIds(members, tenant, verdicts).Keys, ue);
    FateCardinality(Fates(members, tenant, verdicts, ue));
    ErrorsCount(members, tenant, verdicts, ue);
  }

  /** There is an error exactly when some row has a bad fate. */
  lemma ErrorsCount(members: Members, tenant: string, verdicts: seq<Verdict>, updateExisting: bool)
    requires UniqueCodes(members)
    ensures var tally := multiset(Fates(members, tenant, verdicts, updateExisting));
      Errors(members, tenant, verdicts, updateExisting) == []
      <==> tally[ParseFailure] + tally[InFileDuplicate] + tally[ExistingConflict] == 0
  {
    var fates := Fates(members, tenant, verdicts, updateExisting);
    if Errors(members, tenant, verdicts, updateExisting) != [] {
      var i := FirstErrorRow(members, tenant, verdicts, updateExisting);
      assert fates[i] in multiset(fates);
    } else {
      forall fate | fate in {ParseFailure, InFileDuplicate, ExistingConflict} ensures fate !in multiset(fates) {
        if fate in multiset(fates) {
          var i :| 0 <= i < |fates| && fates[i] == fate;
          var error := BadRowExplained(members, tenant, verdicts, updateExisting, i);
          ErrorsNameRows(members, tenant, verdicts, updateExisting, error);
          assert false;
        }
      }
    }
  }

  lemma FirstErrorRow(members: Members, tenant: string, verdicts: seq<Verdict>, updateExisting: bool)
    returns (i: nat)
    requires UniqueCodes(members) && Errors(members, tenant, verdicts, updateExisting) != []
    ensures i < |verdicts|
    ensures FateOf(members, tenant, verdicts, updateExisting, i) in {ParseFailure, InFileDuplicate, ExistingConflict}
  {
    var error := Errors(members, tenant, verdicts, updateExisting)[0];
    ErrorsNameRows(members, tenant, verdicts, updateExisting, error);
    i :| 0 <= i < |verdicts| && Explains(members, tenant, verdicts, updateExisting, i, error);
  }

  /**
   All or nothing: the table is untouched and nothing is counted as written, or
   every single row of the file was created or updated. A column that is missing
   from a row and named like an inherited property ends the run before any write.
   */
  lemma AllOrNothing(members: Members, tenant: string, rows: seq<Raw>, mapping: map<string, string>,
                     attributeKeys: set<string>, options: Options, validate: Payload -> Verdict,
                     newId: nat -> Id, commits: bool)
    requires UniqueCodes(members)
    ensures var (outcome, members') :=
        AfterImport(members, tenant, rows, mapping, attributeKeys, options, validate, newId, commits);
      && (outcome.Crashed? <==> !AllReadable(rows, mapping, Text.OBJECT_PROPERTIES))
      && (outcome.Crashed? || outcome.RolledBack? ==> members' == members)
      && (outcome.Done? ==>
            || (outcome.report.created == outcome.report.updated == 0 && members' == members)
            || (outcome.report.errors == []
                && outcome.report.created + outcome.report.updated == outcome.report.totalRows == |rows|))
  {
    Accounting(members, tenant, Verdicts(rows, mapping, attributeKeys, validate), options);
  }

  /** A file that makes the run throw: the code is mapped to a column the row lacks and objects inherit. */
  lemma InheritedColumnThrows(members: Members, tenant: string, attributeKeys: set<string>, options: Options,
                              validate: Payload -> Verdict, newId: nat -> Id)
    requires UniqueCodes(members)
    ensures AfterImport(members, tenant, [map[]], map["code" := "constructor"], attributeKeys, options, validate,
                        newId, true) == (Crashed, members)
  {
    var row: Raw, mapping := map[], map["code" := "constructor"];
    assert !Readable(row, mapping["code"], Text.OBJECT_PROPERTIES);
    ReadableToIff([row], mapping, Text.OBJECT_PROPERTIES, 1);
  }

  /** A dry run predicts the errors and the counts of the real run on the same state, or throws like it. */
  lemma DryRunPredicts(members: Members, tenant: string, rows: seq<Raw>, mapping: map<string, string>,
                       attributeKeys: set<string>, updateExisting: bool, validate: Payload -> Verdict,
                       newId: nat -> Id)
    requires UniqueCodes(members)
    ensures var (dry, same) := AfterImport(members, tenant, rows, mapping, attributeKeys,
                                           Options(true, updateExisting), validate, newId, true);
      var (actual, after) := AfterImport(members, tenant, rows, mapping, attributeKeys,
                                         Options(false, updateExisting), validate, newId, true);
      && same == members && (dry.Crashed? <==> actual.Crashed?)
      && (!dry.Crashed? ==>
            && dry.Done? && actual.Done?
            && dry.report.errors == actual.report.errors && dry.report.valid == actual.report.valid
            && (dry.report.errors == [] <==>
                  actual.report.created + actual.report.updated == dry.report.totalRows))
  {
    var verdicts := Verdicts(rows, mapping, attributeKeys, validate);
    Accounting(members, tenant, verdicts, Options(true, updateExisting));
    Accounting(members, tenant, verdicts, Options(false, updateExisting));
  }

  // ------------------------------------------- refinement of a per-row upsert

  type View = map<Code, Member>

  /** Update the member with this code if there is one, otherwise create it. */
  function Upsert(view: View, tenant: string, data: Record): View {
    view[data.code := if data.code in view then Patched(view[data.code], data)
                      else NewMember(tenant, data)]
  }

  /** One row after the other, in file order. */
  function UpsertAll(view: View, tenant: string, records: seq<Record>): View
    decreases |records|
  {
    if |records| == 0 then view
    else Upsert(UpsertAll(view, tenant, records[..|records| - 1]), tenant, records[|records| - 1])
  }

  function Datas(entries: seq<Entry>): seq<Record> {
    seq(|entries|, i requires 0 <= i < |entries| => entries[i].data)
  }

  lemma UpsertSnoc(view: View, tenant: string, entries: seq<Entry>, entry: Entry)
    ensures UpsertAll(view, tenant, Datas(entries + [entry]))
         == Upsert(UpsertAll(view, tenant, Datas(entries)), tenant, entry.data)
  {
    assert Datas(entries + [entry])[..|entries|] == Datas(entries);
  }

  /** Upserts of different codes commute. */
  lemma {:induction false} UpsertCommutes(view: View, tenant: string, data: Record, entries: seq<Entry>)
    requires data.code !in EntryCodes(entries)
    ensures UpsertAll(Upsert(view, tenant, data), tenant, Datas(entries))
         == Upsert(UpsertAll(view, tenant, Datas(entries)), tenant, data)
    decreases |entries|
  {
    if |entries| > 0 {
      var front, final := entries[..|entries| - 1], entries[|entries| - 1];
      assert entries == front + [final];
      assert final.data.code in EntryCodes(entries);
      assert EntryCodes(front) <= EntryCodes(entries);
      UpsertSnoc(view, tenant, front, final);
      UpsertSnoc(Upsert(view, tenant, data), tenant, front, final);
      UpsertCommutes(view, tenant, data, front);
    }
  }

  predicate DistinctCodes(entries: seq<Entry>) {
    forall i, j :: 0 <= i < j < |entries| ==> entries[i].data.code != entries[j].data.code
  }

  lemma {:induction false} PreparedDistinct(verdicts: seq<Verdict>, n: nat)
    requires n <= |verdicts|
    ensures DistinctCodes(Prepared(verdicts, n))
    ensures forall code :: code in EntryCodes(Prepared(verdicts, n)) ==> Has(verdicts, n, code)
  {
    if n > 0 {
      PreparedDistinct(verdicts, n - 1);
      HasNext(verdicts, n - 1);
      var front := Prepared(verdicts, n - 1);
      forall k | 0 <= k < |front| ensures front[k].data.code in EntryCodes(front) {
      }
    }
  }

  /** Where the entries of a plan come from. */
  lemma {:induction false} SplitCodes(prepared: seq<Entry>, existing: set<Code>, updateExisting: bool)
    requires DistinctCodes(prepared)
    ensures var plan := Split(prepared, existing, updateExisting);
      && EntryCodes(plan.create) <= EntryCodes(prepared) - existing
      && EntryCodes(plan.update) <= EntryCodes(prepared) * existing
      && DistinctCodes(plan.create) && DistinctCodes(plan.update)
    decreases |prepared|
  {
    if |prepared| > 0 {
      var front, final := prepared[..|prepared| - 1], prepared[|prepared| - 1];
      SplitCodes(front, existing, updateExisting);
      assert EntryCodes(front) <= EntryCodes(prepared);
      assert final.data.code in EntryCodes(prepared) && final.data.code !in EntryCodes(front);
      var plan := Split(front, existing, updateExisting);
      CodesSnoc(plan.create, final);
      CodesSnoc(plan.update, final);
    }
  }

  lemma CodesSnoc(entries: seq<Entry>, entry: Entry)
    ensures EntryCodes(entries + [entry]) == EntryCodes(entries) + {entry.data.code}
    ensures DistinctCodes(entries) && entry.data.code !in EntryCodes(entries)
        ==> DistinctCodes(entries + [entry])
  {
    var longer := entries + [entry];
    assert longer[|entries|] == entry;
    forall i | 0 <= i < |entries| ensures longer[i].data.code in EntryCodes(entries) {
      assert longer[i] == entries[i];
    }
    forall code | code in EntryCodes(entries) ensures code in EntryCodes(longer) {
      var i :| 0 <= i < |entries| && entries[i].data.code == code;
      assert longer[i] == entries[i];
    }
  }

  /** Creating first and updating afterwards is as good as the file order. */
  lemma {:induction false} SplitRefines(view: View, tenant: string, prepared: seq<Entry>,
                                        existing: set<Code>, updateExisting: bool)
    requires DistinctCodes(prepared)
    requires Split(prepared, existing, updateExisting).conflicts == []
    ensures var plan := Split(prepared, existing, updateExisting);
      UpsertAll(UpsertAll(view, tenant, Datas(plan.create)), tenant, Datas(plan.update))
      == UpsertAll(view, tenant, Datas(prepared))
    decreases |prepared|
  {
    if |prepared| > 0 {
      var front, final := prepared[..|prepared| - 1], prepared[|prepared| - 1];
      assert prepared == front + [final];
      var plan := Split(front, existing, updateExisting);
      SplitRefines(view, tenant, front, existing, updateExisting);
      UpsertSnoc(view, tenant, front, final);
      if final.data.code !in existing {
        SplitCodes(front, existing, updateExisting);
        UpsertSnoc(view, tenant, plan.create, final);
        UpsertCommutes(UpsertAll(view, tenant, Datas(plan.create)), tenant, final.data, plan.update);
      } else {
        UpsertSnoc(UpsertAll(view, tenant, Datas(plan.create)), tenant, plan.update, final);
      }
    }
  }

  // -------------------------------------------------- from the table to its view

  lemma AddRow(members: Members, tenant: string, view: View, id: Id, data: Record)
    requires UniqueCodes(members) && Shows(view, members, tenant)
    requires id !in members && data.code !in view
    ensures UniqueCodes(members[id := NewMember(tenant, data)])
    ensures Shows(Upsert(view, tenant, data), members[id := NewMember(tenant, data)], tenant)
  {
    var members' := members[id := NewMember(tenant, data)];
    assert members'[id].code == data.code;
    forall code | code in Upsert(view, tenant, data) ensures CodeTaken(members', tenant, code) {
      if code != data.code {
        var other :| other in members && members[other].tenant == tenant && members[other].code == code;
        assert members'[other] == members[other];
      }
    }
  }

  lemma PatchRow(members: Members, tenant: string, view: View, id: Id, data: Record)
    requires UniqueCodes(members) && Shows(view, members, tenant)
    requires IsMember(members, tenant, id, data.code)
    ensures UniqueCodes(members[id := Patched(members[id], data)])
    ensures Shows(Upsert(view, tenant, data), members[id := Patched(members[id], data)], tenant)
  {
    var members' := members[id := Patched(members[id], data)];
    forall code | code in Upsert(view, tenant, data) ensures CodeTaken(members', tenant, code) {
      var other :| other in members && members[other].tenant == tenant && members[other].code == code;
      assert members'[other].tenant == tenant && members'[other].code == code;
    }
  }

  predicate IsMember(members: Members, tenant: string, id: Id, code: Code) {
    id in members && members[id].tenant == tenant && members[id].code == code
  }

  /** What a run may do to one row that was there before it. */
  predicate RowKept(before: Member, after: Member, tenant: string) {
    && (before.tenant != tenant ==> after == before)
    && after.tenant == before.tenant && after.code == before.code
    && after.consentAt == before.consentAt && after.consentVersion == before.consentVersion
  }

  predicate RowNew(after: Member, tenant: string) {
    after.tenant == tenant && after.consentAt.None? && after.consentVersion.None?
  }

  ghost predicate OnlyTouches(before: Members, after: Members, tenant: string) {
    && (forall id :: id in before ==> id in after && RowKept(before[id], after[id], tenant))
    && (forall id :: id in after && id !in before ==> RowNew(after[id], tenant))
  }

  /** Creating rows adds the new ids and leaves every old row as it was. */
  lemma {:induction false} CreateAdds(members: Members, tenant: string, entries: seq<Entry>, newId: nat -> Id)
    requires FreshIds(newId, members)
    ensures var after := CreateAll(members, tenant, entries, newId);
      && OnlyTouches(members, after, tenant)
      && (forall k: nat :: k >= |entries| ==> newId(k) !in after)
      && (forall id :: id in members ==> after[id] == members[id])
    decreases |entries|
  {
    if |entries| > 0 {
      CreateAdds(members, tenant, entries[..|entries| - 1], newId);
    }
  }

  lemma FrontDiffers(entries: seq<Entry>)
    requires |entries| > 0 && DistinctCodes(entries)
    ensures entries[|entries| - 1].data.code !in EntryCodes(entries[..|entries| - 1])
    ensures EntryCodes(entries)
         == EntryCodes(entries[..|entries| - 1]) + {entries[|entries| - 1].data.code}
    ensures DistinctCodes(entries[..|entries| - 1])
  {
    assert entries == entries[..|entries| - 1] + [entries[|entries| - 1]];
    CodesSnoc(entries[..|entries| - 1], entries[|entries| - 1]);
  }

  lemma {:induction false} CreateRefines(members: Members, tenant: string, view: View,
                                         entries: seq<Entry>, newId: nat -> Id)
    requires UniqueCodes(members) && FreshIds(newId, members) && Shows(view, members, tenant)
    requires DistinctCodes(entries) && EntryCodes(entries) !! view.Keys
    ensures UniqueCodes(CreateAll(members, tenant, entries, newId))
    ensures Shows(UpsertAll(view, tenant, Datas(entries)), CreateAll(members, tenant, entries, newId), tenant)
    ensures UpsertAll(view, tenant, Datas(entries)).Keys == view.Keys + EntryCodes(entries)
    decreases |entries|
  {
    if |entries| == 0 {
      assert Datas(entries) == [];
    } else {
      var k := |entries| - 1;
      var front, final := entries[..k], entries[k];
      assert entries == front + [final];
      FrontDiffers(entries);
      CreateAdds(members, tenant, front, newId);
      CreateRefines(members, tenant, view, front, newId);
      UpsertSnoc(view, tenant, front, final);
      AddRow(CreateAll(members, tenant, front, newId), tenant,
             UpsertAll(view, tenant, Datas(front)), newId(k), final.data);
    }
  }

  lemma {:induction false} UpdateRefines(members: Members, tenant: string, view: View,
                                         entries: seq<Entry>, ids: map<Code, Id>)
    requires UniqueCodes(members) && Shows(view, members, tenant)
    requires forall code :: code in EntryCodes(entries) ==>
      code in ids && IsMember(members, tenant, ids[code], code)
    ensures var after := UpdateAll(members, entries, ids);
      && UniqueCodes(after) && Shows(UpsertAll(view, tenant, Datas(entries)), after, tenant)
      && after.Keys == members.Keys && OnlyTouches(members, after, tenant)
    decreases |entries|
  {
    if |entries| == 0 {
      assert Datas(entries) == [];
    } else {
      var k := |entries| - 1;
      var front, final := entries[..k], entries[k];
      assert entries == front + [final];
      CodesSnoc(front, final);
      UpdateRefines(members, tenant, view, front, ids);
      UpsertSnoc(view, tenant, front, final);
      var id := ids[final.data.code];
      var before := UpdateAll(members, front, ids);
      assert RowKept(members[id], before[id], tenant);
      PatchRow(before, tenant, UpsertAll(view, tenant, Datas(front)), id, final.data);
    }
  }

  predicate AllAccepted(verdicts: seq<Verdict>) {
    forall i :: 0 <= i < |verdicts| ==> verdicts[i].Valid? && Accepted(verdicts, i)
  }

  /** The records of the first `n` rows, in file order. */
  function Records(verdicts: seq<Verdict>, n: nat): seq<Record>
    requires n <= |verdicts| && AllAccepted(verdicts)
  {
    seq(n, i requires 0 <= i < n => verdicts[i].record)
  }

  /** No error means no row was rejected and no code repeated. */
  lemma CleanFileAccepts(members: Members, tenant: string, verdicts: seq<Verdict>)
    requires FileErrors(verdicts, |verdicts|) == []
    ensures AllAccepted(verdicts)
  {
    forall i | 0 <= i < |verdicts| ensures verdicts[i].Valid? && Accepted(verdicts, i) {
      if !Accepted(verdicts, i) {
        var error := BadRowExplained(members, tenant, verdicts, true, i);
        FileErrorsAre(members, tenant, verdicts, true, |verdicts|, error);
        assert false;
      }
    }
  }

  /** A file whose rows are all accepted is all prepared, in file order. */
  lemma {:induction false} AcceptedFile(verdicts: seq<Verdict>, n: nat)
    requires n <= |verdicts| && AllAccepted(verdicts)
    ensures Datas(Prepared(verdicts, n)) == Records(verdicts, n)
  {
    if n == 0 {
      assert Datas(Prepared(verdicts, n)) == [];
    } else {
      AcceptedFile(verdicts, n - 1);
      assert verdicts[n - 1].Valid? && Accepted(verdicts, n - 1);
      var front, entry := Prepared(verdicts, n - 1), Entry(n - 1 + FIRST_DATA_ROW, verdicts[n - 1].record);
      assert Datas(front + [entry]) == Datas(front) + [entry.data];
      assert Records(verdicts, n) == Records(verdicts, n - 1) + [entry.data];
    }
  }

  lemma KnownIds(members: Members, tenant: string, view: View, verdicts: seq<Verdict>)
    requires UniqueCodes(members) && Shows(view, members, tenant)
    ensures var ids := PreparedIds(members, tenant, verdicts);
      && ids.Keys == EntryCodes(Prepared(verdicts, |verdicts|)) * view.Keys
      && forall code :: code in ids ==> IsMember(members, tenant, ids[code], code)
  {
  }

  /**
   A run that writes leaves the same code-to-member map as upserting the rows one
   by one in file order, keeps codes unique, leaves other tenants alone, and
   neither grants nor withdraws anybody's consent.
   */
  lemma RunRefinesUpsert(members: Members, tenant: string, view: View, verdicts: seq<Verdict>,
                         options: Options, newId: nat -> Id)
    requires UniqueCodes(members) && FreshIds(newId, members) && Shows(view, members, tenant)
    requires Writes(members, tenant, verdicts, options)
    ensures AllAccepted(verdicts)
    ensures var after := AfterRun(members, tenant, verdicts, options, newId, true).1;
      && UniqueCodes(after)
      && Shows(UpsertAll(view, tenant, Records(verdicts, |verdicts|)), after, tenant)
      && OnlyTouches(members, after, tenant)
  {
    var n := |verdicts|;
    var prepared, ids := Prepared(verdicts, n), PreparedIds(members, tenant, verdicts);
    var plan := Split(prepared, ids.Keys, options.updateExisting);
    CleanFileAccepts(members, tenant, verdicts);
    AcceptedFile(verdicts, n);
    PreparedDistinct(verdicts, n);
    SplitCodes(prepared, ids.Keys, options.updateExisting);
    SplitRefines(view, tenant, prepared, ids.Keys, options.updateExisting);
    KnownIds(members, tenant, view, verdicts);
    PlanRefines(members, tenant, view, plan, ids, newId);
  }

  lemma TouchesTwice(before: Members, between: Members, after: Members, tenant: string)
    requires OnlyTouches(before, between, tenant) && OnlyTouches(between, after, tenant)
    requires after.Keys == between.Keys
    ensures OnlyTouches(before, after, tenant)
  {
  }

  lemma PlanRefines(members: Members, tenant: string, view: View, plan: Plan, ids: map<Code, Id>,
                    newId: nat -> Id)
    requires UniqueCodes(members) && FreshIds(newId, members) && Shows(view, members, tenant)
    requires DistinctCodes(plan.create) && EntryCodes(plan.create) !! view.Keys
    requires EntryCodes(plan.update) <= ids.Keys
    requires forall code :: code in ids ==> IsMember(members, tenant, ids[code], code)
    ensures var after := UpdateAll(CreateAll(members, tenant, plan.create, newId), plan.update, ids);
      && UniqueCodes(after) && OnlyTouches(members, after, tenant)
      && Shows(UpsertAll(UpsertAll(view, tenant, Datas(plan.create)), tenant, Datas(plan.update)),
               after, tenant)
  {
    var created := CreateAll(members, tenant, plan.create, newId);
    CreateAdds(members, tenant, plan.create, newId);
    CreateRefines(members, tenant, view, plan.create, newId);
    forall code | code in EntryCodes(plan.update)
      ensures code in ids && IsMember(created, tenant, ids[code], code)
    {
      assert IsMember(members, tenant, ids[code], code);
    }
    UpdateRefines(created, tenant, UpsertAll(view, tenant, Datas(plan.create)), plan.update, ids);
    TouchesTwice(members, created, UpdateAll(created, plan.update, ids), tenant);
  }

  // ----------------------------------------------------- importing a file again

  /** Patching with this record would change nothing. */
  predicate Settled(member: Member, data: Record) {
    Patched(member, data) == member
  }

  lemma {:induction false} UpsertAllSettles(view: View, tenant: string, entries: seq<Entry>, i: nat)
    requires DistinctCodes(entries) && i < |entries|
    ensures var after := UpsertAll(view, tenant, Datas(entries));
      entries[i].data.code in after && Settled(after[entries[i].data.code], entries[i].data)
    decreases |entries|
  {
    var front, final := entries[..|entries| - 1], entries[|entries| - 1];
    assert entries == front + [final];
    UpsertSnoc(view, tenant, front, final);
    if i < |front| {
      FrontDiffers(entries);
      UpsertAllSettles(view, tenant, front, i);
      assert front[i].data.code in EntryCodes(front);
    }
  }

  lemma {:induction false} SplitAllKnown(prepared: seq<Entry>, existing: set<Code>)
    requires EntryCodes(prepared) <= existing
    ensures Split(prepared, existing, true) == Plan([], prepared, [])
    decreases |prepared|
  {
    if |prepared| > 0 {
      var front, final := prepared[..|prepared| - 1], prepared[|prepared| - 1];
      assert prepared == front + [final];
      CodesSnoc(front, final);
      SplitAllKnown(front, existing);
    }
  }

  /** Every entry finds its member under its code, with nothing left to change. */
  predicate SettledEntry(members: Members, entry: Entry, ids: map<Code, Id>) {
    && entry.data.code in ids && ids[entry.data.code] in members
    && Settled(members[ids[entry.data.code]], entry.data)
  }

  lemma {:induction false} UpdateSettled(members: Members, entries: seq<Entry>, ids: map<Code, Id>)
    requires forall i :: 0 <= i < |entries| ==> SettledEntry(members, entries[i], ids)
    ensures UpdateAll(members, entries, ids) == members
    decreases |entries|
  {
    if |entries| > 0 {
      var k := |entries| - 1;
      UpdateSettled(members, entries[..k], ids);
      assert SettledEntry(members, entries[k], ids);
    }
  }

  predicate SettledView(view: View, entries: seq<Entry>) {
    forall i :: 0 <= i < |entries| ==>
      entries[i].data.code in view && Settled(view[entries[i].data.code], entries[i].data)
  }

  /** Importing the same file again updates every row and changes not one field. */
  lemma ReimportChangesNothing(members: Members, tenant: string, view: View, verdicts: seq<Verdict>,
                               options: Options, newId: nat -> Id, newId': nat -> Id)
    requires UniqueCodes(members) && FreshIds(newId, members) && Shows(view, members, tenant)
    requires Writes(members, tenant, verdicts, options)
    ensures var after := AfterRun(members, tenant, verdicts, options, newId, true).1;
      && UniqueCodes(after)
      && var (outcome, again) := AfterRun(after, tenant, verdicts, Options(false, true), newId', true);
         again == after && outcome.Done? && outcome.report.errors == []
         && outcome.report.updated == |verdicts| && outcome.report.created == 0
  {
    var n := |verdicts|;
    RunRefinesUpsert(members, tenant, view, verdicts, options, newId);
    var after := AfterRun(members, tenant, verdicts, options, newId, true).1;
    var prepared := Prepared(verdicts, n);
    AcceptedFile(verdicts, n);
    PreparedDistinct(verdicts, n);
    forall i | 0 <= i < |prepared|
      ensures var view' := UpsertAll(view, tenant, Datas(prepared));
        prepared[i].data.code in view' && Settled(view'[prepared[i].data.code], prepared[i].data)
    {
      UpsertAllSettles(view, tenant, prepared, i);
    }
    assert |Datas(prepared)| == n;
    SecondRun(after, tenant, UpsertAll(view, tenant, Datas(prepared)), verdicts, newId');
  }

  lemma SecondRun(after: Members, tenant: string, view: View, verdicts: seq<Verdict>, newId: nat -> Id)
    requires UniqueCodes(after) && Shows(view, after, tenant)
    requires FileErrors(verdicts, |verdicts|) == [] && |Prepared(verdicts, |verdicts|)| == |verdicts|
    requires SettledView(view, Prepared(verdicts, |verdicts|))
    ensures var (outcome, again) := AfterRun(after, tenant, verdicts, Options(false, true), newId, true);
      again == after && outcome.Done? && outcome.report.errors == []
      && outcome.report.updated == |verdicts| && outcome.report.created == 0
  {
    var prepared, ids := Prepared(verdicts, |verdicts|), PreparedIds(after, tenant, verdicts);
    KnownIds(after, tenant, view, verdicts);
    FindSettled(after, tenant, view, prepared, ids);
    SplitAllKnown(prepared, ids.Keys);
    UpdateSettled(after, prepared, ids);
    assert CreateAll(after, tenant, [], newId) == after;
  }

  lemma FindSettled(after: Members, tenant: string, view: View, entries: seq<Entry>, ids: map<Code, Id>)
    requires Shows(view, after, tenant) && SettledView(view, entries)
    requires ids.Keys == EntryCodes(entries) * view.Keys
    requires forall code :: code in ids ==> IsMember(after, tenant, ids[code], code)
    ensures EntryCodes(entries) <= ids.Keys
    ensures forall i :: 0 <= i < |entries| ==> SettledEntry(after, entries[i], ids)
  {
    forall i | 0 <= i < |entries| ensures SettledEntry(after, entries[i], ids) {
      var code := entries[i].data.code;
      assert code in EntryCodes(entries);
      assert IsMember(after, tenant, ids[code], code);
    }
  }
}
