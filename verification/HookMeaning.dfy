/**
 What a call through the tenant-scoped client does to the tables, said in terms
 of the request: which rows it means, what they hold afterwards, and that every
 other row stays. Then the same for a transaction of several statements.
 */
module HookMeaning {
  import opened Common
  import opened TenantScope
  import opened TenantIsolation
  import opened ScopedClient

  /** The rows of the request's own tenant that the rest of the caller's filter accepts. */
  function Meant(table: Table, tenant: TenantId, model: string, where: Where): Table {
    table - set id | id in table &&
      !(table[id].model == model && table[id].tenant == Some(tenant) && where.rest(id, table[id]))
  }

  /** Outside of some ids nothing has changed. */
  ghost predicate SameElsewhere(before: Table, after: Table, ids: set<RowId>) {
    forall id :: id !in ids ==> (id in before <==> id in after) && (id in before ==> after[id] == before[id])
  }

  /** The effect of a call in a request of this tenant. */
  function HookEffect(table: Table, session: Option<string>, tenant: TenantId, call: Call, ids: seq<RowId>): Effect
    requires tenant != "" && call.model in TENANT_SCOPED_MODELS && |ids| == IdsNeeded(call.args)
  {
    CallEffect(table, session, Store(Some(tenant), false), call, true, ids).value
  }

  lemma HookIs(table: Table, session: Option<string>, tenant: TenantId, call: Call, ids: seq<RowId>)
    requires tenant != "" && call.model in TENANT_SCOPED_MODELS && |ids| == IdsNeeded(call.args)
    ensures IdsNeeded(Rewrite(call.operation, call.args, tenant)) == |ids|
    ensures HookEffect(table, session, tenant, call, ids)
         == Exec(table, Some(tenant), true, call.model, Rewrite(call.operation, call.args, tenant), ids)
  {
    RewriteKeepsIds(call.operation, call.args, tenant);
  }

  lemma FoundIsMeant(table: Table, tenant: TenantId, model: string, where: Where)
    requires tenant != ""
    ensures Found(table, Some(tenant), true, model, ScopedWhere(where, tenant)) == Meant(table, tenant, model, where)
  {
  }

  /** A find, count, aggregate or grouping answers from exactly the rows meant, and writes nothing. */
  lemma HookReads(table: Table, session: Option<string>, tenant: TenantId, call: Call, ids: seq<RowId>)
    requires tenant != "" && call.model in TENANT_SCOPED_MODELS && call.args.Read? && |ids| == IdsNeeded(call.args)
    requires call.operation in {"findUnique", "findUniqueOrThrow", "findFirst", "findFirstOrThrow", "findMany",
                                "count", "aggregate", "groupBy"}
    ensures var meant := Meant(table, tenant, call.model, call.args.where);
      HookEffect(table, session, tenant, call, ids) == Effect(map[], Answer(call.args.result(meant)))
  {
    FoundIsMeant(table, tenant, call.model, call.args.where);
  }

  lemma PatchedStay(found: Table, tenant: TenantId, data: Patch)
    requires tenant != "" && (data.tenant == Absent || data.tenant == Is(Some(tenant)))
    requires forall id :: id in found ==> found[id].tenant == Some(tenant)
    ensures Guarded(UpdateRows(found, data), Some(tenant), true)
         == Effect(UpdateRows(found, data), Changed(UpdateRows(found, data)))
  {
  }

  /** What an update leaves: the rows meant, with their data changed as asked and nothing else. */
  ghost predicate UpdatesThese(table: Table, after: Table, meant: Table, data: Patch) {
    && SameElsewhere(table, after, meant.Keys)
    && forall id :: id in meant ==>
         id in after && after[id] == Row(meant[id].model, meant[id].tenant, data.change(meant[id].data))
  }

  /** An update or updateMany that leaves the tenant column alone changes exactly the rows meant. */
  lemma HookUpdates(table: Table, session: Option<string>, tenant: TenantId, call: Call, ids: seq<RowId>)
    requires tenant != "" && call.model in TENANT_SCOPED_MODELS && WellFormed(call) && |ids| == IdsNeeded(call.args)
    requires call.operation in {"update", "updateMany"}
    requires call.args.data.tenant == Absent || call.args.data.tenant == Is(Some(tenant))
    ensures var meant := Meant(table, tenant, call.model, call.args.where);
      var effect := HookEffect(table, session, tenant, call, ids);
      && (effect.reply == NotFound <==> call.operation == "update" && meant == map[])
      && (effect.reply != NotFound ==> effect.reply == Changed(effect.writes) && effect.writes.Keys == meant.Keys)
      && UpdatesThese(table, Overlay(table, effect.writes), meant, call.args.data)
  {
    FoundIsMeant(table, tenant, call.model, call.args.where);
    PatchedStay(Meant(table, tenant, call.model, call.args.where), tenant, call.args.data);
  }

  /** A delete or deleteMany removes exactly the rows meant. */
  lemma HookDeletes(table: Table, session: Option<string>, tenant: TenantId, call: Call, ids: seq<RowId>)
    requires tenant != "" && call.model in TENANT_SCOPED_MODELS && WellFormed(call) && |ids| == IdsNeeded(call.args)
    requires call.operation in {"delete", "deleteMany"}
    ensures var meant := Meant(table, tenant, call.model, call.args.where);
      var effect := HookEffect(table, session, tenant, call, ids);
      && (effect.reply == NotFound <==> call.operation == "delete" && meant == map[])
      && (effect.reply != NotFound ==> effect.reply == Changed(effect.writes) && effect.writes.Keys == meant.Keys)
      && Overlay(table, effect.writes) == table - meant.Keys
  {
    FoundIsMeant(table, tenant, call.model, call.args.where);
    var meant := Meant(table, tenant, call.model, call.args.where);
    var writes: Writes := map id | id in meant :: None;
    assert Guarded(writes, Some(tenant), true) == Effect(writes, Changed(writes));
  }

  predicate Distinct(ids: seq<RowId>) {
    forall i, j :: 0 <= i < j < |ids| ==> ids[i] != ids[j]
  }

  lemma {:induction false} InsertedAt(model: string, rows: seq<Insert>, ids: seq<RowId>, i: nat)
    requires |rows| == |ids| && Distinct(ids) && i < |ids|
    ensures ids[i] in InsertRows(model, rows, ids)
    ensures InsertRows(model, rows, ids)[ids[i]] == Some(Inserted(model, rows[i]))
  {
    var k := |rows| - 1;
    if i < k {
      InsertedAt(model, rows[..k], ids[..k], i);
      assert ids[i] != ids[k];
    }
  }

  /** The writes of a create: the ids, each with a row of the tenant that holds the data asked for. */
  ghost predicate WritesThese(writes: Writes, model: string, tenant: TenantId, rows: seq<Insert>, ids: seq<RowId>)
    requires |rows| == |ids|
  {
    && writes.Keys == (set id | id in ids)
    && forall i :: 0 <= i < |ids| ==> writes[ids[i]] == Some(Row(model, Some(tenant), rows[i].data))
  }

  lemma StampedWrites(model: string, rows: seq<Insert>, ids: seq<RowId>, tenant: TenantId)
    requires |rows| == |ids| && Distinct(ids)
    ensures WritesThese(InsertRows(model, StampAll(rows, tenant), ids), model, tenant, rows, ids)
  {
    var stamped := StampAll(rows, tenant);
    InsertKeys(model, stamped, ids);
    assert InsertRows(model, stamped, ids).Keys == set id | id in ids;
    forall i | 0 <= i < |ids|
      ensures InsertRows(model, stamped, ids)[ids[i]] == Some(Row(model, Some(tenant), rows[i].data))
    {
      InsertedAt(model, stamped, ids, i);
    }
  }

  lemma WritesPass(writes: Writes, model: string, tenant: TenantId, rows: seq<Insert>, ids: seq<RowId>)
    requires tenant != "" && |rows| == |ids| && WritesThese(writes, model, tenant, rows, ids)
    ensures Guarded(writes, Some(tenant), true) == Effect(writes, Changed(writes))
  {
    forall id | id in writes ensures writes[id].Some? && Policy(Some(tenant), writes[id].value) {
      var i :| 0 <= i < |ids| && ids[i] == id;
    }
  }

  lemma WritesStore(table: Table, writes: Writes, model: string, tenant: TenantId, rows: seq<Insert>, ids: seq<RowId>)
    requires |rows| == |ids| && WritesThese(writes, model, tenant, rows, ids)
    ensures StoresThese(table, Overlay(table, writes), model, tenant, rows, ids)
  {
    forall i | 0 <= i < |ids| ensures ids[i] in writes {
    }
  }

  /** What a create leaves: one row per id, of this tenant, holding the data that was asked for. */
  ghost predicate StoresThese(table: Table, after: Table, model: string, tenant: TenantId, rows: seq<Insert>,
                              ids: seq<RowId>)
    requires |rows| == |ids|
  {
    && SameElsewhere(table, after, set id | id in ids)
    && forall i :: 0 <= i < |ids| ==> ids[i] in after && after[ids[i]] == Row(model, Some(tenant), rows[i].data)
  }

  lemma CreateIsStamped(call: Call, tenant: TenantId)
    requires WellFormed(call) && call.operation in {"create", "createMany"}
    ensures Rewrite(call.operation, call.args, tenant) == Create(StampAll(call.args.rows, tenant))
  {
  }

  lemma CreateEffect(table: Table, session: Option<string>, tenant: TenantId, call: Call, ids: seq<RowId>)
    requires tenant != "" && call.model in TENANT_SCOPED_MODELS && WellFormed(call) && |ids| == IdsNeeded(call.args)
    requires call.operation in {"create", "createMany"}
    ensures HookEffect(table, session, tenant, call, ids)
         == Guarded(InsertRows(call.model, StampAll(call.args.rows, tenant), ids), Some(tenant), true)
  {
    HookIs(table, session, tenant, call, ids);
    CreateIsStamped(call, tenant);
  }

  /** A create or createMany stores every row asked for, whole, whatever tenant it names. */
  lemma HookCreates(table: Table, session: Option<string>, tenant: TenantId, call: Call, ids: seq<RowId>)
    requires tenant != "" && call.model in TENANT_SCOPED_MODELS && WellFormed(call) && |ids| == IdsNeeded(call.args)
    requires call.operation in {"create", "createMany"} && Distinct(ids)
    ensures var effect := HookEffect(table, session, tenant, call, ids);
      && WritesThese(effect.writes, call.model, tenant, call.args.rows, ids) && effect.reply == Changed(effect.writes)
      && StoresThese(table, Overlay(table, effect.writes), call.model, tenant, call.args.rows, ids)
  {
    var writes := InsertRows(call.model, StampAll(call.args.rows, tenant), ids);
    StampedWrites(call.model, call.args.rows, ids, tenant);
    WritesPass(writes, call.model, tenant, call.args.rows, ids);
    CreateEffect(table, session, tenant, call, ids);
    WritesStore(table, writes, call.model, tenant, call.args.rows, ids);
  }

  /** An upsert that leaves the tenant column alone creates its row when none is meant, and otherwise updates. */
  lemma HookUpserts(table: Table, session: Option<string>, tenant: TenantId, call: Call, ids: seq<RowId>)
    requires tenant != "" && call.model in TENANT_SCOPED_MODELS && WellFormed(call) && |ids| == IdsNeeded(call.args)
    requires call.operation == "upsert"
    requires call.args.data.tenant == Absent || call.args.data.tenant == Is(Some(tenant))
    ensures var meant := Meant(table, tenant, call.model, call.args.where);
      var effect := HookEffect(table, session, tenant, call, ids);
      var after := Overlay(table, effect.writes);
      && effect.reply == Changed(effect.writes)
      && (meant == map[] ==> StoresThese(table, after, call.model, tenant, [call.args.create], ids))
      && (meant != map[] ==> UpdatesThese(table, after, meant, call.args.data))
  {
    var meant := Meant(table, tenant, call.model, call.args.where);
    FoundIsMeant(table, tenant, call.model, call.args.where);
    if meant == map[] {
      var rows := [call.args.create];
      var writes := InsertRows(call.model, StampAll(rows, tenant), ids);
      StampedWrites(call.model, rows, ids, tenant);
      WritesPass(writes, call.model, tenant, rows, ids);
      WritesStore(table, writes, call.model, tenant, rows, ids);
      assert StampAll(rows, tenant) == [Stamped(call.args.create, tenant)];
    } else {
      PatchedStay(meant, tenant, call.args.data);
    }
  }

  /** The tables the migrations put under a policy, by model name. */
  const POLICY_MODELS := {
    "TenantBranding", "TenantSettings", "User", "AuditLog", // 20260818060000_row_level_security
    "Member", "MemberFieldDefinition",                      // the member migration
    "FaceTemplate"                                          // the face-template migration
  }

  /** A call on any other model runs exactly as it was written; on these it never runs without a tenant. */
  lemma ScopedIsPoliced(table: Table, session: Option<string>, store: Store, call: Call, hasDelegate: bool,
                        ids: seq<RowId>)
    requires |ids| == IdsNeeded(call.args)
    ensures call.model !in POLICY_MODELS ==>
      CallEffect(table, session, store, call, hasDelegate, ids)
      == Success(Exec(table, session, false, call.model, call.args, ids))
    ensures call.model in POLICY_MODELS && (store.platformScope || store.tenantId.GetOr("") == "") ==>
      CallEffect(table, session, store, call, hasDelegate, ids).Failure?
  {
  }

  // ------------------------------------------------- several statements in one transaction

  /** These are statements of one tenant on one connection. */
  predicate Statements(es: seq<Event>, tenant: TenantId, c: ConnId) {
    forall i :: 0 <= i < |es| ==> es[i].Statement? && es[i].tenant == tenant && es[i].conn == c
  }

  /** The table after the statements, one after the other, each on what the one before left. */
  function InTurn(table: Table, es: seq<Event>, tenant: TenantId): Table
    requires forall i :: 0 <= i < |es| ==> es[i].Statement? && |es[i].ids| == IdsNeeded(es[i].args)
    decreases |es|
  {
    if |es| == 0 then table
    else
      var effect := Exec(table, Some(tenant), true, es[0].model, es[0].args, es[0].ids);
      InTurn(Overlay(table, effect.writes), es[1..], tenant)
  }

  /** Is one of the statements refused? */
  predicate AnyRefused(table: Table, es: seq<Event>, tenant: TenantId)
    requires forall i :: 0 <= i < |es| ==> es[i].Statement? && |es[i].ids| == IdsNeeded(es[i].args)
    decreases |es|
  {
    |es| > 0 &&
    var effect := Exec(table, Some(tenant), true, es[0].model, es[0].args, es[0].ids);
    effect.reply == PolicyViolation || AnyRefused(Overlay(table, effect.writes), es[1..], tenant)
  }

  lemma OverlayTwice(table: Table, first: Writes, second: Writes)
    ensures Overlay(table, first + second) == Overlay(Overlay(table, first), second)
  {
  }

  predicate Configured(s: State, c: ConnId, tenant: TenantId) {
    c in s.conns && s.conns[c].tx.Some? && s.conns[c].tx.value.tenant == tenant
    && s.conns[c].tx.value.local == Some(tenant)
  }

  lemma OneStatement(s: State, c: ConnId, tenant: TenantId, e: Event)
    requires Configured(s, c, tenant) && e.Statement? && e.tenant == tenant && e.conn == c && Enabled(s, e)
    ensures var s' := Step(s, e);
      && Configured(s', c, tenant) && s'.db == s.db
      && s'.conns == s.conns[c := s'.conns[c]] && s'.conns[c].session == s.conns[c].session
      && !s.conns[c].tx.value.failed
      && s'.conns[c].tx.value.failed
         == (Exec(SeenBy(s, c), Some(tenant), true, e.model, e.args, e.ids).reply == PolicyViolation)
      && SeenBy(s', c) == Overlay(SeenBy(s, c), Exec(SeenBy(s, c), Some(tenant), true, e.model, e.args, e.ids).writes)
  {
    OverlayTwice(s.db, s.conns[c].tx.value.pending, StatementEffect(s, e).writes);
  }

  lemma ValidStatements(s: State, es: seq<Event>, tenant: TenantId, c: ConnId)
    requires ValidRun(s, es) && Statements(es, tenant, c)
    ensures forall i :: 0 <= i < |es| ==> es[i].Statement? && |es[i].ids| == IdsNeeded(es[i].args)
    decreases |es|
  {
    if |es| > 0 {
      assert es[0].Statement?;
      ValidStatements(Step(s, es[0]), es[1..], tenant, c);
      forall i | 0 <= i < |es| ensures es[i].Statement? && |es[i].ids| == IdsNeeded(es[i].args) {
        assert i > 0 ==> es[i] == es[1..][i - 1];
      }
    }
  }

  lemma {:induction false} StatementsInTurn(s: State, c: ConnId, tenant: TenantId, es: seq<Event>)
    requires Configured(s, c, tenant) && Statements(es, tenant, c) && ValidRun(s, es)
    requires forall i :: 0 <= i < |es| ==> es[i].Statement? && |es[i].ids| == IdsNeeded(es[i].args)
    ensures var t := Run(s, es);
      && Configured(t, c, tenant) && t.db == s.db && SeenBy(t, c) == InTurn(SeenBy(s, c), es, tenant)
      && t.conns == s.conns[c := t.conns[c]] && t.conns[c].session == s.conns[c].session
      && t.conns[c].tx.value.failed == (s.conns[c].tx.value.failed || AnyRefused(SeenBy(s, c), es, tenant))
    decreases |es|
  {
    if |es| > 0 {
      assert es[0].Statement?;
      OneStatement(s, c, tenant, es[0]);
      StatementsInTurn(Step(s, es[0]), c, tenant, es[1..]);
    }
  }

  /** The connection is given back: no transaction, no tenant that was not there before, the others untouched. */
  ghost predicate GivenBack(s: State, after: State, c: ConnId) {
    && c in s.conns && c in after.conns && after.conns == s.conns[c := after.conns[c]]
    && after.conns[c].tx == None
    && CurrentTenantId(after.conns[c].session) == CurrentTenantId(s.conns[c].session)
  }

  /** What `withTenantTx` does first: a fresh transaction of the tenant with the variable set. */
  lemma TransactionOpens(s: State, c: ConnId, tenant: TenantId)
    requires tenant != "" && c in s.conns && s.conns[c].tx == None
    ensures ValidRun(s, [Begin(tenant, c), Configure(tenant, c)])
    ensures Run(s, [Begin(tenant, c), Configure(tenant, c)])
         == State(s.db, s.conns[c := Conn(s.conns[c].session, Some(Tx(tenant, Some(tenant), map[], false)))])
  {
    var begun := Step(s, Begin(tenant, c));
    var es := [Begin(tenant, c), Configure(tenant, c)];
    assert es[1..] == [Configure(tenant, c)] && es[1..][1..] == [];
    assert Enabled(s, Begin(tenant, c)) && Enabled(begun, Configure(tenant, c));
    assert ValidRun(Step(begun, Configure(tenant, c)), []);
    assert Run(begun, [Configure(tenant, c)]) == Step(begun, Configure(tenant, c));
  }

  lemma EndGivesBack(s: State, t: State, c: ConnId, tenant: TenantId)
    requires c in s.conns && s.conns[c].tx.Some? && Configured(t, c, tenant)
    requires t.conns == s.conns[c := t.conns[c]] && t.conns[c].session == s.conns[c].session
    ensures Enabled(t, Rollback(tenant, c)) && Step(t, Rollback(tenant, c)).db == t.db
    ensures GivenBack(s, Step(t, Rollback(tenant, c)), c)
    ensures Enabled(t, Commit(tenant, c)) <==> !t.conns[c].tx.value.failed
    ensures Enabled(t, Commit(tenant, c)) ==>
      Step(t, Commit(tenant, c)).db == SeenBy(t, c) && GivenBack(s, Step(t, Commit(tenant, c)), c)
  {
    assert t.conns[c := Ended(t.conns[c])] == s.conns[c := Ended(t.conns[c])];
  }

  /**
   `withTenantTx`: any number of statements, each seeing what the ones before it
   wrote. Until the end nobody else sees any of it. A commit is possible exactly if
   none was refused and stores all of it, a rollback none of it, and either gives
   the connection back.
   */
  lemma TransactionIsAtomic(s: State, c: ConnId, tenant: TenantId, es: seq<Event>)
    requires c in s.conns && s.conns[c].tx == Some(Tx(tenant, Some(tenant), map[], false))
    requires Statements(es, tenant, c) && ValidRun(s, es)
    ensures forall i :: 0 <= i < |es| ==> es[i].Statement? && |es[i].ids| == IdsNeeded(es[i].args)
    ensures var t := Run(s, es);
      && t.db == s.db
      && (Enabled(t, Commit(tenant, c)) <==> !AnyRefused(s.db, es, tenant))
      && (Enabled(t, Commit(tenant, c)) ==>
            Step(t, Commit(tenant, c)).db == InTurn(s.db, es, tenant) && GivenBack(s, Step(t, Commit(tenant, c)), c))
      && Enabled(t, Rollback(tenant, c))
      && Step(t, Rollback(tenant, c)).db == s.db && GivenBack(s, Step(t, Rollback(tenant, c)), c)
  {
    ValidStatements(s, es, tenant, c);
    StatementsInTurn(s, c, tenant, es);
    assert SeenBy(s, c) == s.db;
    EndGivesBack(s, Run(s, es), c, tenant);
  }
}
