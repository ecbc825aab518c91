/**
 The tenant-scoped client on one pooled connection: the query hook that rewrites
 the arguments, opens a transaction, sets the variable, and runs the statement.
 */
module ScopedClient {
  import opened Common
  import opened TenantScope
  import opened TenantIsolation

  /** Whether a call is let through, and with which tenant. */
  function Gate(store: Store): Result<TenantId, ScopeError> {
    if store.platformScope then Failure(PlatformScopeOnAppClient)
    else if store.tenantId.GetOr("") == "" then Failure(MissingTenantContext)
    else Success(store.tenantId.value)
  }

  lemma RewriteKeepsIds(operation: string, args: Args, tenant: TenantId)
    ensures IdsNeeded(Rewrite(operation, args, tenant)) == IdsNeeded(args)
  {
  }

  /** The effect of a call on a database no other transaction is writing to. */
  function CallEffect(table: Table, session: Option<string>, store: Store, call: Call,
                      hasDelegate: bool, ids: seq<RowId>): Result<Effect, ScopeError>
    requires |ids| == IdsNeeded(call.args)
  {
    if call.model !in TENANT_SCOPED_MODELS then
      Success(Exec(table, session, false, call.model, call.args, ids))
    else
      match Gate(store)
      case Failure(error) => Failure(error)
      case Success(tenant) =>
        RewriteKeepsIds(call.operation, call.args, tenant);
        var scoped := Rewrite(call.operation, call.args, tenant);
        Success(Exec(table, if hasDelegate then Some(tenant) else session, true, call.model, scoped, ids))
  }

  /** A connection taken from the pool, and the database behind it. */
  class PooledConnection {
    var table: Table
    var session: Option<string>
    var local: Option<string>

    constructor (table: Table)
      ensures this.table == table && session == None && local == None
    {
      this.table := table;
      session, local := None, None;
    }

    /** No tenant is set and no transaction is open. */
    predicate Idle()
      reads this
    {
      local == None && CurrentTenantId(session) == None
    }

    /** `query(args)`: one statement on the connection as it stands. */
    method Query(rls: bool, model: string, args: Args, ids: seq<RowId>) returns (reply: Reply)
      requires |ids| == IdsNeeded(args)
      modifies this`table
      ensures var effect := Exec(old(table), if local.Some? then local else session, rls, model, args, ids);
        reply == effect.reply && table == Overlay(old(table), effect.writes)
    {
      var effect := Exec(table, if local.Some? then local else session, rls, model, args, ids);
      table := Overlay(table, effect.writes);
      reply := effect.reply;
    }

    /** `set_config('app.tenant_id', value, isLocal)` inside a transaction. */
    method SetConfig(value: string, isLocal: bool)
      modifies this`local, this`session
      ensures isLocal ==> local == Some(value) && session == old(session)
      ensures !isLocal ==> local == old(local) && session == Some(value)
    {
      if isLocal {
        local := Some(value);
      } else {
        session := Some(value);
      }
    }

    /** COMMIT or ROLLBACK: the local value is gone. */
    method EndTransaction()
      modifies this`local, this`session
      ensures local == None
      ensures session == (if old(session) == None && old(local).Some? then Some("") else old(session))
    {
      if session == None && local.Some? {
        session := Some("");
      }
      local := None;
    }

    /** `$allOperations` */
    method AllOperations(store: Store, call: Call, hasDelegate: bool, ids: seq<RowId>)
      returns (result: Result<Reply, ScopeError>)
      requires Idle() && |ids| == IdsNeeded(call.args)
      modifies this
      ensures Idle()
      ensures match CallEffect(old(table), old(session), store, call, hasDelegate, ids)
        case Failure(error) => result == Failure(error) && table == old(table)
        case Success(effect) =>
          result == Success(effect.reply) && table == Overlay(old(table), effect.writes)
    {
      if call.model !in TENANT_SCOPED_MODELS {
        var reply := Query(false, call.model, call.args, ids);
        return Success(reply);
      }
      if store.platformScope {
        return Failure(PlatformScopeOnAppClient);
      }
      if store.tenantId.GetOr("") == "" {
        return Failure(MissingTenantContext);
      }
      var tenant := store.tenantId.value;

      var scoped := RewriteArgs(call.operation, call.args, tenant);
      RewriteKeepsIds(call.operation, call.args, tenant);
      if !hasDelegate {
        var reply := Query(true, call.model, scoped, ids);
        return Success(reply);
      }

      SetConfig(tenant, true);
      var reply := Query(true, call.model, scoped, ids);
      EndTransaction();
      return Success(reply);
    }
  }

  /** The assignments to `scoped.where`, `scoped.create` and `scoped.data`. */
  method RewriteArgs(operation: string, args: Args, tenant: TenantId) returns (scoped: Args)
    ensures scoped == Rewrite(operation, args, tenant)
  {
    scoped := args;
    if operation in WHERE_OPERATIONS {
      match args {
        case Read(where, result) => scoped := Read(where.(tenant := Equals(Some(tenant))), result);
        case Update(where, data, single) =>
          scoped := Update(where.(tenant := Equals(Some(tenant))), data, single);
        case Delete(where, single) => scoped := Delete(where.(tenant := Equals(Some(tenant))), single);
        case _ =>
      }
    }
    if operation in CREATE_OPERATIONS {
      match args {
        case Upsert(where, create, data) =>
          scoped := Upsert(where.(tenant := Equals(Some(tenant))), create.(tenant := Is(Some(tenant))), data);
        case Create(rows) =>
          var stamped := [];
          for i := 0 to |rows|
            invariant stamped == StampAll(rows, tenant)[..i]
          {
            stamped := stamped + [rows[i].(tenant := Is(Some(tenant)))];
          }
          scoped := Create(stamped);
        case _ =>
      }
    }
  }

  // -------------------------------------------------- the hook within the protocol

  /** The steps a call takes on a pooled connection. */
  function CallSteps(tenant: TenantId, c: ConnId, call: Call, ids: seq<RowId>, end: Event): seq<Event> {
    [Begin(tenant, c), Configure(tenant, c),
     Statement(tenant, c, call.model, Rewrite(call.operation, call.args, tenant), ids), end]
  }

  lemma ExtendRun(s: State, e: Event, es: seq<Event>)
    requires Enabled(s, e) && ValidRun(Step(s, e), es)
    ensures ValidRun(s, [e] + es) && Run(s, [e] + es) == Run(Step(s, e), es)
    ensures Replies(s, [e] + es, e.tenant)
         == (if e.Statement? then [StatementEffect(s, e).reply] else []) + Replies(Step(s, e), es, e.tenant)
  {
    assert ([e] + es)[1..] == es;
  }

  /** The pool once the transaction is open and its variable set. */
  lemma HookConfigured(s: State, c: ConnId, tenant: TenantId) returns (s2: State)
    requires c in s.conns && s.conns[c].tx.None? && tenant != ""
    ensures Enabled(s, Begin(tenant, c)) && Enabled(Step(s, Begin(tenant, c)), Configure(tenant, c))
    ensures s2 == Step(Step(s, Begin(tenant, c)), Configure(tenant, c))
    ensures s2.db == s.db && c in s2.conns && s2.conns[c].tx == Some(Tx(tenant, Some(tenant), map[], false))
    ensures SeenBy(s2, c) == s.db && Setting(s2.conns[c]) == Some(tenant)
    ensures forall id :: FreshId(s, id) ==> FreshId(s2, id)
  {
    s2 := Step(Step(s, Begin(tenant, c)), Configure(tenant, c));
  }

  /** A statement and the end of its transaction. */
  lemma HookEnds(s2: State, c: ConnId, tenant: TenantId, model: string, args: Args, ids: seq<RowId>)
    requires c in s2.conns && s2.conns[c].tx == Some(Tx(tenant, Some(tenant), map[], false))
    requires |ids| == IdsNeeded(args) && forall i :: 0 <= i < |ids| ==> FreshId(s2, ids[i])
    requires SeenBy(s2, c) == s2.db
    ensures var statement := Statement(tenant, c, model, args, ids);
      var effect := Exec(s2.db, Some(tenant), true, model, args, ids);
      var end := if effect.reply == PolicyViolation then Rollback(tenant, c) else Commit(tenant, c);
      && ValidRun(s2, [statement, end])
      && Run(s2, [statement, end]).db == Overlay(s2.db, effect.writes)
      && Replies(s2, [statement, end], tenant) == [effect.reply]
  {
    var statement := Statement(tenant, c, model, args, ids);
    var effect := Exec(s2.db, Some(tenant), true, model, args, ids);
    var end := if effect.reply == PolicyViolation then Rollback(tenant, c) else Commit(tenant, c);
    assert StatementEffect(s2, statement) == effect;
    var s3 := Step(s2, statement);
    assert s3.conns[c].tx.value.pending == effect.writes;
    ExtendRun(s3, end, []);
    assert [end] + [] == [end];
    ExtendRun(s2, statement, [end]);
    assert [statement] + [end] == [statement, end];
    if effect.reply == PolicyViolation {
      RefusedWritesNothing(s2.db, tenant, model, args, ids);
      assert Overlay(s2.db, map[]) == s2.db;
    }
  }

  lemma RefusedWritesNothing(table: Table, tenant: TenantId, model: string, args: Args, ids: seq<RowId>)
    requires |ids| == IdsNeeded(args)
    requires Exec(table, Some(tenant), true, model, args, ids).reply == PolicyViolation
    ensures Exec(table, Some(tenant), true, model, args, ids).writes == map[]
  {
  }

  /**
   The hook is one serial transaction of the protocol: begin, set the variable, run
   the rewritten statement, commit, or roll back after a refusal.
   */
  lemma HookIsATransaction(s: State, c: ConnId, tenant: TenantId, call: Call, ids: seq<RowId>)
    requires c in s.conns && s.conns[c].tx.None? && tenant != ""
    requires call.model in TENANT_SCOPED_MODELS && |ids| == IdsNeeded(call.args)
    requires forall i :: 0 <= i < |ids| ==> FreshId(s, ids[i])
    ensures var effect := CallEffect(s.db, s.conns[c].session, Store(Some(tenant), false), call, true, ids).value;
      var end := if effect.reply == PolicyViolation then Rollback(tenant, c) else Commit(tenant, c);
      var steps := CallSteps(tenant, c, call, ids, end);
      && ValidRun(s, steps)
      && Run(s, steps).db == Overlay(s.db, effect.writes)
      && Replies(s, steps, tenant) == [effect.reply]
  {
    RewriteKeepsIds(call.operation, call.args, tenant);
    var args := Rewrite(call.operation, call.args, tenant);
    var effect := Exec(s.db, Some(tenant), true, call.model, args, ids);
    var end := if effect.reply == PolicyViolation then Rollback(tenant, c) else Commit(tenant, c);
    var statement := Statement(tenant, c, call.model, args, ids);
    var s2 := HookConfigured(s, c, tenant);
    HookEnds(s2, c, tenant, call.model, args, ids);
    HookPrefix(s, c, tenant, [statement, end]);
    assert [Begin(tenant, c), Configure(tenant, c)] + [statement, end] == CallSteps(tenant, c, call, ids, end);
  }

  lemma HookPrefix(s: State, c: ConnId, tenant: TenantId, rest: seq<Event>)
    requires Enabled(s, Begin(tenant, c)) && Enabled(Step(s, Begin(tenant, c)), Configure(tenant, c))
    requires ValidRun(Step(Step(s, Begin(tenant, c)), Configure(tenant, c)), rest)
    ensures var s2 := Step(Step(s, Begin(tenant, c)), Configure(tenant, c));
      var all := [Begin(tenant, c), Configure(tenant, c)] + rest;
      ValidRun(s, all) && Run(s, all) == Run(s2, rest) && Replies(s, all, tenant) == Replies(s2, rest, tenant)
  {
    var s1 := Step(s, Begin(tenant, c));
    ExtendRun(s1, Configure(tenant, c), rest);
    ExtendRun(s, Begin(tenant, c), [Configure(tenant, c)] + rest);
    assert [Begin(tenant, c)] + ([Configure(tenant, c)] + rest) == [Begin(tenant, c), Configure(tenant, c)] + rest;
  }

  /**
   Why the value must be transaction-local: set for the session it outlives the
   transaction, and whoever gets the connection next reads this tenant's rows
   without having set anything.
   */
  method SessionLevelLeaks(connection: PooledConnection, tenant: TenantId, where: Where,
                           result: Table -> string)
    returns (seen: Reply)
    requires connection.Idle() && tenant != ""
    modifies connection
    ensures seen == Answer(result(Found(old(connection.table), Some(tenant), true, "Member", where)))
  {
    connection.SetConfig(tenant, false);
    connection.EndTransaction();
    seen := connection.Query(true, "Member", Read(where, result), []);
  }
}
