/**
 Many requests on one pool of connections. Every request runs its statements in
 a transaction that first sets a transaction-local tenant variable; any
 interleaving of the transactions is allowed.
 */
module TenantIsolation {
  import opened Common
  import opened TenantScope

  type ConnId = nat

  /** A transaction: whose it is, the variable it set, and what it has written so far. */
  datatype Tx = Tx(tenant: TenantId, local: Option<string>, pending: Writes, failed: bool)

  /** A pooled connection: its session-level variable, and the transaction it is in. */
  datatype Conn = Conn(session: Option<string>, tx: Option<Tx>)

  datatype State = State(db: Table, conns: map<ConnId, Conn>)

  /** A step of a request of `tenant`. */
  datatype Event =
    | Begin(tenant: TenantId, conn: ConnId)
    | Configure(tenant: TenantId, conn: ConnId)
    | Statement(tenant: TenantId, conn: ConnId, model: string, args: Args, ids: seq<RowId>)
    | Commit(tenant: TenantId, conn: ConnId)
    | Rollback(tenant: TenantId, conn: ConnId)

  /** The variable as a statement on this connection reads it. */
  function Setting(c: Conn): Option<string> {
    if c.tx.Some? && c.tx.value.local.Some? then c.tx.value.local else c.session
  }

  /**
   The end of a transaction takes the local value with it. A variable that only
   ever had local values is left as the empty string rather than unset.
   */
  function Ended(c: Conn): Conn
    requires c.tx.Some?
  {
    Conn(if c.session == None && c.tx.value.local.Some? then Some("") else c.session, None)
  }

  predicate FreshId(s: State, id: RowId) {
    && id !in s.db
    && forall c :: c in s.conns && s.conns[c].tx.Some? ==> id !in s.conns[c].tx.value.pending
  }

  predicate InTx(s: State, e: Event) {
    && e.conn in s.conns && s.conns[e.conn].tx.Some?
    && s.conns[e.conn].tx.value.tenant == e.tenant
  }

  /** What a client may do next. A failed transaction can only be rolled back. */
  predicate Enabled(s: State, e: Event) {
    match e
    case Begin(tenant, c) => tenant != "" && c in s.conns && s.conns[c].tx.None?
    case Configure(_, c) =>
      InTx(s, e) && s.conns[c].tx.value.local.None? && s.conns[c].tx.value.pending == map[]
    case Statement(_, c, _, args, ids) =>
      && InTx(s, e) && s.conns[c].tx.value.local.Some? && !s.conns[c].tx.value.failed
      && |ids| == IdsNeeded(args) && forall i :: 0 <= i < |ids| ==> FreshId(s, ids[i])
    case Commit(_, c) => InTx(s, e) && !s.conns[c].tx.value.failed
    case Rollback(_, _) => InTx(s, e)
  }

  /** A transaction reads what is committed, overlaid with its own writes. */
  function SeenBy(s: State, c: ConnId): Table
    requires c in s.conns && s.conns[c].tx.Some?
  {
    Overlay(s.db, s.conns[c].tx.value.pending)
  }

  function StatementEffect(s: State, e: Event): Effect
    requires e.Statement? && Enabled(s, e)
  {
    Exec(SeenBy(s, e.conn), Setting(s.conns[e.conn]), true, e.model, e.args, e.ids)
  }

  function WithTx(s: State, c: ConnId, tx: Tx): State
    requires c in s.conns
  {
    s.(conns := s.conns[c := s.conns[c].(tx := Some(tx))])
  }

  function Step(s: State, e: Event): State
    requires Enabled(s, e)
  {
    match e
    case Begin(tenant, c) => WithTx(s, c, Tx(tenant, None, map[], false))
    case Configure(tenant, c) => WithTx(s, c, s.conns[c].tx.value.(local := Some(tenant)))
    case Statement(_, c, _, _, _) =>
      var effect := StatementEffect(s, e);
      var tx := s.conns[c].tx.value;
      WithTx(s, c, tx.(pending := tx.pending + effect.writes,
                       failed := effect.reply == PolicyViolation))
    case Commit(_, c) =>
      State(SeenBy(s, c), s.conns[c := Ended(s.conns[c])])
    case Rollback(_, c) =>
      s.(conns := s.conns[c := Ended(s.conns[c])])
  }

  predicate ValidRun(s: State, es: seq<Event>)
    decreases |es|
  {
    |es| == 0 || (Enabled(s, es[0]) && ValidRun(Step(s, es[0]), es[1..]))
  }

  function Run(s: State, es: seq<Event>): State
    requires ValidRun(s, es)
    decreases |es|
  {
    if |es| == 0 then s else Run(Step(s, es[0]), es[1..])
  }

  /** What the statements of one tenant were answered, in order. */
  function Replies(s: State, es: seq<Event>, tenant: TenantId): seq<Reply>
    requires ValidRun(s, es)
    decreases |es|
  {
    if |es| == 0 then []
    else if es[0].Statement? && es[0].tenant == tenant then
      [StatementEffect(s, es[0]).reply] + Replies(Step(s, es[0]), es[1..], tenant)
    else Replies(Step(s, es[0]), es[1..], tenant)
  }

  // --------------------------------------------------------------- the invariant

  predicate ConnInv(s: State, c: ConnId)
    requires c in s.conns
  {
    && CurrentTenantId(s.conns[c].session) == None
    && (s.conns[c].tx.Some? ==> TxInv(s.db, s.conns[c].tx.value))
  }

  predicate TxInv(db: Table, tx: Tx) {
    && tx.tenant != ""
    && (tx.local.Some? ==> tx.local == Some(tx.tenant))
    && (tx.local.None? ==> tx.pending == map[])
    && PendingOwn(tx.tenant, tx.pending)
    && OverOwn(db, tx.tenant, tx.pending)
  }

  /** Whatever is about to be stored belongs to the tenant. */
  predicate PendingOwn(tenant: TenantId, pending: Writes) {
    forall id :: id in pending && pending[id].Some? ==> pending[id].value.tenant == Some(tenant)
  }

  /** Whatever is about to be overwritten belongs to the tenant. */
  predicate OverOwn(db: Table, tenant: TenantId, pending: Writes) {
    forall id :: id in pending && id in db ==> db[id].tenant == Some(tenant)
  }

  /** Transactions of different tenants never write the same row. */
  predicate Apart(c: Conn, d: Conn) {
    c.tx.Some? && d.tx.Some? && c.tx.value.tenant != d.tx.value.tenant
    ==> c.tx.value.pending.Keys !! d.tx.value.pending.Keys
  }

  ghost predicate Inv(s: State) {
    && (forall c :: c in s.conns ==> ConnInv(s, c))
    && (forall c, d :: c in s.conns && d in s.conns ==> Apart(s.conns[c], s.conns[d]))
  }

  /** A pool of idle connections on which no transaction has ever run. */
  predicate Initial(s: State) {
    forall c :: c in s.conns ==> s.conns[c] == Conn(None, None)
  }

  lemma InitialInv(s: State)
    requires Initial(s)
    ensures Inv(s)
  {
  }

  /** Every statement runs with the variable equal to its own request's tenant. */
  lemma StatementTenant(s: State, e: Event)
    requires Inv(s) && e.Statement? && Enabled(s, e)
    ensures Setting(s.conns[e.conn]) == Some(e.tenant) && e.tenant != ""
    ensures CurrentTenantId(Setting(s.conns[e.conn])) == Some(e.tenant)
  {
    assert ConnInv(s, e.conn);
  }

  /** Between transactions, and inside one before it is configured, no tenant is set. */
  lemma UnconfiguredIsUnset(s: State, c: ConnId)
    requires Inv(s) && c in s.conns
    requires s.conns[c].tx.None? || s.conns[c].tx.value.local.None?
    ensures CurrentTenantId(Setting(s.conns[c])) == None
  {
    assert ConnInv(s, c);
  }

  lemma StatementWrites(s: State, e: Event)
    requires Inv(s) && e.Statement? && Enabled(s, e)
    ensures var tx := s.conns[e.conn].tx.value;
      var pending := tx.pending + StatementEffect(s, e).writes;
      && PendingOwn(e.tenant, pending) && OverOwn(s.db, e.tenant, pending)
      && forall id :: id in pending && id !in tx.pending ==>
           FreshId(s, id) || (id in s.db && s.db[id].tenant == Some(e.tenant))
  {
    StatementTenant(s, e);
    assert ConnInv(s, e.conn);
    var writes := StatementEffect(s, e).writes;
    ExecWritesOwn(SeenBy(s, e.conn), e.tenant, e.model, e.args, e.ids);
    forall id | id in writes && id !in s.conns[e.conn].tx.value.pending
      ensures FreshId(s, id) || (id in s.db && s.db[id].tenant == Some(e.tenant))
    {
      if id in e.ids {
        var i :| 0 <= i < |e.ids| && e.ids[i] == id;
      } else {
        assert id in Own(SeenBy(s, e.conn), e.tenant);
      }
    }
  }

  /** Replacing one connection keeps the rest of the invariant. */
  lemma OneConn(s: State, s': State, c: ConnId)
    requires Inv(s) && c in s.conns && c in s'.conns && ConnInv(s', c)
    requires s'.db == s.db && s'.conns == s.conns[c := s'.conns[c]]
    requires forall d :: d in s.conns && d != c ==> Apart(s'.conns[c], s.conns[d])
    ensures Inv(s')
  {
    forall d | d in s'.conns ensures ConnInv(s', d) {
      assert d in s.conns && (d != c ==> ConnInv(s, d));
    }
    forall d, d' | d in s'.conns && d' in s'.conns ensures Apart(s'.conns[d], s'.conns[d']) {
      assert d != c && d' != c ==> Apart(s.conns[d], s.conns[d']);
      assert d != c ==> Apart(s'.conns[c], s.conns[d]);
      assert d' != c ==> Apart(s'.conns[c], s.conns[d']);
    }
  }

  lemma StatementInv(s: State, e: Event)
    requires Inv(s) && e.Statement? && Enabled(s, e)
    ensures Inv(Step(s, e))
  {
    var c, s' := e.conn, Step(s, e);
    var tx := s.conns[c].tx.value;
    StatementWrites(s, e);
    assert ConnInv(s, c);
    forall d | d in s.conns && d != c ensures Apart(s'.conns[c], s.conns[d]) {
      assert Apart(s.conns[c], s.conns[d]) && ConnInv(s, d);
    }
    OneConn(s, s', c);
  }

  lemma CommitInv(s: State, e: Event)
    requires Inv(s) && e.Commit? && Enabled(s, e)
    ensures Inv(Step(s, e))
  {
    var c, s' := e.conn, Step(s, e);
    var tx := s.conns[c].tx.value;
    assert ConnInv(s, c);
    forall d | d in s'.conns ensures ConnInv(s', d) {
      assert ConnInv(s, d) && Apart(s.conns[c], s.conns[d]);
    }
    forall d, d' | d in s'.conns && d' in s'.conns ensures Apart(s'.conns[d], s'.conns[d']) {
      assert Apart(s.conns[d], s.conns[d']);
    }
  }

  lemma StepInv(s: State, e: Event)
    requires Inv(s) && Enabled(s, e)
    ensures Inv(Step(s, e))
  {
    assert ConnInv(s, e.conn);
    match e
    case Begin(_, c) => OneConn(s, Step(s, e), c);
    case Configure(_, c) => OneConn(s, Step(s, e), c);
    case Statement(_, _, _, _, _) => StatementInv(s, e);
    case Commit(_, _) => CommitInv(s, e);
    case Rollback(_, c) => OneConn(s, Step(s, e), c);
  }

  lemma {:induction false} RunInv(s: State, es: seq<Event>)
    requires Inv(s) && ValidRun(s, es)
    ensures Inv(Run(s, es))
    decreases |es|
  {
    if |es| > 0 {
      StepInv(s, es[0]);
      RunInv(Step(s, es[0]), es[1..]);
    }
  }

  // -------------------------------------------------------- only own rows change

  lemma StepOthers(s: State, e: Event)
    requires Inv(s) && Enabled(s, e)
    ensures Others(Step(s, e).db, e.tenant) == Others(s.db, e.tenant)
  {
    if e.Commit? {
      assert ConnInv(s, e.conn);
      OthersOverlay(s.db, s.conns[e.conn].tx.value.pending, e.tenant);
    }
  }

  lemma OwnWithinOthers(db: Table, db': Table, tenant: TenantId, other: TenantId)
    requires tenant != other && Others(db, other) == Others(db', other)
    ensures Own(db, tenant) == Own(db', tenant)
  {
    forall id | id in Own(db, tenant) ensures id in Own(db', tenant) && db'[id] == db[id] {
      assert id in Others(db, other);
    }
    forall id | id in Own(db', tenant) ensures id in Own(db, tenant) {
      assert id in Others(db', other);
    }
  }

  /** Rows that belong to no tenant: super admins, platform-level log entries. */
  function Untenanted(table: Table): Table {
    table - set id | id in table && table[id].tenant != None
  }

  lemma UntenantedWithinOthers(db: Table, db': Table, tenant: TenantId)
    requires Others(db, tenant) == Others(db', tenant)
    ensures Untenanted(db) == Untenanted(db')
  {
    forall id | id in Untenanted(db) ensures id in Untenanted(db') && db'[id] == db[id] {
      assert id in Others(db, tenant);
    }
    forall id | id in Untenanted(db') ensures id in Untenanted(db) {
      assert id in Others(db', tenant);
    }
  }

  /**
   Over a whole run: a tenant without a step in it keeps its rows, and nobody's
   step ever changes a row that has no tenant.
   */
  lemma {:induction false} RunTouchesOwn(s: State, es: seq<Event>, bystander: TenantId)
    requires Inv(s) && ValidRun(s, es)
    requires forall i :: 0 <= i < |es| ==> es[i].tenant != bystander
    ensures Own(Run(s, es).db, bystander) == Own(s.db, bystander)
    ensures Untenanted(Run(s, es).db) == Untenanted(s.db)
    decreases |es|
  {
    if |es| > 0 {
      var s' := Step(s, es[0]);
      StepInv(s, es[0]);
      StepOthers(s, es[0]);
      OwnWithinOthers(s.db, s'.db, bystander, es[0].tenant);
      UntenantedWithinOthers(s.db, s'.db, es[0].tenant);
      RunTouchesOwn(s', es[1..], bystander);
    }
  }

  // ------------------------------------------------------------ non-interference

  /** The steps of one tenant, as if nobody else had been there. */
  function Purge(es: seq<Event>, tenant: TenantId): seq<Event>
    decreases |es|
  {
    if |es| == 0 then []
    else if es[0].tenant == tenant then [es[0]] + Purge(es[1..], tenant)
    else Purge(es[1..], tenant)
  }

  /** The transaction of this tenant on a connection, if that is what it is in. */
  function TxOf(c: Conn, tenant: TenantId): Option<Tx> {
    if c.tx.Some? && c.tx.value.tenant == tenant then c.tx else None
  }

  /** `quiet` looks to the tenant like `s`, and nobody else is in it. */
  ghost predicate Alike(s: State, quiet: State, tenant: TenantId) {
    && Own(s.db, tenant) == Own(quiet.db, tenant)
    && s.conns.Keys == quiet.conns.Keys
    && forall c :: c in s.conns ==> quiet.conns[c].tx == TxOf(s.conns[c], tenant)
  }

  /** The tenant's new rows get ids that no foreign row of `db` has. */
  predicate IdsFree(db: Table, tenant: TenantId, es: seq<Event>) {
    forall i, k :: 0 <= i < |es| && es[i].Statement? && es[i].tenant == tenant && 0 <= k < |es[i].ids|
      ==> es[i].ids[k] !in Others(db, tenant)
  }

  /** Somebody else's step is invisible. */
  lemma OtherStep(s: State, quiet: State, e: Event, tenant: TenantId)
    requires Inv(s) && Enabled(s, e) && e.tenant != tenant && Alike(s, quiet, tenant)
    ensures Alike(Step(s, e), quiet, tenant)
  {
    StepOthers(s, e);
    OwnWithinOthers(s.db, Step(s, e).db, tenant, e.tenant);
  }

  lemma OwnStepEnabled(s: State, quiet: State, e: Event)
    requires Inv(s) && Inv(quiet) && Enabled(s, e) && Alike(s, quiet, e.tenant)
    requires IdsFree(quiet.db, e.tenant, [e])
    ensures Enabled(quiet, e)
  {
    if e.Statement? {
      forall i | 0 <= i < |e.ids| ensures FreshId(quiet, e.ids[i]) {
        var id := e.ids[i];
        assert FreshId(s, id) && [e][0].ids[i] !in Others(quiet.db, e.tenant);
        assert id !in Own(s.db, e.tenant);
        forall c | c in quiet.conns && quiet.conns[c].tx.Some? ensures id !in quiet.conns[c].tx.value.pending {
          assert quiet.conns[c].tx == s.conns[c].tx;
        }
      }
    }
  }

  lemma SameEffect(s: State, quiet: State, e: Event)
    requires Inv(s) && Inv(quiet) && e.Statement? && Enabled(s, e) && Enabled(quiet, e)
    requires Alike(s, quiet, e.tenant)
    ensures StatementEffect(s, e) == StatementEffect(quiet, e)
  {
    var pending := s.conns[e.conn].tx.value.pending;
    StatementTenant(s, e);
    StatementTenant(quiet, e);
    assert ConnInv(s, e.conn);
    OwnOverlay(s.db, pending, e.tenant);
    OwnOverlay(quiet.db, pending, e.tenant);
    ExecSeesOwn(SeenBy(s, e.conn), SeenBy(quiet, e.conn), e.tenant, e.model, e.args, e.ids);
  }

  lemma OwnStatement(s: State, quiet: State, e: Event)
    requires Inv(s) && Inv(quiet) && e.Statement? && Enabled(s, e) && Enabled(quiet, e) && Alike(s, quiet, e.tenant)
    ensures Alike(Step(s, e), Step(quiet, e), e.tenant)
  {
    SameEffect(s, quiet, e);
  }

  lemma OwnCommit(s: State, quiet: State, e: Event)
    requires Inv(s) && Inv(quiet) && e.Commit? && Enabled(s, e) && Enabled(quiet, e) && Alike(s, quiet, e.tenant)
    ensures Alike(Step(s, e), Step(quiet, e), e.tenant)
  {
    var pending := s.conns[e.conn].tx.value.pending;
    assert ConnInv(s, e.conn);
    OwnOverlay(s.db, pending, e.tenant);
    OwnOverlay(quiet.db, pending, e.tenant);
  }

  lemma OwnBracket(s: State, quiet: State, e: Event)
    requires e.Begin? || e.Configure? || e.Rollback?
    requires Enabled(s, e) && Enabled(quiet, e) && Alike(s, quiet, e.tenant)
    ensures Alike(Step(s, e), Step(quiet, e), e.tenant)
  {
  }

  /** The tenant's own step has the same answer and the same effect on both sides. */
  lemma OwnStep(s: State, quiet: State, e: Event)
    requires Inv(s) && Inv(quiet) && Enabled(s, e) && Enabled(quiet, e) && Alike(s, quiet, e.tenant)
    ensures Alike(Step(s, e), Step(quiet, e), e.tenant)
    ensures e.Statement? ==> StatementEffect(s, e) == StatementEffect(quiet, e)
  {
    match e
    case Begin(_, _) => OwnBracket(s, quiet, e);
    case Configure(_, _) => OwnBracket(s, quiet, e);
    case Statement(_, _, _, _, _) =>
      SameEffect(s, quiet, e);
      OwnStatement(s, quiet, e);
    case Commit(_, _) => OwnCommit(s, quiet, e);
    case Rollback(_, _) => OwnBracket(s, quiet, e);
  }

  lemma IdsFreeTail(db: Table, tenant: TenantId, es: seq<Event>)
    requires |es| > 0 && IdsFree(db, tenant, es)
    ensures IdsFree(db, tenant, [es[0]]) && IdsFree(db, tenant, es[1..])
  {
    forall i, k | 0 <= i < |es[1..]| && es[1..][i].Statement? && es[1..][i].tenant == tenant
                  && 0 <= k < |es[1..][i].ids|
      ensures es[1..][i].ids[k] !in Others(db, tenant)
    {
      assert es[1..][i] == es[i + 1];
    }
  }

  /**
   Whatever the other tenants do and however the steps interleave, a tenant gets
   exactly the answers, and ends with exactly the rows, of a run in which it was
   alone, even on a database that holds different rows for everybody else.
   */
  lemma {:induction false} NonInterference(s: State, quiet: State, es: seq<Event>, tenant: TenantId)
    requires Inv(s) && Inv(quiet) && ValidRun(s, es) && Alike(s, quiet, tenant)
    requires IdsFree(quiet.db, tenant, es)
    ensures ValidRun(quiet, Purge(es, tenant))
    ensures Replies(s, es, tenant) == Replies(quiet, Purge(es, tenant), tenant)
    ensures Alike(Run(s, es), Run(quiet, Purge(es, tenant)), tenant)
    decreases |es|
  {
    if |es| > 0 {
      var e := es[0];
      StepInv(s, e);
      IdsFreeTail(quiet.db, tenant, es);
      if e.tenant == tenant {
        OwnStepEnabled(s, quiet, e);
        OwnStep(s, quiet, e);
        StepInv(quiet, e);
        StepOthers(quiet, e);
        NonInterference(Step(s, e), Step(quiet, e), es[1..], tenant);
        assert ([e] + Purge(es[1..], tenant))[1..] == Purge(es[1..], tenant);
      } else {
        OtherStep(s, quiet, e, tenant);
        NonInterference(Step(s, e), quiet, es[1..], tenant);
      }
    }
  }

  // -------------------------------------------------- whichever connections are idle

  /** Which connection stands for which, while a transaction is open on both. */
  type Renaming = map<ConnId, ConnId>

  /** The renaming after a step on `c` here and on `d` there. */
  function Renamed(m: Renaming, e: Event, d: ConnId): Renaming {
    if e.Begin? then m[e.conn := d]
    else if e.Commit? || e.Rollback? then m - {e.conn}
    else m
  }

  /** The same steps, each transaction on whatever connection the pool handed out. */
  ghost predicate SameSteps(es: seq<Event>, fs: seq<Event>, m: Renaming)
    decreases |es|
  {
    && |es| == |fs|
    && (|es| > 0 ==>
          && fs[0] == es[0].(conn := fs[0].conn)
          && (es[0].Begin? || (es[0].conn in m && m[es[0].conn] == fs[0].conn))
          && SameSteps(es[1..], fs[1..], Renamed(m, es[0], fs[0].conn)))
  }

  /** The tenant has the same rows on both sides, and the same transactions up to the renaming. */
  ghost predicate Paired(s: State, t: State, m: Renaming, tenant: TenantId) {
    && Own(s.db, tenant) == Own(t.db, tenant)
    && (forall c :: c in m ==> PairedConn(s, t, c, m[c]))
    && (forall c, d :: c in m && d in m && c != d ==> m[c] != m[d])
  }

  predicate PairedConn(s: State, t: State, c: ConnId, d: ConnId) {
    c in s.conns && d in t.conns && s.conns[c].tx.Some? && s.conns[c].tx == t.conns[d].tx
  }

  lemma PairedOpen(s: State, t: State, m: Renaming, tenant: TenantId, c: ConnId)
    requires Paired(s, t, m, tenant) && c in m
    ensures c in s.conns && s.conns[c].tx.Some?
  {
    assert PairedConn(s, t, c, m[c]);
  }

  lemma PairedEffect(s: State, t: State, m: Renaming, e: Event, f: Event)
    requires Inv(s) && Inv(t) && Paired(s, t, m, e.tenant) && Enabled(s, e) && Enabled(t, f)
    requires e.Statement? && e.conn in m && m[e.conn] == f.conn && f == e.(conn := f.conn)
    ensures StatementEffect(s, e) == StatementEffect(t, f)
  {
    assert PairedConn(s, t, e.conn, f.conn) && ConnInv(s, e.conn);
    var pending := s.conns[e.conn].tx.value.pending;
    StatementTenant(s, e);
    StatementTenant(t, f);
    OwnOverlay(s.db, pending, e.tenant);
    OwnOverlay(t.db, pending, e.tenant);
    ExecSeesOwn(SeenBy(s, e.conn), SeenBy(t, f.conn), e.tenant, e.model, e.args, e.ids);
  }

  /** A step on `c` here and on `d` there leaves the other pairs alone. */
  lemma PairedElsewhere(s: State, t: State, m: Renaming, e: Event, f: Event)
    requires Paired(s, t, m, e.tenant) && Enabled(s, e) && Enabled(t, f) && f.tenant == e.tenant
    requires (e.Begin? && f.Begin?) || (e.conn in m && m[e.conn] == f.conn)
    ensures forall c :: c in m && c != e.conn ==> PairedConn(Step(s, e), Step(t, f), c, m[c]) && m[c] != f.conn
  {
    forall c | c in m && c != e.conn
      ensures PairedConn(Step(s, e), Step(t, f), c, m[c]) && m[c] != f.conn
    {
      assert PairedConn(s, t, c, m[c]);
    }
  }

  lemma PairedCommit(s: State, t: State, m: Renaming, e: Event, f: Event)
    requires Inv(s) && Paired(s, t, m, e.tenant) && Enabled(s, e) && Enabled(t, f)
    requires e.Commit? && e.conn in m && m[e.conn] == f.conn && f == e.(conn := f.conn)
    ensures Own(Step(s, e).db, e.tenant) == Own(Step(t, f).db, e.tenant)
  {
    assert PairedConn(s, t, e.conn, f.conn) && ConnInv(s, e.conn);
    var pending := s.conns[e.conn].tx.value.pending;
    OwnOverlay(s.db, pending, e.tenant);
    OwnOverlay(t.db, pending, e.tenant);
  }

  lemma PairedBegin(s: State, t: State, m: Renaming, e: Event, f: Event)
    requires Paired(s, t, m, e.tenant) && Enabled(s, e) && Enabled(t, f)
    requires e.Begin? && f == e.(conn := f.conn)
    ensures Paired(Step(s, e), Step(t, f), Renamed(m, e, f.conn), e.tenant)
  {
    if e.conn in m {
      PairedOpen(s, t, m, e.tenant, e.conn);
      assert false;
    }
    PairedElsewhere(s, t, m, e, f);
  }

  lemma PairedInside(s: State, t: State, m: Renaming, e: Event, f: Event)
    requires Inv(s) && Inv(t) && Paired(s, t, m, e.tenant) && Enabled(s, e) && Enabled(t, f)
    requires f == e.(conn := f.conn) && e.conn in m && m[e.conn] == f.conn && (e.Configure? || e.Statement?)
    ensures Paired(Step(s, e), Step(t, f), m, e.tenant)
  {
    PairedElsewhere(s, t, m, e, f);
    assert PairedConn(s, t, e.conn, f.conn);
    if e.Statement? {
      PairedEffect(s, t, m, e, f);
    }
  }

  lemma PairedEnd(s: State, t: State, m: Renaming, e: Event, f: Event)
    requires Inv(s) && Paired(s, t, m, e.tenant) && Enabled(s, e) && Enabled(t, f)
    requires f == e.(conn := f.conn) && e.conn in m && m[e.conn] == f.conn && (e.Commit? || e.Rollback?)
    ensures Paired(Step(s, e), Step(t, f), m - {e.conn}, e.tenant)
  {
    PairedElsewhere(s, t, m, e, f);
    if e.Commit? {
      PairedCommit(s, t, m, e, f);
    }
  }

  lemma PairedStep(s: State, t: State, m: Renaming, e: Event, f: Event)
    requires Inv(s) && Inv(t) && Paired(s, t, m, e.tenant) && Enabled(s, e) && Enabled(t, f)
    requires f == e.(conn := f.conn) && (e.Begin? || (e.conn in m && m[e.conn] == f.conn))
    ensures Paired(Step(s, e), Step(t, f), Renamed(m, e, f.conn), e.tenant)
  {
    match e
    case Begin(_, _) => PairedBegin(s, t, m, e, f);
    case Configure(_, _) => PairedInside(s, t, m, e, f);
    case Statement(_, _, _, _, _) => PairedInside(s, t, m, e, f);
    case Commit(_, _) => PairedEnd(s, t, m, e, f);
    case Rollback(_, _) => PairedEnd(s, t, m, e, f);
  }

  lemma {:induction false} PairedRun(s: State, t: State, es: seq<Event>, fs: seq<Event>, m: Renaming, tenant: TenantId)
    requires Inv(s) && Inv(t) && ValidRun(s, es) && ValidRun(t, fs)
    requires SameSteps(es, fs, m) && Paired(s, t, m, tenant)
    requires forall i :: 0 <= i < |es| ==> es[i].tenant == tenant
    ensures Replies(s, es, tenant) == Replies(t, fs, tenant)
    ensures Own(Run(s, es).db, tenant) == Own(Run(t, fs).db, tenant)
    decreases |es|
  {
    if |es| > 0 {
      var e, f := es[0], fs[0];
      PairedStep(s, t, m, e, f);
      if e.Statement? {
        PairedEffect(s, t, m, e, f);
      }
      StepInv(s, e);
      StepInv(t, f);
      PairedRun(Step(s, e), Step(t, f), es[1..], fs[1..], Renamed(m, e, f.conn), tenant);
    }
  }

  lemma {:induction false} PurgeIsOwn(es: seq<Event>, tenant: TenantId)
    ensures forall i :: 0 <= i < |Purge(es, tenant)| ==> Purge(es, tenant)[i].tenant == tenant
    decreases |es|
  {
    if |es| > 0 {
      PurgeIsOwn(es[1..], tenant);
    }
  }

  /**
   Two databases that agree on a tenant's rows, behind pools of any size, and two
   arbitrary schedules with the same steps of that tenant, each transaction on
   whatever connection was idle: identical answers, and agreement again at the end.
   */
  lemma AgreementIsKept(s: State, es: seq<Event>, t: State, fs: seq<Event>, tenant: TenantId)
    requires Initial(s) && Initial(t) && Own(s.db, tenant) == Own(t.db, tenant)
    requires ValidRun(s, es) && ValidRun(t, fs)
    requires SameSteps(Purge(es, tenant), Purge(fs, tenant), map[])
    requires IdsFree(s.db, tenant, es) && IdsFree(t.db, tenant, fs)
    ensures Replies(s, es, tenant) == Replies(t, fs, tenant)
    ensures Own(Run(s, es).db, tenant) == Own(Run(t, fs).db, tenant)
  {
    InitialInv(s);
    InitialInv(t);
    NonInterference(s, s, es, tenant);
    NonInterference(t, t, fs, tenant);
    PurgeIsOwn(es, tenant);
    PairedRun(s, t, Purge(es, tenant), Purge(fs, tenant), map[], tenant);
  }
}
