/**
 Tenant isolation, enforced twice: a query extension that rewrites every call on
 a tenant-owned model, and row-level security policies in the database.
 */
module TenantScope {
  import opened Common

  type TenantId = string
  type RowId = string

  /** A row of any table. Super admins and platform-level log entries have no tenant. */
  datatype Row = Row(model: string, tenant: Option<TenantId>, data: map<string, string>)

  /** All tables together; row ids are unique across them. */
  type Table = map<RowId, Row>

  const TENANT_SCOPED_MODELS := {
    "TenantBranding", "TenantSettings", "User", "AuditLog", "Member", "MemberFieldDefinition",
    "FaceTemplate"
  }

  const WHERE_OPERATIONS := {
    "findUnique", "findUniqueOrThrow", "findFirst", "findFirstOrThrow", "findMany", "count",
    "aggregate", "groupBy", "update", "updateMany", "delete", "deleteMany"
  }

  const CREATE_OPERATIONS := {"create", "createMany", "upsert"}

  // -------------------------------------------------------------- the queries

  /** The tenant column in a `data` object: not named, or given a value. */
  datatype TenantKey = Absent | Is(tenant: Option<TenantId>)

  /** The tenant column in a filter: not named, one value, or a condition such as a list or a negation. */
  datatype TenantFilter =
    | Unfiltered
    | Equals(tenant: Option<TenantId>)
    | Satisfying(condition: Option<TenantId> -> bool)

  /** A filter: the top-level tenant column, and everything else it says about a row. */
  datatype Where = Where(tenant: TenantFilter, rest: (RowId, Row) -> bool)

  /** An update: the tenant column, and what happens to the other columns. */
  datatype Patch = Patch(tenant: TenantKey, change: map<string, string> -> map<string, string>)

  /** A row to insert. */
  datatype Insert = Insert(tenant: TenantKey, data: map<string, string>)

  /**
   What a call asks of the database. `result` turns the matching rows into the
   answer: all of them, the first in some order, a count, an aggregate. `single`
   marks the calls that throw when no row matches.
   */
  datatype Args =
    | Read(where: Where, result: Table -> string)
    | Update(where: Where, data: Patch, single: bool)
    | Delete(where: Where, single: bool)
    | Create(rows: seq<Insert>)
    | Upsert(where: Where, create: Insert, data: Patch)

  datatype Call = Call(model: string, operation: string, args: Args)

  // --------------------------------------------------- layer 1: the extension

  datatype Store = Store(tenantId: Option<string>, platformScope: bool)

  datatype ScopeError = MissingTenantContext | PlatformScopeOnAppClient

  /** `{ ...where, [field]: tenantId }`: the request's tenant wins over the caller's. */
  function ScopedWhere(where: Where, tenant: TenantId): Where {
    where.(tenant := Equals(Some(tenant)))
  }

  function Stamped(row: Insert, tenant: TenantId): Insert {
    row.(tenant := Is(Some(tenant)))
  }

  function StampAll(rows: seq<Insert>, tenant: TenantId): seq<Insert> {
    seq(|rows|, i requires 0 <= i < |rows| => Stamped(rows[i], tenant))
  }

  /** The arguments after the extension has rewritten them. */
  function Rewrite(operation: string, args: Args, tenant: TenantId): Args {
    if operation in WHERE_OPERATIONS then
      match args
      case Read(where, result) => Read(ScopedWhere(where, tenant), result)
      case Update(where, data, single) => Update(ScopedWhere(where, tenant), data, single)
      case Delete(where, single) => Delete(ScopedWhere(where, tenant), single)
      case _ => args
    else if operation in CREATE_OPERATIONS then
      match args
      case Create(rows) => Create(StampAll(rows, tenant))
      case Upsert(where, create, data) =>
        Upsert(ScopedWhere(where, tenant), Stamped(create, tenant), data)
      case _ => args
    else args
  }

  /** Operation names come with arguments of their own shape. */
  predicate WellFormed(call: Call) {
    match call.operation
    case "update" => call.args.Update? && call.args.single
    case "updateMany" => call.args.Update? && !call.args.single
    case "delete" => call.args.Delete? && call.args.single
    case "deleteMany" => call.args.Delete? && !call.args.single
    case "create" => call.args.Create? && |call.args.rows| == 1
    case "createMany" => call.args.Create?
    case "upsert" => call.args.Upsert?
    case _ => call.operation in WHERE_OPERATIONS ==> call.args.Read?
  }

  // ------------------------------------------------------ layer 2: the policies

  /** `NULLIF(current_setting('app.tenant_id', true), '')::uuid` */
  function CurrentTenantId(setting: Option<string>): Option<TenantId> {
    if setting == Some("") then None else setting
  }

  /** `tenant_id = current_tenant_id()`: NULL on either side is never true. */
  predicate Policy(setting: Option<string>, row: Row) {
    row.tenant.Some? && CurrentTenantId(setting) == row.tenant
  }

  // ------------------------------------------------------- running a statement

  /** Row by row: the new contents, or None for a row that goes. */
  type Writes = map<RowId, Option<Row>>

  datatype Reply =
    | Answer(result: string)
    | Changed(rows: Writes)
    | NotFound
    | PolicyViolation

  datatype Effect = Effect(writes: Writes, reply: Reply)

  function Overlay(table: Table, writes: Writes): Table {
    map id | id in table.Keys + writes.Keys && (id in writes ==> writes[id].Some?)
      :: if id in writes then writes[id].value else table[id]
  }

  predicate Allows(filter: TenantFilter, tenant: Option<TenantId>) {
    match filter
    case Unfiltered => true
    case Equals(value) => tenant == value
    case Satisfying(condition) => condition(tenant)
  }

  predicate Matches(where: Where, model: string, id: RowId, row: Row) {
    && row.model == model
    && Allows(where.tenant, row.tenant)
    && where.rest(id, row)
  }

  /** The rows a filter finds; with row security only rows the policy lets through. */
  function Found(table: Table, setting: Option<string>, rls: bool, model: string, where: Where): Table {
    table - set id | id in table && !((rls ==> Policy(setting, table[id])) && Matches(where, model, id, table[id]))
  }

  function Value(key: TenantKey, before: Option<TenantId>): Option<TenantId> {
    match key
    case Absent => before
    case Is(tenant) => tenant
  }

  function Patched(row: Row, data: Patch): Row {
    row.(tenant := Value(data.tenant, row.tenant), data := data.change(row.data))
  }

  function Inserted(model: string, row: Insert): Row {
    Row(model, Value(row.tenant, None), row.data)
  }

  /** WITH CHECK: a statement that would store a row outside the policy is refused whole. */
  function Guarded(writes: Writes, setting: Option<string>, rls: bool): Effect {
    if rls && exists id :: id in writes && writes[id].Some? && !Policy(setting, writes[id].value)
    then Effect(map[], PolicyViolation)
    else Effect(writes, Changed(writes))
  }

  function UpdateRows(found: Table, data: Patch): Writes {
    map id | id in found :: Some(Patched(found[id], data))
  }

  function InsertRows(model: string, rows: seq<Insert>, ids: seq<RowId>): Writes
    requires |rows| == |ids|
  {
    if |rows| == 0 then map[]
    else
      var k := |rows| - 1;
      InsertRows(model, rows[..k], ids[..k])[ids[k] := Some(Inserted(model, rows[k]))]
  }

  /** How many row ids a call may ask the database for. */
  function IdsNeeded(args: Args): nat {
    match args
    case Create(rows) => |rows|
    case Upsert(_, _, _) => 1
    case _ => 0
  }

  /** One statement against a table, with the tenant variable as it stands. */
  function Exec(table: Table, setting: Option<string>, rls: bool, model: string, args: Args,
                ids: seq<RowId>): Effect
    requires |ids| == IdsNeeded(args)
  {
    match args
    case Read(where, result) =>
      Effect(map[], Answer(result(Found(table, setting, rls, model, where))))
    case Update(where, data, single) =>
      var found := Found(table, setting, rls, model, where);
      if single && found == map[] then Effect(map[], NotFound)
      else Guarded(UpdateRows(found, data), setting, rls)
    case Delete(where, single) =>
      var found := Found(table, setting, rls, model, where);
      if single && found == map[] then Effect(map[], NotFound)
      else Guarded(map id | id in found :: None, setting, rls)
    case Create(rows) =>
      Guarded(InsertRows(model, rows, ids), setting, rls)
    case Upsert(where, create, data) =>
      var found := Found(table, setting, rls, model, where);
      if found == map[] then Guarded(InsertRows(model, [create], ids), setting, rls)
      else Guarded(UpdateRows(found, data), setting, rls)
  }

  // ---------------------------------------------------------- what a tenant has

  /** A tenant's rows. */
  function Own(table: Table, tenant: TenantId): Table {
    table - set id | id in table && table[id].tenant != Some(tenant)
  }

  /** Everybody else's rows, those without a tenant included. */
  function Others(table: Table, tenant: TenantId): Table {
    table - set id | id in table && table[id].tenant == Some(tenant)
  }

  // --------------------------------------- the database layer on its own is enough

  lemma {:induction false} InsertKeys(model: string, rows: seq<Insert>, ids: seq<RowId>)
    requires |rows| == |ids|
    ensures forall id :: id in InsertRows(model, rows, ids) <==> id in ids
    ensures forall id :: id in InsertRows(model, rows, ids) ==> InsertRows(model, rows, ids)[id].Some?
  {
    if |rows| > 0 {
      var k := |rows| - 1;
      InsertKeys(model, rows[..k], ids[..k]);
      assert ids == ids[..k] + [ids[k]];
    }
  }

  /** What a statement may write on behalf of a tenant. */
  predicate WritesOwn(table: Table, tenant: TenantId, ids: seq<RowId>, writes: Writes) {
    && (forall id :: id in writes ==> id in Own(table, tenant) || id in ids)
    && (forall id :: id in writes && writes[id].Some? ==> writes[id].value.tenant == Some(tenant))
  }

  /** Under the policies, any statement at all stays within the tenant. */
  lemma ExecWritesOwn(table: Table, tenant: TenantId, model: string, args: Args, ids: seq<RowId>)
    requires tenant != "" && |ids| == IdsNeeded(args)
    ensures WritesOwn(table, tenant, ids, Exec(table, Some(tenant), true, model, args, ids).writes)
  {
    match args
    case Read(_, _) =>
    case Update(where, _, _) =>
    case Delete(where, _) =>
    case Create(rows) => InsertKeys(model, rows, ids);
    case Upsert(where, create, _) => InsertKeys(model, [create], ids);
  }

  /** With no tenant set, nothing is found and nothing can be written. */
  lemma UnsetFailsClosed(table: Table, setting: Option<string>, model: string, args: Args, ids: seq<RowId>)
    requires CurrentTenantId(setting) == None && |ids| == IdsNeeded(args)
    ensures Exec(table, setting, true, model, args, ids).writes == map[]
    ensures args.Read? ==> Exec(table, setting, true, model, args, ids).reply == Answer(args.result(map[]))
  {
    match args
    case Read(where, _) => assert Found(table, setting, true, model, where) == map[];
    case Update(where, data, _) =>
      assert Found(table, setting, true, model, where) == map[];
      assert UpdateRows(map[], data) == map[];
    case Delete(where, _) => assert Found(table, setting, true, model, where) == map[];
    case Create(rows) => UnsetInserts(setting, model, rows, ids);
    case Upsert(where, create, _) =>
      assert Found(table, setting, true, model, where) == map[];
      UnsetInserts(setting, model, [create], ids);
  }

  lemma UnsetInserts(setting: Option<string>, model: string, rows: seq<Insert>, ids: seq<RowId>)
    requires CurrentTenantId(setting) == None && |ids| == |rows|
    ensures Guarded(InsertRows(model, rows, ids), setting, true).writes == map[]
  {
    InsertKeys(model, rows, ids);
    var writes := InsertRows(model, rows, ids);
    if |rows| > 0 {
      assert ids[0] in writes && writes[ids[0]].Some? && !Policy(setting, writes[ids[0]].value);
    }
  }

  /** Under the policies, only the tenant's own rows are found, whatever the filter. */
  lemma FoundIsOwn(table: Table, table': Table, tenant: TenantId, model: string, where: Where)
    requires tenant != "" && Own(table, tenant) == Own(table', tenant)
    ensures Found(table, Some(tenant), true, model, where) == Found(table', Some(tenant), true, model, where)
  {
    var found, found' := Found(table, Some(tenant), true, model, where),
                         Found(table', Some(tenant), true, model, where);
    forall id | id in found ensures id in found' && found'[id] == found[id] {
      assert id in Own(table, tenant);
    }
    forall id | id in found' ensures id in found {
      assert id in Own(table', tenant);
    }
  }

  /** The effect of a statement depends on nothing but the tenant's own rows. */
  lemma ExecSeesOwn(table: Table, table': Table, tenant: TenantId, model: string, args: Args, ids: seq<RowId>)
    requires tenant != "" && |ids| == IdsNeeded(args) && Own(table, tenant) == Own(table', tenant)
    ensures Exec(table, Some(tenant), true, model, args, ids)
         == Exec(table', Some(tenant), true, model, args, ids)
  {
    match args
    case Read(where, _) => FoundIsOwn(table, table', tenant, model, where);
    case Update(where, _, _) => FoundIsOwn(table, table', tenant, model, where);
    case Delete(where, _) => FoundIsOwn(table, table', tenant, model, where);
    case Create(_) =>
    case Upsert(where, _, _) => FoundIsOwn(table, table', tenant, model, where);
  }

  /** A tenant's rows after a write are its rows before, written over. */
  lemma OwnOverlay(table: Table, writes: Writes, tenant: TenantId)
    requires forall id :: id in writes && writes[id].Some? ==> writes[id].value.tenant == Some(tenant)
    ensures Own(Overlay(table, writes), tenant) == Overlay(Own(table, tenant), writes)
  {
  }

  lemma OthersOverlay(table: Table, writes: Writes, tenant: TenantId)
    requires forall id :: id in writes && writes[id].Some? ==> writes[id].value.tenant == Some(tenant)
    requires forall id :: id in writes && id in table ==> table[id].tenant == Some(tenant)
    ensures Others(Overlay(table, writes), tenant) == Others(table, tenant)
  {
    var after := Overlay(table, writes);
    forall id | id in Others(table, tenant) ensures id in Others(after, tenant) {
      assert id in after && after[id] == table[id];
    }
    forall id | id in Others(after, tenant)
      ensures id in Others(table, tenant) && Others(table, tenant)[id] == after[id]
    {
      assert id !in writes;
    }
  }

  // ------------------------------------------------- the two layers refine each other

  /** The tenant column a call names in its filter. */
  function CallerFilter(args: Args): TenantFilter {
    match args
    case Read(where, _) => where.tenant
    case Update(where, _, _) => where.tenant
    case Delete(where, _) => where.tenant
    case Create(_) => Unfiltered
    case Upsert(where, _, _) => where.tenant
  }

  /** What the call would do to the tenant column of the rows it updates. */
  function UpdateKey(args: Args): TenantKey {
    match args
    case Update(_, data, _) => data.tenant
    case Upsert(_, _, data) => data.tenant
    case _ => Absent
  }

  predicate Keeps(key: TenantKey, tenant: TenantId) {
    key == Absent || key == Is(Some(tenant))
  }

  lemma SameFound(table: Table, tenant: TenantId, model: string, where: Where)
    requires tenant != "" && Allows(where.tenant, Some(tenant))
    ensures Found(table, None, false, model, ScopedWhere(where, tenant))
         == Found(table, Some(tenant), true, model, where)
  {
  }

  lemma UpdateStaysInside(table: Table, tenant: TenantId, model: string, where: Where, data: Patch)
    requires tenant != "" && Allows(where.tenant, Some(tenant)) && Keeps(data.tenant, tenant)
    ensures var writes := UpdateRows(Found(table, Some(tenant), true, model, where), data);
      Guarded(writes, Some(tenant), true) == Guarded(writes, None, false)
  {
  }

  /**
   Rewritten and without row security, or untouched and under row security: the
   same rows, the same answer, the same changes. For every call that finds,
   counts, updates or deletes, as long as its filter does not rule the tenant out.
   */
  lemma LayersAgree(table: Table, tenant: TenantId, call: Call, ids: seq<RowId>)
    requires tenant != "" && WellFormed(call) && call.operation in WHERE_OPERATIONS
    requires Allows(CallerFilter(call.args), Some(tenant)) && Keeps(UpdateKey(call.args), tenant)
    requires |ids| == IdsNeeded(call.args)
    ensures IdsNeeded(Rewrite(call.operation, call.args, tenant)) == |ids|
    ensures Exec(table, None, false, call.model, Rewrite(call.operation, call.args, tenant), ids)
         == Exec(table, Some(tenant), true, call.model, call.args, ids)
  {
    match call.args
    case Read(where, _) => SameFound(table, tenant, call.model, where);
    case Update(where, data, _) =>
      SameFound(table, tenant, call.model, where);
      UpdateStaysInside(table, tenant, call.model, where, data);
    case Delete(where, _) => SameFound(table, tenant, call.model, where);
  }

  /** The tenant's own rows that the rest of the caller's filter finds. */
  function Mine(table: Table, tenant: TenantId, call: Call): Table {
    match call.args
    case Read(where, _) => Found(table, Some(tenant), true, call.model, where.(tenant := Unfiltered))
    case Update(where, _, _) => Found(table, Some(tenant), true, call.model, where.(tenant := Unfiltered))
    case Delete(where, _) => Found(table, Some(tenant), true, call.model, where.(tenant := Unfiltered))
    case Create(_) => map[]
    case Upsert(where, _, _) => Found(table, Some(tenant), true, call.model, where.(tenant := Unfiltered))
  }

  /** The call makes nothing of the tenant's own rows that it would not make of no rows. */
  predicate Indifferent(args: Args, mine: Table, tenant: TenantId) {
    match args
    case Read(_, result) => result(mine) == result(map[])
    case Update(_, _, _) => mine == map[]
    case Delete(_, _) => mine == map[]
    case Create(_) => true
    case Upsert(_, create, _) => mine == map[] && create.tenant == Is(Some(tenant))
  }

  lemma NamedFinds(table: Table, tenant: TenantId, model: string, where: Where)
    requires tenant != "" && !Allows(where.tenant, Some(tenant))
    ensures Found(table, Some(tenant), true, model, where) == map[]
    ensures Found(table, None, false, model, ScopedWhere(where, tenant))
         == Found(table, Some(tenant), true, model, where.(tenant := Unfiltered))
  {
    SameFound(table, tenant, model, where.(tenant := Unfiltered));
    assert ScopedWhere(where, tenant) == ScopedWhere(where.(tenant := Unfiltered), tenant);
  }

  lemma InsertOne(model: string, row: Insert, ids: seq<RowId>)
    requires |ids| == 1
    ensures InsertRows(model, [row], ids) == map[ids[0] := Some(Inserted(model, row))]
  {
    assert [row][..0] == [] && ids[..0] == [];
    assert InsertRows(model, [row][..0], ids[..0]) == map[];
  }

  lemma NamedUpserts(table: Table, tenant: TenantId, model: string, where: Where, create: Insert, data: Patch,
                     ids: seq<RowId>)
    requires tenant != "" && !Allows(where.tenant, Some(tenant)) && |ids| == 1 && ids[0] !in table
    ensures var args := Upsert(where, create, data);
      var mine := Found(table, Some(tenant), true, model, where.(tenant := Unfiltered));
      Exec(table, None, false, model, Upsert(ScopedWhere(where, tenant), Stamped(create, tenant), data), ids)
      == Exec(table, Some(tenant), true, model, args, ids)
      <==> mine == map[] && create.tenant == Is(Some(tenant))
  {
    NamedFinds(table, tenant, model, where);
    var mine := Found(table, Some(tenant), true, model, where.(tenant := Unfiltered));
    InsertOne(model, create, ids);
    InsertOne(model, Stamped(create, tenant), ids);
    assert ids[0] in InsertRows(model, [create], ids) && ids[0] in InsertRows(model, [Stamped(create, tenant)], ids);
    if mine != map[] {
      var id :| id in mine;
      assert id in UpdateRows(mine, data) && id != ids[0];
    }
  }

  /**
   When the caller's filter rules the tenant out, by another tenant's name, a list
   or a negation, the layers part: row security
   finds nothing, while the extension overwrites the name and finds the request's
   own rows. They agree exactly when the call would not notice those rows.
   */
  lemma NamedTenantParts(table: Table, tenant: TenantId, call: Call, ids: seq<RowId>)
    requires tenant != "" && WellFormed(call) && (call.operation in WHERE_OPERATIONS || call.operation == "upsert")
    requires !Allows(CallerFilter(call.args), Some(tenant))
    requires |ids| == IdsNeeded(call.args) && forall i :: 0 <= i < |ids| ==> ids[i] !in table
    ensures IdsNeeded(Rewrite(call.operation, call.args, tenant)) == |ids|
    ensures Exec(table, None, false, call.model, Rewrite(call.operation, call.args, tenant), ids)
         == Exec(table, Some(tenant), true, call.model, call.args, ids)
       <==> Indifferent(call.args, Mine(table, tenant, call), tenant)
  {
    var mine := Mine(table, tenant, call);
    match call.args
    case Read(where, _) => NamedFinds(table, tenant, call.model, where);
    case Update(where, data, _) =>
      NamedFinds(table, tenant, call.model, where);
      if mine != map[] {
        var id :| id in mine;
        assert id in UpdateRows(mine, data);
      }
    case Delete(where, _) =>
      NamedFinds(table, tenant, call.model, where);
      if mine != map[] {
        var id :| id in mine;
        var writes: Writes := map i | i in mine :: None;
        assert id in writes;
      }
    case Upsert(where, create, data) => NamedUpserts(table, tenant, call.model, where, create, data, ids);
  }

  /** This write stores the row under somebody else, or under nobody. */
  predicate Escapes(writes: Writes, id: RowId, tenant: TenantId) {
    id in writes && writes[id].Some? && writes[id].value.tenant != Some(tenant)
  }

  ghost predicate SomeEscapes(writes: Writes, tenant: TenantId) {
    exists id :: id in writes && Escapes(writes, id, tenant)
  }

  lemma PatchEscapes(found: Table, tenant: TenantId, data: Patch)
    requires !Keeps(data.tenant, tenant)
    ensures found != map[] <==> SomeEscapes(UpdateRows(found, data), tenant)
    ensures found != map[] <==> Guarded(UpdateRows(found, data), Some(tenant), true).reply == PolicyViolation
    ensures Guarded(UpdateRows(found, data), Some(tenant), true).writes == map[]
  {
    var writes := UpdateRows(found, data);
    if found != map[] {
      var id :| id in found;
      assert id in writes && Escapes(writes, id, tenant);
      assert !Policy(Some(tenant), writes[id].value);
    }
  }

  lemma StampedStays(model: string, create: Insert, ids: seq<RowId>, tenant: TenantId)
    requires tenant != "" && |ids| == 1
    ensures var writes := InsertRows(model, [Stamped(create, tenant)], ids);
      !SomeEscapes(writes, tenant) && Guarded(writes, Some(tenant), true).reply != PolicyViolation
  {
    StampedRows(model, [create], ids, tenant);
    assert StampAll([create], tenant) == [Stamped(create, tenant)];
  }

  /** The filter of an update or upsert, as the extension leaves it. */
  function UpdateWhere(args: Args, tenant: TenantId): Where
    requires args.Update? || args.Upsert?
  {
    ScopedWhere(args.where, tenant)
  }

  /**
   The extension does not look at the tenant column of the data of an update,
   updateMany or upsert. Alone it lets rows leave the tenant exactly when the
   filter finds some; with row security as well, exactly those calls are refused
   whole. For updates that do not rule the tenant out, row security alone does the same.
   */
  lemma UpdateEscapes(table: Table, tenant: TenantId, call: Call, ids: seq<RowId>)
    requires tenant != "" && WellFormed(call) && call.operation in {"update", "updateMany", "upsert"}
    requires !Keeps(UpdateKey(call.args), tenant) && |ids| == IdsNeeded(call.args)
    ensures var args := Rewrite(call.operation, call.args, tenant);
      var found := Found(table, None, false, call.model, UpdateWhere(call.args, tenant));
      && IdsNeeded(args) == |ids|
      && (found != map[] <==> SomeEscapes(Exec(table, None, false, call.model, args, ids).writes, tenant))
      && (found != map[] <==> Exec(table, Some(tenant), true, call.model, args, ids).reply == PolicyViolation)
      && (found != map[] ==> Exec(table, Some(tenant), true, call.model, args, ids).writes == map[])
      && (call.args.Update? && Allows(CallerFilter(call.args), Some(tenant)) ==>
            Exec(table, Some(tenant), true, call.model, call.args, ids)
            == Exec(table, Some(tenant), true, call.model, args, ids))
  {
    var where := UpdateWhere(call.args, tenant);
    var found := Found(table, None, false, call.model, where);
    SameFound(table, tenant, call.model, where);
    assert ScopedWhere(where, tenant) == where;
    PatchEscapes(found, tenant, call.args.data);
    match call.args
    case Update(before, _, _) =>
      if Allows(before.tenant, Some(tenant)) {
        SameFound(table, tenant, call.model, before);
      }
    case Upsert(_, create, _) => StampedStays(call.model, create, ids, tenant);
  }

  /** One member of tenant `a`. */
  const ONE_ROW: Table := map["row" := Row("Member", Some("a"), map[])]

  const EVERY_ROW := Where(Unfiltered, (id, row) => true)

  lemma OneRowFound()
    ensures Found(ONE_ROW, None, false, "Member", ScopedWhere(EVERY_ROW, "a")) == ONE_ROW
  {
    assert Matches(ScopedWhere(EVERY_ROW, "a"), "Member", "row", ONE_ROW["row"]);
  }

  /** An update that moves every row to tenant `b`: alone the extension lets the member go, row security does not. */
  lemma MovesAway()
    ensures var args := Update(EVERY_ROW, Patch(Is(Some("b")), data => data), false);
      var rewritten := Rewrite("updateMany", args, "a");
      && Own(Overlay(ONE_ROW, Exec(ONE_ROW, None, false, "Member", rewritten, []).writes), "a") == map[]
      && Exec(ONE_ROW, Some("a"), true, "Member", rewritten, []).reply == PolicyViolation
  {
    var args := Update(EVERY_ROW, Patch(Is(Some("b")), data => data), false);
    OneRowFound();
    assert UpdateWhere(args, "a") == ScopedWhere(EVERY_ROW, "a");
    UpdateEscapes(ONE_ROW, "a", Call("Member", "updateMany", args), []);
    assert UpdateRows(ONE_ROW, args.data)["row"] == Some(Row("Member", Some("b"), map[]));
  }

  /** A deleteMany that names tenant `b`: the extension makes it delete the member of tenant `a`. */
  lemma DeletesOwn()
    ensures var args := Delete(EVERY_ROW.(tenant := Equals(Some("b"))), false);
      && Overlay(ONE_ROW, Exec(ONE_ROW, None, false, "Member", Rewrite("deleteMany", args, "a"), []).writes) == map[]
      && Exec(ONE_ROW, Some("a"), true, "Member", args, []).writes == map[]
  {
    var args := Delete(EVERY_ROW.(tenant := Equals(Some("b"))), false);
    NamedFinds(ONE_ROW, "a", "Member", args.where);
    OneRowFound();
    assert ScopedWhere(args.where, "a") == ScopedWhere(EVERY_ROW, "a");
  }

  lemma {:induction false} StampedRows(model: string, rows: seq<Insert>, ids: seq<RowId>, tenant: TenantId)
    requires |rows| == |ids|
    ensures forall id :: id in InsertRows(model, StampAll(rows, tenant), ids) ==>
      var row := InsertRows(model, StampAll(rows, tenant), ids)[id];
      row.Some? && row.value.tenant == Some(tenant)
  {
    if |rows| > 0 {
      var k := |rows| - 1;
      assert StampAll(rows, tenant)[..k] == StampAll(rows[..k], tenant);
      StampedRows(model, rows[..k], ids[..k], tenant);
    }
  }

  /**
   Both layers in place: whatever a well-formed call asks for, no row is left
   under another tenant and no other row is touched. Creates are stamped, so they
   are never refused; a refused statement writes nothing.
   */
  lemma BothLayersContain(table: Table, tenant: TenantId, call: Call, ids: seq<RowId>)
    requires tenant != "" && WellFormed(call)
    requires var args := Rewrite(call.operation, call.args, tenant); |ids| == IdsNeeded(args)
    requires forall i :: 0 <= i < |ids| ==> ids[i] !in table
    ensures var effect := Exec(table, Some(tenant), true, call.model,
                               Rewrite(call.operation, call.args, tenant), ids);
      && Others(Overlay(table, effect.writes), tenant) == Others(table, tenant)
      && Own(Overlay(table, effect.writes), tenant) == Overlay(Own(table, tenant), effect.writes)
      && (effect.reply == PolicyViolation ==> effect.writes == map[])
      && (call.operation in {"create", "createMany"} ==> effect.reply != PolicyViolation)
  {
    var args := Rewrite(call.operation, call.args, tenant);
    var effect := Exec(table, Some(tenant), true, call.model, args, ids);
    ExecWritesOwn(table, tenant, call.model, args, ids);
    OwnOverlay(table, effect.writes, tenant);
    OthersOverlay(table, effect.writes, tenant);
    if call.operation in {"create", "createMany"} {
      StampedRows(call.model, call.args.rows, ids, tenant);
    }
  }
}
