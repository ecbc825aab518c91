/** The member fields a tenant defines: creating, archiving, restoring and putting them in order. */
module FieldDefinitions {
  import opened Common

  type FieldId = string

  datatype Field = Field(
    tenant: string, key: string, labelText: string, required: bool, sortOrder: int, archivedAt: Option<int>)

  type Fields = map<FieldId, Field>

  datatype FieldError = KeyTaken(archived: bool) | FieldNotFound

  // -------------------------------------------------------------------- listing

  predicate ActiveField(fields: Fields, tenant: string, id: FieldId) {
    id in fields && fields[id].tenant == tenant && fields[id].archivedAt.None?
  }

  /** In ascending sort order; fields with equal sort order may come in any order. */
  predicate Sorted(fields: Fields, ids: seq<FieldId>) {
    forall i, j :: 0 <= i < j < |ids| && ids[i] in fields && ids[j] in fields ==>
      fields[ids[i]].sortOrder <= fields[ids[j]].sortOrder
  }

  predicate NoRepeats(ids: seq<FieldId>) {
    forall i, j :: 0 <= i < j < |ids| ==> ids[i] != ids[j]
  }

  /** `list()`: a tenant's active fields, each once, sorted. */
  ghost predicate Listing(fields: Fields, tenant: string, ids: seq<FieldId>) {
    && NoRepeats(ids) && Sorted(fields, ids)
    && forall id :: id in ids <==> ActiveField(fields, tenant, id)
  }

  // ------------------------------------------------------------------- the steps

  /** The greatest sort order of a tenant's fields, archived ones included; 0 without any. */
  ghost predicate IsLastOrder(fields: Fields, tenant: string, last: int) {
    if forall id :: id in fields ==> fields[id].tenant != tenant then last == 0
    else
      && (exists id :: id in fields && fields[id].tenant == tenant && fields[id].sortOrder == last)
      && (forall id :: id in fields && fields[id].tenant == tenant ==> fields[id].sortOrder <= last)
  }

  predicate KeyInUse(fields: Fields, tenant: string, key: string) {
    exists id :: id in fields && fields[id].tenant == tenant && fields[id].key == key
  }

  /** The refusal says whether the field that holds the key is archived. */
  predicate ClashAnswered(fields: Fields, tenant: string, key: string, error: FieldError) {
    && error.KeyTaken?
    && exists id ::
         && id in fields && fields[id].tenant == tenant && fields[id].key == key
         && error.archived == fields[id].archivedAt.Some?
  }

  function Archived(field: Field, now: int): Field {
    field.(archivedAt := Some(now), required := false)
  }

  function Restored(field: Field): Field {
    field.(archivedAt := None)
  }

  predicate OwnField(fields: Fields, tenant: string, id: FieldId) {
    id in fields && fields[id].tenant == tenant
  }

  /** `updateMany({ where: { id, tenantId }, data: { sortOrder } })` */
  function SetOrder(fields: Fields, tenant: string, id: FieldId, sortOrder: int): Fields {
    if OwnField(fields, tenant, id) then fields[id := fields[id].(sortOrder := sortOrder)] else fields
  }

  /** The first `n` ids put in order; an id that is not the tenant's is passed over. */
  function Reordered(fields: Fields, tenant: string, ids: seq<FieldId>, n: nat): Fields
    requires n <= |ids|
  {
    if n == 0 then fields else SetOrder(Reordered(fields, tenant, ids, n - 1), tenant, ids[n - 1], n * 10)
  }

  // ---------------------------------------------------------------- one operation

  datatype Event =
    | CreateField(tenant: string, key: string, labelText: string, required: bool, id: FieldId, last: int)
    | ArchiveField(tenant: string, id: FieldId, now: int)
    | RestoreField(tenant: string, id: FieldId)
    | ReorderFields(tenant: string, ids: seq<FieldId>)

  function Step(fields: Fields, e: Event): Fields {
    match e
    case CreateField(tenant, key, labelText, required, id, last) =>
      if id in fields || KeyInUse(fields, tenant, key) then fields
      else fields[id := Field(tenant, key, labelText, required, last + 10, None)]
    case ArchiveField(tenant, id, now) =>
      if OwnField(fields, tenant, id) then fields[id := Archived(fields[id], now)] else fields
    case RestoreField(tenant, id) =>
      if OwnField(fields, tenant, id) then fields[id := Restored(fields[id])] else fields
    case ReorderFields(tenant, ids) => Reordered(fields, tenant, ids, |ids|)
  }

  // -------------------------------------------------------------------- the table

  /** The `member_field_definitions` table. */
  class FieldTable {
    var fields: Fields

    constructor ()
      ensures fields == map[]
    {
      fields := map[];
    }

    /** `findFirst({ where: { key } })` within the tenant. */
    method FindClash(tenant: string, key: string) returns (clash: Option<FieldId>)
      ensures clash.None? <==> !KeyInUse(fields, tenant, key)
      ensures clash.Some? ==> OwnField(fields, tenant, clash.value) && fields[clash.value].key == key
    {
      if id :| id in fields && fields[id].tenant == tenant && fields[id].key == key {
        return Some(id);
      }
      return None;
    }

    /** `findFirst({ orderBy: { sortOrder: 'desc' } })`, or 0. */
    method LastOrder(tenant: string) returns (last: int)
      ensures IsLastOrder(fields, tenant, last)
    {
      var todo := set id | id in fields && fields[id].tenant == tenant;
      if todo == {} {
        assert forall id :: id in fields ==> fields[id].tenant != tenant by {
          assert forall id :: id in fields && fields[id].tenant == tenant ==> id in todo;
        }
        return 0;
      }
      ghost var own := todo;
      var best :| best in todo;
      while todo != {}
        invariant todo <= own && best in own
        invariant forall id :: id in own && id !in todo ==> fields[id].sortOrder <= fields[best].sortOrder
      {
        var id :| id in todo;
        todo := todo - {id};
        if fields[id].sortOrder > fields[best].sortOrder {
          best := id;
        }
      }
      assert forall id :: id in fields && fields[id].tenant == tenant ==> id in own;
      return fields[best].sortOrder;
    }

    /** `create` */
    method Create(tenant: string, key: string, labelText: string, required: bool, newId: FieldId)
      returns (error: Option<FieldError>)
      requires newId !in fields
      modifies this
      ensures error.Some? <==> KeyInUse(old(fields), tenant, key)
      ensures error.Some? ==> fields == old(fields) && ClashAnswered(fields, tenant, key, error.value)
      ensures error.None? ==>
        (exists last ::
          && IsLastOrder(old(fields), tenant, last)
          && fields == old(fields)[newId := Field(tenant, key, labelText, required, last + 10, None)]
          && fields == Step(old(fields), CreateField(tenant, key, labelText, required, newId, last)))
    {
      var clash := FindClash(tenant, key);
      if clash.Some? {
        return Some(KeyTaken(fields[clash.value].archivedAt.Some?));
      }
      var last := LastOrder(tenant);
      fields := fields[newId := Field(tenant, key, labelText, required, last + 10, None)];
      return None;
    }

    /** `archive` */
    method Archive(tenant: string, id: FieldId, now: int) returns (error: Option<FieldError>)
      modifies this
      ensures error == if OwnField(old(fields), tenant, id) then None else Some(FieldNotFound)
      ensures fields == if error.None? then old(fields)[id := Archived(old(fields)[id], now)] else old(fields)
      ensures fields == Step(old(fields), ArchiveField(tenant, id, now))
    {
      if !OwnField(fields, tenant, id) {
        return Some(FieldNotFound);
      }
      fields := fields[id := fields[id].(archivedAt := Some(now), required := false)];
      return None;
    }

    /** `restore` */
    method Restore(tenant: string, id: FieldId) returns (error: Option<FieldError>)
      modifies this
      ensures error == if OwnField(old(fields), tenant, id) then None else Some(FieldNotFound)
      ensures fields == if error.None? then old(fields)[id := Restored(old(fields)[id])] else old(fields)
      ensures fields == Step(old(fields), RestoreField(tenant, id))
    {
      if !OwnField(fields, tenant, id) {
        return Some(FieldNotFound);
      }
      fields := fields[id := fields[id].(archivedAt := None)];
      return None;
    }

    /** `reorder`: one transaction over the whole list. */
    method Reorder(tenant: string, ids: seq<FieldId>, commits: bool)
      modifies this
      ensures fields == if commits then Reordered(old(fields), tenant, ids, |ids|) else old(fields)
      ensures commits ==> fields == Step(old(fields), ReorderFields(tenant, ids))
    {
      var working := fields;
      for index := 0 to |ids|
        invariant fields == old(fields) && working == Reordered(fields, tenant, ids, index)
      {
        working := SetOrder(working, tenant, ids[index], (index + 1) * 10);
      }
      if commits {
        fields := working;
      }
    }
  }

  // ------------------------------------------------------------------ reordering

  /** Among the first `n` ids, position `i` is the last one of its id. */
  predicate LastAt(ids: seq<FieldId>, i: nat, n: nat) {
    i < n <= |ids| && ids[i] !in ids[i + 1..n]
  }

  lemma LastAtShorter(ids: seq<FieldId>, i: nat, n: nat)
    requires LastAt(ids, i, n) && i < n - 1
    ensures LastAt(ids, i, n - 1) && ids[i] != ids[n - 1]
  {
    assert ids[i + 1..n] == ids[i + 1..n - 1] + [ids[n - 1]];
  }

  lemma {:induction false} ReorderedAt(fields: Fields, tenant: string, ids: seq<FieldId>, n: nat, id: FieldId)
    requires n <= |ids|
    ensures Reordered(fields, tenant, ids, n).Keys == fields.Keys
    ensures id in fields ==>
      var after := Reordered(fields, tenant, ids, n)[id];
      && after == fields[id].(sortOrder := after.sortOrder)
      && (fields[id].tenant != tenant || id !in ids[..n] ==> after.sortOrder == fields[id].sortOrder)
  {
    if n > 0 {
      ReorderedAt(fields, tenant, ids, n - 1, id);
      ReorderedAt(fields, tenant, ids, n - 1, ids[n - 1]);
      assert ids[..n] == ids[..n - 1] + [ids[n - 1]];
    }
  }

  /** The last position of an id wins. */
  lemma {:induction false} ReorderedRank(fields: Fields, tenant: string, ids: seq<FieldId>, n: nat, i: nat)
    requires n <= |ids| && LastAt(ids, i, n) && OwnField(fields, tenant, ids[i])
    ensures ids[i] in Reordered(fields, tenant, ids, n)
    ensures Reordered(fields, tenant, ids, n)[ids[i]].sortOrder == (i + 1) * 10
  {
    ReorderedAt(fields, tenant, ids, n - 1, ids[i]);
    if i < n - 1 {
      LastAtShorter(ids, i, n);
      ReorderedRank(fields, tenant, ids, n - 1, i);
    }
  }

  /** The active fields of the tenant among some ids, each where its id stands last. */
  function ActiveOrder(fields: Fields, tenant: string, ids: seq<FieldId>): seq<FieldId> {
    if |ids| == 0 then []
    else
      var rest := ActiveOrder(fields, tenant, ids[1..]);
      if ids[0] !in ids[1..] && ActiveField(fields, tenant, ids[0]) then [ids[0]] + rest else rest
  }

  /** The part of a listing that some ids name. */
  function Named(listed: seq<FieldId>, ids: seq<FieldId>): seq<FieldId>
    decreases |listed|
  {
    if |listed| == 0 then []
    else
      var front := Named(listed[..|listed| - 1], ids);
      if listed[|listed| - 1] in ids then front + [listed[|listed| - 1]] else front
  }

  /** Strictly ascending by some number. */
  predicate Ascending(ids: seq<FieldId>, rank: map<FieldId, int>) {
    && (forall id :: id in ids ==> id in rank)
    && (forall i, j :: 0 <= i < j < |ids| ==> rank[ids[i]] < rank[ids[j]])
  }

  /** Two strictly ascending lists of the same elements are the same list. */
  lemma {:induction false} SameAscending(a: seq<FieldId>, b: seq<FieldId>, rank: map<FieldId, int>)
    requires Ascending(a, rank) && Ascending(b, rank) && forall id :: id in a <==> id in b
    ensures a == b
    decreases |a|
  {
    if |a| == 0 {
      FirstIn(b);
    } else {
      assert a[|a| - 1] in b;
      var m, n := |a| - 1, |b| - 1;
      LastIsGreatest(a, rank);
      LastIsGreatest(b, rank);
      assert b[n] in a;
      assert a[m] == b[n];
      forall id ensures id in a[..m] <==> id in b[..n] {
        FrontWithoutLast(a, rank, id);
        FrontWithoutLast(b, rank, id);
      }
      AscendingFront(a, rank);
      AscendingFront(b, rank);
      SameAscending(a[..m], b[..n], rank);
      assert a == a[..m] + [a[m]] && b == b[..n] + [b[n]];
    }
  }

  lemma FirstIn(ids: seq<FieldId>)
    ensures |ids| > 0 ==> ids[0] in ids
  {
  }

  lemma LastIsGreatest(ids: seq<FieldId>, rank: map<FieldId, int>)
    requires |ids| > 0 && Ascending(ids, rank)
    ensures forall id :: id in ids && id != ids[|ids| - 1] ==> rank[id] < rank[ids[|ids| - 1]]
  {
    forall id | id in ids && id != ids[|ids| - 1] ensures rank[id] < rank[ids[|ids| - 1]] {
      var i :| 0 <= i < |ids| && ids[i] == id;
    }
  }

  lemma FrontWithoutLast(ids: seq<FieldId>, rank: map<FieldId, int>, id: FieldId)
    requires |ids| > 0 && Ascending(ids, rank)
    ensures id in ids[..|ids| - 1] <==> id in ids && id != ids[|ids| - 1]
  {
    assert ids == ids[..|ids| - 1] + [ids[|ids| - 1]];
    if id in ids[..|ids| - 1] {
      var i :| 0 <= i < |ids| - 1 && ids[i] == id;
      assert rank[ids[i]] < rank[ids[|ids| - 1]];
    }
  }

  lemma AscendingFront(ids: seq<FieldId>, rank: map<FieldId, int>)
    requires |ids| > 0 && Ascending(ids, rank)
    ensures Ascending(ids[..|ids| - 1], rank)
  {
    forall id | id in ids[..|ids| - 1] ensures id in rank {
      assert id in ids;
    }
  }

  lemma {:induction false} ActiveOrderAre(fields: Fields, tenant: string, ids: seq<FieldId>)
    ensures forall id :: id in ActiveOrder(fields, tenant, ids) <==> id in ids && ActiveField(fields, tenant, id)
  {
    if |ids| > 0 {
      ActiveOrderAre(fields, tenant, ids[1..]);
      assert ids == [ids[0]] + ids[1..];
    }
  }

  lemma {:induction false} NamedAre(listed: seq<FieldId>, ids: seq<FieldId>)
    ensures forall id :: id in Named(listed, ids) <==> id in listed && id in ids
    ensures (forall id :: id in listed ==> id in ids) ==> Named(listed, ids) == listed
    decreases |listed|
  {
    if |listed| > 0 {
      var n := |listed| - 1;
      NamedAre(listed[..n], ids);
      assert listed == listed[..n] + [listed[n]];
    }
  }

  /** Each own id stands at ten times its last position, counted from `offset`. */
  predicate RanksByPosition(rank: map<FieldId, int>, fields: Fields, tenant: string, ids: seq<FieldId>, offset: nat) {
    forall i :: 0 <= i < |ids| && LastAt(ids, i, |ids|) && OwnField(fields, tenant, ids[i]) ==>
      ids[i] in rank && rank[ids[i]] == (offset + i + 1) * 10
  }

  lemma RanksTail(rank: map<FieldId, int>, fields: Fields, tenant: string, ids: seq<FieldId>, offset: nat)
    requires |ids| > 0 && RanksByPosition(rank, fields, tenant, ids, offset)
    ensures RanksByPosition(rank, fields, tenant, ids[1..], offset + 1)
  {
    var tail := ids[1..];
    forall i | 0 <= i < |tail| && LastAt(tail, i, |tail|) && OwnField(fields, tenant, tail[i])
      ensures tail[i] in rank && rank[tail[i]] == (offset + 1 + i + 1) * 10
    {
      assert tail[i + 1..|tail|] == ids[i + 2..|ids|] && tail[i] == ids[i + 1];
      assert LastAt(ids, i + 1, |ids|);
    }
  }

  lemma {:induction false} ActiveOrderAscends(fields: Fields, tenant: string, ids: seq<FieldId>,
                                              rank: map<FieldId, int>, offset: nat)
    requires RanksByPosition(rank, fields, tenant, ids, offset)
    ensures Ascending(ActiveOrder(fields, tenant, ids), rank)
    ensures forall id :: id in ActiveOrder(fields, tenant, ids) ==> rank[id] > offset * 10
  {
    if |ids| > 0 {
      RanksTail(rank, fields, tenant, ids, offset);
      ActiveOrderAscends(fields, tenant, ids[1..], rank, offset + 1);
      var rest := ActiveOrder(fields, tenant, ids[1..]);
      forall i | 0 <= i < |rest| ensures rank[rest[i]] > (offset + 1) * 10 {
        assert rest[i] in rest;
      }
      if ids[0] !in ids[1..] && ActiveField(fields, tenant, ids[0]) {
        assert LastAt(ids, 0, |ids|);
      }
    }
  }

  lemma {:induction false} LastPosition(ids: seq<FieldId>, id: FieldId, n: nat) returns (p: nat)
    requires n <= |ids| && id in ids[..n] && id !in ids[n..]
    ensures LastAt(ids, p, |ids|) && ids[p] == id
  {
    assert ids[..n] == ids[..n - 1] + [ids[n - 1]];
    if ids[n - 1] == id {
      p := n - 1;
    } else {
      assert ids[n - 1..] == [ids[n - 1]] + ids[n..];
      p := LastPosition(ids, id, n - 1);
    }
  }

  function Ranks(fields: Fields): map<FieldId, int> {
    map id | id in fields :: fields[id].sortOrder
  }

  lemma RanksDiffer(rank: map<FieldId, int>, fields: Fields, tenant: string, ids: seq<FieldId>, a: FieldId, b: FieldId)
    requires RanksByPosition(rank, fields, tenant, ids, 0) && a != b && a in ids && b in ids
    requires OwnField(fields, tenant, a) && OwnField(fields, tenant, b)
    ensures a in rank && b in rank && rank[a] != rank[b]
  {
    assert ids[..|ids|] == ids && ids[|ids|..] == [];
    var p := LastPosition(ids, a, |ids|);
    var q := LastPosition(ids, b, |ids|);
    assert ids[p] != ids[q];
  }

  /** What is named in front of the last entry of a listing ranks below it. */
  lemma NamedBelow(fields: Fields, tenant: string, ids: seq<FieldId>, after: Fields, listed: seq<FieldId>)
    requires RanksByPosition(Ranks(after), fields, tenant, ids, 0)
    requires NoRepeats(listed) && Sorted(after, listed) && |listed| > 0 && listed[|listed| - 1] in ids
    requires forall id :: id in listed ==> id in after && OwnField(fields, tenant, id)
    ensures forall id :: id in Named(listed[..|listed| - 1], ids) ==>
      id in Ranks(after) && Ranks(after)[id] < Ranks(after)[listed[|listed| - 1]]
  {
    var n := |listed| - 1;
    NamedAre(listed[..n], ids);
    forall id | id in Named(listed[..n], ids) ensures id in Ranks(after) && Ranks(after)[id] < Ranks(after)[listed[n]] {
      var k :| 0 <= k < n && listed[k] == id;
      RanksDiffer(Ranks(after), fields, tenant, ids, listed[k], listed[n]);
      assert after[listed[k]].sortOrder <= after[listed[n]].sortOrder;
    }
  }

  lemma AscendingSnoc(ids: seq<FieldId>, id: FieldId, rank: map<FieldId, int>)
    requires Ascending(ids, rank) && id in rank && forall x :: x in ids ==> rank[x] < rank[id]
    ensures Ascending(ids + [id], rank)
  {
  }

  lemma {:induction false} NamedAscends(fields: Fields, tenant: string, ids: seq<FieldId>, after: Fields,
                                        listed: seq<FieldId>)
    requires RanksByPosition(Ranks(after), fields, tenant, ids, 0)
    requires NoRepeats(listed) && Sorted(after, listed)
    requires forall id :: id in listed ==> id in after && OwnField(fields, tenant, id)
    ensures Ascending(Named(listed, ids), Ranks(after))
    decreases |listed|
  {
    if |listed| > 0 {
      var n := |listed| - 1;
      var front := listed[..n];
      assert listed == front + [listed[n]];
      NamedAscends(fields, tenant, ids, after, front);
      if listed[n] in ids {
        NamedBelow(fields, tenant, ids, after, listed);
        AscendingSnoc(Named(front, ids), listed[n], Ranks(after));
      }
    }
  }

  /**
   After reordering, `list()` gives the named active fields in the order in which
   their ids stood last; an id that is not an active field of the tenant changes
   nothing. When the ids cover the active fields, that is the whole listing.
   */
  lemma ReorderLists(fields: Fields, tenant: string, ids: seq<FieldId>, listed: seq<FieldId>)
    requires Listing(Reordered(fields, tenant, ids, |ids|), tenant, listed)
    ensures Named(listed, ids) == ActiveOrder(fields, tenant, ids)
    ensures (forall id :: ActiveField(fields, tenant, id) ==> id in ids) ==> listed == ActiveOrder(fields, tenant, ids)
  {
    var after := Reordered(fields, tenant, ids, |ids|);
    forall id ensures ActiveField(after, tenant, id) <==> ActiveField(fields, tenant, id) {
      ReorderedAt(fields, tenant, ids, |ids|, id);
    }
    ReorderRanks(fields, tenant, ids);
    ActiveOrderAscends(fields, tenant, ids, Ranks(after), 0);
    ActiveOrderAre(fields, tenant, ids);
    NamedAre(listed, ids);
    NamedAscends(fields, tenant, ids, after, listed);
    SameAscending(Named(listed, ids), ActiveOrder(fields, tenant, ids), Ranks(after));
  }

  lemma ReorderRanks(fields: Fields, tenant: string, ids: seq<FieldId>)
    ensures RanksByPosition(Ranks(Reordered(fields, tenant, ids, |ids|)), fields, tenant, ids, 0)
  {
    var rank := Ranks(Reordered(fields, tenant, ids, |ids|));
    forall i | 0 <= i < |ids| && LastAt(ids, i, |ids|) && OwnField(fields, tenant, ids[i])
      ensures ids[i] in rank && rank[ids[i]] == (0 + i + 1) * 10
    {
      ReorderedRank(fields, tenant, ids, |ids|, i);
    }
  }

  /** Distinct ids of active fields stand in that order already. */
  lemma {:induction false} DistinctOrder(fields: Fields, tenant: string, ids: seq<FieldId>)
    requires NoRepeats(ids) && forall i :: 0 <= i < |ids| ==> ActiveField(fields, tenant, ids[i])
    ensures ActiveOrder(fields, tenant, ids) == ids
  {
    if |ids| > 0 {
      DistinctOrder(fields, tenant, ids[1..]);
      assert ids == [ids[0]] + ids[1..];
    }
  }

  // -------------------------------------------------------------------- creating

  lemma CreatedIsLast(fields: Fields, tenant: string, newId: FieldId, field: Field, last: int, listed: seq<FieldId>)
    requires newId !in fields && IsLastOrder(fields, tenant, last)
    requires field.tenant == tenant && field.sortOrder == last + 10 && field.archivedAt.None?
    requires Listing(fields[newId := field], tenant, listed)
    ensures |listed| > 0 && listed[|listed| - 1] == newId
  {
    var after := fields[newId := field];
    assert ActiveField(after, tenant, newId);
    var n := |listed| - 1;
    var k :| 0 <= k < |listed| && listed[k] == newId;
    assert listed[n] in listed && ActiveField(after, tenant, listed[n]);
    assert after[listed[k]].sortOrder <= after[listed[n]].sortOrder;
  }

  /** A new field always comes last, and in front of it nothing has moved. */
  lemma CreateAppends(fields: Fields, tenant: string, newId: FieldId, field: Field, last: int, listed: seq<FieldId>)
    requires newId !in fields && IsLastOrder(fields, tenant, last)
    requires field.tenant == tenant && field.sortOrder == last + 10 && field.archivedAt.None?
    requires Listing(fields[newId := field], tenant, listed)
    ensures |listed| > 0 && listed[|listed| - 1] == newId
    ensures Listing(fields, tenant, listed[..|listed| - 1])
  {
    var after := fields[newId := field];
    CreatedIsLast(fields, tenant, newId, field, last, listed);
    var front := listed[..|listed| - 1];
    assert listed == front + [newId] && newId !in front;
    forall id ensures id in front <==> ActiveField(fields, tenant, id) {
      assert id in listed <==> ActiveField(after, tenant, id);
    }
    forall i, j | 0 <= i < j < |front| && front[i] in fields && front[j] in fields
      ensures fields[front[i]].sortOrder <= fields[front[j]].sortOrder
    {
      assert listed[i] == front[i] && listed[j] == front[j];
    }
  }

  // ------------------------------------------------------------------ over a run

  function Run(fields: Fields, es: seq<Event>): Fields
    decreases |es|
  {
    if |es| == 0 then fields else Run(Step(fields, es[0]), es[1..])
  }

  ghost predicate UniqueKeys(fields: Fields) {
    forall a, b :: a in fields && b in fields && a != b && fields[a].tenant == fields[b].tenant ==>
      fields[a].key != fields[b].key
  }

  /** The key and the owner of a field never change. */
  ghost predicate SameIdentity(before: Fields, after: Fields) {
    && before.Keys == after.Keys
    && forall id :: id in before ==> after[id].tenant == before[id].tenant && after[id].key == before[id].key
  }

  lemma {:induction false} ReorderKeepsIdentity(fields: Fields, tenant: string, ids: seq<FieldId>, n: nat)
    requires n <= |ids|
    ensures SameIdentity(fields, Reordered(fields, tenant, ids, n))
  {
    if n > 0 {
      ReorderKeepsIdentity(fields, tenant, ids, n - 1);
    }
  }

  /** No sequence of operations gives two fields of a tenant the same key, archived or not. */
  lemma {:induction false} KeysStayUnique(fields: Fields, es: seq<Event>)
    requires UniqueKeys(fields)
    ensures UniqueKeys(Run(fields, es))
    decreases |es|
  {
    if |es| > 0 {
      if es[0].ReorderFields? {
        ReorderKeepsIdentity(fields, es[0].tenant, es[0].ids, |es[0].ids|);
      }
      KeysStayUnique(Step(fields, es[0]), es[1..]);
    }
  }

  /** Restoring undoes archiving exactly for fields that were not required. */
  lemma RestoreUndoesArchive(field: Field, now: int)
    requires field.archivedAt.None?
    ensures Restored(Archived(field, now)) == field.(required := false)
    ensures Restored(Archived(field, now)) == field <==> !field.required
  {
  }

  /** Archiving takes exactly this field out of the list; its order, key and caption stay. */
  lemma ArchiveHides(fields: Fields, tenant: string, id: FieldId, now: int, before: seq<FieldId>, listed: seq<FieldId>)
    requires OwnField(fields, tenant, id) && Listing(fields, tenant, before)
    requires Listing(fields[id := Archived(fields[id], now)], tenant, listed)
    ensures forall x :: x in listed <==> x in before && x != id
    ensures var archived := Archived(fields[id], now);
      && archived.archivedAt == Some(now) && !archived.required
      && archived == fields[id].(archivedAt := Some(now), required := false)
  {
    forall x ensures x in listed <==> x in before && x != id {
      assert x in before <==> ActiveField(fields, tenant, x);
      assert x in listed <==> ActiveField(fields[id := Archived(fields[id], now)], tenant, x);
    }
  }

  /** Restoring puts exactly this field back. */
  lemma RestoreShows(fields: Fields, tenant: string, id: FieldId, before: seq<FieldId>, listed: seq<FieldId>)
    requires OwnField(fields, tenant, id) && Listing(fields, tenant, before)
    requires Listing(fields[id := Restored(fields[id])], tenant, listed)
    ensures forall x :: x in listed <==> x in before || x == id
    ensures Restored(fields[id]) == fields[id].(archivedAt := None)
  {
    forall x ensures x in listed <==> x in before || x == id {
      assert x in before <==> ActiveField(fields, tenant, x);
      assert x in listed <==> ActiveField(fields[id := Restored(fields[id])], tenant, x);
    }
  }
}
