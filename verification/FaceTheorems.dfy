/** What the biometric life cycle keeps: consent over all runs, agreement of the three stores. */
module FaceTheorems {
  import opened Common
  import opened FaceData

  // ------------------------------------------------------------------- all runs

  /** Everything that writes a member, a template or a consent column. */
  datatype Event =
    | CreateMember(id: MemberId, code: string, consent: Option<Consent>, now: int)
    | UpdateMember(id: MemberId, code: string, consent: Option<Consent>, update: Fault, now: int)
    | ImportMember(id: MemberId, code: string)
    | Enrol(id: MemberId, captures: seq<Capture>, readable: bool, update: Fault, now: int)
    | Erase(id: MemberId, faults: EraseFaults)
    | Withdraw(id: MemberId, faults: EraseFaults, update: Fault, now: int)
    | Record(id: MemberId, version: string, readable: bool, update: Fault, now: int)

  function NewMember(code: string): Member {
    Member(code, None, None, None, None)
  }

  /** A new member's id is the database's to choose; an old one is left alone. */
  function Step(s: Stores, tenant: Tenant, e: Event): Stores {
    match e
    case CreateMember(id, code, consent, now) =>
      if id in s.members then s
      else s.(members := s.members[id := ConsentColumns(NewMember(code), consent, now)])
    case UpdateMember(id, code, consent, update, now) =>
      if id !in s.members || update == Refused then s
      else
        var m := s.members[id].(code := code);
        s.(members := s.members[id := if m.consentAt.Some? then m else ConsentColumns(m, consent, now)])
    case ImportMember(id, code) =>
      if id in s.members then s else s.(members := s.members[id := NewMember(code)])
    case Enrol(id, captures, readable, update, now) =>
      AfterEnrol(s, tenant, id, captures, readable, update, now).0
    case Erase(id, faults) => AfterErase(s, tenant, id, faults).0
    case Withdraw(id, faults, update, now) => AfterWithdraw(s, tenant, id, faults, update, now).0
    case Record(id, version, readable, update, now) => AfterRecord(s, id, version, readable, update, now)
  }

  /** The tenant's settings may change between any two events. */
  function Run(s: Stores, es: seq<(Tenant, Event)>): Stores
    decreases |es|
  {
    if |es| == 0 then s else Run(Step(s, es[0].0, es[0].1), es[1..])
  }

  // -------------------------------------------------------------------- consent

  predicate ConsentPaired(m: Member) {
    m.consentAt.Some? <==> m.consentVersion.Some?
  }

  predicate Consented(s: Stores, id: MemberId) {
    id in s.members && s.members[id].consentAt.Some?
  }

  /** No template without consent, and no consent without the version agreed to. */
  ghost predicate Lawful(s: Stores) {
    && (forall k :: 0 <= k < |s.templates| ==> Consented(s, s.templates[k].memberId))
    && (forall id :: id in s.members ==> ConsentPaired(s.members[id]))
  }

  lemma EnrolOneKeeps(s: Stores, memberId: MemberId, subject: Subject, storeImages: bool, c: Capture)
    requires Lawful(s) && Consented(s, memberId)
    ensures var after := EnrolOne(s, memberId, subject, storeImages, c).0;
      Lawful(after) && after.members == s.members
  {
  }

  lemma {:induction false} EnrolAllKeeps(s: Stores, memberId: MemberId, subject: Subject, storeImages: bool,
                                         captures: seq<Capture>)
    requires Lawful(s) && Consented(s, memberId)
    ensures var after := EnrolAll(s, memberId, subject, storeImages, captures).stores;
      Lawful(after) && after.members == s.members
    decreases |captures|
  {
    if |captures| > 0 {
      var k := |captures| - 1;
      EnrolAllKeeps(s, memberId, subject, storeImages, captures[..k]);
      EnrolOneKeeps(EnrolAll(s, memberId, subject, storeImages, captures[..k]).stores, memberId, subject,
                    storeImages, captures[k]);
    }
  }

  lemma {:induction false} RowsExceptAre(templates: seq<Template>, memberId: MemberId)
    ensures forall k :: 0 <= k < |RowsExcept(templates, memberId)| ==>
      RowsExcept(templates, memberId)[k] in templates && RowsExcept(templates, memberId)[k].memberId != memberId
    ensures forall t :: t in templates && t.memberId != memberId ==> t in RowsExcept(templates, memberId)
  {
    if templates != [] {
      RowsExceptAre(templates[1..], memberId);
    }
  }

  lemma {:induction false} RowsOfAre(templates: seq<Template>, memberId: MemberId)
    ensures forall t :: t in RowsOf(templates, memberId) <==> t in templates && t.memberId == memberId
  {
    if templates != [] {
      RowsOfAre(templates[1..], memberId);
    }
  }

  /** Consent columns and codes are the same on both sides. */
  ghost predicate SameConsent(before: map<MemberId, Member>, after: map<MemberId, Member>) {
    && after.Keys == before.Keys
    && forall id :: id in before ==>
         && after[id].consentAt == before[id].consentAt
         && after[id].consentVersion == before[id].consentVersion
         && after[id].code == before[id].code
  }

  lemma EraseKeepsConsent(s: Stores, tenant: Tenant, memberId: MemberId, f: EraseFaults)
    ensures SameConsent(s.members, AfterErase(s, tenant, memberId, f).0.members)
  {
  }

  lemma EraseKeepsRows(s: Stores, tenant: Tenant, memberId: MemberId, f: EraseFaults)
    ensures var (after, result) := AfterErase(s, tenant, memberId, f);
      && (after.templates == s.templates || after.templates == RowsExcept(s.templates, memberId))
      && (result.Success? && |RowsOf(s.templates, memberId)| > 0 ==>
            after.templates == RowsExcept(s.templates, memberId))
  {
  }

  /** What an erasure can leave behind, whichever call fails. */
  lemma EraseShape(s: Stores, tenant: Tenant, memberId: MemberId, f: EraseFaults)
    ensures var (after, result) := AfterErase(s, tenant, memberId, f);
      && SameConsent(s.members, after.members)
      && (after.templates == s.templates || after.templates == RowsExcept(s.templates, memberId))
      && (result.Success? && |RowsOf(s.templates, memberId)| > 0 ==>
            after.templates == RowsExcept(s.templates, memberId))
  {
    EraseKeepsConsent(s, tenant, memberId, f);
    EraseKeepsRows(s, tenant, memberId, f);
  }

  predicate NoRows(templates: seq<Template>, memberId: MemberId) {
    forall k :: 0 <= k < |templates| ==> templates[k].memberId != memberId
  }

  lemma NoRowsOf(templates: seq<Template>, memberId: MemberId)
    ensures |RowsOf(templates, memberId)| == 0 <==> NoRows(templates, memberId)
    ensures NoRows(RowsExcept(templates, memberId), memberId)
  {
    RowsOfAre(templates, memberId);
    RowsExceptAre(templates, memberId);
    var rows := RowsOf(templates, memberId);
    if |rows| > 0 {
      assert rows[0] in rows;
    } else {
      forall k | 0 <= k < |templates| ensures templates[k].memberId != memberId {
        assert templates[k] !in rows;
      }
    }
  }

  /** An erasure grants and withdraws nothing; when it reports, the rows are gone. */
  lemma EraseKeepsLawful(s: Stores, tenant: Tenant, memberId: MemberId, f: EraseFaults)
    requires Lawful(s)
    ensures var (after, result) := AfterErase(s, tenant, memberId, f);
      && Lawful(after) && after.members.Keys == s.members.Keys
      && (result.Success? ==> NoRows(after.templates, memberId))
  {
    EraseShape(s, tenant, memberId, f);
    NoRowsOf(s.templates, memberId);
    RowsExceptAre(s.templates, memberId);
    var after := AfterErase(s, tenant, memberId, f).0;
    forall k | 0 <= k < |after.templates| ensures Consented(after, after.templates[k].memberId) {
      assert after.templates[k] in s.templates;
      var j :| 0 <= j < |s.templates| && s.templates[j] == after.templates[k];
      assert Consented(s, s.templates[j].memberId);
    }
  }

  /** What an enrolment can leave behind. */
  lemma EnrolShape(s: Stores, tenant: Tenant, id: MemberId, captures: seq<Capture>,
                   readable: bool, update: Fault, now: int)
    requires Consented(s, id)
    ensures var after := AfterEnrol(s, tenant, id, captures, readable, update, now).0;
      var p := EnrolAll(s, id, SubjectFor(id, s.members[id].code), !tenant.storeEmbeddingOnly, captures).stores;
      after == s || after == p || (id in p.members && after == SetEnrolledAt(p, id, Some(now)))
  {
  }

  lemma EnrolKeepsLawful(s: Stores, tenant: Tenant, id: MemberId, captures: seq<Capture>,
                         readable: bool, update: Fault, now: int)
    requires Lawful(s)
    ensures Lawful(AfterEnrol(s, tenant, id, captures, readable, update, now).0)
  {
    if Consented(s, id) {
      EnrolAllKeeps(s, id, SubjectFor(id, s.members[id].code), !tenant.storeEmbeddingOnly, captures);
      EnrolShape(s, tenant, id, captures, readable, update, now);
    }
  }

  lemma WithdrawKeepsLawful(s: Stores, tenant: Tenant, id: MemberId, faults: EraseFaults, update: Fault, now: int)
    requires Lawful(s)
    ensures Lawful(AfterWithdraw(s, tenant, id, faults, update, now).0)
  {
    EraseKeepsLawful(s, tenant, id, faults);
  }

  lemma StepKeepsLawful(s: Stores, tenant: Tenant, e: Event)
    requires Lawful(s)
    ensures Lawful(Step(s, tenant, e))
  {
    match e
    case CreateMember(_, _, _, _) =>
    case UpdateMember(_, _, _, _, _) =>
    case ImportMember(_, _) =>
    case Enrol(id, captures, readable, update, now) =>
      EnrolKeepsLawful(s, tenant, id, captures, readable, update, now);
    case Erase(id, faults) => EraseKeepsLawful(s, tenant, id, faults);
    case Withdraw(id, faults, update, now) => WithdrawKeepsLawful(s, tenant, id, faults, update, now);
    case Record(_, _, _, _, _) =>
  }

  /**
   Over every run, with a failure possible at every external call: a member with
   any template row has consented, and consent always comes with its version.
   */
  lemma {:induction false} ConsentHolds(s: Stores, es: seq<(Tenant, Event)>)
    requires Lawful(s)
    ensures Lawful(Run(s, es))
    decreases |es|
  {
    if |es| > 0 {
      StepKeepsLawful(s, es[0].0, es[0].1);
      ConsentHolds(Step(s, es[0].0, es[0].1), es[1..]);
    }
  }

  // -------------------------------------------------------- agreement of the stores

  /** One row and what it stands for in the other two stores. */
  predicate Linked(s: Stores, t: Template) {
    && t.memberId in s.members && PlainId(t.memberId)
    && t.subject == Some(SubjectFor(t.memberId, s.members[t.memberId].code))
    && t.imageId.Some? && t.imageId.value in s.faces && s.faces[t.imageId.value] == t.subject.value
    && (t.imageRef.Some? ==> t.imageRef.value != "" && t.imageRef.value in s.images)
  }

  predicate DistinctLinks(templates: seq<Template>) {
    forall j, k :: 0 <= j < k < |templates| ==>
      && templates[j].imageId != templates[k].imageId
      && (templates[j].imageRef.Some? ==> templates[j].imageRef != templates[k].imageRef)
  }

  predicate HasFace(templates: seq<Template>, id: ImageId) {
    exists k :: 0 <= k < |templates| && templates[k].imageId == Some(id)
  }

  predicate HasImage(templates: seq<Template>, key: StorageKey) {
    exists k :: 0 <= k < |templates| && templates[k].imageRef == Some(key)
  }

  /** Rows, faces and stored photos correspond one to one. */
  ghost predicate Agree(s: Stores) {
    && (forall t :: t in s.templates ==> Linked(s, t))
    && DistinctLinks(s.templates)
    && (forall id :: id in s.faces ==> HasFace(s.templates, id))
    && (forall key :: key in s.images ==> HasImage(s.templates, key))
  }

  /** No call fails, and the ids handed out by the stores are new. */
  predicate CleanCapture(s: Stores, c: Capture) {
    && c.add == Fine && c.put == Fine && c.row == Fine
    && c.imageId !in s.faces && c.key !in s.images && c.key != ""
  }

  predicate CleanCaptures(s: Stores, captures: seq<Capture>) {
    && (forall i :: 0 <= i < |captures| ==> CleanCapture(s, captures[i]))
    && (forall i, j :: 0 <= i < j < |captures| ==>
          captures[i].imageId != captures[j].imageId && captures[i].key != captures[j].key)
  }

  lemma SnocLinks(s: Stores, s': Stores, t: Template)
    requires Agree(s) && s'.templates == s.templates + [t] && Linked(s', t)
    requires s'.members == s.members && t.imageId.value !in s.faces
    requires s'.faces == s.faces[t.imageId.value := t.subject.value]
    requires if t.imageRef.Some? then t.imageRef.value !in s.images && s'.images == s.images + {t.imageRef.value}
             else s'.images == s.images
    ensures Agree(s')
  {
    var n := |s.templates|;
    assert s'.templates[n] == t;
    forall u | u in s'.templates ensures Linked(s', u) {
      if u != t {
        assert u in s.templates;
      }
    }
    forall j, k | 0 <= j < k < |s'.templates|
      ensures s'.templates[j].imageId != s'.templates[k].imageId
        && (s'.templates[j].imageRef.Some? ==> s'.templates[j].imageRef != s'.templates[k].imageRef)
    {
      assert s.templates[j] in s.templates;
    }
    forall id | id in s'.faces ensures HasFace(s'.templates, id) {
      if id in s.faces {
        var k :| 0 <= k < n && s.templates[k].imageId == Some(id);
        assert s'.templates[k].imageId == Some(id);
      }
    }
    forall key | key in s'.images ensures HasImage(s'.templates, key) {
      if key in s.images {
        var k :| 0 <= k < n && s.templates[k].imageRef == Some(key);
        assert s'.templates[k].imageRef == Some(key);
      }
    }
  }

  lemma EnrolOneAgrees(s: Stores, memberId: MemberId, storeImages: bool, c: Capture)
    requires Agree(s) && memberId in s.members && PlainId(memberId) && CleanCapture(s, c)
    ensures var after := EnrolOne(s, memberId, SubjectFor(memberId, s.members[memberId].code), storeImages, c).0;
      && Agree(after) && after.members == s.members
      && after.faces.Keys <= s.faces.Keys + {c.imageId} && after.images <= s.images + {c.key}
  {
    var subject := SubjectFor(memberId, s.members[memberId].code);
    var (after, ok) := EnrolOne(s, memberId, subject, storeImages, c);
    if ok {
      var imageRef := if storeImages then Some(c.key) else None;
      SnocLinks(s, after, Template(memberId, Some(c.imageId), Some(subject), imageRef));
    }
  }

  function CaptureIds(captures: seq<Capture>): set<ImageId> {
    set i | 0 <= i < |captures| :: captures[i].imageId
  }

  function CaptureKeys(captures: seq<Capture>): set<StorageKey> {
    set i | 0 <= i < |captures| :: captures[i].key
  }

  /** The last photo's ids are new even after the photos before it. */
  lemma LastCapture(s: Stores, before: Stores, captures: seq<Capture>)
    requires |captures| > 0 && CleanCaptures(s, captures)
    requires before.faces.Keys <= s.faces.Keys + CaptureIds(captures[..|captures| - 1])
    requires before.images <= s.images + CaptureKeys(captures[..|captures| - 1])
    ensures CleanCaptures(s, captures[..|captures| - 1])
    ensures CleanCapture(before, captures[|captures| - 1])
    ensures CaptureIds(captures[..|captures| - 1]) + {captures[|captures| - 1].imageId} <= CaptureIds(captures)
    ensures CaptureKeys(captures[..|captures| - 1]) + {captures[|captures| - 1].key} <= CaptureKeys(captures)
  {
    var k := |captures| - 1;
    var front := captures[..k];
    forall i | 0 <= i < k ensures CleanCapture(s, front[i]) {
      assert CleanCapture(s, captures[i]);
    }
    assert CleanCapture(s, captures[k]);
  }

  lemma {:induction false} EnrolAllAgrees(s: Stores, memberId: MemberId, storeImages: bool, captures: seq<Capture>)
    requires Agree(s) && memberId in s.members && PlainId(memberId) && CleanCaptures(s, captures)
    ensures var after :=
        EnrolAll(s, memberId, SubjectFor(memberId, s.members[memberId].code), storeImages, captures).stores;
      && Agree(after) && after.members == s.members
      && after.faces.Keys <= s.faces.Keys + CaptureIds(captures)
      && after.images <= s.images + CaptureKeys(captures)
    decreases |captures|
  {
    if |captures| > 0 {
      var k := |captures| - 1;
      forall i | 0 <= i < k ensures CleanCapture(s, captures[..k][i]) {
        assert CleanCapture(s, captures[i]);
      }
      EnrolAllAgrees(s, memberId, storeImages, captures[..k]);
      var before :=
        EnrolAll(s, memberId, SubjectFor(memberId, s.members[memberId].code), storeImages, captures[..k]).stores;
      LastCapture(s, before, captures);
      EnrolOneAgrees(before, memberId, storeImages, captures[k]);
    }
  }

  // ------------------------------------------------------------------- erasing it all

  predicate CleanErase(f: EraseFaults, rows: nat) {
    && f.readable && f.deleteSubject == Fine && f.deleteRows == Fine && f.updateMember == Fine
    && forall k: nat :: k < rows ==> f.deleteImage(k) == Fine
  }

  predicate RefersTo(rows: seq<Template>, key: StorageKey) {
    exists k :: 0 <= k < |rows| && rows[k].imageRef.GetOr("") == key
  }

  lemma {:induction false} DeleteImagesAre(images: set<StorageKey>, rows: seq<Template>, fault: nat -> Fault)
    requires forall k: nat :: k < |rows| ==> fault(k) == Fine
    ensures forall key :: key in DeleteImages(images, rows, fault).0 <==>
      key in images && (key == "" || !RefersTo(rows, key))
    decreases |rows|
  {
    if |rows| > 0 {
      var k := |rows| - 1;
      DeleteImagesAre(images, rows[..k], fault);
      forall key ensures RefersTo(rows, key) <==> RefersTo(rows[..k], key) || rows[k].imageRef.GetOr("") == key {
        if RefersTo(rows[..k], key) {
          var i :| 0 <= i < k && rows[..k][i].imageRef.GetOr("") == key;
          assert rows[i].imageRef.GetOr("") == key;
        }
        if RefersTo(rows, key) && rows[k].imageRef.GetOr("") != key {
          var i :| 0 <= i < |rows| && rows[i].imageRef.GetOr("") == key;
          assert rows[..k][i] == rows[i];
        }
      }
    }
  }

  /** All rows of a member carry this subject, so it is the one that gets deleted. */
  lemma {:induction false} FirstSubjectIs(rows: seq<Template>, subject: Subject)
    requires |rows| > 0 && subject != "" && forall t :: t in rows ==> t.subject == Some(subject)
    ensures FirstSubject(rows) == Some(subject)
  {
    assert rows[0] in rows;
  }

  lemma {:induction false} RowsExceptDistinct(templates: seq<Template>, memberId: MemberId)
    requires DistinctLinks(templates)
    ensures DistinctLinks(RowsExcept(templates, memberId))
  {
    if templates != [] {
      RowsExceptDistinct(templates[1..], memberId);
      RowsExceptAre(templates[1..], memberId);
      var rest := RowsExcept(templates[1..], memberId);
      forall k | 0 <= k < |rest|
        ensures templates[0].imageId != rest[k].imageId
          && (templates[0].imageRef.Some? ==> templates[0].imageRef != rest[k].imageRef)
      {
        assert rest[k] in templates[1..];
        var j :| 0 <= j < |templates[1..]| && templates[1..][j] == rest[k];
        assert templates[j + 1] == rest[k];
      }
    }
  }

  /** There is a collection to erase from, or nothing to erase. */
  predicate Erasable(s: Stores, tenant: Tenant, memberId: MemberId) {
    tenant.apiKey.Some? || |RowsOf(s.templates, memberId)| == 0
  }

  /** The stores after an erasure in which nothing fails. */
  lemma CleanEraseIs(s: Stores, tenant: Tenant, memberId: MemberId, f: EraseFaults)
    requires Agree(s) && memberId in s.members && Erasable(s, tenant, memberId)
    requires CleanErase(f, |RowsOf(s.templates, memberId)|)
    ensures var rows := RowsOf(s.templates, memberId);
      var (after, result) := AfterErase(s, tenant, memberId, f);
      && result.Success? && result.value.comprefaceCleared && result.value.templatesRemoved == |rows|
      && SameConsent(s.members, after.members)
      && (|rows| == 0 ==> after == s)
      && (|rows| > 0 ==>
            && after.templates == RowsExcept(s.templates, memberId)
            && after.faces == DeleteSubject(s.faces, SubjectFor(memberId, s.members[memberId].code))
            && after.images == DeleteImages(s.images, rows, f.deleteImage).0)
  {
    if |RowsOf(s.templates, memberId)| > 0 {
      LinkedSubject(s, memberId);
    }
  }

  lemma LinkedSubject(s: Stores, memberId: MemberId)
    requires Agree(s) && memberId in s.members && |RowsOf(s.templates, memberId)| > 0
    ensures FirstSubject(RowsOf(s.templates, memberId)) == Some(SubjectFor(memberId, s.members[memberId].code))
  {
    var rows := RowsOf(s.templates, memberId);
    RowsOfAre(s.templates, memberId);
    forall t | t in rows ensures t.subject == Some(SubjectFor(memberId, s.members[memberId].code)) {
      assert Linked(s, t);
    }
    FirstSubjectIs(rows, SubjectFor(memberId, s.members[memberId].code));
  }

  lemma PhotosDiffer(s: Stores, t: Template, u: Template)
    requires Agree(s) && t in s.templates && u in s.templates && t.memberId != u.memberId && t.imageRef.Some?
    ensures u.imageRef.GetOr("") != t.imageRef.value
  {
    assert Linked(s, t);
    var j :| 0 <= j < |s.templates| && s.templates[j] == t;
    var k :| 0 <= k < |s.templates| && s.templates[k] == u;
    assert j < k || k < j;
  }

  /** No row of another member names the photo of this one. */
  lemma RefersElsewhere(s: Stores, memberId: MemberId, rows: seq<Template>, t: Template)
    requires Agree(s) && rows == RowsOf(s.templates, memberId)
    requires t in s.templates && t.memberId != memberId && t.imageRef.Some?
    ensures !RefersTo(rows, t.imageRef.value)
  {
    RowsOfAre(s.templates, memberId);
    forall i | 0 <= i < |rows| ensures rows[i].imageRef.GetOr("") != t.imageRef.value {
      assert rows[i] in rows;
      PhotosDiffer(s, t, rows[i]);
    }
  }

  /** A row that stays keeps its face and its photo. */
  lemma RowStays(s: Stores, s': Stores, memberId: MemberId, rows: seq<Template>, t: Template)
    requires Agree(s) && memberId in s.members && PlainId(memberId) && SameConsent(s.members, s'.members)
    requires rows == RowsOf(s.templates, memberId)
    requires s'.faces == DeleteSubject(s.faces, SubjectFor(memberId, s.members[memberId].code))
    requires forall key :: key in s'.images <==> key in s.images && (key == "" || !RefersTo(rows, key))
    requires t in s.templates && t.memberId != memberId
    ensures Linked(s', t)
  {
    assert Linked(s, t);
    SubjectsDiffer(memberId, s.members[memberId].code, t.memberId, s.members[t.memberId].code);
    RowsOfAre(s.templates, memberId);
    if t.imageRef.Some? {
      RefersElsewhere(s, memberId, rows, t);
    }
  }

  lemma RowRefers(rows: seq<Template>, t: Template)
    requires t in rows && t.imageRef.Some?
    ensures RefersTo(rows, t.imageRef.value)
  {
    var i :| 0 <= i < |rows| && rows[i] == t;
    assert rows[i].imageRef.GetOr("") == t.imageRef.value;
  }

  /** A face or a photo that stays still has its row. */
  lemma StoresStay(s: Stores, s': Stores, memberId: MemberId)
    requires Agree(s) && memberId in s.members && SameConsent(s.members, s'.members)
    requires s'.templates == RowsExcept(s.templates, memberId)
    requires s'.faces == DeleteSubject(s.faces, SubjectFor(memberId, s.members[memberId].code))
    requires forall key :: key in s'.images <==>
      key in s.images && (key == "" || !RefersTo(RowsOf(s.templates, memberId), key))
    ensures forall id :: id in s'.faces ==> HasFace(s'.templates, id)
    ensures forall key :: key in s'.images ==> HasImage(s'.templates, key)
  {
    RowsExceptAre(s.templates, memberId);
    RowsOfAre(s.templates, memberId);
    forall id | id in s'.faces ensures HasFace(s'.templates, id) {
      var k :| 0 <= k < |s.templates| && s.templates[k].imageId == Some(id);
      var t := s.templates[k];
      assert t in s.templates && Linked(s, t);
      assert t in s'.templates;
    }
    forall key | key in s'.images ensures HasImage(s'.templates, key) {
      var k :| 0 <= k < |s.templates| && s.templates[k].imageRef == Some(key);
      var t := s.templates[k];
      assert t in s.templates && Linked(s, t);
      if t.memberId == memberId {
        RowRefers(RowsOf(s.templates, memberId), t);
        assert false;
      }
      assert t in s'.templates;
    }
  }

  lemma CleanEraseAgrees(s: Stores, tenant: Tenant, memberId: MemberId, f: EraseFaults)
    requires Agree(s) && Erasable(s, tenant, memberId) && memberId in s.members && PlainId(memberId)
    requires CleanErase(f, |RowsOf(s.templates, memberId)|)
    ensures Agree(AfterErase(s, tenant, memberId, f).0)
  {
    var after := AfterErase(s, tenant, memberId, f).0;
    var rows := RowsOf(s.templates, memberId);
    CleanEraseIs(s, tenant, memberId, f);
    if |rows| > 0 {
      DeleteImagesAre(s.images, rows, f.deleteImage);
      RowsExceptAre(s.templates, memberId);
      RowsExceptDistinct(s.templates, memberId);
      StoresStay(s, after, memberId);
      forall t | t in after.templates ensures Linked(after, t) {
        RowStays(s, after, memberId, rows, t);
      }
    }
  }

  /** No row of the member and no face under its subject. */
  ghost predicate Erased(s: Stores, memberId: MemberId, subject: Subject) {
    && NoRows(s.templates, memberId)
    && (forall id :: id in s.faces ==> s.faces[id] != subject)
  }

  /**
   While nothing fails, an erasure empties all three stores for the member and
   leaves every other member's rows, faces and photos exactly as they were.
   */
  lemma CleanEraseEmpties(s: Stores, tenant: Tenant, memberId: MemberId, f: EraseFaults)
    requires Agree(s) && Erasable(s, tenant, memberId) && memberId in s.members && PlainId(memberId)
    requires CleanErase(f, |RowsOf(s.templates, memberId)|)
    ensures var subject := SubjectFor(memberId, s.members[memberId].code);
      var rows := RowsOf(s.templates, memberId);
      var (after, result) := AfterErase(s, tenant, memberId, f);
      && result.Success? && Erased(after, memberId, subject)
      && (forall t :: t in rows && t.imageRef.Some? ==> t.imageRef.value !in after.images)
      && (forall t :: t in s.templates && t.memberId != memberId ==> t in after.templates && Linked(after, t))
      && (forall id :: id in s.faces && s.faces[id] != subject ==> id in after.faces)
  {
    var rows := RowsOf(s.templates, memberId);
    var after := AfterErase(s, tenant, memberId, f).0;
    CleanEraseIs(s, tenant, memberId, f);
    CleanEraseAgrees(s, tenant, memberId, f);
    NoRowsOf(s.templates, memberId);
    RowsExceptAre(s.templates, memberId);
    RowsOfAre(s.templates, memberId);
    if |rows| == 0 {
      forall id | id in s.faces ensures s.faces[id] != SubjectFor(memberId, s.members[memberId].code) {
        FaceOfAnother(s, memberId, id);
      }
    } else {
      DeleteImagesAre(s.images, rows, f.deleteImage);
      forall t | t in rows && t.imageRef.Some? ensures t.imageRef.value !in after.images {
        assert Linked(s, t);
        RowRefers(rows, t);
      }
    }
  }

  lemma FaceOfAnother(s: Stores, memberId: MemberId, id: ImageId)
    requires Agree(s) && memberId in s.members && PlainId(memberId) && NoRows(s.templates, memberId) && id in s.faces
    ensures s.faces[id] != SubjectFor(memberId, s.members[memberId].code)
  {
    var k :| 0 <= k < |s.templates| && s.templates[k].imageId == Some(id);
    var t := s.templates[k];
    assert t in s.templates && Linked(s, t);
    SubjectsDiffer(memberId, s.members[memberId].code, t.memberId, s.members[t.memberId].code);
  }

  /** An event in which no call fails and no enrolled member's code changes. */
  predicate CleanEvent(s: Stores, tenant: Tenant, e: Event) {
    && PlainId(e.id)
    && match e
       case UpdateMember(id, code, _, _, _) =>
         id in s.members ==> code == s.members[id].code || NoRows(s.templates, id)
       case Enrol(_, captures, _, _, _) => CleanCaptures(s, captures)
       case Erase(id, f) => Erasable(s, tenant, id) && CleanErase(f, |RowsOf(s.templates, id)|)
       case Withdraw(id, f, update, _) =>
         Erasable(s, tenant, id) && CleanErase(f, |RowsOf(s.templates, id)|) && update == Fine
       case _ => true
  }

  /** Changes to members that leave the codes of enrolled members alone do not matter. */
  lemma SameCodesAgree(s: Stores, s': Stores)
    requires Agree(s) && s' == s.(members := s'.members)
    requires forall t :: t in s.templates ==>
      t.memberId in s'.members && s'.members[t.memberId].code == s.members[t.memberId].code
    ensures Agree(s')
  {
    forall t | t in s'.templates ensures Linked(s', t) {
      assert Linked(s, t);
    }
  }

  lemma AgreeRows(s: Stores)
    requires Agree(s)
    ensures forall t :: t in s.templates ==> t.memberId in s.members
  {
    forall t | t in s.templates ensures t.memberId in s.members {
      assert Linked(s, t);
    }
  }

  lemma EnrolAgrees(s: Stores, tenant: Tenant, id: MemberId, captures: seq<Capture>,
                    readable: bool, update: Fault, now: int)
    requires Agree(s) && PlainId(id) && CleanCaptures(s, captures)
    ensures Agree(AfterEnrol(s, tenant, id, captures, readable, update, now).0)
  {
    if Consented(s, id) {
      var p := EnrolAll(s, id, SubjectFor(id, s.members[id].code), !tenant.storeEmbeddingOnly, captures).stores;
      EnrolShape(s, tenant, id, captures, readable, update, now);
      EnrolAllAgrees(s, id, !tenant.storeEmbeddingOnly, captures);
      AgreeRows(p);
      SameCodesAgree(p, SetEnrolledAt(p, id, Some(now)));
    }
  }

  lemma WithdrawAgrees(s: Stores, tenant: Tenant, id: MemberId, f: EraseFaults, update: Fault, now: int)
    requires Agree(s) && Erasable(s, tenant, id) && PlainId(id) && CleanErase(f, |RowsOf(s.templates, id)|)
    ensures Agree(AfterWithdraw(s, tenant, id, f, update, now).0)
  {
    var (erased, report) := AfterErase(s, tenant, id, f);
    var after := AfterWithdraw(s, tenant, id, f, update, now).0;
    if id in s.members {
      CleanEraseAgrees(s, tenant, id, f);
      AgreeRows(erased);
      if after != erased {
        SameCodesAgree(erased, after);
      }
    }
  }

  lemma StepAgrees(s: Stores, tenant: Tenant, e: Event)
    requires Agree(s) && CleanEvent(s, tenant, e)
    ensures Agree(Step(s, tenant, e))
  {
    AgreeRows(s);
    match e
    case CreateMember(_, _, _, _) => SameCodesAgree(s, Step(s, tenant, e));
    case UpdateMember(id, _, _, _, _) =>
      if NoRows(s.templates, id) {
        RowsOfAre(s.templates, id);
      }
      SameCodesAgree(s, Step(s, tenant, e));
    case ImportMember(_, _) => SameCodesAgree(s, Step(s, tenant, e));
    case Record(_, _, _, _, _) => SameCodesAgree(s, Step(s, tenant, e));
    case Enrol(id, captures, readable, update, now) => EnrolAgrees(s, tenant, id, captures, readable, update, now);
    case Erase(id, f) =>
      if id in s.members {
        CleanEraseAgrees(s, tenant, id, f);
      }
    case Withdraw(id, f, update, now) => WithdrawAgrees(s, tenant, id, f, update, now);
  }

  predicate CleanRun(s: Stores, es: seq<(Tenant, Event)>)
    decreases |es|
  {
    |es| == 0 || (CleanEvent(s, es[0].0, es[0].1) && CleanRun(Step(s, es[0].0, es[0].1), es[1..]))
  }

  /** Over every run without failures the three stores stay in one-to-one agreement. */
  lemma {:induction false} AgreementHolds(s: Stores, es: seq<(Tenant, Event)>)
    requires Agree(s) && CleanRun(s, es)
    ensures Agree(Run(s, es))
    decreases |es|
  {
    if |es| > 0 {
      StepAgrees(s, es[0].0, es[0].1);
      AgreementHolds(Step(s, es[0].0, es[0].1), es[1..]);
    }
  }

  /** Rows come with a photo, or without one, as the setting of the day says; `before` is from earlier days. */
  ghost predicate PhotosAsSet(before: seq<Template>, after: seq<Template>, storeImages: bool) {
    forall t :: t in after ==> t in before || (t.imageRef.Some? <==> storeImages)
  }

  lemma {:induction false} EnrolAllPhotos(s: Stores, memberId: MemberId, subject: Subject, storeImages: bool,
                                          captures: seq<Capture>)
    ensures var after := EnrolAll(s, memberId, subject, storeImages, captures).stores;
      PhotosAsSet(s.templates, after.templates, storeImages)
    decreases |captures|
  {
    if |captures| > 0 {
      EnrolAllPhotos(s, memberId, subject, storeImages, captures[..|captures| - 1]);
    }
  }

  lemma StepPhotos(s: Stores, tenant: Tenant, e: Event)
    ensures PhotosAsSet(s.templates, Step(s, tenant, e).templates, !tenant.storeEmbeddingOnly)
  {
    match e
    case CreateMember(_, _, _, _) =>
    case UpdateMember(_, _, _, _, _) =>
    case ImportMember(_, _) =>
    case Enrol(id, captures, readable, update, now) =>
      if Consented(s, id) {
        EnrolAllPhotos(s, id, SubjectFor(id, s.members[id].code), !tenant.storeEmbeddingOnly, captures);
        EnrolShape(s, tenant, id, captures, readable, update, now);
      }
    case Erase(id, f) =>
      EraseShape(s, tenant, id, f);
      RowsExceptAre(s.templates, id);
    case Withdraw(id, f, _, _) =>
      EraseShape(s, tenant, id, f);
      RowsExceptAre(s.templates, id);
    case Record(_, _, _, _, _) =>
  }

  /**
   Over every run, whatever fails: while the tenant keeps photos every new row has
   one, and while it keeps embeddings only, none has.
   */
  lemma {:induction false} PhotosFollowSetting(s: Stores, es: seq<(Tenant, Event)>, storeImages: bool)
    requires forall i :: 0 <= i < |es| ==> es[i].0.storeEmbeddingOnly == !storeImages
    ensures PhotosAsSet(s.templates, Run(s, es).templates, storeImages)
    decreases |es|
  {
    if |es| > 0 {
      StepPhotos(s, es[0].0, es[0].1);
      PhotosFollowSetting(Step(s, es[0].0, es[0].1), es[1..], storeImages);
    }
  }
}
