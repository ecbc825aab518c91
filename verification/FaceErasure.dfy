/** What an erasure reaches when calls have failed, and whom it spares. */
module FaceErasure {
  import opened Common
  import opened FaceData
  import opened FaceTheorems

  // ------------------------------------------------------------ when calls do fail

  predicate NoFace(faces: map<ImageId, Subject>, subject: Subject) {
    forall id :: id in faces ==> faces[id] != subject
  }

  /**
   If `deleteSubject` throws, rows, photos and members are as they were and the
   caller is told. So nothing at all has changed, unless the engine had already
   deleted faces when its answer was lost; the rows are then still there to start
   the erasure again from.
   */
  lemma FailedEraseKeepsRows(s: Stores, tenant: Tenant, memberId: MemberId, f: EraseFaults)
    requires memberId in s.members && tenant.apiKey.Some? && f.readable && f.deleteSubject != Fine
    requires FirstSubject(RowsOf(s.templates, memberId)).Some?
    ensures var subject := FirstSubject(RowsOf(s.templates, memberId)).value;
      var (after, result) := AfterErase(s, tenant, memberId, f);
      && result == Failure(FaceEngineError)
      && after == s.(faces := after.faces)
      && (after == s <==> f.deleteSubject == Refused || NoFace(s.faces, subject))
      && (f.deleteSubject == LostReply ==> NoFace(after.faces, subject))
      && (forall id :: id in s.faces && s.faces[id] != subject ==> id in after.faces)
  {
    var subject := FirstSubject(RowsOf(s.templates, memberId)).value;
    assert |RowsOf(s.templates, memberId)| > 0;
    if NoFace(s.faces, subject) {
      assert DeleteSubject(s.faces, subject) == s.faces;
    } else {
      var id :| id in s.faces && s.faces[id] == subject;
      assert id !in DeleteSubject(s.faces, subject);
    }
  }

  /** The one subject an erasure sweeps: that of the first row that has one. */
  function Swept(s: Stores, tenant: Tenant, memberId: MemberId): Option<Subject> {
    if tenant.apiKey.Some? then FirstSubject(RowsOf(s.templates, memberId)) else None
  }

  lemma EraseFaces(s: Stores, tenant: Tenant, memberId: MemberId, f: EraseFaults)
    requires AfterErase(s, tenant, memberId, f).1.Success?
    ensures var (after, result) := AfterErase(s, tenant, memberId, f);
      var swept := Swept(s, tenant, memberId);
      && after.faces == (if swept.Some? then DeleteSubject(s.faces, swept.value) else s.faces)
      && (result.value.comprefaceCleared <==>
            tenant.apiKey.Some? || EveryRowFaceless(RowsOf(s.templates, memberId)))
  {
  }

  /** Every row of the member was enrolled under this subject. */
  ghost predicate OneSubject(s: Stores, memberId: MemberId, subject: Subject) {
    subject != "" && forall t :: t in s.templates && t.memberId == memberId ==> t.subject == Some(subject)
  }

  lemma SweptIs(s: Stores, tenant: Tenant, memberId: MemberId, subject: Subject)
    requires tenant.apiKey.Some? && OneSubject(s, memberId, subject)
    ensures Swept(s, tenant, memberId) == Some(subject) <==> !NoRows(s.templates, memberId)
  {
    NoRowsOf(s.templates, memberId);
    RowsOfAre(s.templates, memberId);
    if |RowsOf(s.templates, memberId)| > 0 {
      FirstSubjectIs(RowsOf(s.templates, memberId), subject);
    }
  }

  /**
   An erasure that reports leaves no face under a subject exactly when that is the
   subject it swept, or there was no such face. Where all the member's rows carry
   one subject, it is swept exactly when there is a row; then orphans of failed
   captures go too. Faces under other subjects always stay.
   */
  lemma EraseSweeps(s: Stores, tenant: Tenant, memberId: MemberId, subject: Subject, f: EraseFaults)
    requires AfterErase(s, tenant, memberId, f).1.Success?
    ensures var (after, result) := AfterErase(s, tenant, memberId, f);
      var swept := Swept(s, tenant, memberId);
      && (tenant.apiKey.Some? ==> result.value.comprefaceCleared)
      && (NoFace(after.faces, subject) <==> swept == Some(subject) || NoFace(s.faces, subject))
      && (tenant.apiKey.Some? && OneSubject(s, memberId, subject) ==>
            (swept == Some(subject) <==> !NoRows(s.templates, memberId)))
      && (forall id :: id in s.faces && swept != Some(s.faces[id]) ==>
            id in after.faces && after.faces[id] == s.faces[id])
  {
    EraseFaces(s, tenant, memberId, f);
    var (after, _) := AfterErase(s, tenant, memberId, f);
    var swept := Swept(s, tenant, memberId);
    if tenant.apiKey.Some? && OneSubject(s, memberId, subject) {
      SweptIs(s, tenant, memberId, subject);
    }
    if swept != Some(subject) && !NoFace(s.faces, subject) {
      var id :| id in s.faces && s.faces[id] == subject;
      assert id in after.faces && after.faces[id] == subject;
    }
  }

  /** A subject some code of the member gives: the engine would name this member for it. */
  ghost predicate Names(subject: Subject, memberId: MemberId) {
    exists code :: subject == SubjectFor(memberId, code)
  }

  /** No face in the collection can be matched to the member. */
  ghost predicate Unmatchable(faces: map<ImageId, Subject>, memberId: MemberId) {
    forall id :: id in faces ==> !Names(faces[id], memberId)
  }

  /**
   After an erasure that reports, the member can no longer be matched exactly when
   every face that could be was under the one subject that is swept.
   */
  lemma EraseClearsMember(s: Stores, tenant: Tenant, memberId: MemberId, f: EraseFaults)
    requires AfterErase(s, tenant, memberId, f).1.Success?
    ensures Unmatchable(AfterErase(s, tenant, memberId, f).0.faces, memberId)
       <==> forall id :: id in s.faces && Names(s.faces[id], memberId) ==>
              Swept(s, tenant, memberId) == Some(s.faces[id])
  {
    EraseFaces(s, tenant, memberId, f);
    var after := AfterErase(s, tenant, memberId, f).0;
    var swept := Swept(s, tenant, memberId);
    forall id | id in s.faces && Names(s.faces[id], memberId) && swept != Some(s.faces[id])
      ensures !Unmatchable(after.faces, memberId)
    {
      assert id in after.faces && after.faces[id] == s.faces[id];
    }
  }

  // ------------------------------------------------- whose faces an erasure sweeps

  /** Every row carries a subject that names its own member. */
  ghost predicate RowsNamed(s: Stores) {
    forall t :: t in s.templates ==> t.subject.Some? && Names(t.subject.value, t.memberId)
  }

  /** No subject names two members. */
  lemma NamesOne(subject: Subject, a: MemberId, b: MemberId)
    requires PlainId(a) && PlainId(b) && Names(subject, a) && Names(subject, b)
    ensures a == b
  {
    var codeA :| subject == SubjectFor(a, codeA);
    var codeB :| subject == SubjectFor(b, codeB);
    if a != b {
      SubjectsDiffer(a, codeA, b, codeB);
      assert false;
    }
  }

  lemma {:induction false} EnrolAllNames(s: Stores, memberId: MemberId, subject: Subject, storeImages: bool,
                                         captures: seq<Capture>)
    requires RowsNamed(s) && Names(subject, memberId)
    ensures RowsNamed(EnrolAll(s, memberId, subject, storeImages, captures).stores)
    decreases |captures|
  {
    if |captures| > 0 {
      EnrolAllNames(s, memberId, subject, storeImages, captures[..|captures| - 1]);
    }
  }

  lemma StepKeepsNames(s: Stores, tenant: Tenant, e: Event)
    requires RowsNamed(s)
    ensures RowsNamed(Step(s, tenant, e))
  {
    match e
    case CreateMember(_, _, _, _) =>
    case UpdateMember(_, _, _, _, _) =>
    case ImportMember(_, _) =>
    case Enrol(id, captures, readable, update, now) =>
      if Consented(s, id) {
        var subject := SubjectFor(id, s.members[id].code);
        assert Names(subject, id);
        EnrolAllNames(s, id, subject, !tenant.storeEmbeddingOnly, captures);
        EnrolShape(s, tenant, id, captures, readable, update, now);
      }
    case Erase(id, f) =>
      EraseShape(s, tenant, id, f);
      RowsExceptAre(s.templates, id);
    case Withdraw(id, f, _, _) =>
      EraseShape(s, tenant, id, f);
      RowsExceptAre(s.templates, id);
    case Record(_, _, _, _, _) =>
  }

  /** Over every run, whatever fails and whatever codes change, rows name their own members. */
  lemma {:induction false} RunKeepsNames(s: Stores, es: seq<(Tenant, Event)>)
    requires RowsNamed(s)
    ensures RowsNamed(Run(s, es))
    decreases |es|
  {
    if |es| > 0 {
      StepKeepsNames(s, es[0].0, es[0].1);
      RunKeepsNames(Step(s, es[0].0, es[0].1), es[1..]);
    }
  }

  lemma {:induction false} FirstSubjectIn(rows: seq<Template>)
    requires FirstSubject(rows).Some?
    ensures exists t :: t in rows && t.subject == FirstSubject(rows)
  {
    if rows[0].subject.GetOr("") != "" {
      assert rows[0] in rows;
    } else {
      FirstSubjectIn(rows[1..]);
      var t :| t in rows[1..] && t.subject == FirstSubject(rows[1..]);
      assert t in rows;
    }
  }

  lemma SweptIsOwn(s: Stores, tenant: Tenant, memberId: MemberId)
    requires RowsNamed(s) && Swept(s, tenant, memberId).Some?
    ensures Names(Swept(s, tenant, memberId).value, memberId)
  {
    var rows := RowsOf(s.templates, memberId);
    FirstSubjectIn(rows);
    RowsOfAre(s.templates, memberId);
    var t :| t in rows && t.subject == FirstSubject(rows);
    assert t in s.templates;
  }

  lemma EraseFacesEither(s: Stores, tenant: Tenant, memberId: MemberId, f: EraseFaults)
    ensures var after := AfterErase(s, tenant, memberId, f).0;
      var swept := Swept(s, tenant, memberId);
      after.faces == s.faces || (swept.Some? && after.faces == DeleteSubject(s.faces, swept.value))
  {
  }

  /**
   In any state a run reaches, failures or not, an erasure never takes another
   member's rows or faces, whether it reports or throws.
   */
  lemma EraseSparesOthers(es: seq<(Tenant, Event)>, tenant: Tenant, memberId: MemberId, other: MemberId, f: EraseFaults)
    requires PlainId(memberId) && PlainId(other) && memberId != other
    ensures var s := Run(NOTHING, es);
      var after := AfterErase(s, tenant, memberId, f).0;
      && (forall t :: t in s.templates && t.memberId == other ==> t in after.templates)
      && (forall id :: id in s.faces && Names(s.faces[id], other) ==>
            id in after.faces && after.faces[id] == s.faces[id])
  {
    var s := Run(NOTHING, es);
    RunKeepsNames(NOTHING, es);
    EraseShape(s, tenant, memberId, f);
    EraseFacesEither(s, tenant, memberId, f);
    RowsExceptAre(s.templates, memberId);
    var swept := Swept(s, tenant, memberId);
    if swept.Some? {
      SweptIsOwn(s, tenant, memberId);
      forall id | id in s.faces && Names(s.faces[id], other) ensures s.faces[id] != swept.value {
        if s.faces[id] == swept.value {
          NamesOne(swept.value, memberId, other);
          assert false;
        }
      }
    }
  }

  /** No members, no rows, no faces, no photos. */
  const NOTHING := Stores(map[], [], map[], {})

  /** No two members share a stored photo. */
  ghost predicate PhotosApart(templates: seq<Template>) {
    forall t, u :: t in templates && u in templates && t.memberId != u.memberId && t.imageRef.Some? ==>
      t.imageRef != u.imageRef
  }

  /** The keys of new photos are new: each ends in a fresh UUID. */
  ghost predicate FreshKeys(s: Stores, e: Event) {
    e.Enrol? ==> forall i, t :: 0 <= i < |e.captures| && t in s.templates ==> t.imageRef != Some(e.captures[i].key)
  }

  /** A row of `after` is an old one, or one of the member with a photo among the captures, if any. */
  ghost predicate RowsAdded(before: seq<Template>, after: seq<Template>, memberId: MemberId, captures: seq<Capture>) {
    forall t :: t in after ==>
      || t in before
      || (t.memberId == memberId && (t.imageRef.Some? ==> t.imageRef.value in CaptureKeys(captures)))
  }

  lemma {:induction false} EnrolAllAdds(s: Stores, memberId: MemberId, subject: Subject, storeImages: bool,
                                        captures: seq<Capture>)
    ensures RowsAdded(s.templates, EnrolAll(s, memberId, subject, storeImages, captures).stores.templates,
                      memberId, captures)
    decreases |captures|
  {
    if |captures| > 0 {
      var k := |captures| - 1;
      EnrolAllAdds(s, memberId, subject, storeImages, captures[..k]);
      assert CaptureKeys(captures[..k]) <= CaptureKeys(captures);
      assert captures[k].key in CaptureKeys(captures);
    }
  }

  lemma AddedApart(before: seq<Template>, after: seq<Template>, memberId: MemberId, captures: seq<Capture>)
    requires PhotosApart(before) && RowsAdded(before, after, memberId, captures)
    requires forall i, t :: 0 <= i < |captures| && t in before ==> t.imageRef != Some(captures[i].key)
    ensures PhotosApart(after)
  {
  }

  lemma FewerApart(before: seq<Template>, after: seq<Template>)
    requires PhotosApart(before) && forall t :: t in after ==> t in before
    ensures PhotosApart(after)
  {
  }

  lemma StepKeepsApart(s: Stores, tenant: Tenant, e: Event)
    requires PhotosApart(s.templates) && FreshKeys(s, e)
    ensures PhotosApart(Step(s, tenant, e).templates)
  {
    match e
    case CreateMember(_, _, _, _) =>
    case UpdateMember(_, _, _, _, _) =>
    case ImportMember(_, _) =>
    case Enrol(id, captures, readable, update, now) =>
      if Consented(s, id) {
        var subject := SubjectFor(id, s.members[id].code);
        var p := EnrolAll(s, id, subject, !tenant.storeEmbeddingOnly, captures).stores;
        EnrolAllAdds(s, id, subject, !tenant.storeEmbeddingOnly, captures);
        EnrolShape(s, tenant, id, captures, readable, update, now);
        AddedApart(s.templates, p.templates, id, captures);
      }
    case Erase(id, f) =>
      EraseShape(s, tenant, id, f);
      RowsExceptAre(s.templates, id);
      FewerApart(s.templates, Step(s, tenant, e).templates);
    case Withdraw(id, f, _, _) =>
      EraseShape(s, tenant, id, f);
      RowsExceptAre(s.templates, id);
      FewerApart(s.templates, Step(s, tenant, e).templates);
    case Record(_, _, _, _, _) =>
  }

  ghost predicate FreshRun(s: Stores, es: seq<(Tenant, Event)>)
    decreases |es|
  {
    |es| == 0 || (FreshKeys(s, es[0].1) && FreshRun(Step(s, es[0].0, es[0].1), es[1..]))
  }

  lemma {:induction false} RunKeepsApart(s: Stores, es: seq<(Tenant, Event)>)
    requires PhotosApart(s.templates) && FreshRun(s, es)
    ensures PhotosApart(Run(s, es).templates)
    decreases |es|
  {
    if |es| > 0 {
      StepKeepsApart(s, es[0].0, es[0].1);
      RunKeepsApart(Step(s, es[0].0, es[0].1), es[1..]);
    }
  }

  lemma {:induction false} UnnamedPhotoStays(images: set<StorageKey>, rows: seq<Template>, fault: nat -> Fault,
                                             key: StorageKey)
    requires key in images && forall t :: t in rows ==> t.imageRef != Some(key)
    ensures key in DeleteImages(images, rows, fault).0
    decreases |rows|
  {
    if |rows| > 0 {
      var k := |rows| - 1;
      assert rows[k] in rows;
      UnnamedPhotoStays(images, rows[..k], fault, key);
    }
  }

  lemma EraseImagesEither(s: Stores, tenant: Tenant, memberId: MemberId, f: EraseFaults)
    ensures var after := AfterErase(s, tenant, memberId, f).0;
      after.images == s.images || after.images == DeleteImages(s.images, RowsOf(s.templates, memberId), f.deleteImage).0
  {
  }

  /** Nor does it take another member's photos, in any state a run with fresh photo keys reaches. */
  lemma EraseSparesPhotos(es: seq<(Tenant, Event)>, tenant: Tenant, memberId: MemberId, f: EraseFaults, t: Template)
    requires FreshRun(NOTHING, es) && t in Run(NOTHING, es).templates && t.memberId != memberId
    requires t.imageRef.Some? && t.imageRef.value in Run(NOTHING, es).images
    ensures t.imageRef.value in AfterErase(Run(NOTHING, es), tenant, memberId, f).0.images
  {
    var s := Run(NOTHING, es);
    RunKeepsApart(NOTHING, es);
    EraseImagesEither(s, tenant, memberId, f);
    RowsOfAre(s.templates, memberId);
    UnnamedPhotoStays(s.images, RowsOf(s.templates, memberId), f.deleteImage, t.imageRef.value);
  }

  /** All the member's rows, and all faces that name it, carry the subject of its present code. */
  ghost predicate OneName(s: Stores, id: MemberId) {
    if id in s.members then NamedOnly(s, id, SubjectFor(id, s.members[id].code))
    else NoRows(s.templates, id) && Unmatchable(s.faces, id)
  }

  ghost predicate NamedOnly(s: Stores, id: MemberId, subject: Subject) {
    && (forall t :: t in s.templates && t.memberId == id ==> t.subject == Some(subject))
    && (forall face :: face in s.faces && Names(s.faces[face], id) ==> s.faces[face] == subject)
  }

  lemma EnrolOneNamedOnly(s: Stores, id: MemberId, subject: Subject, memberId: MemberId, subject': Subject,
                          storeImages: bool, c: Capture)
    requires NamedOnly(s, id, subject) && (if id == memberId then subject' == subject else !Names(subject', id))
    ensures NamedOnly(EnrolOne(s, memberId, subject', storeImages, c).0, id, subject)
  {
  }

  lemma {:induction false} EnrolAllNamedOnly(s: Stores, id: MemberId, subject: Subject, memberId: MemberId,
                                             subject': Subject, storeImages: bool, captures: seq<Capture>)
    requires NamedOnly(s, id, subject) && (if id == memberId then subject' == subject else !Names(subject', id))
    ensures NamedOnly(EnrolAll(s, memberId, subject', storeImages, captures).stores, id, subject)
    decreases |captures|
  {
    if |captures| > 0 {
      var k := |captures| - 1;
      EnrolAllNamedOnly(s, id, subject, memberId, subject', storeImages, captures[..k]);
      EnrolOneNamedOnly(EnrolAll(s, memberId, subject', storeImages, captures[..k]).stores, id, subject,
                        memberId, subject', storeImages, captures[k]);
    }
  }

  lemma EnrolOneSpares(s: Stores, id: MemberId, memberId: MemberId, subject: Subject, storeImages: bool, c: Capture)
    requires id != memberId && !Names(subject, id) && NoRows(s.templates, id) && Unmatchable(s.faces, id)
    ensures var after := EnrolOne(s, memberId, subject, storeImages, c).0;
      NoRows(after.templates, id) && Unmatchable(after.faces, id)
  {
  }

  lemma {:induction false} EnrolAllSpares(s: Stores, id: MemberId, memberId: MemberId, subject: Subject,
                                          storeImages: bool, captures: seq<Capture>)
    requires id != memberId && !Names(subject, id) && NoRows(s.templates, id) && Unmatchable(s.faces, id)
    ensures var after := EnrolAll(s, memberId, subject, storeImages, captures).stores;
      NoRows(after.templates, id) && Unmatchable(after.faces, id)
    decreases |captures|
  {
    if |captures| > 0 {
      var k := |captures| - 1;
      EnrolAllSpares(s, id, memberId, subject, storeImages, captures[..k]);
      EnrolOneSpares(EnrolAll(s, memberId, subject, storeImages, captures[..k]).stores, id, memberId, subject,
                     storeImages, captures[k]);
    }
  }

  lemma {:induction false} EnrolAllMembers(s: Stores, memberId: MemberId, subject: Subject, storeImages: bool,
                                           captures: seq<Capture>)
    ensures EnrolAll(s, memberId, subject, storeImages, captures).stores.members == s.members
    decreases |captures|
  {
    if |captures| > 0 {
      EnrolAllMembers(s, memberId, subject, storeImages, captures[..|captures| - 1]);
    }
  }

  lemma OtherName(a: MemberId, code: string, b: MemberId)
    requires PlainId(a) && PlainId(b) && a != b
    ensures !Names(SubjectFor(a, code), b)
  {
    if Names(SubjectFor(a, code), b) {
      assert Names(SubjectFor(a, code), a);
      NamesOne(SubjectFor(a, code), a, b);
      assert false;
    }
  }

  lemma EnrolAllOneName(s: Stores, id: MemberId, memberId: MemberId, storeImages: bool, captures: seq<Capture>)
    requires OneName(s, id) && memberId in s.members && PlainId(id) && PlainId(memberId)
    ensures var subject := SubjectFor(memberId, s.members[memberId].code);
      OneName(EnrolAll(s, memberId, subject, storeImages, captures).stores, id)
  {
    var subject := SubjectFor(memberId, s.members[memberId].code);
    EnrolAllMembers(s, memberId, subject, storeImages, captures);
    if id != memberId {
      OtherName(memberId, s.members[memberId].code, id);
    }
    if id in s.members {
      EnrolAllNamedOnly(s, id, SubjectFor(id, s.members[id].code), memberId, subject, storeImages, captures);
    } else {
      EnrolAllSpares(s, id, memberId, subject, storeImages, captures);
    }
  }

  /** The event leaves the member's code alone, unless nothing yet carries it. */
  ghost predicate KeepsCode(s: Stores, e: Event, id: MemberId) {
    && PlainId(e.id)
    && (e.UpdateMember? && e.id == id && id in s.members ==>
          e.code == s.members[id].code || (NoRows(s.templates, id) && Unmatchable(s.faces, id)))
  }

  /** Fewer rows and fewer faces, and the same codes: still one name. */
  lemma FewerOneName(s: Stores, s': Stores, id: MemberId)
    requires OneName(s, id) && SameConsent(s.members, s'.members)
    requires forall t :: t in s'.templates ==> t in s.templates
    requires forall face :: face in s'.faces ==> face in s.faces && s'.faces[face] == s.faces[face]
    ensures OneName(s', id)
  {
    if id !in s.members {
      forall k | 0 <= k < |s'.templates| ensures s'.templates[k].memberId != id {
        assert s'.templates[k] in s.templates;
      }
    }
  }

  lemma EraseOneName(s: Stores, tenant: Tenant, memberId: MemberId, f: EraseFaults, id: MemberId)
    requires OneName(s, id)
    ensures OneName(AfterErase(s, tenant, memberId, f).0, id)
  {
    EraseShape(s, tenant, memberId, f);
    EraseFacesEither(s, tenant, memberId, f);
    RowsExceptAre(s.templates, memberId);
    FewerOneName(s, AfterErase(s, tenant, memberId, f).0, id);
  }

  /** A member's new code, with nothing enrolled under the old one, or a member that is new itself. */
  lemma NothingYet(s: Stores, id: MemberId)
    requires NoRows(s.templates, id) && Unmatchable(s.faces, id)
    ensures OneName(s, id)
  {
    forall t | t in s.templates ensures t.memberId != id {
      var k :| 0 <= k < |s.templates| && s.templates[k] == t;
    }
  }

  /** Members change, and `id` keeps its code. */
  lemma MembersOneName(s: Stores, s': Stores, id: MemberId)
    requires OneName(s, id) && s' == s.(members := s'.members)
    requires if id in s.members then id in s'.members && s'.members[id].code == s.members[id].code
             else id !in s'.members
    ensures OneName(s', id)
  {
  }

  lemma MemberStepOneName(s: Stores, tenant: Tenant, e: Event, id: MemberId)
    requires OneName(s, id) && KeepsCode(s, e, id)
    requires e.CreateMember? || e.UpdateMember? || e.ImportMember? || e.Record?
    ensures OneName(Step(s, tenant, e), id)
  {
    var s' := Step(s, tenant, e);
    if NoRows(s.templates, id) && Unmatchable(s.faces, id) {
      NothingYet(s', id);
    } else {
      MembersOneName(s, s', id);
    }
  }

  lemma EnrolOneName(s: Stores, tenant: Tenant, memberId: MemberId, captures: seq<Capture>, readable: bool,
                     update: Fault, now: int, id: MemberId)
    requires OneName(s, id) && PlainId(id) && PlainId(memberId)
    ensures OneName(AfterEnrol(s, tenant, memberId, captures, readable, update, now).0, id)
  {
    if Consented(s, memberId) {
      var subject := SubjectFor(memberId, s.members[memberId].code);
      var p := EnrolAll(s, memberId, subject, !tenant.storeEmbeddingOnly, captures).stores;
      EnrolAllMembers(s, memberId, subject, !tenant.storeEmbeddingOnly, captures);
      EnrolAllOneName(s, id, memberId, !tenant.storeEmbeddingOnly, captures);
      EnrolShape(s, tenant, memberId, captures, readable, update, now);
      MembersOneName(p, SetEnrolledAt(p, memberId, Some(now)), id);
    }
  }

  lemma WithdrawOneName(s: Stores, tenant: Tenant, memberId: MemberId, f: EraseFaults, update: Fault, now: int,
                        id: MemberId)
    requires OneName(s, id)
    ensures OneName(AfterWithdraw(s, tenant, memberId, f, update, now).0, id)
  {
    EraseOneName(s, tenant, memberId, f, id);
    var erased := AfterErase(s, tenant, memberId, f).0;
    MembersOneName(erased, AfterWithdraw(s, tenant, memberId, f, update, now).0, id);
  }

  lemma StepKeepsOneName(s: Stores, tenant: Tenant, e: Event, id: MemberId)
    requires OneName(s, id) && PlainId(id) && KeepsCode(s, e, id)
    ensures OneName(Step(s, tenant, e), id)
  {
    match e
    case CreateMember(_, _, _, _) => MemberStepOneName(s, tenant, e, id);
    case UpdateMember(_, _, _, _, _) => MemberStepOneName(s, tenant, e, id);
    case ImportMember(_, _) => MemberStepOneName(s, tenant, e, id);
    case Enrol(memberId, captures, readable, update, now) =>
      EnrolOneName(s, tenant, memberId, captures, readable, update, now, id);
    case Erase(memberId, f) => EraseOneName(s, tenant, memberId, f, id);
    case Withdraw(memberId, f, update, now) => WithdrawOneName(s, tenant, memberId, f, update, now, id);
    case Record(_, _, _, _, _) => MemberStepOneName(s, tenant, e, id);
  }

  ghost predicate CodeKept(s: Stores, es: seq<(Tenant, Event)>, id: MemberId)
    decreases |es|
  {
    |es| == 0 || (KeepsCode(s, es[0].1, id) && CodeKept(Step(s, es[0].0, es[0].1), es[1..], id))
  }

  /** Over every run in which the member's code stays, whatever fails. */
  lemma {:induction false} RunKeepsOneName(s: Stores, es: seq<(Tenant, Event)>, id: MemberId)
    requires OneName(s, id) && PlainId(id) && CodeKept(s, es, id)
    ensures OneName(Run(s, es), id)
    decreases |es|
  {
    if |es| > 0 {
      StepKeepsOneName(s, es[0].0, es[0].1, id);
      RunKeepsOneName(Step(s, es[0].0, es[0].1), es[1..], id);
    }
  }

  lemma OneNameSwept(s: Stores, tenant: Tenant, id: MemberId)
    requires OneName(s, id) && tenant.apiKey.Some? && id in s.members && !NoRows(s.templates, id)
    ensures Swept(s, tenant, id) == Some(SubjectFor(id, s.members[id].code))
  {
    var subject := SubjectFor(id, s.members[id].code);
    assert |subject| > 0;
    SweptIs(s, tenant, id, subject);
  }

  lemma {:induction false} FirstSubjectNone(rows: seq<Template>)
    requires |rows| == 0
    ensures FirstSubject(rows) == None
  {
  }

  /**
   After any run in which the member's code stays, whatever calls failed in it: an
   erasure that reports leaves the member unmatchable exactly when it found a row,
   or the member was unmatchable already. With a row it takes the orphans of
   failed captures along.
   */
  lemma ErasedAfterRun(es: seq<(Tenant, Event)>, tenant: Tenant, id: MemberId, f: EraseFaults)
    requires PlainId(id) && tenant.apiKey.Some? && CodeKept(NOTHING, es, id)
    requires AfterErase(Run(NOTHING, es), tenant, id, f).1.Success?
    ensures var s := Run(NOTHING, es);
      Unmatchable(AfterErase(s, tenant, id, f).0.faces, id)
      <==> !NoRows(s.templates, id) || Unmatchable(s.faces, id)
  {
    var s := Run(NOTHING, es);
    RunKeepsOneName(NOTHING, es, id);
    EraseClearsMember(s, tenant, id, f);
    if NoRows(s.templates, id) {
      NoRowsOf(s.templates, id);
      FirstSubjectNone(RowsOf(s.templates, id));
    } else {
      OneNameSwept(s, tenant, id);
    }
  }

  // ----------------------------------------------------------- a code that changes

  /** One photo goes through, the other is too large. */
  function OnePhoto(imageId: ImageId): seq<Capture> {
    [Capture(false, Live, Fine, Fine, Fine, imageId, "k"), Capture(true, Live, Fine, Fine, Fine, "none", "l")]
  }

  /** A face and its row, without a stored photo. */
  function WithFaceOnly(s: Stores, memberId: MemberId, subject: Subject, imageId: ImageId): Stores {
    WithRow(WithFace(s, imageId, subject), Template(memberId, Some(imageId), Some(subject), None))
  }

  lemma OnePhotoEnrolls(s: Stores, memberId: MemberId, subject: Subject, imageId: ImageId)
    ensures EnrolAll(s, memberId, subject, false, OnePhoto(imageId))
         == Progress(WithFaceOnly(s, memberId, subject, imageId), 1, [1])
  {
    var captures := OnePhoto(imageId);
    EnrolSnoc(s, memberId, subject, false, [], captures[0]);
    EnrolSnoc(s, memberId, subject, false, [captures[0]], captures[1]);
    assert [] + [captures[0]] == [captures[0]] && [captures[0]] + [captures[1]] == captures;
  }

  lemma EnrolsOne(s: Stores, tenant: Tenant, id: MemberId, imageId: ImageId, now: int)
    requires Consented(s, id) && tenant.apiKey.Some? && tenant.storeEmbeddingOnly
    ensures var subject := SubjectFor(id, s.members[id].code);
      Step(s, tenant, Enrol(id, OnePhoto(imageId), true, Fine, now))
      == SetEnrolledAt(WithFaceOnly(s, id, subject, imageId), id, Some(now))
  {
    OnePhotoEnrolls(s, id, SubjectFor(id, s.members[id].code), imageId);
  }

  /** A member is created with consent, enrolled, given another code, and enrolled again. */
  function CodeChange(tenant: Tenant): seq<(Tenant, Event)> {
    [(tenant, CreateMember("m", "7", Some(Consent(true, "v1")), 0)),
     (tenant, Enrol("m", OnePhoto("face-1"), true, Fine, 1)),
     (tenant, UpdateMember("m", "8", None, Fine, 2)),
     (tenant, Enrol("m", OnePhoto("face-2"), true, Fine, 3))]
  }

  lemma RunFour(s: Stores, es: seq<(Tenant, Event)>)
    requires |es| == 4
    ensures Run(s, es)
         == Step(Step(Step(Step(s, es[0].0, es[0].1), es[1].0, es[1].1), es[2].0, es[2].1), es[3].0, es[3].1)
  {
    var s1 := Step(s, es[0].0, es[0].1);
    var s2 := Step(s1, es[1].0, es[1].1);
    var s3 := Step(s2, es[2].0, es[2].1);
    var s4 := Step(s3, es[3].0, es[3].1);
    assert es[1..][1..] == es[2..] && es[2..][1..] == es[3..] && es[3..][1..] == [];
    assert Run(s3, es[3..]) == Run(s4, []) == s4;
    assert Run(s2, es[2..]) == Run(s3, es[3..]);
    assert Run(s1, es[1..]) == Run(s2, es[2..]);
  }

  lemma CodeChangeRun(tenant: Tenant) returns (s: Stores)
    requires tenant.apiKey.Some? && tenant.storeEmbeddingOnly
    ensures s == Run(NOTHING, CodeChange(tenant))
    ensures s == Stores(map["m" := Member("8", Some(0), Some("v1"), None, Some(3))],
                        [Template("m", Some("face-1"), Some(SubjectFor("m", "7")), None),
                         Template("m", Some("face-2"), Some(SubjectFor("m", "8")), None)],
                        map["face-1" := SubjectFor("m", "7"), "face-2" := SubjectFor("m", "8")], {})
  {
    var es := CodeChange(tenant);
    var created := Step(NOTHING, tenant, es[0].1);
    EnrolsOne(created, tenant, "m", "face-1", 1);
    var enrolled := Step(created, tenant, es[1].1);
    var changed := Step(enrolled, tenant, es[2].1);
    EnrolsOne(changed, tenant, "m", "face-2", 3);
    s := Step(changed, tenant, es[3].1);
    RunFour(NOTHING, es);
  }

  /**
   One way to fail: the member's code changed between two enrolments, so its rows
   carry two subjects. The withdrawal deletes both rows and reports the engine
   cleared, and the face enrolled under the present code is still there.
   */
  lemma CodeChangeLeavesFace() returns (tenant: Tenant, f: EraseFaults)
    ensures var s := Run(NOTHING, CodeChange(tenant));
      var (after, result) := AfterWithdraw(s, tenant, "m", f, Fine, 4);
      && "m" in s.members && s.members["m"].code == "8"
      && result == Success(Report(2, 0, true))
      && after.templates == [] && "m" in after.members && after.members["m"].consentAt == None
      && "face-2" in after.faces && after.faces["face-2"] == SubjectFor("m", "8")
      && !Unmatchable(after.faces, "m")
  {
    tenant := Tenant(Some("key"), true);
    f := EraseFaults(true, Fine, k => Fine, Fine, Fine);
    var s := CodeChangeRun(tenant);
    TwoRows(s.templates[0], s.templates[1], "m");
    assert s.templates == [s.templates[0], s.templates[1]];
    NoPhotos(s.templates, f.deleteImage);
    SubjectsByCode();
    assert Swept(s, tenant, "m") == Some(SubjectFor("m", "7"));
    EraseFaces(s, tenant, "m", f);
    var after := AfterWithdraw(s, tenant, "m", f, Fine, 4).0;
    assert Names(after.faces["face-2"], "m");
  }

  lemma SubjectsByCode()
    ensures SubjectFor("m", "7") == "m|7" && SubjectFor("m", "8") == "m|8"
  {
  }

  lemma TwoRows(first: Template, second: Template, memberId: MemberId)
    requires first.memberId == memberId && second.memberId == memberId
    ensures RowsOf([first, second], memberId) == [first, second]
    ensures RowsExcept([first, second], memberId) == []
  {
    assert [first, second][1..] == [second] && [second][1..] == [];
    assert RowsOf([second], memberId) == [second] && RowsExcept([second], memberId) == [];
  }

  lemma {:induction false} NoPhotos(rows: seq<Template>, fault: nat -> Fault)
    requires forall k :: 0 <= k < |rows| ==> rows[k].imageRef.None?
    ensures DeleteImages({}, rows, fault) == ({}, 0)
    decreases |rows|
  {
    if |rows| > 0 {
      NoPhotos(rows[..|rows| - 1], fault);
    }
  }

  lemma EnrolSnoc(s: Stores, memberId: MemberId, subject: Subject, storeImages: bool,
                  front: seq<Capture>, c: Capture)
    ensures var before := EnrolAll(s, memberId, subject, storeImages, front);
      var (stores, ok) := EnrolOne(before.stores, memberId, subject, storeImages, c);
      EnrolAll(s, memberId, subject, storeImages, front + [c])
      == if ok then Progress(stores, before.enrolled + 1, before.failed)
         else Progress(stores, before.enrolled, before.failed + [|front|])
  {
    assert (front + [c])[..|front|] == front;
  }

  /**
   The failing case exists: two photos reach the engine, storage is down, so no
   row is written; withdrawing consent then reports the engine cleared, although
   both faces can still be matched.
   */
  lemma OrphanSurvivesWithdrawal() returns (s: Stores, tenant: Tenant, captures: seq<Capture>, f: EraseFaults)
    ensures Lawful(s) && Agree(s)
    ensures var enrolled := AfterEnrol(s, tenant, "m", captures, true, Fine, 1).0;
      var (after, result) := AfterWithdraw(enrolled, tenant, "m", f, Fine, 2);
      && result == Success(Report(0, 0, true)) && after.members["m"].consentAt == None
      && "face-1" in after.faces && after.faces["face-1"] == SubjectFor("m", "7")
  {
    s := Stores(map["m" := Member("7", Some(0), Some("v1"), None, None)], [], map[], {});
    tenant := Tenant(Some("key"), false);
    captures := [Capture(false, Live, Fine, Refused, Fine, "face-1", "a"),
                 Capture(false, Live, Fine, Refused, Fine, "face-2", "b")];
    f := EraseFaults(true, Fine, k => Fine, Fine, Fine);
    var subject := SubjectFor("m", "7");
    EnrolSnoc(s, "m", subject, true, [], captures[0]);
    EnrolSnoc(s, "m", subject, true, [captures[0]], captures[1]);
    assert [] + [captures[0]] == [captures[0]] && [captures[0]] + [captures[1]] == captures;
    assert RowsOf([], "m") == [];
  }
}
