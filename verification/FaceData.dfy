/**
 The life of biometric data: a face lives in the CompreFace collection, as an
 image in storage, and as a row. Enrolment, erasure and consent act on all three,
 and any call that leaves the process may fail, before or after taking effect.
 */
module FaceData {
  import opened Common

  type MemberId = string
  type Subject = string
  type ImageId = string
  type StorageKey = string

  datatype Member = Member(
    code: string, consentAt: Option<int>, consentVersion: Option<string>,
    consentWithdrawnAt: Option<int>, faceEnrolledAt: Option<int>)

  datatype Template = Template(
    memberId: MemberId, imageId: Option<ImageId>, subject: Option<Subject>, imageRef: Option<StorageKey>)

  /** The member rows, the template rows, the tenant's face collection, the stored photos. */
  datatype Stores = Stores(
    members: map<MemberId, Member>, templates: seq<Template>,
    faces: map<ImageId, Subject>, images: set<StorageKey>)

  /** How an external call ends. A lost reply means it took effect and still threw. */
  datatype Fault = Fine | Refused | LostReply

  // ------------------------------------------------------------------- subjects

  /** `subjectFor`: the member id, a bar, the code, cut to 200 characters. */
  function SubjectFor(memberId: MemberId, code: string): Subject {
    var full := memberId + "|" + code;
    if |full| <= 200 then full else full[..200]
  }

  /** A member id is a UUID: short, and without a bar. */
  predicate PlainId(id: MemberId) {
    |id| < 200 && forall i :: 0 <= i < |id| ==> id[i] != '|'
  }

  /** The first bar of a subject stands right after the member id. */
  lemma BarAt(id: MemberId, code: string)
    requires PlainId(id)
    ensures var s := SubjectFor(id, code);
      |s| > |id| && s[|id|] == '|' && s[..|id|] == id && forall i :: 0 <= i < |id| ==> s[i] != '|'
  {
  }

  /** Different members have different subjects, whatever their codes. */
  lemma SubjectsDiffer(a: MemberId, codeA: string, b: MemberId, codeB: string)
    requires PlainId(a) && PlainId(b) && a != b
    ensures SubjectFor(a, codeA) != SubjectFor(b, codeB)
  {
    BarAt(a, codeA);
    BarAt(b, codeB);
  }

  // ------------------------------------------------------------------ enrolment

  const MIN_IMAGES := 2
  const MAX_IMAGES := 8

  datatype Spoof = ScoreFails | TooFlat | Live

  /** One photo and what the outside world will do with it. */
  datatype Capture = Capture(
    tooLarge: bool, spoof: Spoof, add: Fault, put: Fault, row: Fault,
    imageId: ImageId, key: StorageKey)

  function WithFace(s: Stores, imageId: ImageId, subject: Subject): Stores {
    s.(faces := s.faces[imageId := subject])
  }

  function WithImage(s: Stores, key: StorageKey): Stores {
    s.(images := s.images + {key})
  }

  function WithRow(s: Stores, template: Template): Stores {
    s.(templates := s.templates + [template])
  }

  /** One turn of the enrolment loop: CompreFace, then storage, then the row. */
  function EnrolOne(s: Stores, memberId: MemberId, subject: Subject, storeImages: bool, c: Capture)
    : (Stores, bool)
  {
    if c.tooLarge || c.spoof != Live || c.add == Refused then (s, false)
    else
      var added := WithFace(s, c.imageId, subject);
      if c.add == LostReply || (storeImages && c.put == Refused) then (added, false)
      else
        var stored := if storeImages then WithImage(added, c.key) else added;
        if (storeImages && c.put == LostReply) || c.row == Refused then (stored, false)
        else
          (WithRow(stored, Template(memberId, Some(c.imageId), Some(subject),
                                    if storeImages then Some(c.key) else None)),
           c.row == Fine)
  }

  /** The stores after the first photos, how many were enrolled, and which failed. */
  datatype Progress = Progress(stores: Stores, enrolled: nat, failed: seq<nat>)

  function EnrolAll(s: Stores, memberId: MemberId, subject: Subject, storeImages: bool, captures: seq<Capture>)
    : Progress
    decreases |captures|
  {
    if |captures| == 0 then Progress(s, 0, [])
    else
      var k := |captures| - 1;
      var before := EnrolAll(s, memberId, subject, storeImages, captures[..k]);
      var (stores, ok) := EnrolOne(before.stores, memberId, subject, storeImages, captures[k]);
      if ok then Progress(stores, before.enrolled + 1, before.failed)
      else Progress(stores, before.enrolled, before.failed + [k])
  }

  datatype EnrolError =
    | TooFewImages | TooManyImages | MemberNotFound | ConsentRequired | NotProvisioned
    | EnrolmentFailed | DatabaseDown

  datatype Enrolment = Enrolled(enrolled: nat, failed: seq<nat>) | NotEnrolled(error: EnrolError)

  function SetEnrolledAt(s: Stores, memberId: MemberId, at: Option<int>): Stores
    requires memberId in s.members
  {
    s.(members := s.members[memberId := s.members[memberId].(faceEnrolledAt := at)])
  }

  /** Did a write that may fail take effect? */
  predicate TookEffect(f: Fault) {
    f != Refused
  }

  datatype Tenant = Tenant(apiKey: Option<string>, storeEmbeddingOnly: bool)

  function AfterEnrol(s: Stores, tenant: Tenant, memberId: MemberId, captures: seq<Capture>,
                      readable: bool, update: Fault, now: int): (Stores, Enrolment)
  {
    if |captures| < MIN_IMAGES then (s, NotEnrolled(TooFewImages))
    else if |captures| > MAX_IMAGES then (s, NotEnrolled(TooManyImages))
    else if !readable then (s, NotEnrolled(DatabaseDown))
    else if memberId !in s.members then (s, NotEnrolled(MemberNotFound))
    else if s.members[memberId].consentAt.None? then (s, NotEnrolled(ConsentRequired))
    else if tenant.apiKey.None? then (s, NotEnrolled(NotProvisioned))
    else
      var subject := SubjectFor(memberId, s.members[memberId].code);
      var p := EnrolAll(s, memberId, subject, !tenant.storeEmbeddingOnly, captures);
      if p.enrolled == 0 then (p.stores, NotEnrolled(EnrolmentFailed))
      else if memberId !in p.stores.members then (p.stores, NotEnrolled(MemberNotFound))
      else
        var done := if TookEffect(update) then SetEnrolledAt(p.stores, memberId, Some(now)) else p.stores;
        (done, if update == Fine then Enrolled(p.enrolled, p.failed) else NotEnrolled(DatabaseDown))
  }

  // -------------------------------------------------------------------- erasure

  function RowsOf(templates: seq<Template>, memberId: MemberId): seq<Template> {
    if templates == [] then []
    else if templates[0].memberId == memberId then [templates[0]] + RowsOf(templates[1..], memberId)
    else RowsOf(templates[1..], memberId)
  }

  function RowsExcept(templates: seq<Template>, memberId: MemberId): seq<Template> {
    if templates == [] then []
    else if templates[0].memberId != memberId then [templates[0]] + RowsExcept(templates[1..], memberId)
    else RowsExcept(templates[1..], memberId)
  }

  /** `templates.find((t) => t.comprefaceSubject)?.comprefaceSubject` */
  function FirstSubject(rows: seq<Template>): Option<Subject> {
    if rows == [] then None
    else if rows[0].subject.GetOr("") != "" then rows[0].subject
    else FirstSubject(rows[1..])
  }

  function DeleteSubject(faces: map<ImageId, Subject>, subject: Subject): map<ImageId, Subject> {
    faces - set id | id in faces && faces[id] == subject
  }

  /** The stored photos after deleting those of some rows, and how many deletions were confirmed. */
  function DeleteImages(images: set<StorageKey>, rows: seq<Template>, fault: nat -> Fault): (set<StorageKey>, nat)
    decreases |rows|
  {
    if |rows| == 0 then (images, 0)
    else
      var k := |rows| - 1;
      var (left, removed) := DeleteImages(images, rows[..k], fault);
      var key := rows[k].imageRef.GetOr("");
      if key == "" then (left, removed)
      else
        (if TookEffect(fault(k)) then left - {key} else left,
         if fault(k) == Fine then removed + 1 else removed)
  }

  datatype Report = Report(templatesRemoved: nat, imagesRemoved: nat, comprefaceCleared: bool)

  datatype EraseError = NoSuchMember | FaceEngineError | DatabaseError

  /** The failures an erasure may run into, call by call. */
  datatype EraseFaults = EraseFaults(
    readable: bool, deleteSubject: Fault, deleteImage: nat -> Fault, deleteRows: Fault, updateMember: Fault)

  predicate EveryRowFaceless(rows: seq<Template>) {
    forall i :: 0 <= i < |rows| ==> rows[i].imageId.GetOr("") == ""
  }

  function AfterErase(s: Stores, tenant: Tenant, memberId: MemberId, f: EraseFaults)
    : (Stores, Result<Report, EraseError>)
  {
    if !f.readable then (s, Failure(DatabaseError))
    else if memberId !in s.members then (s, Failure(NoSuchMember))
    else
      var rows := RowsOf(s.templates, memberId);
      if |rows| == 0 then (s, Success(Report(0, 0, true)))
      else
        var subject := FirstSubject(rows);
        var deletes := tenant.apiKey.Some? && subject.Some?;
        var s1 := if deletes && TookEffect(f.deleteSubject)
                  then s.(faces := DeleteSubject(s.faces, subject.value)) else s;
        if deletes && f.deleteSubject != Fine then (s1, Failure(FaceEngineError))
        else
          var cleared := tenant.apiKey.Some? || EveryRowFaceless(rows);
          var (left, removed) := DeleteImages(s1.images, rows, f.deleteImage);
          var s2 := s1.(images := left);
          var s3 := if TookEffect(f.deleteRows)
                    then s2.(templates := RowsExcept(s2.templates, memberId)) else s2;
          if f.deleteRows != Fine then (s3, Failure(DatabaseError))
          else
            var s4 := if TookEffect(f.updateMember) then SetEnrolledAt(s3, memberId, None) else s3;
            (s4, if f.updateMember == Fine then Success(Report(|rows|, removed, cleared))
                 else Failure(DatabaseError))
  }

  // -------------------------------------------------------------------- consent

  const CONSENT_VERSION := "2026-08-v1"

  datatype Consent = Consent(granted: bool, version: string)

  /** The consent columns a create or an update writes, if it writes them. */
  function ConsentColumns(member: Member, consent: Option<Consent>, now: int): Member {
    if consent.None? || !consent.value.granted then member
    else
      member.(consentAt := Some(now),
              consentVersion := Some(if consent.value.version == "" then CONSENT_VERSION
                                     else consent.value.version))
  }

  function Withdrawn(member: Member, now: int): Member {
    member.(consentAt := None, consentVersion := None, consentWithdrawnAt := Some(now))
  }

  function Recorded(member: Member, version: string, now: int): Member {
    member.(consentAt := Some(now), consentVersion := Some(version), consentWithdrawnAt := None)
  }

  function AfterWithdraw(s: Stores, tenant: Tenant, memberId: MemberId, f: EraseFaults, update: Fault, now: int)
    : (Stores, Result<Report, EraseError>)
  {
    var (erased, report) := AfterErase(s, tenant, memberId, f);
    if report.Failure? || memberId !in erased.members then (erased, report)
    else
      (if TookEffect(update)
       then erased.(members := erased.members[memberId := Withdrawn(erased.members[memberId], now)]) else erased,
       if update == Fine then report else Failure(DatabaseError))
  }

  function AfterRecord(s: Stores, memberId: MemberId, version: string, readable: bool, update: Fault, now: int)
    : Stores
  {
    if !readable || memberId !in s.members || update == Refused then s
    else s.(members := s.members[memberId := Recorded(s.members[memberId], version, now)])
  }

  // ----------------------------------------------------------------- the service

  /** The three stores, and the operations that act on them one call at a time. */
  class FaceStores {
    var members: map<MemberId, Member>
    var templates: seq<Template>
    var faces: map<ImageId, Subject>
    var images: set<StorageKey>

    constructor (members: map<MemberId, Member>)
      ensures Now() == Stores(members, [], map[], {})
    {
      this.members := members;
      templates, faces, images := [], map[], {};
    }

    function Now(): Stores
      reads this
    {
      Stores(members, templates, faces, images)
    }

    /** `addFace`, `put` and `faceTemplate.create` for one photo. */
    method EnrolCapture(memberId: MemberId, subject: Subject, storeImages: bool, c: Capture)
      returns (enrolled: bool)
      modifies this
      ensures (Now(), enrolled) == EnrolOne(old(Now()), memberId, subject, storeImages, c)
    {
      if c.tooLarge || c.spoof != Live || c.add == Refused {
        return false;
      }
      faces := faces[c.imageId := subject];
      if c.add == LostReply {
        return false;
      }
      var imageRef: Option<StorageKey> := None;
      if storeImages {
        imageRef := Some(c.key);
        if c.put == Refused {
          return false;
        }
        images := images + {c.key};
        if c.put == LostReply {
          return false;
        }
      }
      if c.row == Refused {
        return false;
      }
      templates := templates + [Template(memberId, Some(c.imageId), Some(subject), imageRef)];
      return c.row == Fine;
    }

    /** `enrol` */
    method Enrol(tenant: Tenant, memberId: MemberId, captures: seq<Capture>, readable: bool, update: Fault, now: int)
      returns (result: Enrolment)
      modifies this
      ensures (Now(), result) == AfterEnrol(old(Now()), tenant, memberId, captures, readable, update, now)
    {
      if |captures| < MIN_IMAGES {
        return NotEnrolled(TooFewImages);
      }
      if |captures| > MAX_IMAGES {
        return NotEnrolled(TooManyImages);
      }
      if !readable {
        return NotEnrolled(DatabaseDown);
      }
      if memberId !in members {
        return NotEnrolled(MemberNotFound);
      }
      if members[memberId].consentAt.None? {
        return NotEnrolled(ConsentRequired);
      }
      if tenant.apiKey.None? {
        return NotEnrolled(NotProvisioned);
      }
      var subject := SubjectFor(memberId, members[memberId].code);
      var storeImages := !tenant.storeEmbeddingOnly;
      var failed: seq<nat> := [];
      var enrolled := 0;
      ghost var before := Now();
      for index := 0 to |captures|
        invariant Progress(Now(), enrolled, failed)
          == EnrolAll(before, memberId, subject, storeImages, captures[..index])
      {
        assert captures[..index + 1][..index] == captures[..index];
        var ok := EnrolCapture(memberId, subject, storeImages, captures[index]);
        if ok {
          enrolled := enrolled + 1;
        } else {
          failed := failed + [index];
        }
      }
      assert captures[..|captures|] == captures;
      if enrolled == 0 {
        return NotEnrolled(EnrolmentFailed);
      }
      if memberId !in members {
        return NotEnrolled(MemberNotFound);
      }
      if update != Refused {
        members := members[memberId := members[memberId].(faceEnrolledAt := Some(now))];
      }
      return if update == Fine then Enrolled(enrolled, failed) else NotEnrolled(DatabaseDown);
    }

    /** The loop over stored photos: a failed deletion is logged and skipped. */
    method DeleteStoredImages(rows: seq<Template>, fault: nat -> Fault) returns (removed: nat)
      modifies this`images
      ensures (images, removed) == DeleteImages(old(images), rows, fault)
    {
      removed := 0;
      for k := 0 to |rows|
        invariant (images, removed) == DeleteImages(old(images), rows[..k], fault)
      {
        assert rows[..k + 1][..k] == rows[..k];
        var key := rows[k].imageRef.GetOr("");
        if key != "" {
          if TookEffect(fault(k)) {
            images := images - {key};
          }
          if fault(k) == Fine {
            removed := removed + 1;
          }
        }
      }
      assert rows[..|rows|] == rows;
    }

    /** `eraseMemberFaces`: the collection first, then the photos, then the rows. */
    method EraseMemberFaces(tenant: Tenant, memberId: MemberId, f: EraseFaults)
      returns (result: Result<Report, EraseError>)
      modifies this
      ensures (Now(), result) == AfterErase(old(Now()), tenant, memberId, f)
    {
      if !f.readable {
        return Failure(DatabaseError);
      }
      if memberId !in members {
        return Failure(NoSuchMember);
      }
      var rows := RowsOf(templates, memberId);
      if |rows| == 0 {
        return Success(Report(0, 0, true));
      }
      var subject := FirstSubject(rows);
      var comprefaceCleared := true;
      if tenant.apiKey.Some? && subject.Some? {
        if f.deleteSubject != Refused {
          faces := DeleteSubject(faces, subject.value);
        }
        if f.deleteSubject != Fine {
          return Failure(FaceEngineError);
        }
      } else if tenant.apiKey.None? {
        comprefaceCleared := EveryRowFaceless(rows);
      }
      var imagesRemoved := DeleteStoredImages(rows, f.deleteImage);
      if f.deleteRows != Refused {
        templates := RowsExcept(templates, memberId);
      }
      if f.deleteRows != Fine {
        return Failure(DatabaseError);
      }
      if f.updateMember != Refused {
        members := members[memberId := members[memberId].(faceEnrolledAt := None)];
      }
      if f.updateMember != Fine {
        return Failure(DatabaseError);
      }
      return Success(Report(|rows|, imagesRemoved, comprefaceCleared));
    }

    /** `withdrawConsent`: erasure and the consent columns go together. */
    method WithdrawConsent(tenant: Tenant, memberId: MemberId, f: EraseFaults, update: Fault, now: int)
      returns (result: Result<Report, EraseError>)
      modifies this
      ensures (Now(), result) == AfterWithdraw(old(Now()), tenant, memberId, f, update, now)
    {
      result := EraseMemberFaces(tenant, memberId, f);
      if result.Failure? || memberId !in members {
        return;
      }
      if update != Refused {
        members := members[memberId := Withdrawn(members[memberId], now)];
      }
      if update != Fine {
        return Failure(DatabaseError);
      }
    }

    /** `recordConsent` */
    method RecordConsent(memberId: MemberId, version: string, readable: bool, update: Fault, now: int)
      modifies this
      ensures Now() == AfterRecord(old(Now()), memberId, version, readable, update, now)
    {
      if readable && memberId in members && update != Refused {
        members := members[memberId := Recorded(members[memberId], version, now)];
      }
    }
  }
}
