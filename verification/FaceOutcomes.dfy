/**
 What the biometric operations do, photo by photo and column by column: which
 photos are enrolled and what they leave behind, what a report says, and where
 every recorded consent comes from.
 */
module FaceOutcomes {
  import opened Common
  import opened FaceData
  import opened FaceTheorems
  import opened FaceErasure

  // --------------------------------------------------------------------- photos

  /** The photo is small enough, and the anti-spoof check takes it for a live face. */
  predicate Passes(c: Capture) {
    !c.tooLarge && c.spoof == Live
  }

  /** Both checks pass and every call for the photo succeeds. */
  predicate Succeeds(c: Capture, storeImages: bool) {
    Passes(c) && c.add == Fine && (storeImages ==> c.put == Fine) && c.row == Fine
  }

  /** A photo that is too large, or a screen or a print, or could not be scored, leaves nothing anywhere. */
  lemma RefusedPhoto(s: Stores, memberId: MemberId, subject: Subject, storeImages: bool, c: Capture)
    requires c.tooLarge || c.spoof == TooFlat || c.spoof == ScoreFails
    ensures EnrolOne(s, memberId, subject, storeImages, c) == (s, false)
  {
  }

  /** The engine has the photo as a face. */
  predicate GivesFace(c: Capture) {
    Passes(c) && (c.add == Fine || c.add == LostReply)
  }

  /** The photo is in storage. */
  predicate GivesImage(c: Capture, storeImages: bool) {
    Passes(c) && c.add == Fine && storeImages && (c.put == Fine || c.put == LostReply)
  }

  /** The photo has its row. */
  predicate GivesRow(c: Capture, storeImages: bool) {
    Passes(c) && c.add == Fine && (storeImages ==> c.put == Fine) && (c.row == Fine || c.row == LostReply)
  }

  function RowFor(c: Capture, memberId: MemberId, subject: Subject, storeImages: bool): Template {
    Template(memberId, Some(c.imageId), Some(subject), if storeImages then Some(c.key) else None)
  }

  /** What one photo adds to each store. */
  lemma OnePhotoAdds(s: Stores, memberId: MemberId, subject: Subject, storeImages: bool, c: Capture)
    ensures var (after, ok) := EnrolOne(s, memberId, subject, storeImages, c);
      && (ok <==> Succeeds(c, storeImages))
      && after.members == s.members
      && after.faces == (if GivesFace(c) then s.faces[c.imageId := subject] else s.faces)
      && after.images == (if GivesImage(c, storeImages) then s.images + {c.key} else s.images)
      && after.templates
         == s.templates + (if GivesRow(c, storeImages) then [RowFor(c, memberId, subject, storeImages)] else [])
  {
  }

  /** The positions that are reported as failed: those of the photos that did not succeed, in order. */
  ghost predicate FailedAre(failed: seq<nat>, captures: seq<Capture>, storeImages: bool) {
    && (forall k: nat :: k in failed <==> k < |captures| && !Succeeds(captures[k], storeImages))
    && (forall i, j :: 0 <= i < j < |failed| ==> failed[i] < failed[j])
  }

  lemma ProgressNext(s: Stores, memberId: MemberId, subject: Subject, storeImages: bool, captures: seq<Capture>)
    requires |captures| > 0
    ensures var k := |captures| - 1;
      var before := EnrolAll(s, memberId, subject, storeImages, captures[..k]);
      var p := EnrolAll(s, memberId, subject, storeImages, captures);
      if Succeeds(captures[k], storeImages) then p.enrolled == before.enrolled + 1 && p.failed == before.failed
      else p.enrolled == before.enrolled && p.failed == before.failed + [k]
  {
    var k := |captures| - 1;
    var before := EnrolAll(s, memberId, subject, storeImages, captures[..k]);
    OnePhotoAdds(before.stores, memberId, subject, storeImages, captures[k]);
  }

  lemma {:induction false} FailuresAreReported(s: Stores, memberId: MemberId, subject: Subject, storeImages: bool,
                                               captures: seq<Capture>)
    ensures var p := EnrolAll(s, memberId, subject, storeImages, captures);
      FailedAre(p.failed, captures, storeImages) && p.enrolled + |p.failed| == |captures|
    decreases |captures|
  {
    if |captures| > 0 {
      var k := |captures| - 1;
      FailuresAreReported(s, memberId, subject, storeImages, captures[..k]);
      ProgressNext(s, memberId, subject, storeImages, captures);
      FailedSnoc(EnrolAll(s, memberId, subject, storeImages, captures[..k]).failed, captures, storeImages);
    }
  }

  lemma FailedSnoc(failed: seq<nat>, captures: seq<Capture>, storeImages: bool)
    requires |captures| > 0 && FailedAre(failed, captures[..|captures| - 1], storeImages)
    ensures var k := |captures| - 1;
      FailedAre(if Succeeds(captures[k], storeImages) then failed else failed + [k], captures, storeImages)
  {
    var k := |captures| - 1;
    forall i | 0 <= i < |failed| ensures failed[i] < k {
      assert failed[i] in failed;
    }
    forall j: nat | j < k ensures captures[..k][j] == captures[j] {
    }
  }

  predicate SomeFace(captures: seq<Capture>, id: ImageId) {
    exists i :: 0 <= i < |captures| && GivesFace(captures[i]) && captures[i].imageId == id
  }

  predicate SomeImage(captures: seq<Capture>, storeImages: bool, key: StorageKey) {
    exists i :: 0 <= i < |captures| && GivesImage(captures[i], storeImages) && captures[i].key == key
  }

  predicate SomeRow(captures: seq<Capture>, memberId: MemberId, subject: Subject, storeImages: bool, t: Template) {
    exists i :: 0 <= i < |captures| && GivesRow(captures[i], storeImages)
      && t == RowFor(captures[i], memberId, subject, storeImages)
  }

  /** Whatever an enrolment adds to a store stems from a photo that passed the checks. */
  ghost predicate AddsFrom(s: Stores, after: Stores, memberId: MemberId, subject: Subject, storeImages: bool,
                           captures: seq<Capture>) {
    && after.members == s.members
    && (forall id :: id in after.faces <==> id in s.faces || SomeFace(captures, id))
    && (forall id :: id in after.faces ==>
          after.faces[id] == if SomeFace(captures, id) then subject else s.faces[id])
    && (forall key :: key in after.images <==> key in s.images || SomeImage(captures, storeImages, key))
    && s.templates <= after.templates
    && (forall t :: t in after.templates <==>
          t in s.templates || SomeRow(captures, memberId, subject, storeImages, t))
  }

  lemma SomeSnoc(captures: seq<Capture>, memberId: MemberId, subject: Subject, storeImages: bool)
    requires |captures| > 0
    ensures var k := |captures| - 1;
      var front, c := captures[..k], captures[k];
      && (forall id :: SomeFace(captures, id) <==> SomeFace(front, id) || (GivesFace(c) && c.imageId == id))
      && (forall key :: SomeImage(captures, storeImages, key) <==>
            SomeImage(front, storeImages, key) || (GivesImage(c, storeImages) && c.key == key))
      && (forall t :: SomeRow(captures, memberId, subject, storeImages, t) <==>
            SomeRow(front, memberId, subject, storeImages, t)
            || (GivesRow(c, storeImages) && t == RowFor(c, memberId, subject, storeImages)))
  {
    FaceSnoc(captures);
    ImageSnoc(captures, storeImages);
    RowSnoc(captures, memberId, subject, storeImages);
  }

  lemma FaceSnoc(captures: seq<Capture>)
    requires |captures| > 0
    ensures var k := |captures| - 1;
      forall id :: SomeFace(captures, id)
        <==> SomeFace(captures[..k], id) || (GivesFace(captures[k]) && captures[k].imageId == id)
  {
    var k := |captures| - 1;
    forall id ensures SomeFace(captures, id)
      <==> SomeFace(captures[..k], id) || (GivesFace(captures[k]) && captures[k].imageId == id)
    {
      if SomeFace(captures[..k], id) {
        var i :| 0 <= i < k && GivesFace(captures[..k][i]) && captures[..k][i].imageId == id;
        assert GivesFace(captures[i]);
      }
      if SomeFace(captures, id) {
        var i :| 0 <= i < |captures| && GivesFace(captures[i]) && captures[i].imageId == id;
        assert i < k ==> captures[..k][i] == captures[i];
      }
    }
  }

  lemma ImageSnoc(captures: seq<Capture>, storeImages: bool)
    requires |captures| > 0
    ensures var k := |captures| - 1;
      forall key :: SomeImage(captures, storeImages, key)
        <==> SomeImage(captures[..k], storeImages, key)
             || (GivesImage(captures[k], storeImages) && captures[k].key == key)
  {
    var k := |captures| - 1;
    forall key ensures SomeImage(captures, storeImages, key)
      <==> SomeImage(captures[..k], storeImages, key)
           || (GivesImage(captures[k], storeImages) && captures[k].key == key)
    {
      if SomeImage(captures[..k], storeImages, key) {
        var i :| 0 <= i < k && GivesImage(captures[..k][i], storeImages) && captures[..k][i].key == key;
        assert GivesImage(captures[i], storeImages);
      }
      if SomeImage(captures, storeImages, key) {
        var i :| 0 <= i < |captures| && GivesImage(captures[i], storeImages) && captures[i].key == key;
        assert i < k ==> captures[..k][i] == captures[i];
      }
    }
  }

  lemma RowSnoc(captures: seq<Capture>, memberId: MemberId, subject: Subject, storeImages: bool)
    requires |captures| > 0
    ensures var k := |captures| - 1;
      forall t :: SomeRow(captures, memberId, subject, storeImages, t)
        <==> SomeRow(captures[..k], memberId, subject, storeImages, t)
             || (GivesRow(captures[k], storeImages) && t == RowFor(captures[k], memberId, subject, storeImages))
  {
    var k := |captures| - 1;
    forall t ensures SomeRow(captures, memberId, subject, storeImages, t)
      <==> SomeRow(captures[..k], memberId, subject, storeImages, t)
           || (GivesRow(captures[k], storeImages) && t == RowFor(captures[k], memberId, subject, storeImages))
    {
      if SomeRow(captures[..k], memberId, subject, storeImages, t) {
        var i :| 0 <= i < k && GivesRow(captures[..k][i], storeImages)
          && t == RowFor(captures[..k][i], memberId, subject, storeImages);
        assert GivesRow(captures[i], storeImages);
      }
      if SomeRow(captures, memberId, subject, storeImages, t) {
        var i :| 0 <= i < |captures| && GivesRow(captures[i], storeImages)
          && t == RowFor(captures[i], memberId, subject, storeImages);
        assert i < k ==> captures[..k][i] == captures[i];
      }
    }
  }

  lemma {:induction false} EnrolmentAdds(s: Stores, memberId: MemberId, subject: Subject, storeImages: bool,
                                         captures: seq<Capture>)
    ensures AddsFrom(s, EnrolAll(s, memberId, subject, storeImages, captures).stores, memberId, subject, storeImages,
                     captures)
    decreases |captures|
  {
    if |captures| > 0 {
      var k := |captures| - 1;
      EnrolmentAdds(s, memberId, subject, storeImages, captures[..k]);
      var before := EnrolAll(s, memberId, subject, storeImages, captures[..k]).stores;
      OnePhotoAdds(before, memberId, subject, storeImages, captures[k]);
      SomeSnoc(captures, memberId, subject, storeImages);
      AddsOneMore(s, before, EnrolOne(before, memberId, subject, storeImages, captures[k]).0, memberId, subject,
                  storeImages, captures);
    }
  }

  lemma AddsOneMore(s: Stores, before: Stores, after: Stores, memberId: MemberId, subject: Subject,
                    storeImages: bool, captures: seq<Capture>)
    requires |captures| > 0
    requires AddsFrom(s, before, memberId, subject, storeImages, captures[..|captures| - 1])
    requires after == EnrolOne(before, memberId, subject, storeImages, captures[|captures| - 1]).0
    ensures AddsFrom(s, after, memberId, subject, storeImages, captures)
  {
    OnePhotoAdds(before, memberId, subject, storeImages, captures[|captures| - 1]);
    SomeSnoc(captures, memberId, subject, storeImages);
  }

  // ------------------------------------------------------------------ enrolment

  /**
   An enrolment answers success exactly when there are two to eight photos, the
   member has consented, the collection is there, some photo succeeded and the
   member could be updated; it then names the photos that failed.
   */
  lemma EnrolledIff(s: Stores, tenant: Tenant, memberId: MemberId, captures: seq<Capture>, readable: bool,
                    update: Fault, now: int)
    ensures var (after, result) := AfterEnrol(s, tenant, memberId, captures, readable, update, now);
      var storeImages := !tenant.storeEmbeddingOnly;
      && (result.Enrolled? <==>
            && 2 <= |captures| <= 8 && readable && memberId in s.members && s.members[memberId].consentAt.Some?
            && tenant.apiKey.Some? && update == Fine
            && exists k :: 0 <= k < |captures| && Succeeds(captures[k], storeImages))
      && (result.Enrolled? ==>
            && FailedAre(result.failed, captures, storeImages) && result.enrolled + |result.failed| == |captures|
            && memberId in after.members
            && after.members[memberId] == s.members[memberId].(faceEnrolledAt := Some(now)))
  {
    if memberId in s.members {
      var subject, storeImages := SubjectFor(memberId, s.members[memberId].code), !tenant.storeEmbeddingOnly;
      FailuresAreReported(s, memberId, subject, storeImages, captures);
      EnrolAllMembers(s, memberId, subject, storeImages, captures);
      EnrolledSome(EnrolAll(s, memberId, subject, storeImages, captures), captures, storeImages);
    }
  }

  lemma EnrolledSome(p: Progress, captures: seq<Capture>, storeImages: bool)
    requires FailedAre(p.failed, captures, storeImages) && p.enrolled + |p.failed| == |captures|
    ensures p.enrolled > 0 <==> exists k :: 0 <= k < |captures| && Succeeds(captures[k], storeImages)
  {
    if forall k :: 0 <= k < |captures| ==> !Succeeds(captures[k], storeImages) {
      AscendingFull(p.failed, |captures|);
    } else {
      var k :| 0 <= k < |captures| && Succeeds(captures[k], storeImages);
      AscendingMisses(p.failed, |captures|, k);
    }
  }

  /** Strictly ascending numbers below `n`, all of them. */
  lemma {:induction false} AscendingFull(a: seq<nat>, n: nat)
    requires forall i, j :: 0 <= i < j < |a| ==> a[i] < a[j]
    requires forall k: nat :: k in a <==> k < n
    ensures |a| == n
    decreases n
  {
    forall i | 0 <= i < |a| ensures a[i] < n {
      assert a[i] in a;
    }
    if n == 0 {
      AscendingBound(a, 0);
    } else {
      assert n - 1 in a;
      var m := |a| - 1;
      assert a[m] in a;
      assert a[m] == n - 1;
      var front := a[..m];
      assert a == front + [n - 1];
      forall k: nat ensures k in front <==> k < n - 1 {
        if k in front {
          var i :| 0 <= i < m && a[i] == k;
        }
        assert k in a <==> k in front || k == n - 1;
      }
      AscendingFull(front, n - 1);
    }
  }

  lemma {:induction false} AscendingBound(a: seq<nat>, n: nat)
    requires forall i, j :: 0 <= i < j < |a| ==> a[i] < a[j]
    requires forall i :: 0 <= i < |a| ==> a[i] < n
    ensures |a| <= n
    decreases |a|
  {
    if |a| > 0 {
      AscendingBound(a[..|a| - 1], a[|a| - 1]);
    }
  }

  /** Strictly ascending numbers below `n` without `k` are fewer than `n`. */
  lemma {:induction false} AscendingMisses(a: seq<nat>, n: nat, k: nat)
    requires forall i, j :: 0 <= i < j < |a| ==> a[i] < a[j]
    requires (forall x: nat :: x in a ==> x < n) && k < n && k !in a
    ensures |a| < n
    decreases |a|
  {
    forall i | 0 <= i < |a| ensures a[i] < n && a[i] != k {
      assert a[i] in a;
    }
    if |a| > 0 {
      var m := |a| - 1;
      if a[m] < k {
        AscendingBound(a, k);
      } else {
        forall x: nat | x in a[..m] ensures x < a[m] && x in a {
          var i :| 0 <= i < m && a[i] == x;
        }
        AscendingMisses(a[..m], a[m], k);
      }
    }
  }

  /** A refusal in front of the loop changes nothing, and the first reason is the one given. */
  lemma EnrolRefuses(s: Stores, tenant: Tenant, memberId: MemberId, captures: seq<Capture>, update: Fault, now: int)
    ensures var answer := AfterEnrol(s, tenant, memberId, captures, true, update, now);
      && (|captures| < 2 ==> answer == (s, NotEnrolled(TooFewImages)))
      && (|captures| > 8 ==> answer == (s, NotEnrolled(TooManyImages)))
      && (2 <= |captures| <= 8 && memberId !in s.members ==> answer == (s, NotEnrolled(MemberNotFound)))
      && (2 <= |captures| <= 8 && memberId in s.members && s.members[memberId].consentAt.None? ==>
            answer == (s, NotEnrolled(ConsentRequired)))
      && (2 <= |captures| <= 8 && Consented(s, memberId) && tenant.apiKey.None? ==>
            answer == (s, NotEnrolled(NotProvisioned)))
  {
  }

  // ------------------------------------------------------- reports and withdrawals

  /** How many of the first `n` stored photos were deleted and confirmed so. */
  function Confirmed(rows: seq<Template>, fault: nat -> Fault, n: nat): nat
    requires n <= |rows|
  {
    if n == 0 then 0
    else
      Confirmed(rows, fault, n - 1)
      + if rows[n - 1].imageRef.GetOr("") != "" && fault(n - 1) == Fine then 1 else 0
  }

  lemma {:induction false} ConfirmedPrefix(rows: seq<Template>, fault: nat -> Fault, m: nat, n: nat)
    requires n <= m <= |rows|
    ensures Confirmed(rows[..m], fault, n) == Confirmed(rows, fault, n)
  {
    if n > 0 {
      ConfirmedPrefix(rows, fault, m, n - 1);
    }
  }

  lemma {:induction false} DeletionsCounted(images: set<StorageKey>, rows: seq<Template>, fault: nat -> Fault)
    ensures DeleteImages(images, rows, fault).1 == Confirmed(rows, fault, |rows|)
    decreases |rows|
  {
    if |rows| > 0 {
      var k := |rows| - 1;
      DeletionsCounted(images, rows[..k], fault);
      ConfirmedPrefix(rows, fault, k, k);
    }
  }

  /**
   An erasure reports exactly when the member is there and, if it has rows, the
   engine, the rows and the member could be updated. Photos never hold it up.
   */
  lemma ReportsIff(s: Stores, tenant: Tenant, memberId: MemberId, f: EraseFaults)
    ensures var rows := RowsOf(s.templates, memberId);
      var result := AfterErase(s, tenant, memberId, f).1;
      && (result.Success? <==>
            && f.readable && memberId in s.members
            && (|rows| > 0 ==> (Swept(s, tenant, memberId).Some? ==> f.deleteSubject == Fine)
                               && f.deleteRows == Fine && f.updateMember == Fine))
      && (result == Failure(NoSuchMember) <==> f.readable && memberId !in s.members)
      && (result == Failure(FaceEngineError) <==>
            f.readable && memberId in s.members && Swept(s, tenant, memberId).Some? && f.deleteSubject != Fine)
  {
  }

  /**
   A report counts the rows found and the photo deletions confirmed; it calls the
   engine cleared unless there is no collection and some row names a face. The
   member is left without an enrolment date but with its consent.
   */
  lemma ReportIs(s: Stores, tenant: Tenant, memberId: MemberId, f: EraseFaults)
    requires AfterErase(s, tenant, memberId, f).1.Success?
    ensures var (after, result) := AfterErase(s, tenant, memberId, f);
      var rows := RowsOf(s.templates, memberId);
      && result.value.templatesRemoved == |rows|
      && result.value.imagesRemoved == Confirmed(rows, f.deleteImage, |rows|)
      && (result.value.comprefaceCleared <==>
            tenant.apiKey.Some? || forall t :: t in rows ==> t.imageId == None || t.imageId == Some(""))
      && (|rows| > 0 ==>
            && f.deleteRows == Fine && f.updateMember == Fine
            && after.members == s.members[memberId := s.members[memberId].(faceEnrolledAt := None)])
  {
    DeletionsCounted(s.images, RowsOf(s.templates, memberId), f.deleteImage);
  }

  /**
   A withdrawal that reports has cleared date and version of the consent, noted the
   time, and erased; one that fails leaves the consent as it was, unless only the
   answer of the last update was lost.
   */
  lemma WithdrawIs(s: Stores, tenant: Tenant, memberId: MemberId, f: EraseFaults, update: Fault, now: int)
    requires memberId in s.members
    ensures var (after, result) := AfterWithdraw(s, tenant, memberId, f, update, now);
      && memberId in after.members
      && (result.Success? <==> AfterErase(s, tenant, memberId, f).1.Success? && update == Fine)
      && (result.Success? ==>
            && result == AfterErase(s, tenant, memberId, f).1
            && after.members[memberId].consentAt == None && after.members[memberId].consentVersion == None
            && after.members[memberId].consentWithdrawnAt == Some(now)
            && NoRows(after.templates, memberId))
      && (result.Failure? && update != LostReply ==>
            && after.members[memberId].consentAt == s.members[memberId].consentAt
            && after.members[memberId].consentVersion == s.members[memberId].consentVersion)
      && (forall id :: id in s.members && id != memberId ==>
            id in after.members && after.members[id] == s.members[id])
  {
    EraseKeepsOthersMembers(s, tenant, memberId, f);
    EraseShape(s, tenant, memberId, f);
    NoRowsOf(s.templates, memberId);
  }

  lemma EraseKeepsOthersMembers(s: Stores, tenant: Tenant, memberId: MemberId, f: EraseFaults)
    ensures var after := AfterErase(s, tenant, memberId, f).0;
      forall id :: id in s.members && id != memberId ==> id in after.members && after.members[id] == s.members[id]
  {
  }

  // --------------------------------------------------------- where consent comes from

  /** This event grants the member's consent, at this time and to this version of the notice. */
  predicate Grants(e: Event, id: MemberId, at: int, version: string) {
    match e
    case CreateMember(member, _, consent, now) => GivenBy(member, consent, now, id, at, version)
    case UpdateMember(member, _, consent, _, now) => GivenBy(member, consent, now, id, at, version)
    case Record(member, recorded, _, _, now) => member == id && at == now && version == recorded
    case _ => false
  }

  predicate GivenBy(member: MemberId, consent: Option<Consent>, now: int, id: MemberId, at: int, version: string) {
    && member == id && at == now && consent.Some? && consent.value.granted
    && version == (if consent.value.version == "" then "2026-08-v1" else consent.value.version)
  }

  /** The member's consent, if it has any: when, and to what. */
  predicate ConsentIs(s: Stores, id: MemberId, at: int, version: string) {
    id in s.members && s.members[id].consentAt == Some(at) && s.members[id].consentVersion == Some(version)
  }

  lemma WithdrawGrantsNothing(s: Stores, tenant: Tenant, memberId: MemberId, f: EraseFaults, update: Fault, now: int,
                              id: MemberId, at: int, version: string)
    requires ConsentIs(AfterWithdraw(s, tenant, memberId, f, update, now).0, id, at, version)
    ensures ConsentIs(s, id, at, version)
  {
    EraseShape(s, tenant, memberId, f);
  }

  lemma EnrolGrantsNothing(s: Stores, tenant: Tenant, memberId: MemberId, captures: seq<Capture>, readable: bool,
                           update: Fault, now: int, id: MemberId, at: int, version: string)
    requires ConsentIs(AfterEnrol(s, tenant, memberId, captures, readable, update, now).0, id, at, version)
    ensures ConsentIs(s, id, at, version)
  {
    if Consented(s, memberId) {
      EnrolShape(s, tenant, memberId, captures, readable, update, now);
      var subject := SubjectFor(memberId, s.members[memberId].code);
      EnrolAllMembers(s, memberId, subject, !tenant.storeEmbeddingOnly, captures);
    }
  }

  /** A consent after a step was there before it, or the step granted it. */
  lemma StepGrants(s: Stores, tenant: Tenant, e: Event, id: MemberId, at: int, version: string)
    requires ConsentIs(Step(s, tenant, e), id, at, version)
    ensures ConsentIs(s, id, at, version) || Grants(e, id, at, version)
  {
    match e
    case CreateMember(_, _, _, _) =>
    case UpdateMember(_, _, _, _, _) =>
    case ImportMember(_, _) =>
    case Enrol(memberId, captures, readable, update, now) =>
      EnrolGrantsNothing(s, tenant, memberId, captures, readable, update, now, id, at, version);
    case Erase(memberId, f) => EraseShape(s, tenant, memberId, f);
    case Withdraw(memberId, f, update, now) =>
      WithdrawGrantsNothing(s, tenant, memberId, f, update, now, id, at, version);
    case Record(_, _, _, _, _) =>
  }

  ghost predicate GrantedIn(es: seq<(Tenant, Event)>, id: MemberId, at: int, version: string) {
    exists i :: 0 <= i < |es| && Grants(es[i].1, id, at, version)
  }

  lemma {:induction false} RunGrants(s: Stores, es: seq<(Tenant, Event)>, id: MemberId, at: int, version: string)
    requires ConsentIs(Run(s, es), id, at, version)
    ensures ConsentIs(s, id, at, version) || GrantedIn(es, id, at, version)
    decreases |es|
  {
    if |es| > 0 {
      var s' := Step(s, es[0].0, es[0].1);
      RunGrants(s', es[1..], id, at, version);
      if GrantedIn(es[1..], id, at, version) {
        var i :| 0 <= i < |es[1..]| && Grants(es[1..][i].1, id, at, version);
        assert Grants(es[i + 1].1, id, at, version);
      } else {
        StepGrants(s, es[0].0, es[0].1, id, at, version);
      }
    }
  }

  /**
   Over every run, whatever fails: a recorded consent, with its time and version,
   is one that a creation, an update or a recording of that run granted. A member
   with any template row has such a consent.
   */
  lemma ConsentWasGiven(es: seq<(Tenant, Event)>, id: MemberId)
    ensures var s := Run(NOTHING, es);
      Consented(s, id) || !NoRows(s.templates, id) ==>
        exists at, version :: ConsentIs(s, id, at, version) && GrantedIn(es, id, at, version)
  {
    var s := Run(NOTHING, es);
    ConsentHolds(NOTHING, es);
    if Consented(s, id) || !NoRows(s.templates, id) {
      assert Consented(s, id);
      var at, version := s.members[id].consentAt.value, s.members[id].consentVersion.value;
      assert ConsentIs(s, id, at, version);
      RunGrants(NOTHING, es, id, at, version);
    }
  }

  /** An ordinary update never takes a consent away or replaces it. */
  lemma UpdateKeepsConsent(s: Stores, tenant: Tenant, e: Event, id: MemberId, at: int, version: string)
    requires e.UpdateMember? && ConsentIs(s, id, at, version)
    ensures ConsentIs(Step(s, tenant, e), id, at, version)
  {
  }

  /** And a granting event that goes through does record the consent. */
  lemma GrantsAreRecorded(s: Stores, tenant: Tenant, e: Event, id: MemberId, at: int, version: string)
    requires Grants(e, id, at, version)
    requires e.CreateMember? ==> id !in s.members
    requires e.UpdateMember? ==> id in s.members && s.members[id].consentAt.None? && e.update == Fine
    requires e.Record? ==> id in s.members && e.readable && e.update == Fine
    ensures ConsentIs(Step(s, tenant, e), id, at, version)
    ensures e.Record? ==> Step(s, tenant, e).members[id].consentWithdrawnAt == None
  {
  }

  /** A subject is the member id, a bar and the code, or the first 200 characters of that. */
  lemma SubjectIs(memberId: MemberId, code: string)
    ensures var full := memberId + "|" + code;
      && |SubjectFor(memberId, code)| == (if |full| < 200 then |full| else 200)
      && SubjectFor(memberId, code) <= full
  {
  }
}
