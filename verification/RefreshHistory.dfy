/**
 What every call of the web client is told and ends with, read off the responses
 that came in: over every run the client's state says only what the events said.
 */
module RefreshHistory {
  import opened Common
  import opened SingleFlight

  // ------------------------------------------------------------------- the events

  /** The server's answer to a refresh. */
  predicate Answers(e: Event, r: RefreshId, ok: bool) {
    e == RefreshAnswer(r, ok)
  }

  predicate AnsweredIn(past: seq<Event>, r: RefreshId, ok: bool) {
    exists i :: 0 <= i < |past| && Answers(past[i], r, ok)
  }

  /** The status of the latest response to a call's own path, if one has come in. */
  function LastStatus(past: seq<Event>, c: CallerId): Option<Option<int>>
    decreases |past|
  {
    if |past| == 0 then None
    else
      match past[|past| - 1]
      case FirstResponse(d, status) => if d == c then Some(status) else LastStatus(past[..|past| - 1], c)
      case RetryResponse(d, status) => if d == c then Some(status) else LastStatus(past[..|past| - 1], c)
      case _ => LastStatus(past[..|past| - 1], c)
  }

  predicate IsResponse(e: Event, c: CallerId) {
    (e.FirstResponse? || e.RetryResponse?) && e.caller == c
  }

  lemma LastSnoc(past: seq<Event>, e: Event, c: CallerId)
    ensures LastStatus(past + [e], c) == if IsResponse(e, c) then Some(e.status) else LastStatus(past, c)
  {
    assert (past + [e])[..|past|] == past;
  }

  lemma AnsweredSnoc(past: seq<Event>, e: Event, r: RefreshId, ok: bool)
    ensures AnsweredIn(past + [e], r, ok) <==> AnsweredIn(past, r, ok) || Answers(e, r, ok)
  {
    if AnsweredIn(past, r, ok) {
      var i :| 0 <= i < |past| && Answers(past[i], r, ok);
      assert Answers((past + [e])[i], r, ok);
    }
    if Answers(e, r, ok) {
      assert Answers((past + [e])[|past|], r, ok);
    }
  }

  // ---------------------------------------------------------------- the invariant

  /** A refresh that has an outcome has the one the server answered. */
  predicate RefreshTrue(s: State, past: seq<Event>, r: RefreshId)
    requires r < |s.refreshes|
  {
    match s.refreshes[r]
    case Posted => true
    case Answered(ok) => AnsweredIn(past, r, ok)
    case Settled(ok) => AnsweredIn(past, r, ok)
  }

  /** A call stands where its responses and its refresh put it. */
  predicate CallerTrue(s: State, past: seq<Event>, c: CallerId)
    requires c < |s.callers|
  {
    var caller := s.callers[c];
    && (caller.seen.Some? ==> AnsweredIn(past, caller.seen.value.0, caller.seen.value.1))
    && (caller.seen.Some? && caller.seen.value.1 ==> caller.sent == 2)
    && match caller.phase
       case Ready => LastStatus(past, c) == None
       case FirstSent => LastStatus(past, c) == None
       case Waiting(_) => LastStatus(past, c) == Some(Some(401)) && caller.refreshable
       case RetrySent => caller.sent == 2 && LastStatus(past, c) == Some(Some(401))
       case Done(status) =>
         && LastStatus(past, c) == Some(status)
         && (status == Some(401) && caller.sent == 1 ==>
               !caller.refreshable || (caller.seen.Some? && !caller.seen.value.1))
         && (caller.sent == 1 && caller.seen.Some? ==> status == Some(401) && !caller.seen.value.1)
  }

  ghost predicate True(s: State, past: seq<Event>) {
    && (forall r: nat :: r < |s.refreshes| ==> RefreshTrue(s, past, r))
    && (forall c: nat :: c < |s.callers| ==> CallerTrue(s, past, c))
  }

  lemma StepRefreshTrue(s: State, past: seq<Event>, e: Event, r: RefreshId)
    requires True(s, past) && Enabled(s, e) && r < |Step(s, e).refreshes|
    ensures RefreshTrue(Step(s, e), past + [e], r)
  {
    if r < |s.refreshes| {
      assert RefreshTrue(s, past, r);
    }
    AnsweredSnoc(past, e, r, true);
    AnsweredSnoc(past, e, r, false);
  }

  lemma StepCallerTrue(s: State, past: seq<Event>, e: Event, c: CallerId)
    requires Inv(s) && True(s, past) && Enabled(s, e) && c < |s.callers|
    ensures c < |Step(s, e).callers| && CallerTrue(Step(s, e), past + [e], c)
  {
    assert CallerTrue(s, past, c) && CallerInv(s, c);
    LastSnoc(past, e, c);
    var caller := Step(s, e).callers[c];
    if caller.seen.Some? {
      AnsweredSnoc(past, e, caller.seen.value.0, caller.seen.value.1);
    }
    if e.Resume? && e.caller == c {
      assert RefreshTrue(s, past, s.callers[c].phase.refresh);
    }
  }

  lemma StepTrue(s: State, past: seq<Event>, e: Event)
    requires Inv(s) && True(s, past) && Enabled(s, e)
    ensures True(Step(s, e), past + [e])
  {
    forall r: nat | r < |Step(s, e).refreshes| ensures RefreshTrue(Step(s, e), past + [e], r) {
      StepRefreshTrue(s, past, e, r);
    }
    forall c: nat | c < |Step(s, e).callers| ensures CallerTrue(Step(s, e), past + [e], c) {
      StepCallerTrue(s, past, e, c);
    }
  }

  lemma {:induction false} RunTrue(s: State, past: seq<Event>, es: seq<Event>)
    requires Inv(s) && True(s, past) && ValidRun(s, es)
    ensures True(Run(s, es), past + es)
    decreases |es|
  {
    if |es| == 0 {
      assert past + es == past;
    } else {
      StepInv(s, es[0]);
      StepTrue(s, past, es[0]);
      RunTrue(Step(s, es[0]), past + [es[0]], es[1..]);
      assert past + [es[0]] + es[1..] == past + es;
    }
  }

  // ----------------------------------------------------------------- main result

  /**
   Over every run: a call is told what the server answered to the refresh it
   joined; told of success it has sent its request again; and when it is done it
   has the status of the last response to its own path. It gives up with a 401
   after one request only if it may not refresh, or its refresh was answered no.
   */
  lemma CallsEndAsAnswered(s: State, es: seq<Event>, c: CallerId)
    requires Initial(s) && ValidRun(s, es) && c < |s.callers|
    ensures c < |Run(s, es).callers|
    ensures var caller := Run(s, es).callers[c];
      && caller.refreshable == s.callers[c].refreshable
      && (caller.seen.Some? ==> AnsweredIn(es, caller.seen.value.0, caller.seen.value.1))
      && (caller.seen.Some? && caller.seen.value.1 ==> caller.sent == 2)
      && (caller.phase.Done? ==>
            && LastStatus(es, c) == Some(caller.phase.status)
            && (caller.phase.status == Some(401) && caller.sent == 1 ==>
                  !caller.refreshable
                  || (caller.seen.Some? && !caller.seen.value.1 && AnsweredIn(es, caller.seen.value.0, false)))
            && (caller.sent == 2 ==>
                  caller.seen.Some? && caller.seen.value.1 && AnsweredIn(es, caller.seen.value.0, true)))
  {
    RunTrue(s, [], es);
    assert [] + es == es;
    RunKeepsCallers(s, es);
    RunInv(s, es);
    assert CallerTrue(Run(s, es), es, c) && CallerInv(Run(s, es), c);
  }

  lemma {:induction false} RunKeepsCallers(s: State, es: seq<Event>)
    requires ValidRun(s, es)
    ensures |Run(s, es).callers| == |s.callers|
    ensures forall c: nat :: c < |s.callers| ==> Run(s, es).callers[c].refreshable == s.callers[c].refreshable
    decreases |es|
  {
    if |es| > 0 {
      RunKeepsCallers(Step(s, es[0]), es[1..]);
    }
  }

  // ------------------------------------------------------------------ the requests

  /** How often a call's own request went out: once when it was made, once more after a refresh that worked. */
  lemma RequestsSent(s: State, e: Event, c: CallerId)
    requires Inv(s) && Enabled(s, e) && c < |s.callers|
    ensures c < |Step(s, e).callers|
    ensures Step(s, e).callers[c].sent
         == s.callers[c].sent
          + (if e == Send(c) then 1
             else if e == Resume(c) && s.callers[c].phase.Waiting?
                     && s.refreshes[s.callers[c].phase.refresh] == Settled(true) then 1
             else 0)
  {
    assert CallerInv(s, c);
  }

  /** A refresh is posted exactly when a 401 that may be refreshed finds none in flight. */
  lemma RefreshPosted(s: State, e: Event)
    requires Inv(s) && Enabled(s, e)
    ensures |Step(s, e).refreshes|
         == |s.refreshes|
          + (if e.FirstResponse? && e.status == Some(401) && s.callers[e.caller].refreshable
                && (forall r: nat :: r < |s.refreshes| ==> s.refreshes[r].Settled?) then 1 else 0)
  {
    if s.inFlight.Some? {
      assert !s.refreshes[s.inFlight.value].Settled?;
    }
  }

  // --------------------------------------------------------- the 401s that came in

  predicate Is401(e: Event) {
    (e.FirstResponse? || e.RetryResponse?) && e.status == Some(401)
  }

  function Count401(es: seq<Event>): nat {
    if |es| == 0 then 0 else (if Is401(es[0]) then 1 else 0) + Count401(es[1..])
  }

  lemma {:induction false} RunCounts401(s: State, es: seq<Event>)
    requires ValidRun(s, es)
    ensures Run(s, es).unauthorized == s.unauthorized + Count401(es)
    decreases |es|
  {
    if |es| > 0 {
      RunCounts401(Step(s, es[0]), es[1..]);
    }
  }

  /** However many calls there are: never more refreshes than responses with a 401. */
  lemma RefreshesWithin401s(s: State, es: seq<Event>)
    requires Initial(s) && ValidRun(s, es)
    ensures |Run(s, es).refreshes| <= Count401(es)
  {
    SingleFlightHolds(s, es);
    RunCounts401(s, es);
  }
}
