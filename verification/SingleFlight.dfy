/**
 The web client's session refresh: concurrent callers that run into an expired
 access token share one refresh request and retry once. Between the awaits of
 one caller any other caller or response may come in.
 */
module SingleFlight {
  import opened Common

  type CallerId = nat
  type RefreshId = nat

  /** A refresh: posted, answered, and settled once its `finally` has cleared the variable. */
  datatype Refresh = Posted | Answered(ok: bool) | Settled(ok: bool)

  /** Where a call of `apiFetch` stands. No status means the request itself failed. */
  datatype Phase =
    | Ready
    | FirstSent
    | Waiting(refresh: RefreshId)
    | RetrySent
    | Done(status: Option<int>)

  /**
   A call: whether a 401 may be refreshed at all (in the browser, not an auth
   route), how many requests it sent to its own path, and what a refresh told it.
   */
  datatype Caller = Caller(refreshable: bool, phase: Phase, sent: nat, seen: Option<(RefreshId, bool)>)

  /** `inFlight` is the module variable `refreshInFlight`. */
  datatype State = State(
    callers: seq<Caller>, refreshes: seq<Refresh>, inFlight: Option<RefreshId>, unauthorized: nat)

  datatype Event =
    | Send(caller: CallerId)
    | FirstResponse(caller: CallerId, status: Option<int>)
    | RefreshAnswer(refresh: RefreshId, ok: bool)
    | RefreshSettle(refresh: RefreshId)
    | Resume(caller: CallerId)
    | RetryResponse(caller: CallerId, status: Option<int>)

  const UNAUTHORIZED := Some(401)

  predicate Enabled(s: State, e: Event) {
    match e
    case Send(c) => c < |s.callers| && s.callers[c].phase == Ready
    case FirstResponse(c, _) => c < |s.callers| && s.callers[c].phase == FirstSent
    case RefreshAnswer(r, _) => r < |s.refreshes| && s.refreshes[r] == Posted
    case RefreshSettle(r) => r < |s.refreshes| && s.refreshes[r].Answered?
    case Resume(c) =>
      && c < |s.callers| && s.callers[c].phase.Waiting?
      && s.callers[c].phase.refresh < |s.refreshes| && s.refreshes[s.callers[c].phase.refresh].Settled?
    case RetryResponse(c, _) => c < |s.callers| && s.callers[c].phase == RetrySent
  }

  function SetCaller(s: State, c: CallerId, caller: Caller): State
    requires c < |s.callers|
  {
    s.(callers := s.callers[c := caller])
  }

  /** `refreshSession`: join the refresh in flight, or start one. */
  function Join(s: State): (State, RefreshId) {
    match s.inFlight
    case Some(r) => (s, r)
    case None =>
      (s.(refreshes := s.refreshes + [Posted], inFlight := Some(|s.refreshes|)), |s.refreshes|)
  }

  function Step(s: State, e: Event): State
    requires Enabled(s, e)
  {
    match e
    case Send(c) => SetCaller(s, c, s.callers[c].(phase := FirstSent, sent := s.callers[c].sent + 1))
    case FirstResponse(c, status) =>
      var counted := s.(unauthorized := s.unauthorized + if status == UNAUTHORIZED then 1 else 0);
      if status == UNAUTHORIZED && s.callers[c].refreshable then
        var (joined, r) := Join(counted);
        SetCaller(joined, c, s.callers[c].(phase := Waiting(r)))
      else SetCaller(counted, c, s.callers[c].(phase := Done(status)))
    case RefreshAnswer(r, ok) => s.(refreshes := s.refreshes[r := Answered(ok)])
    case RefreshSettle(r) => s.(refreshes := s.refreshes[r := Settled(s.refreshes[r].ok)], inFlight := None)
    case Resume(c) =>
      var r := s.callers[c].phase.refresh;
      var ok := s.refreshes[r].ok;
      var told := s.callers[c].(seen := Some((r, ok)));
      SetCaller(s, c, if ok then told.(phase := RetrySent, sent := told.sent + 1)
                      else told.(phase := Done(UNAUTHORIZED)))
    case RetryResponse(c, status) =>
      SetCaller(s.(unauthorized := s.unauthorized + if status == UNAUTHORIZED then 1 else 0),
                c, s.callers[c].(phase := Done(status)))
  }

  predicate ValidRun(s: State, es: seq<Event>)
    decreases |es|
  {
    |es| == 0 || (Enabled(s, es[0]) && ValidRun(Step(s, es[0]), es[1..]))
  }

  function Run(s: State, es: seq<Event>): State
    requires ValidRun(s, es)
    decreases |es|
  {
    if |es| == 0 then s else Run(Step(s, es[0]), es[1..])
  }

  // ---------------------------------------------------------------- the invariant

  /** How many requests a call has sent to its own path by the time it stands here. */
  predicate SentInv(caller: Caller) {
    match caller.phase
    case Ready => caller.sent == 0 && caller.seen.None?
    case FirstSent => caller.sent == 1 && caller.seen.None?
    case Waiting(_) => caller.sent == 1 && caller.seen.None? && caller.refreshable
    case RetrySent => caller.sent == 2 && caller.seen.Some? && caller.seen.value.1
    case Done(_) => 1 <= caller.sent <= 2 && (caller.sent == 2 <==> caller.seen.Some? && caller.seen.value.1)
  }

  predicate CallerInv(s: State, c: CallerId)
    requires c < |s.callers|
  {
    var caller := s.callers[c];
    && SentInv(caller)
    && (caller.phase.Waiting? ==> caller.phase.refresh < |s.refreshes|)
    && (caller.seen.Some? ==>
          caller.seen.value.0 < |s.refreshes| && s.refreshes[caller.seen.value.0] == Settled(caller.seen.value.1))
  }

  /** All refreshes but the last are settled, and the variable holds the last one until it is. */
  ghost predicate RefreshInv(s: State) {
    && (forall r: nat :: r + 1 < |s.refreshes| ==> s.refreshes[r].Settled?)
    && (s.inFlight.Some? ==> s.inFlight.value + 1 == |s.refreshes| && !s.refreshes[s.inFlight.value].Settled?)
    && (s.inFlight.None? && |s.refreshes| > 0 ==> s.refreshes[|s.refreshes| - 1].Settled?)
    && |s.refreshes| <= s.unauthorized
  }

  ghost predicate Inv(s: State) {
    RefreshInv(s) && forall c: nat :: c < |s.callers| ==> CallerInv(s, c)
  }

  /** Calls that have not been made yet, and no refresh. */
  predicate Initial(s: State) {
    && s.refreshes == [] && s.inFlight == None && s.unauthorized == 0
    && forall c :: 0 <= c < |s.callers| ==>
         s.callers[c].phase == Ready && s.callers[c].sent == 0 && s.callers[c].seen == None
  }

  lemma StepInv(s: State, e: Event)
    requires Inv(s) && Enabled(s, e)
    ensures Inv(Step(s, e))
  {
    var s' := Step(s, e);
    forall c: nat | c < |s'.callers| ensures CallerInv(s', c) {
      assert CallerInv(s, c);
    }
  }

  lemma {:induction false} RunInv(s: State, es: seq<Event>)
    requires Inv(s) && ValidRun(s, es)
    ensures Inv(Run(s, es))
    decreases |es|
  {
    if |es| > 0 {
      StepInv(s, es[0]);
      RunInv(Step(s, es[0]), es[1..]);
    }
  }

  // ----------------------------------------------------------------- main results

  /**
   In every reachable state at most one refresh is outstanding, everyone who
   joined a refresh was told the same, no more refreshes were started than 401s
   received, and no call sent more than two requests to its own path.
   */
  lemma SingleFlightHolds(s: State, es: seq<Event>)
    requires Initial(s) && ValidRun(s, es)
    ensures var t := Run(s, es);
      && (forall q: nat, r: nat :: q < |t.refreshes| && r < |t.refreshes| && q != r ==>
            t.refreshes[q].Settled? || t.refreshes[r].Settled?)
      && (forall c: nat, d: nat :: c < |t.callers| && d < |t.callers| ==>
            SameStory(t.callers[c].seen, t.callers[d].seen))
      && |t.refreshes| <= t.unauthorized
      && (forall c: nat :: c < |t.callers| ==> t.callers[c].sent <= 2)
  {
    RunInv(s, es);
    var t := Run(s, es);
    forall c: nat | c < |t.callers| ensures t.callers[c].sent <= 2 {
      assert CallerInv(t, c);
    }
    forall c: nat, d: nat | c < |t.callers| && d < |t.callers|
      ensures SameStory(t.callers[c].seen, t.callers[d].seen)
    {
      assert CallerInv(t, c) && CallerInv(t, d);
    }
  }

  /** Two callers that were told about the same refresh were told the same. */
  predicate SameStory(a: Option<(RefreshId, bool)>, b: Option<(RefreshId, bool)>) {
    a.Some? && b.Some? && a.value.0 == b.value.0 ==> a == b
  }

  /** A caller that needs a refresh joins one that is still open: no stale outcome is reused. */
  lemma JoinsOpenRefresh(s: State, e: Event)
    requires Inv(s) && Enabled(s, e) && e.FirstResponse? && e.status == UNAUTHORIZED
    requires s.callers[e.caller].refreshable
    ensures var s' := Step(s, e);
      && s'.callers[e.caller].phase.Waiting?
      && s'.inFlight == Some(s'.callers[e.caller].phase.refresh)
      && !s'.refreshes[s'.callers[e.caller].phase.refresh].Settled?
      && |s'.refreshes| == |s.refreshes| + (if s.inFlight.Some? then 0 else 1)
  {
    assert CallerInv(s, e.caller);
  }

  // ------------------------------------------------------------------- termination

  function PhaseRank(p: Phase): nat {
    match p
    case Ready => 7
    case FirstSent => 6
    case Waiting(_) => 3
    case RetrySent => 2
    case Done(_) => 0
  }

  function RefreshRank(r: Refresh): nat {
    match r
    case Posted => 2
    case Answered(_) => 1
    case Settled(_) => 0
  }

  function CallerWork(callers: seq<Caller>): nat {
    if callers == [] then 0 else PhaseRank(callers[0].phase) + CallerWork(callers[1..])
  }

  function RefreshWork(refreshes: seq<Refresh>): nat {
    if refreshes == [] then 0 else RefreshRank(refreshes[0]) + RefreshWork(refreshes[1..])
  }

  function Work(s: State): nat {
    CallerWork(s.callers) + RefreshWork(s.refreshes)
  }

  lemma {:induction false} CallerWorkAt(callers: seq<Caller>, c: nat, caller: Caller)
    requires c < |callers|
    ensures CallerWork(callers[c := caller]) + PhaseRank(callers[c].phase)
         == CallerWork(callers) + PhaseRank(caller.phase)
  {
    if c > 0 {
      assert callers[c := caller][1..] == callers[1..][c - 1 := caller];
      CallerWorkAt(callers[1..], c - 1, caller);
    }
  }

  lemma {:induction false} RefreshWorkAt(refreshes: seq<Refresh>, r: nat, refresh: Refresh)
    requires r < |refreshes|
    ensures RefreshWork(refreshes[r := refresh]) + RefreshRank(refreshes[r])
         == RefreshWork(refreshes) + RefreshRank(refresh)
  {
    if r > 0 {
      assert refreshes[r := refresh][1..] == refreshes[1..][r - 1 := refresh];
      RefreshWorkAt(refreshes[1..], r - 1, refresh);
    }
  }

  lemma {:induction false} RefreshWorkSnoc(refreshes: seq<Refresh>)
    ensures RefreshWork(refreshes + [Posted]) == RefreshWork(refreshes) + 2
  {
    if refreshes != [] {
      assert (refreshes + [Posted])[1..] == refreshes[1..] + [Posted];
      RefreshWorkSnoc(refreshes[1..]);
    }
  }

  /** Every step uses up some of the work that is left. */
  lemma StepWorks(s: State, e: Event)
    requires Enabled(s, e)
    ensures Work(Step(s, e)) < Work(s)
  {
    var s' := Step(s, e);
    match e
    case Send(c) => CallerWorkAt(s.callers, c, s'.callers[c]);
    case FirstResponse(c, _) =>
      CallerWorkAt(s.callers, c, s'.callers[c]);
      RefreshWorkSnoc(s.refreshes);
    case RefreshAnswer(r, _) => RefreshWorkAt(s.refreshes, r, s'.refreshes[r]);
    case RefreshSettle(r) => RefreshWorkAt(s.refreshes, r, s'.refreshes[r]);
    case Resume(c) => CallerWorkAt(s.callers, c, s'.callers[c]);
    case RetryResponse(c, _) => CallerWorkAt(s.callers, c, s'.callers[c]);
  }

  lemma {:induction false} InitialWork(callers: seq<Caller>)
    requires forall c :: 0 <= c < |callers| ==> callers[c].phase == Ready
    ensures CallerWork(callers) == 7 * |callers|
  {
    if callers != [] {
      InitialWork(callers[1..]);
    }
  }

  lemma {:induction false} RunWorks(s: State, es: seq<Event>)
    requires ValidRun(s, es)
    ensures Work(Run(s, es)) + |es| <= Work(s)
    decreases |es|
  {
    if |es| > 0 {
      StepWorks(s, es[0]);
      RunWorks(Step(s, es[0]), es[1..]);
    }
  }

  /** A call is never stuck: as long as one is not done, some step can be taken. */
  lemma NeverStuck(s: State, c: CallerId) returns (e: Event)
    requires Inv(s) && c < |s.callers| && !s.callers[c].phase.Done?
    ensures Enabled(s, e)
  {
    assert CallerInv(s, c);
    match s.callers[c].phase
    case Ready => e := Send(c);
    case FirstSent => e := FirstResponse(c, None);
    case RetrySent => e := RetryResponse(c, None);
    case Waiting(r) =>
      match s.refreshes[r] {
        case Posted => e := RefreshAnswer(r, false);
        case Answered(_) => e := RefreshSettle(r);
        case Settled(_) => e := Resume(c);
      }
  }

  /** Every run is finite, at most seven steps a call, and one that cannot go on has answered everybody. */
  lemma Terminates(s: State, es: seq<Event>)
    requires Initial(s) && ValidRun(s, es)
    ensures |es| <= 7 * |s.callers|
    ensures (forall e :: !Enabled(Run(s, es), e)) ==>
      forall c: nat :: c < |Run(s, es).callers| ==> Run(s, es).callers[c].phase.Done?
  {
    RunWorks(s, es);
    InitialWork(s.callers);
    RunInv(s, es);
    var t := Run(s, es);
    forall c: nat | c < |t.callers| && !t.callers[c].phase.Done?
      ensures exists e :: Enabled(t, e)
    {
      var e := NeverStuck(t, c);
    }
  }

  // -------------------------------------------------------------------- the client

  /** The module with its shared variable; one method for what runs between two awaits. */
  class ApiClient {
    var callers: seq<Caller>
    var refreshes: seq<Refresh>
    var refreshInFlight: Option<RefreshId>
    var unauthorized: nat

    constructor (refreshable: seq<bool>)
      ensures Initial(Now()) && |callers| == |refreshable|
    {
      callers := seq(|refreshable|, i requires 0 <= i < |refreshable| => Caller(refreshable[i], Ready, 0, None));
      refreshes, refreshInFlight, unauthorized := [], None, 0;
    }

    function Now(): State
      reads this
    {
      State(callers, refreshes, refreshInFlight, unauthorized)
    }

    /** `refreshInFlight ??= fetch('/api/auth/refresh', ...)` */
    method RefreshSession() returns (r: RefreshId)
      modifies this`refreshes, this`refreshInFlight
      ensures (Now(), r) == Join(old(Now()))
    {
      if refreshInFlight.None? {
        refreshInFlight := Some(|refreshes|);
        refreshes := refreshes + [Posted];
      }
      r := refreshInFlight.value;
    }

    method OnSend(c: CallerId)
      requires Enabled(Now(), Send(c))
      modifies this`callers
      ensures Now() == Step(old(Now()), Send(c))
    {
      callers := callers[c := callers[c].(phase := FirstSent, sent := callers[c].sent + 1)];
    }

    /** The first response: a 401 that may be refreshed waits for a refresh, the rest is final. */
    method OnFirstResponse(c: CallerId, status: Option<int>)
      requires Enabled(Now(), FirstResponse(c, status))
      modifies this
      ensures Now() == Step(old(Now()), FirstResponse(c, status))
    {
      if status == UNAUTHORIZED {
        unauthorized := unauthorized + 1;
      }
      if status == UNAUTHORIZED && callers[c].refreshable {
        var r := RefreshSession();
        callers := callers[c := callers[c].(phase := Waiting(r))];
      } else {
        callers := callers[c := callers[c].(phase := Done(status))];
      }
    }

    method OnRefreshAnswer(r: RefreshId, ok: bool)
      requires Enabled(Now(), RefreshAnswer(r, ok))
      modifies this`refreshes
      ensures Now() == Step(old(Now()), RefreshAnswer(r, ok))
    {
      refreshes := refreshes[r := Answered(ok)];
    }

    /** `.finally(() => { refreshInFlight = null })` */
    method OnRefreshSettle(r: RefreshId)
      requires Enabled(Now(), RefreshSettle(r))
      modifies this`refreshes, this`refreshInFlight
      ensures Now() == Step(old(Now()), RefreshSettle(r))
    {
      refreshInFlight := None;
      refreshes := refreshes[r := Settled(refreshes[r].ok)];
    }

    /** `if (refreshed) return requestWithRefresh(path, options, false)` */
    method OnResume(c: CallerId)
      requires Enabled(Now(), Resume(c))
      modifies this`callers
      ensures Now() == Step(old(Now()), Resume(c))
    {
      var r := callers[c].phase.refresh;
      var told := callers[c].(seen := Some((r, refreshes[r].ok)));
      if refreshes[r].ok {
        callers := callers[c := told.(phase := RetrySent, sent := told.sent + 1)];
      } else {
        callers := callers[c := told.(phase := Done(UNAUTHORIZED))];
      }
    }

    method OnRetryResponse(c: CallerId, status: Option<int>)
      requires Enabled(Now(), RetryResponse(c, status))
      modifies this`callers, this`unauthorized
      ensures Now() == Step(old(Now()), RetryResponse(c, status))
    {
      if status == UNAUTHORIZED {
        unauthorized := unauthorized + 1;
      }
      callers := callers[c := callers[c].(phase := Done(status))];
    }
  }
}
