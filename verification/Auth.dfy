/**
 Login lockout and session revocation. One account's attempts are taken one after
 the other; the password check is abstract.
 */
module Auth {
  import opened Common

  type UserId = string

  const MAX_FAILED_LOGINS := 5

  /** LOCKOUT_MINUTES * 60_000: fifteen minutes in milliseconds. */
  const LOCKOUT_MS := 900_000

  datatype Status = Active | Disabled | Invited

  datatype Account = Account(
    failedLoginCount: int, lockedUntil: Option<int>, status: Status, tokenVersion: int)

  /** A refresh token: its id, whose it is, its version, and the token it was exchanged for. */
  datatype Token = Token(id: nat, sub: UserId, ver: int, parent: Option<nat>)

  datatype LoginError = InvalidCredentials | AccountLocked | AccountDisabled | InvalidRefresh

  // -------------------------------------------------------------- account steps

  /** `assertUsable` */
  function Unusable(a: Account, now: int): Option<LoginError> {
    if a.lockedUntil.Some? && a.lockedUntil.value > now then Some(AccountLocked)
    else if a.status == Disabled then Some(AccountDisabled)
    else None
  }

  /** `recordFailure`: the fifth failure starts a lock and the count over again. */
  function FailureRecorded(a: Account, now: int): Account {
    var failures := a.failedLoginCount + 1;
    if failures >= MAX_FAILED_LOGINS
    then a.(failedLoginCount := 0, lockedUntil := Some(now + LOCKOUT_MS))
    else a.(failedLoginCount := failures, lockedUntil := None)
  }

  function SuccessRecorded(a: Account): Account {
    a.(failedLoginCount := 0, lockedUntil := None)
  }

  /** One attempt: when it is checked, when its outcome is written, and whether the password fits. */
  datatype Attempt = Attempt(checked: int, written: int, correct: bool)

  /** The attempt gets as far as the password check. */
  predicate Verified(a: Account, t: Attempt) {
    Unusable(a, t.checked).None?
  }

  function AfterAttempt(a: Account, t: Attempt): (Account, Option<LoginError>) {
    if !Verified(a, t) then (a, Unusable(a, t.checked))
    else if !t.correct then (FailureRecorded(a, t.written), Some(InvalidCredentials))
    else (SuccessRecorded(a), None)
  }

  // ------------------------------------------------------------------- the service

  /** Accounts, and every refresh token ever signed. */
  datatype World = World(users: map<UserId, Account>, issued: seq<Token>)

  function Issue(w: World, sub: UserId, parent: Option<nat>): World
    requires sub in w.users
  {
    w.(issued := w.issued + [Token(|w.issued|, sub, w.users[sub].tokenVersion, parent)])
  }

  function AfterLogin(w: World, user: UserId, t: Attempt): (World, Result<Token, LoginError>) {
    if user !in w.users then (w, Failure(InvalidCredentials))
    else
      var (account, error) := AfterAttempt(w.users[user], t);
      var w' := w.(users := w.users[user := account]);
      if error.Some? then (w', Failure(error.value))
      else (Issue(w', user, None), Success(Token(|w.issued|, user, account.tokenVersion, None)))
  }

  /** `expired` stands for any reason the signature check turns a genuine token down. */
  function AfterRefresh(w: World, token: Token, expired: bool, now: int): (World, Result<Token, LoginError>) {
    if token !in w.issued || expired then (w, Failure(InvalidRefresh))
    else if token.sub !in w.users || w.users[token.sub].tokenVersion != token.ver then
      (w, Failure(InvalidRefresh))
    else
      var unusable := Unusable(w.users[token.sub], now);
      if unusable.Some? then (w, Failure(unusable.value))
      else (Issue(w, token.sub, Some(token.id)),
            Success(Token(|w.issued|, token.sub, w.users[token.sub].tokenVersion, Some(token.id))))
  }

  function AfterLogout(w: World, user: UserId): World {
    if user !in w.users then w
    else w.(users := w.users[user := w.users[user].(tokenVersion := w.users[user].tokenVersion + 1)])
  }

  class AuthService {
    var users: map<UserId, Account>
    ghost var issued: seq<Token>

    constructor (users: map<UserId, Account>)
      ensures Now() == World(users, [])
    {
      this.users := users;
      issued := [];
    }

    ghost function Now(): World
      reads this
    {
      World(users, issued)
    }

    method IssueSession(user: UserId, ghost parent: Option<nat>) returns (ghost token: Token)
      requires user in users
      modifies this`issued
      ensures Now() == Issue(old(Now()), user, parent)
      ensures token == Token(|old(issued)|, user, users[user].tokenVersion, parent)
    {
      token := Token(|issued|, user, users[user].tokenVersion, parent);
      issued := issued + [token];
    }

    method RecordFailure(user: UserId, now: int)
      requires user in users
      modifies this`users
      ensures users == old(users)[user := FailureRecorded(old(users)[user], now)]
    {
      var failures := users[user].failedLoginCount + 1;
      var locked := failures >= MAX_FAILED_LOGINS;
      users := users[user := users[user].(
        failedLoginCount := if locked then 0 else failures,
        lockedUntil := if locked then Some(now + LOCKOUT_MS) else None)];
    }

    /** `login` for the account the portal lookup found. */
    method Login(user: UserId, t: Attempt) returns (error: Option<LoginError>, ghost token: Option<Token>)
      modifies this
      ensures var (w, result) := AfterLogin(old(Now()), user, t);
        && Now() == w
        && error == (if result.Failure? then Some(result.error) else None)
        && token == (if result.Success? then Some(result.value) else None)
    {
      token := None;
      if user !in users {
        return Some(InvalidCredentials), None;
      }
      var unusable := Unusable(users[user], t.checked);
      if unusable.Some? {
        assert users[user := users[user]] == users;
        return unusable, None;
      }
      if !t.correct {
        RecordFailure(user, t.written);
        return Some(InvalidCredentials), None;
      }
      users := users[user := users[user].(failedLoginCount := 0, lockedUntil := None)];
      ghost var fresh' := IssueSession(user, None);
      return None, Some(fresh');
    }

    /** `refresh` with a token whose signature has been checked. */
    method Refresh(ghost presented: Token, genuine: bool, sub: UserId, ver: int, now: int)
      returns (error: Option<LoginError>, ghost token: Option<Token>)
      requires genuine ==> presented in issued && presented.sub == sub && presented.ver == ver
      modifies this
      ensures var (w, result) := AfterRefresh(old(Now()), presented, !genuine, now);
        && Now() == w
        && error == (if result.Failure? then Some(result.error) else None)
        && token == (if result.Success? then Some(result.value) else None)
    {
      if !genuine {
        return Some(InvalidRefresh), None;
      }
      if sub !in users || users[sub].tokenVersion != ver {
        return Some(InvalidRefresh), None;
      }
      var unusable := Unusable(users[sub], now);
      if unusable.Some? {
        return unusable, None;
      }
      ghost var fresh' := IssueSession(sub, Some(presented.id));
      return None, Some(fresh');
    }

    /** `logoutEverywhere` */
    method LogoutEverywhere(user: UserId)
      requires user in users
      modifies this`users
      ensures Now() == AfterLogout(old(Now()), user)
    {
      users := users[user := users[user].(tokenVersion := users[user].tokenVersion + 1)];
    }
  }

  // --------------------------------------------------------------- lockout bound

  /** What can happen to one account. */
  datatype AccountEvent =
    | Try(attempt: Attempt)
    | Logout
    | SetStatus(status: Status)

  function AccountStep(a: Account, e: AccountEvent): Account {
    match e
    case Try(t) => AfterAttempt(a, t).0
    case Logout => a.(tokenVersion := a.tokenVersion + 1)
    case SetStatus(status) => a.(status := status)
  }

  /** A wrong password that reaches verification. */
  predicate Guess(a: Account, e: AccountEvent) {
    e.Try? && Verified(a, e.attempt) && !e.attempt.correct
  }

  function Guesses(a: Account, es: seq<AccountEvent>): nat
    decreases |es|
  {
    if |es| == 0 then 0
    else (if Guess(a, es[0]) then 1 else 0) + Guesses(AccountStep(a, es[0]), es[1..])
  }

  /** The clock of a run does not go back, and each outcome is written after its check. */
  predicate Clocked(from: int, es: seq<AccountEvent>, to: int)
    decreases |es|
  {
    if |es| == 0 then from <= to
    else if es[0].Try? then
      from <= es[0].attempt.checked <= es[0].attempt.written && Clocked(es[0].attempt.written, es[1..], to)
    else Clocked(from, es[1..], to)
  }

  /** No attempt of the run gets in. */
  predicate NoneSucceeds(a: Account, es: seq<AccountEvent>)
    decreases |es|
  {
    |es| == 0
    || (!(es[0].Try? && Verified(a, es[0].attempt) && es[0].attempt.correct)
        && NoneSucceeds(AccountStep(a, es[0]), es[1..]))
  }

  /** Zero to four failures counted, and none while a lock is on record. */
  predicate CountInv(a: Account) {
    0 <= a.failedLoginCount < MAX_FAILED_LOGINS && (a.lockedUntil.Some? ==> a.failedLoginCount == 0)
  }

  lemma StepKeepsCount(a: Account, e: AccountEvent)
    requires CountInv(a)
    ensures CountInv(AccountStep(a, e))
  {
  }

  /** Five guesses for every lock period that starts between two moments. */
  function Periods(from: int, to: int): int {
    if from > to then 0 else MAX_FAILED_LOGINS * ((to - from) / LOCKOUT_MS + 1)
  }

  /** The most guesses an account still allows at time `from`, up to time `to`. */
  function Budget(a: Account, from: int, to: int): int {
    if a.lockedUntil.Some? && a.lockedUntil.value > from then Periods(a.lockedUntil.value, to)
    else Periods(from, to) - a.failedLoginCount
  }

  lemma PeriodsShrink(from: int, later: int, to: int)
    requires from <= later
    ensures Periods(later, to) <= Periods(from, to)
  {
  }

  lemma PeriodAfterLock(from: int, to: int)
    requires from <= to
    ensures Periods(from + LOCKOUT_MS, to) + MAX_FAILED_LOGINS <= Periods(from, to)
  {
    if from + LOCKOUT_MS <= to {
      assert (to - from) / LOCKOUT_MS == (to - from - LOCKOUT_MS) / LOCKOUT_MS + 1;
    }
  }

  function Later(from: int, e: AccountEvent): int {
    if e.Try? then e.attempt.written else from
  }

  lemma {:induction false} ClockedForward(from: int, es: seq<AccountEvent>, to: int)
    requires Clocked(from, es, to)
    ensures from <= to
    decreases |es|
  {
    if |es| > 0 {
      ClockedForward(Later(from, es[0]), es[1..], to);
    }
  }

  lemma GuessSpends(a: Account, e: AccountEvent, from: int, to: int)
    requires CountInv(a) && e.Try? && from <= e.attempt.checked <= e.attempt.written <= to
    requires !(Verified(a, e.attempt) && e.attempt.correct)
    ensures (if Guess(a, e) then 1 else 0) + Budget(AccountStep(a, e), e.attempt.written, to)
         <= Budget(a, from, to)
  {
    var start := if a.lockedUntil.Some? && a.lockedUntil.value > from then a.lockedUntil.value else from;
    PeriodsShrink(from, e.attempt.written, to);
    if start <= e.attempt.written {
      PeriodsShrink(start, e.attempt.written, to);
    }
    PeriodAfterLock(e.attempt.written, to);
  }

  lemma {:induction false} GuessesWithinBudget(a: Account, es: seq<AccountEvent>, from: int, to: int)
    requires CountInv(a) && Clocked(from, es, to) && NoneSucceeds(a, es)
    ensures Guesses(a, es) <= Budget(a, from, to)
    decreases |es|
  {
    ClockedForward(from, es, to);
    if |es| > 0 {
      ClockedForward(Later(from, es[0]), es[1..], to);
      StepKeepsCount(a, es[0]);
      GuessesWithinBudget(AccountStep(a, es[0]), es[1..], Later(from, es[0]), to);
      if es[0].Try? {
        GuessSpends(a, es[0], from, to);
      }
    }
  }

  /**
   From any reachable state of an account, with no login in between, at most
   five wrong passwords per started fifteen minutes are ever looked at.
   */
  lemma LockoutBound(a: Account, es: seq<AccountEvent>, from: int, span: nat)
    requires CountInv(a) && Clocked(from, es, from + span) && NoneSucceeds(a, es)
    ensures Guesses(a, es) <= MAX_FAILED_LOGINS * (span / LOCKOUT_MS + 1)
  {
    GuessesWithinBudget(a, es, from, from + span);
    if a.lockedUntil.Some? && a.lockedUntil.value > from {
      PeriodsShrink(from, a.lockedUntil.value, from + span);
    }
  }

  /** `n` wrong passwords, all at the same moment. */
  function Burst(at: int, n: nat): seq<AccountEvent> {
    seq(n, i => Try(Attempt(at, at, false)))
  }

  /** A burst of five, and another as soon as each lock runs out. */
  function Hammer(from: int, rounds: nat): seq<AccountEvent>
    decreases rounds
  {
    if rounds == 0 then Burst(from, MAX_FAILED_LOGINS)
    else Burst(from, MAX_FAILED_LOGINS) + Hammer(from + LOCKOUT_MS, rounds - 1)
  }

  lemma {:induction false} BurstLocks(a: Account, at: int, n: nat, rest: seq<AccountEvent>)
    requires CountInv(a) && a.status == Active && (a.lockedUntil.Some? ==> a.lockedUntil.value <= at)
    requires 0 < n && a.failedLoginCount + n == MAX_FAILED_LOGINS
    ensures var locked := a.(failedLoginCount := 0, lockedUntil := Some(at + LOCKOUT_MS));
      && Guesses(a, Burst(at, n) + rest) == n + Guesses(locked, rest)
      && (NoneSucceeds(locked, rest) ==> NoneSucceeds(a, Burst(at, n) + rest))
    decreases n
  {
    var es := Burst(at, n) + rest;
    assert es[1..] == Burst(at, n - 1) + rest;
    if n == 1 {
      assert es[1..] == rest;
    } else {
      BurstLocks(AccountStep(a, es[0]), at, n - 1, rest);
    }
  }

  lemma {:induction false} BurstClocked(at: int, n: nat, rest: seq<AccountEvent>, to: int)
    requires Clocked(at, rest, to)
    ensures Clocked(at, Burst(at, n) + rest, to)
    decreases n
  {
    if n == 0 {
      assert Burst(at, n) + rest == rest;
    } else {
      assert (Burst(at, n) + rest)[1..] == Burst(at, n - 1) + rest;
      BurstClocked(at, n - 1, rest, to);
    }
  }

  lemma {:induction false} ClockedEarlier(from: int, later: int, es: seq<AccountEvent>, to: int)
    requires from <= later && Clocked(later, es, to)
    ensures Clocked(from, es, to)
    decreases |es|
  {
    if |es| > 0 && !es[0].Try? {
      ClockedEarlier(from, later, es[1..], to);
    }
  }

  lemma {:induction false} HammerGuesses(a: Account, from: int, rounds: nat, to: int)
    requires CountInv(a) && a.status == Active && a.failedLoginCount == 0
    requires (a.lockedUntil.Some? ==> a.lockedUntil.value <= from) && from + rounds * LOCKOUT_MS <= to
    ensures Clocked(from, Hammer(from, rounds), to) && NoneSucceeds(a, Hammer(from, rounds))
    ensures Guesses(a, Hammer(from, rounds)) == MAX_FAILED_LOGINS * (rounds + 1)
    decreases rounds
  {
    var locked := a.(failedLoginCount := 0, lockedUntil := Some(from + LOCKOUT_MS));
    if rounds == 0 {
      assert Burst(from, MAX_FAILED_LOGINS) + [] == Hammer(from, 0);
      BurstLocks(a, from, MAX_FAILED_LOGINS, []);
      BurstClocked(from, MAX_FAILED_LOGINS, [], to);
    } else {
      var rest := Hammer(from + LOCKOUT_MS, rounds - 1);
      HammerGuesses(locked, from + LOCKOUT_MS, rounds - 1, to);
      BurstLocks(a, from, MAX_FAILED_LOGINS, rest);
      ClockedEarlier(from, from + LOCKOUT_MS, rest, to);
      BurstClocked(from, MAX_FAILED_LOGINS, rest, to);
    }
  }

  /** The bound is met: hammering an account reaches it exactly, for every span. */
  lemma LockoutBoundIsTight(a: Account, from: int, span: nat)
    requires CountInv(a) && a.status == Active && a.failedLoginCount == 0
    requires a.lockedUntil.Some? ==> a.lockedUntil.value <= from
    ensures var es := Hammer(from, span / LOCKOUT_MS);
      && Clocked(from, es, from + span) && NoneSucceeds(a, es)
      && Guesses(a, es) == MAX_FAILED_LOGINS * (span / LOCKOUT_MS + 1)
  {
    HammerGuesses(a, from, span / LOCKOUT_MS, from + span);
  }

  // ----------------------------------------------------------- session revocation

  datatype Event =
    | Login(user: UserId, attempt: Attempt)
    | Refresh(token: Token, expired: bool, now: int)
    | LogoutEverywhere(user: UserId)
    | ChangeStatus(user: UserId, status: Status)

  function Step(w: World, e: Event): World {
    match e
    case Login(user, t) => AfterLogin(w, user, t).0
    case Refresh(token, expired, now) => AfterRefresh(w, token, expired, now).0
    case LogoutEverywhere(user) => AfterLogout(w, user)
    case ChangeStatus(user, status) =>
      if user in w.users then w.(users := w.users[user := w.users[user].(status := status)]) else w
  }

  function Run(w: World, es: seq<Event>): World
    decreases |es|
  {
    if |es| == 0 then w else Run(Step(w, es[0]), es[1..])
  }

  /** A genuine token: numbered by its place, no newer than its account, exchanged for an earlier one. */
  predicate TokenInv(w: World, i: nat)
    requires i < |w.issued|
  {
    var t := w.issued[i];
    && t.id == i && t.sub in w.users && t.ver <= w.users[t.sub].tokenVersion
    && (t.parent.Some? ==> t.parent.value < i && w.issued[t.parent.value].sub == t.sub)
  }

  ghost predicate WorldInv(w: World) {
    forall i: nat :: i < |w.issued| ==> TokenInv(w, i)
  }

  lemma StepInv(w: World, e: Event)
    requires WorldInv(w)
    ensures WorldInv(Step(w, e))
    ensures w.issued <= Step(w, e).issued && w.users.Keys == Step(w, e).users.Keys
    ensures forall u :: u in w.users ==> w.users[u].tokenVersion <= Step(w, e).users[u].tokenVersion
  {
    var w' := Step(w, e);
    forall i: nat | i < |w'.issued| ensures TokenInv(w', i) {
      if i < |w.issued| {
        assert TokenInv(w, i);
      } else if e.Refresh? {
        var k :| 0 <= k < |w.issued| && w.issued[k] == e.token;
        assert TokenInv(w, k);
      }
    }
  }

  /** Every refresh token ever issued carries a version its account has reached. */
  lemma {:induction false} RunInv(w: World, es: seq<Event>)
    requires WorldInv(w)
    ensures WorldInv(Run(w, es))
    decreases |es|
  {
    if |es| > 0 {
      StepInv(w, es[0]);
      RunInv(Step(w, es[0]), es[1..]);
    }
  }

  /** Token `x` was reached from token `origin` by refreshing, any number of times. */
  predicate InChain(w: World, x: nat, origin: nat) {
    x == origin
    || (x < |w.issued| && w.issued[x].parent.Some? && w.issued[x].parent.value < x
        && InChain(w, w.issued[x].parent.value, origin))
  }

  /** The first `n` tokens: those of `user` are out of date, and nothing newer stems from them. */
  ghost predicate Revoked(w: World, user: UserId, n: nat) {
    && user in w.users && n <= |w.issued|
    && (forall i: nat :: i < n && w.issued[i].sub == user ==> w.issued[i].ver < w.users[user].tokenVersion)
    && (forall i: nat :: n <= i < |w.issued| && w.issued[i].sub == user && w.issued[i].parent.Some? ==>
          w.issued[i].parent.value >= n)
  }

  lemma LogoutRevokes(w: World, user: UserId)
    requires WorldInv(w) && user in w.users
    ensures Revoked(AfterLogout(w, user), user, |w.issued|)
  {
    forall i: nat | i < |w.issued|
      ensures w.issued[i].sub in w.users && w.issued[i].ver <= w.users[w.issued[i].sub].tokenVersion
    {
      assert TokenInv(w, i);
    }
  }

  lemma StepStaysRevoked(w: World, e: Event, user: UserId, n: nat)
    requires WorldInv(w) && Revoked(w, user, n)
    ensures Revoked(Step(w, e), user, n)
  {
    StepInv(w, e);
    var w' := Step(w, e);
    if e.Refresh? && |w'.issued| > |w.issued| {
      var k :| 0 <= k < |w.issued| && w.issued[k] == e.token;
      assert TokenInv(w, k);
    }
  }

  lemma {:induction false} RunStaysRevoked(w: World, es: seq<Event>, user: UserId, n: nat)
    requires WorldInv(w) && Revoked(w, user, n)
    ensures Revoked(Run(w, es), user, n)
    decreases |es|
  {
    if |es| > 0 {
      StepInv(w, es[0]);
      StepStaysRevoked(w, es[0], user, n);
      RunStaysRevoked(Step(w, es[0]), es[1..], user, n);
    }
  }

  lemma {:induction false} ChainIsOld(w: World, user: UserId, n: nat, x: nat, origin: nat)
    requires WorldInv(w) && Revoked(w, user, n) && x < |w.issued| && origin < n
    requires InChain(w, x, origin) && w.issued[origin].sub == user
    ensures x < n && w.issued[x].sub == user
    decreases x
  {
    if x != origin {
      assert TokenInv(w, x);
      ChainIsOld(w, user, n, w.issued[x].parent.value, origin);
    }
  }

  /**
   Once `logoutEverywhere` has run, no refresh token issued before it is accepted
   again, and neither is any token in its refresh chain, whatever logins,
   refreshes, logouts and status changes follow.
   */
  lemma LogoutIsFinal(w: World, user: UserId, es: seq<Event>, origin: nat, x: nat, expired: bool, now: int)
    requires WorldInv(w) && user in w.users && origin < |w.issued| && w.issued[origin].sub == user
    requires var after := Run(AfterLogout(w, user), es);
      x < |after.issued| && InChain(after, x, origin)
    ensures var after := Run(AfterLogout(w, user), es);
      AfterRefresh(after, after.issued[x], expired, now) == (after, Failure(InvalidRefresh))
  {
    var start := AfterLogout(w, user);
    var after := Run(start, es);
    StepInv(w, LogoutEverywhere(user));
    LogoutRevokes(w, user);
    RunStaysRevoked(start, es, user, |w.issued|);
    RunInv(start, es);
    RunKeepsTokens(start, es);
    assert after.issued[origin] == w.issued[origin];
    ChainIsOld(after, user, |w.issued|, x, origin);
  }

  lemma {:induction false} RunKeepsTokens(w: World, es: seq<Event>)
    requires WorldInv(w)
    ensures w.issued <= Run(w, es).issued
    decreases |es|
  {
    if |es| > 0 {
      StepInv(w, es[0]);
      RunKeepsTokens(Step(w, es[0]), es[1..]);
    }
  }

  /** Until then a fresh token is good: right after a login its refresh is accepted. */
  lemma LoginIsAccepted(w: World, user: UserId, t: Attempt, now: int)
    requires user in w.users && AfterLogin(w, user, t).1.Success?
    ensures var (w', result) := AfterLogin(w, user, t);
      AfterRefresh(w', result.value, false, now).1.Success?
  {
    var (w', result) := AfterLogin(w, user, t);
    assert w'.issued[|w.issued|] == result.value;
  }
}
