/**
 Lockout and access over whole runs of logins, refreshes, logouts and status
 changes on all accounts, said by what the callers are answered.
 */
module LoginRuns {
  import opened Common
  import opened Auth

  // ------------------------------------------------------------------ one answer

  predicate LockedAt(a: Account, now: int) {
    a.lockedUntil.Some? && a.lockedUntil.value > now
  }

  /**
   A login succeeds exactly for an account that is not locked, not disabled, and
   given its right password; the answer otherwise names the first of these that
   fails. An account that does not exist is answered like a wrong password.
   */
  lemma LoginAnswers(w: World, user: UserId, t: Attempt)
    ensures var (w', result) := AfterLogin(w, user, t);
      && (user !in w.users ==> result == Failure(InvalidCredentials) && w' == w)
      && (user in w.users ==>
            var a := w.users[user];
            if LockedAt(a, t.checked) then result == Failure(AccountLocked) && w' == w
            else if a.status == Disabled then result == Failure(AccountDisabled) && w' == w
            else if !t.correct then result == Failure(InvalidCredentials) && w'.issued == w.issued
            else result.Success? && w'.issued == w.issued + [result.value])
  {
    if user in w.users {
      assert w.users[user := w.users[user]] == w.users;
    }
  }

  /** A successful login sets the count to zero, clears the lock, and issues a token of the present version. */
  lemma LoginClears(w: World, user: UserId, t: Attempt)
    requires AfterLogin(w, user, t).1.Success?
    ensures var (w', result) := AfterLogin(w, user, t);
      && user in w.users && user in w'.users
      && w'.users[user].failedLoginCount == 0 && w'.users[user].lockedUntil == None
      && w'.users[user].tokenVersion == w.users[user].tokenVersion && w'.users[user].status == w.users[user].status
      && result.value.sub == user && result.value.ver == w.users[user].tokenVersion
      && (forall other :: other in w.users && other != user ==> other in w'.users && w'.users[other] == w.users[other])
  {
  }

  /**
   A refresh is accepted exactly for a token that was issued, is still good, and
   carries the present version of an account that is neither locked nor disabled.
   Whatever the answer, accounts stay as they are.
   */
  lemma RefreshAnswers(w: World, token: Token, expired: bool, now: int)
    ensures var (w', result) := AfterRefresh(w, token, expired, now);
      && w'.users == w.users
      && (result.Success? <==>
            && token in w.issued && !expired && token.sub in w.users
            && w.users[token.sub].tokenVersion == token.ver
            && !LockedAt(w.users[token.sub], now) && w.users[token.sub].status != Disabled)
      && (if result.Success? then w'.issued == w.issued + [result.value] && result.value.sub == token.sub
          else w'.issued == w.issued)
  {
  }

  /** A disabled account gets no token, by login or by refresh. */
  lemma DisabledGetsNothing(w: World, user: UserId, t: Attempt, token: Token, expired: bool, now: int)
    requires user in w.users && w.users[user].status == Disabled && token.sub == user
    ensures AfterLogin(w, user, t).1.Failure? && AfterLogin(w, user, t).0.issued == w.issued
    ensures AfterRefresh(w, token, expired, now).1.Failure? && AfterRefresh(w, token, expired, now).0 == w
  {
    LoginAnswers(w, user, t);
  }

  // ---------------------------------------------------------- a run, seen by one account

  /** The logins that the run answers as a wrong password, for this user. */
  function WrongAnswers(w: World, es: seq<Event>, user: UserId): nat
    decreases |es|
  {
    if |es| == 0 then 0
    else (if AnsweredWrong(w, es[0], user) then 1 else 0) + WrongAnswers(Step(w, es[0]), es[1..], user)
  }

  predicate AnsweredWrong(w: World, e: Event, user: UserId) {
    e.Login? && e.user == user && AfterLogin(w, user, e.attempt).1 == Failure(InvalidCredentials)
  }

  /** No login of the user succeeds in the run. */
  predicate NoLogin(w: World, es: seq<Event>, user: UserId)
    decreases |es|
  {
    |es| == 0
    || (!(es[0].Login? && es[0].user == user && AfterLogin(w, user, es[0].attempt).1.Success?)
        && NoLogin(Step(w, es[0]), es[1..], user))
  }

  /** The user's logins come in order of time, each written after it was checked. */
  predicate LoginsClocked(from: int, es: seq<Event>, user: UserId, to: int)
    decreases |es|
  {
    if |es| == 0 then from <= to
    else if es[0].Login? && es[0].user == user then
      && from <= es[0].attempt.checked <= es[0].attempt.written
      && LoginsClocked(es[0].attempt.written, es[1..], user, to)
    else LoginsClocked(from, es[1..], user, to)
  }

  /** What an event is to one account. */
  function Seen(e: Event, user: UserId): Option<AccountEvent> {
    match e
    case Login(u, t) => if u == user then Some(Try(t)) else None
    case Refresh(_, _, _) => None
    case LogoutEverywhere(u) => if u == user then Some(Logout) else None
    case ChangeStatus(u, status) => if u == user then Some(SetStatus(status)) else None
  }

  /** The run as one account sees it. */
  function Project(es: seq<Event>, user: UserId): seq<AccountEvent> {
    if |es| == 0 then []
    else
      var rest := Project(es[1..], user);
      match Seen(es[0], user)
      case None => rest
      case Some(e) => [e] + rest
  }

  lemma StepSeen(w: World, e: Event, user: UserId)
    requires user in w.users
    ensures user in Step(w, e).users
    ensures match Seen(e, user) {
        case None => Step(w, e).users[user] == w.users[user]
        case Some(seen) => Step(w, e).users[user] == AccountStep(w.users[user], seen)
      }
    ensures AnsweredWrong(w, e, user) <==> Seen(e, user).Some? && Guess(w.users[user], Seen(e, user).value)
  {
  }

  /** The answers of a run are the verified guesses of its projection. */
  lemma {:induction false} RunSeen(w: World, es: seq<Event>, user: UserId, from: int, to: int)
    requires user in w.users && NoLogin(w, es, user) && LoginsClocked(from, es, user, to)
    ensures var a := w.users[user];
      && WrongAnswers(w, es, user) == Guesses(a, Project(es, user))
      && NoneSucceeds(a, Project(es, user)) && Clocked(from, Project(es, user), to)
    decreases |es|
  {
    if |es| > 0 {
      StepSeen(w, es[0], user);
      var next := if es[0].Login? && es[0].user == user then es[0].attempt.written else from;
      RunSeen(Step(w, es[0]), es[1..], user, next, to);
      var seen := Seen(es[0], user);
      if seen.Some? {
        assert ([seen.value] + Project(es[1..], user))[1..] == Project(es[1..], user);
      }
    }
  }

  /** Zero to four failures counted, and none while a lock is on record, for every account of a reachable world. */
  ghost predicate Counted(w: World) {
    forall u :: u in w.users ==> CountInv(w.users[u])
  }

  lemma {:induction false} RunKeepsCounted(w: World, es: seq<Event>)
    requires Counted(w)
    ensures Counted(Run(w, es)) && Run(w, es).users.Keys == w.users.Keys
    decreases |es|
  {
    if |es| > 0 {
      RunKeepsCounted(Step(w, es[0]), es[1..]);
    }
  }

  /**
   In any run, among any other accounts and events: as long as no login of the
   user succeeds, at most five per started fifteen minutes are answered as a wrong
   password, which is to say that at most so many passwords are looked at.
   */
  lemma WrongAnswersBound(w: World, es: seq<Event>, user: UserId, from: int, span: nat)
    requires Counted(w) && user in w.users && NoLogin(w, es, user) && LoginsClocked(from, es, user, from + span)
    ensures WrongAnswers(w, es, user) <= 5 * (span / 900_000 + 1)
  {
    RunSeen(w, es, user, from, from + span);
    LockoutBound(w.users[user], Project(es, user), from, span);
  }

  // ------------------------------------------------------------ the fifth wrong answer

  lemma WrongStep(w: World, e: Event, user: UserId)
    requires Counted(w) && user in w.users && AnsweredWrong(w, e, user)
    ensures user in Step(w, e).users
    ensures var a, b := w.users[user], Step(w, e).users[user];
      if a.failedLoginCount + 1 < 5 then b.failedLoginCount == a.failedLoginCount + 1 && b.lockedUntil == None
      else b.failedLoginCount == 0 && b.lockedUntil == Some(e.attempt.written + 900_000)
  {
  }

  lemma OtherStep(w: World, e: Event, user: UserId)
    requires user in w.users && !AnsweredWrong(w, e, user)
    requires !(e.Login? && e.user == user && AfterLogin(w, user, e.attempt).1.Success?)
    ensures user in Step(w, e).users
    ensures Step(w, e).users[user].failedLoginCount == w.users[user].failedLoginCount
    ensures Step(w, e).users[user].lockedUntil == w.users[user].lockedUntil
  {
  }

  /** While fewer than five are counted, the count goes up with every wrong answer and with nothing else. */
  lemma {:induction false} AnswersAreCounted(w: World, es: seq<Event>, user: UserId)
    requires Counted(w) && user in w.users && NoLogin(w, es, user)
    requires w.users[user].failedLoginCount + WrongAnswers(w, es, user) < 5
    ensures user in Run(w, es).users
    ensures Run(w, es).users[user].failedLoginCount == w.users[user].failedLoginCount + WrongAnswers(w, es, user)
    decreases |es|
  {
    if |es| > 0 {
      RunKeepsCounted(w, [es[0]]);
      assert [es[0]][1..] == [] && Run(w, [es[0]]) == Step(w, es[0]);
      if AnsweredWrong(w, es[0], user) {
        WrongStep(w, es[0], user);
      } else {
        OtherStep(w, es[0], user);
      }
      AnswersAreCounted(Step(w, es[0]), es[1..], user);
    }
  }

  /** Every login of the user in the run is checked at or after one time and before another. */
  predicate CheckedBetween(es: seq<Event>, user: UserId, from: int, to: int) {
    forall i :: 0 <= i < |es| && es[i].Login? && es[i].user == user ==> from <= es[i].attempt.checked < to
  }

  /** Every login of the user in the run is answered that the account is locked. */
  predicate AllLocked(w: World, es: seq<Event>, user: UserId)
    decreases |es|
  {
    |es| == 0
    || ((es[0].Login? && es[0].user == user ==> AfterLogin(w, user, es[0].attempt).1 == Failure(AccountLocked))
        && AllLocked(Step(w, es[0]), es[1..], user))
  }

  lemma {:induction false} LockHolds(w: World, es: seq<Event>, user: UserId, from: int, until: int)
    requires user in w.users && w.users[user].lockedUntil == Some(until) && CheckedBetween(es, user, from, until)
    ensures AllLocked(w, es, user)
    decreases |es|
  {
    if |es| > 0 {
      forall i | 0 <= i < |es[1..]| && es[1..][i].Login? && es[1..][i].user == user
        ensures from <= es[1..][i].attempt.checked < until
      {
        assert es[1..][i] == es[i + 1];
      }
      if es[0].Login? && es[0].user == user {
        LoginAnswers(w, user, es[0].attempt);
      }
      LockHolds(Step(w, es[0]), es[1..], user, from, until);
    }
  }

  /**
   The fifth wrong answer in a row locks the account: whatever happens in the next
   fifteen minutes, every login of the user is refused, the right password included.
   */
  lemma FifthWrongLocks(w: World, es: seq<Event>, user: UserId, t: Attempt, later: seq<Event>)
    requires Counted(w) && user in w.users && NoLogin(w, es, user)
    requires w.users[user].failedLoginCount + WrongAnswers(w, es, user) == 4
    requires AnsweredWrong(Run(w, es), Login(user, t), user)
    requires CheckedBetween(later, user, t.written, t.written + 900_000)
    ensures AllLocked(Step(Run(w, es), Login(user, t)), later, user)
  {
    AnswersAreCounted(w, es, user);
    RunKeepsCounted(w, es);
    WrongStep(Run(w, es), Login(user, t), user);
    LockHolds(Step(Run(w, es), Login(user, t)), later, user, t.written, t.written + 900_000);
  }

  /** And not before: with at most four wrong answers in a row the right password gets in. */
  lemma FourWrongDoNotLock(w: World, es: seq<Event>, user: UserId, t: Attempt)
    requires Counted(w) && user in w.users && NoLogin(w, es, user) && t.correct
    requires w.users[user].failedLoginCount + WrongAnswers(w, es, user) < 5 && !LockedAt(w.users[user], t.checked)
    requires Run(w, es).users.Keys == w.users.Keys && Run(w, es).users[user].status != Disabled
    ensures AfterLogin(Run(w, es), user, t).1.Success?
  {
    LockStays(w, es, user);
    LoginAnswers(Run(w, es), user, t);
  }

  lemma {:induction false} LockStays(w: World, es: seq<Event>, user: UserId)
    requires Counted(w) && user in w.users && NoLogin(w, es, user)
    requires w.users[user].failedLoginCount + WrongAnswers(w, es, user) < 5
    ensures user in Run(w, es).users
    ensures Run(w, es).users[user].lockedUntil == None
         || Run(w, es).users[user].lockedUntil == w.users[user].lockedUntil
    decreases |es|
  {
    if |es| > 0 {
      RunKeepsCounted(w, [es[0]]);
      assert [es[0]][1..] == [] && Run(w, [es[0]]) == Step(w, es[0]);
      if AnsweredWrong(w, es[0], user) {
        WrongStep(w, es[0], user);
      } else {
        OtherStep(w, es[0], user);
      }
      LockStays(Step(w, es[0]), es[1..], user);
    }
  }

  /** A status change and a logout of all sessions leave count and lock alone, and touch one account. */
  lemma AdminSteps(w: World, user: UserId, status: Status)
    requires user in w.users
    ensures Step(w, ChangeStatus(user, status)) == w.(users := w.users[user := w.users[user].(status := status)])
    ensures var after := Step(w, LogoutEverywhere(user));
      && after.issued == w.issued && user in after.users
      && after.users[user] == w.users[user].(tokenVersion := w.users[user].tokenVersion + 1)
  {
  }

  // ----------------------------------------------------------------- refresh chains

  lemma {:induction false} ChainStays(w: World, token: Token, x: nat, origin: nat)
    requires InChain(w, x, origin) && x < |w.issued|
    ensures InChain(w.(issued := w.issued + [token]), x, origin)
    decreases x
  {
    if x != origin {
      ChainStays(w, token, w.issued[x].parent.value, origin);
    }
  }

  /** A token got for one of a refresh chain is the next of that chain, with the account's present version. */
  lemma RefreshExtendsChain(w: World, x: nat, origin: nat, expired: bool, now: int)
    requires WorldInv(w) && x < |w.issued| && InChain(w, x, origin)
    requires AfterRefresh(w, w.issued[x], expired, now).1.Success?
    ensures var (w', result) := AfterRefresh(w, w.issued[x], expired, now);
      && w'.issued == w.issued + [result.value] && InChain(w', |w.issued|, origin)
      && result.value.sub == w.issued[x].sub && result.value.ver == w.issued[x].ver
  {
    assert TokenInv(w, x);
    var (w', result) := AfterRefresh(w, w.issued[x], expired, now);
    ChainStays(w, result.value, x, origin);
  }
}
