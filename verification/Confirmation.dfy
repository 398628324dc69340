/**
 Waiting for a confirmation (src/rpc/rpc_client.ts, `waitForConfirmation`): poll, retry transient
 failures, stop at the deadline. The node and the clock are an environment that decides how each
 poll ends and by how much each sleep overruns; it can be anything.
 */
module Confirmation {
  import opened Basics

  /** What a poll brings back; only the presence of an execution result matters here. */
  datatype Info = Info(raw: Bytes, executionResult: Option<Bytes>)

  /** How the race between a poll and the deadline timer ends, and when, counted from the poll's start. */
  datatype Poll =
    | Resolved(info: Info, after: nat)
    | Rejected(cause: nat, after: nat)
    | Expired(late: nat)               // the timer first; timers may be late, never early

  datatype Environment = Environment(poll: nat -> Poll, oversleep: nat -> nat)

  datatype Outcome = Returned(info: Info) | TimedOut | GaveUp(cause: nat)

  /** A whole run: its polls in order, how it ended and when. */
  datatype Run = Run(polls: seq<Poll>, outcome: Outcome, end: int)

  function Max(a: int, b: int): int {
    if a >= b then a else b
  }

  function CeilDiv(n: nat, d: nat): nat
    requires d > 0
  {
    (n + d - 1) / d
  }

  predicate Confirms(p: Poll) {
    p.Resolved? && p.info.executionResult.Some?
  }

  // ----------------------------------------------------------- specification

  /** The retries still allowed and the 400 ms sleeps that still fit: what the loop lives on. */
  function Budget(now: int, deadline: int, attempts: nat, maxRetries: int): (n: nat) {
    Max(0, maxRetries - attempts) + CeilDiv(Max(0, deadline - now), 400)
  }

  /** Sleeping 400 ms before the deadline spends at least one unit. */
  lemma SleepSpends(now: int, later: int, deadline: int, attempts: nat, maxRetries: int)
    requires now < deadline && later >= now + 400
    ensures Budget(later, deadline, attempts, maxRetries) < Budget(now, deadline, attempts, maxRetries)
  {
  }

  lemma RetrySpends(now: int, later: int, deadline: int, attempts: nat, maxRetries: int)
    requires attempts < maxRetries && later >= now
    ensures Budget(later, deadline, attempts + 1, maxRetries) < Budget(now, deadline, attempts, maxRetries)
  {
  }

  /** When poll k, begun at `now`, has been decided. */
  function EndOf(p: Poll, now: int, deadline: int): (t: int)
    ensures t >= now
  {
    if p.Expired? then now + Max(0, deadline - now) + p.late else now + p.after
  }

  /** The run from poll k on. */
  function RunFrom(env: Environment, k: nat, now: int, deadline: int, attempts: nat, maxRetries: int, retryDelay: int)
    : (r: Run)
    decreases Budget(now, deadline, attempts, maxRetries)
  {
    var p := env.poll(k);
    var t := EndOf(p, now, deadline);
    if p.Expired? then Run([p], TimedOut, t)
    else if Confirms(p) then Run([p], Returned(p.info), t)
    else if p.Rejected? && attempts >= maxRetries then Run([p], GaveUp(p.cause), t)
    else if t >= deadline then Run([p], TimedOut, t)
    else
      var next := t + (if p.Rejected? then Max(0, retryDelay) else 400) + env.oversleep(k);
      var used := if p.Rejected? then attempts + 1 else attempts;
      if p.Rejected? then
        RetrySpends(now, next, deadline, attempts, maxRetries);
        var rest := RunFrom(env, k + 1, next, deadline, used, maxRetries, retryDelay);
        Run([p] + rest.polls, rest.outcome, rest.end)
      else
        SleepSpends(now, next, deadline, attempts, maxRetries);
        var rest := RunFrom(env, k + 1, next, deadline, used, maxRetries, retryDelay);
        Run([p] + rest.polls, rest.outcome, rest.end)
  }

  // --------------------------------------------------------------- the loop

  /** A run that has made these polls and goes on with that one. */
  function After(polls: seq<Poll>, rest: Run): (r: Run) {
    Run(polls + rest.polls, rest.outcome, rest.end)
  }

  lemma AfterOneMore(polls: seq<Poll>, p: Poll, rest: Run)
    ensures After(polls, Run([p] + rest.polls, rest.outcome, rest.end)) == After(polls + [p], rest)
  {
    assert polls + ([p] + rest.polls) == polls + [p] + rest.polls;
  }

  method WaitForConfirmation(env: Environment, start: int, timeout: int, maxRetries: int, retryDelay: int)
    returns (r: Run)
    ensures r == RunFrom(env, 0, start, start + timeout, 0, maxRetries, retryDelay)
    ensures |r.polls| <= Max(0, maxRetries) + CeilDiv(Max(0, timeout), 400) + 1
    ensures EndsAsItsLastPoll(r, start + timeout, Max(0, maxRetries))
  {
    hide Budget, Max, EndOf, After, EndsAsItsLastPoll, CeilDiv;
    ConfirmationBounds(env, start, timeout, maxRetries, retryDelay);
    var deadline := start + timeout;
    var now := start;
    var attempts: nat := 0;
    var polls: seq<Poll> := [];
    NothingYet(RunFrom(env, 0, start, deadline, 0, maxRetries, retryDelay));
    while true
      invariant RunFrom(env, 0, start, deadline, 0, maxRetries, retryDelay)
                == After(polls, RunFrom(env, |polls|, now, deadline, attempts, maxRetries, retryDelay))
      decreases Budget(now, deadline, attempts, maxRetries)
    {
      ghost var begun := now;
      var p := env.poll(|polls|);
      now := EndOf(p, now, deadline);
      if p.Expired? {
        return Finish(polls, p, TimedOut, now);
      } else if p.Rejected? {
        if attempts >= maxRetries {
          return Finish(polls, p, GaveUp(p.cause), now);
        }
        attempts := attempts + 1;
        if now >= deadline {
          return Finish(polls, p, TimedOut, now);
        }
        now := now + Max(0, retryDelay) + env.oversleep(|polls|);
        RetryLater(begun, now, deadline, attempts, maxRetries, p, retryDelay, env.oversleep(|polls|));
      } else {
        if Confirms(p) {
          return Finish(polls, p, Returned(p.info), now);
        }
        if now >= deadline {
          return Finish(polls, p, TimedOut, now);
        }
        now := now + 400 + env.oversleep(|polls|);
        SleepSpends(begun, now, deadline, attempts, maxRetries);
      }
      AfterOneMore(polls, p, RunFrom(env, |polls| + 1, now, deadline, attempts, maxRetries, retryDelay));
      polls := polls + [p];
    }
  }

  /** The run whose last poll this was. */
  function Finish(polls: seq<Poll>, p: Poll, outcome: Outcome, end: int): (r: Run)
    ensures r == After(polls, Run([p], outcome, end))
  {
    Run(polls + [p], outcome, end)
  }

  lemma NothingYet(r: Run)
    ensures After([], r) == r
  {
    assert [] + r.polls == r.polls;
  }

  lemma RetryLater(begun: int, later: int, deadline: int, attempts: nat, maxRetries: int, p: Poll,
                   retryDelay: int, overrun: nat)
    requires 0 < attempts <= maxRetries && later == EndOf(p, begun, deadline) + Max(0, retryDelay) + overrun
    ensures Budget(later, deadline, attempts, maxRetries) < Budget(begun, deadline, attempts - 1, maxRetries)
  {
    RetrySpends(begun, later, deadline, attempts - 1, maxRetries);
  }

  // ------------------------------------------------------------- properties

  function Rejections(polls: seq<Poll>): (n: nat) {
    if polls == [] then 0 else (if polls[0].Rejected? then 1 else 0) + Rejections(polls[1..])
  }

  /** The number of polls is bounded by the retries and the sleeps that fit before the deadline, plus one. */
  lemma {:induction false} PollsAreBounded(env: Environment, k: nat, now: int, deadline: int, attempts: nat,
                                           maxRetries: int, retryDelay: int)
    ensures 1 <= |RunFrom(env, k, now, deadline, attempts, maxRetries, retryDelay).polls|
              <= Budget(now, deadline, attempts, maxRetries) + 1
    decreases Budget(now, deadline, attempts, maxRetries)
  {
    hide Budget;
    var p := env.poll(k);
    var t := EndOf(p, now, deadline);
    if p.Rejected? && attempts < maxRetries && t < deadline {
      var next := t + Max(0, retryDelay) + env.oversleep(k);
      RetrySpends(now, next, deadline, attempts, maxRetries);
      PollsAreBounded(env, k + 1, next, deadline, attempts + 1, maxRetries, retryDelay);
    } else if p.Resolved? && !Confirms(p) && t < deadline {
      var next := t + 400 + env.oversleep(k);
      SleepSpends(now, next, deadline, attempts, maxRetries);
      PollsAreBounded(env, k + 1, next, deadline, attempts, maxRetries, retryDelay);
    }
  }

  /** How the last poll decides the outcome, and that no earlier poll could have. */
  predicate EndsAsItsLastPoll(r: Run, deadline: int, retriesLeft: nat) {
    && r.polls != []
    && var last := r.polls[|r.polls| - 1];
       && (forall i :: 0 <= i < |r.polls| - 1 ==> !Confirms(r.polls[i]) && !r.polls[i].Expired?)
       && Rejections(r.polls) <= retriesLeft + 1
       && (r.outcome.Returned? <==> Confirms(last))
       && (r.outcome.Returned? ==> r.outcome.info == last.info)
       && (r.outcome.GaveUp? <==> Rejections(r.polls) == retriesLeft + 1)
       && (r.outcome.GaveUp? ==> last.Rejected? && r.outcome.cause == last.cause)
       && (r.outcome.TimedOut? ==> r.end >= deadline)
       && (last.Expired? ==> r.outcome.TimedOut?)
  }

  lemma OneMorePoll(p: Poll, rest: Run, deadline: int, retriesLeft: nat)
    requires EndsAsItsLastPoll(rest, deadline, retriesLeft)
    requires !Confirms(p) && !p.Expired?
    ensures EndsAsItsLastPoll(Run([p] + rest.polls, rest.outcome, rest.end), deadline,
                              retriesLeft + if p.Rejected? then 1 else 0)
  {
    hide Confirms;
    var polls := [p] + rest.polls;
    assert polls[1..] == rest.polls;
    assert polls[|polls| - 1] == rest.polls[|rest.polls| - 1];
    assert Rejections(polls) == (if p.Rejected? then 1 else 0) + Rejections(rest.polls);
    forall i | 0 <= i < |polls| - 1 ensures !Confirms(polls[i]) && !polls[i].Expired? {
      assert i > 0 ==> polls[i] == rest.polls[i - 1];
    }
  }

  /**
   A run returns exactly when its last poll carries an execution result, and then that one; it gives
   up exactly at the failure after the last allowed retry, counted over the whole run; it reports
   a timeout only once the deadline has come; and it never polls again after the deadline error.
   */
  lemma {:induction false} RunsEndRightly(env: Environment, k: nat, now: int, deadline: int, attempts: nat,
                                          maxRetries: int, retryDelay: int)
    ensures EndsAsItsLastPoll(RunFrom(env, k, now, deadline, attempts, maxRetries, retryDelay), deadline,
                              Max(0, maxRetries - attempts))
    decreases Budget(now, deadline, attempts, maxRetries)
  {
    hide Budget, EndsAsItsLastPoll;
    var p := env.poll(k);
    var t := EndOf(p, now, deadline);
    if p.Rejected? && attempts < maxRetries && t < deadline {
      var next := t + Max(0, retryDelay) + env.oversleep(k);
      RetrySpends(now, next, deadline, attempts, maxRetries);
      RunsEndRightly(env, k + 1, next, deadline, attempts + 1, maxRetries, retryDelay);
      OneMorePoll(p, RunFrom(env, k + 1, next, deadline, attempts + 1, maxRetries, retryDelay), deadline,
                  Max(0, maxRetries - attempts - 1));
    } else if p.Resolved? && !Confirms(p) && t < deadline {
      var next := t + 400 + env.oversleep(k);
      SleepSpends(now, next, deadline, attempts, maxRetries);
      RunsEndRightly(env, k + 1, next, deadline, attempts, maxRetries, retryDelay);
      OneMorePoll(p, RunFrom(env, k + 1, next, deadline, attempts, maxRetries, retryDelay), deadline,
                  Max(0, maxRetries - attempts));
    } else {
      OnlyPoll(RunFrom(env, k, now, deadline, attempts, maxRetries, retryDelay), p, deadline,
               Max(0, maxRetries - attempts));
    }
  }

  lemma OnlyPoll(r: Run, p: Poll, deadline: int, retriesLeft: nat)
    requires r.polls == [p]
    requires r.outcome.Returned? <==> Confirms(p)
    requires r.outcome.Returned? ==> r.outcome.info == p.info
    requires r.outcome.GaveUp? ==> p.Rejected? && retriesLeft == 0 && r.outcome.cause == p.cause
    requires p.Rejected? && retriesLeft == 0 ==> r.outcome.GaveUp?
    requires r.outcome.TimedOut? ==> r.end >= deadline
    requires p.Expired? ==> r.outcome.TimedOut?
    ensures EndsAsItsLastPoll(r, deadline, retriesLeft)
  {
    assert [p][1..] == [];
    assert Rejections([p]) == if p.Rejected? then 1 else 0;
  }

  /** The pause after a poll: the delay after a failure, else 400 ms. */
  function Pause(p: Poll, retryDelay: int): (t: int) {
    if p.Resolved? then 400 else if retryDelay < 0 then 0 else retryDelay
  }

  /** How long polls that did not end the run took, with the pauses after them and their overruns. */
  function Spent(env: Environment, k: nat, polls: seq<Poll>, retryDelay: int): (t: int)
    requires forall i :: 0 <= i < |polls| ==> !polls[i].Expired?
    decreases |polls|
  {
    if polls == [] then 0
    else
      polls[0].after + Pause(polls[0], retryDelay) + env.oversleep(k) + Spent(env, k + 1, polls[1..], retryDelay)
  }

  /** The polls are the node's in order, and every moment is one of a poll, a pause or an overrun. */
  ghost predicate TimeAddsUp(r: Run, env: Environment, k: nat, now: int, deadline: int, retryDelay: int) {
    var n := |r.polls| - 1;
    && n >= 0
    && (forall i :: 0 <= i <= n ==> r.polls[i] == env.poll(k + i))
    && (forall i :: 0 <= i < n ==> !r.polls[i].Expired?)
    && r.end == EndOf(r.polls[n], now + Spent(env, k, r.polls[..n], retryDelay), deadline)
  }

  lemma OneMoreAddsUp(p: Poll, rest: Run, env: Environment, k: nat, now: int, deadline: int, retryDelay: int)
    requires p == env.poll(k) && !p.Expired?
    requires TimeAddsUp(rest, env, k + 1, now + p.after + Pause(p, retryDelay) + env.oversleep(k), deadline, retryDelay)
    ensures TimeAddsUp(Run([p] + rest.polls, rest.outcome, rest.end), env, k, now, deadline, retryDelay)
  {
    hide EndOf, Pause;
    var polls, n := [p] + rest.polls, |rest.polls|;
    forall i | 0 <= i <= n ensures polls[i] == env.poll(k + i) {
      assert i > 0 ==> polls[i] == rest.polls[i - 1] == env.poll(k + 1 + (i - 1));
    }
    assert polls[..n] == [p] + rest.polls[..n - 1];
    assert polls[..n][1..] == rest.polls[..n - 1];
  }

  /** A run ends after its polls' own times, 400 ms or the retry delay after each but the last, and the overruns. */
  lemma {:induction false} TimeIsAccountedFor(env: Environment, k: nat, now: int, deadline: int, attempts: nat,
                                              maxRetries: int, retryDelay: int)
    ensures TimeAddsUp(RunFrom(env, k, now, deadline, attempts, maxRetries, retryDelay), env, k, now, deadline,
                       retryDelay)
    decreases Budget(now, deadline, attempts, maxRetries)
  {
    hide Budget, TimeAddsUp;
    var p := env.poll(k);
    var t := EndOf(p, now, deadline);
    if p.Rejected? && attempts < maxRetries && t < deadline {
      var next := t + Max(0, retryDelay) + env.oversleep(k);
      RetrySpends(now, next, deadline, attempts, maxRetries);
      TimeIsAccountedFor(env, k + 1, next, deadline, attempts + 1, maxRetries, retryDelay);
      OneMoreAddsUp(p, RunFrom(env, k + 1, next, deadline, attempts + 1, maxRetries, retryDelay), env, k, now,
                    deadline, retryDelay);
    } else if p.Resolved? && !Confirms(p) && t < deadline {
      var next := t + 400 + env.oversleep(k);
      SleepSpends(now, next, deadline, attempts, maxRetries);
      TimeIsAccountedFor(env, k + 1, next, deadline, attempts, maxRetries, retryDelay);
      OneMoreAddsUp(p, RunFrom(env, k + 1, next, deadline, attempts, maxRetries, retryDelay), env, k, now, deadline,
                    retryDelay);
    } else {
      OnlyPollAddsUp(RunFrom(env, k, now, deadline, attempts, maxRetries, retryDelay), env, k, now, deadline,
                     retryDelay);
    }
  }

  lemma OnlyPollAddsUp(r: Run, env: Environment, k: nat, now: int, deadline: int, retryDelay: int)
    requires r.polls == [env.poll(k)] && r.end == EndOf(env.poll(k), now, deadline)
    ensures TimeAddsUp(r, env, k, now, deadline, retryDelay)
  {
    hide EndOf;
    assert r.polls[..0] == [];
  }

  /** The bounds a caller of `waitForConfirmation` can rely on, whatever the node and the clock do. */
  lemma ConfirmationBounds(env: Environment, start: int, timeout: int, maxRetries: int, retryDelay: int)
    ensures var r := RunFrom(env, 0, start, start + timeout, 0, maxRetries, retryDelay);
            && |r.polls| <= Max(0, maxRetries) + CeilDiv(Max(0, timeout), 400) + 1
            && EndsAsItsLastPoll(r, start + timeout, Max(0, maxRetries))
  {
    hide RunFrom, EndsAsItsLastPoll, Max, CeilDiv;
    PollsAreBounded(env, 0, start, start + timeout, 0, maxRetries, retryDelay);
    RunsEndRightly(env, 0, start, start + timeout, 0, maxRetries, retryDelay);
  }

  /** A node that fails at once as often as allowed and then never has a result, under a punctual clock. */
  function Stubborn(failures: nat): (env: Environment) {
    Environment(k => if k < failures then Rejected(0, 0) else Resolved(Info([], None), 0), k => 0)
  }

  /** The bound on polls is the best possible: this node uses it up for every retry count and positive timeout. */
  lemma {:induction false} PollBoundIsReached(k: nat, now: int, deadline: int, failures: nat)
    requires now < deadline
    ensures |RunFrom(Stubborn(failures), k, now, deadline, Min(k, failures), failures, 0).polls|
            == Budget(now, deadline, Min(k, failures), failures) + 1
    decreases Budget(now, deadline, Min(k, failures), failures)
  {
    var env := Stubborn(failures);
    var attempts: nat := Min(k, failures);
    if k < failures {
      RetrySpends(now, now, deadline, attempts, failures);
      PollBoundIsReached(k + 1, now, deadline, failures);
    } else {
      var next := now + 400;
      SleepSpends(now, next, deadline, attempts, failures);
      if next < deadline {
        PollBoundIsReached(k + 1, next, deadline, failures);
      } else {
        var last := RunFrom(env, k + 1, next, deadline, attempts, failures, 0);
        assert |last.polls| == 1;
      }
    }
  }
}
