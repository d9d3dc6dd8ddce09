/** The bounded polls of `e2e/src/harness.rs`, over every clock: attempts take
    any time, and what they report is chosen by the environment. Times are
    nanoseconds. */
module Polling {
  import opened Arithmetic
  import opened Common

  // ----- poll_until -----

  /** What one attempt reports: `Ok(Some(v))`, `Ok(None)` or `Err(e)`. */
  datatype Outcome<+T, +E> = Found(value: T) | NotYet | Failed(error: E)

  /** The environment of one poll: for the k-th attempt, its outcome, how long
      it takes, and how much later than asked the sleep after it wakes. */
  datatype Env<!T, !E> = Env(outcome: nat -> Outcome<T, E>, takes: nat -> nat, late: nat -> nat)

  datatype PollError<+E> = TimedOut | TimedOutWith(error: E)

  /** What a poll whose last attempt reported `o` returns. */
  function Report<T, E>(o: Outcome<T, E>): (r: Result<T, PollError<E>>)
    ensures (r.Ok? <==> o.Found?) && (r.Ok? ==> r.value == o.value)
    ensures r.Err? ==> (r.error.TimedOut? <==> o.NotYet?) && (o.Failed? ==> r.error == TimedOutWith(o.error))
  {
    match o
    case Found(v) => Ok(v)
    case NotYet => Err(TimedOut)
    case Failed(e) => Err(TimedOutWith(e))
  }

  /** The start times of the attempts of one poll, so far. */
  ghost predicate IsRun<T, E>(env: Env<T, E>, start: nat, timeout: nat, interval: nat, starts: seq<nat>) {
    && |starts| > 0 && starts[0] == start
    && forall i {:trigger starts[i]} :: 0 < i < |starts| ==>
         Continues(env, start + timeout, interval, i - 1, starts[i - 1], starts[i])
  }

  /** Attempt `i` began at `s`, did not find anything before the deadline, and the next began at `s'`. */
  ghost predicate Continues<T, E>(env: Env<T, E>, deadline: nat, interval: nat, i: nat, s: nat, s': nat) {
    var end := s + env.takes(i);
    !env.outcome(i).Found? && end < deadline && s' == end + Min(interval, deadline - end) + env.late(i)
  }

  ghost predicate IsFinished<T, E>(env: Env<T, E>, start: nat, timeout: nat, starts: seq<nat>)
    requires |starts| > 0
  {
    var last := |starts| - 1;
    env.outcome(last).Found? || starts[last] + env.takes(last) >= start + timeout
  }

  // When the loop ends: attempt by attempt, on the clock it would see if nothing stopped it.

  function StartAt<T, E>(env: Env<T, E>, start: nat, timeout: nat, interval: nat, k: nat): nat {
    if k == 0 then start
    else
      var (end, deadline) := (StartAt(env, start, timeout, interval, k - 1) + env.takes(k - 1), start + timeout);
      end + Min(interval, if end < deadline then deadline - end else 0) + env.late(k - 1)
  }

  predicate StopsAt<T, E>(env: Env<T, E>, start: nat, timeout: nat, interval: nat, k: nat) {
    env.outcome(k).Found? || StartAt(env, start, timeout, interval, k) + env.takes(k) >= start + timeout
  }

  ghost predicate Ends<T, E>(env: Env<T, E>, start: nat, timeout: nat, interval: nat) {
    exists k: nat :: StopsAt(env, start, timeout, interval, k)
  }

  /** The time attempts up to `k` and the lateness between them take by themselves. */
  function Elapsed<T, E>(env: Env<T, E>, k: nat): nat {
    env.takes(k) + if k == 0 then 0 else Elapsed(env, k - 1) + env.late(k - 1)
  }

  /** The environment itself ends the poll: something is found, or the time is used up. */
  predicate EndedBy<T, E>(env: Env<T, E>, timeout: nat, k: nat) {
    env.outcome(k).Found? || Elapsed(env, k) >= timeout
  }

  /** The poll ends exactly when it sleeps, or its environment ends it. */
  lemma EndsExactly<T, E>(env: Env<T, E>, start: nat, timeout: nat, interval: nat)
    ensures Ends(env, start, timeout, interval) <==> interval > 0 || exists k: nat :: EndedBy(env, timeout, k)
  {
    if interval > 0 {
      var k := CeilDiv(timeout, interval);
      StartsLate(env, start, timeout, interval, k);
      if k * interval < timeout { BelowCeil(k, timeout, interval); }
      assert StopsAt(env, start, timeout, interval, k);
    } else {
      forall k: nat ensures StopsAt(env, start, timeout, 0, k) <==> EndedBy(env, timeout, k) {
        NeverSleeps(env, start, timeout, k);
      }
    }
  }

  lemma {:induction false} StartsLate<T, E>(env: Env<T, E>, start: nat, timeout: nat, interval: nat, k: nat)
    ensures StartAt(env, start, timeout, interval, k) >= Min(start + k * interval, start + timeout)
  {
    if k > 0 {
      StartsLate(env, start, timeout, interval, k - 1);
      assert k * interval == (k - 1) * interval + interval;
    }
  }

  lemma {:induction false} NeverSleeps<T, E>(env: Env<T, E>, start: nat, timeout: nat, k: nat)
    ensures StartAt(env, start, timeout, 0, k) + env.takes(k) == start + Elapsed(env, k)
  {
    if k > 0 { NeverSleeps(env, start, timeout, k - 1); }
  }

  /** Without an interval, a standing clock and attempts that find nothing never end it. */
  lemma BusyPollNeedNotEnd(start: nat, timeout: nat) returns (env: Env<nat, nat>)
    requires timeout > 0
    ensures !Ends(env, start, timeout, 0)
  {
    env := Env(_ => NotYet, _ => 0, _ => 0);
    EndsExactly(env, start, timeout, 0);
    forall k: nat ensures !EndedBy(env, timeout, k) { StandsStill(env, k); }
  }

  lemma {:induction false} StandsStill(env: Env<nat, nat>, k: nat)
    requires forall i: nat :: env.takes(i) == 0 && env.late(i) == 0
    ensures Elapsed(env, k) == 0
  {
    if k > 0 { StandsStill(env, k - 1); }
  }

  /** `poll_until`, whenever it ends. */
  method PollUntil<T, E>(env: Env<T, E>, start: nat, timeout: nat, interval: nat)
    returns (r: Result<T, PollError<E>>, now: nat, starts: seq<nat>)
    requires Ends(env, start, timeout, interval)
    ensures |starts| > 0
    ensures IsRun(env, start, timeout, interval, starts) && IsFinished(env, start, timeout, starts)
    ensures r == Report(env.outcome(|starts| - 1))
    ensures now == starts[|starts| - 1] + env.takes(|starts| - 1)
    ensures interval > 0 ==> |starts| <= CeilDiv(timeout, interval) + 1
    ensures forall i :: 0 <= i < |starts| - 1 ==> starts[i] < start + timeout
  {
    hide IsRun, CeilDiv, StartAt, StopsAt;
    ghost var n: nat :| StopsAt(env, start, timeout, interval, n);
    var deadline := start + timeout;
    var k := 0;
    starts := [start];
    AttemptStep(env, start, timeout, interval, 0);
    RunBegins(env, start, timeout, interval);
    now := start + env.takes(0);
    while !env.outcome(k).Found? && now < deadline
      invariant |starts| == k + 1 && IsRun(env, start, timeout, interval, starts)
      invariant starts[k] == StartAt(env, start, timeout, interval, k) && now == starts[k] + env.takes(k)
      invariant k <= n
      decreases n - k
    {
      AttemptStep(env, start, timeout, interval, k);
      var wake := now + Min(interval, deadline - now) + env.late(k);
      RunGoesOn(env, start, timeout, interval, starts, wake);
      starts := starts + [wake];
      k := k + 1;
      now := wake + env.takes(k);
    }
    match env.outcome(k) {
      case Found(v) => r := Ok(v);
      case NotYet => r := Err(TimedOut);
      case Failed(e) => r := Err(TimedOutWith(e));
    }
    RunBounds(env, start, timeout, interval, starts);
  }

  lemma AttemptStep<T, E>(env: Env<T, E>, start: nat, timeout: nat, interval: nat, k: nat)
    ensures StartAt(env, start, timeout, interval, 0) == start
    ensures var (end, deadline) := (StartAt(env, start, timeout, interval, k) + env.takes(k), start + timeout);
      && (StopsAt(env, start, timeout, interval, k) <==> env.outcome(k).Found? || end >= deadline)
      && (end < deadline ==>
          StartAt(env, start, timeout, interval, k + 1) == end + Min(interval, deadline - end) + env.late(k))
  {
  }

  lemma RunBegins<T, E>(env: Env<T, E>, start: nat, timeout: nat, interval: nat)
    ensures IsRun(env, start, timeout, interval, [start])
  {
  }

  lemma RunContinues<T, E>(env: Env<T, E>, start: nat, timeout: nat, interval: nat, starts: seq<nat>, k: nat)
    requires IsRun(env, start, timeout, interval, starts) && 0 < k < |starts|
    ensures Continues(env, start + timeout, interval, k - 1, starts[k - 1], starts[k])
  {
  }

  lemma RunGoesOn<T, E>(env: Env<T, E>, start: nat, timeout: nat, interval: nat, starts: seq<nat>, wake: nat)
    requires IsRun(env, start, timeout, interval, starts)
    requires Continues(env, start + timeout, interval, |starts| - 1, starts[|starts| - 1], wake)
    ensures IsRun(env, start, timeout, interval, starts + [wake])
  {
    hide Continues;
    var more := starts + [wake];
    forall i {:trigger more[i]} | 0 < i < |more|
      ensures Continues(env, start + timeout, interval, i - 1, more[i - 1], more[i])
    {
      if i < |starts| { assert starts[i] == more[i] && starts[i - 1] == more[i - 1]; }
    }
  }

  /** Attempts are at least an interval apart until the deadline. */
  lemma {:induction false} StartsSpread<T, E>(env: Env<T, E>, start: nat, timeout: nat, interval: nat,
                                              starts: seq<nat>, k: nat)
    requires IsRun(env, start, timeout, interval, starts) && k < |starts|
    ensures starts[k] >= Min(start + k * interval, start + timeout)
  {
    if k > 0 {
      StartsSpread(env, start, timeout, interval, starts, k - 1);
      assert Continues(env, start + timeout, interval, k - 1, starts[k - 1], starts[k]);
      assert k * interval == (k - 1) * interval + interval;
    }
  }

  /** At most ceil(timeout / interval) + 1 attempts, and only the last of them
      may begin at or after the deadline. */
  lemma RunBounds<T, E>(env: Env<T, E>, start: nat, timeout: nat, interval: nat, starts: seq<nat>)
    requires IsRun(env, start, timeout, interval, starts)
    ensures interval > 0 ==> |starts| <= CeilDiv(timeout, interval) + 1
    ensures forall i :: 0 <= i < |starts| - 1 ==> starts[i] < start + timeout
    ensures forall i :: 0 < i < |starts| ==> starts[i] <= start + timeout + env.late(i - 1)
  {
    forall i | 0 <= i < |starts| - 1
      ensures starts[i] < start + timeout && starts[i + 1] <= start + timeout + env.late(i)
    {
      assert Continues(env, start + timeout, interval, i, starts[i], starts[i + 1]);
    }
    forall i | 0 < i < |starts| ensures starts[i] <= start + timeout + env.late(i - 1) {
      assert starts[(i - 1) + 1] <= start + timeout + env.late(i - 1);
    }
    if interval > 0 && |starts| >= 2 {
      var k := |starts| - 2;
      StartsSpread(env, start, timeout, interval, starts, k);
      BelowCeil(k, timeout, interval);
    }
  }

  lemma BelowCeil(k: nat, a: nat, b: nat)
    requires b > 0 && k * b < a
    ensures k < CeilDiv(a, b)
  {
    var (q, r) := ((a + b - 1) / b, (a + b - 1) % b);
    assert a + b - 1 == q * b + r;
    if q <= k { MulLe(q, k, b); }
  }

  lemma AboveCeil(k: nat, a: nat, b: nat)
    requires b > 0 && k < CeilDiv(a, b)
    ensures k * b < a
  {
    var (q, r) := ((a + b - 1) / b, (a + b - 1) % b);
    assert a + b - 1 == q * b + r;
    MulLe(k + 1, q, b);
    assert (k + 1) * b == k * b + b;
  }

  /** The bound is met: an instantaneous attempt that never succeeds, under
      exact timers, is made exactly that often. */
  lemma BoundIsTight(start: nat, timeout: nat, interval: nat) returns (env: Env<nat, nat>, starts: seq<nat>)
    requires interval > 0
    ensures IsRun(env, start, timeout, interval, starts) && IsFinished(env, start, timeout, starts)
    ensures |starts| == CeilDiv(timeout, interval) + 1
  {
    env := Env(_ => NotYet, _ => 0, _ => 0);
    var n := CeilDiv(timeout, interval);
    starts := seq(n + 1, i requires i >= 0 => start + Min(i * interval, timeout));
    forall i | 0 < i <= n ensures Continues(env, start + timeout, interval, i - 1, starts[i - 1], starts[i]) {
      AboveCeil(i - 1, timeout, interval);
      assert i * interval == (i - 1) * interval + interval;
    }
    if n * interval < timeout { BelowCeil(n, timeout, interval); }
  }

  // ----- wait_ready and wait_listening -----

  const READY_REQUEST_TIMEOUT := 5_000_000_000
  const READY_POLL_INTERVAL := 500_000_000

  /** What the k-th request would meet if nobody cut it off. */
  datatype Reply = Answer(delay: nat, status: nat) | Broken(delay: nat) | Silent

  /** `wait_ready` wants a 2xx; `wait_listening` any answer at all. */
  datatype Probe = Ready | Listening

  predicate Accepted(p: Probe, reply: Reply, budget: nat) {
    reply.Answer? && reply.delay <= budget && (p.Listening? || 200 <= reply.status < 300)
  }

  /** How long the request runs under an exact per-attempt timer. */
  function Spent(reply: Reply, budget: nat): nat {
    match reply
    case Answer(d, _) => Min(d, budget)
    case Broken(d) => Min(d, budget)
    case Silent => budget
  }

  function Budget(s: nat, deadline: nat): nat
    requires s <= deadline
  {
    Min(deadline - s, READY_REQUEST_TIMEOUT)
  }

  predicate AcceptedAt(reply: Reply, p: Probe, deadline: nat, s: nat) {
    s <= deadline && Accepted(p, reply, Budget(s, deadline))
  }

  /** When the loop is back at its head after a refused attempt that began at `s`. */
  function After(reply: Reply, deadline: nat, s: nat): (t: nat)
    requires s <= deadline
    ensures Min(s + READY_POLL_INTERVAL, deadline) <= t <= deadline
    ensures t <= s + READY_REQUEST_TIMEOUT + READY_POLL_INTERVAL
  {
    var end := s + Spent(reply, Budget(s, deadline));
    end + Min(READY_POLL_INTERVAL, deadline - end)
  }

  /** The start times of the attempts of one wait, so far. */
  ghost predicate IsWait(replies: nat -> Reply, p: Probe, start: nat, deadline: nat, starts: seq<nat>) {
    && (|starts| > 0 ==> starts[0] == start)
    && (forall i :: 0 <= i < |starts| ==> starts[i] < deadline)
    && forall i {:trigger starts[i]} :: 0 < i < |starts| ==>
         Refused(replies(i - 1), p, deadline, starts[i - 1], starts[i])
  }

  /** An attempt at `s` was refused and the loop head reached again at `s'`. */
  ghost predicate Refused(reply: Reply, p: Probe, deadline: nat, s: nat, s': nat) {
    s < deadline && !AcceptedAt(reply, p, deadline, s) && s' == After(reply, deadline, s)
  }

  /** The loop head is reached at `now` with no acceptance so far. */
  ghost predicate AtHead(replies: nat -> Reply, p: Probe, start: nat, deadline: nat, starts: seq<nat>, now: nat) {
    var k := |starts|;
    if k == 0 then now == start else Refused(replies(k - 1), p, deadline, starts[k - 1], now)
  }

  /** The answer the probe waits for, in time: within five seconds and before the deadline. */
  predicate Good(reply: Reply, p: Probe, remaining: int) {
    && reply.Answer? && reply.delay <= 5_000_000_000 && reply.delay <= remaining
    && (p.Ready? ==> 200 <= reply.status < 300)
  }

  /** An accepted answer took its own delay. */
  lemma AcceptedSpent(p: Probe, reply: Reply, budget: nat)
    requires Accepted(p, reply, budget)
    ensures Spent(reply, budget) == Delay(reply)
  {
  }

  function Delay(reply: Reply): nat { if reply.Silent? then 0 else reply.delay }

  /** Every attempt but an accepted last one was refused. */
  lemma WaitVerdicts(replies: nat -> Reply, p: Probe, start: nat, deadline: nat, starts: seq<nat>, now: nat, ok: bool)
    requires IsWait(replies, p, start, deadline, starts)
    requires ok ==> |starts| > 0 && AcceptedAt(replies(|starts| - 1), p, deadline, starts[|starts| - 1])
    requires !ok ==> AtHead(replies, p, start, deadline, starts, now)
    ensures forall k :: 0 <= k < |starts| ==> (ok && k == |starts| - 1 <==> Good(replies(k), p, deadline - starts[k]))
  {
    hide After;
    forall k | 0 <= k < |starts| ensures ok && k == |starts| - 1 <==> Good(replies(k), p, deadline - starts[k]) {
      assert AcceptedAt(replies(k), p, deadline, starts[k]) <==> Good(replies(k), p, deadline - starts[k]);
      if k < |starts| - 1 { assert Refused(replies(k), p, deadline, starts[k], starts[k + 1]); }
    }
  }

  /** `wait_ready` / `wait_listening` with exact timers: no attempt begins at
      or after the deadline, and the wait is over by then. */
  method Wait(replies: nat -> Reply, p: Probe, start: nat, timeout: nat)
    returns (ok: bool, now: nat, starts: seq<nat>)
    ensures IsWait(replies, p, start, start + timeout, starts)
    ensures now <= start + timeout
    ensures ok ==> |starts| > 0 && now == starts[|starts| - 1] + Delay(replies(|starts| - 1))
    ensures forall k :: 0 <= k < |starts| ==>
      (ok && k == |starts| - 1 <==> Good(replies(k), p, start + timeout - starts[k]))
    ensures !ok ==> now == start + timeout && AtHead(replies, p, start, start + timeout, starts, now)
    ensures |starts| <= CeilDiv(timeout, READY_POLL_INTERVAL)
  {
    hide Accepted, Spent, After, IsWait, AtHead, CeilDiv;
    var deadline := start + timeout;
    starts := [];
    now := start;
    ok := false;
    WaitBegins(replies, p, start, deadline);
    while now < deadline
      invariant !ok && start <= now <= deadline
      invariant IsWait(replies, p, start, deadline, starts) && AtHead(replies, p, start, deadline, starts, now)
      decreases deadline - now
    {
      var k := |starts|;
      var budget := Budget(now, deadline);
      WaitStep(replies, p, start, deadline, starts, now);
      starts := starts + [now];
      if Accepted(p, replies(k), budget) {
        ok := true;
        AcceptedSpent(p, replies(k), budget);
        now := now + SpentWithin(replies(k), budget);
        break;
      }
      now := After(replies(k), deadline, now);
    }
    WaitBounds(replies, p, start, timeout, starts);
    WaitVerdicts(replies, p, start, deadline, starts, now, ok);
  }

  /** Every request fails after `d`, or hangs until the five-second timer cuts it off. */
  ghost predicate Failing(replies: nat -> Reply, d: nat) {
    d <= 5_000_000_000 && forall k: nat :: replies(k) == Broken(d) || (d == 5_000_000_000 && replies(k) == Silent)
  }

  /** Then an attempt is made every `d` and half a second until the deadline. */
  lemma {:induction false} FailingWait(replies: nat -> Reply, p: Probe, start: nat, deadline: nat, starts: seq<nat>,
                                       d: nat, k: nat)
    requires Failing(replies, d) && IsWait(replies, p, start, deadline, starts) && k < |starts|
    ensures starts[k] == start + k * (d + 500_000_000)
  {
    if k > 0 {
      FailingWait(replies, p, start, deadline, starts, d, k - 1);
      assert Refused(replies(k - 1), p, deadline, starts[k - 1], starts[k]);
      assert k * (d + 500_000_000) == (k - 1) * (d + 500_000_000) + (d + 500_000_000);
    }
  }

  /** So the wait makes one attempt per `d` and half a second begun. */
  lemma FailingAttempts(replies: nat -> Reply, p: Probe, start: nat, timeout: nat, starts: seq<nat>, d: nat)
    requires Failing(replies, d) && IsWait(replies, p, start, start + timeout, starts)
    requires AtHead(replies, p, start, start + timeout, starts, start + timeout)
    ensures (|starts| - 1) * (d + 500_000_000) < timeout || timeout == 0 == |starts|
    ensures timeout <= |starts| * (d + 500_000_000)
  {
    hide IsWait, Refused;
    var (n, step) := (|starts|, d + 500_000_000);
    if n > 0 {
      WaitStartsBefore(replies, p, start, start + timeout, starts, n - 1);
      FailingWait(replies, p, start, start + timeout, starts, d, n - 1);
      LastFailing(replies(n - 1), p, start + timeout, starts[n - 1], d);
      assert n * step == (n - 1) * step + step;
    }
  }

  lemma WaitStartsBefore(replies: nat -> Reply, p: Probe, start: nat, deadline: nat, starts: seq<nat>, k: nat)
    requires IsWait(replies, p, start, deadline, starts) && k < |starts|
    ensures starts[k] < deadline
  {
  }

  lemma LastFailing(reply: Reply, p: Probe, deadline: nat, s: nat, d: nat)
    requires d <= 5_000_000_000 && (reply == Broken(d) || (d == 5_000_000_000 && reply == Silent))
    requires Refused(reply, p, deadline, s, deadline)
    ensures deadline <= s + d + 500_000_000
  {
  }

  lemma WaitBegins(replies: nat -> Reply, p: Probe, start: nat, deadline: nat)
    ensures IsWait(replies, p, start, deadline, []) && AtHead(replies, p, start, deadline, [], start)
  {
  }

  lemma WaitStep(replies: nat -> Reply, p: Probe, start: nat, deadline: nat, starts: seq<nat>, now: nat)
    requires IsWait(replies, p, start, deadline, starts) && AtHead(replies, p, start, deadline, starts, now)
    requires now < deadline
    ensures var k := |starts|;
      && IsWait(replies, p, start, deadline, starts + [now])
      && (!AcceptedAt(replies(k), p, deadline, now) ==>
            AtHead(replies, p, start, deadline, starts + [now], After(replies(k), deadline, now)))
  {
    hide Accepted, After;
  }

  function SpentWithin(reply: Reply, budget: nat): (d: nat)
    ensures d == Spent(reply, budget) <= budget
  {
    Spent(reply, budget)
  }

  lemma {:induction false} WaitSpread(replies: nat -> Reply, p: Probe, start: nat, deadline: nat,
                                      starts: seq<nat>, k: nat)
    requires IsWait(replies, p, start, deadline, starts) && k < |starts|
    ensures starts[k] >= start + k * READY_POLL_INTERVAL
  {
    if k > 0 {
      WaitSpread(replies, p, start, deadline, starts, k - 1);
      assert Refused(replies(k - 1), p, deadline, starts[k - 1], starts[k]);
    }
  }

  lemma WaitBounds(replies: nat -> Reply, p: Probe, start: nat, timeout: nat, starts: seq<nat>)
    requires IsWait(replies, p, start, start + timeout, starts)
    ensures |starts| <= CeilDiv(timeout, READY_POLL_INTERVAL)
  {
    if |starts| > 0 {
      WaitSpread(replies, p, start, start + timeout, starts, |starts| - 1);
      BelowCeil(|starts| - 1, timeout, READY_POLL_INTERVAL);
    }
  }

  /** The service would accept, within `d`, every attempt that begins at or after `up`. */
  ghost predicate UpFrom(replies: nat -> Reply, p: Probe, starts: seq<nat>, up: nat, d: nat) {
    forall k :: 0 <= k < |starts| && starts[k] >= up ==> Accepted(p, replies(k), d)
  }

  /** A service that is up one request timeout, one interval and one answer
      before the deadline is never missed. */
  lemma UpIsNoticed(replies: nat -> Reply, p: Probe, start: nat, deadline: nat, starts: seq<nat>, up: nat, d: nat)
    requires start <= up && d <= READY_REQUEST_TIMEOUT
    requires up + READY_REQUEST_TIMEOUT + READY_POLL_INTERVAL + d <= deadline
    requires IsWait(replies, p, start, deadline, starts) && UpFrom(replies, p, starts, up, d)
    ensures !AtHead(replies, p, start, deadline, starts, deadline)
  {
    if AtHead(replies, p, start, deadline, starts, deadline) && |starts| > 0 {
      RefusedBeforeUp(replies, p, start, deadline, starts, up, d, |starts| - 1);
    }
  }

  lemma {:induction false} RefusedBeforeUp(
    replies: nat -> Reply, p: Probe, start: nat, deadline: nat, starts: seq<nat>, up: nat, d: nat, k: nat)
    requires start <= up && d <= READY_REQUEST_TIMEOUT
    requires up + READY_REQUEST_TIMEOUT + READY_POLL_INTERVAL + d <= deadline
    requires IsWait(replies, p, start, deadline, starts) && UpFrom(replies, p, starts, up, d)
    requires k < |starts| && !AcceptedAt(replies(k), p, deadline, starts[k])
    ensures starts[k] < up
  {
    if k > 0 {
      assert Refused(replies(k - 1), p, deadline, starts[k - 1], starts[k]);
      RefusedBeforeUp(replies, p, start, deadline, starts, up, d, k - 1);
    }
  }
}
