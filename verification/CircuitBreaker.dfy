/** A breaker in front of an external service. Guarded calls overlap: each is a start now and an outcome later. */
module CircuitBreaker {
  import opened Wrappers

  datatype State = Closed | Open | HalfOpen

  datatype Limits = Limits(failureThreshold: int, successThreshold: int, timeout: int)

  datatype View = View(state: State, failureCount: int, successCount: int, lastFailureTime: Option<int>)

  /** What happens to a breaker: a call that is let through or refused, an outcome, or an operator's hand. */
  datatype Event = Started(at: int) | Refused(at: int) | Succeeded | Failed(at: int) | Reset | ForcedOpen(at: int)

  const FRESH := View(Closed, 0, 0, None)

  /** A missing time counts as zero. */
  function Since(v: View, now: int): int {
    now - (if v.lastFailureTime.Some? then v.lastFailureTime.value else 0)
  }

  predicate LetsThrough(limits: Limits, v: View, now: int) {
    v.state == Open ==> Since(v, now) > limits.timeout
  }

  function Next(limits: Limits, v: View, e: Event): View {
    match e
    case Started(_) => if v.state == Open then v.(state := HalfOpen) else v
    case Refused(_) => v
    case Succeeded =>
      if v.state != HalfOpen then v.(failureCount := 0)
      else if v.successCount + 1 >= limits.successThreshold then FRESH
      else v.(successCount := v.successCount + 1)
    case Failed(at) =>
      var failures := v.failureCount + 1;
      View(if v.state == HalfOpen || failures >= limits.failureThreshold then Open else v.state,
           failures, v.successCount, Some(at))
    case Reset => FRESH
    case ForcedOpen(at) => v.(state := Open, lastFailureTime := Some(at))
  }

  /** Zero or a missing option falls back to the default. */
  function OrDefault(option: int, fallback: int): int {
    if option == 0 then fallback else option
  }

  class CircuitBreaker {
    const limits: Limits
    var state: State
    var failureCount: int
    var successCount: int
    var lastFailureTime: Option<int>

    function GetStatus(): View
      reads this
    {
      View(state, failureCount, successCount, lastFailureTime)
    }

    constructor (failureThreshold: int, successThreshold: int, timeout: int)
      ensures limits.failureThreshold == (if failureThreshold == 0 then 5 else failureThreshold)
      ensures limits.successThreshold == (if successThreshold == 0 then 2 else successThreshold)
      ensures limits.timeout == (if timeout == 0 then 30000 else timeout)
      ensures state == Closed && failureCount == 0 && successCount == 0 && lastFailureTime == None
    {
      limits := Limits(OrDefault(failureThreshold, 5), OrDefault(successThreshold, 2), OrDefault(timeout, 30000));
      state, failureCount, successCount, lastFailureTime := Closed, 0, 0, None;
    }

    /** `execute` up to the call of the command. */
    method Begin(now: int) returns (started: bool)
      modifies this
      ensures started <==> LetsThrough(limits, old(GetStatus()), now)
      ensures GetStatus() == Next(limits, old(GetStatus()), if started then Started(now) else Refused(now))
    {
      if state == Open {
        if now - (if lastFailureTime.Some? then lastFailureTime.value else 0) > limits.timeout {
          state := HalfOpen;
        } else {
          return false;
        }
      }
      return true;
    }

    method OnSuccess()
      modifies this
      ensures GetStatus() == Next(limits, old(GetStatus()), Succeeded)
    {
      if state == HalfOpen {
        successCount := successCount + 1;
        if successCount >= limits.successThreshold {
          ResetCounters();
        }
      } else {
        failureCount := 0;
      }
    }

    method OnFailure(now: int)
      modifies this
      ensures GetStatus() == Next(limits, old(GetStatus()), Failed(now))
    {
      failureCount := failureCount + 1;
      lastFailureTime := Some(now);
      if state == HalfOpen {
        state := Open;
      } else if failureCount >= limits.failureThreshold {
        state := Open;
      }
    }

    method ResetCounters()
      modifies this
      ensures GetStatus() == Next(limits, old(GetStatus()), Reset)
    {
      state := Closed;
      failureCount := 0;
      successCount := 0;
      lastFailureTime := None;
    }

    method ForceOpen(now: int)
      modifies this
      ensures GetStatus() == Next(limits, old(GetStatus()), ForcedOpen(now))
    {
      state := Open;
      lastFailureTime := Some(now);
    }
  }

  // ----- Runs -----

  /** `views[k]` is the status before `events[k]`. Outcomes may come in any order and number. */
  datatype Run = Run(limits: Limits, events: seq<Event>, views: seq<View>)

  ghost predicate IsRun(r: Run) {
    && |r.views| == |r.events| + 1 && r.views[0] == FRESH
    && (forall k :: 0 <= k < |r.events| ==> r.views[k + 1] == Next(r.limits, r.views[k], r.events[k]))
    && (forall k :: 0 <= k < |r.events| ==> IsPossible(r, k))
  }

  predicate IsPossible(r: Run, k: nat)
    requires k < |r.events| && k < |r.views|
  {
    match r.events[k]
    case Started(at) => LetsThrough(r.limits, r.views[k], at)
    case Refused(at) => !LetsThrough(r.limits, r.views[k], at)
    case _ => true
  }

  /** The breaker becomes closed, by itself or by hand. */
  predicate Closes(r: Run, k: nat)
    requires k < |r.events| && |r.views| == |r.events| + 1
  {
    r.views[k + 1].state == Closed && (r.views[k].state != Closed || r.events[k] == Reset)
  }

  /** The count of failures starts afresh: a success, or the breaker closes. */
  predicate Calms(r: Run, k: nat)
    requires k < |r.events| && |r.views| == |r.events| + 1
  {
    r.events[k] == Succeeded || Closes(r, k)
  }

  predicate Troubles(e: Event) {
    e.Failed? || e.ForcedOpen?
  }

  function Failures(es: seq<Event>): nat {
    if es == [] then 0 else Failures(es[..|es| - 1]) + if es[|es| - 1].Failed? then 1 else 0
  }

  /** The moment from which failures count: after the latest calm, or the start. */
  ghost function LatestCalm(r: Run, n: nat): (m: nat)
    requires IsRun(r) && n <= |r.events|
    ensures m <= n && (m == 0 || Calms(r, m - 1)) && forall k :: m <= k < n ==> !Calms(r, k)
  {
    if n == 0 || Calms(r, n - 1) then n else LatestCalm(r, n - 1)
  }

  /** The failures since the latest calm. */
  ghost function FailuresSinceCalm(r: Run, n: nat): nat
    requires IsRun(r) && n <= |r.events|
  {
    Failures(r.events[LatestCalm(r, n)..n])
  }

  /** In every run, while closed, the failure count is the number of failures since the last success or close, and is
      below the threshold unless it is zero. */
  lemma {:induction false} ClosedCountsFailures(r: Run, n: nat)
    requires IsRun(r) && n <= |r.events| && r.views[n].state == Closed
    ensures r.views[n].failureCount == FailuresSinceCalm(r, n)
    ensures r.views[n].failureCount < r.limits.failureThreshold || r.views[n].failureCount == 0
  {
    var m := LatestCalm(r, n);
    assert n > 0 ==> r.views[n] == Next(r.limits, r.views[n - 1], r.events[n - 1]);
    if m < n {
      ClosedCountsFailures(r, n - 1);
      assert r.events[m..n][..n - m - 1] == r.events[m..n - 1];
    }
  }

  /** What opens a breaker: a hand, any failed probe, or the failure that brings the number since the last success
      or close to the threshold. */
  lemma OpensExactly(r: Run, n: nat)
    requires IsRun(r) && n < |r.events| && r.views[n].state != Open
    ensures r.views[n + 1].state == Open <==>
              || r.events[n].ForcedOpen?
              || (r.events[n].Failed? && r.views[n].state == HalfOpen)
              || (r.events[n].Failed? && r.views[n].state == Closed
                  && FailuresSinceCalm(r, n) + 1 >= r.limits.failureThreshold)
  {
    assert r.views[n + 1] == Next(r.limits, r.views[n], r.events[n]);
    if r.views[n].state == Closed {
      ClosedCountsFailures(r, n);
    }
  }

  /** While not closed, the recorded time is that of the latest failure or forced opening, and there is one. */
  lemma {:induction false} FailureTimeIsLatest(r: Run, n: nat) returns (k: nat)
    requires IsRun(r) && n <= |r.events| && r.views[n].state != Closed
    ensures k < n && Troubles(r.events[k]) && r.views[n].lastFailureTime == Some(r.events[k].at)
    ensures forall j :: k < j < n ==> !Troubles(r.events[j]) && !Closes(r, j)
  {
    assert n > 0 && r.views[n] == Next(r.limits, r.views[n - 1], r.events[n - 1]);
    if Troubles(r.events[n - 1]) {
      k := n - 1;
    } else {
      k := FailureTimeIsLatest(r, n - 1);
    }
  }

  /** An open breaker stays open until a call is let through or a hand resets it. */
  lemma {:induction false} StaysOpen(r: Run, i: nat, j: nat)
    requires IsRun(r) && i <= j <= |r.events| && r.views[i].state == Open
    requires forall k :: i <= k < j ==> !r.events[k].Started? && r.events[k] != Reset
    ensures r.views[j].state == Open
    decreases j
  {
    if i < j {
      StaysOpen(r, i, j - 1);
      assert r.views[j] == Next(r.limits, r.views[j - 1], r.events[j - 1]);
    }
  }

  /** A call is refused exactly when the breaker is open and its latest failure or forced opening is not yet longer
      ago than the timeout. */
  lemma RefusedExactly(r: Run, n: nat)
    requires IsRun(r) && n < |r.events| && (r.events[n].Started? || r.events[n].Refused?)
    ensures r.events[n].Refused? <==>
              r.views[n].state == Open
              && exists k :: 0 <= k < n && Troubles(r.events[k]) && r.events[n].at - r.events[k].at <= r.limits.timeout
                             && forall j :: k < j < n ==> !Troubles(r.events[j])
  {
    assert IsPossible(r, n);
    if r.views[n].state == Open {
      var latest := FailureTimeIsLatest(r, n);
      forall k | 0 <= k < n && Troubles(r.events[k]) && forall j :: k < j < n ==> !Troubles(r.events[j])
        ensures k == latest
      {
      }
    }
  }

  ghost predicate ClockRuns(es: seq<Event>) {
    forall j, k :: 0 <= j <= k < |es| && (Troubles(es[j]) || es[j].Started?) && (Troubles(es[k]) || es[k].Started?) ==>
      es[j].at <= es[k].at
  }

  /** No command starts while open within the timeout: the first one let through after the breaker was seen open
      starts later than the timeout after every failure and forced opening before it. */
  lemma NoStartWithinTimeout(r: Run, i: nat, j: nat)
    requires IsRun(r) && i <= j < |r.events| && r.views[i].state == Open && r.events[j].Started?
    requires forall k :: i <= k < j ==> !r.events[k].Started? && r.events[k] != Reset
    requires ClockRuns(r.events)
    ensures forall k :: 0 <= k < j && Troubles(r.events[k]) ==> r.events[j].at - r.events[k].at > r.limits.timeout
  {
    StaysOpen(r, i, j);
    var latest := FailureTimeIsLatest(r, j);
    assert IsPossible(r, j);
    forall k | 0 <= k < j && Troubles(r.events[k])
      ensures r.events[k].at <= r.events[latest].at
    {
    }
  }

  /** Successes of calls that come home while half-open. */
  function Probes(r: Run, m: nat, n: nat): nat
    requires m <= n <= |r.events| < |r.views|
  {
    if m == n then 0
    else Probes(r, m, n - 1) + if r.views[n - 1].state == HalfOpen && r.events[n - 1] == Succeeded then 1 else 0
  }

  lemma {:induction false} ClosedHasNoProbes(r: Run, n: nat)
    requires IsRun(r) && n <= |r.events|
    ensures r.views[n].state == Closed ==> r.views[n].successCount == 0
  {
    if n > 0 {
      ClosedHasNoProbes(r, n - 1);
      assert r.views[n] == Next(r.limits, r.views[n - 1], r.events[n - 1]);
    }
  }

  lemma {:induction false} ProbesAreCounted(r: Run, m: nat, n: nat)
    requires IsRun(r) && m <= n <= |r.events| && r.views[m].state == Closed
    requires forall k :: m < k <= n ==> r.views[k].state != Closed
    ensures r.views[n].successCount == Probes(r, m, n)
    ensures m < n ==> r.views[n].successCount == 0 || r.views[n].successCount < r.limits.successThreshold
    decreases n
  {
    ClosedHasNoProbes(r, m);
    if m < n {
      ProbesAreCounted(r, m, n - 1);
      assert r.views[n] == Next(r.limits, r.views[n - 1], r.events[n - 1]);
    }
  }

  /** Closing without a hand takes the full number of half-open successes since the breaker was last closed, and no
      more; failures and reopenings in between do not take any of them away. */
  lemma ClosingTakesSuccesses(r: Run, m: nat, n: nat)
    requires IsRun(r) && m < n < |r.events| && r.views[m].state == Closed
    requires forall k :: m < k <= n ==> r.views[k].state != Closed
    requires Closes(r, n) && r.events[n] != Reset
    ensures Probes(r, m, n + 1) >= r.limits.successThreshold
    ensures r.limits.successThreshold >= 1 ==> Probes(r, m, n + 1) == r.limits.successThreshold
  {
    ProbesAreCounted(r, m, n);
    assert r.views[n + 1] == Next(r.limits, r.views[n], r.events[n]);
  }

  lemma {:induction false} ProbesSplit(r: Run, m: nat, k: nat, n: nat)
    requires m <= k <= n <= |r.events| < |r.views|
    ensures Probes(r, m, n) == Probes(r, m, k) + Probes(r, k, n)
    decreases n
  {
    if k < n {
      ProbesSplit(r, m, k, n - 1);
    }
  }

  /** At a closing the full number of successes falls after the moment `k`, the last failed probe for instance,
      exactly when the success count that the status shows was zero then. */
  lemma SuccessesInARowExactly(r: Run, m: nat, k: nat, n: nat)
    requires IsRun(r) && m < k <= n < |r.events| && r.views[m].state == Closed
    requires forall j :: m < j <= n ==> r.views[j].state != Closed
    requires Closes(r, n) && r.events[n] != Reset && r.limits.successThreshold >= 1
    ensures Probes(r, k, n + 1) == r.limits.successThreshold <==> r.views[k].successCount == 0
  {
    ClosingTakesSuccesses(r, m, n);
    ProbesAreCounted(r, m, k);
    ProbesSplit(r, m, k, n + 1);
  }

  /** Calls that were let through and have not come home. */
  function InFlight(es: seq<Event>): int {
    if es == [] then 0
    else
      var e := es[|es| - 1];
      InFlight(es[..|es| - 1]) + (if e.Started? then 1 else if e.Succeeded? || e.Failed? then -1 else 0)
  }

  /** Every outcome is that of a call that was let through before. */
  ghost predicate Orderly(es: seq<Event>) {
    forall n :: 0 <= n <= |es| ==> InFlight(es[..n]) >= 0
  }

  lemma InFlightStep(es: seq<Event>, n: nat)
    requires n < |es|
    ensures InFlight(es[..n + 1])
            == InFlight(es[..n]) + (if es[n].Started? then 1 else if es[n].Succeeded? || es[n].Failed? then -1 else 0)
  {
    assert es[..n + 1][..n] == es[..n];
  }

  /** The successes need not come in a row: with the default of two, one before a failed probe and one after it do. */
  lemma SuccessesSurviveReopening() returns (r: Run)
    ensures IsRun(r) && Orderly(r.events) && ClockRuns(r.events) && r.limits.successThreshold == 2
    ensures exists k :: 0 < k < |r.events| - 1 && r.events[k].Failed? && r.views[k].state == HalfOpen
                        && Probes(r, k, |r.events|) == 1 && Closes(r, |r.events| - 1)
                        && r.events[|r.events| - 1] == Succeeded
  {
    var limits := Limits(1, 2, 10);
    var es := [Started(0), Failed(0), Started(11), Started(12), Succeeded, Failed(13), Started(24), Succeeded];
    var open, reopened := View(Open, 1, 0, Some(0)), View(Open, 2, 1, Some(13));
    var probing, once := View(HalfOpen, 1, 0, Some(0)), View(HalfOpen, 1, 1, Some(0));
    r := Run(limits, es, [FRESH, FRESH, open, probing, probing, once, reopened, reopened.(state := HalfOpen), FRESH]);
    OrderlySample(es);
    assert Probes(r, 5, 5) == 0 && Probes(r, 5, 6) == 0 && Probes(r, 5, 7) == 0 && Probes(r, 5, 8) == 1;
    assert r.events[5].Failed?;
  }

  lemma OrderlySample(es: seq<Event>)
    requires es == [Started(0), Failed(0), Started(11), Started(12), Succeeded, Failed(13), Started(24), Succeeded]
    ensures Orderly(es) && ClockRuns(es)
  {
    assert InFlight(es[..0]) == 0;
    InFlightStep(es, 0);
    InFlightStep(es, 1);
    InFlightStep(es, 2);
    InFlightStep(es, 3);
    InFlightStep(es, 4);
    InFlightStep(es, 5);
    InFlightStep(es, 6);
    InFlightStep(es, 7);
  }
}
