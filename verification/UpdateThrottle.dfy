/** The throttle on updates of the waiting list. */
module UpdateThrottle {
  import opened Arithmetic

  datatype Tracker = Tracker(count: nat, windowStart: int)

  /** The tracker after a call at `now`, and the answer of the call. */
  function Ask(t: Tracker, windowSize: nat, maxUpdates: nat, now: int): (Tracker, bool) {
    var current := if now - t.windowStart > windowSize then Tracker(0, now) else t;
    if current.count >= maxUpdates then (current, false) else (current.(count := current.count + 1), true)
  }

  class TaskManager {
    const windowSize: nat := 10000
    const maxUpdates: nat := 20
    var count: nat
    var windowStart: int

    constructor (now: int)
      ensures count == 0 && windowStart == now
    {
      count, windowStart := 0, now;
    }

    method CanUpdateUI(now: int) returns (allowed: bool)
      modifies this
      ensures (Tracker(count, windowStart), allowed)
                == Ask(old(Tracker(count, windowStart)), 10000, 20, now)
    {
      if now - windowStart > windowSize {
        count := 0;
        windowStart := now;
      }
      if count >= maxUpdates {
        return false;
      }
      count := count + 1;
      return true;
    }
  }

  /** How many calls at times in [a, b] are allowed when the calls come at `times`. */
  function Allowed(t: Tracker, windowSize: nat, maxUpdates: nat, times: seq<int>, a: int, b: int): nat
    decreases times
  {
    if times == [] then 0
    else
      var (next, yes) := Ask(t, windowSize, maxUpdates, times[0]);
      (if yes && a <= times[0] <= b then 1 else 0) + Allowed(next, windowSize, maxUpdates, times[1..], a, b)
  }

  /** The calls come in order, none before `start`. */
  ghost predicate ClockRuns(start: int, times: seq<int>) {
    && (forall i :: 0 <= i < |times| ==> start <= times[i])
    && forall i, j :: 0 <= i <= j < |times| ==> times[i] <= times[j]
  }

  // ----- The bound -----

  /** The windows that can yet begin in [a, b]. */
  function Windows(t: Tracker, windowSize: nat, a: int, b: int): (n: int) {
    if t.windowStart > b then 0
    else if t.windowStart >= a then (b - t.windowStart) / (windowSize + 1)
    else (b - a) / (windowSize + 1) + 1
  }

  /** What may still be allowed in [a, b]: the rest of this window, and all of every window that can yet begin. */
  function Budget(t: Tracker, windowSize: nat, maxUpdates: nat, a: int, b: int): int {
    if t.windowStart > b then 0
    else (if t.count >= maxUpdates then 0 else maxUpdates - t.count) + maxUpdates * Windows(t, windowSize, a, b)
  }

  lemma QuotientMonotone(x: int, y: int, w: nat)
    requires w > 0 && x <= y
    ensures x / w <= y / w
  {
    var d := y / w - x / w;
    assert w * d == (y - y % w) - (x - x % w);
    assert d <= -1 ==> w * d <= 0 - w;
  }

  lemma OneMore(x: int, w: nat)
    requires w > 0
    ensures (x + w) / w == x / w + 1
  {
    EuclidUnique(x + w, w, x / w + 1, x % w);
  }

  /** A window that begins uses up one of those that could begin. */
  lemma NewWindow(t: Tracker, windowSize: nat, now: int, a: int, b: int)
    requires now - t.windowStart > windowSize && a <= now <= b
    ensures Windows(Tracker(0, now), windowSize, a, b) + 1 <= Windows(t, windowSize, a, b)
  {
    var w := windowSize + 1;
    OneMore(b - now, w);
    QuotientMonotone(b - now + w, b - t.windowStart, w);
    QuotientMonotone(b - now, b - a, w);
  }

  lemma WindowsLeft(t: Tracker, windowSize: nat, a: int, b: int)
    requires a <= b
    ensures 0 <= Windows(t, windowSize, a, b) <= (b - a) / (windowSize + 1) + 1
  {
    var w := windowSize + 1;
    QuotientMonotone(0, b - a, w);
    if a <= t.windowStart <= b {
      QuotientMonotone(0, b - t.windowStart, w);
      QuotientMonotone(b - t.windowStart, b - a, w);
    }
  }

  /** Every call from `a` on pays for itself out of the budget. */
  lemma CallPays(t: Tracker, windowSize: nat, maxUpdates: nat, now: int, a: int, b: int)
    requires a <= b && a <= now && t.windowStart <= now
    ensures var (next, yes) := Ask(t, windowSize, maxUpdates, now);
            next.windowStart <= now
            && (if yes && now <= b then 1 else 0) + Budget(next, windowSize, maxUpdates, a, b)
               <= Budget(t, windowSize, maxUpdates, a, b)
  {
    WindowsLeft(t, windowSize, a, b);
    var left := Windows(t, windowSize, a, b);
    ProductMonotone(maxUpdates, 0, left);
    if now - t.windowStart > windowSize && now <= b {
      NewWindow(t, windowSize, now, a, b);
      var after := Windows(Tracker(0, now), windowSize, a, b);
      ProductMonotone(maxUpdates, after + 1, left);
      assert maxUpdates * (after + 1) == maxUpdates * after + maxUpdates;
    }
  }

  lemma {:induction false} BudgetBounds(t: Tracker, windowSize: nat, maxUpdates: nat, times: seq<int>, a: int, b: int)
    requires a <= b && ClockRuns(t.windowStart, times) && forall i :: 0 <= i < |times| ==> a <= times[i]
    ensures Allowed(t, windowSize, maxUpdates, times, a, b) <= Budget(t, windowSize, maxUpdates, a, b)
    decreases times
  {
    if times == [] {
      WindowsLeft(t, windowSize, a, b);
      ProductMonotone(maxUpdates, 0, Windows(t, windowSize, a, b));
    } else {
      hide Ask, Budget;
      CallPays(t, windowSize, maxUpdates, times[0], a, b);
      BudgetBounds(Ask(t, windowSize, maxUpdates, times[0]).0, windowSize, maxUpdates, times[1..], a, b);
    }
  }

  lemma BudgetAtMost(t: Tracker, windowSize: nat, maxUpdates: nat, a: int, b: int)
    requires a <= b
    ensures Budget(t, windowSize, maxUpdates, a, b) <= maxUpdates * ((b - a) / (windowSize + 1) + 2)
  {
    var q := (b - a) / (windowSize + 1);
    WindowsLeft(t, windowSize, a, b);
    ProductMonotone(maxUpdates, Windows(t, windowSize, a, b), q + 1);
    ProductMonotone(maxUpdates, 0, q + 2);
    assert maxUpdates * (q + 2) == maxUpdates * (q + 1) + maxUpdates;
  }

  /** With a clock that never runs back, the updates allowed in any interval of any run are bounded. */
  lemma {:induction false} AllowedIsBounded(t: Tracker, windowSize: nat, maxUpdates: nat, times: seq<int>, a: int,
                                            b: int)
    requires a <= b && ClockRuns(t.windowStart, times)
    ensures Allowed(t, windowSize, maxUpdates, times, a, b) <= maxUpdates * ((b - a) / (windowSize + 1) + 2)
    decreases times
  {
    if times == [] || times[0] >= a {
      BudgetBounds(t, windowSize, maxUpdates, times, a, b);
      BudgetAtMost(t, windowSize, maxUpdates, a, b);
    } else {
      AllowedIsBounded(Ask(t, windowSize, maxUpdates, times[0]).0, windowSize, maxUpdates, times[1..], a, b);
    }
  }

  // ----- The bound is reached -----

  function Burst(n: nat, now: int): (r: seq<int>)
    ensures |r| == n && forall i :: 0 <= i < n ==> r[i] == now
  {
    seq(n, _ => now)
  }

  /** As many calls at one moment as the window has room for are all allowed. */
  lemma {:induction false} BurstAllowed(t: Tracker, windowSize: nat, maxUpdates: nat, n: nat, now: int,
                                        more: seq<int>, a: int, b: int)
    requires now - t.windowStart <= windowSize && t.count + n <= maxUpdates && a <= now <= b
    ensures Allowed(t, windowSize, maxUpdates, Burst(n, now) + more, a, b)
            == n + Allowed(Tracker(t.count + n, t.windowStart), windowSize, maxUpdates, more, a, b)
    decreases n
  {
    if n == 0 {
      assert Burst(0, now) + more == more;
    } else {
      var times := Burst(n, now) + more;
      assert times[1..] == Burst(n - 1, now) + more;
      BurstAllowed(t.(count := t.count + 1), windowSize, maxUpdates, n - 1, now, more, a, b);
    }
  }

  /** Around the end of a window, two windows' worth of updates can be allowed within one tick. */
  lemma BoundIsReached(windowSize: nat, maxUpdates: nat, start: int) returns (times: seq<int>, a: int)
    requires windowSize > 0
    ensures ClockRuns(start, times)
    ensures Allowed(Tracker(0, start), windowSize, maxUpdates, times, a, a + 1)
              == maxUpdates * (1 / (windowSize + 1) + 2)
  {
    a := start + windowSize;
    assert Allowed(Tracker(maxUpdates, a + 1), windowSize, maxUpdates, [], a, a + 1) == 0;
    hide Allowed, Ask;
    var early, late := Burst(maxUpdates, a), Burst(maxUpdates, a + 1);
    times := early + late;
    BurstAllowed(Tracker(0, start), windowSize, maxUpdates, maxUpdates, a, late, a, a + 1);
    BurstAllowed(Tracker(0, a + 1), windowSize, maxUpdates, maxUpdates, a + 1, [], a, a + 1);
    assert late + [] == late;
    FullOrNew(windowSize, maxUpdates, start, late, a, a + 1);
    EuclidUnique(1, windowSize + 1, 0, 1);
  }

  /** Once a window is over, it makes no difference that it was full. */
  lemma FullOrNew(windowSize: nat, maxUpdates: nat, start: int, times: seq<int>, a: int, b: int)
    requires times != [] ==> times[0] == start + windowSize + 1
    ensures Allowed(Tracker(maxUpdates, start), windowSize, maxUpdates, times, a, b)
            == Allowed(Tracker(0, start + windowSize + 1), windowSize, maxUpdates, times, a, b)
  {
    if times != [] {
      assert Ask(Tracker(maxUpdates, start), windowSize, maxUpdates, times[0])
          == Ask(Tracker(0, start + windowSize + 1), windowSize, maxUpdates, times[0]);
    }
  }
}
