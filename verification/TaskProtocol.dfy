/** Any number of workers changing one shared task row: each call reads the row, writes with a
    compare-and-set on what it read, and reads again when it lost. Every statement against the
    database is one atomic step; the steps of different calls interleave freely. */
module TaskProtocol {
  import opened Wrappers
  import opened TaskStateMachine

  datatype Row = Row(status: Status, updatedAt: int, claimedBy: Option<string>, claimLeaseId: Option<string>)

  /** Call options. `claimedBy` is None when the property is undefined and Some(None) when it is null. */
  datatype Options = Options(requireClaim: bool, claimedBy: Option<Option<string>>, claimLeaseId: Option<string>)

  datatype Call = Transition(event: Event, options: Options) | Refresh(status: Status, options: Options)

  // ----- The pure parts of the repository -----

  function Truthy(s: Option<string>): bool {
    s.Some? && s.value != ""
  }

  function ClaimedBy(o: Options): Option<string> {
    match o.claimedBy case None => None case Some(v) => v
  }

  /** A fenced call must name an owner and a lease, or building its WHERE clause throws. */
  predicate FenceError(o: Options) {
    o.requireClaim && !(Truthy(ClaimedBy(o)) && Truthy(o.claimLeaseId))
  }

  predicate Holds(row: Row, owner: string, lease: string) {
    row.claimedBy == Some(owner) && row.claimLeaseId == Some(lease)
  }

  predicate PassesFence(row: Row, o: Options) {
    o.requireClaim ==> row.claimedBy == ClaimedBy(o) && row.claimLeaseId == o.claimLeaseId
  }

  function Max(a: int, b: int): int {
    if a >= b then a else b
  }

  function NextTimestamp(row: Row, wallClock: nat): int {
    Max(wallClock, row.updatedAt + 1)
  }

  function Target(c: Call): Status {
    match c case Transition(e, _) => To(e) case Refresh(s, _) => s
  }

  /** The status is one the call may start from. */
  predicate Admits(c: Call, s: Status) {
    match c case Transition(e, _) => Allowed(s, e) case Refresh(t, _) => Active(t) && s == t
  }

  /** The row a committed write leaves. */
  function Written(row: Row, c: Call, now: int): Row {
    match c
    case Refresh(_, _) => row.(updatedAt := now)
    case Transition(e, o) =>
      var moved := row.(status := To(e), updatedAt := now);
      if !o.requireClaim && o.claimedBy.Some? then
        moved.(claimedBy := o.claimedBy.value, claimLeaseId := o.claimLeaseId)
      else if To(e) == Queued || Terminal(To(e)) then moved.(claimedBy := None, claimLeaseId := None)
      else moved
  }

  /** A retry of a queued task must leave a fresh queue attempt. */
  predicate NeedsFreshAttempt(c: Call, snapshot: Row) {
    c.Transition? && c.event == Retry && snapshot.status == Queued
  }

  datatype Attempt = Attempt(status: Status, stamp: int)

  datatype Result =
    | Result(changed: bool, blocked: bool, idempotent: bool, attempt: Option<Attempt>)
    | Thrown

  function OrElse(n: int, fallback: int): int {
    if n != 0 then n else fallback
  }

  /** The answer of a call that the row, or its absence, does not admit. */
  function Refused(c: Call, row: Option<Row>): Result {
    Result(false, true, c.Transition? && row.Some? && row.value.status == Target(c), None)
  }

  function WonResult(c: Call, snapshot: Row, now: int): Result {
    Result(true, false, c.Transition? && !NeedsFreshAttempt(c, snapshot) && snapshot.status == Target(c),
           Some(Attempt(Target(c), now)))
  }

  /** The answer of a call whose write matched nothing, from the row it reads afterwards. */
  function LostResult(c: Call, snapshot: Row, now: int, latest: Option<Row>): Result {
    if c.Refresh? then Refused(c, None)
    else
      var raced := latest.Some? && latest.value.status == Target(c);
      var usable := raced && (!NeedsFreshAttempt(c, snapshot) || latest.value.updatedAt >= now);
      Result(false, !usable, usable && !NeedsFreshAttempt(c, snapshot),
             Some(if usable then Attempt(Target(c), OrElse(latest.value.updatedAt, now))
                  else Attempt(snapshot.status, OrElse(snapshot.updatedAt, now))))
  }

  // ----- The interleaved system -----

  /** Where a call stands; `now` is its own timestamp, sampled right after its read. */
  datatype Phase =
    | Called
    | Loaded(snapshot: Row, now: int)
    | Lost(snapshot: Row, now: int)
    | Returned(result: Result)

  datatype Proc = Proc(call: Call, phase: Phase)
  datatype World = World(row: Option<Row>, procs: map<nat, Proc>)

  /** `Insert` creates a row; `Touch` stands for the metadata writers, which store the raw
      wall clock and leave status and claim alone. */
  datatype Action =
    | Begin(p: nat, call: Call)
    | Read(p: nat, wallClock: nat)
    | Write(p: nat)
    | Reread(p: nat)
    | Insert(at: nat)
    | Touch(at: nat)

  predicate Enabled(w: World, a: Action) {
    match a
    case Begin(p, _) => p !in w.procs
    case Read(p, _) => p in w.procs && w.procs[p].phase.Called?
    case Write(p) => p in w.procs && w.procs[p].phase.Loaded?
    case Reread(p) => p in w.procs && w.procs[p].phase.Lost?
    case Insert(_) => w.row.None?
    case Touch(_) => w.row.Some?
  }

  function AfterRead(row: Option<Row>, c: Call, wallClock: nat): Phase {
    if row.None? || !Admits(c, row.value.status) then Returned(Refused(c, row))
    else if FenceError(c.options) then Returned(Thrown)
    else Loaded(row.value, NextTimestamp(row.value, wallClock))
  }

  /** The WHERE clause of the write holds of the row as it is now. */
  predicate Matches(row: Option<Row>, c: Call, snapshot: Row) {
    row.Some? && row.value.status == snapshot.status && PassesFence(row.value, c.options)
  }

  /** The write at action `a` changes the row. */
  predicate Commits(w: World, a: Action) {
    a.Write? && Enabled(w, a) && Matches(w.row, w.procs[a.p].call, w.procs[a.p].phase.snapshot)
  }

  function Apply(w: World, a: Action): World
    requires Enabled(w, a)
  {
    match a
    case Begin(p, c) => w.(procs := w.procs[p := Proc(c, Called)])
    case Read(p, t) => w.(procs := w.procs[p := w.procs[p].(phase := AfterRead(w.row, w.procs[p].call, t))])
    case Write(p) =>
      var Proc(c, ph) := w.procs[p];
      if Matches(w.row, c, ph.snapshot) then
        World(Some(Written(w.row.value, c, ph.now)), w.procs[p := Proc(c, Returned(WonResult(c, ph.snapshot, ph.now)))])
      else w.(procs := w.procs[p := Proc(c, Lost(ph.snapshot, ph.now))])
    case Reread(p) =>
      var Proc(c, ph) := w.procs[p];
      w.(procs := w.procs[p := Proc(c, Returned(LostResult(c, ph.snapshot, ph.now, w.row)))])
    case Insert(t) => w.(row := Some(Row(Queued, t, None, None)))
    case Touch(t) => w.(row := Some(w.row.value.(updatedAt := t)))
  }

  /** Calls in flight only hold snapshots their call admits. */
  ghost predicate Coherent(w: World) {
    forall p :: p in w.procs ==> Sound(w.procs[p])
  }

  predicate Sound(proc: Proc) {
    proc.phase.Loaded? || proc.phase.Lost? ==>
      Admits(proc.call, proc.phase.snapshot.status) && !FenceError(proc.call.options)
  }

  ghost predicate IsRun(ws: seq<World>, acts: seq<Action>) {
    && |ws| == |acts| + 1
    && Coherent(ws[0])
    && forall k :: 0 <= k < |acts| ==> IsStep(ws[k], acts[k], ws[k + 1])
  }

  ghost predicate IsStep(w: World, a: Action, w': World) {
    Enabled(w, a) && w' == Apply(w, a)
  }

  // ----- Every step, every run: the status history is a path of the table -----

  lemma StepKeeps(w: World, a: Action)
    requires Coherent(w) && Enabled(w, a)
    ensures Coherent(Apply(w, a))
    ensures w.row.Some? ==> Apply(w, a).row.Some?
    ensures w.row.Some? ==> (var s, t := w.row.value.status, Apply(w, a).row.value.status; s == t || Edge(s, t))
  {
    if a.Write? {
      assert Sound(w.procs[a.p]);
      var c := w.procs[a.p].call;
      if Commits(w, a) && c.Transition? {
        assert Allowed(w.row.value.status, c.event);
      }
    }
  }

  lemma {:induction false} CoherentAlong(ws: seq<World>, acts: seq<Action>, k: nat)
    requires IsRun(ws, acts) && k < |ws|
    ensures Coherent(ws[k])
    decreases k
  {
    if k > 0 {
      CoherentAlong(ws, acts, k - 1);
      assert IsStep(ws[k - 1], acts[k - 1], ws[k]);
      StepKeeps(ws[k - 1], acts[k - 1]);
    }
  }

  /** Under every interleaving each change of status follows the table, whatever the row went through between
      the read and the write of the call that changed it. */
  lemma StatusPath(ws: seq<World>, acts: seq<Action>, k: nat)
    requires IsRun(ws, acts) && k < |acts| && ws[k].row.Some?
    ensures ws[k + 1].row.Some?
    ensures ws[k].row.value.status == ws[k + 1].row.value.status
            || Edge(ws[k].row.value.status, ws[k + 1].row.value.status)
  {
    CoherentAlong(ws, acts, k);
    assert IsStep(ws[k], acts[k], ws[k + 1]);
    StepKeeps(ws[k], acts[k]);
  }

  /** Once completed or cancelled, always so. */
  lemma {:induction false} FinalStatusesAbsorb(ws: seq<World>, acts: seq<Action>, i: nat, j: nat)
    requires IsRun(ws, acts) && i <= j < |ws| && ws[i].row.Some?
    requires ws[i].row.value.status == Completed || ws[i].row.value.status == Cancelled
    ensures ws[j].row.Some? && ws[j].row.value.status == ws[i].row.value.status
    decreases j
  {
    if i < j {
      FinalStatusesAbsorb(ws, acts, i, j - 1);
      StatusPath(ws, acts, j - 1);
      EdgesExactly(ws[j - 1].row.value.status, ws[j].row.value.status);
    }
  }

  // ----- What a result says about the run -----

  /** The call of `p`, begun at action `b`, has committed before state `e`. */
  ghost predicate Committed(ws: seq<World>, acts: seq<Action>, b: nat, e: nat, p: nat)
    requires IsRun(ws, acts) && e <= |acts|
  {
    exists k :: b < k < e && acts[k] == Write(p) && Commits(ws[k], acts[k])
  }

  ghost predicate SawStatus(ws: seq<World>, b: nat, e: nat, s: Status)
    requires e < |ws|
  {
    exists k :: b <= k <= e && ws[k].row.Some? && ws[k].row.value.status == s
  }

  ghost predicate SawStamp(ws: seq<World>, b: nat, e: nat, stamp: int)
    requires e < |ws|
  {
    exists k :: b <= k <= e && ws[k].row.Some? && ws[k].row.value.status == Queued && ws[k].row.value.updatedAt >= stamp
  }

  /** The timestamp of the call, once it has read an admissible row at action `r`. */
  function OwnStamp(w: World, a: Action): int
    requires a.Read? && w.row.Some?
  {
    NextTimestamp(w.row.value, a.wallClock)
  }

  /** What is known of the call of `p` (begun at action `b`) in state `e`. */
  ghost predicate CallStory(ws: seq<World>, acts: seq<Action>, b: nat, e: nat, p: nat, c: Call)
    requires IsRun(ws, acts) && b < e < |ws|
  {
    && p in ws[e].procs && ws[e].procs[p].call == c
    && match ws[e].procs[p].phase
       case Called => !Committed(ws, acts, b, e, p) && forall s, now :: !SawRead(ws, acts, b, e, p, s, now)
       case Loaded(s, now) => !Committed(ws, acts, b, e, p) && SawOnly(ws, acts, b, e, p, s, now)
       case Lost(s, now) => !Committed(ws, acts, b, e, p) && SawOnly(ws, acts, b, e, p, s, now)
       case Returned(Thrown) => !Committed(ws, acts, b, e, p)
       case Returned(r) =>
         && (r.changed <==> Committed(ws, acts, b, e, p))
         && (r.changed ==> !r.blocked)
         && (!r.blocked ==> SawStatus(ws, b, e, Target(c)))
         && (!r.blocked && !r.changed ==> (r.idempotent <==> !RetryOfQueued(ws, acts, b, e, p, c)))
         && (!r.blocked && !r.changed ==> FreshForRetry(ws, acts, b, e, p, c))
  }

  /** The call read the row `s` and drew the timestamp `now` between `b` and `e`. */
  ghost predicate SawRead(ws: seq<World>, acts: seq<Action>, b: nat, e: nat, p: nat, s: Row, now: int)
    requires IsRun(ws, acts) && e <= |acts|
  {
    exists k :: b < k < e && ReadsNow(ws[k], acts[k], p, s, now)
  }

  predicate ReadsNow(w: World, a: Action, p: nat, s: Row, now: int) {
    a.Read? && a.p == p && w.row == Some(s) && now == OwnStamp(w, a)
  }

  /** The call read the row `s`, drew the timestamp `now`, and read no other. */
  ghost predicate SawOnly(ws: seq<World>, acts: seq<Action>, b: nat, e: nat, p: nat, s: Row, now: int)
    requires IsRun(ws, acts) && e <= |acts|
  {
    && SawRead(ws, acts, b, e, p, s, now)
    && forall s', now' :: SawRead(ws, acts, b, e, p, s', now') ==> s' == s && now' == now
  }

  /** The call is a retry that read a queued row. */
  ghost predicate RetryOfQueued(ws: seq<World>, acts: seq<Action>, b: nat, e: nat, p: nat, c: Call)
    requires IsRun(ws, acts) && e <= |acts|
  {
    exists s, now :: SawRead(ws, acts, b, e, p, s, now) && NeedsFreshAttempt(c, s)
  }

  /** If the call is a retry that read a queued row, a queued row no older than its timestamp was seen. */
  ghost predicate FreshForRetry(ws: seq<World>, acts: seq<Action>, b: nat, e: nat, p: nat, c: Call)
    requires IsRun(ws, acts) && e < |ws|
  {
    forall s, now :: SawRead(ws, acts, b, e, p, s, now) && NeedsFreshAttempt(c, s) ==> SawStamp(ws, b, e, now)
  }

  lemma StoryWindow(ws: seq<World>, acts: seq<Action>, b: nat, e: nat, next: nat, p: nat)
    requires IsRun(ws, acts) && b < e < next == e + 1 <= |acts|
    ensures Committed(ws, acts, b, next, p)
       <==> Committed(ws, acts, b, e, p) || (acts[e] == Write(p) && Commits(ws[e], acts[e]))
    ensures forall s, now :: SawRead(ws, acts, b, e, p, s, now) ==> SawRead(ws, acts, b, next, p, s, now)
    ensures forall s, now :: SawRead(ws, acts, b, next, p, s, now) ==>
              SawRead(ws, acts, b, e, p, s, now) || ReadsNow(ws[e], acts[e], p, s, now)
    ensures forall s :: SawStatus(ws, b, e, s) ==> SawStatus(ws, b, next, s)
    ensures forall t :: SawStamp(ws, b, e, t) ==> SawStamp(ws, b, next, t)
  {
  }

  lemma RetryWindow(ws: seq<World>, acts: seq<Action>, b: nat, e: nat, next: nat, p: nat, c: Call)
    requires IsRun(ws, acts) && b < e < next == e + 1 <= |acts| && !(acts[e].Read? && acts[e].p == p)
    ensures RetryOfQueued(ws, acts, b, next, p, c) <==> RetryOfQueued(ws, acts, b, e, p, c)
    ensures FreshForRetry(ws, acts, b, e, p, c) ==> FreshForRetry(ws, acts, b, next, p, c)
  {
    StoryWindow(ws, acts, b, e, next, p);
    hide SawRead, SawStamp;
    assert forall s, now :: ReadsNow(ws[e], acts[e], p, s, now) ==> false;
  }

  /** A losing call that read only the row `s` is a retry of a queued row exactly when `s` was one. */
  lemma OnlyRetry(ws: seq<World>, acts: seq<Action>, b: nat, e: nat, p: nat, c: Call, s: Row, now: int)
    requires IsRun(ws, acts) && e < |ws| && SawOnly(ws, acts, b, e, p, s, now)
    ensures RetryOfQueued(ws, acts, b, e, p, c) <==> NeedsFreshAttempt(c, s)
    ensures FreshForRetry(ws, acts, b, e, p, c) <==> (NeedsFreshAttempt(c, s) ==> SawStamp(ws, b, e, now))
  {
    hide SawRead, SawStamp;
  }

  predicate ActsFor(a: Action, p: nat) {
    (a.Read? || a.Write? || a.Reread?) && a.p == p
  }

  /** The story is not touched by the steps of others. */
  lemma StoryWaits(ws: seq<World>, acts: seq<Action>, b: nat, e: nat, next: nat, p: nat, c: Call)
    requires IsRun(ws, acts) && b < e < next == e + 1 <= |acts| && CallStory(ws, acts, b, e, p, c)
    requires !ActsFor(acts[e], p)
    ensures CallStory(ws, acts, b, next, p, c)
  {
    assert IsStep(ws[e], acts[e], ws[next]);
    assert ws[next].procs[p] == ws[e].procs[p];
    StoryWindow(ws, acts, b, e, next, p);
    RetryWindow(ws, acts, b, e, next, p, c);
    hide IsRun, Committed, SawRead, SawStatus, SawStamp, RetryOfQueued, FreshForRetry, Apply;
    assert forall s, now :: ReadsNow(ws[e], acts[e], p, s, now) ==> false;
  }

  /** The story extends over one more step. */
  lemma StoryStep(ws: seq<World>, acts: seq<Action>, b: nat, e: nat, next: nat, p: nat, c: Call)
    requires IsRun(ws, acts) && b < e < next == e + 1 <= |acts| && CallStory(ws, acts, b, e, p, c)
    ensures CallStory(ws, acts, b, next, p, c)
  {
    var w, a := ws[e], acts[e];
    if !ActsFor(a, p) {
      StoryWaits(ws, acts, b, e, next, p, c);
      return;
    }
    var before := w.procs[p].phase;
    assert IsStep(w, a, ws[next]);
    StoryWindow(ws, acts, b, e, next, p);
    hide SawRead, RetryOfQueued, FreshForRetry;
    if a.Read? {
      assert before.Called?;
      if ws[next].procs[p].phase.Loaded? {
        assert ReadsNow(w, a, p, w.row.value, OwnStamp(w, a));
        assert SawRead(ws, acts, b, next, p, w.row.value, OwnStamp(w, a));
      }
    } else if Commits(w, a) {
      CoherentAlong(ws, acts, e);
      assert Sound(w.procs[p]);
      assert ws[next].row.value.status == Target(c);
      assert SawStatus(ws, b, next, Target(c));
    } else if a.Reread? && !ws[next].procs[p].phase.result.blocked {
      assert SawStatus(ws, b, next, Target(c));
      assert SawOnly(ws, acts, b, next, p, before.snapshot, before.now);
      OnlyRetry(ws, acts, b, next, p, c, before.snapshot, before.now);
      if !ws[next].procs[p].phase.result.idempotent {
        assert SawStamp(ws, b, next, before.now);
      }
    }
  }

  lemma {:induction false} CallStoryHolds(ws: seq<World>, acts: seq<Action>, b: nat, e: nat, p: nat, c: Call)
    requires IsRun(ws, acts) && b < e < |ws| && acts[b] == Begin(p, c)
    ensures CallStory(ws, acts, b, e, p, c)
    decreases e
  {
    if e > b + 1 {
      CallStoryHolds(ws, acts, b, e - 1, p, c);
      StoryStep(ws, acts, b, e - 1, e, p, c);
    } else {
      assert IsStep(ws[b], acts[b], ws[e]);
    }
  }

  /** In every interleaving `changed` tells exactly whether the call's own write committed; an unblocked answer
      means that the row had the target status at some moment during the call; and an unblocked call that lost
      answers idempotent exactly when it is not a retry that read a queued row, and if it is, it saw a queued row
      stamped no earlier than its own timestamp. */
  lemma ResultsAreTrue(ws: seq<World>, acts: seq<Action>, b: nat, e: nat, p: nat, c: Call)
    requires IsRun(ws, acts) && b < e < |ws| && acts[b] == Begin(p, c)
    requires p in ws[e].procs && ws[e].procs[p].phase.Returned? && ws[e].procs[p].phase.result.Result?
    ensures var r := ws[e].procs[p].phase.result;
            && (r.changed <==> Committed(ws, acts, b, e, p))
            && (r.changed ==> !r.blocked)
            && (!r.blocked ==> SawStatus(ws, b, e, Target(c)))
            && (!r.blocked && !r.changed ==> (r.idempotent <==> !RetryOfQueued(ws, acts, b, e, p, c)))
            && (!r.blocked && !r.changed ==> FreshForRetry(ws, acts, b, e, p, c))
  {
    CallStoryHolds(ws, acts, b, e, p, c);
  }

  /** No write commits between the read and the write of the call. */
  ghost predicate Undisturbed(ws: seq<World>, acts: seq<Action>, b: nat, e: nat, p: nat)
    requires IsRun(ws, acts) && e <= |acts|
  {
    forall r, k, w :: b < r < k < w < e && acts[r].Read? && acts[r].p == p && acts[w] == Write(p) ==>
      !Commits(ws[k], acts[k])
  }

  // ----- Runs made step by step -----

  lemma Stay(w: World) returns (ws: seq<World>, acts: seq<Action>)
    requires Coherent(w)
    ensures IsRun(ws, acts) && ws == [w] && acts == []
  {
    ws, acts := [w], [];
  }

  lemma Extend(ws: seq<World>, acts: seq<Action>, a: Action) returns (ws': seq<World>, acts': seq<Action>)
    requires IsRun(ws, acts) && ws != [] && Enabled(ws[|ws| - 1], a)
    ensures IsRun(ws', acts') && ws' == ws + [Apply(ws[|ws| - 1], a)] && acts' == acts + [a]
  {
    ws', acts' := ws + [Apply(ws[|ws| - 1], a)], acts + [a];
    forall k | 0 <= k < |acts'|
      ensures IsStep(ws'[k], acts'[k], ws'[k + 1])
    {
      assert k < |acts| ==> IsStep(ws[k], acts[k], ws[k + 1]);
    }
  }
}
