/** Calls on a task that do not overlap: the repository's methods run from their read to their answer, and the
    timestamps they leave. */
module TaskRepository {
  import opened Wrappers
  import opened TaskStateMachine
  import opened TaskProtocol

  /** A whole call, with nothing between its statements. */
  function Uninterrupted(row: Option<Row>, c: Call, wallClock: nat): (r: (Option<Row>, Result)) {
    match AfterRead(row, c, wallClock)
    case Loaded(s, now) =>
      if Matches(row, c, s) then (Some(Written(s, c, now)), WonResult(c, s, now)) else (row, LostResult(c, s, now, row))
    case Returned(r) => (row, r)
    case _ => (row, Thrown)
  }

  /** It is what the interleaved system does when it schedules the call alone. */
  lemma UninterruptedIsSchedule(w: World, p: nat, c: Call, wallClock: nat)
    requires p !in w.procs
    ensures var w1 := Apply(Apply(w, Begin(p, c)), Read(p, wallClock));
            var w2 := if Enabled(w1, Write(p)) then Apply(w1, Write(p)) else w1;
            var w3 := if Enabled(w2, Reread(p)) then Apply(w2, Reread(p)) else w2;
            var (row, result) := Uninterrupted(w.row, c, wallClock);
            w3.row == row && w3.procs == w.procs[p := Proc(c, Returned(result))]
  {
    var w1 := Apply(Apply(w, Begin(p, c)), Read(p, wallClock));
    if w1.procs[p].phase.Loaded? {
      var w2 := Apply(w1, Write(p));
      if w2.procs[p].phase.Lost? {
        var w3 := Apply(w2, Reread(p));
        assert w3.procs[p].phase == Returned(Uninterrupted(w.row, c, wallClock).1);
      }
    }
  }

  /** The answer as the caller gets it: a strict caller gets an error in place of a blocked result. */
  function Presented(r: Result, strict: bool): Result {
    if strict && r.Result? && r.blocked then Thrown else r
  }

  class TaskRepository {
    var row: Option<Row>

    constructor (row: Option<Row>)
      ensures this.row == row
    {
      this.row := row;
    }

    /** The UPDATE of a transition; `changes` is whether a row matched its WHERE clause. */
    method RunUpdate(guard: Status, c: Call, now: int) returns (changes: bool)
      modifies this
      ensures changes == (old(row).Some? && old(row).value.status == guard && PassesFence(old(row).value, c.options))
      ensures row == if changes then Some(Written(old(row).value, c, now)) else old(row)
    {
      changes := row.Some? && row.value.status == guard && PassesFence(row.value, c.options);
      if changes {
        row := Some(Written(row.value, c, now));
      }
    }

    method TransitionStatus(request: Request, options: Options, strict: bool, wallClock: nat) returns (r: Result)
      modifies this
      ensures request.Unknown? ==> r == Thrown && row == old(row)
      ensures !request.Unknown? ==>
                var e := if request.ByEvent? then request.event else EventForTarget(request.status);
                var (row', result) := Uninterrupted(old(row), Transition(e, options), wallClock);
                row == row' && r == Presented(result, strict)
    {
      var resolved := request.Resolve();
      if resolved.None? { return Thrown; }
      var event := resolved.value;
      var call := Transition(event, options);
      var currentTaskState := row;
      if currentTaskState.None? { return Presented(Refused(call, None), strict); }
      var current := currentTaskState.value;
      var now := NextTimestamp(current, wallClock);
      if !Allowed(current.status, event) { return Presented(Refused(call, currentTaskState), strict); }
      if FenceError(options) { return Thrown; }
      var changed := RunUpdate(current.status, call, now);
      if !changed {
        var latestState := row;
        return Presented(LostResult(call, current, now, latestState), strict);
      }
      return WonResult(call, current, now);
    }

    method RefreshActiveTaskLiveness(status: Status, options: Options, strict: bool, wallClock: nat) returns (r: Result)
      modifies this
      ensures var (row', result) := Uninterrupted(old(row), Refresh(status, options), wallClock);
              row == row' && r == Presented(result, strict)
    {
      var call := Refresh(status, options);
      if !Active(status) { return Presented(Refused(call, row), strict); }
      var currentTaskState := row;
      if currentTaskState.None? || currentTaskState.value.status != status {
        return Presented(Refused(call, currentTaskState), strict);
      }
      if FenceError(options) { return Thrown; }
      var current := currentTaskState.value;
      var now := NextTimestamp(current, wallClock);
      var changed := RunUpdate(status, call, now);
      if !changed {
        return Presented(LostResult(call, current, now, row), strict);
      }
      return WonResult(call, current, now);
    }
  }

  // ----- Sequences of calls -----

  datatype Op = Op(call: Call, wallClock: nat)

  function NextRow(row: Row, op: Op): (r: Row)
    ensures Uninterrupted(Some(row), op.call, op.wallClock).0 == Some(r)
  {
    Uninterrupted(Some(row), op.call, op.wallClock).0.value
  }

  /** The queue attempt the call hands out for a change it made. */
  function Handed(row: Row, op: Op): seq<Attempt> {
    var r := Uninterrupted(Some(row), op.call, op.wallClock).1;
    if r.Result? && r.changed && r.attempt.Some? then [r.attempt.value] else []
  }

  function RowAfter(row: Row, ops: seq<Op>): Row
    decreases |ops|
  {
    if ops == [] then row else RowAfter(NextRow(row, ops[0]), ops[1..])
  }

  /** The attempts of the calls that changed the row, in order. */
  function Attempts(row: Row, ops: seq<Op>): seq<Attempt>
    decreases |ops|
  {
    if ops == [] then [] else Handed(row, ops[0]) + Attempts(NextRow(row, ops[0]), ops[1..])
  }

  /** A call that changes the row hands out its new, later, stamp; any other call leaves the row alone. */
  lemma CallStamps(row: Row, op: Op)
    ensures var next := NextRow(row, op);
            if Handed(row, op) == [] then next == row
            else |Handed(row, op)| == 1 && row.updatedAt < next.updatedAt == Handed(row, op)[0].stamp
                 && 0 <= next.updatedAt && Handed(row, op)[0].status == next.status
  {
  }

  ghost predicate Rising(a: seq<Attempt>, low: int, high: int) {
    && low <= high
    && (forall i :: 0 <= i < |a| ==> low < a[i].stamp <= high && 0 <= a[i].stamp)
    && (forall i, j :: 0 <= i < j < |a| ==> a[i].stamp < a[j].stamp)
  }

  /** Over every run of non-overlapping transitions and refreshes the stamps handed out strictly increase, even
      when the wall clock goes back. */
  lemma {:induction false} StampsIncrease(row: Row, ops: seq<Op>)
    ensures Rising(Attempts(row, ops), row.updatedAt, RowAfter(row, ops).updatedAt)
    decreases |ops|
  {
    if ops != [] {
      var next := NextRow(row, ops[0]);
      StampsIncrease(next, ops[1..]);
      CallStamps(row, ops[0]);
      RisingCons(Handed(row, ops[0]), Attempts(next, ops[1..]), row.updatedAt, next.updatedAt,
                 RowAfter(row, ops).updatedAt);
    }
  }

  lemma RisingCons(first: seq<Attempt>, rest: seq<Attempt>, low: int, mid: int, high: int)
    requires low <= mid && Rising(rest, mid, high)
    requires |first| <= 1 && forall i :: 0 <= i < |first| ==> low < first[i].stamp == mid && 0 <= mid
    ensures Rising(first + rest, low, high)
  {
  }
}
