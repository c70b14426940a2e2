/** What one call does to its row and answers, over every interleaving, in terms of the columns of the row: when its
    write commits, what it writes, and which answer it gives. */
module TaskAnswers {
  import opened Wrappers
  import opened TaskStateMachine
  import opened TaskProtocol

  // ----- The rules, in terms of the columns -----

  /** The status is one the call may start from; a refresh takes only its own, active, status. */
  predicate MayStart(c: Call, s: Status) {
    match c
    case Transition(e, _) => s in From(e)
    case Refresh(t, _) => s == t && s in {Queued, Downloading, Downloaded, Uploading}
  }

  /** The call is fenced but names no owner or no lease. */
  predicate Nameless(o: Options) {
    && o.requireClaim
    && (o.claimedBy.None? || o.claimedBy.value.None? || o.claimedBy.value.value == ""
        || o.claimLeaseId.None? || o.claimLeaseId.value == "")
  }

  /** The row is in the status that was read and, for a fenced call, is held by its pair. */
  predicate WriteFits(row: Option<Row>, c: Call, s: Row) {
    && row.Some? && row.value.status == s.status
    && (c.options.requireClaim ==>
          && c.options.claimedBy == Some(row.value.claimedBy)
          && row.value.claimedBy.Some? && row.value.claimLeaseId == c.options.claimLeaseId)
  }

  /** The row that a commit leaves. */
  function RowLeft(row: Row, c: Call, now: int): Row {
    var o := c.options;
    if c.Refresh? then Row(row.status, now, row.claimedBy, row.claimLeaseId)
    else if !o.requireClaim && o.claimedBy.Some? then Row(To(c.event), now, o.claimedBy.value, o.claimLeaseId)
    else if To(c.event) in {Queued, Completed, Failed, Cancelled} then Row(To(c.event), now, None, None)
    else Row(To(c.event), now, row.claimedBy, row.claimLeaseId)
  }

  predicate RetriesQueued(c: Call, s: Row) {
    c.Transition? && c.event == Retry && s.status == Queued
  }

  // ----- The write -----

  /** A call about to write has read the row, was admitted and names its pair if it is fenced. */
  lemma {:induction false} LoadedFits(ws: seq<World>, acts: seq<Action>, b: nat, e: nat, p: nat, c: Call)
    requires IsRun(ws, acts) && b < e < |ws| && acts[b] == Begin(p, c)
    requires p in ws[e].procs && (ws[e].procs[p].phase.Loaded? || ws[e].procs[p].phase.Lost?)
    ensures ws[e].procs[p].call == c
    ensures var ph := ws[e].procs[p].phase;
            && SawRead(ws, acts, b, e, p, ph.snapshot, ph.now)
            && MayStart(c, ph.snapshot.status) && !Nameless(c.options)
  {
    CallStoryHolds(ws, acts, b, e, p, c);
    CoherentAlong(ws, acts, e);
    assert Sound(ws[e].procs[p]);
  }

  /** In every run a call's write commits exactly when the row is still in the status the call read and, if the call
      is fenced, is held by its pair; it leaves exactly the row it should, or the row alone. */
  lemma WriteCommitsExactly(ws: seq<World>, acts: seq<Action>, b: nat, w: nat, p: nat, c: Call)
      returns (s: Row, now: int)
    requires IsRun(ws, acts) && b < w < |acts| && acts[b] == Begin(p, c) && acts[w] == Write(p)
    ensures SawRead(ws, acts, b, w, p, s, now) && p in ws[w + 1].procs
    ensures Commits(ws[w], acts[w]) <==> WriteFits(ws[w].row, c, s)
    ensures WriteFits(ws[w].row, c, s) ==>
              && ws[w + 1].row == Some(RowLeft(ws[w].row.value, c, now))
              && ws[w + 1].procs[p].phase.Returned? && ws[w + 1].procs[p].phase.result.Result?
              && ws[w + 1].procs[p].phase.result.changed
    ensures !WriteFits(ws[w].row, c, s) ==> ws[w + 1].row == ws[w].row && ws[w + 1].procs[p].phase.Lost?
  {
    assert IsStep(ws[w], acts[w], ws[w + 1]);
    LoadedFits(ws, acts, b, w, p, c);
    s, now := ws[w].procs[p].phase.snapshot, ws[w].procs[p].phase.now;
  }

  /** The holder's fenced write commits if the status is still the one it read, whatever status that is. */
  lemma HolderCommits(ws: seq<World>, acts: seq<Action>, b: nat, w: nat, p: nat, c: Call, owner: string, lease: string)
    requires IsRun(ws, acts) && b < w < |acts| && acts[b] == Begin(p, c) && acts[w] == Write(p)
    requires c.options == Options(true, Some(Some(owner)), Some(lease)) && ws[w].row.Some?
    requires ws[w].row.value.claimedBy == Some(owner) && ws[w].row.value.claimLeaseId == Some(lease)
    requires forall s, now :: SawRead(ws, acts, b, w, p, s, now) ==> s.status == ws[w].row.value.status
    ensures ws[w + 1].row.Some? && ws[w + 1].row.value.status == Target(c)
    ensures p in ws[w + 1].procs && ws[w + 1].procs[p].phase.Returned?
    ensures ws[w + 1].procs[p].phase.result.Result? && ws[w + 1].procs[p].phase.result.changed
  {
    var s, now := WriteCommitsExactly(ws, acts, b, w, p, c);
    assert IsStep(ws[w], acts[w], ws[w + 1]);
    LoadedFits(ws, acts, b, w, p, c);
  }

  /** Without a commit in between the status and the claim of the row stay. */
  lemma {:induction false} ColumnsKept(ws: seq<World>, acts: seq<Action>, i: nat, j: nat)
    requires IsRun(ws, acts) && i <= j < |ws| && ws[i].row.Some? && forall k :: i <= k < j ==> !Commits(ws[k], acts[k])
    ensures ws[j].row.Some? && ws[j].row.value.status == ws[i].row.value.status
    ensures ws[j].row.value.claimedBy == ws[i].row.value.claimedBy
    ensures ws[j].row.value.claimLeaseId == ws[i].row.value.claimLeaseId
    decreases j
  {
    if i < j {
      ColumnsKept(ws, acts, i, j - 1);
      assert IsStep(ws[j - 1], acts[j - 1], ws[j]);
    }
  }

  /** An undisturbed write commits: that of an unfenced call, and that of a fenced one whose pair the row held when
      the call read it. */
  lemma UndisturbedWriteCommits(ws: seq<World>, acts: seq<Action>, b: nat, w: nat, e: nat, p: nat, c: Call)
    requires IsRun(ws, acts) && b < w < e < |ws| && acts[b] == Begin(p, c) && acts[w] == Write(p)
    requires Undisturbed(ws, acts, b, e, p)
    requires c.options.requireClaim ==> forall s, now :: SawRead(ws, acts, b, w, p, s, now) ==>
               && s.claimedBy.Some?
               && c.options.claimedBy == Some(s.claimedBy) && s.claimLeaseId == c.options.claimLeaseId
    ensures Commits(ws[w], acts[w])
  {
    var s, now := WriteCommitsExactly(ws, acts, b, w, p, c);
    var r :| b < r < w && ReadsNow(ws[r], acts[r], p, s, now);
    ColumnsKept(ws, acts, r, w);
  }

  // ----- The answer -----

  ghost predicate MissedWrite(ws: seq<World>, acts: seq<Action>, b: nat, e: nat, p: nat)
    requires IsRun(ws, acts) && e <= |acts|
  {
    exists w :: b < w < e && acts[w] == Write(p) && !Commits(ws[w], acts[w])
  }

  /** The call was turned away at its read: no row, or a status it may not start from, or a fence without names. */
  predicate TurnedAway(w: World, a: Action, p: nat, c: Call, r: Result) {
    && a.Read? && a.p == p
    && if w.row.None? then r == Result(false, true, false, None)
       else if !MayStart(c, w.row.value.status)
       then r == Result(false, true, c.Transition? && w.row.value.status == To(c.event), None)
       else Nameless(c.options) && r == Thrown
  }

  /** The answer of a call that read the row `s` and committed with the stamp `now`. */
  predicate Won(c: Call, s: Row, now: int, r: Result) {
    r == Result(true, false, c.Transition? && s.status == To(c.event) && !RetriesQueued(c, s),
                Some(Attempt(if c.Transition? then To(c.event) else s.status, now)))
  }

  /** The answer of a call that read the row `s`, would have written the stamp `now`, missed, and then read
      `latest`. The attempt it is told is that of the row it found at the target, or else the one it started from. */
  predicate Missed(c: Call, s: Row, now: int, latest: Option<Row>, r: Result) {
    if c.Refresh? then r == Result(false, true, false, None)
    else if latest.Some? && latest.value.status == To(c.event)
            && (RetriesQueued(c, s) ==> latest.value.updatedAt >= now)
    then r == Result(false, false, !RetriesQueued(c, s),
                     Some(Attempt(To(c.event), if latest.value.updatedAt == 0 then now else latest.value.updatedAt)))
    else r == Result(false, true, false, Some(Attempt(s.status, if s.updatedAt == 0 then now else s.updatedAt)))
  }

  ghost predicate WasTurnedAway(ws: seq<World>, acts: seq<Action>, b: nat, e: nat, p: nat, c: Call, r: Result)
    requires IsRun(ws, acts) && e <= |acts|
  {
    exists k :: b < k < e && TurnedAway(ws[k], acts[k], p, c, r)
  }

  ghost predicate HasWon(ws: seq<World>, acts: seq<Action>, b: nat, e: nat, p: nat, c: Call, r: Result)
    requires IsRun(ws, acts) && e <= |acts|
  {
    exists s, now :: SawRead(ws, acts, b, e, p, s, now) && Committed(ws, acts, b, e, p) && Won(c, s, now, r)
  }

  ghost predicate HasMissed(ws: seq<World>, acts: seq<Action>, b: nat, e: nat, p: nat, c: Call, r: Result)
    requires IsRun(ws, acts) && e <= |acts|
  {
    exists s, now, q :: b < q < e && acts[q] == Reread(p) && MissedWrite(ws, acts, b, q, p)
                        && SawRead(ws, acts, b, e, p, s, now) && Missed(c, s, now, ws[q].row, r)
  }

  ghost predicate AnswerFits(ws: seq<World>, acts: seq<Action>, b: nat, e: nat, p: nat, c: Call, r: Result)
    requires IsRun(ws, acts) && e <= |acts|
  {
    WasTurnedAway(ws, acts, b, e, p, c, r) || HasWon(ws, acts, b, e, p, c, r) || HasMissed(ws, acts, b, e, p, c, r)
  }

  lemma AnswerStays(ws: seq<World>, acts: seq<Action>, b: nat, e: nat, next: nat, p: nat, c: Call, r: Result)
    requires IsRun(ws, acts) && b < e < next == e + 1 <= |acts| && AnswerFits(ws, acts, b, e, p, c, r)
    ensures AnswerFits(ws, acts, b, next, p, c, r)
  {
    StoryWindow(ws, acts, b, e, next, p);
    hide SawRead, Committed;
    if HasWon(ws, acts, b, e, p, c, r) {
      var s, now :| SawRead(ws, acts, b, e, p, s, now) && Committed(ws, acts, b, e, p) && Won(c, s, now, r);
      assert SawRead(ws, acts, b, next, p, s, now);
    } else if HasMissed(ws, acts, b, e, p, c, r) {
      var s, now, q :| b < q < e && acts[q] == Reread(p) && MissedWrite(ws, acts, b, q, p)
                       && SawRead(ws, acts, b, e, p, s, now) && Missed(c, s, now, ws[q].row, r);
      assert SawRead(ws, acts, b, next, p, s, now);
    }
  }

  /** A call that waits for its second read has missed its write. */
  lemma {:induction false} LostHasMissed(ws: seq<World>, acts: seq<Action>, b: nat, e: nat, p: nat, c: Call)
    requires IsRun(ws, acts) && b < e < |ws| && acts[b] == Begin(p, c)
    requires p in ws[e].procs && ws[e].procs[p].phase.Lost?
    ensures MissedWrite(ws, acts, b, e, p)
    decreases e
  {
    assert IsStep(ws[e - 1], acts[e - 1], ws[e]);
    if e - 1 > b && acts[e - 1] != Write(p) {
      LostHasMissed(ws, acts, b, e - 1, p, c);
    }
  }

  lemma AnswerGiven(ws: seq<World>, acts: seq<Action>, b: nat, e: nat, next: nat, p: nat, c: Call)
    requires IsRun(ws, acts) && b < e < next == e + 1 <= |acts| && acts[b] == Begin(p, c)
    requires p in ws[e].procs && !ws[e].procs[p].phase.Returned? && ws[next].procs[p].phase.Returned?
    ensures AnswerFits(ws, acts, b, next, p, c, ws[next].procs[p].phase.result)
  {
    var w, a, r := ws[e], acts[e], ws[next].procs[p].phase.result;
    var ph := w.procs[p].phase;
    assert IsStep(w, a, ws[next]);
    CallStoryHolds(ws, acts, b, e, p, c);
    StoryWindow(ws, acts, b, e, next, p);
    if a.Read? {
      assert TurnedAway(w, a, p, c, r);
    } else {
      LoadedFits(ws, acts, b, e, p, c);
      assert SawRead(ws, acts, b, next, p, ph.snapshot, ph.now);
      if a.Write? {
        assert Commits(w, a) && Committed(ws, acts, b, next, p);
        assert Won(c, ph.snapshot, ph.now, r);
      } else {
        LostHasMissed(ws, acts, b, e, p, c);
        assert Missed(c, ph.snapshot, ph.now, ws[e].row, r);
      }
    }
  }

  /** In every run the answer of a call is one of three, each fixed in all its fields by the rows the call saw: it
      was turned away, it committed, or it missed and read again. */
  lemma {:induction false} AnswerExactly(ws: seq<World>, acts: seq<Action>, b: nat, e: nat, p: nat, c: Call)
    requires IsRun(ws, acts) && b < e < |ws| && acts[b] == Begin(p, c)
    requires p in ws[e].procs && ws[e].procs[p].phase.Returned?
    ensures AnswerFits(ws, acts, b, e, p, c, ws[e].procs[p].phase.result)
    decreases e
  {
    var k := e - 1;
    assert IsStep(ws[k], acts[k], ws[e]);
    if k > b {
      if ws[k].procs[p].phase.Returned? {
        AnswerExactly(ws, acts, b, k, p, c);
        AnswerStays(ws, acts, b, k, e, p, c, ws[e].procs[p].phase.result);
      } else {
        AnswerGiven(ws, acts, b, k, e, p, c);
      }
    }
  }

  /** A call reads once. */
  lemma {:induction false} ReadsOnce(ws: seq<World>, acts: seq<Action>, b: nat, e: nat, p: nat, c: Call)
    requires IsRun(ws, acts) && b < e < |ws| && acts[b] == Begin(p, c)
    ensures p in ws[e].procs
    ensures ws[e].procs[p].phase.Called? ==> forall k :: b < k < e ==> !(acts[k].Read? && acts[k].p == p)
    ensures forall j, k :: b < j < k < e && acts[j].Read? && acts[j].p == p ==> !(acts[k].Read? && acts[k].p == p)
    decreases e
  {
    assert IsStep(ws[e - 1], acts[e - 1], ws[e]);
    if e - 1 > b {
      ReadsOnce(ws, acts, b, e - 1, p, c);
    }
  }

  lemma HolderNeverMisses(ws: seq<World>, acts: seq<Action>, b: nat, r: nat, q: nat, e: nat, p: nat, c: Call,
                          owner: string, lease: string)
    requires IsRun(ws, acts) && b < r < e < |ws| && q < e && acts[b] == Begin(p, c) && acts[r].Read? && acts[r].p == p
    requires c.options == Options(true, Some(Some(owner)), Some(lease)) && ws[r].row.Some?
    requires ws[r].row.value.claimedBy == Some(owner) && ws[r].row.value.claimLeaseId == Some(lease)
    requires Undisturbed(ws, acts, b, e, p)
    ensures !MissedWrite(ws, acts, b, q, p)
  {
    forall m | b < m < q && acts[m] == Write(p)
      ensures Commits(ws[m], acts[m])
    {
      ReadsOnce(ws, acts, b, e, p, c);
      assert forall s, now :: SawRead(ws, acts, b, m, p, s, now) ==> ws[r].row == Some(s);
      UndisturbedWriteCommits(ws, acts, b, m, e, p, c);
    }
  }

  lemma CommitReachesTarget(ws: seq<World>, acts: seq<Action>, b: nat, w: nat, p: nat, c: Call)
    requires IsRun(ws, acts) && b < w < |acts| && acts[b] == Begin(p, c) && acts[w] == Write(p)
    requires Commits(ws[w], acts[w])
    ensures ws[w + 1].row.Some? && ws[w + 1].row.value.status == Target(c)
  {
    var s, now := WriteCommitsExactly(ws, acts, b, w, p, c);
    assert IsStep(ws[w], acts[w], ws[w + 1]);
    LoadedFits(ws, acts, b, w, p, c);
  }

  lemma AdmittedNotTurnedAway(ws: seq<World>, acts: seq<Action>, b: nat, r: nat, e: nat, p: nat, c: Call,
                              answer: Result)
    requires IsRun(ws, acts) && b < r < e < |ws| && acts[b] == Begin(p, c) && acts[r].Read? && acts[r].p == p
    requires ws[r].row.Some? && MayStart(c, ws[r].row.value.status) && !Nameless(c.options)
    requires Undisturbed(ws, acts, b, e, p)
    ensures !WasTurnedAway(ws, acts, b, e, p, c, answer)
  {
    ReadsOnce(ws, acts, b, e, p, c);
  }

  /** An undisturbed call of the holder on a row whose status admits it changes the row: it answers so, and its write
      left the row in the target status. */
  lemma UndisturbedHolderChanges(ws: seq<World>, acts: seq<Action>, b: nat, r: nat, e: nat, p: nat, c: Call,
                                 owner: string, lease: string) returns (w: nat)
    requires IsRun(ws, acts) && b < r < e < |ws| && acts[b] == Begin(p, c) && acts[r].Read? && acts[r].p == p
    requires c.options == Options(true, Some(Some(owner)), Some(lease)) && owner != "" && lease != "" && ws[r].row.Some?
    requires ws[r].row.value.claimedBy == Some(owner) && ws[r].row.value.claimLeaseId == Some(lease)
    requires MayStart(c, ws[r].row.value.status) && Undisturbed(ws, acts, b, e, p)
    requires p in ws[e].procs && ws[e].procs[p].phase.Returned?
    ensures ws[e].procs[p].phase.result.Result? && ws[e].procs[p].phase.result.changed
    ensures b < w < e && acts[w] == Write(p) && ws[w + 1].row.Some? && ws[w + 1].row.value.status == Target(c)
  {
    var answer := ws[e].procs[p].phase.result;
    AnswerExactly(ws, acts, b, e, p, c);
    AdmittedNotTurnedAway(ws, acts, b, r, e, p, c, answer);
    if HasMissed(ws, acts, b, e, p, c, answer) {
      var q :| b < q < e && MissedWrite(ws, acts, b, q, p);
      HolderNeverMisses(ws, acts, b, r, q, e, p, c, owner, lease);
      assert false;
    }
    w :| b < w < e && acts[w] == Write(p) && Commits(ws[w], acts[w]);
    CommitReachesTarget(ws, acts, b, w, p, c);
  }
}
