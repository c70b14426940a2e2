/** Who may write a task row: claims of an instance under a lease, writes fenced with them, and what the answers of
    the claiming calls say about the row. */
module TaskClaims {
  import opened Wrappers
  import opened TaskStateMachine
  import opened TaskProtocol
  import opened TaskAnswers

  predicate IsStart(c: Call) {
    c.Transition? && (c.event == StartDownload || c.event == StartUpload)
  }

  /** Only the two start events pass an owner outside a fence. */
  predicate Disciplined(c: Call) {
    c.Transition? && !c.options.requireClaim && c.options.claimedBy.Some? ==> IsStart(c)
  }

  ghost predicate DisciplinedWorld(w: World) {
    forall p :: p in w.procs ==> Disciplined(w.procs[p].call)
  }

  ghost predicate DisciplinedRun(ws: seq<World>, acts: seq<Action>) {
    && IsRun(ws, acts) && DisciplinedWorld(ws[0]) && NoIdleClaim(ws[0])
    && forall k :: 0 <= k < |acts| && acts[k].Begin? ==> Disciplined(acts[k].call)
  }

  /** A task that waits or is over is claimed by nobody. */
  predicate NoIdleClaim(w: World) {
    w.row.Some? && w.row.value.status in {Queued, Completed, Failed, Cancelled} ==>
      w.row.value.claimedBy == None && w.row.value.claimLeaseId == None
  }

  lemma {:induction false} IdleTasksUnclaimed(ws: seq<World>, acts: seq<Action>, k: nat)
    requires DisciplinedRun(ws, acts) && k < |ws|
    ensures NoIdleClaim(ws[k]) && DisciplinedWorld(ws[k])
    decreases k
  {
    if k > 0 {
      IdleTasksUnclaimed(ws, acts, k - 1);
      CoherentAlong(ws, acts, k - 1);
      assert IsStep(ws[k - 1], acts[k - 1], ws[k]);
      IdleStep(ws[k - 1], acts[k - 1]);
    }
  }

  lemma IdleStep(w: World, a: Action)
    requires Coherent(w) && NoIdleClaim(w) && DisciplinedWorld(w) && Enabled(w, a)
    requires a.Begin? ==> Disciplined(a.call)
    ensures NoIdleClaim(Apply(w, a)) && DisciplinedWorld(Apply(w, a))
  {
    if a.Write? {
      assert Sound(w.procs[a.p]) && Disciplined(w.procs[a.p].call);
    }
  }

  ghost predicate HeldAt(w: World, owner: string, lease: string) {
    w.row.Some? && Holds(w.row.value, owner, lease)
  }

  /** Action `a` commits an unfenced start event in the name of the pair. */
  ghost predicate Claims(w: World, a: Action, owner: string, lease: string) {
    && Commits(w, a) && IsStart(w.procs[a.p].call)
    && w.procs[a.p].call.options == Options(false, Some(Some(owner)), Some(lease))
  }

  /** Action `a` commits a write fenced with the pair. */
  ghost predicate FencedCommit(w: World, a: Action, owner: string, lease: string) {
    && Commits(w, a) && w.procs[a.p].call.options == Options(true, Some(Some(owner)), Some(lease))
  }

  /** The row comes to hold a pair only by a start event that claims it. */
  lemma {:induction false} HeldMeansClaimed(ws: seq<World>, acts: seq<Action>, i: nat, k: nat, owner: string,
                                            lease: string)
    requires DisciplinedRun(ws, acts) && i <= k < |ws|
    requires !HeldAt(ws[i], owner, lease) && HeldAt(ws[k], owner, lease)
    ensures exists j :: i <= j < k && Claims(ws[j], acts[j], owner, lease)
    decreases k
  {
    assert k > 0 && IsStep(ws[k - 1], acts[k - 1], ws[k]);
    if HeldAt(ws[k - 1], owner, lease) {
      HeldMeansClaimed(ws, acts, i, k - 1, owner, lease);
    } else {
      IdleTasksUnclaimed(ws, acts, k - 1);
      var a := acts[k - 1];
      assert a.Write?;
      assert Disciplined(ws[k - 1].procs[a.p].call);
      assert Claims(ws[k - 1], a, owner, lease);
    }
  }

  /** Fencing: if the row does not hold a pair in state `i`, a write fenced with it commits later only after an
      unfenced start event has claimed the pair again. */
  lemma FencedWriteNeedsClaim(ws: seq<World>, acts: seq<Action>, i: nat, k: nat, owner: string, lease: string)
    requires DisciplinedRun(ws, acts) && i <= k < |acts|
    requires !HeldAt(ws[i], owner, lease) && FencedCommit(ws[k], acts[k], owner, lease)
    ensures exists j :: i <= j < k && Claims(ws[j], acts[j], owner, lease)
  {
    HeldMeansClaimed(ws, acts, i, k, owner, lease);
  }

  /** Action `a` commits a write that leaves the row to another pair or to nobody. */
  predicate Displaces(w: World, a: Action, owner: string, lease: string) {
    && Commits(w, a)
    && var c := w.procs[a.p].call;
       c.Transition? &&
       if !c.options.requireClaim && c.options.claimedBy.Some?
       then c.options.claimedBy.value != Some(owner) || c.options.claimLeaseId != Some(lease)
       else To(c.event) in {Queued, Completed, Failed, Cancelled}
  }

  /** Once a commit displaces a pair, or is fenced with another one, no write fenced with the pair commits before an
      unfenced start event has claimed the pair again. */
  lemma FencedWritersExclude(ws: seq<World>, acts: seq<Action>, j: nat, k: nat,
                             owner: string, lease: string, owner': string, lease': string)
    requires DisciplinedRun(ws, acts) && j < k < |acts| && (owner, lease) != (owner', lease')
    requires Displaces(ws[j], acts[j], owner, lease) || FencedCommit(ws[j], acts[j], owner', lease')
    requires FencedCommit(ws[k], acts[k], owner, lease)
    ensures exists m :: j <= m < k && Claims(ws[m], acts[m], owner, lease)
  {
    if Displaces(ws[j], acts[j], owner, lease) {
      assert IsStep(ws[j], acts[j], ws[j + 1]);
      FencedWriteNeedsClaim(ws, acts, j + 1, k, owner, lease);
    } else {
      FencedWriteNeedsClaim(ws, acts, j, k, owner, lease);
    }
  }

  /** Every commit between `i` and `m` that displaces the pair is followed by one that claims it again. */
  ghost predicate Reclaimed(ws: seq<World>, acts: seq<Action>, i: nat, m: nat, owner: string, lease: string)
    requires m <= |acts| < |ws|
  {
    forall k :: i <= k < m && Displaces(ws[k], acts[k], owner, lease) ==> ClaimedIn(ws, acts, k, m, owner, lease)
  }

  ghost predicate ClaimedIn(ws: seq<World>, acts: seq<Action>, i: nat, m: nat, owner: string, lease: string)
    requires m <= |acts| < |ws|
  {
    exists j :: i < j < m && Claims(ws[j], acts[j], owner, lease)
  }

  /** A pair that the row holds in state `i` is held in state `m` exactly when every commit in between that
      displaced it was followed by one that claimed it again. */
  lemma {:induction false} HeldExactly(ws: seq<World>, acts: seq<Action>, i: nat, m: nat, owner: string, lease: string)
    requires DisciplinedRun(ws, acts) && i <= m < |ws| && HeldAt(ws[i], owner, lease)
    ensures HeldAt(ws[m], owner, lease) <==> Reclaimed(ws, acts, i, m, owner, lease)
    decreases m
  {
    if i < m {
      var k := m - 1;
      HeldExactly(ws, acts, i, k, owner, lease);
      IdleTasksUnclaimed(ws, acts, k);
      assert IsStep(ws[k], acts[k], ws[m]);
      HeldStep(ws[k], acts[k], owner, lease);
      if Claims(ws[k], acts[k], owner, lease) {
        assert forall x :: i <= x < k ==> ClaimedIn(ws, acts, x, m, owner, lease);
      } else {
        assert forall x :: ClaimedIn(ws, acts, x, m, owner, lease) <==> ClaimedIn(ws, acts, x, k, owner, lease);
      }
    }
  }

  lemma HeldStep(w: World, a: Action, owner: string, lease: string)
    requires DisciplinedWorld(w) && Enabled(w, a)
    ensures Displaces(w, a, owner, lease) ==> !HeldAt(Apply(w, a), owner, lease) && !Claims(w, a, owner, lease)
    ensures Claims(w, a, owner, lease) ==> HeldAt(Apply(w, a), owner, lease)
    ensures !Displaces(w, a, owner, lease) && !Claims(w, a, owner, lease) ==>
              (HeldAt(Apply(w, a), owner, lease) <==> HeldAt(w, owner, lease))
  {
    if a.Write? {
      assert Disciplined(w.procs[a.p].call);
    }
  }

  /** After completion or cancellation no fenced write ever commits. */
  lemma NoFencedWriteAfterTheEnd(ws: seq<World>, acts: seq<Action>, i: nat, k: nat, owner: string, lease: string)
    requires DisciplinedRun(ws, acts) && i <= k < |acts| && ws[i].row.Some?
    requires ws[i].row.value.status == Completed || ws[i].row.value.status == Cancelled
    ensures !FencedCommit(ws[k], acts[k], owner, lease)
  {
    FinalStatusesAbsorb(ws, acts, i, k);
    IdleTasksUnclaimed(ws, acts, k);
  }

  // ----- What the answer to a claim is worth -----

  /** An unfenced call in the name of a pair; the two start events are how a pair is claimed. */
  function ClaimCall(event: Event, owner: string, lease: string): Call {
    Transition(event, Options(false, Some(Some(owner)), Some(lease)))
  }

  /** What `claimTask` returns. */
  predicate ClaimAnswer(r: Result) {
    r.Result? && (r.changed || r.idempotent)
  }

  /** Two claimers can both be told that they claimed a task, though the row names only the first. */
  lemma BothClaimersAreToldYes() returns (ws: seq<World>, acts: seq<Action>)
    ensures IsRun(ws, acts) && |acts| > 2 && ws[0] == World(Some(Row(Queued, 5, None, None)), map[])
    ensures acts[0] == Begin(0, ClaimCall(StartDownload, "a", "1"))
    ensures acts[1] == Begin(1, ClaimCall(StartDownload, "b", "2"))
    ensures var w := ws[|acts|];
            && w.procs.Keys == {0, 1} && w.procs[0].call == ClaimCall(StartDownload, "a", "1")
            && w.procs[1].call == ClaimCall(StartDownload, "b", "2")
            && w.procs[0].phase.Returned? && ClaimAnswer(w.procs[0].phase.result)
            && w.procs[1].phase.Returned? && ClaimAnswer(w.procs[1].phase.result)
            && HeldAt(w, "a", "1") && !HeldAt(w, "b", "2")
  {
    hide IsRun;
    var w0 := World(Some(Row(Queued, 5, None, None)), map[]);
    ws, acts := Stay(w0);
    ws, acts := Extend(ws, acts, Begin(0, ClaimCall(StartDownload, "a", "1")));
    ws, acts := Extend(ws, acts, Begin(1, ClaimCall(StartDownload, "b", "2")));
    ws, acts := Extend(ws, acts, Read(0, 7));
    ws, acts := Extend(ws, acts, Read(1, 8));
    ws, acts := Extend(ws, acts, Write(0));
    ws, acts := Extend(ws, acts, Write(1));
    ws, acts := Extend(ws, acts, Reread(1));
  }

  /** The call of `p` has claimed the row for the pair between `b` and `e`. */
  ghost predicate MadeClaim(ws: seq<World>, acts: seq<Action>, b: nat, e: nat, p: nat, owner: string, lease: string)
    requires IsRun(ws, acts) && e <= |acts|
  {
    exists k :: b < k < e && acts[k] == Write(p) && Claims(ws[k], acts[k], owner, lease)
  }

  /** The write of the call found the status moved, and its second read found the target status all the same. */
  ghost predicate LostToTarget(ws: seq<World>, acts: seq<Action>, b: nat, e: nat, p: nat, target: Status)
    requires IsRun(ws, acts) && e <= |acts|
  {
    exists q :: b < q < e && acts[q] == Reread(p) && MissedWrite(ws, acts, b, q, p)
                && ws[q].row.Some? && ws[q].row.value.status == target
  }

  /** What is known in state `e` of the statements a start event has issued. */
  ghost predicate StartStory(ws: seq<World>, acts: seq<Action>, b: nat, e: nat, p: nat, c: Call)
    requires IsRun(ws, acts) && b < e < |ws|
  {
    && p in ws[e].procs && ws[e].procs[p].call == c
    && match ws[e].procs[p].phase
       case Lost(_, _) => MissedWrite(ws, acts, b, e, p) && forall k :: b < k < e ==> acts[k] != Reread(p)
       case Returned(Result(changed, blocked, idempotent, _)) =>
         && (blocked <==> !(changed || idempotent))
         && (!blocked && !changed <==> LostToTarget(ws, acts, b, e, p, Target(c)))
       case Returned(Thrown) => true
       case _ => forall k :: b < k < e ==> acts[k] != Reread(p)
  }

  lemma {:induction false} StartStoryHolds(ws: seq<World>, acts: seq<Action>, b: nat, e: nat, p: nat, c: Call)
    requires IsRun(ws, acts) && b < e < |ws| && acts[b] == Begin(p, c) && IsStart(c)
    ensures StartStory(ws, acts, b, e, p, c)
    decreases e
  {
    if e > b + 1 {
      StartStoryHolds(ws, acts, b, e - 1, p, c);
      StartStoryStep(ws, acts, b, e - 1, e, p, c);
    } else {
      assert IsStep(ws[b], acts[b], ws[e]);
    }
  }

  lemma StartStoryStep(ws: seq<World>, acts: seq<Action>, b: nat, e: nat, next: nat, p: nat, c: Call)
    requires IsRun(ws, acts) && b < e < next == e + 1 <= |acts| && StartStory(ws, acts, b, e, p, c) && IsStart(c)
    ensures StartStory(ws, acts, b, next, p, c)
  {
    var w, a := ws[e], acts[e];
    assert IsStep(w, a, ws[next]);
    CoherentAlong(ws, acts, e);
    assert Sound(w.procs[p]);
    assert MissedWrite(ws, acts, b, e, p) ==> MissedWrite(ws, acts, b, next, p);
    assert LostToTarget(ws, acts, b, e, p, Target(c)) ==> LostToTarget(ws, acts, b, next, p, Target(c));
    if a == Write(p) && !Commits(w, a) {
      assert MissedWrite(ws, acts, b, next, p);
    }
    if a == Reread(p) && w.row.Some? && w.row.value.status == Target(c) {
      assert LostToTarget(ws, acts, b, next, p, Target(c));
    }
  }

  /** The answer of a start event, read as a claim by its caller (`!blocked`, or as `claimTask` reads it), is wrong
      exactly when the call's write missed because the status had moved since its read and its second read found
      the target status; then the row was not claimed. */
  lemma ClaimAnswerWrongExactly(ws: seq<World>, acts: seq<Action>, b: nat, e: nat, p: nat,
                                event: Event, owner: string, lease: string)
    requires IsRun(ws, acts) && b < e < |ws| && acts[b] == Begin(p, ClaimCall(event, owner, lease))
    requires event == StartDownload || event == StartUpload
    requires p in ws[e].procs && ws[e].procs[p].phase.Returned? && ws[e].procs[p].phase.result.Result?
    ensures var r, made := ws[e].procs[p].phase.result, MadeClaim(ws, acts, b, e, p, owner, lease);
            && (!r.blocked <==> ClaimAnswer(r)) && (made ==> !r.blocked)
            && (!r.blocked && !made <==> LostToTarget(ws, acts, b, e, p, To(event)))
  {
    var c := ClaimCall(event, owner, lease);
    ResultsAreTrue(ws, acts, b, e, p, c);
    StartStoryHolds(ws, acts, b, e, p, c);
    if Committed(ws, acts, b, e, p) {
      var k :| b < k < e && acts[k] == Write(p) && Commits(ws[k], acts[k]);
      CallStoryHolds(ws, acts, b, k, p, c);
      assert Claims(ws[k], acts[k], owner, lease);
    }
  }

  /** So the answer is right whenever nothing else commits between the call's own read and write. */
  lemma UndisturbedClaimIsTrue(ws: seq<World>, acts: seq<Action>, b: nat, e: nat, p: nat,
                               event: Event, owner: string, lease: string)
    requires IsRun(ws, acts) && b < e < |ws| && acts[b] == Begin(p, ClaimCall(event, owner, lease))
    requires event == StartDownload || event == StartUpload
    requires p in ws[e].procs && ws[e].procs[p].phase.Returned? && ws[e].procs[p].phase.result.Result?
    requires Undisturbed(ws, acts, b, e, p)
    ensures !ws[e].procs[p].phase.result.blocked <==> MadeClaim(ws, acts, b, e, p, owner, lease)
  {
    ClaimAnswerWrongExactly(ws, acts, b, e, p, event, owner, lease);
    hide IsRun, CallStory, MadeClaim, Commits;
    if MissedWrite(ws, acts, b, e, p) {
      var w :| b < w < e && acts[w] == Write(p) && !Commits(ws[w], acts[w]);
      UndisturbedWriteCommits(ws, acts, b, w, e, p, ClaimCall(event, owner, lease));
      assert false;
    }
  }

  /** An unblocked start event that did not lose to another claimed its pair, and the row holds the pair at any later
      moment exactly when every commit that displaced it was followed by one that claimed it again. */
  lemma UnblockedStartHolds(ws: seq<World>, acts: seq<Action>, b: nat, e: nat, m: nat, p: nat,
                            event: Event, owner: string, lease: string) returns (w: nat)
    requires DisciplinedRun(ws, acts) && b < e <= m < |ws| && acts[b] == Begin(p, ClaimCall(event, owner, lease))
    requires event == StartDownload || event == StartUpload
    requires p in ws[e].procs && ws[e].procs[p].phase.Returned? && ws[e].procs[p].phase.result.Result?
    requires !ws[e].procs[p].phase.result.blocked && !LostToTarget(ws, acts, b, e, p, To(event))
    ensures b < w < e && acts[w] == Write(p) && Claims(ws[w], acts[w], owner, lease)
    ensures HeldAt(ws[m], owner, lease) <==> Reclaimed(ws, acts, w + 1, m, owner, lease)
  {
    ClaimAnswerWrongExactly(ws, acts, b, e, p, event, owner, lease);
    w :| b < w < e && acts[w] == Write(p) && Claims(ws[w], acts[w], owner, lease);
    assert IsStep(ws[w], acts[w], ws[w + 1]);
    HeldExactly(ws, acts, w + 1, m, owner, lease);
  }
}
