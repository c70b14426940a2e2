/** When the timestamps of interleaved writes to one row strictly increase. */
module TaskTimestamps {
  import opened Wrappers
  import opened TaskStateMachine
  import opened TaskProtocol

  /** A committed write is stamped later than the row it overwrites exactly when its call's clock was ahead of that
      row, or the row it had read is no older than that row. */
  lemma CommitAdvancesExactly(w: World, a: Action, wallClock: nat)
    requires Commits(w, a) && w.procs[a.p].phase.now == NextTimestamp(w.procs[a.p].phase.snapshot, wallClock)
    ensures Apply(w, a).row.value.updatedAt > w.row.value.updatedAt
            <==> wallClock > w.row.value.updatedAt || w.procs[a.p].phase.snapshot.updatedAt >= w.row.value.updatedAt
  {
  }

  /** A run from a database without calls in flight, in which every change of the row is a commit. */
  ghost predicate PlainRun(ws: seq<World>, acts: seq<Action>) {
    IsRun(ws, acts) && ws[0].procs == map[] && forall k :: 0 <= k < |acts| ==> !acts[k].Insert? && !acts[k].Touch?
  }

  ghost predicate CommitsAt(ws: seq<World>, acts: seq<Action>, k: int)
    requires |ws| == |acts| + 1
  {
    0 <= k < |acts| && Commits(ws[k], acts[k])
  }

  ghost function StampAt(ws: seq<World>, acts: seq<Action>, k: int): int
    requires |ws| == |acts| + 1 && CommitsAt(ws, acts, k)
  {
    ws[k].procs[acts[k].p].phase.now
  }

  ghost predicate StampsRise(ws: seq<World>, acts: seq<Action>)
    requires |ws| == |acts| + 1
  {
    forall j, k :: j < k && CommitsAt(ws, acts, j) && CommitsAt(ws, acts, k) ==>
      StampAt(ws, acts, j) < StampAt(ws, acts, k)
  }

  /** When the call committing at `k` read the row, its clock was ahead of the row as it is at `k`, or so was what
      it read, or at least no older. */
  ghost predicate Timely(ws: seq<World>, acts: seq<Action>, k: int)
    requires |ws| == |acts| + 1 && CommitsAt(ws, acts, k)
  {
    exists r :: 0 <= r < k && ReadsFor(ws[r], acts[r], acts[k].p)
                && (acts[r].wallClock > ws[k].row.value.updatedAt
                    || ws[r].row.value.updatedAt >= ws[k].row.value.updatedAt)
  }

  predicate ReadsFor(w: World, a: Action, p: nat) {
    a.Read? && a.p == p && w.row.Some?
  }

  lemma {:induction false} NoReadYet(ws: seq<World>, acts: seq<Action>, k: nat, p: nat)
    requires IsRun(ws, acts) && ws[0].procs == map[] && k < |ws|
    requires p !in ws[k].procs || ws[k].procs[p].phase.Called?
    ensures forall r :: 0 <= r < k ==> !(acts[r].Read? && acts[r].p == p)
    decreases k
  {
    if k > 0 {
      assert IsStep(ws[k - 1], acts[k - 1], ws[k]);
      NoReadYet(ws, acts, k - 1, p);
    }
  }

  /** A call about to write has read exactly once, and holds what it read. */
  lemma {:induction false} OneRead(ws: seq<World>, acts: seq<Action>, k: nat, p: nat) returns (r: nat)
    requires IsRun(ws, acts) && ws[0].procs == map[] && k < |ws| && p in ws[k].procs && ws[k].procs[p].phase.Loaded?
    ensures r < k && ReadsNow(ws[r], acts[r], p, ws[k].procs[p].phase.snapshot, ws[k].procs[p].phase.now)
    ensures forall r' :: 0 <= r' < k && acts[r'].Read? && acts[r'].p == p ==> r' == r
    decreases k
  {
    assert k > 0 && IsStep(ws[k - 1], acts[k - 1], ws[k]);
    if acts[k - 1].Read? && acts[k - 1].p == p {
      r := k - 1;
      NoReadYet(ws, acts, k - 1, p);
    } else {
      r := OneRead(ws, acts, k - 1, p);
    }
  }

  lemma AdvancesExactlyWhenTimely(ws: seq<World>, acts: seq<Action>, k: nat)
    requires PlainRun(ws, acts) && CommitsAt(ws, acts, k)
    ensures ws[k + 1].row.Some? && ws[k + 1].row.value.updatedAt == StampAt(ws, acts, k)
    ensures StampAt(ws, acts, k) > ws[k].row.value.updatedAt <==> Timely(ws, acts, k)
  {
    assert IsStep(ws[k], acts[k], ws[k + 1]);
    var r := OneRead(ws, acts, k, acts[k].p);
    CommitAdvancesExactly(ws[k], acts[k], acts[r].wallClock);
    assert ReadsFor(ws[r], acts[r], acts[k].p);
  }

  /** Without a commit in between the row stays as it is. */
  lemma {:induction false} RowKept(ws: seq<World>, acts: seq<Action>, i: nat, j: nat)
    requires PlainRun(ws, acts) && i <= j < |ws| && forall k :: i <= k < j ==> !CommitsAt(ws, acts, k)
    ensures ws[j].row == ws[i].row
    decreases j
  {
    if i < j {
      RowKept(ws, acts, i, j - 1);
      assert IsStep(ws[j - 1], acts[j - 1], ws[j]) && !CommitsAt(ws, acts, j - 1);
    }
  }

  /** The stamp of the row is that of the latest commit, or the row is as it was at the start. */
  lemma {:induction false} LatestCommit(ws: seq<World>, acts: seq<Action>, k: nat) returns (j: int)
    requires PlainRun(ws, acts) && k < |ws|
    ensures -1 <= j < k && forall i :: j < i < k ==> !CommitsAt(ws, acts, i)
    ensures if j == -1 then ws[k].row == ws[0].row
            else CommitsAt(ws, acts, j) && ws[k].row.Some? && ws[k].row.value.updatedAt == StampAt(ws, acts, j)
    decreases k
  {
    if k == 0 {
      j := -1;
    } else if CommitsAt(ws, acts, k - 1) {
      j := k - 1;
      AdvancesExactlyWhenTimely(ws, acts, k - 1);
    } else {
      j := LatestCommit(ws, acts, k - 1);
      assert IsStep(ws[k - 1], acts[k - 1], ws[k]);
    }
  }

  lemma {:induction false} TimelyNeverBack(ws: seq<World>, acts: seq<Action>, i: nat, k: nat)
    requires PlainRun(ws, acts) && i <= k < |ws| && ws[i].row.Some?
    requires forall j :: CommitsAt(ws, acts, j) ==> Timely(ws, acts, j)
    ensures ws[k].row.Some? && ws[i].row.value.updatedAt <= ws[k].row.value.updatedAt
    decreases k
  {
    if i < k {
      TimelyNeverBack(ws, acts, i, k - 1);
      if CommitsAt(ws, acts, k - 1) {
        AdvancesExactlyWhenTimely(ws, acts, k - 1);
      } else {
        RowKept(ws, acts, k - 1, k);
      }
    }
  }

  /** Over interleaved runs the stamps of the commits strictly increase exactly when every commit is timely. */
  lemma StampsRiseExactly(ws: seq<World>, acts: seq<Action>)
    requires PlainRun(ws, acts)
    ensures StampsRise(ws, acts) <==> forall k :: CommitsAt(ws, acts, k) ==> Timely(ws, acts, k)
  {
    if StampsRise(ws, acts) {
      forall k | CommitsAt(ws, acts, k)
        ensures Timely(ws, acts, k)
      {
        AdvancesExactlyWhenTimely(ws, acts, k);
        var j := LatestCommit(ws, acts, k);
        if j == -1 {
          var r := OneRead(ws, acts, k, acts[k].p);
          RowKept(ws, acts, r, k);
          assert ReadsFor(ws[r], acts[r], acts[k].p);
        }
      }
    }
    if forall k :: CommitsAt(ws, acts, k) ==> Timely(ws, acts, k) {
      forall j, k | j < k && CommitsAt(ws, acts, j) && CommitsAt(ws, acts, k)
        ensures StampAt(ws, acts, j) < StampAt(ws, acts, k)
      {
        AdvancesExactlyWhenTimely(ws, acts, j);
        AdvancesExactlyWhenTimely(ws, acts, k);
        TimelyNeverBack(ws, acts, j + 1, k);
      }
    }
  }

  /** In particular they do when no commit falls between the read and the write of a call. */
  lemma UndisturbedStampsRise(ws: seq<World>, acts: seq<Action>)
    requires PlainRun(ws, acts)
    requires forall p :: Undisturbed(ws, acts, 0, |acts|, p)
    ensures StampsRise(ws, acts)
  {
    forall k | CommitsAt(ws, acts, k)
      ensures Timely(ws, acts, k)
    {
      var p := acts[k].p;
      var r := OneRead(ws, acts, k, p);
      assert IsStep(ws[0], acts[0], ws[1]) && r > 0;
      assert Undisturbed(ws, acts, 0, |acts|, p) && acts[k] == Write(p) && ReadsFor(ws[r], acts[r], p);
      RowKept(ws, acts, r, k);
      assert ReadsFor(ws[r], acts[r], p);
    }
    StampsRiseExactly(ws, acts);
  }

  /** Calls that overlap can both commit with the same stamp and be given the same queue attempt. */
  lemma OverlappingRetriesShareAttempt() returns (ws: seq<World>, acts: seq<Action>)
    ensures PlainRun(ws, acts) && !StampsRise(ws, acts) && |acts| > 2
    ensures var c := Transition(Retry, Options(false, None, None));
            acts[0] == Begin(0, c) && acts[1] == Begin(1, c)
    ensures var w := ws[|acts|];
            && w.procs.Keys == {0, 1}
            && w.procs[0].phase.Returned? && w.procs[0].phase.result.Result? && w.procs[0].phase.result.changed
            && w.procs[1].phase.Returned? && w.procs[1].phase.result.Result? && w.procs[1].phase.result.changed
            && w.procs[0].phase.result.attempt == w.procs[1].phase.result.attempt
  {
    hide IsRun;
    ws, acts := BothRetriesLoaded();
    ws, acts := Extend(ws, acts, Write(0));
    ws, acts := Extend(ws, acts, Write(1));
    assert CommitsAt(ws, acts, 4) && CommitsAt(ws, acts, 5);
    assert StampAt(ws, acts, 4) == StampAt(ws, acts, 5);
  }

  /** Two retries of a queued row that have both read it and not yet written. */
  lemma BothRetriesLoaded() returns (ws: seq<World>, acts: seq<Action>)
    ensures var c, row := Transition(Retry, Options(false, None, None)), Row(Queued, 5, None, None);
            && IsRun(ws, acts) && |ws| == 5 && ws[0].procs == map[]
            && acts == [Begin(0, c), Begin(1, c), Read(0, 3), Read(1, 4)]
            && ws[4] == World(Some(row), map[0 := Proc(c, Loaded(row, 6)), 1 := Proc(c, Loaded(row, 6))])
  {
    hide IsRun;
    var c := Transition(Retry, Options(false, None, None));
    ws, acts := Stay(World(Some(Row(Queued, 5, None, None)), map[]));
    ws, acts := Extend(ws, acts, Begin(0, c));
    ws, acts := Extend(ws, acts, Begin(1, c));
    ws, acts := Extend(ws, acts, Read(0, 3));
    ws, acts := Extend(ws, acts, Read(1, 4));
  }
}
