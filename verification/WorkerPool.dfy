/** The batch processor's pool: workers that share one index and fill one result list, interleaved at every
    `await`. */
module WorkerPool {
  import opened Wrappers

  datatype Outcome<R> = Success(result: R) | Failure(error: string)

  /** `Busy(i)` awaits the processor on item `i`. */
  datatype Worker = Fresh | Busy(index: nat) | Finished

  /** `started` lists the items whose processing has begun, in order. */
  datatype Pool<R> = Pool(n: nat, next: nat, workers: seq<Worker>, results: seq<Option<Outcome<R>>>, started: seq<nat>)

  function WorkerCount(n: nat, concurrency: int): nat {
    if concurrency <= 0 then 0 else if concurrency <= n then concurrency else n
  }

  function Initial<R>(n: nat, concurrency: int): Pool<R> {
    Pool(n, 0, seq(WorkerCount(n, concurrency), _ => Fresh), seq(n, _ => None), [])
  }

  /** What runs without interruption: storing an outcome, the loop test, taking the next index and calling the
      processor on it. */
  datatype Event<R> = Start(w: nat) | Complete(w: nat, outcome: Outcome<R>)

  predicate Enabled<R>(p: Pool<R>, e: Event<R>) {
    e.w < |p.workers| && if e.Start? then p.workers[e.w].Fresh? else p.workers[e.w].Busy?
  }

  function TakeNext<R>(p: Pool<R>, w: nat): Pool<R>
    requires w < |p.workers|
  {
    if p.next < p.n then
      p.(next := p.next + 1, workers := p.workers[w := Busy(p.next)], started := p.started + [p.next])
    else p.(workers := p.workers[w := Finished])
  }

  function Store<R>(p: Pool<R>, e: Event<R>): Pool<R>
    requires Enabled(p, e)
  {
    match e
    case Start(_) => p
    case Complete(w, o) =>
      var i := p.workers[w].index;
      if i < |p.results| then p.(results := p.results[i := Some(o)]) else p
  }

  function Apply<R>(p: Pool<R>, e: Event<R>): Pool<R>
    requires Enabled(p, e)
  {
    TakeNext(Store(p, e), e.w)
  }

  ghost predicate IsStep<R(!new)>(p: Pool<R>, e: Event<R>, p': Pool<R>) {
    Enabled(p, e) && p' == Apply(p, e)
  }

  ghost predicate IsRun<R(!new)>(ps: seq<Pool<R>>, es: seq<Event<R>>, n: nat, concurrency: int) {
    && |ps| == |es| + 1 && ps[0] == Initial(n, concurrency)
    && forall k :: 0 <= k < |es| ==> IsStep(ps[k], es[k], ps[k + 1])
  }

  // ----- The invariant -----

  ghost predicate InFlight<R(!new)>(p: Pool<R>, i: nat) {
    exists w :: 0 <= w < |p.workers| && p.workers[w] == Busy(i)
  }

  /** Every index below `next` is either with exactly one worker or has its result; none from `next` on has been
      touched. */
  ghost predicate Consistent<R(!new)>(p: Pool<R>) {
    && p.next <= p.n == |p.results|
    && p.started == seq(p.next, i => i)
    && (forall i :: 0 <= i < p.n ==> (p.results[i].Some? <==> i < p.next && !InFlight(p, i)))
    && (forall w :: 0 <= w < |p.workers| && p.workers[w].Busy? ==> p.workers[w].index < p.next)
    && (forall w, w' :: 0 <= w < w' < |p.workers| && p.workers[w].Busy? ==> p.workers[w] != p.workers[w'])
    && (forall w :: 0 <= w < |p.workers| && p.workers[w].Finished? ==> p.next == p.n)
  }

  lemma StepKeepsConsistent<R(!new)>(p: Pool<R>, e: Event<R>)
    requires Consistent(p) && Enabled(p, e)
    ensures Consistent(Apply(p, e)) && Apply(p, e).n == p.n && |Apply(p, e).workers| == |p.workers|
  {
    var q := Apply(p, e);
    forall i | 0 <= i < p.n
      ensures q.results[i].Some? <==> i < q.next && !InFlight(q, i)
    {
      if InFlight(p, i) && p.workers[e.w] != Busy(i) {
        var v :| 0 <= v < |p.workers| && p.workers[v] == Busy(i);
        assert q.workers[v] == Busy(i);
      }
      if InFlight(q, i) && q.workers[e.w] != Busy(i) {
        var v :| 0 <= v < |q.workers| && q.workers[v] == Busy(i);
        assert p.workers[v] == Busy(i);
      }
      if q.workers[e.w] == Busy(i) {
        assert InFlight(q, i);
      }
    }
  }

  lemma {:induction false} ConsistentAlong<R(!new)>(ps: seq<Pool<R>>, es: seq<Event<R>>, n: nat, concurrency: int,
                                                    k: nat)
    requires IsRun(ps, es, n, concurrency) && k < |ps|
    ensures Consistent(ps[k]) && ps[k].n == n && |ps[k].workers| == WorkerCount(n, concurrency)
    decreases k
  {
    if k > 0 {
      ConsistentAlong(ps, es, n, concurrency, k - 1);
      assert IsStep(ps[k - 1], es[k - 1], ps[k]);
      StepKeepsConsistent(ps[k - 1], es[k - 1]);
    }
  }

  /** In every interleaving, at every moment, the items begun are the first ones, each once; the ones in flight are
      with different workers, of which there are at most as many as the concurrency and as the items. */
  lemma EachItemStartsOnce<R(!new)>(ps: seq<Pool<R>>, es: seq<Event<R>>, n: nat, concurrency: int, k: nat)
    requires IsRun(ps, es, n, concurrency) && k < |ps|
    ensures ps[k].next <= n && ps[k].started == seq(ps[k].next, i => i)
    ensures |ps[k].workers| == if concurrency <= 0 then 0 else if concurrency < n then concurrency else n
    ensures ps[k].next < n ==> forall w :: 0 <= w < |ps[k].workers| ==> !ps[k].workers[w].Finished?
    ensures forall w, w' :: 0 <= w < w' < |ps[k].workers| && ps[k].workers[w].Busy? ==>
              ps[k].workers[w] != ps[k].workers[w']
  {
    ConsistentAlong(ps, es, n, concurrency, k);
  }

  // ----- The end of a run -----

  predicate AllFinished<R>(p: Pool<R>) {
    forall w :: 0 <= w < |p.workers| ==> p.workers[w].Finished?
  }

  /** Event `k` brings the outcome `o` of item `i`. */
  ghost predicate Delivers<R(!new)>(ps: seq<Pool<R>>, es: seq<Event<R>>, k: nat, i: nat, o: Outcome<R>)
    requires |ps| == |es| + 1 && k < |es|
  {
    Enabled(ps[k], es[k]) && es[k].Complete? && es[k].outcome == o && ps[k].workers[es[k].w] == Busy(i)
  }

  /** What is known of item `i` after `k` events: its slot holds what some event brought for it, and no item gets a
      second one. */
  ghost predicate ItemStory<R(!new)>(ps: seq<Pool<R>>, es: seq<Event<R>>, k: nat, i: nat)
    requires |ps| == |es| + 1 && k < |ps|
  {
    && i < |ps[k].results|
    && (ps[k].results[i].Some? ==> exists j :: 0 <= j < k && Delivers(ps, es, j, i, ps[k].results[i].value))
    && (forall j, o :: 0 <= j < k && Delivers(ps, es, j, i, o) ==> ps[k].results[i] == Some(o))
    && (forall j, j', o, o' :: 0 <= j < j' < k && Delivers(ps, es, j, i, o) ==> !Delivers(ps, es, j', i, o'))
  }

  lemma ItemStep<R(!new)>(ps: seq<Pool<R>>, es: seq<Event<R>>, k: nat, i: nat)
    requires |ps| == |es| + 1 && k < |es| && IsStep(ps[k], es[k], ps[k + 1])
    requires Consistent(ps[k]) && ItemStory(ps, es, k, i)
    ensures ItemStory(ps, es, k + 1, i)
  {
    var p, e := ps[k], es[k];
    if e.Complete? && p.workers[e.w] == Busy(i) {
      assert InFlight(p, i);
      assert Delivers(ps, es, k, i, e.outcome);
    } else {
      assert ps[k + 1].results[i] == p.results[i];
    }
  }

  lemma {:induction false} ResultsDelivered<R(!new)>(ps: seq<Pool<R>>, es: seq<Event<R>>, n: nat, concurrency: int,
                                                     k: nat, i: nat)
    requires IsRun(ps, es, n, concurrency) && k < |ps| && i < n
    ensures ItemStory(ps, es, k, i)
    decreases k
  {
    if k > 0 {
      ResultsDelivered(ps, es, n, concurrency, k - 1, i);
      ConsistentAlong(ps, es, n, concurrency, k - 1);
      assert IsStep(ps[k - 1], es[k - 1], ps[k]);
      ItemStep(ps, es, k - 1, i);
    }
  }

  /** When all workers are done every slot holds an outcome of its own item, exactly when there were workers at all
      or nothing to do; without workers every slot stays empty. */
  lemma FinalResults<R(!new)>(ps: seq<Pool<R>>, es: seq<Event<R>>, n: nat, concurrency: int)
    requires IsRun(ps, es, n, concurrency) && AllFinished(ps[|es|])
    ensures |ps[|es|].results| == n
    ensures (forall i :: 0 <= i < n ==> ps[|es|].results[i].Some?) <==> (n == 0 || concurrency > 0)
    ensures concurrency <= 0 ==> forall i :: 0 <= i < n ==> ps[|es|].results[i].None?
  {
    var p := ps[|es|];
    ConsistentAlong(ps, es, n, concurrency, |es|);
    forall i | 0 <= i < n
      ensures !InFlight(p, i)
    {
    }
    if concurrency <= 0 {
      NoWorkersNoStep(ps, es, n, concurrency);
      assert n > 0 ==> ps[0].results[0].None?;
    } else if n > 0 {
      assert p.workers[0].Finished?;
    }
  }

  lemma NoWorkersNoStep<R(!new)>(ps: seq<Pool<R>>, es: seq<Event<R>>, n: nat, concurrency: int)
    requires IsRun(ps, es, n, concurrency) && WorkerCount(n, concurrency) == 0
    ensures es == []
  {
    assert forall e: Event<R> :: !Enabled(ps[0], e);
    assert |es| > 0 ==> IsStep(ps[0], es[0], ps[1]);
  }

  /** Work left: items not yet begun and workers not yet done. Every step takes exactly one unit of it. */
  function WorkLeft<R>(p: Pool<R>): int {
    p.n - p.next + Unfinished(p.workers)
  }

  function Unfinished(ws: seq<Worker>): nat {
    if ws == [] then 0 else (if ws[0].Finished? then 0 else 1) + Unfinished(ws[1..])
  }

  lemma {:induction false} UnfinishedUpdate(ws: seq<Worker>, w: nat, x: Worker)
    requires w < |ws| && !ws[w].Finished?
    ensures Unfinished(ws[w := x]) == Unfinished(ws) - (if x.Finished? then 1 else 0)
  {
    if w == 0 {
      assert ws[w := x][1..] == ws[1..];
    } else {
      assert ws[w := x][1..] == ws[1..][w - 1 := x];
      UnfinishedUpdate(ws[1..], w - 1, x);
    }
  }

  lemma {:induction false} UnfinishedBounds(ws: seq<Worker>)
    ensures (forall w :: 0 <= w < |ws| ==> ws[w].Finished?) <==> Unfinished(ws) == 0
    ensures (forall w :: 0 <= w < |ws| ==> !ws[w].Finished?) ==> Unfinished(ws) == |ws|
  {
    if ws != [] {
      UnfinishedBounds(ws[1..]);
      assert ws == [ws[0]] + ws[1..];
    }
  }

  lemma {:induction false} WorkLeftAlong<R(!new)>(ps: seq<Pool<R>>, es: seq<Event<R>>, n: nat, concurrency: int, k: nat)
    requires IsRun(ps, es, n, concurrency) && k < |ps|
    ensures WorkLeft(ps[k]) == n + WorkerCount(n, concurrency) - k
    decreases k
  {
    if k == 0 {
      UnfinishedBounds(ps[0].workers);
    } else {
      WorkLeftAlong(ps, es, n, concurrency, k - 1);
      assert IsStep(ps[k - 1], es[k - 1], ps[k]);
      UnfinishedUpdate(ps[k - 1].workers, es[k - 1].w, ps[k].workers[es[k - 1].w]);
    }
  }

  /** No run is longer than items plus workers, and the runs of that length are the ones that are over (without
      workers the pool is over at once): whatever the interleaving, the pool comes to its end. */
  lemma RunsEnd<R(!new)>(ps: seq<Pool<R>>, es: seq<Event<R>>, n: nat, concurrency: int)
    requires IsRun(ps, es, n, concurrency)
    ensures |es| <= n + WorkerCount(n, concurrency)
    ensures AllFinished(ps[|es|]) <==>
              |es| == if WorkerCount(n, concurrency) == 0 then 0 else n + WorkerCount(n, concurrency)
  {
    WorkLeftAlong(ps, es, n, concurrency, |es|);
    ConsistentAlong(ps, es, n, concurrency, |es|);
    var p := ps[|es|];
    UnfinishedBounds(p.workers);
    if WorkerCount(n, concurrency) == 0 {
      NoWorkersNoStep(ps, es, n, concurrency);
    } else if AllFinished(p) {
      assert p.workers[0].Finished?;
    }
  }

  /** As long as a worker is not done some step can be taken. */
  lemma NeverStuck<R(!new)>(p: Pool<R>)
    requires !AllFinished(p)
    ensures exists e: Event<R> :: Enabled(p, e)
  {
    var w :| 0 <= w < |p.workers| && !p.workers[w].Finished?;
    if p.workers[w].Fresh? {
      assert Enabled(p, Start(w));
    } else {
      assert Enabled(p, Complete(w, Failure("")));
    }
  }

  // ----- The program, under an arbitrary scheduler -----

  class Workers<R> {
    const n: nat
    var currentIndex: nat
    var workers: seq<Worker>
    var results: seq<Option<Outcome<R>>>
    ghost var started: seq<nat>

    ghost function State(): Pool<R>
      reads this
    {
      Pool(n, currentIndex, workers, results, started)
    }

    constructor (n: nat, concurrency: int)
      ensures this.n == n && State() == Initial(n, concurrency)
    {
      this.n := n;
      currentIndex := 0;
      workers := seq(WorkerCount(n, concurrency), _ => Fresh);
      results := seq(n, _ => None);
      started := [];
    }

    /** The loop test and the claim of the next index, up to the next `await`. */
    method Take(w: nat)
      requires w < |workers|
      modifies this
      ensures State() == TakeNext(old(State()), w)
    {
      if currentIndex < n {
        var index := currentIndex;
        currentIndex := currentIndex + 1;
        started := started + [index];
        workers := workers[w := Busy(index)];
      } else {
        workers := workers[w := Finished];
      }
    }

    /** Worker `w` runs until it awaits again; `outcome` is what its processor has come to. */
    method Resume(w: nat, outcome: Outcome<R>)
      requires w < |workers| && !workers[w].Finished?
      modifies this
      ensures State() == Apply(old(State()), if old(workers[w]).Fresh? then Start(w) else Complete(w, outcome))
    {
      if workers[w].Busy? && workers[w].index < |results| {
        results := results[workers[w].index := Some(outcome)];
      }
      Take(w);
    }
  }

  /** Every stored result is the processor's outcome for that item. */
  ghost predicate Computed<R(!new)>(p: Pool<R>, processor: nat -> Outcome<R>) {
    Consistent(p) && forall i: nat :: i < p.n && p.results[i].Some? ==> p.results[i].value == processor(i)
  }

  /** The event that resumes worker `w`. */
  function Resumption<R>(p: Pool<R>, w: nat, processor: nat -> Outcome<R>): Event<R>
    requires w < |p.workers|
  {
    if p.workers[w].Busy? then Complete(w, processor(p.workers[w].index)) else Start(w)
  }

  lemma ResumptionStep<R(!new)>(p: Pool<R>, w: nat, processor: nat -> Outcome<R>)
    requires Computed(p, processor) && w < |p.workers| && !p.workers[w].Finished?
    ensures var e := Resumption(p, w, processor);
            && Enabled(p, e) && Computed(Apply(p, e), processor) && WorkLeft(Apply(p, e)) < WorkLeft(p)
            && |Apply(p, e).workers| == |p.workers| && Apply(p, e).n == p.n == |Apply(p, e).results|
            && 0 <= WorkLeft(Apply(p, e))
  {
    var e := Resumption(p, w, processor);
    StepKeepsConsistent(p, e);
    UnfinishedUpdate(p.workers, w, Apply(p, e).workers[w]);
  }

  lemma InitialComputed<R(!new)>(n: nat, concurrency: int, processor: nat -> Outcome<R>)
    ensures Computed(Initial(n, concurrency), processor) && 0 <= WorkLeft(Initial<R>(n, concurrency))
  {
  }

  lemma ComputedAtEnd<R(!new)>(p: Pool<R>, processor: nat -> Outcome<R>)
    requires Computed(p, processor) && AllFinished(p) && p.workers != []
    ensures forall i: nat :: i < p.n ==> p.results[i] == Some(processor(i))
  {
    assert p.workers[0].Finished?;
    forall i: nat | i < p.n
      ensures p.results[i].Some?
    {
      assert !InFlight(p, i);
    }
  }

  /** Whichever worker the scheduler resumes each time, the results come out in item order. */
  method ProcessItems<R(!new)>(n: nat, concurrency: int, processor: nat -> Outcome<R>)
    returns (results: seq<Option<Outcome<R>>>)
    ensures |results| == n
    ensures forall i: nat :: i < n ==> results[i] == if concurrency > 0 then Some(processor(i)) else None
  {
    hide Computed, Apply, WorkLeft;
    InitialComputed(n, concurrency, processor);
    var pool := new Workers(n, concurrency);
    while exists w :: 0 <= w < |pool.workers| && !pool.workers[w].Finished?
      invariant pool.n == n && Computed(pool.State(), processor) && |pool.workers| == WorkerCount(n, concurrency)
      invariant |pool.results| == n && 0 <= WorkLeft(pool.State())
      invariant concurrency <= 0 ==> forall i :: 0 <= i < n ==> pool.results[i].None?
      decreases WorkLeft(pool.State())
    {
      var w :| 0 <= w < |pool.workers| && !pool.workers[w].Finished?;
      ResumptionStep(pool.State(), w, processor);
      var outcome := processor(if pool.workers[w].Busy? then pool.workers[w].index else 0);
      pool.Resume(w, outcome);
    }
    results := pool.results;
    if pool.workers != [] {
      ComputedAtEnd(pool.State(), processor);
    }
  }

  // ----- Counts and progress of a batch -----

  function Count<R>(results: seq<Option<Outcome<R>>>, success: bool): nat {
    if results == [] then 0
    else (if results[0].Some? && results[0].value.Success? == success then 1 else 0) + Count(results[1..], success)
  }

  datatype Progress = Progress(processed: nat, failed: nat, remaining: int, fraction: real, isComplete: bool)

  /** What `getBatchStatus` computes from the counts that `processBatch` stores. */
  function BatchStatus<R>(results: seq<Option<Outcome<R>>>): Progress {
    var processed, failed, total := Count(results, true), Count(results, false), |results|;
    var fraction := if total > 0 then (processed + failed) as real / total as real else 0.0;
    Progress(processed, failed, total - processed - failed, fraction, fraction >= 1.0)
  }

  lemma {:induction false} CountsAddUp<R>(results: seq<Option<Outcome<R>>>)
    requires forall i :: 0 <= i < |results| ==> results[i].Some?
    ensures Count(results, true) + Count(results, false) == |results|
  {
    if results != [] {
      CountsAddUp(results[1..]);
    }
  }

  /** A processed batch has nothing left, and it reports itself complete exactly when it was not empty. */
  lemma ProcessedBatchStatus<R>(results: seq<Option<Outcome<R>>>)
    requires forall i :: 0 <= i < |results| ==> results[i].Some?
    ensures var b := BatchStatus(results);
            && b.processed + b.failed == |results| && b.remaining == 0
            && (b.isComplete <==> results != [])
            && (results != [] ==> b.fraction == 1.0)
  {
    CountsAddUp(results);
  }

  // ----- What the counts count -----

  /** The slots that hold an outcome of this kind. */
  function Slots<R>(results: seq<Option<Outcome<R>>>, success: bool): set<nat> {
    set i: nat | i < |results| && results[i].Some? && (results[i].value.Success? <==> success)
  }

  lemma SlotsFromSecond<R>(results: seq<Option<Outcome<R>>>, success: bool, moved: set<nat>)
    requires results != [] && moved == set i | i in Slots(results[1..], success) :: i + 1
    ensures var first: set<nat> := if 0 in Slots(results, success) then {0} else {};
            Slots(results, success) == first + moved && 0 !in moved
  {
    forall i: nat | i > 0
      ensures i in Slots(results, success) <==> i in moved
    {
      assert i in Slots(results, success) <==> i - 1 in Slots(results[1..], success);
    }
  }

  lemma {:induction false} CountIsCardinality<R>(results: seq<Option<Outcome<R>>>, success: bool)
    ensures Count(results, success) == |Slots(results, success)|
  {
    if results != [] {
      var moved := set i | i in Slots(results[1..], success) :: i + 1;
      CountIsCardinality(results[1..], success);
      Shifted(Slots(results[1..], success), moved);
      SlotsFromSecond(results, success, moved);
      assert 0 in Slots(results, success) <==> results[0].Some? && (results[0].value.Success? <==> success);
      hide Slots;
    }
  }

  lemma {:induction false} Shifted(s: set<nat>, moved: set<nat>)
    requires moved == set i | i in s :: i + 1
    ensures |moved| == |s|
    decreases |s|
  {
    if s == {} {
      assert moved == {};
    } else {
      var x :| x in s;
      var fewer := set i | i in s - {x} :: i + 1;
      Shifted(s - {x}, fewer);
      forall y
        ensures y in moved <==> y in fewer || y == x + 1
      {
        if y in moved {
          var i :| i in s && i + 1 == y;
          assert i == x || i in s - {x};
        }
      }
      assert moved == fewer + {x + 1};
    }
  }

  /** The stored counts: `processed` is the number of slots with a result, `failed` that of slots with an error. */
  lemma BatchCountsExactly<R>(results: seq<Option<Outcome<R>>>)
    ensures BatchStatus(results).processed
            == |set i: nat | i < |results| && results[i].Some? && results[i].value.Success?|
    ensures BatchStatus(results).failed
            == |set i: nat | i < |results| && results[i].Some? && results[i].value.Failure?|
  {
    CountIsCardinality(results, true);
    CountIsCardinality(results, false);
    assert Slots(results, true) == set i: nat | i < |results| && results[i].Some? && results[i].value.Success?;
    assert Slots(results, false) == set i: nat | i < |results| && results[i].Some? && results[i].value.Failure?;
  }

  /** The run brought an outcome of item `i` of this kind. */
  ghost predicate Brought<R(!new)>(ps: seq<Pool<R>>, es: seq<Event<R>>, i: nat, success: bool)
    requires |ps| == |es| + 1
  {
    exists k, o :: 0 <= k < |es| && Delivers(ps, es, k, i, o) && (o.Success? <==> success)
  }

  lemma SlotsWereBrought<R(!new)>(ps: seq<Pool<R>>, es: seq<Event<R>>, n: nat, concurrency: int, success: bool)
    requires IsRun(ps, es, n, concurrency)
    ensures |ps[|es|].results| == n
    ensures Slots(ps[|es|].results, success) == set i: nat | i < n && Brought(ps, es, i, success)
  {
    ConsistentAlong(ps, es, n, concurrency, |es|);
    forall i: nat | i < n
      ensures i in Slots(ps[|es|].results, success) <==> Brought(ps, es, i, success)
    {
      ResultsDelivered(ps, es, n, concurrency, |es|, i);
    }
  }

  /** When the workers of a batch are done, `processed` is the number of items whose processing succeeded in the run
      and `failed` of those where it failed, together all items; and the batch is complete exactly when it has some. */
  lemma FinishedBatchStatus<R(!new)>(ps: seq<Pool<R>>, es: seq<Event<R>>, n: nat, concurrency: int)
    requires IsRun(ps, es, n, concurrency) && AllFinished(ps[|es|]) && concurrency > 0
    ensures var b := BatchStatus(ps[|es|].results);
            && b.processed == |set i: nat | i < n && Brought(ps, es, i, true)|
            && b.failed == |set i: nat | i < n && Brought(ps, es, i, false)|
            && b.processed + b.failed == n && b.remaining == 0 && (b.isComplete <==> n > 0)
  {
    FinalResults(ps, es, n, concurrency);
    ProcessedBatchStatus(ps[|es|].results);
    CountIsCardinality(ps[|es|].results, true);
    CountIsCardinality(ps[|es|].results, false);
    SlotsWereBrought(ps, es, n, concurrency, true);
    SlotsWereBrought(ps, es, n, concurrency, false);
    BatchCountsExactly(ps[|es|].results);
    hide Brought, Slots, Count;
  }
}
