/** The migration lock: one lease row taken by three separate statements, under every interleaving of any number
    of processes with a shared clock that never goes back. */
module MigrationLock {
  import opened Wrappers

  datatype Lease = Lease(owner: nat, expiresAt: int)

  /** Where a process stands in its acquisition loop; `now` is the time it sampled for the current turn. */
  datatype Phase =
    | Outside
    | Sampled(now: int)
    | Swept(now: int)
    | Inserted(now: int)
    | Holding
    | GaveUp

  datatype World = World(clock: int, lock: Option<Lease>, phases: map<nat, Phase>)

  function PhaseOf(w: World, p: nat): Phase {
    if p in w.phases then w.phases[p] else Outside
  }

  /** Owners are process names. `Tick` lets time pass; a process may stop forever anywhere by taking no more
      steps. */
  datatype Action =
    | Tick(clock: int)
    | Sample(p: nat)
    | DeleteExpired(p: nat)
    | InsertOrIgnore(p: nat)
    | SelectOwner(p: nat, retry: bool)
    | Release(p: nat)

  predicate Enabled(w: World, a: Action) {
    match a
    case Tick(t) => w.clock <= t
    case Sample(p) => PhaseOf(w, p).Outside?
    case DeleteExpired(p) => PhaseOf(w, p).Sampled?
    case InsertOrIgnore(p) => PhaseOf(w, p).Swept?
    case SelectOwner(p, _) => PhaseOf(w, p).Inserted?
    case Release(p) => PhaseOf(w, p).Holding?
  }

  predicate Sees(w: World, p: nat) {
    w.lock.Some? && w.lock.value.owner == p
  }

  /** One statement. A process that is not the owner polls again, or throws once its deadline has passed. */
  function Apply(w: World, a: Action, ttl: int): World
    requires Enabled(w, a)
  {
    match a
    case Tick(t) => w.(clock := t)
    case Sample(p) => w.(phases := w.phases[p := Sampled(w.clock)])
    case DeleteExpired(p) =>
      var now := w.phases[p].now;
      w.(lock := if w.lock.Some? && w.lock.value.expiresAt < now then None else w.lock,
         phases := w.phases[p := Swept(now)])
    case InsertOrIgnore(p) =>
      var now := w.phases[p].now;
      w.(lock := if w.lock.None? then Some(Lease(p, now + ttl)) else w.lock, phases := w.phases[p := Inserted(now)])
    case SelectOwner(p, retry) =>
      w.(phases := w.phases[p := if Sees(w, p) then Holding else if retry then Outside else GaveUp])
    case Release(p) =>
      w.(lock := if Sees(w, p) then None else w.lock, phases := w.phases[p := Outside])
  }

  ghost predicate IsStep(w: World, a: Action, w': World, ttl: int) {
    Enabled(w, a) && w' == Apply(w, a, ttl)
  }

  /** No process has sampled a time that has not come yet. */
  ghost predicate PastSamples(w: World) {
    forall p :: p in w.phases ==>
      match w.phases[p]
      case Sampled(t) => t <= w.clock
      case Swept(t) => t <= w.clock
      case Inserted(t) => t <= w.clock
      case _ => true
  }

  ghost predicate IsRun(ws: seq<World>, acts: seq<Action>, ttl: int) {
    && |ws| == |acts| + 1 && PastSamples(ws[0])
    && forall k :: 0 <= k < |acts| ==> IsStep(ws[k], acts[k], ws[k + 1], ttl)
  }

  /** Action `a` gives the lock to `p`. */
  predicate Acquires(w: World, a: Action, p: nat) {
    a.SelectOwner? && a.p == p && Enabled(w, a) && Sees(w, p)
  }

  lemma {:induction false} SamplesStayPast(ws: seq<World>, acts: seq<Action>, ttl: int, k: nat)
    requires IsRun(ws, acts, ttl) && k < |ws|
    ensures PastSamples(ws[k])
    decreases k
  {
    if k > 0 {
      SamplesStayPast(ws, acts, ttl, k - 1);
      assert IsStep(ws[k - 1], acts[k - 1], ws[k], ttl);
    }
  }

  lemma {:induction false} ClockMonotone(ws: seq<World>, acts: seq<Action>, ttl: int, i: nat, j: nat)
    requires IsRun(ws, acts, ttl) && i <= j < |ws|
    ensures ws[i].clock <= ws[j].clock
    decreases j
  {
    if i < j {
      ClockMonotone(ws, acts, ttl, i, j - 1);
      assert IsStep(ws[j - 1], acts[j - 1], ws[j], ttl);
    }
  }

  /** `p` has released the lock between states `i` and `j`. */
  ghost predicate Released(acts: seq<Action>, i: nat, j: nat, p: nat)
    requires j <= |acts|
  {
    exists k :: i <= k < j && acts[k] == Release(p)
  }

  /** A lease row stays as it is until its owner releases it or its expiry has passed, even though others delete
      by times they sampled earlier. */
  lemma {:induction false} LeaseStands(ws: seq<World>, acts: seq<Action>, ttl: int, i: nat, j: nat, lease: Lease)
    requires IsRun(ws, acts, ttl) && i <= j < |ws| && ws[i].lock == Some(lease)
    ensures ws[j].lock == Some(lease) || Released(acts, i, j, lease.owner) || ws[j].clock > lease.expiresAt
    decreases j
  {
    if i < j {
      LeaseStands(ws, acts, ttl, i, j - 1, lease);
      ClockMonotone(ws, acts, ttl, j - 1, j);
      SamplesStayPast(ws, acts, ttl, j - 1);
      assert IsStep(ws[j - 1], acts[j - 1], ws[j], ttl);
      if Released(acts, i, j - 1, lease.owner) {
        var k :| i <= k < j - 1 && acts[k] == Release(lease.owner);
        assert i <= k < j;
      }
    }
  }

  /** After a process acquires the lock no other process acquires it until the holder releases it or its expiry
      passes. */
  lemma OneHolderPerLease(ws: seq<World>, acts: seq<Action>, ttl: int, i: nat, j: nat, p: nat, q: nat)
    requires IsRun(ws, acts, ttl) && i < j < |acts| && p != q
    requires Acquires(ws[i], acts[i], p) && Acquires(ws[j], acts[j], q)
    ensures Released(acts, i, j, p) || ws[j].clock > ws[i].lock.value.expiresAt
  {
    LeaseStands(ws, acts, ttl, i, j, ws[i].lock.value);
  }

  /** The row an acquirer sees is the one it inserted itself, or one that already named it: its expiry is its own
      sampled time plus the time to live if no row named it before. */
  ghost predicate OwnRow(w: World, ttl: int) {
    w.lock.Some? && PhaseOf(w, w.lock.value.owner).Inserted? ==>
      w.lock.value.expiresAt == PhaseOf(w, w.lock.value.owner).now + ttl
  }

  /** A row names only processes that wait for the answer, hold the lock, or held it. */
  ghost predicate NamesClaimants(w: World) {
    w.lock.Some? ==> PhaseOf(w, w.lock.value.owner).Inserted? || PhaseOf(w, w.lock.value.owner).Holding?
  }

  lemma {:induction false} RowsAreOwn(ws: seq<World>, acts: seq<Action>, ttl: int, k: nat)
    requires IsRun(ws, acts, ttl) && ws[0].lock == None && k < |ws|
    ensures OwnRow(ws[k], ttl) && NamesClaimants(ws[k])
    decreases k
  {
    if k > 0 {
      RowsAreOwn(ws, acts, ttl, k - 1);
      assert IsStep(ws[k - 1], acts[k - 1], ws[k], ttl);
    }
  }

  /** So, from an empty lock table, a holder is alone for its time to live counted from the time it sampled. */
  lemma AloneForTimeToLive(ws: seq<World>, acts: seq<Action>, ttl: int, i: nat, j: nat, p: nat, q: nat)
    requires IsRun(ws, acts, ttl) && ws[0].lock == None && i < j < |acts| && p != q
    requires Acquires(ws[i], acts[i], p) && Acquires(ws[j], acts[j], q)
    ensures Released(acts, i, j, p) || ws[j].clock > ws[i].phases[p].now + ttl
  {
    RowsAreOwn(ws, acts, ttl, i);
    OneHolderPerLease(ws, acts, ttl, i, j, p, q);
  }

  /** Who holds the lock has acquired it and has not released it since. */
  lemma {:induction false} HolderAcquired(ws: seq<World>, acts: seq<Action>, ttl: int, k: nat, p: nat) returns (i: nat)
    requires IsRun(ws, acts, ttl) && ws[0].phases == map[] && k < |ws| && PhaseOf(ws[k], p).Holding?
    ensures i < k && Acquires(ws[i], acts[i], p) && !Released(acts, i, k, p)
    decreases k
  {
    assert k > 0 && IsStep(ws[k - 1], acts[k - 1], ws[k], ttl);
    if PhaseOf(ws[k - 1], p).Holding? {
      i := HolderAcquired(ws, acts, ttl, k - 1, p);
      assert acts[k - 1] != Release(p);
    } else {
      i := k - 1;
    }
  }

  /** Two processes hold the lock together only once the time to live of one of them has run out. */
  lemma TwoHoldersMeanExpiry(ws: seq<World>, acts: seq<Action>, ttl: int, k: nat, p: nat, q: nat)
    returns (i: nat, first: nat)
    requires IsRun(ws, acts, ttl) && ws[0].phases == map[] && ws[0].lock == None && k < |ws| && p != q
    requires PhaseOf(ws[k], p).Holding? && PhaseOf(ws[k], q).Holding?
    ensures first in {p, q} && i < k && Acquires(ws[i], acts[i], first) && !Released(acts, i, k, first)
    ensures ws[k].clock > ws[i].phases[first].now + ttl
  {
    var a := HolderAcquired(ws, acts, ttl, k, p);
    var b := HolderAcquired(ws, acts, ttl, k, q);
    if a < b {
      i, first := a, p;
      EarlierExpired(ws, acts, ttl, a, b, k, p, q);
    } else {
      i, first := b, q;
      EarlierExpired(ws, acts, ttl, b, a, k, q, p);
    }
  }

  lemma EarlierExpired(ws: seq<World>, acts: seq<Action>, ttl: int, i: nat, j: nat, k: nat, p: nat, q: nat)
    requires IsRun(ws, acts, ttl) && ws[0].lock == None && i < j < k < |ws| && p != q
    requires Acquires(ws[i], acts[i], p) && Acquires(ws[j], acts[j], q) && !Released(acts, i, k, p)
    ensures ws[k].clock > ws[i].phases[p].now + ttl
  {
    AloneForTimeToLive(ws, acts, ttl, i, j, p, q);
    ClockMonotone(ws, acts, ttl, j, k);
  }

  // ----- Who gets the lock -----

  /** One turn of `p` without interference: it samples at `a`, runs its three statements and has its answer at `b`,
      while time may pass but no other process acts. */
  ghost predicate LoneTurn(ws: seq<World>, acts: seq<Action>, a: nat, b: nat, p: nat) {
    && a < b < |acts| < |ws| && acts[a] == Sample(p) && acts[b].SelectOwner? && acts[b].p == p
    && forall k :: a < k < b ==> acts[k] in {DeleteExpired(p), InsertOrIgnore(p)} || acts[k].Tick?
  }

  /** The lease is missing, or expired at the time `now`. */
  predicate Free(lock: Option<Lease>, now: int) {
    lock.None? || lock.value.expiresAt < now
  }

  /** What the statements of a lone turn have done up to state `k`. */
  ghost predicate TurnStory(ws: seq<World>, ttl: int, a: nat, k: nat, p: nat)
    requires a < |ws| && k < |ws|
  {
    var lock, now := ws[a].lock, ws[a].clock;
    match PhaseOf(ws[k], p)
    case Sampled(t) => t == now && ws[k].lock == lock
    case Swept(t) => t == now && ws[k].lock == if Free(lock, now) then None else lock
    case Inserted(t) => t == now && ws[k].lock == if Free(lock, now) then Some(Lease(p, now + ttl)) else lock
    case _ => false
  }

  lemma {:induction false} TurnStoryHolds(ws: seq<World>, acts: seq<Action>, ttl: int, a: nat, b: nat, k: nat, p: nat)
    requires IsRun(ws, acts, ttl) && LoneTurn(ws, acts, a, b, p) && a < k <= b
    ensures TurnStory(ws, ttl, a, k, p)
    decreases k
  {
    assert IsStep(ws[k - 1], acts[k - 1], ws[k], ttl);
    if k - 1 > a {
      TurnStoryHolds(ws, acts, ttl, a, b, k - 1, p);
    }
  }

  /** A process whose turn is not interfered with gets the lock if and only if, when it sampled the time, the row was
      missing, expired or its own. A lease it takes expires at its sample plus the time to live. */
  lemma LoneTurnAcquiresExactly(ws: seq<World>, acts: seq<Action>, ttl: int, a: nat, b: nat, p: nat)
    requires IsRun(ws, acts, ttl) && LoneTurn(ws, acts, a, b, p)
    ensures var lock, now := ws[a].lock, ws[a].clock;
            && (PhaseOf(ws[b + 1], p) == Holding
                <==> lock.None? || lock.value.expiresAt < now || lock.value.owner == p)
            && ws[b + 1].lock
               == if lock.None? || lock.value.expiresAt < now then Some(Lease(p, now + ttl)) else lock
  {
    TurnStoryHolds(ws, acts, ttl, a, b, b, p);
    assert IsStep(ws[b], acts[b], ws[b + 1], ttl);
  }

  /** A release takes away the row of its process and no other row. */
  lemma ReleaseFrees(ws: seq<World>, acts: seq<Action>, ttl: int, k: nat, p: nat)
    requires IsRun(ws, acts, ttl) && k < |acts| && acts[k] == Release(p)
    ensures ws[k + 1].lock == if ws[k].lock.Some? && ws[k].lock.value.owner == p then None else ws[k].lock
    ensures !PhaseOf(ws[k + 1], p).Holding?
  {
    assert IsStep(ws[k], acts[k], ws[k + 1], ttl);
  }

  lemma {:induction false} TicksKeepLock(ws: seq<World>, acts: seq<Action>, ttl: int, i: nat, j: nat)
    requires IsRun(ws, acts, ttl) && i <= j < |ws| && forall k :: i <= k < j ==> acts[k].Tick?
    ensures ws[j].lock == ws[i].lock
    decreases j
  {
    if i < j {
      TicksKeepLock(ws, acts, ttl, i, j - 1);
      assert IsStep(ws[j - 1], acts[j - 1], ws[j], ttl);
    }
  }

  /** After the holder's release the next process with an undisturbed turn holds the lock, however long the released
      lease would have run. */
  lemma NextAfterRelease(ws: seq<World>, acts: seq<Action>, ttl: int, r: nat, a: nat, b: nat, p: nat, q: nat)
    requires IsRun(ws, acts, ttl) && r < a && LoneTurn(ws, acts, a, b, q) && acts[r] == Release(p)
    requires ws[r].lock.Some? && ws[r].lock.value.owner == p && forall k :: r < k < a ==> acts[k].Tick?
    ensures PhaseOf(ws[b + 1], q) == Holding && ws[b + 1].lock == Some(Lease(q, ws[a].clock + ttl))
  {
    ReleaseFrees(ws, acts, ttl, r, p);
    TicksKeepLock(ws, acts, ttl, r + 1, a);
    LoneTurnAcquiresExactly(ws, acts, ttl, a, b, q);
  }

  /** A holder that stopped for good blocks nobody for longer than its lease. */
  lemma NextAfterExpiry(ws: seq<World>, acts: seq<Action>, ttl: int, a: nat, b: nat, q: nat)
    requires IsRun(ws, acts, ttl) && LoneTurn(ws, acts, a, b, q)
    requires ws[a].lock.Some? ==> ws[a].clock > ws[a].lock.value.expiresAt
    ensures PhaseOf(ws[b + 1], q) == Holding && ws[b + 1].lock == Some(Lease(q, ws[a].clock + ttl))
  {
    LoneTurnAcquiresExactly(ws, acts, ttl, a, b, q);
  }
}
