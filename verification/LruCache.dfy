/** The bounded, expiring cache that recognises messages already handled. */
module LruCache {
  import opened FiniteSets
  import opened Wrappers

  datatype Entry<V> = Entry(key: string, value: V, timestamp: int)

  const CLEANUP_INTERVAL := 100

  // ----- An insertion-ordered map, oldest entry first -----

  function Filter<V>(c: seq<Entry<V>>, keep: Entry<V> -> bool): seq<Entry<V>> {
    if c == [] then [] else if keep(c[0]) then [c[0]] + Filter(c[1..], keep) else Filter(c[1..], keep)
  }

  function Without<V>(c: seq<Entry<V>>, k: string): seq<Entry<V>> {
    Filter(c, (e: Entry<V>) => e.key != k)
  }

  function Lookup<V>(c: seq<Entry<V>>, k: string): Option<Entry<V>> {
    if c == [] then None else if c[0].key == k then Some(c[0]) else Lookup(c[1..], k)
  }

  predicate Expired<V>(e: Entry<V>, now: int, ttl: int) {
    now - e.timestamp > ttl
  }

  /** The entries that have not expired. */
  function Purged<V>(c: seq<Entry<V>>, now: int, ttl: int): seq<Entry<V>> {
    Filter(c, (e: Entry<V>) => !Expired(e, now, ttl))
  }

  /** Make room if the cache is full, and append. */
  function Stored<V>(c: seq<Entry<V>>, e: Entry<V>, maxSize: nat): seq<Entry<V>> {
    var d := Without(c, e.key);
    (if |d| >= maxSize && d != [] then d[1..] else d) + [e]
  }

  predicate Hit<V>(c: seq<Entry<V>>, k: string, now: int, ttl: int) {
    Lookup(c, k).Some? && !Expired(Lookup(c, k).value, now, ttl)
  }

  function Read<V>(c: seq<Entry<V>>, k: string, now: int, ttl: int): seq<Entry<V>> {
    if Hit(c, k, now, ttl) then Without(c, k) + [Lookup(c, k).value] else Without(c, k)
  }

  /** Every entry is related to every later one. */
  ghost predicate Ordered<V(!new)>(c: seq<Entry<V>>, before: (Entry<V>, Entry<V>) -> bool) {
    c == [] || ((forall e :: e in c[1..] ==> before(c[0], e)) && Ordered(c[1..], before))
  }

  function KeysDiffer<V>(a: Entry<V>, b: Entry<V>): bool {
    a.key != b.key
  }

  ghost predicate UniqueKeys<V(!new)>(c: seq<Entry<V>>) {
    Ordered(c, KeysDiffer)
  }

  lemma InCons<V(!new)>(c: seq<Entry<V>>)
    requires c != []
    ensures forall e :: e in c <==> e == c[0] || e in c[1..]
  {
    assert c == [c[0]] + c[1..];
  }

  lemma {:induction false} FilterMembers<V(!new)>(c: seq<Entry<V>>, keep: Entry<V> -> bool)
    ensures forall e :: e in Filter(c, keep) <==> e in c && keep(e)
    ensures |Filter(c, keep)| <= |c|
    ensures (forall e :: e in c ==> keep(e)) ==> Filter(c, keep) == c
  {
    if c != [] {
      InCons(c);
      FilterMembers(c[1..], keep);
    }
  }

  lemma {:induction false} FilterOrdered<V(!new)>(c: seq<Entry<V>>, keep: Entry<V> -> bool,
                                                  before: (Entry<V>, Entry<V>) -> bool)
    requires Ordered(c, before)
    ensures Ordered(Filter(c, keep), before)
  {
    if c != [] {
      FilterOrdered(c[1..], keep, before);
      FilterMembers(c[1..], keep);
      assert keep(c[0]) ==> Filter(c, keep)[1..] == Filter(c[1..], keep);
    }
  }

  lemma {:induction false} AppendOrdered<V(!new)>(c: seq<Entry<V>>, x: Entry<V>, before: (Entry<V>, Entry<V>) -> bool)
    requires Ordered(c, before) && forall e :: e in c ==> before(e, x)
    ensures Ordered(c + [x], before)
  {
    if c != [] {
      InCons(c);
      AppendOrdered(c[1..], x, before);
      assert (c + [x])[1..] == c[1..] + [x];
    }
  }

  /** What a later filter would drop may be dropped first. */
  lemma {:induction false} FilterFilter<V(!new)>(c: seq<Entry<V>>, keep: Entry<V> -> bool, keep': Entry<V> -> bool)
    requires forall e :: e in c && keep'(e) ==> keep(e)
    ensures Filter(Filter(c, keep), keep') == Filter(c, keep')
  {
    if c != [] {
      InCons(c);
      FilterFilter(c[1..], keep, keep');
      assert keep(c[0]) ==> Filter(c, keep)[1..] == Filter(c[1..], keep);
    }
  }

  lemma {:induction false} LookupFinds<V(!new)>(c: seq<Entry<V>>, k: string)
    ensures Lookup(c, k).Some? ==> Lookup(c, k).value in c && Lookup(c, k).value.key == k
    ensures Lookup(c, k).None? <==> forall e :: e in c ==> e.key != k
    ensures UniqueKeys(c) ==> forall e :: e in c && e.key == k ==> Lookup(c, k) == Some(e)
  {
    if c != [] {
      InCons(c);
      LookupFinds(c[1..], k);
    }
  }

  lemma WithoutFacts<V(!new)>(c: seq<Entry<V>>, k: string)
    ensures forall e :: e in Without(c, k) <==> e in c && e.key != k
    ensures |Without(c, k)| <= |c|
    ensures Lookup(c, k).None? ==> Without(c, k) == c
    ensures UniqueKeys(c) ==> UniqueKeys(Without(c, k))
  {
    FilterMembers(c, (e: Entry<V>) => e.key != k);
    LookupFinds(c, k);
    if UniqueKeys(c) {
      FilterOrdered(c, (e: Entry<V>) => e.key != k, KeysDiffer);
    }
  }

  lemma PurgedFacts<V(!new)>(c: seq<Entry<V>>, now: int, ttl: int)
    ensures forall e :: e in Purged(c, now, ttl) <==> e in c && !Expired(e, now, ttl)
    ensures |Purged(c, now, ttl)| <= |c|
    ensures (forall e :: e in c ==> !Expired(e, now, ttl)) ==> Purged(c, now, ttl) == c
    ensures UniqueKeys(c) ==> UniqueKeys(Purged(c, now, ttl))
  {
    FilterMembers(c, (e: Entry<V>) => !Expired(e, now, ttl));
    if UniqueKeys(c) {
      FilterOrdered(c, (e: Entry<V>) => !Expired(e, now, ttl), KeysDiffer);
    }
  }

  /** Deleting an expired key first changes nothing for a later purge. */
  lemma PurgedWithout<V(!new)>(c: seq<Entry<V>>, k: string, now: int, ttl: int)
    requires forall e :: e in c && e.key == k ==> Expired(e, now, ttl)
    ensures Purged(Without(c, k), now, ttl) == Purged(c, now, ttl)
  {
    FilterFilter(c, (e: Entry<V>) => e.key != k, (e: Entry<V>) => !Expired(e, now, ttl));
  }

  lemma AppendUnique<V(!new)>(c: seq<Entry<V>>, e: Entry<V>)
    requires UniqueKeys(c) && forall x :: x in c ==> x.key != e.key
    ensures UniqueKeys(c + [e])
  {
    AppendOrdered(c, e, KeysDiffer);
  }

  // ----- The class -----

  datatype State<V> = State(entries: seq<Entry<V>>, counter: nat)

  /** What one call of the cache does; `later` is the clock the periodic cleanup inside `set` reads. */
  datatype Op<V> =
    | SetOp(key: string, value: V, now: int, later: int)
    | GetOp(key: string, now: int)
    | CleanupOp(now: int)

  datatype Limits = Limits(maxSize: nat, ttl: int)

  function Apply<V>(s: State<V>, op: Op<V>, l: Limits): State<V> {
    match op
    case SetOp(k, v, now, later) =>
      var c := Stored(s.entries, Entry(k, v, now), l.maxSize);
      if s.counter + 1 >= CLEANUP_INTERVAL then State(Purged(c, later, l.ttl), 0) else State(c, s.counter + 1)
    case GetOp(k, now) => s.(entries := Read(s.entries, k, now, l.ttl))
    case CleanupOp(now) => s.(entries := Purged(s.entries, now, l.ttl))
  }

  class LRUCache<V(!new)> {
    const maxSize: nat
    const ttlMs: int
    var entries: seq<Entry<V>>
    var cleanupCounter: nat

    function Contents(): State<V>
      reads this
    {
      State(entries, cleanupCounter)
    }

    function Bounds(): Limits {
      Limits(maxSize, ttlMs)
    }

    constructor (maxSize: nat, ttlMs: int)
      ensures Contents() == State([], 0) == After([], Bounds()) && Bounds() == Limits(maxSize, ttlMs)
    {
      this.maxSize, this.ttlMs := maxSize, ttlMs;
      entries, cleanupCounter := [], 0;
    }

    method Delete(key: string)
      modifies this`entries
      ensures entries == Without(old(entries), key)
    {
      entries := Without(entries, key);
    }

    method Set(key: string, value: V, now: int, later: int)
      requires UniqueKeys(entries)
      modifies this
      ensures UniqueKeys(entries)
      ensures Contents() == Apply(old(Contents()), SetOp(key, value, now, later), Bounds())
      ensures cleanupCounter == if old(cleanupCounter) < 99 then old(cleanupCounter) + 1 else 0
      ensures cleanupCounter == 0 ==> forall e :: e in entries ==> later - e.timestamp <= ttlMs
    {
      WithoutFacts(entries, key);
      if Lookup(entries, key).Some? { Delete(key); }
      if |entries| >= maxSize && entries != [] {
        entries := entries[1..];
      }
      AppendUnique(entries, Entry(key, value, now));
      entries := entries + [Entry(key, value, now)];
      cleanupCounter := cleanupCounter + 1;
      if cleanupCounter >= CLEANUP_INTERVAL {
        PurgedFacts(entries, later, ttlMs);
        Cleanup(later);
        cleanupCounter := 0;
      }
    }

    method Get(key: string, now: int) returns (r: Option<V>)
      requires UniqueKeys(entries)
      modifies this`entries
      ensures UniqueKeys(entries)
      ensures Contents() == Apply(old(Contents()), GetOp(key, now), Bounds())
      ensures r == if Hit(old(entries), key, now, ttlMs) then Some(Lookup(old(entries), key).value.value) else None
    {
      WithoutFacts(entries, key);
      var entry := Lookup(entries, key);
      if entry.None? { return None; }
      if Expired(entry.value, now, ttlMs) {
        Delete(key);
        return None;
      }
      LookupFinds(entries, key);
      Delete(key);
      AppendUnique(entries, entry.value);
      entries := entries + [entry.value];
      return Some(entry.value.value);
    }

    method Has(key: string, now: int) returns (b: bool)
      requires UniqueKeys(entries)
      modifies this`entries
      ensures UniqueKeys(entries)
      ensures Contents() == Apply(old(Contents()), GetOp(key, now), Bounds())
      ensures b == Hit(old(entries), key, now, ttlMs)
    {
      var r := Get(key, now);
      return r.Some?;
    }

    method Cleanup(now: int)
      requires UniqueKeys(entries)
      modifies this`entries
      ensures entries == Purged(old(entries), now, ttlMs) && UniqueKeys(entries)
    {
      var keysToDelete: seq<string> := [];
      for i := 0 to |entries|
        invariant entries == old(entries)
        invariant forall k :: k in keysToDelete <==>
                    exists j :: 0 <= j < i && entries[j].key == k && Expired(entries[j], now, ttlMs)
      {
        if Expired(entries[i], now, ttlMs) {
          keysToDelete := keysToDelete + [entries[i].key];
        }
      }
      ghost var all := entries;
      forall e, e' | e in all && e' in all && e.key == e'.key
        ensures e == e'
      {
        LookupFinds(all, e.key);
      }
      assert forall e :: e in all && e.key in keysToDelete ==> Expired(e, now, ttlMs);
      for i := 0 to |keysToDelete|
        invariant UniqueKeys(entries) && Purged(entries, now, ttlMs) == Purged(all, now, ttlMs)
        invariant forall e :: e in entries ==> e in all
        invariant forall e :: e in all && e.key in keysToDelete ==> Expired(e, now, ttlMs)
        invariant forall e :: e in entries && Expired(e, now, ttlMs) ==> e.key in keysToDelete[i..]
      {
        var key := keysToDelete[i];
        PurgedWithout(entries, key, now, ttlMs);
        WithoutFacts(entries, key);
        Delete(key);
      }
      PurgedFacts(entries, now, ttlMs);
    }
  }

  // ----- Histories of calls -----

  function After<V>(ops: seq<Op<V>>, l: Limits): State<V> {
    if ops == [] then State([], 0) else Apply(After(ops[..|ops| - 1], l), ops[|ops| - 1], l)
  }

  /** The call sets the key, or reads it and finds it. */
  predicate Touches<V>(c: seq<Entry<V>>, op: Op<V>, l: Limits, k: string) {
    match op
    case SetOp(x, _, _, _) => x == k
    case GetOp(x, now) => x == k && Hit(c, k, now, l.ttl)
    case CleanupOp(_) => false
  }

  /** The position of the last call that touched the key, or -1. */
  function LastTouch<V>(ops: seq<Op<V>>, l: Limits, k: string): (r: int)
    ensures -1 <= r < |ops|
  {
    if ops == [] then -1
    else
      var n := |ops| - 1;
      if Touches(After(ops[..n], l).entries, ops[n], l, k) then n else LastTouch(ops[..n], l, k)
  }

  ghost function EarlierTouch<V(!new)>(ops: seq<Op<V>>, l: Limits): (Entry<V>, Entry<V>) -> bool {
    (a: Entry<V>, b: Entry<V>) => LastTouch(ops, l, a.key) < LastTouch(ops, l, b.key)
  }

  /** The cache lists its keys in the order of their last touch. */
  ghost predicate InTouchOrder<V(!new)>(c: seq<Entry<V>>, ops: seq<Op<V>>, l: Limits) {
    UniqueKeys(c) && Ordered(c, EarlierTouch(ops, l)) && forall e :: e in c ==> 0 <= LastTouch(ops, l, e.key)
  }

  lemma {:induction false} Reorder<V(!new)>(c: seq<Entry<V>>, before: (Entry<V>, Entry<V>) -> bool,
                                            before': (Entry<V>, Entry<V>) -> bool)
    requires Ordered(c, before) && forall a, b :: a in c && b in c && before(a, b) ==> before'(a, b)
    ensures Ordered(c, before')
  {
    if c != [] {
      InCons(c);
      Reorder(c[1..], before, before');
    }
  }

  /** Dropping entries keeps the touch order, as long as no remaining key is touched. */
  lemma KeptInOrder<V(!new)>(c: seq<Entry<V>>, keep: Entry<V> -> bool, ops: seq<Op<V>>, op: Op<V>, l: Limits)
    requires InTouchOrder(c, ops, l)
    requires forall e :: e in c && keep(e) ==> LastTouch(ops + [op], l, e.key) == LastTouch(ops, l, e.key)
    ensures InTouchOrder(Filter(c, keep), ops + [op], l)
  {
    var d := Filter(c, keep);
    FilterMembers(c, keep);
    FilterOrdered(c, keep, KeysDiffer);
    FilterOrdered(c, keep, EarlierTouch(ops, l));
    Reorder(d, EarlierTouch(ops, l), EarlierTouch(ops + [op], l));
  }

  lemma AppendInOrder<V(!new)>(c: seq<Entry<V>>, e: Entry<V>, ops: seq<Op<V>>, l: Limits)
    requires InTouchOrder(c, ops, l) && 0 <= LastTouch(ops, l, e.key)
    requires forall x :: x in c ==> x.key != e.key && LastTouch(ops, l, x.key) < LastTouch(ops, l, e.key)
    ensures InTouchOrder(c + [e], ops, l)
  {
    AppendUnique(c, e);
    AppendOrdered(c, e, EarlierTouch(ops, l));
  }

  lemma TouchStep<V>(ops: seq<Op<V>>, op: Op<V>, l: Limits, k: string)
    ensures After(ops + [op], l) == Apply(After(ops, l), op, l)
    ensures LastTouch(ops + [op], l, k)
         == if Touches(After(ops, l).entries, op, l, k) then |ops| else LastTouch(ops, l, k)
  {
    assert (ops + [op])[..|ops|] == ops;
  }

  lemma SetInOrder<V(!new)>(c: seq<Entry<V>>, ops: seq<Op<V>>, op: Op<V>, l: Limits)
    requires InTouchOrder(c, ops, l) && op.SetOp? && c == After(ops, l).entries
    ensures InTouchOrder(Stored(c, Entry(op.key, op.value, op.now), l.maxSize), ops + [op], l)
  {
    var keep := (e: Entry<V>) => e.key != op.key;
    forall k
      ensures LastTouch(ops + [op], l, k) == if k == op.key then |ops| else LastTouch(ops, l, k)
    {
      TouchStep(ops, op, l, k);
    }
    KeptInOrder(c, keep, ops, op, l);
    WithoutFacts(c, op.key);
    var d := Without(c, op.key);
    if d != [] {
      InCons(d);
    }
    var room := if |d| >= l.maxSize && d != [] then d[1..] else d;
    AppendInOrder(room, Entry(op.key, op.value, op.now), ops + [op], l);
  }

  lemma PurgedInOrder<V(!new)>(c: seq<Entry<V>>, ops: seq<Op<V>>, l: Limits, now: int)
    requires InTouchOrder(c, ops, l)
    ensures InTouchOrder(Purged(c, now, l.ttl), ops, l)
  {
    PurgedFacts(c, now, l.ttl);
    FilterOrdered(c, (e: Entry<V>) => !Expired(e, now, l.ttl), EarlierTouch(ops, l));
  }

  lemma ReadInOrder<V(!new)>(c: seq<Entry<V>>, ops: seq<Op<V>>, op: Op<V>, l: Limits)
    requires InTouchOrder(c, ops, l) && op.GetOp? && c == After(ops, l).entries
    ensures InTouchOrder(Read(c, op.key, op.now, l.ttl), ops + [op], l)
  {
    var keep := (e: Entry<V>) => e.key != op.key;
    forall k
      ensures LastTouch(ops + [op], l, k)
           == if k == op.key && Hit(c, k, op.now, l.ttl) then |ops| else LastTouch(ops, l, k)
    {
      TouchStep(ops, op, l, k);
    }
    KeptInOrder(c, keep, ops, op, l);
    WithoutFacts(c, op.key);
    if Hit(c, op.key, op.now, l.ttl) {
      LookupFinds(c, op.key);
      AppendInOrder(Without(c, op.key), Lookup(c, op.key).value, ops + [op], l);
    }
  }

  /** After any history the cache is in last-touch order. */
  lemma {:induction false} RecencyOrder<V(!new)>(ops: seq<Op<V>>, l: Limits)
    ensures InTouchOrder(After(ops, l).entries, ops, l)
  {
    if ops != [] {
      var n := |ops| - 1;
      var past, op := ops[..n], ops[n];
      RecencyOrder(past, l);
      var c := After(past, l).entries;
      assert ops == past + [op];
      TouchStep(past, op, l, "");
      match op
      case SetOp(k, v, now, later) =>
        SetInOrder(c, past, op, l);
        PurgedInOrder(Stored(c, Entry(k, v, now), l.maxSize), ops, l, later);
      case GetOp(_, _) => ReadInOrder(c, past, op, l);
      case CleanupOp(now) =>
        forall k
          ensures LastTouch(ops, l, k) == LastTouch(past, l, k)
        {
          TouchStep(past, op, l, k);
        }
        KeptInOrder(c, (e: Entry<V>) => !Expired(e, now, l.ttl), past, op, l);
    }
  }

  /** The size never exceeds the bound, or one if the bound is zero. */
  lemma {:induction false} SizeBound<V(!new)>(ops: seq<Op<V>>, l: Limits)
    ensures |After(ops, l).entries| <= if l.maxSize == 0 then 1 else l.maxSize
  {
    if ops != [] {
      var n := |ops| - 1;
      SizeBound(ops[..n], l);
      var c := After(ops[..n], l).entries;
      match ops[n]
      case SetOp(k, v, now, later) =>
        WithoutFacts(c, k);
        PurgedFacts(Stored(c, Entry(k, v, now), l.maxSize), later, l.ttl);
      case GetOp(k, now) =>
        ReadSize(c, k, now, l.ttl);
      case CleanupOp(now) => PurgedFacts(c, now, l.ttl);
    }
  }

  lemma {:induction false} ReadSize<V(!new)>(c: seq<Entry<V>>, k: string, now: int, ttl: int)
    ensures |Read(c, k, now, ttl)| <= |c|
  {
    WithoutFacts(c, k);
    if Hit(c, k, now, ttl) {
      WithoutShrinks(c, k);
    }
  }

  lemma {:induction false} WithoutShrinks<V(!new)>(c: seq<Entry<V>>, k: string)
    requires Lookup(c, k).Some?
    ensures |Without(c, k)| < |c|
  {
    var keep := (e: Entry<V>) => e.key != k;
    FilterMembers(c[1..], keep);
    if c[0].key != k {
      WithoutShrinks(c[1..], k);
    }
  }

  /** The bound given to the constructor is kept in every history exactly when it is not zero. */
  lemma BoundKeptExactlyWhenPositive(maxSize: nat, ttl: int)
    ensures (forall ops: seq<Op<int>> :: |After(ops, Limits(maxSize, ttl)).entries| <= maxSize) <==> maxSize > 0
  {
    var l := Limits(maxSize, ttl);
    if maxSize > 0 {
      forall ops: seq<Op<int>>
        ensures |After(ops, l).entries| <= maxSize
      {
        SizeBound(ops, l);
      }
    } else {
      var op := SetOp("k", 0, 0, 0);
      TouchStep([], op, l, "k");
      assert [] + [op] == [op];
      assert |After([op], l).entries| == 1;
    }
  }

  // ----- What the cache remembers -----

  function KeysOf<V>(ops: seq<Op<V>>): set<string> {
    set i | 0 <= i < |ops| && !ops[i].CleanupOp? :: ops[i].key
  }

  /** The other keys touched since the last touch of `k`. */
  function TouchedSince<V>(ops: seq<Op<V>>, l: Limits, k: string): set<string> {
    set x | x in KeysOf(ops) && x != k && LastTouch(ops, l, x) > LastTouch(ops, l, k)
  }

  lemma {:induction false} TouchedKeysOccur<V>(ops: seq<Op<V>>, l: Limits, k: string)
    requires 0 <= LastTouch(ops, l, k)
    ensures k in KeysOf(ops)
  {
    var n := |ops| - 1;
    if Touches(After(ops[..n], l).entries, ops[n], l, k) {
      assert ops[n].key == k;
    } else {
      TouchedKeysOccur(ops[..n], l, k);
      var i :| 0 <= i < n && !ops[..n][i].CleanupOp? && ops[..n][i].key == k;
      assert ops[i].key == k;
    }
  }

  ghost function EntryKeys<V(!new)>(c: seq<Entry<V>>): set<string> {
    set e | e in c :: e.key
  }

  lemma {:induction false} EntryKeysSize<V(!new)>(c: seq<Entry<V>>)
    requires UniqueKeys(c)
    ensures |EntryKeys(c)| == |c|
  {
    if c != [] {
      InCons(c);
      EntryKeysSize(c[1..]);
      assert EntryKeys(c) == {c[0].key} + EntryKeys(c[1..]);
      assert c[0].key !in EntryKeys(c[1..]);
    } else {
      assert EntryKeys(c) == {};
    }
  }

  /** Storing a new key evicts the oldest entry only when at least `maxSize` other keys were touched since that
      entry was. */
  lemma EvictionNeedsTouches<V(!new)>(past: seq<Op<V>>, op: Op<V>, l: Limits, d: seq<Entry<V>>)
    requires op.SetOp? && d == Without(After(past, l).entries, op.key) && d != []
    ensures |TouchedSince(past + [op], l, d[0].key)| >= |d|
  {
    var c, k, ops := After(past, l).entries, d[0].key, past + [op];
    RecencyOrder(past, l);
    WithoutFacts(c, op.key);
    FilterOrdered(c, (e: Entry<V>) => e.key != op.key, EarlierTouch(past, l));
    InCons(d);
    var others := EntryKeys(d[1..]);
    EntryKeysSize(d[1..]);
    assert op.key !in others;
    forall x | x in others + {op.key}
      ensures x in TouchedSince(ops, l, k)
    {
      TouchStep(past, op, l, x);
      TouchStep(past, op, l, k);
      TouchedKeysOccur(ops, l, x);
    }
    SubsetSize(others + {op.key}, TouchedSince(ops, l, k));
  }

  /** The clocks a call reads are at most `t`. */
  predicate ClocksUpTo<V>(op: Op<V>, t: int) {
    op.now <= t && (op.SetOp? ==> op.later <= t)
  }

  /** `e` survives a call that does not set its key, comes before it expires, and leaves fewer than `maxSize`
      other keys touched since. */
  lemma EntryKept<V(!new)>(past: seq<Op<V>>, op: Op<V>, l: Limits, e: Entry<V>)
    requires e in After(past, l).entries
    requires !(op.SetOp? && op.key == e.key) && ClocksUpTo(op, e.timestamp + l.ttl)
    requires |TouchedSince(past + [op], l, e.key)| < l.maxSize
    ensures e in After(past + [op], l).entries
  {
    var c := After(past, l).entries;
    RecencyOrder(past, l);
    TouchStep(past, op, l, e.key);
    match op
    case SetOp(k, v, now, later) =>
      var d := Without(c, k);
      WithoutFacts(c, k);
      InCons(d);
      if d[0] == e {
        EvictionNeedsTouches(past, op, l, d);
      }
      PurgedFacts(Stored(c, Entry(k, v, now), l.maxSize), later, l.ttl);
    case GetOp(k, now) =>
      WithoutFacts(c, k);
      LookupFinds(c, k);
    case CleanupOp(now) => PurgedFacts(c, now, l.ttl);
  }

  /** A call that sets a key leaves its entry, unless there is no room or the time is up already. */
  lemma EntryStored<V(!new)>(past: seq<Op<V>>, op: Op<V>, l: Limits)
    requires op.SetOp? && ClocksUpTo(op, op.now + l.ttl) && l.maxSize > 0
    ensures Entry(op.key, op.value, op.now) in After(past + [op], l).entries
  {
    TouchStep(past, op, l, op.key);
    PurgedFacts(Stored(After(past, l).entries, Entry(op.key, op.value, op.now), l.maxSize), op.later, l.ttl);
  }

  /** The call sets `k`. */
  predicate Sets<V>(op: Op<V>, k: string) {
    op.SetOp? && op.key == k
  }

  /** Call `s` set the key to what `e` holds, and no later call set it. */
  ghost predicate LastSet<V(!new)>(ops: seq<Op<V>>, s: nat, e: Entry<V>) {
    && s < |ops| && ops[s].SetOp? && Entry(ops[s].key, ops[s].value, ops[s].now) == e
    && forall m :: s < m < |ops| ==> !Sets(ops[m], e.key)
  }

  /** Every entry comes from the last call that set its key. */
  lemma {:induction false} EntriesComeFromLastSet<V(!new)>(ops: seq<Op<V>>, l: Limits, e: Entry<V>) returns (s: nat)
    requires e in After(ops, l).entries
    ensures LastSet(ops, s, e)
  {
    var n := |ops| - 1;
    var past, op := ops[..n], ops[n];
    var c := After(past, l).entries;
    assert ops == past + [op];
    if op.SetOp? {
      WithoutFacts(c, op.key);
      PurgedFacts(Stored(c, Entry(op.key, op.value, op.now), l.maxSize), op.later, l.ttl);
    } else if op.GetOp? {
      WithoutFacts(c, op.key);
      LookupFinds(c, op.key);
    } else {
      PurgedFacts(c, op.now, l.ttl);
    }
    if Sets(op, e.key) {
      s := n;
    } else {
      s := EntriesComeFromLastSet(past, l, e);
      assert ops[s] == past[s];
      assert forall m :: s < m < n ==> ops[m] == past[m];
    }
  }

  /** Between touches of `k` the other keys touched since only become more. */
  lemma TouchedSinceGrows<V(!new)>(past: seq<Op<V>>, op: Op<V>, l: Limits, k: string)
    requires !Touches(After(past, l).entries, op, l, k)
    ensures |TouchedSince(past, l, k)| <= |TouchedSince(past + [op], l, k)|
  {
    TouchStep(past, op, l, k);
    forall x | x in TouchedSince(past, l, k)
      ensures x in TouchedSince(past + [op], l, k)
    {
      TouchStep(past, op, l, x);
      TouchedKeysOccur(past + [op], l, x);
    }
    SubsetSize(TouchedSince(past, l, k), TouchedSince(past + [op], l, k));
  }

  /** If call `s` was the last to set its key, an entry for the key is the one it made. */
  lemma EntryOfLastSet<V(!new)>(ops: seq<Op<V>>, l: Limits, s: nat, e: Entry<V>)
    requires s < |ops| && ops[s].SetOp? && e in After(ops, l).entries && e.key == ops[s].key
    requires forall m :: s < m < |ops| ==> !Sets(ops[m], ops[s].key)
    ensures e == Entry(ops[s].key, ops[s].value, ops[s].now)
  {
    var s' := EntriesComeFromLastSet(ops, l, e);
    assert s' < s ==> !Sets(ops[s], e.key);
  }

  /** Retention: a key set at call `s` is still found, with its value, after call `n` while it has not expired and
      fewer than `maxSize` other keys have been touched since its own last touch. */
  lemma {:induction false} Retained<V(!new)>(ops: seq<Op<V>>, l: Limits, s: nat, n: nat)
    requires s < n <= |ops| && ops[s].SetOp?
    requires forall m :: s < m < n ==> !Sets(ops[m], ops[s].key)
    requires forall m :: s <= m < n ==> ClocksUpTo(ops[m], ops[s].now + l.ttl)
    requires |TouchedSince(ops[..n], l, ops[s].key)| < l.maxSize
    ensures Lookup(After(ops[..n], l).entries, ops[s].key) == Some(Entry(ops[s].key, ops[s].value, ops[s].now))
    decreases n
  {
    var e := Entry(ops[s].key, ops[s].value, ops[s].now);
    var past, op := ops[..n - 1], ops[n - 1];
    var c := After(past, l).entries;
    assert ops[..n] == past + [op];
    hide After, TouchedSince, Lookup;
    if n == s + 1 {
      EntryStored(past, op, l);
    } else {
      LookupFinds(c, e.key);
      if Touches(c, op, l, e.key) {
        EntryOfLastSet(past, l, s, Lookup(c, e.key).value);
      } else {
        TouchedSinceGrows(past, op, l, e.key);
        Retained(ops, l, s, n - 1);
      }
      EntryKept(past, op, l, e);
    }
    RecencyOrder(ops[..n], l);
    LookupFinds(After(ops[..n], l).entries, e.key);
  }

  /** A key is found only if the last call that set it did so within the time to live; its value is the one set. */
  lemma FoundMeansRecentlySet<V(!new)>(ops: seq<Op<V>>, l: Limits, k: string, now: int) returns (s: nat)
    requires Hit(After(ops, l).entries, k, now, l.ttl)
    ensures LastSet(ops, s, Lookup(After(ops, l).entries, k).value)
    ensures ops[s].key == k && now - ops[s].now <= l.ttl
  {
    LookupFinds(After(ops, l).entries, k);
    s := EntriesComeFromLastSet(ops, l, Lookup(After(ops, l).entries, k).value);
  }
}
