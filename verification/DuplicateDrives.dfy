/** The migration's cleanup of duplicate active drives: an UPDATE whose condition looks at the table it changes. */
module DuplicateDrives {
  import opened FiniteSets
  import opened Wrappers

  datatype Status = Active | Deleted

  /** A row of `drives`, keyed by its id; every column but the id may be NULL before the schema is enforced. */
  datatype Drive = Drive(user: Option<string>, kind: Option<string>, status: Option<Status>,
                         isDefault: Option<int>, updatedAt: Option<int>, createdAt: Option<int>)

  type Table = map<string, Drive>

  // ----- The order on text keys -----

  predicate Less(a: string, b: string) {
    b != "" && (a == "" || a[0] < b[0] || (a[0] == b[0] && Less(a[1..], b[1..])))
  }

  lemma {:induction false} LessTransitive(a: string, b: string, c: string)
    requires Less(a, b) && Less(b, c)
    ensures Less(a, c)
  {
    if a != "" && a[0] == b[0] == c[0] {
      LessTransitive(a[1..], b[1..], c[1..]);
    }
  }

  lemma {:induction false} LessIrreflexive(a: string)
    ensures !Less(a, a)
  {
    if a != "" {
      LessIrreflexive(a[1..]);
    }
  }

  lemma {:induction false} LessTotal(a: string, b: string)
    requires a != b
    ensures Less(a, b) <==> !Less(b, a)
  {
    if a != "" && b != "" && a[0] == b[0] {
      assert a == [a[0]] + a[1..] && b == [b[0]] + b[1..];
      LessTotal(a[1..], b[1..]);
    }
  }

  /** The order is the lexicographic one: the first character in which the texts differ decides, and a proper prefix
      comes first. */
  lemma {:induction false} LessExactly(a: string, b: string)
    ensures Less(a, b) <==> exists n :: 0 <= n <= |a| && n < |b| && a[..n] == b[..n] && (n == |a| || a[n] < b[n])
  {
    if a == "" {
      assert b != "" ==> a[..0] == b[..0];
    } else if b != "" {
      var a', b' := a[1..], b[1..];
      LessExactly(a', b');
      if n :| 0 <= n <= |a'| && n < |b'| && a'[..n] == b'[..n] && (n == |a'| || a'[n] < b'[n]) {
        assert a[0] == b[0] ==> a[..n + 1] == [a[0]] + a'[..n] == [b[0]] + b'[..n] == b[..n + 1];
      }
      if n :| 0 < n <= |a| && n < |b| && a[..n] == b[..n] && (n == |a| || a[n] < b[n]) {
        assert a[0] == a[..n][0] == b[..n][0] == b[0];
        assert a'[..n - 1] == a[..n][1..] == b[..n][1..] == b'[..n - 1];
      }
      assert a[..0] == b[..0];
    }
  }

  // ----- The condition of the UPDATE -----

  function Default(d: Drive): int {
    if d.isDefault.Some? then d.isDefault.value else 0
  }

  function LastUpdate(d: Drive): int {
    if d.updatedAt.Some? then d.updatedAt.value else if d.createdAt.Some? then d.createdAt.value else 0
  }

  /** SQL equality: NULL equals nothing. */
  predicate SameGroup(a: Drive, b: Drive) {
    a.user.Some? && a.user == b.user && a.kind.Some? && a.kind == b.kind
  }

  /** The row `k` is kept in preference to the row `i`. */
  predicate Beats(t: Table, k: string, i: string)
    requires k in t && i in t
  {
    || Default(t[k]) > Default(t[i])
    || (Default(t[k]) == Default(t[i]) && LastUpdate(t[k]) > LastUpdate(t[i]))
    || (Default(t[k]) == Default(t[i]) && LastUpdate(t[k]) == LastUpdate(t[i]) && Less(i, k))
  }

  predicate IsActive(t: Table, i: string) {
    i in t && t[i].status == Some(Active)
  }

  predicate Keeper(t: Table, k: string, i: string)
    requires i in t
  {
    IsActive(t, k) && SameGroup(t[k], t[i]) && Beats(t, k, i)
  }

  predicate Doomed(t: Table, i: string)
    requires i in t
  {
    IsActive(t, i) && exists k :: k in t && Keeper(t, k, i)
  }

  function Removed(d: Drive, now: int): Drive {
    d.(status := Some(Deleted), isDefault := Some(0), updatedAt := Some(now))
  }

  /** The UPDATE with its condition read from the table as it was. */
  function Cleaned(t: Table, now: int): (r: Table)
    ensures r.Keys == t.Keys
  {
    map i | i in t :: if Doomed(t, i) then Removed(t[i], now) else t[i]
  }

  /** The UPDATE visiting one row of the table as it is by then. */
  function Visit(t: Table, i: string, now: int): Table
    requires i in t
  {
    if Doomed(t, i) then t[i := Removed(t[i], now)] else t
  }

  // ----- The order on rows, and its maxima -----

  lemma BeatsOrder(t: Table, a: string, b: string, c: string)
    requires a in t && b in t && c in t
    ensures !Beats(t, a, a)
    ensures a != b ==> Beats(t, a, b) || Beats(t, b, a)
    ensures Beats(t, a, b) && Beats(t, b, c) ==> Beats(t, a, c)
    ensures Beats(t, a, b) ==> !Beats(t, b, a)
  {
    LessIrreflexive(a);
    if a != b {
      LessTotal(a, b);
    }
    if Less(b, a) && Less(c, b) {
      LessTransitive(c, b, a);
    }
  }

  ghost function Keepers(t: Table, i: string): set<string>
    requires i in t
  {
    set k | k in t && Keeper(t, k, i)
  }

  /** Above every active row stands one that nothing beats. */
  lemma {:induction false} Champion(t: Table, i: string) returns (k: string)
    requires IsActive(t, i)
    ensures IsActive(t, k) && !Doomed(t, k) && (k == i || Keeper(t, k, i))
    decreases |Keepers(t, i)|
  {
    if !Doomed(t, i) {
      return i;
    }
    var m :| m in t && Keeper(t, m, i);
    forall x | x in Keepers(t, m)
      ensures x in Keepers(t, i)
    {
      BeatsOrder(t, x, m, i);
    }
    BeatsOrder(t, m, m, i);
    assert m in Keepers(t, i) && m !in Keepers(t, m);
    Smaller(Keepers(t, m), Keepers(t, i), m);
    k := Champion(t, m);
    BeatsOrder(t, k, m, i);
  }

  lemma Smaller(a: set<string>, b: set<string>, x: string)
    requires a <= b && x in b && x !in a
    ensures |a| < |b|
  {
    assert a <= b - {x};
    SubsetSize(a, b - {x});
  }

  // ----- Any visiting order gives the same table -----

  /** The table when exactly the rows in `seen` have been visited. */
  ghost function Partly(t: Table, seen: set<string>, now: int): Table {
    map i | i in t :: if i in seen && Doomed(t, i) then Removed(t[i], now) else t[i]
  }

  /** A row is doomed on the way exactly when it was doomed at the start and has not been visited. */
  lemma DoomedOnTheWay(t: Table, seen: set<string>, now: int, i: string)
    requires i in t
    ensures Doomed(Partly(t, seen, now), i) <==> Doomed(t, i) && i !in seen
  {
    var p := Partly(t, seen, now);
    if Doomed(t, i) && i !in seen {
      var k := Champion(t, i);
      assert k != i;
      assert p[k] == t[k] && p[i] == t[i];
      assert Keeper(p, k, i);
    }
    if Doomed(p, i) {
      var k :| k in p && Keeper(p, k, i);
      assert p[k] == t[k] && p[i] == t[i];
      assert Keeper(t, k, i);
    }
  }

  lemma VisitExtends(t: Table, seen: set<string>, now: int, i: string)
    requires i in t
    ensures Visit(Partly(t, seen, now), i, now) == Partly(t, seen + {i}, now)
  {
    DoomedOnTheWay(t, seen, now, i);
  }

  ghost function Elements(s: seq<string>): set<string> {
    set x | x in s
  }

  class DriveTable {
    var rows: Table

    constructor (rows: Table)
      ensures this.rows == rows
    {
      this.rows := rows;
    }

    /** The statement, visiting the rows one after the other in any order and judging each by the table as it has
        become: the result is that of judging all by the table as it was. */
    method NormalizeDuplicateActiveDrives(order: seq<string>, now: int)
      requires forall i :: i in rows <==> i in order
      modifies this
      ensures rows == Cleaned(old(rows), now)
    {
      ghost var t := rows;
      assert rows == Partly(t, {}, now);
      for n := 0 to |order|
        invariant rows == Partly(t, Elements(order[..n]), now)
      {
        VisitExtends(t, Elements(order[..n]), now, order[n]);
        assert Elements(order[..n + 1]) == Elements(order[..n]) + {order[n]};
        if Doomed(rows, order[n]) {
          rows := rows[order[n] := Removed(rows[order[n]], now)];
        }
      }
      assert order[..|order|] == order;
      assert Partly(t, Elements(order), now) == Cleaned(t, now);
    }
  }

  // ----- What the cleanup leaves -----

  /** The unique index on (user, type) of active drives can be built. */
  ghost predicate OneActivePerGroup(t: Table) {
    forall a, b :: Rivals(t, a, b) ==> a == b
  }

  /** Two active rows with one user and one type, neither of them NULL. */
  ghost predicate Rivals(t: Table, a: string, b: string) {
    && a in t && b in t && t[a].status == Some(Active) && t[b].status == Some(Active)
    && t[a].user.Some? && t[a].kind.Some? && t[a].user == t[b].user && t[a].kind == t[b].kind
  }

  /** The number a nullable column counts as. */
  function OrZero(n: Option<int>): int {
    match n
    case Some(value) => value
    case None => 0
  }

  /** Of two rivals `k` is kept: it is the default and the other is not, or else it was updated (or, if never,
      created) later, or else its identifier is greater. */
  ghost predicate Preferred(t: Table, k: string, x: string)
    requires k in t && x in t
  {
    var age := (d: Drive) => OrZero(if d.updatedAt == None then d.createdAt else d.updatedAt);
    if OrZero(t[k].isDefault) != OrZero(t[x].isDefault) then OrZero(t[k].isDefault) > OrZero(t[x].isDefault)
    else if age(t[k]) != age(t[x]) then age(t[k]) > age(t[x])
    else exists n :: 0 <= n <= |x| && n < |k| && x[..n] == k[..n] && (n == |x| || x[n] < k[n])
  }

  lemma CleanedUnique(t: Table, now: int)
    ensures OneActivePerGroup(Cleaned(t, now))
  {
    var r := Cleaned(t, now);
    forall a, b | Rivals(r, a, b)
      ensures a == b
    {
      if a != b {
        OneOfTwoDoomed(t, a, b);
        assert false;
      }
    }
  }

  lemma OneOfTwoDoomed(t: Table, a: string, b: string)
    requires IsActive(t, a) && IsActive(t, b) && SameGroup(t[a], t[b]) && a != b
    ensures Doomed(t, a) || Doomed(t, b)
  {
    BeatsOrder(t, a, b, a);
    assert Keeper(t, a, b) || Keeper(t, b, a);
  }

  /** A group that had an active drive keeps exactly one, untouched: the one preferred to all others of the group;
      the rest are deleted and not default, and are otherwise as they were. */
  lemma CleanedKeepsMaximum(t: Table, now: int, i: string) returns (k: string)
    requires Rivals(t, i, i)
    ensures Rivals(t, k, i) && Cleaned(t, now)[k] == t[k]
    ensures forall x :: Rivals(t, x, i) && x != k ==>
              && Preferred(t, k, x)
              && Cleaned(t, now)[x] == t[x].(status := Some(Deleted), isDefault := Some(0), updatedAt := Some(now))
  {
    k := Champion(t, i);
    forall x | Rivals(t, x, i) && x != k
      ensures Preferred(t, k, x) && Cleaned(t, now)[x] == Removed(t[x], now)
    {
      BeatsOrder(t, k, x, k);
      LessExactly(x, k);
      assert !Keeper(t, x, k);
      assert Keeper(t, k, x);
    }
  }

  /** Rows that are not active, or have no user or no type, are left alone. */
  lemma CleanedLeavesOthers(t: Table, now: int, i: string)
    requires i in t && !Rivals(t, i, i)
    ensures Cleaned(t, now)[i] == t[i]
  {
  }
}
