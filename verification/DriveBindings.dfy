/** Drive bindings: one table that is the source of truth, and four caches derived from it. */
module DriveBindings {
  import opened Wrappers
  import JsStrings

  datatype Status = Active | Deleted

  // ----- Stored configurations -----

  datatype PasswordFormat = Plain | RcloneObscured | LegacyUnknown

  /** The parts of a stored configuration that the password migration looks at, and the rest as text. */
  datatype Config = Config(pass: string, format: Option<PasswordFormat>, schemaVersion: int, rest: string)

  const CONFIG_SCHEMA_VERSION := 1

  /** The columns every query selects. */
  datatype Drive = Drive(id: string, user: string, name: string, kind: string, config: Config,
                         remoteFolder: Option<string>, status: Status, isDefault: bool, createdAt: int)

  datatype Row = Row(drive: Drive, updatedAt: int)

  type Table = map<string, Row>

  predicate UsesObscuredPassword(kind: string) {
    JsStrings.Lower(kind) in {"mega", "pikpak", "webdav"}
  }

  predicate NeedsMark(d: Drive) {
    d.status == Active && UsesObscuredPassword(d.kind) && d.config.pass != ""
    && !(d.config.format.Some? && d.config.schemaVersion == CONFIG_SCHEMA_VERSION)
  }

  function Marked(d: Drive): (r: Drive)
    ensures !NeedsMark(r)
  {
    d.(config := d.config.(format := Some(LegacyUnknown), schemaVersion := CONFIG_SCHEMA_VERSION))
  }

  /** The table after the password migration of the rows in `ids`. */
  function MarkRows(t: Table, ids: set<string>, now: int): Table {
    map id | id in t :: if id in ids && NeedsMark(t[id].drive) then Row(Marked(t[id].drive), now) else t[id]
  }

  /** The password migration, column by column. A row changes exactly when it holds, for an active drive of a type
      with obscured passwords, a password without a format or of another schema version; nothing but the format, the
      version and the time of update changes, and then both are explicit. */
  lemma MarkRowsExactly(t: Table, ids: set<string>, now: int, id: string)
    requires id in t
    ensures var t', was := MarkRows(t, ids, now), t[id].drive;
            && t'.Keys == t.Keys
            && (t'[id] != t[id] <==>
                  && id in ids && was.status == Active && was.config.pass != ""
                  && JsStrings.Lower(was.kind) in {"mega", "pikpak", "webdav"}
                  && (was.config.format.None? || was.config.schemaVersion != 1))
            && (t'[id] != t[id] ==>
                  && t'[id].updatedAt == now
                  && t'[id].drive.config == Config(was.config.pass, Some(LegacyUnknown), 1, was.config.rest)
                  && t'[id].drive.(config := was.config) == was)
  {
    assert t[id].drive.config.format.None? || t[id].drive.config.schemaVersion != 1 ==>
        t[id].drive.config != Marked(t[id].drive).config;
  }

  function ActiveIds(t: Table, user: string): set<string> {
    set id | id in t && IsActive(t, id) && t[id].drive.user == user
  }

  predicate IsActive(t: Table, id: string) {
    id in t && t[id].drive.status == Active
  }

  // ----- What a direct query may answer -----

  /** The ORDER BY clauses of the queries. */
  datatype Order = DefaultFirst | NewestFirst

  predicate ListedBefore(o: Order, a: Drive, b: Drive) {
    if o == DefaultFirst && a.isDefault != b.isDefault then a.isDefault else a.createdAt >= b.createdAt
  }

  ghost predicate Sorted(o: Order, ds: seq<Drive>) {
    forall i, j :: 0 <= i < j < |ds| ==> ListedBefore(o, ds[i], ds[j]) && ds[i].id != ds[j].id
  }

  /** `ds` lists exactly the rows in `ids`, in the given order. */
  ghost predicate Lists(o: Order, t: Table, ids: set<string>, ds: seq<Drive>) {
    && Sorted(o, ds)
    && (forall d :: d in ds ==> d.id in ids)
    && (forall id :: id in ids ==> id in t && t[id].drive in ds)
    && (forall d :: d in ds ==> d.id in t && t[d.id].drive == d)
  }

  /** `ds` is an answer to the query for the active drives of a user. */
  ghost predicate Answers(t: Table, user: string, ds: seq<Drive>) {
    Lists(DefaultFirst, t, ActiveIds(t, user), ds)
  }

  /** `ids` lists the active drives of all users, each once, newest first. */
  ghost predicate ListsActive(t: Table, ids: seq<string>) {
    && (forall id :: id in ids <==> IsActive(t, id))
    && forall i, j :: 0 <= i < j < |ids| ==> ids[i] != ids[j] && CreatedBefore(t, ids[j], ids[i])
  }

  predicate CreatedBefore(t: Table, a: string, b: string) {
    a in t && b in t && t[a].drive.createdAt <= t[b].drive.createdAt
  }

  function AllActive(t: Table): set<string> {
    set id | id in t && IsActive(t, id)
  }

  // ----- Laws of the table, and agreement of the caches with it -----

  ghost predicate Lawful(t: Table) {
    && (forall id :: id in t ==>
          t[id].drive.id == id && id != "" && t[id].drive.user != "" && t[id].drive.createdAt > 0)
    && (forall a, b :: SameBinding(t, a, b) ==> a == b)
    && (forall a, b :: IsDefault(t, a) && IsDefault(t, b) && t[a].drive.user == t[b].drive.user ==> a == b)
    && (forall id :: IsDefault(t, id) ==> IsActive(t, id))
  }

  /** Two active drives of one user and one type. */
  predicate SameBinding(t: Table, a: string, b: string) {
    && IsActive(t, a) && IsActive(t, b)
    && t[a].drive.user == t[b].drive.user && t[a].drive.kind == t[b].drive.kind
  }

  predicate IsDefault(t: Table, id: string) {
    id in t && t[id].drive.isDefault
  }

  ghost predicate UsersAgree(t: Table, c: map<string, seq<Drive>>) {
    forall u :: u in c ==> Answers(t, u, c[u])
  }

  ghost predicate IdsAgree(t: Table, c: map<string, Drive>) {
    forall id :: id in c ==> IsActive(t, id) && t[id].drive == c[id]
  }

  ghost predicate ActiveAgrees(t: Table, c: Option<seq<string>>) {
    c.Some? ==> ListsActive(t, c.value)
  }

  /** The rows of every user but `u` hold the same drives in both tables. */
  ghost predicate OthersSame(t: Table, t': Table, u: string) {
    forall id :: (id in t && t[id].drive.user != u) || (id in t' && t'[id].drive.user != u) ==>
      id in t && id in t' && t[id].drive == t'[id].drive
  }

  lemma UsersAgreeFrame(t: Table, t': Table, u: string, c: map<string, seq<Drive>>)
    requires UsersAgree(t, c) && OthersSame(t, t', u)
    ensures UsersAgree(t', c - {u})
  {
    forall v | v in c - {u}
      ensures Answers(t', v, c[v])
    {
      assert ActiveIds(t, v) == ActiveIds(t', v);
      ListsFrame(t, t', ActiveIds(t, v), c[v]);
    }
  }

  lemma ListsFrame(t: Table, t': Table, ids: set<string>, ds: seq<Drive>)
    requires Lists(DefaultFirst, t, ids, ds)
    requires forall id :: id in ids ==> id in t && id in t' && t[id].drive == t'[id].drive
    ensures Lists(DefaultFirst, t', ids, ds)
  {
  }

  /** The rows outside `ids` hold the same drives in both tables. */
  ghost predicate RestSame(t: Table, t': Table, ids: set<string>) {
    forall id :: id !in ids && (id in t || id in t') ==> id in t && id in t' && t[id].drive == t'[id].drive
  }

  lemma IdsAgreeFrame(t: Table, t': Table, ids: set<string>, c: map<string, Drive>)
    requires IdsAgree(t, c) && RestSame(t, t', ids)
    ensures IdsAgree(t', c - ids)
  {
  }

  /** A write that touches only drives of `u`, all of them in `ids`, leaves the caches right once the entries of
      that user and of those drives are gone. */
  lemma ClearedCachesAgree(t: Table, t': Table, u: string, ids: set<string>,
                           byUser: map<string, seq<Drive>>, byLocal: map<string, seq<Drive>>, byId: map<string, Drive>)
    requires UsersAgree(t, byUser) && UsersAgree(t, byLocal) && IdsAgree(t, byId)
    requires OthersSame(t, t', u) && RestSame(t, t', ids)
    ensures UsersAgree(t', byUser - {u}) && UsersAgree(t', byLocal - {u}) && IdsAgree(t', byId - ids)
  {
    UsersAgreeFrame(t, t', u, byUser);
    UsersAgreeFrame(t, t', u, byLocal);
    IdsAgreeFrame(t, t', ids, byId);
  }

  /** The tables have the same rows up to configuration, folder, name and time of update. */
  ghost predicate SameShape(t: Table, t': Table) {
    && t.Keys == t'.Keys
    && forall id :: id in t ==> SameBindingFields(t[id].drive, t'[id].drive)
  }

  predicate SameBindingFields(a: Drive, b: Drive) {
    && a.id == b.id && a.user == b.user && a.kind == b.kind && a.status == b.status
    && a.isDefault == b.isDefault && a.createdAt == b.createdAt
  }

  lemma SameShapeLawful(t: Table, t': Table)
    requires SameShape(t, t')
    ensures Lawful(t) ==> Lawful(t')
    ensures forall u :: ActiveIds(t', u) == ActiveIds(t, u)
    ensures forall id :: IsActive(t', id) <==> IsActive(t, id)
  {
    assert forall a, b :: SameBinding(t', a, b) ==> SameBinding(t, a, b);
    assert forall a :: IsDefault(t', a) <==> IsDefault(t, a);
  }

  lemma MarkRowsShape(t: Table, ids: set<string>, now: int)
    ensures SameShape(t, MarkRows(t, ids, now))
  {
  }

  lemma MarkRowsLawful(t: Table, ids: set<string>, now: int)
    requires Lawful(t)
    ensures Lawful(MarkRows(t, ids, now))
    ensures forall u :: ActiveIds(MarkRows(t, ids, now), u) == ActiveIds(t, u)
    ensures forall id :: IsActive(MarkRows(t, ids, now), id) <==> IsActive(t, id)
  {
    hide MarkRows, Lawful, ActiveIds, IsActive, SameShape;
    MarkRowsShape(t, ids, now);
    SameShapeLawful(t, MarkRows(t, ids, now));
  }

  /** Marking one more row. */
  lemma MarkRowsStep(t: Table, ids: set<string>, id: string, now: int)
    ensures MarkRows(MarkRows(t, ids, now), {id}, now) == MarkRows(t, ids + {id}, now)
    ensures id in t && id !in ids ==> id in MarkRows(t, ids, now) && MarkRows(t, ids, now)[id] == t[id]
  {
  }

  /** Marking a further row changes no marked one, nor which rows are active. */
  lemma MarkedStays(t: Table, ids: set<string>, id: string, now: int)
    ensures forall x :: x in ids && x in t ==> MarkRows(t, ids + {id}, now)[x] == MarkRows(t, ids, now)[x]
    ensures forall x :: IsActive(MarkRows(t, ids + {id}, now), x) <==> IsActive(t, x)
  {
  }

  lemma MarkAllActive(t: Table, ids: set<string>, now: int)
    requires forall id :: IsActive(t, id) ==> id in ids
    ensures MarkRows(t, ids, now) == MarkRows(t, t.Keys, now)
  {
  }

  function Ids(ds: seq<Drive>): set<string> {
    set d | d in ds :: d.id
  }

  /** The drives as the migration hands them back. */
  function MarkedList(ds: seq<Drive>): (r: seq<Drive>)
    ensures |r| == |ds|
    ensures forall i :: 0 <= i < |ds| ==> r[i] == if NeedsMark(ds[i]) then Marked(ds[i]) else ds[i]
  {
    seq(|ds|, i requires 0 <= i < |ds| => if NeedsMark(ds[i]) then Marked(ds[i]) else ds[i])
  }

  lemma MarkedListAnswers(t: Table, user: string, ds: seq<Drive>, now: int)
    requires Lawful(t) && Answers(t, user, ds)
    ensures Answers(MarkRows(t, ActiveIds(t, user), now), user, MarkedList(ds))
  {
    var ids, t', r := ActiveIds(t, user), MarkRows(t, ActiveIds(t, user), now), MarkedList(ds);
    MarkRowsLawful(t, ids, now);
    forall id | id in ids
      ensures t'[id].drive in r
    {
      var i :| 0 <= i < |ds| && ds[i] == t[id].drive;
      assert r[i] == t'[id].drive;
    }
  }

  lemma MarkNothing(t: Table, ids: set<string>, now: int)
    requires forall id :: id in ids && id in t ==> !NeedsMark(t[id].drive)
    ensures MarkRows(t, ids, now) == t
  {
  }

  // ----- Selecting from the table -----

  function Insert(o: Order, ds: seq<Drive>, d: Drive): seq<Drive> {
    if ds == [] then [d] else if ListedBefore(o, ds[0], d) then [ds[0]] + Insert(o, ds[1..], d) else [d] + ds
  }

  lemma {:induction false} InsertSorted(o: Order, ds: seq<Drive>, d: Drive)
    requires Sorted(o, ds) && forall x :: x in ds ==> x.id != d.id
    ensures Sorted(o, Insert(o, ds, d)) && forall x :: x in Insert(o, ds, d) <==> x == d || x in ds
  {
    if ds != [] {
      assert ds == [ds[0]] + ds[1..];
      InsertSorted(o, ds[1..], d);
      if ListedBefore(o, ds[0], d) {
        var r := Insert(o, ds[1..], d);
        assert forall x :: x in r ==> ListedBefore(o, ds[0], x) && x.id != ds[0].id;
      }
    }
  }

  /** The rows in `ids`, in the given order. */
  method Select(o: Order, t: Table, ids: set<string>) returns (ds: seq<Drive>)
    requires ids <= t.Keys && forall id :: id in t ==> t[id].drive.id == id
    ensures Lists(o, t, ids, ds)
  {
    ds := [];
    var rest := ids;
    while rest != {}
      invariant rest <= ids && Lists(o, t, ids - rest, ds)
    {
      var id :| id in rest;
      InsertSorted(o, ds, t[id].drive);
      ds := Insert(o, ds, t[id].drive);
      rest := rest - {id};
    }
    assert ids - rest == ids;
  }

  // ----- The writes, as functions of the table -----

  function Reconfigured(t: Table, user: string, id: string, config: Config, now: int): Table {
    if IsActive(t, id) && t[id].drive.user == user then t[id := Row(t[id].drive.(config := config), now)] else t
  }

  function DeleteRows(t: Table, ids: set<string>, now: int): Table {
    map id | id in t :: if id in ids then Row(t[id].drive.(status := Deleted, isDefault := false), now) else t[id]
  }

  function WithFolder(t: Table, id: string, folder: Option<string>, now: int): Table {
    if id in t then t[id := Row(t[id].drive.(remoteFolder := folder), now)] else t
  }

  /** Among the active drives of the user, `chosen` alone is the default (none is, if it is not one of them). */
  function WithDefault(t: Table, user: string, chosen: Option<string>, now: int): Table {
    map id | id in t ::
      if IsActive(t, id) && t[id].drive.user == user
      then Row(t[id].drive.(isDefault := chosen == Some(id)), now) else t[id]
  }

  /** `order` visits every row once. */
  ghost predicate Visits(t: Table, order: seq<string>) {
    (forall id :: id in t <==> id in order) && forall i, j :: 0 <= i < j < |order| ==> order[i] != order[j]
  }

  predicate OtherDefault(t: Table, user: string, id: string) {
    IsDefault(t, id) && IsActive(t, id) && t[id].drive.user == user
  }

  /** At position `i` the new default is marked while an old one is still to come. */
  ghost predicate BlockedAt(t: Table, user: string, chosen: Option<string>, order: seq<string>, i: nat)
    requires i < |order|
  {
    && chosen == Some(order[i]) && IsActive(t, order[i]) && t[order[i]].drive.user == user
    && exists j :: i < j < |order| && OtherDefault(t, user, order[j])
  }

  /** The unique index rejects the swap of defaults: the new default is visited before the old one. */
  ghost predicate SwapRejected(t: Table, user: string, chosen: Option<string>, order: seq<string>) {
    exists i :: 0 <= i < |order| && BlockedAt(t, user, chosen, order, i)
  }

  /** The marks once the rows in `seen` have been visited. */
  ghost function Partly(t: Table, user: string, chosen: Option<string>, seen: seq<string>, now: int): Table {
    map id | id in t ::
      if id in seen && IsActive(t, id) && t[id].drive.user == user
      then Row(t[id].drive.(isDefault := chosen == Some(id)), now) else t[id]
  }

  lemma PartlyStep(t: Table, user: string, chosen: Option<string>, seen: seq<string>, id: string, now: int)
    requires id in t && id !in seen
    ensures var p := Partly(t, user, chosen, seen, now);
            && id in p && p[id] == t[id]
            && Partly(t, user, chosen, seen + [id], now)
               == if IsActive(t, id) && t[id].drive.user == user
                  then p[id := Row(p[id].drive.(isDefault := chosen == Some(id)), now)] else p
  {
    var p := Partly(t, user, chosen, seen, now);
    assert forall x :: x in seen + [id] <==> x in seen || x == id;
  }

  lemma PartlyNone(t: Table, user: string, chosen: Option<string>, now: int)
    ensures Partly(t, user, chosen, [], now) == t
  {
  }

  lemma PartlyAll(t: Table, user: string, chosen: Option<string>, order: seq<string>, now: int)
    requires Visits(t, order)
    ensures Partly(t, user, chosen, order, now) == WithDefault(t, user, chosen, now)
  {
  }

  /** A default other than the chosen one is there exactly when it was before and has not been visited. */
  lemma DefaultUnvisited(t: Table, user: string, chosen: Option<string>, seen: seq<string>, k: string, now: int)
    requires chosen != Some(k)
    ensures OtherDefault(Partly(t, user, chosen, seen, now), user, k) <==> OtherDefault(t, user, k) && k !in seen
  {
  }

  lemma StillToCome(order: seq<string>, i: nat, k: string) returns (j: nat)
    requires i < |order| && k in order && k != order[i] && k !in order[..i]
    ensures i < j < |order| && order[j] == k
  {
    assert order == order[..i] + [order[i]] + order[i + 1..];
    var d :| 0 <= d < |order[i + 1..]| && order[i + 1..][d] == k;
    j := i + 1 + d;
  }

  /** What the index sees at position `i` is what is still to come. */
  lemma BlockedNow(t: Table, user: string, chosen: Option<string>, order: seq<string>, i: nat, now: int)
    requires Visits(t, order) && i < |order| && IsActive(t, order[i]) && t[order[i]].drive.user == user
    ensures var p := Partly(t, user, chosen, order[..i], now);
            chosen == Some(order[i]) && (exists k :: k in p && k != order[i] && OtherDefault(p, user, k))
            <==> BlockedAt(t, user, chosen, order, i)
  {
    hide Partly;
    var p := Partly(t, user, chosen, order[..i], now);
    if chosen == Some(order[i]) {
      if k :| k in p && k != order[i] && OtherDefault(p, user, k) {
        DefaultUnvisited(t, user, chosen, order[..i], k, now);
        var j := StillToCome(order, i, k);
        assert OtherDefault(t, user, order[j]);
      }
      if BlockedAt(t, user, chosen, order, i) {
        var j :| i < j < |order| && OtherDefault(t, user, order[j]);
        assert order[j] !in order[..i] && order[j] != order[i];
        DefaultUnvisited(t, user, chosen, order[..i], order[j], now);
      }
    }
  }

  lemma NotBlocked(t: Table, user: string, chosen: Option<string>, order: seq<string>, i: nat)
    requires i < |order| && !(IsActive(t, order[i]) && t[order[i]].drive.user == user)
    ensures !BlockedAt(t, user, chosen, order, i)
  {
  }

  lemma {:induction false} Enumerate(ids: set<string>) returns (order: seq<string>)
    ensures forall id :: id in ids <==> id in order
    ensures forall i, j :: 0 <= i < j < |order| ==> order[i] != order[j]
    decreases |ids|
  {
    if ids == {} {
      order := [];
    } else {
      var id :| id in ids;
      var rest := Enumerate(ids - {id});
      order := [id] + rest;
    }
  }

  /** Some visiting order rejects the swap exactly when the user has another default now; some order always accepts
      it. */
  lemma SwapRejectableExactly(t: Table, user: string, id: string)
    requires Lawful(t) && IsActive(t, id) && t[id].drive.user == user
    ensures (exists order :: Visits(t, order) && SwapRejected(t, user, Some(id), order))
            <==> exists k :: k in t && k != id && t[k].drive.isDefault && t[k].drive.status == Active
                             && t[k].drive.user == user
    ensures exists order :: Visits(t, order) && !SwapRejected(t, user, Some(id), order)
  {
    var rest := Enumerate(t.Keys - {id});
    var first, last := [id] + rest, rest + [id];
    assert Visits(t, first) && Visits(t, last);
    if k :| k in t && k != id && t[k].drive.isDefault && t[k].drive.status == Active && t[k].drive.user == user {
      var j := StillToCome(first, 0, k);
      assert OtherDefault(t, user, first[j]);
      assert BlockedAt(t, user, Some(id), first, 0);
    }
    forall i | 0 <= i < |last|
      ensures !BlockedAt(t, user, Some(id), last, i)
    {
    }
  }

  /** A rejected swap means that the user has another default. */
  lemma RejectedMeansDefault(t: Table, user: string, id: string, order: seq<string>)
    requires Visits(t, order) && SwapRejected(t, user, Some(id), order)
    ensures exists k :: k != id && OtherDefault(t, user, k)
  {
    var i :| 0 <= i < |order| && BlockedAt(t, user, Some(id), order, i);
    var j :| i < j < |order| && OtherDefault(t, user, order[j]);
    assert order[j] != id;
  }

  /** Marking password formats changes neither the visiting orders nor the fate of a swap. */
  lemma MarkedSwap(t: Table, user: string, chosen: Option<string>, order: seq<string>, now: int)
    requires Visits(t, order)
    ensures var t' := MarkRows(t, ActiveIds(t, user), now);
            Visits(t', order) && (SwapRejected(t', user, chosen, order) <==> SwapRejected(t, user, chosen, order))
  {
    var t' := MarkRows(t, ActiveIds(t, user), now);
    assert forall id :: OtherDefault(t', user, id) <==> OtherDefault(t, user, id);
    assert forall i :: 0 <= i < |order| ==>
      (BlockedAt(t', user, chosen, order, i) <==> BlockedAt(t, user, chosen, order, i));
  }

  /** The binding that `create` leaves: a new row, or a deleted one brought back. */
  function Bound(t: Table, id: string, user: string, name: string, kind: string, config: Config, now: int): Row {
    Row(Drive(id, user, name, kind, config, None, Active, false, if id in t then t[id].drive.createdAt else now), now)
  }

  lemma ReconfiguredLawful(t: Table, user: string, id: string, config: Config, now: int)
    requires Lawful(t)
    ensures Lawful(Reconfigured(t, user, id, config, now))
    ensures OthersSame(t, Reconfigured(t, user, id, config, now), user)
    ensures RestSame(t, Reconfigured(t, user, id, config, now), {id})
  {
    assert SameShape(t, Reconfigured(t, user, id, config, now));
    hide Lawful;
    SameShapeLawful(t, Reconfigured(t, user, id, config, now));
  }

  lemma DeleteRowsLawful(t: Table, ids: set<string>, user: string, now: int)
    requires Lawful(t) && forall id :: id in ids && id in t ==> t[id].drive.user == user
    ensures Lawful(DeleteRows(t, ids, now))
    ensures OthersSame(t, DeleteRows(t, ids, now), user) && RestSame(t, DeleteRows(t, ids, now), ids)
  {
    var t' := DeleteRows(t, ids, now);
    assert forall a, b :: SameBinding(t', a, b) ==> SameBinding(t, a, b);
    assert forall a :: IsDefault(t', a) ==> IsDefault(t, a) && a !in ids;
  }

  lemma NoEmptyId(t: Table)
    requires Lawful(t)
    ensures "" !in t
  {
  }

  lemma DeleteOne(t: Table, id: string, now: int)
    requires id in t
    ensures t[id := Row(t[id].drive.(status := Deleted, isDefault := false), now)] == DeleteRows(t, {id}, now)
  {
  }

  lemma DeleteNothing(t: Table, now: int)
    ensures DeleteRows(t, {}, now) == t
  {
  }

  lemma DeleteRowsStep(t: Table, ids: set<string>, id: string, now: int)
    requires id in t
    ensures var t' := DeleteRows(t, ids, now);
            && id in t'
            && t'[id := Row(t'[id].drive.(status := Deleted, isDefault := false), now)]
               == DeleteRows(t, ids + {id}, now)
  {
  }

  lemma WithDefaultTouchesOnly(t: Table, user: string, chosen: Option<string>, now: int)
    ensures OthersSame(t, WithDefault(t, user, chosen, now), user)
    ensures RestSame(t, WithDefault(t, user, chosen, now), ActiveIds(t, user))
  {
  }

  lemma WithDefaultLawful(t: Table, user: string, chosen: Option<string>, now: int)
    requires Lawful(t)
    ensures Lawful(WithDefault(t, user, chosen, now))
    ensures forall id :: IsActive(WithDefault(t, user, chosen, now), id) <==> IsActive(t, id)
  {
    var t' := WithDefault(t, user, chosen, now);
    assert forall a, b :: SameBinding(t', a, b) ==> SameBinding(t, a, b);
    forall a | IsDefault(t', a)
      ensures IsActive(t, a) && if t[a].drive.user == user then chosen == Some(a) else IsDefault(t, a)
    {
      assert IsDefault(t, a) ==> IsActive(t, a);
    }
  }

  /** The user has an active drive of this type. */
  ghost predicate HasBinding(t: Table, user: string, kind: string) {
    exists id :: IsActive(t, id) && t[id].drive.user == user && t[id].drive.kind == kind
  }

  predicate WasBinding(t: Table, user: string, kind: string, id: string) {
    id in t && t[id].drive.status == Deleted && t[id].drive.user == user && t[id].drive.kind == kind
  }

  predicate NoOlder(a: Row, b: Row) {
    a.updatedAt > b.updatedAt || (a.updatedAt == b.updatedAt && a.drive.createdAt >= b.drive.createdAt)
  }

  /** The row a new binding takes: a most recently touched deleted one, or a new one when there is none. */
  ghost predicate Reuses(t: Table, user: string, kind: string, freshId: string, id: string) {
    var gone := set x | x in t && t[x].drive.status == Deleted && t[x].drive.user == user && t[x].drive.kind == kind;
    if gone == {} then id == freshId
    else id in gone && forall x :: x in gone ==>
      t[x].updatedAt < t[id].updatedAt
      || (t[x].updatedAt == t[id].updatedAt && t[x].drive.createdAt <= t[id].drive.createdAt)
  }

  lemma NewestIsReused(t: Table, user: string, kind: string, freshId: string, best: Option<string>)
    requires best.None? <==> forall id :: !WasBinding(t, user, kind, id)
    requires best.Some? ==> WasBinding(t, user, kind, best.value)
    requires best.Some? ==> forall id :: WasBinding(t, user, kind, id) ==> NoOlder(t[best.value], t[id])
    ensures Reuses(t, user, kind, freshId, if best.Some? then best.value else freshId)
  {
    var gone := set x | x in t && t[x].drive.status == Deleted && t[x].drive.user == user && t[x].drive.kind == kind;
    assert forall x :: x in gone <==> WasBinding(t, user, kind, x);
  }

  /** `t'` is `t` with a new or reused row at `id`, which is then the only active drive of the user and type. */
  ghost predicate Binds(t: Table, t': Table, id: string,
                        user: string, name: string, kind: string, config: Config, now: int)
  {
    && t'.Keys == t.Keys + {id} && (forall x :: x in t && x != id ==> t'[x] == t[x])
    && t'[id].updatedAt == now
    && var d := t'[id].drive;
    && d.id == id && d.user == user && d.name == name && d.kind == kind && d.config == config
    && d.remoteFolder == None && d.status == Active && !d.isDefault
    && d.createdAt == (if id in t then t[id].drive.createdAt else now)
    && forall x :: x in t' && t'[x].drive.status == Active && t'[x].drive.user == user && t'[x].drive.kind == kind ==>
         x == id
  }

  lemma BoundBinds(t: Table, id: string, user: string, name: string, kind: string, config: Config, now: int)
    requires !HasBinding(t, user, kind)
    ensures Binds(t, t[id := Bound(t, id, user, name, kind, config, now)], id, user, name, kind, config, now)
  {
    var t' := t[id := Bound(t, id, user, name, kind, config, now)];
    forall x | x in t' && t'[x].drive.status == Active && t'[x].drive.user == user && t'[x].drive.kind == kind
      ensures x == id
    {
      assert x != id ==> IsActive(t, x);
    }
  }

  /** What later readers see of a new binding: it is there, once, as it was passed, up to the mark of its password. */
  lemma BindingIsFound(t: Table, t': Table, id: string,
                       user: string, name: string, kind: string, config: Config, now: int, later: int, ds: seq<Drive>)
    requires Lawful(t') && Binds(t, t', id, user, name, kind, config, now)
    requires Answers(MarkRows(t', ActiveIds(t', user), later), user, ds)
    ensures var found := MarkRows(t', {id}, later)[id].drive;
            && found in ds && (forall d :: d in ds && d.kind == kind ==> d == found)
            && found.status == Active && found.user == user && found.name == name && found.kind == kind
            && found.remoteFolder == None && !found.isDefault
            && found.config.pass == config.pass && found.config.rest == config.rest
            && (found.config == config
                || (found.config.format == Some(LegacyUnknown) && found.config.schemaVersion == 1))
  {
    var ids := ActiveIds(t', user);
    var marked := MarkRows(t', ids, later);
    assert id in ids && marked[id] == MarkRows(t', {id}, later)[id];
    MarkRowsLawful(t', ids, later);
    assert id in ActiveIds(marked, user);
    forall d | d in ds && d.kind == kind
      ensures d == marked[id].drive
    {
      assert d.id in t' && t'[d.id].drive.kind == kind;
    }
  }

  lemma BoundLawful(t: Table, id: string, user: string, name: string, kind: string, config: Config, now: int)
    requires Lawful(t) && id != "" && user != "" && now > 0 && !HasBinding(t, user, kind)
    requires id in t ==> t[id].drive.status == Deleted && t[id].drive.user == user
    ensures Lawful(t[id := Bound(t, id, user, name, kind, config, now)])
  {
    var t' := t[id := Bound(t, id, user, name, kind, config, now)];
    forall a, b | SameBinding(t', a, b)
      ensures a == b
    {
      assert a != id && b != id ==> SameBinding(t, a, b);
      assert a != id && b == id ==> HasBinding(t, user, kind);
      assert a == id && b != id ==> HasBinding(t, user, kind);
    }
    assert forall a :: IsDefault(t', a) ==> IsDefault(t, a);
  }

  /** Binding a row keeps the caches right once the user's lists are dropped and the row is put under its identifier. */
  lemma BoundKeepsCaches(t: Table, id: string, user: string, name: string, kind: string, config: Config, now: int,
                         byUser: map<string, seq<Drive>>, byLocal: map<string, seq<Drive>>, byId: map<string, Drive>)
    requires Lawful(t) && UsersAgree(t, byUser) && UsersAgree(t, byLocal) && IdsAgree(t, byId)
    requires id != "" && user != "" && now > 0 && !HasBinding(t, user, kind)
    requires id in t ==> t[id].drive.status == Deleted && t[id].drive.user == user
    ensures var row := Bound(t, id, user, name, kind, config, now);
            var t' := t[id := row];
            Lawful(t') && UsersAgree(t', byUser - {user}) && UsersAgree(t', byLocal - {user})
            && IdsAgree(t', byId[id := row.drive])
  {
    var row := Bound(t, id, user, name, kind, config, now);
    BoundLawful(t, id, user, name, kind, config, now);
    OneRowTouched(t, id, row);
    hide Lawful, UsersAgree, OthersSame, RestSame;
    ClearedCachesAgree(t, t[id := row], user, {id}, byUser, byLocal, byId);
  }

  lemma OneRowTouched(t: Table, id: string, row: Row)
    requires id in t ==> t[id].drive.user == row.drive.user
    ensures OthersSame(t, t[id := row], row.drive.user) && RestSame(t, t[id := row], {id})
  {
  }

  // ----- The repository -----

  datatype Reply<T> = Reply(value: T) | Thrown

  class DriveRepository {
    var d1: Table
    var cacheByUser: map<string, seq<Drive>>
    var cacheById: map<string, Drive>
    var cacheActive: Option<seq<string>>
    var localByUser: map<string, seq<Drive>>

    /** The table obeys its laws and every cache entry agrees with it. */
    ghost predicate Valid()
      reads this
    {
      && Lawful(d1) && UsersAgree(d1, cacheByUser) && UsersAgree(d1, localByUser)
      && IdsAgree(d1, cacheById) && ActiveAgrees(d1, cacheActive)
    }

    constructor (t: Table)
      requires Lawful(t)
      ensures Valid() && d1 == t
    {
      d1, cacheByUser, cacheById, cacheActive, localByUser := t, map[], map[], None, map[];
    }

    method ClearUserDriveCache(userId: string, driveIds: set<string>)
      modifies `cacheByUser, `cacheById, `cacheActive, `localByUser
      ensures userId == "" ==> cacheByUser == old(cacheByUser) && cacheById == old(cacheById)
                               && cacheActive == old(cacheActive) && localByUser == old(localByUser)
      ensures userId != "" ==> cacheByUser == old(cacheByUser) - {userId} && localByUser == old(localByUser) - {userId}
                               && cacheById == old(cacheById) - driveIds && cacheActive == None
    {
      if userId == "" { return; }
      cacheByUser := cacheByUser - {userId};
      cacheActive := None;
      cacheById := cacheById - driveIds;
      localByUser := localByUser - {userId};
    }

    /** The query for the identifiers of all active drives. */
    method SelectActiveIds() returns (activeIds: seq<string>)
      requires Lawful(d1)
      ensures ListsActive(d1, activeIds)
    {
      var drives := Select(NewestFirst, d1, AllActive(d1));
      activeIds := seq(|drives|, i requires 0 <= i < |drives| => drives[i].id);
      assert forall i :: 0 <= i < |drives| ==> drives[i] in drives;
      forall id | id in AllActive(d1)
        ensures id in activeIds
      {
        var i :| 0 <= i < |drives| && drives[i] == d1[id].drive;
        assert activeIds[i] == id;
      }
    }

    method UpdateActiveDrivesList()
      requires Lawful(d1)
      modifies `cacheActive
      ensures ActiveAgrees(d1, cacheActive)
    {
      var activeIds := SelectActiveIds();
      cacheActive := Some(activeIds);
    }

    method MigrateLegacyPasswordFormat(drive: Drive, now: int) returns (r: Drive)
      requires Valid() && IsActive(d1, drive.id) && d1[drive.id].drive == drive
      modifies this
      ensures Valid() && d1 == MarkRows(old(d1), {drive.id}, now)
      ensures r == if NeedsMark(drive) then Marked(drive) else drive
    {
      if !NeedsMark(drive) {
        assert d1 == MarkRows(d1, {drive.id}, now);
        return drive;
      }
      ghost var before := d1;
      MarkRowsLawful(d1, {drive.id}, now);
      d1 := d1[drive.id := Row(Marked(drive), now)];
      assert d1 == MarkRows(before, {drive.id}, now);
      ClearedCachesAgree(before, d1, drive.user, {drive.id}, cacheByUser, localByUser, cacheById);
      ClearUserDriveCache(drive.user, {drive.id});
      return Marked(drive);
    }

    method MigrateLegacyPasswordFormats(drives: seq<Drive>, now: int) returns (migrated: seq<Drive>)
      requires Valid() && Sorted(DefaultFirst, drives)
      requires forall d :: d in drives ==> IsActive(d1, d.id) && d1[d.id].drive == d
      modifies this
      ensures Valid() && d1 == MarkRows(old(d1), Ids(drives), now) && migrated == MarkedList(drives)
    {
      hide Valid, MarkRows;
      migrated := [];
      MarkNothing(d1, Ids(drives[..0]), now);
      for i := 0 to |drives|
        invariant Valid() && d1 == MarkRows(old(d1), Ids(drives[..i]), now)
        invariant migrated == MarkedList(drives)[..i]
      {
        assert forall d :: d in drives[..i] ==> d.id != drives[i].id;
        assert drives[i] in drives;
        MarkRowsStep(old(d1), Ids(drives[..i]), drives[i].id, now);
        var r := MigrateLegacyPasswordFormat(drives[i], now);
        assert Ids(drives[..i + 1]) == Ids(drives[..i]) + {drives[i].id};
        migrated := migrated + [r];
      }
      assert drives[..|drives|] == drives;
    }

    method FindDriveInD1(userId: string, now: int) returns (drives: seq<Drive>)
      requires Valid()
      modifies this
      ensures Valid() && d1 == MarkRows(old(d1), ActiveIds(old(d1), userId), now) && Answers(d1, userId, drives)
    {
      hide MarkRows, UsersAgree, IdsAgree, ActiveAgrees;
      var ids := ActiveIds(d1, userId);
      var result := Select(DefaultFirst, d1, ids);
      AnswerIds(d1, userId, result);
      MarkedListAnswers(d1, userId, result, now);
      drives := MigrateLegacyPasswordFormats(result, now);
    }

    /** Read-through: wherever the answer comes from, it is one the table itself would give. */
    method FindByUserId(userId: string, skipCache: bool, now: int) returns (drives: seq<Drive>)
      requires Valid()
      modifies this
      ensures Valid()
      ensures userId == "" ==> drives == [] && d1 == old(d1)
      ensures userId != "" ==> d1 == MarkRows(old(d1), ActiveIds(old(d1), userId), now) && Answers(d1, userId, drives)
    {
      hide MarkRows, Lawful, IdsAgree, ActiveAgrees, Answers;
      if userId == "" { return []; }
      if skipCache {
        drives := FindDriveInD1(userId, now);
        return;
      }
      if userId in localByUser && localByUser[userId] != [] {
        drives := MigrateAnswer(userId, localByUser[userId], now);
        return;
      }
      localByUser := localByUser - {userId};
      if userId in cacheByUser && cacheByUser[userId] != [] {
        drives := MigrateAnswer(userId, cacheByUser[userId], now);
        localByUser := localByUser[userId := drives];
        return;
      }
      cacheByUser := cacheByUser - {userId};
      drives := FindDriveInD1(userId, now);
      if drives != [] {
        cacheByUser := cacheByUser[userId := drives];
        localByUser := localByUser[userId := drives];
      }
    }

    /** The migration of a list that agrees with the table. */
    method MigrateAnswer(userId: string, ds: seq<Drive>, now: int) returns (drives: seq<Drive>)
      requires Valid() && Answers(d1, userId, ds)
      modifies this
      ensures Valid() && d1 == MarkRows(old(d1), ActiveIds(old(d1), userId), now) && Answers(d1, userId, drives)
    {
      hide MarkRows, UsersAgree, IdsAgree, ActiveAgrees;
      AnswerIds(d1, userId, ds);
      MarkedListAnswers(d1, userId, ds, now);
      drives := MigrateLegacyPasswordFormats(ds, now);
    }

    method FindById(driveId: string, now: int) returns (r: Option<Drive>)
      requires Valid()
      modifies this
      ensures Valid() && d1 == MarkRows(old(d1), {driveId}, now)
      ensures r == if driveId in d1 && d1[driveId].drive.status == Active then Some(d1[driveId].drive) else None
    {
      if driveId == "" {
        MarkNothing(d1, {driveId}, now);
        return None;
      }
      if driveId in cacheById {
        var drive := MigrateLegacyPasswordFormat(cacheById[driveId], now);
        return Some(drive);
      }
      if !IsActive(d1, driveId) {
        MarkNothing(d1, {driveId}, now);
        return None;
      }
      var drive := MigrateLegacyPasswordFormat(d1[driveId].drive, now);
      cacheById := cacheById[driveId := drive];
      return Some(drive);
    }

    method FindByUserAndId(userId: string, driveId: string, now: int) returns (r: Option<Drive>)
      requires Valid()
      modifies this
      ensures Valid() && d1 == MarkRows(old(d1), if userId == "" then {} else {driveId}, now)
      ensures r == if userId != "" && IsActive(d1, driveId) && d1[driveId].drive.user == userId
                   then Some(d1[driveId].drive) else None
    {
      hide MarkRows, Valid;
      if userId == "" {
        MarkNothing(d1, {}, now);
        return None;
      }
      r := FindById(driveId, now);
      if r.Some? && r.value.user != userId { r := None; }
    }

    /** The default drive is the one marked so, or else a newest one, exactly as the table has it. */
    method GetDefaultDrive(userId: string, now: int) returns (r: Option<Drive>)
      requires Valid()
      modifies this
      ensures Valid() && d1 == if userId == "" then old(d1) else MarkRows(old(d1), ActiveIds(old(d1), userId), now)
      ensures r.None? <==> userId == "" || ActiveIds(d1, userId) == {}
      ensures r.Some? ==> r.value.id in ActiveIds(d1, userId) && d1[r.value.id].drive == r.value
      ensures r.Some? ==> forall id :: id in ActiveIds(d1, userId) ==> ListedBefore(DefaultFirst, r.value, d1[id].drive)
    {
      hide MarkRows, Lawful, UsersAgree, IdsAgree, ActiveAgrees;
      var drives := FindByUserId(userId, false, now);
      MarkRowsLawful(old(d1), ActiveIds(old(d1), userId), now);
      if drives == [] {
        if userId != "" { MarkNothing(d1, ActiveIds(d1, userId), now); }
        drives := FindByUserId(userId, true, now);
        if drives == [] { return None; }
      }
      for i := 0 to |drives|
        invariant forall k :: 0 <= k < i ==> !drives[k].isDefault
      {
        if drives[i].isDefault {
          FirstListed(d1, userId, drives, i);
          return Some(drives[i]);
        }
      }
      FirstListed(d1, userId, drives, 0);
      return Some(drives[0]);
    }

    /** Among the deleted drives of the user and type, one touched last. */
    method NewestDeleted(userId: string, kind: string) returns (best: Option<string>)
      ensures best.None? <==> forall id :: !WasBinding(d1, userId, kind, id)
      ensures best.Some? ==> WasBinding(d1, userId, kind, best.value)
      ensures best.Some? ==> forall id :: WasBinding(d1, userId, kind, id) ==> NoOlder(d1[best.value], d1[id])
    {
      var rest := set id | id in d1 && WasBinding(d1, userId, kind, id);
      ghost var all := rest;
      best := None;
      while rest != {}
        invariant rest <= all && (best.None? <==> rest == all)
        invariant best.Some? ==> best.value in all && forall id :: id in all - rest ==> NoOlder(d1[best.value], d1[id])
      {
        var id :| id in rest;
        if best.None? || NoOlder(d1[id], d1[best.value]) { best := Some(id); }
        rest := rest - {id};
      }
      assert forall id :: WasBinding(d1, userId, kind, id) ==> id in all;
    }

    method FindActiveBinding(userId: string, kind: string) returns (found: bool)
      ensures found <==> HasBinding(d1, userId, kind)
    {
      var existing := set id | id in d1 && IsActive(d1, id) && d1[id].drive.user == userId && d1[id].drive.kind == kind;
      if HasBinding(d1, userId, kind) {
        ghost var id :| IsActive(d1, id) && d1[id].drive.user == userId && d1[id].drive.kind == kind;
        assert id in existing;
      }
      return existing != {};
    }

    method Create(userId: string, name: string, kind: string, configData: Option<Config>, freshId: string, now: int)
      returns (r: Reply<bool>)
      requires Valid() && freshId != "" && freshId !in d1 && now > 0
      modifies this
      ensures Valid()
      ensures r.Thrown? <==> userId == "" || name == "" || configData.None? || HasBinding(old(d1), userId, kind)
      ensures r.Thrown? ==> d1 == old(d1)
      ensures r.Reply? ==> r.value && exists id ::
                && Reuses(old(d1), userId, kind, freshId, id)
                && Binds(old(d1), d1, id, userId, name, kind, configData.value, now)
                && cacheById == old(cacheById)[id := d1[id].drive]
    {
      hide Lawful, UsersAgree, IdsAgree, ActiveAgrees, HasBinding, Bound, Binds;
      NoEmptyId(d1);
      if userId == "" || name == "" || configData.None? { return Thrown; }
      var existing := FindActiveBinding(userId, kind);
      if existing { return Thrown; }
      var deleted := NewestDeleted(userId, kind);
      var id := if deleted.Some? then deleted.value else freshId;
      NewestIsReused(d1, userId, kind, freshId, deleted);
      BoundBinds(d1, id, userId, name, kind, configData.value, now);
      var row := Bound(d1, id, userId, name, kind, configData.value, now);
      assert id != "";
      BoundKeepsCaches(d1, id, userId, name, kind, configData.value, now, cacheByUser, localByUser, cacheById);
      d1 := d1[id := row];
      cacheById := cacheById[id := row.drive];
      ghost var byId := cacheById;
      ClearUserDriveCache(userId, {});
      assert byId - {} == byId;
      UpdateActiveDrivesList();
      return Reply(true);
    }

    method UpdateConfigData(userId: string, driveId: string, configData: Option<Config>, now: int)
      returns (r: Reply<bool>)
      requires Valid()
      modifies this
      ensures Valid()
      ensures r.Thrown? <==> userId == "" || driveId == "" || configData.None?
      ensures d1 == if r.Thrown? then old(d1) else Reconfigured(old(d1), userId, driveId, configData.value, now)
      ensures r.Reply? ==> r.value && d1.Keys == old(d1).Keys
      ensures forall id :: id in d1 && id in old(d1) && id != driveId ==> d1[id] == old(d1)[id]
      ensures r.Reply? && driveId in d1 ==>
                var was, row := old(d1)[driveId], d1[driveId];
                if was.drive.status == Active && was.drive.user == userId
                then row.drive == was.drive.(config := configData.value) && row.updatedAt == now
                else row == was
    {
      if userId == "" || driveId == "" || configData.None? { return Thrown; }
      ghost var before := d1;
      ReconfiguredLawful(d1, userId, driveId, configData.value, now);
      if IsActive(d1, driveId) && d1[driveId].drive.user == userId {
        d1 := d1[driveId := Row(d1[driveId].drive.(config := configData.value), now)];
      }
      ClearedCachesAgree(before, d1, userId, {driveId}, cacheByUser, localByUser, cacheById);
      ClearUserDriveCache(userId, {driveId});
      return Reply(true);
    }

    /** Row by row, with the caches stale in between and right again at the end. */
    method DeleteByUserId(userId: string, now: int)
      requires Valid()
      modifies this
      ensures Valid()
      ensures userId == "" ==> d1 == old(d1)
      ensures userId != "" ==>
                var ids := ActiveIds(old(d1), userId); d1 == DeleteRows(MarkRows(old(d1), ids, now), ids, now)
    {
      hide MarkRows, DeleteRows, Lawful, UsersAgree, IdsAgree, OthersSame, RestSame;
      if userId == "" { return; }
      var drives := FindDriveInD1(userId, now);
      MarkRowsLawful(old(d1), ActiveIds(old(d1), userId), now);
      AnswerIds(d1, userId, drives);
      ghost var before, byId := d1, cacheById;
      DeleteRowsLawful(before, Ids(drives), userId, now);
      assert Ids(drives[..0]) == {};
      if drives != [] {
        DeleteEach(drives, now);
        UpdateActiveDrivesList();
      } else {
        DeleteNothing(d1, now);
      }
      ClearedCachesAgree(before, d1, userId, Ids(drives), cacheByUser, localByUser, byId);
      ClearUserDriveCache(userId, Ids(drives));
      assert byId - Ids(drives) == cacheById;
    }

    method DeleteEach(drives: seq<Drive>, now: int)
      requires forall d :: d in drives ==> d.id in d1
      modifies `d1, `cacheById
      ensures d1 == DeleteRows(old(d1), Ids(drives), now) && cacheById == old(cacheById) - Ids(drives)
    {
      assert d1 == DeleteRows(d1, Ids(drives[..0]), now);
      hide DeleteRows;
      for i := 0 to |drives|
        invariant d1 == DeleteRows(old(d1), Ids(drives[..i]), now) && cacheById == old(cacheById) - Ids(drives[..i])
      {
        var id := drives[i].id;
        assert Ids(drives[..i + 1]) == Ids(drives[..i]) + {id};
        assert drives[i] in drives;
        DeleteRowsStep(old(d1), Ids(drives[..i]), id, now);
        d1 := d1[id := Row(d1[id].drive.(status := Deleted, isDefault := false), now)];
        cacheById := cacheById - {id};
      }
      assert drives[..|drives|] == drives;
    }

    method Delete(userId: string, driveId: string, now: int) returns (deleted: bool)
      requires Valid()
      modifies this
      ensures Valid()
      ensures deleted <==> userId != "" && driveId in ActiveIds(old(d1), userId)
      ensures var marked := MarkRows(old(d1), if userId == "" then {} else {driveId}, now);
              d1 == if deleted then DeleteRows(marked, {driveId}, now) else marked
    {
      hide MarkRows, DeleteRows, Lawful, UsersAgree, IdsAgree, OthersSame, RestSame;
      NoEmptyId(d1);
      if userId == "" || driveId == "" {
        MarkNothing(d1, if userId == "" then {} else {driveId}, now);
        return false;
      }
      MarkRowsLawful(d1, {driveId}, now);
      var drive := FindByUserAndId(userId, driveId, now);
      if drive.None? { return false; }
      ghost var before := d1;
      DeleteRowsLawful(d1, {driveId}, userId, now);
      d1 := d1[driveId := Row(d1[driveId].drive.(status := Deleted, isDefault := false), now)];
      DeleteOne(before, driveId, now);
      ClearedCachesAgree(before, d1, userId, {driveId}, cacheByUser, localByUser, cacheById);
      ClearUserDriveCache(userId, {driveId});
      UpdateActiveDrivesList();
      return true;
    }

    /** The one writer that trusts its caller for the owner: the caches stay right exactly when that is harmless. */
    method UpdateRemoteFolder(driveId: string, remoteFolder: Option<string>, userId: string, now: int)
      requires Valid()
      modifies this
      ensures d1 == WithFolder(old(d1), driveId, remoteFolder, now) && cacheActive == old(cacheActive)
      ensures if driveId == "" || userId == ""
              then cacheByUser == old(cacheByUser) && localByUser == old(localByUser) && cacheById == old(cacheById)
              else cacheByUser == old(cacheByUser) - {userId} && localByUser == old(localByUser) - {userId}
                   && cacheById == old(cacheById) - {driveId}
      ensures Valid() <==> !IsActive(old(d1), driveId) || old(d1)[driveId].drive.remoteFolder == remoteFolder
                           || var owner := old(d1)[driveId].drive.user;
                              owner == userId
                              || (owner !in old(cacheByUser) && owner !in old(localByUser)
                                  && (userId != "" || driveId !in old(cacheById)))
    {
      assert driveId == "" ==> driveId !in d1;
      if driveId == "" { return; }
      ghost var before := d1;
      if driveId in d1 { d1 := d1[driveId := Row(d1[driveId].drive.(remoteFolder := remoteFolder), now)]; }
      if userId != "" {
        cacheByUser := cacheByUser - {userId};
        cacheById := cacheById - {driveId};
        localByUser := localByUser - {userId};
      }
      FolderKeepsTheRest(before, driveId, remoteFolder, now, cacheByUser, localByUser, cacheById);
      FolderKeepsActive(before, driveId, remoteFolder, now, cacheActive);
    }

    /** Its only caller: the folder of the user's own default drive. The owner is passed, so the caches stay right. */
    method SetUserUploadPath(userId: string, path: Option<string>, now: int) returns (r: Reply<string>)
      requires Valid()
      modifies this
      ensures Valid()
      ensures r.Thrown? <==> userId == "" || ActiveIds(old(d1), userId) == {}
      ensures r.Thrown? ==> d1 == old(d1)
      ensures r.Reply? ==>
                var t := MarkRows(old(d1), ActiveIds(old(d1), userId), now);
                && d1 == WithFolder(t, r.value, path, now) && r.value in ActiveIds(t, userId)
                && forall id :: id in ActiveIds(t, userId) ==> ListedBefore(DefaultFirst, t[r.value].drive, t[id].drive)
    {
      hide Lawful, MarkRows, UsersAgree, IdsAgree, ActiveAgrees;
      MarkRowsLawful(d1, ActiveIds(d1, userId), now);
      MarkNothing(d1, {}, now);
      var activeDrive := GetDefaultDrive(userId, now);
      if activeDrive.None? { return Thrown; }
      UpdateRemoteFolder(activeDrive.value.id, path, userId, now);
      return Reply(activeDrive.value.id);
    }

    /** The UPDATE of the default marks, row by row in whatever order the database visits them. The unique index on
        active defaults is checked at each row; a violation undoes the statement. */
    method UpdateDefaults(userId: string, chosen: Option<string>, order: seq<string>, now: int) returns (ok: bool)
      requires Visits(d1, order)
      modifies `d1
      ensures ok <==> !SwapRejected(old(d1), userId, chosen, order)
      ensures d1 == if ok then WithDefault(old(d1), userId, chosen, now) else old(d1)
    {
      hide Partly, WithDefault, BlockedAt;
      var before := d1;
      PartlyNone(before, userId, chosen, now);
      for i := 0 to |order|
        invariant d1 == Partly(before, userId, chosen, order[..i], now)
        invariant forall k :: 0 <= k < i ==> !BlockedAt(before, userId, chosen, order, k)
      {
        var id := order[i];
        assert order[..i + 1] == order[..i] + [id] && id in order && id !in order[..i];
        PartlyStep(before, userId, chosen, order[..i], id, now);
        if IsActive(d1, id) && d1[id].drive.user == userId {
          BlockedNow(before, userId, chosen, order, i, now);
          if chosen == Some(id) && exists k :: k in d1 && k != id && OtherDefault(d1, userId, k) {
            d1 := before;
            return false;
          }
          d1 := d1[id := Row(d1[id].drive.(isDefault := chosen == Some(id)), now)];
        } else {
          NotBlocked(before, userId, chosen, order, i);
        }
      }
      assert order[..|order|] == order;
      PartlyAll(before, userId, chosen, order, now);
      return true;
    }

    /** Throws as well when the database comes to the new default before the old one. */
    method SetDefaultDrive(userId: string, driveId: string, order: seq<string>, now: int) returns (r: Reply<bool>)
      requires Valid() && Visits(d1, order)
      modifies this
      ensures Valid()
      ensures r.Thrown? <==> userId == "" || driveId !in ActiveIds(old(d1), userId)
                             || SwapRejected(old(d1), userId, Some(driveId), order)
      ensures userId != "" && driveId in ActiveIds(old(d1), userId) && r.Thrown? ==>
                exists k :: k != driveId && OtherDefault(old(d1), userId, k)
      ensures var marked := MarkRows(old(d1), ActiveIds(old(d1), userId), now);
              d1 == if r.Reply? then WithDefault(marked, userId, Some(driveId), now)
                    else if userId == "" || driveId !in ActiveIds(old(d1), userId) then old(d1) else marked
      ensures r.Reply? ==> r.value
    {
      hide MarkRows, Lawful, UsersAgree, IdsAgree, OthersSame, RestSame, SwapRejected;
      NoEmptyId(d1);
      if userId == "" || driveId == "" { return Thrown; }
      if !(IsActive(d1, driveId) && d1[driveId].drive.user == userId) { return Thrown; }
      var ok := ChooseDefault(userId, Some(driveId), order, now);
      if !ok {
        RejectedMeansDefault(old(d1), userId, driveId, order);
        return Thrown;
      }
      UpdateActiveDrivesList();
      return Reply(true);
    }

    method ClearDefaultDrive(userId: string, order: seq<string>, now: int)
      requires Valid() && Visits(d1, order)
      modifies this
      ensures Valid()
      ensures userId == "" ==> d1 == old(d1)
      ensures userId != "" ==> d1 == WithDefault(MarkRows(old(d1), ActiveIds(old(d1), userId), now), userId, None, now)
    {
      if userId == "" { return; }
      var ok := ChooseDefault(userId, None, order, now);
    }

    /** The query, the update of the marks and the clearing that both writers of the default share. */
    method ChooseDefault(userId: string, chosen: Option<string>, order: seq<string>, now: int) returns (ok: bool)
      requires Valid() && Visits(d1, order) && userId != ""
      modifies this
      ensures Valid() && (ok <==> !SwapRejected(old(d1), userId, chosen, order))
      ensures var marked := MarkRows(old(d1), ActiveIds(old(d1), userId), now);
              d1 == if ok then WithDefault(marked, userId, chosen, now) else marked
    {
      hide MarkRows, UsersAgree, OthersSame, RestSame, SwapRejected;
      var drives := FindDriveInD1(userId, now);
      AnswerIds(d1, userId, drives);
      ghost var before := d1;
      MarkedSwap(old(d1), userId, chosen, order, now);
      WithDefaultLawful(d1, userId, chosen, now);
      WithDefaultTouchesOnly(d1, userId, chosen, now);
      ok := UpdateDefaults(userId, chosen, order, now);
      if ok {
        ClearedCachesAgree(before, d1, userId, Ids(drives), cacheByUser, localByUser, cacheById);
        ClearUserDriveCache(userId, Ids(drives));
      }
    }

    /** All active drives, from the cached list of identifiers or from the table. */
    method FindAll(now: int) returns (drives: seq<Drive>)
      requires Valid()
      modifies this
      ensures Valid() && d1 == MarkRows(old(d1), old(d1).Keys, now) && Lists(NewestFirst, d1, AllActive(d1), drives)
    {
      hide MarkRows, UsersAgree, IdsAgree;
      var activeIds := if cacheActive.Some? then cacheActive.value else [];
      if activeIds == [] {
        activeIds := SelectActiveIds();
        if activeIds != [] { cacheActive := Some(activeIds); }
      }
      drives := FindEach(activeIds, now);
      assert forall id :: id in activeIds <==> id in Firsts(activeIds, |activeIds|);
      MarkAllActive(old(d1), Firsts(activeIds, |activeIds|), now);
      ListedDrives(old(d1), d1, activeIds, drives) by { MarkRowsShape(old(d1), old(d1).Keys, now); }
    }

    method FindEach(activeIds: seq<string>, now: int) returns (drives: seq<Drive>)
      requires Valid() && forall id :: id in activeIds ==> IsActive(d1, id)
      modifies this
      ensures Valid() && d1 == MarkRows(old(d1), Firsts(activeIds, |activeIds|), now) && |drives| == |activeIds|
      ensures forall k :: 0 <= k < |drives| ==> IsActive(d1, activeIds[k]) && drives[k] == d1[activeIds[k]].drive
    {
      hide MarkRows, Valid;
      drives := [];
      MarkNothing(d1, Firsts(activeIds, 0), now);
      for i := 0 to |activeIds|
        invariant Valid() && d1 == MarkRows(old(d1), Firsts(activeIds, i), now) && |drives| == i
        invariant forall k :: 0 <= k < i ==> IsActive(d1, activeIds[k]) && drives[k] == d1[activeIds[k]].drive
      {
        MarkRowsStep(old(d1), Firsts(activeIds, i), activeIds[i], now);
        assert Firsts(activeIds, i + 1) == Firsts(activeIds, i) + {activeIds[i]};
        assert activeIds[i] in activeIds && IsActive(old(d1), activeIds[i]);
        MarkedStays(old(d1), Firsts(activeIds, i), activeIds[i], now);
        assert forall k :: 0 <= k < i ==> activeIds[k] in activeIds && activeIds[k] in Firsts(activeIds, i);
        var drive := FindById(activeIds[i], now);
        if drive.Some? { drives := drives + [drive.value]; }
      }
    }
  }

  /** Reading the listed rows one by one gives the answer of a query for all of them. */
  lemma ListedDrives(t: Table, t': Table, ids: seq<string>, ds: seq<Drive>)
    requires Lawful(t') && SameShape(t, t') && ListsActive(t, ids) && |ds| == |ids|
    requires forall k :: 0 <= k < |ds| ==> IsActive(t', ids[k]) && ds[k] == t'[ids[k]].drive
    ensures Lists(NewestFirst, t', AllActive(t'), ds)
  {
    assert forall i, j :: 0 <= i < j < |ids| ==> ids[i] != ids[j] && CreatedBefore(t, ids[j], ids[i]);
    forall id | id in AllActive(t')
      ensures t'[id].drive in ds
    {
      assert IsActive(t, id);
      var k :| 0 <= k < |ids| && ids[k] == id;
      assert ds[k] == t'[id].drive;
    }
  }

  function Firsts(ids: seq<string>, n: nat): set<string>
    requires n <= |ids|
  {
    set k | 0 <= k < n :: ids[k]
  }

  /** After a folder change, entries of other users and other drives still agree; those of the owner never do. */
  lemma FolderKeepsTheRest(t: Table, id: string, folder: Option<string>, now: int,
                           byUser: map<string, seq<Drive>>, byLocal: map<string, seq<Drive>>, byId: map<string, Drive>)
    requires Lawful(t) && UsersAgree(t, byUser) && UsersAgree(t, byLocal) && IdsAgree(t, byId)
    ensures var t' := WithFolder(t, id, folder, now);
            Lawful(t') && (forall x :: IsActive(t', x) <==> IsActive(t, x))
            && ((UsersAgree(t', byUser) && UsersAgree(t', byLocal) && IdsAgree(t', byId))
                <==> (!IsActive(t, id) || t[id].drive.remoteFolder == folder
                      || (t[id].drive.user !in byUser && t[id].drive.user !in byLocal && id !in byId)))
  {
    var t' := WithFolder(t, id, folder, now);
    SameShapeLawful(t, t');
    hide Lawful, UsersAgree, IdsAgree;
    if id in t {
      FolderInUserCache(t, id, folder, now, byUser);
      FolderInUserCache(t, id, folder, now, byLocal);
      FolderInIdCache(t, id, folder, now, byId);
    }
  }

  lemma FolderKeepsActive(t: Table, id: string, folder: Option<string>, now: int, c: Option<seq<string>>)
    requires ActiveAgrees(t, c)
    ensures ActiveAgrees(WithFolder(t, id, folder, now), c)
  {
    var t' := WithFolder(t, id, folder, now);
    assert forall x :: IsActive(t', x) <==> IsActive(t, x);
    assert forall x, y :: CreatedBefore(t', x, y) <==> CreatedBefore(t, x, y);
  }

  // ----- What can go wrong -----

  const SAMPLE_CONFIG := Config("", None, CONFIG_SCHEMA_VERSION, "{}")

  function Sample(id: string, kind: string, isDefault: bool): Row {
    Row(Drive(id, "owner", "name", kind, SAMPLE_CONFIG, None, Active, isDefault, 1), 1)
  }

  /** The owner's list is cached and another user's identifier is passed to `UpdateRemoteFolder`: the cached lists,
      right before the folder change, are wrong after it, though that user's entry is dropped. */
  lemma StaleAfterForeignFolderChange() returns (t: Table, byUser: map<string, seq<Drive>>)
    ensures Lawful(t) && IsActive(t, "a") && t["a"].drive.user != "other" && UsersAgree(t, byUser)
    ensures !UsersAgree(WithFolder(t, "a", Some("/elsewhere"), 2), byUser - {"other"})
  {
    var row := Sample("a", "mega", false);
    t := map["a" := row];
    byUser := map["owner" := [row.drive]];
    assert ActiveIds(t, "owner") == {"a"};
    assert Answers(t, "owner", [row.drive]);
    FolderInUserCache(t, "a", Some("/elsewhere"), 2, byUser - {"other"});
  }

  /** A lawful table and an order in which the swap of its default is rejected. */
  lemma SwapCanBeRejected() returns (t: Table, order: seq<string>)
    ensures Lawful(t) && Visits(t, order) && IsActive(t, "b") && t["b"].drive.user == "owner"
    ensures SwapRejected(t, "owner", Some("b"), order)
  {
    t := map["a" := Sample("a", "mega", true), "b" := Sample("b", "pikpak", false)];
    order := ["b", "a"];
    assert OtherDefault(t, "owner", order[1]);
    assert BlockedAt(t, "owner", Some("b"), order, 0);
  }

  lemma FolderInIdCache(t: Table, id: string, folder: Option<string>, now: int, c: map<string, Drive>)
    requires IdsAgree(t, c) && id in t
    ensures IdsAgree(WithFolder(t, id, folder, now), c)
            <==> (!IsActive(t, id) || t[id].drive.remoteFolder == folder || id !in c)
  {
  }

  lemma FolderInUserCache(t: Table, id: string, folder: Option<string>, now: int, c: map<string, seq<Drive>>)
    requires Lawful(t) && UsersAgree(t, c) && id in t
    ensures UsersAgree(WithFolder(t, id, folder, now), c)
            <==> (!IsActive(t, id) || t[id].drive.remoteFolder == folder || t[id].drive.user !in c)
  {
    var t', u := WithFolder(t, id, folder, now), t[id].drive.user;
    SameShapeLawful(t, t');
    if IsActive(t, id) && t[id].drive.remoteFolder != folder && u in c {
      assert id in ActiveIds(t, u) && t[id].drive in c[u] && t[id].drive != t'[id].drive;
    } else {
      forall v | v in c
        ensures Answers(t', v, c[v])
      {
        assert forall x :: x in ActiveIds(t, v) ==> t[x].drive == t'[x].drive;
      }
    }
  }

  /** The query for a user, column by column: the default comes first, then the newest. */
  lemma AnswersExactly(t: Table, user: string, ds: seq<Drive>)
    requires Lawful(t)
    ensures Answers(t, user, ds) <==>
              && (forall d :: d in ds <==>
                    d.id in t && d == t[d.id].drive && d.status == Active && d.user == user)
              && forall i, j :: 0 <= i < j < |ds| ==>
                   && ds[i].id != ds[j].id
                   && (ds[j].isDefault ==> ds[i].isDefault)
                   && (ds[i].isDefault == ds[j].isDefault ==> ds[i].createdAt >= ds[j].createdAt)
  {
    if Answers(t, user, ds) {
      forall d: Drive | d.id in t && d == t[d.id].drive && d.status == Active && d.user == user
        ensures d in ds
      {
        assert d.id in ActiveIds(t, user);
      }
    }
  }

  /** The query for all drives, column by column. */
  lemma AllAnswersExactly(t: Table, ds: seq<Drive>)
    requires Lawful(t)
    ensures Lists(NewestFirst, t, AllActive(t), ds) <==>
              && (forall d :: d in ds <==> d.id in t && d == t[d.id].drive && d.status == Active)
              && forall i, j :: 0 <= i < j < |ds| ==> ds[i].id != ds[j].id && ds[i].createdAt >= ds[j].createdAt
  {
    if Lists(NewestFirst, t, AllActive(t), ds) {
      forall d: Drive | d.id in t && d == t[d.id].drive && d.status == Active
        ensures d in ds
      {
        assert d.id in AllActive(t);
      }
    }
  }

  /** Two answers to the same query list the same drives, in the same order unless two drives tie. */
  lemma {:induction false} AnswersCoincide(t: Table, user: string, a: seq<Drive>, b: seq<Drive>)
    requires Answers(t, user, a) && Answers(t, user, b)
    requires forall x, y ::
               x in a && y in a && ListedBefore(DefaultFirst, x, y) && ListedBefore(DefaultFirst, y, x) ==> x == y
    ensures a == b
  {
    assert forall d :: d in a ==> d in b;
    assert forall d :: d in b ==> d in a;
    SortedCoincide(a, b);
  }

  lemma TailMembers(a: seq<Drive>)
    requires Sorted(DefaultFirst, a) && a != []
    ensures Sorted(DefaultFirst, a[1..]) && forall d :: d in a[1..] <==> d in a && d != a[0]
  {
    assert a == [a[0]] + a[1..];
  }

  lemma {:induction false} SortedCoincide(a: seq<Drive>, b: seq<Drive>)
    requires Sorted(DefaultFirst, a) && Sorted(DefaultFirst, b) && forall d :: d in a <==> d in b
    requires forall x, y ::
               x in a && y in a && ListedBefore(DefaultFirst, x, y) && ListedBefore(DefaultFirst, y, x) ==> x == y
    ensures a == b
  {
    assert a != [] ==> a[0] in a;
    assert b != [] ==> b[0] in b;
    if a != [] {
      var j :| 0 <= j < |a| && a[j] == b[0];
      var k :| 0 <= k < |b| && b[k] == a[0];
      assert a[0] == b[0];
      TailMembers(a);
      TailMembers(b);
      SortedCoincide(a[1..], b[1..]);
    }
  }

  lemma AnswerIds(t: Table, user: string, ds: seq<Drive>)
    requires Lawful(t) && Answers(t, user, ds)
    ensures Ids(ds) == ActiveIds(t, user) && Sorted(DefaultFirst, ds)
    ensures forall d :: d in ds ==> IsActive(t, d.id) && t[d.id].drive == d
  {
    forall id | id in ActiveIds(t, user)
      ensures id in Ids(ds)
    {
      assert t[id].drive in ds && t[id].drive.id == id;
    }
  }

  /** The first default of an answer, or its head when it has none, comes before every drive of the user. */
  lemma FirstListed(t: Table, user: string, ds: seq<Drive>, i: nat)
    requires Answers(t, user, ds) && i < |ds|
    requires forall k :: 0 <= k < i ==> !ds[k].isDefault
    requires i == 0 || ds[i].isDefault
    ensures ds[i].id in ActiveIds(t, user) && t[ds[i].id].drive == ds[i]
    ensures forall id :: id in ActiveIds(t, user) ==> ListedBefore(DefaultFirst, ds[i], t[id].drive)
  {
    assert ds[i] in ds;
    forall id | id in ActiveIds(t, user)
      ensures ListedBefore(DefaultFirst, ds[i], t[id].drive)
    {
      var k :| 0 <= k < |ds| && ds[k] == t[id].drive;
      if k < i { assert false; }
    }
  }
}
