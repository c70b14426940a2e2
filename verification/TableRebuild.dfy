/** Rebuilding a table on a database without transactional DDL: single statements, a crash between any two of
    them, and a recovery that looks at which of three tables exist. */
module TableRebuild {
  import opened Wrappers

  datatype Db<R> = Db(main: Option<seq<R>>, temp: Option<seq<R>>, backup: Option<seq<R>>)

  datatype Name = Main | Temp | Backup

  /** `CopyRows` fills the temporary table from the main one through the row transform. */
  datatype Statement = Drop(name: Name) | DropIfExists(name: Name) | CreateTemp | CopyRows
                     | Rename(from: Name, to: Name) | CreateIndex

  function Get<R>(db: Db<R>, n: Name): Option<seq<R>> {
    match n case Main => db.main case Temp => db.temp case Backup => db.backup
  }

  function Put<R>(db: Db<R>, n: Name, t: Option<seq<R>>): Db<R> {
    match n case Main => db.(main := t) case Temp => db.(temp := t) case Backup => db.(backup := t)
  }

  function Map<R>(f: R -> R, s: seq<R>): (r: seq<R>)
    ensures |r| == |s| && forall i :: 0 <= i < |s| ==> r[i] == f(s[i])
  {
    seq(|s|, i requires 0 <= i < |s| => f(s[i]))
  }

  /** The effect of a statement, or None when the database rejects it. */
  function Exec<R>(db: Db<R>, s: Statement, f: R -> R): Option<Db<R>> {
    match s
    case Drop(n) => if Get(db, n).None? then None else Some(Put(db, n, None))
    case DropIfExists(n) => Some(Put(db, n, None))
    case CreateTemp => if db.temp.Some? then None else Some(db.(temp := Some([])))
    case CopyRows =>
      if db.main.None? || db.temp.None? then None else Some(db.(temp := Some(db.temp.value + Map(f, db.main.value))))
    case Rename(a, b) =>
      if Get(db, a).None? || Get(db, b).Some? then None else Some(Put(Put(db, a, None), b, Get(db, a)))
    case CreateIndex => Some(db)
  }

  /** The first `m` of the statements `ss`; None as soon as one is rejected. */
  function ExecFirst<R>(db: Db<R>, ss: seq<Statement>, f: R -> R, m: nat): Option<Db<R>>
    decreases |ss|
  {
    if m == 0 || ss == [] then Some(db)
    else match Exec(db, ss[0], f) case None => None case Some(d) => ExecFirst(d, ss[1..], f, m - 1)
  }

  function Indexes(n: nat): seq<Statement> {
    seq(n, i => CreateIndex)
  }

  function Rebuild(indexes: nat): seq<Statement> {
    [DropIfExists(Temp), CreateTemp, CopyRows, DropIfExists(Backup), Rename(Main, Backup), Rename(Temp, Main),
     Drop(Backup)]
    + Indexes(indexes)
  }

  /** The statements of the recovery; they depend only on which tables exist. */
  function Recovery<R>(db: Db<R>, indexes: nat): seq<Statement> {
    if db.main.None? && db.temp.Some? then
      [Rename(Temp, Main)] + ((if db.backup.Some? then [Drop(Backup)] else []) + Indexes(indexes))
    else if db.main.None? && db.backup.Some? then [Rename(Backup, Main)]
    else
      (if db.main.Some? && db.backup.Some? then [Drop(Backup)] else [])
      + (if db.main.Some? && db.temp.Some? then [Drop(Temp)] else [])
  }

  /** All statements of one call of the rebuild; promoting the temporary table ends it. */
  function Plan<R>(db: Db<R>, indexes: nat): seq<Statement> {
    Recovery(db, indexes) + (if db.main.None? && db.temp.Some? then [] else Rebuild(indexes))
  }

  // ----- The program -----

  class Database<R> {
    var main: Option<seq<R>>
    var temp: Option<seq<R>>
    var backup: Option<seq<R>>
    ghost var ran: seq<Statement>  // the statements the database has executed

    function State(): Db<R>
      reads this
    {
      Db(main, temp, backup)
    }

    constructor (db: Db<R>)
      ensures State() == db
    {
      main, temp, backup := db.main, db.temp, db.backup;
      ran := [];
    }

    /** One statement; the precondition is that the database accepts it. */
    method Run(s: Statement, f: R -> R)
      requires Exec(State(), s, f).Some?
      modifies this
      ensures Exec(old(State()), s, f) == Some(State()) && ran == old(ran) + [s]
    {
      ran := ran + [s];
      match s
      case Drop(n) => Store(n, None);
      case DropIfExists(n) => Store(n, None);
      case CreateTemp => temp := Some([]);
      case CopyRows => temp := Some(temp.value + Map(f, main.value));
      case Rename(a, b) =>
        var t := Get(State(), a);
        Store(a, None);
        Store(b, t);
      case CreateIndex =>
    }

    method Store(n: Name, t: Option<seq<R>>)
      modifies `main, `temp, `backup
      ensures State() == Put(old(State()), n, t)
    {
      match n
      case Main => main := t;
      case Temp => temp := t;
      case Backup => backup := t;
    }

    method RunStatements(indexes: nat, f: R -> R)
      modifies this
      ensures State() == old(State()) && ran == old(ran) + Indexes(indexes)
    {
      for i := 0 to indexes
        invariant State() == old(State()) && ran == old(ran) + Indexes(i)
      {
        Run(CreateIndex, f);
      }
    }

    /** Whether the temporary table was promoted, which ends the rebuild. */
    method CleanupTableRebuildArtifacts(indexes: nat, f: R -> R) returns (promoted: bool)
      modifies this
      ensures promoted == (old(main).None? && old(temp).Some?)
      ensures promoted ==> State() == Db(old(temp), None, None)
      ensures ran == old(ran) + Recovery(old(State()), indexes)
      ensures !promoted ==>
                State() == if old(main).Some? then Db(old(main), None, None) else Db(old(backup), None, None)
    {
      var tablePresent, temporaryPresent, backupPresent := main.Some?, temp.Some?, backup.Some?;
      if !tablePresent && temporaryPresent {
        Run(Rename(Temp, Main), f);
        if backupPresent { Run(Drop(Backup), f); }
        RunStatements(indexes, f);
        return true;
      }
      if !tablePresent && backupPresent {
        Run(Rename(Backup, Main), f);
        return false;
      }
      if tablePresent && backupPresent { Run(Drop(Backup), f); }
      if tablePresent && temporaryPresent { Run(Drop(Temp), f); }
      return false;
    }

    /** Without a crash the rebuild runs every statement without an error, whenever some table holds the rows. */
    method RebuildTableForD1(indexes: nat, f: R -> R)
      requires main.Some? || temp.Some? || backup.Some?
      modifies this
      ensures ran == old(ran) + Plan(old(State()), indexes)
      ensures temp.None? && backup.None? && main.Some?
      ensures main.value == if old(main).Some? then Map(f, old(main).value)
                            else if old(temp).Some? then old(temp).value
                            else Map(f, old(backup).value)
    {
      var promoted := CleanupTableRebuildArtifacts(indexes, f);
      if promoted { return; }
      ReplaceTable(indexes, f);
    }

    method ReplaceTable(indexes: nat, f: R -> R)
      requires main.Some?
      modifies this
      ensures ran == old(ran) + Rebuild(indexes)
      ensures State() == Db(Some(Map(f, old(main).value)), None, None)
    {
      Run(DropIfExists(Temp), f);
      Run(CreateTemp, f);
      Run(CopyRows, f);
      assert temp.value == Map(f, main.value);
      Run(DropIfExists(Backup), f);
      Run(Rename(Main, Backup), f);
      Run(Rename(Temp, Main), f);
      Run(Drop(Backup), f);
      RunStatements(indexes, f);
    }
  }

  // ----- Crashes and restarts -----

  /** One start of the rebuild with its transform: it is cut off after `survived` statements, or completes if it
      has no more than that many. */
  datatype Attempt<!R> = Attempt(transform: R -> R, survived: nat)

  function After<R>(db: Db<R>, a: Attempt<R>, indexes: nat): Option<Db<R>> {
    ExecFirst(db, Plan(db, indexes), a.transform, a.survived)
  }

  predicate Completes<R>(db: Db<R>, a: Attempt<R>, indexes: nat) {
    a.survived >= |Plan(db, indexes)|
  }

  function AfterAll<R>(db: Db<R>, attempts: seq<Attempt<R>>, indexes: nat): Option<Db<R>> {
    if attempts == [] then Some(db)
    else
      match AfterAll(db, attempts[..|attempts| - 1], indexes)
      case None => None
      case Some(d) => After(d, attempts[|attempts| - 1], indexes)
  }

  /** A transform leaves alone what any of the transforms has made of an original row. One transform, used over and
      over and idempotent on these rows, is the simplest case. */
  ghost predicate Settling<R(!new)>(attempts: seq<Attempt<R>>, original: seq<R>) {
    forall a, b, r: R :: a in attempts && b in attempts && r in original ==>
      a.transform(b.transform(r)) == b.transform(r)
  }

  /** `rows` is the original through one of the transforms. */
  ghost predicate Transformed<R(!new)>(rows: seq<R>, original: seq<R>, attempts: seq<Attempt<R>>) {
    exists a :: a in attempts && rows == Map(a.transform, original)
  }

  ghost predicate Stage<R(!new)>(rows: seq<R>, original: seq<R>, attempts: seq<Attempt<R>>) {
    rows == original || Transformed(rows, original, attempts)
  }

  /** No row is lost: the table holds them, or else the finished temporary table does, or else (only if the
      rebuild never got further) the backup the first start found. */
  ghost predicate Recoverable<R(!new)>(db: Db<R>, original: seq<R>, attempts: seq<Attempt<R>>) {
    match db
    case Db(Some(m), _, _) => Stage(m, original, attempts)
    case Db(None, Some(t), _) => Transformed(t, original, attempts)
    case Db(None, None, Some(b)) => b == original
    case _ => false
  }

  ghost predicate Finished<R(!new)>(db: Db<R>, original: seq<R>, attempts: seq<Attempt<R>>) {
    db.main.Some? && db.temp.None? && db.backup.None? && Transformed(db.main.value, original, attempts)
  }

  /** One more transform on a stage of the original is again one transform of the original. */
  lemma Settles<R(!new)>(rows: seq<R>, original: seq<R>, attempts: seq<Attempt<R>>, a: Attempt<R>)
    requires Settling(attempts, original) && a in attempts && Stage(rows, original, attempts)
    ensures Transformed(Map(a.transform, rows), original, attempts)
  {
    if rows != original {
      var b :| b in attempts && rows == Map(b.transform, original);
      forall i | 0 <= i < |original|
        ensures a.transform(rows[i]) == b.transform(original[i])
      {
        assert original[i] in original;
      }
      assert Map(a.transform, rows) == Map(b.transform, original);
    }
  }

  /** What holds before the statement `k` of the rebuild proper. */
  ghost predicate Before<R(!new)>(db: Db<R>, k: nat, rows: seq<R>, f: R -> R) {
    match k
    case 0 => db.main == Some(rows)
    case 1 => db.main == Some(rows) && db.temp == None
    case 2 => db.main == Some(rows) && db.temp == Some([])
    case 3 => db.main == Some(rows) && db.temp == Some(Map(f, rows))
    case 4 => db == Db(Some(rows), Some(Map(f, rows)), None)
    case 5 => db == Db(None, Some(Map(f, rows)), Some(rows))
    case 6 => db == Db(Some(Map(f, rows)), None, Some(rows))
    case _ => db == Db(Some(Map(f, rows)), None, None)
  }

  lemma {:induction false} RebuildPrefix<R(!new)>(db: Db<R>, k: nat, rows: seq<R>, indexes: nat, f: R -> R, m: nat)
    requires k <= |Rebuild(indexes)| && Before(db, k, rows, f)
    ensures var r := ExecFirst(db, Rebuild(indexes)[k..], f, m);
            var end := if k + m <= |Rebuild(indexes)| then k + m else |Rebuild(indexes)|;
            r.Some? && Before(r.value, end, rows, f)
    decreases m
  {
    var ss := Rebuild(indexes)[k..];
    if m > 0 && ss != [] {
      var s := ss[0];
      assert ss[1..] == Rebuild(indexes)[k + 1..];
      StatementStep(db, k, rows, indexes, f);
      RebuildPrefix(Exec(db, s, f).value, k + 1, rows, indexes, f, m - 1);
    }
  }

  lemma StatementStep<R(!new)>(db: Db<R>, k: nat, rows: seq<R>, indexes: nat, f: R -> R)
    requires k < |Rebuild(indexes)| && Before(db, k, rows, f)
    ensures var r := Exec(db, Rebuild(indexes)[k], f); r.Some? && Before(r.value, k + 1, rows, f)
  {
    if k == 2 {
      assert [] + Map(f, rows) == Map(f, rows);
    }
  }

  lemma {:induction false} IndexesKeep<R>(db: Db<R>, n: nat, f: R -> R, m: nat)
    ensures ExecFirst(db, Indexes(n), f, m) == Some(db)
    decreases n
  {
    if n > 0 && m > 0 {
      assert Indexes(n)[1..] == Indexes(n - 1);
      IndexesKeep(db, n - 1, f, m - 1);
    }
  }

  /** Running a first statement and then `rest`. */
  lemma ExecCons<R>(db: Db<R>, s: Statement, rest: seq<Statement>, f: R -> R, m: nat)
    requires m > 0
    ensures ExecFirst(db, [s] + rest, f, m)
         == match Exec(db, s, f) case None => None case Some(d) => ExecFirst(d, rest, f, m - 1)
  {
    assert ([s] + rest)[1..] == rest;
  }

  /** The rebuild proper, started on a stage of the original. */
  lemma RebuildSafe<R(!new)>(db: Db<R>, original: seq<R>, indexes: nat, attempts: seq<Attempt<R>>, a: Attempt<R>,
                             m: nat)
    requires Settling(attempts, original) && a in attempts && db.main.Some? && Stage(db.main.value, original, attempts)
    ensures var r := ExecFirst(db, Rebuild(indexes), a.transform, m);
            && r.Some? && Recoverable(r.value, original, attempts)
            && (m >= |Rebuild(indexes)| ==> Finished(r.value, original, attempts))
  {
    assert Rebuild(indexes)[0..] == Rebuild(indexes);
    RebuildPrefix(db, 0, db.main.value, indexes, a.transform, m);
    Settles(db.main.value, original, attempts, a);
  }

  /** One start of the rebuild from any recoverable state, cut off anywhere: no statement is rejected, the state
      stays recoverable, and a start that is not cut off finishes the job. */
  lemma AttemptSafe<R(!new)>(db: Db<R>, original: seq<R>, indexes: nat, attempts: seq<Attempt<R>>, a: Attempt<R>)
    requires Settling(attempts, original) && a in attempts && Recoverable(db, original, attempts)
    ensures var r := After(db, a, indexes);
            && r.Some? && Recoverable(r.value, original, attempts)
            && (Completes(db, a, indexes) ==> Finished(r.value, original, attempts))
  {
    var f, m, plan := a.transform, a.survived, Plan(db, indexes);
    if m == 0 {
    } else if db.main.None? && db.temp.Some? {
      PromotionSafe(db, original, indexes, attempts, a);
    } else if db.main.None? {
      ExecCons(db, Rename(Backup, Main), Rebuild(indexes), f, m);
      RebuildSafe(Db(db.backup, None, None), original, indexes, attempts, a, m - 1);
    } else {
      CleaningSafe(db, original, indexes, attempts, a);
    }
  }

  lemma PromotionSafe<R(!new)>(db: Db<R>, original: seq<R>, indexes: nat, attempts: seq<Attempt<R>>, a: Attempt<R>)
    requires db.main.None? && db.temp.Some? && Recoverable(db, original, attempts) && a.survived > 0
    ensures var r := After(db, a, indexes);
            && r.Some? && Recoverable(r.value, original, attempts)
            && (Completes(db, a, indexes) ==> Finished(r.value, original, attempts))
  {
    var f, m := a.transform, a.survived;
    var promoted := Db(db.temp, None, db.backup);
    if db.backup.Some? {
      assert Plan(db, indexes) == [Rename(Temp, Main)] + ([Drop(Backup)] + Indexes(indexes));
      ExecCons(db, Rename(Temp, Main), [Drop(Backup)] + Indexes(indexes), f, m);
      if m > 1 {
        ExecCons(promoted, Drop(Backup), Indexes(indexes), f, m - 1);
        IndexesKeep(Db(db.temp, None, None), indexes, f, m - 2);
      }
    } else {
      assert Plan(db, indexes) == [Rename(Temp, Main)] + Indexes(indexes);
      ExecCons(db, Rename(Temp, Main), Indexes(indexes), f, m);
      IndexesKeep(promoted, indexes, f, m - 1);
    }
  }

  lemma CleaningSafe<R(!new)>(db: Db<R>, original: seq<R>, indexes: nat, attempts: seq<Attempt<R>>, a: Attempt<R>)
    requires Settling(attempts, original) && a in attempts && a.survived > 0
    requires db.main.Some? && Recoverable(db, original, attempts)
    ensures var r := After(db, a, indexes);
            && r.Some? && Recoverable(r.value, original, attempts)
            && (Completes(db, a, indexes) ==> Finished(r.value, original, attempts))
  {
    var f, m, rest := a.transform, a.survived, Rebuild(indexes);
    var noBackup := Db(db.main, db.temp, None);
    if db.backup.Some? && db.temp.Some? {
      assert Plan(db, indexes) == [Drop(Backup)] + ([Drop(Temp)] + rest);
      ExecCons(db, Drop(Backup), [Drop(Temp)] + rest, f, m);
      if m > 1 {
        ExecCons(noBackup, Drop(Temp), rest, f, m - 1);
        RebuildSafe(Db(db.main, None, None), original, indexes, attempts, a, m - 2);
      }
    } else if db.backup.Some? {
      assert Plan(db, indexes) == [Drop(Backup)] + rest;
      ExecCons(db, Drop(Backup), rest, f, m);
      RebuildSafe(noBackup, original, indexes, attempts, a, m - 1);
    } else if db.temp.Some? {
      assert Plan(db, indexes) == [Drop(Temp)] + rest;
      ExecCons(db, Drop(Temp), rest, f, m);
      RebuildSafe(Db(db.main, None, None), original, indexes, attempts, a, m - 1);
    } else {
      assert Plan(db, indexes) == rest;
      RebuildSafe(db, original, indexes, attempts, a, m);
    }
  }

  /** However often the rebuild is cut off, between whichever statements, recovery included: no statement is ever
      rejected, no row is lost, and once a start completes the table holds the original rows through one of the
      transforms and both side tables are gone. */
  lemma {:induction false} CrashSafe<R(!new)>(db: Db<R>, original: seq<R>, indexes: nat, attempts: seq<Attempt<R>>,
                                              n: nat)
    requires Settling(attempts, original) && n <= |attempts|
    requires db.main == Some(original) || db == Db(None, None, Some(original))
    ensures var r := AfterAll(db, attempts[..n], indexes);
            && r.Some? && Recoverable(r.value, original, attempts)
            && (n > 0 ==>
                  var before := AfterAll(db, attempts[..n - 1], indexes);
                  && before.Some?
                  && (Completes(before.value, attempts[n - 1], indexes) ==> Finished(r.value, original, attempts)))
    decreases n
  {
    if n > 0 {
      CrashSafe(db, original, indexes, attempts, n - 1);
      assert attempts[..n][..n - 1] == attempts[..n - 1];
      AttemptSafe(AfterAll(db, attempts[..n - 1], indexes).value, original, indexes, attempts, attempts[n - 1]);
    }
  }

  // ----- One transform, any crashes -----

  /** The starts of one rebuild, cut off after `cuts[0]`, `cuts[1]`, ... statements. */
  function Starts<R>(f: R -> R, cuts: seq<nat>): seq<Attempt<R>> {
    seq(|cuts|, i requires 0 <= i < |cuts| => Attempt(f, cuts[i]))
  }

  /** If the last of the starts is not cut off, the rows end up transformed once and nothing else is left. */
  ghost predicate LeavesOnce<R(!new)>(f: R -> R, original: seq<R>, indexes: nat, cuts: seq<nat>)
    requires cuts != []
  {
    var starts, n := Starts(f, cuts), |cuts| - 1;
    var before := AfterAll(Db(Some(original), None, None), starts[..n], indexes);
    && before.Some?
    && (Completes(before.value, starts[n], indexes) ==>
          AfterAll(Db(Some(original), None, None), starts, indexes) == Some(Db(Some(Map(f, original)), None, None)))
  }

  /** Every schedule of crashes that completes leaves the rows transformed once if and only if the transform is
      idempotent on the rows it started from. */
  lemma OnceExactlyWhenIdempotent<R(!new)>(f: R -> R, original: seq<R>, indexes: nat)
    ensures (forall cuts: seq<nat> | cuts != [] :: LeavesOnce(f, original, indexes, cuts))
            <==> forall x :: x in original ==> f(f(x)) == f(x)
  {
    var twice: seq<nat> := [6, 8 + indexes];
    CutAfterSwapAppliesTwice(f, original, indexes);
    if forall cuts: seq<nat> | cuts != [] :: LeavesOnce(f, original, indexes, cuts) {
      assert LeavesOnce(f, original, indexes, twice);
      assert Starts(f, twice)[..1] == Starts(f, [6]);
      MapTwice(f, original);
    }
    if forall x :: x in original ==> f(f(x)) == f(x) {
      forall cuts: seq<nat> | cuts != []
        ensures LeavesOnce(f, original, indexes, cuts)
      {
        IdempotentLeavesOnce(f, original, indexes, cuts);
      }
    }
  }

  lemma IdempotentLeavesOnce<R(!new)>(f: R -> R, original: seq<R>, indexes: nat, cuts: seq<nat>)
    requires cuts != [] && forall x :: x in original ==> f(f(x)) == f(x)
    ensures LeavesOnce(f, original, indexes, cuts)
  {
    var starts, start := Starts(f, cuts), Db(Some(original), None, None);
    assert starts[..|cuts|] == starts;
    CrashSafe(start, original, indexes, starts, |cuts|);
  }

  /** The schedule that transforms twice: a start cut off right after the second rename, and then a whole one. */
  lemma CutAfterSwapAppliesTwice<R(!new)>(f: R -> R, original: seq<R>, indexes: nat)
    ensures var start, cut := Db(Some(original), None, None), Db(Some(Map(f, original)), None, Some(original));
            && AfterAll(start, Starts(f, [6]), indexes) == Some(cut) && Completes(cut, Attempt(f, 8 + indexes), indexes)
            && AfterAll(start, Starts(f, [6, 8 + indexes]), indexes)
               == Some(Db(Some(Map(f, Map(f, original))), None, None))
  {
    SwapCut(f, original, indexes);
    WholeAfterSwapCut(f, original, indexes);
    var starts := Starts(f, [6, 8 + indexes]);
    hide After, Completes;
    assert Starts(f, [6]) == [Attempt(f, 6)] && starts[..1] == Starts(f, [6]) && starts[..1][..0] == [];
  }

  lemma SwapCut<R(!new)>(f: R -> R, original: seq<R>, indexes: nat)
    ensures After(Db(Some(original), None, None), Attempt(f, 6), indexes)
            == Some(Db(Some(Map(f, original)), None, Some(original)))
  {
    var start := Db(Some(original), None, None);
    assert Plan(start, indexes) == Rebuild(indexes) == Rebuild(indexes)[0..];
    RebuildPrefix(start, 0, original, indexes, f, 6);
  }

  lemma WholeAfterSwapCut<R(!new)>(f: R -> R, original: seq<R>, indexes: nat)
    ensures var cut := Db(Some(Map(f, original)), None, Some(original));
            && Completes(cut, Attempt(f, 8 + indexes), indexes)
            && After(cut, Attempt(f, 8 + indexes), indexes) == Some(Db(Some(Map(f, Map(f, original))), None, None))
  {
    var cut := Db(Some(Map(f, original)), None, Some(original));
    assert Plan(cut, indexes) == [Drop(Backup)] + Rebuild(indexes);
    assert Rebuild(indexes) == Rebuild(indexes)[0..];
    ExecCons(cut, Drop(Backup), Rebuild(indexes), f, 8 + indexes);
    RebuildPrefix(Db(cut.main, None, None), 0, Map(f, original), indexes, f, 7 + indexes);
  }

  lemma MapTwice<R(!new)>(f: R -> R, rows: seq<R>)
    ensures Map(f, Map(f, rows)) == Map(f, rows) <==> forall x :: x in rows ==> f(f(x)) == f(x)
  {
    var twice, once := Map(f, Map(f, rows)), Map(f, rows);
    if twice == once {
      forall x | x in rows
        ensures f(f(x)) == f(x)
      {
        var i :| 0 <= i < |rows| && rows[i] == x;
        assert twice[i] == once[i];
      }
    }
  }

  // ----- The migration of `tasks` -----

  /** The columns of `tasks` that the migration rewrites; the others are copied. */
  datatype SourceRef = Given(text: string) | TelegramMessage(chatId: string, messageId: int)

  datatype TaskRow = TaskRow(
    id: string, status: Option<string>, sourceType: Option<string>, sourceRef: Option<SourceRef>,
    chatId: Option<string>, sourceMsgId: Option<int>, fileName: Option<string>, fileSize: Option<int>,
    createdAt: Option<int>, updatedAt: Option<int>)

  const CANONICAL := {"queued", "downloading", "downloaded", "uploading", "completed", "failed", "cancelled"}

  function CanonicalStatus(status: Option<string>): (r: string)
    ensures r in CANONICAL
  {
    match status
    case None => "queued"
    case Some(s) =>
      if s in CANONICAL then s
      else if s in {"pending", "waiting"} then "queued"
      else if s in {"processing", "running"} then "downloading"
      else if s in {"done", "success"} then "completed"
      else "failed"
  }

  function Coalesce<T>(v: Option<T>, fallback: T): Option<T> {
    if v.Some? then v else Some(fallback)
  }

  function TelegramRef(r: TaskRow): Option<SourceRef> {
    if r.chatId.Some? && r.sourceMsgId.Some? then Some(TelegramMessage(r.chatId.value, r.sourceMsgId.value)) else None
  }

  /** The row transform of the status migration, on a table that has every column; `now` is the time of the start. */
  function MigrateTask(now: int): TaskRow -> TaskRow {
    (r: TaskRow) => r.(
      status := Some(CanonicalStatus(r.status)),
      sourceType := Coalesce(r.sourceType, "telegram_media"),
      sourceRef := if Coalesce(r.sourceType, "telegram_media").value == "telegram_media" && r.sourceRef.None?
                   then TelegramRef(r) else r.sourceRef,
      fileName := Coalesce(r.fileName, "unknown"),
      fileSize := Coalesce(r.fileSize, 0),
      createdAt := Coalesce(r.createdAt, now),
      updatedAt := Coalesce(r.updatedAt, now))
  }

  /** Which stored statuses end as which canonical one. */
  lemma CanonicalStatusExactly(status: Option<string>)
    ensures var r := CanonicalStatus(status);
            && (r == "queued" <==> status.None? || status.value in {"queued", "pending", "waiting"})
            && (r == "downloading" <==> status.Some? && status.value in {"downloading", "processing", "running"})
            && (r == "completed" <==> status.Some? && status.value in {"completed", "done", "success"})
            && (r in {"downloaded", "uploading", "cancelled"} ==> status == Some(r))
            && (status.Some? && status.value in {"downloaded", "uploading", "cancelled"} ==> r == status.value)
            && (r in {"queued", "downloading", "downloaded", "uploading", "completed", "cancelled", "failed"})
  {
  }

  /** The row transform, column by column: what is present stays, what is missing gets its default, and only a row of
      the default source type gets a reference made up from its message. */
  lemma MigrateTaskExactly(now: int, r: TaskRow)
    ensures var m := MigrateTask(now)(r);
            && m.status == Some(CanonicalStatus(r.status))
            && m.id == r.id && m.chatId == r.chatId && m.sourceMsgId == r.sourceMsgId
            && m.sourceType == (if r.sourceType == None then Some("telegram_media") else r.sourceType)
            && m.fileName == (if r.fileName == None then Some("unknown") else r.fileName)
            && m.fileSize == (if r.fileSize == None then Some(0) else r.fileSize)
            && m.createdAt == (if r.createdAt == None then Some(now) else r.createdAt)
            && m.updatedAt == (if r.updatedAt == None then Some(now) else r.updatedAt)
            && if r.sourceRef == None && r.chatId != None && r.sourceMsgId != None
                  && (r.sourceType == None || r.sourceType == Some("telegram_media"))
               then m.sourceRef == Some(TelegramMessage(r.chatId.value, r.sourceMsgId.value))
               else m.sourceRef == r.sourceRef
  {
  }

  ghost predicate TaskMigration(attempts: seq<Attempt<TaskRow>>) {
    forall a :: a in attempts ==> exists now :: a.transform == MigrateTask(now)
  }

  /** Restarts draw a new `now` each, and still leave alone what an earlier start has written. */
  lemma TaskMigrationSettles(attempts: seq<Attempt<TaskRow>>, original: seq<TaskRow>)
    requires TaskMigration(attempts)
    ensures Settling(attempts, original)
  {
    forall a, b, r: TaskRow | a in attempts && b in attempts && r in original
      ensures a.transform(b.transform(r)) == b.transform(r)
    {
      var now :| a.transform == MigrateTask(now);
      var earlier :| b.transform == MigrateTask(earlier);
    }
  }

  /** The migration of `tasks`, cut off any number of times and then completed, leaves every row migrated at the time
      of one single start, with a canonical status. */
  lemma TaskMigrationSurvivesCrashes(db: Db<TaskRow>, original: seq<TaskRow>, indexes: nat,
                                     attempts: seq<Attempt<TaskRow>>)
    requires TaskMigration(attempts) && attempts != [] && db.main == Some(original)
    ensures var n := |attempts|;
            var before := AfterAll(db, attempts[..n - 1], indexes);
            var r := AfterAll(db, attempts, indexes);
            && before.Some? && r.Some?
            && (Completes(before.value, attempts[n - 1], indexes) ==>
                  && r.value.temp.None? && r.value.backup.None?
                  && exists now :: r.value.main == Some(Map(MigrateTask(now), original)))
  {
    TaskMigrationSettles(attempts, original);
    var n := |attempts|;
    assert attempts[..n] == attempts;
    CrashSafe(db, original, indexes, attempts, n);
    var r := AfterAll(db, attempts, indexes).value;
    if Finished(r, original, attempts) {
      var a :| a in attempts && r.main.value == Map(a.transform, original);
      var now :| a.transform == MigrateTask(now);
      assert r.main == Some(Map(MigrateTask(now), original));
    }
  }
}
