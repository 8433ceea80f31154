/**
 SQL migrations, addons/db/migrate.go and addons/db/tx.go: every file is reserved, applied and
 finalized inside one transaction that commits or rolls back as a whole.

 The database is its tracking table and the log of user statements it has committed; user SQL
 leaves the tracking table alone and a transaction that does not commit leaves no trace.  Every
 call into the database, the file system or the transaction may fail, as scripted per run.
 */
module Migrations {
  import opened Text

  const NAME_MAX_LENGTH := 255
  const PENDING := "pending:"

  datatype MigrationRecord = MigrationRecord(name: string, checksum: string)

  /** One committed user statement and the migration it belongs to. */
  datatype Entry = Entry(name: string, statement: string)

  datatype Db = Db(table: map<string, string>, log: seq<Entry>)

  const EMPTY := Db(map[], [])

  /** Which calls fail while one file is processed; rowsUnknown: the driver cannot count affected rows. */
  datatype Fault = Fault(read: bool, query: bool, reserve: bool, statement: bool, finalize: bool, rowsUnknown: bool)

  const NO_FAULT := Fault(false, false, false, false, false, false)

  /** One invocation of ApplyMigrations: the file tree it walks and the failures it meets. */
  datatype Run = Run(
    walk: seq<string>,
    contents: map<string, string>,
    walkFails: bool,
    beginFails: bool,
    ddlFails: bool,
    commitFails: bool,
    faults: nat -> Fault)
  {
    predicate Clean() {
      && !walkFails && !beginFails && !ddlFails && !commitFails
      && (forall i: nat | i < |Files()| :: faults(i) == NO_FAULT)
    }

    /** migrationFiles: the .sql files of the tree in lexical order. */
    function Files(): seq<string> {
      Sort(SqlFiles(walk))
    }
  }

  datatype Result = Result(applied: seq<MigrationRecord>, skipped: seq<MigrationRecord>)

  /** strings.EqualFold(filepath.Ext(path), ".sql"); U+017F folds to s. */
  predicate IsSql(path: string) {
    && |path| >= 4
    && var e := path[|path| - 4..];
       e[0] == '.' && (e[1] == 's' || e[1] == 'S' || e[1] == '\U{017F}') && (e[2] == 'q' || e[2] == 'Q') && (e[3] == 'l' || e[3] == 'L')
  }

  function SqlFiles(walk: seq<string>): seq<string> {
    if walk == [] then []
    else if IsSql(walk[0]) then [walk[0]] + SqlFiles(walk[1..])
    else SqlFiles(walk[1..])
  }

  /** SHA-256 in hex. */
  type Digest = string -> string

  predicate IsHex(c: char) {
    '0' <= c <= '9' || 'a' <= c <= 'f'
  }

  ghost predicate IsDigest(sum: Digest) {
    forall p :: |sum(p)| == 64 && forall i | 0 <= i < 64 :: IsHex(sum(p)[i])
  }

  lemma DigestNeverPending(sum: Digest, p: string)
    requires IsDigest(sum)
    ensures !HasPrefix(sum(p), PENDING)
  {
    assert IsHex(sum(p)[0]);
  }

  // ------------------------------------------------------------ specification

  /** The transaction in progress. */
  datatype Tx = Tx(db: Db, result: Result)

  datatype Check = Failed | Present | Absent

  /** migrationApplied. */
  function Applied(table: map<string, string>, record: MigrationRecord, queryFails: bool): Check {
    if |record.name| > NAME_MAX_LENGTH || queryFails then Failed
    else if record.name !in table then Absent
    else if HasPrefix(table[record.name], PENDING) || table[record.name] != record.checksum then Failed
    else Present
  }

  /** One pass of the loop over the files; None is an error. */
  function ApplyFile(sum: Digest, run: Run, tx: Tx, name: string, fault: Fault): Option<Tx> {
    if fault.read || name !in run.contents then None
    else
      var record := MigrationRecord(name, sum(run.contents[name]));
      match Applied(tx.db.table, record, fault.query)
      case Failed => None
      case Present => Some(tx.(result := tx.result.(skipped := tx.result.skipped + [record])))
      case Absent =>
        if fault.reserve || fault.statement || fault.finalize then None
        else Some(Tx(Db(tx.db.table[name := record.checksum], tx.db.log + [Entry(name, run.contents[name])]),
                     tx.result.(applied := tx.result.applied + [record])))
  }

  /** The first k files in order. */
  function ApplyFiles(sum: Digest, run: Run, db: Db, files: seq<string>, k: nat): Option<Tx>
    requires k <= |files|
  {
    if k == 0 then Some(Tx(db, Result([], [])))
    else
      var tx := ApplyFiles(sum, run, db, files, k - 1);
      if tx.None? then None else ApplyFile(sum, run, tx.value, files[k - 1], run.faults(k - 1))
  }

  /** A whole invocation: the database it leaves behind and what it reports; None is an error. */
  function Migrate(sum: Digest, run: Run, db: Db): (Db, Option<Result>) {
    var files := run.Files();
    var tx := ApplyFiles(sum, run, db, files, |files|);
    if run.walkFails || run.beginFails || run.ddlFails || run.commitFails || tx.None? then (db, None)
    else (tx.value.db, Some(tx.value.result))
  }

  // ----------------------------------------------------------- implementation

  class Database {
    var committed: Db

    constructor ()
      ensures committed == EMPTY
    {
      committed := EMPTY;
    }

    /** ApplyMigrations inside WithTx: the work happens on a private copy that replaces the database on commit only. */
    method ApplyMigrations(sum: Digest, run: Run) returns (r: Option<Result>)
      modifies this
      ensures (committed, r) == Migrate(sum, run, old(committed))
    {
      if run.walkFails {
        return None;
      }
      var files := run.Files();
      if run.beginFails || run.ddlFails {
        return None;
      }
      var work := committed;
      var result := Result([], []);
      for i := 0 to |files|
        invariant committed == old(committed)
        invariant ApplyFiles(sum, run, old(committed), files, i) == Some(Tx(work, result))
      {
        var file, fault := files[i], run.faults(i);
        assert ApplyFiles(sum, run, old(committed), files, i + 1) == ApplyFile(sum, run, Tx(work, result), file, fault);
        if fault.read || file !in run.contents {
          LaterFilesFail(sum, run, committed, files, i + 1, |files|);
          return None;
        }
        var record := MigrationRecord(file, sum(run.contents[file]));
        var check := Applied(work.table, record, fault.query);
        if check.Failed? {
          LaterFilesFail(sum, run, committed, files, i + 1, |files|);
          return None;
        }
        if check.Present? {
          result := result.(skipped := result.skipped + [record]);
          continue;
        }
        if fault.reserve {
          LaterFilesFail(sum, run, committed, files, i + 1, |files|);
          return None;
        }
        var reserved := work.(table := work.table[file := PENDING + record.checksum]);
        if fault.statement {
          LaterFilesFail(sum, run, committed, files, i + 1, |files|);
          return None;
        }
        var ran := reserved.(log := reserved.log + [Entry(file, run.contents[file])]);
        if fault.finalize {
          LaterFilesFail(sum, run, committed, files, i + 1, |files|);
          return None;
        }
        var rows := if ran.table[file] == PENDING + record.checksum then 1 else 0;
        var finalized := if rows == 1 then ran.(table := ran.table[file := record.checksum]) else ran;
        if !fault.rowsUnknown && rows != 1 {
          assert false;
          return None;
        }
        assert finalized.table == work.table[file := record.checksum];
        work := finalized;
        result := result.(applied := result.applied + [record]);
      }
      if run.commitFails {
        return None;
      }
      committed := work;
      r := Some(result);
    }
  }

  lemma {:induction false} LaterFilesFail(sum: Digest, run: Run, db: Db, files: seq<string>, i: nat, k: nat)
    requires i <= k <= |files|
    requires ApplyFiles(sum, run, db, files, i).None?
    ensures ApplyFiles(sum, run, db, files, k).None?
    decreases k
  {
    if i < k {
      LaterFilesFail(sum, run, db, files, i, k - 1);
    }
  }

  // ---------------------------------------------------------- exactly once

  function Occurrences(log: seq<Entry>, name: string): nat {
    if log == [] then 0 else Occurrences(log[..|log| - 1], name) + if log[|log| - 1].name == name then 1 else 0
  }

  lemma {:induction false} OccurrencesZero(log: seq<Entry>, name: string)
    ensures Occurrences(log, name) == 0 <==> forall i | 0 <= i < |log| :: log[i].name != name
  {
    if log != [] {
      OccurrencesZero(log[..|log| - 1], name);
      assert forall i | 0 <= i < |log| - 1 :: log[..|log| - 1][i] == log[i];
    }
  }

  lemma OccurrencesExtend(log: seq<Entry>, entry: Entry, name: string)
    ensures Occurrences(log + [entry], name) == Occurrences(log, name) + if entry.name == name then 1 else 0
  {
    assert (log + [entry])[..|log|] == log;
  }

  /**
   What every committed database satisfies: no reservation is left behind, each recorded name
   ran exactly once, nothing unrecorded ran, and what ran is what the recorded checksum is of.
   */
  ghost predicate Sound(sum: Digest, db: Db) {
    && (forall name | name in db.table :: !HasPrefix(db.table[name], PENDING) && Occurrences(db.log, name) == 1)
    && (forall i | 0 <= i < |db.log| :: db.log[i].name in db.table && db.table[db.log[i].name] == sum(db.log[i].statement))
  }

  /** A later database contains an earlier one: no record changes and no statement is lost or reordered. */
  ghost predicate Extends(earlier: Db, later: Db) {
    && earlier.log <= later.log
    && (forall name | name in earlier.table :: name in later.table && later.table[name] == earlier.table[name])
  }

  lemma FileKeepsSound(sum: Digest, run: Run, tx: Tx, name: string, fault: Fault)
    requires IsDigest(sum) && Sound(sum, tx.db) && ApplyFile(sum, run, tx, name, fault).Some?
    ensures Sound(sum, ApplyFile(sum, run, tx, name, fault).value.db)
    ensures Extends(tx.db, ApplyFile(sum, run, tx, name, fault).value.db)
  {
    var db, db' := tx.db, ApplyFile(sum, run, tx, name, fault).value.db;
    if name !in db.table {
      var entry := Entry(name, run.contents[name]);
      DigestNeverPending(sum, entry.statement);
      OccurrencesZero(db.log, name);
      forall other | other in db'.table
        ensures !HasPrefix(db'.table[other], PENDING) && Occurrences(db'.log, other) == 1
      {
        OccurrencesExtend(db.log, entry, other);
      }
    }
  }

  lemma {:induction false} FilesKeepSound(sum: Digest, run: Run, db: Db, files: seq<string>, k: nat)
    requires IsDigest(sum) && Sound(sum, db) && k <= |files| && ApplyFiles(sum, run, db, files, k).Some?
    ensures Sound(sum, ApplyFiles(sum, run, db, files, k).value.db)
    ensures Extends(db, ApplyFiles(sum, run, db, files, k).value.db)
  {
    if k > 0 {
      FilesKeepSound(sum, run, db, files, k - 1);
      FileKeepsSound(sum, run, ApplyFiles(sum, run, db, files, k - 1).value, files[k - 1], run.faults(k - 1));
    }
  }

  /** One run, successful or not: soundness is kept, nothing recorded is lost, and failure changes nothing. */
  lemma RunKeepsSound(sum: Digest, run: Run, db: Db)
    requires IsDigest(sum) && Sound(sum, db)
    ensures Sound(sum, Migrate(sum, run, db).0)
    ensures Extends(db, Migrate(sum, run, db).0)
    ensures Migrate(sum, run, db).1.None? ==> Migrate(sum, run, db).0 == db
  {
    var files := run.Files();
    if Migrate(sum, run, db).1.Some? {
      FilesKeepSound(sum, run, db, files, |files|);
    }
  }

  /** The database after a history of runs over arbitrary, changing file trees. */
  function History(sum: Digest, runs: seq<Run>): Db {
    if runs == [] then EMPTY else Migrate(sum, runs[|runs| - 1], History(sum, runs[..|runs| - 1])).0
  }

  /**
   Exactly once, over whole histories: however runs succeed, fail and change the file tree, in
   the database they leave each recorded migration's statement has been committed exactly once,
   no reservation is pending, and the records of any earlier point of the history still stand.
   */
  lemma {:induction false} ExactlyOnce(sum: Digest, runs: seq<Run>, k: nat)
    requires IsDigest(sum) && k <= |runs|
    ensures Sound(sum, History(sum, runs))
    ensures Extends(History(sum, runs[..k]), History(sum, runs))
  {
    if runs != [] {
      var before := runs[..|runs| - 1];
      ExactlyOnce(sum, before, if k < |runs| then k else |before|);
      RunKeepsSound(sum, runs[|runs| - 1], History(sum, before));
      if k < |runs| {
        assert before[..k] == runs[..k];
      } else {
        assert runs[..k] == runs;
      }
    } else {
      assert runs[..k] == runs;
    }
  }

  // ---------------------------------------------------------- what is reported

  ghost predicate Distinct(names: seq<string>) {
    forall i, j | 0 <= i < j < |names| :: names[i] != names[j]
  }

  /** The records of those files, in order, that the table holds (or does not hold). */
  function Select(sum: Digest, run: Run, files: seq<string>, table: map<string, string>, held: bool): seq<MigrationRecord> {
    if files == [] then []
    else
      var name := files[|files| - 1];
      Select(sum, run, files[..|files| - 1], table, held)
      + if (name in table) == held && name in run.contents then [MigrationRecord(name, sum(run.contents[name]))] else []
  }

  ghost predicate Reports(sum: Digest, run: Run, db: Db, files: seq<string>, tx: Tx) {
    && tx.result.applied == Select(sum, run, files, db.table, false)
    && tx.result.skipped == Select(sum, run, files, db.table, true)
    && (forall i | 0 <= i < |files| :: files[i] in run.contents && files[i] in tx.db.table && tx.db.table[files[i]] == sum(run.contents[files[i]]))
    && (forall name | name in tx.db.table :: name in db.table || name in files)
    && |tx.result.applied| + |tx.result.skipped| == |files|
  }

  lemma FileReports(sum: Digest, run: Run, db: Db, done: seq<string>, tx: Tx, name: string, fault: Fault)
    requires Reports(sum, run, db, done, tx) && name !in done && Extends(db, tx.db)
    requires ApplyFile(sum, run, tx, name, fault).Some?
    ensures Reports(sum, run, db, done + [name], ApplyFile(sum, run, tx, name, fault).value)
  {
    var tx' := ApplyFile(sum, run, tx, name, fault).value;
    var files := done + [name];
    assert files[..|files| - 1] == done;
    assert name in tx.db.table <==> name in db.table;
    forall i | 0 <= i < |files|
      ensures files[i] in run.contents && files[i] in tx'.db.table && tx'.db.table[files[i]] == sum(run.contents[files[i]])
    {
      if i < |done| {
        assert files[i] == done[i] != name;
      }
    }
  }

  lemma {:induction false} FilesReport(sum: Digest, run: Run, db: Db, files: seq<string>, k: nat)
    requires IsDigest(sum) && Sound(sum, db) && Distinct(files) && k <= |files| && ApplyFiles(sum, run, db, files, k).Some?
    ensures Reports(sum, run, db, files[..k], ApplyFiles(sum, run, db, files, k).value)
  {
    if k > 0 {
      FilesReport(sum, run, db, files, k - 1);
      FilesKeepSound(sum, run, db, files, k - 1);
      var before, name := ApplyFiles(sum, run, db, files, k - 1).value, files[k - 1];
      assert ApplyFiles(sum, run, db, files, k) == ApplyFile(sum, run, before, name, run.faults(k - 1));
      NotBefore(files, k);
      FileReports(sum, run, db, files[..k - 1], before, name, run.faults(k - 1));
    }
  }

  lemma NotBefore(files: seq<string>, k: nat)
    requires Distinct(files) && 0 < k <= |files|
    ensures files[k - 1] !in files[..k - 1] && files[..k] == files[..k - 1] + [files[k - 1]]
  {
  }

  lemma {:induction false} SqlFilesDistinct(walk: seq<string>)
    requires Distinct(walk)
    ensures Distinct(SqlFiles(walk))
    ensures forall f :: f in SqlFiles(walk) <==> f in walk && IsSql(f)
  {
    if walk != [] {
      assert walk == [walk[0]] + walk[1..];
      assert walk[0] !in walk[1..];
      SqlFilesDistinct(walk[1..]);
    }
  }

  lemma DistinctPermutation(a: seq<string>, b: seq<string>)
    requires Distinct(a) && multiset(a) == multiset(b)
    ensures Distinct(b)
    ensures forall f :: f in a <==> f in b
  {
    forall f
      ensures f in a <==> f in b
    {
      assert f in multiset(a) <==> f in multiset(b);
    }
    forall i, j | 0 <= i < j < |b|
      ensures b[i] != b[j]
    {
      if b[i] == b[j] {
        assert b == b[..i] + [b[i]] + b[i + 1..j] + [b[j]] + b[j + 1..];
        assert multiset(b)[b[i]] >= 2;
        DistinctOnce(a, b[i]);
      }
    }
  }

  lemma {:induction false} DistinctOnce(a: seq<string>, x: string)
    requires Distinct(a)
    ensures multiset(a)[x] <= 1
  {
    if a != [] {
      DistinctOnce(a[1..], x);
      assert a == [a[0]] + a[1..];
      if a[0] == x {
        assert x !in a[1..];
      }
    }
  }

  /** The files of a run, in order, without repetition: exactly the walked .sql paths. */
  lemma RunFiles(run: Run)
    requires Distinct(run.walk)
    ensures Sorted(run.Files()) && Distinct(run.Files())
    ensures forall f :: f in run.Files() <==> f in run.walk && IsSql(f)
  {
    SqlFilesDistinct(run.walk);
    SortSorts(SqlFiles(run.walk));
    DistinctPermutation(SqlFiles(run.walk), run.Files());
  }

  /**
   A successful run: the reported Applied and Skipped are the sorted files split by whether the
   table held them before, together as many as there are files, and afterwards every file is
   recorded with its current checksum.
   */
  lemma SuccessReport(sum: Digest, run: Run, db: Db)
    requires IsDigest(sum) && Sound(sum, db) && Distinct(run.walk) && Migrate(sum, run, db).1.Some?
    ensures var (after, result) := Migrate(sum, run, db);
            Reports(sum, run, db, run.Files(), Tx(after, result.value))
  {
    var files := run.Files();
    RunFiles(run);
    FilesReport(sum, run, db, files, |files|);
    assert files[..|files|] == files;
  }

  // ------------------------------------------------------------ when a run succeeds

  /**
   Nothing stops a file: it can be read, its name fits, and it is either recorded under its current
   checksum or can be reserved, run and finalized.
   */
  predicate Applicable(sum: Digest, run: Run, db: Db, name: string, fault: Fault) {
    && !fault.read && !fault.query && name in run.contents && |name| <= 255
    && (if name in db.table then db.table[name] == sum(run.contents[name])
        else !fault.reserve && !fault.statement && !fault.finalize)
  }

  /** The statements of the files that are not recorded yet, in order. */
  function Outstanding(run: Run, table: map<string, string>, files: seq<string>): seq<Entry> {
    if files == [] then []
    else
      var name := files[|files| - 1];
      Outstanding(run, table, files[..|files| - 1])
      + if name !in table && name in run.contents then [Entry(name, run.contents[name])] else []
  }

  lemma FileApplies(sum: Digest, run: Run, db: Db, done: seq<string>, tx: Tx, name: string, fault: Fault)
    requires IsDigest(sum) && Sound(sum, db) && Reports(sum, run, db, done, tx) && name !in done && Extends(db, tx.db)
    requires tx.db.log == db.log + Outstanding(run, db.table, done)
    ensures ApplyFile(sum, run, tx, name, fault).Some? <==> Applicable(sum, run, db, name, fault)
    ensures ApplyFile(sum, run, tx, name, fault).Some? ==>
              ApplyFile(sum, run, tx, name, fault).value.db.log == db.log + Outstanding(run, db.table, done + [name])
  {
    assert (done + [name])[..|done|] == done;
    assert name in tx.db.table <==> name in db.table;
    if name in run.contents {
      DigestNeverPending(sum, run.contents[name]);
    }
    if ApplyFile(sum, run, tx, name, fault).Some? && name !in db.table {
      Regroup(db.log, Outstanding(run, db.table, done), [Entry(name, run.contents[name])]);
    } else {
      assert Outstanding(run, db.table, done) + [] == Outstanding(run, db.table, done);
    }
  }

  lemma NothingOutstanding(run: Run, db: Db)
    ensures db.log + Outstanding(run, db.table, []) == db.log
  {
  }

  lemma {:induction false} FilesApply(sum: Digest, run: Run, db: Db, files: seq<string>, k: nat)
    requires IsDigest(sum) && Sound(sum, db) && Distinct(files) && k <= |files|
    ensures ApplyFiles(sum, run, db, files, k).Some? <==> forall i: nat | i < k :: Applicable(sum, run, db, files[i], run.faults(i))
    ensures ApplyFiles(sum, run, db, files, k).Some? ==>
              ApplyFiles(sum, run, db, files, k).value.db.log == db.log + Outstanding(run, db.table, files[..k])
  {
    hide Applicable, Outstanding, Reports, Sound, Extends, ApplyFile, Distinct;
    if k == 0 {
      NothingOutstanding(run, db);
    } else {
      FilesApply(sum, run, db, files, k - 1);
      var before := ApplyFiles(sum, run, db, files, k - 1);
      if before.Some? {
        NextFileApplies(sum, run, db, files, k, before.value);
      }
    }
  }

  lemma NextFileApplies(sum: Digest, run: Run, db: Db, files: seq<string>, k: nat, before: Tx)
    requires IsDigest(sum) && Sound(sum, db) && Distinct(files) && 0 < k <= |files|
    requires ApplyFiles(sum, run, db, files, k - 1) == Some(before)
    requires before.db.log == db.log + Outstanding(run, db.table, files[..k - 1])
    ensures var after := ApplyFile(sum, run, before, files[k - 1], run.faults(k - 1));
            && (after.Some? <==> Applicable(sum, run, db, files[k - 1], run.faults(k - 1)))
            && (after.Some? ==> after.value.db.log == db.log + Outstanding(run, db.table, files[..k]))
  {
    hide Applicable, Outstanding, Reports, Sound, Extends, ApplyFile;
    NotBefore(files, k);
    FilesReport(sum, run, db, files, k - 1);
    FilesKeepSound(sum, run, db, files, k - 1);
    FileApplies(sum, run, db, files[..k - 1], before, files[k - 1], run.faults(k - 1));
  }

  /**
   Exactly when a run succeeds: walk, transaction and commit meet no fault, and nothing stops any
   file of the tree; and then exactly the statements of the files that were not recorded, in
   order, have been committed.
   */
  lemma SucceedsIff(sum: Digest, run: Run, db: Db)
    requires IsDigest(sum) && Sound(sum, db) && Distinct(run.walk)
    ensures Migrate(sum, run, db).1.Some? <==>
              && !run.walkFails && !run.beginFails && !run.ddlFails && !run.commitFails
              && forall i: nat | i < |run.Files()| :: Applicable(sum, run, db, run.Files()[i], run.faults(i))
    ensures Migrate(sum, run, db).1.Some? ==>
              Migrate(sum, run, db).0.log == db.log + Outstanding(run, db.table, run.Files())
  {
    var files := run.Files();
    RunFiles(run);
    FilesApply(sum, run, db, files, |files|);
    assert files[..|files|] == files;
  }

  lemma {:induction false} FilesSkip(sum: Digest, run: Run, db: Db, files: seq<string>, k: nat)
    requires IsDigest(sum) && k <= |files|
    requires forall i | 0 <= i < |files| ::
               files[i] in run.contents && files[i] in db.table && db.table[files[i]] == sum(run.contents[files[i]])
    ensures ApplyFiles(sum, run, db, files, k).Some? ==>
              ApplyFiles(sum, run, db, files, k).value.db == db && ApplyFiles(sum, run, db, files, k).value.result.applied == []
    ensures (forall i: nat | i < k :: run.faults(i) == NO_FAULT && |files[i]| <= NAME_MAX_LENGTH) ==>
              ApplyFiles(sum, run, db, files, k).Some?
  {
    if k > 0 {
      FilesSkip(sum, run, db, files, k - 1);
      DigestNeverPending(sum, run.contents[files[k - 1]]);
    }
  }

  /**
   Running the same files again, with whatever failures, changes nothing: the second run either
   fails or reports an empty Applied, and without failures it succeeds.
   */
  lemma RerunAppliesNothing(sum: Digest, first: Run, second: Run, db: Db)
    requires IsDigest(sum) && Sound(sum, db) && Distinct(first.walk) && Migrate(sum, first, db).1.Some?
    requires second.walk == first.walk && second.contents == first.contents
    ensures var after := Migrate(sum, first, db).0;
            && Migrate(sum, second, after).0 == after
            && (Migrate(sum, second, after).1.Some? ==> Migrate(sum, second, after).1.value.applied == [])
            && (second.Clean() ==> Migrate(sum, second, after).1.Some?)
  {
    var files := first.Files();
    var after := Migrate(sum, first, db).0;
    SuccessReport(sum, first, db);
    FilesSkip(sum, second, after, files, |files|);
    forall i: nat | i < |files|
      ensures |files[i]| <= NAME_MAX_LENGTH
    {
      NamesBounded(sum, first, db, files, |files|, i);
    }
  }

  lemma {:induction false} NamesBounded(sum: Digest, run: Run, db: Db, files: seq<string>, k: nat, i: nat)
    requires i < k <= |files| && ApplyFiles(sum, run, db, files, k).Some?
    ensures |files[i]| <= NAME_MAX_LENGTH
  {
    if i < k - 1 {
      NamesBounded(sum, run, db, files, k - 1, i);
    }
  }
}
