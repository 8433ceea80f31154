/**
 Concurrent migration runs, addons/db/migrate.go and addons/db/tx.go: any number of runs over any
 file trees interleave statement by statement on one database.

 Of the database this assumes what SQL promises at every isolation level above dirty reads: a
 transaction sees its own rows and some of the committed ones, perhaps a stale part of them; the
 primary key of the tracking table makes an insert wait for a transaction that holds the name and
 fail when the name is committed; commit and rollback are atomic.
 */
module MigrationRaces {
  import opened Text
  import opened Migrations

  datatype Stage = Checking | Reserving | Running | Finalizing

  /** A run in progress: its next file, and the rows and statements it has not committed yet. */
  datatype Proc = Proc(run: Run, next: nat, stage: Stage, own: map<string, string>, log: seq<Entry>)
  {
    /** The next file, once there is one and its text is readable. */
    predicate Ready() {
      next < |run.Files()| && run.Files()[next] in run.contents
    }

    function Name(): string
      requires Ready()
    {
      run.Files()[next]
    }

    function Text(): string
      requires Ready()
    {
      run.contents[Name()]
    }

    /** The name it has reserved and not finalized. */
    predicate Pending(name: string) {
      (stage == Running || stage == Finalizing) && Ready() && name == Name()
    }
  }

  datatype State = State(db: Db, procs: map<nat, Proc>)

  const START := State(EMPTY, map[])

  /** One statement, or the end, of one run; an error of any kind is an Abort. */
  datatype Step =
    | Begin(c: nat, run: Run)
    | Check(c: nat, view: map<string, string>)
    | Reserve(c: nat)
    | Execute(c: nat)
    | Finalize(c: nat)
    | Commit(c: nat)
    | Abort(c: nat)

  /** Committed rows, perhaps not all of them. */
  predicate Visible(view: map<string, string>, table: map<string, string>) {
    forall name | name in view :: name in table && view[name] == table[name]
  }

  predicate At(s: State, c: nat, stage: Stage) {
    c in s.procs && s.procs[c].stage == stage && s.procs[c].Ready()
  }

  function Record(sum: Digest, p: Proc): MigrationRecord
    requires p.Ready()
  {
    MigrationRecord(p.Name(), sum(p.Text()))
  }

  /** migrationApplied, then on to the next file or to the reservation. */
  function Checked(sum: Digest, p: Proc, view: map<string, string>): Option<Proc>
    requires p.Ready()
  {
    match Applied(view + p.own, Record(sum, p), false)
    case Failed => None
    case Present => Some(p.(next := p.next + 1))
    case Absent => Some(p.(stage := Reserving))
  }

  ghost predicate Free(s: State, name: string) {
    name !in s.db.table && forall c | c in s.procs :: name !in s.procs[c].own
  }

  function Reserved(sum: Digest, p: Proc): Proc
    requires p.Ready()
  {
    p.(stage := Running, own := p.own[p.Name() := PENDING + sum(p.Text())])
  }

  function Executed(p: Proc): Proc
    requires p.Ready()
  {
    p.(stage := Finalizing, log := p.log + [Entry(p.Name(), p.Text())])
  }

  /** The update of the reserved row; without it the run cannot go on. */
  function Finalized(sum: Digest, p: Proc): Option<Proc>
    requires p.Ready()
  {
    if p.Name() in p.own && p.own[p.Name()] == PENDING + sum(p.Text())
    then Some(p.(stage := Checking, next := p.next + 1, own := p.own[p.Name() := sum(p.Text())]))
    else None
  }

  function Committed(db: Db, p: Proc): Db {
    Db(db.table + p.own, db.log + p.log)
  }

  ghost predicate Next(sum: Digest, s: State, s': State, step: Step) {
    match step
    case Begin(c, run) => c !in s.procs && s' == s.(procs := s.procs[c := Proc(run, 0, Checking, map[], [])])
    case Check(c, view) =>
      && At(s, c, Checking) && Visible(view, s.db.table) && Checked(sum, s.procs[c], view).Some?
      && s' == s.(procs := s.procs[c := Checked(sum, s.procs[c], view).value])
    case Reserve(c) =>
      At(s, c, Reserving) && Free(s, s.procs[c].Name()) && s' == s.(procs := s.procs[c := Reserved(sum, s.procs[c])])
    case Execute(c) =>
      At(s, c, Running) && s' == s.(procs := s.procs[c := Executed(s.procs[c])])
    case Finalize(c) =>
      && At(s, c, Finalizing) && Finalized(sum, s.procs[c]).Some?
      && s' == s.(procs := s.procs[c := Finalized(sum, s.procs[c]).value])
    case Commit(c) =>
      && c in s.procs && s.procs[c].stage == Checking && s.procs[c].next == |s.procs[c].run.Files()|
      && s' == State(Committed(s.db, s.procs[c]), s.procs - {c})
    case Abort(c) => c in s.procs && s' == s.(procs := s.procs - {c})
  }

  // ------------------------------------------------------------------ invariant

  /** A file is recorded under its current checksum, by the run or in the database. */
  predicate Recorded(sum: Digest, db: Db, p: Proc, i: nat)
    requires i < |p.run.Files()|
  {
    var file := p.run.Files()[i];
    && file in p.run.contents
    && ((file in p.own && p.own[file] == sum(p.run.contents[file])) || (file in db.table && db.table[file] == sum(p.run.contents[file])))
  }

  /** What a run in progress has in hand: rows nobody has committed, each but the pending one with its one statement. */
  ghost predicate Fit(sum: Digest, db: Db, p: Proc) {
    && p.next <= |p.run.Files()|
    && (p.stage != Checking ==> p.Ready())
    && p.own.Keys !! db.table.Keys
    && (forall name | name in p.own :: Occurrences(p.log, name) == if p.Pending(name) && p.stage == Running then 0 else 1)
    && (forall name | name in p.own && !p.Pending(name) :: !HasPrefix(p.own[name], PENDING))
    && (p.stage == Running || p.stage == Finalizing ==> p.Name() in p.own && p.own[p.Name()] == PENDING + sum(p.Text()))
    && (forall i | 0 <= i < |p.log| :: p.log[i].name in p.own && Settled(sum, p, p.log[i]))
    && (forall i: nat | i < p.next :: Recorded(sum, db, p, i))
  }

  predicate Settled(sum: Digest, p: Proc, entry: Entry) {
    if p.Pending(entry.name) then entry.statement == p.Text()
    else entry.name in p.own && p.own[entry.name] == sum(entry.statement)
  }

  ghost predicate Apart(procs: map<nat, Proc>) {
    forall c, d | c in procs && d in procs && c != d :: procs[c].own.Keys !! procs[d].own.Keys
  }

  ghost predicate Inv(sum: Digest, s: State) {
    Sound(sum, s.db) && Apart(s.procs) && forall c | c in s.procs :: Fit(sum, s.db, s.procs[c])
  }

  // --------------------------------------------------------------- single steps

  /** A run that only moves on keeps what it has in hand. */
  lemma StageFits(sum: Digest, db: Db, p: Proc, p': Proc)
    requires Fit(sum, db, p) && p.stage == Checking && p.Ready() && p' == p.(next := p'.next, stage := p'.stage)
    requires (p'.next == p.next && p'.stage == Reserving) || (p'.next == p.next + 1 && p'.stage == Checking && Recorded(sum, db, p, p.next))
    ensures Fit(sum, db, p')
  {
    forall i: nat | i < p'.next
      ensures Recorded(sum, db, p', i)
    {
      assert Recorded(sum, db, p, i);
    }
    forall i | 0 <= i < |p.log|
      ensures Settled(sum, p', p.log[i])
    {
      assert Settled(sum, p, p.log[i]);
    }
  }

  lemma CheckFits(sum: Digest, db: Db, p: Proc, view: map<string, string>)
    requires Fit(sum, db, p) && p.stage == Checking && p.Ready() && Visible(view, db.table) && Checked(sum, p, view).Some?
    ensures Fit(sum, db, Checked(sum, p, view).value) && Checked(sum, p, view).value.own == p.own
  {
    var p' := Checked(sum, p, view).value;
    if p'.stage == Checking {
      CheckedRecorded(sum, db, p, view);
    }
    StageFits(sum, db, p, p');
  }

  lemma CheckedRecorded(sum: Digest, db: Db, p: Proc, view: map<string, string>)
    requires p.stage == Checking && p.Ready() && Visible(view, db.table) && Checked(sum, p, view) == Some(p.(next := p.next + 1))
    ensures Recorded(sum, db, p, p.next)
  {
  }

  lemma ReserveFits(sum: Digest, db: Db, p: Proc)
    requires IsDigest(sum) && Fit(sum, db, p) && p.stage == Reserving && p.Name() !in p.own && p.Name() !in db.table
    ensures Fit(sum, db, Reserved(sum, p))
  {
    var p' := Reserved(sum, p);
    assert p'.Ready() && p'.Name() == p.Name();
    OccurrencesZero(p.log, p.Name());
    forall i: nat | i < p.next
      ensures Recorded(sum, db, p', i)
    {
      assert Recorded(sum, db, p, i);
    }
    forall i | 0 <= i < |p.log|
      ensures Settled(sum, p', p.log[i])
    {
      assert Settled(sum, p, p.log[i]);
    }
  }

  lemma ExecuteFits(sum: Digest, db: Db, p: Proc)
    requires IsDigest(sum) && Fit(sum, db, p) && p.stage == Running
    ensures Fit(sum, db, Executed(p))
  {
    var p' := Executed(p);
    assert p'.Ready() && p'.Name() == p.Name();
    var entry := Entry(p.Name(), p.Text());
    forall name | name in p.own
      ensures Occurrences(p'.log, name) == 1
    {
      OccurrencesExtend(p.log, entry, name);
    }
    forall i: nat | i < p.next
      ensures Recorded(sum, db, p', i)
    {
      assert Recorded(sum, db, p, i);
    }
    forall i | 0 <= i < |p'.log|
      ensures p'.log[i].name in p'.own && Settled(sum, p', p'.log[i])
    {
      if i < |p.log| {
        assert Settled(sum, p, p.log[i]);
      }
    }
  }

  lemma FinalizeFits(sum: Digest, db: Db, p: Proc)
    requires IsDigest(sum) && Fit(sum, db, p) && p.stage == Finalizing
    ensures Finalized(sum, p).Some? && Fit(sum, db, Finalized(sum, p).value)
    ensures Finalized(sum, p).value.own.Keys == p.own.Keys
  {
    var p' := Finalized(sum, p).value;
    DigestNeverPending(sum, p.Text());
    forall i: nat | i < p'.next
      ensures Recorded(sum, db, p', i)
    {
      if i < p.next {
        assert Recorded(sum, db, p, i);
      }
    }
    forall i | 0 <= i < |p.log|
      ensures Settled(sum, p', p.log[i])
    {
      assert Settled(sum, p, p.log[i]);
    }
  }

  lemma {:induction false} OccurrencesConcat(a: seq<Entry>, b: seq<Entry>, name: string)
    ensures Occurrences(a + b, name) == Occurrences(a, name) + Occurrences(b, name)
  {
    if b == [] {
      assert a + b == a;
    } else {
      var before := b[..|b| - 1];
      assert (a + b)[..|a + b| - 1] == a + before;
      OccurrencesConcat(a, before, name);
    }
  }

  lemma CommitSound(sum: Digest, db: Db, p: Proc)
    requires Sound(sum, db) && Fit(sum, db, p) && p.stage == Checking
    ensures Sound(sum, Committed(db, p)) && Extends(db, Committed(db, p))
  {
    var db' := Committed(db, p);
    forall name | name in db'.table
      ensures !HasPrefix(db'.table[name], PENDING) && Occurrences(db'.log, name) == 1
    {
      OccurrencesConcat(db.log, p.log, name);
      OccurrencesZero(db.log, name);
      OccurrencesZero(p.log, name);
    }
    forall i | 0 <= i < |db'.log|
      ensures db'.log[i].name in db'.table && db'.table[db'.log[i].name] == sum(db'.log[i].statement)
    {
      if i >= |db.log| {
        assert db'.log[i] == p.log[i - |db.log|] && Settled(sum, p, p.log[i - |db.log|]);
      }
    }
  }

  /** Another run's rows stay its own, whatever is committed. */
  lemma OtherFits(sum: Digest, db: Db, db': Db, q: Proc)
    requires Fit(sum, db, q) && Extends(db, db') && q.own.Keys !! db'.table.Keys
    ensures Fit(sum, db', q)
  {
    forall i: nat | i < q.next
      ensures Recorded(sum, db', q, i)
    {
      assert Recorded(sum, db, q, i);
    }
  }

  /** A step of one run that leaves the database alone keeps the invariant if it keeps the run fit and takes free names only. */
  lemma LocalStep(sum: Digest, s: State, c: nat, p: Proc)
    requires Inv(sum, s) && Fit(sum, s.db, p)
    requires forall d | d in s.procs && d != c :: p.own.Keys !! s.procs[d].own.Keys
    ensures Inv(sum, s.(procs := s.procs[c := p]))
  {
  }

  lemma CommitStep(sum: Digest, s: State, s': State, c: nat)
    requires Inv(sum, s) && Next(sum, s, s', Commit(c))
    ensures Inv(sum, s') && Extends(s.db, s'.db)
  {
    CommitSound(sum, s.db, s.procs[c]);
    forall d | d in s'.procs
      ensures Fit(sum, s'.db, s'.procs[d])
    {
      assert s.procs[c].own.Keys !! s.procs[d].own.Keys;
      OtherFits(sum, s.db, s'.db, s.procs[d]);
    }
  }

  /** Every step of every run keeps the invariant and loses no record. */
  lemma NextInv(sum: Digest, s: State, s': State, step: Step)
    requires IsDigest(sum) && Inv(sum, s) && Next(sum, s, s', step)
    ensures Inv(sum, s') && Extends(s.db, s'.db)
  {
    match step
    case Begin(c, run) =>
      LocalStep(sum, s, c, Proc(run, 0, Checking, map[], []));
    case Check(c, view) =>
      CheckFits(sum, s.db, s.procs[c], view);
      LocalStep(sum, s, c, Checked(sum, s.procs[c], view).value);
    case Reserve(c) =>
      ReserveFits(sum, s.db, s.procs[c]);
      LocalStep(sum, s, c, Reserved(sum, s.procs[c]));
    case Execute(c) =>
      ExecuteFits(sum, s.db, s.procs[c]);
      LocalStep(sum, s, c, Executed(s.procs[c]));
    case Finalize(c) =>
      FinalizeFits(sum, s.db, s.procs[c]);
      LocalStep(sum, s, c, Finalized(sum, s.procs[c]).value);
    case Commit(c) =>
      CommitStep(sum, s, s', c);
    case Abort(c) =>
  }

  // -------------------------------------------------------------- whole histories

  /** A history of interleaved runs from the empty database. */
  ghost predicate Behaviour(sum: Digest, trace: seq<State>, steps: seq<Step>) {
    && |trace| == |steps| + 1 && trace[0] == START
    && forall i | 0 <= i < |steps| :: Next(sum, trace[i], trace[i + 1], steps[i])
  }

  lemma {:induction false} Reached(sum: Digest, trace: seq<State>, steps: seq<Step>, i: nat)
    requires IsDigest(sum) && Behaviour(sum, trace, steps) && i < |trace|
    ensures Inv(sum, trace[i])
  {
    if i > 0 {
      Reached(sum, trace, steps, i - 1);
      NextInv(sum, trace[i - 1], trace[i], steps[i - 1]);
    }
  }

  lemma LaterExtends(a: Db, b: Db, c: Db)
    requires Extends(a, b) && Extends(b, c)
    ensures Extends(a, c)
  {
  }

  /**
   Exactly once, under every interleaving: at each moment every recorded migration's statement has
   been committed exactly once, under the checksum it is recorded with, no reservation is visible,
   and later moments keep what earlier ones recorded.
   */
  lemma {:induction false} ExactlyOnceInterleaved(sum: Digest, trace: seq<State>, steps: seq<Step>, i: nat, j: nat)
    requires IsDigest(sum) && Behaviour(sum, trace, steps) && i <= j < |trace|
    ensures Sound(sum, trace[j].db) && Extends(trace[i].db, trace[j].db)
    decreases j
  {
    Reached(sum, trace, steps, j);
    if i < j {
      ExactlyOnceInterleaved(sum, trace, steps, i, j - 1);
      Reached(sum, trace, steps, j - 1);
      NextInv(sum, trace[j - 1], trace[j], steps[j - 1]);
      LaterExtends(trace[i].db, trace[j - 1].db, trace[j].db);
    }
  }

  /** A run that commits leaves every file of its tree recorded under its current checksum, whoever applied it. */
  lemma CommittedRunIsRecorded(sum: Digest, trace: seq<State>, steps: seq<Step>, i: nat, k: nat)
    requires IsDigest(sum) && Behaviour(sum, trace, steps) && i < |steps| && steps[i].Commit?
    requires steps[i].c in trace[i].procs && k < |trace[i].procs[steps[i].c].run.Files()|
    ensures var run := trace[i].procs[steps[i].c].run;
            var file := run.Files()[k];
            file in run.contents && file in trace[i + 1].db.table && trace[i + 1].db.table[file] == sum(run.contents[file])
  {
    Reached(sum, trace, steps, i);
    var p := trace[i].procs[steps[i].c];
    assert Next(sum, trace[i], trace[i + 1], steps[i]);
    assert Fit(sum, trace[i].db, p) && Recorded(sum, trace[i].db, p, k);
  }

  /** The update that finalizes a reservation always finds its row: no other run can have taken the name. */
  lemma FinalizeFindsItsRow(sum: Digest, trace: seq<State>, steps: seq<Step>, i: nat, c: nat)
    requires IsDigest(sum) && Behaviour(sum, trace, steps) && i < |trace| && At(trace[i], c, Finalizing)
    ensures Finalized(sum, trace[i].procs[c]).Some?
    ensures trace[i].procs[c].Name() !in trace[i].db.table
    ensures forall d | d in trace[i].procs && d != c :: trace[i].procs[c].Name() !in trace[i].procs[d].own
  {
    Reached(sum, trace, steps, i);
    assert Fit(sum, trace[i].db, trace[i].procs[c]);
  }

  // -------------------------------------------------------- a run that is left alone

  /** n steps lead from one state to the other. */
  ghost predicate Reaches(sum: Digest, s: State, t: State, n: nat)
    decreases n
  {
    if n == 0 then s == t else exists mid, step :: Next(sum, s, mid, step) && Reaches(sum, mid, t, n - 1)
  }

  lemma {:induction false} ReachesThen(sum: Digest, s: State, m: State, t: State, a: nat, b: nat)
    requires Reaches(sum, s, m, a) && Reaches(sum, m, t, b)
    ensures Reaches(sum, s, t, a + b)
    decreases a
  {
    if a > 0 {
      var mid, step :| Next(sum, s, mid, step) && Reaches(sum, mid, m, a - 1);
      ReachesThen(sum, mid, m, t, a - 1, b);
    }
  }

  lemma OneStep(sum: Digest, s: State, t: State, step: Step)
    requires Next(sum, s, t, step)
    ensures Reaches(sum, s, t, 1)
  {
    assert Reaches(sum, t, t, 0);
  }

  lemma TwoSteps(sum: Digest, s: State, m: State, t: State, a: Step, b: Step)
    requires Next(sum, s, m, a) && Next(sum, m, t, b)
    ensures Reaches(sum, s, t, 2)
  {
    OneStep(sum, s, m, a);
    OneStep(sum, m, t, b);
    ReachesThen(sum, s, m, t, 1, 1);
  }

  /** The state in which one run is alone with the database. */
  function Alone(db: Db, c: nat, p: Proc): State {
    State(db, map[c := p])
  }

  /** The run has done its first k files as the uninterrupted program does them. */
  ghost predicate Abreast(sum: Digest, run: Run, db: Db, k: nat, p: Proc)
    requires k <= |run.Files()|
  {
    var tx := ApplyFiles(sum, run, db, run.Files(), k);
    && p.run == run && p.next == k && p.stage == Checking
    && tx.Some? && tx.value.db == Db(db.table + p.own, db.log + p.log)
  }

  lemma ReserveNew(sum: Digest, db: Db, c: nat, p: Proc)
    requires p.Ready() && p.stage == Checking && Applied(db.table + p.own, Record(sum, p), false) == Absent
    ensures Reaches(sum, Alone(db, c, p), Alone(db, c, Reserved(sum, p.(stage := Reserving))), 2)
  {
    hide Applied, Reaches;
    NotYet(sum, db, p);
    var checked := p.(stage := Reserving);
    var reserved := Reserved(sum, checked);
    var s, t, u := Alone(db, c, p), Alone(db, c, checked), Alone(db, c, reserved);
    assert t == s.(procs := s.procs[c := checked]) && u == t.(procs := t.procs[c := reserved]);
    TwoSteps(sum, s, t, u, Check(c, db.table), Reserve(c));
  }

  lemma NotYet(sum: Digest, db: Db, p: Proc)
    requires p.Ready() && Applied(db.table + p.own, Record(sum, p), false) == Absent
    ensures p.Name() !in db.table && p.Name() !in p.own
  {
    assert p.Name() !in db.table + p.own;
  }

  lemma FinishNew(sum: Digest, db: Db, c: nat, p: Proc)
    requires p.Ready() && p.stage == Running && p.Name() in p.own && p.own[p.Name()] == PENDING + sum(p.Text())
    ensures Finalized(sum, Executed(p)).Some?
    ensures Reaches(sum, Alone(db, c, p), Alone(db, c, Finalized(sum, Executed(p)).value), 2)
  {
    hide Reaches;
    var executed := Executed(p);
    var done := Finalized(sum, executed).value;
    var s, t, u := Alone(db, c, p), Alone(db, c, executed), Alone(db, c, done);
    assert t == s.(procs := s.procs[c := executed]) && u == t.(procs := t.procs[c := done]);
    TwoSteps(sum, s, t, u, Execute(c), Finalize(c));
  }

  /** The four statements of a new file. */
  lemma NewFile(sum: Digest, db: Db, c: nat, p: Proc) returns (p': Proc)
    requires p.Ready() && p.stage == Checking && Applied(db.table + p.own, Record(sum, p), false) == Absent
    ensures Reaches(sum, Alone(db, c, p), Alone(db, c, p'), 4)
    ensures p' == Proc(p.run, p.next + 1, Checking, p.own[p.Name() := sum(p.Text())], p.log + [Entry(p.Name(), p.Text())])
  {
    hide Applied, Reaches;
    var reserved := Reserved(sum, p.(stage := Reserving));
    ReserveNew(sum, db, c, p);
    FinishNew(sum, db, c, reserved);
    p' := Finalized(sum, Executed(reserved)).value;
    ReachesThen(sum, Alone(db, c, p), Alone(db, c, reserved), Alone(db, c, p'), 2, 2);
    assert p.own[p.Name() := PENDING + sum(p.Text())][p.Name() := sum(p.Text())] == p.own[p.Name() := sum(p.Text())];
  }

  lemma NextFile(sum: Digest, run: Run, db: Db, k: nat, c: nat, p: Proc) returns (p': Proc, n: nat)
    requires k < |run.Files()| && Abreast(sum, run, db, k, p) && ApplyFiles(sum, run, db, run.Files(), k + 1).Some?
    ensures Abreast(sum, run, db, k + 1, p') && Reaches(sum, Alone(db, c, p), Alone(db, c, p'), n)
  {
    hide Reaches;
    var tx := ApplyFiles(sum, run, db, run.Files(), k).value;
    assert ApplyFiles(sum, run, db, run.Files(), k + 1) == ApplyFile(sum, run, tx, run.Files()[k], run.faults(k));
    hide ApplyFiles, Alone;
    assert p.Ready() && tx.db.table == db.table + p.own;
    if Applied(db.table + p.own, Record(sum, p), false) == Present {
      p', n := p.(next := k + 1), 1;
      SkipFile(sum, db, c, p);
    } else {
      p' := NewFile(sum, db, c, p);
      n := 4;
      var name, digest := p.Name(), sum(p.Text());
      assert (db.table + p.own)[name := digest] == db.table + p.own[name := digest];
      assert db.log + p.log + [Entry(name, p.Text())] == db.log + (p.log + [Entry(name, p.Text())]);
    }
  }

  lemma SkipFile(sum: Digest, db: Db, c: nat, p: Proc)
    requires p.Ready() && p.stage == Checking && Applied(db.table + p.own, Record(sum, p), false) == Present
    ensures Reaches(sum, Alone(db, c, p), Alone(db, c, p.(next := p.next + 1)), 1)
  {
    hide Reaches;
    var s, p' := Alone(db, c, p), p.(next := p.next + 1);
    assert Alone(db, c, p') == s.(procs := s.procs[c := p']);
    OneStep(sum, s, Alone(db, c, p'), Check(c, db.table));
  }

  lemma {:induction false} FilesAlone(sum: Digest, run: Run, db: Db, k: nat, c: nat) returns (p: Proc, n: nat)
    requires k <= |run.Files()| && ApplyFiles(sum, run, db, run.Files(), k).Some?
    ensures Abreast(sum, run, db, k, p) && Reaches(sum, Alone(db, c, Proc(run, 0, Checking, map[], [])), Alone(db, c, p), n)
    decreases k
  {
    if k == 0 {
      p, n := Proc(run, 0, Checking, map[], []), 0;
      assert db.table + map[] == db.table && db.log + [] == db.log;
    } else {
      var before, m := FilesAlone(sum, run, db, k - 1, c);
      var more;
      p, more := NextFile(sum, run, db, k - 1, c, before);
      ReachesThen(sum, Alone(db, c, Proc(run, 0, Checking, map[], [])), Alone(db, c, before), Alone(db, c, p), m, more);
      n := m + more;
    }
  }

  /**
   What an uninterrupted run does is one of the histories: from a database without other runs,
   statement by statement, to the database the sequential program leaves.
   */
  lemma RunAlone(sum: Digest, run: Run, db: Db, c: nat)
    requires Migrate(sum, run, db).1.Some?
    ensures exists n: nat :: Reaches(sum, State(db, map[]), State(Migrate(sum, run, db).0, map[]), n)
  {
    var start := Proc(run, 0, Checking, map[], []);
    var p, n := FilesAlone(sum, run, db, |run.Files()|, c);
    var first, last, end := State(db, map[]), Alone(db, c, p), State(Migrate(sum, run, db).0, map[]);
    assert Alone(db, c, start) == first.(procs := first.procs[c := start]);
    OneStep(sum, first, Alone(db, c, start), Begin(c, run));
    ReachesThen(sum, first, Alone(db, c, start), last, 1, n);
    assert end == State(Committed(db, p), last.procs - {c});
    OneStep(sum, last, end, Commit(c));
    ReachesThen(sum, first, last, end, 1 + n, 1);
  }
}
