/** The migration runner: scripts applied once each, in version order, each with its record in one transaction. */
module Migrations {
  import opened Wrappers
  import opened Int64
  import opened MigrationFiles
  import Sorting

  /** The schema is whatever the scripts executed so far made it; schema_migrations keeps a checksum for
      each version applied. */
  datatype Database = Database(recorded: map<int, string>, executed: seq<string>)

  /** Where the work on one version breaks off, be it by an error or a crash. */
  datatype Fault = StatusQuery | Begin | Script | Record | Commit

  type Faults = map<int, Fault>

  predicate ByVersion(a: Migration, b: Migration) {
    a.version <= b.version
  }

  // Working through the versions

  /** Why the work on a migration stops, if it does. */
  function Obstacle(m: Migration, recorded: map<int, string>, faults: Faults): Option<MigrationError> {
    if m.version in faults && faults[m.version].StatusQuery? then Some(StepFailed(m.version))
    else if m.version in recorded then
      (if recorded[m.version] != m.hash then Some(ChecksumMismatch(m.version)) else None)
    else if m.version in faults then Some(StepFailed(m.version))
    else None
  }

  /** A migration done: recorded ones are left alone. */
  function Done(db: Database, m: Migration): Database {
    if m.version in db.recorded then db else Database(db.recorded[m.version := m.hash], db.executed + [m.content])
  }

  datatype Progress = Progress(db: Database, error: Option<MigrationError>)

  /** One more migration, unless the run has stopped. */
  function Advance(r: Progress, m: Migration, faults: Faults): Progress {
    if r.error.Some? then r
    else
      var stop := Obstacle(m, r.db.recorded, faults);
      if stop.Some? then Progress(r.db, stop) else Progress(Done(r.db, m), None)
  }

  /** The run over the first i migrations. */
  function RunTo(ms: seq<Migration>, i: nat, db: Database, faults: Faults): Progress
    requires i <= |ms|
  {
    if i == 0 then Progress(db, None) else Advance(RunTo(ms, i - 1, db, faults), ms[i - 1], faults)
  }

  // What a run means for the files

  /** Which version a file carries, if it is a script. */
  type Reading = (File, int) -> bool

  /** The files of these ascending versions, none of them on record before, were executed one after the other
      and recorded, and nothing else happened. */
  ghost predicate Ran(files: seq<File>, carries: Reading, sha: string -> string, before: Database, done: seq<File>,
                      versions: seq<int>, after: Database)
  {
    && |done| == |versions|
    && (forall i :: 0 <= i < |done| ==>
          done[i] in files && carries(done[i], versions[i]) && versions[i] !in before.recorded)
    && (forall i, j :: 0 <= i < j < |versions| ==> versions[i] < versions[j])
    && before.executed <= after.executed && |after.executed| == |before.executed| + |done|
    && (forall i :: 0 <= i < |done| ==> after.executed[|before.executed| + i] == done[i].content)
    && (forall v :: v in after.recorded <==> v in before.recorded || v in versions)
    && (forall v :: v in before.recorded ==> after.recorded[v] == before.recorded[v])
    && forall i :: 0 <= i < |done| ==> after.recorded[versions[i]] == sha(done[i].content)
  }

  ghost predicate RanSome(files: seq<File>, carries: Reading, sha: string -> string, before: Database, after: Database) {
    exists done, versions :: Ran(files, carries, sha, before, done, versions, after)
  }

  /** The file's version is on record with the file's checksum. */
  ghost predicate OnRecord(f: File, v: int, sha: string -> string, recorded: map<int, string>) {
    v in recorded && recorded[v] == sha(f.content)
  }

  /** Every script below a version is on record. */
  ghost predicate DoneBelow(files: seq<File>, carries: Reading, sha: string -> string, limit: int, recorded: map<int, string>) {
    forall f, v :: f in files && carries(f, v) && v < limit ==> OnRecord(f, v, sha, recorded)
  }

  /** A run that broke off at a version has done what comes before it and nothing of what comes after it. */
  ghost predicate StoppedAt(files: seq<File>, carries: Reading, sha: string -> string, before: Database, after: Database, v: int) {
    DoneBelow(files, carries, sha, v, after.recorded) && forall u :: u in after.recorded && u !in before.recorded ==> u <= v
  }

  /** How far the work on the scripts came, by the error it ended with, if any. */
  ghost predicate EndsAs(files: seq<File>, carries: Reading, sha: string -> string, faults: Faults, before: Database,
                         after: Database, error: Option<MigrationError>)
  {
    match error
    case None => forall f, v :: f in files && carries(f, v) ==> OnRecord(f, v, sha, after.recorded)
    case Some(ChecksumMismatch(v)) =>
      && StoppedAt(files, carries, sha, before, after, v) && v in after.recorded
      && exists f :: f in files && carries(f, v) && !OnRecord(f, v, sha, after.recorded)
    case Some(StepFailed(v)) => StoppedAt(files, carries, sha, before, after, v) && v in faults
    case Some(_) => false
  }

  /** No script contradicts the records, and no two of one version differ in checksum. */
  ghost predicate Fit(files: seq<File>, carries: Reading, sha: string -> string, recorded: map<int, string>) {
    && (forall f, v :: f in files && carries(f, v) && v in recorded ==> OnRecord(f, v, sha, recorded))
    && forall f, g, v :: f in files && g in files && carries(f, v) && carries(g, v) ==> sha(f.content) == sha(g.content)
  }

  /** The scripts run in version order, once each, with their records; how far, the error says; without faults to
      the end exactly if they fit. */
  ghost predicate WorkedOff(files: seq<File>, carries: Reading, sha: string -> string, faults: Faults, before: Database,
                            after: Database, error: Option<MigrationError>)
  {
    && RanSome(files, carries, sha, before, after)
    && EndsAs(files, carries, sha, faults, before, after, error)
    && (faults == map[] ==> (error.None? <==> Fit(files, carries, sha, before.recorded)))
  }

  /** What a run means for the files; a script without a version keeps it from beginning. */
  ghost predicate MeansForFiles(files: seq<File>, sha: string -> string, initFails: bool, faults: Faults, before: Database,
                                after: Database, error: Option<MigrationError>)
  {
    if initFails then after == before && error == Some(NotInitialized)
    else if AllVersioned(files) then WorkedOff(files, Carries, sha, faults, before, after, error)
    else after == before
         && exists f :: f in files && IsScript(f) && Unversioned(f) && error == Some(InvalidName(f.name))
  }

  class Migrator {
    var recorded: map<int, string>
    var executed: seq<string>

    function Model(): Database
      reads this
    {
      Database(recorded, executed)
    }

    constructor ()
      ensures Model() == Database(map[], [])
    {
      recorded, executed := map[], [];
    }

    method RunMigrations(files: seq<File>, sha: string -> string, initFails: bool, faults: Faults)
      returns (error: Option<MigrationError>)
      modifies this
      ensures initFails ==> error == Some(NotInitialized) && Model() == old(Model())
      ensures !initFails ==>
                match Collected(files, |files|, sha)
                case Err(e) => error == Some(e) && Model() == old(Model())
                case Ok(ms) =>
                  var sorted := Sorting.Sort(ByVersion, ms);
                  Progress(Model(), error) == RunTo(sorted, |sorted|, old(Model()), faults)
      ensures MeansForFiles(files, sha, initFails, faults, old(Model()), Model(), error)
    {
      ghost var before := Model();
      if initFails {
        return Some(NotInitialized);
      }
      var collected := Collect(files, sha);
      match collected
      case Err(e) =>
        error := Some(e);
        RefusalMeans(files, sha, faults, before, e);
      case Ok(ms) =>
        error := Process(Sorting.Sort(ByVersion, ms), faults);
        RunMeans(files, sha, ms, faults, before, Progress(Model(), error));
    }

    method Collect(files: seq<File>, sha: string -> string) returns (r: Result<seq<Migration>, MigrationError>)
      ensures r == Collected(files, |files|, sha)
    {
      var migrations: seq<Migration> := [];
      var i := 0;
      while i < |files|
        invariant 0 <= i <= |files|
        invariant Collected(files, i, sha) == Ok(migrations)
      {
        var f := files[i];
        if IsMigration(f) {
          if VersionOf(f).None? {
            BadNameStays(files, i + 1, |files|, sha);
            return Err(InvalidName(f.name));
          }
          migrations := migrations + [Load(f, sha)];
        }
        i := i + 1;
      }
      r := Ok(migrations);
    }

    method Process(ms: seq<Migration>, faults: Faults) returns (error: Option<MigrationError>)
      modifies this
      ensures Progress(Model(), error) == RunTo(ms, |ms|, old(Model()), faults)
    {
      var i := 0;
      while i < |ms|
        invariant 0 <= i <= |ms|
        invariant RunTo(ms, i, old(Model()), faults) == Progress(Model(), None)
      {
        error := ApplyOne(ms[i], if ms[i].version in faults then Some(faults[ms[i].version]) else None);
        if error.Some? {
          ErrorStays(ms, i + 1, |ms|, old(Model()), faults);
          return;
        }
        i := i + 1;
      }
      error := None;
    }

    /** The script and its record go in together or not at all. */
    method ApplyOne(m: Migration, fault: Option<Fault>) returns (error: Option<MigrationError>)
      modifies this
      ensures error == Obstacle(m, old(recorded), if fault.Some? then map[m.version := fault.value] else map[])
      ensures Model() == if error.Some? then old(Model()) else Done(old(Model()), m)
    {
      if fault == Some(StatusQuery) {
        return Some(StepFailed(m.version));
      }
      if m.version in recorded {
        return if recorded[m.version] != m.hash then Some(ChecksumMismatch(m.version)) else None;
      }
      if fault == Some(Begin) {
        return Some(StepFailed(m.version));
      }
      var before := (recorded, executed);
      if fault != Some(Script) {
        executed := executed + [m.content];
        if fault != Some(Record) {
          recorded := recorded[m.version := m.hash];
          if fault != Some(Commit) {
            return None;
          }
        }
      }
      recorded, executed := before.0, before.1;
      error := Some(StepFailed(m.version));
    }
  }

  lemma {:induction false} ErrorStays(ms: seq<Migration>, i: nat, j: nat, db: Database, faults: Faults)
    requires i <= j <= |ms| && RunTo(ms, i, db, faults).error.Some?
    ensures RunTo(ms, j, db, faults) == RunTo(ms, i, db, faults)
  {
    if i < j {
      ErrorStays(ms, i, j - 1, db, faults);
    }
  }

  // Where a run stops

  /** Distinct versions in order, as sorting leaves them. */
  ghost predicate Ascending(ms: seq<Migration>) {
    forall i, j :: 0 <= i < j < |ms| ==> ms[i].version < ms[j].version
  }

  /** The first i migrations done. */
  function AppliedTo(ms: seq<Migration>, i: nat, db: Database): Database
    requires i <= |ms|
  {
    if i == 0 then db else Done(AppliedTo(ms, i - 1, db), ms[i - 1])
  }

  /** The first obstacle from i on, seen before the run. */
  function StopAt(ms: seq<Migration>, i: nat, recorded: map<int, string>, faults: Faults): (n: nat)
    requires i <= |ms|
    ensures i <= n <= |ms|
    ensures n < |ms| ==> Obstacle(ms[n], recorded, faults).Some?
    ensures forall k :: i <= k < n ==> Obstacle(ms[k], recorded, faults).None?
    decreases |ms| - i
  {
    if i == |ms| || Obstacle(ms[i], recorded, faults).Some? then i else StopAt(ms, i + 1, recorded, faults)
  }

  /** What is recorded after the first i: the versions recorded before, and those of the first i with
      their own checksums. */
  lemma {:induction false} RecordedAfter(ms: seq<Migration>, i: nat, db: Database)
    requires Ascending(ms) && i <= |ms|
    ensures forall v :: v in db.recorded ==>
              v in AppliedTo(ms, i, db).recorded && AppliedTo(ms, i, db).recorded[v] == db.recorded[v]
    ensures forall k :: 0 <= k < i && ms[k].version !in db.recorded ==>
              ms[k].version in AppliedTo(ms, i, db).recorded && AppliedTo(ms, i, db).recorded[ms[k].version] == ms[k].hash
    ensures forall k :: i <= k < |ms| && ms[k].version !in db.recorded ==> ms[k].version !in AppliedTo(ms, i, db).recorded
    ensures forall v :: v in AppliedTo(ms, i, db).recorded && v !in db.recorded ==> exists k :: 0 <= k < i && ms[k].version == v
  {
    if i > 0 {
      RecordedAfter(ms, i - 1, db);
    }
  }

  /** The obstacle a run meets at a migration is the one that can be seen before it starts. */
  lemma ObstacleForeseen(ms: seq<Migration>, i: nat, db: Database, faults: Faults)
    requires Ascending(ms) && i < |ms|
    ensures Obstacle(ms[i], AppliedTo(ms, i, db).recorded, faults) == Obstacle(ms[i], db.recorded, faults)
  {
    RecordedAfter(ms, i, db);
  }

  lemma {:induction false} RunsToStop(ms: seq<Migration>, i: nat, db: Database, faults: Faults)
    requires Ascending(ms) && i <= StopAt(ms, 0, db.recorded, faults)
    ensures RunTo(ms, i, db, faults) == Progress(AppliedTo(ms, i, db), None)
  {
    if i > 0 {
      RunsToStop(ms, i - 1, db, faults);
      ObstacleForeseen(ms, i - 1, db, faults);
    }
  }

  /** Whatever breaks a run off, and wherever: it has done exactly the migrations before the first obstacle,
      in version order, and nothing else. */
  lemma RunIsPrefix(ms: seq<Migration>, db: Database, faults: Faults)
    requires Ascending(ms)
    ensures var stop := StopAt(ms, 0, db.recorded, faults);
            RunTo(ms, |ms|, db, faults)
            == Progress(AppliedTo(ms, stop, db), if stop < |ms| then Obstacle(ms[stop], db.recorded, faults) else None)
  {
    var stop := StopAt(ms, 0, db.recorded, faults);
    RunsToStop(ms, stop, db, faults);
    if stop < |ms| {
      ObstacleForeseen(ms, stop, db, faults);
      ErrorStays(ms, stop + 1, |ms|, db, faults);
    }
  }

  /** The scripts of the pending ones among the first i. */
  function PendingScripts(ms: seq<Migration>, i: nat, recorded: map<int, string>): seq<string>
    requires i <= |ms|
  {
    if i == 0 then []
    else PendingScripts(ms, i - 1, recorded) + if ms[i - 1].version in recorded then [] else [ms[i - 1].content]
  }

  lemma {:induction false} ExecutedAfter(ms: seq<Migration>, i: nat, db: Database)
    requires Ascending(ms) && i <= |ms|
    ensures AppliedTo(ms, i, db).executed == db.executed + PendingScripts(ms, i, db.recorded)
  {
    if i > 0 {
      ExecutedAfter(ms, i - 1, db);
      RecordedAfter(ms, i - 1, db);
    }
  }

  /** Going on from the first i is the same as not having stopped there. */
  lemma {:induction false} AppliedOn(ms: seq<Migration>, i: nat, j: nat, db: Database)
    requires Ascending(ms) && i <= |ms| && j <= |ms|
    ensures AppliedTo(ms, j, AppliedTo(ms, i, db)) == AppliedTo(ms, if i <= j then j else i, db)
  {
    if j > 0 {
      AppliedOn(ms, i, j - 1, db);
      if j <= i {
        RecordedAfter(ms, i, db);
        assert ms[j - 1].version in AppliedTo(ms, i, db).recorded;
      }
    }
  }

  /** Having done some without an obstacle puts none in the way of the next run, and takes none away. */
  lemma ObstacleUnmoved(ms: seq<Migration>, i: nat, k: nat, db: Database)
    requires Ascending(ms) && i <= StopAt(ms, 0, db.recorded, map[]) && k < |ms|
    ensures Obstacle(ms[k], AppliedTo(ms, i, db).recorded, map[]) == Obstacle(ms[k], db.recorded, map[])
  {
  }

  lemma {:induction false} StopUnmoved(ms: seq<Migration>, i: nat, from: nat, db: Database)
    requires Ascending(ms) && i <= StopAt(ms, 0, db.recorded, map[]) && from <= |ms|
    ensures StopAt(ms, from, AppliedTo(ms, i, db).recorded, map[]) == StopAt(ms, from, db.recorded, map[])
    decreases |ms| - from
  {
    if from < |ms| {
      StopUnmoved(ms, i, from + 1, db);
      ObstacleUnmoved(ms, i, from, db);
    }
  }

  lemma FaultsStopEarlier(ms: seq<Migration>, recorded: map<int, string>, faults: Faults)
    ensures StopAt(ms, 0, recorded, faults) <= StopAt(ms, 0, recorded, map[])
  {
  }

  lemma ResumeFrom(ms: seq<Migration>, db: Database, i: nat, db': Database)
    requires Ascending(ms) && i <= StopAt(ms, 0, db.recorded, map[]) && db' == AppliedTo(ms, i, db)
    ensures RunTo(ms, |ms|, db', map[]) == RunTo(ms, |ms|, db, map[])
  {
    var full := StopAt(ms, 0, db.recorded, map[]);
    RunIsPrefix(ms, db, map[]);
    RunIsPrefix(ms, db', map[]);
    StopUnmoved(ms, i, 0, db);
    AppliedOn(ms, i, full, db);
    if full < |ms| {
      ObstacleUnmoved(ms, i, full, db);
    }
  }

  /** A rerun without faults ends where a single run without faults would have ended, schema, records and
      verdict, wherever the first run broke off. */
  lemma ResumeCompletes(ms: seq<Migration>, db: Database, faults: Faults)
    requires Ascending(ms)
    ensures RunTo(ms, |ms|, RunTo(ms, |ms|, db, faults).db, map[]) == RunTo(ms, |ms|, db, map[])
  {
    var broke := StopAt(ms, 0, db.recorded, faults);
    RunIsPrefix(ms, db, faults);
    FaultsStopEarlier(ms, db.recorded, faults);
    ResumeFrom(ms, db, broke, AppliedTo(ms, broke, db));
  }

  /** The database after several runs, each with its faults. */
  function AfterRuns(ms: seq<Migration>, db: Database, runs: seq<Faults>): Database {
    if runs == [] then db else RunTo(ms, |ms|, AfterRuns(ms, db, runs[..|runs| - 1]), runs[|runs| - 1]).db
  }

  /** Any number of broken runs has executed each pending script at most once, in version order without a
      gap, and completes to the same end. */
  lemma {:induction false} RunsAreOne(ms: seq<Migration>, db: Database, runs: seq<Faults>)
    requires Ascending(ms)
    ensures RunTo(ms, |ms|, AfterRuns(ms, db, runs), map[]) == RunTo(ms, |ms|, db, map[])
    ensures exists i :: 0 <= i <= |ms| && AfterRuns(ms, db, runs) == AppliedTo(ms, i, db)
                        && AfterRuns(ms, db, runs).executed == db.executed + PendingScripts(ms, i, db.recorded)
  {
    if runs == [] {
      assert AfterRuns(ms, db, runs) == AppliedTo(ms, 0, db);
      ExecutedAfter(ms, 0, db);
    } else {
      var before, faults := runs[..|runs| - 1], runs[|runs| - 1];
      var mid := AfterRuns(ms, db, before);
      RunsAreOne(ms, db, before);
      var i :| 0 <= i <= |ms| && mid == AppliedTo(ms, i, db);
      ResumeCompletes(ms, mid, faults);
      RunIsPrefix(ms, mid, faults);
      var stop := StopAt(ms, 0, mid.recorded, faults);
      AppliedOn(ms, i, stop, db);
      ExecutedAfter(ms, if i <= stop then stop else i, db);
    }
  }

  lemma CompleteRunDoesAll(ms: seq<Migration>, db: Database, faults: Faults, db': Database)
    requires Ascending(ms) && RunTo(ms, |ms|, db, faults) == Progress(db', None)
    ensures db' == AppliedTo(ms, |ms|, db)
  {
    RunIsPrefix(ms, db, faults);
  }

  lemma DoneStaysDone(ms: seq<Migration>, db: Database, again: Faults)
    requires Ascending(ms)
    ensures RunTo(ms, |ms|, AppliedTo(ms, |ms|, db), again).db == AppliedTo(ms, |ms|, db)
  {
    var db' := AppliedTo(ms, |ms|, db);
    RunIsPrefix(ms, db', again);
    AppliedOn(ms, |ms|, StopAt(ms, 0, db'.recorded, again), db);
  }

  /** After a complete run another one, whatever goes wrong in it, changes nothing. */
  lemma RerunDoesNothing(ms: seq<Migration>, db: Database, faults: Faults, again: Faults, db': Database)
    requires Ascending(ms) && RunTo(ms, |ms|, db, faults) == Progress(db', None)
    ensures RunTo(ms, |ms|, db', again).db == db'
  {
    CompleteRunDoesAll(ms, db, faults, db');
    DoneStaysDone(ms, db, again);
  }

  /** A checksum that differs stops the run there: of that version and the later ones nothing is touched. */
  lemma MismatchStops(ms: seq<Migration>, db: Database, faults: Faults, k: nat)
    requires Ascending(ms) && k < |ms| && ms[k].version in db.recorded && db.recorded[ms[k].version] != ms[k].hash
    ensures var r := RunTo(ms, |ms|, db, faults);
            && r.error.Some?
            && forall v :: v >= ms[k].version ==>
                 (v in r.db.recorded <==> v in db.recorded) && (v in db.recorded ==> r.db.recorded[v] == db.recorded[v])
    ensures exists i :: 0 <= i <= k && RunTo(ms, |ms|, db, faults).db == AppliedTo(ms, i, db)
                        && RunTo(ms, |ms|, db, faults).db.executed == db.executed + PendingScripts(ms, i, db.recorded)
  {
    var stop := StopAt(ms, 0, db.recorded, faults);
    assert Obstacle(ms[k], db.recorded, faults).Some?;
    RunIsPrefix(ms, db, faults);
    RecordedAfter(ms, stop, db);
    ExecutedAfter(ms, stop, db);
  }

  /** A run that ends without error has every migration on record with its own checksum. */
  lemma {:induction false} CompleteRunRecordsAll(ms: seq<Migration>, n: nat, db: Database, faults: Faults, k: nat)
    requires k < n <= |ms| && RunTo(ms, n, db, faults).error.None?
    ensures var recorded := RunTo(ms, n, db, faults).db.recorded;
            ms[k].version in recorded && recorded[ms[k].version] == ms[k].hash
  {
    if k < n - 1 {
      CompleteRunRecordsAll(ms, n - 1, db, faults, k);
    }
  }

  /** Every recorded version among the first n has its own checksum on record, and no two of the first n
      carry one version with different checksums. */
  ghost predicate Consistent(ms: seq<Migration>, n: nat, recorded: map<int, string>)
    requires n <= |ms|
  {
    && (forall i :: 0 <= i < n && ms[i].version in recorded ==> recorded[ms[i].version] == ms[i].hash)
    && forall i, j :: 0 <= i < j < n && ms[i].version == ms[j].version ==> ms[i].hash == ms[j].hash
  }

  /** What is on record after a run over the first n that met no error, whatever their versions. */
  ghost predicate RecordsOf(ms: seq<Migration>, n: nat, recorded: map<int, string>, recorded': map<int, string>)
    requires n <= |ms|
  {
    && (forall v :: v in recorded ==> v in recorded' && recorded'[v] == recorded[v])
    && (forall i :: 0 <= i < n ==> ms[i].version in recorded' && recorded'[ms[i].version] == ms[i].hash)
    && forall v :: v in recorded' && v !in recorded ==> exists i :: 0 <= i < n && ms[i].version == v
  }

  ghost predicate ExactlyConsistent(ms: seq<Migration>, n: nat, recorded: map<int, string>, r: Progress)
    requires n <= |ms|
  {
    && (r.error.None? <==> Consistent(ms, n, recorded))
    && (r.error.None? ==> RecordsOf(ms, n, recorded, r.db.recorded))
  }

  /** A run without faults completes if and only if its files are consistent with each other and with what
      is on record; nothing is asked of their versions otherwise. */
  lemma {:induction false} CompletesExactly(ms: seq<Migration>, n: nat, db: Database)
    requires n <= |ms|
    ensures RunTo(ms, n, db, map[]).error.None? <==> Consistent(ms, n, db.recorded)
    ensures ExactlyConsistent(ms, n, db.recorded, RunTo(ms, n, db, map[]))
  {
    if n > 0 {
      CompletesExactly(ms, n - 1, db);
      AdvanceExactly(ms, n, db.recorded, RunTo(ms, n - 1, db, map[]));
    }
  }

  lemma AdvanceExactly(ms: seq<Migration>, n: nat, recorded: map<int, string>, r: Progress)
    requires 0 < n <= |ms| && ExactlyConsistent(ms, n - 1, recorded, r)
    ensures ExactlyConsistent(ms, n, recorded, Advance(r, ms[n - 1], map[]))
  {
    if r.error.None? {
      OneMoreConsistent(ms, n, recorded, r.db.recorded);
    }
  }

  lemma OneMoreConsistent(ms: seq<Migration>, n: nat, recorded: map<int, string>, recorded': map<int, string>)
    requires 0 < n <= |ms| && Consistent(ms, n - 1, recorded) && RecordsOf(ms, n - 1, recorded, recorded')
    ensures var m := ms[n - 1]; Obstacle(m, recorded', map[]).None? <==> Consistent(ms, n, recorded)
    ensures var m := ms[n - 1]; Obstacle(m, recorded', map[]).None? ==>
              RecordsOf(ms, n, recorded, if m.version in recorded' then recorded' else recorded'[m.version := m.hash])
  {
    var m := ms[n - 1];
    if m.version in recorded' && m.version !in recorded {
      var i :| 0 <= i < n - 1 && ms[i].version == m.version;
    }
  }

  /** So two files of one version with different contents keep every run from completing. */
  lemma DuplicateVersionBlocks(ms: seq<Migration>, db: Database, faults: Faults, i: nat, j: nat)
    requires i < j < |ms| && ms[i].version == ms[j].version && ms[i].hash != ms[j].hash
    ensures RunTo(ms, |ms|, db, faults).error.Some?
  {
    if RunTo(ms, |ms|, db, faults).error.None? {
      CompleteRunRecordsAll(ms, |ms|, db, faults, i);
      CompleteRunRecordsAll(ms, |ms|, db, faults, j);
    }
  }

  // From the directory to ascending versions

  /** No two files carry the same version. */
  ghost predicate DistinctVersions(ms: seq<Migration>) {
    && (forall a, b :: a in ms && b in ms && a.version == b.version ==> a == b)
    && forall m :: multiset(ms)[m] <= 1
  }

  lemma ByVersionOrders()
    ensures Sorting.Total(ByVersion) && Sorting.Transitive(ByVersion)
  {
  }

  lemma DistinctSortsAscending(ms: seq<Migration>)
    requires DistinctVersions(ms)
    ensures Ascending(Sorting.Sort(ByVersion, ms))
  {
    var sorted := Sorting.Sort(ByVersion, ms);
    ByVersionOrders();
    Sorting.SortSorts(ByVersion, ms);
    forall i, j | 0 <= i < j < |sorted|
      ensures sorted[i].version < sorted[j].version
    {
      assert sorted[i] in multiset(ms) && sorted[j] in multiset(ms);
      if sorted[i].version == sorted[j].version {
        Twice(sorted, i, j);
      }
    }
  }

  lemma Twice(s: seq<Migration>, i: nat, j: nat)
    requires i < j < |s| && s[i] == s[j]
    ensures multiset(s)[s[i]] >= 2
  {
    assert s == s[..j] + s[j..];
    assert s[i] in s[..j] && s[j] in s[j..];
  }

  /** The order in which the directory lists the files makes no difference, nor does the sorting used. */
  lemma ListingOrderIrrelevant(ms: seq<Migration>, listed: seq<Migration>, sorted: seq<Migration>)
    requires DistinctVersions(ms) && multiset(listed) == multiset(ms)
    requires multiset(sorted) == multiset(listed) && Sorting.Sorted(ByVersion, sorted)
    ensures sorted == Sorting.Sort(ByVersion, ms)
  {
    ByVersionOrders();
    Sorting.AnySort(ByVersion, ms, sorted);
  }

  // From migrations back to files

  lemma RefusalMeans(files: seq<File>, sha: string -> string, faults: Faults, db: Database, e: MigrationError)
    requires Collected(files, |files|, sha) == Err(e)
    ensures MeansForFiles(files, sha, false, faults, db, db, Some(e))
  {
    RefusedExactly(files, |files|, sha);
  }

  lemma RunMeans(files: seq<File>, sha: string -> string, collected: seq<Migration>, faults: Faults, before: Database, r: Progress)
    requires Collected(files, |files|, sha) == Ok(collected)
    requires var ms := Sorting.Sort(ByVersion, collected); r == RunTo(ms, |ms|, before, faults)
    ensures MeansForFiles(files, sha, false, faults, before, r.db, r.error)
  {
    CollectedRepresents(files, sha, collected);
    RunEnds(files, Carries, sha, Sorting.Sort(ByVersion, collected), before, faults, r);
  }

  /** The migration if a run that has come so far executes it. */
  function IfExecuted(r: Progress, m: Migration, faults: Faults): seq<Migration> {
    if r.error.Some? || Obstacle(m, r.db.recorded, faults).Some? || m.version in r.db.recorded then [] else [m]
  }

  /** The migrations a run over the first i executes. */
  function Executed(ms: seq<Migration>, i: nat, db: Database, faults: Faults): seq<Migration>
    requires i <= |ms|
  {
    if i == 0 then []
    else Executed(ms, i - 1, db, faults) + IfExecuted(RunTo(ms, i - 1, db, faults), ms[i - 1], faults)
  }

  /** None of the first n has a later version than this one. */
  ghost predicate UpTo(ms: seq<Migration>, n: nat, version: int)
    requires n <= |ms|
  {
    forall i :: 0 <= i < n ==> ms[i].version <= version
  }

  lemma SortedUpTo(ms: seq<Migration>, n: nat)
    requires Sorting.Sorted(ByVersion, ms) && n < |ms|
    ensures UpTo(ms, n, ms[n].version)
  {
    forall i | 0 <= i < n
      ensures ms[i].version <= ms[n].version
    {
      assert ByVersion(ms[i], ms[n]);
    }
  }

  lemma {:induction false} ExecutedUpTo(ms: seq<Migration>, n: nat, db: Database, faults: Faults, version: int)
    requires n <= |ms| && UpTo(ms, n, version)
    ensures UpTo(Executed(ms, n, db, faults), |Executed(ms, n, db, faults)|, version)
  {
    if n > 0 {
      ExecutedUpTo(ms, n - 1, db, faults, version);
    }
  }

  /** None of them was on record before, and their versions ascend. */
  ghost predicate Pending(ms: seq<Migration>, recorded: map<int, string>) {
    Ascending(ms) && forall i :: 0 <= i < |ms| ==> ms[i].version !in recorded
  }

  lemma {:induction false} AppliedToFront(ms: seq<Migration>, m: Migration, n: nat, db: Database)
    requires n <= |ms|
    ensures AppliedTo(ms + [m], n, db) == AppliedTo(ms, n, db)
  {
    if n > 0 {
      AppliedToFront(ms, m, n - 1, db);
    }
  }

  lemma OneMorePending(picked: seq<Migration>, db: Database, m: Migration)
    requires Pending(picked, db.recorded) && UpTo(picked, |picked|, m.version)
    requires m.version !in AppliedTo(picked, |picked|, db).recorded
    ensures Pending(picked + [m], db.recorded)
    ensures AppliedTo(picked + [m], |picked| + 1, db) == Done(AppliedTo(picked, |picked|, db), m)
  {
    RecordedAfter(picked, |picked|, db);
    AppliedToFront(picked, m, |picked|, db);
  }

  /** The first n migrations have come to what these come to, each of them for the first time. */
  ghost predicate Amounts(db: Database, picked: seq<Migration>, db': Database) {
    Pending(picked, db.recorded) && db' == AppliedTo(picked, |picked|, db)
  }

  lemma AdvanceAmounts(db: Database, picked: seq<Migration>, r: Progress, m: Migration, faults: Faults,
                       picked': seq<Migration>, r': Progress)
    requires Amounts(db, picked, r.db) && UpTo(picked, |picked|, m.version)
    requires picked' == picked + IfExecuted(r, m, faults) && r' == Advance(r, m, faults)
    ensures Amounts(db, picked', r'.db)
  {
    if IfExecuted(r, m, faults) == [] {
      assert picked' == picked;
    } else {
      OneMorePending(picked, db, m);
    }
  }

  /** A run does exactly what it executes, in ascending versions, each the first time. */
  lemma {:induction false} RunAmounts(ms: seq<Migration>, n: nat, db: Database, faults: Faults)
    requires n <= |ms| && Sorting.Sorted(ByVersion, ms)
    ensures Amounts(db, Executed(ms, n, db, faults), RunTo(ms, n, db, faults).db)
  {
    if n > 0 {
      SortedUpTo(ms, n - 1);
      RunAmounts(ms, n - 1, db, faults);
      ExecutedUpTo(ms, n - 1, db, faults, ms[n - 1].version);
      AdvanceAmounts(db, Executed(ms, n - 1, db, faults), RunTo(ms, n - 1, db, faults), ms[n - 1], faults,
                     Executed(ms, n, db, faults), RunTo(ms, n, db, faults));
    }
  }

  lemma {:induction false} PendingInOrder(ms: seq<Migration>, n: nat, recorded: map<int, string>)
    requires n <= |ms| && forall i :: 0 <= i < |ms| ==> ms[i].version !in recorded
    ensures |PendingScripts(ms, n, recorded)| == n
    ensures forall i :: 0 <= i < n ==> PendingScripts(ms, n, recorded)[i] == ms[i].content
  {
    if n > 0 {
      PendingInOrder(ms, n - 1, recorded);
    }
  }

  ghost predicate FileOf(m: Migration, f: File, carries: Reading, sha: string -> string) {
    carries(f, m.version) && m.content == f.content && m.hash == sha(f.content)
  }

  ghost predicate Backed(m: Migration, files: seq<File>, carries: Reading, sha: string -> string) {
    exists f :: f in files && FileOf(m, f, carries, sha)
  }

  ghost predicate Listed(f: File, v: int, ms: seq<Migration>, sha: string -> string) {
    exists i :: 0 <= i < |ms| && ms[i].version == v && ms[i].content == f.content && ms[i].hash == sha(f.content)
  }

  /** The migrations are the files' scripts, in whatever order. */
  ghost predicate Represents(ms: seq<Migration>, files: seq<File>, carries: Reading, sha: string -> string) {
    && (forall i :: 0 <= i < |ms| ==> Backed(ms[i], files, carries, sha))
    && forall f, v :: f in files && carries(f, v) ==> Listed(f, v, ms, sha)
  }

  lemma {:induction false} ExecutedBacked(ms: seq<Migration>, n: nat, db: Database, faults: Faults, files: seq<File>,
                                          carries: Reading, sha: string -> string)
    requires n <= |ms| && forall i :: 0 <= i < n ==> Backed(ms[i], files, carries, sha)
    ensures forall i :: 0 <= i < |Executed(ms, n, db, faults)| ==> Backed(Executed(ms, n, db, faults)[i], files, carries, sha)
  {
    if n > 0 {
      ExecutedBacked(ms, n - 1, db, faults, files, carries, sha);
    }
  }

  /** A file behind each of these migrations. */
  lemma {:induction false} FilesBehind(files: seq<File>, carries: Reading, sha: string -> string, picked: seq<Migration>)
    returns (done: seq<File>, versions: seq<int>)
    requires forall i :: 0 <= i < |picked| ==> Backed(picked[i], files, carries, sha)
    ensures |done| == |versions| == |picked|
    ensures forall i :: 0 <= i < |picked| ==>
              done[i] in files && FileOf(picked[i], done[i], carries, sha) && versions[i] == picked[i].version
  {
    done, versions := [], [];
    if picked != [] {
      var n := |picked| - 1;
      done, versions := FilesBehind(files, carries, sha, picked[..n]);
      assert Backed(picked[n], files, carries, sha);
      var f :| f in files && FileOf(picked[n], f, carries, sha);
      done, versions := done + [f], versions + [picked[n].version];
    }
  }

  lemma AppliedRecords(before: Database, picked: seq<Migration>, after: Database, versions: seq<int>)
    requires Amounts(before, picked, after)
    requires |versions| == |picked| && forall i :: 0 <= i < |picked| ==> versions[i] == picked[i].version
    ensures forall v :: v in before.recorded ==> v in after.recorded && after.recorded[v] == before.recorded[v]
    ensures forall v :: v in after.recorded <==> v in before.recorded || v in versions
    ensures forall i :: 0 <= i < |picked| ==> versions[i] in after.recorded && after.recorded[versions[i]] == picked[i].hash
  {
    RecordedAfter(picked, |picked|, before);
    forall v | v in after.recorded && v !in before.recorded
      ensures v in versions
    {
      var i :| 0 <= i < |picked| && picked[i].version == v;
      assert versions[i] == v;
    }
  }

  lemma AppliedScripts(before: Database, picked: seq<Migration>, after: Database)
    requires Amounts(before, picked, after)
    ensures before.executed <= after.executed && |after.executed| == |before.executed| + |picked|
    ensures forall i :: 0 <= i < |picked| ==> after.executed[|before.executed| + i] == picked[i].content
  {
    ExecutedAfter(picked, |picked|, before);
    PendingInOrder(picked, |picked|, before.recorded);
  }

  lemma AppliedRan(files: seq<File>, carries: Reading, sha: string -> string, before: Database, picked: seq<Migration>,
                   after: Database)
    requires Amounts(before, picked, after)
    requires forall i :: 0 <= i < |picked| ==> Backed(picked[i], files, carries, sha)
    ensures RanSome(files, carries, sha, before, after)
  {
    var done, versions := FilesBehind(files, carries, sha, picked);
    AppliedRecords(before, picked, after, versions);
    AppliedScripts(before, picked, after);
    assert Ran(files, carries, sha, before, done, versions, after);
  }

  /** Where a run met its error. */
  lemma {:induction false} ErrorOrigin(ms: seq<Migration>, n: nat, db: Database, faults: Faults) returns (k: nat)
    requires n <= |ms| && RunTo(ms, n, db, faults).error.Some?
    ensures k < n && RunTo(ms, k, db, faults) == Progress(RunTo(ms, n, db, faults).db, None)
    ensures Obstacle(ms[k], RunTo(ms, n, db, faults).db.recorded, faults) == RunTo(ms, n, db, faults).error
  {
    if RunTo(ms, n - 1, db, faults).error.Some? {
      k := ErrorOrigin(ms, n - 1, db, faults);
    } else {
      k := n - 1;
    }
  }

  /** The first n migrations are on record. */
  ghost predicate RecordedFirst(ms: seq<Migration>, n: nat, recorded: map<int, string>)
    requires n <= |ms|
  {
    forall i :: 0 <= i < n ==> ms[i].version in recorded && recorded[ms[i].version] == ms[i].hash
  }

  lemma FirstOnRecord(sha: string -> string, ms: seq<Migration>, n: nat, recorded: map<int, string>, f: File, v: int)
    requires Listed(f, v, ms, sha) && Sorting.Sorted(ByVersion, ms)
    requires n <= |ms| && RecordedFirst(ms, n, recorded) && (n < |ms| ==> v < ms[n].version)
    ensures OnRecord(f, v, sha, recorded)
  {
    var i :| 0 <= i < |ms| && ms[i].version == v && ms[i].content == f.content && ms[i].hash == sha(f.content);
    assert n < i ==> ByVersion(ms[n], ms[i]);
  }

  lemma RunRecords(ms: seq<Migration>, n: nat, db: Database, faults: Faults, db': Database)
    requires n <= |ms| && Sorting.Sorted(ByVersion, ms) && RunTo(ms, n, db, faults) == Progress(db', None)
    ensures RecordedFirst(ms, n, db'.recorded)
    ensures n < |ms| ==> forall v :: v in db'.recorded && v !in db.recorded ==> v <= ms[n].version
  {
    forall i | 0 <= i < n
      ensures ms[i].version in db'.recorded && db'.recorded[ms[i].version] == ms[i].hash
    {
      CompleteRunRecordsAll(ms, n, db, faults, i);
    }
    if n < |ms| {
      SortedUpTo(ms, n);
      RunAmounts(ms, n, db, faults);
      ExecutedUpTo(ms, n, db, faults, ms[n].version);
      var picked := Executed(ms, n, db, faults);
      RecordedAfter(picked, |picked|, db);
    }
  }

  lemma RunEndsAs(files: seq<File>, carries: Reading, sha: string -> string, ms: seq<Migration>, before: Database, faults: Faults,
                  r: Progress)
    requires Represents(ms, files, carries, sha) && Sorting.Sorted(ByVersion, ms) && r == RunTo(ms, |ms|, before, faults)
    ensures EndsAs(files, carries, sha, faults, before, r.db, r.error)
  {
    var n := |ms|;
    if r.error.Some? {
      n := ErrorOrigin(ms, |ms|, before, faults);
    }
    RunRecords(ms, n, before, faults, r.db);
    forall f, v | f in files && carries(f, v) && (n < |ms| ==> v < ms[n].version)
      ensures OnRecord(f, v, sha, r.db.recorded)
    {
      FirstOnRecord(sha, ms, n, r.db.recorded, f, v);
    }
    if n < |ms| {
      assert Backed(ms[n], files, carries, sha);
    }
  }

  lemma ConsistentFits(files: seq<File>, carries: Reading, sha: string -> string, ms: seq<Migration>, recorded: map<int, string>)
    requires Represents(ms, files, carries, sha) && Consistent(ms, |ms|, recorded)
    ensures Fit(files, carries, sha, recorded)
  {
    forall f, g, v | f in files && g in files && carries(f, v) && carries(g, v)
      ensures v in recorded ==> OnRecord(f, v, sha, recorded)
      ensures sha(f.content) == sha(g.content)
    {
      assert Listed(f, v, ms, sha) && Listed(g, v, ms, sha);
      ListedAgree(ms, f, g, v, sha, recorded);
    }
  }

  lemma ListedAgree(ms: seq<Migration>, f: File, g: File, v: int, sha: string -> string, recorded: map<int, string>)
    requires Listed(f, v, ms, sha) && Listed(g, v, ms, sha) && Consistent(ms, |ms|, recorded)
    ensures v in recorded ==> OnRecord(f, v, sha, recorded)
    ensures sha(f.content) == sha(g.content)
  {
    var i :| 0 <= i < |ms| && ms[i].version == v && ms[i].content == f.content && ms[i].hash == sha(f.content);
    var j :| 0 <= j < |ms| && ms[j].version == v && ms[j].content == g.content && ms[j].hash == sha(g.content);
  }

  lemma FitIsConsistent(files: seq<File>, carries: Reading, sha: string -> string, ms: seq<Migration>, recorded: map<int, string>)
    requires Represents(ms, files, carries, sha) && Fit(files, carries, sha, recorded)
    ensures Consistent(ms, |ms|, recorded)
  {
    forall i, j | 0 <= i < |ms| && 0 <= j < |ms|
      ensures ms[i].version in recorded ==> recorded[ms[i].version] == ms[i].hash
      ensures ms[i].version == ms[j].version ==> ms[i].hash == ms[j].hash
    {
      assert Backed(ms[i], files, carries, sha) && Backed(ms[j], files, carries, sha);
      var f :| f in files && FileOf(ms[i], f, carries, sha);
      var g :| g in files && FileOf(ms[j], g, carries, sha);
      assert ms[i].version in recorded ==> OnRecord(f, ms[i].version, sha, recorded);
    }
  }

  lemma RunEnds(files: seq<File>, carries: Reading, sha: string -> string, ms: seq<Migration>, before: Database, faults: Faults,
                r: Progress)
    requires Represents(ms, files, carries, sha) && Sorting.Sorted(ByVersion, ms) && r == RunTo(ms, |ms|, before, faults)
    ensures WorkedOff(files, carries, sha, faults, before, r.db, r.error)
  {
    RunAmounts(ms, |ms|, before, faults);
    ExecutedBacked(ms, |ms|, before, faults, files, carries, sha);
    AppliedRan(files, carries, sha, before, Executed(ms, |ms|, before, faults), r.db);
    RunEndsAs(files, carries, sha, ms, before, faults, r);
    if faults == map[] {
      CompletesExactly(ms, |ms|, before);
      if Consistent(ms, |ms|, before.recorded) {
        ConsistentFits(files, carries, sha, ms, before.recorded);
      } else if Fit(files, carries, sha, before.recorded) {
        FitIsConsistent(files, carries, sha, ms, before.recorded);
      }
    }
  }

  lemma SortedMembers(collected: seq<Migration>, ms: seq<Migration>)
    requires ms == Sorting.Sort(ByVersion, collected)
    ensures Sorting.Sorted(ByVersion, ms) && forall m :: m in ms <==> m in collected
  {
    ByVersionOrders();
    Sorting.SortSorts(ByVersion, collected);
    assert forall m :: m in ms <==> m in multiset(ms);
    assert forall m :: m in collected <==> m in multiset(collected);
  }

  /** So a script that is alone with its version, and whose version was not on record, is among those executed. */
  lemma LoneScriptExecuted(files: seq<File>, sha: string -> string, faults: Faults, before: Database, after: Database, f: File,
                           v: int)
    requires MeansForFiles(files, sha, false, faults, before, after, None)
    requires f in files && Carries(f, v) && v !in before.recorded && forall g :: g in files && Carries(g, v) ==> g == f
    ensures before.executed <= after.executed && f.content in after.executed[|before.executed|..]
    ensures v in after.recorded && after.recorded[v] == sha(f.content)
  {
    assert OnRecord(f, v, sha, after.recorded);
    var done, versions :| Ran(files, Carries, sha, before, done, versions, after);
    assert v in versions;
    var i :| 0 <= i < |versions| && versions[i] == v;
    assert done[i] == f;
    assert after.executed[|before.executed|..][i] == f.content;
  }

  lemma CollectedRepresents(files: seq<File>, sha: string -> string, collected: seq<Migration>)
    requires Collected(files, |files|, sha) == Ok(collected)
    ensures var ms := Sorting.Sort(ByVersion, collected);
            Represents(ms, files, Carries, sha) && Sorting.Sorted(ByVersion, ms)
    ensures AllVersioned(files)
  {
    var ms := Sorting.Sort(ByVersion, collected);
    SortedMembers(collected, ms);
    RefusedExactly(files, |files|, sha);
    assert files[..|files|] == files;
    forall i | 0 <= i < |ms|
      ensures Backed(ms[i], files, Carries, sha)
    {
      assert ms[i] in collected;
      var f := ScriptBehind(files, |files|, sha, collected, ms[i]);
      assert FileOf(ms[i], f, Carries, sha);
    }
    forall f, v | f in files && Carries(f, v)
      ensures Listed(f, v, ms, sha)
    {
      var m := CollectedFor(files, |files|, sha, collected, f, v);
      assert m in ms;
    }
  }
}
