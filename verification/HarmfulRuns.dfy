/** For each kind of harmful step a run that reaches it from the start, without harm up to there. */
module HarmfulRuns {
  import opened Wrappers
  import opened Sequences
  import opened Octets
  import Paths
  import opened StorageManager
  import opened VersionTable
  import opened Cleanup
  import Lifecycle
  import P = SyncProtocol
  import opened RowsAndBytes

  /** Where a run takes place: a catalog, a digest and the stores it starts with. */
  datatype Site = Site(catalog: set<string>, sha: Bytes -> string, stores: Stores)

  /** Some run of proper events leads to the state, none of them harmful. */
  ghost predicate Reached(c: Site, s: P.System) {
    exists es :: RunTo(c, es, s)
  }

  ghost predicate RunTo(c: Site, es: seq<P.Event>, s: P.System) {
    && (forall i :: 0 <= i < |es| ==> P.ProperEvent(es[i]))
    && Harmless(c.catalog, c.sha, c.stores, es)
    && s == P.After(c.catalog, c.sha, c.stores, es)
  }

  /** A state without harm so far, and an event that makes a live row disagree with its bytes. */
  ghost predicate EndsInHarm(c: Site, s: P.System, e: P.Event) {
    Reached(c, s) && P.ProperEvent(e) && Sound(c.sha, s) && !Sound(c.sha, P.Step(c.catalog, c.sha, s, e))
  }

  lemma ReachedIsFine(c: Site, s: P.System)
    requires Tidy(c.stores) && Reached(c, s)
    ensures P.Inv(s) && Sound(c.sha, s)
  {
    var es :| RunTo(c, es, s);
    P.RunInv(c.catalog, c.sha, c.stores, es);
    RunSound(c.catalog, c.sha, c.stores, es);
  }

  lemma Harms(c: Site, s: P.System, e: P.Event)
    requires Tidy(c.stores) && Reached(c, s) && P.ProperEvent(e) && Harmful(c.catalog, c.sha, s, e)
    ensures EndsInHarm(c, s, e)
  {
    ReachedIsFine(c, s);
    StepSound(c.catalog, c.sha, s, e, P.Step(c.catalog, c.sha, s, e));
  }

  lemma StartReached(c: Site)
    ensures Reached(c, P.Start(c.stores))
  {
    assert RunTo(c, [], P.Start(c.stores));
  }

  lemma StillHarmless(c: Site, es: seq<P.Event>, e: P.Event)
    requires Harmless(c.catalog, c.sha, c.stores, es)
    requires !Harmful(c.catalog, c.sha, P.After(c.catalog, c.sha, c.stores, es), e)
    ensures Harmless(c.catalog, c.sha, c.stores, es + [e])
  {
    var more := es + [e];
    assert more[..|es|] == es;
    forall i | 0 <= i < |more|
      ensures !Harmful(c.catalog, c.sha, P.After(c.catalog, c.sha, c.stores, more[..i]), more[i])
    {
      if i < |es| {
        assert more[..i] == es[..i];
      }
    }
  }

  lemma Extend(c: Site, s: P.System, e: P.Event, s': P.System)
    requires Reached(c, s) && P.ProperEvent(e) && !Harmful(c.catalog, c.sha, s, e)
    requires s' == P.Step(c.catalog, c.sha, s, e)
    ensures Reached(c, s')
  {
    var es :| RunTo(c, es, s);
    StillHarmless(c, es, e);
    assert (es + [e])[..|es|] == es;
    assert RunTo(c, es + [e], s');
  }

  // A build on its way

  datatype Build = Build(product: string, version: string, filename: string, data: Bytes)

  function KeyFor(b: Build): Key {
    Key(b.product, b.version)
  }

  predicate ProperBuild(b: Build) {
    Paths.ProperIdentifiers(b.product, b.version, b.filename)
  }

  function PathFor(stores: Stores, b: Build): string {
    PathOn(stores, b.product, b.version, b.filename)
  }

  function Put(stores: Stores, b: Build): Stores {
    StoreIn(stores, b.product, b.version, b.filename, b.data)
  }

  /** Lock taken, file stored. */
  function WithStored(s: P.System, b: Build): P.System {
    s.(stores := Put(s.stores, b), syncs := s.syncs[b.product := P.Stored(b.version, PathFor(s.stores, b), b.data)])
  }

  lemma StoreReached(c: Site, s: P.System, b: Build)
    requires Reached(c, s) && ProperBuild(b) && b.product !in s.syncs
    ensures Reached(c, WithStored(s, b))
  {
    var locked := P.AfterTake(s, b.product);
    Extend(c, s, P.TakeLock(b.product), locked);
    PutReached(c, locked, b, WithStored(s, b));
  }

  lemma PutReached(c: Site, s: P.System, b: Build, s': P.System)
    requires Reached(c, s) && ProperBuild(b) && b.product in s.syncs && s.syncs[b.product].Fetching?
    requires s' == WithStored(s, b)
    ensures Reached(c, s')
  {
    Extend(c, s, P.PutFile(b.product, b.version, b.filename, b.data), s');
  }

  lemma StoredThere(stores: Stores, b: Build)
    requires Tidy(stores) && ProperBuild(b)
    ensures Tidy(Put(stores, b)) && PathFor(Put(stores, b), b) == PathFor(stores, b)
    ensures StoredFor(PathFor(stores, b), KeyFor(b)) && P.Find(Put(stores, b), PathFor(stores, b)) == Some(b.data)
    ensures !Missing(Put(stores, b), PathFor(stores, b))
  {
    P.PutPath(stores, b.product, b.version, b.filename, b.data);
    P.FindAfterStore(stores, b.product, b.version, b.filename, b.data, PathFor(stores, b));
    MissingIs(Put(stores, b), PathFor(stores, b));
  }

  function ReleaseFor(c: Site, b: Build, path: string): Release {
    Release(b.product, b.version, 0, c.sha(b.data), |b.data|, "filesystem", path)
  }

  /** The publication at time 0, without retention. */
  function PublishNow(b: Build, fails: bool): P.Event {
    P.PublishRow(b.product, 0, "filesystem", 0, 0, fails)
  }

  lemma PublishReached(c: Site, s: P.System, b: Build, path: string, rows: Table, s': P.System)
    requires Reached(c, s) && b.product in s.syncs && s.syncs[b.product] == P.Stored(b.version, path, b.data)
    requires !Missing(s.stores, path) && Publish(c.catalog, s.rows, ReleaseFor(c, b, path), 0, 0) == Ok(rows)
    requires s' == s.(rows := rows, syncs := s.syncs - {b.product})
    ensures Reached(c, s')
  {
    var e := PublishNow(b, false);
    assert P.ReleaseOf(c.sha, b.product, s.syncs[b.product], 0, "filesystem") == ReleaseFor(c, b, path);
    assert P.Published(c.catalog, c.sha, s, e) == Ok(rows);
    Extend(c, s, e, s');
  }

  lemma PutBack<K, V>(m: map<K, V>, k: K, v: V)
    requires k !in m
    ensures m[k := v] - {k} == m
  {
  }

  /** A whole sync. */
  lemma SyncReached(c: Site, s: P.System, b: Build, path: string, rows: Table, s': P.System)
    requires Tidy(s.stores) && Reached(c, s) && ProperBuild(b) && b.product !in s.syncs && path == PathFor(s.stores, b)
    requires Publish(c.catalog, s.rows, ReleaseFor(c, b, path), 0, 0) == Ok(rows)
    requires s' == s.(rows := rows, stores := Put(s.stores, b))
    ensures Reached(c, s')
  {
    StoreReached(c, s, b);
    StoredThere(s.stores, b);
    PutBack(s.syncs, b.product, P.Stored(b.version, path, b.data));
    PublishReached(c, WithStored(s, b), b, path, rows, s');
  }

  lemma FirstReached(c: Site, b: Build, s: P.System)
    requires Tidy(c.stores) && ProperBuild(b) && b.product in c.catalog
    requires s == P.System(map[KeyFor(b) := NewRow(ReleaseFor(c, b, PathFor(c.stores, b)), 0)], Put(c.stores, b), map[], map[])
    ensures Reached(c, s)
  {
    StartReached(c);
    Lifecycle.FirstPublish(c.catalog, ReleaseFor(c, b, PathFor(c.stores, b)));
    SyncReached(c, P.Start(c.stores), b, PathFor(c.stores, b), s.rows, s);
  }

  // A publication that fails

  /** A version is published, built again with contents of another size and stored; then the publication fails. */
  lemma FailedPublishRun(c: Site, b: Build, data: Bytes) returns (s: P.System, e: P.Event)
    requires Tidy(c.stores) && ProperBuild(b) && b.product in c.catalog && |data| != |b.data|
    ensures e.PublishRow? && e.fails && EndsInHarm(c, s, e)
  {
    var path, again := PathFor(c.stores, b), b.(data := data);
    var first := P.System(map[KeyFor(b) := NewRow(ReleaseFor(c, b, path), 0)], Put(c.stores, b), map[], map[]);
    FirstReached(c, b, first);
    StoreReached(c, first, again);
    StoredThere(c.stores, b);
    StoredThere(first.stores, again);
    s, e := WithStored(first, again), PublishNow(b, true);
    Harms(c, s, e);
  }

  // A cleanup pass that deletes

  /** Two builds of one product in a row leave the first one superseded and expired. */
  function BothPublished(c: Site, b: Build, b': Build): P.System {
    var r := NewRow(ReleaseFor(c, b, PathFor(c.stores, b)), 0);
    var first := Put(c.stores, b);
    P.System(map[KeyFor(b) := DemotedRow(r, 0, 0), KeyFor(b') := NewRow(ReleaseFor(c, b', PathFor(first, b')), 0)],
             Put(first, b'), map[], map[])
  }

  ghost predicate Rivals(c: Site, b: Build, b': Build) {
    && Tidy(c.stores) && ProperBuild(b) && ProperBuild(b') && b.product in c.catalog
    && b'.product == b.product && b'.version != b.version
  }

  lemma BothReached(c: Site, b: Build, b': Build)
    requires Rivals(c, b, b')
    ensures Reached(c, BothPublished(c, b, b')) && Expired(BothPublished(c, b, b').rows, 0) == {KeyFor(b)}
  {
    var r := NewRow(ReleaseFor(c, b, PathFor(c.stores, b)), 0);
    var first := P.System(map[KeyFor(b) := r], Put(c.stores, b), map[], map[]);
    FirstReached(c, b, first);
    StoredThere(c.stores, b);
    Lifecycle.SecondPublish(c.catalog, KeyFor(b), r, ReleaseFor(c, b', PathFor(first.stores, b')));
    SyncReached(c, first, b', PathFor(first.stores, b'), BothPublished(c, b, b').rows, BothPublished(c, b, b'));
  }

  /** A pass has deleted the file of the one expired row and is about to mark it. */
  function WithDropped(s: P.System, k: Key, path: string): P.System {
    s.(stores := DeleteIn(s.stores, path), passes := map[0 := P.Pass(0, s.rows, [k], 0, true)])
  }

  /** A pass that has found the one expired row. */
  function WithPass(s: P.System, k: Key): P.System {
    s.(passes := map[0 := P.Pass(0, s.rows, [k], 0, false)])
  }

  lemma BeginReached(c: Site, s: P.System, k: Key)
    requires Reached(c, s) && s.passes == map[] && Expired(s.rows, 0) == {k}
    ensures Reached(c, WithPass(s, k))
  {
    assert Elements([k]) == {k};
    Extend(c, s, P.BeginPass(0, 0, [k]), WithPass(s, k));
  }

  lemma DropGives(s: P.System, k: Key, path: string)
    requires k in s.rows && s.rows[k].path == path && path != ""
    ensures P.AfterDrop(WithPass(s, k), 0, NONE) == WithDropped(s, k, path)
  {
    UnderNoFaults(s.stores, path);
  }

  lemma ExtendDrop(c: Site, s: P.System, s': P.System)
    requires Reached(c, s) && s' == P.AfterDrop(s, 0, NONE)
    ensures Reached(c, s')
  {
    Extend(c, s, P.DropFile(0, NONE), s');
  }

  lemma DropReached(c: Site, s: P.System, k: Key, path: string)
    requires Reached(c, WithPass(s, k)) && k in s.rows && s.rows[k].path == path && path != ""
    ensures Reached(c, WithDropped(s, k, path))
  {
    DropGives(s, k, path);
    ExtendDrop(c, WithPass(s, k), WithDropped(s, k, path));
  }

  lemma DroppedGone(stores: Stores, path: string)
    requires Tidy(stores) && ParsePath(path).Some?
    ensures Missing(DeleteIn(stores, path), path)
  {
    P.FindAfterDelete(stores, path, NONE, path);
    UnderNoFaults(stores, path);
    MissingIs(DeleteIn(stores, path), path);
  }

  // A mark that fails, and a restart

  lemma DroppedLeavesGap(s: P.System, k: Key, path: string)
    requires P.Live(s.rows, k) && s.rows[k].path == path && Missing(DeleteIn(s.stores, path), path)
    ensures LeavesGap(WithDropped(s, k, path), 0)
  {
  }

  /** The state both have in common: the first version's file is gone, its row live. */
  lemma GapReached(c: Site, s: P.System, k: Key, path: string)
    requires Tidy(c.stores) && Reached(c, s) && s.passes == map[] && Expired(s.rows, 0) == {k}
    requires k in s.rows && s.rows[k].path == path && ParsePath(path).Some?
    ensures Reached(c, WithDropped(s, k, path)) && LeavesGap(WithDropped(s, k, path), 0)
  {
    ReachedIsFine(c, s);
    assert k in Expired(s.rows, 0);
    BeginReached(c, s, k);
    DropReached(c, s, k, path);
    DroppedGone(s.stores, path);
    DroppedLeavesGap(s, k, path);
  }

  lemma GapRun(c: Site, b: Build, b': Build) returns (s: P.System)
    requires Rivals(c, b, b')
    ensures Reached(c, s) && LeavesGap(s, 0) && s.syncs == map[] && s.passes.Keys == {0}
  {
    BothReached(c, b, b');
    StoredThere(c.stores, b);
    GapReached(c, BothPublished(c, b, b'), KeyFor(b), PathFor(c.stores, b));
    s := WithDropped(BothPublished(c, b, b'), KeyFor(b), PathFor(c.stores, b));
  }

  lemma FailedMarkRun(c: Site, b: Build, b': Build) returns (s: P.System, e: P.Event)
    requires Rivals(c, b, b')
    ensures e.MarkRow? && e.fails && EndsInHarm(c, s, e)
  {
    s := GapRun(c, b, b');
    e := P.MarkRow(0, true);
    Harms(c, s, e);
  }

  lemma RestartRun(c: Site, b: Build, b': Build) returns (s: P.System, e: P.Event)
    requires Rivals(c, b, b')
    ensures e.Restart? && EndsInHarm(c, s, e)
  {
    s := GapRun(c, b, b');
    e := P.Restart;
    Harms(c, s, e);
  }

  // A publication whose file is gone

  /** The pass goes on: the row is marked, nothing is left to do. */
  function WithMarked(s: P.System, k: Key, path: string): P.System
    requires k in s.rows
  {
    s.(rows := MarkDeleted(s.rows, s.rows[k].id), stores := DeleteIn(s.stores, path),
       passes := map[0 := P.Pass(0, s.rows, [k], 1, false)])
  }

  lemma MarkGives(s: P.System, k: Key, path: string)
    requires k in s.rows
    ensures P.AfterMark(WithDropped(s, k, path), 0, false) == WithMarked(s, k, path)
  {
  }

  lemma ExtendMark(c: Site, s: P.System, s': P.System)
    requires Reached(c, s) && s' == P.AfterMark(s, 0, false)
    ensures Reached(c, s')
  {
    Extend(c, s, P.MarkRow(0, false), s');
  }

  lemma MarkReached(c: Site, s: P.System, k: Key, path: string)
    requires Reached(c, WithDropped(s, k, path)) && k in s.rows
    ensures Reached(c, WithMarked(s, k, path))
  {
    MarkGives(s, k, path);
    ExtendMark(c, WithDropped(s, k, path), WithMarked(s, k, path));
  }

  lemma MissingHarms(c: Site, s: P.System, b: Build, path: string)
    requires b.product in s.syncs && s.syncs[b.product] == P.Stored(b.version, path, b.data) && Missing(s.stores, path)
    requires b.product in c.catalog && KeyFor(b) in s.rows && forall id :: !P.Running(s.passes, id)
    ensures Harmful(c.catalog, c.sha, s, PublishNow(b, false))
  {
    var rel := P.ReleaseOf(c.sha, b.product, s.syncs[b.product], 0, "filesystem");
    assert KeyOf(rel) == KeyFor(b);
    assert Publish(c.catalog, s.rows, rel, 0, 0).Ok?;
  }

  lemma SameDriver(stores: Stores, b: Build, b': Build)
    ensures PathFor(Put(stores, b'), b) == PathFor(stores, b)
  {
  }

  /** The first version is built again and stored; a pass deletes the file and marks the row; then the
      publication takes place. */
  lemma MissingFileRun(c: Site, b: Build, b': Build) returns (s: P.System, e: P.Event)
    requires Rivals(c, b, b')
    ensures e.PublishRow? && !e.fails && EndsInHarm(c, s, e)
  {
    var both, path := BothPublished(c, b, b'), PathFor(c.stores, b);
    BothReached(c, b, b');
    StoredThere(c.stores, b);
    SameDriver(c.stores, b, b);
    SameDriver(Put(c.stores, b), b, b');
    StoreReached(c, both, b);
    var stored := WithStored(both, b);
    GapReached(c, stored, KeyFor(b), path);
    MarkReached(c, stored, KeyFor(b), path);
    s, e := WithMarked(stored, KeyFor(b), path), PublishNow(b, false);
    MissingHarms(c, s, b, path);
    Harms(c, s, e);
  }

  lemma PlainName(name: string)
    requires name != "" && '.' !in name && '/' !in name && '\\' !in name
    ensures Paths.ValidIdentifier(name) && name != "."
  {
  }

  // A rollback between a pass's query and its mark

  lemma RollBackReached(c: Site, s: P.System, k: Key, rows: Table)
    requires Reached(c, s) && Rollback(s.rows, k, 0, 0) == Ok(rows)
    ensures Reached(c, s.(rows := rows))
  {
    Extend(c, s, P.RollBack(k, 0, 0), s.(rows := rows));
  }

  /** A pass has found row k expired, the row has been rolled back to, and the pass has deleted its file. */
  predicate AboutToHide(s: P.System, k: Key) {
    P.Running(s.passes, 0) && s.passes[0].dropped && P.HeadOf(s.passes[0]) == k && k in s.passes[0].snapshot
    && k in s.rows && s.rows[k].id == s.passes[0].snapshot[k].id
  }

  lemma DropThenHide(c: Site, s: P.System, k: Key) returns (s': P.System)
    requires Reached(c, s) && s.passes.Keys == {0} && P.Running(s.passes, 0) && !s.passes[0].dropped
    requires P.HeadOf(s.passes[0]) == k && k in s.passes[0].snapshot && k in s.rows
    requires s.rows[k].id == s.passes[0].snapshot[k].id
    ensures Reached(c, s') && AboutToHide(s', k) && s'.rows == s.rows
  {
    s' := P.AfterDrop(s, 0, NONE);
    ExtendDrop(c, s, s');
  }

  lemma MarkHides(s: P.System, k: Key)
    requires AboutToHide(s, k)
    ensures P.AfterMark(s, 0, false).rows == MarkDeleted(s.rows, s.rows[k].id)
  {
  }

  lemma RolledBackKeepsId(t: Table, k: Key, t': Table)
    requires Rollback(t, k, 0, 0) == Ok(t')
    ensures k in t && k in t' && t'[k].id == t[k].id
  {
  }

  lemma HiddenKnown(s: P.System, k: Key)
    requires CurrentVersion(s.rows, k.product) == Some(k)
    ensures Lifecycle.Known(P.AfterMark(s, 0, false).rows, k.product)
  {
    assert k in s.rows && k in P.AfterMark(s, 0, false).rows;
  }

  /** Two builds are published; a pass finds the first one expired; it is rolled back to and served
      again; the pass deletes its file and marks its row. No step of the run makes rows and bytes disagree, yet
      at its end the published product has nothing to serve. */
  lemma HiddenRun(c: Site, b: Build, b': Build) returns (s: P.System, s': P.System)
    requires Rivals(c, b, b')
    ensures Reached(c, s) && CurrentVersion(s.rows, b.product) == Some(KeyFor(b))
    ensures Reached(c, s') && s' == P.AfterMark(s, 0, false) && CurrentVersion(s'.rows, b.product) == None
  {
    var both, k := BothPublished(c, b, b'), KeyFor(b);
    BothReached(c, b, b');
    ReachedIsFine(c, both);
    BeginReached(c, both, k);
    assert k in Expired(both.rows, 0);
    var rows := Rollback(both.rows, k, 0, 0).value;
    RolledBackKeepsId(both.rows, k, rows);
    RollBackReached(c, WithPass(both, k), k, rows);
    s := DropThenHide(c, WithPass(both, k).(rows := rows), k);
    Lifecycle.RollbackBeforeMarkHides(both.rows, k, 0, 0, rows);
    MarkHides(s, k);
    s' := P.AfterMark(s, 0, false);
    ExtendMark(c, s, s');
  }

  /** Two builds of one product, with names as the program gives them. */
  lemma CityBuilds(sha: Bytes -> string) returns (c: Site, b: Build, b': Build)
    ensures c.sha == sha && Rivals(c, b, b') && b.product == "city" && |b.data| == 1
  {
    c := Site({"city"}, sha, Stores(Filesystem, "/data", map[], None));
    var filename := "City" + "." + "mmdb";
    b, b' := Build("city", "2026-09-04", filename, [1]), Build("city", "2026-09-05", filename, [2]);
    PlainName("city");
    PlainName("2026-09-04");
    PlainName("2026-09-05");
    Paths.ExtendedNameIsValid("City", "mmdb");
  }

  /** All of this occurs, whatever the digest. */
  lemma HarmsOccur(sha: Bytes -> string) returns (c: Site, s0: P.System, e0: P.Event, s1: P.System, e1: P.Event,
                                                  s2: P.System, e2: P.Event, s3: P.System, e3: P.Event, s4: P.System)
    ensures c.sha == sha
    ensures e0.PublishRow? && e0.fails && EndsInHarm(c, s0, e0)
    ensures e1.PublishRow? && !e1.fails && EndsInHarm(c, s1, e1)
    ensures e2.MarkRow? && e2.fails && EndsInHarm(c, s2, e2)
    ensures e3.Restart? && EndsInHarm(c, s3, e3)
    ensures Reached(c, s4) && Lifecycle.Known(s4.rows, "city") && CurrentVersion(s4.rows, "city").None?
  {
    var b, b': Build;
    c, b, b' := CityBuilds(sha);
    s0, e0 := FailedPublishRun(c, b, [1, 2]);
    s1, e1 := MissingFileRun(c, b, b');
    s2, e2 := FailedMarkRun(c, b, b');
    s3, e3 := RestartRun(c, b, b');
    var served: P.System;
    served, s4 := HiddenRun(c, b, b');
    HiddenKnown(served, KeyFor(b));
  }
}
