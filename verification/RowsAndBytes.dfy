/** When the rows agree with the bytes at their paths, while syncs, rollbacks, driver switches, cleanup
    passes and restarts run at once: exactly as long as no publication, failing mark or restart falls at a
    bad moment. */
module RowsAndBytes {
  import opened Wrappers
  import opened Octets
  import Paths
  import FilesystemStore
  import opened StorageManager
  import opened VersionTable
  import opened Cleanup
  import opened SyncProtocol

  /** The bytes have the row's digest and size. */
  predicate Fits(sha: Bytes -> string, r: Row, data: Bytes) {
    sha(data) == r.sha256 && |data| == r.sizeBytes
  }

  /** A sync has written to the row's path and is about to publish. */
  predicate Storing(syncs: Syncs, k: Key, path: string) {
    Holding(syncs, k.product) && syncs[k.product].version == k.version && syncs[k.product].path == path
  }

  /** A pass has been through its delete for the row and is about to mark it. */
  predicate PurgedBy(passes: Passes, id: nat, k: Key) {
    Running(passes, id) && passes[id].dropped && HeadOf(passes[id]) == k
  }

  ghost predicate Purging(passes: Passes, k: Key) {
    exists id :: PurgedBy(passes, id, k)
  }

  /** A live row matches its file; while a sync is between store and publish the file may be another than
      the row's, and while a pass is between delete and mark it may be missing. */
  ghost predicate RowSound(sha: Bytes -> string, r: Row, k: Key, held: Option<Bytes>, syncs: Syncs, passes: Passes) {
    || (held.Some? && Fits(sha, r, held.value))
    || Storing(syncs, k, r.path)
    || (held.None? && Purging(passes, k))
  }

  ghost predicate SoundAt(sha: Bytes -> string, s: System, k: Key)
    requires k in s.rows
  {
    RowSound(sha, s.rows[k], k, Find(s.stores, s.rows[k].path), s.syncs, s.passes)
  }

  ghost predicate Sound(sha: Bytes -> string, s: System) {
    forall k :: Live(s.rows, k) ==> SoundAt(sha, s, k)
  }

  // The steps that do harm, told before they are taken

  /** There is no file where a stored path points. */
  predicate Missing(s: Stores, path: string) {
    OpenIn(s, path) == Err(FilesystemStore.NotFound)
  }

  lemma MissingIs(s: Stores, path: string)
    requires Tidy(s) && ParsePath(path).Some?
    ensures Missing(s, path) <==> Find(s, path).None?
  {
    FindOpens(s, path);
  }

  /** The sync of p has replaced the file of a live row by one the row does not describe, or the file has
      been deleted since. */
  predicate LeavesBehind(sha: Bytes -> string, s: System, p: string)
    requires Holding(s.syncs, p)
  {
    var j := s.syncs[p];
    var k := Key(p, j.version);
    Live(s.rows, k) && s.rows[k].path == j.path && (Missing(s.stores, j.path) || !Fits(sha, s.rows[k], j.data))
  }

  /** A publication does harm if it takes place with the file gone, or if it does not and leaves a live row
      behind; in either case a missing file is no harm while a pass is about to mark the row. */
  ghost predicate PublishHarms(catalog: set<string>, sha: Bytes -> string, s: System, e: Event)
    requires e.PublishRow?
  {
    && Holding(s.syncs, e.product)
    && var j := s.syncs[e.product];
       var marked := Missing(s.stores, j.path) && Purging(s.passes, Key(e.product, j.version));
       && !marked
       && if Published(catalog, sha, s, e).Ok? then Missing(s.stores, j.path) else LeavesBehind(sha, s, e.product)
  }

  /** Another pass is between delete and mark for the row. */
  ghost predicate OtherPurging(passes: Passes, id: nat, k: Key) {
    exists id0 :: id0 != id && PurgedBy(passes, id0, k)
  }

  /** The row a pass is at is live, and its file is gone. */
  predicate LeavesGap(s: System, id: nat) {
    && Running(s.passes, id)
    && s.passes[id].dropped
    && var k := HeadOf(s.passes[id]); Live(s.rows, k) && Missing(s.stores, s.rows[k].path)
  }

  /** A mark that fails does harm if it leaves such a row and neither a sync nor another pass will see to it. */
  ghost predicate FailedMarkHarms(s: System, id: nat) {
    && LeavesGap(s, id)
    && var k := HeadOf(s.passes[id]); !Storing(s.syncs, k, s.rows[k].path) && !OtherPurging(s.passes, id, k)
  }

  /** A restart does harm if it forgets a sync or a pass that would have put a row right. */
  ghost predicate RestartHarms(sha: Bytes -> string, s: System) {
    (exists p :: Holding(s.syncs, p) && LeavesBehind(sha, s, p)) || (exists id :: LeavesGap(s, id))
  }

  ghost predicate Harmful(catalog: set<string>, sha: Bytes -> string, s: System, e: Event) {
    match e
    case PublishRow(_, _, _, _, _, _) => PublishHarms(catalog, sha, s, e)
    case MarkRow(id, fails) => fails && FailedMarkHarms(s, id)
    case Restart => RestartHarms(sha, s)
    case _ => false
  }

  // Step by step

  /** Taking a lock, and letting go of one before anything is stored. */
  lemma LocksKeepSound(sha: Bytes -> string, s: System, s': System)
    requires Sound(sha, s) && s' == s.(syncs := s'.syncs)
    requires forall p :: Holding(s.syncs, p) ==> Holding(s'.syncs, p) && s'.syncs[p] == s.syncs[p]
    ensures Sound(sha, s')
  {
    forall k | Live(s.rows, k)
      ensures SoundAt(sha, s', k)
    {
      assert SoundAt(sha, s, k);
    }
  }

  lemma SwitchKeepsSound(sha: Bytes -> string, s: System, d: string, s': System)
    requires Inv(s) && Sound(sha, s) && SwitchTo(s.stores, d).Ok? && s' == s.(stores := SwitchTo(s.stores, d).value)
    ensures Sound(sha, s')
  {
    forall k | Live(s.rows, k)
      ensures SoundAt(sha, s', k)
    {
      assert SoundAt(sha, s, k);
      FindAfterSwitch(s.stores, d, s'.stores, s.rows[k].path);
    }
  }

  /** Storing one version changes no other row's bytes. */
  lemma PutLeavesOthers(s: System, p: string, v: string, f: string, data: Bytes, k: Key)
    requires Inv(s) && Paths.ProperIdentifiers(p, v, f) && Live(s.rows, k) && k != Key(p, v)
    ensures Find(StoreIn(s.stores, p, v, f, data), s.rows[k].path) == Find(s.stores, s.rows[k].path)
  {
    var path := s.rows[k].path;
    PutPath(s.stores, p, v, f, data);
    FindAfterStore(s.stores, p, v, f, data, path);
    if path == PathOn(s.stores, p, v, f) {
      PathOwner(path, k, Key(p, v));
    }
  }

  lemma PutRowSound(sha: Bytes -> string, s: System, p: string, v: string, f: string, data: Bytes, s': System, k: Key)
    requires Inv(s) && Paths.ProperIdentifiers(p, v, f) && s' == AfterPut(s, p, v, f, data)
    requires p in s.syncs && s.syncs[p].Fetching? && Live(s.rows, k) && SoundAt(sha, s, k)
    ensures SoundAt(sha, s', k)
  {
    var path := s.rows[k].path;
    PutPath(s.stores, p, v, f, data);
    FindAfterStore(s.stores, p, v, f, data, path);
    if path == PathOn(s.stores, p, v, f) {
      PathOwner(path, k, Key(p, v));
      assert Storing(s'.syncs, k, path);
    } else {
      assert Storing(s.syncs, k, path) ==> Storing(s'.syncs, k, path);
    }
  }

  lemma PutStepSound(sha: Bytes -> string, s: System, p: string, v: string, f: string, data: Bytes, s': System)
    requires Inv(s) && Sound(sha, s) && (Paths.ValidIdentifiers(p, v, f) ==> Paths.ProperIdentifiers(p, v, f))
    requires s' == AfterPut(s, p, v, f, data)
    ensures Sound(sha, s')
  {
    if !Paths.ValidIdentifiers(p, v, f) {
      LocksKeepSound(sha, s, s');
    } else if p in s.syncs && s.syncs[p].Fetching? {
      forall k | Live(s.rows, k)
        ensures SoundAt(sha, s', k)
      {
        PutRowSound(sha, s, p, v, f, data, s', k);
      }
    }
  }

  predicate SameFile(r: Row, r': Row) {
    r'.path == r.path && r'.sha256 == r.sha256 && r'.sizeBytes == r.sizeBytes
  }

  lemma RollBackKeepsSound(sha: Bytes -> string, s: System, n: Key, days: int, now: Time, s': System)
    requires Sound(sha, s) && Rollback(s.rows, n, days, now).Ok? && s' == s.(rows := Rollback(s.rows, n, days, now).value)
    ensures Sound(sha, s')
  {
    forall k | Live(s'.rows, k)
      ensures SoundAt(sha, s', k)
    {
      assert Live(s.rows, k) && SameFile(s.rows[k], s'.rows[k]);
      assert SoundAt(sha, s, k);
    }
  }

  lemma PublishRows(catalog: set<string>, t: Table, rel: Release, days: int, now: Time, t': Table, k: Key)
    requires Publish(catalog, t, rel, days, now) == Ok(t') && Live(t', k)
    ensures if k == KeyOf(rel) then t'[k].path == rel.path && t'[k].sha256 == rel.sha256 && t'[k].sizeBytes == rel.sizeBytes
            else Live(t, k) && SameFile(t[k], t'[k])
  {
  }

  /** Rows of other versions than the one a sync stores do not depend on it. */
  lemma OthersStaySound(sha: Bytes -> string, s: System, p: string, k: Key, r: Row)
    requires Holding(s.syncs, p) && Live(s.rows, k) && SoundAt(sha, s, k) && SameFile(s.rows[k], r)
    requires k != Key(p, s.syncs[p].version) || r.path != s.syncs[p].path
    ensures RowSound(sha, r, k, Find(s.stores, r.path), s.syncs - {p}, s.passes)
  {
    assert Storing(s.syncs - {p}, k, r.path) == Storing(s.syncs, k, r.path);
  }

  /** A publication that takes place makes its row match its file, if the file is there. */
  lemma PublishSound(catalog: set<string>, sha: Bytes -> string, s: System, p: string, rel: Release, days: int,
                     now: Time, s': System)
    requires Inv(s) && Sound(sha, s) && Holding(s.syncs, p)
    requires rel == ReleaseOf(sha, p, s.syncs[p], rel.releasedAt, rel.backend)
    requires Publish(catalog, s.rows, rel, days, now) == Ok(s'.rows) && s' == s.(rows := s'.rows, syncs := s.syncs - {p})
    ensures Sound(sha, s') <==> Find(s.stores, rel.path).Some? || Purging(s.passes, KeyOf(rel))
  {
    var n := KeyOf(rel);
    forall k | Live(s'.rows, k) && k != n
      ensures SoundAt(sha, s', k)
    {
      PublishRows(catalog, s.rows, rel, days, now, s'.rows, k);
      OthersStaySound(sha, s, p, k, s'.rows[k]);
    }
    assert Live(s'.rows, n);
    PublishRows(catalog, s.rows, rel, days, now, s'.rows, n);
    assert FileIntact(s.stores, s.syncs[p]);
    assert SoundAt(sha, s', n) <==> Find(s.stores, rel.path).Some? || Purging(s.passes, n);
  }

  /** Giving up on a stored file leaves the row at its path to itself. */
  lemma FailedPublishSound(sha: Bytes -> string, s: System, p: string, s': System)
    requires Inv(s) && Sound(sha, s) && Holding(s.syncs, p) && s' == s.(syncs := s.syncs - {p})
    ensures var j := s.syncs[p]; var n := Key(p, j.version); var held := Find(s.stores, j.path);
            Sound(sha, s') <==> (Live(s.rows, n) && s.rows[n].path == j.path ==>
                                   if held.Some? then Fits(sha, s.rows[n], j.data) else Purging(s.passes, n))
  {
    var j := s.syncs[p];
    var n := Key(p, j.version);
    assert FileIntact(s.stores, j);
    forall k | Live(s.rows, k) && (k != n || s.rows[k].path != j.path)
      ensures SoundAt(sha, s', k)
    {
      OthersStaySound(sha, s, p, k, s.rows[k]);
    }
    if Live(s.rows, n) && s.rows[n].path == j.path {
      assert !Storing(s'.syncs, n, j.path);
      assert SoundAt(sha, s', n)
             <==> if Find(s.stores, j.path).Some? then Fits(sha, s.rows[n], j.data) else Purging(s.passes, n);
    }
  }

  lemma PublishStepSound(catalog: set<string>, sha: Bytes -> string, s: System, e: Event, s': System)
    requires Inv(s) && Sound(sha, s) && e.PublishRow? && s' == AfterPublish(catalog, sha, s, e)
    ensures Sound(sha, s') <==> !PublishHarms(catalog, sha, s, e)
  {
    if Holding(s.syncs, e.product) {
      MissingIs(s.stores, s.syncs[e.product].path);
      if Published(catalog, sha, s, e).Ok? {
        var rel := ReleaseOf(sha, e.product, s.syncs[e.product], e.releasedAt, e.backend);
        PublishSound(catalog, sha, s, e.product, rel, e.days, e.now, s');
      } else {
        FailedPublishSound(sha, s, e.product, s');
      }
    }
  }

  /** A new pass has deleted nothing yet. */
  lemma BeginKeepsSound(sha: Bytes -> string, s: System, id: nat, now: Time, order: seq<Key>, s': System)
    requires Sound(sha, s) && s' == AfterBegin(s, id, now, order)
    ensures Sound(sha, s')
  {
    forall k | Live(s.rows, k)
      ensures SoundAt(sha, s', k)
    {
      assert SoundAt(sha, s, k);
      if id0 :| PurgedBy(s.passes, id0, k) {
        assert PurgedBy(s'.passes, id0, k);
      }
    }
  }

  lemma DropMarksHead(s: System, id: nat, f: Faults, k: Key)
    requires Running(s.passes, id) && !s.passes[id].dropped
    ensures Purging(AfterDrop(s, id, f).passes, k) <==> Purging(s.passes, k) || k == HeadOf(s.passes[id])
  {
    var passes' := AfterDrop(s, id, f).passes;
    if id0 :| PurgedBy(s.passes, id0, k) {
      assert PurgedBy(passes', id0, k);
    }
    if id0 :| PurgedBy(passes', id0, k) {
      assert PurgedBy(s.passes, id0, k) || id0 == id;
    }
    assert k == HeadOf(s.passes[id]) ==> PurgedBy(passes', id, k);
  }

  /** A delete alone never does harm: the row it belongs to is about to be marked. */
  lemma DropKeepsSound(sha: Bytes -> string, s: System, id: nat, f: Faults, s': System)
    requires Inv(s) && Sound(sha, s) && s' == AfterDrop(s, id, f)
    ensures Sound(sha, s')
  {
    if Running(s.passes, id) && !s.passes[id].dropped {
      var head, gone := HeadOf(s.passes[id]), HeadPath(s.passes[id]);
      HeadIs(s, id);
      forall k | Live(s.rows, k)
        ensures SoundAt(sha, s', k)
      {
        var path := s.rows[k].path;
        assert SoundAt(sha, s, k);
        FindAfterDelete(s.stores, gone, f, path);
        DropMarksHead(s, id, f, k);
        if path == gone {
          PathOwner(path, k, head);
        }
      }
    }
  }

  lemma MarkMovesOn(s: System, id: nat, fails: bool, k: Key)
    requires Running(s.passes, id) && s.passes[id].dropped
    ensures Purging(AfterMark(s, id, fails).passes, k) <==> OtherPurging(s.passes, id, k)
    ensures k != HeadOf(s.passes[id]) && Purging(s.passes, k) ==> OtherPurging(s.passes, id, k)
  {
    var passes' := AfterMark(s, id, fails).passes;
    if id0 :| id0 != id && PurgedBy(s.passes, id0, k) {
      assert PurgedBy(passes', id0, k);
    }
    if id0 :| PurgedBy(passes', id0, k) {
      assert id0 != id && PurgedBy(s.passes, id0, k);
    }
  }

  lemma MarkKeepsSound(sha: Bytes -> string, s: System, id: nat, s': System)
    requires Inv(s) && Sound(sha, s) && Running(s.passes, id) && s.passes[id].dropped && s' == AfterMark(s, id, false)
    ensures Sound(sha, s')
  {
    var head := HeadOf(s.passes[id]);
    HeadIs(s, id);
    forall k | Live(s'.rows, k)
      ensures SoundAt(sha, s', k)
    {
      assert Live(s.rows, k) && s'.rows[k] == s.rows[k] && k != head;
      assert SoundAt(sha, s, k);
      MarkMovesOn(s, id, false, k);
    }
  }

  /** A mark that fails leaves its row to itself. */
  lemma FailedMarkSound(sha: Bytes -> string, s: System, id: nat, s': System)
    requires Inv(s) && Sound(sha, s) && Running(s.passes, id) && s.passes[id].dropped && s' == AfterMark(s, id, true)
    ensures Sound(sha, s') <==> !FailedMarkHarms(s, id)
  {
    var head := HeadOf(s.passes[id]);
    forall k | Live(s.rows, k) && k != head
      ensures SoundAt(sha, s', k)
    {
      assert SoundAt(sha, s, k);
      MarkMovesOn(s, id, true, k);
    }
    MarkMovesOn(s, id, true, head);
    if Live(s.rows, head) {
      assert SoundAt(sha, s, head);
      MissingIs(s.stores, s.rows[head].path);
    }
  }

  lemma MarkStepSound(sha: Bytes -> string, s: System, id: nat, fails: bool, s': System)
    requires Inv(s) && Sound(sha, s) && s' == AfterMark(s, id, fails)
    ensures Sound(sha, s') <==> !(fails && FailedMarkHarms(s, id))
  {
    if Running(s.passes, id) && s.passes[id].dropped {
      if fails {
        FailedMarkSound(sha, s, id, s');
      } else {
        MarkKeepsSound(sha, s, id, s');
      }
    }
  }

  /** What a restart leaves of a row: only a file that fits. */
  lemma RestartedRow(sha: Bytes -> string, s: System, k: Key)
    requires Live(s.rows, k)
    ensures var held := Find(s.stores, s.rows[k].path);
            SoundAt(sha, AfterRestart(s), k) <==> held.Some? && Fits(sha, s.rows[k], held.value)
  {
  }

  lemma RestartedSync(sha: Bytes -> string, s: System, p: string)
    requires Inv(s) && Holding(s.syncs, p) && Live(s.rows, Key(p, s.syncs[p].version))
    requires s.rows[Key(p, s.syncs[p].version)].path == s.syncs[p].path
    ensures SoundAt(sha, AfterRestart(s), Key(p, s.syncs[p].version)) <==> !LeavesBehind(sha, s, p)
  {
    RestartedRow(sha, s, Key(p, s.syncs[p].version));
    MissingIs(s.stores, s.syncs[p].path);
    assert FileIntact(s.stores, s.syncs[p]);
  }

  lemma RestartStepSound(sha: Bytes -> string, s: System, s': System)
    requires Inv(s) && Sound(sha, s) && s' == AfterRestart(s)
    ensures Sound(sha, s') <==> !RestartHarms(sha, s)
  {
    if p :| Holding(s.syncs, p) && LeavesBehind(sha, s, p) {
      RestartedSync(sha, s, p);
    }
    if id :| LeavesGap(s, id) {
      var k := HeadOf(s.passes[id]);
      RestartedRow(sha, s, k);
      MissingIs(s.stores, s.rows[k].path);
    }
    if !RestartHarms(sha, s) {
      forall k | Live(s.rows, k)
        ensures SoundAt(sha, s', k)
      {
        assert SoundAt(sha, s, k);
        RestartedRow(sha, s, k);
        MissingIs(s.stores, s.rows[k].path);
        if Storing(s.syncs, k, s.rows[k].path) {
          assert Key(k.product, k.version) == k;
          RestartedSync(sha, s, k.product);
        } else if id :| PurgedBy(s.passes, id, k) {
          assert !LeavesGap(s, id);
        }
      }
    }
  }

  /** One step of the whole system, from any state its runs can reach: every live row keeps matching its
      bytes exactly when the step does no harm. */
  lemma StepSound(catalog: set<string>, sha: Bytes -> string, s: System, e: Event, s': System)
    requires Inv(s) && Sound(sha, s) && ProperEvent(e) && s' == Step(catalog, sha, s, e)
    ensures Sound(sha, s') <==> !Harmful(catalog, sha, s, e)
  {
    match e
    case TakeLock(_) => LocksKeepSound(sha, s, s');
    case GiveUp(_) => LocksKeepSound(sha, s, s');
    case PutFile(p, v, f, data) => PutStepSound(sha, s, p, v, f, data, s');
    case PublishRow(_, _, _, _, _, _) => PublishStepSound(catalog, sha, s, e, s');
    case RollBack(k, days, now) =>
      if Rollback(s.rows, k, days, now).Ok? {
        RollBackKeepsSound(sha, s, k, days, now, s');
      }
    case SwitchDriver(d) =>
      if SwitchTo(s.stores, d).Ok? {
        SwitchKeepsSound(sha, s, d, s');
      }
    case BeginPass(id, now, order) => BeginKeepsSound(sha, s, id, now, order, s');
    case DropFile(id, f) => DropKeepsSound(sha, s, id, f, s');
    case MarkRow(id, fails) => MarkStepSound(sha, s, id, fails, s');
    case Restart => RestartStepSound(sha, s, s');
  }

  // Whole runs

  /** No event of the run did harm when it came. */
  ghost predicate Harmless(catalog: set<string>, sha: Bytes -> string, stores: Stores, es: seq<Event>) {
    forall i :: 0 <= i < |es| ==> !Harmful(catalog, sha, After(catalog, sha, stores, es[..i]), es[i])
  }

  lemma {:induction false} RunSound(catalog: set<string>, sha: Bytes -> string, stores: Stores, es: seq<Event>)
    requires Tidy(stores) && forall i :: 0 <= i < |es| ==> ProperEvent(es[i])
    requires Harmless(catalog, sha, stores, es)
    ensures Sound(sha, After(catalog, sha, stores, es))
  {
    if es != [] {
      var n := |es| - 1;
      var before := es[..n];
      assert forall i :: 0 <= i < n ==> before[i] == es[i] && before[..i] == es[..i];
      RunSound(catalog, sha, stores, before);
      RunInv(catalog, sha, stores, before);
      StepSound(catalog, sha, After(catalog, sha, stores, before), es[n], After(catalog, sha, stores, es));
    }
  }

  ghost predicate AlwaysSound(catalog: set<string>, sha: Bytes -> string, stores: Stores, es: seq<Event>) {
    forall n :: 0 <= n <= |es| ==> Sound(sha, After(catalog, sha, stores, es[..n]))
  }

  /** Rows and bytes agree at every moment of a run if and only if no event of it did harm. */
  lemma SoundExactlyWithoutHarm(catalog: set<string>, sha: Bytes -> string, stores: Stores, es: seq<Event>)
    requires Tidy(stores) && forall i :: 0 <= i < |es| ==> ProperEvent(es[i])
    ensures AlwaysSound(catalog, sha, stores, es) <==> Harmless(catalog, sha, stores, es)
  {
    if Harmless(catalog, sha, stores, es) {
      forall n | 0 <= n <= |es|
        ensures Sound(sha, After(catalog, sha, stores, es[..n]))
      {
        assert forall i :: 0 <= i < n ==> es[..n][..i] == es[..i];
        RunSound(catalog, sha, stores, es[..n]);
      }
    }
    if AlwaysSound(catalog, sha, stores, es) {
      forall i | 0 <= i < |es|
        ensures !Harmful(catalog, sha, After(catalog, sha, stores, es[..i]), es[i])
      {
        assert es[..i + 1][..i] == es[..i];
        RunInv(catalog, sha, stores, es[..i]);
        StepSound(catalog, sha, After(catalog, sha, stores, es[..i]), es[i], After(catalog, sha, stores, es[..i + 1]));
      }
    }
  }

  /** In a run without harm a live row opens to bytes with its digest and size, on whichever driver, while
      no sync holds its product's lock and no pass is about to mark it. */
  lemma RowsMatchBytes(catalog: set<string>, sha: Bytes -> string, stores: Stores, es: seq<Event>, k: Key)
    requires Tidy(stores) && (forall i :: 0 <= i < |es| ==> ProperEvent(es[i])) && Harmless(catalog, sha, stores, es)
    requires var s := After(catalog, sha, stores, es);
             Live(s.rows, k) && k.product !in s.syncs && !Purging(s.passes, k)
    ensures var s := After(catalog, sha, stores, es);
            OpenIn(s.stores, s.rows[k].path).Ok? && Fits(sha, s.rows[k], OpenIn(s.stores, s.rows[k].path).value)
  {
    var s := After(catalog, sha, stores, es);
    RunInv(catalog, sha, stores, es);
    RunSound(catalog, sha, stores, es);
    assert SoundAt(sha, s, k);
    FindOpens(s.stores, s.rows[k].path);
  }
}
