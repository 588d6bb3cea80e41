/** Syncs of many products, rollbacks, driver switches and cleanup passes running at once, as a step
    system: storing a file and publishing its row are separate steps, as are deleting a file and marking
    its row. */
module SyncProtocol {
  import opened Wrappers
  import opened Sequences
  import opened Octets
  import opened Paths
  import FilesystemStore
  import opened StorageManager
  import opened VersionTable
  import opened Cleanup
  import Lifecycle

  /** How far the sync holding a product's lock has come. */
  datatype Sync = Fetching | Stored(version: string, path: string, data: Bytes)

  /** A cleanup pass: what its query saw, and the row it is at. */
  datatype Pass = Pass(started: Time, snapshot: Table, order: seq<Key>, next: nat, dropped: bool)

  type Syncs = map<string, Sync>

  type Passes = map<nat, Pass>

  datatype System = System(rows: Table, stores: Stores, syncs: Syncs, passes: Passes)

  datatype Event =
    | TakeLock(product: string)
    | GiveUp(product: string)
    | PutFile(product: string, version: string, filename: string, data: Bytes)
    | PublishRow(product: string, releasedAt: Time, backend: string, days: int, now: Time, fails: bool)
    | RollBack(key: Key, days: int, now: Time)
    | SwitchDriver(driver: string)
    | BeginPass(pass: nat, now: Time, order: seq<Key>)
    | DropFile(pass: nat, faults: Faults)
    | MarkRow(pass: nat, fails: bool)
    | Restart

  /** Identifiers of stores do not contain "." components. */
  predicate ProperEvent(e: Event) {
    e.PutFile? && ValidIdentifiers(e.product, e.version, e.filename) ==> ProperIdentifiers(e.product, e.version, e.filename)
  }

  // The steps; an event that is not enabled changes nothing

  predicate Holding(syncs: Syncs, p: string) {
    p in syncs && syncs[p].Stored?
  }

  function AfterTake(s: System, p: string): System {
    if p in s.syncs then s else s.(syncs := s.syncs[p := Fetching])
  }

  /** Whatever goes wrong before the store, or the store itself, ends the sync. */
  function AfterGiveUp(s: System, p: string): System {
    if Holding(s.syncs, p) then s else s.(syncs := s.syncs - {p})
  }

  /** The store of a sync. One that fails leaves the stores alone and ends the sync, like any error before. */
  function AfterPut(s: System, p: string, v: string, f: string, data: Bytes): System {
    if p !in s.syncs || s.syncs[p].Stored? then s
    else if !CanStore(s.stores, p, v, f) then s.(syncs := s.syncs - {p})
    else s.(stores := StoreIn(s.stores, p, v, f, data),
            syncs := s.syncs[p := Stored(v, PathOn(s.stores, p, v, f), data)])
  }

  function ReleaseOf(sha: Bytes -> string, p: string, job: Sync, releasedAt: Time, backend: string): Release
    requires job.Stored?
  {
    Release(p, job.version, releasedAt, sha(job.data), |job.data|, backend, job.path)
  }

  /** The publication of what a sync has stored; it may fail for reasons of its own. */
  function Published(catalog: set<string>, sha: Bytes -> string, s: System, e: Event): Result<Table, DbError>
    requires e.PublishRow? && Holding(s.syncs, e.product)
  {
    if e.fails then Err(DbFailure)
    else Publish(catalog, s.rows, ReleaseOf(sha, e.product, s.syncs[e.product], e.releasedAt, e.backend), e.days, e.now)
  }

  /** Either way the lock is released, and nothing takes the file back. */
  function AfterPublish(catalog: set<string>, sha: Bytes -> string, s: System, e: Event): System
    requires e.PublishRow?
  {
    if !Holding(s.syncs, e.product) then s
    else
      var r := Published(catalog, sha, s, e);
      s.(rows := if r.Ok? then r.value else s.rows, syncs := s.syncs - {e.product})
  }

  /** The order lists every expired row once. */
  function AfterBegin(s: System, id: nat, now: Time, order: seq<Key>): System {
    var expired := Expired(s.rows, now);
    if id in s.passes || Elements(order) != expired || |order| != |expired| then s
    else s.(passes := s.passes[id := Pass(now, s.rows, order, 0, false)])
  }

  predicate Running(passes: Passes, id: nat) {
    id in passes && passes[id].next < |passes[id].order|
  }

  /** The row a pass is at. */
  function HeadOf(p: Pass): Key
    requires p.next < |p.order|
  {
    p.order[p.next]
  }

  /** The path the pass's query saw for that row. */
  function HeadPath(p: Pass): string
    requires p.next < |p.order|
  {
    if HeadOf(p) in p.snapshot then p.snapshot[HeadOf(p)].path else ""
  }

  function AfterDrop(s: System, id: nat, f: Faults): System {
    if !Running(s.passes, id) || s.passes[id].dropped then s
    else
      var path := HeadPath(s.passes[id]);
      s.(stores := if path == "" then s.stores else DeleteUnder(s.stores, path, f),
         passes := s.passes[id := s.passes[id].(dropped := true)])
  }

  function AfterMark(s: System, id: nat, fails: bool): System {
    if !Running(s.passes, id) || !s.passes[id].dropped then s
    else
      var p := s.passes[id];
      s.(rows := if fails || HeadOf(p) !in p.snapshot then s.rows else MarkDeleted(s.rows, p.snapshot[HeadOf(p)].id),
         passes := s.passes[id := p.(next := p.next + 1, dropped := false)])
  }

  /** The process dies and comes back: rows and files stay, locks and passes are forgotten. */
  function AfterRestart(s: System): System {
    s.(syncs := map[], passes := map[])
  }

  function Step(catalog: set<string>, sha: Bytes -> string, s: System, e: Event): System {
    match e
    case TakeLock(p) => AfterTake(s, p)
    case GiveUp(p) => AfterGiveUp(s, p)
    case PutFile(p, v, f, data) => AfterPut(s, p, v, f, data)
    case PublishRow(_, _, _, _, _, _) => AfterPublish(catalog, sha, s, e)
    case RollBack(k, days, now) =>
      var r := Rollback(s.rows, k, days, now);
      if r.Ok? then s.(rows := r.value) else s
    case SwitchDriver(d) =>
      var r := SwitchTo(s.stores, d);
      if r.Ok? then s.(stores := r.value) else s
    case BeginPass(id, now, order) => AfterBegin(s, id, now, order)
    case DropFile(id, f) => AfterDrop(s, id, f)
    case MarkRow(id, fails) => AfterMark(s, id, fails)
    case Restart => AfterRestart(s)
  }

  function StepAll(catalog: set<string>, sha: Bytes -> string, s: System, es: seq<Event>): System {
    if es == [] then s else Step(catalog, sha, StepAll(catalog, sha, s, es[..|es| - 1]), es[|es| - 1])
  }

  // A pass whose steps follow each other is the pass of Cleanup

  /** The events of a pass up to its n-th row. */
  function PassEvents(id: nat, t: Table, now: Time, order: seq<Key>, n: nat, broken: map<string, Faults>, unmarked: set<Key>):
    seq<Event>
    requires n <= |order|
  {
    if n == 0 then [BeginPass(id, now, order)]
    else
      var k := order[n - 1];
      PassEvents(id, t, now, order, n - 1, broken, unmarked)
      + [DropFile(id, if k in t then FaultsAt(broken, t[k].path) else NONE), MarkRow(id, k in unmarked)]
  }

  lemma StepAllTwo(catalog: set<string>, sha: Bytes -> string, s: System, es: seq<Event>, id: nat, f: Faults, fails: bool,
                   mid: System)
    requires StepAll(catalog, sha, s, es) == mid
    ensures StepAll(catalog, sha, s, es + [DropFile(id, f), MarkRow(id, fails)]) == AfterMark(AfterDrop(mid, id, f), id, fails)
  {
    var a, b := DropFile(id, f), MarkRow(id, fails);
    assert (es + [a, b])[..|es| + 1] == es + [a];
    assert (es + [a])[..|es|] == es;
  }

  lemma DropThenMark(s: System, id: nat, p: Pass, broken: map<string, Faults>, unmarked: set<Key>)
    requires id in s.passes && s.passes[id] == p && p.next < |p.order| && !p.dropped && HeadOf(p) in p.snapshot
    ensures var k := HeadOf(p);
            AfterMark(AfterDrop(s, id, FaultsAt(broken, p.snapshot[k].path)), id, k in unmarked)
            == s.(rows := MarkedOne(p.snapshot, s.rows, k, unmarked), stores := EmptiedOne(p.snapshot, s.stores, k, broken),
                  passes := s.passes[id := p.(next := p.next + 1)])
  {
    var k := HeadOf(p);
    var dropped := AfterDrop(s, id, FaultsAt(broken, p.snapshot[k].path));
    assert dropped.passes[id] == p.(dropped := true);
    assert dropped.passes[id := p.(next := p.next + 1)] == s.passes[id := p.(next := p.next + 1)];
  }

  /** What n rounds of the pass's method make of rows and stores, with the pass at the row after them. */
  function AfterRounds(s: System, id: nat, now: Time, order: seq<Key>, n: nat, broken: map<string, Faults>, unmarked: set<Key>):
    System
    requires n <= |order|
  {
    s.(rows := MarkedEach(s.rows, order, n, unmarked), stores := Emptied(s.rows, s.stores, order, n, broken),
       passes := s.passes[id := Pass(now, s.rows, order, n, false)])
  }

  lemma OneMoreRound(s: System, id: nat, now: Time, order: seq<Key>, n: nat, broken: map<string, Faults>, unmarked: set<Key>,
                     mid: System)
    requires n < |order| && order[n] in s.rows && mid == AfterRounds(s, id, now, order, n, broken, unmarked)
    ensures AfterMark(AfterDrop(mid, id, FaultsAt(broken, s.rows[order[n]].path)), id, order[n] in unmarked)
            == AfterRounds(s, id, now, order, n + 1, broken, unmarked)
  {
    DropThenMark(mid, id, Pass(now, s.rows, order, n, false), broken, unmarked);
  }

  /** Row by row a pass does to rows and stores what its method does. */
  lemma {:induction false} PassIsCleanup(catalog: set<string>, sha: Bytes -> string, s: System, id: nat, now: Time,
                                         order: seq<Key>, n: nat, broken: map<string, Faults>, unmarked: set<Key>)
    requires id !in s.passes && Elements(order) == Expired(s.rows, now) && |order| == |Expired(s.rows, now)| && n <= |order|
    ensures StepAll(catalog, sha, s, PassEvents(id, s.rows, now, order, n, broken, unmarked))
            == AfterRounds(s, id, now, order, n, broken, unmarked)
  {
    if n == 0 {
      PassBegins(catalog, sha, s, id, now, order, broken, unmarked);
    } else {
      var k := order[n - 1];
      assert k in Elements(order);
      var f := FaultsAt(broken, s.rows[k].path);
      var before := PassEvents(id, s.rows, now, order, n - 1, broken, unmarked);
      var mid := AfterRounds(s, id, now, order, n - 1, broken, unmarked);
      PassIsCleanup(catalog, sha, s, id, now, order, n - 1, broken, unmarked);
      StepAllTwo(catalog, sha, s, before, id, f, k in unmarked, mid);
      OneMoreRound(s, id, now, order, n - 1, broken, unmarked, mid);
    }
  }

  lemma PassBegins(catalog: set<string>, sha: Bytes -> string, s: System, id: nat, now: Time, order: seq<Key>,
                   broken: map<string, Faults>, unmarked: set<Key>)
    requires id !in s.passes && Elements(order) == Expired(s.rows, now) && |order| == |Expired(s.rows, now)|
    ensures StepAll(catalog, sha, s, [BeginPass(id, now, order)]) == AfterRounds(s, id, now, order, 0, broken, unmarked)
  {
    assert [BeginPass(id, now, order)][..0] == [];
  }

  // What the stores hold under a path

  /** What the stores hold under a path some store returned. */
  function Find(s: Stores, path: string): Option<Bytes> {
    var q := ParsePath(path);
    if q.Some? then Holds(s, q.value) else None
  }

  /** The path of a store parses back to where it put the bytes. */
  lemma PutPath(s: Stores, p: string, v: string, f: string, data: Bytes)
    requires Tidy(s) && ProperIdentifiers(p, v, f)
    ensures ParsePath(PathOn(s, p, v, f)) == Some(Target(s, p, v, f))
    ensures StoredFor(PathOn(s, p, v, f), Key(p, v))
    ensures Tidy(StoreIn(s, p, v, f, data))
  {
    var at := Target(s, p, v, f);
    StoreHolds(s, p, v, f, data, at, StoreIn(s, p, v, f, data));
    ParseOfText(at);
  }

  lemma FindAfterStore(s: Stores, p: string, v: string, f: string, data: Bytes, path: string)
    requires Tidy(s) && ProperIdentifiers(p, v, f)
    ensures Find(StoreIn(s, p, v, f, data), path) == if path == PathOn(s, p, v, f) then Some(data) else Find(s, path)
  {
    PutPath(s, p, v, f, data);
    var q := ParsePath(path);
    if q.Some? {
      StoreHolds(s, p, v, f, data, q.value, StoreIn(s, p, v, f, data));
    }
  }

  lemma FindAfterDelete(s: Stores, gone: string, f: Faults, path: string)
    requires Tidy(s) && ParsePath(gone).Some?
    ensures Tidy(DeleteUnder(s, gone, f))
    ensures Find(DeleteUnder(s, gone, f), path)
            == if path == gone && !Spared(f, ParsePath(gone).value) then None else Find(s, path)
  {
    var g, q := ParsePath(gone).value, ParsePath(path);
    DeleteUnderHolds(s, g, f, if q.Some? then q.value else g, DeleteUnder(s, gone, f));
  }

  lemma FindAfterSwitch(s: Stores, d: string, s': Stores, path: string)
    requires Tidy(s) && SwitchTo(s, d) == Ok(s')
    ensures Find(s', path) == Find(s, path)
  {
  }

  /** Opening a stored path finds what the stores hold there. */
  lemma FindOpens(s: Stores, path: string)
    requires Tidy(s) && ParsePath(path).Some?
    ensures OpenIn(s, path) == match Find(s, path) case Some(data) => Ok(data) case None => Err(FilesystemStore.NotFound)
  {
    OpenFindsHeld(s, ParsePath(path).value);
  }

  /** Only the row of that product and version can have that path. */
  lemma PathOwner(path: string, k: Key, k': Key)
    requires StoredFor(path, k) && StoredFor(path, k')
    ensures k == k'
  {
  }

  // What holds in every reachable state

  predicate Live(t: Table, k: Key) {
    k in t && !t[k].isDeleted
  }

  ghost predicate RowsStored(t: Table) {
    forall k :: Live(t, k) ==> StoredFor(t[k].path, k)
  }

  ghost predicate SyncsStored(syncs: Syncs) {
    forall p :: Holding(syncs, p) ==> StoredFor(syncs[p].path, Key(p, syncs[p].version))
  }

  /** The i-th row of a pass was expired when the pass began, and is still the same row. */
  predicate EntryFits(t: Table, p: Pass, i: nat)
    requires i < |p.order|
  {
    var k := p.order[i];
    IsExpired(p.snapshot, k, p.started) && StoredFor(p.snapshot[k].path, k) && k in t && t[k].id == p.snapshot[k].id
  }

  ghost predicate PassFits(t: Table, p: Pass) {
    forall i :: 0 <= i < |p.order| ==> EntryFits(t, p, i)
  }

  ghost predicate PassesFit(t: Table, passes: Passes) {
    forall id :: id in passes ==> PassFits(t, passes[id])
  }

  /** What a sync has stored is there, unless it has been deleted since; nobody else writes to its path. */
  ghost predicate FilesIntact(stores: Stores, syncs: Syncs) {
    forall p :: Holding(syncs, p) ==> FileIntact(stores, syncs[p])
  }

  predicate FileIntact(stores: Stores, job: Sync)
    requires job.Stored?
  {
    Find(stores, job.path).None? || Find(stores, job.path) == Some(job.data)
  }

  ghost predicate Inv(s: System) {
    && Tidy(s.stores)
    && WellFormed(s.rows)
    && RowsStored(s.rows)
    && SyncsStored(s.syncs)
    && PassesFit(s.rows, s.passes)
    && FilesIntact(s.stores, s.syncs)
  }

  /** What a step does to the rows is one of the row updates, or nothing. */
  function RowEvent(sha: Bytes -> string, s: System, e: Event): Option<Lifecycle.Event> {
    match e
    case PublishRow(p, releasedAt, backend, days, now, fails) =>
      if fails || !Holding(s.syncs, p) then None
      else Some(Lifecycle.PublishEvent(ReleaseOf(sha, p, s.syncs[p], releasedAt, backend), days, now))
    case RollBack(k, days, now) => Some(Lifecycle.RollbackEvent(k, days, now))
    case MarkRow(id, fails) =>
      if fails || !Running(s.passes, id) || !s.passes[id].dropped then None
      else Some(Lifecycle.MarkEvent(HeadOf(s.passes[id])))
    case _ => None
  }

  lemma StepRows(catalog: set<string>, sha: Bytes -> string, s: System, e: Event)
    requires PassesFit(s.rows, s.passes)
    ensures Step(catalog, sha, s, e).rows
            == match RowEvent(sha, s, e) case Some(x) => Lifecycle.Apply(catalog, s.rows, x) case None => s.rows
  {
    if e.MarkRow? && Running(s.passes, e.pass) {
      assert EntryFits(s.rows, s.passes[e.pass], s.passes[e.pass].next);
    }
  }

  lemma PublishKeepsStored(catalog: set<string>, t: Table, rel: Release, days: int, now: Time, t': Table)
    requires RowsStored(t) && StoredFor(rel.path, KeyOf(rel)) && Publish(catalog, t, rel, days, now) == Ok(t')
    ensures RowsStored(t')
  {
  }

  lemma RollbackKeepsStored(t: Table, n: Key, days: int, now: Time, t': Table)
    requires RowsStored(t) && Rollback(t, n, days, now) == Ok(t')
    ensures RowsStored(t')
  {
  }

  lemma MarkKeepsStored(t: Table, id: string)
    requires RowsStored(t)
    ensures RowsStored(MarkDeleted(t, id))
  {
  }

  lemma PassesKeepFitting(catalog: set<string>, t: Table, x: Lifecycle.Event, passes: Passes)
    requires WellFormed(t) && PassesFit(t, passes)
    ensures PassesFit(Lifecycle.Apply(catalog, t, x), passes)
  {
    var t' := Lifecycle.Apply(catalog, t, x);
    forall id, i | id in passes && 0 <= i < |passes[id].order|
      ensures EntryFits(t', passes[id], i)
    {
      assert PassFits(t, passes[id]) && EntryFits(t, passes[id], i);
      Lifecycle.ApplyFrames(catalog, t, x, passes[id].order[i]);
    }
  }

  lemma RowsStayStored(catalog: set<string>, t: Table, x: Lifecycle.Event, t': Table)
    requires RowsStored(t) && t' == Lifecycle.Apply(catalog, t, x)
    requires x.PublishEvent? ==> StoredFor(x.rel.path, KeyOf(x.rel))
    ensures RowsStored(t')
  {
    match x
    case PublishEvent(rel, days, now) =>
      if Publish(catalog, t, rel, days, now).Ok? {
        PublishKeepsStored(catalog, t, rel, days, now, t');
      }
    case RollbackEvent(k, days, now) =>
      if Rollback(t, k, days, now).Ok? {
        RollbackKeepsStored(t, k, days, now, t');
      }
    case MarkEvent(k) =>
      if k in t {
        MarkKeepsStored(t, t[k].id);
      }
  }

  lemma StoresStayTidy(catalog: set<string>, sha: Bytes -> string, s: System, e: Event)
    requires Inv(s) && ProperEvent(e)
    ensures Tidy(Step(catalog, sha, s, e).stores)
  {
    match e
    case PutFile(p, v, f, data) =>
      if ValidIdentifiers(p, v, f) {
        PutPath(s.stores, p, v, f, data);
      }
    case DropFile(id, f) =>
      if Running(s.passes, id) {
        HeadIs(s, id);
        FindAfterDelete(s.stores, HeadPath(s.passes[id]), f, "");
      }
    case _ =>
  }

  /** What the query saw of the row a pass is at. */
  lemma HeadIs(s: System, id: nat)
    requires PassesFit(s.rows, s.passes) && Running(s.passes, id)
    ensures var p := s.passes[id]; var k := HeadOf(p);
            IsExpired(p.snapshot, k, p.started) && StoredFor(HeadPath(p), k) && k in s.rows && s.rows[k].id == p.snapshot[k].id
  {
    assert EntryFits(s.rows, s.passes[id], s.passes[id].next);
  }

  lemma SyncsStayStored(catalog: set<string>, sha: Bytes -> string, s: System, e: Event, s': System)
    requires Inv(s) && ProperEvent(e) && s' == Step(catalog, sha, s, e)
    ensures SyncsStored(s'.syncs)
  {
    if e.PutFile? && ValidIdentifiers(e.product, e.version, e.filename) {
      PutPath(s.stores, e.product, e.version, e.filename, e.data);
    }
    forall p | Holding(s'.syncs, p)
      ensures StoredFor(s'.syncs[p].path, Key(p, s'.syncs[p].version))
    {
      assert !Holding(s.syncs, p) ==> e.PutFile? && e.product == p;
    }
  }

  /** A new pass lists rows that are expired now. */
  lemma NewPassFits(t: Table, p: Pass)
    requires RowsStored(t) && p.snapshot == t && Elements(p.order) == Expired(t, p.started)
    ensures PassFits(t, p)
  {
    forall i | 0 <= i < |p.order|
      ensures EntryFits(t, p, i)
    {
      assert p.order[i] in Elements(p.order);
      assert Live(t, p.order[i]);
    }
  }

  /** Which row a pass is at makes no difference to what it lists. */
  lemma SameQueryFits(t: Table, p: Pass, p': Pass)
    requires PassFits(t, p) && p'.snapshot == p.snapshot && p'.order == p.order && p'.started == p.started
    ensures PassFits(t, p')
  {
    assert forall i :: 0 <= i < |p.order| ==> EntryFits(t, p, i) == EntryFits(t, p', i);
  }

  lemma StepKeepsQuery(catalog: set<string>, sha: Bytes -> string, s: System, e: Event, id: nat)
    requires id in s.passes && id in Step(catalog, sha, s, e).passes
    ensures var p, p' := s.passes[id], Step(catalog, sha, s, e).passes[id];
            p'.started == p.started && p'.order == p.order && p'.snapshot == p.snapshot
  {
  }

  /** The passes of a step, on the rows before it. */
  lemma PassesStayFit(catalog: set<string>, sha: Bytes -> string, s: System, e: Event, s': System)
    requires PassesFit(s.rows, s.passes) && RowsStored(s.rows) && s' == Step(catalog, sha, s, e)
    ensures PassesFit(s.rows, s'.passes)
  {
    forall id | id in s'.passes
      ensures PassFits(s.rows, s'.passes[id])
    {
      if id in s.passes {
        StepKeepsQuery(catalog, sha, s, e, id);
        SameQueryFits(s.rows, s.passes[id], s'.passes[id]);
      } else {
        NewPassFits(s.rows, s'.passes[id]);
      }
    }
  }

  lemma PutKeepsIntact(s: System, p: string, v: string, f: string, data: Bytes, s': System)
    requires Inv(s) && ProperIdentifiers(p, v, f) && s' == AfterPut(s, p, v, f, data)
    ensures FilesIntact(s'.stores, s'.syncs)
  {
    if p in s.syncs && s.syncs[p].Fetching? {
      var written := PathOn(s.stores, p, v, f);
      PutPath(s.stores, p, v, f, data);
      FindAfterStore(s.stores, p, v, f, data, written);
      forall p' | Holding(s.syncs, p')
        ensures FileIntact(s'.stores, s.syncs[p'])
      {
        var path, owner := s.syncs[p'].path, Key(p', s.syncs[p'].version);
        FindAfterStore(s.stores, p, v, f, data, path);
        assert StoredFor(path, owner);
        if path == written {
          PathOwner(path, owner, Key(p, v));
        }
      }
    }
  }

  lemma DropKeepsIntact(s: System, id: nat, f: Faults, s': System)
    requires Inv(s) && s' == AfterDrop(s, id, f)
    ensures FilesIntact(s'.stores, s'.syncs)
  {
    if Running(s.passes, id) && !s.passes[id].dropped {
      HeadIs(s, id);
      forall p | Holding(s.syncs, p)
        ensures FileIntact(s'.stores, s.syncs[p])
      {
        FindAfterDelete(s.stores, HeadPath(s.passes[id]), f, s.syncs[p].path);
      }
    }
  }

  lemma SwitchKeepsIntact(s: System, d: string, stores': Stores)
    requires Inv(s) && SwitchTo(s.stores, d) == Ok(stores')
    ensures FilesIntact(stores', s.syncs)
  {
    forall p | Holding(s.syncs, p)
      ensures FileIntact(stores', s.syncs[p])
    {
      FindAfterSwitch(s.stores, d, stores', s.syncs[p].path);
    }
  }

  /** Steps that leave the stores alone and bring in no stored file. */
  lemma FewerStayIntact(stores: Stores, syncs: Syncs, syncs': Syncs)
    requires FilesIntact(stores, syncs)
    requires forall p :: Holding(syncs', p) ==> Holding(syncs, p) && syncs'[p] == syncs[p]
    ensures FilesIntact(stores, syncs')
  {
  }

  lemma FilesStayIntact(catalog: set<string>, sha: Bytes -> string, s: System, e: Event, s': System)
    requires Inv(s) && ProperEvent(e) && s' == Step(catalog, sha, s, e)
    ensures FilesIntact(s'.stores, s'.syncs)
  {
    match e
    case PutFile(p, v, f, data) =>
      if ValidIdentifiers(p, v, f) {
        PutKeepsIntact(s, p, v, f, data, s');
      } else {
        FewerStayIntact(s.stores, s.syncs, s'.syncs);
      }
    case DropFile(id, f) => DropKeepsIntact(s, id, f, s');
    case SwitchDriver(d) =>
      if SwitchTo(s.stores, d).Ok? {
        SwitchKeepsIntact(s, d, s'.stores);
      }
    case _ => FewerStayIntact(s.stores, s.syncs, s'.syncs);
  }

  lemma StepKeepsInv(catalog: set<string>, sha: Bytes -> string, s: System, e: Event, s': System)
    requires Inv(s) && ProperEvent(e) && s' == Step(catalog, sha, s, e)
    ensures Inv(s')
  {
    StoresStayTidy(catalog, sha, s, e);
    FilesStayIntact(catalog, sha, s, e, s');
    SyncsStayStored(catalog, sha, s, e, s');
    PassesStayFit(catalog, sha, s, e, s');
    StepRows(catalog, sha, s, e);
    var x := RowEvent(sha, s, e);
    if x.Some? {
      RowsStayStored(catalog, s.rows, x.value, s'.rows);
      PassesKeepFitting(catalog, s.rows, x.value, s'.passes);
      Lifecycle.ApplyKeepsWellFormed(catalog, s.rows, x.value, s'.rows);
    }
  }

  // Whole runs

  /** Before the first sync: no rows, nobody at work. */
  function Start(stores: Stores): System {
    System(map[], stores, map[], map[])
  }

  function After(catalog: set<string>, sha: Bytes -> string, stores: Stores, es: seq<Event>): System {
    if es == [] then Start(stores)
    else Step(catalog, sha, After(catalog, sha, stores, es[..|es| - 1]), es[|es| - 1])
  }

  lemma {:induction false} RunInv(catalog: set<string>, sha: Bytes -> string, stores: Stores, es: seq<Event>)
    requires Tidy(stores) && forall i :: 0 <= i < |es| ==> ProperEvent(es[i])
    ensures Inv(After(catalog, sha, stores, es))
  {
    if es != [] {
      var before := es[..|es| - 1];
      RunInv(catalog, sha, stores, before);
      StepKeepsInv(catalog, sha, After(catalog, sha, stores, before), es[|es| - 1], After(catalog, sha, stores, es));
    }
  }

  // What passes mark, whatever runs in between

  /** The pass began with event i, and works on what its query saw then. */
  ghost predicate BeganAt(catalog: set<string>, sha: Bytes -> string, stores: Stores, es: seq<Event>, id: nat, i: nat)
    requires i < |es| && id in After(catalog, sha, stores, es).passes
  {
    var p := After(catalog, sha, stores, es).passes[id];
    && es[i] == BeginPass(id, p.started, p.order) && id !in After(catalog, sha, stores, es[..i]).passes
    && p.snapshot == After(catalog, sha, stores, es[..i]).rows
  }

  lemma {:induction false} PassOrigin(catalog: set<string>, sha: Bytes -> string, stores: Stores, es: seq<Event>, id: nat)
    requires id in After(catalog, sha, stores, es).passes
    ensures exists i :: 0 <= i < |es| && BeganAt(catalog, sha, stores, es, id, i)
  {
    var n := |es| - 1;
    var before := es[..n];
    var s, s' := After(catalog, sha, stores, before), After(catalog, sha, stores, es);
    if id in s.passes {
      PassOrigin(catalog, sha, stores, before, id);
      var i :| 0 <= i < n && BeganAt(catalog, sha, stores, before, id, i);
      assert before[..i] == es[..i];
      StepKeepsQuery(catalog, sha, s, es[n], id);
      assert BeganAt(catalog, sha, stores, es, id, i);
    } else {
      assert BeganAt(catalog, sha, stores, es, id, n);
    }
  }

  /** A row a step turns from live to deleted is being marked by a pass, and was expired, by that pass's
      clock, at the moment the pass began. So a row that was current then, or not yet due, is never marked. */
  lemma MarkedWasExpired(catalog: set<string>, sha: Bytes -> string, stores: Stores, es: seq<Event>, e: Event, k: Key)
    requires Tidy(stores) && (forall i :: 0 <= i < |es| ==> ProperEvent(es[i])) && ProperEvent(e)
    requires Live(After(catalog, sha, stores, es).rows, k)
    requires !Live(Step(catalog, sha, After(catalog, sha, stores, es), e).rows, k)
    ensures e.MarkRow? && e.pass in After(catalog, sha, stores, es).passes
    ensures exists i :: 0 <= i < |es| && BeganAt(catalog, sha, stores, es, e.pass, i)
                        && IsExpired(After(catalog, sha, stores, es[..i]).rows, k, es[i].now)
  {
    var s := After(catalog, sha, stores, es);
    RunInv(catalog, sha, stores, es);
    OnlyMarksDelete(catalog, sha, s, e, k);
    HeadIs(s, e.pass);
    PassOrigin(catalog, sha, stores, es, e.pass);
  }

  lemma OnlyMarksDelete(catalog: set<string>, sha: Bytes -> string, s: System, e: Event, k: Key)
    requires Inv(s) && Live(s.rows, k) && !Live(Step(catalog, sha, s, e).rows, k)
    ensures e.MarkRow? && Running(s.passes, e.pass) && HeadOf(s.passes[e.pass]) == k
  {
    StepRows(catalog, sha, s, e);
    if e.MarkRow? && Running(s.passes, e.pass) {
      HeadIs(s, e.pass);
    }
  }

  /** A pass that marks the row being served found it superseded: it was made current again in between. */
  lemma HiddenWasRevived(catalog: set<string>, sha: Bytes -> string, stores: Stores, es: seq<Event>, e: Event, p: string)
    requires Tidy(stores) && (forall i :: 0 <= i < |es| ==> ProperEvent(es[i])) && ProperEvent(e)
    requires Hides(After(catalog, sha, stores, es), e, p)
    ensures var k := HeadOf(After(catalog, sha, stores, es).passes[e.pass]);
            exists i :: 0 <= i < |es| && BeganAt(catalog, sha, stores, es, e.pass, i)
                        && IsExpired(After(catalog, sha, stores, es[..i]).rows, k, es[i].now)
  {
    var s := After(catalog, sha, stores, es);
    var k := HeadOf(s.passes[e.pass]);
    RunInv(catalog, sha, stores, es);
    HeadIs(s, e.pass);
    MarkedRows(s.rows, k);
    MarkedWasExpired(catalog, sha, stores, es, e, k);
  }

  // The rows of a run are the rows of a run of row updates

  function RowEvents(catalog: set<string>, sha: Bytes -> string, stores: Stores, es: seq<Event>): seq<Lifecycle.Event> {
    if es == [] then []
    else
      var before := es[..|es| - 1];
      var x := RowEvent(sha, After(catalog, sha, stores, before), es[|es| - 1]);
      RowEvents(catalog, sha, stores, before) + if x.Some? then [x.value] else []
  }

  /** Whatever the interleaving, the table goes through a run of publications, rollbacks and marks, so all
      that holds of those runs holds here. */
  lemma {:induction false} RunRows(catalog: set<string>, sha: Bytes -> string, stores: Stores, es: seq<Event>)
    requires Tidy(stores) && forall i :: 0 <= i < |es| ==> ProperEvent(es[i])
    ensures After(catalog, sha, stores, es).rows == Lifecycle.Run(catalog, RowEvents(catalog, sha, stores, es))
  {
    if es != [] {
      var before := es[..|es| - 1];
      var xs := RowEvents(catalog, sha, stores, before);
      RunRows(catalog, sha, stores, before);
      RunInv(catalog, sha, stores, before);
      StepRows(catalog, sha, After(catalog, sha, stores, before), es[|es| - 1]);
      var x := RowEvent(sha, After(catalog, sha, stores, before), es[|es| - 1]);
      if x.Some? {
        assert (xs + [x.value])[..|xs|] == xs;
      } else {
        assert xs + [] == xs;
      }
    }
  }

  /** So what rows point to is always a path some store returned for that version. */
  lemma RowsArePathsStored(t: Table)
    requires WellFormed(t) && RowsStored(t)
    ensures PathsStored(t)
  {
    forall k | k in t && t[k].path != ""
      ensures StoredFor(t[k].path, k)
    {
      assert Live(t, k);
    }
  }

  /** What a cleanup pass needs of the table to be exact holds in every reachable state. */
  lemma ReachablePathsStored(catalog: set<string>, sha: Bytes -> string, stores: Stores, es: seq<Event>)
    requires Tidy(stores) && forall i :: 0 <= i < |es| ==> ProperEvent(es[i])
    ensures var s := After(catalog, sha, stores, es); PathsStored(s.rows) && DistinctIds(s.rows) && Tidy(s.stores)
  {
    RunInv(catalog, sha, stores, es);
    RowsArePathsStored(After(catalog, sha, stores, es).rows);
  }

  // When a published product always has a version to serve, whatever the interleaving

  /** The step is a mark that takes place on the very row being served for the product. */
  predicate Hides(s: System, e: Event, p: string) {
    && e.MarkRow? && !e.fails && Running(s.passes, e.pass) && s.passes[e.pass].dropped
    && var k := HeadOf(s.passes[e.pass]); k.product == p && Serves(s.rows, k)
  }

  lemma StepAvailable(catalog: set<string>, sha: Bytes -> string, s: System, e: Event, p: string, s': System)
    requires Inv(s) && s' == Step(catalog, sha, s, e) && Lifecycle.Available(s.rows, p)
    ensures Lifecycle.Available(s'.rows, p) <==> !Hides(s, e, p)
  {
    StepRows(catalog, sha, s, e);
    var x := RowEvent(sha, s, e);
    if x.Some? {
      Lifecycle.AvailableStep(catalog, s.rows, x.value, p, s'.rows);
    }
  }

  ghost predicate AlwaysAvailable(catalog: set<string>, sha: Bytes -> string, stores: Stores, es: seq<Event>, p: string) {
    forall n :: 0 <= n <= |es| ==> Lifecycle.Available(After(catalog, sha, stores, es[..n]).rows, p)
  }

  ghost predicate NeverHidden(catalog: set<string>, sha: Bytes -> string, stores: Stores, es: seq<Event>, p: string) {
    forall i :: 0 <= i < |es| ==> !Hides(After(catalog, sha, stores, es[..i]), es[i], p)
  }

  lemma {:induction false} UnhiddenAvailable(catalog: set<string>, sha: Bytes -> string, stores: Stores, es: seq<Event>,
                                             p: string)
    requires Tidy(stores) && forall i :: 0 <= i < |es| ==> ProperEvent(es[i])
    requires NeverHidden(catalog, sha, stores, es, p)
    ensures Lifecycle.Available(After(catalog, sha, stores, es).rows, p)
  {
    if es != [] {
      var n := |es| - 1;
      var before := es[..n];
      assert forall i :: 0 <= i < n ==> before[i] == es[i] && before[..i] == es[..i];
      UnhiddenAvailable(catalog, sha, stores, before, p);
      RunInv(catalog, sha, stores, before);
      StepAvailable(catalog, sha, After(catalog, sha, stores, before), es[n], p, After(catalog, sha, stores, es));
    }
  }

  /** Over every interleaving a product with rows has a version to serve at every moment if and only if no
      pass marks the row being served. */
  lemma AvailableExactly(catalog: set<string>, sha: Bytes -> string, stores: Stores, es: seq<Event>, p: string)
    requires Tidy(stores) && forall i :: 0 <= i < |es| ==> ProperEvent(es[i])
    ensures AlwaysAvailable(catalog, sha, stores, es, p) <==> NeverHidden(catalog, sha, stores, es, p)
  {
    if NeverHidden(catalog, sha, stores, es, p) {
      forall n | 0 <= n <= |es|
        ensures Lifecycle.Available(After(catalog, sha, stores, es[..n]).rows, p)
      {
        assert forall i :: 0 <= i < n ==> es[..n][..i] == es[..i];
        UnhiddenAvailable(catalog, sha, stores, es[..n], p);
      }
    }
    if AlwaysAvailable(catalog, sha, stores, es, p) {
      forall i | 0 <= i < |es|
        ensures !Hides(After(catalog, sha, stores, es[..i]), es[i], p)
      {
        assert es[..i + 1][..i] == es[..i];
        RunInv(catalog, sha, stores, es[..i]);
        StepAvailable(catalog, sha, After(catalog, sha, stores, es[..i]), es[i], p, After(catalog, sha, stores, es[..i + 1]));
      }
    }
  }
}
