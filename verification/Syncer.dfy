/** One sync of a product from lock to unlock. */
module Syncer {
  import opened Wrappers
  import opened Octets
  import Paths
  import opened StorageManager
  import opened VersionTable
  import opened SyncProtocol
  import opened RowsAndBytes
  import ManifestCache
  import FilesystemStore

  /** What comes of product settings, credentials, download, extraction and validation. */
  datatype Fetch = Unavailable | NotModified | Built(version: string, releasedAt: Time, data: Bytes)

  datatype SyncResult = InProgress | Failed | Skipped | Success

  /** The settings a sync works with. */
  datatype Settings = Settings(filename: string, backend: string, days: int)

  /** Which of its writes fails, if one does. */
  datatype WriteFaults = WriteFaults(store: bool, publish: TxFault)

  /** A build is stored: the store accepts the names and does not fail. */
  predicate GetsStored(stores: Stores, product: string, fetch: Fetch, settings: Settings, faults: WriteFaults) {
    fetch.Built? && CanStore(stores, product, fetch.version, settings.filename) && !faults.store
  }

  function PublishStep(product: string, fetch: Fetch, settings: Settings, faults: WriteFaults, now: Time): Event
    requires fetch.Built?
  {
    PublishRow(product, fetch.releasedAt, settings.backend, settings.days, now, !faults.publish.NoFault?)
  }

  function AfterStore(locked: System, product: string, fetch: Fetch, settings: Settings): System
    requires fetch.Built?
  {
    AfterPut(locked, product, fetch.version, settings.filename, fetch.data)
  }

  /** The build gets stored and its publication goes through. */
  predicate Publishes(catalog: set<string>, sha: Bytes -> string, locked: System, product: string, fetch: Fetch,
                      settings: Settings, faults: WriteFaults, now: Time) {
    && GetsStored(locked.stores, product, fetch, settings, faults)
    && var stored := AfterStore(locked, product, fetch, settings);
       Holding(stored.syncs, product) && Published(catalog, sha, stored, PublishStep(product, fetch, settings, faults, now)).Ok?
  }

  /** What a sync makes of the system once it has the lock. */
  function Worked(catalog: set<string>, sha: Bytes -> string, locked: System, product: string, fetch: Fetch, settings: Settings,
                  faults: WriteFaults, now: Time): System
  {
    if GetsStored(locked.stores, product, fetch, settings, faults) then
      AfterPublish(catalog, sha, AfterStore(locked, product, fetch, settings), PublishStep(product, fetch, settings, faults, now))
    else AfterGiveUp(locked, product)
  }

  /** The steps of the system a sync of a product with a free lock comes down to. */
  function StepsOf(stores: Stores, product: string, fetch: Fetch, settings: Settings, faults: WriteFaults, now: Time): seq<Event>
  {
    if GetsStored(stores, product, fetch, settings, faults) then
      [TakeLock(product), PutFile(product, fetch.version, settings.filename, fetch.data),
       PublishStep(product, fetch, settings, faults, now)]
    else if fetch.Built? && !CanStore(stores, product, fetch.version, settings.filename) then
      [TakeLock(product), PutFile(product, fetch.version, settings.filename, fetch.data)]
    else [TakeLock(product), GiveUp(product)]
  }

  lemma WorkedIsSteps(catalog: set<string>, sha: Bytes -> string, s: System, product: string, fetch: Fetch, settings: Settings,
                      faults: WriteFaults, now: Time)
    ensures var es := StepsOf(s.stores, product, fetch, settings, faults, now);
            var first := Step(catalog, sha, s, es[0]);
            var second := Step(catalog, sha, first, es[1]);
            Worked(catalog, sha, AfterTake(s, product), product, fetch, settings, faults, now)
            == if |es| == 2 then second else Step(catalog, sha, second, es[2])
  {
  }

  /** What a publication makes of the rows: the build's row is current, what was current of the product is
      superseded for as long as the settings say, and nothing else changes. */
  ghost predicate RowsOfSync(sha: Bytes -> string, t: Table, k: Key, fetch: Fetch, settings: Settings, path: string, now: Time,
                             t': Table)
    requires fetch.Built?
  {
    && t'.Keys == t.Keys + {k}
    && t'[k] == Row(if k in t then t[k].id else k.product + ":" + k.version,
                    if k in t then t[k].releasedAt else fetch.releasedAt,
                    sha(fetch.data), |fetch.data|, settings.backend, path, true, None, None, false,
                    if k in t then t[k].createdAt else now)
    && forall k' :: k' in t && k' != k ==>
         t'[k'] == if k'.product == k.product && t[k'].isCurrent
                   then t[k'].(isCurrent := false, supersededAt := Some(now),
                               cleanupDeadline := Some(now + Retention(settings.days)))
                   else t[k']
  }

  /** When a sync publishes: a build with plain names, no failing write, a product of the catalog and an id
      no other row bears. */
  lemma PublishesExactly(catalog: set<string>, sha: Bytes -> string, s: System, product: string, fetch: Fetch,
                         settings: Settings, faults: WriteFaults, now: Time)
    requires product !in s.syncs
    ensures Publishes(catalog, sha, AfterTake(s, product), product, fetch, settings, faults, now)
            <==> fetch.Built? && Paths.PlainIdentifiers(product, fetch.version, settings.filename)
                 && (UsesS3(s.stores) || settings.filename != ".") && !faults.store && faults.publish.NoFault?
                 && product in catalog && !IdTaken(s.rows, Key(product, fetch.version))
  {
    if fetch.Built? {
      CanStoreExactly(s.stores, product, fetch.version, settings.filename);
    }
  }

  lemma PublishGivesRows(catalog: set<string>, sha: Bytes -> string, t: Table, rel: Release, fetch: Fetch, settings: Settings,
                         now: Time, t': Table)
    requires fetch.Built? && rel == Release(rel.product, fetch.version, fetch.releasedAt, sha(fetch.data), |fetch.data|,
                                            settings.backend, rel.path)
    requires Publish(catalog, t, rel, settings.days, now) == Ok(t')
    ensures RowsOfSync(sha, t, Key(rel.product, rel.version), fetch, settings, rel.path, now, t')
  {
    PublishIsPromotion(catalog, t, rel, settings.days, now);
  }

  lemma SyncPublishes(catalog: set<string>, sha: Bytes -> string, s: System, product: string, fetch: Fetch, settings: Settings,
                      faults: WriteFaults, now: Time, s': System)
    requires product !in s.syncs && Publishes(catalog, sha, AfterTake(s, product), product, fetch, settings, faults, now)
    requires s' == Worked(catalog, sha, AfterTake(s, product), product, fetch, settings, faults, now)
    ensures s'.stores == StoreIn(s.stores, product, fetch.version, settings.filename, fetch.data)
    ensures RowsOfSync(sha, s.rows, Key(product, fetch.version), fetch, settings,
                       PathOn(s.stores, product, fetch.version, settings.filename), now, s'.rows)
  {
    var rel := Release(product, fetch.version, fetch.releasedAt, sha(fetch.data), |fetch.data|, settings.backend,
                       PathOn(s.stores, product, fetch.version, settings.filename));
    assert Publish(catalog, s.rows, rel, settings.days, now) == Ok(s'.rows);
    PublishGivesRows(catalog, sha, s.rows, rel, fetch, settings, now, s'.rows);
  }

  /** A sync that does not publish leaves the rows alone; what it may leave behind is a stored file. */
  lemma SyncLeavesRows(catalog: set<string>, sha: Bytes -> string, s: System, product: string, fetch: Fetch, settings: Settings,
                       faults: WriteFaults, now: Time, s': System)
    requires product !in s.syncs && !Publishes(catalog, sha, AfterTake(s, product), product, fetch, settings, faults, now)
    requires s' == Worked(catalog, sha, AfterTake(s, product), product, fetch, settings, faults, now)
    ensures s'.rows == s.rows
    ensures s'.stores == if GetsStored(s.stores, product, fetch, settings, faults)
                         then StoreIn(s.stores, product, fetch.version, settings.filename, fetch.data) else s.stores
  {
  }

  class Syncer {
    var locks: set<string>
    ghost var syncs: Syncs
    const database: VersionStore
    const store: Manager
    const cache: ManifestCache.Cache

    ghost predicate Valid()
      reads this
    {
      locks == syncs.Keys
    }

    ghost function Model(passes: Passes): System
      reads this, database, store, store.fsStorage, store.s3Storage
    {
      System(database.rows, store.Model(), syncs, passes)
    }

    constructor (database: VersionStore, store: Manager, cache: ManifestCache.Cache)
      ensures Valid() && locks == {} && this.database == database && this.store == store && this.cache == cache
    {
      this.database, this.store, this.cache := database, store, cache;
      locks, syncs := {}, map[];
    }

    /** A second sync of the same product is turned away; otherwise the sync takes its steps, and the cache
        entry goes exactly when the version is out. */
    method SyncProduct(product: string, fetch: Fetch, settings: Settings, faults: WriteFaults, sha: Bytes -> string,
                       stagingId: string, now: Time, ghost passes: Passes)
      returns (r: SyncResult)
      requires Valid() && stagingId !in store.fsStorage.staging
      modifies this, database, store.fsStorage, store.s3Storage, cache
      ensures Valid() && locks == old(locks)
      ensures r.InProgress? <==> product in old(locks)
      ensures r.InProgress? ==> Model(passes) == old(Model(passes))
      ensures !r.InProgress? ==>
                Model(passes)
                == Worked(database.catalog, sha, AfterTake(old(Model(passes)), product), product, fetch, settings, faults, now)
      ensures cache.entries == if r.Success? then old(cache.entries) - {product} else old(cache.entries)
      ensures r.Skipped? <==> product !in old(locks) && fetch.NotModified?
      ensures r.Success? <==>
                product !in old(locks)
                && Publishes(database.catalog, sha, AfterTake(old(Model(passes)), product), product, fetch, settings, faults, now)
      // The same in the terms of the table and the stores.
      ensures r.Success? <==>
                product !in old(locks) && fetch.Built?
                && Paths.PlainIdentifiers(product, fetch.version, settings.filename)
                && (old(UsesS3(store.Model())) || settings.filename != ".") && !faults.store && faults.publish.NoFault?
                && product in database.catalog && !IdTaken(old(database.rows), Key(product, fetch.version))
      ensures r.Success? ==>
                var stores := old(store.Model());
                && store.Model() == StoreIn(stores, product, fetch.version, settings.filename, fetch.data)
                && RowsOfSync(sha, old(database.rows), Key(product, fetch.version), fetch, settings,
                              PathOn(stores, product, fetch.version, settings.filename), now, database.rows)
      ensures !r.Success? ==> database.rows == old(database.rows)
    {
      if product in locks {
        return InProgress;
      }
      ghost var s := Model(passes);
      ghost var before := syncs;
      locks, syncs := locks + {product}, syncs[product := Fetching];
      r := Work(product, fetch, settings, faults, sha, stagingId, now, passes);
      locks := locks - {product};
      assert syncs == before;
      PublishesExactly(database.catalog, sha, s, product, fetch, settings, faults, now);
      if r.Success? {
        SyncPublishes(database.catalog, sha, s, product, fetch, settings, faults, now, Model(passes));
      } else {
        SyncLeavesRows(database.catalog, sha, s, product, fetch, settings, faults, now, Model(passes));
      }
    }

    /** What happens while the lock is held; the lock goes with the last step. */
    method Work(product: string, fetch: Fetch, settings: Settings, faults: WriteFaults, sha: Bytes -> string,
                stagingId: string, now: Time, ghost passes: Passes)
      returns (r: SyncResult)
      requires product in syncs && syncs[product] == Fetching && stagingId !in store.fsStorage.staging
      modifies this`syncs, database, store.fsStorage, store.s3Storage, cache
      ensures !r.InProgress?
      ensures r.Skipped? <==> fetch.NotModified?
      ensures Model(passes) == Worked(database.catalog, sha, old(Model(passes)), product, fetch, settings, faults, now)
      ensures r.Success? <==> Publishes(database.catalog, sha, old(Model(passes)), product, fetch, settings, faults, now)
      ensures cache.entries == if r.Success? then old(cache.entries) - {product} else old(cache.entries)
    {
      if fetch.Built? {
        var stored := StoreBuild(product, fetch.version, settings.filename, fetch.data, stagingId, faults.store, passes);
        if stored.Ok? {
          var published := PublishBuild(product, fetch.version, fetch.data, stored.value,
                                        PublishStep(product, fetch, settings, faults, now), faults.publish, sha, passes);
          return if published then Success else Failed;
        }
      }
      syncs := syncs - {product};
      r := if fetch.NotModified? then Skipped else Failed;
    }

    method StoreBuild(product: string, version: string, filename: string, data: Bytes, stagingId: string, fails: bool,
                      ghost passes: Passes)
      returns (r: Result<string, FilesystemStore.StorageError>)
      requires product in syncs && syncs[product] == Fetching && stagingId !in store.fsStorage.staging
      modifies this`syncs, store.fsStorage, store.s3Storage
      ensures r.Ok? <==> old(CanStore(store.Model(), product, version, filename)) && !fails
      ensures r.Ok? ==> Model(passes) == AfterPut(old(Model(passes)), product, version, filename, data)
                        && product in syncs && syncs[product] == Stored(version, r.value, data)
      ensures r.Err? ==> Model(passes) == old(Model(passes))
    {
      r := store.StoreArtifact(product, version, filename, data, stagingId, fails);
      if r.Ok? {
        syncs := syncs[product := Stored(version, r.value, data)];
      }
    }

    method PublishBuild(product: string, version: string, data: Bytes, path: string, e: Event, fault: TxFault,
                        sha: Bytes -> string, ghost passes: Passes)
      returns (done: bool)
      requires product in syncs && syncs[product] == Stored(version, path, data)
      requires e.PublishRow? && e.product == product && (e.fails <==> !fault.NoFault?)
      modifies this`syncs, database, cache
      ensures Model(passes) == AfterPublish(database.catalog, sha, old(Model(passes)), e)
      ensures done <==> Published(database.catalog, sha, old(Model(passes)), e).Ok?
      ensures cache.entries == if done then old(cache.entries) - {product} else old(cache.entries)
    {
      var rel := Release(product, version, e.releasedAt, sha(data), |data|, e.backend, path);
      var published := database.PublishNewVersion(rel, e.days, e.now, fault);
      done := published.Ok?;
      if done {
        cache.Invalidate(product);
      }
      syncs := syncs - {product};
    }
  }

  /** A sync that succeeds undisturbed, from any reachable state, leaves its build as the version served, and
      the path in its row opens to exactly the build's bytes. */
  lemma SyncDelivers(catalog: set<string>, sha: Bytes -> string, s: System, product: string, fetch: Fetch, settings: Settings,
                     faults: WriteFaults, now: Time, s': System)
    requires Inv(s) && product !in s.syncs
    requires Publishes(catalog, sha, AfterTake(s, product), product, fetch, settings, faults, now)
    requires Paths.ProperIdentifiers(product, fetch.version, settings.filename)
    requires s' == Worked(catalog, sha, AfterTake(s, product), product, fetch, settings, faults, now)
    ensures var k := Key(product, fetch.version);
            && CurrentVersion(s'.rows, product) == Some(k)
            && RowsOfSync(sha, s.rows, k, fetch, settings, s'.rows[k].path, now, s'.rows)
            && OpenIn(s'.stores, s'.rows[k].path) == Ok(fetch.data) && Fits(sha, s'.rows[k], fetch.data)
  {
    SyncPublishes(catalog, sha, s, product, fetch, settings, faults, now, s');
    var locked := AfterTake(s, product);
    var stored := AfterStore(locked, product, fetch, settings);
    StepKeepsInv(catalog, sha, s, TakeLock(product), locked);
    StepKeepsInv(catalog, sha, locked, PutFile(product, fetch.version, settings.filename, fetch.data), stored);
    StepKeepsInv(catalog, sha, stored, PublishStep(product, fetch, settings, faults, now), s');
    CurrentVersionIs(s'.rows, Key(product, fetch.version));
    var path := stored.syncs[product].path;
    PutPath(s.stores, product, fetch.version, settings.filename, fetch.data);
    FindAfterStore(s.stores, product, fetch.version, settings.filename, fetch.data, path);
    FindOpens(s'.stores, path);
  }
}
