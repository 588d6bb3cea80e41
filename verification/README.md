# DistriMax, modelled

DistriMax mirrors MaxMind databases: it fetches builds, stores them as artifacts, publishes them as
versions in SQLite, serves manifests and downloads from them, and cleans up superseded ones. This
project models the life of such a version and the self-contained algorithms around it, and proves what
the program keeps, over whole runs and over interleavings of its concurrent parts.

`dafny verify dfyconfig.toml` checks everything.

## What the modules are

- `VersionTable`, `Lifecycle`: the `product_versions` table. The updates are methods over a row map, each
  proved against a function on the table; over runs they refine a small abstract machine per product
  (current version, retained versions with deadlines, versions whose files are gone).
- `Paths`, `FilesystemStore`, `StorageManager`: lexical path cleaning, staging and rename with a failure or
  crash before any system call, and the two drivers behind the manager. A switch of driver is shown to
  make no difference to what a stored path opens to.
- `Cleanup`: a cleanup pass, its effect on rows and files, and how late a row can be purged.
- `SyncProtocol`, `Syncer`: syncs of many products, rollbacks, driver switches, restarts and any number of
  cleanup passes as one step system in which store and publish, and delete and mark, are separate steps. The
  sync engine's method is proved to take exactly those steps.
- `RowsAndBytes`, `HarmfulRuns`, `Delivery`: when the rows of that system agree with the bytes at their paths.
- `ManifestCache`, `ManifestHandler`, `CacheAgreement`, `RequestsInFlight`, `SpoilingRuns`: the cache with aging entries,
  requests in flight among row updates, and the runs in which the cache is not noticeable.
- `Text`, `Base64`, `PasswordHash`, `SecretBox`, `ApiKeys`: the string codecs of credentials and the lookup of a
  key by its prefix.
- `Sorting`, `MigrationFiles`, `Migrations`: which files are migrations, and the runner under crashes.
- `Timestamps`, `Backups`: backup names and rotation.
- `Webhook`: the retry loop.
- `Wrappers`, `Octets`, `Int64`, `Sequences`: results, options, bytes, the width of integers, elements.

What the program calls but does not define enters as a parameter: Argon2 as a function `kdf`, AES-GCM as a pair
of functions with open(seal(x)) = x (`SecretBox.Opens`), SHA-256 as a function `sha`, clocks as times passed in,
random bytes as arguments, and every failing call as an argument that says which one fails.

## Where the code does less than one would expect

Each of these is a result about the code as it is, with the exact condition where there is one.

- A live row ends up with bytes that are not its own, or none, in four ways and no other: by a publication
  that fails after its store has replaced the file of a live row; by a publication whose file a cleanup pass has deleted
  since the store; by a mark that fails after its delete; by a restart between store and publication or between delete and
  mark. `RowsAndBytes.StepSound` and `RowsAndBytes.SoundExactlyWithoutHarm` give the exact conditions over the steps
  of the model, `HarmfulRuns.HarmsOccur` a run for each.
- A published product has a version to serve at all times if and only if no mark hits the row being served
  (`Lifecycle.AlwaysServedExactly`, `SyncProtocol.AvailableExactly`). A rollback between a pass's query and its mark
  makes one do so, in a run that is otherwise without harm (`HarmfulRuns.HiddenRun`).
- The admin rollback does not invalidate the manifest cache, and a request can fill it with an older version after
  a publication has invalidated it; the old version is then served for a time to live
  (`CacheAgreement.RollBackServesOld`, `ManifestHandler.FillAfterPublish`). The exact conditions are
  `CacheAgreement.NextAgrees` and `RequestsInFlight.AgreesExactly`, runs that meet them are in `SpoilingRuns`, and the
  bound that always holds is `ManifestHandler.BoundedStaleness`.
- A retention of more than 106751 days overflows; with one day more the deadline already lies before the demotion
  (`VersionTable.RetentionExact`, `VersionTable.RetentionOverflows`).
- The identifier "." is accepted and vanishes from paths, so builds of different products can share a file
  (`Paths.RelPathCollision`, `Paths.DotsCollide`); as a filename the filesystem driver fails on it. Results on stored
  paths therefore ask for identifiers without it (`Paths.ProperIdentifiers`).
- The algorithm name in an encoded hash is never compared (`PasswordHash.AlgorithmNameIgnored`), and its numbers may have
  blanks and zeros in front and anything behind the last (`PasswordHash.ParseExactly`).
- Rotation goes by name only, so foreign files called `distrimax-...sqlite3` can displace the backup just made
  (`Backups.ForeignNamesDisplace`).
- A failed webhook delivery is recorded with five attempts however many were made, and with a status left over from
  an earlier attempt if the last one got a network error (`Webhook.RecordedAttempts`, `Webhook.LeftOverStatus`).
- A start without faults completes if and only if the migration files are consistent with each other and with the
  records (`Migrations.CompletesExactly`, and in terms of files the contract of `Migrations.Migrator.RunMigrations`); two
  files of one version with different contents prevent it for good (`Migrations.DuplicateVersionBlocks`).

## Model

| member | source | states |
|---|---|---|
| `VersionTable.RetentionExact` | internal/db/products.go:150 | the 64-bit nanosecond product equals the true retention exactly for -106751 to 106751 days |
| `VersionTable.RetentionOverflows` | internal/db/products.go:150-156 | one day more wraps to a negative duration, so the deadline lies before the demotion |
| `VersionTable.PublishIsPromotion` | internal/db/products.go:152-176 | the UPDATE followed by the upsert comes to demoting the product's current rows and putting in one promoted row, whether or not the version's own row was among those demoted |
| `VersionTable.PublishKeepsWellFormed` | internal/db/products.go:147-178 | publication keeps: current iff superseded_at is null iff cleanup_deadline is null; at most one current row a product; distinct ids; deleted rows have no path |
| `VersionTable.RollbackKeepsWellFormed` | internal/db/products.go:181-203 | rollback keeps the same invariants |
| `VersionTable.MarkKeepsWellFormed` | internal/db/products.go:233-236 | so does marking by id, whatever the id |
| `VersionTable.MarkedRows` | internal/db/products.go:233-236 | marking by a row's id changes that row only |
| `VersionTable.SupersedingKeepsIds` | internal/db/products.go:153-156 | whether an insert will clash on the primary key can be told before the demotion |
| `VersionTable.IdInjective` | internal/db/products.go:174 | product:version tells product and version apart when products hold no colon |
| `VersionTable.CurrentVersionIs` | internal/db/products.go:85-102 | in a table with the invariants the query's LIMIT 1 has one row to choose: the product's current live row |
| `VersionTable.VersionStore.Supersede` | internal/db/products.go:153-156 | the demoting UPDATE as a loop over the rows |
| `VersionTable.VersionStore.PublishNewVersion` | internal/db/products.go:147-178 | all or nothing: succeeds exactly when product and id are good and no statement nor the commit fails; otherwise the table is as before |
| `VersionTable.VersionStore.RollbackToVersion` | internal/db/products.go:181-203 | all or nothing: succeeds exactly for an existing undeleted row without a fault |
| `VersionTable.VersionStore.GetExpiredVersions` | internal/db/products.go:206-230 | exactly the superseded live rows whose deadline has come, each once |
| `VersionTable.VersionStore.GetCurrentVersion` | internal/db/products.go:85-102 | finds a row being served if and only if the product has one |
| `VersionTable.VersionStore.MarkVersionDeleted` | internal/db/products.go:233-236 | the marking UPDATE as a loop over the rows |
| `Lifecycle.RunWellFormed` | internal/db/products.go:147-236 | the table invariants hold after every run of publications, rollbacks and marks |
| `Lifecycle.ApplyFrames` | internal/db/products.go:147-236 | no operation removes a row, changes its id or dates of origin, or touches a row of another product |
| `Lifecycle.DeadlineKept` | internal/db/products.go:152-156 | a row that stays superseded keeps superseded_at and deadline under every later operation |
| `Lifecycle.PublishIdempotent` | internal/db/products.go:147-178 | publishing a release twice, at any two times and retentions, gives the table of publishing it once |
| `Lifecycle.PublishServesRelease` | internal/db/products.go:160-176 | after a publication the release is the version served with its digest, size, path and backend; an existing row is revived and keeps released_at and created_at |
| `Lifecycle.PublishRefines` | internal/db/products.go:147-178 | publication refines the abstract step: retire the current version with its deadline, make the new one current |
| `Lifecycle.RollbackRefines` | internal/db/products.go:181-203 | rollback succeeds exactly when the abstract machine still retains the version (or serves it), and refines its step |
| `Lifecycle.MarkRefines` | internal/db/products.go:233-236 | a mark refines moving the version from current or retained to gone |
| `Lifecycle.RunSpells` | internal/db/products.go:160-175 | in every reachable table the rows are those of the versions published so far, as told from the events, under ids that spell product and version |
| `Lifecycle.ColonFreeAccepts` | internal/db/products.go:174 | in a catalog without colons ids never clash: every publication of a known product is accepted |
| `Lifecycle.RunRefines` | internal/db/products.go:147-236 | after every run the rows of every product are exactly what an abstract machine that sees only the events (current, retained with deadlines, gone) says |
| `Lifecycle.ColonFreePublished` | internal/db/products.go:147-178 | without colons a product counts as published exactly from its first publication on |
| `Lifecycle.ExactlyOneCurrent` | internal/db/products.go:147-236 | in every reachable table a product has exactly one current row once it has been published, and no row before |
| `Lifecycle.DeadlineOrigin` | internal/db/products.go:149-156 | every superseded row stopped being current at some event of the run, and its deadline is superseded_at plus the retention of that event |
| `Lifecycle.MarkHidesOnlyTheServed` | internal/db/products.go:85-87 | a mark stops a product being served exactly when it hits the served row |
| `Lifecycle.RollbackBeforeMarkHides` | internal/db/products.go:181-236 | marking a row just rolled back to leaves the product with nothing to serve, whatever table and version |
| `Lifecycle.AvailableStep` | internal/db/products.go:147-236 | from any table with the invariants, an update leaves a product without a version to serve exactly if it marks the row being served |
| `Lifecycle.AlwaysServedExactly` | internal/db/products.go:147-236 | over every run a product has a version to serve at all times from its first publication on if and only if no mark hits the row being served |
| `Cleanup.RunCleanup` | internal/workers/cleanup.go:18-34 | an undisturbed pass purges exactly the expired rows whose mark does not fail, counts exactly those, and deletes exactly the expired rows' files that can be deleted |
| `Cleanup.PurgeAll` | internal/workers/cleanup.go:27-34 | the loop over the query's rows, against its row by row specification |
| `Cleanup.PurgeOne` | internal/workers/cleanup.go:27-33 | one round: delete unless the path is empty, drop the error, mark, count |
| `Cleanup.PassMarks` | internal/workers/cleanup.go:27-34 | marking by id one row after the other equals marking the set of keys at once, each counted once |
| `Cleanup.PathsDistinct` | internal/storage/filesystem.go:138 | no two live rows with stored paths share a path |
| `Cleanup.PassPurgesRows` | internal/workers/cleanup.go:22-34 | after a pass at T no live superseded row has a deadline up to T, and every other row is unchanged |
| `Cleanup.PassEmptiesPaths` | internal/workers/cleanup.go:27-30 | of all stored paths exactly those of expired rows whose driver does not fail to delete them hold nothing afterwards; the rest hold what they held |
| `Cleanup.PassSparesOthers` | internal/workers/cleanup.go:27-30 | every row the pass leaves alone opens to the same bytes as before, whatever deletes fail |
| `Cleanup.NothingOverdueAfter` | internal/workers/scheduler.go:38-47 | whatever happens after a pass, no live superseded row has a deadline before that pass |
| `Cleanup.OverdueBounded` | internal/workers/scheduler.go:38-47 | while the last pass is at most G ago, no live superseded row is more than G past its deadline |
| `SyncProtocol.StepRows` | internal/syncer/syncer.go:169 | whatever step the concurrent system takes, its effect on the rows is one publication, rollback or mark, or none |
| `SyncProtocol.RunRows` | internal/syncer/syncer.go:58-172 | so under every interleaving the table is one a run of row updates reaches, and all results on runs apply |
| `SyncProtocol.StepKeepsInv` | internal/syncer/syncer.go:58-172 | every step keeps: live rows and stored files of unfinished syncs have paths of their own version; what a sync has stored is there or deleted; every row a running pass will mark was expired when it began |
| `SyncProtocol.PassOrigin` | internal/workers/cleanup.go:22-27 | a running pass works on the table as it was when the pass began |
| `SyncProtocol.PassIsCleanup` | internal/workers/cleanup.go:22-34 | the delete and mark steps of a pass, when nothing comes between them, do to rows and stores exactly what the pass's method does, row by row and with any of them failing |
| `SyncProtocol.MarkedWasExpired` | internal/workers/cleanup.go:22-34 | with anything running in between, a row turns from live to deleted only by a mark, and the very pass that marks it found it superseded, live and past its deadline when it began |
| `SyncProtocol.AvailableExactly` | internal/workers/cleanup.go:27-33 | over every interleaving a product with rows has a version to serve at every moment if and only if no pass marks the row being served |
| `SyncProtocol.HiddenWasRevived` | internal/workers/cleanup.go:22-33 | a pass that does mark the row being served found it superseded and past its deadline when it began, so it was made current again in between |
| `SyncProtocol.ReachablePathsStored` | internal/syncer/syncer.go:145-172 | what a pass needs of the table and the stores to be exact holds in every reachable state |
| `RowsAndBytes.PutLeavesOthers` | internal/storage/filesystem.go:137-154 | storing one version changes no other row's bytes |
| `RowsAndBytes.PublishStepSound` | internal/syncer/syncer.go:145-172 | a publication makes a live row disagree with its bytes exactly if it takes place with its file gone, or fails and leaves a live row with another file or none, and no pass is about to mark the row with its file gone |
| `RowsAndBytes.DropKeepsSound` | internal/workers/cleanup.go:28-30 | a pass's delete by itself never does, whichever drivers fail |
| `RowsAndBytes.MarkStepSound` | internal/workers/cleanup.go:31-33 | a mark does exactly if it fails on a live row whose file is gone and which neither a sync nor another pass will see to |
| `RowsAndBytes.RestartStepSound` | internal/syncer/syncer.go:145-172 | a restart does exactly if it forgets a sync whose live row has another file or none by now, or a pass whose live row has none |
| `RowsAndBytes.StepSound` | internal/syncer/syncer.go:58-172 | over all ten kinds of steps, from any reachable state: every live row keeps matching its bytes, but for rows a sync or a pass is at, if and only if the step is none of those |
| `RowsAndBytes.SoundExactlyWithoutHarm` | internal/syncer/syncer.go:58-172 | over every interleaving of syncs, rollbacks, driver switches, passes and restarts that holds at every moment if and only if no step was harmful |
| `RowsAndBytes.RowsMatchBytes` | internal/syncer/syncer.go:58-172 | then, with the product's lock free and no mark pending, a live row's path opens to bytes with the row's sha256 and size, whichever driver is active |
| `HarmfulRuns.FailedPublishRun` | internal/syncer/syncer.go:145-172 | from any stores, a run without harm up to a failing publication that does harm |
| `HarmfulRuns.MissingFileRun` | internal/workers/cleanup.go:27-33 | one up to a publication whose file a pass has deleted |
| `HarmfulRuns.FailedMarkRun` | internal/workers/cleanup.go:31-33 | one up to a failing mark that does harm |
| `HarmfulRuns.RestartRun` | internal/workers/cleanup.go:27-33 | one up to a restart between delete and mark that does harm |
| `HarmfulRuns.HiddenRun` | internal/workers/cleanup.go:22-33 | a run without harm in which a rollback falls between a pass's query and its mark, and which ends with a published product that has nothing to serve |
| `HarmfulRuns.HarmsOccur` | internal/workers/cleanup.go:22-33 | all of these with concrete names and contents, whatever the digest |
| `Syncer.Syncer.SyncProduct` | internal/syncer/syncer.go:54-190 | turned away exactly if the product's lock is held; publishes exactly if there is a build with plain names of a catalogued product, no write fails and the row id is free; then the file is in the active store, the build's row is current with digest, size, backend and path, what was current is superseded now and due after the product's retention, and no other row changes; otherwise the rows stay; the cache entry goes exactly on success; all of it by the steps lock, store, publish, unlock of the concurrent system |
| `Syncer.Syncer.Work` | internal/syncer/syncer.go:66-190 | the body under the lock against the step system |
| `Syncer.WorkedIsSteps` | internal/syncer/syncer.go:54-190 | the sync's specification is two or three steps of the concurrent system |
| `Syncer.PublishesExactly` | internal/syncer/syncer.go:145-172 | a sync with the lock publishes if and only if it has a build with plain names that no failing write keeps out, the product is catalogued and no other row bears the id |
| `Syncer.SyncPublishes` | internal/syncer/syncer.go:145-172 | the rows after a publishing sync, field by field, with the deadline of what it superseded, and the one stored file |
| `Syncer.SyncDelivers` | internal/syncer/syncer.go:145-172 | a sync that succeeds undisturbed, from any reachable state, leaves its build as the version served, the replaced version due after the settings' retention, and its path opening to exactly the build's bytes |
| `Delivery.ManifestDescribesDownload` | internal/api/handlers_manifest.go:51-70 | after any run without harm the manifest's digest and size are those of the bytes the served row's path opens to |
| `Paths.CleanIdempotent` | internal/storage/filesystem.go:230 | cleaning a cleaned path changes nothing |
| `Paths.CleanIs` | internal/storage/filesystem.go:230 | a cleaned path is the root or "." exactly if no component is left, and else splits into exactly the components left |
| `Paths.DetoursCleaned` | internal/storage/filesystem.go:230 | a name followed by "..", a "." and a doubled separator make no difference to a cleaned path, wherever they stand after its start |
| `Paths.ResolvedIsContained` | internal/storage/filesystem.go:229-235 | a path is accepted exactly if it is relative and its first remaining component does not begin with two dots, and then resolves to the root followed by names only |
| `Paths.StoredPathResolvesBack` | internal/storage/filesystem.go:138-144 | every path a store returns is accepted and resolves to the very file written |
| `Paths.RelPathCollision` | internal/storage/filesystem.go:138 | two accepted triples share a path exactly if they agree after dropping "." components |
| `Paths.DotsCollide` | internal/storage/filesystem.go:237-244 | the validator accepts two triples, of different products, that are stored in one file |
| `Paths.ValidExactly` | internal/storage/filesystem.go:237-244 | an identifier is accepted if and only if it is not empty and is nowhere of the form a..b, a/b or a\b |
| `Paths.ExtendedNameIsValid` | internal/storage/filesystem.go:237-244 | a file name with an extension is accepted |
| `FilesystemStore.FilesystemStorage.StoreArtifact` | internal/storage/filesystem.go:103-155 | with any call failing or a crash before any call, the destination holds its old contents or all of the new ones, a declared size is met, and every exit but a crash leaves no staging directory; a file called "." is never stored; it succeeds exactly for plain identifiers and a filename other than "." when nothing breaks |
| `FilesystemStore.FilesystemStorage.Stage` | internal/storage/filesystem.go:108-131 | the staging half: the closed staging file holds all chunks, or the store has broken off cleanly, as it always does for the filename "." |
| `FilesystemStore.FilesystemStorage.WriteChunks` | internal/storage/filesystem.go:125-131 | the copy loop: all chunks written and the file closed, or broken off cleanly |
| `FilesystemStore.FilesystemStorage.OpenArtifact` | internal/storage/filesystem.go:158-181 | the file at the resolved path, not found, refused, or another error |
| `FilesystemStore.FilesystemStorage.DeleteArtifact` | internal/storage/filesystem.go:184-202 | removes the resolved file and no other, or fails and leaves it; after success the path is not found |
| `FilesystemStore.FilesystemStorage.VerifyArtifact` | internal/storage/filesystem.go:205-227 | refuses exactly a path that cannot be opened and a size other than a positive expected one |
| `FilesystemStore.StoreThenOpen` | internal/storage/filesystem.go:103-181 | a store that can succeed is what is opened under its path, and under the path of any triple not equal up to "." nothing changes |
| `StorageManager.S3Storage.StoreArtifact` | internal/storage/s3.go:71-92 | succeeds exactly for plain identifiers when the call does not fail, and then puts the object under the joined key; otherwise changes nothing |
| `StorageManager.S3Storage.VerifyArtifact` | internal/storage/s3.go:142-161 | refuses exactly a missing object, a failing head and a size other than a positive expected one |
| `StorageManager.Manager.SetS3Storage` | internal/storage/manager.go:30-34 | the objects of the new driver are what the manager reads; the active driver stays |
| `StorageManager.FailuresNeverMislead` | internal/storage/manager.go:87-104 | a failing driver shows as an error, never as other bytes or a file that is not there |
| `StorageManager.Manager.SetActiveDriver` | internal/storage/manager.go:38-55 | switches only to known drivers, to S3 only when registered |
| `StorageManager.Manager.StoreArtifact` | internal/storage/manager.go:78-84 | stores with the active driver alone; succeeds exactly for plain identifiers (a filename "." on S3 only) when the call does not fail; a failure changes nothing readable |
| `StorageManager.ExtendedNameCanBeStored` | internal/storage/filesystem.go:237-244 | every file name with an extension can be stored, on either driver |
| `StorageManager.Manager.OpenArtifact` | internal/storage/manager.go:87-104 | the active driver's answer, the other's only on not found, with either driver failing otherwise |
| `StorageManager.Manager.DeleteArtifact` | internal/storage/manager.go:107-117 | asks both drivers, each of which may fail and keep its file; the verdict is the active driver's |
| `StorageManager.Manager.VerifyArtifact` | internal/storage/manager.go:120-136 | the two drivers' own verifications, the second only on not found, judge what opening would give |
| `StorageManager.PathTextInjective` | internal/storage/filesystem.go:138 | stored paths of distinct triples or drivers have distinct texts |
| `StorageManager.ParsePath` | internal/storage/s3.go:76 | reads a path back to the store that returned it, if any did |
| `StorageManager.ParseOfText` | internal/storage/s3.go:76 | and does so for every stored path |
| `StorageManager.ResolveInjective` | internal/storage/filesystem.go:229-235 | no two stored paths of whatever drivers resolve to one file |
| `StorageManager.OpenFindsHeld` | internal/storage/manager.go:87-104 | opening a stored path finds what the driver that returned it holds, whichever is active |
| `StorageManager.StoreHolds` | internal/storage/manager.go:78-84 | a store changes what one stored path holds and nothing else |
| `StorageManager.DeleteHolds` | internal/storage/manager.go:107-117 | a delete empties one stored path and nothing else |
| `StorageManager.DeleteUnderHolds` | internal/storage/manager.go:107-117 | with failing drivers the stored path is emptied exactly if its own driver does not fail |
| `StorageManager.RunHolds` | internal/storage/manager.go:38-136 | over any run of stores, switches and deletes the two drivers hold what one flat reference store holds |
| `StorageManager.HotSwapTransparent` | internal/storage/manager.go:38-136 | opening returns the bytes last stored there and not deleted since, whichever driver was active then, is now, or is switched to next |
| `ManifestCache.Cache.constructor` | internal/cache/manifest_cache.go:31-38 | a configured time to live is the one in force, zero or less becomes sixty seconds |
| `ManifestCache.Cache.Get` | internal/cache/manifest_cache.go:41-53 | the entry unless older than the time to live |
| `ManifestCache.Cache.Set` | internal/cache/manifest_cache.go:55-63 | replaces the entry; it is then found exactly for the time to live |
| `ManifestCache.Cache.Invalidate` | internal/cache/manifest_cache.go:65-70 | drops one entry only |
| `ManifestHandler.QueriedIs` | internal/api/handlers_manifest.go:51-70 | the database answers for the served row with that row's digest, size and date, the product's edition and file name, and a URL whose segments are those of the download route around the product |
| `ManifestHandler.ServeHTTP` | internal/api/handlers_manifest.go:25-78 | answers a fresh entry unchanged, else exactly what the database answers, and caches exactly the manifests it queried, stamped with the time of filling; every answer, cached or not, is of the product asked for and leads to its download |
| `ManifestHandler.LeadsToOneSegment` | internal/api/router.go:51 | for a product without a slash the download URL has exactly the segments of the route |
| `ManifestHandler.StepsServe` | internal/api/handlers_manifest.go:25-78 | the arrive, read and fill steps of a request, when nothing comes between them, answer and cache exactly what serving it does |
| `ManifestHandler.ForgetForgets` | internal/cache/manifest_cache.go:65-70 | the publication callback drops that product's entry and nothing else |
| `ManifestHandler.PublishedIsServed` | internal/syncer/syncer.go:169-177 | with no request in between, the first request after a publication and its callback is served the release, digest and size |
| `ManifestHandler.BoundedStaleness` | internal/api/handlers_manifest.go:33-73 | under every interleaving of requests, publications, rollbacks and marks a served manifest is of the product asked for and was the database's answer at most ttl + d before, d bounding read to fill, and leads to that product's download |
| `ManifestHandler.FillAfterPublish` | internal/api/handlers_manifest.go:51-73 | a request that reads before a publication and fills after its invalidation has the old version served for a whole ttl |
| `CacheAgreement.NextAgrees` | internal/ui/ui.go:592-601 | with uninterrupted requests, syncs, rollbacks and marks, cache and database stay in agreement exactly unless a rollback goes to another version than a fresh entry's or a mark hits the version of one |
| `CacheAgreement.ExpiredMarkSpoilsNothing` | internal/workers/cleanup.go:27-33 | the marks of a cleanup pass never break the agreement |
| `CacheAgreement.AnswersAsQueried` | cmd/distrimax/main.go:66-68 | after every such run the next request is answered exactly as by a server that always queries |
| `CacheAgreement.RollBackServesOld` | internal/ui/ui.go:592-601 | after a spoiling rollback the version rolled back from goes on being served while the entry is fresh |
| `RequestsInFlight.StepAgrees` | internal/api/handlers_manifest.go:33-73 | with requests in flight, a step breaks the agreement of cache and database exactly if it fills in a manifest that is no longer the answer, publishes another manifest than a fresh entry's before the callback has run, or is a spoiling rollback or mark |
| `RequestsInFlight.AgreesExactly` | internal/api/handlers_manifest.go:33-73 | over every interleaving the cache agrees with the database after every step if and only if no step is one of those |
| `RequestsInFlight.CachedIsCurrent` | internal/api/handlers_manifest.go:33-38 | while they agree, an answer from the cache is the database's |
| `RequestsInFlight.ActsAreSteps` | internal/api/handlers_manifest.go:25-78 | requests, syncs, rollbacks and marks one after the other are the interleaving in which nothing comes between their steps |
| `SpoilingRuns.RollBackRun` | internal/ui/ui.go:592-601 | an unspoilt run of syncs and a request up to a rollback that spoils |
| `SpoilingRuns.FillRun` | internal/api/handlers_manifest.go:51-73 | an unspoilt run up to a fill that spoils, after publication and invalidation |
| `Text.SplitJoin` | internal/auth/argon2.go:57 | splitting a join of parts free of the separator gives the parts |
| `Text.DecimalRoundTrip` | internal/auth/argon2.go:51 | printed decimals read back to the same number |
| `Base64.RoundTrip` | internal/auth/argon2.go:48-49 | decoding an encoding gives the bytes back, for every length residue, padded and unpadded (section 4 of RFC 4648) |
| `Base64.DecodeExactly` | internal/auth/argon2.go:70-78 | what decodes is, line breaks aside, exactly letters of the alphabet with exactly the padding of the encoding |
| `Base64.GroupIsNumber` | internal/auth/argon2.go:48-49 | a group of four letters stands for the 24 bits of its three bytes in order (section 4 of RFC 4648) |
| `Base64.EncodeAlphabet` | internal/auth/argon2.go:48-49 | encodings hold letters of the alphabet and padding only |
| `Base64.NewlinesIgnored` | internal/auth/crypto.go:49 | line breaks in an encoding make no difference to decoding |
| `PasswordHash.ParseOfHash` | internal/auth/argon2.go:40-83 | an encoded hash parses back to exactly its parameters, salt and key |
| `PasswordHash.HashLayout` | internal/auth/argon2.go:48-53 | the parts of an encoded hash between the dollar signs |
| `PasswordHash.VerifyAgainstHash` | internal/auth/argon2.go:56-92 | verification against a hash compares the two derived keys, so every password verifies against its own hash |
| `PasswordHash.OnlyThePasswordVerifies` | internal/auth/argon2.go:56-92 | the verdict on a candidate is right exactly if its key does not collide with the password's under that salt |
| `PasswordHash.AlgorithmNameIgnored` | internal/auth/argon2.go:57-68 | the verdict never depends on the first two fields |
| `PasswordHash.FieldCount` | internal/auth/argon2.go:57-60 | a string is refused at once exactly for not having five dollar signs |
| `PasswordHash.ParseExactly` | internal/auth/argon2.go:56-83 | a string parses to costs, salt and key if and only if it has six fields, the third spells version 19, the fourth the three costs, and the last two are salt and key in unpadded base64; numbers may have blanks and zeros in front, and anything may follow the last |
| `PasswordHash.VerifiesExactly` | internal/auth/argon2.go:56-92 | a password verifies against a string, however that came about, if and only if it encodes costs, salt and key under which the password derives the key |
| `PasswordHash.RefusedFor` | internal/auth/argon2.go:57-83 | which strings are refused as malformed, of another version, unreadable or no base64, each exactly |
| `SecretBox.DecryptOfEncrypt` | internal/auth/crypto.go:19-76 | every plaintext comes back under every 32-byte key and nonce |
| `SecretBox.OtherKeysRefused` | internal/auth/crypto.go:19-52 | a key that is not of 32 bytes is refused both ways |
| `SecretBox.DecryptRefuses` | internal/auth/crypto.go:49-74 | which texts are refused as no base64 and which as too short or not opening, each exactly |
| `SecretBox.EncryptSpells` | internal/auth/crypto.go:29-40 | an encryption spells the nonce followed by the sealed text |
| `SecretBox.DecryptExactly` | internal/auth/crypto.go:44-76 | a text decrypts to a plaintext exactly if it spells the bytes of some encryption of it |
| `SecretBox.SomeAeadFits` | internal/auth/crypto.go:29-40 | the two laws asked of the cipher can be met together |
| `ApiKeys.GetAPIKeysByPrefix` | internal/db/api_keys.go:44-65 | exactly the unrevoked rows with the prefix |
| `ApiKeys.FirstVerified` | internal/api/middleware.go:132-139 | a row that verifies, or none does |
| `ApiKeys.MatchKey` | internal/api/middleware.go:125-139 | a hit of query and loop together, found if and only if the table has one |
| `ApiKeys.SecretIsTrimmed` | internal/auth/apikey.go:16-40 | trimming leaves a generated secret alone |
| `ApiKeys.SecretSpells` | internal/auth/apikey.go:16-27 | a secret is the fixed prefix and its random bytes in hexadecimal, digit by digit |
| `ApiKeys.SecretInjective` | internal/auth/apikey.go:16-27 | different random bytes make different secrets |
| `ApiKeys.IssuedRow` | internal/auth/apikey.go:16-37 | the row is found by the first sixteen characters and holds a 32-byte key at the default costs |
| `ApiKeys.PrefixOfToken` | internal/auth/apikey.go:39-46 | blanks around a token make no difference to its prefix, which is its first sixteen characters or all of a shorter one |
| `ApiKeys.LookupAgreesWithSecret` | internal/auth/apikey.go:16-45 | a generated row is hit exactly by its own secret while unrevoked, although prefix and verification see differently trimmed tokens, if the token's key does not collide with that secret's |
| `ApiKeys.SomeKdfFits` | internal/auth/argon2.go:46 | for every token there is a key derivation under which it collides with no secret |
| `ApiKeys.MatchIssuedKey` | internal/api/middleware.go:125-139 | on a table of generated keys the indexed lookup finds a key if and only if a scan of all unrevoked secrets would, for a token that collides with none of them |
| `Sorting.SortSorts` | internal/db/migrator.go:76-78 | sorting gives an ordered permutation |
| `Sorting.AnySort` | internal/db/migrator.go:76-78 | without ties any correct sort gives the same sequence |
| `Migrations.Migrator.RunMigrations` | internal/db/migrator.go:22-117 | in terms of the files: the contents of scripts with ascending, so far unrecorded versions are executed one after the other and recorded with their checksums, and nothing else happens; a run without error has every script on record; a script recorded under another checksum, a script without a version and a fault each end it where they are met; without faults it completes exactly if the scripts fit each other and the records |
| `Migrations.LoneScriptExecuted` | internal/db/migrator.go:62-114 | after a run without error the contents of a script alone with an unrecorded version are among what was executed, and its checksum is on record |
| `Migrations.RunEnds` | internal/db/migrator.go:76-114 | all of this holds for any correct sort, in whatever order it leaves scripts of one version |
| `MigrationFiles.CarriesExactly` | internal/db/migrator.go:47-60 | a file is a migration of a version if and only if its name is the number in decimal, signed or padded or not, an underscore, anything, and .sql |
| `MigrationFiles.ScriptExactly` | internal/db/migrator.go:47-56 | passed over is exactly what is a directory, has another extension or no underscore |
| `MigrationFiles.AtoiExactly` | internal/db/migrator.go:57 | a version is read exactly if the text spells it in decimal within 64 bits |
| `MigrationFiles.ScriptBehind` | internal/db/migrator.go:62-73 | what is collected has a script's version, contents and checksum |
| `MigrationFiles.CollectedFor` | internal/db/migrator.go:62-73 | every script is collected, with its version, contents and checksum |
| `MigrationFiles.RefusedFirst` | internal/db/migrator.go:57-60 | the directory is refused exactly for a script without a version, the first one listed |
| `Migrations.Migrator.Collect` | internal/db/migrator.go:46-74 | reads the directory, or fails on the first migration file without a version |
| `Migrations.Migrator.Process` | internal/db/migrator.go:81-114 | the loop over the sorted migrations |
| `Migrations.Migrator.ApplyOne` | internal/db/migrator.go:82-113 | script and record go in together or not at all; a recorded one is only checked |
| `Migrations.RunIsPrefix` | internal/db/migrator.go:81-114 | wherever a run breaks off it has done exactly the migrations before the first obstacle, which can be told before it starts |
| `Migrations.ResumeCompletes` | internal/db/migrator.go:81-114 | a rerun ends in the same schema, records and verdict as a single uninterrupted run |
| `Migrations.RunsAreOne` | internal/db/migrator.go:81-114 | any number of broken runs has executed a version-ordered prefix of the pending scripts once each, and completes to the same end |
| `Migrations.RerunDoesNothing` | internal/db/migrator.go:84-89 | after a complete run another executes and records nothing, whatever goes wrong in it |
| `Migrations.MismatchStops` | internal/db/migrator.go:86-88 | a differing checksum at version k means an error, and that only scripts before version k are executed and nothing of version k or later is recorded |
| `Migrations.CompleteRunRecordsAll` | internal/db/migrator.go:81-114 | a run that ends without error has every migration on record with its own checksum |
| `Migrations.CompletesExactly` | internal/db/migrator.go:81-114 | for any sequence of files, a run without faults completes if and only if every recorded version has its own checksum on record and no two files of one version differ in checksum |
| `Migrations.DuplicateVersionBlocks` | internal/db/migrator.go:84-88 | two files of one version with different contents keep every run, with or without faults, from completing |
| `Migrations.DistinctSortsAscending` | internal/db/migrator.go:76-78 | distinct versions are worked through in ascending order |
| `Migrations.ListingOrderIrrelevant` | internal/db/migrator.go:46-78 | the order of the directory listing and the sort used make no difference |
| `Timestamps.BeforeIsEarlier` | internal/workers/backup.go:25 | comparing calendar fields compares moments, leap years included |
| `Timestamps.DaysBeforeYearIs` | internal/workers/backup.go:25 | the days before a year in closed form, with the leap years of the Gregorian calendar |
| `Timestamps.DaysBeforeMonthIs` | internal/workers/backup.go:25 | the days before a month in closed form |
| `Timestamps.StampsChronological` | internal/workers/backup.go:25-26 | for years 0 to 9999 names with the layout sort exactly as the moments they name |
| `Timestamps.FiveDigitYearsSortEarly` | internal/workers/backup.go:25-26 | from the year 10000 on they do not |
| `Backups.BackupRoot.CreateBackup` | internal/workers/backup.go:18-47 | succeeds exactly if no step fails and no directory with contents has the name; then the new snapshot is in, and of the matching snapshots the newest are left, as many as asked for or seven, besides those that cannot be removed; everything else is untouched, and on failure only a file of the same name is lost |
| `Backups.SnapshotExactly` | internal/workers/backup.go:56-60 | rotation takes a file for a snapshot if and only if its name is distrimax-, anything, .sqlite3 |
| `Backups.BackupRoot.RotateLocalBackups` | internal/workers/backup.go:50-69 | removes exactly the matching names with at least keep others sorting after them |
| `Backups.SurplusIsFront` | internal/workers/backup.go:62-65 | the front of the sorted names is exactly that surplus |
| `Backups.KeptCount` | internal/workers/backup.go:62-68 | min(n, keep) matching snapshots remain |
| `Backups.KeptAreNewer` | internal/workers/backup.go:62-68 | every kept name sorts after every removed one |
| `Backups.KeptBackupsAreLater` | internal/workers/backup.go:62-68 | of two backups the kept one is of the later moment |
| `Backups.NewBackupSurvives` | internal/workers/backup.go:44 | the snapshot just made survives while matching names are those of backups up to now |
| `Backups.ForeignNamesDisplace` | internal/workers/backup.go:58 | other files with matching names can displace it |
| `Backups.BackupStep` | internal/workers/backup.go:18-47 | one backup's effect on the set of snapshots, for any retention count, so that runs of backups are runs of this |
| `Backups.RunKeepsNewest` | internal/workers/backup.go:50-69 | after any run of backups, in whatever order of times, exactly the newest of all ever made or found there remain |
| `Webhook.Sender.SendWebhook` | internal/workers/webhook.go:30-109 | posts up to the first attempt decisive by its own response, never by a remembered status; total wait 100 * (2^n - 1) ms; at most one record |
| `Webhook.EndFrom` | internal/workers/webhook.go:64-105 | the deciding attempt is the first that decides |
| `Webhook.PostsUndisturbed` | internal/workers/webhook.go:64-108 | left alone the posts end with the first 2xx or final 4xx or at five, and exactly one delivery is recorded |
| `Webhook.BackoffBounded` | internal/workers/webhook.go:97-104 | all waits together are at most 1500 ms |
| `Webhook.RecordedAttempts` | internal/workers/webhook.go:83-108 | the recorded count is the true one exactly on success or after all five |
| `Webhook.LeftOverStatus` | internal/workers/webhook.go:80-107 | a recorded failure status is the last post's, or left over from the last answered post if the last got a network error |
| `Webhook.RecordedStatus` | internal/workers/webhook.go:80-108 | the delivery is recorded with the status of the deciding response, or that of the last answered post if the last got a network error |

## Left out

- Directories of the artifact store: creating them, removing empty ones, and failures from a path component that is a
  file. Stores are maps from full path to contents.
- The removal of a staging directory is taken to succeed.
- FilesystemStore.FilesystemStorage.OpenArtifact: a path that resolves to a directory, which no stored path does, is
  opened by the program and not found by the model.
- FilesystemStore.FilesystemStorage.VerifyArtifact: likewise for a directory.
- StorageManager.HotSwapTransparent: asks for backends that fail only with not found (for other failures there is
  `StorageManager.FailuresNeverMislead`) and for a pair of backends that is not exchanged during the run.
- StorageManager.S3Storage.StoreArtifact: the object either gets stored whole or not at all; the ContentLength sent
  with it is not checked.
- FilesystemStore.FilesystemStorage.StoreArtifact: takes a staging id not in use; the program makes it of product, version
  and the clock's nanoseconds, so only two stores of one version at the same nanosecond could share one.
- ManifestHandler.ServeHTTP: is stated for tables with the invariants of `VersionTable.WellFormed`, which every
  reachable table has (`Lifecycle.RunWellFormed`).
- Cleanup.RunCleanup: likewise asks for distinct row ids, which every reachable table has.
- Cleanup.PassPurgesRows: is about passes whose deletes and marks succeed; the program does not retry a failed delete
  and marks the row anyway, which leaves the file behind for good.
- RowsAndBytes.RowsMatchBytes: excludes the harmful steps, since nothing in the code prevents them.
- ManifestHandler.BoundedStaleness: takes the two database reads of a request as one, since the program never changes
  the columns the first one reads.
- SyncProtocol.StepKeepsInv: a restart finds the stores and the active driver as they were; that the driver is set anew
  from the settings is one more switch.
- PasswordHash.VerifyAgainstHash: asks for what the key derivation takes, at least one round, one lane and one byte of
  key; on anything else it panics, which verification models as an error of its own.
- ApiKeys.LookupAgreesWithSecret: trims the white space of ASCII only; Unicode spaces are not part of the model.
- Timestamps.StampsChronological: ends with the year 9999, like the layout.
- Migrations.Migrator.RunMigrations: of `schema_migrations` the version and checksum columns only.
- Backups.BackupRoot.CreateBackup: the upload to S3, whose errors are dropped, and partial files a failing VACUUM may
  leave are not modelled.
- Webhook.Sender.SendWebhook: the signature header, the request timeout and a missing database handle are not modelled; a
  wait that is cancelled counts as no wait.
- The tail of a cleanup pass (audit logs, sessions, download tokens), the log of sync runs, and why a fetch fails, are
  left out: each is a single statement.
- The download limiter, session handling, the last-admin guard, the proxy rules, configuration, health endpoints and the
  admin pages would add easy members only.
- SQLite, the AWS SDK, gzip and tar, the maxminddb parser and HTTP are foreign; timestamps are integers, not SQL text.
