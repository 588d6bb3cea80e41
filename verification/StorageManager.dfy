/** The storage manager: two drivers, one of them active, and fallback reads across a switch. */
module StorageManager {
  import opened Wrappers
  import opened Text
  import opened Octets
  import opened Paths
  import opened FilesystemStore

  datatype Driver = Filesystem | S3

  /** The state the manager works on: the active driver, the files under the artifact root and, once an
      S3 driver is registered, its objects by key. */
  datatype Stores = Stores(active: Driver, root: string, files: Files, objects: Option<Files>)

  datatype ManagerError = NotConfigured | UnknownDriver

  function OpenObject(objects: Files, key: string): Result<Bytes, StorageError> {
    if key in objects then Ok(objects[key]) else Err(NotFound)
  }

  /** S3 is used only while it is registered. */
  predicate UsesS3(s: Stores) {
    s.active.S3? && s.objects.Some?
  }

  /** The path under which the active driver files a triple. */
  function PathOn(s: Stores, p: string, v: string, f: string): string {
    if UsesS3(s) then ObjectKey(p, v, f) else RelPath(p, v, f)
  }

  /** The active driver takes the names. A file cannot be called "."; an object can. */
  predicate CanStore(s: Stores, p: string, v: string, f: string) {
    ValidIdentifiers(p, v, f) && (UsesS3(s) || f != ".")
  }

  lemma CanStoreExactly(s: Stores, p: string, v: string, f: string)
    ensures CanStore(s, p, v, f) <==> PlainIdentifiers(p, v, f) && (UsesS3(s) || f != ".")
  {
    TripleValidExactly(p, v, f);
  }

  /** A file name with an extension gets stored, whichever driver is active. */
  lemma ExtendedNameCanBeStored(s: Stores, p: string, v: string, stem: string, ext: string)
    requires PlainIdentifier(p) && PlainIdentifier(v) && stem != "" && ext != ""
    requires forall c :: c in stem + ext ==> c != '.' && c != '/' && c != '\\'
    ensures CanStore(s, p, v, stem + "." + ext)
  {
    ValidExactly(p);
    ValidExactly(v);
    ExtendedNameIsValid(stem, ext);
  }

  /** A completed store. */
  function StoreIn(s: Stores, p: string, v: string, f: string, data: Bytes): Stores {
    if UsesS3(s) then s.(objects := Some(s.objects.value[ObjectKey(p, v, f) := data]))
    else s.(files := s.files[DestFile(s.root, p, v, f) := data])
  }

  /** The active driver first; the other one only if the first has not found the path. */
  function OpenIn(s: Stores, path: string): Result<Bytes, StorageError> {
    if UsesS3(s) then
      var r := OpenObject(s.objects.value, path);
      if r == Err(NotFound) then OpenFile(s.root, s.files, path) else r
    else
      var r := OpenFile(s.root, s.files, path);
      if r == Err(NotFound) && s.objects.Some? then OpenObject(s.objects.value, path) else r
  }

  /** Both drivers delete. */
  function DeleteIn(s: Stores, path: string): Stores {
    s.(files := DeleteFile(s.root, s.files, path),
       objects := if s.objects.Some? then Some(s.objects.value - {path}) else None)
  }

  /** Which drivers fail during a call, for other reasons than not found. */
  datatype Faults = Faults(fs: bool, s3: bool)

  const NONE := Faults(false, false)

  function OpenOnS3(objects: Files, key: string, fails: bool): Result<Bytes, StorageError> {
    if fails then Err(IOFailure) else OpenObject(objects, key)
  }

  /** Only not found makes the manager ask the other driver. */
  function OrElse(first: Result<Bytes, StorageError>, second: Result<Bytes, StorageError>): Result<Bytes, StorageError> {
    if first == Err(NotFound) then second else first
  }

  function OpenUnder(s: Stores, path: string, f: Faults): Result<Bytes, StorageError> {
    var onDisk := OpenFaulty(s.root, s.files, path, f.fs);
    if s.objects.None? then onDisk
    else
      var onS3 := OpenOnS3(s.objects.value, path, f.s3);
      if UsesS3(s) then OrElse(onS3, onDisk) else OrElse(onDisk, onS3)
  }

  function DeleteUnder(s: Stores, path: string, f: Faults): Stores {
    var deleted := DeleteIn(s, path);
    s.(files := if f.fs then s.files else deleted.files, objects := if f.s3 then s.objects else deleted.objects)
  }

  /** Without failures this is plain opening and deleting. */
  lemma UnderNoFaults(s: Stores, path: string)
    ensures OpenUnder(s, path, NONE) == OpenIn(s, path) && DeleteUnder(s, path, NONE) == DeleteIn(s, path)
  {
  }

  /** A driver that fails shows as an error, never as other bytes or as a file that is not there. */
  lemma FailuresNeverMislead(s: Stores, path: string, f: Faults)
    ensures OpenUnder(s, path, f) == OpenIn(s, path) || OpenUnder(s, path, f) == Err(IOFailure)
  {
  }

  function SwitchTo(s: Stores, driver: string): Result<Stores, ManagerError> {
    if driver == "s3" then (if s.objects.None? then Err(NotConfigured) else Ok(s.(active := S3)))
    else if driver == "filesystem" || driver == "" then Ok(s.(active := Filesystem))
    else Err(UnknownDriver)
  }

  // The manager as an object

  class S3Storage {
    var objects: Files

    constructor ()
      ensures objects == map[]
    {
      objects := map[];
    }

    /** PutObject replaces the object or, when the call fails, leaves it alone. */
    method StoreArtifact(product: string, version: string, filename: string, data: Bytes, fails: bool)
      returns (r: Result<string, StorageError>)
      modifies this
      ensures r.Ok? <==> PlainIdentifiers(product, version, filename) && !fails
      ensures r.Ok? ==> r.value == ObjectKey(product, version, filename) && objects == old(objects)[r.value := data]
      ensures r.Err? ==> objects == old(objects)
    {
      TripleValidExactly(product, version, filename);
      if !ValidIdentifiers(product, version, filename) {
        return Err(InvalidStoragePath);
      }
      if fails {
        return Err(IOFailure);
      }
      var key := ObjectKey(product, version, filename);
      objects := objects[key := data];
      r := Ok(key);
    }

    method OpenArtifact(key: string, fails: bool) returns (r: Result<Bytes, StorageError>)
      ensures r == OpenOnS3(objects, key, fails)
    {
      if fails {
        return Err(IOFailure);
      }
      r := if key in objects then Ok(objects[key]) else Err(NotFound);
    }

    method DeleteArtifact(key: string, fails: bool) returns (r: Result<(), StorageError>)
      modifies this
      ensures r == if fails then Err(IOFailure) else Ok(())
      ensures objects == if fails then old(objects) else old(objects) - {key}
    {
      if fails {
        return Err(IOFailure);
      }
      objects := objects - {key};
      r := Ok(());
    }

    /** By the head of the object. */
    method VerifyArtifact(key: string, expectedSize: int, fails: bool) returns (r: Result<(), StorageError>)
      ensures r == VerifyContent(OpenOnS3(objects, key, fails), expectedSize)
      ensures r.Ok? <==> !fails && key in objects && (expectedSize <= 0 || |objects[key]| == expectedSize)
    {
      if fails {
        return Err(IOFailure);
      }
      if key !in objects {
        return Err(NotFound);
      }
      if expectedSize > 0 && |objects[key]| != expectedSize {
        return Err(SizeMismatch);
      }
      r := Ok(());
    }
  }

  class Manager {
    var activeDriver: Driver
    const fsStorage: FilesystemStorage
    var s3Storage: S3Storage?

    function Model(): Stores
      reads this, fsStorage, s3Storage
    {
      Stores(activeDriver, fsStorage.artifactRoot, fsStorage.artifacts,
             if s3Storage == null then None else Some(s3Storage.objects))
    }

    constructor (fsStorage: FilesystemStorage)
      ensures this.fsStorage == fsStorage && s3Storage == null && activeDriver == Filesystem
    {
      this.fsStorage := fsStorage;
      s3Storage := null;
      activeDriver := Filesystem;
    }

    method SetS3Storage(s3: S3Storage)
      modifies this
      ensures s3Storage == s3 && activeDriver == old(activeDriver)
      ensures Model() == old(Model()).(objects := Some(s3.objects))
    {
      s3Storage := s3;
    }

    method SetActiveDriver(driver: string) returns (r: Result<(), ManagerError>)
      modifies this
      ensures s3Storage == old(s3Storage)
      ensures r.Ok? <==> driver == "" || driver == "filesystem" || (driver == "s3" && s3Storage != null)
      ensures activeDriver == if r.Err? then old(activeDriver) else if driver == "s3" then S3 else Filesystem
      ensures match SwitchTo(old(Model()), driver)
              case Ok(s) => r.Ok? && Model() == s
              case Err(e) => r == Err(e) && Model() == old(Model())
    {
      if driver == "s3" {
        if s3Storage == null {
          return Err(NotConfigured);
        }
        activeDriver := S3;
        return Ok(());
      }
      if driver == "filesystem" || driver == "" {
        activeDriver := Filesystem;
        return Ok(());
      }
      r := Err(UnknownDriver);
    }

    /** A store that fails or crashes changes nothing the manager can read. */
    method StoreArtifact(product: string, version: string, filename: string, data: Bytes, stagingId: string, fails: bool)
      returns (r: Result<string, StorageError>)
      requires stagingId !in fsStorage.staging
      modifies fsStorage, s3Storage
      ensures r.Ok? <==> PlainIdentifiers(product, version, filename) && (old(UsesS3(Model())) || filename != ".") && !fails
      ensures r.Ok? <==> old(CanStore(Model(), product, version, filename)) && !fails
      ensures r.Ok? ==> r.value == old(PathOn(Model(), product, version, filename))
                        && Model() == StoreIn(old(Model()), product, version, filename, data)
      ensures r.Err? ==> Model() == old(Model())
    {
      CanStoreExactly(Model(), product, version, filename);
      if activeDriver.S3? && s3Storage != null {
        r := s3Storage.StoreArtifact(product, version, filename, data, fails);
      } else {
        assert Flatten([data]) == data by {
          assert [data][..0] == [];
        }
        var outcome := fsStorage.StoreArtifact(product, version, filename, [data], |data|, stagingId,
                                               if fails then 0 else -1, false);
        match outcome
        case Stored(path) => r := Ok(path);
        case Failed(e) => r := Err(e);
        case Crashed => r := Err(IOFailure);
      }
    }

    method OpenArtifact(path: string, f: Faults) returns (r: Result<Bytes, StorageError>)
      ensures r == OpenUnder(Model(), path, f)
    {
      if activeDriver.S3? && s3Storage != null {
        r := s3Storage.OpenArtifact(path, f.s3);
        if r.Err? && r.error.NotFound? {
          r := fsStorage.OpenArtifact(path, f.fs);
        }
      } else {
        r := fsStorage.OpenArtifact(path, f.fs);
        if r.Err? && r.error.NotFound? && s3Storage != null {
          r := s3Storage.OpenArtifact(path, f.s3);
        }
      }
    }

    /** Both drivers are asked whatever the first one says; the verdict is the active one's. */
    method DeleteArtifact(path: string, f: Faults) returns (r: Result<(), StorageError>)
      modifies fsStorage, s3Storage
      ensures Model() == DeleteUnder(old(Model()), path, f)
      ensures r.Ok? <==> if old(UsesS3(Model())) then !f.s3 else !f.fs && ResolveSafePath(fsStorage.artifactRoot, path).Ok?
    {
      if activeDriver.S3? && s3Storage != null {
        r := s3Storage.DeleteArtifact(path, f.s3);
        var _ := fsStorage.DeleteArtifact(path, f.fs);
      } else {
        r := fsStorage.DeleteArtifact(path, f.fs);
        if s3Storage != null {
          var _ := s3Storage.DeleteArtifact(path, f.s3);
        }
      }
    }

    /** Each driver judges for itself, the other one only on not found; together they judge what opening
        would give. */
    method VerifyArtifact(path: string, expectedSize: int, f: Faults) returns (r: Result<(), StorageError>)
      ensures r == VerifyContent(OpenUnder(Model(), path, f), expectedSize)
      ensures r.Ok? <==> var content := OpenUnder(Model(), path, f);
                         content.Ok? && (expectedSize <= 0 || |content.value| == expectedSize)
    {
      if activeDriver.S3? && s3Storage != null {
        r := s3Storage.VerifyArtifact(path, expectedSize, f.s3);
        if r.Err? && r.error.NotFound? {
          r := fsStorage.VerifyArtifact(path, expectedSize, f.fs);
        }
      } else {
        r := fsStorage.VerifyArtifact(path, expectedSize, f.fs);
        if r.Err? && r.error.NotFound? && s3Storage != null {
          r := s3Storage.VerifyArtifact(path, expectedSize, f.s3);
        }
      }
    }
  }

  // Why a switch is not noticed

  /** A path some store returned, with what it was made of. */
  datatype StoredPath = StoredPath(driver: Driver, product: string, version: string, filename: string)

  predicate Proper(q: StoredPath) {
    ProperIdentifiers(q.product, q.version, q.filename)
  }

  function PathText(q: StoredPath): string {
    match q.driver
    case Filesystem => RelPath(q.product, q.version, q.filename)
    case S3 => ObjectKey(q.product, q.version, q.filename)
  }

  /** Distinct stored paths have distinct texts, and no text of one driver is one of the other. */
  lemma PathTextInjective(q: StoredPath, q': StoredPath)
    requires Proper(q) && Proper(q') && PathText(q) == PathText(q')
    ensures q == q'
  {
    PathTextParts(q);
    PathTextParts(q');
    var a, b := Split(PathText(q), '/'), Split(PathText(q'), '/');
    assert |a| == |b|;
    assert a[|a| - 1] == q.filename && a[|a| - 2] == q.version && a[|a| - 3] == q.product;
    assert b[|b| - 1] == q'.filename && b[|b| - 2] == q'.version && b[|b| - 3] == q'.product;
  }

  lemma PathTextParts(q: StoredPath)
    requires Proper(q)
    ensures Split(PathText(q), '/') == (if q.driver.S3? then ["artifacts"] else []) + [q.product, q.version, q.filename]
    ensures Reduced(PathText(q)) == Split(PathText(q), '/') && Names(Reduced(PathText(q)))
    ensures !IsAbs(PathText(q)) && !HasPrefix(Split(PathText(q), '/')[0], "..")
  {
    var parts := (if q.driver.S3? then ["artifacts"] else []) + [q.product, q.version, q.filename];
    AllNames(q.product, q.version, q.filename);
    ArtifactsIsValid();
    JoinedIdentifiers(parts);
    NamesDropNothing(parts);
    SplitJoin(parts, '/');
    NamesSettled(parts);
    ReducedOfRender(false, parts);
    ValidHasNoParentPrefix(parts[0]);
    if q.driver.S3? {
      assert parts == ["artifacts", q.product, q.version, q.filename];
    } else {
      assert parts == [q.product, q.version, q.filename];
    }
  }

  /** Reads a stored path back; None if no store with proper identifiers returns it. */
  function ParsePath(path: string): (r: Option<StoredPath>)
    ensures r.Some? ==> Proper(r.value) && PathText(r.value) == path
  {
    var parts := Split(path, '/');
    if |parts| < 3 then None
    else
      var n := |parts|;
      var q := StoredPath(if n == 3 then Filesystem else S3, parts[n - 3], parts[n - 2], parts[n - 1]);
      if Proper(q) && PathText(q) == path then Some(q) else None
  }

  lemma ParseOfText(q: StoredPath)
    requires Proper(q)
    ensures ParsePath(PathText(q)) == Some(q)
  {
    PathTextParts(q);
    var parts := Split(PathText(q), '/');
    var n := |parts|;
    assert parts[n - 3] == q.product && parts[n - 2] == q.version && parts[n - 1] == q.filename;
  }

  lemma ArtifactsIsValid()
    ensures ValidIdentifier("artifacts") && Name("artifacts")
  {
  }

  /** The file a stored path resolves to; for an S3 key that is a place no filesystem store writes. */
  lemma ResolvedStoredPath(root: string, q: StoredPath)
    requires Proper(q)
    ensures ResolveSafePath(root, PathText(q)).Ok?
    ensures Reduced(ResolveSafePath(root, PathText(q)).value) == Reduced(root) + Split(PathText(q), '/')
    ensures q.driver.Filesystem? ==>
              ResolveSafePath(root, PathText(q)).value == DestFile(root, q.product, q.version, q.filename)
  {
    PathTextParts(q);
    ResolvedIsContained(root, PathText(q));
    if q.driver.Filesystem? {
      StoredPathResolvesBack(root, q.product, q.version, q.filename);
    }
  }

  /** Files lie three components under the root; S3 keys have four components. */
  ghost predicate Tidy(s: Stores) {
    && (forall full :: full in s.files ==> |Reduced(full)| == |Reduced(s.root)| + 3)
    && (s.objects.Some? ==> forall key :: key in s.objects.value ==> |Split(key, '/')| == 4)
  }

  /** Where the contents of a stored path are, if they are anywhere: with the driver that returned it. */
  function Holds(s: Stores, q: StoredPath): Option<Bytes> {
    match q.driver
    case Filesystem =>
      var full := DestFile(s.root, q.product, q.version, q.filename);
      if full in s.files then Some(s.files[full]) else None
    case S3 =>
      if s.objects.Some? && PathText(q) in s.objects.value then Some(s.objects.value[PathText(q)]) else None
  }

  /** Opening a stored path finds what its own driver holds, whichever driver is active. */
  lemma OpenFindsHeld(s: Stores, q: StoredPath)
    requires Tidy(s) && Proper(q)
    ensures OpenIn(s, PathText(q)) == if Holds(s, q).Some? then Ok(Holds(s, q).value) else Err(NotFound)
  {
    var path := PathText(q);
    PathTextParts(q);
    ResolvedStoredPath(s.root, q);
    if q.driver.S3? {
      assert OpenFile(s.root, s.files, path) == Err(NotFound);
    } else {
      assert |Split(path, '/')| == 3;
      assert s.objects.Some? ==> path !in s.objects.value;
    }
  }

  /** No two stored paths resolve to the same file, whatever drivers they come from. */
  lemma ResolveInjective(root: string, q: StoredPath, q': StoredPath)
    requires Proper(q) && Proper(q') && ResolveSafePath(root, PathText(q)) == ResolveSafePath(root, PathText(q'))
    ensures q == q'
  {
    ResolvedStoredPath(root, q);
    ResolvedStoredPath(root, q');
    var base := Reduced(root);
    var a, b := Split(PathText(q), '/'), Split(PathText(q'), '/');
    assert a == (base + a)[|base|..] && b == (base + b)[|base|..];
    JoinSplit(PathText(q), '/');
    JoinSplit(PathText(q'), '/');
    PathTextInjective(q, q');
  }

  /** The stored path a triple gets from the driver active now. */
  function Target(s: Stores, p: string, v: string, f: string): StoredPath {
    StoredPath(if UsesS3(s) then S3 else Filesystem, p, v, f)
  }

  /** Storing changes what one stored path holds and nothing else. */
  lemma StoreHolds(s: Stores, p: string, v: string, f: string, data: Bytes, q: StoredPath, s': Stores)
    requires Tidy(s) && ProperIdentifiers(p, v, f) && Proper(q) && s' == StoreIn(s, p, v, f, data)
    ensures PathOn(s, p, v, f) == PathText(Target(s, p, v, f))
    ensures Tidy(s')
    ensures Holds(s', q) == if q == Target(s, p, v, f) then Some(data) else Holds(s, q)
  {
    var here := Target(s, p, v, f);
    PathTextParts(here);
    ResolvedStoredPath(s.root, here);
    if here.driver.S3? {
      ObjectStoreHolds(s, here, data, q, s');
    } else {
      FileStoreHolds(s, here, data, q, s');
    }
  }

  lemma ObjectStoreHolds(s: Stores, here: StoredPath, data: Bytes, q: StoredPath, s': Stores)
    requires Proper(here) && Proper(q) && here.driver.S3? && s.objects.Some?
    requires s' == s.(objects := Some(s.objects.value[PathText(here) := data]))
    ensures Holds(s', q) == if q == here then Some(data) else Holds(s, q)
  {
    if PathText(q) == PathText(here) {
      PathTextInjective(q, here);
    }
  }

  lemma FileStoreHolds(s: Stores, here: StoredPath, data: Bytes, q: StoredPath, s': Stores)
    requires Proper(here) && Proper(q) && here.driver.Filesystem?
    requires s' == s.(files := s.files[DestFile(s.root, here.product, here.version, here.filename) := data])
    ensures Holds(s', q) == if q == here then Some(data) else Holds(s, q)
  {
    ResolvedStoredPath(s.root, here);
    ResolvedStoredPath(s.root, q);
    if ResolveSafePath(s.root, PathText(q)) == ResolveSafePath(s.root, PathText(here)) {
      ResolveInjective(s.root, q, here);
    }
  }

  /** Deleting a stored path empties it and nothing else. */
  lemma DeleteHolds(s: Stores, gone: StoredPath, q: StoredPath, s': Stores)
    requires Tidy(s) && Proper(gone) && Proper(q) && s' == DeleteIn(s, PathText(gone))
    ensures Tidy(s')
    ensures Holds(s', q) == if q == gone then None else Holds(s, q)
  {
    ResolvedStoredPath(s.root, gone);
    if q.driver.S3? {
      ObjectDeleteHolds(s, gone, q, s');
    } else {
      FileDeleteHolds(s, gone, q, s');
    }
  }

  lemma ObjectDeleteHolds(s: Stores, gone: StoredPath, q: StoredPath, s': Stores)
    requires Proper(gone) && Proper(q) && q.driver.S3?
    requires s'.objects == if s.objects.Some? then Some(s.objects.value - {PathText(gone)}) else None
    ensures Holds(s', q) == if q == gone then None else Holds(s, q)
  {
    if PathText(q) == PathText(gone) {
      PathTextInjective(q, gone);
    }
  }

  lemma FileDeleteHolds(s: Stores, gone: StoredPath, q: StoredPath, s': Stores)
    requires Proper(gone) && Proper(q) && q.driver.Filesystem?
    requires s'.root == s.root && s'.files == DeleteFile(s.root, s.files, PathText(gone))
    ensures Holds(s', q) == if q == gone then None else Holds(s, q)
  {
    ResolvedStoredPath(s.root, gone);
    ResolvedStoredPath(s.root, q);
    if ResolveSafePath(s.root, PathText(q)) == ResolveSafePath(s.root, PathText(gone)) {
      ResolveInjective(s.root, q, gone);
    }
  }

  /** The driver that returned the path fails, so its file stays. */
  predicate Spared(f: Faults, q: StoredPath) {
    match q.driver case Filesystem => f.fs case S3 => f.s3
  }

  lemma DeleteUnderHolds(s: Stores, gone: StoredPath, f: Faults, q: StoredPath, s': Stores)
    requires Tidy(s) && Proper(gone) && Proper(q) && s' == DeleteUnder(s, PathText(gone), f)
    ensures Tidy(s')
    ensures Holds(s', q) == if q == gone && !Spared(f, gone) then None else Holds(s, q)
  {
    var deleted := DeleteIn(s, PathText(gone));
    DeleteHolds(s, gone, q, deleted);
    assert Holds(s', q) == if Spared(f, q) then Holds(s, q) else Holds(deleted, q);
  }

  lemma SwitchHolds(s: Stores, driver: string, q: StoredPath, s': Stores)
    requires Tidy(s) && SwitchTo(s, driver) == Ok(s')
    ensures Tidy(s') && Holds(s', q) == Holds(s, q)
  {
  }

  // Runs

  datatype Op =
    | StoreOp(product: string, version: string, filename: string, data: Bytes)
    | SwitchOp(driver: string)
    | DeleteOp(target: StoredPath)

  /** Identifiers without "." components; only paths some store could have returned are deleted. */
  predicate ProperOp(op: Op) {
    match op
    case StoreOp(p, v, f, _) => ProperIdentifiers(p, v, f)
    case SwitchOp(_) => true
    case DeleteOp(q) => Proper(q)
  }

  function Do(s: Stores, op: Op): Stores {
    match op
    case StoreOp(p, v, f, data) => StoreIn(s, p, v, f, data)
    case SwitchOp(d) => var r := SwitchTo(s, d); if r.Ok? then r.value else s
    case DeleteOp(q) => DeleteIn(s, PathText(q))
  }

  function DoAll(s: Stores, ops: seq<Op>): Stores {
    if ops == [] then s else Do(DoAll(s, ops[..|ops| - 1]), ops[|ops| - 1])
  }

  /** The reference: one flat store that knows nothing of drivers. It is told the returned paths only. */
  function Reference(s: Stores, ops: seq<Op>, q: StoredPath): Option<Bytes> {
    if ops == [] then Holds(s, q)
    else
      var before, op := ops[..|ops| - 1], ops[|ops| - 1];
      match op
      case StoreOp(p, v, f, data) =>
        if PathOn(DoAll(s, before), p, v, f) == PathText(q) then Some(data) else Reference(s, before, q)
      case SwitchOp(_) => Reference(s, before, q)
      case DeleteOp(gone) => if PathText(gone) == PathText(q) then None else Reference(s, before, q)
  }

  lemma {:induction false} RunHolds(s: Stores, ops: seq<Op>, q: StoredPath)
    requires Tidy(s) && Proper(q) && forall i :: 0 <= i < |ops| ==> ProperOp(ops[i])
    ensures Tidy(DoAll(s, ops)) && Holds(DoAll(s, ops), q) == Reference(s, ops, q)
  {
    if ops != [] {
      var before, op := ops[..|ops| - 1], ops[|ops| - 1];
      RunHolds(s, before, q);
      DoHolds(DoAll(s, before), op, q, DoAll(s, ops));
    }
  }

  lemma DoHolds(s: Stores, op: Op, q: StoredPath, s': Stores)
    requires Tidy(s) && Proper(q) && ProperOp(op) && s' == Do(s, op)
    ensures Tidy(s')
    ensures Holds(s', q)
            == match op
               case StoreOp(p, v, f, data) => if PathOn(s, p, v, f) == PathText(q) then Some(data) else Holds(s, q)
               case SwitchOp(_) => Holds(s, q)
               case DeleteOp(gone) => if PathText(gone) == PathText(q) then None else Holds(s, q)
  {
    match op
    case StoreOp(p, v, f, data) =>
      StoreHolds(s, p, v, f, data, q, s');
      if PathText(Target(s, p, v, f)) == PathText(q) {
        PathTextInjective(Target(s, p, v, f), q);
      }
    case SwitchOp(d) =>
      if SwitchTo(s, d).Ok? {
        SwitchHolds(s, d, q, s');
      }
    case DeleteOp(gone) =>
      DeleteHolds(s, gone, q, s');
      if PathText(gone) == PathText(q) {
        PathTextInjective(gone, q);
      }
  }

  /** After any run of stores, switches and deletes, opening a stored path returns the bytes last stored
      under it and not deleted since, whichever driver was active then and whichever is active now. */
  lemma HotSwapTransparent(s: Stores, ops: seq<Op>, q: StoredPath, driver: string)
    requires Tidy(s) && Proper(q) && forall i :: 0 <= i < |ops| ==> ProperOp(ops[i])
    ensures var held := Reference(s, ops, q);
            var expected := if held.Some? then Ok(held.value) else Err(NotFound);
            && OpenIn(DoAll(s, ops), PathText(q)) == expected
            && (SwitchTo(DoAll(s, ops), driver).Ok? ==>
                  OpenIn(SwitchTo(DoAll(s, ops), driver).value, PathText(q)) == expected)
  {
    var s' := DoAll(s, ops);
    RunHolds(s, ops, q);
    OpenFindsHeld(s', q);
    if SwitchTo(s', driver).Ok? {
      SwitchHolds(s', driver, q, SwitchTo(s', driver).value);
      OpenFindsHeld(SwitchTo(s', driver).value, q);
    }
  }
}
