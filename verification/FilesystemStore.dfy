/** The filesystem driver: staging, atomic rename, opening and deleting artifacts. */
module FilesystemStore {
  import opened Wrappers
  import opened Octets
  import opened Paths

  datatype StorageError = InvalidStoragePath | SizeMismatch | NotFound | IOFailure

  /** How a store ends; a crash leaves no time for the deferred removal of the staging directory. */
  datatype StoreOutcome = Stored(path: string) | Failed(error: StorageError) | Crashed

  /** File contents by full path. */
  type Files = map<string, Bytes>

  function OpenFile(root: string, files: Files, storagePath: string): Result<Bytes, StorageError> {
    match ResolveSafePath(root, storagePath)
    case Err(_) => Err(InvalidStoragePath)
    case Ok(full) => if full in files then Ok(files[full]) else Err(NotFound)
  }

  /** The same where the file system may fail for other reasons. */
  function OpenFaulty(root: string, files: Files, storagePath: string, fails: bool): Result<Bytes, StorageError> {
    if fails && ResolveSafePath(root, storagePath).Ok? then Err(IOFailure) else OpenFile(root, files, storagePath)
  }

  /** Removing a file that is not there is no error. */
  function DeleteFile(root: string, files: Files, storagePath: string): Files {
    match ResolveSafePath(root, storagePath)
    case Err(_) => files
    case Ok(full) => files - {full}
  }

  function VerifyContent(content: Result<Bytes, StorageError>, expectedSize: int): Result<(), StorageError> {
    match content
    case Err(e) => Err(e)
    case Ok(data) => if expectedSize > 0 && |data| != expectedSize then Err(SizeMismatch) else Ok(())
  }

  class FilesystemStorage {
    const artifactRoot: string
    var artifacts: Files
    /** The staging directories by id, each with the file in it once that is opened. */
    var staging: map<string, Option<Bytes>>

    constructor (artifactRoot: string)
      ensures this.artifactRoot == artifactRoot && artifacts == map[] && staging == map[]
    {
      this.artifactRoot := artifactRoot;
      artifacts := map[];
      staging := map[];
    }

    /** StoreArtifact with every system call able to fail. The calls are numbered: 0 makes the staging
        directory, 1 opens the staging file, 2 + i writes chunk i of n, 2 + n closes the file, 3 + n
        makes the destination directory, 4 + n renames, 5 + n is the return. Call number breakAt fails,
        or the process crashes right before it; any other number breaks nothing. */
    method StoreArtifact(product: string, version: string, filename: string, chunks: seq<Bytes>, size: int,
                         stagingId: string, breakAt: int, crash: bool)
      returns (r: StoreOutcome)
      requires stagingId !in staging
      modifies this`artifacts, this`staging
      // Whatever breaks where, the destination holds its old contents or all of the new ones, and no other file changes.
      ensures artifacts == old(artifacts)
              || (&& artifacts == old(artifacts)[DestFile(artifactRoot, product, version, filename) := Flatten(chunks)]
                  && (size > 0 ==> |Flatten(chunks)| == size))
      ensures r.Stored? ==>
                && artifacts == old(artifacts)[DestFile(artifactRoot, product, version, filename) := Flatten(chunks)]
                && r.path == RelPath(product, version, filename)
      ensures r.Failed? ==> artifacts == old(artifacts)
      ensures r.Crashed? ==> crash && (breakAt <= 4 + |chunks| ==> artifacts == old(artifacts))
      // Every exit but a crash leaves no staging directory behind.
      ensures !r.Crashed? ==> staging == old(staging)
      ensures staging - {stagingId} == old(staging)
      // A store succeeds exactly if the identifiers are plain, the filename is not ".", nothing breaks and a
      // declared size is met.
      ensures r.Stored? <==> PlainIdentifiers(product, version, filename) && filename != "."
                             && (size > 0 ==> |Flatten(chunks)| == size)
                             && !(0 <= breakAt <= 4 + |chunks|) && !(crash && breakAt == 5 + |chunks|)
    {
      TripleValidExactly(product, version, filename);
      if !ValidIdentifiers(product, version, filename) {
        return Failed(InvalidStoragePath);
      }
      var n := |chunks|;
      var early := Stage(filename, chunks, stagingId, breakAt, crash);
      if early.Some? {
        return early.value;
      }
      var written := staging[stagingId].value;
      if size > 0 && |written| != size {
        r := BreakOff(stagingId, false, SizeMismatch);
        return;
      }
      if breakAt == 3 + n || breakAt == 4 + n {
        r := BreakOff(stagingId, crash, IOFailure);
        return;
      }
      var destFile := DestFile(artifactRoot, product, version, filename);
      artifacts := artifacts[destFile := written];
      staging := staging[stagingId := None];
      if crash && breakAt == 5 + n {
        return Crashed;
      }
      staging := staging - {stagingId};
      r := Stored(RelPath(product, version, filename));
    }

    /** The first half of a store, calls 0 to 2 + n: all chunks in a closed staging file. The filename "." names
        the staging directory itself, which cannot be opened for writing, so call 1 then always fails. */
    method Stage(filename: string, chunks: seq<Bytes>, stagingId: string, breakAt: int, crash: bool)
      returns (early: Option<StoreOutcome>)
      requires stagingId !in staging
      modifies this`staging
      ensures early.None? ==> staging == old(staging)[stagingId := Some(Flatten(chunks))]
      ensures early.Some? ==>
                early.value == if crash && 0 <= breakAt <= (if filename == "." then 1 else 2 + |chunks|) then Crashed
                               else Failed(IOFailure)
      ensures early.Some? && early.value.Failed? ==> staging == old(staging)
      ensures staging - {stagingId} == old(staging)
      ensures early.None? <==> filename != "." && !(0 <= breakAt <= 2 + |chunks|)
    {
      if breakAt == 0 {
        return Some(if crash then Crashed else Failed(IOFailure));
      }
      staging := staging[stagingId := None];
      if breakAt == 1 || filename == "." {
        var r := BreakOff(stagingId, crash && breakAt == 1, IOFailure);
        return Some(r);
      }
      staging := staging[stagingId := Some([])];
      early := WriteChunks(chunks, stagingId, breakAt, crash);
    }

    /** The copy into the open staging file, calls 2 to 2 + n. */
    method WriteChunks(chunks: seq<Bytes>, stagingId: string, breakAt: int, crash: bool) returns (early: Option<StoreOutcome>)
      requires stagingId in staging && staging[stagingId] == Some([])
      modifies this`staging
      ensures early.None? ==> staging == old(staging)[stagingId := Some(Flatten(chunks))]
      ensures early.Some? ==> early.value == if crash then Crashed else Failed(IOFailure)
      ensures early.Some? && !crash ==> staging == old(staging) - {stagingId}
      ensures staging - {stagingId} == old(staging) - {stagingId}
      ensures early.None? <==> !(2 <= breakAt <= 2 + |chunks|)
    {
      var n := |chunks|;
      var r: StoreOutcome;
      var i := 0;
      var written: Bytes := [];
      while i < n
        invariant 0 <= i <= n
        invariant written == Flatten(chunks[..i])
        invariant staging == old(staging)[stagingId := Some(written)]
        invariant !(2 <= breakAt < 2 + i)
      {
        if breakAt == 2 + i {
          r := BreakOff(stagingId, crash, IOFailure);
          return Some(r);
        }
        assert chunks[..i + 1][..i] == chunks[..i];
        written := written + chunks[i];
        staging := staging[stagingId := Some(written)];
        i := i + 1;
      }
      assert chunks[..n] == chunks;
      if breakAt == 2 + n {
        r := BreakOff(stagingId, crash, IOFailure);
        return Some(r);
      }
      early := None;
    }

    /** Leaves the store early: the deferred removal of the staging directory runs unless it is a crash. */
    method BreakOff(stagingId: string, crash: bool, error: StorageError) returns (r: StoreOutcome)
      modifies this`staging
      ensures staging == if crash then old(staging) else old(staging) - {stagingId}
      ensures r == if crash then Crashed else Failed(error)
    {
      if crash {
        return Crashed;
      }
      staging := staging - {stagingId};
      r := Failed(error);
    }

    /** Fails with something else than not found if looking at the file or opening it does. */
    method OpenArtifact(storagePath: string, fails: bool) returns (r: Result<Bytes, StorageError>)
      ensures r == OpenFaulty(artifactRoot, artifacts, storagePath, fails)
    {
      var resolved := ResolveSafePath(artifactRoot, storagePath);
      if resolved.Err? {
        return Err(InvalidStoragePath);
      }
      if fails {
        return Err(IOFailure);
      }
      if resolved.value !in artifacts {
        return Err(NotFound);
      }
      r := Ok(artifacts[resolved.value]);
    }

    /** A removal that fails leaves the file; a file that is not there is no failure. */
    method DeleteArtifact(storagePath: string, fails: bool) returns (r: Result<(), StorageError>)
      modifies this`artifacts
      ensures artifacts == if fails then old(artifacts) else DeleteFile(artifactRoot, old(artifacts), storagePath)
      ensures r == if ResolveSafePath(artifactRoot, storagePath).Err? then Err(InvalidStoragePath)
                   else if fails then Err(IOFailure) else Ok(())
      ensures r.Ok? ==> OpenFile(artifactRoot, artifacts, storagePath) == Err(NotFound)
    {
      var resolved := ResolveSafePath(artifactRoot, storagePath);
      if resolved.Err? {
        return Err(InvalidStoragePath);
      }
      if fails {
        return Err(IOFailure);
      }
      artifacts := artifacts - {resolved.value};
      r := Ok(());
    }

    method VerifyArtifact(storagePath: string, expectedSize: int, fails: bool) returns (r: Result<(), StorageError>)
      ensures r == VerifyContent(OpenFaulty(artifactRoot, artifacts, storagePath, fails), expectedSize)
      ensures r.Ok? <==> var content := OpenFaulty(artifactRoot, artifacts, storagePath, fails);
                         content.Ok? && (expectedSize <= 0 || |content.value| == expectedSize)
    {
      var resolved := ResolveSafePath(artifactRoot, storagePath);
      if resolved.Err? {
        return Err(InvalidStoragePath);
      }
      if fails {
        return Err(IOFailure);
      }
      if resolved.value !in artifacts {
        return Err(NotFound);
      }
      if expectedSize > 0 && |artifacts[resolved.value]| != expectedSize {
        return Err(SizeMismatch);
      }
      r := Ok(());
    }
  }

  /** Where a stored file lies, in components under the root. */
  lemma DestComponents(root: string, p: string, v: string, f: string)
    requires ValidIdentifiers(p, v, f)
    ensures Reduced(DestFile(root, p, v, f)) == Reduced(root) + DropDots([p, v, f])
    ensures ResolveSafePath(root, RelPath(p, v, f)) == Ok(DestFile(root, p, v, f))
  {
    StoredPathResolvesBack(root, p, v, f);
    DestUnder(root, p, v, f);
    JoinedIdentifiers([p, v, f]);
    ReducedSettled(root);
    SettledThenNames(Reduced(root), DropDots([p, v, f]), IsAbs(root));
    ReducedOfRender(IsAbs(root), Reduced(root) + DropDots([p, v, f]));
  }

  /** What was stored, by a store that can succeed, is what is opened under the returned path, and the
      contents under the path of any other triple are not touched, unless the two triples differ in "." components only. */
  lemma StoreThenOpen(root: string, files: Files, p: string, v: string, f: string, data: Bytes,
                      p': string, v': string, f': string)
    requires ValidIdentifiers(p, v, f) && f != "." && ValidIdentifiers(p', v', f')
    ensures OpenFile(root, files[DestFile(root, p, v, f) := data], RelPath(p', v', f'))
            == if DropDots([p, v, f]) == DropDots([p', v', f']) then Ok(data) else OpenFile(root, files, RelPath(p', v', f'))
  {
    var a, b := DropDots([p, v, f]), DropDots([p', v', f']);
    DestComponents(root, p, v, f);
    DestComponents(root, p', v', f');
    DestUnder(root, p, v, f);
    DestUnder(root, p', v', f');
    var base := Reduced(root);
    assert (base + a)[|base|..] == a && (base + b)[|base|..] == b;
  }
}
