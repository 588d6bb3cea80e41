/** What the migration runner makes of a directory listing: which files are scripts, and of which versions. */
module MigrationFiles {
  import opened Wrappers
  import opened Int64
  import opened Text

  datatype File = File(name: string, isDir: bool, content: string)

  datatype Migration = Migration(version: int, name: string, content: string, hash: string)

  datatype MigrationError = NotInitialized | InvalidName(name: string) | ChecksumMismatch(version: int) | StepFailed(version: int)

  /** strconv.Atoi. */
  function Atoi(s: string): Option<int> {
    var signed := s != "" && (s[0] == '-' || s[0] == '+');
    var digits := if signed then s[1..] else s;
    if digits == "" || exists c :: c in digits && !IsDigit(c) then None
    else
      var n: int := DecimalValue(digits);
      var v := if signed && s[0] == '-' then -n else n;
      if -TWO63 <= v < TWO63 then Some(v) else None
  }

  /** Directories, other extensions and names without an underscore are passed over. */
  predicate IsMigration(f: File) {
    !f.isDir && HasSuffix(f.name, ".sql") && |Split(f.name, '_')| >= 2
  }

  function VersionOf(f: File): Option<int> {
    Atoi(Split(f.name, '_')[0])
  }

  function Load(f: File, sha: string -> string): Migration
    requires VersionOf(f).Some?
  {
    Migration(VersionOf(f).value, f.name, f.content, sha(f.content))
  }

  function Collected(files: seq<File>, i: nat, sha: string -> string): Result<seq<Migration>, MigrationError>
    requires i <= |files|
  {
    if i == 0 then Ok([])
    else
      var r := Collected(files, i - 1, sha);
      var f := files[i - 1];
      if r.Err? || !IsMigration(f) then r
      else if VersionOf(f).None? then Err(InvalidName(f.name))
      else Ok(r.value + [Load(f, sha)])
  }

  lemma {:induction false} BadNameStays(files: seq<File>, i: nat, j: nat, sha: string -> string)
    requires i <= j <= |files| && Collected(files, i, sha).Err?
    ensures Collected(files, j, sha) == Collected(files, i, sha)
  {
    if i < j {
      BadNameStays(files, i, j - 1, sha);
    }
  }

  // What a name says

  lemma UnsignedExactly(s: string, v: int)
    requires s == "" || (s[0] != '+' && s[0] != '-')
    ensures Atoi(s) == Some(v) <==> v >= 0 && Digits(s, v) && v < TWO63
  {
    DigitsExactly(s, if v < 0 then 0 else v);
  }

  lemma SignedExactly(s: string, v: int)
    requires s != "" && (s[0] == '+' || s[0] == '-')
    ensures Atoi(s) == Some(v)
            <==> -TWO63 <= v < TWO63 && if s[0] == '+' then v >= 0 && Digits(s[1..], v) else v <= 0 && Digits(s[1..], -v)
  {
    DigitsExactly(s[1..], if v < 0 then -v else v);
  }

  /** What is read is what is spelled, as far as 64 bits go. */
  lemma AtoiExactly(s: string, v: int)
    ensures Atoi(s) == Some(v) <==> Spells(s, v) && -TWO63 <= v < TWO63
  {
    if s != "" && (s[0] == '+' || s[0] == '-') {
      SignedExactly(s, v);
      if v >= 0 && Digits(s, v) {
        DigitFirst(s, v);
      }
    } else {
      UnsignedExactly(s, v);
    }
  }

  /** A plain file called something, an underscore, anything and the extension. */
  ghost predicate IsScript(f: File) {
    !f.isDir && exists a, b :: f.name == a + "_" + b + ".sql"
  }

  /** A script whose name begins with the version and an underscore. */
  ghost predicate Carries(f: File, v: int) {
    && !f.isDir && -TWO63 <= v < TWO63
    && exists number, rest :: f.name == number + "_" + rest + ".sql" && Spells(number, v)
  }

  /** The first underscore ends the first part. */
  lemma FirstPart(s: string)
    ensures |Split(s, '_')| >= 2 <==> '_' in s
    ensures '_' in s ==> exists tail :: s == Split(s, '_')[0] + "_" + tail
  {
    var parts := Split(s, '_');
    JoinSplit(s, '_');
    if '_' in s {
      assert s == parts[0] + "_" + Join(parts[1..], '_');
    } else {
      SplitPlain(s, '_');
    }
  }

  /** An underscore before the extension leaves the extension whole. */
  lemma SuffixOfTail(a: string, tail: string)
    requires HasSuffix(a + "_" + tail, ".sql")
    ensures exists rest :: tail == rest + ".sql"
  {
    var s := a + "_" + tail;
    var n := |s| - 4;
    assert s[|a|] == '_';
    assert s[n..][0] == s[n] && s[n..][1] == s[n + 1] && s[n..][2] == s[n + 2] && s[n..][3] == s[n + 3];
    assert s[n..] == tail[|tail| - 4..];
    assert tail == tail[..|tail| - 4] + ".sql";
  }

  lemma SuffixThere(a: string, b: string)
    ensures HasSuffix(a + b, b)
  {
  }

  /** The name of a script, taken apart at its first underscore. */
  lemma ScriptParts(f: File) returns (number: string, rest: string)
    requires IsMigration(f)
    ensures f.name == number + "_" + rest + ".sql" && number == Split(f.name, '_')[0]
  {
    FirstPart(f.name);
    number := Split(f.name, '_')[0];
    var tail :| f.name == number + "_" + tail;
    SuffixOfTail(number, tail);
    rest :| tail == rest + ".sql";
    Regrouped(number + "_", rest, ".sql");
  }

  lemma Regrouped(a: string, b: string, c: string)
    ensures a + b + c == a + (b + c)
  {
  }

  lemma NamedIsMigration(f: File, a: string, rest: string)
    requires !f.isDir && f.name == a + "_" + rest + ".sql"
    ensures IsMigration(f)
    ensures '_' !in a ==> Split(f.name, '_')[0] == a
  {
    SuffixThere(a + "_" + rest, ".sql");
    FirstPart(f.name);
    assert f.name[|a|] == '_';
    if '_' !in a {
      Regrouped(a + "_", rest, ".sql");
      SplitAppend(a, rest + ".sql", '_');
      SplitPlain(a, '_');
      assert "_" == ['_'];
    }
  }

  lemma ScriptExactly(f: File)
    ensures IsMigration(f) <==> IsScript(f)
  {
    if IsMigration(f) {
      var a, rest := ScriptParts(f);
    }
    if IsScript(f) {
      var a, rest :| f.name == a + "_" + rest + ".sql";
      NamedIsMigration(f, a, rest);
    }
  }

  lemma SpellsPlain(s: string, v: int)
    requires Spells(s, v)
    ensures '_' !in s
  {
    var size := if v < 0 then -v else v;
    DigitsExactly(s, size);
    if s != "" {
      DigitsExactly(s[1..], size);
      assert s == [s[0]] + s[1..];
    }
  }

  /** A script of a version is what a file carrying it is. */
  lemma CarriesExactly(f: File, v: int)
    ensures IsMigration(f) && VersionOf(f) == Some(v) <==> Carries(f, v)
  {
    if IsMigration(f) && VersionOf(f) == Some(v) {
      var number, rest := ScriptParts(f);
      AtoiExactly(number, v);
    }
    if Carries(f, v) {
      var number, rest :| f.name == number + "_" + rest + ".sql" && Spells(number, v);
      SpellsPlain(number, v);
      NamedIsMigration(f, number, rest);
      AtoiExactly(number, v);
    }
  }

  // What is collected

  /** A collected migration is some script's: its version, its contents and their checksum. */
  lemma {:induction false} ScriptBehind(files: seq<File>, i: nat, sha: string -> string, ms: seq<Migration>, m: Migration)
    returns (f: File)
    requires i <= |files| && Collected(files, i, sha) == Ok(ms) && m in ms
    ensures f in files && Carries(f, m.version) && m.content == f.content && m.hash == sha(f.content)
  {
    f := files[i - 1];
    var before := Collected(files, i - 1, sha).value;
    if m in before {
      f := ScriptBehind(files, i - 1, sha, before, m);
    } else {
      CarriesExactly(f, m.version);
    }
  }

  /** Every script is collected, with its version, its contents and their checksum. */
  lemma {:induction false} CollectedFor(files: seq<File>, i: nat, sha: string -> string, ms: seq<Migration>, f: File, v: int)
    returns (m: Migration)
    requires i <= |files| && Collected(files, i, sha) == Ok(ms) && f in files[..i] && Carries(f, v)
    ensures m in ms && m.version == v && m.content == f.content && m.hash == sha(f.content)
  {
    var before := Collected(files, i - 1, sha).value;
    CarriesExactly(f, v);
    if f == files[i - 1] {
      m := Load(f, sha);
    } else {
      assert f in files[..i - 1];
      m := CollectedFor(files, i - 1, sha, before, f, v);
    }
  }

  ghost predicate Unversioned(f: File) {
    forall v :: !Carries(f, v)
  }

  ghost predicate AllVersioned(files: seq<File>) {
    forall f :: f in files && IsScript(f) ==> !Unversioned(f)
  }

  lemma UnversionedExactly(f: File)
    requires IsScript(f)
    ensures Unversioned(f) <==> VersionOf(f).None?
  {
    ScriptExactly(f);
    if VersionOf(f).Some? {
      CarriesExactly(f, VersionOf(f).value);
    } else {
      forall v
        ensures !Carries(f, v)
      {
        CarriesExactly(f, v);
      }
    }
  }

  /** What is refused is a script without a version, the first one listed. */
  lemma {:induction false} RefusedFirst(files: seq<File>, i: nat, sha: string -> string)
    requires i <= |files|
    ensures Collected(files, i, sha).Ok? <==> AllVersioned(files[..i])
    ensures Collected(files, i, sha).Err? ==>
              exists k :: 0 <= k < i && IsScript(files[k]) && Unversioned(files[k]) && AllVersioned(files[..k])
                          && Collected(files, i, sha) == Err(InvalidName(files[k].name))
  {
    if i > 0 {
      var f := files[i - 1];
      RefusedFirst(files, i - 1, sha);
      assert files[..i] == files[..i - 1] + [f];
      ScriptExactly(f);
      if IsScript(f) {
        UnversionedExactly(f);
      }
    }
  }

  lemma RefusedExactly(files: seq<File>, i: nat, sha: string -> string)
    requires i == |files|
    ensures Collected(files, i, sha).Ok? <==> AllVersioned(files)
    ensures Collected(files, i, sha).Err? ==>
              exists f :: f in files && IsScript(f) && Unversioned(f) && Collected(files, i, sha) == Err(InvalidName(f.name))
  {
    RefusedFirst(files, i, sha);
    assert files[..i] == files;
  }
}
