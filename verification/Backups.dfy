/** Database snapshots and their rotation. */
module Backups {
  import opened Wrappers
  import opened Sequences
  import opened Octets
  import opened Text
  import opened Timestamps
  import Sorting

  datatype Entry = Directory(empty: bool) | Snapshot(image: Bytes)

  type Entries = map<string, Entry>

  datatype BackupError = RootNotCreated | VacuumFailed

  const PREFIX := "distrimax-"
  const SUFFIX := ".sqlite3"
  const DEFAULT_KEEP := 7

  function BackupName(at: Civil): string {
    Stamped(PREFIX, at, SUFFIX)
  }

  /** What rotation takes for a snapshot: it goes by the name only. */
  predicate IsSnapshot(entries: Entries, name: string) {
    name in entries && entries[name].Snapshot? && HasPrefix(name, PREFIX) && HasSuffix(name, SUFFIX)
  }

  function Snapshots(entries: Entries): set<string> {
    set name | name in entries && IsSnapshot(entries, name)
  }

  /** Those sorting after a name. */
  function Newer(names: set<string>, name: string): set<string> {
    set n | n in names && !LexLe(n, name)
  }

  /** Those with at least keep others after them. */
  function Surplus(names: set<string>, keep: nat): set<string> {
    set n | n in names && |Newer(names, n)| >= keep
  }

  function EffectiveKeep(count: int): (keep: nat)
    ensures keep >= 1
  {
    if count <= 0 then DEFAULT_KEEP else count
  }

  /** VACUUM INTO needs the name to be free; a file or empty directory of that name is removed first, also
      when it then fails. */
  function AfterVacuum(entries: Entries, name: string, image: Bytes, fails: bool): Result<Entries, Entries> {
    if name in entries && entries[name].Directory? && !entries[name].empty then Err(entries)
    else if fails then Err(entries - {name})
    else Ok(entries[name := Snapshot(image)])
  }

  /** The names that rotation keeps of those there: as many as it may, and the last ones. */
  ghost predicate NewestKept(names: set<string>, kept: set<string>, keep: nat) {
    && kept <= names && |kept| == (if |names| < keep then |names| else keep)
    && forall a, b :: a in names && a !in kept && b in kept ==> LexLe(a, b) && a != b
  }

  /** The directory holds no more than before, and as before. */
  ghost predicate OnlyLess(before: Entries, after: Entries) {
    after.Keys <= before.Keys && forall n :: n in after ==> after[n] == before[n]
  }

  /** What rotation leaves: the newest, and of the others those that cannot be removed; nothing else is touched. */
  ghost predicate Rotated(before: Entries, keep: nat, stuck: set<string>, after: Entries) {
    && OnlyLess(before, after)
    && (forall n :: n in before && n !in Snapshots(before) ==> n in after)
    && exists kept ::
         NewestKept(Snapshots(before), kept, keep) && Snapshots(after) == kept + (Snapshots(before) - kept) * stuck
  }

  /** A directory with something in it has the name. */
  predicate Blocked(entries: Entries, name: string) {
    name in entries && entries[name] == Directory(false)
  }

  ghost predicate Ascending(s: seq<string>) {
    forall i, j :: 0 <= i < j < |s| ==> LexLe(s[i], s[j]) && s[i] != s[j]
  }

  class BackupRoot {
    var entries: Entries

    constructor ()
      ensures entries == map[]
    {
      entries := map[];
    }

    /** A backup that succeeds leaves the new snapshot, everything that was no surplus snapshot, and surplus
        snapshots that could not be removed. */
    method CreateBackup(at: Civil, image: Bytes, count: int, rootFails: bool, vacuumFails: bool, listFails: bool,
                        stuck: set<string>)
      returns (r: Result<string, BackupError>)
      modifies this
      ensures rootFails ==> r == Err(RootNotCreated) && entries == old(entries)
      ensures !rootFails ==>
                match AfterVacuum(old(entries), BackupName(at), image, vacuumFails)
                case Err(left) => r == Err(VacuumFailed) && entries == left
                case Ok(made) =>
                  r == Ok(BackupName(at))
                  && entries == if listFails then made else made - (Surplus(Snapshots(made), EffectiveKeep(count)) - stuck)
      // The same in terms of the directory.
      ensures r.Ok? <==> !rootFails && !vacuumFails && !Blocked(old(entries), BackupName(at))
      ensures r.Ok? ==>
                var made := old(entries)[BackupName(at) := Snapshot(image)];
                if listFails then entries == made else Rotated(made, if count > 0 then count else 7, stuck, entries)
      ensures r.Err? ==>
                entries == if rootFails || Blocked(old(entries), BackupName(at)) then old(entries)
                           else old(entries) - {BackupName(at)}
    {
      if rootFails {
        return Err(RootNotCreated);
      }
      var keep := EffectiveKeep(count);
      var name := BackupName(at);
      var made := AfterVacuum(entries, name, image, vacuumFails);
      match made
      case Err(left) =>
        entries := left;
        r := Err(VacuumFailed);
      case Ok(with) =>
        entries := with;
        if !listFails {
          RotateLocalBackups(keep, stuck);
          SurplusRotated(with, keep, stuck, entries);
        }
        r := Ok(name);
    }

    method RotateLocalBackups(keep: nat, stuck: set<string>)
      modifies this
      ensures entries == old(entries) - (Surplus(Snapshots(old(entries)), keep) - stuck)
    {
      var snapshots := ListSnapshots();
      snapshots := Sorting.Sort(LexLe, snapshots);
      if |snapshots| > keep {
        SurplusIsFront(snapshots, keep, |snapshots| - keep);
        RemoveAll(snapshots[..|snapshots| - keep], stuck);
      } else {
        SurplusIsFront(snapshots, keep, 0);
      }
    }

    /** Names that cannot be removed stay. */
    method RemoveAll(names: seq<string>, stuck: set<string>)
      modifies this
      ensures entries == old(entries) - (Elements(names) - stuck)
    {
      var i := 0;
      while i < |names|
        invariant 0 <= i <= |names|
        invariant entries == old(entries) - (Elements(names[..i]) - stuck)
      {
        FrontGrows(names, i);
        if names[i] !in stuck {
          entries := entries - {names[i]};
        }
        i := i + 1;
      }
      assert names[..i] == names;
    }

    /** The matching names, each once. */
    method ListSnapshots() returns (names: seq<string>)
      ensures Elements(names) == Snapshots(entries)
      ensures Ascending(Sorting.Sort(LexLe, names)) && Elements(Sorting.Sort(LexLe, names)) == Snapshots(entries)
    {
      names := [];
      var todo := entries.Keys;
      while todo != {}
        invariant todo <= entries.Keys
        invariant forall n :: n in names <==> n !in todo && IsSnapshot(entries, n)
        invariant forall i, j :: 0 <= i < j < |names| ==> names[i] != names[j]
        decreases |todo|
      {
        var n :| n in todo;
        if IsSnapshot(entries, n) {
          names := names + [n];
        }
        todo := todo - {n};
      }
      SortedAscends(names);
    }
  }

  lemma LexOrders()
    ensures Sorting.Total(LexLe) && Sorting.Transitive(LexLe)
  {
    forall a, b
      ensures LexLe(a, b) || LexLe(b, a)
    {
      LexTotal(a, b);
    }
    forall a, b, c | LexLe(a, b) && LexLe(b, c)
      ensures LexLe(a, c)
    {
      LexTransitive(a, b, c);
    }
  }

  lemma FrontGrows(s: seq<string>, i: nat)
    requires i < |s|
    ensures Elements(s[..i + 1]) == Elements(s[..i]) + {s[i]}
  {
  }

  lemma CountOfDistinct(s: seq<string>)
    requires forall i, j :: 0 <= i < j < |s| ==> s[i] != s[j]
    ensures |Elements(s)| == |s|
  {
    if s == [] {
      assert Elements(s) == {};
    } else {
      var n := |s| - 1;
      CountOfDistinct(s[..n]);
      FrontGrows(s, n);
      assert s[..n + 1] == s;
    }
  }

  lemma SortedAscends(s: seq<string>)
    requires forall i, j :: 0 <= i < j < |s| ==> s[i] != s[j]
    ensures Ascending(Sorting.Sort(LexLe, s)) && Elements(Sorting.Sort(LexLe, s)) == Elements(s)
  {
    LexOrders();
    Sorting.SortSorts(LexLe, s);
    SortAscends(s, Sorting.Sort(LexLe, s));
  }

  lemma SortAscends(s: seq<string>, t: seq<string>)
    requires forall i, j :: 0 <= i < j < |s| ==> s[i] != s[j]
    requires Sorting.Sorted(LexLe, t) && multiset(t) == multiset(s)
    ensures Ascending(t) && Elements(t) == Elements(s)
  {
    forall n
      ensures n in t <==> n in s
    {
      assert n in t <==> n in multiset(t);
      assert n in s <==> n in multiset(s);
    }
    CountOfDistinct(s);
    assert |t| == |multiset(t)| == |multiset(s)| == |s|;
    assert Elements(t) == Elements(s);
    AllThereDistinct(t);
  }

  /** As many different elements as places: no element comes twice. */
  lemma {:induction false} AllThereDistinct(t: seq<string>)
    requires |Elements(t)| == |t|
    ensures forall i, j :: 0 <= i < j < |t| ==> t[i] != t[j]
  {
    if t != [] {
      var n := |t| - 1;
      FrontGrows(t, n);
      var front, last := t[..n], t[n];
      assert t[..n + 1] == t;
      FewerElements(front);
      assert last in front ==> Elements(front) + {last} == Elements(front);
      AllThereDistinct(front);
    }
  }

  lemma {:induction false} FewerElements(t: seq<string>)
    ensures |Elements(t)| <= |t|
  {
    if t == [] {
      assert Elements(t) == {};
    } else {
      FewerElements(t[..|t| - 1]);
      FrontGrows(t, |t| - 1);
      assert t[..|t| - 1 + 1] == t;
    }
  }

  /** After the i-th of an ascending sequence come exactly the later ones. */
  lemma NewerIsBack(s: seq<string>, i: nat)
    requires Ascending(s) && i < |s|
    ensures Newer(Elements(s), s[i]) == Elements(s[i + 1..]) && |Newer(Elements(s), s[i])| == |s| - 1 - i
  {
    forall n
      ensures n in Newer(Elements(s), s[i]) <==> n in s[i + 1..]
    {
      if n in s {
        var j :| 0 <= j < |s| && s[j] == n;
        LexTotal(s[i], s[j]);
        if j > i {
          assert s[i + 1..][j - i - 1] == n;
        } else {
          assert LexLe(n, s[i]);
        }
      }
    }
    CountOfDistinct(s[i + 1..]);
  }

  /** The front of the sorted names is the surplus. */
  lemma SurplusIsFront(s: seq<string>, keep: nat, surplus: nat)
    requires Ascending(s) && surplus == if |s| > keep then |s| - keep else 0
    ensures Elements(s[..surplus]) == Surplus(Elements(s), keep)
  {
    forall n | n in s
      ensures n in Surplus(Elements(s), keep) <==> n in s[..surplus]
    {
      var i :| 0 <= i < |s| && s[i] == n;
      NewerIsBack(s, i);
      if i < surplus {
        assert s[..surplus][i] == n;
      }
    }
  }

  // What rotation keeps

  lemma KeptIsNewest(names: set<string>, keep: nat)
    ensures NewestKept(names, names - Surplus(names, keep), keep)
  {
    KeptCount(names, keep);
    var kept := names - Surplus(names, keep);
    forall a, b | a in names && a !in kept && b in kept
      ensures LexLe(a, b) && a != b
    {
      KeptAreNewer(names, keep, a, b);
    }
  }

  lemma SnapshotsLess(before: Entries, gone: set<string>)
    ensures Snapshots(before - gone) == Snapshots(before) - gone && OnlyLess(before, before - gone)
    ensures gone <= Snapshots(before) ==> forall n :: n in before && n !in Snapshots(before) ==> n in before - gone
  {
  }

  lemma SurplusRotated(before: Entries, keep: nat, stuck: set<string>, after: Entries)
    requires after == before - (Surplus(Snapshots(before), keep) - stuck)
    ensures Rotated(before, keep, stuck, after)
  {
    var names := Snapshots(before);
    var kept := names - Surplus(names, keep);
    KeptIsNewest(names, keep);
    SnapshotsLess(before, Surplus(names, keep) - stuck);
    SparedStay(names, Surplus(names, keep), stuck);
  }

  lemma SparedStay(names: set<string>, surplus: set<string>, stuck: set<string>)
    requires surplus <= names
    ensures names - (surplus - stuck) == (names - surplus) + (names - (names - surplus)) * stuck
  {
  }

  lemma OrderedNames(names: set<string>) returns (s: seq<string>)
    ensures Ascending(s) && Elements(s) == names
  {
    var listed := Listing(names);
    SortedAscends(listed);
    s := Sorting.Sort(LexLe, listed);
  }

  lemma Listing(names: set<string>) returns (s: seq<string>)
    ensures Elements(s) == names && forall i, j :: 0 <= i < j < |s| ==> s[i] != s[j]
  {
    if names == {} {
      s := [];
    } else {
      var n :| n in names;
      var rest := Listing(names - {n});
      assert forall x :: x in rest <==> x in Elements(rest);
      s := rest + [n];
      FrontGrows(s, |rest|);
      assert s[..|rest|] == rest && s[..|rest| + 1] == s;
    }
  }

  /** The smaller of the number there and the number asked for. */
  lemma KeptCount(names: set<string>, keep: nat)
    ensures |names - Surplus(names, keep)| == if |names| < keep then |names| else keep
  {
    var s := OrderedNames(names);
    var surplus := if |s| > keep then |s| - keep else 0;
    SurplusIsFront(s, keep, surplus);
    CountOfDistinct(s);
    CountOfDistinct(s[..surplus]);
    assert Surplus(names, keep) <= names;
    assert |names - Surplus(names, keep)| == |names| - |Surplus(names, keep)|;
  }

  lemma SmallerSubset(a: set<string>, b: set<string>)
    requires a <= b
    ensures |a| <= |b| && (|a| == |b| ==> a == b)
  {
    assert |b - a| == |b| - |a|;
  }

  /** Everything kept sorts after everything removed. */
  lemma KeptAreNewer(names: set<string>, keep: nat, gone: string, kept: string)
    requires gone in Surplus(names, keep) && kept in names - Surplus(names, keep)
    ensures LexLe(gone, kept) && gone != kept
  {
    LexTotal(gone, kept);
    if !LexLe(gone, kept) {
      forall n | n in Newer(names, gone)
        ensures n in Newer(names, kept)
      {
        if LexLe(n, kept) {
          LexTransitive(n, kept, gone);
        }
      }
      SmallerSubset(Newer(names, gone), Newer(names, kept));
    }
  }

  /** Files are snapshots by the two ends of their names. */
  lemma SnapshotExactly(entries: Entries, name: string)
    ensures name in Snapshots(entries)
            <==> name in entries && entries[name].Snapshot? && exists stamp :: name == "distrimax-" + stamp + ".sqlite3"
  {
    if HasPrefix(name, PREFIX) && HasSuffix(name, SUFFIX) {
      EndsApart(name);
      assert name == PREFIX + name[|PREFIX|..|name| - |SUFFIX|] + SUFFIX;
    }
    forall stamp | name == "distrimax-" + stamp + ".sqlite3"
      ensures HasPrefix(name, PREFIX) && HasSuffix(name, SUFFIX)
    {
    }
  }

  /** The prefix holds no dot, so the suffix begins after it. */
  lemma EndsApart(name: string)
    requires HasPrefix(name, PREFIX) && HasSuffix(name, SUFFIX)
    ensures |name| >= |PREFIX| + |SUFFIX|
  {
    var i := |name| - |SUFFIX|;
    assert name[i..][0] == name[i] == '.';
    assert forall j :: 0 <= j < |PREFIX| ==> name[j] == name[..|PREFIX|][j] != '.';
  }

  /** For instance. */
  lemma BackupNameLooks()
    ensures BackupName(Civil(2026, 9, 4, 13, 5, 0))
            == "distrimax-" + "2026" + "09" + "04" + "-" + "13" + "05" + "00" + ".sqlite3"
  {
  }

  lemma BackupNameMatches(at: Civil)
    ensures HasPrefix(BackupName(at), PREFIX) && HasSuffix(BackupName(at), SUFFIX)
  {
  }

  /** Of two backups one of which is kept and one removed, the kept one is of the later moment. */
  lemma KeptBackupsAreLater(names: set<string>, keep: nat, gone: Civil, kept: Civil)
    requires Valid(gone) && Valid(kept) && gone.year <= 9999 && kept.year <= 9999
    requires BackupName(gone) in Surplus(names, keep) && BackupName(kept) in names - Surplus(names, keep)
    ensures Instant(gone) < Instant(kept)
  {
    KeptAreNewer(names, keep, BackupName(gone), BackupName(kept));
    StampsChronological(PREFIX, SUFFIX, gone, kept);
    BeforeIsEarlier(gone, kept);
  }

  /** A name some backup up to a moment could have. */
  ghost predicate BackupUpTo(name: string, at: Civil) {
    exists c: Civil :: Valid(c) && c.year <= 9999 && Instant(c) <= Instant(at) && name == BackupName(c)
  }

  /** While only backups up to now carry matching names, the one just made survives. */
  lemma NewBackupSurvives(names: set<string>, keep: nat, at: Civil)
    requires keep >= 1 && Valid(at) && at.year <= 9999
    requires forall n :: n in names ==> BackupUpTo(n, at)
    ensures BackupName(at) !in Surplus(names, keep)
  {
    forall n | n in names
      ensures LexLe(n, BackupName(at))
    {
      var c: Civil :| Valid(c) && c.year <= 9999 && Instant(c) <= Instant(at) && n == BackupName(c);
      StampsChronological(PREFIX, SUFFIX, c, at);
    }
    assert Newer(names, BackupName(at)) == {};
  }

  /** Other matching names can displace it: any that goes on with a letter sorts after every backup. */
  lemma ForeignNamesDisplace(names: set<string>, foreign: set<string>, keep: nat, at: Civil)
    requires BackupName(at) in names && foreign <= names && |foreign| >= keep
    requires forall n :: n in foreign ==> |n| > |PREFIX| && HasPrefix(n, PREFIX) && n[|PREFIX|] > '9'
    ensures BackupName(at) in Surplus(names, keep)
  {
    forall n | n in foreign
      ensures !LexLe(n, BackupName(at))
    {
      ForeignSortsAfter(n, at);
    }
    SmallerSubset(foreign, Newer(names, BackupName(at)));
  }

  lemma ForeignSortsAfter(n: string, at: Civil)
    requires |n| > |PREFIX| && HasPrefix(n, PREFIX) && n[|PREFIX|] > '9'
    ensures !LexLe(n, BackupName(at))
  {
    var rest := StampedRest(PREFIX, at, SUFFIX);
    assert n == PREFIX + n[|PREFIX|..];
    LexConcat(PREFIX, PREFIX, n[|PREFIX|..], rest);
  }

  // Runs of backups

  function Kept(names: set<string>, keep: nat): set<string> {
    names - Surplus(names, keep)
  }

  lemma NewerGrows(a: set<string>, b: set<string>, x: string)
    requires a <= b
    ensures Newer(a, x) <= Newer(b, x) && |Newer(a, x)| <= |Newer(b, x)|
  {
    SmallerSubset(Newer(a, x), Newer(b, x));
  }

  /** Rotating after every backup keeps what rotating once at the end would. */
  lemma KeptOfKept(names: set<string>, n: string, keep: nat)
    ensures Kept(Kept(names, keep) + {n}, keep) == Kept(names + {n}, keep)
  {
    var all, made := names + {n}, Kept(names, keep) + {n};
    forall x | x in all
      ensures x in Kept(all, keep) <==> x in Kept(made, keep)
    {
      NewerGrows(made, all, x);
      NewerGrows(names, all, x);
      if x in made && |Newer(all, x)| >= keep {
        if Newer(all, x) == Newer(made, x) {
        } else {
          var y :| y in Newer(all, x) && y !in Newer(made, x);
          CrowdedOut(names, keep, y, x, made);
        }
      }
    }
  }

  lemma CrowdedOut(names: set<string>, keep: nat, y: string, x: string, made: set<string>)
    requires Kept(names, keep) <= made && y in Surplus(names, keep) && !LexLe(y, x)
    ensures |Newer(made, x)| >= keep
  {
    var kept := Kept(names, keep);
    forall z | z in kept
      ensures z in Newer(made, x)
    {
      KeptAreNewer(names, keep, y, z);
      if LexLe(z, x) {
        LexTransitive(y, z, x);
      }
    }
    KeptCount(names, keep);
    SmallerSubset(Newer(names, y), names);
    SmallerSubset(kept, Newer(made, x));
  }

  /** The snapshots in the directory after successful backups at these moments. */
  function AfterBackups(names: set<string>, ats: seq<Civil>, keep: nat): set<string> {
    if ats == [] then names else Kept(AfterBackups(names, ats[..|ats| - 1], keep) + {BackupName(ats[|ats| - 1])}, keep)
  }

  function Made(ats: seq<Civil>): set<string> {
    set at | at in ats :: BackupName(at)
  }

  /** After any run of backups exactly the newest of all ever made or found there remain. */
  lemma {:induction false} RunKeepsNewest(names: set<string>, ats: seq<Civil>, keep: nat)
    requires ats != []
    ensures AfterBackups(names, ats, keep) == Kept(names + Made(ats), keep)
  {
    var n := |ats| - 1;
    var before, last := ats[..n], BackupName(ats[n]);
    assert Made(ats) == Made(before) + {last} by {
      assert ats == before + [ats[n]];
    }
    assert names + Made(ats) == names + Made(before) + {last};
    if before == [] {
      assert Made(before) == {};
      assert names + Made(before) == names;
    } else {
      RunKeepsNewest(names, before, keep);
      KeptOfKept(names + Made(before), last, keep);
    }
  }

  /** One backup without failures, seen as a set of names. */
  lemma BackupStep(entries: Entries, at: Civil, image: Bytes, count: int, made: Entries)
    requires AfterVacuum(entries, BackupName(at), image, false) == Ok(made)
    ensures Snapshots(made - Surplus(Snapshots(made), EffectiveKeep(count)))
            == Kept(Snapshots(entries) + {BackupName(at)}, if count > 0 then count else 7)
  {
    BackupNameMatches(at);
    assert Snapshots(made) == Snapshots(entries) + {BackupName(at)};
  }
}
