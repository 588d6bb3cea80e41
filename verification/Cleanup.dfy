/** The cleanup pass over expired versions: their files go, their rows are marked, nothing else changes. */
module Cleanup {
  import opened Wrappers
  import opened Sequences
  import opened VersionTable
  import opened Lifecycle
  import opened StorageManager

  /** The rows of some keys marked deleted. */
  function Purged(t: Table, gone: set<Key>): Table {
    map k | k in t :: if k in gone then DeletedRow(t[k]) else t[k]
  }

  /** The stores after the deletes for the first i rows: rows without a path are skipped, and a file whose
      delete fails stays. */
  function Emptied(t: Table, s: Stores, order: seq<Key>, i: nat, broken: map<string, Faults>): Stores
    requires i <= |order|
  {
    if i == 0 then s else EmptiedOne(t, Emptied(t, s, order, i - 1, broken), order[i - 1], broken)
  }

  function FaultsAt(broken: map<string, Faults>, path: string): Faults {
    if path in broken then broken[path] else NONE
  }

  function EmptiedOne(t: Table, s: Stores, k: Key, broken: map<string, Faults>): Stores {
    if k in t && t[k].path != "" then DeleteUnder(s, t[k].path, FaultsAt(broken, t[k].path)) else s
  }

  /** The rows after the marks for the first i rows, each by the id the query returned; marks of keys in
      unmarked fail. */
  function MarkedEach(t: Table, order: seq<Key>, i: nat, unmarked: set<Key>): Table
    requires i <= |order|
  {
    if i == 0 then t else MarkedOne(t, MarkedEach(t, order, i - 1, unmarked), order[i - 1], unmarked)
  }

  function MarkedOne(snapshot: Table, t: Table, k: Key, unmarked: set<Key>): Table {
    if k in snapshot && k !in unmarked then MarkDeleted(t, snapshot[k].id) else t
  }

  function Tally(order: seq<Key>, i: nat, unmarked: set<Key>): nat
    requires i <= |order|
  {
    if i == 0 then 0 else Tally(order, i - 1, unmarked) + if order[i - 1] in unmarked then 0 else 1
  }

  ghost predicate Enumerates(order: seq<Key>, keys: set<Key>) {
    && Elements(order) == keys
    && forall i, j :: 0 <= i < j < |order| ==> order[i] != order[j]
  }

  /** The version part of RunCleanup. Errors of single deletes are dropped: a file whose driver breaks stays
      where it is although its row is marked; a row in unmarked keeps its row although its file is gone. */
  method RunCleanup(database: VersionStore, store: Manager, now: Time, broken: map<string, Faults>, unmarked: set<Key>)
    returns (purged: nat, ghost order: seq<Key>)
    requires DistinctIds(database.rows)
    modifies database, store.fsStorage, store.s3Storage
    ensures Enumerates(order, Expired(old(database.rows), now))
    ensures database.rows == Purged(old(database.rows), Expired(old(database.rows), now) - unmarked)
    ensures store.Model() == Emptied(old(database.rows), old(store.Model()), order, |order|, broken)
    ensures purged == |Expired(old(database.rows), now) - unmarked|
  {
    ghost var snapshot := database.rows;
    order, purged := PurgeExpired(database, store, now, broken, unmarked);
    PassMarks(snapshot, order, Expired(snapshot, now), unmarked);
  }

  /** The query and the loop over the rows it returned. */
  method PurgeExpired(database: VersionStore, store: Manager, now: Time, broken: map<string, Faults>, unmarked: set<Key>)
    returns (expired: seq<Key>, purged: nat)
    modifies database, store.fsStorage, store.s3Storage
    ensures Enumerates(expired, Expired(old(database.rows), now))
    ensures database.rows == MarkedEach(old(database.rows), expired, |expired|, unmarked)
    ensures store.Model() == Emptied(old(database.rows), old(store.Model()), expired, |expired|, broken)
    ensures purged == Tally(expired, |expired|, unmarked)
  {
    var snapshot := database.rows;
    expired := database.GetExpiredVersions(now);
    assert Elements(expired) == Expired(snapshot, now);
    purged := PurgeAll(database, store, snapshot, expired, broken, unmarked);
  }

  method PurgeAll(database: VersionStore, store: Manager, snapshot: Table, expired: seq<Key>, broken: map<string, Faults>,
                  unmarked: set<Key>)
    returns (purged: nat)
    requires database.rows == snapshot
    requires forall k :: k in expired ==> k in snapshot
    modifies database, store.fsStorage, store.s3Storage
    ensures database.rows == MarkedEach(snapshot, expired, |expired|, unmarked)
    ensures store.Model() == Emptied(snapshot, old(store.Model()), expired, |expired|, broken)
    ensures purged == Tally(expired, |expired|, unmarked)
  {
    purged := 0;
    var i := 0;
    while i < |expired|
      invariant 0 <= i <= |expired|
      invariant database.rows == MarkedEach(snapshot, expired, i, unmarked)
      invariant store.Model() == Emptied(snapshot, old(store.Model()), expired, i, broken)
      invariant purged == Tally(expired, i, unmarked)
    {
      var counted := PurgeOne(database, store, snapshot, expired[i], broken, unmarked);
      if counted {
        purged := purged + 1;
      }
      i := i + 1;
    }
  }

  /** One round of the loop, on the row as the query returned it. */
  method PurgeOne(database: VersionStore, store: Manager, snapshot: Table, k: Key, broken: map<string, Faults>,
                  unmarked: set<Key>)
    returns (counted: bool)
    requires k in snapshot
    modifies database, store.fsStorage, store.s3Storage
    ensures counted <==> k !in unmarked
    ensures database.rows == MarkedOne(snapshot, old(database.rows), k, unmarked)
    ensures store.Model() == EmptiedOne(snapshot, old(store.Model()), k, broken)
  {
    var row := snapshot[k];
    if row.path != "" {
      var _ := store.DeleteArtifact(row.path, FaultsAt(broken, row.path));
    }
    counted := k !in unmarked;
    if counted {
      database.MarkVersionDeleted(row.id);
    }
  }

  /** None of the first i rows comes twice. */
  predicate NoneTwice(order: seq<Key>, i: nat)
    requires i <= |order|
  {
    i == 0 || (NoneTwice(order, i - 1) && order[i - 1] !in order[..i - 1])
  }

  lemma {:induction false} DistinctNoneTwice(order: seq<Key>, i: nat)
    requires i <= |order| && forall i, j :: 0 <= i < j < |order| ==> order[i] != order[j]
    ensures NoneTwice(order, i)
  {
    if i > 0 {
      DistinctNoneTwice(order, i - 1);
    }
  }

  /** Those of the first i rows whose mark does not fail. */
  function Struck(order: seq<Key>, i: nat, unmarked: set<Key>): set<Key>
    requires i <= |order|
  {
    if i == 0 then {} else Struck(order, i - 1, unmarked) + if order[i - 1] in unmarked then {} else {order[i - 1]}
  }

  lemma {:induction false} StruckAre(order: seq<Key>, i: nat, unmarked: set<Key>)
    requires i <= |order|
    ensures Struck(order, i, unmarked) == Elements(order[..i]) - unmarked
  {
    if i > 0 {
      StruckAre(order, i - 1, unmarked);
      assert order[..i] == order[..i - 1] + [order[i - 1]];
    }
  }

  lemma {:induction false} TallyIs(order: seq<Key>, i: nat, unmarked: set<Key>)
    requires i <= |order| && NoneTwice(order, i)
    ensures Tally(order, i, unmarked) == |Struck(order, i, unmarked)|
  {
    if i > 0 {
      TallyIs(order, i - 1, unmarked);
      StruckAre(order, i - 1, unmarked);
      assert order[i - 1] !in Struck(order, i - 1, unmarked);
    }
  }

  /** Marking by id one row after the other comes down to marking a set of keys at once. */
  lemma {:induction false} MarksSoFar(t: Table, order: seq<Key>, i: nat, unmarked: set<Key>)
    requires DistinctIds(t) && i <= |order| && forall k :: k in order ==> k in t
    ensures MarkedEach(t, order, i, unmarked) == Purged(t, Struck(order, i, unmarked))
  {
    if i > 0 {
      MarksSoFar(t, order, i - 1, unmarked);
      MarkOneMore(t, Struck(order, i - 1, unmarked), order[i - 1], unmarked, Struck(order, i, unmarked));
    }
  }

  lemma PassMarks(t: Table, order: seq<Key>, keys: set<Key>, unmarked: set<Key>)
    requires DistinctIds(t) && Enumerates(order, keys) && forall k :: k in keys ==> k in t
    ensures MarkedEach(t, order, |order|, unmarked) == Purged(t, keys - unmarked)
    ensures Tally(order, |order|, unmarked) == |keys - unmarked|
  {
    assert order[..|order|] == order;
    assert forall k :: k in order ==> k in Elements(order);
    DistinctNoneTwice(order, |order|);
    StruckAre(order, |order|, unmarked);
    TallyIs(order, |order|, unmarked);
    MarksSoFar(t, order, |order|, unmarked);
  }

  lemma MarkOneMore(t: Table, before: set<Key>, k: Key, unmarked: set<Key>, gone: set<Key>)
    requires DistinctIds(t) && k in t && gone == before + (if k in unmarked then {} else {k})
    ensures MarkedOne(t, Purged(t, before), k, unmarked) == Purged(t, gone)
  {
  }

  // What a pass achieves

  /** Every live row's path was returned by a store for that very version. */
  ghost predicate PathsStored(t: Table) {
    forall k :: k in t && t[k].path != "" ==> StoredFor(t[k].path, k)
  }

  predicate StoredFor(path: string, k: Key) {
    var q := ParsePath(path);
    q.Some? && q.value.product == k.product && q.value.version == k.version
  }

  /** So no two rows share a path. */
  lemma PathsDistinct(t: Table, k: Key, k': Key)
    requires PathsStored(t) && k in t && k' in t && t[k].path == t[k'].path && t[k].path != ""
    ensures k == k'
  {
  }

  ghost predicate SomePath(t: Table, order: seq<Key>, i: nat, path: string)
    requires i <= |order|
  {
    exists j :: 0 <= j < i && order[j] in t && t[order[j]].path == path
  }

  /** The driver that returned the path fails when asked to delete it. */
  predicate Kept(broken: map<string, Faults>, q: StoredPath) {
    PathText(q) in broken && Spared(broken[PathText(q)], q)
  }

  lemma {:induction false} EmptiedHolds(t: Table, s: Stores, order: seq<Key>, i: nat, broken: map<string, Faults>,
                                        q: StoredPath, s': Stores)
    requires PathsStored(t) && Tidy(s) && Proper(q) && i <= |order|
    requires s' == Emptied(t, s, order, i, broken)
    ensures Tidy(s')
    ensures Holds(s', q) == if SomePath(t, order, i, PathText(q)) && !Kept(broken, q) then None else Holds(s, q)
  {
    if i > 0 {
      var mid := Emptied(t, s, order, i - 1, broken);
      EmptiedHolds(t, s, order, i - 1, broken, q, mid);
      EmptiedOneHolds(t, mid, order[i - 1], broken, q, s');
      SomePathGrows(t, order, i, PathText(q));
    }
  }

  lemma SomePathGrows(t: Table, order: seq<Key>, i: nat, path: string)
    requires 0 < i <= |order|
    ensures SomePath(t, order, i, path)
            <==> SomePath(t, order, i - 1, path) || (order[i - 1] in t && t[order[i - 1]].path == path)
  {
  }

  lemma EmptiedOneHolds(t: Table, s: Stores, k: Key, broken: map<string, Faults>, q: StoredPath, s': Stores)
    requires PathsStored(t) && Tidy(s) && Proper(q) && s' == EmptiedOne(t, s, k, broken)
    ensures Tidy(s')
    ensures Holds(s', q) == if k in t && t[k].path == PathText(q) && !Kept(broken, q) then None else Holds(s, q)
  {
    PathTextParts(q);
    if k in t && t[k].path != "" {
      assert StoredFor(t[k].path, k);
      var gone := ParsePath(t[k].path).value;
      DeleteUnderHolds(s, gone, FaultsAt(broken, t[k].path), q, s');
      if PathText(q) == t[k].path {
        PathTextInjective(q, gone);
      }
    }
  }

  /** Without failures a pass at time now leaves no live superseded row with a deadline up to now and
      changes no other row. */
  lemma PassPurgesRows(t: Table, now: Time, t': Table)
    requires t' == Purged(t, Expired(t, now))
    ensures t'.Keys == t.Keys
    ensures forall k :: k in t' && !t'[k].isCurrent && !t'[k].isDeleted && t'[k].cleanupDeadline.Some? ==>
              t'[k].cleanupDeadline.value > now
    ensures forall k :: k in t ==>
              if !t[k].isCurrent && !t[k].isDeleted && t[k].cleanupDeadline.Some? && t[k].cleanupDeadline.value <= now
              then t'[k] == t[k].(isDeleted := true, path := "") else t'[k] == t[k]
  {
  }

  lemma SomePathIs(t: Table, order: seq<Key>, now: Time, path: string)
    requires Enumerates(order, Expired(t, now))
    ensures SomePath(t, order, |order|, path) <==> exists k :: IsExpired(t, k, now) && t[k].path == path
  {
    if k :| IsExpired(t, k, now) && t[k].path == path {
      assert k in Elements(order);
    }
    if SomePath(t, order, |order|, path) {
      var j :| 0 <= j < |order| && order[j] in t && t[order[j]].path == path;
      assert order[j] in Elements(order);
    }
  }

  /** Exactly the artifacts of the expired rows are gone, apart from those whose driver fails to delete them. */
  lemma PassEmptiesPaths(t: Table, s: Stores, order: seq<Key>, now: Time, broken: map<string, Faults>, q: StoredPath)
    requires PathsStored(t) && Tidy(s) && Proper(q) && Enumerates(order, Expired(t, now))
    ensures Tidy(Emptied(t, s, order, |order|, broken))
    ensures Holds(Emptied(t, s, order, |order|, broken), q)
            == if (exists k :: IsExpired(t, k, now) && t[k].path == PathText(q)) && !Kept(broken, q) then None else Holds(s, q)
  {
    EmptiedHolds(t, s, order, |order|, broken, q, Emptied(t, s, order, |order|, broken));
    SomePathIs(t, order, now, PathText(q));
  }

  /** In particular every row the pass leaves alone still opens to the bytes it opened to before. */
  lemma PassSparesOthers(t: Table, s: Stores, order: seq<Key>, now: Time, broken: map<string, Faults>, k: Key)
    requires PathsStored(t) && Tidy(s) && Enumerates(order, Expired(t, now))
    requires k in t && t[k].path != "" && !IsExpired(t, k, now)
    ensures OpenIn(Emptied(t, s, order, |order|, broken), t[k].path) == OpenIn(s, t[k].path)
  {
    assert StoredFor(t[k].path, k);
    var q := ParsePath(t[k].path).value;
    var s' := Emptied(t, s, order, |order|, broken);
    PassEmptiesPaths(t, s, order, now, broken, q);
    forall k' | IsExpired(t, k', now)
      ensures t[k'].path != PathText(q)
    {
      if t[k'].path == t[k].path {
        PathsDistinct(t, k, k');
      }
    }
    OpenFindsHeld(s, q);
    OpenFindsHeld(s', q);
  }

  // Runs with passes

  /** The row updates of the program over time, with undisturbed passes among them. */
  datatype Timed = Change(event: Event) | Purge(now: Time)

  function Advance(catalog: set<string>, t: Table, x: Timed): Table {
    match x
    case Change(e) => Apply(catalog, t, e)
    case Purge(now) => Purged(t, Expired(t, now))
  }

  function History(catalog: set<string>, t: Table, xs: seq<Timed>): Table {
    if xs == [] then t else Advance(catalog, History(catalog, t, xs[..|xs| - 1]), xs[|xs| - 1])
  }

  /** Nothing is demoted before a given time or with a retention that is negative or overflows. */
  predicate DemotesFrom(x: Timed, start: Time) {
    match x
    case Purge(_) => true
    case Change(e) => !e.MarkEvent? ==> start <= e.now && 0 <= e.days <= MAX_RETENTION_DAYS
  }

  /** No live superseded row has a deadline before a given time. */
  ghost predicate NothingOverdue(t: Table, start: Time) {
    forall k :: k in t && !t[k].isCurrent && !t[k].isDeleted ==>
      t[k].cleanupDeadline.Some? && t[k].cleanupDeadline.value >= start
  }

  lemma ChangeKeepsNothingOverdue(catalog: set<string>, t: Table, x: Timed, start: Time, t': Table)
    requires NothingOverdue(t, start) && DemotesFrom(x, start) && t' == Advance(catalog, t, x)
    ensures NothingOverdue(t', start)
  {
    if x.Change? && !x.event.MarkEvent? {
      RetentionExact(x.event.days);
      assert x.event.now + Retention(x.event.days) >= start;
    }
  }

  lemma {:induction false} NothingOverdueAfter(catalog: set<string>, t: Table, xs: seq<Timed>, start: Time)
    requires NothingOverdue(t, start) && forall i :: 0 <= i < |xs| ==> DemotesFrom(xs[i], start)
    ensures NothingOverdue(History(catalog, t, xs), start)
  {
    if xs != [] {
      var before := xs[..|xs| - 1];
      NothingOverdueAfter(catalog, t, before, start);
      ChangeKeepsNothingOverdue(catalog, History(catalog, t, before), xs[|xs| - 1], start, History(catalog, t, xs));
    }
  }

  /** Whatever happens after a pass, as long as the clock does not run backwards: while the pass is at
      most gap ago, no live superseded row is more than gap past its deadline. */
  lemma OverdueBounded(catalog: set<string>, t: Table, passAt: Time, xs: seq<Timed>, now: Time, gap: int, k: Key)
    requires WellFormed(t)
    requires forall i :: 0 <= i < |xs| ==> DemotesFrom(xs[i], passAt)
    requires now <= passAt + gap
    requires var t' := History(catalog, Advance(catalog, t, Purge(passAt)), xs);
             k in t' && !t'[k].isCurrent && !t'[k].isDeleted
    ensures var r := History(catalog, Advance(catalog, t, Purge(passAt)), xs)[k];
            r.cleanupDeadline.Some? && now - r.cleanupDeadline.value <= gap
  {
    NothingOverdueAfter(catalog, Advance(catalog, t, Purge(passAt)), xs, passAt);
  }
}
