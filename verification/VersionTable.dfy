/** The product_versions table: publishing, rolling back, expiring and marking rows deleted. */
module VersionTable {
  import opened Wrappers
  import opened Int64

  /** Nanoseconds. */
  type Time = int

  /** product_id and version: the unique index of the table. */
  datatype Key = Key(product: string, version: string)

  datatype Row = Row(id: string, releasedAt: Time, sha256: string, sizeBytes: int, backend: string, path: string,
                     isCurrent: bool, supersededAt: Option<Time>, cleanupDeadline: Option<Time>,
                     isDeleted: bool, createdAt: Time)

  type Table = map<Key, Row>

  /** What a caller hands to PublishNewVersion. */
  datatype Release = Release(product: string, version: string, releasedAt: Time, sha256: string, sizeBytes: int,
                             backend: string, path: string)

  datatype DbError = UnknownProduct | DuplicateId | VersionNotFound | DbFailure

  function KeyOf(rel: Release): Key {
    Key(rel.product, rel.version)
  }

  /** The primary key column. */
  function IdOf(k: Key): string {
    k.product + ":" + k.version
  }

  // Retention arithmetic in 64-bit nanoseconds

  const HOUR := 3_600_000_000_000
  const DAY := 24 * HOUR
  const MAX_RETENTION_DAYS := 106751

  function Wrap64(x: int): int {
    (x + TWO63) % (2 * TWO63) - TWO63
  }

  /** time.Duration(days) * 24 * time.Hour. */
  function Retention(days: int): int {
    Wrap64(Wrap64(days * 24) * HOUR)
  }

  /** The product is the true number of nanoseconds exactly up to 106751 days either way. */
  lemma RetentionExact(days: int)
    requires -TWO63 <= days < TWO63
    ensures Retention(days) == days * DAY <==> -MAX_RETENTION_DAYS <= days <= MAX_RETENTION_DAYS
  {
    if -MAX_RETENTION_DAYS <= days <= MAX_RETENTION_DAYS {
      assert Wrap64(days * 24) == days * 24;
      assert days * 24 * HOUR == days * DAY;
    }
  }

  /** One day more and the deadline lies before the moment of demotion. */
  lemma RetentionOverflows()
    ensures Retention(MAX_RETENTION_DAYS + 1) < 0
  {
  }

  // The statements

  function DemotedRow(r: Row, now: Time, deadline: Time): Row {
    r.(isCurrent := false, supersededAt := Some(now), cleanupDeadline := Some(deadline))
  }

  function PromotedRow(r: Row): Row {
    r.(isCurrent := true, supersededAt := None, cleanupDeadline := None)
  }

  function DeletedRow(r: Row): Row {
    r.(isDeleted := true, path := "")
  }

  function NewRow(rel: Release, now: Time): Row {
    Row(IdOf(KeyOf(rel)), rel.releasedAt, rel.sha256, rel.sizeBytes, rel.backend, rel.path, true, None, None, false, now)
  }

  function UpsertedRow(prior: Row, rel: Release): Row {
    PromotedRow(prior).(sha256 := rel.sha256, sizeBytes := rel.sizeBytes, backend := rel.backend, path := rel.path,
                       isDeleted := false)
  }

  /** UPDATE ... WHERE product_id = ? AND is_current = 1. */
  function Superseded(t: Table, product: string, now: Time, deadline: Time): Table {
    map k | k in t :: if k.product == product && t[k].isCurrent then DemotedRow(t[k], now, deadline) else t[k]
  }

  /** INSERT ... ON CONFLICT(product_id, version) DO UPDATE. */
  function Upserted(t: Table, rel: Release, now: Time): Table {
    var k := KeyOf(rel);
    t[k := if k in t then UpsertedRow(t[k], rel) else NewRow(rel, now)]
  }

  /** A new row whose id another row bears already cannot be inserted. */
  predicate IdTaken(t: Table, k: Key) {
    k !in t && exists k' :: k' in t && t[k'].id == IdOf(k)
  }

  lemma SupersedingKeepsIds(t: Table, product: string, now: Time, deadline: Time, k: Key)
    ensures IdTaken(Superseded(t, product, now, deadline), k) <==> IdTaken(t, k)
  {
    var t' := Superseded(t, product, now, deadline);
    assert forall k' :: k' in t ==> k' in t' && t'[k'].id == t[k'].id;
  }

  /** The transaction of PublishNewVersion; catalog is the set of product ids. */
  function Publish(catalog: set<string>, t: Table, rel: Release, days: int, now: Time): Result<Table, DbError> {
    if rel.product !in catalog then Err(UnknownProduct)
    else if IdTaken(t, KeyOf(rel)) then Err(DuplicateId)
    else Ok(Upserted(Superseded(t, rel.product, now, now + Retention(days)), rel, now))
  }

  /** The transaction of RollbackToVersion. */
  function Rollback(t: Table, k: Key, days: int, now: Time): Result<Table, DbError> {
    if k !in t || t[k].isDeleted then Err(VersionNotFound)
    else
      var demoted := Superseded(t, k.product, now, now + Retention(days));
      Ok(demoted[k := PromotedRow(demoted[k])])
  }

  /** UPDATE ... SET is_deleted = 1, storage_path = '' WHERE id = ?. Nothing else is asked of the row. */
  function MarkDeleted(t: Table, id: string): Table {
    map k | k in t :: if t[k].id == id then DeletedRow(t[k]) else t[k]
  }

  /** What GetExpiredVersions selects. */
  predicate IsExpired(t: Table, k: Key, now: Time) {
    k in t && !t[k].isCurrent && !t[k].isDeleted && t[k].cleanupDeadline.Some? && t[k].cleanupDeadline.value <= now
  }

  function Expired(t: Table, now: Time): set<Key> {
    set k | k in t && IsExpired(t, k, now)
  }

  // What every table the program can reach has in common

  /** A row is current exactly while both of its timestamps are null. */
  predicate Disciplined(r: Row) {
    && (r.isCurrent <==> r.supersededAt.None?)
    && (r.isCurrent <==> r.cleanupDeadline.None?)
  }

  ghost predicate AllDisciplined(t: Table) {
    forall k :: k in t ==> Disciplined(t[k]) && (t[k].isDeleted ==> t[k].path == "")
  }

  ghost predicate OneCurrent(t: Table) {
    forall k, k' :: k in t && k' in t && t[k].isCurrent && t[k'].isCurrent && k.product == k'.product ==> k == k'
  }

  ghost predicate DistinctIds(t: Table) {
    forall k, k' :: k in t && k' in t && t[k].id == t[k'].id ==> k == k'
  }

  ghost predicate WellFormed(t: Table) {
    AllDisciplined(t) && OneCurrent(t) && DistinctIds(t)
  }

  /** Making one row of a product current once the others are demoted. */
  lemma PromotionKeepsOne(t: Table, n: Key, r: Row, now: Time, deadline: Time)
    requires OneCurrent(t)
    ensures OneCurrent(Superseded(t, n.product, now, deadline)[n := r])
  {
  }

  lemma PromotionKeepsDiscipline(t: Table, n: Key, r: Row, now: Time, deadline: Time)
    requires AllDisciplined(t) && Disciplined(r) && (r.isDeleted ==> r.path == "")
    ensures AllDisciplined(Superseded(t, n.product, now, deadline)[n := r])
  {
  }

  lemma PromotionKeepsIds(t: Table, n: Key, r: Row, now: Time, deadline: Time)
    requires DistinctIds(t) && !IdTaken(t, n)
    requires if n in t then r.id == t[n].id else r.id == IdOf(n)
    ensures DistinctIds(Superseded(t, n.product, now, deadline)[n := r])
  {
  }

  /** Superseding a product and making one of its rows current: the shape of both transactions. */
  lemma PromotionKeepsWellFormed(t: Table, n: Key, r: Row, now: Time, deadline: Time, t': Table)
    requires WellFormed(t) && !IdTaken(t, n)
    requires if n in t then r.id == t[n].id else r.id == IdOf(n)
    requires r.isCurrent && Disciplined(r) && (r.isDeleted ==> r.path == "")
    requires t' == Superseded(t, n.product, now, deadline)[n := r]
    ensures WellFormed(t')
  {
    PromotionKeepsDiscipline(t, n, r, now, deadline);
    PromotionKeepsOne(t, n, r, now, deadline);
    PromotionKeepsIds(t, n, r, now, deadline);
  }

  function PublishedRow(t: Table, rel: Release, now: Time): Row {
    if KeyOf(rel) in t then UpsertedRow(t[KeyOf(rel)], rel) else NewRow(rel, now)
  }

  /** A publication demotes the current row of the product and puts in the row of the release, whatever
      the row there was demoted to in between: published, rolled back or deleted before makes no difference. */
  lemma PublishIsPromotion(catalog: set<string>, t: Table, rel: Release, days: int, now: Time)
    requires Publish(catalog, t, rel, days, now).Ok?
    ensures Publish(catalog, t, rel, days, now).value
            == Superseded(t, rel.product, now, now + Retention(days))[KeyOf(rel) := PublishedRow(t, rel, now)]
  {
  }

  lemma PublishKeepsWellFormed(catalog: set<string>, t: Table, rel: Release, days: int, now: Time, t': Table)
    requires WellFormed(t) && Publish(catalog, t, rel, days, now) == Ok(t')
    ensures WellFormed(t')
  {
    PublishIsPromotion(catalog, t, rel, days, now);
    PromotionKeepsWellFormed(t, KeyOf(rel), PublishedRow(t, rel, now), now, now + Retention(days), t');
  }

  lemma RollbackIsPromotion(t: Table, n: Key, days: int, now: Time)
    requires Rollback(t, n, days, now).Ok?
    ensures n in t
    ensures Rollback(t, n, days, now).value
            == Superseded(t, n.product, now, now + Retention(days))[n := PromotedRow(t[n])]
  {
  }

  lemma RollbackKeepsWellFormed(t: Table, n: Key, days: int, now: Time, t': Table)
    requires WellFormed(t) && Rollback(t, n, days, now) == Ok(t')
    ensures WellFormed(t')
  {
    RollbackIsPromotion(t, n, days, now);
    PromotionKeepsWellFormed(t, n, PromotedRow(t[n]), now, now + Retention(days), t');
  }

  lemma MarkKeepsWellFormed(t: Table, id: string)
    requires WellFormed(t)
    ensures WellFormed(MarkDeleted(t, id))
  {
  }

  /** With distinct ids an id marks one row at most. */
  lemma MarkedRows(t: Table, k: Key)
    requires DistinctIds(t) && k in t
    ensures MarkDeleted(t, t[k].id) == t[k := DeletedRow(t[k])]
  {
  }

  lemma ColonEndsProduct(k: Key)
    requires ':' !in k.product
    ensures IdOf(k)[|k.product|] == ':' && forall i :: 0 <= i < |k.product| ==> IdOf(k)[i] != ':'
    ensures IdOf(k)[..|k.product|] == k.product && IdOf(k)[|k.product| + 1..] == k.version
  {
  }

  /** The id of a product without a colon tells product and version apart. */
  lemma IdInjective(k: Key, k': Key)
    requires ':' !in k.product && ':' !in k'.product && IdOf(k) == IdOf(k')
    ensures k == k'
  {
    ColonEndsProduct(k);
    ColonEndsProduct(k');
    assert |k.product| == |k'.product|;
  }

  // Serving

  predicate Serves(t: Table, k: Key) {
    k in t && t[k].isCurrent && !t[k].isDeleted
  }

  /** The row GetCurrentVersion finds. */
  ghost function CurrentVersion(t: Table, product: string): Option<Key> {
    if exists k :: Serves(t, k) && k.product == product then
      var k :| Serves(t, k) && k.product == product;
      Some(k)
    else None
  }

  lemma CurrentVersionIs(t: Table, k: Key)
    requires WellFormed(t) && Serves(t, k)
    ensures CurrentVersion(t, k.product) == Some(k)
  {
  }

  // The table as an object

  /** Where a transaction breaks off, if it does. */
  datatype TxFault = NoFault | FirstUpdate | SecondUpdate | Commit

  class VersionStore {
    const catalog: set<string>
    var rows: Table

    constructor (catalog: set<string>)
      ensures this.catalog == catalog && rows == map[]
    {
      this.catalog := catalog;
      rows := map[];
    }

    /** The UPDATE that demotes the current rows of a product, row by row. */
    method Supersede(product: string, now: Time, deadline: Time)
      modifies this`rows
      ensures rows == Superseded(old(rows), product, now, deadline)
    {
      var todo := rows.Keys;
      while todo != {}
        invariant todo <= old(rows).Keys && rows.Keys == old(rows).Keys
        invariant forall k :: k in rows ==>
                    rows[k] == if k in todo then old(rows)[k] else Superseded(old(rows), product, now, deadline)[k]
        decreases |todo|
      {
        var k :| k in todo;
        if k.product == product && rows[k].isCurrent {
          rows := rows[k := DemotedRow(rows[k], now, deadline)];
        }
        todo := todo - {k};
      }
    }

    /** All or nothing: a publication that fails, for whatever reason, leaves the table as it was. */
    method PublishNewVersion(rel: Release, days: int, now: Time, fault: TxFault) returns (r: Result<(), DbError>)
      modifies this`rows
      ensures r.Ok? ==> Publish(catalog, old(rows), rel, days, now) == Ok(rows)
      ensures r.Err? ==> rows == old(rows)
      ensures r.Ok? <==> fault.NoFault? && Publish(catalog, old(rows), rel, days, now).Ok?
    {
      var before := rows;
      if fault.FirstUpdate? {
        return Err(DbFailure);
      }
      Supersede(rel.product, now, now + Retention(days));
      if rel.product !in catalog {
        rows := before;
        return Err(UnknownProduct);
      }
      assert rows.Keys == before.Keys;
      SupersedingKeepsIds(before, rel.product, now, now + Retention(days), KeyOf(rel));
      if IdTaken(rows, KeyOf(rel)) {
        rows := before;
        return Err(DuplicateId);
      }
      if fault.SecondUpdate? || fault.Commit? {
        rows := before;
        return Err(DbFailure);
      }
      rows := Upserted(rows, rel, now);
      r := Ok(());
    }

    /** All or nothing, like a publication. */
    method RollbackToVersion(k: Key, days: int, now: Time, fault: TxFault) returns (r: Result<(), DbError>)
      modifies this`rows
      ensures r.Ok? ==> Rollback(old(rows), k, days, now) == Ok(rows)
      ensures r.Err? ==> rows == old(rows)
      ensures r.Ok? <==> fault.NoFault? && k in old(rows) && !old(rows)[k].isDeleted
    {
      var before := rows;
      if k !in rows || rows[k].isDeleted {
        return Err(VersionNotFound);
      }
      if fault.FirstUpdate? {
        return Err(DbFailure);
      }
      Supersede(k.product, now, now + Retention(days));
      if fault.SecondUpdate? || fault.Commit? {
        rows := before;
        return Err(DbFailure);
      }
      rows := rows[k := PromotedRow(rows[k])];
      r := Ok(());
    }

    /** The expired rows, each once. */
    method GetExpiredVersions(now: Time) returns (expired: seq<Key>)
      ensures forall k :: k in expired <==> k in Expired(rows, now)
      ensures forall i, j :: 0 <= i < j < |expired| ==> expired[i] != expired[j]
    {
      expired := [];
      var todo := rows.Keys;
      while todo != {}
        invariant todo <= rows.Keys
        invariant forall k :: k in expired <==> k in rows && k !in todo && IsExpired(rows, k, now)
        invariant forall i, j :: 0 <= i < j < |expired| ==> expired[i] != expired[j]
        decreases |todo|
      {
        var k :| k in todo;
        if IsExpired(rows, k, now) {
          expired := expired + [k];
        }
        todo := todo - {k};
      }
    }

    /** The first row found that is current and live. */
    method GetCurrentVersion(product: string) returns (found: Option<Key>)
      ensures found.Some? ==> Serves(rows, found.value) && found.value.product == product
      ensures found.None? ==> CurrentVersion(rows, product).None?
    {
      var todo := rows.Keys;
      while todo != {}
        invariant todo <= rows.Keys
        invariant forall k :: k in rows && k !in todo && k.product == product ==> !Serves(rows, k)
        decreases |todo|
      {
        var k :| k in todo;
        if k.product == product && rows[k].isCurrent && !rows[k].isDeleted {
          return Some(k);
        }
        todo := todo - {k};
      }
      found := None;
    }

    method MarkVersionDeleted(id: string)
      modifies this`rows
      ensures rows == MarkDeleted(old(rows), id)
    {
      var todo := rows.Keys;
      while todo != {}
        invariant todo <= old(rows).Keys && rows.Keys == old(rows).Keys
        invariant forall k :: k in rows ==> rows[k] == if k in todo then old(rows)[k] else MarkDeleted(old(rows), id)[k]
        decreases |todo|
      {
        var k :| k in todo;
        if rows[k].id == id {
          rows := rows[k := DeletedRow(rows[k])];
        }
        todo := todo - {k};
      }
      assert rows == MarkDeleted(old(rows), id);
    }
  }
}
