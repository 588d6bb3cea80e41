/** When the cached server answers exactly as one that always queries: requests, syncs, rollbacks and
    marks one after the other, each without interruption. */
module CacheAgreement {
  import opened Wrappers
  import opened VersionTable
  import opened ManifestCache
  import opened ManifestHandler
  import Lifecycle

  /** A sync publishes and invalidates; a rollback from the admin pages invalidates nothing, nor does a mark. */
  datatype Act =
    | Ask(product: string)
    | Sync(rel: Release, days: int)
    | RollBack(key: Key, days: int)
    | Mark(key: Key)

  datatype Timed = Timed(at: Time, act: Act)

  datatype Site = Site(rows: Table, entries: Entries)

  /** What a request is answered. */
  ghost function Reply(c: Server, s: Site, product: string, now: Time): Result<Manifest, HttpError> {
    if Fresh(s.entries, c.ttl, product, now) then Ok(s.entries[product].manifest) else Queried(c.products, s.rows, product)
  }

  ghost function Next(c: Server, s: Site, x: Timed): Site {
    match x.act
    case Ask(p) =>
      var r := Reply(c, s, p, x.at);
      if Fresh(s.entries, c.ttl, p, x.at) || r.Err? then s else s.(entries := s.entries[p := Entry(r.value, x.at)])
    case Sync(rel, days) =>
      var r := Publish(c.products.Keys, s.rows, rel, days, x.at);
      if r.Err? then s else Site(r.value, s.entries - {rel.product})
    case RollBack(k, days) => s.(rows := Lifecycle.Apply(c.products.Keys, s.rows, Lifecycle.RollbackEvent(k, days, x.at)))
    case Mark(k) => s.(rows := Lifecycle.Apply(c.products.Keys, s.rows, Lifecycle.MarkEvent(k)))
  }

  ghost function After(c: Server, xs: seq<Timed>): Site {
    if xs == [] then Site(map[], map[]) else Next(c, After(c, xs[..|xs| - 1]), xs[|xs| - 1])
  }

  /** Every entry still fresh is what the database would answer. */
  ghost predicate Agrees(c: Server, s: Site, now: Time) {
    forall p :: Fresh(s.entries, c.ttl, p, now) ==> EntryAgrees(c, s, p)
  }

  ghost predicate EntryAgrees(c: Server, s: Site, p: string)
    requires p in s.entries
  {
    Queried(c.products, s.rows, p) == Ok(s.entries[p].manifest)
  }

  lemma AgreementLasts(c: Server, s: Site, now: Time, later: Time)
    requires Agrees(c, s, now) && now <= later
    ensures Agrees(c, s, later)
  {
  }

  /** Guards the program would need: a rollback to another version than the one in a fresh entry, and a
      mark of the very version in a fresh entry. */
  predicate Spoils(c: Server, s: Site, x: Timed) {
    match x.act
    case RollBack(k, _) =>
      Rollback(s.rows, k, 0, x.at).Ok? && Fresh(s.entries, c.ttl, k.product, x.at)
      && s.entries[k.product].manifest.version != k.version
    case Mark(k) =>
      k in s.rows && Fresh(s.entries, c.ttl, k.product, x.at) && s.entries[k.product].manifest.version == k.version
    case _ => false
  }

  /** A row update that does not touch a product does not change its answer. */
  lemma OthersAnswerSame(c: Server, t: Table, x: Lifecycle.Event, p: string)
    requires WellFormed(t) && Lifecycle.ProductOf(x) != p
    ensures Queried(c.products, Lifecycle.Apply(c.products.Keys, t, x), p) == Queried(c.products, t, p)
  {
    var t' := Lifecycle.Apply(c.products.Keys, t, x);
    Lifecycle.ApplyKeepsWellFormed(c.products.Keys, t, x, t');
    if k :| Serves(t, k) && k.product == p {
      Lifecycle.ApplyFrames(c.products.Keys, t, x, k);
      CurrentVersionIs(t, k);
      CurrentVersionIs(t', k);
    } else {
      forall k | Serves(t', k)
        ensures k.product != p
      {
        if k.product == p {
          NoneAppears(c.products.Keys, t, x, k);
        }
      }
    }
  }

  lemma NoneAppears(catalog: set<string>, t: Table, x: Lifecycle.Event, k: Key)
    requires WellFormed(t) && Lifecycle.ProductOf(x) != k.product && Serves(Lifecycle.Apply(catalog, t, x), k)
    ensures Serves(t, k)
  {
  }

  lemma RollBackAgrees(c: Server, s: Site, k: Key, days: int, now: Time, at: Time, s': Site)
    requires WellFormed(s.rows) && Agrees(c, s, at)
    requires s' == s.(rows := Lifecycle.Apply(c.products.Keys, s.rows, Lifecycle.RollbackEvent(k, days, now)))
    ensures Agrees(c, s', at) <==> !Spoils(c, s, Timed(at, RollBack(k, days)))
  {
    var x := Lifecycle.RollbackEvent(k, days, now);
    if Rollback(s.rows, k, days, now).Ok? {
      forall p | Fresh(s.entries, c.ttl, p, at) && p != k.product
        ensures EntryAgrees(c, s', p)
      {
        assert EntryAgrees(c, s, p);
        OthersAnswerSame(c, s.rows, x, p);
      }
      if Fresh(s.entries, c.ttl, k.product, at) {
        assert EntryAgrees(c, s, k.product);
        RolledBackAnswer(c, s.rows, k, days, now, s'.rows);
      }
    }
  }

  /** After a rollback the database answers with the version rolled back to, with the same manifest if it
      was answering with it before. */
  lemma RolledBackAnswer(c: Server, t: Table, k: Key, days: int, now: Time, t': Table)
    requires WellFormed(t) && Rollback(t, k, days, now) == Ok(t') && Queried(c.products, t, k.product).Ok?
    ensures Queried(c.products, t', k.product).Ok?
    ensures var m, m' := Queried(c.products, t, k.product).value, Queried(c.products, t', k.product).value;
            m'.version == k.version && (m == m' <==> m.version == k.version)
  {
  }

  lemma MarkAgrees(c: Server, s: Site, k: Key, now: Time, s': Site)
    requires WellFormed(s.rows) && Agrees(c, s, now) && s' == Next(c, s, Timed(now, Mark(k)))
    ensures Agrees(c, s', now) <==> !Spoils(c, s, Timed(now, Mark(k)))
  {
    if k in s.rows {
      forall p | Fresh(s.entries, c.ttl, p, now) && p != k.product
        ensures EntryAgrees(c, s', p)
      {
        assert EntryAgrees(c, s, p);
        OthersAnswerSame(c, s.rows, Lifecycle.MarkEvent(k), p);
      }
      if Fresh(s.entries, c.ttl, k.product, now) {
        assert EntryAgrees(c, s, k.product);
        MarkedAnswer(c, s.rows, k);
      }
    }
  }

  lemma MarkedAnswer(c: Server, t: Table, k: Key)
    requires WellFormed(t) && k in t && Queried(c.products, t, k.product).Ok?
    ensures Queried(c.products, MarkDeleted(t, t[k].id), k.product)
            == if Queried(c.products, t, k.product).value.version == k.version then Err(NoVersion)
               else Queried(c.products, t, k.product)
  {
  }

  lemma SyncAgrees(c: Server, s: Site, rel: Release, days: int, now: Time, s': Site)
    requires WellFormed(s.rows) && Agrees(c, s, now) && s' == Next(c, s, Timed(now, Sync(rel, days)))
    ensures Agrees(c, s', now)
  {
    if Publish(c.products.Keys, s.rows, rel, days, now).Ok? {
      forall p | Fresh(s'.entries, c.ttl, p, now)
        ensures EntryAgrees(c, s', p)
      {
        assert EntryAgrees(c, s, p);
        OthersAnswerSame(c, s.rows, Lifecycle.PublishEvent(rel, days, now), p);
      }
    }
  }

  lemma AskAgrees(c: Server, s: Site, p: string, now: Time, s': Site)
    requires Agrees(c, s, now) && s' == Next(c, s, Timed(now, Ask(p)))
    ensures Agrees(c, s', now)
  {
    forall q | Fresh(s'.entries, c.ttl, q, now)
      ensures EntryAgrees(c, s', q)
    {
      if q != p || s' == s {
        assert EntryAgrees(c, s, q);
      }
    }
  }

  /** Cache and database stay in agreement exactly when the act is no spoiling rollback or mark. */
  lemma NextAgrees(c: Server, s: Site, x: Timed, s': Site)
    requires WellFormed(s.rows) && Agrees(c, s, x.at) && s' == Next(c, s, x)
    ensures Agrees(c, s', x.at) <==> !Spoils(c, s, x)
  {
    match x.act
    case Ask(p) => AskAgrees(c, s, p, x.at, s');
    case Sync(rel, days) => SyncAgrees(c, s, rel, days, x.at, s');
    case RollBack(k, days) => RollBackAgrees(c, s, k, days, x.at, x.at, s');
    case Mark(k) => MarkAgrees(c, s, k, x.at, s');
  }

  lemma NextKeepsWellFormed(c: Server, s: Site, x: Timed)
    requires WellFormed(s.rows)
    ensures WellFormed(Next(c, s, x).rows)
  {
    match x.act
    case Ask(_) =>
    case Sync(rel, days) =>
      var e := Lifecycle.PublishEvent(rel, days, x.at);
      Lifecycle.ApplyKeepsWellFormed(c.products.Keys, s.rows, e, Lifecycle.Apply(c.products.Keys, s.rows, e));
    case RollBack(k, days) =>
      Lifecycle.ApplyKeepsWellFormed(c.products.Keys, s.rows, Lifecycle.RollbackEvent(k, days, x.at), Next(c, s, x).rows);
    case Mark(k) =>
      Lifecycle.ApplyKeepsWellFormed(c.products.Keys, s.rows, Lifecycle.MarkEvent(k), Next(c, s, x).rows);
  }

  /** The marks of a cleanup pass on expired rows spoil nothing. */
  lemma ExpiredMarkSpoilsNothing(c: Server, s: Site, k: Key, now: Time, queriedAt: Time)
    requires WellFormed(s.rows) && Agrees(c, s, now) && IsExpired(s.rows, k, queriedAt)
    ensures !Spoils(c, s, Timed(now, Mark(k)))
  {
  }

  // Whole runs

  predicate InOrder(xs: seq<Timed>) {
    forall i :: 0 < i < |xs| ==> xs[i - 1].at <= xs[i].at
  }

  ghost predicate Unspoilt(c: Server, xs: seq<Timed>) {
    forall i :: 0 <= i < |xs| ==> !Spoils(c, After(c, xs[..i]), xs[i])
  }

  lemma {:induction false} RunAgrees(c: Server, xs: seq<Timed>, now: Time)
    requires InOrder(xs) && Unspoilt(c, xs) && (xs != [] ==> xs[|xs| - 1].at <= now)
    ensures WellFormed(After(c, xs).rows) && Agrees(c, After(c, xs), now)
  {
    if xs != [] {
      var n := |xs| - 1;
      var before, x := xs[..n], xs[n];
      assert forall i :: 0 <= i < n ==> before[i] == xs[i] && before[..i] == xs[..i];
      RunAgrees(c, before, x.at);
      NextAgrees(c, After(c, before), x, After(c, xs));
      NextKeepsWellFormed(c, After(c, before), x);
      AgreementLasts(c, After(c, xs), x.at, now);
    }
  }

  /** So after any run without a spoiling act the next request gets exactly the database's answer. */
  lemma AnswersAsQueried(c: Server, xs: seq<Timed>, product: string, now: Time)
    requires InOrder(xs) && Unspoilt(c, xs) && (xs != [] ==> xs[|xs| - 1].at <= now)
    ensures Reply(c, After(c, xs), product, now) == Queried(c.products, After(c, xs).rows, product)
  {
    RunAgrees(c, xs, now);
    if Fresh(After(c, xs).entries, c.ttl, product, now) {
      assert EntryAgrees(c, After(c, xs), product);
    }
  }

  /** A rollback to another version right after a request: the version rolled back from goes on being
      served as long as the entry is fresh. */
  lemma RollBackServesOld(c: Server, xs: seq<Timed>, k: Key, days: int, now: Time, later: Time)
    requires InOrder(xs) && Unspoilt(c, xs) && (xs != [] ==> xs[|xs| - 1].at <= now)
    requires Spoils(c, After(c, xs), Timed(now, RollBack(k, days)))
    requires Fresh(After(c, xs).entries, c.ttl, k.product, later)
    ensures var s := Next(c, After(c, xs), Timed(now, RollBack(k, days)));
            && Reply(c, s, k.product, later) == Ok(After(c, xs).entries[k.product].manifest)
            && Reply(c, s, k.product, later) != Queried(c.products, s.rows, k.product)
  {
  }
}
