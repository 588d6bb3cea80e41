/** When the cache agrees with the database while requests are in flight: what each single step does to the
    agreement. */
module RequestsInFlight {
  import opened Wrappers
  import opened VersionTable
  import opened ManifestCache
  import opened ManifestHandler
  import A = CacheAgreement
  import Lifecycle

  function SiteOf(w: World): A.Site {
    A.Site(w.rows, w.entries)
  }

  /** The steps an act without interruption comes down to: a request arrives, reads and fills; a publication that
      goes through is followed by the callback. */
  ghost function StepsOf(c: Server, w: World, id: nat, x: A.Timed): World {
    match x.act
    case Ask(p) =>
      Step(c, Step(c, Step(c, w, Moment(x.at, Arrive(id, p))), Moment(x.at, Read(id))), Moment(x.at, Fill(id)))
    case Sync(rel, days) =>
      var published := Step(c, w, Moment(x.at, Write(Lifecycle.PublishEvent(rel, days, x.at))));
      if Publish(c.products.Keys, w.rows, rel, days, x.at).Ok? then Step(c, published, Moment(x.at, Forget(rel.product)))
      else published
    case RollBack(k, days) => Step(c, w, Moment(x.at, Write(Lifecycle.RollbackEvent(k, days, x.at))))
    case Mark(k) => Step(c, w, Moment(x.at, Write(Lifecycle.MarkEvent(k))))
  }

  /** Acts one after the other are the steps of requests and updates that nothing comes between. */
  lemma ActsAreSteps(c: Server, w: World, id: nat, x: A.Timed)
    requires id !in w.requests && (x.act.Ask? ==> x.act.product != "")
    ensures SiteOf(StepsOf(c, w, id, x)) == A.Next(c, SiteOf(w), x) && StepsOf(c, w, id, x).requests == w.requests
  {
    if x.act.Ask? {
      StepsServe(c, w, id, x.act.product, x.at, x.at, x.at);
    }
  }

  /** Every entry still fresh is what the database would answer. */
  ghost predicate Agrees(c: Server, w: World, now: Time) {
    A.Agrees(c, SiteOf(w), now)
  }

  /** A publication, until the callback has run, spoils a fresh entry that is not the release's manifest. */
  predicate PublishSpoils(c: Server, w: World, rel: Release, days: int, now: Time, at: Time) {
    && Publish(c.products.Keys, w.rows, rel, days, now).Ok?
    && Fresh(w.entries, c.ttl, rel.product, at)
    && w.entries[rel.product].manifest
       != ManifestOf(c.products, Publish(c.products.Keys, w.rows, rel, days, now).value, KeyOf(rel))
  }

  /** A fill spoils the agreement if what the request has read is no longer the answer. */
  ghost predicate FillSpoils(c: Server, w: World, id: nat) {
    Filling(w, id) && Queried(c.products, w.rows, w.requests[id].product) != Ok(w.requests[id].manifest)
  }

  ghost predicate Spoils(c: Server, w: World, m: Moment) {
    match m.event
    case Write(PublishEvent(rel, days, now)) => PublishSpoils(c, w, rel, days, now, m.at)
    case Write(RollbackEvent(k, days, now)) => A.Spoils(c, SiteOf(w), A.Timed(m.at, A.RollBack(k, days)))
    case Write(MarkEvent(k)) => A.Spoils(c, SiteOf(w), A.Timed(m.at, A.Mark(k)))
    case Fill(id) => FillSpoils(c, w, id)
    case _ => false
  }

  lemma PublishAgrees(c: Server, w: World, rel: Release, days: int, now: Time, at: Time, w': World)
    requires WellFormed(w.rows) && Agrees(c, w, at)
    requires w' == w.(rows := Lifecycle.Apply(c.products.Keys, w.rows, Lifecycle.PublishEvent(rel, days, now)))
    ensures Agrees(c, w', at) <==> !PublishSpoils(c, w, rel, days, now, at)
  {
    if Publish(c.products.Keys, w.rows, rel, days, now).Ok? {
      PublishedAnswer(c, w.rows, rel, days, now, w'.rows);
      forall p | Fresh(w.entries, c.ttl, p, at) && p != rel.product
        ensures A.EntryAgrees(c, SiteOf(w'), p)
      {
        assert A.EntryAgrees(c, SiteOf(w), p);
        A.OthersAnswerSame(c, w.rows, Lifecycle.PublishEvent(rel, days, now), p);
      }
    }
  }

  lemma PublishedAnswer(c: Server, t: Table, rel: Release, days: int, now: Time, t': Table)
    requires WellFormed(t) && Publish(c.products.Keys, t, rel, days, now) == Ok(t')
    ensures KeyOf(rel) in t' && rel.product in c.products
    ensures Queried(c.products, t', rel.product) == Ok(ManifestOf(c.products, t', KeyOf(rel)))
  {
    Lifecycle.PublishServesRelease(c.products.Keys, t, rel, days, now, t');
  }

  lemma FillAgrees(c: Server, w: World, id: nat, at: Time, w': World)
    requires c.ttl >= 0 && Agrees(c, w, at) && w' == Step(c, w, Moment(at, Fill(id)))
    ensures Agrees(c, w', at) <==> !FillSpoils(c, w, id)
  {
    if Filling(w, id) {
      var r := w.requests[id];
      forall p | Fresh(w'.entries, c.ttl, p, at) && p != r.product
        ensures A.EntryAgrees(c, SiteOf(w'), p)
      {
        assert A.EntryAgrees(c, SiteOf(w), p);
      }
      assert Fresh(w'.entries, c.ttl, r.product, at);
      assert A.EntryAgrees(c, SiteOf(w'), r.product) <==> Queried(c.products, w.rows, r.product) == Ok(r.manifest);
    }
  }

  lemma SameEntriesAgree(c: Server, w: World, at: Time, w': World)
    requires Agrees(c, w, at) && w'.rows == w.rows
    requires forall p :: p in w'.entries ==> p in w.entries && w'.entries[p] == w.entries[p]
    ensures Agrees(c, w', at)
  {
    forall p | Fresh(w'.entries, c.ttl, p, at)
      ensures A.EntryAgrees(c, SiteOf(w'), p)
    {
      assert A.EntryAgrees(c, SiteOf(w), p);
    }
  }

  lemma RollBackWrite(c: Server, w: World, k: Key, days: int, now: Time, at: Time, w': World)
    requires WellFormed(w.rows) && Agrees(c, w, at)
    requires w' == w.(rows := Lifecycle.Apply(c.products.Keys, w.rows, Lifecycle.RollbackEvent(k, days, now)))
    ensures Agrees(c, w', at) <==> !A.Spoils(c, SiteOf(w), A.Timed(at, A.RollBack(k, days)))
  {
    A.RollBackAgrees(c, SiteOf(w), k, days, now, at, SiteOf(w'));
  }

  /** One step among requests in flight: the agreement survives exactly the steps that spoil nothing. */
  lemma StepAgrees(c: Server, w: World, m: Moment, w': World)
    requires c.ttl >= 0 && WellFormed(w.rows) && Agrees(c, w, m.at) && w' == Step(c, w, m)
    ensures Agrees(c, w', m.at) <==> !Spoils(c, w, m)
  {
    match m.event
    case Write(PublishEvent(rel, days, now)) => PublishAgrees(c, w, rel, days, now, m.at, w');
    case Write(RollbackEvent(k, days, now)) => RollBackWrite(c, w, k, days, now, m.at, w');
    case Write(MarkEvent(k)) => A.MarkAgrees(c, SiteOf(w), k, m.at, SiteOf(w'));
    case Fill(id) => FillAgrees(c, w, id, m.at, w');
    case _ => SameEntriesAgree(c, w, m.at, w');
  }

  // Whole runs

  predicate InOrder(ms: seq<Moment>) {
    forall i :: 0 < i < |ms| ==> ms[i - 1].at <= ms[i].at
  }

  ghost predicate Unspoilt(c: Server, ms: seq<Moment>) {
    forall i :: 0 <= i < |ms| ==> !Spoils(c, After(c, ms[..i]), ms[i])
  }

  /** Right after every event the cache agrees with the database. */
  ghost predicate AlwaysAgrees(c: Server, ms: seq<Moment>) {
    forall n :: 0 <= n < |ms| ==> Agrees(c, After(c, ms[..n + 1]), ms[n].at)
  }

  lemma {:induction false} RunWellFormed(c: Server, ms: seq<Moment>)
    ensures WellFormed(After(c, ms).rows)
  {
    if ms != [] {
      var n := |ms| - 1;
      RunWellFormed(c, ms[..n]);
      if ms[n].event.Write? {
        Lifecycle.ApplyKeepsWellFormed(c.products.Keys, After(c, ms[..n]).rows, ms[n].event.update, After(c, ms).rows);
      }
    }
  }

  /** Before an event the cache agrees by the event's clock if it did after the one before. */
  lemma AgreesBefore(c: Server, ms: seq<Moment>, i: nat)
    requires i < |ms| && InOrder(ms) && (i > 0 ==> Agrees(c, After(c, ms[..i]), ms[i - 1].at))
    ensures Agrees(c, After(c, ms[..i]), ms[i].at)
  {
    if i > 0 {
      A.AgreementLasts(c, SiteOf(After(c, ms[..i])), ms[i - 1].at, ms[i].at);
    }
  }

  lemma {:induction false} UnspoiltAgrees(c: Server, ms: seq<Moment>, n: nat)
    requires c.ttl >= 0 && InOrder(ms) && Unspoilt(c, ms) && n < |ms|
    ensures Agrees(c, After(c, ms[..n + 1]), ms[n].at)
  {
    if n > 0 {
      UnspoiltAgrees(c, ms, n - 1);
    }
    AgreesBefore(c, ms, n);
    RunWellFormed(c, ms[..n]);
    assert ms[..n + 1][..n] == ms[..n];
    StepAgrees(c, After(c, ms[..n]), ms[n], After(c, ms[..n + 1]));
  }

  /** Over every interleaving the cache agrees with the database throughout if and only if no step spoils. */
  lemma AgreesExactly(c: Server, ms: seq<Moment>)
    requires c.ttl >= 0 && InOrder(ms)
    ensures AlwaysAgrees(c, ms) <==> Unspoilt(c, ms)
  {
    if Unspoilt(c, ms) {
      forall n | 0 <= n < |ms|
        ensures Agrees(c, After(c, ms[..n + 1]), ms[n].at)
      {
        UnspoiltAgrees(c, ms, n);
      }
    }
    if AlwaysAgrees(c, ms) {
      forall i | 0 <= i < |ms|
        ensures !Spoils(c, After(c, ms[..i]), ms[i])
      {
        assert i > 0 ==> Agrees(c, After(c, ms[..(i - 1) + 1]), ms[i - 1].at);
        AgreesBefore(c, ms, i);
        RunWellFormed(c, ms[..i]);
        assert ms[..i + 1][..i] == ms[..i];
        StepAgrees(c, After(c, ms[..i]), ms[i], After(c, ms[..i + 1]));
      }
    }
  }

  /** While it agrees, an answer from the cache is the database's answer. */
  lemma CachedIsCurrent(c: Server, w: World, m: Moment)
    requires Agrees(c, w, m.at) && m.event.Arrive? && Served(c, w, m).Some?
    ensures Queried(c.products, w.rows, m.event.product) == Ok(Served(c, w, m).value)
  {
    assert A.EntryAgrees(c, SiteOf(w), m.event.product);
  }
}
