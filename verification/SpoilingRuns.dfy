/** Runs that reach the steps after which the cache serves what the database no longer answers. */
module SpoilingRuns {
  import opened Wrappers
  import opened VersionTable
  import opened ManifestCache
  import opened ManifestHandler
  import A = CacheAgreement
  import R = RequestsInFlight
  import Lifecycle

  /** Two releases of one product of the catalog. */
  predicate Rivals(c: Server, rel: Release, rel': Release) {
    && c.ttl >= 0 && rel.product in c.products && rel.product != ""
    && rel'.product == rel.product && rel'.version != rel.version
  }

  function First(rel: Release): Table {
    map[KeyOf(rel) := NewRow(rel, 0)]
  }

  function Both(rel: Release, rel': Release): Table {
    map[KeyOf(rel) := DemotedRow(NewRow(rel, 0), 0, 0), KeyOf(rel') := NewRow(rel', 0)]
  }

  lemma Published(c: Server, rel: Release, rel': Release)
    requires Rivals(c, rel, rel')
    ensures Publish(c.products.Keys, map[], rel, 0, 0) == Ok(First(rel))
    ensures Publish(c.products.Keys, First(rel), rel', 0, 0) == Ok(Both(rel, rel'))
  {
    Lifecycle.FirstPublish(c.products.Keys, rel);
    Lifecycle.SecondPublish(c.products.Keys, KeyOf(rel), NewRow(rel, 0), rel');
  }

  lemma FirstAnswer(c: Server, rel: Release, rel': Release)
    requires Rivals(c, rel, rel')
    ensures WellFormed(First(rel))
    ensures Queried(c.products, First(rel), rel.product) == Ok(ManifestOf(c.products, First(rel), KeyOf(rel)))
  {
    Published(c, rel, rel');
    PublishKeepsWellFormed(c.products.Keys, map[], rel, 0, 0, First(rel));
    R.PublishedAnswer(c, map[], rel, 0, 0, First(rel));
  }

  lemma BothAnswer(c: Server, rel: Release, rel': Release)
    requires Rivals(c, rel, rel')
    ensures Queried(c.products, Both(rel, rel'), rel.product) == Ok(ManifestOf(c.products, Both(rel, rel'), KeyOf(rel')))
  {
    FirstAnswer(c, rel, rel');
    Published(c, rel, rel');
    R.PublishedAnswer(c, First(rel), rel', 0, 0, Both(rel, rel'));
  }

  // A rollback

  lemma ExtendActs(c: Server, xs: seq<A.Timed>, act: A.Act, s: A.Site, s': A.Site)
    requires (forall i :: 0 <= i < |xs| ==> xs[i].at == 0) && A.Unspoilt(c, xs) && s == A.After(c, xs)
    requires !A.Spoils(c, s, A.Timed(0, act)) && s' == A.Next(c, s, A.Timed(0, act))
    ensures var more := xs + [A.Timed(0, act)];
            (forall i :: 0 <= i < |more| ==> more[i].at == 0) && A.Unspoilt(c, more) && A.After(c, more) == s'
  {
    var more := xs + [A.Timed(0, act)];
    assert more[..|xs|] == xs;
    forall i | 0 <= i < |more|
      ensures !A.Spoils(c, A.After(c, more[..i]), more[i])
    {
      if i < |xs| {
        assert more[..i] == xs[..i] && more[i] == xs[i];
      }
    }
  }

  /** Two syncs and a request, and then a rollback to the first version spoils the agreement. */
  lemma RollBackRun(c: Server, rel: Release, rel': Release) returns (xs: seq<A.Timed>)
    requires Rivals(c, rel, rel')
    ensures A.InOrder(xs) && A.Unspoilt(c, xs) && A.Agrees(c, A.After(c, xs), 0)
    ensures A.Spoils(c, A.After(c, xs), A.Timed(0, A.RollBack(KeyOf(rel), 0)))
  {
    var p, t := rel.product, Both(rel, rel');
    var m := ManifestOf(c.products, t, KeyOf(rel'));
    Published(c, rel, rel');
    BothAnswer(c, rel, rel');
    xs := [];
    ExtendActs(c, xs, A.Sync(rel, 0), A.Site(map[], map[]), A.Site(First(rel), map[]));
    xs := xs + [A.Timed(0, A.Sync(rel, 0))];
    ExtendActs(c, xs, A.Sync(rel', 0), A.Site(First(rel), map[]), A.Site(t, map[]));
    xs := xs + [A.Timed(0, A.Sync(rel', 0))];
    ExtendActs(c, xs, A.Ask(p), A.Site(t, map[]), A.Site(t, map[p := Entry(m, 0)]));
    xs := xs + [A.Timed(0, A.Ask(p))];
    A.RunAgrees(c, xs, 0);
  }

  // A fill

  lemma ExtendMoments(c: Server, ms: seq<Moment>, e: Event, w: World, w': World)
    requires (forall i :: 0 <= i < |ms| ==> ms[i].at == 0) && R.Unspoilt(c, ms) && w == After(c, ms)
    requires !R.Spoils(c, w, Moment(0, e)) && w' == Step(c, w, Moment(0, e))
    ensures var more := ms + [Moment(0, e)];
            (forall i :: 0 <= i < |more| ==> more[i].at == 0) && R.Unspoilt(c, more) && After(c, more) == w'
  {
    var more := ms + [Moment(0, e)];
    assert more[..|ms|] == ms;
    forall i | 0 <= i < |more|
      ensures !R.Spoils(c, After(c, more[..i]), more[i])
    {
      if i < |ms| {
        assert more[..i] == ms[..i] && more[i] == ms[i];
      }
    }
  }

  /** A request that has read the first version is still to fill the cache; the second one has been published
      and the cache invalidated. */
  lemma FillRun(c: Server, rel: Release, rel': Release) returns (ms: seq<Moment>)
    requires Rivals(c, rel, rel')
    ensures R.InOrder(ms) && R.Unspoilt(c, ms) && R.Spoils(c, After(c, ms), Moment(0, Fill(0)))
  {
    ms := ReadRun(c, rel, rel');
    var p, m := rel.product, ManifestOf(c.products, First(rel), KeyOf(rel));
    var w := World(First(rel), map[], map[0 := HasRead(p, m, 0)]);
    Published(c, rel, rel');
    BothAnswer(c, rel, rel');
    var write := Write(Lifecycle.PublishEvent(rel', 0, 0));
    ExtendMoments(c, ms, write, w, w.(rows := Both(rel, rel')));
    ms := ms + [Moment(0, write)];
    ExtendMoments(c, ms, Forget(p), w.(rows := Both(rel, rel')), w.(rows := Both(rel, rel')));
    ms := ms + [Moment(0, Forget(p))];
  }

  /** All at time 0, without spoiling, to a world. */
  ghost predicate Leads(c: Server, ms: seq<Moment>, w: World) {
    (forall i :: 0 <= i < |ms| ==> ms[i].at == 0) && R.Unspoilt(c, ms) && After(c, ms) == w
  }

  lemma ArrivedRun(c: Server, rel: Release, rel': Release) returns (ms: seq<Moment>)
    requires Rivals(c, rel, rel')
    ensures Leads(c, ms, World(First(rel), map[], map[0 := Missed(rel.product)]))
  {
    var w, write := World(First(rel), map[], map[]), Write(Lifecycle.PublishEvent(rel, 0, 0));
    Published(c, rel, rel');
    ExtendMoments(c, [], write, World(map[], map[], map[]), w);
    var e := Arrive(0, rel.product);
    ms := [] + [Moment(0, write)];
    ExtendMoments(c, ms, e, w, World(First(rel), map[], map[0 := Missed(rel.product)]));
    ms := ms + [Moment(0, e)];
  }

  lemma ReadRun(c: Server, rel: Release, rel': Release) returns (ms: seq<Moment>)
    requires Rivals(c, rel, rel')
    ensures Leads(c, ms, World(First(rel), map[],
                               map[0 := HasRead(rel.product, ManifestOf(c.products, First(rel), KeyOf(rel)), 0)]))
  {
    ms := ArrivedRun(c, rel, rel');
    FirstAnswer(c, rel, rel');
    ReadStep(c, rel.product, First(rel), ManifestOf(c.products, First(rel), KeyOf(rel)));
    ExtendMoments(c, ms, Read(0), World(First(rel), map[], map[0 := Missed(rel.product)]),
                  World(First(rel), map[], map[0 := HasRead(rel.product, ManifestOf(c.products, First(rel), KeyOf(rel)), 0)]));
    ms := ms + [Moment(0, Read(0))];
  }

  lemma ReadStep(c: Server, p: string, t: Table, m: Manifest)
    requires Queried(c.products, t, p) == Ok(m)
    ensures Step(c, World(t, map[], map[0 := Missed(p)]), Moment(0, Read(0))) == World(t, map[], map[0 := HasRead(p, m, 0)])
  {
    assert map[0 := Missed(p)][0 := HasRead(p, m, 0)] == map[0 := HasRead(p, m, 0)];
  }
}
