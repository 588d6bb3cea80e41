/** The life of a product's versions over whole runs: the row updates refine a small abstract machine. */
module Lifecycle {
  import opened Wrappers
  import opened VersionTable

  /** The operations that change rows. A mark names the row whose id cleanup passes to the update. */
  datatype Event =
    | PublishEvent(rel: Release, days: int, now: Time)
    | RollbackEvent(key: Key, days: int, now: Time)
    | MarkEvent(key: Key)

  /** A refused operation leaves the table as it was. */
  function Apply(catalog: set<string>, t: Table, e: Event): Table {
    match e
    case PublishEvent(rel, days, now) =>
      var r := Publish(catalog, t, rel, days, now);
      if r.Ok? then r.value else t
    case RollbackEvent(k, days, now) =>
      var r := Rollback(t, k, days, now);
      if r.Ok? then r.value else t
    case MarkEvent(k) => if k in t then MarkDeleted(t, t[k].id) else t
  }

  /** The table after a run of events from the empty table. */
  function Run(catalog: set<string>, es: seq<Event>): Table {
    if es == [] then map[] else Apply(catalog, Run(catalog, es[..|es| - 1]), es[|es| - 1])
  }

  lemma ApplyKeepsWellFormed(catalog: set<string>, t: Table, e: Event, t': Table)
    requires WellFormed(t) && t' == Apply(catalog, t, e)
    ensures WellFormed(t')
  {
    match e
    case PublishEvent(rel, days, now) =>
      if Publish(catalog, t, rel, days, now).Ok? {
        PublishKeepsWellFormed(catalog, t, rel, days, now, t');
      }
    case RollbackEvent(k, days, now) =>
      if Rollback(t, k, days, now).Ok? {
        RollbackKeepsWellFormed(t, k, days, now, t');
      }
    case MarkEvent(k) =>
      if k in t {
        MarkKeepsWellFormed(t, t[k].id);
      }
  }

  lemma {:induction false} RunWellFormed(catalog: set<string>, es: seq<Event>)
    ensures WellFormed(Run(catalog, es))
  {
    if es != [] {
      RunWellFormed(catalog, es[..|es| - 1]);
      ApplyKeepsWellFormed(catalog, Run(catalog, es[..|es| - 1]), es[|es| - 1], Run(catalog, es));
    }
  }

  // One step, row by row

  /** The product an event is about. */
  function ProductOf(e: Event): string {
    match e
    case PublishEvent(rel, _, _) => rel.product
    case RollbackEvent(k, _, _) => k.product
    case MarkEvent(k) => k.product
  }

  /** What every row update leaves alone in a row. */
  predicate SameRow(r: Row, r': Row) {
    r'.id == r.id && r'.createdAt == r.createdAt && r'.releasedAt == r.releasedAt
  }

  lemma PublishFrames(catalog: set<string>, t: Table, rel: Release, days: int, now: Time, t': Table, k: Key)
    requires Publish(catalog, t, rel, days, now) == Ok(t') && k in t
    ensures k in t' && SameRow(t[k], t'[k]) && (k.product != rel.product ==> t'[k] == t[k])
  {
  }

  lemma RollbackFrames(t: Table, n: Key, days: int, now: Time, t': Table, k: Key)
    requires Rollback(t, n, days, now) == Ok(t') && k in t
    ensures k in t' && SameRow(t[k], t'[k]) && (k.product != n.product ==> t'[k] == t[k])
  {
  }

  /** No event touches the rows of another product, removes a row or changes its id and dates of origin. */
  lemma ApplyFrames(catalog: set<string>, t: Table, e: Event, k: Key)
    requires DistinctIds(t) && k in t
    ensures k in Apply(catalog, t, e) && SameRow(t[k], Apply(catalog, t, e)[k])
    ensures k.product != ProductOf(e) ==> Apply(catalog, t, e)[k] == t[k]
  {
    match e
    case PublishEvent(rel, days, now) =>
      if Publish(catalog, t, rel, days, now).Ok? {
        PublishFrames(catalog, t, rel, days, now, Apply(catalog, t, e), k);
      }
    case RollbackEvent(n, days, now) =>
      if Rollback(t, n, days, now).Ok? {
        RollbackFrames(t, n, days, now, Apply(catalog, t, e), k);
      }
    case MarkEvent(n) =>
      if n in t {
        MarkedRows(t, n);
      }
  }

  /** A row that stays superseded keeps the deadline it got when it was demoted. */
  lemma DeadlineKept(catalog: set<string>, t: Table, e: Event, k: Key)
    requires k in t && !t[k].isCurrent
    ensures k in Apply(catalog, t, e)
    ensures var r := Apply(catalog, t, e)[k];
            r.isCurrent || (r.supersededAt == t[k].supersededAt && r.cleanupDeadline == t[k].cleanupDeadline)
  {
  }

  /** Publishing the same release again, whenever and under whatever retention, changes nothing. */
  lemma PublishIdempotent(catalog: set<string>, t: Table, rel: Release, days: int, now: Time, days': int, now': Time, t': Table)
    requires Publish(catalog, t, rel, days, now) == Ok(t')
    ensures Publish(catalog, t', rel, days', now') == Ok(t')
  {
    PublishIsPromotion(catalog, t, rel, days, now);
    var n := KeyOf(rel);
    assert n in t' && t'[n] == PublishedRow(t, rel, now);
    PublishIsPromotion(catalog, t', rel, days', now');
    assert PublishedRow(t', rel, now') == t'[n];
    assert forall k :: k in t' && k.product == rel.product && t'[k].isCurrent ==> k == n;
    assert Superseded(t', rel.product, now', now' + Retention(days'))[n := t'[n]] == t';
  }

  /** A publication leaves its release as the version served. Published onto an existing version it revives
      the row, but keeps when that was released and created. */
  lemma PublishServesRelease(catalog: set<string>, t: Table, rel: Release, days: int, now: Time, t': Table)
    requires WellFormed(t) && Publish(catalog, t, rel, days, now) == Ok(t')
    ensures CurrentVersion(t', rel.product) == Some(KeyOf(rel))
    ensures var r := t'[KeyOf(rel)];
            && r.sha256 == rel.sha256 && r.sizeBytes == rel.sizeBytes && r.path == rel.path && r.backend == rel.backend
            && if KeyOf(rel) in t then SameRow(t[KeyOf(rel)], r)
               else r.releasedAt == rel.releasedAt && r.createdAt == now && r.id == rel.product + ":" + rel.version
  {
    PublishKeepsWellFormed(catalog, t, rel, days, now, t');
    CurrentVersionIs(t', KeyOf(rel));
  }

  // The abstract machine of one product

  /** The current version, the retained ones with their deadlines, and those whose files are gone. */
  datatype View = View(current: Option<string>, retained: map<string, Time>, gone: set<string>)

  const UNPUBLISHED := View(None, map[], {})

  /** The current version becomes a retained one, unless its file is gone. */
  function Retire(w: View, deadline: Time): map<string, Time> {
    if w.current.Some? && w.current.value !in w.gone then w.retained[w.current.value := deadline] else w.retained
  }

  function PublishView(w: View, v: string, deadline: Time): View {
    View(Some(v), Retire(w, deadline) - {v}, w.gone - {v})
  }

  /** Only a version whose file is still there can come back. */
  predicate CanRollBack(w: View, v: string) {
    v in w.retained || (w.current == Some(v) && v !in w.gone)
  }

  function RollbackView(w: View, v: string, deadline: Time): View {
    if CanRollBack(w, v) then View(Some(v), Retire(w, deadline) - {v}, w.gone) else w
  }

  function MarkView(w: View, v: string): View {
    if v in w.retained || w.current == Some(v) then View(w.current, w.retained - {v}, w.gone + {v}) else w
  }

  /** The row of one version agrees with the view. */
  predicate RowAgrees(t: Table, p: string, w: View, v: string) {
    var k := Key(p, v);
    && (w.current == Some(v) <==> k in t && t[k].isCurrent)
    && (v in w.gone <==> k in t && t[k].isDeleted)
    && (v in w.retained <==> k in t && !t[k].isCurrent && !t[k].isDeleted)
    && (v in w.retained ==> t[k].cleanupDeadline == Some(w.retained[v]))
  }

  ghost predicate Represents(t: Table, p: string, w: View) {
    forall v :: RowAgrees(t, p, w, v)
  }

  lemma PublishRefines(catalog: set<string>, t: Table, rel: Release, days: int, now: Time, t': Table, w: View)
    requires Represents(t, rel.product, w) && Publish(catalog, t, rel, days, now) == Ok(t')
    ensures Represents(t', rel.product, PublishView(w, rel.version, now + Retention(days)))
  {
    var p, deadline := rel.product, now + Retention(days);
    var w' := PublishView(w, rel.version, deadline);
    PublishIsPromotion(catalog, t, rel, days, now);
    forall v
      ensures RowAgrees(t', p, w', v)
    {
      assert RowAgrees(t, p, w, v);
      if w.current.Some? {
        assert RowAgrees(t, p, w, w.current.value);
      }
    }
  }

  lemma RollbackRefines(t: Table, n: Key, days: int, now: Time, w: View)
    requires Represents(t, n.product, w)
    ensures Rollback(t, n, days, now).Ok? <==> CanRollBack(w, n.version)
    ensures Rollback(t, n, days, now).Ok? ==>
              Represents(Rollback(t, n, days, now).value, n.product, RollbackView(w, n.version, now + Retention(days)))
  {
    var p, deadline := n.product, now + Retention(days);
    assert n == Key(n.product, n.version);
    assert RowAgrees(t, p, w, n.version);
    if Rollback(t, n, days, now).Ok? {
      var t', w' := Rollback(t, n, days, now).value, RollbackView(w, n.version, deadline);
      RollbackIsPromotion(t, n, days, now);
      forall v
        ensures RowAgrees(t', p, w', v)
      {
        assert RowAgrees(t, p, w, v);
        if w.current.Some? {
          assert RowAgrees(t, p, w, w.current.value);
        }
      }
    }
  }

  lemma MarkRefines(t: Table, k: Key, w: View)
    requires DistinctIds(t) && Represents(t, k.product, w)
    ensures Represents(if k in t then MarkDeleted(t, t[k].id) else t, k.product, MarkView(w, k.version))
  {
    var t' := if k in t then MarkDeleted(t, t[k].id) else t;
    var w' := MarkView(w, k.version);
    assert k == Key(k.product, k.version);
    assert RowAgrees(t, k.product, w, k.version);
    if k in t {
      MarkedRows(t, k);
    }
    forall v
      ensures RowAgrees(t', k.product, w', v)
    {
      assert RowAgrees(t, k.product, w, v);
    }
  }

  /** A publication is accepted if the product is known and no other version published before spells the
      same id. */
  predicate Accepts(catalog: set<string>, versions: set<Key>, k: Key) {
    k.product in catalog && (k in versions || forall k' :: k' in versions ==> IdOf(k') != IdOf(k))
  }

  function NextVersions(catalog: set<string>, versions: set<Key>, e: Event): set<Key> {
    if e.PublishEvent? && Accepts(catalog, versions, KeyOf(e.rel)) then versions + {KeyOf(e.rel)} else versions
  }

  /** The versions published so far, told from the events alone. */
  function Versions(catalog: set<string>, es: seq<Event>): set<Key> {
    if es == [] then {} else NextVersions(catalog, Versions(catalog, es[..|es| - 1]), es[|es| - 1])
  }

  /** The abstract machine of product p over the same run. It never sees the table. */
  function AbstractRun(catalog: set<string>, es: seq<Event>, p: string): View {
    if es == [] then UNPUBLISHED
    else
      var before := es[..|es| - 1];
      var e := es[|es| - 1];
      AbstractStep(e, Accepted(catalog, Versions(catalog, before), e), p, AbstractRun(catalog, before, p))
  }

  predicate Accepted(catalog: set<string>, versions: set<Key>, e: Event) {
    e.PublishEvent? && Accepts(catalog, versions, KeyOf(e.rel))
  }

  function AbstractStep(e: Event, accepted: bool, p: string, w: View): View {
    if ProductOf(e) != p then w
    else
      match e
      case PublishEvent(rel, days, now) => if accepted then PublishView(w, rel.version, now + Retention(days)) else w
      case RollbackEvent(k, days, now) => RollbackView(w, k.version, now + Retention(days))
      case MarkEvent(k) => MarkView(w, k.version)
  }

  /** The primary key of every row spells its product and version. */
  ghost predicate IdsSpelled(t: Table) {
    forall k :: k in t ==> t[k].id == IdOf(k)
  }

  lemma AcceptsIs(catalog: set<string>, t: Table, rel: Release, days: int, now: Time)
    requires IdsSpelled(t)
    ensures Accepts(catalog, t.Keys, KeyOf(rel)) <==> Publish(catalog, t, rel, days, now).Ok?
  {
    if k' :| k' in t && t[k'].id == IdOf(KeyOf(rel)) {
      assert IdOf(k') == IdOf(KeyOf(rel));
    }
  }

  lemma PublishSpells(catalog: set<string>, t: Table, rel: Release, days: int, now: Time, t': Table)
    requires IdsSpelled(t) && Publish(catalog, t, rel, days, now) == Ok(t')
    ensures IdsSpelled(t') && t'.Keys == t.Keys + {KeyOf(rel)}
  {
  }

  lemma RollbackSpells(t: Table, n: Key, days: int, now: Time, t': Table)
    requires IdsSpelled(t) && Rollback(t, n, days, now) == Ok(t')
    ensures IdsSpelled(t') && t'.Keys == t.Keys
  {
  }

  lemma ApplySpells(catalog: set<string>, t: Table, e: Event, t': Table)
    requires IdsSpelled(t) && t' == Apply(catalog, t, e)
    ensures IdsSpelled(t') && t'.Keys == NextVersions(catalog, t.Keys, e)
  {
    match e
    case PublishEvent(rel, days, now) =>
      AcceptsIs(catalog, t, rel, days, now);
      if Publish(catalog, t, rel, days, now).Ok? {
        PublishSpells(catalog, t, rel, days, now, t');
      }
    case RollbackEvent(k, days, now) =>
      if Rollback(t, k, days, now).Ok? {
        RollbackSpells(t, k, days, now, t');
      }
    case MarkEvent(k) =>
  }

  /** In every reachable table the rows are those of the versions published so far, under ids that spell them. */
  lemma {:induction false} RunSpells(catalog: set<string>, es: seq<Event>)
    ensures IdsSpelled(Run(catalog, es)) && Run(catalog, es).Keys == Versions(catalog, es)
  {
    if es != [] {
      var before := es[..|es| - 1];
      RunSpells(catalog, before);
      ApplySpells(catalog, Run(catalog, before), es[|es| - 1], Run(catalog, es));
    }
  }

  lemma {:induction false} VersionsInCatalog(catalog: set<string>, es: seq<Event>)
    ensures forall k :: k in Versions(catalog, es) ==> k.product in catalog
  {
    if es != [] {
      VersionsInCatalog(catalog, es[..|es| - 1]);
    }
  }

  /** In a catalog whose ids hold no colon, ids never clash: every publication of a known product is accepted. */
  lemma ColonFreeAccepts(catalog: set<string>, es: seq<Event>, k: Key)
    requires forall p :: p in catalog ==> ':' !in p
    ensures Accepts(catalog, Versions(catalog, es), k) <==> k.product in catalog
  {
    VersionsInCatalog(catalog, es);
    if k.product in catalog {
      forall k' | k' in Versions(catalog, es) && IdOf(k') == IdOf(k)
        ensures k' == k
      {
        IdInjective(k', k);
      }
    }
  }

  lemma OtherProductRefines(catalog: set<string>, t: Table, e: Event, p: string, w: View, t': Table)
    requires DistinctIds(t) && Represents(t, p, w) && ProductOf(e) != p && t' == Apply(catalog, t, e)
    ensures Represents(t', p, w)
  {
    forall v
      ensures RowAgrees(t', p, w, v)
    {
      assert RowAgrees(t, p, w, v);
      var k := Key(p, v);
      if k in t {
        ApplyFrames(catalog, t, e, k);
      } else {
        assert k !in t';
      }
    }
  }

  /** After every run the rows of every product are what the abstract machine says. */
  lemma {:induction false} RunRefines(catalog: set<string>, es: seq<Event>, p: string)
    ensures Represents(Run(catalog, es), p, AbstractRun(catalog, es, p))
  {
    if es == [] {
      assert forall v :: RowAgrees(map[], p, UNPUBLISHED, v);
    } else {
      var before, e := es[..|es| - 1], es[|es| - 1];
      RunRefines(catalog, before, p);
      RunWellFormed(catalog, before);
      RunSpells(catalog, before);
      TakesIfAccepted(catalog, Run(catalog, before), e);
      StepRefines(catalog, Run(catalog, before), e, p, AbstractRun(catalog, before, p), Run(catalog, es));
    }
  }

  lemma TakesIfAccepted(catalog: set<string>, t: Table, e: Event)
    requires IdsSpelled(t)
    ensures Takes(catalog, t, e) <==> Accepted(catalog, t.Keys, e)
  {
    if e.PublishEvent? {
      AcceptsIs(catalog, t, e.rel, e.days, e.now);
    }
  }

  lemma PublishStepRefines(catalog: set<string>, t: Table, rel: Release, days: int, now: Time, w: View, t': Table)
    requires Represents(t, rel.product, w) && t' == Apply(catalog, t, PublishEvent(rel, days, now))
    ensures Represents(t', rel.product, if Publish(catalog, t, rel, days, now).Ok?
                                        then PublishView(w, rel.version, now + Retention(days)) else w)
  {
    if Publish(catalog, t, rel, days, now).Ok? {
      PublishRefines(catalog, t, rel, days, now, t', w);
    }
  }

  lemma RollbackStepRefines(catalog: set<string>, t: Table, k: Key, days: int, now: Time, w: View, t': Table)
    requires Represents(t, k.product, w) && t' == Apply(catalog, t, RollbackEvent(k, days, now))
    ensures Represents(t', k.product, RollbackView(w, k.version, now + Retention(days)))
  {
    RollbackRefines(t, k, days, now, w);
  }

  /** The event takes place, if it is a publication. */
  predicate Takes(catalog: set<string>, t: Table, e: Event) {
    e.PublishEvent? && Publish(catalog, t, e.rel, e.days, e.now).Ok?
  }

  lemma StepRefines(catalog: set<string>, t: Table, e: Event, p: string, w: View, t': Table)
    requires DistinctIds(t) && Represents(t, p, w) && t' == Apply(catalog, t, e)
    ensures Represents(t', p, AbstractStep(e, Takes(catalog, t, e), p, w))
  {
    if ProductOf(e) != p {
      OtherProductRefines(catalog, t, e, p, w, t');
    } else {
      match e
      case PublishEvent(rel, days, now) => PublishStepRefines(catalog, t, rel, days, now, w, t');
      case RollbackEvent(k, days, now) => RollbackStepRefines(catalog, t, k, days, now, w, t');
      case MarkEvent(k) => MarkRefines(t, k, w);
    }
  }

  /** Some publication of p took place during the run. */
  ghost predicate PublishedIn(catalog: set<string>, es: seq<Event>, p: string) {
    exists i :: 0 <= i < |es| && PublishesAt(catalog, es, p, i)
  }

  predicate PublishesAt(catalog: set<string>, es: seq<Event>, p: string, i: nat)
    requires i < |es|
  {
    es[i].PublishEvent? && es[i].rel.product == p && Accepts(catalog, Versions(catalog, es[..i]), KeyOf(es[i].rel))
  }

  /** Without colons in the catalog every publication of the product counts. */
  lemma ColonFreePublished(catalog: set<string>, es: seq<Event>, p: string)
    requires forall q :: q in catalog ==> ':' !in q
    ensures PublishedIn(catalog, es, p)
            <==> p in catalog && exists i :: 0 <= i < |es| && es[i].PublishEvent? && es[i].rel.product == p
  {
    forall i | 0 <= i < |es| && es[i].PublishEvent? && es[i].rel.product == p
      ensures PublishesAt(catalog, es, p, i) <==> p in catalog
    {
      ColonFreeAccepts(catalog, es[..i], KeyOf(es[i].rel));
    }
  }

  lemma {:induction false} AbstractPublished(catalog: set<string>, es: seq<Event>, p: string)
    ensures PublishedIn(catalog, es, p) ==> AbstractRun(catalog, es, p).current.Some?
    ensures !PublishedIn(catalog, es, p) ==> AbstractRun(catalog, es, p) == UNPUBLISHED
  {
    if es != [] {
      var n := |es| - 1;
      var before := es[..n];
      AbstractPublished(catalog, before, p);
      forall i | 0 <= i < n
        ensures PublishesAt(catalog, es, p, i) <==> PublishesAt(catalog, before, p, i)
      {
        assert before[..i] == es[..i];
      }
      if PublishedIn(catalog, before, p) {
        var i :| 0 <= i < n && PublishesAt(catalog, before, p, i);
        assert PublishesAt(catalog, es, p, i);
      } else if PublishedIn(catalog, es, p) {
        var i :| 0 <= i < |es| && PublishesAt(catalog, es, p, i);
        assert i == n;
      } else {
        assert !PublishesAt(catalog, es, p, n);
      }
    }
  }

  /** In every reachable table a product has exactly one current row once it has been published, and no
      row at all before. */
  lemma ExactlyOneCurrent(catalog: set<string>, es: seq<Event>, p: string)
    ensures PublishedIn(catalog, es, p) ==>
              exists k :: k in Run(catalog, es) && k.product == p && Run(catalog, es)[k].isCurrent
                          && forall k' :: k' in Run(catalog, es) && k'.product == p && Run(catalog, es)[k'].isCurrent ==> k' == k
    ensures !PublishedIn(catalog, es, p) ==> forall k :: k in Run(catalog, es) ==> k.product != p
  {
    var t, w := Run(catalog, es), AbstractRun(catalog, es, p);
    RunRefines(catalog, es, p);
    RunWellFormed(catalog, es);
    AbstractPublished(catalog, es, p);
    if PublishedIn(catalog, es, p) {
      assert RowAgrees(t, p, w, w.current.value);
      assert Key(p, w.current.value) in t;
    } else {
      forall k | k in t
        ensures k.product != p
      {
        assert k == Key(k.product, k.version);
        assert RowAgrees(t, p, w, k.version);
      }
    }
  }

  // Where deadlines come from

  /** The event turns the row from current to superseded. */
  predicate Demotes(t: Table, e: Event, t': Table, k: Key) {
    && !e.MarkEvent? && ProductOf(e) == k.product
    && k in t && t[k].isCurrent
    && k in t' && !t'[k].isCurrent
  }

  /** The row, as it is now, was demoted by event i: it stopped being current then, and has the event's time
      and retention. */
  ghost predicate DemotedAt(catalog: set<string>, es: seq<Event>, k: Key, r: Row, i: nat)
    requires i < |es|
  {
    && Demotes(Run(catalog, es[..i]), es[i], Run(catalog, es[..i + 1]), k)
    && r.supersededAt == Some(es[i].now)
    && r.cleanupDeadline == Some(es[i].now + Retention(es[i].days))
  }

  lemma DemotesNow(catalog: set<string>, t: Table, e: Event, k: Key, t': Table)
    requires t' == Apply(catalog, t, e) && k in t && t[k].isCurrent && k in t' && !t'[k].isCurrent
    ensures Demotes(t, e, t', k)
    ensures t'[k].supersededAt == Some(e.now) && t'[k].cleanupDeadline == Some(e.now + Retention(e.days))
  {
  }

  /** Later events leave it at that as long as they leave the row's timestamps alone. */
  lemma DemotedStill(catalog: set<string>, es: seq<Event>, e: Event, k: Key, r: Row, r': Row, i: nat)
    requires i < |es| && DemotedAt(catalog, es, k, r, i)
    requires r'.supersededAt == r.supersededAt && r'.cleanupDeadline == r.cleanupDeadline
    ensures DemotedAt(catalog, es + [e], k, r', i)
  {
    assert (es + [e])[..i] == es[..i] && (es + [e])[..i + 1] == es[..i + 1];
  }

  /** A superseded row was demoted by some event of the run, and its deadline is its superseded_at plus the
      retention of that event. */
  lemma {:induction false} DeadlineOrigin(catalog: set<string>, es: seq<Event>, k: Key)
    requires k in Run(catalog, es) && !Run(catalog, es)[k].isCurrent
    ensures exists i :: 0 <= i < |es| && DemotedAt(catalog, es, k, Run(catalog, es)[k], i)
  {
    var n := |es| - 1;
    var before, e := es[..n], es[n];
    var t, t' := Run(catalog, before), Run(catalog, es);
    assert es == before + [e];
    OnlyPublishInserts(catalog, t, e, k);
    if t[k].isCurrent {
      DemotesNow(catalog, t, e, k, t');
      assert es[..n + 1] == es;
      assert DemotedAt(catalog, es, k, t'[k], n);
    } else {
      DeadlineOrigin(catalog, before, k);
      var i :| 0 <= i < |before| && DemotedAt(catalog, before, k, t[k], i);
      DeadlineKept(catalog, t, e, k);
      DemotedStill(catalog, before, e, k, t[k], t'[k], i);
    }
  }

  /** A row that is not current after a step was there before it. */
  lemma OnlyPublishInserts(catalog: set<string>, t: Table, e: Event, k: Key)
    requires k in Apply(catalog, t, e) && !Apply(catalog, t, e)[k].isCurrent
    ensures k in t
  {
  }

  // What a mark does to serving

  /** A mark hides the product exactly when the marked row is the one being served. */
  lemma MarkHidesOnlyTheServed(t: Table, c: Key, k: Key)
    requires WellFormed(t) && Serves(t, c) && k in t
    ensures CurrentVersion(MarkDeleted(t, t[k].id), c.product) == if k == c then None else Some(c)
  {
  }

  /** Marking a row that has just been rolled back to leaves the product with a current row and nothing to
      serve, from whatever table and for whatever version. */
  lemma RollbackBeforeMarkHides(t: Table, k: Key, days: int, now: Time, t': Table)
    requires WellFormed(t) && Rollback(t, k, days, now) == Ok(t')
    ensures CurrentVersion(t', k.product) == Some(k)
    ensures CurrentVersion(MarkDeleted(t', t'[k].id), k.product) == None
  {
  }

  // When a published product always has a version to serve

  ghost predicate Known(t: Table, p: string) {
    exists k :: k in t && k.product == p
  }

  /** A product with rows has one to serve. */
  ghost predicate Available(t: Table, p: string) {
    Known(t, p) ==> CurrentVersion(t, p).Some?
  }

  /** The event marks the very row being served for the product. */
  predicate HidesServed(t: Table, e: Event, p: string) {
    e.MarkEvent? && e.key.product == p && Serves(t, e.key)
  }

  lemma ServingAvailable(t: Table, k: Key)
    requires Serves(t, k)
    ensures Available(t, k.product)
  {
  }

  lemma OthersStayAvailable(catalog: set<string>, t: Table, e: Event, p: string, t': Table)
    requires WellFormed(t) && t' == Apply(catalog, t, e) && ProductOf(e) != p && Available(t, p)
    ensures Available(t', p)
  {
    if k :| k in t' && k.product == p {
      OthersBefore(catalog, t, e, k);
      var c := CurrentVersion(t, p).value;
      ApplyFrames(catalog, t, e, c);
      ServingAvailable(t', c);
    }
  }

  lemma OthersBefore(catalog: set<string>, t: Table, e: Event, k: Key)
    requires k in Apply(catalog, t, e) && k.product != ProductOf(e)
    ensures k in t
  {
  }

  lemma MarkStaysAvailable(t: Table, k: Key)
    requires WellFormed(t) && k in t && Available(t, k.product)
    ensures Available(MarkDeleted(t, t[k].id), k.product) <==> !Serves(t, k)
  {
    var c := CurrentVersion(t, k.product).value;
    assert Known(t, k.product) && Known(MarkDeleted(t, t[k].id), k.product);
    MarkHidesOnlyTheServed(t, c, k);
  }

  /** One row update, from any well-formed table. */
  lemma AvailableStep(catalog: set<string>, t: Table, e: Event, p: string, t': Table)
    requires WellFormed(t) && t' == Apply(catalog, t, e) && Available(t, p)
    ensures Available(t', p) <==> !HidesServed(t, e, p)
  {
    if ProductOf(e) != p {
      OthersStayAvailable(catalog, t, e, p, t');
    } else {
      match e
      case PublishEvent(rel, days, now) =>
        if Publish(catalog, t, rel, days, now).Ok? {
          PublishServesRelease(catalog, t, rel, days, now, t');
        }
      case RollbackEvent(k, days, now) =>
        if Rollback(t, k, days, now).Ok? {
          RollbackBeforeMarkHides(t, k, days, now, t');
        }
      case MarkEvent(k) =>
        if k in t {
          MarkStaysAvailable(t, k);
        }
    }
  }

  lemma KnownIsPublished(catalog: set<string>, es: seq<Event>, p: string)
    ensures Known(Run(catalog, es), p) <==> PublishedIn(catalog, es, p)
  {
    ExactlyOneCurrent(catalog, es, p);
  }

  /** At every moment of the run after the product's first publication it has a version to serve. */
  ghost predicate AlwaysServed(catalog: set<string>, es: seq<Event>, p: string) {
    forall n :: 0 <= n <= |es| ==> ServedAt(catalog, es[..n], p)
  }

  ghost predicate ServedAt(catalog: set<string>, es: seq<Event>, p: string) {
    PublishedIn(catalog, es, p) ==> CurrentVersion(Run(catalog, es), p).Some?
  }

  lemma ServedIsAvailable(catalog: set<string>, es: seq<Event>, p: string)
    ensures ServedAt(catalog, es, p) <==> Available(Run(catalog, es), p)
  {
    KnownIsPublished(catalog, es, p);
  }

  /** No mark of the run hit the row being served for the product at that moment. */
  ghost predicate NeverHidden(catalog: set<string>, es: seq<Event>, p: string) {
    forall i :: 0 <= i < |es| ==> !HidesServed(Run(catalog, es[..i]), es[i], p)
  }

  lemma {:induction false} UnhiddenAvailable(catalog: set<string>, es: seq<Event>, p: string)
    requires NeverHidden(catalog, es, p)
    ensures Available(Run(catalog, es), p)
  {
    if es != [] {
      var n := |es| - 1;
      var before := es[..n];
      assert forall i :: 0 <= i < n ==> before[i] == es[i] && before[..i] == es[..i];
      UnhiddenAvailable(catalog, before, p);
      RunWellFormed(catalog, before);
      AvailableStep(catalog, Run(catalog, before), es[n], p, Run(catalog, es));
    }
  }

  /** A published product always has a version to serve if and only if no mark ever hits the served row. */
  lemma AlwaysServedExactly(catalog: set<string>, es: seq<Event>, p: string)
    ensures AlwaysServed(catalog, es, p) <==> NeverHidden(catalog, es, p)
  {
    if NeverHidden(catalog, es, p) {
      forall n | 0 <= n <= |es|
        ensures ServedAt(catalog, es[..n], p)
      {
        assert forall i :: 0 <= i < n ==> es[..n][..i] == es[..i];
        UnhiddenAvailable(catalog, es[..n], p);
        ServedIsAvailable(catalog, es[..n], p);
      }
    }
    if AlwaysServed(catalog, es, p) {
      forall i | 0 <= i < |es|
        ensures !HidesServed(Run(catalog, es[..i]), es[i], p)
      {
        assert ServedAt(catalog, es[..i], p) && ServedAt(catalog, es[..i + 1], p);
        assert es[..i + 1][..i] == es[..i];
        ServedIsAvailable(catalog, es[..i], p);
        ServedIsAvailable(catalog, es[..i + 1], p);
        RunWellFormed(catalog, es[..i]);
        AvailableStep(catalog, Run(catalog, es[..i]), es[i], p, Run(catalog, es[..i + 1]));
      }
    }
  }

  // The first two publications of a product

  lemma FirstPublish(catalog: set<string>, rel: Release)
    requires rel.product in catalog
    ensures Publish(catalog, map[], rel, 0, 0) == Ok(map[KeyOf(rel) := NewRow(rel, 0)])
  {
  }

  lemma IdsApart(p: string, v: string, v': string)
    requires v != v'
    ensures IdOf(Key(p, v)) != IdOf(Key(p, v'))
  {
    assert IdOf(Key(p, v))[|p| + 1..] == v && IdOf(Key(p, v'))[|p| + 1..] == v';
  }

  lemma SecondPublish(catalog: set<string>, k: Key, r: Row, rel: Release)
    requires rel.product in catalog && k.product == rel.product && k.version != rel.version
    requires r.isCurrent && !r.isDeleted && r.id == IdOf(k)
    ensures Publish(catalog, map[k := r], rel, 0, 0) == Ok(map[k := DemotedRow(r, 0, 0), KeyOf(rel) := NewRow(rel, 0)])
    ensures Expired(map[k := DemotedRow(r, 0, 0), KeyOf(rel) := NewRow(rel, 0)], 0) == {k}
  {
    IdsApart(rel.product, k.version, rel.version);
    assert k == Key(rel.product, k.version) && KeyOf(rel) == Key(rel.product, rel.version);
    assert Retention(0) == 0;
    var t := map[k := r];
    assert Superseded(t, rel.product, 0, 0) == map[k := DemotedRow(r, 0, 0)];
  }
}
