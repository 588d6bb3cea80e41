/** Serving manifests from the cache and the version table. */
module ManifestHandler {
  import opened Wrappers
  import opened VersionTable
  import opened ManifestCache
  import opened Text
  import Lifecycle

  /** What a manifest takes from the products table; the program never changes it. */
  datatype ProductInfo = ProductInfo(editionId: string, filename: string)

  type Products = map<string, ProductInfo>

  datatype HttpError = BadRequest | NoProduct | NoVersion | DatabaseFailed

  /** Which of the two queries fails, if one does. */
  datatype QueryFault = NoFault | ProductQuery | VersionQuery

  function ManifestOf(products: Products, t: Table, k: Key): Manifest
    requires k.product in products && k in t
  {
    var info, r := products[k.product], t[k];
    Manifest(k.product, info.editionId, k.version, r.releasedAt, r.sha256, r.sizeBytes, info.filename,
             "/v1/products/" + k.product + "/download")
  }

  /** What a server without a cache answers. */
  ghost function Queried(products: Products, t: Table, product: string): Result<Manifest, HttpError> {
    if product !in products then Err(NoProduct)
    else
      var c := CurrentVersion(t, product);
      if c.None? then Err(NoVersion) else Ok(ManifestOf(products, t, c.value))
  }

  /** The URL's path segments are those of the download route, around the product's own. */
  ghost predicate LeadsTo(url: string, product: string) {
    Split(url, '/') == ["", "v1", "products"] + Split(product, '/') + ["download"]
  }

  /** A manifest under a product describes that product and says where to download it. */
  ghost predicate Leads(m: Manifest, product: string) {
    m.product == product && LeadsTo(m.downloadUrl, product)
  }

  ghost predicate EntriesLead(entries: Entries) {
    forall p :: p in entries ==> Leads(entries[p].manifest, p)
  }

  lemma PathsSplit(path: string, more: string)
    ensures Split(path + "/" + more, '/') == Split(path, '/') + Split(more, '/')
  {
    assert path + "/" + more == path + ['/'] + more;
    SplitAppend(path, more, '/');
  }

  lemma SegmentsSplit(a: string, b: string, c: string)
    requires '/' !in a && '/' !in b && '/' !in c
    ensures Split(a + "/" + b + "/" + c, '/') == [a, b, c]
  {
    PathsSplit(a, b);
    PathsSplit(a + "/" + b, c);
    SplitPlain(a, '/');
    SplitPlain(b, '/');
    SplitPlain(c, '/');
  }

  lemma RouteSplits(root: string, product: string, last: string)
    requires '/' !in last
    ensures Split(root + "/" + product + "/" + last, '/') == Split(root, '/') + Split(product, '/') + [last]
  {
    PathsSplit(root, product);
    PathsSplit(root + "/" + product, last);
    SplitPlain(last, '/');
  }

  lemma DownloadUrlLeads(product: string)
    ensures LeadsTo("/v1/products/" + product + "/download", product)
  {
    SegmentsSplit("", "v1", "products");
    RouteSplits("" + "/" + "v1" + "/" + "products", product, "download");
    assert "" + "/" + "v1" + "/" + "products" + "/" == "/v1/products/";
    assert "/" + "download" == "/download";
    JoinedTwice("/v1/products/" + product, "/", "download");
  }

  lemma JoinedTwice(a: string, b: string, c: string)
    ensures a + b + c == a + (b + c)
  {
  }

  /** A product without a slash is the one wildcard segment of the route. */
  lemma LeadsToOneSegment(url: string, product: string)
    requires LeadsTo(url, product) && '/' !in product
    ensures Split(url, '/') == ["", "v1", "products", product, "download"]
  {
    SplitPlain(product, '/');
  }

  lemma QueriedIs(products: Products, t: Table, k: Key)
    requires WellFormed(t) && Serves(t, k) && k.product in products
    ensures Queried(products, t, k.product) == Ok(ManifestOf(products, t, k))
    ensures var m := ManifestOf(products, t, k);
            && m.product == k.product && m.version == k.version
            && m.editionId == products[k.product].editionId && m.filename == products[k.product].filename
            && m.releasedAt == t[k].releasedAt && m.sha256 == t[k].sha256 && m.sizeBytes == t[k].sizeBytes
            && LeadsTo(m.downloadUrl, k.product)
  {
    DownloadUrlLeads(k.product);
  }

  /** One request served without interruption; the clock is read when looking up and when filling. */
  method ServeHTTP(products: Products, database: VersionStore, cache: Cache, product: string, lookedAt: Time,
                   filledAt: Time, fault: QueryFault)
    returns (r: Result<Manifest, HttpError>)
    requires WellFormed(database.rows)
    modifies cache
    ensures product == "" ==> r == Err(BadRequest)
    ensures product != "" && old(Fresh(cache.entries, cache.ttl, product, lookedAt)) ==>
              r == Ok(old(cache.entries)[product].manifest) && cache.entries == old(cache.entries)
    ensures product != "" && !old(Fresh(cache.entries, cache.ttl, product, lookedAt)) && r != Err(DatabaseFailed) ==>
              r == Queried(products, database.rows, product)
    ensures r == Err(DatabaseFailed) ==> !fault.NoFault?
    ensures cache.entries == if r.Ok? && !old(Fresh(cache.entries, cache.ttl, product, lookedAt))
                             then old(cache.entries)[product := Entry(r.value, filledAt)] else old(cache.entries)
    // An answer is the product's own and leads to its download, from the database and from such a cache alike.
    ensures r.Ok? && !old(Fresh(cache.entries, cache.ttl, product, lookedAt)) ==> Leads(r.value, product)
    ensures old(EntriesLead(cache.entries)) ==> EntriesLead(cache.entries) && (r.Ok? ==> Leads(r.value, product))
  {
    if product == "" {
      return Err(BadRequest);
    }
    var found := cache.Get(product, lookedAt);
    if found.Some? {
      return Ok(found.value);
    }
    if fault.ProductQuery? {
      return Err(DatabaseFailed);
    }
    if product !in products {
      return Err(NoProduct);
    }
    if fault.VersionQuery? {
      return Err(DatabaseFailed);
    }
    var current := database.GetCurrentVersion(product);
    if current.None? {
      return Err(NoVersion);
    }
    QueriedIs(products, database.rows, current.value);
    var manifest := ManifestOf(products, database.rows, current.value);
    cache.Set(product, manifest, filledAt);
    r := Ok(manifest);
  }

  // Requests in flight among row updates

  /** A request that missed the cache, and one that has read the row and is about to fill the cache. */
  datatype Request = Missed(product: string) | HasRead(product: string, manifest: Manifest, readAt: Time)

  datatype World = World(rows: Table, entries: Entries, requests: map<nat, Request>)

  /** Write is any row update; Forget is the callback that follows a publication, as a step of its own. */
  datatype Event =
    | Write(update: Lifecycle.Event)
    | Forget(product: string)
    | Arrive(id: nat, product: string)
    | Read(id: nat)
    | Fill(id: nat)

  datatype Moment = Moment(at: Time, event: Event)

  datatype Server = Server(products: Products, ttl: int)

  predicate Reading(w: World, id: nat) {
    id in w.requests && w.requests[id].Missed?
  }

  predicate Filling(w: World, id: nat) {
    id in w.requests && w.requests[id].HasRead?
  }

  ghost function Step(c: Server, w: World, m: Moment): World {
    match m.event
    case Write(x) => w.(rows := Lifecycle.Apply(c.products.Keys, w.rows, x))
    case Forget(p) => w.(entries := w.entries - {p})
    case Arrive(id, p) =>
      if id in w.requests || p == "" || Fresh(w.entries, c.ttl, p, m.at) then w
      else w.(requests := w.requests[id := Missed(p)])
    case Read(id) =>
      if !Reading(w, id) then w
      else
        var p := w.requests[id].product;
        var q := Queried(c.products, w.rows, p);
        w.(requests := if q.Ok? then w.requests[id := HasRead(p, q.value, m.at)] else w.requests - {id})
    case Fill(id) =>
      if !Filling(w, id) then w
      else
        var r := w.requests[id];
        w.(entries := w.entries[r.product := Entry(r.manifest, m.at)], requests := w.requests - {id})
  }

  /** The manifest a client gets in a step, if one does. */
  function Served(c: Server, w: World, m: Moment): Option<Manifest> {
    match m.event
    case Arrive(id, p) => if p == "" then None else Lookup(w.entries, c.ttl, p, m.at)
    case Fill(id) => if Filling(w, id) then Some(w.requests[id].manifest) else None
    case _ => None
  }

  lemma PutAndTaken<K, V>(m: map<K, V>, k: K, v: V, v': V)
    requires k !in m
    ensures m[k := v] - {k} == m && m[k := v][k := v'] == m[k := v']
  {
  }

  /** A request whose steps follow each other does what serving it without interruption does: a fresh entry is
      the answer, else what the database says, which is then cached; without a product there is none. */
  lemma StepsServe(c: Server, w: World, id: nat, p: string, lookedAt: Time, readAt: Time, filledAt: Time)
    requires id !in w.requests
    ensures var arrive := Moment(lookedAt, Arrive(id, p));
            if p == "" then Served(c, w, arrive) == None && Step(c, w, arrive) == w
            else if Fresh(w.entries, c.ttl, p, lookedAt) then
              Served(c, w, arrive) == Some(w.entries[p].manifest) && Step(c, w, arrive) == w
            else
              var hasRead := Step(c, Step(c, w, arrive), Moment(readAt, Read(id)));
              && Served(c, w, arrive) == None
              && match Queried(c.products, w.rows, p)
                 case Err(_) => hasRead == w
                 case Ok(m) =>
                   && Served(c, hasRead, Moment(filledAt, Fill(id))) == Some(m)
                   && Step(c, hasRead, Moment(filledAt, Fill(id))) == w.(entries := w.entries[p := Entry(m, filledAt)])
  {
    if p != "" && !Fresh(w.entries, c.ttl, p, lookedAt) {
      var missed := Step(c, w, Moment(lookedAt, Arrive(id, p)));
      assert missed == w.(requests := w.requests[id := Missed(p)]);
      var q := Queried(c.products, w.rows, p);
      if q.Ok? {
        PutAndTaken(w.requests, id, Missed(p), HasRead(p, q.value, readAt));
        PutAndTaken(w.requests, id, HasRead(p, q.value, readAt), Missed(p));
      } else {
        PutAndTaken(w.requests, id, Missed(p), Missed(p));
      }
    }
  }

  /** The callback drops the product's entry and nothing else. */
  lemma ForgetForgets(c: Server, w: World, p: string, at: Time)
    ensures var w' := Step(c, w, Moment(at, Forget(p)));
            && w'.rows == w.rows && w'.requests == w.requests && w'.entries.Keys == w.entries.Keys - {p}
            && forall q :: q in w'.entries ==> w'.entries[q] == w.entries[q]
  {
  }

  /** So with no request in between, whoever asks after a publication and its callback gets the release. */
  lemma PublishedIsServed(c: Server, w: World, rel: Release, days: int, now: Time, id: nat, readAt: Time, filledAt: Time,
                          w': World)
    requires WellFormed(w.rows) && Publish(c.products.Keys, w.rows, rel, days, now).Ok? && rel.product != ""
    requires id !in w.requests
    requires w' == Step(c, Step(c, w, Moment(now, Write(Lifecycle.PublishEvent(rel, days, now)))),
                        Moment(now, Forget(rel.product)))
    ensures var hasRead := Step(c, Step(c, w', Moment(readAt, Arrive(id, rel.product))), Moment(readAt, Read(id)));
            var served := Served(c, hasRead, Moment(filledAt, Fill(id)));
            && served.Some? && served.value.product == rel.product && served.value.version == rel.version
            && served.value.sha256 == rel.sha256 && served.value.sizeBytes == rel.sizeBytes
  {
    Lifecycle.PublishServesRelease(c.products.Keys, w.rows, rel, days, now, w'.rows);
    PublishKeepsWellFormed(c.products.Keys, w.rows, rel, days, now, w'.rows);
    QueriedIs(c.products, w'.rows, KeyOf(rel));
    StepsServe(c, w', id, rel.product, readAt, readAt, filledAt);
  }

  ghost function After(c: Server, ms: seq<Moment>): World {
    if ms == [] then World(map[], map[], map[]) else Step(c, After(c, ms[..|ms| - 1]), ms[|ms| - 1])
  }

  /** The cache is filled within d of the read of the row. */
  predicate PromptFill(w: World, m: Moment, d: int) {
    m.event.Fill? && Filling(w, m.event.id) ==> m.at - w.requests[m.event.id].readAt <= d
  }

  ghost predicate Prompt(c: Server, ms: seq<Moment>, d: int) {
    forall i :: 0 <= i < |ms| ==> PromptFill(After(c, ms[..i]), ms[i], d)
  }

  /** At moment i the database's answer was this manifest. */
  ghost predicate CurrentAt(c: Server, ms: seq<Moment>, product: string, manifest: Manifest, i: nat)
    requires i < |ms|
  {
    Queried(c.products, After(c, ms[..i]).rows, product) == Ok(manifest)
  }

  /** At a moment not before start. */
  ghost predicate CurrentSince(c: Server, ms: seq<Moment>, product: string, manifest: Manifest, start: Time) {
    exists i :: 0 <= i < |ms| && start <= ms[i].at && CurrentAt(c, ms, product, manifest, i)
  }

  lemma CurrentSinceGrows(c: Server, ms: seq<Moment>, m: Moment, product: string, manifest: Manifest, start: Time, start': Time)
    requires CurrentSince(c, ms, product, manifest, start) && start' <= start
    ensures CurrentSince(c, ms + [m], product, manifest, start')
  {
    var i :| 0 <= i < |ms| && start <= ms[i].at && CurrentAt(c, ms, product, manifest, i);
    assert (ms + [m])[..i] == ms[..i];
    assert CurrentAt(c, ms + [m], product, manifest, i);
  }

  lemma {:induction false} RequestOrigin(c: Server, ms: seq<Moment>, id: nat)
    requires Filling(After(c, ms), id)
    ensures var r := After(c, ms).requests[id]; CurrentSince(c, ms, r.product, r.manifest, r.readAt)
  {
    var n := |ms| - 1;
    var w := After(c, ms[..n]);
    var r := After(c, ms).requests[id];
    assert ms == ms[..n] + [ms[n]];
    if Filling(w, id) && w.requests[id] == r {
      RequestOrigin(c, ms[..n], id);
      CurrentSinceGrows(c, ms[..n], ms[n], r.product, r.manifest, r.readAt, r.readAt);
    } else {
      assert CurrentAt(c, ms, r.product, r.manifest, n);
    }
  }

  lemma {:induction false} EntryOrigin(c: Server, ms: seq<Moment>, p: string, d: int)
    requires Prompt(c, ms, d) && p in After(c, ms).entries
    ensures var e := After(c, ms).entries[p]; CurrentSince(c, ms, p, e.manifest, e.cachedAt - d)
  {
    var n := |ms| - 1;
    var before := ms[..n];
    var w := After(c, before);
    var e := After(c, ms).entries[p];
    assert ms == before + [ms[n]];
    if p in w.entries && w.entries[p] == e {
      assert forall i :: 0 <= i < n ==> before[i] == ms[i] && before[..i] == ms[..i];
      EntryOrigin(c, before, p, d);
      CurrentSinceGrows(c, before, ms[n], p, e.manifest, e.cachedAt - d, e.cachedAt - d);
    } else {
      var id := ms[n].event.id;
      var r := w.requests[id];
      RequestOrigin(c, before, id);
      assert PromptFill(w, ms[n], d);
      CurrentSinceGrows(c, before, ms[n], p, r.manifest, r.readAt, e.cachedAt - d);
    }
  }

  /** Over every interleaving of requests, publications, rollbacks and marks, with or without invalidation:
      a manifest served at a time is of the product asked for and was the database's answer for it at some
      moment at most ttl + d before. */
  lemma BoundedStaleness(c: Server, ms: seq<Moment>, m: Moment, d: nat)
    requires c.ttl >= 0 && Prompt(c, ms, d) && PromptFill(After(c, ms), m, d) && Served(c, After(c, ms), m).Some?
    ensures var served := Served(c, After(c, ms), m).value;
            && CurrentSince(c, ms, served.product, served, m.at - c.ttl - d)
            && LeadsTo(served.downloadUrl, served.product)
            && served.product == match m.event
                                 case Arrive(_, p) => p
                                 case Fill(id) => After(c, ms).requests[id].product
  {
    var w := After(c, ms);
    match m.event
    case Arrive(_, p) =>
      var e := w.entries[p];
      EntryOrigin(c, ms, p, d);
      AnswersItsProduct(c, ms, p, e.manifest, e.cachedAt - d, m.at - c.ttl - d);
    case Fill(id) =>
      var r := w.requests[id];
      RequestOrigin(c, ms, id);
      AnswersItsProduct(c, ms, r.product, r.manifest, r.readAt, m.at - c.ttl - d);
  }

  lemma AnswersItsProduct(c: Server, ms: seq<Moment>, product: string, manifest: Manifest, start: Time, start': Time)
    requires CurrentSince(c, ms, product, manifest, start) && start' <= start
    ensures manifest.product == product && LeadsTo(manifest.downloadUrl, product)
    ensures CurrentSince(c, ms, product, manifest, start')
  {
    DownloadUrlLeads(product);
  }

  /** A request that has read the row before a publication and fills the cache after it undoes the
      invalidation: for a whole time to live the old version is served. */
  lemma FillAfterPublish(c: Server, w: World, id: nat, rel: Release, days: int, now: Time, filledAt: Time, askedAt: Time,
                         id': nat, w': World)
    requires WellFormed(w.rows) && Filling(w, id) && w.requests[id].product == rel.product && rel.product != ""
    requires w.requests[id].manifest.version != rel.version
    requires Publish(c.products.Keys, w.rows, rel, days, now).Ok?
    requires askedAt - filledAt <= c.ttl
    requires w' == Step(c, Step(c, Step(c, w, Moment(now, Write(Lifecycle.PublishEvent(rel, days, now)))),
                                Moment(now, Forget(rel.product))), Moment(filledAt, Fill(id)))
    ensures Served(c, w', Moment(askedAt, Arrive(id', rel.product))) == Some(w.requests[id].manifest)
    ensures Queried(c.products, w'.rows, rel.product) != Ok(w.requests[id].manifest)
  {
    var t' := w'.rows;
    PublishKeepsWellFormed(c.products.Keys, w.rows, rel, days, now, t');
    assert Serves(t', KeyOf(rel));
    QueriedIs(c.products, t', KeyOf(rel));
  }
}
