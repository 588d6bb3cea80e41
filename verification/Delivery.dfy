/** What clients get: the manifest of a product describes the bytes its download opens. */
module Delivery {
  import opened Wrappers
  import opened Octets
  import opened StorageManager
  import opened VersionTable
  import opened SyncProtocol
  import opened RowsAndBytes
  import ManifestHandler

  /** After any run without harm, whatever ran at once in it: if the database answers with a manifest, and
      no sync holds the product's lock and no pass is about to mark the row, then the row's path opens, on
      whichever driver is active, to bytes with the digest and the size the manifest names. */
  lemma ManifestDescribesDownload(catalog: set<string>, sha: Bytes -> string, stores: Stores, es: seq<Event>,
                                  products: ManifestHandler.Products, p: string)
    requires Tidy(stores) && (forall i :: 0 <= i < |es| ==> ProperEvent(es[i])) && Harmless(catalog, sha, stores, es)
    requires ManifestHandler.Queried(products, After(catalog, sha, stores, es).rows, p).Ok?
    requires p !in After(catalog, sha, stores, es).syncs
    requires var m := ManifestHandler.Queried(products, After(catalog, sha, stores, es).rows, p).value;
             !Purging(After(catalog, sha, stores, es).passes, Key(p, m.version))
    ensures var s := After(catalog, sha, stores, es);
            var m := ManifestHandler.Queried(products, s.rows, p).value;
            var k := Key(p, m.version);
            && Serves(s.rows, k)
            && OpenIn(s.stores, s.rows[k].path).Ok?
            && var data := OpenIn(s.stores, s.rows[k].path).value; sha(data) == m.sha256 && |data| == m.sizeBytes
  {
    var s := After(catalog, sha, stores, es);
    var k := CurrentVersion(s.rows, p).value;
    var m := ManifestHandler.Queried(products, s.rows, p).value;
    assert k == Key(p, m.version);
    RowsMatchBytes(catalog, sha, stores, es, k);
  }
}
