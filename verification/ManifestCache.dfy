/** The in-memory cache of product manifests, with entries that age. */
module ManifestCache {
  import opened Wrappers
  import opened VersionTable

  datatype Manifest = Manifest(product: string, editionId: string, version: string, releasedAt: Time, sha256: string,
                               sizeBytes: int, filename: string, downloadUrl: string)

  datatype Entry = Entry(manifest: Manifest, cachedAt: Time)

  type Entries = map<string, Entry>

  const DEFAULT_TTL := 60_000_000_000

  function EffectiveTtl(ttl: int): (r: int)
    ensures r > 0
  {
    if ttl <= 0 then DEFAULT_TTL else ttl
  }

  /** An entry is good until it is older than the time to live. */
  predicate Fresh(entries: Entries, ttl: int, product: string, now: Time) {
    product in entries && now - entries[product].cachedAt <= ttl
  }

  function Lookup(entries: Entries, ttl: int, product: string, now: Time): Option<Manifest> {
    if Fresh(entries, ttl, product, now) then Some(entries[product].manifest) else None
  }

  class Cache {
    const ttl: int
    var entries: Entries

    constructor (ttl: int)
      ensures this.ttl == EffectiveTtl(ttl) && entries == map[]
      // A time to live that is configured is the one in force; without one it is a minute.
      ensures this.ttl == (if ttl > 0 then ttl else 60 * 1_000_000_000)
    {
      this.ttl := EffectiveTtl(ttl);
      entries := map[];
    }

    method Get(product: string, now: Time) returns (found: Option<Manifest>)
      ensures found == Lookup(entries, ttl, product, now)
    {
      if product !in entries {
        return None;
      }
      if now - entries[product].cachedAt > ttl {
        return None;
      }
      found := Some(entries[product].manifest);
    }

    method Set(product: string, manifest: Manifest, now: Time)
      modifies this
      ensures entries == old(entries)[product := Entry(manifest, now)]
      ensures forall later :: Lookup(entries, ttl, product, later) == if later - now <= ttl then Some(manifest) else None
    {
      entries := entries[product := Entry(manifest, now)];
    }

    method Invalidate(product: string)
      modifies this
      ensures entries == old(entries) - {product}
    {
      entries := entries - {product};
    }
  }
}
