/**
 * internal/dns/cache.go: the server-side answer cache, keyed by domain,
 * holding the answer section of a reply until the stored lifetime runs out.
 */
module ServerCache {
  import opened Utils
  import opened Types
  import opened Expiry

  /** A `cacheRecord` of this cache: the answers and their expiry. */
  type CacheRecord = Entry<seq<Record>>

  /** Go's zero `cacheRecord{}`, returned on a miss; expiry 0 stands for the zero `time.Time`. */
  const NoRecord: CacheRecord := Entry([], 0)

  /** `dnsCache`; the ticker goroutine is the `Sweep` method called once per tick. */
  class DomainCache {
    var cache: Table<Bytes, CacheRecord>

    /**
     * The table is a map, and every cached record has the type of payload its
     * record type demands (each was decoded from the wire).
     */
    ghost predicate Valid()
      reads this
    {
      KeysUnique(cache) && forall i | 0 <= i < |cache| :: AllWellTyped(cache[i].1.value)
    }

    /** `NewDNSCache`: an empty cache. */
    constructor ()
      ensures Valid() && cache == []
    {
      cache := [];
    }

    /** `get`: the record stored for the domain, and whether there was one. */
    function Get(domain: Bytes): (r: (CacheRecord, bool))
      reads this
      ensures r.1 <==> domain in View(cache)
      ensures r.1 ==> r.0 == View(cache)[domain]
      ensures !r.1 ==> r.0 == NoRecord
    {
      match Utils.Get(cache, domain)
      case Some(e) => (e, true)
      case None => (NoRecord, false)
    }

    /** `set` at time `now`: the domain now holds the answers, expiring `ttl` seconds later. */
    method Set(domain: Bytes, answers: seq<Record>, ttl: int, now: int)
      requires Valid() && AllWellTyped(answers)
      modifies this
      ensures Valid()
      ensures cache == Put(old(cache), domain, Entry(answers, now + ttl))
    {
      PutKeysUnique(cache, domain, Entry(answers, now + ttl));
      cache := Put(cache, domain, Entry(answers, now + ttl));
    }

    /** One tick of `watchTtl` at `now`: delete every entry that expired before `now`. */
    method Sweep(now: int)
      requires Valid()
      modifies this
      ensures Valid()
      ensures cache == Unexpired(old(cache), now)
    {
      var swept := Expiry.Sweep(cache, now);
      UnexpiredKept(cache, now);
      cache := swept;
    }
  }

  /** After a sweep every cached answer list is still well typed. */
  lemma {:induction false} UnexpiredKept(table: Table<Bytes, CacheRecord>, now: int)
    requires forall i | 0 <= i < |table| :: AllWellTyped(table[i].1.value)
    ensures forall i | 0 <= i < |Unexpired(table, now)| :: AllWellTyped(Unexpired(table, now)[i].1.value)
  {
    if table != [] {
      UnexpiredKept(table[1..], now);
    }
  }

  /** What `get` returns from a valid cache is well typed. */
  lemma GetWellTyped(c: DomainCache, domain: Bytes)
    ensures c.Valid() ==> AllWellTyped(c.Get(domain).0.value)
  {
    if c.Valid() && c.Get(domain).1 {
      var i := ViewEntryOf(c.cache, domain);
    }
  }

  /** After `set`, `get` for the same domain returns the answers with their expiry. */
  lemma SetThenGet(c: DomainCache, before: Table<Bytes, CacheRecord>, domain: Bytes, answers: seq<Record>,
                   ttl: int, now: int)
    requires c.cache == Put(before, domain, Entry(answers, now + ttl))
    ensures c.Get(domain) == (Entry(answers, now + ttl), true)
  {
    PutView(before, domain, Entry(answers, now + ttl));
  }

  /** `set` leaves every other domain as it was. */
  lemma SetLeavesOthers(c: DomainCache, before: Table<Bytes, CacheRecord>, domain: Bytes, answers: seq<Record>,
                        ttl: int, now: int, other: Bytes)
    requires c.cache == Put(before, domain, Entry(answers, now + ttl)) && other != domain
    ensures c.Get(other) == (match Utils.Get(before, other) case Some(e) => (e, true) case None => (NoRecord, false))
  {
    PutView(before, domain, Entry(answers, now + ttl));
  }

  /**
   * After a sweep at `now`, `get` hits exactly the domains whose entries had
   * not expired before `now`, with their records.
   */
  lemma SweepThenGet(c: DomainCache, before: Table<Bytes, CacheRecord>, now: int, domain: Bytes)
    requires KeysUnique(before) && c.cache == Unexpired(before, now)
    ensures c.Get(domain).1 <==> domain in View(before) && !(View(before)[domain].expiresAt < now)
    ensures c.Get(domain).1 ==> c.Get(domain).0 == View(before)[domain]
  {
    UnexpiredView(before, now);
  }
}
