/**
 * internal/dns/cache/cache.go: the resolver-side TTL cache, keyed by a
 * domain and the address of the server that answered, holding all three
 * record sections of the reply until the smallest TTL among them runs out.
 */
module TtlCache {
  import opened Utils
  import opened Types
  import opened Expiry

  /** `dnsCacheKey`: the domain and the server address in its printed form. */
  datatype CacheKey = CacheKey(domain: Bytes, source: Bytes)

  /** A `cacheRecord` of this cache. */
  type CacheRecord = Entry<PacketRecords>

  /** The records `minTtl` looks at, in order: answers, then authority, then additional. */
  function AllRecords(records: PacketRecords): seq<Record>
  {
    records.answers + records.authorityRecords + records.additionalRecords
  }

  /** The index of the first record whose TTL is the smallest. */
  function FirstMinimum(records: seq<Record>): (k: nat)
    requires records != []
    ensures k < |records|
    ensures forall j | 0 <= j < |records| :: records[k].ttl <= records[j].ttl
    ensures forall j | 0 <= j < k :: records[k].ttl < records[j].ttl
    decreases |records|
  {
    if |records| == 1 then 0
    else
      var k := FirstMinimum(records[..|records| - 1]);
      if records[|records| - 1].ttl < records[k].ttl then |records| - 1 else k
  }

  /** What `minTtl` computes: the smallest TTL of any record, or 0 when there is none. */
  function MinTtlSpec(records: PacketRecords): (r: uint32)
    ensures AllRecords(records) == [] ==> r == 0
    ensures forall i | 0 <= i < |AllRecords(records)| :: r <= AllRecords(records)[i].ttl
    ensures AllRecords(records) != [] ==>
      exists i | 0 <= i < |AllRecords(records)| :: AllRecords(records)[i].ttl == r
  {
    var all := AllRecords(records);
    if all == [] then 0
    else
      var k := FirstMinimum(all);
      // `k` is the witness of the last ensures: the record whose TTL is returned.
      assert AllRecords(records)[k].ttl == all[k].ttl;
      all[k].ttl
  }

  /** `minTtl`: concatenate the sections, then keep the smallest TTL seen in one pass. */
  method MinTtl(packetRecords: PacketRecords) returns (min: uint32)
    ensures min == MinTtlSpec(packetRecords)
  {
    var records := packetRecords.answers + packetRecords.authorityRecords + packetRecords.additionalRecords;
    if |records| == 0 {
      return 0;
    }
    min := records[0].ttl;
    assert records[..1] == [records[0]];
    for i := 1 to |records|
      invariant min == records[FirstMinimum(records[..i])].ttl
    {
      assert records[..i + 1][..i] == records[..i];
      if records[i].ttl < min {
        min := records[i].ttl;
      }
    }
    assert records[..|records|] == records;
  }

  /** `newCacheRecord` at time `now` (whole seconds). */
  function NewCacheRecord(records: PacketRecords, now: int): (r: CacheRecord)
    ensures r.value == records
    ensures AllRecords(records) == [] ==> r.expiresAt == now
    ensures forall i | 0 <= i < |AllRecords(records)| :: r.expiresAt <= now + AllRecords(records)[i].ttl
    ensures AllRecords(records) != [] ==>
      exists i | 0 <= i < |AllRecords(records)| :: r.expiresAt == now + AllRecords(records)[i].ttl
  {
    Entry(records, now + MinTtlSpec(records))
  }

  /** Go's zero `PacketRecords{}`, returned on a miss. */
  const NoRecords := PacketRecords([], [], [])

  /** `DnsCache`; the ticker goroutine is the `Sweep` method called once per tick. */
  class DnsCache {
    var cache: Table<CacheKey, CacheRecord>

    ghost predicate Valid()
      reads this
    {
      KeysUnique(cache)
    }

    /** `NewDnsCache`: an empty cache. */
    constructor ()
      ensures Valid() && cache == []
    {
      cache := [];
    }

    /** `Get`: the records stored for the domain and source, and whether there were any. */
    function Get(domain: Bytes, source: Bytes): (r: (PacketRecords, bool))
      reads this
      ensures r.1 <==> CacheKey(domain, source) in View(cache)
      ensures r.1 ==> r.0 == View(cache)[CacheKey(domain, source)].value
      ensures !r.1 ==> r.0 == NoRecords
    {
      match Utils.Get(cache, CacheKey(domain, source))
      case Some(e) => (e.value, true)
      case None => (NoRecords, false)
    }

    /** `Set` at time `now`: the key now holds the records, expiring after their smallest TTL. */
    method Set(domain: Bytes, source: Bytes, packetRecords: PacketRecords, now: int)
      requires Valid()
      modifies this
      ensures Valid()
      ensures cache == Put(old(cache), CacheKey(domain, source), NewCacheRecord(packetRecords, now))
    {
      var ttl := MinTtl(packetRecords);
      PutKeysUnique(cache, CacheKey(domain, source), Entry(packetRecords, now + ttl));
      cache := Put(cache, CacheKey(domain, source), Entry(packetRecords, now + ttl));
    }

    /** One tick of `watchTtl` at `now`: delete every entry that expired before `now`. */
    method Sweep(now: int)
      requires Valid()
      modifies this
      ensures Valid()
      ensures cache == Unexpired(old(cache), now)
    {
      cache := Expiry.Sweep(cache, now);
    }
  }

  /** After `Set`, `Get` with the same domain and source returns the stored records. */
  lemma SetThenGet(c: DnsCache, before: Table<CacheKey, CacheRecord>, domain: Bytes, source: Bytes,
                   records: PacketRecords, now: int)
    requires c.cache == Put(before, CacheKey(domain, source), NewCacheRecord(records, now))
    ensures c.Get(domain, source) == (records, true)
  {
    PutView(before, CacheKey(domain, source), NewCacheRecord(records, now));
  }

  /**
   * `Set` leaves every other key as it was; in particular the same domain
   * answered by another server is a separate entry.
   */
  lemma SetLeavesOthers(c: DnsCache, before: Table<CacheKey, CacheRecord>, domain: Bytes, source: Bytes,
                        records: PacketRecords, now: int, otherDomain: Bytes, otherSource: Bytes)
    requires c.cache == Put(before, CacheKey(domain, source), NewCacheRecord(records, now))
    requires domain != otherDomain || source != otherSource
    ensures c.Get(otherDomain, otherSource) == (match Utils.Get(before, CacheKey(otherDomain, otherSource))
                                                case Some(e) => (e.value, true)
                                                case None => (NoRecords, false))
  {
    PutView(before, CacheKey(domain, source), NewCacheRecord(records, now));
  }

  /**
   * After a sweep at `now`, `Get` hits exactly the keys whose entries had not
   * expired before `now`, with their records.
   */
  lemma SweepThenGet(c: DnsCache, before: Table<CacheKey, CacheRecord>, now: int, domain: Bytes, source: Bytes)
    requires KeysUnique(before) && c.cache == Unexpired(before, now)
    ensures c.Get(domain, source).1 <==>
      CacheKey(domain, source) in View(before) && !(View(before)[CacheKey(domain, source)].expiresAt < now)
    ensures c.Get(domain, source).1 ==> c.Get(domain, source).0 == View(before)[CacheKey(domain, source)].value
  {
    UnexpiredView(before, now);
  }
}
