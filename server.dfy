/**
 * The request handling of internal/dns/server.go: decode a query, answer it
 * from the server-side cache or by resolving it, cache what was resolved,
 * and encode the reply.  Reading and writing the UDP socket and printing the
 * packets are left to the caller: a request is the bytes read, a reply the
 * bytes to write.
 */
module Server {
  import opened Utils
  import opened Types
  import opened Expiry
  import opened SerdeHeader
  import opened SerdePacket
  import opened PacketRoundTrip
  import opened Resolver
  import opened ServerCache

  /**
   * `lookupCache`: the reply built from the answers cached for the first
   * question's domain, or the zero packet and `false`.  The reply echoes the
   * id, the recursion-desired flag, the question count and the questions,
   * and claims recursion available; its answer count is the number of
   * answers as a `uint16`.
   */
  function LookupCache(query: Packet, cache: DomainCache): (r: (Packet, bool))
    reads cache
    requires |query.questions| > 0
    ensures r.1 <==> query.questions[0].domain in View(cache.cache)
    ensures !r.1 ==> r.0 == EmptyPacket
    ensures r.1 ==> r.0.answers == View(cache.cache)[query.questions[0].domain].value
    ensures r.1 ==> r.0.questions == query.questions && r.0.authorityRecords == [] && r.0.additionalRecords == []
    ensures r.1 ==> r.0.header == EmptyHeader.(
      id := query.header.id, packetType := PacketTypeResponse,
      recursionDesired := query.header.recursionDesired, recursionAvailable := true,
      questionSectionSize := query.header.questionSectionSize,
      answerSectionSize := |r.0.answers| % 0x1_0000)
    ensures r.1 ==> (CountsMatch(r.0) <==> |query.questions| == query.header.questionSectionSize && |r.0.answers| < 0x1_0000)
    ensures cache.Valid() ==> RecordsWellTyped(r.0)
  {
    var domain := query.questions[0].domain;
    var (record, ok) := cache.Get(domain);
    if !ok then (EmptyPacket, false)
    else
      GetWellTyped(cache, domain);
      var header := Header(query.header.id, PacketTypeResponse, 0, false, false, query.header.recursionDesired,
                           true, false, false, 0, query.header.questionSectionSize, |record.value| % 0x1_0000, 0, 0);
      (Packet(header, query.questions, record.value, [], []), true)
  }

  /**
   * A cached reply to a well-formed query, with well-formed answers that fit
   * the 16-bit count, is itself well formed: when it fits in 512 bytes, the
   * client decodes exactly the packet the server built.
   */
  lemma CachedReplyRoundTrip(query: Packet, cache: DomainCache)
    requires |query.questions| > 0 && LookupCache(query, cache).1 && cache.Valid()
    requires FlagsInRange(query.header) && |query.questions| == query.header.questionSectionSize
    requires WellFormedQuestions(query.questions)
    requires WellFormedRecords(View(cache.cache)[query.questions[0].domain].value)
    requires |View(cache.cache)[query.questions[0].domain].value| < 0x1_0000
    requires MarshalPacketSpec(LookupCache(query, cache).0).Ok?
    ensures WellFormed(LookupCache(query, cache).0)
    ensures UnmarshalPacketSpec(MarshalPacketSpec(LookupCache(query, cache).0).value) == Ok(LookupCache(query, cache).0)
  {
    var reply := LookupCache(query, cache).0;
    assert FlagsInRange(reply.header);
    assert CountsMatch(reply);
    assert WellFormedRecords(reply.authorityRecords) && WellFormedRecords(reply.additionalRecords);
    assert WellFormed(reply);
    PacketRoundTrip.PacketRoundTrip(reply);
  }

  /** Once the answers are cached under the question's domain, the same question hits with them. */
  lemma RepeatedQueryHits(query: Packet, cache: DomainCache, before: Table<Bytes, CacheRecord>,
                          answers: seq<Record>, ttl: int, now: int)
    requires |query.questions| > 0
    requires cache.cache == Put(before, query.questions[0].domain, Entry(answers, now + ttl))
    ensures LookupCache(query, cache).1 && LookupCache(query, cache).0.answers == answers
  {
    SetThenGet(cache, before, query.questions[0].domain, answers, ttl, now);
  }

  /**
   * The insertion after a miss as the handler writes it: under the owner
   * and with the TTL of the first answer.  `ok` is false where the handler
   * panics on `response.Answers[0]`: a reply without answers, such as an
   * NXDOMAIN reply (see `NxDomainScenario`).
   */
  method CacheResponseAsWritten(cache: DomainCache, response: Packet, now: int) returns (ok: bool)
    requires cache.Valid() && AllWellTyped(response.answers)
    modifies cache
    ensures cache.Valid()
    ensures ok <==> response.answers != []
    ensures ok ==> cache.cache == Put(old(cache.cache), response.answers[0].domain,
                                      Entry(response.answers, now + response.answers[0].ttl))
    ensures !ok ==> cache.cache == old(cache.cache)
  {
    if |response.answers| == 0 {
      return false;
    }
    cache.Set(response.answers[0].domain, response.answers, response.answers[0].ttl, now);
    return true;
  }

  /** The insertion as intended: a reply without answers is relayed without being cached. */
  method CacheResponse(cache: DomainCache, response: Packet, now: int)
    requires cache.Valid() && AllWellTyped(response.answers)
    modifies cache
    ensures cache.Valid()
    ensures response.answers != [] ==> cache.cache == Put(old(cache.cache), response.answers[0].domain,
                                                           Entry(response.answers, now + response.answers[0].ttl))
    ensures response.answers == [] ==> cache.cache == old(cache.cache)
  {
    if |response.answers| > 0 {
      cache.Set(response.answers[0].domain, response.answers, response.answers[0].ttl, now);
    }
  }

  /** The cache after resolving: the answers of a successful lookup are inserted, if there are any. */
  function Cached(before: Table<Bytes, CacheRecord>, lookup: Result<Packet>, now: int): Table<Bytes, CacheRecord>
  {
    match lookup
    case Ok(response) =>
      if response.answers == [] then before
      else Put(before, response.answers[0].domain, Entry(response.answers, now + response.answers[0].ttl))
    case Err(_) => before
  }

  /** The reply to a lookup: its error, or the encoded packet. */
  function Reply(lookup: Result<Packet>): Result<Bytes>
    requires lookup.Ok? ==> RecordsWellTyped(lookup.value)
  {
    match lookup
    case Ok(response) => MarshalPacketSpec(response)
    case Err(e) => Err(e)
  }

  /** The miss path of `handleConnection`: resolve, cache what was resolved, encode the reply. */
  method Resolve(env: Env, cache: DomainCache, query: Packet, now: int, fuel: nat) returns (r: Result<Bytes>)
    requires Sound(env) && cache.Valid() && RecordsWellTyped(query) && |query.questions| > 0
    modifies cache
    ensures cache.Valid()
    ensures cache.cache == Cached(old(cache.cache), LookupSpec(env, query, fuel), now)
    ensures r == Reply(LookupSpec(env, query, fuel))
  {
    var resolved := Lookup(env, query, fuel);
    if resolved.Err? {
      return Err(resolved.error);
    }
    var response := resolved.value;
    ghost var before := cache.cache;
    CacheResponse(cache, response, now);
    assert cache.cache == Cached(before, resolved, now);
    r := MarshalPacket(response);
  }

  /**
   * The reply to a lookup as the handler writes it: a successful lookup
   * without answers panics on `response.Answers[0]` before anything is
   * encoded; every other lookup gets the reply of `Reply`.
   */
  function ReplyAsWritten(lookup: Result<Packet>): (r: Result<Bytes>)
    requires lookup.Ok? ==> RecordsWellTyped(lookup.value)
    ensures lookup.Ok? && lookup.value.answers == [] ==> r == Err(Panic)
    ensures !(lookup.Ok? && lookup.value.answers == []) ==> r == Reply(lookup)
  {
    match lookup
    case Ok(response) => if response.answers == [] then Err(Panic) else MarshalPacketSpec(response)
    case Err(e) => Err(e)
  }

  /** The as-written handler panics on the NXDOMAIN reply that the corrected one relays. */
  lemma NxDomainPanicsAsWritten()
    ensures ReplyAsWritten(LookupSpec(NxDomainEnv(), ConstructQuery(ScenarioName, 0x1234), 1)) == Err(Panic)
  {
    NxDomainScenario();
  }

  /** The miss path as the handler writes it, with the insertion of `CacheResponseAsWritten`. */
  method ResolveAsWritten(env: Env, cache: DomainCache, query: Packet, now: int, fuel: nat) returns (r: Result<Bytes>)
    requires Sound(env) && cache.Valid() && RecordsWellTyped(query) && |query.questions| > 0
    modifies cache
    ensures cache.Valid()
    ensures cache.cache == Cached(old(cache.cache), LookupSpec(env, query, fuel), now)
    ensures r == ReplyAsWritten(LookupSpec(env, query, fuel))
  {
    var resolved := Lookup(env, query, fuel);
    if resolved.Err? {
      return Err(resolved.error);
    }
    var response := resolved.value;
    ghost var before := cache.cache;
    var ok := CacheResponseAsWritten(cache, response, now);
    assert cache.cache == Cached(before, resolved, now);
    if !ok {
      return Err(Panic);
    }
    r := MarshalPacket(response);
  }

  /**
   * `handleConnection` after the read and before the write: decode the
   * request, answer from the cache or resolve and cache, encode the reply.
   * Every error is handed back; a request without a question panics on
   * `query.Questions[0]`, which is the only `Panic` left once replies
   * without answers are relayed uncached.
   */
  method HandleConnection(env: Env, cache: DomainCache, request: Bytes, now: int, fuel: nat) returns (r: Result<Bytes>)
    requires Sound(env) && cache.Valid()
    modifies cache
    ensures cache.Valid()
    ensures UnmarshalPacketSpec(request).Err? ==>
      r == Err(UnmarshalPacketSpec(request).error) && cache.cache == old(cache.cache)
    ensures UnmarshalPacketSpec(request).Ok? && UnmarshalPacketSpec(request).value.questions == [] ==>
      r == Err(Panic) && cache.cache == old(cache.cache)
    ensures UnmarshalPacketSpec(request).Ok? && UnmarshalPacketSpec(request).value.questions != [] &&
            old(LookupCache(UnmarshalPacketSpec(request).value, cache)).1 ==>
      r == MarshalPacketSpec(old(LookupCache(UnmarshalPacketSpec(request).value, cache)).0) &&
      cache.cache == old(cache.cache)
    ensures UnmarshalPacketSpec(request).Ok? && UnmarshalPacketSpec(request).value.questions != [] &&
            !old(LookupCache(UnmarshalPacketSpec(request).value, cache)).1 ==>
      r == Reply(LookupSpec(env, UnmarshalPacketSpec(request).value, fuel)) &&
      cache.cache == Cached(old(cache.cache), LookupSpec(env, UnmarshalPacketSpec(request).value, fuel), now)
    ensures r == Err(Panic) ==> UnmarshalPacketSpec(request).Ok? && UnmarshalPacketSpec(request).value.questions == []
  {
    var query := UnmarshalPacket(request);
    if query.Err? {
      return Err(query.error);
    }
    var q := query.value;
    if |q.questions| == 0 {
      return Err(Panic);
    }
    var (response, ok) := LookupCache(q, cache);
    if ok {
      r := MarshalPacket(response);
    } else {
      r := Resolve(env, cache, q, now, fuel);
    }
  }

  /**
   * `handleConnection` as written: as `HandleConnection`, except that a miss
   * whose lookup succeeds without answers panics on `response.Answers[0]`,
   * leaving the cache as it was.
   */
  method HandleConnectionAsWritten(env: Env, cache: DomainCache, request: Bytes, now: int, fuel: nat) returns (r: Result<Bytes>)
    requires Sound(env) && cache.Valid()
    modifies cache
    ensures cache.Valid()
    ensures UnmarshalPacketSpec(request).Err? ==>
      r == Err(UnmarshalPacketSpec(request).error) && cache.cache == old(cache.cache)
    ensures UnmarshalPacketSpec(request).Ok? && UnmarshalPacketSpec(request).value.questions == [] ==>
      r == Err(Panic) && cache.cache == old(cache.cache)
    ensures UnmarshalPacketSpec(request).Ok? && UnmarshalPacketSpec(request).value.questions != [] &&
            old(LookupCache(UnmarshalPacketSpec(request).value, cache)).1 ==>
      r == MarshalPacketSpec(old(LookupCache(UnmarshalPacketSpec(request).value, cache)).0) &&
      cache.cache == old(cache.cache)
    ensures UnmarshalPacketSpec(request).Ok? && UnmarshalPacketSpec(request).value.questions != [] &&
            !old(LookupCache(UnmarshalPacketSpec(request).value, cache)).1 ==>
      r == ReplyAsWritten(LookupSpec(env, UnmarshalPacketSpec(request).value, fuel)) &&
      cache.cache == Cached(old(cache.cache), LookupSpec(env, UnmarshalPacketSpec(request).value, fuel), now)
    ensures r == Err(Panic) ==>
      UnmarshalPacketSpec(request).Ok? &&
      (UnmarshalPacketSpec(request).value.questions == [] ||
       (!old(LookupCache(UnmarshalPacketSpec(request).value, cache)).1 &&
        LookupSpec(env, UnmarshalPacketSpec(request).value, fuel).Ok? &&
        LookupSpec(env, UnmarshalPacketSpec(request).value, fuel).value.answers == []))
  {
    var query := UnmarshalPacket(request);
    if query.Err? {
      return Err(query.error);
    }
    var q := query.value;
    if |q.questions| == 0 {
      return Err(Panic);
    }
    var (response, ok) := LookupCache(q, cache);
    if ok {
      r := MarshalPacket(response);
    } else {
      r := ResolveAsWritten(env, cache, q, now, fuel);
    }
  }
}
