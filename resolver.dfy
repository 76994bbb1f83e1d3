/**
 * The iterative resolver of internal/dns/dns.go: starting at a root server,
 * follow referrals (NS records, with or without glue) and CNAME records
 * until a server answers, as in section 5.3.3 of RFC 1034.
 */
module Resolver {
  import opened Utils
  import opened Types
  import opened Reader
  import opened SerdeHeader
  import opened SerdePacket
  import opened NameCompression
  import opened PacketRoundTrip

  /** The IPv4 addresses of the thirteen root servers, a to m. */
  const RootServers: seq<Bytes> := [
    [198, 41, 0, 4], [170, 247, 170, 2], [192, 33, 4, 12], [199, 7, 91, 13],
    [192, 203, 230, 10], [192, 5, 5, 241], [192, 112, 36, 4], [198, 97, 190, 53],
    [192, 36, 148, 17], [192, 58, 128, 30], [193, 0, 14, 129], [199, 7, 83, 42],
    [202, 12, 27, 33]]

  /** `rand.Intn(len(RootServers))`. */
  type RootIndex = i: int | 0 <= i < 13

  /** `uint16(rand.Intn(math.MaxUint16))`: 0 to 65534. */
  type QueryId = x: int | 0 <= x < 0xFFFF

  /**
   * What the resolver cannot compute itself: `sendQuery` (the response of
   * the server at an address to a query, or the error), and the two random
   * draws, given here as functions of the name being resolved.  Go draws
   * afresh on every call; here every lookup of one name gets the same root
   * and ID.
   */
  datatype Env = Env(
    send: (Packet, Bytes) -> Result<Packet>,
    rootIndex: Bytes -> RootIndex,
    queryId: Bytes -> QueryId)

  /** What `sendQuery` hands back: a packet as `UnmarshalPacket` builds it, or an error other than the size error. */
  predicate Decoded(r: Result<Packet>)
  {
    match r
    case Ok(p) => CountsMatch(p) && RecordsWellTyped(p)
    case Err(e) => e != InvalidPacketSize && e != Panic
  }

  /**
   * An exchange that only ever hands back what `sendQuery` can for a query
   * `MarshalPacket` accepts.
   */
  ghost predicate Sound(env: Env)
  {
    forall query: Packet, addr: Bytes | RecordsWellTyped(query) :: Decoded(env.send(query, addr))
  }

  /**
   * The 512-byte receive buffer of `sendQuery` after `conn.Read`: the reply
   * (cut at 512 bytes, as a UDP read does) followed by the zeros the buffer
   * was made with.
   */
  function Received(reply: Bytes): (r: Bytes)
    ensures |r| == MaxPacketSize
    ensures |reply| <= MaxPacketSize ==> reply <= r && forall i | |reply| <= i < |r| :: r[i] == 0
    ensures MaxPacketSize < |reply| ==> r == reply[..MaxPacketSize]
  {
    if MaxPacketSize <= |reply| then reply[..MaxPacketSize]
    else reply + seq(MaxPacketSize - |reply|, _ => 0)
  }

  /**
   * `sendQuery` over UDP: marshal the query, exchange its bytes with the
   * server (the reply, or nothing when dialing, writing or reading fails),
   * and unmarshal the whole receive buffer.  Because that buffer is always
   * 512 bytes, the size error can never come back.
   */
  function SendQuery(exchange: (Bytes, Bytes) -> Option<Bytes>, query: Packet, addr: Bytes): (r: Result<Packet>)
    requires RecordsWellTyped(query)
    ensures Decoded(r)
  {
    match MarshalPacketSpec(query)
    case Err(e) => Err(e)
    case Ok(bytes) =>
      match exchange(addr, bytes)
      case None => Err(Transport)
      case Some(reply) =>
        var buf := Received(reply);
        assert ValidPacketSize(buf);
        var r := UnmarshalPacketSpec(buf);
        assert r.Err? ==> ReadError(r.error);
        r
  }

  /** `sendQuery` as the resolver's exchange; a query whose records lack their data panics in `MarshalPacket`. */
  function Udp(exchange: (Bytes, Bytes) -> Option<Bytes>): (send: (Packet, Bytes) -> Result<Packet>)
  {
    (query: Packet, addr: Bytes) => if RecordsWellTyped(query) then SendQuery(exchange, query, addr) else Err(Panic)
  }

  /** The UDP exchange is sound for every network behaviour. */
  lemma UdpSound(exchange: (Bytes, Bytes) -> Option<Bytes>, rootIndex: Bytes -> RootIndex, queryId: Bytes -> QueryId)
    ensures Sound(Env(Udp(exchange), rootIndex, queryId))
  {
    var env := Env(Udp(exchange), rootIndex, queryId);
    forall query: Packet, addr: Bytes | RecordsWellTyped(query) ensures Decoded(env.send(query, addr)) {
      assert env.send(query, addr) == SendQuery(exchange, query, addr);
    }
  }

  /** A server that replies with the marshalled bytes of a well-formed packet is understood exactly. */
  lemma SendQueryReply(exchange: (Bytes, Bytes) -> Option<Bytes>, query: Packet, addr: Bytes, p: Packet)
    requires RecordsWellTyped(query) && MarshalPacketSpec(query).Ok?
    requires WellFormed(p) && RecordsWellTyped(p) && MarshalPacketSpec(p).Ok?
    requires exchange(addr, MarshalPacketSpec(query).value) == Some(MarshalPacketSpec(p).value)
    ensures SendQuery(exchange, query, addr) == Ok(p)
  {
    PaddedPacketRoundTrip(p, Received(MarshalPacketSpec(p).value));
  }

  /** The record searches of `Lookup`: an A record or a CNAME record of an owner, or any NS record. */
  datatype Selector = AddressOf(owner: Bytes) | CanonicalNameOf(owner: Bytes) | AnyNameServer

  predicate Selects(sel: Selector, r: Record)
  {
    match sel
    case AddressOf(owner) => r.rtype == TypeA && r.domain == owner
    case CanonicalNameOf(owner) => r.rtype == TypeCNAME && r.domain == owner
    case AnyNameServer => r.rtype == TypeNS
  }

  /** The index of the first record selected, or the length when none is. */
  function FirstMatch(records: seq<Record>, sel: Selector): (i: nat)
    ensures i <= |records|
    ensures i < |records| ==> Selects(sel, records[i])
    ensures forall j | 0 <= j < i :: !Selects(sel, records[j])
    decreases |records|
  {
    if records == [] then 0
    else if Selects(sel, records[0]) then 0
    else 1 + FirstMatch(records[1..], sel)
  }

  /** A search through two lists one after the other finds the first list's match, if it has one. */
  lemma {:induction false} FirstMatchAppend(a: seq<Record>, b: seq<Record>, sel: Selector)
    ensures FirstMatch(a + b, sel) == if FirstMatch(a, sel) < |a| then FirstMatch(a, sel) else |a| + FirstMatch(b, sel)
    decreases |a|
  {
    if a == [] {
      assert a + b == b;
    } else {
      assert (a + b)[1..] == a[1..] + b;
      if !Selects(sel, a[0]) {
        FirstMatchAppend(a[1..], b, sel);
      }
    }
  }

  /** `getIPv4(records, domain)`: the address of the first A record owned by `domain`, or nil and false. */
  method GetIPv4(records: seq<Record>, domain: Bytes) returns (ip: Bytes, ok: bool)
    requires AllWellTyped(records)
    ensures var i := FirstMatch(records, AddressOf(domain));
      ok == (i < |records|) && (if ok then ip == records[i].data.ip else ip == [])
  {
    for k := 0 to |records|
      invariant forall j | 0 <= j < k :: !Selects(AddressOf(domain), records[j])
    {
      var record := records[k];
      if record.rtype == TypeA && record.domain == domain {
        return record.data.ip, true;
      }
    }
    return [], false;
  }

  /** `getCname(records, domain)`: the target of the first CNAME record owned by `domain`, or "" and false. */
  method GetCname(records: seq<Record>, domain: Bytes) returns (name: Bytes, ok: bool)
    requires AllWellTyped(records)
    ensures var i := FirstMatch(records, CanonicalNameOf(domain));
      ok == (i < |records|) && (if ok then name == records[i].data.name else name == [])
  {
    for k := 0 to |records|
      invariant forall j | 0 <= j < k :: !Selects(CanonicalNameOf(domain), records[j])
    {
      var record := records[k];
      if record.rtype == TypeCNAME && record.domain == domain {
        return record.data.name, true;
      }
    }
    return [], false;
  }

  /** `pickNameServer(records)`: the host of the first NS record, whoever owns it, or "" and false. */
  method PickNameServer(records: seq<Record>) returns (host: Bytes, ok: bool)
    requires AllWellTyped(records)
    ensures var i := FirstMatch(records, AnyNameServer);
      ok == (i < |records|) && (if ok then host == records[i].data.name else host == [])
  {
    for k := 0 to |records|
      invariant forall j | 0 <= j < k :: !Selects(AnyNameServer, records[j])
    {
      var record := records[k];
      if record.rtype == TypeNS {
        return record.data.name, true;
      }
    }
    return [], false;
  }

  /**
   * `constructQuery(domain)`: a standard query, with every flag clear, for
   * the A record of `domain` in class IN, and nothing else.
   */
  function ConstructQuery(domain: Bytes, id: QueryId): (q: Packet)
    ensures q.header.id == id && q.header.id < 0xFFFF
    ensures q.header.packetType == PacketTypeQuery && q.header.opcode == OpcodeQuery
    ensures !q.header.authoritativeAnswer && !q.header.truncated && !q.header.recursionDesired
      && !q.header.recursionAvailable && !q.header.authenticData && !q.header.checkingDisabled
      && q.header.responseCode == 0
    ensures q.questions == [Question(domain, TypeA, ClassIN)]
    ensures q.answers == [] && q.authorityRecords == [] && q.additionalRecords == []
    ensures CountsMatch(q) && FlagsInRange(q.header) && RecordsWellTyped(q)
  {
    Packet(EmptyHeader.(id := id, packetType := PacketTypeQuery, opcode := OpcodeQuery, questionSectionSize := 1),
      [Question(domain, TypeA, ClassIN)], [], [], [])
  }

  /** A query for a valid name is well formed, so it is read back as sent whenever it fits. */
  lemma QueryRoundTrip(domain: Bytes, id: QueryId)
    requires ValidName(domain) && MarshalPacketSpec(ConstructQuery(domain, id)).Ok?
    ensures UnmarshalPacketSpec(MarshalPacketSpec(ConstructQuery(domain, id)).value) == Ok(ConstructQuery(domain, id))
  {
    var q := ConstructQuery(domain, id);
    assert WellFormedQuestions(q.questions);
    PacketRoundTrip.PacketRoundTrip(q);
  }

  /** `response.Answers` extended with the answers found for the CNAME, the answer count summed as a `uint16`. */
  function WithCnameAnswers(response: Packet, cnameResponse: Packet): (r: Packet)
    ensures r.answers == response.answers + cnameResponse.answers
    ensures r.header == response.header.(answerSectionSize := r.header.answerSectionSize)
    ensures r.questions == response.questions && r.authorityRecords == response.authorityRecords
      && r.additionalRecords == response.additionalRecords
    ensures r.header.answerSectionSize
      == (response.header.answerSectionSize + cnameResponse.header.answerSectionSize) % 0x1_0000
    ensures CountsMatch(response) && CountsMatch(cnameResponse) ==>
      (CountsMatch(r) <==> |r.answers| < 0x1_0000)
  {
    var count := (response.header.answerSectionSize + cnameResponse.header.answerSectionSize) % 0x1_0000;
    response.(header := response.header.(answerSectionSize := count),
              answers := response.answers + cnameResponse.answers)
  }

  /** What every successful resolution returns: a packet whose counts match, unless the answers overflowed. */
  predicate Consistent(p: Packet)
  {
    RecordsWellTyped(p) && (CountsMatch(p) || 0x1_0000 <= |p.answers|)
  }

  /**
   * `Lookup(query)`: resolution of the first question's name, starting at
   * the root server the random draw picks.  Every turn of the loop costs one unit
   * of `fuel`, and a nested lookup starts with what the loop that started it
   * has left, so `fuel` bounds the depth of the chain of exchanges, not their
   * number; `OutOfFuel` stands for the source's unbounded iteration.
   */
  function LookupSpec(env: Env, query: Packet, fuel: nat): (r: Result<Packet>)
    requires Sound(env) && RecordsWellTyped(query) && |query.questions| > 0
    ensures r.Ok? ==> Consistent(r.value)
    ensures r != Err(InvalidPacketSize) && r != Err(Panic)
    decreases fuel, 2
  {
    var domain := query.questions[0].domain;
    LookupFrom(env, query, domain, RootServers[env.rootIndex(domain)], fuel)
  }

  /** One turn of `Lookup`'s loop, asking the server at `addr`. */
  function LookupFrom(env: Env, query: Packet, domain: Bytes, addr: Bytes, fuel: nat): (r: Result<Packet>)
    requires Sound(env) && RecordsWellTyped(query)
    ensures r.Ok? ==> Consistent(r.value)
    ensures r != Err(InvalidPacketSize) && r != Err(Panic)
    decreases fuel, 1
  {
    if fuel == 0 then Err(OutOfFuel)
    else match env.send(query, addr)
      case Err(e) => Err(e)
      case Ok(response) =>
        assert Decoded(env.send(query, addr));
        Handle(env, query, domain, response, fuel - 1)
  }

  /**
   * What `Lookup` does with a response, in its order: an error code or an
   * A record for the name ends the search, and a CNAME is resolved in a
   * nested lookup whose answers are appended; anything else is a referral.
   */
  function Handle(env: Env, query: Packet, domain: Bytes, response: Packet, fuel: nat): (r: Result<Packet>)
    requires Sound(env) && RecordsWellTyped(query) && CountsMatch(response) && RecordsWellTyped(response)
    ensures r.Ok? ==> Consistent(r.value)
    ensures r != Err(InvalidPacketSize) && r != Err(Panic)
    decreases fuel, 4
  {
    if response.header.responseCode != ResponseCodeNoError then Ok(response)
    else if FirstMatch(response.answers, AddressOf(domain)) < |response.answers| then Ok(response)
    else
      var c := FirstMatch(response.answers, CanonicalNameOf(domain));
      if c < |response.answers| then
        var cname := response.answers[c].data.name;
        match LookupSpec(env, ConstructQuery(cname, env.queryId(cname)), fuel)
        case Err(e) => Err(e)
        case Ok(cnameResponse) => Ok(WithCnameAnswers(response, cnameResponse))
      else Refer(env, query, domain, response, fuel)
  }

  /**
   * A referral: the first NS record's host is asked next, at its glue
   * address if the additional section has one, else at the address a nested
   * lookup of the host finds; no NS record, or no address for the host, is
   * `ErrUnableToResolve`.
   */
  function Refer(env: Env, query: Packet, domain: Bytes, response: Packet, fuel: nat): (r: Result<Packet>)
    requires Sound(env) && RecordsWellTyped(query) && RecordsWellTyped(response)
    ensures r.Ok? ==> Consistent(r.value)
    ensures r != Err(InvalidPacketSize) && r != Err(Panic)
    decreases fuel, 3
  {
    var n := FirstMatch(response.authorityRecords, AnyNameServer);
    if n == |response.authorityRecords| then Err(UnableToResolve)
    else
      var host := response.authorityRecords[n].data.name;
      var g := FirstMatch(response.additionalRecords, AddressOf(host));
      if g < |response.additionalRecords| then
        LookupFrom(env, query, domain, response.additionalRecords[g].data.ip, fuel)
      else
        match LookupSpec(env, ConstructQuery(host, env.queryId(host)), fuel)
        case Err(e) => Err(e)
        case Ok(hostResponse) =>
          var a := FirstMatch(hostResponse.answers, AddressOf(host));
          if a == |hostResponse.answers| then Err(UnableToResolve)
          else LookupFrom(env, query, domain, hostResponse.answers[a].data.ip, fuel)
  }

  /**
   * More fuel never changes a resolution that did not run out: the fuel
   * bound only cuts the source's unbounded iteration off, it does not
   * alter where that iteration goes.
   */
  lemma LookupFuel(env: Env, query: Packet, fuel: nat, more: nat)
    requires Sound(env) && RecordsWellTyped(query) && |query.questions| > 0 && fuel <= more
    requires LookupSpec(env, query, fuel) != Err(OutOfFuel)
    ensures LookupSpec(env, query, more) == LookupSpec(env, query, fuel)
    decreases fuel, 2
  {
    var domain := query.questions[0].domain;
    LookupFromFuel(env, query, domain, RootServers[env.rootIndex(domain)], fuel, more);
  }

  lemma {:induction false} LookupFromFuel(env: Env, query: Packet, domain: Bytes, addr: Bytes, fuel: nat, more: nat)
    requires Sound(env) && RecordsWellTyped(query) && fuel <= more
    requires LookupFrom(env, query, domain, addr, fuel) != Err(OutOfFuel)
    ensures LookupFrom(env, query, domain, addr, more) == LookupFrom(env, query, domain, addr, fuel)
    decreases fuel, 1
  {
    match env.send(query, addr)
    case Err(_) =>
    case Ok(response) =>
      assert Decoded(env.send(query, addr));
      HandleFuel(env, query, domain, response, fuel - 1, more - 1);
  }

  lemma {:induction false} HandleFuel(env: Env, query: Packet, domain: Bytes, response: Packet, fuel: nat, more: nat)
    requires Sound(env) && RecordsWellTyped(query) && CountsMatch(response) && RecordsWellTyped(response) && fuel <= more
    requires Handle(env, query, domain, response, fuel) != Err(OutOfFuel)
    ensures Handle(env, query, domain, response, more) == Handle(env, query, domain, response, fuel)
    decreases fuel, 4
  {
    if response.header.responseCode == ResponseCodeNoError
      && FirstMatch(response.answers, AddressOf(domain)) == |response.answers|
    {
      var c := FirstMatch(response.answers, CanonicalNameOf(domain));
      if c < |response.answers| {
        var cname := response.answers[c].data.name;
        LookupFuel(env, ConstructQuery(cname, env.queryId(cname)), fuel, more);
      } else {
        ReferFuel(env, query, domain, response, fuel, more);
      }
    }
  }

  lemma {:induction false} ReferFuel(env: Env, query: Packet, domain: Bytes, response: Packet, fuel: nat, more: nat)
    requires Sound(env) && RecordsWellTyped(query) && RecordsWellTyped(response) && fuel <= more
    requires Refer(env, query, domain, response, fuel) != Err(OutOfFuel)
    ensures Refer(env, query, domain, response, more) == Refer(env, query, domain, response, fuel)
    decreases fuel, 3
  {
    var n := FirstMatch(response.authorityRecords, AnyNameServer);
    if n < |response.authorityRecords| {
      var host := response.authorityRecords[n].data.name;
      var g := FirstMatch(response.additionalRecords, AddressOf(host));
      if g < |response.additionalRecords| {
        LookupFromFuel(env, query, domain, response.additionalRecords[g].data.ip, fuel, more);
      } else {
        var hostQuery := ConstructQuery(host, env.queryId(host));
        LookupFuel(env, hostQuery, fuel, more);
        match LookupSpec(env, hostQuery, fuel)
        case Err(_) =>
        case Ok(hostResponse) =>
          var a := FirstMatch(hostResponse.answers, AddressOf(host));
          if a < |hostResponse.answers| {
            LookupFromFuel(env, query, domain, hostResponse.answers[a].data.ip, fuel, more);
          }
      }
    }
  }

  /** A response that ends the search for `domain`: an error code, or an A or CNAME record owned by it. */
  predicate Answered(p: Packet, domain: Bytes)
  {
    p.header.responseCode != ResponseCodeNoError
    || FirstMatch(p.answers, AddressOf(domain)) < |p.answers|
    || FirstMatch(p.answers, CanonicalNameOf(domain)) < |p.answers|
  }

  /** `Lookup` succeeds only with an answer for the name asked: referrals are followed, never returned. */
  lemma LookupAnswers(env: Env, query: Packet, fuel: nat)
    requires Sound(env) && RecordsWellTyped(query) && |query.questions| > 0
    ensures LookupSpec(env, query, fuel).Ok? ==> Answered(LookupSpec(env, query, fuel).value, query.questions[0].domain)
  {
    var domain := query.questions[0].domain;
    LookupFromAnswers(env, query, domain, RootServers[env.rootIndex(domain)], fuel);
  }

  lemma {:induction false} LookupFromAnswers(env: Env, query: Packet, domain: Bytes, addr: Bytes, fuel: nat)
    requires Sound(env) && RecordsWellTyped(query)
    ensures LookupFrom(env, query, domain, addr, fuel).Ok? ==> Answered(LookupFrom(env, query, domain, addr, fuel).value, domain)
    decreases fuel, 1
  {
    if fuel > 0 {
      match env.send(query, addr)
      case Err(_) =>
      case Ok(response) =>
        assert Decoded(env.send(query, addr));
        HandleAnswers(env, query, domain, response, fuel - 1);
    }
  }

  lemma {:induction false} HandleAnswers(env: Env, query: Packet, domain: Bytes, response: Packet, fuel: nat)
    requires Sound(env) && RecordsWellTyped(query) && CountsMatch(response) && RecordsWellTyped(response)
    ensures Handle(env, query, domain, response, fuel).Ok? ==> Answered(Handle(env, query, domain, response, fuel).value, domain)
    decreases fuel, 4
  {
    if response.header.responseCode == ResponseCodeNoError
      && FirstMatch(response.answers, AddressOf(domain)) == |response.answers|
    {
      var c := FirstMatch(response.answers, CanonicalNameOf(domain));
      if c < |response.answers| {
        var cname := response.answers[c].data.name;
        match LookupSpec(env, ConstructQuery(cname, env.queryId(cname)), fuel)
        case Err(_) =>
        case Ok(cnameResponse) =>
          FirstMatchAppend(response.answers, cnameResponse.answers, CanonicalNameOf(domain));
      } else {
        ReferAnswers(env, query, domain, response, fuel);
      }
    }
  }

  lemma {:induction false} ReferAnswers(env: Env, query: Packet, domain: Bytes, response: Packet, fuel: nat)
    requires Sound(env) && RecordsWellTyped(query) && RecordsWellTyped(response)
    ensures Refer(env, query, domain, response, fuel).Ok? ==> Answered(Refer(env, query, domain, response, fuel).value, domain)
    decreases fuel, 3
  {
    var n := FirstMatch(response.authorityRecords, AnyNameServer);
    if n < |response.authorityRecords| {
      var host := response.authorityRecords[n].data.name;
      var g := FirstMatch(response.additionalRecords, AddressOf(host));
      if g < |response.additionalRecords| {
        LookupFromAnswers(env, query, domain, response.additionalRecords[g].data.ip, fuel);
      } else {
        match LookupSpec(env, ConstructQuery(host, env.queryId(host)), fuel)
        case Err(_) =>
        case Ok(hostResponse) =>
          var a := FirstMatch(hostResponse.answers, AddressOf(host));
          if a < |hostResponse.answers| {
            LookupFromAnswers(env, query, domain, hostResponse.answers[a].data.ip, fuel);
          }
      }
    }
  }

  /** "a." asked of a root that refers to "ns." with glue 1.2.3.4, where the answer 5.6.7.8 comes from. */
  const ScenarioName: Bytes := [97, 46]
  const ScenarioHost: Bytes := [110, 115, 46]
  const ScenarioReferral := Packet(
    EmptyHeader.(packetType := PacketTypeResponse, authorityRecordsSectionSize := 1, additionalRecordsSectionSize := 1),
    [], [], [Record([], TypeNS, ClassIN, 3600, Name(ScenarioHost))],
    [Record(ScenarioHost, TypeA, ClassIN, 3600, Address([1, 2, 3, 4]))])
  const ScenarioAnswer := Packet(
    EmptyHeader.(packetType := PacketTypeResponse, answerSectionSize := 1),
    [], [Record(ScenarioName, TypeA, ClassIN, 300, Address([5, 6, 7, 8]))], [], [])

  function ScenarioEnv(): Env
  {
    Env((query: Packet, addr: Bytes) => if addr == [1, 2, 3, 4] then Ok(ScenarioAnswer) else Ok(ScenarioReferral),
      (domain: Bytes) => 0, (domain: Bytes) => 0x1234)
  }

  /** The referral is followed to its glue address: two exchanges give the answer, one runs out. */
  lemma ReferralScenario()
    ensures Sound(ScenarioEnv())
    ensures LookupSpec(ScenarioEnv(), ConstructQuery(ScenarioName, 0x1234), 2) == Ok(ScenarioAnswer)
    ensures LookupSpec(ScenarioEnv(), ConstructQuery(ScenarioName, 0x1234), 1) == Err(OutOfFuel)
  {
    var env := ScenarioEnv();
    forall query: Packet, addr: Bytes ensures Decoded(env.send(query, addr)) {
    }
    var query := ConstructQuery(ScenarioName, 0x1234);
    assert RootServers[env.rootIndex(ScenarioName)] == [198, 41, 0, 4];
    assert FirstMatch(ScenarioReferral.authorityRecords, AnyNameServer) == 0;
    assert FirstMatch(ScenarioReferral.additionalRecords, AddressOf(ScenarioHost)) == 0;
    assert FirstMatch(ScenarioAnswer.answers, AddressOf(ScenarioName)) == 0;
  }

  /**
   * A lookup that succeeds without any answer record is one that ended on a
   * response code other than NOERROR.
   */
  lemma EmptyAnswerHasErrorCode(env: Env, query: Packet, fuel: nat)
    requires Sound(env) && RecordsWellTyped(query) && |query.questions| > 0
    requires LookupSpec(env, query, fuel).Ok? && LookupSpec(env, query, fuel).value.answers == []
    ensures LookupSpec(env, query, fuel).value.header.responseCode != ResponseCodeNoError
  {
    LookupAnswers(env, query, fuel);
  }

  /** The reply of a server that knows the name does not exist: NXDOMAIN (code 3), no records. */
  const ScenarioNxDomain := Packet(EmptyHeader.(packetType := PacketTypeResponse, responseCode := 3), [], [], [], [])

  function NxDomainEnv(): Env
  {
    Env((query: Packet, addr: Bytes) => Ok(ScenarioNxDomain), (domain: Bytes) => 0, (domain: Bytes) => 0x1234)
  }

  /** A root server's NXDOMAIN reply is the lookup's result, without a single answer. */
  lemma NxDomainScenario()
    ensures Sound(NxDomainEnv())
    ensures LookupSpec(NxDomainEnv(), ConstructQuery(ScenarioName, 0x1234), 1) == Ok(ScenarioNxDomain)
    ensures ScenarioNxDomain.answers == []
  {
    var env := NxDomainEnv();
    forall query: Packet, addr: Bytes | RecordsWellTyped(query) ensures Decoded(env.send(query, addr)) {
    }
  }

  /** How one turn of `Lookup`'s loop ends: with the result, or with the next server to ask. */
  datatype Turn = Done(result: Result<Packet>) | Next(addr: Bytes)

  /**
   * `Lookup` with its loop and its nested lookups: the address changes from
   * turn to turn, the query never does.
   */
  method Lookup(env: Env, query: Packet, fuel: nat) returns (r: Result<Packet>)
    requires Sound(env) && RecordsWellTyped(query) && |query.questions| > 0
    ensures r == LookupSpec(env, query, fuel)
    decreases fuel, 4
  {
    var domain := query.questions[0].domain;
    var addr := RootServers[env.rootIndex(domain)];
    var f: nat := fuel;
    while true
      invariant f <= fuel
      invariant LookupFrom(env, query, domain, addr, f) == LookupSpec(env, query, fuel)
      decreases f
    {
      if f == 0 {
        return Err(OutOfFuel);
      }
      var turn := AskServer(env, query, domain, addr, f);
      if turn.Done? {
        return turn.result;
      }
      addr := turn.addr;
      f := f - 1;
    }
  }

  /** One turn of `Lookup`'s loop: `sendQuery` to `addr`, then the case analysis of the response. */
  method AskServer(env: Env, query: Packet, domain: Bytes, addr: Bytes, fuel: nat) returns (t: Turn)
    requires Sound(env) && RecordsWellTyped(query) && 0 < fuel
    ensures t.Done? ==> t.result == LookupFrom(env, query, domain, addr, fuel)
    ensures t.Next? ==> LookupFrom(env, query, domain, t.addr, fuel - 1) == LookupFrom(env, query, domain, addr, fuel)
    decreases fuel, 3
  {
    var sent := env.send(query, addr);
    if sent.Err? {
      return Done(Err(sent.error));
    }
    assert Decoded(sent);
    t := HandleResponse(env, query, domain, sent.value, fuel - 1);
  }

  /** The body of `Lookup`'s loop after a response came back. */
  method HandleResponse(env: Env, query: Packet, domain: Bytes, response: Packet, fuel: nat) returns (t: Turn)
    requires Sound(env) && RecordsWellTyped(query) && CountsMatch(response) && RecordsWellTyped(response)
    ensures t.Done? ==> t.result == Handle(env, query, domain, response, fuel)
    ensures t.Next? ==> LookupFrom(env, query, domain, t.addr, fuel) == Handle(env, query, domain, response, fuel)
    decreases fuel, 6
  {
    if response.header.responseCode != ResponseCodeNoError {
      return Done(Ok(response));
    }
    var _, hasAddress := GetIPv4(response.answers, domain);
    if hasAddress {
      return Done(Ok(response));
    }
    var cname, hasCname := GetCname(response.answers, domain);
    if hasCname {
      var cnameResponse := Lookup(env, ConstructQuery(cname, env.queryId(cname)), fuel);
      if cnameResponse.Err? {
        return Done(Err(cnameResponse.error));
      }
      return Done(Ok(WithCnameAnswers(response, cnameResponse.value)));
    }
    t := FollowReferral(env, query, domain, response, fuel);
  }

  /** The referral part of `Lookup`'s loop: the next address, or the error. */
  method FollowReferral(env: Env, query: Packet, domain: Bytes, response: Packet, fuel: nat) returns (t: Turn)
    requires Sound(env) && RecordsWellTyped(query) && RecordsWellTyped(response)
    ensures t.Done? ==> t.result == Refer(env, query, domain, response, fuel)
    ensures t.Next? ==> LookupFrom(env, query, domain, t.addr, fuel) == Refer(env, query, domain, response, fuel)
    decreases fuel, 5
  {
    var host, hasHost := PickNameServer(response.authorityRecords);
    if !hasHost {
      return Done(Err(UnableToResolve));
    }
    var glue, hasGlue := GetIPv4(response.additionalRecords, host);
    if hasGlue {
      return Next(glue);
    }
    var hostResponse := Lookup(env, ConstructQuery(host, env.queryId(host)), fuel);
    if hostResponse.Err? {
      return Done(Err(hostResponse.error));
    }
    var ip, hasIp := GetIPv4(hostResponse.value.answers, host);
    if !hasIp {
      return Done(Err(UnableToResolve));
    }
    return Next(ip);
  }
}
