/** The message entities of internal/dns/types and the errors of the codec and the resolver. */
module Types {
  import opened Utils

  /** The fixed header length and the UDP message ceiling. */
  const HeaderSize := 12
  const MaxPacketSize := 512

  /** `PacketType`, `Opcode` and `ResponseCode` are Go `uint8`s. */
  const PacketTypeQuery: bv8 := 0
  const PacketTypeResponse: bv8 := 1
  const OpcodeQuery: bv8 := 0
  const ResponseCodeNoError: bv8 := 0

  /** Record and question types and the one class the resolver uses. */
  const TypeA: uint16 := 1
  const TypeNS: uint16 := 2
  const TypeCNAME: uint16 := 5
  const TypeMX: uint16 := 15
  const TypeAAAA: uint16 := 28
  const ClassIN: uint16 := 1

  datatype Header = Header(
    id: uint16,
    packetType: bv8,
    opcode: bv8,
    authoritativeAnswer: bool,
    truncated: bool,
    recursionDesired: bool,
    recursionAvailable: bool,
    authenticData: bool,
    checkingDisabled: bool,
    responseCode: bv8,
    questionSectionSize: uint16,
    answerSectionSize: uint16,
    authorityRecordsSectionSize: uint16,
    additionalRecordsSectionSize: uint16)

  /** Go's zero `Header{}`. */
  const EmptyHeader := Header(0, 0, 0, false, false, false, false, false, false, 0, 0, 0, 0, 0)

  datatype Question = Question(domain: Bytes, qtype: uint16, qclass: uint16)

  /**
   * `Record.Data any`: a `net.IP` (A and AAAA), a domain name (NS and CNAME),
   * or nothing (every other type).
   */
  datatype RecordData = Address(ip: Bytes) | Name(name: Bytes) | NoData

  datatype Record = Record(domain: Bytes, rtype: uint16, rclass: uint16, ttl: uint32, data: RecordData)

  datatype Packet = Packet(
    header: Header,
    questions: seq<Question>,
    answers: seq<Record>,
    authorityRecords: seq<Record>,
    additionalRecords: seq<Record>)

  /** Go's zero `Packet{}`. */
  const EmptyPacket := Packet(EmptyHeader, [], [], [], [])

  /** The three record sections of a packet, as the TTL cache stores them. */
  datatype PacketRecords = PacketRecords(answers: seq<Record>, authorityRecords: seq<Record>, additionalRecords: seq<Record>)

  /** Whether the record's data has the Go type its record type is asserted to (`Data.(net.IP)`, `Data.(string)`). */
  predicate WellTyped(r: Record)
  {
    (r.rtype == TypeA || r.rtype == TypeAAAA ==> r.data.Address?) &&
    (r.rtype == TypeNS || r.rtype == TypeCNAME ==> r.data.Name?)
  }

  predicate AllWellTyped(records: seq<Record>)
  {
    forall i | 0 <= i < |records| :: WellTyped(records[i])
  }

  /**
   * The error values: `ErrTooManyBytes` (writer), `ErrNotEnoughBytes` and
   * `ErrInvalidPacketSize` (reader), `ErrUnableToResolve` (resolver), a
   * failure of the network exchange, a Go runtime panic (an index out of
   * range or a failed type assertion), and two
   * results of this model: `PointerLoop` where the source's name reader would
   * loop forever, and `OutOfFuel` where the resolver's unbounded iteration is
   * cut off.
   */
  datatype Error =
    | TooManyBytes
    | NotEnoughBytes
    | InvalidPacketSize
    | UnableToResolve
    | Transport
    | Panic
    | PointerLoop
    | OutOfFuel

  datatype Result<T> = Ok(value: T) | Err(error: Error)

}
