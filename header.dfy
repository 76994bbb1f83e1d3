/**
 * The 12-byte message header of internal/dns/serde/header.go (section 4.1.1
 * of RFC 1035, with the AD and CD bits of sections 3.2.2 and 3.2.3 of
 * RFC 4035).
 */
module SerdeHeader {
  import opened Utils
  import opened Types
  import opened Writer
  import opened Reader

  /** `uint16(BoolToUint8(b))`. */
  function Bit(b: bool): (r: bv16)
    ensures r as int == BoolToUint8(b)
  {
    if b then 1 else 0
  }

  /**
   * The flag word: QR at bit 15, the opcode from bit 11, AA, TC, RD, RA at
   * bits 10 to 7, AD and CD at bits 5 and 4, the response code from bit 0.
   * Go's `uint16` shifts drop what is pushed past bit 15 and the ORs let an
   * oversized field spill into its neighbours, and so do these `bv16`s.
   */
  function FlagsWord(h: Header): bv16
  {
    ((h.packetType as bv16) << 15) | ((h.opcode as bv16) << 11) | (Bit(h.authoritativeAnswer) << 10)
      | (Bit(h.truncated) << 9) | (Bit(h.recursionDesired) << 8) | (Bit(h.recursionAvailable) << 7)
      | (Bit(h.authenticData) << 5) | (Bit(h.checkingDisabled) << 4) | (h.responseCode as bv16)
  }

  /** `Uint16ToBytes(flags)`: the high byte, then the low byte. */
  function FlagBytes(w: bv16): (r: Bytes)
    ensures |r| == 2
  {
    [((w >> 8) as bv8) as int, ((w & 0xFF) as bv8) as int]
  }

  /** The twelve bytes `marshalHeader` writes: ID, flags, then the four section counts. */
  function HeaderBytes(h: Header): (r: Bytes)
    ensures |r| == HeaderSize
  {
    Uint16ToBytes(h.id) + FlagBytes(FlagsWord(h)) + Uint16ToBytes(h.questionSectionSize)
      + Uint16ToBytes(h.answerSectionSize) + Uint16ToBytes(h.authorityRecordsSectionSize)
      + Uint16ToBytes(h.additionalRecordsSectionSize)
  }

  /** The fields `unmarshalHeader` extracts from the two flag bytes; bit 6 of the second (Z) is not read. */
  function FlagsFrom(h: Header, b2: bv8, b3: bv8): Header
  {
    h.(packetType := (b2 >> 7) & 1,
       opcode := (b2 >> 3) & 0xF,
       authoritativeAnswer := (b2 >> 2) & 1 == 1,
       truncated := (b2 >> 1) & 1 == 1,
       recursionDesired := b2 & 1 == 1,
       recursionAvailable := (b3 >> 7) & 1 == 1,
       authenticData := (b3 >> 5) & 1 == 1,
       checkingDisabled := (b3 >> 4) & 1 == 1,
       responseCode := b3 & 0xF)
  }

  /** The header `unmarshalHeader` builds from twelve bytes. */
  function HeaderFromBytes(bytes: Bytes): Header
    requires |bytes| == HeaderSize
  {
    var counts := EmptyHeader.(
      id := BytesToUint16(bytes[0..2]),
      questionSectionSize := BytesToUint16(bytes[4..6]),
      answerSectionSize := BytesToUint16(bytes[6..8]),
      authorityRecordsSectionSize := BytesToUint16(bytes[8..10]),
      additionalRecordsSectionSize := BytesToUint16(bytes[10..12]));
    FlagsFrom(counts, bytes[2] as bv8, bytes[3] as bv8)
  }

  function MarshalHeaderSpec(s: WState, h: Header): (WState, bool)
  {
    Write(s, HeaderBytes(h))
  }

  /** `unmarshalHeader`: twelve bytes from `pos`, or the reader's error. */
  function UnmarshalHeaderSpec(buf: Bytes, pos: nat): (r: Result<(Header, nat)>)
    ensures r.Err? <==> |buf| < pos + HeaderSize
    ensures r.Err? ==> r.error == NotEnoughBytes
    ensures r.Ok? ==> r.value == (HeaderFromBytes(buf[pos..pos + HeaderSize]), pos + HeaderSize)
  {
    match Take(buf, pos, HeaderSize)
    case Ok((bytes, next)) => Ok((HeaderFromBytes(bytes), next))
    case Err(e) => Err(e)
  }

  /** The header fields whose values fit their bit widths: one bit for QR, four for the opcode and RCODE. */
  predicate FlagsInRange(h: Header)
  {
    h.packetType <= 1 && h.opcode <= 15 && h.responseCode <= 15
  }

  lemma Bv8RoundTrip(x: bv8)
    ensures (x as int) as bv8 == x
  {
  }

  /** Splitting the flag word into bytes and unpacking them recovers every in-range flag. */
  lemma FlagsRoundTrip(h: Header)
    requires FlagsInRange(h)
    ensures var w := FlagsWord(h); FlagsFrom(h, (w >> 8) as bv8, (w & 0xFF) as bv8) == h
  {
  }

  /** Round trip: unmarshalling the marshalled header gives it back when its flags are in range. */
  lemma HeaderRoundTrip(h: Header)
    requires FlagsInRange(h)
    ensures HeaderFromBytes(HeaderBytes(h)) == h
  {
    var w := FlagsWord(h);
    var bytes := HeaderBytes(h);
    FlagBytesRead(w, bytes[2], bytes[3]);
    FlagsRoundTrip(h);
    CountsRoundTrip(h, bytes);
    var counts := EmptyHeader.(
      id := BytesToUint16(bytes[0..2]),
      questionSectionSize := BytesToUint16(bytes[4..6]),
      answerSectionSize := BytesToUint16(bytes[6..8]),
      authorityRecordsSectionSize := BytesToUint16(bytes[8..10]),
      additionalRecordsSectionSize := BytesToUint16(bytes[10..12]));
    assert FlagsFrom(counts, bytes[2] as bv8, bytes[3] as bv8) == FlagsFrom(h, (w >> 8) as bv8, (w & 0xFF) as bv8);
  }

  /** The flag bytes read back as the high and low halves of the flag word. */
  lemma FlagBytesRead(w: bv16, b2: byte, b3: byte)
    requires [b2, b3] == FlagBytes(w)
    ensures b2 as bv8 == (w >> 8) as bv8 && b3 as bv8 == (w & 0xFF) as bv8
  {
    Bv8RoundTrip((w >> 8) as bv8);
    Bv8RoundTrip((w & 0xFF) as bv8);
  }

  /** The ID and the four counts are read back from the offsets they are written to. */
  lemma CountsRoundTrip(h: Header, bytes: Bytes)
    requires bytes == HeaderBytes(h)
    ensures BytesToUint16(bytes[0..2]) == h.id
    ensures [bytes[2], bytes[3]] == FlagBytes(FlagsWord(h))
    ensures BytesToUint16(bytes[4..6]) == h.questionSectionSize
    ensures BytesToUint16(bytes[6..8]) == h.answerSectionSize
    ensures BytesToUint16(bytes[8..10]) == h.authorityRecordsSectionSize
    ensures BytesToUint16(bytes[10..12]) == h.additionalRecordsSectionSize
  {
    assert bytes[0..2] == Uint16ToBytes(h.id);
    assert bytes[4..6] == Uint16ToBytes(h.questionSectionSize);
    assert bytes[6..8] == Uint16ToBytes(h.answerSectionSize);
    assert bytes[8..10] == Uint16ToBytes(h.authorityRecordsSectionSize);
    assert bytes[10..12] == Uint16ToBytes(h.additionalRecordsSectionSize);
  }

  /** The one-question test vector: ID 0x1234, a query asking for recursion with AD set, one question. */
  lemma QueryHeaderScenario()
    ensures HeaderBytes(EmptyHeader.(id := 0x1234, recursionDesired := true, authenticData := true, questionSectionSize := 1))
      == [0x12, 0x34, 0x01, 0x20, 0x00, 0x01, 0x00, 0x00, 0x00, 0x00, 0x00, 0x00]
  {
    var h := EmptyHeader.(id := 0x1234, recursionDesired := true, authenticData := true, questionSectionSize := 1);
    assert FlagsWord(h) == 0x0120;
  }

  /** The flag bytes `81 80` read as a response with RD and RA set and nothing else. */
  lemma ResponseFlagsScenario(bytes: Bytes)
    requires |bytes| == HeaderSize && bytes[2] == 0x81 && bytes[3] == 0x80
    ensures var h := HeaderFromBytes(bytes);
      h.packetType == PacketTypeResponse && h.opcode == OpcodeQuery && h.recursionDesired && h.recursionAvailable
      && !h.authoritativeAnswer && !h.truncated && !h.authenticData && !h.checkingDisabled
      && h.responseCode == ResponseCodeNoError
  {
  }

  /** An opcode past four bits spills into QR: opcode 16 is read back as a response with opcode 0. */
  lemma OpcodeOverflowScenario()
    ensures var h := HeaderFromBytes(HeaderBytes(EmptyHeader.(opcode := 16)));
      h.packetType == PacketTypeResponse && h.opcode == 0
  {
    var w := FlagsWord(EmptyHeader.(opcode := 16));
    assert w == 0x8000;
    Bv8RoundTrip((w >> 8) as bv8);
  }

  /** The Z bit (bit 6 of the second flag byte) has no effect on the header read. */
  lemma ZBitIgnored(h: Header, b2: bv8, b3: bv8)
    ensures FlagsFrom(h, b2, b3 | 0x40) == FlagsFrom(h, b2, b3 & 0xBF)
  {
  }

  method MarshalHeader(w: PacketWriter, header: Header) returns (ok: bool)
    requires w.Valid()
    modifies w
    ensures w.Valid() && (w.State(), ok) == MarshalHeaderSpec(old(w.State()), header)
  {
    var packetTypeBit := (header.packetType as bv16) << 15;
    var opcodeBits := (header.opcode as bv16) << 11;
    var authoritativeAnswerBit := Bit(header.authoritativeAnswer) << 10;
    var truncatedBit := Bit(header.truncated) << 9;
    var recursionDesiredBit := Bit(header.recursionDesired) << 8;
    var recursionAvailableBit := Bit(header.recursionAvailable) << 7;
    var authenticDataBit := Bit(header.authenticData) << 5;
    var checkingDisabledBit := Bit(header.checkingDisabled) << 4;
    var responseCodeBits := header.responseCode as bv16;
    var flags := packetTypeBit | opcodeBits | authoritativeAnswerBit | truncatedBit | recursionDesiredBit
      | recursionAvailableBit | authenticDataBit | checkingDisabledBit | responseCodeBits;
    var bytes := Uint16ToBytes(header.id) + FlagBytes(flags) + Uint16ToBytes(header.questionSectionSize)
      + Uint16ToBytes(header.answerSectionSize) + Uint16ToBytes(header.authorityRecordsSectionSize)
      + Uint16ToBytes(header.additionalRecordsSectionSize);
    ok := w.WriteBytes(bytes);
  }

  method UnmarshalHeader(r: PacketReader) returns (res: Result<Header>)
    requires r.Valid()
    modifies r
    ensures r.Valid()
    ensures match UnmarshalHeaderSpec(r.buf, old(r.pos))
      case Ok((h, next)) => res == Ok(h) && r.pos == next
      case Err(e) => res == Err(e) && r.pos == old(r.pos)
  {
    var bytes := r.ReadBytes(HeaderSize);
    if bytes.Err? {
      return Err(bytes.error);
    }
    var b := bytes.value;
    var counts := EmptyHeader.(
      id := BytesToUint16(b[0..2]),
      questionSectionSize := BytesToUint16(b[4..6]),
      answerSectionSize := BytesToUint16(b[6..8]),
      authorityRecordsSectionSize := BytesToUint16(b[8..10]),
      additionalRecordsSectionSize := BytesToUint16(b[10..12]));
    return Ok(FlagsFrom(counts, b[2] as bv8, b[3] as bv8));
  }
}
