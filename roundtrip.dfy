/**
 * Marshalling and unmarshalling are inverse on well-formed packets: what
 * `MarshalPacket` (internal/dns/serde/packet.go) produces, `UnmarshalPacket`
 * reads back unchanged, name compression included.
 */
module PacketRoundTrip {
  import opened Utils
  import opened Types
  import opened Writer
  import opened Reader
  import opened SerdeHeader
  import opened SerdeQuestion
  import opened SerdeRecord
  import opened SerdePacket
  import opened NameCompression

  /**
   * A record both sides treat alike: a valid owner name and one of the four
   * types whose data both sides handle, with that data (a valid name for NS
   * and CNAME).  For the other types `marshalRecord` writes no data length
   * while `unmarshalRecord` reads one (see `OtherTypeDoesNotRoundTrip`).
   */
  predicate WellFormedRecord(r: Record)
  {
    ValidName(r.domain)
    && ((IsAddressType(r.rtype) && r.data.Address?)
        || (IsNameType(r.rtype) && r.data.Name? && ValidName(r.data.name)))
  }

  predicate WellFormedRecords(rs: seq<Record>)
  {
    forall i | 0 <= i < |rs| :: WellFormedRecord(rs[i])
  }

  predicate WellFormedQuestions(qs: seq<Question>)
  {
    forall i | 0 <= i < |qs| :: ValidName(qs[i].domain)
  }

  /** Flags in range, counts equal to the section lengths, valid names and supported records. */
  predicate WellFormed(p: Packet)
  {
    FlagsInRange(p.header) && CountsMatch(p) && WellFormedQuestions(p.questions)
    && WellFormedRecords(p.answers) && WellFormedRecords(p.authorityRecords) && WellFormedRecords(p.additionalRecords)
  }

  /** A 16-bit field written is read back as the same value, up to where the write ended. */
  lemma Uint16RoundTrip(buf: Bytes, s: WState, x: uint16, s': WState)
    requires Inv(buf, s) && Write(s, Uint16ToBytes(x)) == (s', true) && s'.buf <= buf
    ensures ReadUint16Spec(buf, |s.buf|) == Ok((x, |s'.buf|)) && Inv(buf, s')
  {
    var bytes := Uint16ToBytes(x);
    PrefixSlice(buf, s.buf, bytes);
    assert buf[|s.buf|] == bytes[0] && buf[|s.buf| + 1] == bytes[1];
    WriteKeepsInv(buf, s, bytes, s');
  }

  /** A 32-bit field written is read back as the same value, up to where the write ended. */
  lemma Uint32RoundTrip(buf: Bytes, s: WState, x: uint32, s': WState)
    requires Inv(buf, s) && Write(s, Uint32ToBytes(x)) == (s', true) && s'.buf <= buf
    ensures ReadUint32Spec(buf, |s.buf|) == Ok((x, |s'.buf|)) && Inv(buf, s')
  {
    var bytes := Uint32ToBytes(x);
    PrefixSlice(buf, s.buf, bytes);
    WriteKeepsInv(buf, s, bytes, s');
  }

  /** Raw bytes written are taken back unchanged. */
  lemma BytesRoundTrip(buf: Bytes, s: WState, bytes: Bytes, s': WState)
    requires Inv(buf, s) && Write(s, bytes) == (s', true) && s'.buf <= buf
    ensures Take(buf, |s.buf|, |bytes|) == Ok((bytes, |s'.buf|)) && Inv(buf, s')
  {
    PrefixSlice(buf, s.buf, bytes);
    WriteKeepsInv(buf, s, bytes, s');
  }

  /** The states `marshalQuestion` passes through when it succeeds, each on its way to `buf`. */
  lemma QuestionParts(buf: Bytes, s: WState, q: Question, s3: WState) returns (s1: WState, s2: WState)
    requires MarshalQuestionSpec(s, q) == (s3, true) && s3.buf <= buf
    ensures WriteDomainSpec(s, q.domain) == (s1, true) && s1.buf <= buf
    ensures Write(s1, Uint16ToBytes(q.qtype)) == (s2, true) && s2.buf <= buf
    ensures Write(s2, Uint16ToBytes(q.qclass)) == (s3, true)
  {
    s1 := WriteDomainSpec(s, q.domain).0;
    s2 := Write(s1, Uint16ToBytes(q.qtype)).0;
    PrefixChain(s2.buf, s3.buf, buf);
    PrefixChain(s1.buf, s2.buf, buf);
  }

  lemma QuestionRoundTrip(buf: Bytes, s: WState, q: Question, s': WState)
    requires Inv(buf, s) && ValidName(q.domain)
    requires MarshalQuestionSpec(s, q) == (s', true) && s'.buf <= buf
    ensures UnmarshalQuestionSpec(buf, |s.buf|) == Ok((q, |s'.buf|))
    ensures Inv(buf, s')
  {
    var s1, s2 := QuestionParts(buf, s, q, s');
    DomainRoundTrip(buf, s, q.domain, s1);
    Uint16RoundTrip(buf, s1, q.qtype, s2);
    Uint16RoundTrip(buf, s2, q.qclass, s');
    QuestionReadBack(buf, q, |s.buf|, |s1.buf|, |s2.buf|, |s'.buf|);
  }

  /** The fields of a question read back in turn give back the question. */
  lemma QuestionReadBack(buf: Bytes, q: Question, p0: nat, p1: nat, p2: nat, p3: nat)
    requires ReadDomainSpec(buf, p0) == DomainRead(Ok(q.domain), p1)
    requires ReadUint16Spec(buf, p1) == Ok((q.qtype, p2))
    requires ReadUint16Spec(buf, p2) == Ok((q.qclass, p3))
    ensures UnmarshalQuestionSpec(buf, p0) == Ok((q, p3))
  {
  }

  /** The data part of a supported record: its length field, then data that reads back as written. */
  lemma DataRoundTrip(buf: Bytes, s: WState, rec: Record, s': WState)
    requires Inv(buf, s) && WellFormedRecord(rec)
    requires MarshalDataSpec(s, rec) == (s', true) && s'.buf <= buf
    ensures ReadUint16Spec(buf, |s.buf|).Ok?
    ensures UnmarshalDataSpec(buf, ReadUint16Spec(buf, |s.buf|).value.1, ReadUint16Spec(buf, |s.buf|).value.0, rec.(data := NoData))
      == Ok((rec, |s'.buf|))
    ensures Inv(buf, s')
  {
    if IsAddressType(rec.rtype) {
      AddressRoundTrip(buf, s, rec, s');
    } else {
      NameDataRoundTrip(buf, s, rec, s');
    }
  }

  lemma AddressRoundTrip(buf: Bytes, s: WState, rec: Record, s': WState)
    requires Inv(buf, s) && IsAddressType(rec.rtype) && rec.data.Address?
    requires MarshalDataSpec(s, rec) == (s', true) && s'.buf <= buf
    ensures ReadUint16Spec(buf, |s.buf|).Ok?
    ensures UnmarshalDataSpec(buf, ReadUint16Spec(buf, |s.buf|).value.1, ReadUint16Spec(buf, |s.buf|).value.0, rec.(data := NoData))
      == Ok((rec, |s'.buf|))
    ensures Inv(buf, s')
  {
    var ip := rec.data.ip;
    var s1 := Write(s, Uint16ToBytes(|ip| % 0x1_0000)).0;
    assert Write(s, Uint16ToBytes(|ip| % 0x1_0000)) == (s1, true) && Write(s1, ip) == (s', true);
    PrefixChain(s1.buf, s'.buf, buf);
    Uint16RoundTrip(buf, s, |ip| % 0x1_0000, s1);
    BytesRoundTrip(buf, s1, ip, s');
    AddressReadBack(buf, rec, |s.buf|, |s1.buf|, |s'.buf|);
  }

  /** A length field and then that many bytes read back as an address record. */
  lemma AddressReadBack(buf: Bytes, rec: Record, p0: nat, p1: nat, p2: nat)
    requires IsAddressType(rec.rtype) && rec.data.Address? && p1 + |rec.data.ip| <= MaxPacketSize
    requires ReadUint16Spec(buf, p0) == Ok((|rec.data.ip| % 0x1_0000, p1))
    requires Take(buf, p1, |rec.data.ip|) == Ok((rec.data.ip, p2))
    ensures ReadUint16Spec(buf, p0).Ok?
    ensures UnmarshalDataSpec(buf, ReadUint16Spec(buf, p0).value.1, ReadUint16Spec(buf, p0).value.0, rec.(data := NoData))
      == Ok((rec, p2))
  {
  }

  lemma NameDataRoundTrip(buf: Bytes, s: WState, rec: Record, s': WState)
    requires Inv(buf, s) && IsNameType(rec.rtype) && rec.data.Name? && ValidName(rec.data.name)
    requires MarshalDataSpec(s, rec) == (s', true) && s'.buf <= buf
    ensures ReadUint16Spec(buf, |s.buf|).Ok?
    ensures UnmarshalDataSpec(buf, ReadUint16Spec(buf, |s.buf|).value.1, ReadUint16Spec(buf, |s.buf|).value.0, rec.(data := NoData))
      == Ok((rec, |s'.buf|))
    ensures Inv(buf, s')
  {
    var name := rec.data.name;
    var length := |EncodedDomain(s.table, name)| % 0x1_0000;
    var s1 := Write(s, Uint16ToBytes(length)).0;
    DomainWithLengthSplits(s, name, s1);
    assert Write(s, Uint16ToBytes(length)) == (s1, true) && WriteDomainSpec(s1, name) == (s', true);
    PrefixChain(s1.buf, s'.buf, buf);
    Uint16RoundTrip(buf, s, length, s1);
    DomainRoundTrip(buf, s1, name, s');
    NameReadBack(buf, rec, |s.buf|, length, |s1.buf|, |s'.buf|);
  }

  /** `WriteDomainWithLength` is the 16-bit length followed by `WriteDomain`. */
  lemma DomainWithLengthSplits(s: WState, d: Bytes, s1: WState)
    requires s1 == Write(s, Uint16ToBytes(|EncodedDomain(s.table, d)| % 0x1_0000)).0
    ensures WriteDomainWithLengthSpec(s, d)
      == if Write(s, Uint16ToBytes(|EncodedDomain(s.table, d)| % 0x1_0000)).1 then WriteDomainSpec(s1, d) else (s1, false)
  {
  }

  /** A length field and then a name read back as an NS or CNAME record, whatever the length says. */
  lemma NameReadBack(buf: Bytes, rec: Record, p0: nat, length: uint16, p1: nat, p2: nat)
    requires IsNameType(rec.rtype) && rec.data.Name?
    requires ReadUint16Spec(buf, p0) == Ok((length, p1))
    requires ReadDomainSpec(buf, p1) == DomainRead(Ok(rec.data.name), p2)
    ensures ReadUint16Spec(buf, p0).Ok?
    ensures UnmarshalDataSpec(buf, ReadUint16Spec(buf, p0).value.1, ReadUint16Spec(buf, p0).value.0, rec.(data := NoData))
      == Ok((rec, p2))
  {
  }

  /** The states `marshalRecord` passes through when it succeeds, each on its way to `buf`. */
  lemma RecordParts(buf: Bytes, s: WState, rec: Record, s5: WState) returns (s1: WState, s2: WState, s3: WState, s4: WState)
    requires WellTyped(rec) && MarshalRecordSpec(s, rec) == (s5, true) && s5.buf <= buf
    ensures WriteDomainSpec(s, rec.domain) == (s1, true) && s1.buf <= buf
    ensures Write(s1, Uint16ToBytes(rec.rtype)) == (s2, true) && s2.buf <= buf
    ensures Write(s2, Uint16ToBytes(rec.rclass)) == (s3, true) && s3.buf <= buf
    ensures Write(s3, Uint32ToBytes(rec.ttl)) == (s4, true) && s4.buf <= buf
    ensures MarshalDataSpec(s4, rec) == (s5, true)
  {
    s1 := WriteDomainSpec(s, rec.domain).0;
    s2 := Write(s1, Uint16ToBytes(rec.rtype)).0;
    s3 := Write(s2, Uint16ToBytes(rec.rclass)).0;
    s4 := Write(s3, Uint32ToBytes(rec.ttl)).0;
    PrefixChain(s4.buf, s5.buf, buf);
    PrefixChain(s3.buf, s4.buf, buf);
    PrefixChain(s2.buf, s3.buf, buf);
    PrefixChain(s1.buf, s2.buf, buf);
  }

  lemma RecordRoundTrip(buf: Bytes, s: WState, rec: Record, s': WState)
    requires Inv(buf, s) && WellFormedRecord(rec)
    requires MarshalRecordSpec(s, rec) == (s', true) && s'.buf <= buf
    ensures UnmarshalRecordSpec(buf, |s.buf|) == Ok((rec, |s'.buf|))
    ensures Inv(buf, s')
  {
    var s1, s2, s3, s4 := RecordParts(buf, s, rec, s');
    DomainRoundTrip(buf, s, rec.domain, s1);
    Uint16RoundTrip(buf, s1, rec.rtype, s2);
    Uint16RoundTrip(buf, s2, rec.rclass, s3);
    Uint32RoundTrip(buf, s3, rec.ttl, s4);
    DataRoundTrip(buf, s4, rec, s');
    RecordReadBack(buf, rec, |s.buf|, |s1.buf|, |s2.buf|, |s3.buf|, |s4.buf|, |s'.buf|);
  }

  /** The fields of a record read back in turn, then its data, give back the record. */
  lemma RecordReadBack(buf: Bytes, rec: Record, p0: nat, p1: nat, p2: nat, p3: nat, p4: nat, next: nat)
    requires ReadDomainSpec(buf, p0) == DomainRead(Ok(rec.domain), p1)
    requires ReadUint16Spec(buf, p1) == Ok((rec.rtype, p2))
    requires ReadUint16Spec(buf, p2) == Ok((rec.rclass, p3))
    requires ReadUint32Spec(buf, p3) == Ok((rec.ttl, p4))
    requires ReadUint16Spec(buf, p4).Ok?
    requires UnmarshalDataSpec(buf, ReadUint16Spec(buf, p4).value.1, ReadUint16Spec(buf, p4).value.0, rec.(data := NoData))
      == Ok((rec, next))
    ensures UnmarshalRecordSpec(buf, p0) == Ok((rec, next))
  {
    assert Record(rec.domain, rec.rtype, rec.rclass, rec.ttl, NoData) == rec.(data := NoData);
  }

  lemma {:induction false} QuestionsRoundTrip(buf: Bytes, s: WState, qs: seq<Question>, s': WState)
    requires Inv(buf, s) && WellFormedQuestions(qs)
    requires MarshalQuestionsSpec(s, qs) == (s', true) && s'.buf <= buf
    ensures UnmarshalQuestionsSpec(buf, |s.buf|, |qs|) == Ok((qs, |s'.buf|))
    ensures Inv(buf, s')
    decreases |qs|
  {
    if qs != [] {
      var init, last := qs[..|qs| - 1], qs[|qs| - 1];
      var s1 := MarshalQuestionsSpec(s, init).0;
      assert MarshalQuestionsSpec(s, init) == (s1, true) && MarshalQuestionSpec(s1, last) == (s', true);
      PrefixChain(s1.buf, s'.buf, buf);
      assert WellFormedQuestions(init) && ValidName(last.domain);
      QuestionsRoundTrip(buf, s, init, s1);
      QuestionRoundTrip(buf, s1, last, s');
      QuestionsReadBack(buf, qs, |s.buf|, |s1.buf|, |s'.buf|);
    }
  }

  /** The questions but the last read back, then the last one, give back all of them. */
  lemma QuestionsReadBack(buf: Bytes, qs: seq<Question>, p0: nat, p1: nat, p2: nat)
    requires qs != []
    requires UnmarshalQuestionsSpec(buf, p0, |qs| - 1) == Ok((qs[..|qs| - 1], p1))
    requires UnmarshalQuestionSpec(buf, p1) == Ok((qs[|qs| - 1], p2))
    ensures UnmarshalQuestionsSpec(buf, p0, |qs|) == Ok((qs, p2))
  {
    assert qs[..|qs| - 1] + [qs[|qs| - 1]] == qs;
  }

  lemma {:induction false} RecordsRoundTrip(buf: Bytes, s: WState, rs: seq<Record>, s': WState)
    requires Inv(buf, s) && WellFormedRecords(rs) && AllWellTyped(rs)
    requires MarshalRecordsSpec(s, rs) == (s', true) && s'.buf <= buf
    ensures UnmarshalRecordsSpec(buf, |s.buf|, |rs|) == Ok((rs, |s'.buf|))
    ensures Inv(buf, s')
    decreases |rs|
  {
    if rs != [] {
      var init, last := rs[..|rs| - 1], rs[|rs| - 1];
      assert WellFormedRecords(init) && AllWellTyped(init) && WellFormedRecord(last);
      var s1 := MarshalRecordsSpec(s, init).0;
      assert MarshalRecordsSpec(s, init) == (s1, true) && MarshalRecordSpec(s1, last) == (s', true);
      PrefixChain(s1.buf, s'.buf, buf);
      RecordsRoundTrip(buf, s, init, s1);
      RecordRoundTrip(buf, s1, last, s');
      RecordsReadBack(buf, rs, |s.buf|, |s1.buf|, |s'.buf|);
    }
  }

  /** The records but the last read back, then the last one, give back all of them. */
  lemma RecordsReadBack(buf: Bytes, rs: seq<Record>, p0: nat, p1: nat, p2: nat)
    requires rs != []
    requires UnmarshalRecordsSpec(buf, p0, |rs| - 1) == Ok((rs[..|rs| - 1], p1))
    requires UnmarshalRecordSpec(buf, p1) == Ok((rs[|rs| - 1], p2))
    ensures UnmarshalRecordsSpec(buf, p0, |rs|) == Ok((rs, p2))
  {
    assert rs[..|rs| - 1] + [rs[|rs| - 1]] == rs;
  }

  /**
   * The asymmetry for every other record type (MX, TXT, SOA, ...):
   * `marshalRecord` stops after the TTL, `unmarshalRecord` still reads a
   * 16-bit data length, so a record written last cannot be read back.
   */
  lemma OtherTypeDoesNotRoundTrip(s: WState, rec: Record, s': WState)
    requires !IsAddressType(rec.rtype) && !IsNameType(rec.rtype) && ValidName(rec.domain)
    requires MarshalRecordSpec(s, rec) == (s', true) && Inv(s'.buf, s)
    ensures UnmarshalRecordSpec(s'.buf, |s.buf|) == Err(NotEnoughBytes)
  {
    var buf := s'.buf;
    var s1, s2, s3, s4 := RecordParts(buf, s, rec, s');
    assert s4 == s';
    DomainRoundTrip(buf, s, rec.domain, s1);
    Uint16RoundTrip(buf, s1, rec.rtype, s2);
    Uint16RoundTrip(buf, s2, rec.rclass, s3);
    Uint32RoundTrip(buf, s3, rec.ttl, s4);
    assert ReadUint16Spec(buf, |buf|) == Err(NotEnoughBytes);
  }

  /**
   * Round trip of a whole message: a well-formed packet that fits in 512
   * bytes is unmarshalled from its marshalled bytes exactly as it was.
   */
  lemma PacketRoundTrip(p: Packet)
    requires WellFormed(p) && RecordsWellTyped(p) && MarshalPacketSpec(p).Ok?
    ensures UnmarshalPacketSpec(MarshalPacketSpec(p).value) == Ok(p)
  {
    PaddedPacketRoundTrip(p, MarshalPacketSpec(p).value);
  }

  /** A marshalled header at the start of a buffer is read back as it was. */
  lemma HeaderReadBack(h: Header, buf: Bytes)
    requires FlagsInRange(h) && HeaderBytes(h) <= buf
    ensures UnmarshalHeaderSpec(buf, 0) == Ok((h, HeaderSize))
  {
    HeaderRoundTrip(h);
    assert buf[..HeaderSize] == HeaderBytes(h);
  }

  /**
   * Bytes after the marshalled message do not matter: the reader stops after
   * the header-declared entries, so the packet is also read back from any
   * buffer of at most 512 bytes that starts with its bytes, as the
   * zero-filled 512-byte receive buffer of `sendQuery` does.
   */
  lemma PaddedPacketRoundTrip(p: Packet, buf: Bytes)
    requires WellFormed(p) && RecordsWellTyped(p) && MarshalPacketSpec(p).Ok?
    requires MarshalPacketSpec(p).value <= buf && |buf| <= MaxPacketSize
    ensures UnmarshalPacketSpec(buf) == Ok(p)
  {
    var s0 := WState(HeaderBytes(p.header), []);
    var s1, s2, s3, s4 := PacketParts(p, buf);
    assert Inv(buf, s0);
    HeaderReadBack(p.header, buf);
    QuestionsRoundTrip(buf, s0, p.questions, s1);
    RecordsRoundTrip(buf, s1, p.answers, s2);
    RecordsRoundTrip(buf, s2, p.authorityRecords, s3);
    RecordsRoundTrip(buf, s3, p.additionalRecords, s4);
    SectionsReadBack(buf, p, |s0.buf|, |s1.buf|, |s2.buf|, |s3.buf|, |s4.buf|);
  }

  /** The states `MarshalPacket` passes through when it succeeds, each on its way to `buf`. */
  lemma PacketParts(p: Packet, buf: Bytes) returns (s1: WState, s2: WState, s3: WState, s4: WState)
    requires RecordsWellTyped(p) && MarshalPacketSpec(p).Ok? && MarshalPacketSpec(p).value <= buf
    ensures HeaderBytes(p.header) <= buf && |HeaderBytes(p.header)| == HeaderSize
    ensures MarshalQuestionsSpec(WState(HeaderBytes(p.header), []), p.questions) == (s1, true) && s1.buf <= buf
    ensures MarshalRecordsSpec(s1, p.answers) == (s2, true) && s2.buf <= buf
    ensures MarshalRecordsSpec(s2, p.authorityRecords) == (s3, true) && s3.buf <= buf
    ensures MarshalRecordsSpec(s3, p.additionalRecords) == (s4, true) && s4.buf <= buf
  {
    var s0 := WState(HeaderBytes(p.header), []);
    assert EmptyWState.buf + HeaderBytes(p.header) == HeaderBytes(p.header);
    assert MarshalHeaderSpec(EmptyWState, p.header) == (s0, true);
    s1 := MarshalQuestionsSpec(s0, p.questions).0;
    s2 := MarshalRecordsSpec(s1, p.answers).0;
    s3 := MarshalRecordsSpec(s2, p.authorityRecords).0;
    s4 := MarshalRecordsSpec(s3, p.additionalRecords).0;
    assert s4.buf == MarshalPacketSpec(p).value;
    PrefixChain(s3.buf, s4.buf, buf);
    PrefixChain(s2.buf, s3.buf, buf);
    PrefixChain(s1.buf, s2.buf, buf);
    PrefixChain(s0.buf, s1.buf, buf);
  }

  /** Each section read back in turn, from where the previous one ended, gives back the packet. */
  lemma SectionsReadBack(buf: Bytes, p: Packet, p0: nat, p1: nat, p2: nat, p3: nat, p4: nat)
    requires ValidPacketSize(buf) && CountsMatch(p)
    requires UnmarshalHeaderSpec(buf, 0) == Ok((p.header, p0))
    requires UnmarshalQuestionsSpec(buf, p0, |p.questions|) == Ok((p.questions, p1))
    requires UnmarshalRecordsSpec(buf, p1, |p.answers|) == Ok((p.answers, p2))
    requires UnmarshalRecordsSpec(buf, p2, |p.authorityRecords|) == Ok((p.authorityRecords, p3))
    requires UnmarshalRecordsSpec(buf, p3, |p.additionalRecords|) == Ok((p.additionalRecords, p4))
    ensures UnmarshalPacketSpec(buf) == Ok(p)
  {
  }
}
