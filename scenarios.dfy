/**
 * The byte vectors of internal/dns/serde/packet_test.go: the one-question
 * packet in full, "google.com." and the table it leaves, against which
 * "mx.google.com." and "com." become pointers to offsets 12 and 19.
 */
module CodecScenarios {
  import opened Utils
  import opened Types
  import opened Writer
  import opened Reader
  import opened SerdeHeader
  import opened SerdeQuestion
  import opened SerdePacket
  import opened NameCompression
  import opened PacketRoundTrip

  /** "google.com.", "com." and "mx.google.com." as bytes. */
  const Google: Bytes := [0x67, 0x6f, 0x6f, 0x67, 0x6c, 0x65, 0x2e, 0x63, 0x6f, 0x6d, 0x2e]
  const Com: Bytes := [0x63, 0x6f, 0x6d, 0x2e]
  const MxGoogle: Bytes := [0x6d, 0x78, 0x2e] + Google

  /** The query header of the tests: id 0x1234, RD and AD set, `n` questions. */
  function TestHeader(n: uint16): Header
  {
    EmptyHeader.(id := 0x1234, recursionDesired := true, authenticData := true, questionSectionSize := n)
  }

  const GoogleBytes: Bytes := [0x06, 0x67, 0x6f, 0x6f, 0x67, 0x6c, 0x65, 0x03, 0x63, 0x6f, 0x6d, 0x00]

  lemma FormatCom(table: Table<nat, Bytes>)
    requires !KeyByValue(table, Com).1 && !KeyByValue(table, []).1
    ensures EncodedDomain(table, Com) == [0x03, 0x63, 0x6f, 0x6d, 0x00]
  {
    assert IndexOfDot(Com) == 3 && Com[4..] == [] && Com[..3] == [0x63, 0x6f, 0x6d];
    assert EncodedDomain(table, []) == [0];
  }

  /** With an empty table, "google.com." is two length-prefixed labels and the zero byte. */
  lemma FormatGoogle()
    ensures EncodedDomain([], Google) == GoogleBytes
  {
    GoogleSplits();
    FormatCom([]);
  }

  lemma GoogleSplits()
    ensures IndexOfDot(Google) == 6 && Google[7..] == Com && Google[..6] == [0x67, 0x6f, 0x6f, 0x67, 0x6c, 0x65]
  {
  }

  /** Writing "google.com." at offset 12 enters it and "com." at 19. */
  lemma CacheGoogle()
    ensures CachedDomain([], 12, |Google|, Google) == [(12, Google), (19, Com)]
  {
    assert IndexOfDot(Google) == 6 && Google[7..] == Com;
    assert CacheSuffix([], 12, |Google|, Google) == [(12, Google)];
    var t: Table<nat, Bytes> := [(12, Google)];
    assert KeyByValue(t, Com) == (0, false);
    assert t[1..] == [];
    assert Put<nat, Bytes>(t, 19, Com) == [(12, Google)] + [(19, Com)];
    assert CacheSuffix(t, 12, |Google|, Com) == [(12, Google), (19, Com)];
    assert IndexOfDot(Com) == 3 && Com[4..] == [];
    assert CacheSuffix([(12, Google), (19, Com)], 12, |Google|, []) == [(12, Google), (19, Com)];
  }

  /** Against that table, "mx.google.com." is its first label and a pointer to offset 12. */
  lemma FormatMxGoogle()
    ensures EncodedDomain([(12, Google), (19, Com)], MxGoogle) == [0x02, 0x6d, 0x78, 0xc0, 0x0c]
  {
    var t: Table<nat, Bytes> := [(12, Google), (19, Com)];
    assert MxGoogle[1..][1..] == MxGoogle[2..] && IndexOfDot(MxGoogle[2..]) == 0;
    assert IndexOfDot(MxGoogle[1..]) == 1;
    assert IndexOfDot(MxGoogle) == 2 && MxGoogle[3..] == Google && MxGoogle[..2] == [0x6d, 0x78];
    assert |MxGoogle| != |Google| && |MxGoogle| != |Com|;
    assert FirstHolding(t, MxGoogle, 2) == 2;
    assert KeyByValue(t, MxGoogle) == (0, false);
    assert FirstHolding(t, Google, 0) == 0;
    assert KeyByValue(t, Google) == (12, true);
    assert PointerBytes(12) == [0xc0, 0x0c];
  }

  /** And "com." alone is the pointer to offset 19. */
  lemma FormatComCompressed()
    ensures EncodedDomain([(12, Google), (19, Com)], Com) == [0xc0, 0x13]
  {
    var t: Table<nat, Bytes> := [(12, Google), (19, Com)];
    assert t[0].1 != Com && FirstHolding(t, Com, 1) == 1;
    assert KeyByValue(t, Com) == (19, true);
    assert PointerBytes(19) == [0xc0, 0x13];
  }

  /** The one-question packet of the first marshal and unmarshal tests: "google.com." A IN under the test header. */
  const OneQuestion := Packet(TestHeader(1), [Question(Google, TypeA, ClassIN)], [], [], [])

  /** Its 28 bytes: the 12 header bytes, the 12 name bytes, then type A and class IN. */
  const QueryHeaderBytes: Bytes := [0x12, 0x34, 0x01, 0x20, 0x00, 0x01, 0x00, 0x00, 0x00, 0x00, 0x00, 0x00]
  const OneQuestionBytes: Bytes := QueryHeaderBytes + GoogleBytes + [0x00, 0x01, 0x00, 0x01]

  /** The packet marshals to exactly those bytes, and they unmarshal back to the packet. */
  lemma OneQuestionScenario()
    ensures MarshalPacketSpec(OneQuestion) == Ok(OneQuestionBytes)
    ensures UnmarshalPacketSpec(OneQuestionBytes) == Ok(OneQuestion)
  {
    OneQuestionMarshal();
    GoogleValid();
    assert WellFormed(OneQuestion);
    PacketRoundTrip.PacketRoundTrip(OneQuestion);
  }

  lemma OneQuestionMarshal()
    ensures MarshalPacketSpec(OneQuestion) == Ok(OneQuestionBytes)
  {
    var s0 := OneQuestionHeader();
    var q := Question(Google, TypeA, ClassIN);
    var s3 := OneQuestionName(s0);
    assert [q][..0] == [] && [q][0] == q;
    assert MarshalQuestionsSpec(s0, []) == (s0, true);
    assert MarshalQuestionsSpec(s0, [q]) == (s3, true);
  }

  /** The header goes first, into the empty buffer. */
  lemma OneQuestionHeader() returns (s0: WState)
    ensures s0 == WState(QueryHeaderBytes, [])
    ensures MarshalHeaderSpec(EmptyWState, TestHeader(1)) == (s0, true)
  {
    QueryHeaderScenario();
    s0 := WState(QueryHeaderBytes, []);
    assert [] + QueryHeaderBytes == QueryHeaderBytes;
  }

  /** Then the question: the name in full, type A, class IN. */
  lemma OneQuestionName(s0: WState) returns (s3: WState)
    requires s0 == WState(QueryHeaderBytes, [])
    ensures s3 == WState(OneQuestionBytes, [(12, Google), (19, Com)])
    ensures MarshalQuestionSpec(s0, Question(Google, TypeA, ClassIN)) == (s3, true)
  {
    var s1 := GoogleWritten(s0);
    s3 := QuestionAInWritten(s0, Question(Google, TypeA, ClassIN), s1);
  }

  /** A question of type A and class IN is its name followed by `00 01 00 01`. */
  lemma QuestionAInWritten(s0: WState, q: Question, s1: WState) returns (s3: WState)
    requires q.qtype == TypeA && q.qclass == ClassIN
    requires WriteDomainSpec(s0, q.domain) == (s1, true) && |s1.buf| + 4 <= MaxPacketSize
    ensures s3 == WState(s1.buf + [0x00, 0x01, 0x00, 0x01], s1.table)
    ensures MarshalQuestionSpec(s0, q) == (s3, true)
  {
    assert Uint16ToBytes(1) == [0x00, 0x01];
    var s2 := WState(s1.buf + [0x00, 0x01], s1.table);
    assert Write(s1, Uint16ToBytes(TypeA)) == (s2, true);
    s3 := WState(s2.buf + [0x00, 0x01], s1.table);
    assert Write(s2, Uint16ToBytes(ClassIN)) == (s3, true);
    assert s3.buf == s1.buf + [0x00, 0x01, 0x00, 0x01];
  }

  /** "google.com." written after a 12-byte header with an empty table. */
  lemma GoogleWritten(s0: WState) returns (s1: WState)
    requires |s0.buf| == 12 && s0.table == []
    ensures s1 == WState(s0.buf + GoogleBytes, [(12, Google), (19, Com)])
    ensures WriteDomainSpec(s0, Google) == (s1, true)
  {
    FormatGoogle();
    CacheGoogle();
    s1 := WState(s0.buf + GoogleBytes, [(12, Google), (19, Com)]);
  }

  lemma GoogleValid()
    ensures ValidName(Google)
  {
    GoogleSplits();
    assert IndexOfDot(Com) == 3 && Com[4..] == [];
  }

  /** The 29 bytes of that test up to the second question's name: a blank header, "google.com.", then `02 6d 78 c0 0c`. */
  const MxBuffer: Bytes := seq(12, _ => 0) + GoogleBytes + [0x02, 0x6d, 0x78, 0xc0, 0x0c]

  /** Read back, the second name is "mx." and then, through the pointer, "google.com."; `pos` ends after its 5 bytes. */
  lemma ReadMxGoogle()
    ensures ReadDomainSpec(MxBuffer, 24) == DomainRead(Ok(MxGoogle), 29)
  {
    var buf := MxBuffer;
    assert |buf| == 29 && buf[24] == 2 && buf[25..27] == [0x6d, 0x78] && buf[27] == 0xc0 && buf[28] == 0x0c;
    assert buf[12] == 6 && buf[13..19] == Google[..6];
    assert buf[19] == 3 && buf[20..23] == Com[..3] && buf[23] == 0;
    assert BytesToUint16([0xc0 % 0x40, 0x0c]) == 12;
    var mx: Bytes := [0x6d, 0x78, Dot];
    var mxGoogle: Bytes := mx + Google[..6] + [Dot];
    assert mxGoogle + Com[..3] + [Dot] == MxGoogle;
    assert mx == [] + buf[25..27] + [Dot];
    assert DomainFrom(buf, 29, 23, mxGoogle + Com[..3] + [Dot], JumpBudget(buf) - 1) == DomainRead(Ok(MxGoogle), 29);
    assert DomainFrom(buf, 29, 19, mxGoogle, JumpBudget(buf) - 1) == DomainRead(Ok(MxGoogle), 29);
    assert DomainFrom(buf, 29, 12, mx, JumpBudget(buf) - 1) == DomainRead(Ok(MxGoogle), 29);
    assert DomainFrom(buf, 27, -1, mx, JumpBudget(buf)) == DomainRead(Ok(MxGoogle), 29);
  }
}
