/** Whole messages, internal/dns/serde/packet.go: the header, then the four sections in order. */
module SerdePacket {
  import opened Utils
  import opened Types
  import opened Writer
  import opened Reader
  import opened SerdeHeader
  import opened SerdeQuestion
  import opened SerdeRecord

  /** The questions written one after another, stopping at the first failure. */
  function MarshalQuestionsSpec(s: WState, qs: seq<Question>): (r: (WState, bool))
    ensures s.buf <= r.0.buf && (|s.buf| <= MaxPacketSize ==> |r.0.buf| <= MaxPacketSize)
    decreases |qs|
  {
    if qs == [] then (s, true)
    else
      var (s1, ok) := MarshalQuestionsSpec(s, qs[..|qs| - 1]);
      if !ok then (s1, false)
      else MarshalQuestionSpec(s1, qs[|qs| - 1])
  }

  /** The records of one section written one after another, stopping at the first failure. */
  function MarshalRecordsSpec(s: WState, rs: seq<Record>): (r: (WState, bool))
    requires AllWellTyped(rs)
    ensures s.buf <= r.0.buf && (|s.buf| <= MaxPacketSize ==> |r.0.buf| <= MaxPacketSize)
    decreases |rs|
  {
    if rs == [] then (s, true)
    else
      var (s1, ok) := MarshalRecordsSpec(s, rs[..|rs| - 1]);
      if !ok then (s1, false)
      else MarshalRecordSpec(s1, rs[|rs| - 1])
  }

  /** The records the packet's sections hold have the data their types are asserted to. */
  predicate RecordsWellTyped(p: Packet)
  {
    AllWellTyped(p.answers) && AllWellTyped(p.authorityRecords) && AllWellTyped(p.additionalRecords)
  }

  /**
   * `MarshalPacket`: a fresh writer, the header, then questions, answers,
   * authority and additional records; the buffer, or `ErrTooManyBytes` as
   * soon as anything does not fit in 512 bytes.
   */
  function MarshalPacketSpec(p: Packet): (r: Result<Bytes>)
    requires RecordsWellTyped(p)
    ensures r.Err? ==> r.error == TooManyBytes
    ensures r.Ok? ==> HeaderSize <= |r.value| <= MaxPacketSize && r.value[..HeaderSize] == HeaderBytes(p.header)
  {
    var (s0, _) := MarshalHeaderSpec(EmptyWState, p.header);
    var (s1, ok1) := MarshalQuestionsSpec(s0, p.questions);
    var (s2, ok2) := MarshalRecordsSpec(s1, p.answers);
    var (s3, ok3) := MarshalRecordsSpec(s2, p.authorityRecords);
    var (s4, ok4) := MarshalRecordsSpec(s3, p.additionalRecords);
    if ok1 && ok2 && ok3 && ok4 then
      assert s0.buf <= s4.buf;
      Ok(s4.buf)
    else Err(TooManyBytes)
  }

  /** `n` questions read one after another from `pos` (the loop over `QuestionSectionSize`). */
  function UnmarshalQuestionsSpec(buf: Bytes, pos: nat, n: nat): (r: Result<(seq<Question>, nat)>)
    ensures r.Ok? ==> |r.value.0| == n
    ensures r.Err? ==> ReadError(r.error)
  {
    if n == 0 then Ok(([], pos))
    else match UnmarshalQuestionsSpec(buf, pos, n - 1)
      case Err(e) => Err(e)
      case Ok((qs, p)) =>
        match UnmarshalQuestionSpec(buf, p)
        case Err(e) => Err(e)
        case Ok((q, next)) => Ok((qs + [q], next))
  }

  /** `n` records read one after another from `pos`; each has the data its type calls for. */
  function UnmarshalRecordsSpec(buf: Bytes, pos: nat, n: nat): (r: Result<(seq<Record>, nat)>)
    ensures r.Ok? ==> |r.value.0| == n && AllWellTyped(r.value.0)
    ensures r.Err? ==> ReadError(r.error)
  {
    if n == 0 then Ok(([], pos))
    else match UnmarshalRecordsSpec(buf, pos, n - 1)
      case Err(e) => Err(e)
      case Ok((rs, p)) =>
        match UnmarshalRecordSpec(buf, p)
        case Err(e) => Err(e)
        case Ok((rec, next)) => Ok((rs + [rec], next))
  }

  /**
   * `UnmarshalPacket`: the size check of `NewPacketReader`, the header, and
   * then exactly as many entries per section as the header counts; any
   * error of the reader is returned as it is.
   */
  function UnmarshalPacketSpec(bytes: Bytes): (r: Result<Packet>)
    ensures !ValidPacketSize(bytes) ==> r == Err(InvalidPacketSize)
    ensures ValidPacketSize(bytes) && r.Err? ==> ReadError(r.error)
    ensures r.Ok? ==> ValidPacketSize(bytes) && r.value.header == HeaderFromBytes(bytes[..HeaderSize])
    ensures r.Ok? ==> CountsMatch(r.value) && RecordsWellTyped(r.value)
  {
    if !ValidPacketSize(bytes) then Err(InvalidPacketSize)
    else match UnmarshalHeaderSpec(bytes, 0)
      case Err(e) => Err(e)
      case Ok((h, p0)) =>
        match UnmarshalQuestionsSpec(bytes, p0, h.questionSectionSize)
        case Err(e) => Err(e)
        case Ok((qs, p1)) =>
          match UnmarshalRecordsSpec(bytes, p1, h.answerSectionSize)
          case Err(e) => Err(e)
          case Ok((ans, p2)) =>
            match UnmarshalRecordsSpec(bytes, p2, h.authorityRecordsSectionSize)
            case Err(e) => Err(e)
            case Ok((auth, p3)) =>
              match UnmarshalRecordsSpec(bytes, p3, h.additionalRecordsSectionSize)
              case Err(e) => Err(e)
              case Ok((add, _)) => Ok(Packet(h, qs, ans, auth, add))
  }

  /** Every section holds as many entries as the header says. */
  predicate CountsMatch(p: Packet)
  {
    |p.questions| == p.header.questionSectionSize
    && |p.answers| == p.header.answerSectionSize
    && |p.authorityRecords| == p.header.authorityRecordsSectionSize
    && |p.additionalRecords| == p.header.additionalRecordsSectionSize
  }

  /** A failure while reading entry `n` is the failure of reading any more entries. */
  lemma {:induction false} UnmarshalQuestionsErr(buf: Bytes, pos: nat, n: nat, m: nat)
    requires n <= m && UnmarshalQuestionsSpec(buf, pos, n).Err?
    ensures UnmarshalQuestionsSpec(buf, pos, m) == UnmarshalQuestionsSpec(buf, pos, n)
    decreases m - n
  {
    if n < m {
      UnmarshalQuestionsErr(buf, pos, n, m - 1);
    }
  }

  lemma {:induction false} UnmarshalRecordsErr(buf: Bytes, pos: nat, n: nat, m: nat)
    requires n <= m && UnmarshalRecordsSpec(buf, pos, n).Err?
    ensures UnmarshalRecordsSpec(buf, pos, m) == UnmarshalRecordsSpec(buf, pos, n)
    decreases m - n
  {
    if n < m {
      UnmarshalRecordsErr(buf, pos, n, m - 1);
    }
  }

  /** The loops of `MarshalPacket` over the questions. */
  method MarshalQuestions(w: PacketWriter, questions: seq<Question>) returns (ok: bool)
    requires w.Valid()
    modifies w
    ensures w.Valid()
    ensures w.State() == MarshalQuestionsSpec(old(w.State()), questions).0
    ensures ok == MarshalQuestionsSpec(old(w.State()), questions).1
  {
    for i := 0 to |questions|
      invariant w.Valid()
      invariant w.State() == MarshalQuestionsSpec(old(w.State()), questions[..i]).0
      invariant MarshalQuestionsSpec(old(w.State()), questions[..i]).1
    {
      assert questions[..i + 1][..i] == questions[..i];
      ok := MarshalQuestion(w, questions[i]);
      if !ok {
        MarshalQuestionsStop(old(w.State()), questions, i + 1);
        return;
      }
    }
    assert questions[..|questions|] == questions;
    return true;
  }

  /** The loops of `MarshalPacket` over one section of records. */
  method MarshalRecords(w: PacketWriter, records: seq<Record>) returns (ok: bool)
    requires w.Valid() && AllWellTyped(records)
    modifies w
    ensures w.Valid()
    ensures w.State() == MarshalRecordsSpec(old(w.State()), records).0
    ensures ok == MarshalRecordsSpec(old(w.State()), records).1
  {
    for i := 0 to |records|
      invariant w.Valid()
      invariant w.State() == MarshalRecordsSpec(old(w.State()), records[..i]).0
      invariant MarshalRecordsSpec(old(w.State()), records[..i]).1
    {
      assert records[..i + 1][..i] == records[..i];
      ok := MarshalRecord(w, records[i]);
      if !ok {
        MarshalRecordsStop(old(w.State()), records, i + 1);
        return;
      }
    }
    assert records[..|records|] == records;
    return true;
  }

  /** Once a write has failed the later entries are not written. */
  lemma {:induction false} MarshalQuestionsStop(s: WState, qs: seq<Question>, n: nat)
    requires n <= |qs| && !MarshalQuestionsSpec(s, qs[..n]).1
    ensures MarshalQuestionsSpec(s, qs) == MarshalQuestionsSpec(s, qs[..n])
    decreases |qs| - n
  {
    if n < |qs| {
      assert qs[..n + 1][..n] == qs[..n];
      MarshalQuestionsStop(s, qs, n + 1);
    } else {
      assert qs[..n] == qs;
    }
  }

  lemma {:induction false} MarshalRecordsStop(s: WState, rs: seq<Record>, n: nat)
    requires n <= |rs| && AllWellTyped(rs) && !MarshalRecordsSpec(s, rs[..n]).1
    ensures MarshalRecordsSpec(s, rs) == MarshalRecordsSpec(s, rs[..n])
    decreases |rs| - n
  {
    if n < |rs| {
      assert rs[..n + 1][..n] == rs[..n];
      MarshalRecordsStop(s, rs, n + 1);
    } else {
      assert rs[..n] == rs;
    }
  }

  method MarshalPacket(packet: Packet) returns (r: Result<Bytes>)
    requires RecordsWellTyped(packet)
    ensures r == MarshalPacketSpec(packet)
  {
    var writer := new PacketWriter();
    var ok := MarshalHeader(writer, packet.header);
    ok := MarshalQuestions(writer, packet.questions);
    if !ok {
      return Err(TooManyBytes);
    }
    ok := MarshalRecords(writer, packet.answers);
    if !ok {
      return Err(TooManyBytes);
    }
    ok := MarshalRecords(writer, packet.authorityRecords);
    if !ok {
      return Err(TooManyBytes);
    }
    ok := MarshalRecords(writer, packet.additionalRecords);
    if !ok {
      return Err(TooManyBytes);
    }
    return Ok(writer.Buffer());
  }

  /** The loop of `UnmarshalPacket` over the questions. */
  method UnmarshalQuestions(r: PacketReader, n: nat) returns (res: Result<seq<Question>>)
    requires r.Valid()
    modifies r
    ensures r.Valid()
    ensures match UnmarshalQuestionsSpec(r.buf, old(r.pos), n)
      case Ok((qs, next)) => res == Ok(qs) && r.pos == next
      case Err(e) => res == Err(e)
  {
    var questions: seq<Question> := [];
    for i := 0 to n
      invariant r.Valid()
      invariant UnmarshalQuestionsSpec(r.buf, old(r.pos), i) == Ok((questions, r.pos))
    {
      var question := UnmarshalQuestion(r);
      if question.Err? {
        UnmarshalQuestionsErr(r.buf, old(r.pos), i + 1, n);
        return Err(question.error);
      }
      questions := questions + [question.value];
    }
    return Ok(questions);
  }

  /** The loop of `UnmarshalPacket` over one section of records. */
  method UnmarshalRecords(r: PacketReader, n: nat) returns (res: Result<seq<Record>>)
    requires r.Valid()
    modifies r
    ensures r.Valid()
    ensures match UnmarshalRecordsSpec(r.buf, old(r.pos), n)
      case Ok((rs, next)) => res == Ok(rs) && r.pos == next
      case Err(e) => res == Err(e)
  {
    var records: seq<Record> := [];
    for i := 0 to n
      invariant r.Valid()
      invariant UnmarshalRecordsSpec(r.buf, old(r.pos), i) == Ok((records, r.pos))
    {
      var record := UnmarshalRecord(r);
      if record.Err? {
        UnmarshalRecordsErr(r.buf, old(r.pos), i + 1, n);
        return Err(record.error);
      }
      records := records + [record.value];
    }
    return Ok(records);
  }

  method UnmarshalPacket(bytes: Bytes) returns (r: Result<Packet>)
    ensures r == UnmarshalPacketSpec(bytes)
  {
    var reader := NewPacketReader(bytes);
    if reader.Err? {
      return Err(reader.error);
    }
    var rd := reader.value;
    var header := UnmarshalHeader(rd);
    if header.Err? {
      // twelve bytes are always there once the size check has passed
      assert false;
      return Err(InvalidPacketSize);
    }
    var h := header.value;
    var questions := UnmarshalQuestions(rd, h.questionSectionSize);
    if questions.Err? {
      return Err(questions.error);
    }
    var answers := UnmarshalRecords(rd, h.answerSectionSize);
    if answers.Err? {
      return Err(answers.error);
    }
    var authorityRecords := UnmarshalRecords(rd, h.authorityRecordsSectionSize);
    if authorityRecords.Err? {
      return Err(authorityRecords.error);
    }
    var additionalRecords := UnmarshalRecords(rd, h.additionalRecordsSectionSize);
    if additionalRecords.Err? {
      return Err(additionalRecords.error);
    }
    return Ok(Packet(h, questions.value, answers.value, authorityRecords.value, additionalRecords.value));
  }
}
