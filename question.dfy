/** The question entries of internal/dns/serde/question.go (section 4.1.2 of RFC 1035). */
module SerdeQuestion {
  import opened Utils
  import opened Types
  import opened Writer
  import opened Reader

  /** `marshalQuestion`: the name, then the type and the class, stopping at the first failed write. */
  function MarshalQuestionSpec(s: WState, q: Question): (r: (WState, bool))
    ensures s.buf <= r.0.buf && (|s.buf| <= MaxPacketSize ==> |r.0.buf| <= MaxPacketSize)
  {
    var (s1, ok1) := WriteDomainSpec(s, q.domain);
    if !ok1 then (s1, false)
    else
      var (s2, ok2) := Write(s1, Uint16ToBytes(q.qtype));
      if !ok2 then (s2, false)
      else Write(s2, Uint16ToBytes(q.qclass))
  }

  /** `unmarshalQuestion`: a name and two 16-bit fields from `pos`, and where the reader stops. */
  function UnmarshalQuestionSpec(buf: Bytes, pos: nat): (r: Result<(Question, nat)>)
    ensures r.Ok? ==> r.value.1 <= |buf|
    ensures r.Err? ==> ReadError(r.error)
  {
    var d := ReadDomainSpec(buf, pos);
    if d.result.Err? then Err(d.result.error)
    else match ReadUint16Spec(buf, d.pos)
      case Err(e) => Err(e)
      case Ok((qtype, p1)) =>
        match ReadUint16Spec(buf, p1)
        case Err(e) => Err(e)
        case Ok((qclass, p2)) => Ok((Question(d.result.value, qtype, qclass), p2))
  }

  method MarshalQuestion(w: PacketWriter, question: Question) returns (ok: bool)
    requires w.Valid()
    modifies w
    ensures w.Valid() && (w.State(), ok) == MarshalQuestionSpec(old(w.State()), question)
  {
    ok := w.WriteDomain(question.domain);
    if !ok {
      return;
    }
    ok := w.WriteUint16(question.qtype);
    if !ok {
      return;
    }
    ok := w.WriteUint16(question.qclass);
  }

  method UnmarshalQuestion(r: PacketReader) returns (res: Result<Question>)
    requires r.Valid()
    modifies r
    ensures r.Valid()
    ensures match UnmarshalQuestionSpec(r.buf, old(r.pos))
      case Ok((q, next)) => res == Ok(q) && r.pos == next
      case Err(e) => res == Err(e)
  {
    var domain := r.ReadDomain();
    if domain.Err? {
      return Err(domain.error);
    }
    var qtype := r.ReadUint16();
    if qtype.Err? {
      return Err(qtype.error);
    }
    var qclass := r.ReadUint16();
    if qclass.Err? {
      return Err(qclass.error);
    }
    return Ok(Question(domain.value, qtype.value, qclass.value));
  }
}
