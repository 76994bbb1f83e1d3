/** The resource records of internal/dns/serde/record.go (section 4.1.3 of RFC 1035). */
module SerdeRecord {
  import opened Utils
  import opened Types
  import opened Writer
  import opened Reader

  predicate IsAddressType(t: uint16)
  {
    t == TypeA || t == TypeAAAA
  }

  predicate IsNameType(t: uint16)
  {
    t == TypeNS || t == TypeCNAME
  }

  /**
   * `marshalRecord`: name, type, class and TTL, then for A and AAAA the
   * address length (`uint16(len)`) and bytes, for NS and CNAME the name
   * with its length, and for every other type nothing more.  The type
   * assertions on `Data` are the precondition.
   */
  function MarshalRecordSpec(s: WState, rec: Record): (r: (WState, bool))
    requires WellTyped(rec)
    ensures s.buf <= r.0.buf && (|s.buf| <= MaxPacketSize ==> |r.0.buf| <= MaxPacketSize)
  {
    var (s1, ok1) := WriteDomainSpec(s, rec.domain);
    if !ok1 then (s1, false)
    else
      var (s2, ok2) := Write(s1, Uint16ToBytes(rec.rtype));
      if !ok2 then (s2, false)
      else
        var (s3, ok3) := Write(s2, Uint16ToBytes(rec.rclass));
        if !ok3 then (s3, false)
        else
          var (s4, ok4) := Write(s3, Uint32ToBytes(rec.ttl));
          if !ok4 then (s4, false)
          else MarshalDataSpec(s4, rec)
  }

  /** The type-dependent tail of `marshalRecord`. */
  function MarshalDataSpec(s: WState, rec: Record): (r: (WState, bool))
    requires WellTyped(rec)
    ensures s.buf <= r.0.buf && (|s.buf| <= MaxPacketSize ==> |r.0.buf| <= MaxPacketSize)
    ensures !IsAddressType(rec.rtype) && !IsNameType(rec.rtype) ==> r == (s, true)
  {
    if IsAddressType(rec.rtype) then
      var ip := rec.data.ip;
      var (s1, ok1) := Write(s, Uint16ToBytes(|ip| % 0x1_0000));
      if !ok1 then (s1, false)
      else Write(s1, ip)
    else if IsNameType(rec.rtype) then
      WriteDomainWithLengthSpec(s, rec.data.name)
    else (s, true)
  }

  /**
   * `unmarshalRecord`: name, type, class, TTL and the 16-bit data length,
   * which is always read; A and AAAA then take that many bytes as the
   * address, NS and CNAME read a name and ignore the length, and any other
   * type leaves `Data` nil and its data unread.
   */
  function UnmarshalRecordSpec(buf: Bytes, pos: nat): (r: Result<(Record, nat)>)
    ensures r.Ok? ==> WellTyped(r.value.0) && r.value.1 <= |buf|
    ensures r.Err? ==> ReadError(r.error)
    ensures r.Ok? && !IsAddressType(r.value.0.rtype) && !IsNameType(r.value.0.rtype) ==> r.value.0.data == NoData
  {
    var d := ReadDomainSpec(buf, pos);
    if d.result.Err? then Err(d.result.error)
    else match ReadUint16Spec(buf, d.pos)
      case Err(e) => Err(e)
      case Ok((rtype, p1)) =>
        match ReadUint16Spec(buf, p1)
        case Err(e) => Err(e)
        case Ok((rclass, p2)) =>
          match ReadUint32Spec(buf, p2)
          case Err(e) => Err(e)
          case Ok((ttl, p3)) =>
            match ReadUint16Spec(buf, p3)
            case Err(e) => Err(e)
            case Ok((length, p4)) =>
              UnmarshalDataSpec(buf, p4, length, Record(d.result.value, rtype, rclass, ttl, NoData))
  }

  /** The type-dependent tail of `unmarshalRecord`, from the byte after the length field. */
  function UnmarshalDataSpec(buf: Bytes, pos: nat, length: uint16, rec: Record): (r: Result<(Record, nat)>)
    requires rec.data == NoData
    ensures r.Ok? ==> r.value.0 == rec.(data := r.value.0.data) && WellTyped(r.value.0)
    ensures r.Ok? && pos <= |buf| ==> r.value.1 <= |buf|
    ensures r.Err? ==> ReadError(r.error)
  {
    if IsAddressType(rec.rtype) then
      match Take(buf, pos, length)
      case Ok((ip, next)) => Ok((rec.(data := Address(ip)), next))
      case Err(e) => Err(e)
    else if IsNameType(rec.rtype) then
      var n := ReadDomainSpec(buf, pos);
      if n.result.Err? then Err(n.result.error)
      else Ok((rec.(data := Name(n.result.value)), n.pos))
    else Ok((rec, pos))
  }

  method MarshalRecord(w: PacketWriter, record: Record) returns (ok: bool)
    requires w.Valid() && WellTyped(record)
    modifies w
    ensures w.Valid() && (w.State(), ok) == MarshalRecordSpec(old(w.State()), record)
  {
    ok := w.WriteDomain(record.domain);
    if !ok {
      return;
    }
    ok := w.WriteUint16(record.rtype);
    if !ok {
      return;
    }
    ok := w.WriteUint16(record.rclass);
    if !ok {
      return;
    }
    ok := w.WriteUint32(record.ttl);
    if !ok {
      return;
    }
    if IsAddressType(record.rtype) {
      var bytes := record.data.ip;
      ok := w.WriteUint16(|bytes| % 0x1_0000);
      if !ok {
        return;
      }
      ok := w.WriteBytes(bytes);
    } else if IsNameType(record.rtype) {
      ok := w.WriteDomainWithLength(record.data.name);
    }
  }

  method UnmarshalRecord(r: PacketReader) returns (res: Result<Record>)
    requires r.Valid()
    modifies r
    ensures r.Valid()
    ensures match UnmarshalRecordSpec(r.buf, old(r.pos))
      case Ok((rec, next)) => res == Ok(rec) && r.pos == next
      case Err(e) => res == Err(e)
  {
    var domain := r.ReadDomain();
    if domain.Err? {
      return Err(domain.error);
    }
    var rtype := r.ReadUint16();
    if rtype.Err? {
      return Err(rtype.error);
    }
    var rclass := r.ReadUint16();
    if rclass.Err? {
      return Err(rclass.error);
    }
    var ttl := r.ReadUint32();
    if ttl.Err? {
      return Err(ttl.error);
    }
    var record := Record(domain.value, rtype.value, rclass.value, ttl.value, NoData);
    var length := r.ReadUint16();
    if length.Err? {
      return Err(length.error);
    }
    if IsAddressType(record.rtype) {
      var ip := r.ReadBytes(length.value);
      if ip.Err? {
        return Err(ip.error);
      }
      record := record.(data := Address(ip.value));
    } else if IsNameType(record.rtype) {
      var name := r.ReadDomain();
      if name.Err? {
        return Err(name.error);
      }
      record := record.(data := Name(name.value));
    }
    return Ok(record);
  }
}
