/**
 * The bounds-checked packet reader of internal/dns/reader.go: a cursor over a
 * received message that follows compression pointers through the message
 * itself (section 4.1.4 of RFC 1035).
 */
module Reader {
  import opened Utils
  import opened Types

  /** `newPacketReader`'s size check. */
  predicate ValidPacketSize(bytes: Bytes)
  {
    !(|bytes| < HeaderSize || |bytes| > MaxPacketSize)
  }

  /** `ReadBytes(n)` from `pos`: the next `n` bytes and the advanced position, or `ErrNotEnoughBytes`. */
  function Take(buf: Bytes, pos: nat, n: nat): (r: Result<(Bytes, nat)>)
    ensures r.Ok? <==> pos + n <= |buf|
    ensures r.Ok? ==> |r.value.0| == n && r.value.1 == pos + n && buf[pos..pos + n] == r.value.0
    ensures r.Err? ==> r.error == NotEnoughBytes
  {
    if |buf| < pos + n then Err(NotEnoughBytes) else Ok((buf[pos..pos + n], pos + n))
  }

  /** `ReadUint16`: big-endian, two bytes. */
  function ReadUint16Spec(buf: Bytes, pos: nat): (r: Result<(uint16, nat)>)
    ensures r.Ok? <==> pos + 2 <= |buf|
    ensures r.Ok? ==> r.value == (buf[pos] as int * 0x100 + buf[pos + 1], pos + 2)
  {
    match Take(buf, pos, 2)
    case Ok((bytes, next)) => Ok((BytesToUint16(bytes), next))
    case Err(e) => Err(e)
  }

  /** `ReadUint32`: big-endian, four bytes. */
  function ReadUint32Spec(buf: Bytes, pos: nat): (r: Result<(uint32, nat)>)
    ensures r.Ok? <==> pos + 4 <= |buf|
    ensures r.Ok? ==> r.value == (BytesToUint32(buf[pos..pos + 4]), pos + 4)
  {
    match Take(buf, pos, 4)
    case Ok((bytes, next)) => Ok((BytesToUint32(bytes), next))
    case Err(e) => Err(e)
  }

  /** The byte the name reader looks at: at `pointer` once a pointer was taken, else at `pos`. */
  function Cursor(pos: nat, pointer: int): nat
  {
    if pointer >= 0 then pointer else pos
  }

  /** Moving the cursor on by `n`: `pointer += n` once a pointer was taken, else `pos` moves. */
  function Advance(pos: nat, pointer: int, n: nat): (nat, int)
  {
    if pointer >= 0 then (pos, pointer + n) else (pos + n, pointer)
  }

  /** `size&0b11000000 == 0b11000000`: the two top bits of a length byte mark a pointer. */
  predicate IsPointerTag(size: byte)
  {
    size / 0x40 == 3
  }

  /** The outcome of `ReadDomain`: the name or the error, and where `pos` was left. */
  datatype DomainRead = DomainRead(result: Result<Bytes>, pos: nat)

  /**
   * The `ReadDomain` loop from the state (`pos`, `pointer`, `domain`), with
   * `jumps` pointers still allowed.  A zero byte ends the name, a tagged byte
   * and the next one move `pointer` to their 14-bit offset, any other byte is
   * the length of a label that is appended with a '.'.  The source follows
   * pointers without limit; where it would loop forever the model returns
   * `PointerLoop` once `jumps` pointers have been followed.
   */
  function DomainFrom(buf: Bytes, pos: nat, pointer: int, domain: Bytes, jumps: nat): DomainRead
    decreases jumps, |buf| - Cursor(pos, pointer)
  {
    var c := Cursor(pos, pointer);
    if |buf| < c + 1 then DomainRead(Err(NotEnoughBytes), pos)
    else
      var size := buf[c];
      var (pos1, pointer1) := Advance(pos, pointer, 1);
      if size == 0 then DomainRead(Ok(domain), pos1)
      else if IsPointerTag(size) then
        var c1 := Cursor(pos1, pointer1);
        if |buf| < c1 + 1 then DomainRead(Err(NotEnoughBytes), pos1)
        else
          var (pos2, _) := Advance(pos1, pointer1, 1);
          var target := BytesToUint16([size % 0x40, buf[c1]]);
          if jumps == 0 then DomainRead(Err(PointerLoop), pos2)
          else DomainFrom(buf, pos2, target, domain, jumps - 1)
      else
        var c1 := Cursor(pos1, pointer1);
        if |buf| < c1 + size then DomainRead(Err(NotEnoughBytes), pos1)
        else
          var (pos2, pointer2) := Advance(pos1, pointer1, size);
          DomainFrom(buf, pos2, pointer2, domain + buf[c1..c1 + size] + [Dot], jumps)
  }

  /**
   * The pointer budget of `ReadDomain`: a run that ends follows at most one
   * pointer per offset of the buffer plus one that leaves it, since a repeated
   * offset repeats the loop's control state (cursor and pointer mode), and
   * what the loop does next depends on nothing else.
   */
  function JumpBudget(buf: Bytes): nat
  {
    |buf| + 1
  }

  /** The errors reading can end in: a read past the end, or (in this model) a pointer loop. */
  predicate ReadError(e: Error)
  {
    e == NotEnoughBytes || e == PointerLoop
  }

  /** `ReadDomain` from `pos`; a name that is read leaves the reader inside the buffer. */
  function ReadDomainSpec(buf: Bytes, pos: nat): (r: DomainRead)
    ensures r.result.Ok? ==> r.pos <= |buf|
    ensures r.result.Err? ==> ReadError(r.result.error)
  {
    DomainFromInBuffer(buf, pos, -1, [], JumpBudget(buf));
    DomainFromErrors(buf, pos, -1, [], JumpBudget(buf));
    DomainFrom(buf, pos, -1, [], JumpBudget(buf))
  }

  lemma {:induction false} DomainFromInBuffer(buf: Bytes, pos: nat, pointer: int, domain: Bytes, jumps: nat)
    requires pointer >= 0 ==> pos <= |buf|
    ensures DomainFrom(buf, pos, pointer, domain, jumps).result.Ok? ==> DomainFrom(buf, pos, pointer, domain, jumps).pos <= |buf|
    decreases jumps, |buf| - Cursor(pos, pointer)
  {
    var c := Cursor(pos, pointer);
    if |buf| >= c + 1 {
      var size := buf[c];
      var (pos1, pointer1) := Advance(pos, pointer, 1);
      if size != 0 && IsPointerTag(size) {
        var c1 := Cursor(pos1, pointer1);
        if |buf| >= c1 + 1 && jumps > 0 {
          var (pos2, _) := Advance(pos1, pointer1, 1);
          var target := BytesToUint16([size % 0x40, buf[c1]]);
          DomainFromInBuffer(buf, pos2, target, domain, jumps - 1);
        }
      } else if size != 0 {
        var c1 := Cursor(pos1, pointer1);
        if |buf| >= c1 + size {
          var (pos2, pointer2) := Advance(pos1, pointer1, size);
          DomainFromInBuffer(buf, pos2, pointer2, domain + buf[c1..c1 + size] + [Dot], jumps);
        }
      }
    }
  }

  /** The name reader fails only by reading past the end or by looping. */
  lemma {:induction false} DomainFromErrors(buf: Bytes, pos: nat, pointer: int, domain: Bytes, jumps: nat)
    ensures DomainFrom(buf, pos, pointer, domain, jumps).result.Err? ==> ReadError(DomainFrom(buf, pos, pointer, domain, jumps).result.error)
    decreases jumps, |buf| - Cursor(pos, pointer)
  {
    var c := Cursor(pos, pointer);
    if |buf| >= c + 1 {
      var size := buf[c];
      var (pos1, pointer1) := Advance(pos, pointer, 1);
      if size != 0 && IsPointerTag(size) {
        var c1 := Cursor(pos1, pointer1);
        if |buf| >= c1 + 1 && jumps > 0 {
          var (pos2, _) := Advance(pos1, pointer1, 1);
          var target := BytesToUint16([size % 0x40, buf[c1]]);
          DomainFromErrors(buf, pos2, target, domain, jumps - 1);
        }
      } else if size != 0 {
        var c1 := Cursor(pos1, pointer1);
        if |buf| >= c1 + size {
          var (pos2, pointer2) := Advance(pos1, pointer1, size);
          DomainFromErrors(buf, pos2, pointer2, domain + buf[c1..c1 + size] + [Dot], jumps);
        }
      }
    }
  }

  /** The name read is whatever was already read followed by what the rest of the loop reads. */
  lemma {:induction false} DomainFromAccumulates(buf: Bytes, pos: nat, pointer: int, domain: Bytes, jumps: nat)
    ensures var r0, r := DomainFrom(buf, pos, pointer, [], jumps), DomainFrom(buf, pos, pointer, domain, jumps);
      r.pos == r0.pos && r.result == match r0.result case Ok(name) => Ok(domain + name) case Err(e) => Err(e)
    decreases jumps, |buf| - Cursor(pos, pointer)
  {
    var c := Cursor(pos, pointer);
    if |buf| < c + 1 {
    } else {
      var size := buf[c];
      var (pos1, pointer1) := Advance(pos, pointer, 1);
      if size == 0 {
        assert domain + [] == domain;
      } else if IsPointerTag(size) {
        var c1 := Cursor(pos1, pointer1);
        if |buf| >= c1 + 1 && jumps > 0 {
          var (pos2, _) := Advance(pos1, pointer1, 1);
          var target := BytesToUint16([size % 0x40, buf[c1]]);
          DomainFromAccumulates(buf, pos2, target, domain, jumps - 1);
        }
      } else {
        var c1 := Cursor(pos1, pointer1);
        if |buf| >= c1 + size {
          var (pos2, pointer2) := Advance(pos1, pointer1, size);
          var piece := buf[c1..c1 + size] + [Dot];
          DomainFromAccumulates(buf, pos2, pointer2, domain + piece, jumps);
          DomainFromAccumulates(buf, pos2, pointer2, piece, jumps);
          assert [] + buf[c1..c1 + size] + [Dot] == piece;
          assert domain + buf[c1..c1 + size] + [Dot] == domain + piece;
          match DomainFrom(buf, pos2, pointer2, [], jumps).result
          case Ok(name) => assert (domain + piece) + name == domain + (piece + name);
          case Err(_) =>
        }
      }
    }
  }

  /**
   * Once a pointer has been taken `pos` no longer moves: the loop leaves it
   * where it was and reads the same name whatever it is.
   */
  lemma {:induction false} PointerModeKeepsPos(buf: Bytes, pos: nat, pos': nat, pointer: int, domain: Bytes, jumps: nat)
    requires pointer >= 0
    ensures DomainFrom(buf, pos, pointer, domain, jumps).pos == pos
    ensures DomainFrom(buf, pos, pointer, domain, jumps).result == DomainFrom(buf, pos', pointer, domain, jumps).result
    decreases jumps, |buf| - pointer
  {
    if |buf| >= pointer + 1 {
      var size := buf[pointer];
      if size != 0 && IsPointerTag(size) {
        if |buf| >= pointer + 2 && jumps > 0 {
          var target := BytesToUint16([size % 0x40, buf[pointer + 1]]);
          PointerModeKeepsPos(buf, pos, pos', target, domain, jumps - 1);
        }
      } else if size != 0 && |buf| >= pointer + 1 + size {
        var piece := buf[pointer + 1..pointer + 1 + size];
        PointerModeKeepsPos(buf, pos, pos', pointer + 1 + size, domain + piece + [Dot], jumps);
      }
    }
  }

  /** More pointer budget changes nothing once a read ends without running out of it. */
  lemma {:induction false} DomainFromFuel(buf: Bytes, pos: nat, pointer: int, domain: Bytes, jumps: nat, jumps': nat)
    requires jumps <= jumps'
    requires DomainFrom(buf, pos, pointer, domain, jumps).result != Err(PointerLoop)
    ensures DomainFrom(buf, pos, pointer, domain, jumps') == DomainFrom(buf, pos, pointer, domain, jumps)
    decreases jumps, |buf| - Cursor(pos, pointer)
  {
    var c := Cursor(pos, pointer);
    if |buf| >= c + 1 {
      var size := buf[c];
      var (pos1, pointer1) := Advance(pos, pointer, 1);
      if size != 0 && IsPointerTag(size) {
        var c1 := Cursor(pos1, pointer1);
        if |buf| >= c1 + 1 {
          var (pos2, _) := Advance(pos1, pointer1, 1);
          var target := BytesToUint16([size % 0x40, buf[c1]]);
          DomainFromFuel(buf, pos2, target, domain, jumps - 1, jumps' - 1);
        }
      } else if size != 0 {
        var c1 := Cursor(pos1, pointer1);
        if |buf| >= c1 + size {
          var (pos2, pointer2) := Advance(pos1, pointer1, size);
          DomainFromFuel(buf, pos2, pointer2, domain + buf[c1..c1 + size] + [Dot], jumps, jumps');
        }
      }
    }
  }

  /** A pointer to its own offset: the source loops forever, the model reports `PointerLoop`. */
  lemma SelfPointerScenario(buf: Bytes)
    requires |buf| == HeaderSize + 2 && buf[HeaderSize] == 0xC0 && buf[HeaderSize + 1] == HeaderSize
    ensures ReadDomainSpec(buf, HeaderSize).result == Err(PointerLoop)
  {
    SelfPointerLoops(buf, JumpBudget(buf) - 1);
  }

  lemma {:induction false} SelfPointerLoops(buf: Bytes, jumps: nat)
    requires |buf| == HeaderSize + 2 && buf[HeaderSize] == 0xC0 && buf[HeaderSize + 1] == HeaderSize
    ensures DomainFrom(buf, HeaderSize + 2, HeaderSize, [], jumps).result == Err(PointerLoop)
  {
    assert BytesToUint16([buf[HeaderSize] % 0x40, buf[HeaderSize + 1]]) == HeaderSize;
    if jumps > 0 {
      SelfPointerLoops(buf, jumps - 1);
    }
  }

  class PacketReader {
    const buf: Bytes
    var pos: nat

    ghost predicate Valid()
      reads this
    {
      ValidPacketSize(buf) && pos <= |buf|
    }

    /** The reader `newPacketReader` hands out: the message at position 0. */
    constructor (bytes: Bytes)
      requires ValidPacketSize(bytes)
      ensures Valid() && buf == bytes && pos == 0
    {
      buf, pos := bytes, 0;
    }

    method ReadUint16() returns (r: Result<uint16>)
      requires Valid()
      modifies this
      ensures Valid()
      ensures match ReadUint16Spec(buf, old(pos))
        case Ok((v, next)) => r == Ok(v) && pos == next
        case Err(e) => r == Err(e) && pos == old(pos)
    {
      if |buf| < pos + 2 {
        return Err(NotEnoughBytes);
      }
      var v := BytesToUint16(buf[pos..pos + 2]);
      pos := pos + 2;
      return Ok(v);
    }

    method ReadUint32() returns (r: Result<uint32>)
      requires Valid()
      modifies this
      ensures Valid()
      ensures match ReadUint32Spec(buf, old(pos))
        case Ok((v, next)) => r == Ok(v) && pos == next
        case Err(e) => r == Err(e) && pos == old(pos)
    {
      if |buf| < pos + 4 {
        return Err(NotEnoughBytes);
      }
      var v := BytesToUint32(buf[pos..pos + 4]);
      pos := pos + 4;
      return Ok(v);
    }

    method ReadByte() returns (r: Result<byte>)
      requires Valid()
      modifies this
      ensures Valid()
      ensures old(pos) + 1 <= |buf| ==> r == Ok(buf[old(pos)]) && pos == old(pos) + 1
      ensures |buf| < old(pos) + 1 ==> r == Err(NotEnoughBytes) && pos == old(pos)
    {
      if |buf| < pos + 1 {
        return Err(NotEnoughBytes);
      }
      var b := buf[pos];
      pos := pos + 1;
      return Ok(b);
    }

    /** `ReadByteAt`: the byte at an absolute offset; `pos` is not used or changed. */
    method ReadByteAt(at: nat) returns (r: Result<byte>)
      ensures at + 1 <= |buf| ==> r == Ok(buf[at])
      ensures |buf| < at + 1 ==> r == Err(NotEnoughBytes)
    {
      if |buf| < at + 1 {
        return Err(NotEnoughBytes);
      }
      return Ok(buf[at]);
    }

    method ReadBytes(n: nat) returns (r: Result<Bytes>)
      requires Valid()
      modifies this
      ensures Valid()
      ensures match Take(buf, old(pos), n)
        case Ok((bytes, next)) => r == Ok(bytes) && pos == next
        case Err(e) => r == Err(e) && pos == old(pos)
    {
      if |buf| < pos + n {
        return Err(NotEnoughBytes);
      }
      var bytes := buf[pos..pos + n];
      pos := pos + n;
      return Ok(bytes);
    }

    /** `ReadBytesAt`: `n` bytes at an absolute offset; `pos` is not used or changed. */
    method ReadBytesAt(n: nat, at: nat) returns (r: Result<Bytes>)
      ensures r == match Take(buf, at, n) case Ok((bytes, _)) => Ok(bytes) case Err(e) => Err(e)
    {
      if |buf| < at + n {
        return Err(NotEnoughBytes);
      }
      return Ok(buf[at..at + n]);
    }

    /**
     * The two-way read `ReadDomain` repeats for every field: `ReadByteAt` and
     * `pointer += 1` once a pointer was taken, `ReadByte` otherwise.
     */
    method ReadByteFrom(pointer: int) returns (r: Result<byte>, pointer': int)
      requires Valid() && pointer >= -1
      modifies this
      ensures Valid() && pointer' >= -1
      ensures var c := Cursor(old(pos), pointer);
        r == (if |buf| < c + 1 then Err(NotEnoughBytes) else Ok(buf[c]))
      ensures r.Ok? ==> (pos, pointer') == Advance(old(pos), pointer, 1)
      ensures r.Err? ==> pos == old(pos)
    {
      if pointer >= 0 {
        r := ReadByteAt(pointer);
        pointer' := pointer + 1;
      } else {
        r := ReadByte();
        pointer' := pointer;
      }
    }

    /** The same two-way read for a label of `n` bytes. */
    method ReadBytesFrom(n: nat, pointer: int) returns (r: Result<Bytes>, pointer': int)
      requires Valid() && pointer >= -1
      modifies this
      ensures Valid() && pointer' >= -1
      ensures var c := Cursor(old(pos), pointer);
        r == (if |buf| < c + n then Err(NotEnoughBytes) else Ok(buf[c..c + n]))
      ensures r.Ok? ==> (pos, pointer') == Advance(old(pos), pointer, n)
      ensures r.Err? ==> pos == old(pos)
    {
      if pointer >= 0 {
        r := ReadBytesAt(n, pointer);
        pointer' := pointer + n;
      } else {
        r := ReadBytes(n);
        pointer' := pointer;
      }
    }

    /** `ReadDomain`: the loop over length bytes, labels and pointers. */
    method ReadDomain() returns (r: Result<Bytes>)
      requires Valid()
      modifies this
      ensures Valid()
      ensures r == ReadDomainSpec(buf, old(pos)).result && pos == ReadDomainSpec(buf, old(pos)).pos
    {
      var domain: Bytes := [];
      var pointer: int := -1;
      var jumps: nat := JumpBudget(buf);
      while true
        invariant Valid() && pointer >= -1
        invariant DomainFrom(buf, pos, pointer, domain, jumps) == ReadDomainSpec(buf, old(pos))
        decreases jumps, |buf| - Cursor(pos, pointer)
      {
        var size;
        size, pointer := ReadByteFrom(pointer);
        if size.Err? {
          return Err(size.error);
        }
        if size.value == 0 {
          return Ok(domain);
        }
        if IsPointerTag(size.value) {
          var second;
          second, pointer := ReadByteFrom(pointer);
          if second.Err? {
            return Err(second.error);
          }
          if jumps == 0 {
            return Err(PointerLoop);
          }
          pointer := BytesToUint16([size.value % 0x40, second.value]);
          jumps := jumps - 1;
          continue;
        }
        var bytes;
        bytes, pointer := ReadBytesFrom(size.value, pointer);
        if bytes.Err? {
          return Err(bytes.error);
        }
        domain := domain + bytes.value + [Dot];
      }
    }
  }

  /** `newPacketReader`: a reader at position 0, or `ErrInvalidPacketSize` outside 12..512 bytes. */
  method NewPacketReader(bytes: Bytes) returns (r: Result<PacketReader>)
    ensures r.Err? <==> !ValidPacketSize(bytes)
    ensures r.Err? ==> r.error == InvalidPacketSize
    ensures r.Ok? ==> fresh(r.value) && r.value.Valid() && r.value.buf == bytes && r.value.pos == 0
  {
    if |bytes| < HeaderSize || |bytes| > MaxPacketSize {
      return Err(InvalidPacketSize);
    }
    var reader := new PacketReader(bytes);
    return Ok(reader);
  }
}
