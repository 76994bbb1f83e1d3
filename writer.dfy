/**
 * The bounds-checked packet writer of internal/dns/io/writer.go: an append-only
 * buffer with a 512-byte ceiling and the offset-to-suffix table that drives
 * name compression (section 4.1.4 of RFC 1035).
 */
module Writer {
  import opened Utils
  import opened Types

  /** `strings.Index(s, ".")`, with `|s|` standing for Go's -1. */
  function IndexOfDot(s: Bytes): (i: nat)
    ensures i <= |s|
    ensures i < |s| ==> s[i] == Dot
  {
    if s == [] then 0
    else if s[0] == Dot then 0
    else 1 + IndexOfDot(s[1..])
  }

  /** The dot `IndexOfDot` finds is the first one. */
  lemma {:induction false} IndexOfDotFirst(s: Bytes)
    ensures forall j | 0 <= j < IndexOfDot(s) :: s[j] != Dot
  {
    if s != [] && s[0] != Dot {
      IndexOfDotFirst(s[1..]);
    }
  }

  /**
   * `uint16(pointer | 0b11000000_00000000)` for a non-negative offset: the two
   * tag bits set over the low 14 bits of the offset; the higher bits, which
   * the conversion to `uint16` would keep or drop, are absorbed by the tag.
   */
  function PointerWord(offset: nat): (w: uint16)
    ensures w / 0x4000 == 3 && w % 0x4000 == offset % 0x4000
  {
    0xC000 + offset % 0x4000
  }

  /** The two bytes of a compression pointer. */
  function PointerBytes(offset: nat): (r: Bytes)
    ensures |r| == 2 && r[0] / 0x40 == 3
    ensures (r[0] as int % 0x40) * 0x100 + r[1] == offset % 0x4000
  {
    Uint16ToBytes(PointerWord(offset))
  }

  /**
   * What `formatDomain` emits: the suffixes of `domain` after each dot are
   * looked up longest first; the first one the table holds becomes a pointer
   * and ends the name, every piece before it becomes `byte(len)` + piece.  The
   * last piece (empty for a dot-terminated name) supplies the zero byte.
   */
  function EncodedDomain(table: Table<nat, Bytes>, domain: Bytes): Bytes
    decreases |domain|
  {
    var (key, found) := KeyByValue(table, domain);
    if found then PointerBytes(key)
    else
      var i := IndexOfDot(domain);
      if i == |domain| then [|domain| % 0x100] + domain
      else [i % 0x100] + domain[..i] + EncodedDomain(table, domain[i + 1..])
  }

  /**
   * The table after `cacheDomain`: walking the dot-suffixes of the name, each
   * non-empty suffix the table does not yet hold is entered at
   * `initialLength - len(suffix) + pos`, its offset in the name being written.
   */
  function CachedDomain(table: Table<nat, Bytes>, pos: nat, initialLength: nat, domain: Bytes): Table<nat, Bytes>
    requires |domain| <= initialLength
    decreases |domain|
  {
    var table' := CacheSuffix(table, pos, initialLength, domain);
    var i := IndexOfDot(domain);
    if i == |domain| then table'
    else CachedDomain(table', pos, initialLength, domain[i + 1..])
  }

  /** One turn of the `cacheDomain` loop: the current suffix is entered if it is non-empty and new. */
  function CacheSuffix(table: Table<nat, Bytes>, pos: nat, initialLength: nat, domain: Bytes): Table<nat, Bytes>
    requires |domain| <= initialLength
  {
    if domain != [] && !KeyByValue(table, domain).1
    then Put<nat, Bytes>(table, initialLength - |domain| + pos, domain)
    else table
  }

  /** The writer's state: its buffer (`pos` is always its length) and its compression table. */
  datatype WState = WState(buf: Bytes, table: Table<nat, Bytes>)

  const EmptyWState := WState([], [])

  /** Being a prefix carries over: a state on its way to `b`, which is on its way to `c`. */
  lemma PrefixChain(a: Bytes, b: Bytes, c: Bytes)
    requires a <= b && b <= c
    ensures a <= c
  {
    assert a == b[..|a|] && b[..|a|] == c[..|b|][..|a|];
  }

  /**
   * Every `Write*`: if `MaxPacketSize < pos + n` the write fails with
   * `ErrTooManyBytes` and nothing changes, otherwise exactly the bytes are
   * appended.
   */
  function Write(s: WState, bytes: Bytes): (r: (WState, bool))
    ensures r.1 <==> |s.buf| + |bytes| <= MaxPacketSize
    ensures r.1 ==> r.0 == WState(s.buf + bytes, s.table)
    ensures !r.1 ==> r.0 == s
  {
    if MaxPacketSize < |s.buf| + |bytes| then (s, false)
    else (WState(s.buf + bytes, s.table), true)
  }

  /** `WriteDomain`: format against the old table, enter the suffixes, then write the bytes. */
  function WriteDomainSpec(s: WState, domain: Bytes): (WState, bool)
  {
    var bytes := EncodedDomain(s.table, domain);
    Write(WState(s.buf, CachedDomain(s.table, |s.buf|, |domain|, domain)), bytes)
  }

  /**
   * `WriteDomainWithLength`: the formatted name's length as a 16-bit field,
   * then the suffixes are entered (after the length field) and the name written.
   */
  function WriteDomainWithLengthSpec(s: WState, domain: Bytes): (WState, bool)
  {
    var bytes := EncodedDomain(s.table, domain);
    var (s1, ok) := Write(s, Uint16ToBytes(|bytes| % 0x1_0000));
    if !ok then (s1, false)
    else Write(WState(s1.buf, CachedDomain(s1.table, |s1.buf|, |domain|, domain)), bytes)
  }

  /** The table invariant the writer keeps: a map with one offset per suffix. */
  ghost predicate TableInvariant(table: Table<nat, Bytes>)
  {
    KeysUnique(table) && ValuesUnique(table)
  }

  /** `cacheDomain` keeps the table a map and skips values already present. */
  lemma {:induction false} CachedDomainInvariant(table: Table<nat, Bytes>, pos: nat, initialLength: nat, domain: Bytes)
    requires |domain| <= initialLength
    requires TableInvariant(table)
    ensures TableInvariant(CachedDomain(table, pos, initialLength, domain))
    decreases |domain|
  {
    var t := table;
    if domain != [] && !KeyByValue(table, domain).1 {
      t := Put<nat, Bytes>(table, initialLength - |domain| + pos, domain);
      PutKeysUnique(table, initialLength - |domain| + pos, domain);
      PutValuesUnique(table, initialLength - |domain| + pos, domain);
    }
    var i := IndexOfDot(domain);
    if i < |domain| {
      CachedDomainInvariant(t, pos, initialLength, domain[i + 1..]);
    }
  }

  class PacketWriter {
    var buf: Bytes
    var pos: int
    var cache: Table<nat, Bytes>

    ghost predicate Valid()
      reads this
    {
      pos == |buf| <= MaxPacketSize && TableInvariant(cache)
    }

    function State(): WState
      reads this
    {
      WState(buf, cache)
    }

    /** `NewPacketWriter`: an empty buffer at position 0 with an empty table. */
    constructor ()
      ensures Valid() && State() == EmptyWState && pos == 0
    {
      buf, pos, cache := [], 0, [];
    }

    method WriteUint16(x: uint16) returns (ok: bool)
      requires Valid()
      modifies this
      ensures Valid() && (State(), ok) == Write(old(State()), Uint16ToBytes(x))
    {
      if MaxPacketSize < pos + 2 {
        return false;
      }
      buf, pos := buf + Uint16ToBytes(x), pos + 2;
      return true;
    }

    method WriteUint32(x: uint32) returns (ok: bool)
      requires Valid()
      modifies this
      ensures Valid() && (State(), ok) == Write(old(State()), Uint32ToBytes(x))
    {
      if MaxPacketSize < pos + 4 {
        return false;
      }
      buf, pos := buf + Uint32ToBytes(x), pos + 4;
      return true;
    }

    method WriteByte(b: byte) returns (ok: bool)
      requires Valid()
      modifies this
      ensures Valid() && (State(), ok) == Write(old(State()), [b])
    {
      if MaxPacketSize < pos + 1 {
        return false;
      }
      buf, pos := buf + [b], pos + 1;
      return true;
    }

    method WriteBytes(bytes: Bytes) returns (ok: bool)
      requires Valid()
      modifies this
      ensures Valid() && (State(), ok) == Write(old(State()), bytes)
    {
      if MaxPacketSize < pos + |bytes| {
        return false;
      }
      buf, pos := buf + bytes, pos + |bytes|;
      return true;
    }

    /** `formatDomain`: the loop over the split pieces, stopping at the first suffix in the table. */
    method FormatDomain(domain: Bytes) returns (bytes: Bytes)
      ensures bytes == EncodedDomain(cache, domain)
    {
      var table := cache;
      ghost var target := EncodedDomain(table, domain);
      bytes := [];
      var rest := domain;
      while true
        invariant target == bytes + EncodedDomain(table, rest)
        decreases |rest|
      {
        var pointer, ok := FindKeyByValue(table, rest);
        var i := IndexOfDot(rest);
        EncodedDomainTurn(table, rest, pointer, ok, i, bytes, target);
        if ok {
          bytes := bytes + PointerBytes(pointer);
          return;
        }
        if i == |rest| {
          bytes := bytes + [|rest| % 0x100] + rest;
          return;
        }
        bytes := bytes + [i % 0x100] + rest[..i];
        rest := rest[i + 1..];
      }
    }

    /** `cacheDomain`: enters every new non-empty suffix at its offset from `pos`. */
    method CacheDomain(domain: Bytes)
      requires Valid()
      modifies this
      ensures Valid()
      ensures buf == old(buf) && pos == old(pos)
      ensures cache == CachedDomain(old(cache), |buf|, |domain|, domain)
    {
      var initialLength := |domain|;
      var rest := domain;
      ghost var target := CachedDomain(cache, pos, initialLength, domain);
      while true
        invariant Valid() && buf == old(buf) && pos == old(pos)
        invariant |rest| <= initialLength
        invariant CachedDomain(cache, pos, initialLength, rest) == target
        decreases |rest|
      {
        ghost var before := cache;
        EnterSuffix(initialLength, rest);
        var i := IndexOfDot(rest);
        CachedDomainTurn(before, cache, pos, initialLength, rest, i, target);
        if i == |rest| {
          return;
        }
        rest := rest[i + 1..];
      }
    }

    /** The body of the `cacheDomain` loop: `Set(pos + initialLength - len(rest), rest)` unless held or empty. */
    method EnterSuffix(initialLength: nat, rest: Bytes)
      requires Valid() && |rest| <= initialLength
      modifies this
      ensures Valid() && buf == old(buf) && pos == old(pos)
      ensures cache == CacheSuffix(old(cache), |buf|, initialLength, rest)
    {
      var _, ok := FindKeyByValue(cache, rest);
      if rest != [] && !ok {
        CachedDomainStep(cache, initialLength - |rest| + pos, rest);
        cache := Put<nat, Bytes>(cache, initialLength - |rest| + pos, rest);
      }
    }

    method WriteDomain(domain: Bytes) returns (ok: bool)
      requires Valid()
      modifies this
      ensures Valid() && (State(), ok) == WriteDomainSpec(old(State()), domain)
    {
      var bytes := FormatDomain(domain);
      CacheDomain(domain);
      ok := WriteBytes(bytes);
    }

    method WriteDomainWithLength(domain: Bytes) returns (ok: bool)
      requires Valid()
      modifies this
      ensures Valid() && (State(), ok) == WriteDomainWithLengthSpec(old(State()), domain)
    {
      var bytes := FormatDomain(domain);
      ok := WriteUint16(|bytes| % 0x1_0000);
      if !ok {
        return;
      }
      CacheDomain(domain);
      ok := WriteBytes(bytes);
    }

    /** `Bytes`: the buffer written so far. */
    function Buffer(): (r: Bytes)
      reads this
      requires Valid()
      ensures |r| <= MaxPacketSize && r == State().buf
    {
      buf
    }
  }

  /** One turn of the `cacheDomain` loop. */
  lemma CachedDomainUnfold(table: Table<nat, Bytes>, pos: nat, initialLength: nat, domain: Bytes)
    requires |domain| <= initialLength
    ensures var table' := CacheSuffix(table, pos, initialLength, domain);
      var i := IndexOfDot(domain);
      CachedDomain(table, pos, initialLength, domain)
        == if i == |domain| then table' else CachedDomain(table', pos, initialLength, domain[i + 1..])
  {
  }

  /** One turn of the `cacheDomain` loop: the table reached so far still leads to `target`. */
  lemma CachedDomainTurn(before: Table<nat, Bytes>, after: Table<nat, Bytes>, pos: nat, initialLength: nat,
                         rest: Bytes, i: nat, target: Table<nat, Bytes>)
    requires |rest| <= initialLength && i == IndexOfDot(rest)
    requires after == CacheSuffix(before, pos, initialLength, rest)
    requires CachedDomain(before, pos, initialLength, rest) == target
    ensures i == |rest| ==> after == target
    ensures i < |rest| ==> CachedDomain(after, pos, initialLength, rest[i + 1..]) == target
  {
  }

  /** One turn of the `formatDomain` loop: a pointer, the last piece, or a label and the rest. */
  lemma EncodedDomainTurn(table: Table<nat, Bytes>, rest: Bytes, key: nat, found: bool, i: nat,
                          bytes: Bytes, target: Bytes)
    requires (key, found) == KeyByValue(table, rest) && i == IndexOfDot(rest)
    requires target == bytes + EncodedDomain(table, rest)
    ensures found ==> target == bytes + PointerBytes(key)
    ensures !found && i == |rest| ==> target == bytes + [|rest| % 0x100] + rest
    ensures !found && i < |rest| ==> target == bytes + [i % 0x100] + rest[..i] + EncodedDomain(table, rest[i + 1..])
  {
    if !found && i < |rest| {
      var tail := EncodedDomain(table, rest[i + 1..]);
      assert EncodedDomain(table, rest) == [i % 0x100] + rest[..i] + tail;
      assert bytes + ([i % 0x100] + rest[..i] + tail) == bytes + [i % 0x100] + rest[..i] + tail;
    }
  }

  /** One insertion of `cacheDomain` keeps the table invariant. */
  lemma CachedDomainStep(table: Table<nat, Bytes>, key: nat, domain: Bytes)
    requires TableInvariant(table) && !KeyByValue(table, domain).1
    ensures TableInvariant(Put<nat, Bytes>(table, key, domain))
  {
    PutKeysUnique(table, key, domain);
    PutValuesUnique(table, key, domain);
  }
}
