/**
 * Name compression end to end: what `formatDomain` and `cacheDomain` write
 * (internal/dns/io/writer.go) is what `ReadDomain` (internal/dns/reader.go)
 * reads back, as long as every offset in the writer's table still points
 * at the name it was entered for.
 */
module NameCompression {
  import opened Utils
  import opened Types
  import opened Writer
  import opened Reader

  /**
   * A name both sides agree on: labels of 1 to 63 bytes, each ended by a
   * dot, and nothing after the last dot (the root name is empty).  Longer
   * labels would make `byte(len)` lose bits and set the pointer tag.
   */
  predicate ValidName(d: Bytes)
    decreases |d|
  {
    d == [] || (var i := IndexOfDot(d); 1 <= i <= 63 && i < |d| && ValidName(d[i + 1..]))
  }

  /** What follows the first dot: the next suffix `formatDomain` looks up. */
  function Tail(d: Bytes): (r: Bytes)
    ensures |r| < |d| || d == r == []
  {
    var i := IndexOfDot(d);
    if i < |d| then d[i + 1..] else []
  }

  /** `e` is reached from `d` by dropping labels: one of the suffixes `formatDomain` splits off. */
  predicate IsTailOf(e: Bytes, d: Bytes)
    decreases |d|
  {
    e == d || (IndexOfDot(d) < |d| && IsTailOf(e, d[IndexOfDot(d) + 1..]))
  }

  /** Whether some entry of the table holds the name. */
  predicate Holds(table: Table<nat, Bytes>, name: Bytes)
  {
    KeyByValue(table, name).1
  }

  /** Every held name's next suffix is held as well, as `cacheDomain` enters them all. */
  ghost predicate SuffixClosed(table: Table<nat, Bytes>)
  {
    forall i | 0 <= i < |table| :: Tail(table[i].1) != [] ==> Holds(table, Tail(table[i].1))
  }

  /** The name `ReadDomain` reads by following a pointer to `offset`, with `offset` jumps to spare. */
  function NameAt(buf: Bytes, offset: nat): Result<Bytes>
  {
    DomainFrom(buf, 0, offset, [], offset).result
  }

  /** Each entry points backwards to a valid non-empty name the buffer holds at its offset. */
  ghost predicate EntryOk(buf: Bytes, written: nat, entry: (nat, Bytes))
  {
    entry.0 < written && ValidName(entry.1) && entry.1 != [] && NameAt(buf, entry.0) == Ok(entry.1)
  }

  /** Every entry's offset lies below `fuel` and inside 14 bits, and the reader finds its name there. */
  ghost predicate TableDecodes(buf: Bytes, table: Table<nat, Bytes>, fuel: nat)
  {
    forall i | 0 <= i < |table| :: table[i].0 < fuel && table[i].0 < 0x4000 && NameAt(buf, table[i].0) == Ok(table[i].1)
  }

  /**
   * The writer's state `s` is on its way to the final buffer `buf`: it is a
   * prefix of it, and every table entry points at the name it names.
   */
  ghost predicate Agrees(buf: Bytes, s: WState)
  {
    s.buf <= buf && |buf| <= MaxPacketSize && SuffixClosed(s.table)
    && forall i | 0 <= i < |s.table| :: EntryOk(buf, |s.buf|, s.table[i])
  }

  /** Entry `i` of the table points at its name, and that name's next suffix is held. */
  ghost predicate EntryAgrees(buf: Bytes, s: WState, i: nat)
    requires i < |s.table|
  {
    EntryOk(buf, |s.buf|, s.table[i]) && (Tail(s.table[i].1) != [] ==> Holds(s.table, Tail(s.table[i].1)))
  }

  /** `Agrees` for the first `n` entries, stated entry by entry. */
  ghost predicate AgreesUpTo(buf: Bytes, s: WState, n: nat)
    requires n <= |s.table|
    decreases n
  {
    (n == 0 && s.buf <= buf && |buf| <= MaxPacketSize)
    || (0 < n && EntryAgrees(buf, s, n - 1) && AgreesUpTo(buf, s, n - 1))
  }

  /**
   * The invariant the round-trip lemmas carry from field to field: `Agrees`,
   * as one recursive fact over the table (see `InvAgrees`).
   */
  ghost predicate Inv(buf: Bytes, s: WState)
  {
    AgreesUpTo(buf, s, |s.table|)
  }

  lemma {:induction false} AgreesUpToAll(buf: Bytes, s: WState, n: nat)
    requires n <= |s.table|
    ensures AgreesUpTo(buf, s, n) <==>
      s.buf <= buf && |buf| <= MaxPacketSize && forall i | 0 <= i < n :: EntryAgrees(buf, s, i)
    decreases n
  {
    if n > 0 {
      AgreesUpToAll(buf, s, n - 1);
    }
  }

  lemma InvAgrees(buf: Bytes, s: WState)
    ensures Inv(buf, s) <==> Agrees(buf, s)
  {
    AgreesUpToAll(buf, s, |s.table|);
    if Agrees(buf, s) {
      forall i | 0 <= i < |s.table| ensures EntryAgrees(buf, s, i) {
        assert EntryOk(buf, |s.buf|, s.table[i]);
      }
    }
    if Inv(buf, s) {
      forall i | 0 <= i < |s.table| ensures EntryOk(buf, |s.buf|, s.table[i]) {
        assert EntryAgrees(buf, s, i);
      }
      forall i | 0 <= i < |s.table| && Tail(s.table[i].1) != [] ensures Holds(s.table, Tail(s.table[i].1)) {
        assert EntryAgrees(buf, s, i);
      }
    }
  }

  lemma HoldsEntry(table: Table<nat, Bytes>, i: nat)
    requires i < |table|
    ensures Holds(table, table[i].1)
  {
    assert table[i].1 == table[i].1;
  }

  /** A table that extends another holds everything the other holds. */
  lemma HoldsPrefix(table: Table<nat, Bytes>, table': Table<nat, Bytes>, name: Bytes)
    requires table <= table' && Holds(table, name)
    ensures Holds(table', name)
  {
    var i :| 0 <= i < |table| && table[i].1 == name;
    assert table'[i] == table[i];
    HoldsEntry(table', i);
  }

  lemma {:induction false} TailOfEmpty(e: Bytes)
    requires IsTailOf(e, [])
    ensures e == []
  {
  }

  /** A tail is a suffix. */
  lemma {:induction false} TailIsSuffix(e: Bytes, d: Bytes)
    requires IsTailOf(e, d)
    ensures |e| <= |d| && d[|d| - |e|..] == e
    decreases |d|
  {
    if e != d {
      var i := IndexOfDot(d);
      TailIsSuffix(e, d[i + 1..]);
      assert d[i + 1..][|d[i + 1..]| - |e|..] == d[|d| - |e|..];
    }
  }

  /** Dropping one more label from a tail gives a tail. */
  lemma {:induction false} TailOfTail(e: Bytes, d: Bytes)
    requires IsTailOf(e, d) && IndexOfDot(e) < |e|
    ensures IsTailOf(Tail(e), d)
    decreases |d|
  {
    if e == d {
      var i := IndexOfDot(d);
      assert IsTailOf(d[i + 1..], d[i + 1..]);
    } else {
      TailOfTail(e, d[IndexOfDot(d) + 1..]);
    }
  }

  /** Tails of valid names are valid. */
  lemma {:induction false} ValidTail(e: Bytes, d: Bytes)
    requires IsTailOf(e, d) && ValidName(d)
    ensures ValidName(e)
    decreases |d|
  {
    if e != d {
      ValidTail(e, d[IndexOfDot(d) + 1..]);
    }
  }

  /** A suffix-closed table that holds a name holds all its non-empty tails. */
  lemma {:induction false} TailsHeld(table: Table<nat, Bytes>, d: Bytes, e: Bytes)
    requires SuffixClosed(table) && Holds(table, d) && IsTailOf(e, d) && e != []
    ensures Holds(table, e)
    decreases |d|
  {
    if e != d {
      var d' := d[IndexOfDot(d) + 1..];
      if d' == [] {
        TailOfEmpty(e);
      }
      var i :| 0 <= i < |table| && table[i].1 == d;
      assert Tail(table[i].1) == d';
      TailsHeld(table, d', e);
    }
  }

  lemma EncodedNonEmpty(table: Table<nat, Bytes>, d: Bytes)
    ensures |EncodedDomain(table, d)| >= 1
  {
  }

  /**
   * Up to the first suffix the table holds, the encoding copies the name
   * with each dot turned into the next label's length: the encoding of a
   * tail that is not held starts where the tail starts in the name.
   */
  lemma {:induction false} EncodingOfTail(table: Table<nat, Bytes>, d: Bytes, e: Bytes)
    requires SuffixClosed(table) && IsTailOf(e, d) && e != [] && !Holds(table, e)
    ensures |e| <= |d| && |d| - |e| <= |EncodedDomain(table, d)|
    ensures EncodedDomain(table, d)[|d| - |e|..] == EncodedDomain(table, e)
    decreases |d|
  {
    if e != d {
      var i := IndexOfDot(d);
      var d' := d[i + 1..];
      if Holds(table, d) {
        TailsHeld(table, d, e);
      }
      EncodingOfTail(table, d', e);
      var head := [i % 0x100] + d[..i];
      assert EncodedDomain(table, d) == head + EncodedDomain(table, d');
      assert |head| == |d| - |d'|;
    }
  }

  /** A pointer read follows from any `pos`, gives the same result, leaving the `pos` alone. */
  lemma {:induction false} PointerAgreesWithForward(buf: Bytes, pos: nat, c: nat, domain: Bytes, jumps: nat)
    ensures DomainFrom(buf, pos, c, domain, jumps).result == DomainFrom(buf, c, -1, domain, jumps).result
    decreases jumps, |buf| - c
  {
    if |buf| >= c + 1 {
      var size := buf[c];
      if size != 0 && IsPointerTag(size) {
        if |buf| >= c + 2 && jumps > 0 {
          var target := BytesToUint16([size % 0x40, buf[c + 1]]);
          PointerModeKeepsPos(buf, pos, c + 2, target, domain, jumps - 1);
        }
      } else if size != 0 && |buf| >= c + 1 + size {
        PointerAgreesWithForward(buf, pos, c + 1 + size, domain + buf[c + 1..c + 1 + size] + [Dot], jumps);
      }
    }
  }

  /** The two bytes of a pointer to an offset below 0x4000 are read as a pointer to that offset. */
  lemma PointerTarget(buf: Bytes, p: nat, key: nat)
    requires key < 0x4000 && p + 2 <= |buf| && buf[p..p + 2] == PointerBytes(key)
    ensures buf[p] != 0 && IsPointerTag(buf[p]) && BytesToUint16([buf[p] % 0x40, buf[p + 1]]) == key
  {
    assert buf[p] == PointerBytes(key)[0] && buf[p + 1] == PointerBytes(key)[1];
  }

  /** One pointer step of the reader, seen from the start of a name. */
  lemma PointerStep(buf: Bytes, p: nat, key: nat, fuel: nat)
    requires fuel > 0 && p + 2 <= |buf| && buf[p] != 0 && IsPointerTag(buf[p])
    requires BytesToUint16([buf[p] % 0x40, buf[p + 1]]) == key
    ensures DomainFrom(buf, p, -1, [], fuel) == DomainFrom(buf, p + 2, key, [], fuel - 1)
  {
  }

  /** The pointer case of `NameDecodes`: two bytes that send the reader to an entry. */
  lemma PointerDecodes(buf: Bytes, table: Table<nat, Bytes>, p: nat, d: Bytes, fuel: nat)
    requires Holds(table, d)
    requires TableDecodes(buf, table, fuel)
    requires p + 2 <= |buf| && buf[p..p + 2] == PointerBytes(KeyByValue(table, d).0)
    ensures DomainFrom(buf, p, -1, [], fuel) == DomainRead(Ok(d), p + 2)
  {
    var key := KeyByValue(table, d).0;
    var i :| 0 <= i < |table| && table[i] == (key, d);
    assert key < fuel && key < 0x4000 && NameAt(buf, key) == Ok(d);
    PointerTarget(buf, p, key);
    PointerStep(buf, p, key, fuel);
    DomainFromFuel(buf, 0, key, [], key, fuel - 1);
    PointerModeKeepsPos(buf, p + 2, 0, key, [], fuel - 1);
  }

  /** The label case of `NameDecodes`: a length byte, the label, and the rest of the encoding. */
  lemma LabelStep(buf: Bytes, p: nat, piece: Bytes, rest: Bytes, fuel: nat)
    requires 1 <= |piece| <= 63
    requires p + 1 + |piece| + |rest| <= |buf| && buf[p..p + 1 + |piece| + |rest|] == [|piece|] + piece + rest
    ensures buf[p + 1 + |piece|..p + 1 + |piece| + |rest|] == rest
    ensures DomainFrom(buf, p, -1, [], fuel) == DomainFrom(buf, p + 1 + |piece|, -1, piece + [Dot], fuel)
  {
    LabelBytes(buf, p, piece, rest);
    LabelUnfold(buf, p, piece, fuel);
  }

  lemma LabelBytes(buf: Bytes, p: nat, piece: Bytes, rest: Bytes)
    requires p + 1 + |piece| + |rest| <= |buf| && buf[p..p + 1 + |piece| + |rest|] == [|piece|] + piece + rest
    ensures buf[p] == |piece| && buf[p + 1..p + 1 + |piece|] == piece
    ensures buf[p + 1 + |piece|..p + 1 + |piece| + |rest|] == rest
  {
    var w := buf[p..p + 1 + |piece| + |rest|];
    assert buf[p] == w[0];
    forall k | 0 <= k < |piece| ensures buf[p + 1 + k] == piece[k] {
      assert buf[p + 1 + k] == w[1 + k];
    }
    forall k | 0 <= k < |rest| ensures buf[p + 1 + |piece| + k] == rest[k] {
      assert buf[p + 1 + |piece| + k] == w[1 + |piece| + k];
    }
  }

  lemma LabelCaseDecodes(buf: Bytes, p: nat, piece: Bytes, d': Bytes, enc': Bytes, fuel: nat)
    requires 1 <= |piece| <= 63
    requires p + 1 + |piece| + |enc'| <= |buf| && buf[p..p + 1 + |piece| + |enc'|] == [|piece|] + piece + enc'
    requires DomainFrom(buf, p + 1 + |piece|, -1, [], fuel) == DomainRead(Ok(d'), p + 1 + |piece| + |enc'|)
    ensures DomainFrom(buf, p, -1, [], fuel) == DomainRead(Ok(piece + [Dot] + d'), p + 1 + |piece| + |enc'|)
  {
    LabelStep(buf, p, piece, enc', fuel);
    DomainFromAccumulates(buf, p + 1 + |piece|, -1, piece + [Dot], fuel);
  }

  lemma SplitAtDot(d: Bytes, i: nat)
    requires i < |d| && d[i] == Dot
    ensures d[..i] + [Dot] + d[i + 1..] == d
  {
  }

  lemma LabelUnfold(buf: Bytes, p: nat, piece: Bytes, fuel: nat)
    requires 1 <= |piece| <= 63 && p + 1 + |piece| <= |buf|
    requires buf[p] == |piece| && buf[p + 1..p + 1 + |piece|] == piece
    ensures DomainFrom(buf, p, -1, [], fuel) == DomainFrom(buf, p + 1 + |piece|, -1, piece + [Dot], fuel)
  {
    LabelRead(buf, p, fuel);
    assert [] + buf[p + 1..p + 1 + buf[p]] + [Dot] == piece + [Dot];
  }

  /** A length byte below 64 starts a label: the reader appends it and a dot and goes on after it. */
  lemma LabelRead(buf: Bytes, p: nat, fuel: nat)
    requires p < |buf| && 1 <= buf[p] <= 63 && p + 1 + buf[p] <= |buf|
    ensures DomainFrom(buf, p, -1, [], fuel) == DomainFrom(buf, p + 1 + buf[p], -1, [] + buf[p + 1..p + 1 + buf[p]] + [Dot], fuel)
  {
    assert !IsPointerTag(buf[p]);
  }

  /**
   * `ReadDomain` from the start of an encoding reads the name back and
   * stops right after it, given that each table entry (whose offsets lie
   * below the jump budget and inside 14 bits) points at its name.
   */
  lemma {:induction false} NameDecodes(buf: Bytes, table: Table<nat, Bytes>, p: nat, d: Bytes, fuel: nat)
    requires ValidName(d)
    requires TableDecodes(buf, table, fuel)
    requires p + |EncodedDomain(table, d)| <= |buf| && buf[p..p + |EncodedDomain(table, d)|] == EncodedDomain(table, d)
    ensures DomainFrom(buf, p, -1, [], fuel) == DomainRead(Ok(d), p + |EncodedDomain(table, d)|)
    decreases |d|, 1
  {
    if Holds(table, d) {
      PointerDecodes(buf, table, p, d, fuel);
    } else if IndexOfDot(d) == |d| {
      assert d == [];
      assert buf[p] == EncodedDomain(table, d)[0] == 0;
    } else {
      LabelDecodes(buf, table, p, d, fuel);
    }
  }

  /** The label case of `NameDecodes`: the first label, then the rest of the name. */
  lemma {:induction false} LabelDecodes(buf: Bytes, table: Table<nat, Bytes>, p: nat, d: Bytes, fuel: nat)
    requires ValidName(d) && !Holds(table, d) && IndexOfDot(d) < |d|
    requires TableDecodes(buf, table, fuel)
    requires p + |EncodedDomain(table, d)| <= |buf| && buf[p..p + |EncodedDomain(table, d)|] == EncodedDomain(table, d)
    ensures DomainFrom(buf, p, -1, [], fuel) == DomainRead(Ok(d), p + |EncodedDomain(table, d)|)
    decreases |d|, 0
  {
    var i := IndexOfDot(d);
    var d' := d[i + 1..];
    var piece := d[..i];
    var enc' := EncodedDomain(table, d');
    EncodedLabel(table, d);
    LabelBytes(buf, p, piece, enc');
    NameDecodes(buf, table, p + 1 + i, d', fuel);
    LabelCaseDecodes(buf, p, piece, d', enc', fuel);
    SplitAtDot(d, i);
  }

  /** A name that is not held starts its encoding with its first label. */
  lemma EncodedLabel(table: Table<nat, Bytes>, d: Bytes)
    requires ValidName(d) && !Holds(table, d) && IndexOfDot(d) < |d|
    ensures var i := IndexOfDot(d);
      1 <= i <= 63 && ValidName(d[i + 1..]) && |d[..i]| == i
      && EncodedDomain(table, d) == [i] + d[..i] + EncodedDomain(table, d[i + 1..])
  {
  }

  /** An entry `cacheDomain` added for a tail of `d` that `table` did not hold, at the tail's offset. */
  predicate NewEntry(table: Table<nat, Bytes>, entry: (nat, Bytes), pos: nat, initialLength: nat, d: Bytes)
  {
    entry.0 == initialLength - |entry.1| + pos && IsTailOf(entry.1, d) && entry.1 != [] && !Holds(table, entry.1)
  }

  /** `r` extends `table` by new entries only. */
  ghost predicate AddsTails(table: Table<nat, Bytes>, r: Table<nat, Bytes>, pos: nat, initialLength: nat, d: Bytes)
  {
    table <= r && forall m | |table| <= m < |r| :: NewEntry(table, r[m], pos, initialLength, d)
  }

  /** `r` holds every non-empty tail of `d`. */
  ghost predicate HoldsTails(r: Table<nat, Bytes>, d: Bytes)
  {
    forall e | IsTailOf(e, d) && e != [] :: Holds(r, e)
  }

  /**
   * What `cacheDomain` adds to a table whose keys lie below the offset of
   * the name being written: only appended entries, each a non-empty tail of
   * the name that the table did not hold, at that tail's offset; and
   * afterwards every non-empty tail is held.
   */
  lemma {:induction false} CachedDomainShape(table: Table<nat, Bytes>, pos: nat, initialLength: nat, d: Bytes)
    requires |d| <= initialLength
    requires forall i | 0 <= i < |table| :: table[i].0 < initialLength - |d| + pos
    ensures AddsTails(table, CachedDomain(table, pos, initialLength, d), pos, initialLength, d)
    ensures HoldsTails(CachedDomain(table, pos, initialLength, d), d)
    decreases |d|
  {
    var r := CachedDomain(table, pos, initialLength, d);
    var t := CacheSuffix(table, pos, initialLength, d);
    CacheSuffixShape(table, pos, initialLength, d);
    CachedDomainUnfold(table, pos, initialLength, d);
    var i := IndexOfDot(d);
    if i == |d| {
      assert r == t;
      forall e | IsTailOf(e, d) && e != [] ensures Holds(r, e) {
        assert e == d;
      }
    } else {
      var d' := d[i + 1..];
      assert r == CachedDomain(t, pos, initialLength, d');
      CachedDomainShape(t, pos, initialLength, d');
      AddsTailsCompose(table, t, r, pos, initialLength, d);
      if d != [] {
        HoldsPrefix(t, r, d);
      }
      HoldsTailsStep(r, d);
    }
  }

  /** One turn of `cacheDomain`: at most the suffix itself is appended, and afterwards it is held. */
  lemma CacheSuffixShape(table: Table<nat, Bytes>, pos: nat, initialLength: nat, d: Bytes)
    requires |d| <= initialLength
    requires forall i | 0 <= i < |table| :: table[i].0 < initialLength - |d| + pos
    ensures var t := CacheSuffix(table, pos, initialLength, d);
      AddsTails(table, t, pos, initialLength, d)
      && (d != [] ==> Holds(t, d))
      && (IndexOfDot(d) < |d| ==> forall i | 0 <= i < |t| :: t[i].0 < initialLength - |d[IndexOfDot(d) + 1..]| + pos)
  {
    var key: nat := initialLength - |d| + pos;
    var t := CacheSuffix(table, pos, initialLength, d);
    if d != [] && !Holds(table, d) {
      PutAppends<nat, Bytes>(table, key, d);
      assert t == table + [(key, d)];
      HoldsEntry(t, |table|);
      assert NewEntry(table, t[|table|], pos, initialLength, d);
    } else if d != [] {
      HoldsPrefix(table, t, d);
    }
  }

  /** New entries for the tails of `Tail(d)` after those for `d` itself are new entries for `d`. */
  lemma AddsTailsCompose(table: Table<nat, Bytes>, t: Table<nat, Bytes>, r: Table<nat, Bytes>, pos: nat, initialLength: nat, d: Bytes)
    requires IndexOfDot(d) < |d|
    requires AddsTails(table, t, pos, initialLength, d)
    requires AddsTails(t, r, pos, initialLength, d[IndexOfDot(d) + 1..])
    ensures AddsTails(table, r, pos, initialLength, d)
  {
    forall m | |table| <= m < |r| ensures NewEntry(table, r[m], pos, initialLength, d) {
      if m < |t| {
        assert r[m] == t[m];
      } else {
        NewEntryLifts(table, t, r[m], pos, initialLength, d);
      }
    }
  }

  /** Holding a name and every tail of its tail is holding every tail. */
  lemma HoldsTailsStep(r: Table<nat, Bytes>, d: Bytes)
    requires IndexOfDot(d) < |d| && HoldsTails(r, d[IndexOfDot(d) + 1..]) && (d != [] ==> Holds(r, d))
    ensures HoldsTails(r, d)
  {
  }

  /** An entry new for a tail of `Tail(d)` after the first step is new for a tail of `d`. */
  lemma NewEntryLifts(table: Table<nat, Bytes>, t: Table<nat, Bytes>, entry: (nat, Bytes), pos: nat, initialLength: nat, d: Bytes)
    requires table <= t && IndexOfDot(d) < |d|
    requires NewEntry(t, entry, pos, initialLength, d[IndexOfDot(d) + 1..])
    ensures NewEntry(table, entry, pos, initialLength, d)
  {
    if Holds(table, entry.1) {
      HoldsPrefix(table, t, entry.1);
    }
  }

  /** Later writes do not disturb what the table's entries point at. */
  lemma WriteKeepsInv(buf: Bytes, s: WState, bytes: Bytes, s': WState)
    requires Inv(buf, s) && Write(s, bytes) == (s', true) && s'.buf <= buf
    ensures Inv(buf, s')
  {
    InvAgrees(buf, s);
    InvAgrees(buf, s');
  }

  /**
   * Round trip of one name: from a state on its way to `buf`, `WriteDomain`
   * of a valid name followed by `ReadDomain` at the same offset gives the
   * name back and ends where the write ended, and the new table again
   * points only at names the buffer holds.
   */
  lemma DomainRoundTrip(buf: Bytes, s: WState, d: Bytes, s': WState)
    requires Inv(buf, s) && ValidName(d)
    requires WriteDomainSpec(s, d) == (s', true) && s'.buf <= buf
    ensures ReadDomainSpec(buf, |s.buf|) == DomainRead(Ok(d), |s'.buf|)
    ensures Inv(buf, s')
  {
    assert s' == WState(s.buf + EncodedDomain(s.table, d), CachedDomain(s.table, |s.buf|, |d|, d));
    InvAgrees(buf, s);
    WrittenNameDecodes(buf, s, d);
    CachedKeepsInv(buf, s, d);
    InvAgrees(buf, s');
  }

  /** The encoding of a valid name, once in the buffer, reads back as the name. */
  lemma WrittenNameDecodes(buf: Bytes, s: WState, d: Bytes)
    requires Agrees(buf, s) && ValidName(d)
    requires s.buf + EncodedDomain(s.table, d) <= buf
    ensures ReadDomainSpec(buf, |s.buf|) == DomainRead(Ok(d), |s.buf| + |EncodedDomain(s.table, d)|)
  {
    var enc := EncodedDomain(s.table, d);
    PrefixSlice(buf, s.buf, enc);
    InvDecodes(buf, s, JumpBudget(buf));
    NameDecodes(buf, s.table, |s.buf|, d, JumpBudget(buf));
  }

  /** The table after `cacheDomain` keeps the invariant once the encoding is in the buffer. */
  lemma CachedKeepsInv(buf: Bytes, s: WState, d: Bytes)
    requires Agrees(buf, s) && ValidName(d)
    requires s.buf + EncodedDomain(s.table, d) <= buf
    ensures Agrees(buf, WState(s.buf + EncodedDomain(s.table, d), CachedDomain(s.table, |s.buf|, |d|, d)))
  {
    var p := |s.buf|;
    var enc := EncodedDomain(s.table, d);
    var r := CachedDomain(s.table, p, |d|, d);
    InvDecodes(buf, s, p);
    CachedDomainShape(s.table, p, |d|, d);
    CachedEntriesOk(buf, s, d, r, p + |enc|);
    CachedClosed(s.table, r, p, d);
  }

  /** Old entries still point at their names, and so do the new ones `cacheDomain` added. */
  lemma CachedEntriesOk(buf: Bytes, s: WState, d: Bytes, r: Table<nat, Bytes>, written: nat)
    requires Agrees(buf, s) && ValidName(d)
    requires s.buf + EncodedDomain(s.table, d) <= buf && written == |s.buf| + |EncodedDomain(s.table, d)|
    requires AddsTails(s.table, r, |s.buf|, |d|, d)
    ensures forall m | 0 <= m < |r| :: EntryOk(buf, written, r[m])
  {
    InvDecodes(buf, s, |s.buf|);
    NewEntriesOk(buf, s.table, r, s.buf, d, written);
    OldEntriesOk(buf, s.table, r, |s.buf|, written);
  }

  /** Entries written below `written` still point at their names once more has been written. */
  lemma OldEntriesOk(buf: Bytes, table: Table<nat, Bytes>, r: Table<nat, Bytes>, written: nat, written': nat)
    requires table <= r && written <= written'
    requires forall i | 0 <= i < |table| :: EntryOk(buf, written, table[i])
    ensures forall m | 0 <= m < |table| :: EntryOk(buf, written', r[m])
  {
    forall m | 0 <= m < |table| ensures EntryOk(buf, written', r[m]) {
      assert r[m] == table[m];
      assert EntryOk(buf, written, table[m]);
    }
  }

  /** Every entry `cacheDomain` appended while writing `d` at `p` points at its tail of the name. */
  lemma NewEntriesOk(buf: Bytes, table: Table<nat, Bytes>, r: Table<nat, Bytes>, front: Bytes, d: Bytes, written: nat)
    requires ValidName(d) && SuffixClosed(table) && TableDecodes(buf, table, |front|)
    requires AddsTails(table, r, |front|, |d|, d)
    requires front + EncodedDomain(table, d) <= buf && written == |front| + |EncodedDomain(table, d)|
    ensures forall m | |table| <= m < |r| :: EntryOk(buf, written, r[m])
  {
    forall m | |table| <= m < |r| ensures EntryOk(buf, written, r[m]) {
      NewEntryOk(buf, table, front, d, r[m]);
    }
  }

  /** The bytes after a prefix of the buffer. */
  lemma PrefixSlice(buf: Bytes, front: Bytes, bytes: Bytes)
    requires front + bytes <= buf
    ensures buf[|front|..|front| + |bytes|] == bytes
  {
    assert buf[|front|..|front| + |bytes|] == (front + bytes)[|front|..];
  }

  /** An invariant table decodes with any budget above what has been written. */
  lemma InvDecodes(buf: Bytes, s: WState, fuel: nat)
    requires Agrees(buf, s) && |s.buf| <= fuel
    ensures TableDecodes(buf, s.table, fuel)
  {
    forall i | 0 <= i < |s.table|
      ensures s.table[i].0 < fuel && s.table[i].0 < 0x4000 && NameAt(buf, s.table[i].0) == Ok(s.table[i].1)
    {
      assert EntryOk(buf, |s.buf|, s.table[i]);
    }
  }

  /** An entry `cacheDomain` adds while writing `d` at `p` points at its tail of the name. */
  lemma NewEntryOk(buf: Bytes, table: Table<nat, Bytes>, front: Bytes, d: Bytes, entry: (nat, Bytes))
    requires ValidName(d) && SuffixClosed(table) && TableDecodes(buf, table, |front|)
    requires NewEntry(table, entry, |front|, |d|, d)
    requires front + EncodedDomain(table, d) <= buf
    ensures EntryOk(buf, |front| + |EncodedDomain(table, d)|, entry)
  {
    var p := |front|;
    PrefixSlice(buf, front, EncodedDomain(table, d));
    var e := entry.1;
    var q := entry.0;
    ValidTail(e, d);
    EncodingOfTail(table, d, e);
    EncodedNonEmpty(table, e);
    var encD := EncodedDomain(table, d);
    var encE := EncodedDomain(table, e);
    SliceOfSlice(buf, p, encD, |d| - |e|);
    assert buf[q..q + |encE|] == encE;
    TableDecodesBelow(buf, table, p, q);
    NameDecodes(buf, table, q, e, q);
    PointerAgreesWithForward(buf, 0, q, [], q);
  }

  lemma SliceOfSlice(buf: Bytes, p: nat, bytes: Bytes, k: nat)
    requires p + |bytes| <= |buf| && buf[p..p + |bytes|] == bytes && k <= |bytes|
    ensures buf[p + k..p + |bytes|] == bytes[k..]
  {
    assert buf[p + k..p + |bytes|] == buf[p..p + |bytes|][k..];
  }

  lemma TableDecodesBelow(buf: Bytes, table: Table<nat, Bytes>, fuel: nat, fuel': nat)
    requires TableDecodes(buf, table, fuel) && fuel <= fuel'
    ensures TableDecodes(buf, table, fuel')
  {
  }

  /** After `cacheDomain` the table is again closed under taking tails. */
  lemma CachedClosed(table: Table<nat, Bytes>, r: Table<nat, Bytes>, p: nat, d: Bytes)
    requires SuffixClosed(table) && AddsTails(table, r, p, |d|, d) && HoldsTails(r, d)
    ensures SuffixClosed(r)
  {
    forall m | 0 <= m < |r| && Tail(r[m].1) != [] ensures Holds(r, Tail(r[m].1)) {
      if m < |table| {
        assert r[m] == table[m];
        HoldsPrefix(table, r, Tail(table[m].1));
      } else {
        assert NewEntry(table, r[m], p, |d|, d);
        TailOfTail(r[m].1, d);
      }
    }
  }
}
