/** Big-endian byte helpers and the reverse map lookup of internal/utils. */
module Utils {

  /** Go's `byte`, `uint16` and `uint32`, as ranges of the unbounded integers. */
  type byte = x: int | 0 <= x < 0x100
  type uint16 = x: int | 0 <= x < 0x1_0000
  type uint32 = x: int | 0 <= x < 0x1_0000_0000

  /** A Go string or byte slice: the source keeps domain names as byte strings. */
  type Bytes = seq<byte>

  /** The label separator '.'. */
  const Dot: byte := 46

  /** `BytesToUint16`: `u16 += uint16(b[0]) << 8; u16 += uint16(b[1])`, each step wrapping at 2^16. */
  function BytesToUint16(bytes: Bytes): (r: uint16)
    requires |bytes| == 2
    ensures r == bytes[0] as int * 0x100 + bytes[1]
  {
    var u16 := (0 + (bytes[0] as int * 0x100) % 0x1_0000) % 0x1_0000;
    (u16 + bytes[1]) % 0x1_0000
  }

  /** `BytesToUint32`: four shifted bytes added into a wrapping `uint32`. */
  function BytesToUint32(bytes: Bytes): (r: uint32)
    requires |bytes| == 4
    ensures r == bytes[0] as int * 0x100_0000 + bytes[1] as int * 0x1_0000 + bytes[2] as int * 0x100 + bytes[3]
  {
    var s0, s1, s2 := bytes[0] as int * 0x100_0000, bytes[1] as int * 0x1_0000, bytes[2] as int * 0x100;
    assert s0 % 0x1_0000_0000 == s0 && s1 % 0x1_0000_0000 == s1 && s2 % 0x1_0000_0000 == s2;
    var u0 := (0 + s0 % 0x1_0000_0000) % 0x1_0000_0000;
    assert u0 == s0;
    var u1 := (u0 + s1 % 0x1_0000_0000) % 0x1_0000_0000;
    assert u1 == s0 + s1;
    var u2 := (u1 + s2 % 0x1_0000_0000) % 0x1_0000_0000;
    assert u2 == s0 + s1 + s2;
    (u2 + bytes[3]) % 0x1_0000_0000
  }

  /** `Uint16ToBytes`: the big-endian encoding, most significant byte first. */
  function Uint16ToBytes(x: uint16): (r: Bytes)
    ensures |r| == 2 && BytesToUint16(r) == x
  {
    [x / 0x100, x % 0x100]
  }

  /** `Uint32ToBytes`: the big-endian encoding, the high half first. */
  function Uint32ToBytes(x: uint32): (r: Bytes)
    ensures |r| == 4 && BytesToUint32(r) == x
  {
    var high, low := Uint16ToBytes(x / 0x1_0000), Uint16ToBytes(x % 0x1_0000);
    assert BytesToUint32(high + low) == BytesToUint16(high) * 0x1_0000 + BytesToUint16(low);
    high + low
  }

  /** `BoolToUint8`: 1 for true, 0 for false. */
  function BoolToUint8(b: bool): (r: byte)
    ensures r <= 1 && (r == 1 <==> b)
  {
    if b then 1 else 0
  }

  /** Two byte pairs with the same 16-bit value are the same pair: the shifted bytes occupy disjoint bits. */
  lemma BytesToUint16Injective(a: Bytes, b: Bytes)
    requires |a| == 2 && |b| == 2
    requires BytesToUint16(a) == BytesToUint16(b)
    ensures a == b
  {
    assert a[0] == BytesToUint16(a) / 0x100 == b[0];
  }

  /** Decoding then re-encoding a byte pair gives the pair back. */
  lemma Uint16BytesRoundTrip(b: Bytes)
    requires |b| == 2
    ensures Uint16ToBytes(BytesToUint16(b)) == b
  {
    BytesToUint16Injective(Uint16ToBytes(BytesToUint16(b)), b);
  }

  /** Four bytes with the same 32-bit value are the same bytes. */
  lemma BytesToUint32Injective(a: Bytes, b: Bytes)
    requires |a| == 4 && |b| == 4
    requires BytesToUint32(a) == BytesToUint32(b)
    ensures a == b
  {
    var v := BytesToUint32(a);
    assert a[0] == v / 0x100_0000 == b[0];
    var r1 := v - a[0] as int * 0x100_0000;
    assert a[1] == r1 / 0x1_0000 == b[1];
    var r2 := r1 - a[1] as int * 0x1_0000;
    assert a[2] == r2 / 0x100 == b[2];
  }

  /** Decoding then re-encoding four bytes gives the bytes back. */
  lemma Uint32BytesRoundTrip(b: Bytes)
    requires |b| == 4
    ensures Uint32ToBytes(BytesToUint32(b)) == b
  {
    BytesToUint32Injective(Uint32ToBytes(BytesToUint32(b)), b);
  }

  /** The header ID bytes `12 34` and the TTL bytes `00 01 51 80` of the test vectors. */
  lemma DecodeScenarios()
    ensures BytesToUint16([0x12, 0x34]) == 0x1234
    ensures BytesToUint32([0x00, 0x01, 0x51, 0x80]) == 86400
  {
  }

  datatype Option<T> = Some(value: T) | None

  /**
   * A Go map, listed as its entries in one iteration order.  Go leaves that
   * order unspecified; `KeysUnique` makes the list a map, and `View` is the
   * map it lists.
   */
  type Table<K, V> = seq<(K, V)>

  /** No key is listed twice. */
  ghost predicate KeysUnique<K, V>(table: Table<K, V>)
  {
    forall i, j | 0 <= i < j < |table| :: table[i].0 != table[j].0
  }

  /** No value is listed twice. */
  ghost predicate ValuesUnique<K, V>(table: Table<K, V>)
  {
    forall i, j | 0 <= i < j < |table| :: table[i].1 != table[j].1
  }

  /** The map a table lists; the first entry of a key wins, though `Put` never lists a key twice. */
  ghost function View<K, V>(table: Table<K, V>): map<K, V>
  {
    if table == [] then map[] else View(table[1..])[table[0].0 := table[0].1]
  }

  /** `table[key]` with its `ok` flag: the value of the key's entry, if any. */
  function Get<K(==), V>(table: Table<K, V>, key: K): (r: Option<V>)
    ensures r.Some? <==> key in View(table)
    ensures r.Some? ==> View(table)[key] == r.value
  {
    if table == [] then None
    else if table[0].0 == key then Some(table[0].1)
    else Get(table[1..], key)
  }

  /** `table[key] = value`: the key's entry is replaced in place, or a new entry is appended. */
  function Put<K(==), V>(table: Table<K, V>, key: K, value: V): (r: Table<K, V>)
    ensures |r| == |table| || (|r| == |table| + 1 && r[|table|] == (key, value))
    ensures |r| == |table| + 1 ==> forall i | 0 <= i < |table| :: table[i].0 != key
    ensures forall i | 0 <= i < |table| :: r[i] == table[i] || (table[i].0 == key && r[i] == (key, value))
  {
    if table == [] then [(key, value)]
    else if table[0].0 == key then [(key, value)] + table[1..]
    else [table[0]] + Put(table[1..], key, value)
  }

  /** `Put` updates the map the table lists at one key. */
  lemma {:induction false} PutView<K, V>(table: Table<K, V>, key: K, value: V)
    ensures View(Put(table, key, value)) == View(table)[key := value]
  {
    if table != [] && table[0].0 != key {
      PutView(table[1..], key, value);
      assert Put(table, key, value)[1..] == Put(table[1..], key, value);
    }
  }

  /** A key the table does not list is appended as its last entry. */
  lemma {:induction false} PutAppends<K, V>(table: Table<K, V>, key: K, value: V)
    requires forall i | 0 <= i < |table| :: table[i].0 != key
    ensures Put(table, key, value) == table + [(key, value)]
  {
    if table != [] {
      PutAppends(table[1..], key, value);
      assert [table[0]] + (table[1..] + [(key, value)]) == table + [(key, value)];
    }
  }

  /** `Put` keeps a table a map. */
  lemma PutKeysUnique<K, V>(table: Table<K, V>, key: K, value: V)
    requires KeysUnique(table)
    ensures KeysUnique(Put(table, key, value))
  {
  }

  /** `Put` of a value the table does not hold keeps the values unique. */
  lemma PutValuesUnique<K, V>(table: Table<K, V>, key: K, value: V)
    requires KeysUnique(table) && ValuesUnique(table)
    requires forall i | 0 <= i < |table| :: table[i].1 != value
    ensures ValuesUnique(Put(table, key, value))
  {
    ReplacedValuesUnique(table, Put<K, V>(table, key, value), key, value);
  }

  /** A table that differs from a map only in entries `(key, value)`, for a new value, has unique values. */
  lemma ReplacedValuesUnique<K, V>(table: Table<K, V>, r: Table<K, V>, key: K, value: V)
    requires KeysUnique(table) && ValuesUnique(table)
    requires forall i | 0 <= i < |table| :: table[i].1 != value
    requires |r| == |table| || (|r| == |table| + 1 && r[|table|] == (key, value))
    requires |r| == |table| + 1 ==> forall i | 0 <= i < |table| :: table[i].0 != key
    requires forall i | 0 <= i < |table| :: r[i] == table[i] || (table[i].0 == key && r[i] == (key, value))
    ensures ValuesUnique(r)
  {
    forall i, j | 0 <= i < j < |r| ensures r[i].1 != r[j].1 {
      assert r[i] == table[i] || (table[i].0 == key && r[i] == (key, value));
      if j < |table| {
        assert r[j] == table[j] || (table[j].0 == key && r[j] == (key, value));
        assert table[i].0 != table[j].0;
      } else {
        assert r[j] == (key, value);
        assert table[i].0 != key;
      }
    }
  }

  /** `delete(table, key)`: the key's entries are dropped, the others keep their order. */
  function Delete<K(==), V>(table: Table<K, V>, key: K): (r: Table<K, V>)
    ensures View(r) == View(table) - {key}
    ensures KeysUnique(table) ==> KeysUnique(r)
    ensures forall i | 0 <= i < |r| :: r[i] in table && r[i].0 != key
  {
    if table == [] then []
    else if table[0].0 == key then Delete(table[1..], key)
    else [table[0]] + Delete(table[1..], key)
  }

  /**
   * `KeyByValue` on the writer's offset table: the key of the first entry
   * holding `target` and true, or the zero key and false.
   */
  function KeyByValue<V(==)>(table: Table<nat, V>, target: V): (r: (nat, bool))
    ensures r.1 <==> exists i | 0 <= i < |table| :: table[i].1 == target
    ensures r.1 ==> exists i | 0 <= i < |table| :: table[i] == (r.0, target)
    ensures !r.1 ==> r.0 == 0
  {
    var i := FirstHolding(table, target, 0);
    if i < |table| then (table[i].0, true) else (0, false)
  }

  /** The index of the first entry at or after `from` holding `target`, or `|table|`. */
  function FirstHolding<V(==)>(table: Table<nat, V>, target: V, from: nat): (i: nat)
    requires from <= |table|
    ensures from <= i <= |table|
    ensures i < |table| ==> table[i].1 == target
    ensures forall j | from <= j < i :: table[j].1 != target
    decreases |table| - from
  {
    if from == |table| then from
    else if table[from].1 == target then from
    else FirstHolding(table, target, from + 1)
  }

  /** The loop of `KeyByValue`: range over the entries and return at the first match. */
  method FindKeyByValue<V(==)>(table: Table<nat, V>, target: V) returns (key: nat, found: bool)
    ensures key == KeyByValue(table, target).0 && found == KeyByValue(table, target).1
  {
    for i := 0 to |table|
      invariant FirstHolding(table, target, i) == FirstHolding(table, target, 0)
    {
      if table[i].1 == target {
        return table[i].0, true;
      }
    }
    return 0, false;
  }

  /** The key found holds the target in the map the table lists, and a miss means no key does. */
  lemma KeyByValueInView<V>(table: Table<nat, V>, target: V)
    requires KeysUnique(table)
    ensures var (key, found) := KeyByValue(table, target);
      found ==> key in View(table) && View(table)[key] == target
    ensures !KeyByValue(table, target).1 ==> forall k | k in View(table) :: View(table)[k] != target
  {
    var (key, found) := KeyByValue(table, target);
    if found {
      var i :| 0 <= i < |table| && table[i] == (key, target);
      ViewHasEntry(table, i);
    } else {
      forall k | k in View(table) ensures View(table)[k] != target {
        var i := ViewEntryOf(table, k);
      }
    }
  }

  /** Every listed entry is in the map the table lists. */
  lemma {:induction false} ViewHasEntry<K, V>(table: Table<K, V>, i: int)
    requires KeysUnique(table) && 0 <= i < |table|
    ensures table[i].0 in View(table) && View(table)[table[i].0] == table[i].1
  {
    if i > 0 {
      ViewHasEntry(table[1..], i - 1);
    }
  }

  /** Every key of the map the table lists comes from an entry. */
  lemma {:induction false} ViewEntryOf<K, V>(table: Table<K, V>, k: K) returns (i: int)
    requires k in View(table)
    ensures 0 <= i < |table| && table[i] == (k, View(table)[k])
  {
    if table[0].0 == k {
      i := 0;
    } else {
      var j := ViewEntryOf(table[1..], k);
      i := j + 1;
    }
  }

  /**
   * With unique values, the key found is the one key holding the target, so
   * the iteration order Go leaves open does not change the result.
   */
  lemma KeyByValueUnique<V>(table: Table<nat, V>, target: V, i: int)
    requires ValuesUnique(table)
    requires 0 <= i < |table| && table[i].1 == target
    ensures KeyByValue(table, target) == (table[i].0, true)
  {
  }
}
