/**
 * What the two TTL caches (internal/dns/cache/cache.go and
 * internal/dns/cache.go) share: entries that carry the time they expire at,
 * and the sweep of `watchTtl` that deletes those expired at a tick.  Times
 * are whole seconds.
 */
module Expiry {
  import opened Utils

  /** A `cacheRecord`: the cached value and `expiresAt`. */
  datatype Entry<T> = Entry(value: T, expiresAt: int)

  /** `expiresAt.Before(now)`: strictly earlier. */
  predicate Expired<T>(e: Entry<T>, now: int)
  {
    e.expiresAt < now
  }

  /** The entries the sweep at `now` keeps, in their order. */
  function Unexpired<K, T>(table: Table<K, Entry<T>>, now: int): (r: Table<K, Entry<T>>)
    ensures |r| <= |table|
    ensures forall i | 0 <= i < |r| :: !Expired(r[i].1, now)
  {
    if table == [] then []
    else (if Expired(table[0].1, now) then [] else [table[0]]) + Unexpired(table[1..], now)
  }

  /** The map the sweep leaves: every entry of `m` that has not expired, and nothing else. */
  ghost function Live<K, T>(m: map<K, Entry<T>>, now: int): map<K, Entry<T>>
  {
    map k | k in m && !Expired(m[k], now) :: m[k]
  }

  lemma {:induction false} UnexpiredAppend<K, T>(a: Table<K, Entry<T>>, b: Table<K, Entry<T>>, now: int)
    ensures Unexpired(a + b, now) == Unexpired(a, now) + Unexpired(b, now)
  {
    if a == [] {
      assert a + b == b;
    } else {
      assert (a + b)[1..] == a[1..] + b;
      UnexpiredAppend(a[1..], b, now);
    }
  }

  /** The sweep keeps no key the table does not list. */
  lemma {:induction false} UnexpiredKeys<K, T>(table: Table<K, Entry<T>>, now: int, key: K)
    requires forall i | 0 <= i < |table| :: table[i].0 != key
    ensures forall i | 0 <= i < |Unexpired(table, now)| :: Unexpired(table, now)[i].0 != key
  {
    if table != [] {
      UnexpiredKeys(table[1..], now, key);
    }
  }

  /** The sweep keeps a table a map. */
  lemma {:induction false} UnexpiredKeysUnique<K, T>(table: Table<K, Entry<T>>, now: int)
    requires KeysUnique(table)
    ensures KeysUnique(Unexpired(table, now))
  {
    if table != [] {
      UnexpiredKeysUnique(table[1..], now);
      UnexpiredKeys(table[1..], now, table[0].0);
    }
  }

  lemma {:induction false} DeleteAbsent<K, V>(table: Table<K, V>, key: K)
    requires forall i | 0 <= i < |table| :: table[i].0 != key
    ensures Delete(table, key) == table
  {
    if table != [] {
      DeleteAbsent(table[1..], key);
    }
  }

  /** Deleting a key listed once drops exactly its entry. */
  lemma {:induction false} DeleteOnce<K, V>(before: Table<K, V>, entry: (K, V), after: Table<K, V>)
    requires forall i | 0 <= i < |before| :: before[i].0 != entry.0
    requires forall i | 0 <= i < |after| :: after[i].0 != entry.0
    ensures Delete(before + [entry] + after, entry.0) == before + after
  {
    if before == [] {
      assert before + [entry] + after == [entry] + after;
      DeleteAbsent(after, entry.0);
    } else {
      assert (before + [entry] + after)[1..] == before[1..] + [entry] + after;
      DeleteOnce(before[1..], entry, after);
      assert [before[0]] + (before[1..] + after) == before + after;
    }
  }

  lemma {:induction false} AbsentFromView<K, V>(table: Table<K, V>, key: K)
    requires forall i | 0 <= i < |table| :: table[i].0 != key
    ensures key !in View(table)
  {
    if table != [] {
      AbsentFromView(table[1..], key);
    }
  }

  /** The sweep, seen on the map the table lists: exactly the entries expired at `now` are gone. */
  lemma {:induction false} UnexpiredView<K, T>(table: Table<K, Entry<T>>, now: int)
    requires KeysUnique(table)
    ensures View(Unexpired(table, now)) == Live(View(table), now)
  {
    if table != [] {
      var (key, entry) := table[0];
      var rest := table[1..];
      UnexpiredView(rest, now);
      AbsentFromView(rest, key);
      UnexpiredKeys(rest, now, key);
      AbsentFromView(Unexpired(rest, now), key);
      var m := View(rest);
      assert View(table) == m[key := entry];
      if Expired(entry, now) {
        assert Unexpired(table, now) == Unexpired(rest, now);
        assert Live(m[key := entry], now) == Live(m, now);
      } else {
        var kept := Unexpired(rest, now);
        assert Unexpired(table, now) == [table[0]] + kept;
        assert ([table[0]] + kept)[1..] == kept;
        assert View(Unexpired(table, now)) == View(kept)[key := entry];
        assert Live(m[key := entry], now) == Live(m, now)[key := entry];
      }
    }
  }

  /** One step of the sweep: deleting the next entry's key when it has expired. */
  lemma SweepStep<K, T>(table: Table<K, Entry<T>>, i: nat, now: int)
    requires KeysUnique(table) && i < |table|
    ensures Expired(table[i].1, now) ==>
      Delete(Unexpired(table[..i], now) + table[i..], table[i].0) == Unexpired(table[..i + 1], now) + table[i + 1..]
    ensures !Expired(table[i].1, now) ==>
      Unexpired(table[..i], now) + table[i..] == Unexpired(table[..i + 1], now) + table[i + 1..]
  {
    var before, entry, after := table[..i], table[i], table[i + 1..];
    assert table[..i + 1] == before + [entry];
    UnexpiredAppend(before, [entry], now);
    assert table[i..] == [entry] + after;
    var kept := Unexpired(before, now);
    assert kept + table[i..] == kept + [entry] + after;
    if Expired(entry.1, now) {
      assert Unexpired([entry], now) == [];
      assert Unexpired(table[..i + 1], now) == kept;
      forall j | 0 <= j < |before| ensures before[j].0 != entry.0 {
        assert before[j] == table[j];
      }
      UnexpiredKeys(before, now, entry.0);
      forall j | 0 <= j < |after| ensures after[j].0 != entry.0 {
        assert after[j] == table[i + 1 + j];
      }
      DeleteOnce(kept, entry, after);
    } else {
      assert Unexpired([entry], now) == [entry];
    }
  }

  /**
   * The body of `watchTtl` at one tick, as one pass over the entries: each
   * entry found expired at `now` is deleted from the table, the others stay.
   */
  method Sweep<K(==), T>(table: Table<K, Entry<T>>, now: int) returns (swept: Table<K, Entry<T>>)
    requires KeysUnique(table)
    ensures swept == Unexpired(table, now) && KeysUnique(swept)
  {
    swept := table;
    for i := 0 to |table|
      invariant swept == Unexpired(table[..i], now) + table[i..]
    {
      var (key, entry) := table[i];
      SweepStep(table, i, now);
      if entry.expiresAt < now {
        swept := Delete(swept, key);
      }
    }
    assert table[..|table|] == table;
    UnexpiredKeysUnique(table, now);
  }
}
