/**
 Key-value caches of limited size: the keys in the order they were stored, and the live entries.
 Storing drops the entry of the oldest key when there are too many keys.
 */
module BoundedCache {
  import opened Prelude

  datatype Cache<V> = Cache(keys: seq<string>, entries: map<string, V>)

  function Empty<V>(): Cache<V> {
    Cache([], map[])
  }

  function Store<V>(c: Cache<V>, limit: nat, key: string, value: V): Cache<V> {
    var keys := c.keys + [key];
    if |keys| > limit then Cache(keys[1..], (c.entries - {keys[0]})[key := value])
    else Cache(keys, c.entries[key := value])
  }

  datatype Entry<V> = Entry(key: string, value: V)

  function Run<V>(limit: nat, stores: seq<Entry<V>>): Cache<V> {
    if stores == [] then Empty()
    else
      var n := |stores| - 1;
      Store(Run(limit, stores[..n]), limit, stores[n].key, stores[n].value)
  }

  function LastStored<V>(stores: seq<Entry<V>>, key: string): Option<V> {
    if stores == [] then None
    else
      var n := |stores| - 1;
      if stores[n].key == key then Some(stores[n].value) else LastStored(stores[..n], key)
  }

  /** Live entries are among the remembered keys, of which there are at most `limit`. */
  ghost predicate Bounded<V>(c: Cache<V>, limit: nat) {
    |c.keys| <= limit && forall k | k in c.entries :: k in c.keys
  }

  lemma StoreBounded<V>(c: Cache<V>, limit: nat, key: string, value: V)
    requires limit >= 1 && Bounded(c, limit)
    ensures Bounded(Store(c, limit, key, value), limit)
  {
    var keys := c.keys + [key];
    var d := Store(c, limit, key, value);
    forall k | k in d.entries
      ensures k in d.keys
    {
      if k == key {
        assert keys[|keys| - 1] == key;
        if |keys| > limit { assert keys[1..][|keys| - 2] == key; }
      } else {
        var i :| 0 <= i < |c.keys| && c.keys[i] == k;
        assert keys[i] == k;
        if |keys| > limit { assert i > 0 && keys[1..][i - 1] == k; }
      }
    }
  }

  lemma {:induction false} KeysBoundEntries<V>(keys: seq<string>, entries: map<string, V>)
    requires forall k | k in entries :: k in keys
    ensures |entries| <= |keys|
  {
    if keys == [] {
      assert entries == map[];
    } else {
      var rest := entries - {keys[0]};
      assert forall k | k in rest :: k in keys[1..];
      KeysBoundEntries(keys[1..], rest);
      assert entries.Keys <= rest.Keys + {keys[0]};
      Cardinality(entries.Keys, rest.Keys + {keys[0]});
      assert |entries| == |entries.Keys| && |rest| == |rest.Keys|;
    }
  }

  lemma Cardinality<T>(a: set<T>, b: set<T>)
    requires a <= b
    ensures |a| <= |b|
  {
    assert b == a + (b - a);
  }

  lemma {:induction false} RunBounded<V>(limit: nat, stores: seq<Entry<V>>)
    requires limit >= 1
    ensures Bounded(Run(limit, stores), limit) && |Run(limit, stores).entries| <= limit
  {
    if stores != [] {
      var n := |stores| - 1;
      RunBounded(limit, stores[..n]);
      StoreBounded(Run(limit, stores[..n]), limit, stores[n].key, stores[n].value);
    }
    KeysBoundEntries(Run(limit, stores).keys, Run(limit, stores).entries);
  }

  /** After any stores, with keys repeated or not, at most `limit` entries are live; except that a
      limit of zero bounds nothing, since the entry is written after its own key has been dropped. */
  lemma BoundHoldsIffPositive(limit: nat)
    ensures (forall stores: seq<Entry<int>> :: |Run(limit, stores).entries| <= limit) <==> limit >= 1
  {
    if limit >= 1 {
      forall stores: seq<Entry<int>>
        ensures |Run(limit, stores).entries| <= limit
      {
        RunBounded(limit, stores);
      }
    } else {
      var e := Entry("a", 0);
      var stores := [e];
      assert stores[..0] == [] && Run(limit, stores[..0]) == Empty();
      assert "a" in Run(limit, stores).entries;
      assert |Run(limit, stores).entries| > 0;
    }
  }

  /** A hit returns the value last stored for the key. */
  lemma {:induction false} HitIsLastStored<V>(limit: nat, stores: seq<Entry<V>>, key: string)
    ensures key in Run(limit, stores).entries ==> LastStored(stores, key) == Some(Run(limit, stores).entries[key])
  {
    if stores != [] {
      HitIsLastStored(limit, stores[..|stores| - 1], key);
    }
  }

  // ----- the most recent entries -----

  /** The remembered keys are those of the last `limit` stores. */
  lemma {:induction false} KeysAreLatest<V>(limit: nat, stores: seq<Entry<V>>)
    ensures
      var keys := Run(limit, stores).keys;
      && |keys| == (if |stores| <= limit then |stores| else limit)
      && forall i | 0 <= i < |keys| :: keys[i] == stores[|stores| - |keys| + i].key
  {
    if stores != [] {
      KeysAreLatest(limit, stores[..|stores| - 1]);
    }
  }

  /** One of the last `limit` stores was of this key. */
  ghost predicate Recent<V>(limit: nat, stores: seq<Entry<V>>, key: string) {
    exists i | 0 <= i < |stores| && |stores| - limit <= i :: stores[i].key == key
  }

  /** The live entries are exactly those of the last `limit` stores. */
  ghost predicate Latest<V>(limit: nat, stores: seq<Entry<V>>) {
    forall k :: k in Run(limit, stores).entries <==> Recent(limit, stores, k)
  }

  /** The live entries are exactly those of the remembered keys. */
  ghost predicate Exact<V>(c: Cache<V>) {
    forall k :: k in c.entries <==> k in c.keys
  }

  lemma RememberedIffRecent<V>(limit: nat, stores: seq<Entry<V>>, key: string)
    ensures key in Run(limit, stores).keys <==> Recent(limit, stores, key)
  {
    KeysAreLatest(limit, stores);
    var keys := Run(limit, stores).keys;
    if i :| 0 <= i < |stores| && |stores| - limit <= i && stores[i].key == key {
      assert keys[i - (|stores| - |keys|)] == key;
    }
    if i :| 0 <= i < |keys| && keys[i] == key {
      assert stores[|stores| - |keys| + i].key == key;
    }
  }

  lemma LatestIffExact<V>(limit: nat, stores: seq<Entry<V>>)
    ensures Latest(limit, stores) <==> Exact(Run(limit, stores))
  {
    forall k {
      RememberedIffRecent(limit, stores, k);
    }
  }

  /** What a store drops is not among the keys that stay. */
  predicate Spares<V>(c: Cache<V>, limit: nat, key: string) {
    limit >= 1 && (|c.keys| < limit || c.keys[0] == key || c.keys[0] !in c.keys[1..])
  }

  /** From a cache whose live entries are exactly its remembered keys, one store keeps it so exactly if it drops
      no key that stays. */
  lemma StoreKeepsExactIff<V>(c: Cache<V>, limit: nat, key: string, value: V)
    requires |c.keys| <= limit && Exact(c)
    ensures Exact(Store(c, limit, key, value)) <==> Spares(c, limit, key)
  {
    var keys := c.keys + [key];
    var d := Store(c, limit, key, value);
    assert key in d.entries;
    if limit == 0 {
      assert d.keys == [];
    } else if |c.keys| == limit {
      assert d.keys == c.keys[1..] + [key] && c.keys == [c.keys[0]] + c.keys[1..];
      assert c.keys[0] in d.entries <==> c.keys[0] == key;
      assert c.keys[0] in d.keys <==> c.keys[0] == key || c.keys[0] in c.keys[1..];
      assert forall k :: k != c.keys[0] ==> (k in d.entries <==> k in d.keys);
    } else {
      assert d.keys == keys;
    }
  }

  /** By the stores alone: a store is harmless if fewer than `limit` came before it; or if the oldest of the last
      `limit` before it was of the same key; or if no other of them was of the oldest one's key. */
  predicate Harmless<V>(limit: nat, before: seq<Entry<V>>, key: string) {
    limit >= 1 &&
    (|before| < limit ||
     var oldest := before[|before| - limit].key;
     oldest == key || forall i | |before| - limit < i < |before| :: before[i].key != oldest)
  }

  lemma OldestStays<V>(keys: seq<string>, before: seq<Entry<V>>)
    requires 1 <= |keys| <= |before|
    requires forall i | 0 <= i < |keys| :: keys[i] == before[|before| - |keys| + i].key
    ensures keys[0] in keys[1..] <==> exists i | |before| - |keys| < i < |before| :: before[i].key == keys[0]
  {
    var offset := |before| - |keys|;
    if i :| offset < i < |before| && before[i].key == keys[0] {
      assert keys[i - offset] == keys[0] && keys[1..][i - offset - 1] == keys[0];
    }
    if i :| 0 <= i < |keys[1..]| && keys[1..][i] == keys[0] {
      assert keys[i + 1] == before[offset + i + 1].key;
    }
  }

  lemma HarmlessIffSpares<V>(limit: nat, before: seq<Entry<V>>, key: string)
    ensures Harmless(limit, before, key) <==> Spares(Run(limit, before), limit, key)
  {
    KeysAreLatest(limit, before);
    if 1 <= limit <= |before| {
      OldestStays(Run(limit, before).keys, before);
    }
  }

  ghost predicate AlwaysLatest<V>(limit: nat, stores: seq<Entry<V>>) {
    Latest(limit, stores) && (stores == [] || AlwaysLatest(limit, stores[..|stores| - 1]))
  }

  predicate AllHarmless<V>(limit: nat, stores: seq<Entry<V>>) {
    stores == [] ||
    var n := |stores| - 1;
    AllHarmless(limit, stores[..n]) && Harmless(limit, stores[..n], stores[n].key)
  }

  /** Over every sequence of stores, the live entries have at every moment been exactly those of the last `limit`
      stores if and only if every store was harmless. */
  lemma {:induction false} KeepsTheLatestExactlyWhen<V>(limit: nat, stores: seq<Entry<V>>)
    ensures AlwaysLatest(limit, stores) <==> AllHarmless(limit, stores)
  {
    LatestIffExact(limit, stores);
    if stores != [] {
      var n := |stores| - 1;
      KeepsTheLatestExactlyWhen(limit, stores[..n]);
      LatestIffExact(limit, stores[..n]);
      KeysAreLatest(limit, stores[..n]);
      HarmlessIffSpares(limit, stores[..n], stores[n].key);
      if AlwaysLatest(limit, stores[..n]) {
        StoreKeepsExactIff(Run(limit, stores[..n]), limit, stores[n].key, stores[n].value);
      }
    }
  }

  ghost predicate NoDuplicates(keys: seq<string>) {
    forall i, j | 0 <= i < j < |keys| :: keys[i] != keys[j]
  }

  /** Every store was of a key that was not live. */
  ghost predicate OnMisses<V>(limit: nat, stores: seq<Entry<V>>) {
    stores == [] ||
    var n := |stores| - 1;
    OnMisses(limit, stores[..n]) && stores[n].key !in Run(limit, stores[..n]).entries
  }

  /** In particular, if values are only stored after a miss, the live entries are exactly those of the last
      `limit` stores, which are then of different keys. */
  lemma {:induction false} MissesKeepTheLatest<V>(limit: nat, stores: seq<Entry<V>>)
    requires limit >= 1 && OnMisses(limit, stores)
    ensures AllHarmless(limit, stores) && AlwaysLatest(limit, stores)
    ensures Exact(Run(limit, stores)) && NoDuplicates(Run(limit, stores).keys)
  {
    if stores != [] {
      var n := |stores| - 1;
      MissesKeepTheLatest(limit, stores[..n]);
      HarmlessIffSpares(limit, stores[..n], stores[n].key);
    }
    KeepsTheLatestExactlyWhen(limit, stores);
    LatestIffExact(limit, stores);
  }

  /** A key stored twice in a row is dropped with its first store, though the second is among the last two. */
  lemma RestoringDropsRecentKey()
    ensures
      var a, b := Entry("a", 0), Entry("b", 1);
      "a" !in Run(2, [a, a, b]).entries
  {
    var a, b := Entry("a", 0), Entry("b", 1);
    var s := [a, a, b];
    assert s[..2] == [a, a] && s[..2][..1] == [a] && s[..2][..1][..0] == [];
    assert Run(2, [a]) == Cache(["a"], map["a" := 0]);
    assert Run(2, [a, a]) == Cache(["a", "a"], map["a" := 0]);
  }
}
