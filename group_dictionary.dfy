/** A dictionary of dictionaries keyed by group, and a dictionary whose
    values are computed lazily. Both are modelled on their contents:
    the inner dictionaries and the lazily computed values are map values. */
module Collections {
  import opened Wrappers

  /** A dictionary of per-group dictionaries; an unseen group gets an empty
      inner dictionary the first time any member touches it. `dflt` stands
      for `default(TValue)`. */
  class GroupDictionary<G(==), K(==), V> {
    var groups: map<G, map<K, V>>
    const dflt: V

    constructor (dflt: V)
      ensures groups == map[] && this.dflt == dflt
    {
      groups := map[];
      this.dflt := dflt;
    }

    /** The inner dictionary of `groupKey`, created empty if the group is unseen. */
    method GetOrAddGroup(groupKey: G) returns (g: map<K, V>)
      modifies this
      ensures groups == if groupKey in old(groups) then old(groups) else old(groups)[groupKey := map[]]
      ensures groupKey in groups && g == groups[groupKey]
      ensures g == if groupKey in old(groups) then old(groups)[groupKey] else map[]
    {
      if groupKey in groups {
        g := groups[groupKey];
      } else {
        g := map[];
        groups := groups[groupKey := g];
      }
    }

    method Get(group: G) returns (g: map<K, V>)
      modifies this
      ensures groups == if group in old(groups) then old(groups) else old(groups)[group := map[]]
      ensures g == if group in old(groups) then old(groups)[group] else map[]
    {
      g := GetOrAddGroup(group);
    }

    /** Looks `key` up in `group`; like `Get`, it creates the empty group
        when the group is unseen. */
    method TryGet(group: G, key: K) returns (found: bool, value: V)
      modifies this
      ensures groups == if group in old(groups) then old(groups) else old(groups)[group := map[]]
      ensures found <==> group in old(groups) && key in old(groups)[group]
      ensures value == if found then old(groups)[group][key] else dflt
    {
      var g := GetOrAddGroup(group);
      if key in g {
        found, value := true, g[key];
      } else {
        found, value := false, dflt;
      }
    }

    /** The stored value of `key` in `group`, or the factory's value for it,
        which is then stored; no other group changes. */
    method GetOrAdd(group: G, key: K, factory: (G, K) -> V) returns (value: V)
      modifies this
      ensures var g := if group in old(groups) then old(groups)[group] else map[];
        && value == (if key in g then g[key] else factory(group, key))
        && groups == (if key in g then old(groups) else old(groups)[group := g[key := value]])
      ensures forall h | h in old(groups) && h != group :: h in groups && groups[h] == old(groups)[h]
    {
      var g := GetOrAddGroup(group);
      if key in g {
        value := g[key];
      } else {
        value := factory(group, key);
        groups := groups[group := g[key := value]];
      }
    }
  }

  /** `Contains` as written: it compares the stored value against the whole
      key/value pair. For values whose `Equals` accepts only their own type
      (numbers, strings, records and the default reference equality alike),
      a value never equals a pair, and that is the case modelled. */
  function ContainsAsWritten<K(==), V>(entries: map<K, V>, item: (K, V)): (b: bool)
    ensures !b
  {
    item.0 in entries && ValueEqualsPair(entries[item.0], item)
  }

  /** `Equals` between a non-null value and a key/value pair, for a value type
      whose `Equals` rejects objects of another type. */
  function ValueEqualsPair<K, V>(v: V, item: (K, V)): bool {
    false
  }

  /** What `Contains` is for: the pair is stored. */
  function HasPair<K(==), V(==)>(entries: map<K, V>, item: (K, V)): (b: bool)
    ensures b <==> item.0 in entries && entries[item.0] == item.1
  {
    item.0 in entries && entries[item.0] == item.1
  }

  /** After the pair `(k, v)` is added to a dictionary without `k`, `Contains`
      as written still answers false, while the pair is stored. */
  lemma ContainsMissesStoredPair<K, V>(entries: map<K, V>, k: K, v: V)
    requires k !in entries
    ensures HasPair(entries[k := v], (k, v))
    ensures !ContainsAsWritten(entries[k := v], (k, v))
  {
  }

  /** A dictionary whose values are computed on first read; with pure
      factories a value is fixed when its entry is stored, so `entries`
      holds the values themselves. `dflt` stands for `default(TValue)`. */
  class LazyDictionary<K(==), V> {
    var entries: map<K, V>
    const dflt: V

    constructor (dflt: V)
      ensures entries == map[] && this.dflt == dflt
    {
      entries := map[];
      this.dflt := dflt;
    }

    /** Adds the pair unless its key is present; an existing entry is kept. */
    method AddPair(item: (K, V))
      modifies this
      ensures entries == if item.0 in old(entries) then old(entries) else old(entries)[item.0 := item.1]
    {
      var _ := TryAdd(item.0, item.1);
    }

    method Clear()
      modifies this
      ensures entries == map[]
    {
      entries := map[];
    }

    function Contains(item: (K, V)): (b: bool)
      reads this
      ensures b == ContainsAsWritten(entries, item)
    {
      ContainsAsWritten(entries, item)
    }

    function CopyTo(arrayIndex: int): (o: Outcome)
      ensures o == Fail(NotSupported)
    {
      Fail(NotSupported)
    }

    function RemovePair(item: (K, V)): (r: Result<bool>)
      ensures r == Failure(NotSupported)
    {
      Failure(NotSupported)
    }

    /** The number of entries: one per key. */
    function Count(): (n: nat)
      reads this
      ensures n == |Keys()|
    {
      |entries|
    }

    /** Adds the entry unless the key is present; an existing entry is kept. */
    method Add(key: K, value: V)
      modifies this
      ensures entries == if key in old(entries) then old(entries) else old(entries)[key := value]
    {
      var _ := TryAdd(key, value);
    }

    /** Whether the key is stored: exactly when the getter finds it. */
    function ContainsKey(key: K): (b: bool)
      reads this
      ensures b <==> key in Keys()
      ensures b <==> Get(key).Success?
    {
      key in entries
    }

    method Remove(key: K) returns (removed: bool)
      modifies this
      ensures removed == (key in old(entries)) && entries == old(entries) - {key}
    {
      var value;
      removed, value := TryRemove(key);
    }

    /** The stored value and true, or `default` and false for an absent key. */
    function TryGetValue(key: K): (r: (bool, V))
      reads this
      ensures r.0 <==> key in entries
      ensures r.1 == if key in entries then entries[key] else dflt
    {
      if key in entries then (true, entries[key]) else (false, dflt)
    }

    /** The indexer's getter: the stored value, or KeyNotFound. */
    function Get(key: K): (r: Result<V>)
      reads this
      ensures r.Success? <==> key in entries
      ensures r.Success? ==> r.value == entries[key]
      ensures r.Failure? ==> r.error == KeyNotFound
    {
      var (found, value) := TryGetValue(key);
      if found then Success(value) else Failure(KeyNotFound)
    }

    /** The indexer's setter: stores the value, replacing any previous one. */
    method Set(key: K, value: V)
      modifies this
      ensures entries == old(entries)[key := value]
      ensures Get(key) == Success(value)
    {
      entries := entries[key := value];
    }

    /** The stored keys. */
    function Keys(): (r: set<K>)
      reads this
      ensures r == entries.Keys
    {
      entries.Keys
    }

    function Values(): (r: Result<seq<V>>)
      ensures r == Failure(NotSupported)
    {
      Failure(NotSupported)
    }

    /** The stored value, or the factory's value, which is then stored: every
        later call for the same key returns that same value. */
    method GetOrAdd(key: K, factory: K -> V) returns (value: V)
      modifies this
      ensures key in old(entries) ==> value == old(entries)[key] && entries == old(entries)
      ensures key !in old(entries) ==> value == factory(key) && entries == old(entries)[key := value]
      ensures Get(key) == Success(value)
    {
      if key in entries {
        value := entries[key];
      } else {
        value := factory(key);
        entries := entries[key := value];
      }
    }

    /** Removes the key, answering true and its value, or false and `default`. */
    method TryRemove(key: K) returns (removed: bool, value: V)
      modifies this
      ensures (removed, value) == old(TryGetValue(key))
      ensures entries == old(entries) - {key}
      ensures Get(key) == Failure(KeyNotFound)
    {
      if key in entries {
        removed, value := true, entries[key];
        entries := entries - {key};
      } else {
        removed, value := false, dflt;
      }
    }

    /** Adds the entry and answers true when the key is absent; otherwise
        answers false and keeps the existing entry. */
    method TryAdd(key: K, value: V) returns (added: bool)
      modifies this
      ensures added <==> key !in old(entries)
      ensures entries == if added then old(entries)[key := value] else old(entries)
      ensures key in entries && (added ==> entries[key] == value)
    {
      if key in entries {
        added := false;
      } else {
        added := true;
        entries := entries[key := value];
      }
    }

    /** Stores `value` for an absent key and `factory(key, old)` for a present one. */
    method AddOrUpdate(key: K, value: V, factory: (K, V) -> V)
      modifies this
      ensures entries == old(entries)[key := if key in old(entries) then factory(key, old(entries)[key]) else value]
    {
      if key in entries {
        entries := entries[key := factory(key, entries[key])];
      } else {
        entries := entries[key := value];
      }
    }
  }
}
