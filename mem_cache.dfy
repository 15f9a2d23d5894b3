/** The memory cache service: a read coalescer in front of a batch factory.
    A call looks every key up in a key-to-record map, creating a record with a
    fresh, write-once value cell for each unseen key; the records one call
    created go to the factory in a single request, and a periodic sweep drops
    the records whose expiry time has passed from the head of the expiration
    queue and from the map. */
module MemCaching {
  import opened Wrappers

  /** A cache record: its key, its expiry time, and `id`, the index of the
      completion cell that holds its value. */
  datatype Rec<K> = Rec(id: nat, key: K, expiredAt: int)

  /** A record's value: not yet set, or set once and for all. */
  datatype Cell<V> = Pending | Filled(value: V)

  /** What the factory did with one request: it returned key/value pairs, or
      it threw or was cancelled by the timeout. */
  datatype FetchOutcome<K, V> = Returned(pairs: seq<(K, V)>) | Failed

  /** What one pass of the lookup loop produces: the new map, the records it
      created (in creation order) and the record for every key (in key order). */
  datatype Gathered<K> = Gathered(dictionary: map<K, Rec<K>>, missing: seq<Rec<K>>, results: seq<Rec<K>>)

  // ---------------------------------------------------------------------
  // The record map and the expiration queue

  /** The key-to-record map that holds exactly the records of queue `q`. */
  function KeyMap<K(==)>(q: seq<Rec<K>>): map<K, Rec<K>>
    decreases |q|
  {
    if q == [] then map[] else KeyMap(q[1..])[q[0].key := q[0]]
  }

  /** The keys of the records of `q`. */
  function Keys<K(==)>(q: seq<Rec<K>>): set<K> {
    set i | 0 <= i < |q| :: q[i].key
  }

  /** Every entry of the map is the record of its own key. */
  predicate WellKeyed<K(==)>(dict: map<K, Rec<K>>) {
    forall k | k in dict :: dict[k].key == k
  }

  predicate DistinctKeys<K(==)>(q: seq<Rec<K>>) {
    forall i, j | 0 <= i < j < |q| :: q[i].key != q[j].key
  }

  /** The expiration queue is ordered by non-decreasing expiry time. */
  predicate Sorted<K(==)>(q: seq<Rec<K>>) {
    forall i, j | 0 <= i < j < |q| :: q[i].expiredAt <= q[j].expiredAt
  }

  lemma {:induction false} KeyMapKeys<K>(q: seq<Rec<K>>)
    ensures KeyMap(q).Keys == Keys(q)
    decreases |q|
  {
    if q != [] {
      KeyMapKeys(q[1..]);
      assert Keys(q) == Keys(q[1..]) + {q[0].key} by {
        forall k | k in Keys(q) ensures k in Keys(q[1..]) + {q[0].key} {
          var i :| 0 <= i < |q| && q[i].key == k;
          if i > 0 {
            assert q[1..][i - 1] == q[i];
          }
        }
        forall k | k in Keys(q[1..]) ensures k in Keys(q) {
          var i :| 0 <= i < |q[1..]| && q[1..][i].key == k;
          assert q[i + 1] == q[1..][i];
        }
      }
    }
  }

  /** With distinct keys, the map sends the key of every queued record to that record. */
  lemma {:induction false} KeyMapAt<K>(q: seq<Rec<K>>, i: nat)
    requires DistinctKeys(q) && i < |q|
    ensures q[i].key in KeyMap(q) && KeyMap(q)[q[i].key] == q[i]
    decreases |q|
  {
    if i > 0 {
      assert q[1..][i - 1] == q[i];
      KeyMapAt(q[1..], i - 1);
    }
  }

  lemma {:induction false} KeyMapWellKeyed<K>(q: seq<Rec<K>>)
    ensures WellKeyed(KeyMap(q))
    decreases |q|
  {
    if q != [] {
      KeyMapWellKeyed(q[1..]);
    }
  }

  /** Appending a record with a fresh key adds exactly that entry to the map. */
  lemma {:induction false} KeyMapAppend<K>(q: seq<Rec<K>>, r: Rec<K>)
    requires r.key !in Keys(q)
    ensures KeyMap(q + [r]) == KeyMap(q)[r.key := r]
    decreases |q|
  {
    if q == [] {
      assert KeyMap([r]) == KeyMap([r][1..])[r.key := r];
    } else {
      assert (q + [r])[1..] == q[1..] + [r];
      assert r.key !in Keys(q[1..]) by {
        forall i | 0 <= i < |q[1..]| ensures q[1..][i].key != r.key {
          assert q[1..][i] == q[i + 1];
        }
      }
      KeyMapAppend(q[1..], r);
      assert q[0].key != r.key by {
        assert q[0].key == q[0].key;
      }
    }
  }

  /** Dequeuing the head of a queue with distinct keys removes exactly its key. */
  lemma KeyMapTail<K>(q: seq<Rec<K>>)
    requires DistinctKeys(q) && q != []
    ensures KeyMap(q[1..]) == KeyMap(q) - {q[0].key}
  {
    KeyMapKeys(q[1..]);
    assert q[0].key !in Keys(q[1..]) by {
      forall i | 0 <= i < |q[1..]| ensures q[1..][i].key != q[0].key {
        assert q[1..][i] == q[i + 1];
      }
    }
  }

  /** `n` copies of `x`. */
  function Repeat<T>(x: T, n: nat): (r: seq<T>)
    ensures |r| == n && forall i | 0 <= i < n :: r[i] == x
  {
    if n == 0 then [] else Repeat(x, n - 1) + [x]
  }

  /** One step of the lookup loop on a key already in the map. */
  lemma GatherSeen<K>(keys: seq<K>, dict: map<K, Rec<K>>, next: nat, expiredAt: int,
                       missing: seq<Rec<K>>, results: seq<Rec<K>>)
    requires keys != [] && keys[0] in dict
    ensures var g := Gather(keys, dict, next, expiredAt);
      var h := Gather(keys[1..], dict, next, expiredAt);
      Gathered(g.dictionary, missing + g.missing, results + g.results)
        == Gathered(h.dictionary, missing + h.missing, (results + [dict[keys[0]]]) + h.results)
  {
  }

  /** One step of the lookup loop on an unseen key. */
  lemma GatherUnseen<K>(keys: seq<K>, dict: map<K, Rec<K>>, next: nat, expiredAt: int,
                         missing: seq<Rec<K>>, results: seq<Rec<K>>)
    requires keys != [] && keys[0] !in dict
    ensures var r := Rec(next, keys[0], expiredAt);
      var g := Gather(keys, dict, next, expiredAt);
      var h := Gather(keys[1..], dict[keys[0] := r], next + 1, expiredAt);
      Gathered(g.dictionary, missing + g.missing, results + g.results)
        == Gathered(h.dictionary, (missing + [r]) + h.missing, (results + [r]) + h.results)
  {
  }

  /** Appending records stamped no earlier than every queued record keeps the
      queue sorted. */
  lemma AppendSorted<K>(q: seq<Rec<K>>, m: seq<Rec<K>>, expiredAt: int)
    requires Sorted(q) && forall i | 0 <= i < |q| :: q[i].expiredAt <= expiredAt
    requires forall j | 0 <= j < |m| :: m[j].expiredAt == expiredAt
    ensures Sorted(q + m)
  {
    forall i, j | 0 <= i < j < |q + m| ensures (q + m)[i].expiredAt <= (q + m)[j].expiredAt {
      if j >= |q| {
        assert (q + m)[j] == m[j - |q|];
        if i >= |q| {
          assert (q + m)[i] == m[i - |q|];
        }
      }
    }
  }

  // ---------------------------------------------------------------------
  // Lookup: the get-or-create loop of GetAsync

  /** The lookup loop run over `keys` against map `dict`, numbering the cells
      of created records from `next` on and stamping them with `expiredAt`. */
  function Gather<K(==)>(keys: seq<K>, dict: map<K, Rec<K>>, next: nat, expiredAt: int): Gathered<K>
    decreases |keys|
  {
    if keys == [] then Gathered(dict, [], [])
    else if keys[0] in dict then
      var g := Gather(keys[1..], dict, next, expiredAt);
      Gathered(g.dictionary, g.missing, [dict[keys[0]]] + g.results)
    else
      var r := Rec(next, keys[0], expiredAt);
      var g := Gather(keys[1..], dict[keys[0] := r], next + 1, expiredAt);
      Gathered(g.dictionary, [r] + g.missing, [r] + g.results)
  }

  /** One record per input key, in input order and with repeats: the record the
      key had before the call when it had one, and otherwise a record created by
      this call; either way, the record the key maps to afterwards. */
  lemma {:induction false} GatherResults<K>(keys: seq<K>, dict: map<K, Rec<K>>, next: nat, expiredAt: int)
    requires WellKeyed(dict)
    ensures var g := Gather(keys, dict, next, expiredAt);
      && |g.results| == |keys|
      && (forall k | k in dict :: k in g.dictionary && g.dictionary[k] == dict[k])
      && (forall i | 0 <= i < |keys| ::
            && g.results[i].key == keys[i]
            && keys[i] in g.dictionary && g.dictionary[keys[i]] == g.results[i]
            && (keys[i] in dict ==> g.results[i] == dict[keys[i]]))
    decreases |keys|
  {
    if keys != [] {
      var g := Gather(keys, dict, next, expiredAt);
      var d := if keys[0] in dict then dict else dict[keys[0] := Rec(next, keys[0], expiredAt)];
      var n := if keys[0] in dict then next else next + 1;
      GatherResults(keys[1..], d, n, expiredAt);
      forall i | 0 <= i < |keys|
        ensures g.results[i].key == keys[i]
        ensures keys[i] in g.dictionary && g.dictionary[keys[i]] == g.results[i]
        ensures keys[i] in dict ==> g.results[i] == dict[keys[i]]
      {
        if i > 0 {
          assert keys[1..][i - 1] == keys[i];
          assert g.results[i] == Gather(keys[1..], d, n, expiredAt).results[i - 1];
        }
      }
    }
  }

  /** The records a call creates have consecutive cell numbers from `next`,
      are all stamped `expiredAt`, and carry distinct keys of the call that
      were unseen before it. */
  lemma {:induction false} GatherFresh<K>(keys: seq<K>, dict: map<K, Rec<K>>, next: nat, expiredAt: int)
    ensures var g := Gather(keys, dict, next, expiredAt);
      && (forall j | 0 <= j < |g.missing| ::
            && g.missing[j] == Rec(next + j, g.missing[j].key, expiredAt)
            && g.missing[j].key !in dict && g.missing[j].key in keys)
      && DistinctKeys(g.missing)
    decreases |keys|
  {
    if keys != [] {
      var g := Gather(keys, dict, next, expiredAt);
      if keys[0] in dict {
        GatherFresh(keys[1..], dict, next, expiredAt);
        forall j | 0 <= j < |g.missing| ensures g.missing[j].key in keys {
          assert g.missing[j].key in keys[1..];
        }
      } else {
        var r := Rec(next, keys[0], expiredAt);
        var d := dict[keys[0] := r];
        var h := Gather(keys[1..], d, next + 1, expiredAt);
        GatherFresh(keys[1..], d, next + 1, expiredAt);
        assert g.missing == [r] + h.missing;
        forall j | 0 <= j < |g.missing|
          ensures g.missing[j] == Rec(next + j, g.missing[j].key, expiredAt)
          ensures g.missing[j].key !in dict && g.missing[j].key in keys
        {
          if j > 0 {
            assert g.missing[j] == h.missing[j - 1];
            assert h.missing[j - 1].key in keys[1..];
          }
        }
        forall i, j | 0 <= i < j < |g.missing| ensures g.missing[i].key != g.missing[j].key {
          assert g.missing[j] == h.missing[j - 1];
          if i > 0 {
            assert g.missing[i] == h.missing[i - 1];
          }
        }
      }
    }
  }

  /** The record of a key unseen before the call is one the call created. */
  lemma {:induction false} GatherCreates<K>(keys: seq<K>, dict: map<K, Rec<K>>, next: nat, expiredAt: int)
    requires WellKeyed(dict)
    ensures var g := Gather(keys, dict, next, expiredAt);
      |g.results| == |keys| &&
      forall i | 0 <= i < |keys| && keys[i] !in dict :: g.results[i] in g.missing
    decreases |keys|
  {
    GatherResults(keys, dict, next, expiredAt);
    if keys != [] {
      var g := Gather(keys, dict, next, expiredAt);
      var r := Rec(next, keys[0], expiredAt);
      var d := if keys[0] in dict then dict else dict[keys[0] := r];
      var n := if keys[0] in dict then next else next + 1;
      var h := Gather(keys[1..], d, n, expiredAt);
      GatherCreates(keys[1..], d, n, expiredAt);
      GatherResults(keys[1..], d, n, expiredAt);
      forall i | 0 <= i < |keys| && keys[i] !in dict ensures g.results[i] in g.missing {
        if i > 0 {
          assert keys[1..][i - 1] == keys[i];
          assert g.results[i] == h.results[i - 1];
          if keys[i] == keys[0] {
            assert h.results[i - 1] == r;
          }
        }
      }
    }
  }

  /** When every key is already in the map the call creates nothing: its
      request still goes out, carrying no records. */
  lemma {:induction false} GatherAllSeen<K>(keys: seq<K>, dict: map<K, Rec<K>>, next: nat, expiredAt: int)
    requires forall i | 0 <= i < |keys| :: keys[i] in dict
    ensures Gather(keys, dict, next, expiredAt).missing == []
    ensures Gather(keys, dict, next, expiredAt).dictionary == dict
    decreases |keys|
  {
    if keys != [] {
      assert forall i | 0 <= i < |keys[1..]| :: keys[1..][i] == keys[i + 1];
      GatherAllSeen(keys[1..], dict, next, expiredAt);
    }
  }

  /** The lookup keeps the map equal to the map of the queue, and the queue's
      keys distinct, once the created records are appended to the queue. */
  lemma {:induction false} GatherAgrees<K>(keys: seq<K>, q: seq<Rec<K>>, next: nat, expiredAt: int)
    requires DistinctKeys(q)
    ensures var g := Gather(keys, KeyMap(q), next, expiredAt);
      DistinctKeys(q + g.missing) && g.dictionary == KeyMap(q + g.missing)
    decreases |keys|
  {
    if keys == [] {
      assert q + [] == q;
    } else {
      if keys[0] in KeyMap(q) {
        GatherAgrees(keys[1..], q, next, expiredAt);
      } else {
        var r := Rec(next, keys[0], expiredAt);
        KeyMapKeys(q);
        KeyMapAppend(q, r);
        assert DistinctKeys(q + [r]) by {
          forall i, j | 0 <= i < j < |q + [r]| ensures (q + [r])[i].key != (q + [r])[j].key {
            if j == |q| {
              assert (q + [r])[i] == q[i];
              assert q[i].key in Keys(q);
            }
          }
        }
        GatherAgrees(keys[1..], q + [r], next + 1, expiredAt);
        assert q + [r] + Gather(keys[1..], KeyMap(q + [r]), next + 1, expiredAt).missing
            == q + Gather(keys, KeyMap(q), next, expiredAt).missing;
      }
    }
  }

  // ---------------------------------------------------------------------
  // Sweeping: the peek-while loop of CleanUp

  /** How many records at the head of `q` have expired before `now`: the
      sweep dequeues heads while the head's expiry time is before `now`. */
  function Expired<K(==)>(q: seq<Rec<K>>, now: int): (n: nat)
    ensures n <= |q|
    decreases |q|
  {
    if q != [] && q[0].expiredAt < now then 1 + Expired(q[1..], now) else 0
  }

  /** The sweep removes an expired prefix and stops at the first unexpired head;
      on a sorted queue it removes exactly the expired records. */
  lemma {:induction false} ExpiredPrefix<K>(q: seq<Rec<K>>, now: int)
    ensures var n := Expired(q, now);
      && (forall i | 0 <= i < n :: q[i].expiredAt < now)
      && (n < |q| ==> q[n].expiredAt >= now)
      && (Sorted(q) ==> forall i | 0 <= i < |q| :: q[i].expiredAt < now <==> i < n)
    decreases |q|
  {
    if q != [] && q[0].expiredAt < now {
      ExpiredPrefix(q[1..], now);
      var n := Expired(q, now);
      forall i | 0 <= i < n ensures q[i].expiredAt < now {
        if i > 0 {
          assert q[i] == q[1..][i - 1];
        }
      }
      if n < |q| {
        assert q[n] == q[1..][n - 1];
      }
      if Sorted(q) {
        assert Sorted(q[1..]) by {
          forall i, j | 0 <= i < j < |q[1..]| ensures q[1..][i].expiredAt <= q[1..][j].expiredAt {
            assert q[1..][i] == q[i + 1] && q[1..][j] == q[j + 1];
          }
        }
        forall i | 0 <= i < |q| ensures q[i].expiredAt < now <==> i < n {
          if i > 0 {
            assert q[i] == q[1..][i - 1];
          }
        }
      }
    } else if Sorted(q) && q != [] {
      forall i | 0 <= i < |q| ensures q[i].expiredAt >= now {
        if i > 0 {
          assert q[0].expiredAt <= q[i].expiredAt;
        }
      }
    }
  }

  // ---------------------------------------------------------------------
  // Completing a request: ToDictionary and the foreach of Request

  /** The keys of the factory's pairs. */
  function Firsts<K, V>(pairs: seq<(K, V)>): set<K> {
    set i | 0 <= i < |pairs| :: pairs[i].0
  }

  predicate DistinctFirsts<K(==), V>(pairs: seq<(K, V)>) {
    forall i, j | 0 <= i < j < |pairs| :: pairs[i].0 != pairs[j].0
  }

  /** `ToDictionary` on the factory's pairs: None when a key repeats (the
      conversion throws), the dictionary of the pairs otherwise. */
  function ToDictionary<K(==), V>(pairs: seq<(K, V)>): Option<map<K, V>>
    decreases |pairs|
  {
    if pairs == [] then Some(map[])
    else
      var last := pairs[|pairs| - 1];
      match ToDictionary(pairs[..|pairs| - 1])
      case None => None
      case Some(m) => if last.0 in m then None else Some(m[last.0 := last.1])
  }

  /** `ToDictionary` succeeds exactly when no key repeats, and then holds
      exactly the pairs given. */
  lemma {:induction false} ToDictionaryPairs<K, V>(pairs: seq<(K, V)>)
    ensures ToDictionary(pairs).Some? <==> DistinctFirsts(pairs)
    ensures ToDictionary(pairs).Some? ==>
      && ToDictionary(pairs).value.Keys == Firsts(pairs)
      && forall i | 0 <= i < |pairs| :: ToDictionary(pairs).value[pairs[i].0] == pairs[i].1
    decreases |pairs|
  {
    if pairs != [] {
      var init := pairs[..|pairs| - 1];
      var last := pairs[|pairs| - 1];
      ToDictionaryPairs(init);
      assert forall i | 0 <= i < |init| :: init[i] == pairs[i];
      if ToDictionary(init).Some? {
        var m := ToDictionary(init).value;
        assert Firsts(pairs) == Firsts(init) + {last.0} by {
          forall k | k in Firsts(pairs)
            ensures k in Firsts(init) + {last.0}
          {
            var i :| 0 <= i < |pairs| && pairs[i].0 == k;
            if i < |init| {
              assert init[i] == pairs[i];
            }
          }
        }
        if last.0 in m {
          var i :| 0 <= i < |init| && init[i].0 == last.0;
          assert pairs[i].0 == pairs[|pairs| - 1].0;
        }
      } else {
        assert !DistinctFirsts(pairs) by {
          var i, j :| 0 <= i < j < |init| && init[i].0 == init[j].0;
          assert pairs[i].0 == pairs[j].0;
        }
      }
    }
  }

  /** The factory's answer as Request uses it: None when the factory threw, was
      cancelled, or returned a key twice; the looked-up dictionary otherwise. */
  function Table<K(==), V>(outcome: FetchOutcome<K, V>): Option<map<K, V>> {
    match outcome
    case Failed => None
    case Returned(pairs) => ToDictionary(pairs)
  }

  /** The value Request sets for a record with key `k`. */
  function Fetched<K(==), V>(table: Option<map<K, V>>, k: K, dflt: V): V {
    match table
    case Some(m) => if k in m then m[k] else dflt
    case None => dflt
  }

  /** The factory's value for every requested key it returned, the default for
      every key it left out, and the default for every key when it failed or
      repeated a key. */
  lemma FetchedValue<K, V>(outcome: FetchOutcome<K, V>, k: K, dflt: V)
    ensures outcome.Failed? ==> Fetched(Table(outcome), k, dflt) == dflt
    ensures outcome.Returned? && !DistinctFirsts(outcome.pairs) ==> Fetched(Table(outcome), k, dflt) == dflt
    ensures outcome.Returned? && DistinctFirsts(outcome.pairs) ==>
      && (forall i | 0 <= i < |outcome.pairs| && outcome.pairs[i].0 == k ::
            Fetched(Table(outcome), k, dflt) == outcome.pairs[i].1)
      && ((forall i | 0 <= i < |outcome.pairs| :: outcome.pairs[i].0 != k) ==>
            Fetched(Table(outcome), k, dflt) == dflt)
  {
    if outcome.Returned? {
      ToDictionaryPairs(outcome.pairs);
    }
  }

  /** The cells after Request set the value of every record in `rs`, in order. */
  function Fill<K(==), V>(cells: seq<Cell<V>>, rs: seq<Rec<K>>, table: Option<map<K, V>>, dflt: V): (c: seq<Cell<V>>)
    requires forall j | 0 <= j < |rs| :: rs[j].id < |cells|
    ensures |c| == |cells|
    decreases |rs|
  {
    if rs == [] then cells
    else Fill(cells[rs[0].id := Filled(Fetched(table, rs[0].key, dflt))], rs[1..], table, dflt)
  }

  /** Cell numbers strictly increasing along a request, hence distinct. */
  predicate Ascending<K(==)>(rs: seq<Rec<K>>) {
    forall i, j | 0 <= i < j < |rs| :: rs[i].id < rs[j].id
  }

  /** Every record of a request gets its fetched value, and no other cell changes. */
  lemma {:induction false} FillAt<K, V>(cells: seq<Cell<V>>, rs: seq<Rec<K>>, table: Option<map<K, V>>, dflt: V)
    requires forall j | 0 <= j < |rs| :: rs[j].id < |cells|
    requires Ascending(rs)
    ensures forall j | 0 <= j < |rs| ::
      Fill(cells, rs, table, dflt)[rs[j].id] == Filled(Fetched(table, rs[j].key, dflt))
    ensures forall x | 0 <= x < |cells| && (forall j | 0 <= j < |rs| :: rs[j].id != x) ::
      Fill(cells, rs, table, dflt)[x] == cells[x]
    decreases |rs|
  {
    if rs != [] {
      var c := cells[rs[0].id := Filled(Fetched(table, rs[0].key, dflt))];
      assert forall j | 0 <= j < |rs[1..]| :: rs[1..][j] == rs[j + 1];
      FillAt(c, rs[1..], table, dflt);
      forall j | 0 <= j < |rs|
        ensures Fill(cells, rs, table, dflt)[rs[j].id] == Filled(Fetched(table, rs[j].key, dflt))
      {
        if j == 0 {
          assert forall i | 0 <= i < |rs[1..]| :: rs[1..][i].id != rs[0].id;
        } else {
          assert rs[1..][j - 1] == rs[j];
        }
      }
    }
  }

  /** The value every record of a request receives. */
  lemma CompleteValues<K, V>(cells: seq<Cell<V>>, rs: seq<Rec<K>>, outcome: FetchOutcome<K, V>, dflt: V, j: nat)
    requires forall i | 0 <= i < |rs| :: rs[i].id < |cells|
    requires Ascending(rs) && j < |rs|
    ensures var v := Fill(cells, rs, Table(outcome), dflt)[rs[j].id];
      && (outcome.Failed? ==> v == Filled(dflt))
      && (outcome.Returned? && !DistinctFirsts(outcome.pairs) ==> v == Filled(dflt))
      && (outcome.Returned? && DistinctFirsts(outcome.pairs) ==>
            && (forall i | 0 <= i < |outcome.pairs| && outcome.pairs[i].0 == rs[j].key ::
                  v == Filled(outcome.pairs[i].1))
            && ((forall i | 0 <= i < |outcome.pairs| :: outcome.pairs[i].0 != rs[j].key) ==>
                  v == Filled(dflt)))
  {
    FillAt(cells, rs, Table(outcome), dflt);
    FetchedValue(outcome, rs[j].key, dflt);
  }

  // ---------------------------------------------------------------------
  // Awaiting the values

  /** The pairs GetAsync returns once every record it looked up has a value:
      None while some value is still pending. */
  function Answer<K(==), V>(cells: seq<Cell<V>>, results: seq<Rec<K>>): (a: Option<seq<(K, V)>>)
    requires forall i | 0 <= i < |results| :: results[i].id < |cells|
    ensures a.Some? <==> forall i | 0 <= i < |results| :: cells[results[i].id].Filled?
    ensures a.Some? ==> |a.value| == |results|
    ensures a.Some? ==> forall i | 0 <= i < |results| ::
      a.value[i].0 == results[i].key && cells[results[i].id] == Filled(a.value[i].1)
  {
    if forall i | 0 <= i < |results| :: cells[results[i].id].Filled? then
      Some(seq(|results|, i requires 0 <= i < |results| => (results[i].key, cells[results[i].id].value)))
    else None
  }

  /** One answer pair per input key, in input order, carrying that key. */
  lemma AnswerKeys<K, V>(keys: seq<K>, dict: map<K, Rec<K>>, next: nat, expiredAt: int, cells: seq<Cell<V>>)
    requires WellKeyed(dict)
    requires var rs := Gather(keys, dict, next, expiredAt).results;
      forall i | 0 <= i < |rs| :: rs[i].id < |cells|
    ensures var a := Answer(cells, Gather(keys, dict, next, expiredAt).results);
      a.Some? ==> |a.value| == |keys| && forall i | 0 <= i < |keys| :: a.value[i].0 == keys[i]
  {
    GatherResults(keys, dict, next, expiredAt);
  }

  // ---------------------------------------------------------------------
  // The service

  /** The cache state. `cells` holds the completion cell of every record ever
      created, indexed by record id; `inflight` the requests dispatched to the
      factory and not yet completed, by request number; `owner` records
      which request created each record. */
  class MemCache<K(==), V> {
    const expiry: int
    var dictionary: map<K, Rec<K>>
    var queue: seq<Rec<K>>
    var cells: seq<Cell<V>>
    var inflight: map<nat, seq<Rec<K>>>
    var nextRequest: nat
    ghost var owner: seq<nat>

    /** The records of request `q` are pending cells that request `q` created,
        in ascending cell order. */
    ghost predicate Requested(rs: seq<Rec<K>>, q: nat)
      reads this
    {
      && |owner| == |cells| && Ascending(rs)
      && forall j | 0 <= j < |rs| ::
           rs[j].id < |cells| && cells[rs[j].id] == Pending && owner[rs[j].id] == q
    }

    ghost predicate Valid()
      reads this
    {
      && |owner| == |cells|
      && DistinctKeys(queue)
      && dictionary == KeyMap(queue)
      && (forall i | 0 <= i < |queue| :: queue[i].id < |cells|)
      && (forall q | q in inflight :: q < nextRequest && Requested(inflight[q], q))
    }

    constructor (expiry: int)
      ensures Valid()
      ensures this.expiry == expiry && dictionary == map[] && queue == []
      ensures cells == [] && inflight == map[] && nextRequest == 0
    {
      this.expiry := expiry;
      dictionary := map[];
      queue := [];
      cells := [];
      inflight := map[];
      nextRequest := 0;
      owner := [];
    }

    /** Looks every key up, creating a record stamped `now + expiry` for each
        unseen key, and dispatches one request, numbered `request`, with the
        records this call created. The values arrive through `Complete`; the
        pairs the call returns are `Answer(cells, results)`. */
    method GetAsync(keys: seq<K>, now: int) returns (results: seq<Rec<K>>, request: nat)
      requires Valid()
      modifies this`dictionary, this`queue, this`cells, this`owner, this`inflight, this`nextRequest
      ensures Valid()
      ensures var g := Gather(keys, old(dictionary), |old(cells)|, now + expiry);
        && dictionary == g.dictionary && results == g.results
        && queue == old(queue) + g.missing
        && cells == old(cells) + Repeat(Pending, |g.missing|)
        && request == old(nextRequest) && nextRequest == request + 1
        && inflight == old(inflight)[request := g.missing]
      ensures Sorted(old(queue)) && (forall i | 0 <= i < |old(queue)| :: old(queue)[i].expiredAt <= now + expiry)
        ==> Sorted(queue)
    {
      var expiredAt := now + expiry;
      var missing;
      results, missing := Lookup(keys, expiredAt);
      request := nextRequest;
      inflight := inflight[request := missing];
      nextRequest := nextRequest + 1;
      GetAsyncValid(old(queue), old(cells), old(owner), old(inflight), keys, expiredAt, request);
      if Sorted(old(queue)) && (forall i | 0 <= i < |old(queue)| :: old(queue)[i].expiredAt <= expiredAt) {
        GatherFresh(keys, old(dictionary), |old(cells)|, expiredAt);
        AppendSorted(old(queue), missing, expiredAt);
      }
    }

    /** The get-or-create loop: every unseen key gets a record stamped
        `expiredAt` with a new pending cell, put in the map and appended to
        the queue and to `missing`; `results` holds every key's record. */
    method Lookup(keys: seq<K>, expiredAt: int) returns (results: seq<Rec<K>>, missing: seq<Rec<K>>)
      modifies this`dictionary, this`queue, this`cells, this`owner
      ensures var g := Gather(keys, old(dictionary), |old(cells)|, expiredAt);
        && dictionary == g.dictionary && results == g.results && missing == g.missing
        && queue == old(queue) + missing
        && cells == old(cells) + Repeat(Pending, |missing|)
        && owner == old(owner) + Repeat(nextRequest, |missing|)
    {
      missing := [];
      results := [];
      ghost var g0 := Gather(keys, old(dictionary), |old(cells)|, expiredAt);
      var i := 0;
      while i < |keys|
        invariant 0 <= i <= |keys|
        invariant var g := Gather(keys[i..], dictionary, |cells|, expiredAt);
          g0 == Gathered(g.dictionary, missing + g.missing, results + g.results)
        invariant queue == old(queue) + missing
        invariant cells == old(cells) + Repeat(Pending, |missing|)
        invariant owner == old(owner) + Repeat(nextRequest, |missing|)
      {
        var k := keys[i];
        assert keys[i..][1..] == keys[i + 1..];
        if k in dictionary {
          GatherSeen(keys[i..], dictionary, |cells|, expiredAt, missing, results);
          results := results + [dictionary[k]];
        } else {
          var r := Rec(|cells|, k, expiredAt);
          GatherUnseen(keys[i..], dictionary, |cells|, expiredAt, missing, results);
          dictionary := dictionary[k := r];
          queue := queue + [r];
          missing := missing + [r];
          assert Repeat<Cell<V>>(Pending, |missing|) == Repeat(Pending, |missing| - 1) + [Pending];
          assert Repeat(nextRequest, |missing|) == Repeat(nextRequest, |missing| - 1) + [nextRequest];
          cells := cells + [Pending];
          owner := owner + [nextRequest];
          results := results + [r];
        }
        i := i + 1;
      }
      assert keys[i..] == [];
    }

    /** Sweeps the expired records off the head of the queue and out of the map. */
    method CleanUp(now: int)
      requires Valid()
      modifies this`dictionary, this`queue
      ensures Valid()
      ensures queue == old(queue)[Expired(old(queue), now)..]
      ensures dictionary == old(dictionary) - Keys(old(queue)[..Expired(old(queue), now)])
      ensures Sorted(old(queue)) ==> Sorted(queue)
    {
      ghost var q0 := queue;
      ghost var i := 0;
      while queue != [] && queue[0].expiredAt < now
        invariant 0 <= i <= |q0| && queue == q0[i..]
        invariant Expired(q0, now) == i + Expired(queue, now)
        invariant DistinctKeys(queue) && dictionary == KeyMap(queue)
        invariant dictionary == old(dictionary) - Keys(q0[..i])
        decreases |queue|
      {
        KeyMapTail(queue);
        assert Keys(q0[..i + 1]) == Keys(q0[..i]) + {queue[0].key} by {
          assert q0[..i + 1] == q0[..i] + [q0[i]];
          assert forall j | 0 <= j < i :: q0[..i + 1][j] == q0[..i][j];
        }
        dictionary := dictionary - {queue[0].key};
        queue := queue[1..];
        i := i + 1;
        assert q0[i..] == queue;
      }
    }

    /** Sets a record's value; the source's `SetResult` throws when the
        value is already set, which the precondition rules out. */
    method SetValue(id: nat, value: V)
      requires id < |cells| && cells[id] == Pending
      modifies this`cells
      ensures cells == old(cells)[id := Filled(value)]
    {
      cells := cells[id := Filled(value)];
    }

    /** Completes request `q` with the factory's outcome: every record of the
        request gets the value `Fetched` gives it, and the request is retired. */
    method Complete(q: nat, outcome: FetchOutcome<K, V>, dflt: V)
      requires Valid() && q in inflight
      modifies this`cells, this`inflight
      ensures Valid()
      ensures inflight == old(inflight) - {q}
      ensures cells == Fill(old(cells), old(inflight)[q], Table(outcome), dflt)
    {
      var records := inflight[q];
      var table := Table(outcome);
      ghost var c0 := cells;
      var i := 0;
      while i < |records|
        modifies this`cells
        invariant 0 <= i <= |records| && |cells| == |c0|
        invariant Fill(cells, records[i..], table, dflt) == Fill(c0, records, table, dflt)
        invariant forall j | i <= j < |records| :: cells[records[j].id] == Pending
      {
        var r := records[i];
        var value := if table.Some? && r.key in table.value then table.value[r.key] else dflt;
        SetValue(r.id, value);
        assert records[i..][1..] == records[i + 1..];
        i := i + 1;
      }
      inflight := inflight - {q};
      CompleteValid(c0, records, table, dflt, q);
    }

    /** GetAsync's new state satisfies the invariant. */
    lemma GetAsyncValid(q0: seq<Rec<K>>, c0: seq<Cell<V>>, o0: seq<nat>, f0: map<nat, seq<Rec<K>>>,
                        keys: seq<K>, expiredAt: int, tag: nat)
      requires |o0| == |c0| && DistinctKeys(q0) && (forall i | 0 <= i < |q0| :: q0[i].id < |c0|)
      requires forall q | q in f0 :: q < tag && Ascending(f0[q])
      requires forall q, j | q in f0 && 0 <= j < |f0[q]| ::
        f0[q][j].id < |c0| && c0[f0[q][j].id] == Pending && o0[f0[q][j].id] == q
      requires var g := Gather(keys, KeyMap(q0), |c0|, expiredAt);
        && dictionary == g.dictionary && queue == q0 + g.missing
        && cells == c0 + Repeat(Pending, |g.missing|)
        && owner == o0 + Repeat(tag, |g.missing|)
        && inflight == f0[tag := g.missing] && nextRequest == tag + 1
      ensures Valid()
    {
      var g := Gather(keys, KeyMap(q0), |c0|, expiredAt);
      GatherAgrees(keys, q0, |c0|, expiredAt);
      GatherFresh(keys, KeyMap(q0), |c0|, expiredAt);
      forall i | 0 <= i < |queue| ensures queue[i].id < |cells| {
        if i >= |q0| {
          assert queue[i] == g.missing[i - |q0|];
        }
      }
      forall q | q in inflight ensures q < nextRequest && Requested(inflight[q], q) {
        if q != tag {
          forall j | 0 <= j < |f0[q]| ensures cells[f0[q][j].id] == Pending && owner[f0[q][j].id] == q {
            assert cells[f0[q][j].id] == c0[f0[q][j].id];
            assert owner[f0[q][j].id] == o0[f0[q][j].id];
          }
        }
      }
    }

    /** Complete's new state satisfies the invariant: only the cells of the
        completed request changed, and those belong to no other request. */
    lemma CompleteValid(c0: seq<Cell<V>>, records: seq<Rec<K>>, table: Option<map<K, V>>, dflt: V, q: nat)
      requires |owner| == |c0| && DistinctKeys(queue) && dictionary == KeyMap(queue)
      requires forall i | 0 <= i < |queue| :: queue[i].id < |c0|
      requires forall j | 0 <= j < |records| :: records[j].id < |c0| && owner[records[j].id] == q
      requires Ascending(records)
      requires q !in inflight
      requires forall p | p in inflight :: p < nextRequest && Ascending(inflight[p])
      requires forall p, j | p in inflight && 0 <= j < |inflight[p]| ::
        inflight[p][j].id < |c0| && c0[inflight[p][j].id] == Pending && owner[inflight[p][j].id] == p
      requires cells == Fill(c0, records, table, dflt)
      ensures Valid()
    {
      FillAt(c0, records, table, dflt);
      forall p | p in inflight ensures Requested(inflight[p], p) {
        forall j | 0 <= j < |inflight[p]| ensures cells[inflight[p][j].id] == Pending {
          var x := inflight[p][j].id;
          assert forall i | 0 <= i < |records| :: records[i].id != x by {
            forall i | 0 <= i < |records| ensures records[i].id != x {
              assert owner[records[i].id] == q != p == owner[x];
            }
          }
        }
      }
    }
  }
}
