/** The in-memory repository: entities kept in a dictionary keyed by their
    `Id`. The dictionary's enumeration order is unspecified, so the members
    that enumerate take it as a parameter, `listing`: the keys of the
    dictionary, each once, in the order the enumeration visits them. */
module InMemoryRepository {
  import opened Wrappers

  /** A filter argument: None stands for a null expression, which matches everything. */
  predicate Matches<T>(filter: Option<T -> bool>, x: T) {
    filter.None? || filter.value(x)
  }

  /** LINQ `Where`: the elements that match, in order. */
  function Where<T>(p: T -> bool, s: seq<T>): (r: seq<T>)
    ensures |r| <= |s|
    ensures forall i | 0 <= i < |r| :: p(r[i]) && r[i] in s
    decreases |s|
  {
    if s == [] then []
    else if p(s[|s| - 1]) then Where(p, s[..|s| - 1]) + [s[|s| - 1]]
    else Where(p, s[..|s| - 1])
  }

  /** The predicate a filter argument compiles to: a null expression is `t => true`. */
  function Compiled<T>(filter: Option<T -> bool>): (p: T -> bool)
    ensures filter.Some? ==> p == filter.value
  {
    if filter.Some? then filter.value else (t => true)
  }

  /** `Where` keeps the order of its input: filtering a concatenation
      concatenates the filtered parts. */
  lemma {:induction false} WhereConcat<T>(p: T -> bool, a: seq<T>, b: seq<T>)
    ensures Where(p, a + b) == Where(p, a) + Where(p, b)
    decreases |b|
  {
    if b == [] {
      assert a + b == a;
    } else {
      var init := b[..|b| - 1];
      assert (a + b)[..|a + b| - 1] == a + init;
      WhereConcat(p, a, init);
    }
  }

  /** As many values pass `Where` as there are listed keys whose record passes. */
  lemma {:induction false} WhereCount<K, T>(p: T -> bool, records: map<K, T>, l: seq<K>)
    requires forall i | 0 <= i < |l| :: l[i] in records
    requires forall i, j | 0 <= i < j < |l| :: l[i] != l[j]
    ensures |Where(p, Values(records, l))| == |Passing(p, records, Members(l))|
    decreases |l|
  {
    if l != [] {
      var init := l[..|l| - 1];
      WhereCount(p, records, init);
      WhereValuesStep(p, records, l);
      PassingStep(p, records, l);
    }
  }

  /** The keys of `ks` whose record passes `p`. */
  function Passing<K, T>(p: T -> bool, records: map<K, T>, ks: set<K>): set<K> {
    set k | k in ks && k in records && p(records[k])
  }

  lemma WhereValuesStep<K, T>(p: T -> bool, records: map<K, T>, l: seq<K>)
    requires l != [] && forall i | 0 <= i < |l| :: l[i] in records
    ensures var last := records[l[|l| - 1]];
      Where(p, Values(records, l)) ==
        Where(p, Values(records, l[..|l| - 1])) + (if p(last) then [last] else [])
  {
    var vs := Values(records, l);
    assert vs[..|vs| - 1] == Values(records, l[..|l| - 1]);
  }

  lemma PassingStep<K, T>(p: T -> bool, records: map<K, T>, l: seq<K>)
    requires l != [] && l[|l| - 1] in records
    requires forall i | 0 <= i < |l| - 1 :: l[i] != l[|l| - 1]
    ensures var last := l[|l| - 1];
      |Passing(p, records, Members(l))| ==
        |Passing(p, records, Members(l[..|l| - 1]))| + (if p(records[last]) then 1 else 0)
  {
    var init := l[..|l| - 1];
    var last := l[|l| - 1];
    assert Members(l) == Members(init) + {last} by {
      assert l == init + [last];
    }
    assert last !in Members(init);
    var a := Passing(p, records, Members(init));
    if p(records[last]) {
      assert Passing(p, records, Members(l)) == a + {last};
    } else {
      assert Passing(p, records, Members(l)) == a;
    }
  }

  /** Every matching element of `s` is kept by `Where`. */
  lemma {:induction false} WhereKeeps<T>(p: T -> bool, s: seq<T>, i: nat)
    requires i < |s| && p(s[i])
    ensures s[i] in Where(p, s)
    decreases |s|
  {
    if i < |s| - 1 {
      assert s[..|s| - 1][i] == s[i];
      WhereKeeps(p, s[..|s| - 1], i);
    }
  }

  /** LINQ `Skip`: a count at or below zero skips nothing. */
  function Skip<T>(s: seq<T>, n: int): (r: seq<T>)
    ensures n <= 0 ==> r == s
    ensures 0 <= n <= |s| ==> r == s[n..]
    ensures n >= |s| ==> r == []
  {
    if n <= 0 then s else if n >= |s| then [] else s[n..]
  }

  /** LINQ `Take`: a count at or below zero takes nothing. */
  function Take<T>(s: seq<T>, n: int): (r: seq<T>)
    ensures n <= 0 ==> r == []
    ensures 0 <= n <= |s| ==> r == s[..n]
    ensures n >= |s| ==> r == s
  {
    if n <= 0 then [] else if n >= |s| then s else s[..n]
  }

  /** The records' values in the order `listing` visits them. */
  function Values<K, T>(records: map<K, T>, listing: seq<K>): (vs: seq<T>)
    requires forall i | 0 <= i < |listing| :: listing[i] in records
    ensures |vs| == |listing| && forall i | 0 <= i < |listing| :: vs[i] == records[listing[i]]
  {
    seq(|listing|, i requires 0 <= i < |listing| => records[listing[i]])
  }

  /** A dictionary in which every entity is stored under its own id. */
  predicate KeyedById<K, T>(records: map<K, T>, idOf: T -> K) {
    forall k | k in records :: idOf(records[k]) == k
  }

  /** The ids of `items`. */
  function IdSet<K, T>(items: seq<T>, idOf: T -> K): set<K> {
    set i | 0 <= i < |items| :: idOf(items[i])
  }

  function Members<K>(s: seq<K>): set<K> {
    set x | x in s
  }

  /** A listing is as long as the dictionary it lists. */
  lemma ListingSize<K, T>(listing: seq<K>, records: map<K, T>)
    requires IsListing(listing, records)
    ensures |listing| == |records|
  {
    DistinctSize(listing);
    assert Members(listing) == records.Keys;
  }

  lemma {:induction false} DistinctSize<K>(s: seq<K>)
    requires forall i, j | 0 <= i < j < |s| :: s[i] != s[j]
    ensures |Members(s)| == |s|
    decreases |s|
  {
    if s != [] {
      var init := s[..|s| - 1];
      assert forall i | 0 <= i < |init| :: init[i] == s[i];
      DistinctSize(init);
      assert Members(s) == Members(init) + {s[|s| - 1]} by {
        assert s == init + [s[|s| - 1]];
      }
      assert s[|s| - 1] !in Members(init);
    }
  }

  /** `Insert` of every item in turn: an id already stored keeps its entity. */
  function Inserts<K, T>(records: map<K, T>, items: seq<T>, idOf: T -> K): map<K, T>
    decreases |items|
  {
    if items == [] then records
    else
      var m := Inserts(records, items[..|items| - 1], idOf);
      var last := items[|items| - 1];
      if idOf(last) in m then m else m[idOf(last) := last]
  }

  /** `Update` of every item in turn: each item replaces whatever its id held. */
  function Upserts<K, T>(records: map<K, T>, items: seq<T>, idOf: T -> K): map<K, T>
    decreases |items|
  {
    if items == [] then records
    else
      var last := items[|items| - 1];
      Upserts(records, items[..|items| - 1], idOf)[idOf(last) := last]
  }

  /** The entities `UpdateMany` with a filter writes: the update of every
      matching value, in enumeration order. */
  function Replacements<T>(filter: Option<T -> bool>, update: T -> T, vs: seq<T>): (r: seq<T>)
    ensures |r| <= |vs|
    decreases |vs|
  {
    if vs == [] then []
    else
      var init := Replacements(filter, update, vs[..|vs| - 1]);
      if Matches(filter, vs[|vs| - 1]) then init + [update(vs[|vs| - 1])] else init
  }

  /** The records with those among `keys` that match replaced by their update. */
  function Replaced<K, T>(r0: map<K, T>, keys: seq<K>, filter: Option<T -> bool>, update: T -> T): map<K, T> {
    map k | k in r0 :: if k in keys && Matches(filter, r0[k]) then update(r0[k]) else r0[k]
  }

  lemma ReplacedStep<K, T>(r0: map<K, T>, keys: seq<K>, key: K, filter: Option<T -> bool>, update: T -> T)
    requires key in r0 && key !in keys
    ensures Replaced(r0, keys + [key], filter, update)
      == if Matches(filter, r0[key]) then Replaced(r0, keys, filter, update)[key := update(r0[key])]
         else Replaced(r0, keys, filter, update)
  {
    var m := Replaced(r0, keys + [key], filter, update);
    var m0 := Replaced(r0, keys, filter, update);
    assert m.Keys == m0.Keys;
    assert forall k | k in r0 && k != key :: m[k] == m0[k];
  }

  /** One step of the update loop: the `i`-th value is updated when it matches. */
  lemma ReplacementsStep<K, T>(r0: map<K, T>, vs: seq<T>, i: nat, filter: Option<T -> bool>,
                               update: T -> T, idOf: T -> K)
    requires i < |vs|
    ensures var before := Upserts(r0, Replacements(filter, update, vs[..i]), idOf);
      Upserts(r0, Replacements(filter, update, vs[..i + 1]), idOf)
        == if Matches(filter, vs[i]) then before[idOf(update(vs[i])) := update(vs[i])] else before
  {
    assert vs[..i + 1][..i] == vs[..i];
    var done := Replacements(filter, update, vs[..i]);
    if Matches(filter, vs[i]) {
      assert (done + [update(vs[i])])[..|done|] == done;
    }
  }

  /** With an update that keeps ids, updating along the first `n` keys of a
      listing replaces exactly the matching records among those keys. */
  lemma {:induction false} UpdateWherePrefix<K, T>(r0: map<K, T>, listing: seq<K>, filter: Option<T -> bool>,
                                                   update: T -> T, idOf: T -> K, n: nat)
    requires KeyedById(r0, idOf) && IsListing(listing, r0) && n <= |listing|
    requires forall x :: idOf(update(x)) == idOf(x)
    ensures Upserts(r0, Replacements(filter, update, Values(r0, listing)[..n]), idOf)
      == Replaced(r0, listing[..n], filter, update)
    decreases n
  {
    var vs := Values(r0, listing);
    if n == 0 {
      assert vs[..0] == [];
      assert Replaced(r0, listing[..0], filter, update) == r0;
    } else {
      UpdateWherePrefix(r0, listing, filter, update, idOf, n - 1);
      var key := listing[n - 1];
      assert vs[n - 1] == r0[key] && idOf(r0[key]) == key;
      assert key !in listing[..n - 1];
      assert listing[..n] == listing[..n - 1] + [key];
      ReplacementsStep(r0, vs, n - 1, filter, update, idOf);
      ReplacedStep(r0, listing[..n - 1], key, filter, update);
    }
  }

  /** Inserting `items` gains exactly the items' ids as keys and keeps every
      stored entity. */
  lemma {:induction false} InsertsKeeps<K, T>(records: map<K, T>, items: seq<T>, idOf: T -> K)
    ensures var m := Inserts(records, items, idOf);
      && m.Keys == records.Keys + IdSet(items, idOf)
      && (forall k | k in records :: m[k] == records[k])
    decreases |items|
  {
    if items != [] {
      var init := items[..|items| - 1];
      InsertsKeeps(records, init, idOf);
      IdSetLast(items, idOf);
    }
  }

  /** The first item with an id not stored before is the one stored under it. */
  lemma {:induction false} InsertsFirstWins<K, T>(records: map<K, T>, items: seq<T>, idOf: T -> K)
    ensures var m := Inserts(records, items, idOf);
      forall i | 0 <= i < |items| && idOf(items[i]) !in records &&
          (forall j | 0 <= j < i :: idOf(items[j]) != idOf(items[i])) ::
        idOf(items[i]) in m && m[idOf(items[i])] == items[i]
    decreases |items|
  {
    if items != [] {
      var init := items[..|items| - 1];
      var last := items[|items| - 1];
      InsertsFirstWins(records, init, idOf);
      InsertsKeeps(records, init, idOf);
      assert forall i | 0 <= i < |init| :: init[i] == items[i];
      var m := Inserts(records, items, idOf);
      forall i | 0 <= i < |items| && idOf(items[i]) !in records &&
          (forall j | 0 <= j < i :: idOf(items[j]) != idOf(items[i]))
        ensures idOf(items[i]) in m && m[idOf(items[i])] == items[i]
      {
        if i < |init| {
          assert idOf(init[i]) == idOf(items[i]);
          assert forall j | 0 <= j < i :: idOf(init[j]) != idOf(init[i]);
        } else {
          assert idOf(last) !in IdSet(init, idOf) by {
            forall j | 0 <= j < |init| ensures idOf(init[j]) != idOf(last) {
              assert init[j] == items[j];
            }
          }
        }
      }
    }
  }

  lemma IdSetLast<K, T>(items: seq<T>, idOf: T -> K)
    requires items != []
    ensures IdSet(items, idOf) == IdSet(items[..|items| - 1], idOf) + {idOf(items[|items| - 1])}
  {
    var init := items[..|items| - 1];
    assert forall i | 0 <= i < |init| :: init[i] == items[i];
    forall k | k in IdSet(items, idOf) ensures k in IdSet(init, idOf) + {idOf(items[|items| - 1])} {
      var i :| 0 <= i < |items| && idOf(items[i]) == k;
      if i < |init| {
        assert idOf(init[i]) == k;
      }
    }
  }

  /** After updating with `items`, the last item with a given id is stored
      under it, and the keys are those stored before plus the items' ids. */
  lemma {:induction false} UpsertsLastWins<K, T>(records: map<K, T>, items: seq<T>, idOf: T -> K)
    ensures var m := Upserts(records, items, idOf);
      && m.Keys == records.Keys + IdSet(items, idOf)
      && (forall k | k in records && (forall i | 0 <= i < |items| :: idOf(items[i]) != k) ::
            m[k] == records[k])
      && (forall i | 0 <= i < |items| && (forall j | i < j < |items| :: idOf(items[j]) != idOf(items[i])) ::
            m[idOf(items[i])] == items[i])
    decreases |items|
  {
    if items != [] {
      var init := items[..|items| - 1];
      UpsertsLastWins(records, init, idOf);
      assert forall i | 0 <= i < |init| :: init[i] == items[i];
      IdSetLast(items, idOf);
      var m := Upserts(records, items, idOf);
      forall i | 0 <= i < |items| && (forall j | i < j < |items| :: idOf(items[j]) != idOf(items[i]))
        ensures m[idOf(items[i])] == items[i]
      {
        if i < |init| {
          assert idOf(items[|items| - 1]) != idOf(items[i]);
          assert forall j | i < j < |init| :: idOf(init[j]) != idOf(init[i]) by {
            forall j | i < j < |init| ensures idOf(init[j]) != idOf(init[i]) {
              assert init[j] == items[j];
            }
          }
        }
      }
    }
  }

  /** The in-memory repository. `idOf` reads an entity's `Id`. */
  class MemoryRepository<K(==), T> {
    var records: map<K, T>
    const idOf: T -> K

    ghost predicate Valid()
      reads this
    {
      KeyedById(records, idOf)
    }

    constructor (idOf: T -> K)
      ensures Valid() && records == map[] && this.idOf == idOf
    {
      records := map[];
      this.idOf := idOf;
    }

    function OpenConnection(): (r: Result<()>)
      ensures r == Failure(NotSupported)
    {
      Failure(NotSupported)
    }

    /** The number of records, or of those satisfying the predicate. */
    function Count(filter: Option<T -> bool>): (n: nat)
      reads this
      ensures n <= |records|
      ensures filter.None? ==> n == |records|
      ensures filter.Some? ==> n == |set k | k in records && filter.value(records[k])|
    {
      if filter.None? then |records|
      else CountWhere(filter.value)
    }

    function CountWhere(p: T -> bool): (n: nat)
      reads this
      ensures n <= |records|
    {
      var s := set k | k in records && p(records[k]);
      assert s <= records.Keys;
      SubsetSize(s, records.Keys);
      |s|
    }

    /** The records satisfying `p` and those failing it together are all records. */
    lemma CountSplit(p: T -> bool)
      ensures Count(Some(p)) + Count(Some(x => !p(x))) == Count(None)
    {
      var a := set k | k in records && p(records[k]);
      var b := set k | k in records && !p(records[k]);
      assert a + b == records.Keys;
      assert a * b == {};
      assert |records| == |records.Keys|;
      assert Count(Some(p)) == |a|;
      var q := x => !p(x);
      assert (set k | k in records && q(records[k])) == b;
      assert Count(Some(q)) == |b|;
      DisjointSize(a, b);
    }

    method Delete(entity: T)
      requires Valid()
      modifies this
      ensures Valid()
      ensures records == old(records) - {idOf(entity)}
    {
      records := records - {idOf(entity)};
    }

    /** Removes the records that match: all of them for a null filter (by
        `Clear`), otherwise by collecting the matching keys in one pass over
        the enumeration and removing them in a second pass. */
    method DeleteMany(filter: Option<T -> bool>, listing: seq<K>)
      requires Valid() && IsListing(listing, records)
      modifies this
      ensures Valid()
      ensures records == map k | k in old(records) && !Matches(filter, old(records)[k]) :: old(records)[k]
    {
      if filter.None? {
        records := map[];
        return;
      }
      var p := filter.value;
      var removed: seq<K> := [];
      var i := 0;
      while i < |listing|
        invariant 0 <= i <= |listing|
        invariant forall j | 0 <= j < |removed| :: removed[j] in records && p(records[removed[j]])
        invariant forall j | 0 <= j < i :: p(records[listing[j]]) ==> listing[j] in removed
      {
        if p(records[listing[i]]) {
          removed := removed + [listing[i]];
        }
        i := i + 1;
      }
      ghost var r0 := records;
      var j := 0;
      while j < |removed|
        invariant 0 <= j <= |removed|
        invariant records == r0 - Members(removed[..j])
      {
        assert Members(removed[..j + 1]) == Members(removed[..j]) + {removed[j]} by {
          assert removed[..j + 1] == removed[..j] + [removed[j]];
        }
        records := records - {removed[j]};
        j := j + 1;
      }
      assert removed[..j] == removed;
      forall k | k in old(records) && p(old(records)[k]) ensures k in removed {
        var n :| 0 <= n < |listing| && listing[n] == k;
      }
    }

    /** Removes the records whose ids are among the items' ids. */
    method DeleteManyItems(items: seq<T>, listing: seq<K>)
      requires Valid() && IsListing(listing, records)
      modifies this
      ensures Valid()
      ensures records == map k | k in old(records) && k !in Ids(items) :: old(records)[k]
    {
      var ids := Ids(items);
      var f := idOf;
      DeleteMany(Some(r => f(r) in ids), listing);
    }

    function Ids(items: seq<T>): (ids: seq<K>)
      ensures |ids| == |items| && forall i | 0 <= i < |items| :: ids[i] == idOf(items[i])
    {
      seq(|items|, i requires 0 <= i < |items| => idOf(items[i]))
    }

    /** The filtered records in enumeration order, after skipping `Skip ?? 0`
        and taking at most `Limit ?? Count`. */
    function Find(filter: Option<T -> bool>, skip: Option<int>, limit: Option<int>, listing: seq<K>): (found: seq<T>)
      reads this
      requires IsListing(listing, records)
      ensures limit.Some? ==> |found| <= Max(0, limit.value)
      ensures |found| <= |records|
      ensures forall i | 0 <= i < |found| ::
        found[i] in Values(records, listing) && Matches(filter, found[i])
      ensures
        var matching := Where(Compiled(filter), Values(records, listing));
        var from := Min(Max(0, skip.GetOr(0)), |matching|);
        var to := Min(from + Max(0, limit.GetOr(|records|)), |matching|);
        found == matching[from..to]
    {
      var matching := Where(Compiled(filter), Values(records, listing));
      var s := Skip(matching, skip.GetOr(0));
      var r := Take(s, limit.GetOr(|records|));
      assert forall i | 0 <= i < |r| :: r[i] in matching;
      ListingSize(listing, records);
      r
    }

    /** Without skip and limit, `Find` returns every record that matches. */
    lemma FindAll(filter: Option<T -> bool>, listing: seq<K>)
      requires IsListing(listing, records)
      ensures forall k | k in records && Matches(filter, records[k]) ::
        records[k] in Find(filter, None, None, listing)
    {
      var vs := Values(records, listing);
      ListingSize(listing, records);
      forall k | k in records && Matches(filter, records[k]) ensures records[k] in Find(filter, None, None, listing) {
        var n :| 0 <= n < |listing| && listing[n] == k;
        WhereKeeps(Compiled(filter), vs, n);
      }
    }

    /** `Count` and `Find` without skip and limit agree: as many records
        are counted as are found. */
    lemma CountFind(filter: Option<T -> bool>, listing: seq<K>)
      requires IsListing(listing, records)
      ensures Count(filter) == |Find(filter, None, None, listing)|
    {
      var p := Compiled(filter);
      ListingSize(listing, records);
      WhereCount(p, records, listing);
      assert Members(listing) == records.Keys;
      var listed := Passing(p, records, Members(listing));
      if filter.None? {
        assert listed == records.Keys;
      } else {
        assert listed == set k | k in records && filter.value(records[k]);
      }
    }

    /** `Find` with include expressions is not supported. */
    function FindIncluding(filter: Option<T -> bool>, skip: Option<int>, limit: Option<int>,
                           includes: nat, listing: seq<K>): (r: Result<seq<T>>)
      reads this
      requires IsListing(listing, records)
      ensures includes > 0 <==> r == Failure(NotSupported)
      ensures includes == 0 ==> r == Success(Find(filter, skip, limit, listing))
    {
      if includes > 0 then Failure(NotSupported) else Success(Find(filter, skip, limit, listing))
    }

    /** The first record in enumeration order that matches, or null. */
    function FindOne(filter: Option<T -> bool>, listing: seq<K>): (r: Option<T>)
      reads this
      requires IsListing(listing, records)
      ensures r.Some? ==> Matches(filter, r.value) && exists k | k in records :: records[k] == r.value
      ensures r.None? <==> forall k | k in records :: !Matches(filter, records[k])
    {
      var i := FirstMatch(filter, listing);
      if i < |listing| then Some(records[listing[i]]) else None
    }

    /** The index of the first key in `listing` whose record matches, or `|listing|`. */
    function FirstMatch(filter: Option<T -> bool>, listing: seq<K>): (i: nat)
      reads this
      requires forall j | 0 <= j < |listing| :: listing[j] in records
      ensures i <= |listing|
      ensures i < |listing| ==> Matches(filter, records[listing[i]])
      ensures forall j | 0 <= j < i :: !Matches(filter, records[listing[j]])
      decreases |listing|
    {
      if listing == [] then 0
      else if Matches(filter, records[listing[0]]) then 0
      else
        var i := FirstMatch(filter, listing[1..]);
        assert forall j | 0 <= j < i :: listing[1..][j] == listing[j + 1];
        1 + i
    }

    /** `FindOne` with include expressions is not implemented; none (or null) delegates. */
    function FindOneIncluding(filter: Option<T -> bool>, includes: nat, listing: seq<K>): (r: Result<Option<T>>)
      reads this
      requires IsListing(listing, records)
      ensures includes > 0 <==> r == Failure(NotImplemented)
      ensures includes == 0 ==> r == Success(FindOne(filter, listing))
    {
      if includes == 0 then Success(FindOne(filter, listing)) else Failure(NotImplemented)
    }

    /** The record stored under `id`, or null. */
    function GetById(id: K): (r: Option<T>)
      reads this
      ensures r.Some? <==> id in records
      ensures r.Some? ==> r.value == records[id]
    {
      if id in records then Some(records[id]) else None
    }

    /** Adds the entity under its id unless that id is stored; an existing record is kept. */
    method Insert(entity: T)
      requires Valid()
      modifies this
      ensures Valid()
      ensures records == if idOf(entity) in old(records) then old(records) else old(records)[idOf(entity) := entity]
    {
      if idOf(entity) !in records {
        records := records[idOf(entity) := entity];
      }
    }

    method InsertMany(items: seq<T>)
      requires Valid()
      modifies this
      ensures Valid()
      ensures records == Inserts(old(records), items, idOf)
    {
      var i := 0;
      while i < |items|
        invariant 0 <= i <= |items| && Valid()
        invariant records == Inserts(old(records), items[..i], idOf)
      {
        assert items[..i + 1][..i] == items[..i];
        Insert(items[i]);
        i := i + 1;
      }
      assert items[..i] == items;
    }

    /** Stores the entity under its id, adding or replacing: afterwards
        `GetById(idOf(entity))` is the entity. */
    method Update(entity: T)
      requires Valid()
      modifies this
      ensures Valid()
      ensures records == old(records)[idOf(entity) := entity]
      ensures GetById(idOf(entity)) == Some(entity)
    {
      records := records[idOf(entity) := entity];
    }

    method UpdateMany(items: seq<T>)
      requires Valid()
      modifies this
      ensures Valid()
      ensures records == Upserts(old(records), items, idOf)
    {
      var i := 0;
      while i < |items|
        invariant 0 <= i <= |items| && Valid()
        invariant records == Upserts(old(records), items[..i], idOf)
      {
        assert items[..i + 1][..i] == items[..i];
        Update(items[i]);
        i := i + 1;
      }
      assert items[..i] == items;
    }

    /** Replaces every record that passes the filter by `update` of it, keyed by
        the new entity's id. When `update` keeps ids, exactly the matching
        records are replaced. */
    method UpdateManyWhere(filter: Option<T -> bool>, update: T -> T, listing: seq<K>)
      requires Valid() && IsListing(listing, records)
      modifies this
      ensures Valid()
      ensures records == Upserts(old(records), Replacements(filter, update, Values(old(records), listing)), idOf)
      ensures (forall x :: idOf(update(x)) == idOf(x)) ==>
        records == Replaced(old(records), listing, filter, update)
    {
      ghost var r0 := records;
      var values := Values(records, listing);
      var i := 0;
      while i < |listing|
        invariant 0 <= i <= |listing| && Valid()
        invariant records == Upserts(r0, Replacements(filter, update, values[..i]), idOf)
      {
        var r := values[i];
        ReplacementsStep(r0, values, i, filter, update, idOf);
        if Matches(filter, r) {
          Update(update(r));
        }
        i := i + 1;
      }
      assert values[..i] == values;
      if forall x :: idOf(update(x)) == idOf(x) {
        UpdateWherePrefix(r0, listing, filter, update, idOf, |listing|);
        assert listing[..|listing|] == listing;
      }
    }
  }

  lemma SubsetSize<K>(a: set<K>, b: set<K>)
    requires a <= b
    ensures |a| <= |b|
  {
    assert b == a + (b - a);
  }

  lemma DisjointSize<K>(a: set<K>, b: set<K>)
    requires a * b == {}
    ensures |a + b| == |a| + |b|
  {
  }
}
