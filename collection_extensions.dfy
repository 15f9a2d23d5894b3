/** Extension helpers over lists, arrays and sequences. A mutable `IList<T>`
    is a `Collection` object whose `items` field its methods reassign; arrays
    stay arrays; an `IEnumerable<T>` read once is a sequence. */
module CollectionExtensions {
  import opened Wrappers

  /** A mutable list, possibly read-only. */
  class Collection<T> {
    var items: seq<T>
    const readOnly: bool

    constructor (items: seq<T>, readOnly: bool)
      ensures this.items == items && this.readOnly == readOnly
    {
      this.items := items;
      this.readOnly := readOnly;
    }

    /** Appends `x`; a read-only list refuses with `NotSupported` and keeps its items. */
    method Add(x: T) returns (o: Outcome)
      modifies this
      ensures readOnly <==> o == Fail(NotSupported)
      ensures readOnly ==> items == old(items)
      ensures !readOnly ==> o == Pass && items == old(items) + [x]
    {
      if readOnly {
        return Fail(NotSupported);
      }
      items := items + [x];
      o := Pass;
    }

    method RemoveAt(i: nat)
      requires i < |items|
      modifies this
      ensures items == old(items)[..i] + old(items)[i + 1..]
    {
      items := items[..i] + items[i + 1..];
    }
  }

  // ---------------------------------------------------------------------
  // RemoveWhere

  /** The elements of `s` that do not satisfy `pred`, in their original order. */
  function Survivors<T>(s: seq<T>, pred: T -> bool): (r: seq<T>)
    ensures |r| <= |s|
    decreases |s|
  {
    if s == [] then [] else (if pred(s[0]) then [] else [s[0]]) + Survivors(s[1..], pred)
  }

  /** No survivor matches, every non-matching element survives, and every
      survivor comes from the input. That the survivors keep the input's
      order follows from the definition of `Survivors`, which walks the
      input front to back. */
  lemma {:induction false} SurvivorsMeaning<T>(s: seq<T>, pred: T -> bool)
    ensures forall i | 0 <= i < |Survivors(s, pred)| :: !pred(Survivors(s, pred)[i])
    ensures forall i | 0 <= i < |s| && !pred(s[i]) :: s[i] in Survivors(s, pred)
    ensures forall x | x in Survivors(s, pred) :: x in s
    decreases |s|
  {
    if s != [] {
      SurvivorsMeaning(s[1..], pred);
      var head := if pred(s[0]) then [] else [s[0]];
      assert Survivors(s, pred) == head + Survivors(s[1..], pred);
      forall i | 0 <= i < |s| && !pred(s[i]) ensures s[i] in Survivors(s, pred) {
        if i > 0 {
          assert s[i] == s[1..][i - 1];
        }
      }
    }
  }

  /** Removes, walking backwards so that positions do not shift under the
      walk, every element that matches, and answers how many were removed.
      A null list or predicate and a read-only list are errors. */
  method RemoveWhere<T>(collection: Collection?<T>, pred: Option<T -> bool>) returns (r: Result<nat>)
    modifies collection
    ensures collection == null ==> r == Failure(ArgumentNull("collection"))
    ensures collection != null && pred.None? ==> r == Failure(ArgumentNull("match"))
    ensures collection != null && pred.Some? && collection.readOnly ==> r == Failure(NotSupported)
    ensures r.Failure? ==> collection == null || collection.items == old(collection.items)
    ensures collection != null && pred.Some? && !collection.readOnly ==>
      && collection.items == Survivors(old(collection.items), pred.value)
      && r == Success(|old(collection.items)| - |collection.items|)
  {
    if collection == null {
      return Failure(ArgumentNull("collection"));
    }
    if pred.None? {
      return Failure(ArgumentNull("match"));
    }
    if collection.readOnly {
      return Failure(NotSupported);
    }
    var p := pred.value;
    ghost var s := collection.items;
    var removed := 0;
    var i := |collection.items|;
    while i > 0
      invariant 0 <= i <= |s|
      invariant collection.items == s[..i] + Survivors(s[i..], p)
      invariant removed == |s| - i - |Survivors(s[i..], p)|
    {
      i := i - 1;
      assert s[i..][1..] == s[i + 1..];
      var item := collection.items[i];
      assert item == s[i];
      if p(item) {
        collection.RemoveAt(i);
        removed := removed + 1;
      }
      assert s[..i + 1] == s[..i] + [s[i]];
    }
    assert s[0..] == s;
    return Success(removed);
  }

  // ---------------------------------------------------------------------
  // Arrays

  /** `Array.Copy`: `length` elements of `src` from `srcIndex` onto `dst` from `dstIndex`. */
  method ArrayCopy<T>(src: array<T>, srcIndex: nat, dst: array<T>, dstIndex: nat, length: nat)
    requires srcIndex + length <= src.Length && dstIndex + length <= dst.Length
    modifies dst
    ensures dst[..] == old(dst[..dstIndex]) + old(src[srcIndex..srcIndex + length]) + old(dst[dstIndex + length..])
  {
    ghost var d := dst[..];
    ghost var c := src[srcIndex..srcIndex + length];
    forall i | 0 <= i < length {
      dst[dstIndex + i] := src[srcIndex + i];
    }
    assert dst[..] == d[..dstIndex] + c + d[dstIndex + length..] by {
      forall j | 0 <= j < dst.Length
        ensures dst[j] == (d[..dstIndex] + c + d[dstIndex + length..])[j]
      {
        if j >= dstIndex + length {
          assert (d[..dstIndex] + c + d[dstIndex + length..])[j] == d[dstIndex + length..][j - dstIndex - length];
        }
      }
    }
  }

  /** A fresh array holding `source` followed by `destination`. */
  method Append<T(0)>(source: array<T>, destination: array<T>) returns (r: array<T>)
    ensures fresh(r)
    ensures r[..] == source[..] + destination[..]
  {
    r := new T[source.Length + destination.Length];
    ArrayCopy(source, 0, r, 0, source.Length);
    ArrayCopy(destination, 0, r, source.Length, destination.Length);
    assert r[..] == source[..] + destination[..] by {
      assert source[0..source.Length] == source[..];
      assert destination[0..destination.Length] == destination[..];
    }
  }

  /** The lengths of the arrays, summed. */
  function TotalLength<T>(chunks: seq<seq<T>>): nat
    decreases |chunks|
  {
    if chunks == [] then 0 else TotalLength(chunks[..|chunks| - 1]) + |chunks[|chunks| - 1]|
  }

  /** The concatenation of the arrays' contents. */
  function Concat<T>(chunks: seq<seq<T>>): (r: seq<T>)
    ensures |r| == TotalLength(chunks)
    decreases |chunks|
  {
    if chunks == [] then [] else Concat(chunks[..|chunks| - 1]) + chunks[|chunks| - 1]
  }

  /** Every array is no longer than the total. */
  lemma {:induction false} TotalLengthBounds<T>(chunks: seq<seq<T>>)
    ensures forall k | 0 <= k < |chunks| :: |chunks[k]| <= TotalLength(chunks)
    decreases |chunks|
  {
    if chunks != [] {
      var init := chunks[..|chunks| - 1];
      TotalLengthBounds(init);
      assert forall k | 0 <= k < |init| :: init[k] == chunks[k];
    }
  }

  function Contents<T>(arrays: seq<array<T>>): (c: seq<seq<T>>)
    reads set k | 0 <= k < |arrays| :: arrays[k]
    ensures |c| == |arrays| && forall k | 0 <= k < |arrays| :: c[k] == arrays[k][..]
  {
    seq(|arrays|, k reads arrays requires 0 <= k < |arrays| => arrays[k][..])
  }

  /** The last array long enough to reach position `j`, or -1 when none is. */
  function LastCover<T>(chunks: seq<seq<T>>, j: nat): (k: int)
    ensures -1 <= k < |chunks|
    ensures k >= 0 ==> j < |chunks[k]| && forall m | k < m < |chunks| :: j >= |chunks[m]|
    ensures k == -1 ==> forall m | 0 <= m < |chunks| :: j >= |chunks[m]|
    decreases |chunks|
  {
    if chunks == [] then -1
    else if j < |chunks[|chunks| - 1]| then |chunks| - 1
    else
      var k := LastCover(chunks[..|chunks| - 1], j);
      assert forall m | 0 <= m < |chunks| - 1 :: chunks[..|chunks| - 1][m] == chunks[m];
      k
  }

  /** The first loop of both joins: the total length of the arrays. */
  method SumLengths<T>(xs: seq<array<T>>) returns (total: nat)
    ensures total == TotalLength(Contents(xs))
  {
    ghost var c := Contents(xs);
    total := 0;
    var k := 0;
    while k < |xs|
      invariant 0 <= k <= |xs| && total == TotalLength(c[..k])
    {
      assert c[..k + 1][..k] == c[..k];
      total := total + xs[k].Length;
      k := k + 1;
    }
    assert c[..k] == c;
  }

  /** Joins the arrays into one of their total length, but, as written, copies
      every array to offset 0 since the offset is never advanced: a position
      holds the element of the last array that reaches it, and positions no
      array reaches keep the default value. */
  method Join<T(0)>(arrays: Option<seq<array<T>>>) returns (r: Result<array<T>>)
    ensures arrays.None? <==> r == Failure(ArgumentNull("arrays"))
    ensures arrays.Some? ==> r.Success? && fresh(r.value)
    ensures arrays.Some? ==> var c := Contents(arrays.value);
      && r.value.Length == TotalLength(c)
      && Covered(c, r.value[..])
  {
    if arrays.None? {
      return Failure(ArgumentNull("arrays"));
    }
    var xs := arrays.value;
    var total := SumLengths(xs);
    TotalLengthBounds(Contents(xs));
    var res := new T[total];
    CopyAtZero(xs, res);
    return Success(res);
  }

  /** The second loop of `Join` as written: every array copied to offset 0. */
  method CopyAtZero<T>(xs: seq<array<T>>, res: array<T>)
    requires forall k | 0 <= k < |xs| :: xs[k].Length <= res.Length && xs[k] != res
    modifies res
    ensures Covered(Contents(xs), res[..])
  {
    ghost var c := Contents(xs);
    var offset := 0;
    var k := 0;
    while k < |xs|
      invariant 0 <= k <= |xs|
      invariant Covered(c[..k], res[..])
    {
      ghost var before := res[..];
      ArrayCopy(xs[k], 0, res, offset, xs[k].Length);
      assert xs[k][0..xs[k].Length] == c[k];
      assert c[..k + 1] == c[..k] + [c[k]];
      CoveredStep(c[..k], c[k], before, res[..]);
      k := k + 1;
    }
    assert c[..k] == c;
  }

  /** Each position of `r` that some chunk reaches holds the element of the
      last chunk reaching it. */
  ghost predicate Covered<T>(chunks: seq<seq<T>>, r: seq<T>) {
    forall j | 0 <= j < |r| && LastCover(chunks, j) >= 0 :: r[j] == chunks[LastCover(chunks, j)][j]
  }

  /** Copying one more chunk to offset 0 keeps `Covered`. */
  lemma CoveredStep<T>(chunks: seq<seq<T>>, last: seq<T>, before: seq<T>, after: seq<T>)
    requires Covered(chunks, before) && |last| <= |before|
    requires after == before[..0] + last + before[|last|..]
    ensures Covered(chunks + [last], after)
  {
    var c := chunks + [last];
    assert c[..|c| - 1] == chunks;
    forall j | 0 <= j < |after| && LastCover(c, j) >= 0 ensures after[j] == c[LastCover(c, j)][j] {
      if j < |last| {
        assert after[j] == last[j];
      } else {
        assert after[j] == before[j];
      }
    }
  }

  /** The evident intent of `Join`: advance the offset past each array, so the
      result is the concatenation of the arrays. */
  method JoinConcatenating<T(0)>(arrays: Option<seq<array<T>>>) returns (r: Result<array<T>>)
    ensures arrays.None? <==> r == Failure(ArgumentNull("arrays"))
    ensures arrays.Some? ==> r.Success? && fresh(r.value) && r.value[..] == Concat(Contents(arrays.value))
  {
    if arrays.None? {
      return Failure(ArgumentNull("arrays"));
    }
    var xs := arrays.value;
    var total := SumLengths(xs);
    var res := new T[total];
    CopyConsecutive(xs, res);
    return Success(res);
  }

  /** The second loop as intended: each array copied just after the previous one. */
  method CopyConsecutive<T>(xs: seq<array<T>>, res: array<T>)
    requires res.Length == TotalLength(Contents(xs))
    requires forall k | 0 <= k < |xs| :: xs[k] != res
    modifies res
    ensures res[..] == Concat(Contents(xs))
  {
    ghost var c := Contents(xs);
    var offset := 0;
    var k := 0;
    while k < |xs|
      invariant 0 <= k <= |xs|
      invariant offset == TotalLength(c[..k]) <= res.Length
      invariant res[..offset] == Concat(c[..k])
    {
      assert c[..k + 1] == c[..k] + [c[k]];
      TotalLengthPrefix(c, k + 1);
      ghost var before := res[..];
      ArrayCopy(xs[k], 0, res, offset, xs[k].Length);
      assert xs[k][0..xs[k].Length] == c[k];
      ConcatStep(c[..k], c[k], before, res[..], offset);
      offset := offset + xs[k].Length;
      k := k + 1;
    }
    assert c[..k] == c;
    assert res[..] == res[..offset];
  }

  /** Copying one more chunk just past the concatenation so far extends it. */
  lemma ConcatStep<T>(chunks: seq<seq<T>>, last: seq<T>, before: seq<T>, after: seq<T>, offset: nat)
    requires offset + |last| <= |before| && before[..offset] == Concat(chunks)
    requires after == before[..offset] + last + before[offset + |last|..]
    ensures after[..offset + |last|] == Concat(chunks + [last])
  {
    assert (chunks + [last])[..|chunks|] == chunks;
  }

  /** A prefix of the arrays is no longer than all of them. */
  lemma {:induction false} TotalLengthPrefix<T>(chunks: seq<seq<T>>, n: nat)
    requires n <= |chunks|
    ensures TotalLength(chunks[..n]) <= TotalLength(chunks)
    decreases |chunks| - n
  {
    if n < |chunks| {
      TotalLengthPrefix(chunks, n + 1);
      assert chunks[..n + 1][..n] == chunks[..n];
    } else {
      assert chunks[..n] == chunks;
    }
  }

  /** `Join` as written misplaces elements: joining `[1]` and `[2]` gives an
      array whose first element is 2, not the concatenation `[1, 2]`. */
  method JoinMisplaces() returns (r: array<int>)
    ensures r.Length == 2 && r[0] == 2 && r[..] != [1, 2]
  {
    var a := new int[1];
    a[0] := 1;
    var b := new int[1];
    b[0] := 2;
    var joined := Join(Some([a, b]));
    r := joined.value;
    ghost var c := Contents([a, b]);
    assert c == [[1], [2]] by {
      assert c[0] == a[..] == [1];
      assert c[1] == b[..] == [2];
    }
    assert c[..1] == [[1]] && c[..1][..0] == [];
    assert TotalLength(c[..1][..0]) == 0;
    assert TotalLength(c[..1]) == 1;
    assert TotalLength(c) == 2;
    assert LastCover(c, 0) == 1;
    assert r[..][0] == 2;
  }

  // ---------------------------------------------------------------------
  // Searching and membership

  /** The index of the first element satisfying the predicate, or -1. */
  method IndexOf<T>(s: seq<T>, prediction: T -> bool) returns (r: int)
    ensures -1 <= r < |s|
    ensures r >= 0 ==> prediction(s[r]) && forall j | 0 <= j < r :: !prediction(s[j])
    ensures r == -1 <==> forall j | 0 <= j < |s| :: !prediction(s[j])
  {
    var i := 0;
    while i < |s|
      invariant 0 <= i <= |s| && forall j | 0 <= j < i :: !prediction(s[j])
    {
      if prediction(s[i]) {
        return i;
      }
      i := i + 1;
    }
    return -1;
  }

  /** LINQ `Any` with a predicate. */
  function Any<T>(s: seq<T>, p: T -> bool): (b: bool)
    ensures b <==> exists i | 0 <= i < |s| :: p(s[i])
    decreases |s|
  {
    if s == [] then false else p(s[0]) || Any(s[1..], p)
  }

  /** LINQ `Except`: the distinct elements of `b` that are not in `a`. */
  function Except<T(==)>(b: seq<T>, a: seq<T>): (r: seq<T>)
    ensures forall x | x in r :: x in b && x !in a
    ensures forall x | x in b && x !in a :: x in r
    decreases |b|
  {
    if b == [] then []
    else
      var rest := Except(b[..|b| - 1], a);
      var last := b[|b| - 1];
      assert forall x | x in b :: x in b[..|b| - 1] || x == last;
      if last in a || last in rest then rest else rest + [last]
  }

  /** Whether the collection holds any of the items. */
  function ContainsAny<T(==)>(t: seq<T>, items: seq<T>): (b: bool)
    ensures b <==> exists x | x in items :: x in t
  {
    Any(items, x => x in t)
  }

  /** Whether `a` holds every element of `b`: nothing of `b` is left once `a`'s are taken out. */
  function ContainsAll<T(==)>(a: seq<T>, b: seq<T>): (r: bool)
    ensures r <==> forall x | x in b :: x in a
  {
    var rest := Except(b, a);
    assert rest != [] ==> rest[0] in rest;
    !Any(rest, x => true)
  }

  // ---------------------------------------------------------------------
  // Building dictionaries and lists

  /** The dictionary the loop of `SafeToDictionary` fills: each element writes
      its value under its key, later elements overwriting earlier ones. */
  function SafeMap<S, K, V>(source: seq<S>, keySelector: S -> K, valueSelector: S -> V): map<K, V>
    decreases |source|
  {
    if source == [] then map[]
    else
      var last := source[|source| - 1];
      SafeMap(source[..|source| - 1], keySelector, valueSelector)[keySelector(last) := valueSelector(last)]
  }

  /** Every key of an element is present and maps to the value of the last
      element with that key; there are no other keys. */
  lemma {:induction false} SafeMapLastWins<S, K, V>(source: seq<S>, keySelector: S -> K, valueSelector: S -> V)
    ensures var m := SafeMap(source, keySelector, valueSelector);
      && (forall k | k in m :: exists i | 0 <= i < |source| :: keySelector(source[i]) == k)
      && (forall i | 0 <= i < |source| && (forall j | i < j < |source| :: keySelector(source[j]) != keySelector(source[i])) ::
            keySelector(source[i]) in m && m[keySelector(source[i])] == valueSelector(source[i]))
    decreases |source|
  {
    if source != [] {
      var init := source[..|source| - 1];
      SafeMapLastWins(init, keySelector, valueSelector);
      assert forall i | 0 <= i < |init| :: init[i] == source[i];
      var m := SafeMap(source, keySelector, valueSelector);
      forall k | k in m ensures exists i | 0 <= i < |source| :: keySelector(source[i]) == k {
        if k != keySelector(source[|source| - 1]) {
          var i :| 0 <= i < |init| && keySelector(init[i]) == k;
          assert keySelector(source[i]) == k;
        }
      }
      forall i | 0 <= i < |source| && (forall j | i < j < |source| :: keySelector(source[j]) != keySelector(source[i]))
        ensures keySelector(source[i]) in m && m[keySelector(source[i])] == valueSelector(source[i])
      {
        if i < |init| {
          assert keySelector(source[|source| - 1]) != keySelector(source[i]);
          assert forall j | i < j < |init| :: keySelector(init[j]) != keySelector(init[i]) by {
            forall j | i < j < |init| ensures keySelector(init[j]) != keySelector(init[i]) {
              assert init[j] == source[j];
            }
          }
        }
      }
    }
  }

  /** Builds the dictionary element by element; a repeated key overwrites
      instead of throwing. */
  method SafeToDictionary<S, K, V>(source: seq<S>, keySelector: S -> K, valueSelector: S -> V)
    returns (dic: map<K, V>)
    ensures dic == SafeMap(source, keySelector, valueSelector)
  {
    dic := map[];
    var i := 0;
    while i < |source|
      invariant 0 <= i <= |source| && dic == SafeMap(source[..i], keySelector, valueSelector)
    {
      assert source[..i + 1][..i] == source[..i];
      dic := dic[keySelector(source[i]) := valueSelector(source[i])];
      i := i + 1;
    }
    assert source[..i] == source;
  }

  /** The list with `x` added at the end unless it already holds it. */
  function WithItem<T(==)>(s: seq<T>, x: T): (r: seq<T>)
    ensures x in r
    ensures x in s ==> r == s
    ensures x !in s ==> r == s + [x]
  {
    if x in s then s else s + [x]
  }

  /** Adding an item twice has the effect of adding it once. */
  lemma WithItemIdempotent<T>(s: seq<T>, x: T)
    ensures WithItem(WithItem(s, x), x) == WithItem(s, x)
  {
  }

  /** Adds the item unless the list holds it; returns the same list. Adding
      to a read-only list fails with `NotSupported`. */
  method AddIfNotExist<T(==)>(list: Collection<T>, item: T) returns (r: Result<Collection<T>>)
    modifies list
    ensures item !in old(list.items) && list.readOnly <==> r == Failure(NotSupported)
    ensures r.Failure? ==> list.items == old(list.items)
    ensures r.Success? ==> r.value == list && list.items == WithItem(old(list.items), item)
  {
    if item !in list.items {
      var o := list.Add(item);
      if o.Fail? {
        return Failure(o.error);
      }
    }
    r := Success(list);
  }

  /** The first item satisfying the predicate, with the list unchanged; or,
      when none does, `func()`, which is appended to the list. Appending to a
      read-only list fails with `NotSupported` and leaves it unchanged. */
  method GetOrAdd<T>(list: Collection<T>, prediction: T -> bool, func: () -> T) returns (r: Result<T>)
    modifies list
    ensures (exists i | 0 <= i < |old(list.items)| :: prediction(old(list.items)[i])) ==>
      && list.items == old(list.items)
      && exists i | 0 <= i < |list.items| :: r == Success(list.items[i]) && prediction(list.items[i]) &&
           forall j | 0 <= j < i :: !prediction(list.items[j])
    ensures (forall i | 0 <= i < |old(list.items)| :: !prediction(old(list.items)[i])) && list.readOnly ==>
      r == Failure(NotSupported) && list.items == old(list.items)
    ensures (forall i | 0 <= i < |old(list.items)| :: !prediction(old(list.items)[i])) && !list.readOnly ==>
      r == Success(func()) && list.items == old(list.items) + [func()]
  {
    var i := 0;
    while i < |list.items|
      invariant 0 <= i <= |list.items| && forall j | 0 <= j < i :: !prediction(list.items[j])
    {
      if prediction(list.items[i]) {
        return Success(list.items[i]);
      }
      i := i + 1;
    }
    var newItem := func();
    var o := list.Add(newItem);
    if o.Fail? {
      return Failure(o.error);
    }
    r := Success(newItem);
  }

  /** The elements of `e1` followed by those of `e2`: the flattening of the pair. */
  function JoinSequences<T>(e1: seq<T>, e2: seq<T>): (r: seq<T>)
    ensures |r| == |e1| + |e2| && r[..|e1|] == e1 && r[|e1|..] == e2
  {
    assert [e1, e2][..1] == [e1];
    assert [e1][..0] == [];
    assert Concat([e1]) == e1;
    assert Concat([e1, e2]) == e1 + e2;
    Flatten([e1, e2])
  }

  /** The elements of the inner sequences, one sequence after another. */
  function Flatten<T>(e: seq<seq<T>>): (r: seq<T>)
    ensures |r| == TotalLength(e)
  {
    Concat(e)
  }

  /** Flattening keeps every element of every inner sequence, and nothing else. */
  lemma {:induction false} FlattenMembers<T>(e: seq<seq<T>>)
    ensures forall k, j | 0 <= k < |e| && 0 <= j < |e[k]| :: e[k][j] in Flatten(e)
    ensures forall x | x in Flatten(e) :: exists k | 0 <= k < |e| :: x in e[k]
    decreases |e|
  {
    if e != [] {
      var init := e[..|e| - 1];
      var last := e[|e| - 1];
      FlattenMembers(init);
      assert forall k | 0 <= k < |init| :: init[k] == e[k];
      assert Flatten(e) == Flatten(init) + last;
      forall k, j | 0 <= k < |e| && 0 <= j < |e[k]| ensures e[k][j] in Flatten(e) {
        if k == |e| - 1 {
          assert Flatten(e)[|Flatten(init)| + j] == last[j];
        } else {
          assert e[k][j] in Flatten(init);
        }
      }
      forall x | x in Flatten(e) ensures exists k | 0 <= k < |e| :: x in e[k] {
        if x !in last {
          assert x in Flatten(init);
          var k :| 0 <= k < |init| && x in init[k];
          assert x in e[k];
        }
      }
    }
  }
}
