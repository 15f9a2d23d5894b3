/** Flag-enum helpers. An enum value is its underlying integer. For the
    bitwise helpers (`GetFlags`, `MergeEnum`, `Is`) a value is the set of
    positions of its one bits, so `a & b` is `a * b`, `a | b` is `a + b`,
    `a == 0` is `a == {}`, and `bits -= mask`, taken only when every bit of
    `mask` is set in `bits`, is `bits - mask`. `GetFlagValues` compares and
    doubles values, so there a value is the unsigned number itself.
    `isEnum` stands for the reflection test `typeof(T).IsEnum`. */
module EnumExtensions {
  import opened Wrappers

  /** An enum value as the set of positions of its one bits. */
  type Bits = set<nat>

  // ---------------------------------------------------------------------
  // GetFlags: greedy decomposition of a value into declared flags

  /** What the backward sweep of `GetFlags` picks: the indices and values,
      in the order picked (descending index), and the bits left over. */
  datatype Peeled = Peeled(idx: seq<nat>, masks: seq<Bits>, rest: Bits)

  /** The sweep over `values[..n]` from index `n - 1` down, starting from
      `bits`: a value all of whose bits are still set is picked and its bits
      cleared; a zero value at index 0 stops the sweep. */
  function Peel(values: seq<Bits>, n: nat, bits: Bits): (p: Peeled)
    requires n <= |values|
    ensures |p.idx| == |p.masks|
    ensures forall j | 0 <= j < |p.idx| :: p.idx[j] < n && values[p.idx[j]] == p.masks[j]
    ensures forall j, k | 0 <= j < k < |p.idx| :: p.idx[j] > p.idx[k]
    decreases n
  {
    if n == 0 then Peeled([], [], bits)
    else
      var i := n - 1;
      var mask := values[i];
      if i == 0 && mask == {} then Peeled([], [], bits)
      else if bits * mask == mask then
        var p := Peel(values, i, bits - mask);
        Peeled([i] + p.idx, [mask] + p.masks, p.rest)
      else Peel(values, i, bits)
  }

  function Reverse<T>(s: seq<T>): (r: seq<T>)
    ensures |r| == |s| && forall j | 0 <= j < |s| :: r[j] == s[|s| - 1 - j]
    decreases |s|
  {
    if s == [] then [] else Reverse(s[1..]) + [s[0]]
  }

  /** The result `GetFlags` returns: nothing when bits are left over; the
      picked flags in ascending index order for a nonzero value; for zero,
      the first declared value when it is zero. */
  function Flags(value: Bits, values: seq<Bits>): seq<Bits> {
    var p := Peel(values, |values|, value);
    if p.rest != {} then []
    else if value != {} then Reverse(p.masks)
    else if p.rest == value && |values| > 0 && values[0] == {} then values[..1]
    else []
  }

  /** The backward loop of `GetFlags`. */
  method GetFlags(value: Bits, values: seq<Bits>) returns (r: seq<Bits>)
    ensures r == Flags(value, values)
  {
    var bits := value;
    var results: seq<Bits> := [];
    ghost var whole := Peel(values, |values|, value);
    var i := |values|;
    while i > 0
      invariant 0 <= i <= |values|
      invariant whole.masks == results + Peel(values, i, bits).masks && whole.rest == Peel(values, i, bits).rest
    {
      i := i - 1;
      var mask := values[i];
      if i == 0 && mask == {} {
        i := 0;
        assert Peel(values, 1, bits) == Peeled([], [], bits);
        break;
      }
      if bits * mask == mask {
        ghost var p := Peel(values, i, bits - mask);
        assert Peel(values, i + 1, bits).masks == [mask] + p.masks;
        assert results + ([mask] + p.masks) == (results + [mask]) + p.masks;
        results := results + [values[i]];
        bits := bits - mask;
      } else {
        assert Peel(values, i + 1, bits) == Peel(values, i, bits);
      }
    }
    assert i == 0 && Peel(values, 0, bits) == Peeled([], [], bits);
    assert results == whole.masks && bits == whole.rest;
    if bits != {} {
      return [];
    }
    if value != {} {
      return Reverse(results);
    }
    if bits == value && |values| > 0 && values[0] == {} {
      return values[..1];
    }
    return [];
  }

  /** The bitwise OR of all elements. */
  function OrAll(s: seq<Bits>): Bits
    decreases |s|
  {
    if s == [] then {} else s[0] + OrAll(s[1..])
  }

  lemma {:induction false} OrAllAppend(a: seq<Bits>, b: seq<Bits>)
    ensures OrAll(a + b) == OrAll(a) + OrAll(b)
    decreases |a|
  {
    if a != [] {
      assert (a + b)[0] == a[0] && (a + b)[1..] == a[1..] + b;
      OrAllAppend(a[1..], b);
      assert OrAll(a + b) == a[0] + OrAll(a[1..] + b);
      assert OrAll(a) == a[0] + OrAll(a[1..]);
    } else {
      assert a + b == b;
    }
  }

  lemma {:induction false} OrAllReverse(s: seq<Bits>)
    ensures OrAll(Reverse(s)) == OrAll(s)
    decreases |s|
  {
    if s != [] {
      OrAllReverse(s[1..]);
      OrAllAppend(Reverse(s[1..]), [s[0]]);
      assert Reverse(s) == Reverse(s[1..]) + [s[0]];
      assert OrAll([s[0]]) == s[0];
    }
  }

  /** The picked flags lie within the start bits and are pairwise disjoint,
      what is left lies within the start bits and misses every picked flag,
      and the picked flags together with what is left make up the start bits. */
  predicate Splits(masks: seq<Bits>, rest: Bits, bits: Bits) {
    && OrAll(masks) + rest == bits
    && rest <= bits
    && (forall j | 0 <= j < |masks| :: masks[j] <= bits && masks[j] * rest == {})
    && (forall j, k | 0 <= j < k < |masks| :: masks[j] * masks[k] == {})
  }

  /** Picking a fully set mask and splitting the remaining bits splits the whole. */
  lemma SplitsPick(mask: Bits, masks: seq<Bits>, rest: Bits, bits: Bits)
    requires mask <= bits && Splits(masks, rest, bits - mask)
    ensures Splits([mask] + masks, rest, bits)
  {
    var ms := [mask] + masks;
    assert ms[0] == mask && ms[1..] == masks;
    assert OrAll(ms) == mask + OrAll(masks);
    assert OrAll(ms) + rest == mask + (bits - mask) == bits;
    forall j | 0 <= j < |ms| ensures ms[j] <= bits && ms[j] * rest == {} {
      if j > 0 {
        assert ms[j] == masks[j - 1];
      }
    }
    forall j, k | 0 <= j < k < |ms| ensures ms[j] * ms[k] == {} {
      assert ms[k] == masks[k - 1];
      if j > 0 {
        assert ms[j] == masks[j - 1];
      }
    }
  }

  /** The sweep splits the start bits. */
  lemma {:induction false} PeelSound(values: seq<Bits>, n: nat, bits: Bits)
    requires n <= |values|
    ensures var p := Peel(values, n, bits); Splits(p.masks, p.rest, bits)
    decreases n
  {
    if n > 0 {
      var i := n - 1;
      var mask := values[i];
      if !(i == 0 && mask == {}) {
        if bits * mask == mask {
          PeelSound(values, i, bits - mask);
          var p := Peel(values, i, bits - mask);
          SplitsPick(mask, p.masks, p.rest, bits);
        } else {
          PeelSound(values, i, bits);
        }
      }
    }
  }

  /** `idx` is an ascending run of indices of `values` whose elements are `r`. */
  predicate Picks(values: seq<Bits>, idx: seq<nat>, r: seq<Bits>) {
    && |idx| == |r|
    && (forall j | 0 <= j < |idx| :: idx[j] < |values| && values[idx[j]] == r[j])
    && (forall j, k | 0 <= j < k < |idx| :: idx[j] < idx[k])
  }

  /** Bits the sweep cannot cover give an empty result. */
  lemma FlagsUncovered(value: Bits, values: seq<Bits>)
    requires Peel(values, |values|, value).rest != {}
    ensures Flags(value, values) == []
  {
  }

  /** For a nonzero value the result is empty exactly when bits are left
      over; otherwise it is a run of declared values in ascending index
      order, pairwise disjoint, whose OR is the value. */
  lemma FlagsDecompose(value: Bits, values: seq<Bits>)
    requires value != {}
    ensures Flags(value, values) == [] <==> Peel(values, |values|, value).rest != {}
    ensures var r := Flags(value, values);
      r != [] ==>
        && (exists idx :: Picks(values, idx, r))
        && (forall j, k | 0 <= j < k < |r| :: r[j] * r[k] == {})
        && OrAll(r) == value
  {
    var p := Peel(values, |values|, value);
    PeelSound(values, |values|, value);
    if p.rest == {} {
      assert Flags(value, values) == Reverse(p.masks);
      OrAllReverse(p.masks);
      ReversePicks(values, p.idx, p.masks);
      ReverseDisjoint(p.masks);
    }
  }

  /** Indices picked in descending order, reversed, pick the reversed values in ascending order. */
  lemma ReversePicks(values: seq<Bits>, idx: seq<nat>, masks: seq<Bits>)
    requires |idx| == |masks|
    requires forall j | 0 <= j < |idx| :: idx[j] < |values| && values[idx[j]] == masks[j]
    requires forall j, k | 0 <= j < k < |idx| :: idx[j] > idx[k]
    ensures Picks(values, Reverse(idx), Reverse(masks))
  {
    var ri := Reverse(idx);
    forall j, k | 0 <= j < k < |ri| ensures ri[j] < ri[k] {
      assert ri[j] == idx[|idx| - 1 - j] && ri[k] == idx[|idx| - 1 - k];
    }
  }

  /** Reversing keeps the elements pairwise disjoint. */
  lemma ReverseDisjoint(masks: seq<Bits>)
    requires forall j, k | 0 <= j < k < |masks| :: masks[j] * masks[k] == {}
    ensures var r := Reverse(masks); forall j, k | 0 <= j < k < |r| :: r[j] * r[k] == {}
  {
    var r := Reverse(masks);
    forall j, k | 0 <= j < k < |r| ensures r[j] * r[k] == {} {
      var a, b := |r| - 1 - k, |r| - 1 - j;
      assert masks[a] * masks[b] == {};
      assert r[j] * r[k] == masks[b] * masks[a];
    }
  }

  /** For zero the result is the first declared value when that is zero, and
      empty otherwise. */
  lemma FlagsOfZero(values: seq<Bits>)
    ensures |values| > 0 && values[0] == {} ==> Flags({}, values) == [values[0]]
    ensures !(|values| > 0 && values[0] == {}) ==> Flags({}, values) == []
  {
    PeelSound(values, |values|, {});
  }

  // ---------------------------------------------------------------------
  // GetFlagValues: the declared values that are single bits

  /** An unsigned 64-bit number. */
  type uint64 = x: int | 0 <= x < 0x1_0000_0000_0000_0000

  predicate IsPowerOfTwo(n: nat)
    decreases n
  {
    n == 1 || (n > 1 && n % 2 == 0 && IsPowerOfTwo(n / 2))
  }

  /** Ascending, as the declared values of an enum come. */
  predicate Ascending(values: seq<uint64>) {
    forall j, k | 0 <= j < k < |values| :: values[j] <= values[k]
  }

  /** The elements that are powers of two, in order. */
  function PowersOfTwo(values: seq<uint64>): (r: seq<uint64>)
    ensures forall x | x in r :: x in values && IsPowerOfTwo(x)
    decreases |values|
  {
    if values == [] then []
    else
      var init := values[..|values| - 1];
      var last := values[|values| - 1];
      assert forall x | x in init :: x in values;
      PowersOfTwo(init) + (if IsPowerOfTwo(last) then [last] else [])
  }

  /** Doubling a power of two gives a power of two, whose half is the original. */
  lemma PowerDouble(n: nat)
    requires IsPowerOfTwo(n)
    ensures IsPowerOfTwo(2 * n) && (2 * n) / 2 == n
  {
    assert (2 * n) % 2 == 0 && (2 * n) / 2 == n;
  }

  /** A power of two above half of `flag` and at most `flag` is `flag`. */
  lemma {:induction false} PowerBetween(flag: nat, bits: nat)
    requires IsPowerOfTwo(flag) && IsPowerOfTwo(bits) && (flag == 1 || flag / 2 < bits) && bits <= flag
    ensures bits == flag
    decreases flag
  {
    if flag > 1 {
      PowerBetween(flag / 2, bits / 2);
    }
  }

  /** Between two distinct powers of two lies at least a factor of two. */
  lemma {:induction false} PowerGap(flag: nat, bits: nat)
    requires IsPowerOfTwo(flag) && IsPowerOfTwo(bits) && flag < bits
    ensures 2 * flag <= bits
    decreases bits
  {
    if flag > 1 {
      PowerGap(flag / 2, bits / 2);
    }
  }

  /** Where the climb stops tells whether `bits` is a power of two: the
      probe stops at the first power of two not below `bits`, or at the top
      bit, above which no 64-bit power of two lies. */
  lemma ClimbStop(flag: nat, bits: nat)
    requires IsPowerOfTwo(flag) && (flag == 1 || flag / 2 < bits) && bits < 0x1_0000_0000_0000_0000
    requires flag >= bits || flag >= 0x8000_0000_0000_0000
    ensures IsPowerOfTwo(bits) <==> flag == bits
  {
    if IsPowerOfTwo(bits) {
      if bits <= flag {
        PowerBetween(flag, bits);
      } else {
        PowerGap(flag, bits);
      }
    }
  }

  /** The inner loop of `GetFlagValues`: doubles the probe until it reaches
      `bits` or the top bit. */
  method Climb(flag: uint64, bits: uint64, ghost ascending: bool) returns (f: uint64)
    requires IsPowerOfTwo(flag) && (ascending ==> flag == 1 || flag / 2 < bits)
    ensures IsPowerOfTwo(f) && (ascending ==> f == 1 || f / 2 < bits)
    ensures f >= bits || f >= 0x8000_0000_0000_0000
  {
    f := flag;
    while f < bits && f < 0x8000_0000_0000_0000
      invariant IsPowerOfTwo(f) && (ascending ==> f == 1 || f / 2 < bits)
      decreases 0x8000_0000_0000_0000 - f
    {
      PowerDouble(f);
      f := 2 * f;
    }
  }

  /** Yields the declared values that are single bits, skipping zero; one
      probe `flag` climbs through the powers of two across all values, so
      for values in ascending order exactly the powers of two come out. The
      climb stops at the top bit instead of shifting it out (see
      `ClimbAsWritten`). */
  method GetFlagValues(values: seq<uint64>) returns (r: seq<uint64>)
    ensures forall x | x in r :: x in values && IsPowerOfTwo(x)
    ensures Ascending(values) ==> r == PowersOfTwo(values)
  {
    var flag: uint64 := 1;
    r := [];
    var i := 0;
    while i < |values|
      invariant 0 <= i <= |values| && IsPowerOfTwo(flag)
      invariant forall x | x in r :: x in values && IsPowerOfTwo(x)
      invariant Ascending(values) ==> r == PowersOfTwo(values[..i])
      invariant Ascending(values) ==>
        forall j | i <= j < |values| && values[j] != 0 :: flag == 1 || flag / 2 < values[j]
    {
      var bits := values[i];
      assert values[..i + 1][..i] == values[..i];
      if bits == 0 {
        i := i + 1;
        continue;
      }
      flag := Climb(flag, bits, Ascending(values));
      if flag == bits {
        r := r + [bits];
      }
      if Ascending(values) {
        ClimbStop(flag, bits);
      }
      i := i + 1;
    }
    assert values[..i] == values;
  }

  /** The climb of `GetFlagValues` as written: a 64-bit probe that starts at
      `flag` and doubles, wrapping on overflow, as long as it is below `bits`,
      given `fuel` steps: true when it stops. */
  function ClimbAsWritten(flag: bv64, bits: bv64, fuel: nat): (stops: bool)
    ensures !(flag < bits) ==> stops
    ensures flag == 0 && bits != 0 ==> !stops
    decreases fuel
  {
    if !(flag < bits) then true else if fuel == 0 then false else ClimbAsWritten(flag << 1, bits, fuel - 1)
  }

  /** Zero or a power of two stays below 2^63 + 1 under doubling, which wraps the top bit to zero. */
  lemma DoublingStaysLow(flag: bv64)
    requires flag & (flag - 1) == 0
    ensures flag < 0x8000_0000_0000_0001
    ensures (flag << 1) & ((flag << 1) - 1) == 0
  {
  }

  /** As written, the climb never stops for the value 2^63 + 1: the probe
      reaches 2^63, wraps to 0 and stays below the value forever. */
  lemma {:induction false} ClimbAsWrittenHangs(flag: bv64, fuel: nat)
    requires flag & (flag - 1) == 0
    ensures !ClimbAsWritten(flag, 0x8000_0000_0000_0001, fuel)
    decreases fuel
  {
    DoublingStaysLow(flag);
    if fuel > 0 {
      ClimbAsWrittenHangs(flag << 1, fuel - 1);
    }
  }

  // ---------------------------------------------------------------------
  // Merging and containment

  /** The OR of the values, folded from the left. */
  function OrFold(s: seq<Bits>): Bits
    decreases |s|
  {
    if s == [] then {} else OrFold(s[..|s| - 1]) + s[|s| - 1]
  }

  /** Whether every bit of `b` is set in `a`. */
  function BitContains(a: Bits, b: Bits): (r: bool)
    ensures r <==> b <= a
  {
    a * b == b
  }

  /** The merged value contains every element, and lies within any value
      that contains them all: it is their least upper bound. */
  lemma {:induction false} OrFoldBound(s: seq<Bits>, m: Bits)
    ensures forall j | 0 <= j < |s| :: BitContains(OrFold(s), s[j])
    ensures (forall j | 0 <= j < |s| :: BitContains(m, s[j])) ==> BitContains(m, OrFold(s))
    decreases |s|
  {
    if s != [] {
      var init := s[..|s| - 1];
      OrFoldBound(init, m);
      assert forall j | 0 <= j < |init| :: init[j] == s[j];
    }
  }

  /** ORs all the values together, starting from the first; an empty input is an error. */
  method MergeEnum(enums: Option<seq<Bits>>) returns (r: Result<Bits>)
    ensures enums.None? || enums.value == [] <==> r == Failure(InvalidData("Enums is null for empty"))
    ensures enums.Some? && enums.value != [] ==> r == Success(OrFold(enums.value))
  {
    if enums.None? || |enums.value| == 0 {
      return Failure(InvalidData("Enums is null for empty"));
    }
    var s := enums.value;
    var v := s[0];
    var i := 0;
    while i < |s|
      invariant 0 <= i <= |s| && v == s[0] + OrFold(s[..i])
    {
      assert s[..i + 1][..i] == s[..i];
      v := v + s[i];
      i := i + 1;
    }
    assert s[..i] == s;
    OrFoldBound(s, {});
    assert BitContains(OrFold(s), s[0]);
    assert v == OrFold(s);
    return Success(v);
  }

  /** The merge of a non-empty array of enum values, or false and the default. */
  method TryMerge(enums: seq<Bits>, isEnum: bool) returns (ok: bool, e: Bits)
    ensures ok <==> isEnum && enums != []
    ensures e == if ok then OrFold(enums) else {}
  {
    if isEnum && |enums| > 0 {
      var m := MergeEnum(Some(enums));
      return true, m.value;
    }
    return false, {};
  }

  /** The merge of a non-empty sequence of enum values, or the default. */
  method Merge(enums: seq<Bits>, isEnum: bool) returns (e: Bits)
    ensures e == if isEnum && enums != [] then OrFold(enums) else {}
  {
    if isEnum && |enums| > 0 {
      var m := MergeEnum(Some(enums));
      return m.value;
    }
    return {};
  }

  /** Whether `a` has every flag of `b`; never for a type that is not an enum. */
  function Is(a: Bits, b: Bits, isEnum: bool): (r: bool)
    ensures r <==> isEnum && b <= a
  {
    if isEnum then BitContains(a, b) else false
  }

  // ---------------------------------------------------------------------
  // Batches

  /** A batch with its number. */
  datatype Grouping<T> = Grouping(key: int, items: seq<T>)

  /** The items of the batches, one batch after another. */
  function Flat<T>(gs: seq<Grouping<T>>): seq<T>
    decreases |gs|
  {
    if gs == [] then [] else Flat(gs[..|gs| - 1]) + gs[|gs| - 1].items
  }

  lemma FlatSnoc<T>(gs: seq<Grouping<T>>, g: Grouping<T>)
    ensures Flat(gs + [g]) == Flat(gs) + g.items
  {
    assert (gs + [g])[..|gs|] == gs;
  }

  /** The batches are numbered 0, 1, 2, … */
  predicate Numbered<T>(gs: seq<Grouping<T>>) {
    forall j | 0 <= j < |gs| :: gs[j].key == j
  }

  /** One item of the loop of `Batches`: a batch holding `batchSize` items or
      more is closed and a new one, numbered next, is opened for the item. */
  function BatchStep<T>(closed: seq<Grouping<T>>, open: Grouping<T>, x: T, batchSize: int): (seq<Grouping<T>>, Grouping<T>) {
    if |open.items| >= batchSize then (closed + [open], Grouping(open.key + 1, [x]))
    else (closed, open.(items := open.items + [x]))
  }

  /** The closed batches and the open batch after the loop has seen `items`. */
  function BatchRun<T>(items: seq<T>, batchSize: int): (seq<Grouping<T>>, Grouping<T>)
    decreases |items|
  {
    if items == [] then ([], Grouping(0, []))
    else
      var st := BatchRun(items[..|items| - 1], batchSize);
      BatchStep(st.0, st.1, items[|items| - 1], batchSize)
  }

  /** The batches hold the items in order. */
  lemma {:induction false} BatchRunFlat<T>(items: seq<T>, batchSize: int)
    ensures var st := BatchRun(items, batchSize); Flat(st.0) + st.1.items == items
    decreases |items|
  {
    if items != [] {
      var init := items[..|items| - 1];
      var x := items[|items| - 1];
      BatchRunFlat(init, batchSize);
      var st := BatchRun(init, batchSize);
      assert items == init + [x];
      if |st.1.items| >= batchSize {
        FlatSnoc(st.0, st.1);
        assert Flat(st.0 + [st.1]) + [x] == items;
      } else {
        assert Flat(st.0) + (st.1.items + [x]) == items;
      }
    }
  }

  /** The batches are numbered consecutively, the open one next. */
  lemma {:induction false} BatchRunNumbered<T>(items: seq<T>, batchSize: int)
    ensures var st := BatchRun(items, batchSize); Numbered(st.0) && st.1.key == |st.0|
    decreases |items|
  {
    if items != [] {
      BatchRunNumbered(items[..|items| - 1], batchSize);
    }
  }

  /** With a positive size every closed batch is full and the open one is
      non-empty once an item has arrived, and never over full. */
  lemma {:induction false} BatchRunSized<T>(items: seq<T>, batchSize: int)
    requires batchSize >= 1
    ensures var st := BatchRun(items, batchSize);
      && (forall j | 0 <= j < |st.0| :: |st.0[j].items| == batchSize)
      && |st.1.items| <= batchSize && (items != [] ==> |st.1.items| > 0)
    decreases |items|
  {
    if items != [] {
      BatchRunSized(items[..|items| - 1], batchSize);
    }
  }

  /** With a size below 1 the first batch is empty and every later batch holds one item. */
  lemma {:induction false} BatchRunUnsized<T>(items: seq<T>, batchSize: int)
    requires batchSize < 1
    ensures var st := BatchRun(items, batchSize);
      && (items == [] ==> st.0 == [] && st.1.items == [])
      && (items != [] ==>
            && |st.0| == |items| && st.0[0].items == [] && |st.1.items| == 1
            && forall j | 1 <= j < |st.0| :: |st.0[j].items| == 1)
    decreases |items|
  {
    if items != [] {
      BatchRunUnsized(items[..|items| - 1], batchSize);
    }
  }

  /** What `Batches` yields: the closed batches, then the open one. */
  function BatchesOf<T>(items: seq<T>, batchSize: int): seq<Grouping<T>> {
    var st := BatchRun(items, batchSize);
    st.0 + [st.1]
  }

  /** The batches cut the items into consecutive runs numbered 0, 1, 2, …;
      with a positive size every batch but the last is full and the last is
      non-empty unless the input is; empty input yields one empty batch. With
      a size below 1, batch 0 is empty and every later batch holds one item. */
  lemma BatchesShape<T>(items: seq<T>, batchSize: int)
    ensures var groups := BatchesOf(items, batchSize);
      && |groups| >= 1 && Flat(groups) == items
      && (forall j | 0 <= j < |groups| :: groups[j].key == j)
      && (items == [] ==> groups == [Grouping(0, [])])
    ensures var groups := BatchesOf(items, batchSize);
      batchSize >= 1 ==>
        && (forall j | 0 <= j < |groups| - 1 :: |groups[j].items| == batchSize)
        && |groups[|groups| - 1].items| <= batchSize
        && (items != [] ==> |groups[|groups| - 1].items| > 0)
    ensures var groups := BatchesOf(items, batchSize);
      batchSize < 1 ==>
        && groups[0].items == []
        && (forall j | 1 <= j < |groups| :: |groups[j].items| == 1)
        && |groups| == |items| + 1
  {
    var st := BatchRun(items, batchSize);
    var groups := st.0 + [st.1];
    BatchRunFlat(items, batchSize);
    BatchRunNumbered(items, batchSize);
    FlatSnoc(st.0, st.1);
    assert groups[..|st.0|] == st.0 && groups[|st.0|] == st.1;
    if batchSize >= 1 {
      BatchRunSized(items, batchSize);
    } else {
      BatchRunUnsized(items, batchSize);
    }
  }

  /** The loop of `Batches`: a batch is closed once it holds `batchSize`
      items and the next item arrives, and the open batch is always yielded
      last. */
  method Batches<T>(items: seq<T>, batchSize: int) returns (groups: seq<Grouping<T>>)
    ensures groups == BatchesOf(items, batchSize)
  {
    var g := 0;
    var group := Grouping(g, []);
    groups := [];
    var i := 0;
    while i < |items|
      invariant 0 <= i <= |items|
      invariant (groups, group) == BatchRun(items[..i], batchSize) && g == group.key
    {
      assert items[..i + 1][..i] == items[..i] && items[..i + 1][i] == items[i];
      ghost var next := BatchStep(groups, group, items[i], batchSize);
      assert BatchRun(items[..i + 1], batchSize) == next;
      if |group.items| >= batchSize {
        groups := groups + [group];
        g := g + 1;
        group := Grouping(g, []);
        assert group.items + [items[i]] == [items[i]];
      }
      group := group.(items := group.items + [items[i]]);
      assert (groups, group) == next;
      i := i + 1;
    }
    assert items[..i] == items;
    groups := groups + [group];
  }
}
