/** Extension helpers over dictionaries. A dictionary the helpers update in
    place is a `Dictionary` object whose `entries` field they reassign. */
module DictionaryExtensions {
  import opened Wrappers
  import CollectionExtensions

  /** A 32-bit signed integer, the value type of the counters `Increment` updates. */
  newtype int32 = x: int | -0x8000_0000 <= x < 0x8000_0000

  /** The successor in 32-bit two's complement: the largest value wraps to the smallest. */
  function Succ(x: int32): (r: int32)
    ensures x < 0x7FFF_FFFF ==> r as int == x as int + 1
    ensures x == 0x7FFF_FFFF ==> r == -0x8000_0000
  {
    if x == 0x7FFF_FFFF then -0x8000_0000 else x + 1
  }

  /** A mutable dictionary. */
  class Dictionary<K(==), V> {
    var entries: map<K, V>

    constructor (entries: map<K, V>)
      ensures this.entries == entries
    {
      this.entries := entries;
    }

    /** `Add`: stores a new entry; a key already present is an error and
        leaves the dictionary unchanged. */
    method Add(key: K, value: V) returns (o: Outcome)
      modifies this
      ensures o.Pass? <==> key !in old(entries)
      ensures o.Fail? ==> o.error.ArgumentError?
      ensures entries == if o.Pass? then old(entries)[key := value] else old(entries)
    {
      if key in entries {
        return Fail(ArgumentError("An item with the same key has already been added."));
      }
      entries := entries[key := value];
      return Pass;
    }
  }

  /** Adds the entry only when the key differs from the value; a key already
      present is `Add`'s error. */
  method CheckAndAdd(dictionary: Dictionary<string, string>, key: string, value: string) returns (o: Outcome)
    modifies dictionary
    ensures key == value ==> o.Pass? && dictionary.entries == old(dictionary.entries)
    ensures key != value && key !in old(dictionary.entries) ==>
      o.Pass? && dictionary.entries == old(dictionary.entries)[key := value]
    ensures key != value && key in old(dictionary.entries) ==>
      o.Fail? && dictionary.entries == old(dictionary.entries)
  {
    if key != value {
      o := dictionary.Add(key, value);
    } else {
      o := Pass;
    }
  }

  /** The stored value, or the factory's value when the dictionary is null or
      lacks the key; a null factory is an error whatever the dictionary holds. */
  function GetOrDefault<T>(dictionary: Option<map<string, T>>, key: string, defaultFactory: Option<() -> T>): (r: Result<T>)
    ensures defaultFactory.None? <==> r == Failure(ArgumentNull("defaultFactory"))
    ensures defaultFactory.Some? && dictionary.Some? && key in dictionary.value ==>
      r == Success(dictionary.value[key])
    ensures defaultFactory.Some? && (dictionary.None? || key !in dictionary.value) ==>
      r == Success(defaultFactory.value())
  {
    if defaultFactory.None? then Failure(ArgumentNull("defaultFactory"))
    else if dictionary.None? then Success(defaultFactory.value())
    else if key in dictionary.value then Success(dictionary.value[key])
    else Success(defaultFactory.value())
  }

  /** `GetOrDefault` with a fixed default value: it never fails. */
  function GetOrDefaultValue<T>(dictionary: Option<map<string, T>>, key: string, defaultValue: T): (r: T)
    ensures r == if dictionary.Some? && key in dictionary.value then dictionary.value[key] else defaultValue
  {
    GetOrDefault(dictionary, key, Some(() => defaultValue)).value
  }

  /** `GetOrDefault` with the empty string as default. */
  function GetOrEmpty(dictionary: Option<map<string, string>>, key: string): (r: string)
    ensures dictionary.Some? && key in dictionary.value ==> r == dictionary.value[key]
    ensures (dictionary.None? || key !in dictionary.value) ==> r == ""
  {
    GetOrDefaultValue(dictionary, key, "")
  }

  // ---------------------------------------------------------------------
  // ToList: splitting on commas and trimming

  /** `String.Split(',')`: the pieces between separators, empty ones included. */
  function Split(s: string, sep: char): (r: seq<string>)
    ensures |r| >= 1
    decreases |s|
  {
    if s == [] then [[]]
    else
      var rest := Split(s[1..], sep);
      if s[0] == sep then [[]] + rest else [[s[0]] + rest[0]] + rest[1..]
  }

  /** The pieces joined back with the separator. */
  function JoinWith(pieces: seq<string>, sep: char): string
    decreases |pieces|
  {
    if pieces == [] then [] else if |pieces| == 1 then pieces[0] else pieces[0] + [sep] + JoinWith(pieces[1..], sep)
  }

  /** The number of occurrences of `c` in `s`. */
  function Occurrences(s: string, c: char): nat
    decreases |s|
  {
    if s == [] then 0 else (if s[0] == c then 1 else 0) + Occurrences(s[1..], c)
  }

  /** Splitting loses nothing: no piece holds the separator, there is one
      piece more than separators, and joining the pieces gives the string back. */
  lemma {:induction false} SplitJoin(s: string, sep: char)
    ensures forall i | 0 <= i < |Split(s, sep)| :: sep !in Split(s, sep)[i]
    ensures |Split(s, sep)| == Occurrences(s, sep) + 1
    ensures JoinWith(Split(s, sep), sep) == s
    decreases |s|
  {
    if s != [] {
      var rest := Split(s[1..], sep);
      SplitJoin(s[1..], sep);
      if s[0] == sep {
        assert Split(s, sep) == [[]] + rest;
        assert ([[]] + rest)[1..] == rest;
        assert s == [] + [sep] + s[1..];
      } else {
        var r := [[s[0]] + rest[0]] + rest[1..];
        assert Split(s, sep) == r;
        forall i | 0 <= i < |r| ensures sep !in r[i] {
          if i > 0 {
            assert r[i] == rest[i];
          }
        }
        if |rest| == 1 {
          assert JoinWith(rest, sep) == rest[0];
        } else {
          assert r[1..] == rest[1..];
          assert JoinWith(rest, sep) == rest[0] + [sep] + JoinWith(rest[1..], sep);
        }
        assert s == [s[0]] + s[1..];
      }
    }
  }

  /** The characters `Trim` removes: the ASCII white space characters. */
  predicate IsWhiteSpace(c: char) {
    c == ' ' || c == '\t' || c == '\n' || c == '\r' || c == '\U{000B}' || c == '\U{000C}'
  }

  /** The number of leading white space characters. */
  function LeadingSpace(s: string): (n: nat)
    ensures n <= |s| && (forall i | 0 <= i < n :: IsWhiteSpace(s[i])) && (n < |s| ==> !IsWhiteSpace(s[n]))
    decreases |s|
  {
    if s != [] && IsWhiteSpace(s[0]) then 1 + LeadingSpace(s[1..]) else 0
  }

  /** The number of trailing white space characters. */
  function TrailingSpace(s: string): (n: nat)
    ensures n <= |s| && (forall i | |s| - n <= i < |s| :: IsWhiteSpace(s[i])) && (n < |s| ==> !IsWhiteSpace(s[|s| - n - 1]))
    decreases |s|
  {
    if s != [] && IsWhiteSpace(s[|s| - 1]) then 1 + TrailingSpace(s[..|s| - 1]) else 0
  }

  /** `r` sits in `s` at `i` with only white space before and after it. */
  predicate Framed(s: string, i: nat, r: string) {
    && i + |r| <= |s| && r == s[i..i + |r|]
    && (forall j | 0 <= j < i :: IsWhiteSpace(s[j]))
    && (forall j | i + |r| <= j < |s| :: IsWhiteSpace(s[j]))
  }

  /** `String.Trim`: the string without its leading and trailing white space. */
  function Trim(s: string): (r: string)
    ensures |r| <= |s|
    ensures r == [] || (!IsWhiteSpace(r[0]) && !IsWhiteSpace(r[|r| - 1]))
    ensures exists i | 0 <= i <= |s| - |r| :: Framed(s, i, r)
  {
    var a := LeadingSpace(s);
    if a == |s| then
      assert Framed(s, 0, []);
      []
    else
      var rest := s[a..];
      var b := TrailingSpace(rest);
      assert !IsWhiteSpace(rest[0]);
      assert b < |rest|;
      var r := rest[..|rest| - b];
      assert r == s[a..a + |r|];
      assert forall j | a + |r| <= j < |s| :: IsWhiteSpace(s[j]) by {
        forall j | a + |r| <= j < |s| ensures IsWhiteSpace(s[j]) {
          assert s[j] == rest[j - a];
        }
      }
      assert Framed(s, a, r);
      r
  }

  /** The list `ToList` builds from `text`: the factory applied to each
      trimmed comma-separated piece, in order. */
  function Converted<T>(pieces: seq<string>, factory: string -> T): (r: seq<T>)
    ensures |r| == |pieces| && forall i | 0 <= i < |pieces| :: r[i] == factory(Trim(pieces[i]))
  {
    seq(|pieces|, i requires 0 <= i < |pieces| => factory(Trim(pieces[i])))
  }

  /** Empty when the key is absent; otherwise one element per comma-separated
      piece of the stored text, trimmed and converted, in order. */
  method ToList<T>(dic: map<string, string>, key: string, factory: string -> T) returns (list: seq<T>)
    ensures key !in dic ==> list == []
    ensures key in dic ==> list == Converted(Split(dic[key], ','), factory)
    ensures key in dic ==> |list| == Occurrences(dic[key], ',') + 1
  {
    list := [];
    if key in dic {
      var text := dic[key];
      var pieces := Split(text, ',');
      SplitJoin(text, ',');
      var i := 0;
      while i < |pieces|
        invariant 0 <= i <= |pieces| && list == Converted(pieces[..i], factory)
      {
        list := list + [factory(Trim(pieces[i]))];
        i := i + 1;
      }
      assert pieces[..i] == pieces;
    }
  }

  // ---------------------------------------------------------------------
  // Updating in place

  /** The stored value, or `factory(key)`, which is then stored. A key already
      present is answered without the factory and the dictionary is kept. */
  method GetOrAdd<K, V>(d: Dictionary<K, V>, key: K, factory: K -> V) returns (value: V)
    modifies d
    ensures key in old(d.entries) ==> value == old(d.entries)[key] && d.entries == old(d.entries)
    ensures key !in old(d.entries) ==> value == factory(key) && d.entries == old(d.entries)[key := value]
    ensures key in d.entries && d.entries[key] == value
  {
    if key in d.entries {
      value := d.entries[key];
    } else {
      value := factory(key);
      d.entries := d.entries[key := value];
    }
  }

  /** `GetOrAdd` for list-valued dictionaries: an absent key gets a new empty
      list. The answer is the stored list itself, not a copy, so a caller's
      later `Add` to it changes the list the dictionary holds. */
  method GetOrAddList<K, V>(d: Dictionary<K, CollectionExtensions.Collection<V>>, key: K)
    returns (value: CollectionExtensions.Collection<V>)
    modifies d
    ensures key in old(d.entries) ==> value == old(d.entries)[key] && d.entries == old(d.entries)
    ensures key !in old(d.entries) ==>
      && fresh(value) && value.items == [] && !value.readOnly
      && d.entries == old(d.entries)[key := value]
    ensures key in d.entries && d.entries[key] == value
  {
    if key in d.entries {
      value := d.entries[key];
    } else {
      value := new CollectionExtensions.Collection([], false);
      d.entries := d.entries[key := value];
    }
  }

  /** Counts one more occurrence of `key`: an absent key becomes 1, a present
      one goes up by one, wrapping at the 32-bit bound. */
  method Increment<K>(dic: Dictionary<K, int32>, key: K)
    modifies dic
    ensures dic.entries == old(dic.entries)[key := if key in old(dic.entries) then Succ(old(dic.entries)[key]) else 1]
  {
    var value: int32;
    if key in dic.entries {
      value := dic.entries[key];
      value := Succ(value);
    } else {
      value := 1;
    }
    dic.entries := dic.entries[key := value];
  }

  /** The keys of a sequence, as a set. */
  function Listed<K>(s: seq<K>): set<K> {
    set k | k in s
  }

  /** `dest` after merging in the entries of `addition` whose keys are in `keys`. */
  function Merged<K, V>(dest: map<K, V>, addition: map<K, V>, keys: set<K>, mergeFun: (V, V) -> V, dflt: V): map<K, V>
    requires keys <= addition.Keys
  {
    map k | k in dest.Keys + keys ::
      if k in keys then mergeFun(addition[k], if k in dest then dest[k] else dflt) else dest[k]
  }

  /** Merging one more key, not merged before, onto the merge so far. */
  lemma MergedStep<K, V>(dest: map<K, V>, addition: map<K, V>, keys: set<K>, k: K, mergeFun: (V, V) -> V, dflt: V)
    requires keys <= addition.Keys && k in addition && k !in keys
    ensures var m := Merged(dest, addition, keys, mergeFun, dflt);
      m[k := mergeFun(addition[k], if k in m then m[k] else dflt)] == Merged(dest, addition, keys + {k}, mergeFun, dflt)
  {
  }

  /** Merges every entry of `addition` into `destination`, visiting the keys
      in the order `listing` enumerates them: each such key gets
      `mergeFun(addition's value, destination's value or default)`; keys only
      in `destination` keep their values. */
  method Merge<K, V>(destination: Dictionary<K, V>, addition: map<K, V>, listing: seq<K>, mergeFun: (V, V) -> V, dflt: V)
    requires IsListing(listing, addition)
    modifies destination
    ensures destination.entries.Keys == old(destination.entries).Keys + addition.Keys
    ensures forall k | k in addition ::
      destination.entries[k] == mergeFun(addition[k], if k in old(destination.entries) then old(destination.entries)[k] else dflt)
    ensures forall k | k in old(destination.entries) && k !in addition ::
      destination.entries[k] == old(destination.entries)[k]
  {
    ghost var d0 := destination.entries;
    var i := 0;
    while i < |listing|
      invariant 0 <= i <= |listing|
      invariant Listed(listing[..i]) <= addition.Keys
      invariant destination.entries == Merged(d0, addition, Listed(listing[..i]), mergeFun, dflt)
    {
      var k := listing[i];
      assert Listed(listing[..i + 1]) == Listed(listing[..i]) + {k} by {
        assert listing[..i + 1] == listing[..i] + [k];
      }
      assert k !in Listed(listing[..i]);
      MergedStep(d0, addition, Listed(listing[..i]), k, mergeFun, dflt);
      var v := if k in destination.entries then destination.entries[k] else dflt;
      destination.entries := destination.entries[k := mergeFun(addition[k], v)];
      i := i + 1;
    }
    assert Listed(listing[..i]) == addition.Keys by {
      assert listing[..i] == listing;
    }
  }
}
