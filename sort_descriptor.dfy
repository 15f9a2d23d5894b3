/** A sort descriptor: a member name and a direction, written as text in the
    form `member-asc` or `member-desc`. */
module Sorting {
  import opened Wrappers
  import DictionaryExtensions

  datatype SortDirection = Ascending | Descending

  /** The direction's word in the text form. */
  function DirectionText(d: SortDirection): (r: string)
    ensures r == "asc" <==> d == Ascending
    ensures r == "desc" <==> d == Descending
  {
    match d
    case Ascending => "asc"
    case Descending => "desc"
  }

  /** The text form: the member (a null member formats as nothing), a dash
      and the direction's word. */
  function Formatted(member: Option<string>, direction: SortDirection): string {
    member.GetOr([]) + "-" + DirectionText(direction)
  }

  /** The state after reading `source` over a descriptor whose member was
      `member`: the member becomes the first dash-separated segment only when
      there are at least two segments, and the direction is descending
      exactly when the last segment is `desc`. */
  function Parsed(source: string, member: Option<string>): (r: (Option<string>, SortDirection))
    ensures var segments := DictionaryExtensions.Split(source, '-');
      && (r.1 == Descending <==> segments[|segments| - 1] == "desc")
      && (|segments| > 1 ==> r.0 == Some(segments[0]))
      && (|segments| <= 1 ==> r.0 == member)
  {
    var segments := DictionaryExtensions.Split(source, '-');
    (if |segments| > 1 then Some(segments[0]) else member,
     if segments[|segments| - 1] == "desc" then Descending else Ascending)
  }

  class SortDescriptor {
    var member: Option<string>
    var direction: SortDirection

    /** A new descriptor has no member and sorts ascending. */
    constructor ()
      ensures member == None && direction == Ascending
    {
      member := None;
      direction := Ascending;
    }

    method Deserialize(source: string)
      modifies this
      ensures (member, direction) == Parsed(source, old(member))
    {
      var segments := DictionaryExtensions.Split(source, '-');
      if |segments| > 1 {
        member := Some(segments[0]);
      }
      direction := if segments[|segments| - 1] == "desc" then Descending else Ascending;
    }

    function Serialize(): (r: string)
      reads this
      ensures r == Formatted(member, direction)
      ensures var m := member.GetOr([]);
        |r| > |m| && r[..|m|] == m && r[|m|] == '-' && r[|m| + 1..] == DirectionText(direction)
    {
      Formatted(member, direction)
    }
  }

  /** Splitting `a-b` where `b` has no dash ends with the segment `b`, and
      there are at least two segments. */
  lemma {:induction false} SplitEndsWith(a: string, b: string)
    requires '-' !in b
    ensures var segments := DictionaryExtensions.Split(a + "-" + b, '-');
      |segments| >= 2 && segments[|segments| - 1] == b
    decreases |a|
  {
    var s := a + "-" + b;
    if a == [] {
      assert s == "-" + b;
      assert s[1..] == b;
      DictionaryExtensions.SplitJoin(b, '-');
      NoDashOnePiece(b);
    } else {
      assert s[1..] == a[1..] + "-" + b;
      SplitEndsWith(a[1..], b);
    }
  }

  /** A string without a dash is one segment. */
  lemma {:induction false} NoDashOnePiece(s: string)
    requires '-' !in s
    ensures DictionaryExtensions.Split(s, '-') == [s]
    decreases |s|
  {
    if s != [] {
      NoDashOnePiece(s[1..]);
      assert [s[0]] + s[1..] == s;
    }
  }

  /** Splitting `a-b` where `a` has no dash starts with the segment `a`. */
  lemma {:induction false} SplitStartsWith(a: string, b: string)
    requires '-' !in a
    ensures var segments := DictionaryExtensions.Split(a + "-" + b, '-');
      |segments| >= 2 && segments[0] == a
    decreases |a|
  {
    var s := a + "-" + b;
    if a == [] {
      assert s == "-" + b;
      assert s[1..] == b;
    } else {
      assert s[1..] == a[1..] + "-" + b;
      SplitStartsWith(a[1..], b);
      assert [a[0]] + a[1..] == a;
    }
  }

  /** Reading a descriptor's own text back always restores its direction,
      whatever the member holds and whatever the descriptor held before. */
  lemma DirectionRoundTrip(member: Option<string>, direction: SortDirection, current: Option<string>)
    ensures Parsed(Formatted(member, direction), current).1 == direction
  {
    SplitEndsWith(member.GetOr([]), DirectionText(direction));
  }

  /** Reading a descriptor's own text back restores its member when the
      member is set and holds no dash; a null member comes back as the
      empty name. */
  lemma MemberRoundTrip(member: Option<string>, direction: SortDirection, current: Option<string>)
    requires '-' !in member.GetOr([])
    ensures Parsed(Formatted(member, direction), current).0 == Some(member.GetOr([]))
  {
    SplitStartsWith(member.GetOr([]), DirectionText(direction));
  }

  /** A member that holds a dash is cut at its first dash. */
  lemma DashedMemberCut(direction: SortDirection, current: Option<string>)
    ensures Parsed(Formatted(Some("a-b"), direction), current).0 == Some("a")
  {
    SplitStartsWith("a", "b-" + DirectionText(direction));
    assert Formatted(Some("a-b"), direction) == "a" + "-" + ("b-" + DirectionText(direction));
  }
}
