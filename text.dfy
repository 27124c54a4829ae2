/**
 * The string operations the game borrows from Swift's standard library and
 * Foundation, restricted to what the rules depend on: `firstIndex(of:)`,
 * `remove(at:)`, `lowercased()`, `trimmingCharacters(in: .whitespacesAndNewlines)`,
 * `contains(_:)` on strings and `components(separatedBy:)`.
 * A string is a sequence of `char`s (Unicode scalar values).
 */
module Text {
  import opened Wrappers

  // ---------------------------------------------------------------------------
  // Searching and removing
  // ---------------------------------------------------------------------------

  /** Position of the first occurrence of `c` in `s`, as `firstIndex(of:)`. */
  function FirstIndex(s: string, c: char): (r: Option<nat>)
    ensures r.None? <==> c !in s
    ensures r.Some? ==> r.value < |s| && s[r.value] == c && c !in s[..r.value]
  {
    if |s| == 0 then None
    else if s[0] == c then Some(0)
    else match FirstIndex(s[1..], c)
      case None => None
      case Some(k) =>
        assert s[..k + 1] == [s[0]] + s[1..][..k];
        Some(k + 1)
  }

  /** `s` with the character at `pos` taken out, as `remove(at:)`. */
  function RemoveAt(s: string, pos: nat): (r: string)
    requires pos < |s|
    ensures |r| == |s| - 1
    ensures forall k :: 0 <= k < |r| ==> r[k] == if k < pos then s[k] else s[k + 1]
    ensures multiset(r) == multiset(s) - multiset{s[pos]}
  {
    assert s == s[..pos] + [s[pos]] + s[pos + 1..];
    s[..pos] + s[pos + 1..]
  }

  /** True when `needle` starts at position `i` of `haystack`. */
  predicate OccursAt(haystack: string, needle: string, i: int) {
    0 <= i <= |haystack| - |needle| && haystack[i..i + |needle|] == needle
  }

  /** True when `needle` occurs as a contiguous run of characters inside `haystack`. */
  predicate Contains(haystack: string, needle: string)
    ensures Contains(haystack, needle) ==> |needle| <= |haystack|
    ensures haystack == needle ==> Contains(haystack, needle)
  {
    assert haystack == needle ==> OccursAt(haystack, needle, 0);
    exists i | 0 <= i <= |haystack| - |needle| :: OccursAt(haystack, needle, i)
  }

  /** Between strings of one length, containment is equality. */
  lemma SameLengthContainsIsEquality(haystack: string, needle: string)
    requires |haystack| == |needle|
    ensures Contains(haystack, needle) <==> haystack == needle
  {
    if haystack == needle {
      assert OccursAt(haystack, needle, 0);
    }
  }

  // ---------------------------------------------------------------------------
  // Lowercasing (ASCII letters only)
  // ---------------------------------------------------------------------------

  predicate IsUpper(c: char) {
    'A' <= c <= 'Z'
  }

  function ToLower(c: char): char {
    if IsUpper(c) then ((c as int) + 32) as char else c
  }

  /**
   * `s.lowercased()`, for the ASCII letters A to Z: same length, each capital
   * replaced by the same letter in lower case, every other character kept
   * where it was.
   */
  function Lowercased(s: string): (r: string)
    ensures |r| == |s| && IsLowercase(r)
    ensures forall i :: 0 <= i < |s| && IsUpper(s[i]) ==>
      'a' <= r[i] <= 'z' && r[i] as int - 'a' as int == s[i] as int - 'A' as int
    ensures forall i :: 0 <= i < |s| && !IsUpper(s[i]) ==> r[i] == s[i]
  {
    seq(|s|, i requires 0 <= i < |s| => ToLower(s[i]))
  }

  /** True when no character of `s` is an upper-case letter. */
  predicate IsLowercase(s: string) {
    forall i :: 0 <= i < |s| ==> !IsUpper(s[i])
  }

  /** Every part of a string without upper-case letters is without them too. */
  lemma ContainedInLowercase(haystack: string, needle: string)
    requires IsLowercase(haystack) && Contains(haystack, needle)
    ensures IsLowercase(needle)
  {
    var i: int :| 0 <= i <= |haystack| - |needle| && OccursAt(haystack, needle, i);
    forall k | 0 <= k < |needle| ensures !IsUpper(needle[k]) {
      assert needle[k] == haystack[i + k];
    }
  }

  /** Lowercasing a string that has no upper-case letter leaves it as it is. */
  lemma LowercasedOfLowercase(s: string)
    requires IsLowercase(s)
    ensures Lowercased(s) == s
  {
  }

  // ---------------------------------------------------------------------------
  // Trimming whitespace and newlines
  // ---------------------------------------------------------------------------

  /**
   * Membership in Foundation's `whitespacesAndNewlines`: the Unicode space
   * separators, the line and paragraph separators, tab, line feed, vertical
   * tab, form feed, carriage return and next line.
   */
  predicate IsWhitespace(c: char) {
    var n := c as int;
    n == 0x20 || 0x09 <= n <= 0x0D || n == 0x85 || n == 0xA0 || n == 0x1680
    || 0x2000 <= n <= 0x200A || n == 0x2028 || n == 0x2029 || n == 0x202F
    || n == 0x205F || n == 0x3000
  }

  predicate AllWhitespace(s: string) {
    forall i :: 0 <= i < |s| ==> IsWhitespace(s[i])
  }

  /** Neither end of `s` is whitespace (vacuously so for the empty string). */
  predicate IsTrimmed(s: string) {
    s == [] || (!IsWhitespace(s[0]) && !IsWhitespace(s[|s| - 1]))
  }

  function TrimLeading(s: string): string {
    if |s| > 0 && IsWhitespace(s[0]) then TrimLeading(s[1..]) else s
  }

  function TrimTrailing(s: string): string {
    if |s| > 0 && IsWhitespace(s[|s| - 1]) then TrimTrailing(s[..|s| - 1]) else s
  }

  /**
   * `s.trimmingCharacters(in: .whitespacesAndNewlines)`: a part of `s` with no
   * whitespace at either end.
   */
  function Trim(s: string): (r: string)
    ensures IsTrimmed(r) && Contains(s, r)
  {
    TrimShape(s);
    TrimTrailing(TrimLeading(s))
  }

  lemma TrimShape(s: string)
    ensures IsTrimmed(TrimTrailing(TrimLeading(s)))
    ensures Contains(s, TrimTrailing(TrimLeading(s)))
  {
    var i := TrimLeadingBounds(s);
    var rest := s[i..];
    var k := TrimTrailingBounds(rest);
    assert rest[..k] == s[i..i + k];
    assert OccursAt(s, TrimTrailing(TrimLeading(s)), i);
    if TrimTrailing(rest) != [] {
      assert TrimTrailing(rest)[0] == rest[0];
    }
  }

  lemma {:induction false} TrimLeadingBounds(s: string) returns (i: nat)
    ensures i <= |s| && TrimLeading(s) == s[i..]
    ensures AllWhitespace(s[..i])
    ensures TrimLeading(s) == [] || !IsWhitespace(TrimLeading(s)[0])
  {
    if |s| > 0 && IsWhitespace(s[0]) {
      var k := TrimLeadingBounds(s[1..]);
      i := k + 1;
      assert s[1..][k..] == s[i..];
      assert s[..i] == [s[0]] + s[1..][..k];
    } else {
      i := 0;
    }
  }

  lemma {:induction false} TrimTrailingBounds(s: string) returns (j: nat)
    ensures j <= |s| && TrimTrailing(s) == s[..j]
    ensures AllWhitespace(s[j..])
    ensures TrimTrailing(s) == [] || !IsWhitespace(TrimTrailing(s)[|TrimTrailing(s)| - 1])
  {
    if |s| > 0 && IsWhitespace(s[|s| - 1]) {
      var init := s[..|s| - 1];
      j := TrimTrailingBounds(init);
      assert init[..j] == s[..j];
      assert s[j..] == init[j..] + [s[|s| - 1]];
    } else {
      j := |s|;
    }
  }

  /**
   * Trimming keeps a contiguous part of `s`, drops only whitespace on either
   * side of it, and leaves no whitespace at either end.
   */
  lemma TrimBounds(s: string) returns (i: nat, j: nat)
    ensures i <= j <= |s| && Trim(s) == s[i..j]
    ensures AllWhitespace(s[..i]) && AllWhitespace(s[j..])
    ensures IsTrimmed(Trim(s))
  {
    i := TrimLeadingBounds(s);
    var rest := s[i..];
    var k := TrimTrailingBounds(rest);
    j := i + k;
    assert rest[..k] == s[i..j];
    assert rest[k..] == s[j..];
  }

  /** A string with no whitespace at either end is its own trim. */
  lemma TrimOfTrimmed(s: string)
    requires IsTrimmed(s)
    ensures Trim(s) == s
  {
  }

  lemma TrimIdempotent(s: string)
    ensures Trim(Trim(s)) == Trim(s)
  {
    var _, _ := TrimBounds(s);
    TrimOfTrimmed(Trim(s));
  }

  // ---------------------------------------------------------------------------
  // Splitting into lines
  // ---------------------------------------------------------------------------

  /**
   * `s.components(separatedBy: [sep])`: the runs between separators, in order,
   * with an empty run wherever two separators meet or one stands at an end.
   */
  function Split(s: string, sep: char): (parts: seq<string>)
    ensures |parts| >= 1
    ensures forall p <- parts :: sep !in p
    decreases |s|
  {
    match FirstIndex(s, sep)
    case None => [s]
    case Some(k) => [s[..k]] + Split(s[k + 1..], sep)
  }

  /** The inverse of `Split`: the parts with `sep` between each two. */
  function Join(parts: seq<string>, sep: char): string {
    if parts == [] then ""
    else if |parts| == 1 then parts[0]
    else parts[0] + [sep] + Join(parts[1..], sep)
  }

  lemma JoinCons(head: string, tail: seq<string>, sep: char)
    requires |tail| >= 1
    ensures Join([head] + tail, sep) == head + [sep] + Join(tail, sep)
  {
  }

  /** Splitting at the first separator, at position `k`. */
  lemma SplitAt(s: string, sep: char, k: nat)
    requires FirstIndex(s, sep) == Some(k)
    ensures Split(s, sep) == [s[..k]] + Split(s[k + 1..], sep)
  {
  }

  /** One separator's worth of `JoinSplit`: if the text after the first separator round-trips, so does the whole. */
  lemma JoinSplitStep(s: string, sep: char, k: nat)
    requires FirstIndex(s, sep) == Some(k)
    requires Join(Split(s[k + 1..], sep), sep) == s[k + 1..]
    ensures Join(Split(s, sep), sep) == s
  {
    var rest := s[k + 1..];
    calc {
      Join(Split(s, sep), sep);
    == { SplitAt(s, sep, k); }
      Join([s[..k]] + Split(rest, sep), sep);
    == { JoinCons(s[..k], Split(rest, sep), sep); }
      s[..k] + [sep] + Join(Split(rest, sep), sep);
    ==
      s[..k] + [sep] + rest;
    }
    SplitAround(s, k);
  }

  /** A string is the part before position `k`, the character at `k`, and the part after. */
  lemma SplitAround(s: string, k: nat)
    requires k < |s|
    ensures s == s[..k] + [s[k]] + s[k + 1..]
  {
    assert s[k..] == [s[k]] + s[k + 1..];
    assert s == s[..k] + s[k..];
  }

  lemma {:induction false} JoinSplit(s: string, sep: char)
    ensures Join(Split(s, sep), sep) == s
    decreases |s|
  {
    match FirstIndex(s, sep)
    case Some(k) =>
      JoinSplit(s[k + 1..], sep);
      JoinSplitStep(s, sep, k);
    case None =>
  }

  lemma {:induction false} SplitJoin(parts: seq<string>, sep: char)
    requires |parts| >= 1
    requires forall p <- parts :: sep !in p
    ensures Split(Join(parts, sep), sep) == parts
  {
    if |parts| > 1 {
      var head := parts[0];
      var tail := Join(parts[1..], sep);
      var s := Join(parts, sep);
      assert head in parts;
      assert s == head + [sep] + tail;
      assert s[|head|] == sep;
      assert s[..|head|] == head;
      var k := FirstIndex(s, sep).value;
      assert k == |head|;
      assert s[k + 1..] == tail;
      SplitJoin(parts[1..], sep);
    } else {
      assert sep !in parts[0];
    }
  }
}
