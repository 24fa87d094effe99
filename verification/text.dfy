/** The string operations the engine relies on, as the Java runtime defines
    them for ASCII text: upper-casing, substring search, `trim`,
    `equalsIgnoreCase` and `split` on a separator free of regex
    metacharacters. */
module Text {
  import opened Common

  function ToUpperChar(c: char): (u: char)
    ensures 'a' <= c <= 'z' ==> 'A' <= u <= 'Z' && u as int == c as int - 32
    ensures !('a' <= c <= 'z') ==> u == c
  {
    if 'a' <= c <= 'z' then (c as int - 32) as char else c
  }

  /** Upper-cases every ASCII letter of `s` and leaves every other character. */
  function ToUpper(s: string): (u: string)
    ensures |u| == |s| && forall i :: 0 <= i < |s| ==> u[i] == ToUpperChar(s[i])
  {
    seq(|s|, i requires 0 <= i < |s| => ToUpperChar(s[i]))
  }

  /** `sub` occurs in `s` starting at index `i`. */
  predicate OccursAt(s: string, sub: string, i: nat)
  {
    i + |sub| <= |s| && s[i..i + |sub|] == sub
  }

  predicate Contains(s: string, sub: string)
  {
    exists i: nat :: i <= |s| && OccursAt(s, sub, i)
  }

  /** The first occurrence of `sep` in `s` at or after `from`. */
  function FindFrom(s: string, sep: string, from: nat): (r: Option<nat>)
    requires |sep| > 0
    decreases |s| - from
    ensures r.Some? ==> from <= r.value && OccursAt(s, sep, r.value)
    ensures r.Some? ==> forall j :: from <= j < r.value ==> !OccursAt(s, sep, j)
    ensures r.None? ==> forall j: nat :: from <= j ==> !OccursAt(s, sep, j)
  {
    if from + |sep| > |s| then None
    else if OccursAt(s, sep, from) then Some(from)
    else FindFrom(s, sep, from + 1)
  }

  /** Java's `Character` test used by `String.trim`: every code point up to
      the space character counts as white space. */
  predicate IsTrimmed(c: char)
  {
    c <= ' '
  }

  function TrimStart(s: string): (r: string)
    ensures |r| <= |s| && r == s[|s| - |r|..]
    ensures r == [] || !IsTrimmed(r[0])
    ensures forall i :: 0 <= i < |s| - |r| ==> IsTrimmed(s[i])
  {
    if s != [] && IsTrimmed(s[0]) then TrimStart(s[1..]) else s
  }

  function TrimEnd(s: string): (r: string)
    ensures |r| <= |s| && r == s[..|r|]
    ensures r == [] || !IsTrimmed(r[|r| - 1])
    ensures forall i :: |r| <= i < |s| ==> IsTrimmed(s[i])
  {
    if s != [] && IsTrimmed(s[|s| - 1]) then TrimEnd(s[..|s| - 1]) else s
  }

  /** `String.trim`: the longest infix of `s` that neither starts nor ends
      with a white-space character. */
  function Trim(s: string): (r: string)
    ensures r == [] || (!IsTrimmed(r[0]) && !IsTrimmed(r[|r| - 1]))
    ensures var k := |s| - |TrimStart(s)|; k + |r| <= |s| && r == s[k..k + |r|]
    ensures forall i :: 0 <= i < |s| - |TrimStart(s)| ==> IsTrimmed(s[i])
    ensures forall i :: |s| - |TrimStart(s)| + |r| <= i < |s| ==> IsTrimmed(s[i])
  {
    TrimEnd(TrimStart(s))
  }

  /** `String.equalsIgnoreCase` on ASCII text. */
  predicate EqualsIgnoreCase(a: string, b: string)
  {
    |a| == |b| && forall i :: 0 <= i < |a| ==> ToUpperChar(a[i]) == ToUpperChar(b[i])
  }

  /** All the pieces of `s` between the non-overlapping occurrences of `sep`,
      found left to right, including empty ones. */
  function SplitAll(s: string, sep: string): (parts: seq<string>)
    requires |sep| > 0
    decreases |s|
    ensures |parts| >= 1
  {
    match FindFrom(s, sep, 0)
    case None => [s]
    case Some(i) => [s[..i]] + SplitAll(s[i + |sep|..], sep)
  }

  /** Drops the empty pieces at the end of `parts`. */
  function DropTrailingEmpty(parts: seq<string>): (r: seq<string>)
    ensures |r| <= |parts| && r == parts[..|r|]
    ensures r == [] || r[|r| - 1] != []
    ensures forall i :: |r| <= i < |parts| ==> parts[i] == []
  {
    if parts != [] && parts[|parts| - 1] == [] then DropTrailingEmpty(parts[..|parts| - 1]) else parts
  }

  /** `String.split(sep)` with the default limit 0: the whole string when
      `sep` does not occur, otherwise the pieces with the trailing empty ones
      removed. */
  function JavaSplit(s: string, sep: string): (parts: seq<string>)
    requires |sep| > 0
  {
    if FindFrom(s, sep, 0).None? then [s] else DropTrailingEmpty(SplitAll(s, sep))
  }

  /** Joins `parts` with `sep` between consecutive parts. */
  function JoinWith(parts: seq<string>, sep: string): string
  {
    if parts == [] then []
    else if |parts| == 1 then parts[0]
    else parts[0] + sep + JoinWith(parts[1..], sep)
  }

  /** Re-joining the pieces of a split restores the input. */
  lemma {:induction false} JoinSplitAll(s: string, sep: string)
    requires |sep| > 0
    ensures JoinWith(SplitAll(s, sep), sep) == s
    decreases |s|
  {
    match FindFrom(s, sep, 0)
    case None =>
    case Some(i) =>
      var rest := s[i + |sep|..];
      var tail := SplitAll(rest, sep);
      JoinSplitAll(rest, sep);
      var parts := [s[..i]] + tail;
      assert SplitAll(s, sep) == parts;
      assert |parts| >= 2 && parts[1..] == tail;
      assert JoinWith(parts, sep) == s[..i] + sep + rest;
      assert s[i..i + |sep|] == sep;
      assert s == s[..i] + s[i..i + |sep|] + rest;
  }

  /** No occurrence of `sep` starts inside the field `f`, not even one that
      runs on into a `sep` written after it. */
  predicate ClearOf(f: string, sep: string)
  {
    forall j :: 0 <= j < |f| ==> !OccursAt(f + sep, sep, j)
  }

  /** When the field `f` is clear of `sep`, the first occurrence of `sep` in
      `f + sep + rest` is the one right after `f`. */
  lemma FirstOccurrenceAfterField(f: string, sep: string, rest: string)
    requires |sep| > 0 && ClearOf(f, sep)
    ensures FindFrom(f + sep + rest, sep, 0) == Some(|f|)
  {
    var s := f + sep + rest;
    assert OccursAt(s, sep, |f|) by {
      assert s[|f|..|f| + |sep|] == sep;
    }
    forall j | 0 <= j < |f|
      ensures !OccursAt(s, sep, j)
    {
      assert !OccursAt(f + sep, sep, j);
      assert s[j..j + |sep|] == (f + sep)[j..j + |sep|];
    }
  }

  /** A field clear of `sep` holds no occurrence of it. */
  lemma NoOccurrenceInClearField(f: string, sep: string)
    requires |sep| > 0 && ClearOf(f, sep)
    ensures FindFrom(f, sep, 0).None?
  {
    forall j: nat | 0 <= j
      ensures !OccursAt(f, sep, j)
    {
      if j + |sep| <= |f| {
        assert !OccursAt(f + sep, sep, j);
        assert f[j..j + |sep|] == (f + sep)[j..j + |sep|];
      }
    }
  }

  /** Splitting a join of fields clear of the separator gives the fields back. */
  lemma {:induction false} SplitAllJoin(parts: seq<string>, sep: string)
    requires |sep| > 0 && |parts| >= 1
    requires forall i :: 0 <= i < |parts| ==> ClearOf(parts[i], sep)
    ensures SplitAll(JoinWith(parts, sep), sep) == parts
  {
    if |parts| == 1 {
      NoOccurrenceInClearField(parts[0], sep);
    } else {
      var rest := JoinWith(parts[1..], sep);
      var s := parts[0] + sep + rest;
      FirstOccurrenceAfterField(parts[0], sep, rest);
      assert s[..|parts[0]|] == parts[0];
      assert s[|parts[0]| + |sep|..] == rest;
      SplitAllJoin(parts[1..], sep);
    }
  }

  /** At least one field, every one clear of the non-empty `sep`, and the
      last one not empty. */
  predicate Joinable(parts: seq<string>, sep: string)
  {
    |sep| > 0 && |parts| >= 1 && parts[|parts| - 1] != [] &&
    forall i :: 0 <= i < |parts| ==> ClearOf(parts[i], sep)
  }

  /** `String.split` undoes a join of fields clear of the separator,
      provided the last field is not empty (Java drops trailing empty
      pieces). */
  lemma JavaSplitJoin(parts: seq<string>, sep: string)
    requires Joinable(parts, sep)
    ensures JavaSplit(JoinWith(parts, sep), sep) == parts
  {
    SplitAllJoin(parts, sep);
    if |parts| == 1 {
      NoOccurrenceInClearField(parts[0], sep);
    } else {
      FirstOccurrenceAfterField(parts[0], sep, JoinWith(parts[1..], sep));
    }
  }
}
