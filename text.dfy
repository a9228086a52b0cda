/**
 * The few Python string operations the two download scripts use:
 * `sub in s`, `s.split(sep)` and `sep.join(parts)` for a one-character separator.
 */
module Text {

  /** Python's `sub in s` on strings: `sub` occurs somewhere in `s`. */
  predicate Contains(s: string, sub: string) {
    exists i :: 0 <= i <= |s| - |sub| && OccursAt(s, sub, i)
  }

  /** `sub` occurs in `s` starting at position `i`. */
  predicate OccursAt(s: string, sub: string, i: int)
    requires 0 <= i <= |s| - |sub|
  {
    s[i..i + |sub|] == sub
  }

  /** The position of the first `c` in `s`: where `SplitOn` cuts off its first piece. */
  function IndexOf(s: string, c: char): (i: nat)
    requires c in s
    ensures i < |s| && s[i] == c && c !in s[..i]
  {
    if s[0] == c then 0
    else
      var k := IndexOf(s[1..], c);
      assert s[..k + 1] == [s[0]] + s[1..][..k];
      k + 1
  }

  /** Python's `s.split(sep)`: the pieces between separators, empty pieces included. */
  function SplitOn(s: string, sep: char): (parts: seq<string>)
    ensures |parts| >= 1
    ensures forall k :: 0 <= k < |parts| ==> sep !in parts[k]
    decreases |s|
  {
    if sep !in s then [s]
    else
      var i := IndexOf(s, sep);
      [s[..i]] + SplitOn(s[i + 1..], sep)
  }

  /** Python's `sep.join(parts)`. */
  function JoinWith(parts: seq<string>, sep: char): string {
    if parts == [] then ""
    else if |parts| == 1 then parts[0]
    else parts[0] + [sep] + JoinWith(parts[1..], sep)
  }

  /** Joining the pieces of a split gives back the original string. */
  lemma {:induction false} JoinSplit(s: string, sep: char)
    ensures JoinWith(SplitOn(s, sep), sep) == s
    decreases |s|
  {
    if sep in s {
      var i := IndexOf(s, sep);
      var rest := SplitOn(s[i + 1..], sep);
      JoinSplit(s[i + 1..], sep);
      assert SplitOn(s, sep) == [s[..i]] + rest;
      assert s == s[..i] + [sep] + s[i + 1..];
    }
  }

  /** The first separator of a joined string sits right after the first piece. */
  lemma IndexOfJoined(first: string, sep: char, rest: string)
    requires sep !in first
    ensures sep in first + [sep] + rest
    ensures IndexOf(first + [sep] + rest, sep) == |first|
  {
    var s := first + [sep] + rest;
    assert s[|first|] == sep;
    assert s[..|first|] == first;
  }

  /** Splitting at the first separator. */
  lemma SplitOnStep(first: string, sep: char, rest: string)
    requires sep !in first
    ensures SplitOn(first + [sep] + rest, sep) == [first] + SplitOn(rest, sep)
  {
    var s := first + [sep] + rest;
    IndexOfJoined(first, sep, rest);
    assert s[..|first|] == first;
    assert s[|first| + 1..] == rest;
  }

  /** `IndexOf` finds the first occurrence: any position holding `c` with no `c` before it. */
  lemma IndexOfIsFirst(s: string, c: char, k: int)
    requires 0 <= k < |s| && s[k] == c && c !in s[..k]
    ensures IndexOf(s, c) == k
  {
    var j := IndexOf(s, c);
    assert forall m :: 0 <= m < k ==> s[..k][m] == s[m];
    assert forall m :: 0 <= m < j ==> s[..j][m] == s[m];
  }

  /** A separator-free tail appended after a separator becomes one more last piece. */
  lemma {:induction false} SplitOnAppend(s: string, sep: char, t: string)
    requires sep !in t
    ensures SplitOn(s + [sep] + t, sep) == SplitOn(s, sep) + [t]
    decreases |s|
  {
    var u := s + [sep] + t;
    if sep !in s {
      assert u[..|s|] == s;
      IndexOfIsFirst(u, sep, |s|);
      assert u[|s| + 1..] == t;
    } else {
      var i := IndexOf(s, sep);
      assert u[..i] == s[..i];
      IndexOfIsFirst(u, sep, i);
      assert u[i + 1..] == s[i + 1..] + [sep] + t;
      SplitOnAppend(s[i + 1..], sep, t);
      assert [s[..i]] + (SplitOn(s[i + 1..], sep) + [t]) == [s[..i]] + SplitOn(s[i + 1..], sep) + [t];
    }
  }

  /** Splitting a join of separator-free pieces gives back the pieces. */
  lemma {:induction false} SplitJoin(parts: seq<string>, sep: char)
    requires |parts| >= 1
    requires forall k :: 0 <= k < |parts| ==> sep !in parts[k]
    ensures SplitOn(JoinWith(parts, sep), sep) == parts
    decreases |parts|
  {
    if |parts| > 1 {
      SplitOnStep(parts[0], sep, JoinWith(parts[1..], sep));
      SplitJoin(parts[1..], sep);
      assert parts == [parts[0]] + parts[1..];
    }
  }
}
