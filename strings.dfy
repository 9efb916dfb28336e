/**
 * Separator search in strings: Python's `str.split(sep, 1)` splits at the
 * first occurrence of a separator and `str.rsplit(sep, 1)` at the last one.
 */
module Strings {
  import opened Wrappers

  /** The position of the first `c` in `s`, if any. */
  function FirstIndexOf(s: string, c: char): (r: Option<nat>)
    ensures r.None? <==> c !in s
    ensures r.Some? ==> r.value < |s| && s[r.value] == c && c !in s[..r.value]
  {
    if s == [] then None
    else if s[0] == c then Some(0)
    else match FirstIndexOf(s[1..], c)
      case None => None
      case Some(i) =>
        assert s[..i + 1] == [s[0]] + s[1..][..i];
        Some(i + 1)
  }

  /** The position of the last `c` in `s`, if any. */
  function LastIndexOf(s: string, c: char): (r: Option<nat>)
    ensures r.None? <==> c !in s
    ensures r.Some? ==> r.value < |s| && s[r.value] == c && c !in s[r.value + 1..]
  {
    if s == [] then None
    else if s[|s| - 1] == c then Some(|s| - 1)
    else match LastIndexOf(s[..|s| - 1], c)
      case None =>
        assert s == s[..|s| - 1] + [s[|s| - 1]];
        None
      case Some(i) =>
        assert s[i + 1..] == s[..|s| - 1][i + 1..] + [s[|s| - 1]];
        Some(i)
  }

  /** `s.split(c, 1)` when `c` occurs in `s`. */
  function SplitFirst(s: string, c: char): Option<(string, string)> {
    match FirstIndexOf(s, c)
    case None => None
    case Some(i) => Some((s[..i], s[i + 1..]))
  }

  /** `s.rsplit(c, 1)` when `c` occurs in `s`. */
  function SplitLast(s: string, c: char): Option<(string, string)> {
    match LastIndexOf(s, c)
    case None => None
    case Some(i) => Some((s[..i], s[i + 1..]))
  }

  /** Joining with a separator absent from the head is undone by SplitFirst. */
  lemma SplitFirstJoined(a: string, c: char, b: string)
    requires c !in a
    ensures SplitFirst(a + [c] + b, c) == Some((a, b))
  {
    var s := a + [c] + b;
    var r := FirstIndexOf(s, c);
    assert s[|a|] == c;
    assert s[..|a|] == a && s[|a| + 1..] == b;
  }

  /** Joining with a separator absent from the tail is undone by SplitLast. */
  lemma SplitLastJoined(a: string, c: char, b: string)
    requires c !in b
    ensures SplitLast(a + [c] + b, c) == Some((a, b))
  {
    var s := a + [c] + b;
    var r := LastIndexOf(s, c);
    assert s[|a|] == c;
    assert s[..|a|] == a && s[|a| + 1..] == b;
  }

  /** Whatever SplitFirst returns joins back to the input around a separator-free head. */
  lemma SplitFirstParts(s: string, c: char)
    requires SplitFirst(s, c).Some?
    ensures var (a, b) := SplitFirst(s, c).value; s == a + [c] + b && c !in a
  {
  }

  /** Whatever SplitLast returns joins back to the input around a separator-free tail. */
  lemma SplitLastParts(s: string, c: char)
    requires SplitLast(s, c).Some?
    ensures var (a, b) := SplitLast(s, c).value; s == a + [c] + b && c !in b
  {
  }
}
