/**
 The few string primitives of Go's `strings` package the tool relies on:
 `TrimSpace`, ASCII `ToLower`, `Index` of a single character and the
 `s[:Index(s, c)]` cut it is used for.
 */
module Strings {
  import opened Wrappers

  /** Go's `unicode.IsSpace`: the Latin-1 spaces plus Unicode's White_Space characters. */
  predicate IsSpace(c: char) {
    var n := c as int;
    || n == 0x09 || n == 0x0A || n == 0x0B || n == 0x0C || n == 0x0D || n == 0x20
    || n == 0x85 || n == 0xA0 || n == 0x1680 || (0x2000 <= n <= 0x200A)
    || n == 0x2028 || n == 0x2029 || n == 0x202F || n == 0x205F || n == 0x3000
  }

  /** Every character is white space. */
  predicate AllSpace(t: string) {
    forall k :: 0 <= k < |t| ==> IsSpace(t[k])
  }

  /** Drops leading white space. */
  function TrimLeft(s: string): (r: string)
    ensures |r| <= |s| && r == s[|s| - |r|..]
    ensures forall k :: 0 <= k < |s| - |r| ==> IsSpace(s[k])
    ensures r == [] || !IsSpace(r[0])
  {
    if |s| > 0 && IsSpace(s[0]) then TrimLeft(s[1..]) else s
  }

  /** Drops trailing white space. */
  function TrimRight(s: string): (r: string)
    ensures r <= s
    ensures forall k :: |r| <= k < |s| ==> IsSpace(s[k])
    ensures r == [] || !IsSpace(r[|r| - 1])
  {
    if |s| > 0 && IsSpace(s[|s| - 1]) then TrimRight(s[..|s| - 1]) else s
  }

  /** Go's `strings.TrimSpace`: the infix of `s` left after removing white space at both ends. */
  function TrimSpace(s: string): (r: string)
    ensures r == [] || (!IsSpace(r[0]) && !IsSpace(r[|r| - 1]))
    ensures |r| <= |s|
    ensures r <= s[|s| - |TrimLeft(s)|..]
    ensures AllSpace(s[..|s| - |TrimLeft(s)|]) && AllSpace(s[|s| - |TrimLeft(s)| + |r|..])
  {
    TrimmedEnds(s);
    TrimRight(TrimLeft(s))
  }

  /** What the two trims drop is white space, in front of and behind what they keep. */
  lemma TrimmedEnds(s: string)
    ensures var t := TrimLeft(s);
      AllSpace(s[..|s| - |t|]) && AllSpace(s[|s| - |t| + |TrimRight(t)|..])
  {
    var t := TrimLeft(s);
    var r := TrimRight(t);
    SpacePrefix(s, |s| - |t|);
    SpaceSuffix(t, |r|);
    SuffixOfSuffix(s, |s| - |t|, |r|);
  }

  lemma SpacePrefix(s: string, n: nat)
    requires n <= |s| && forall k :: 0 <= k < n ==> IsSpace(s[k])
    ensures AllSpace(s[..n])
  {
  }

  lemma SpaceSuffix(s: string, n: nat)
    requires n <= |s| && forall k :: n <= k < |s| ==> IsSpace(s[k])
    ensures AllSpace(s[n..])
  {
    assert forall k :: 0 <= k < |s| - n ==> s[n..][k] == s[n + k];
  }

  lemma SuffixOfSuffix(s: string, a: nat, b: nat)
    requires a + b <= |s|
    ensures s[a..][b..] == s[a + b..]
  {
  }

  /** A string without white space at either end is its own trimming. */
  lemma {:induction false} TrimSpaceOfTrimmed(s: string)
    requires s == [] || (!IsSpace(s[0]) && !IsSpace(s[|s| - 1]))
    ensures TrimSpace(s) == s
  {
  }

  /** Appending white space (such as the newline ending a line of output) does not change the trimming. */
  lemma {:induction false} TrimSpaceAppendSpace(s: string, c: char)
    requires IsSpace(c)
    ensures TrimSpace(s + [c]) == TrimSpace(s)
    decreases |s|
  {
    if |s| > 0 && IsSpace(s[0]) {
      assert (s + [c])[1..] == s[1..] + [c];
      TrimSpaceAppendSpace(s[1..], c);
    } else if |s| == 0 {
      assert TrimLeft(s + [c]) == TrimLeft([c][1..]);
    } else {
      assert TrimLeft(s + [c]) == s + [c];
      assert (s + [c])[..|s + [c]| - 1] == s;
    }
  }

  /** ASCII lower-casing of one character. */
  function LowerChar(c: char): char {
    if 'A' <= c <= 'Z' then (c as int + 32) as char else c
  }

  /** `strings.ToLower` on the characters that matter here (see the README on non-ASCII letters). */
  function ToLower(s: string): (r: string)
    ensures |r| == |s|
    ensures forall i :: 0 <= i < |s| ==> r[i] == LowerChar(s[i])
  {
    seq(|s|, i requires 0 <= i < |s| => LowerChar(s[i]))
  }

  /** A string lower-cases to one letter exactly when it is that letter in either case. */
  lemma ToLowerSingleLetter(s: string, c: char)
    requires 'a' <= c <= 'z'
    ensures ToLower(s) == [c] <==> s == [c] || s == [(c as int - 32) as char]
  {
    if ToLower(s) == [c] {
      assert LowerChar(s[0]) == c;
    }
  }

  /** Go's `strings.Index` for a single character: the position of its first occurrence. */
  function IndexOf(s: string, c: char): (r: Option<nat>)
    ensures r.Some? ==> r.value < |s| && s[r.value] == c && c !in s[..r.value]
    ensures r.None? <==> c !in s
  {
    if |s| == 0 then None
    else if s[0] == c then Some(0)
    else
      match IndexOf(s[1..], c)
      case None => None
      case Some(i) =>
        assert s[..i + 1] == [s[0]] + s[1..][..i];
        Some(i + 1)
  }

  /** `s[:strings.Index(s, c)]` when `c` occurs, `s` otherwise: the longest prefix of `s` free of `c`. */
  function CutAt(s: string, c: char): (r: string)
    ensures r <= s
    ensures c !in r
    ensures r == s || s[|r|] == c
  {
    match IndexOf(s, c)
    case Some(i) => s[..i]
    case None => s
  }

  /** The cut falls at a known first occurrence. */
  lemma CutAtFirst(s: string, c: char, i: nat)
    requires i < |s| && s[i] == c && c !in s[..i]
    ensures CutAt(s, c) == s[..i]
  {
  }

  /** Without an occurrence nothing is cut. */
  lemma CutAtAbsent(s: string, c: char)
    requires c !in s
    ensures CutAt(s, c) == s
  {
  }
}
