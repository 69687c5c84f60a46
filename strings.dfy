/**
 * The string built-ins the two request handlers rely on, over `seq<char>`:
 * JavaScript's `indexOf`, `startsWith`, `split` and `Array.prototype.join`,
 * a last-occurrence search (used for PHP's `basename` and `pathinfo`) and
 * ASCII lower-casing (PHP's `strtolower`).
 */
module Strings {

  /** `pat` occurs in `s` at index `k`. */
  predicate MatchesAt(s: string, pat: string, k: nat) {
    k + |pat| <= |s| && s[k..k + |pat|] == pat
  }

  /** `pat` occurs somewhere in `s`. */
  predicate Contains(s: string, pat: string) {
    exists k :: 0 <= k <= |s| && MatchesAt(s, pat, k)
  }

  /** JavaScript `s.startsWith(prefix)`: `prefix` occurs at index 0 of `s`. */
  predicate StartsWith(s: string, prefix: string): (b: bool)
    ensures b <==> MatchesAt(s, prefix, 0)
  {
    |prefix| <= |s| && s[..|prefix|] == prefix
  }

  /** `startsWith` holds exactly when `s` is `prefix` followed by some text. */
  lemma StartsWithIsPrefix(s: string, prefix: string)
    ensures StartsWith(s, prefix) <==> exists t :: s == prefix + t
  {
    if StartsWith(s, prefix) {
      assert s == prefix + s[|prefix|..];
    }
    if exists t :: s == prefix + t {
      var t :| s == prefix + t;
      assert s[..|prefix|] == prefix;
    }
  }

  /**
   * JavaScript `s.indexOf(pat, from)` for a non-empty pattern: the first
   * index at or after `from` where `pat` occurs, or -1.
   */
  function IndexOf(s: string, pat: string, from: nat): (r: int)
    requires pat != []
    ensures r == -1 || (from <= r && MatchesAt(s, pat, r))
    ensures forall k: nat :: from <= k && (r == -1 || k < r) ==> !MatchesAt(s, pat, k)
    decreases |s| - from
  {
    if |s| < from + |pat| then -1
    else if MatchesAt(s, pat, from) then from
    else IndexOf(s, pat, from + 1)
  }

  /** For a one-character pattern, `indexOf` finds the first occurrence of that character. */
  lemma IndexOfChar(s: string, c: char)
    ensures IndexOf(s, [c], 0) == -1 ==> c !in s
    ensures IndexOf(s, [c], 0) != -1 ==>
              var r := IndexOf(s, [c], 0); r < |s| && s[r] == c && c !in s[..r]
  {
    var r := IndexOf(s, [c], 0);
    forall k | 0 <= k < |s| && (r == -1 || k < r)
      ensures s[k] != c
    {
      assert !MatchesAt(s, [c], k);
      assert s[k..k + 1] == [s[k]];
    }
    if r != -1 {
      assert s[r..r + 1] == [s[r]];
    }
  }

  /** `Array.prototype.join(sep)` on an array of strings. */
  function Join(pieces: seq<string>, sep: string): string {
    if pieces == [] then []
    else if |pieces| == 1 then pieces[0]
    else pieces[0] + sep + Join(pieces[1..], sep)
  }

  /**
   * JavaScript `s.split(sep)` for a non-empty separator: the pieces between
   * successive non-overlapping occurrences of `sep`, searched left to right.
   * Joining them back with `sep` gives `s`, and no piece contains `sep`.
   */
  function Split(s: string, sep: string): (pieces: seq<string>)
    requires sep != []
    ensures |pieces| >= 1
    ensures Join(pieces, sep) == s
    ensures forall i :: 0 <= i < |pieces| ==> !Contains(pieces[i], sep)
    ensures forall i, k :: 0 <= i < |pieces| - 1 && 0 <= k < |pieces[i]| ==> !MatchesAt(pieces[i] + sep, sep, k)
    ensures StartsWith(s, sep) ==> |pieces| >= 2 && pieces[0] == []
  {
    if StartsWith(s, sep) then assert MatchesAt(s, sep, 0);
      SplitFrom(s, sep, 0)
    else SplitFrom(s, sep, 0)
  }

  /** The pieces of `s[start..]`, as `split` produces them. */
  function SplitFrom(s: string, sep: string, start: nat): (pieces: seq<string>)
    requires sep != [] && start <= |s|
    ensures |pieces| >= 1
    ensures Join(pieces, sep) == s[start..]
    ensures forall i :: 0 <= i < |pieces| ==> !Contains(pieces[i], sep)
    ensures forall i, k :: 0 <= i < |pieces| - 1 && 0 <= k < |pieces[i]| ==> !MatchesAt(pieces[i] + sep, sep, k)
    decreases |s| - start
  {
    var p := IndexOf(s, sep, start);
    if p == -1 then
      NoMatchInside(s, sep, start, |s|);
      assert s[start..] == s[start..|s|];
      [s[start..]]
    else
      NoMatchInside(s, sep, start, p);
      CutAtFirstMatch(s, sep, start, p);
      var rest := SplitFrom(s, sep, p + |sep|);
      assert s[start..] == s[start..p] + sep + s[p + |sep|..];
      [s[start..p]] + rest
  }

  /** A slice that lies in a stretch free of matches contains no match itself. */
  lemma NoMatchInside(s: string, sep: string, start: nat, end: nat)
    requires sep != [] && start <= end <= |s|
    requires forall k: nat :: start <= k < end ==> !MatchesAt(s, sep, k)
    ensures !Contains(s[start..end], sep)
  {
    var t := s[start..end];
    forall k: nat | MatchesAt(t, sep, k)
      ensures false
    {
      var inPiece, inWhole := t[k..k + |sep|], s[start + k..start + k + |sep|];
      forall j | 0 <= j < |sep|
        ensures inPiece[j] == inWhole[j]
      {
        assert t[k + j] == s[start + k + j];
      }
      assert inPiece == inWhole;
      assert MatchesAt(s, sep, start + k);
    }
  }

  /**
   * Cutting at the first match after `start`: in the piece followed by the
   * separator, the separator occurs nowhere before its own position.
   */
  lemma CutAtFirstMatch(s: string, sep: string, start: nat, p: nat)
    requires start <= p && MatchesAt(s, sep, p)
    requires forall k: nat :: start <= k < p ==> !MatchesAt(s, sep, k)
    ensures forall k :: 0 <= k < p - start ==> !MatchesAt(s[start..p] + sep, sep, k)
  {
    var u := s[start..p] + sep;
    assert u == s[start..p + |sep|];
    forall k | 0 <= k < p - start
      ensures !MatchesAt(u, sep, k)
    {
      var inCut, inWhole := u[k..k + |sep|], s[start + k..start + k + |sep|];
      forall j | 0 <= j < |sep|
        ensures inCut[j] == inWhole[j]
      {
        assert u[k + j] == s[start + k + j];
      }
      assert inCut == inWhole;
      assert !MatchesAt(s, sep, start + k);
    }
  }

  /** Every character of a piece is a character of the joined string. */
  lemma {:induction false} CharsOfPieceInJoin(pieces: seq<string>, sep: string, i: nat, c: char)
    requires i < |pieces| && c in pieces[i]
    ensures c in Join(pieces, sep)
  {
    if |pieces| > 1 {
      if i > 0 {
        CharsOfPieceInJoin(pieces[1..], sep, i - 1, c);
      }
    }
  }

  /** The last index of `c` in `s`, or -1 when `c` does not occur. */
  function LastIndexOf(s: string, c: char): (r: int)
    ensures -1 <= r < |s|
    ensures r == -1 ==> c !in s
    ensures r != -1 ==> s[r] == c && c !in s[r + 1..]
  {
    if s == [] then -1
    else if s[|s| - 1] == c then |s| - 1
    else
      var r := LastIndexOf(s[..|s| - 1], c);
      assert r != -1 ==> s[r + 1..] == s[..|s| - 1][r + 1..] + [s[|s| - 1]];
      r
  }

  /** An occurrence of `c` with none after it is the last one. */
  lemma LastIndexOfIs(s: string, c: char, k: nat)
    requires k < |s| && s[k] == c && c !in s[k + 1..]
    ensures LastIndexOf(s, c) == k
  {
  }

  /** ASCII lower-casing of one character. */
  function LowerChar(c: char): char {
    if 'A' <= c <= 'Z' then (c as int + 32) as char else c
  }

  /** PHP's `strtolower` on ASCII text: every upper-case letter lowered, nothing else changed. */
  function ToLower(s: string): (r: string)
    ensures |r| == |s|
    ensures forall i :: 0 <= i < |s| ==> r[i] == LowerChar(s[i])
  {
    if s == [] then [] else [LowerChar(s[0])] + ToLower(s[1..])
  }

  /** Text without upper-case ASCII letters is unchanged by lower-casing. */
  lemma ToLowerOfLower(s: string)
    requires forall i :: 0 <= i < |s| ==> !('A' <= s[i] <= 'Z')
    ensures ToLower(s) == s
  {
  }
}
