/**
 * The string operations the catalogue code relies on: Python's `in` on
 * strings, `str.split(sep)[-1]`, `str.replace(old, '')`, `str.strip()` as
 * `float()` applies it, and `str.capitalize()` on a single character.
 * Python's `split`, `replace` and `count` all scan left to right and take
 * non-overlapping matches; `MatchAt` is that scan's one step.
 */
module Strings {

  /** ASCII whitespace, the characters `float()` ignores around a number. */
  predicate IsSpace(c: char) {
    c == ' ' || c == '\t' || c == '\n' || c == '\r' || c as int == 11 || c as int == 12
  }

  /** `str.capitalize()` applied to a one-character string (ASCII letters only). */
  function Capitalize(c: char): (r: char)
    ensures 'A' <= r <= 'Z' ==> ('A' <= c <= 'Z' || 'a' <= c <= 'z')
    ensures !('a' <= c <= 'z') ==> r == c
    ensures 'a' <= c <= 'z' ==> r as int == c as int - 32 && 'A' <= r <= 'Z'
  {
    if 'a' <= c <= 'z' then (c as int - 32) as char else c
  }

  /** `pat` occurs in `s` starting at index `i`. */
  predicate MatchAt(s: string, pat: string, i: int) {
    0 <= i && i + |pat| <= |s| && s[i..i + |pat|] == pat
  }

  /** Python's `pat in s`. */
  predicate Contains(s: string, pat: string)
    ensures |pat| == 0 ==> Contains(s, pat)
    ensures Contains(s, pat) ==> |pat| <= |s|
  {
    assert |pat| == 0 ==> MatchAt(s, pat, 0) by {
      if |pat| == 0 { assert s[0..0] == pat; }
    }
    exists i :: 0 <= i <= |s| - |pat| && MatchAt(s, pat, i)
  }

  predicate EndsWith(s: string, suffix: string) {
    |suffix| <= |s| && s[|s| - |suffix|..] == suffix
  }

  /** Python's `s[:-1]`, which is empty for an empty `s`. */
  function DropLast(s: string): (r: string)
    ensures |s| == 0 ==> r == []
    ensures |s| > 0 ==> |r| == |s| - 1 && r == s[..|s| - 1]
  {
    if |s| == 0 then s else s[..|s| - 1]
  }

  lemma ContainsChar(s: string, c: char)
    ensures Contains(s, [c]) <==> c in s
  {
    if c in s {
      var i :| 0 <= i < |s| && s[i] == c;
      assert MatchAt(s, [c], i);
    }
    if Contains(s, [c]) {
      var i :| 0 <= i <= |s| - 1 && MatchAt(s, [c], i);
      assert s[i] == s[i..i + 1][0] == c;
    }
  }

  // ---------------------------------------------------------------------
  // Whitespace stripping (`str.strip()`)
  // ---------------------------------------------------------------------

  function LeadingSpaces(s: string): (n: nat)
    ensures n <= |s|
  {
    if |s| > 0 && IsSpace(s[0]) then 1 + LeadingSpaces(s[1..]) else 0
  }

  function TrailingSpaces(s: string): (n: nat)
    ensures n <= |s|
  {
    if |s| > 0 && IsSpace(s[|s| - 1]) then 1 + TrailingSpaces(s[..|s| - 1]) else 0
  }

  /** `s.strip()`: `s` without the whitespace at either end. */
  function Strip(s: string): (r: string)
    ensures |r| <= |s|
  {
    var t := s[LeadingSpaces(s)..];
    t[..|t| - TrailingSpaces(t)]
  }

  /** `LeadingSpaces` counts exactly the whitespace run that starts `s`. */
  lemma {:induction false} LeadingSpacesShape(s: string)
    ensures forall i :: 0 <= i < LeadingSpaces(s) ==> IsSpace(s[i])
    ensures LeadingSpaces(s) < |s| ==> !IsSpace(s[LeadingSpaces(s)])
  {
    if |s| > 0 && IsSpace(s[0]) {
      LeadingSpacesShape(s[1..]);
    }
  }

  /** `TrailingSpaces` counts exactly the whitespace run that ends `s`. */
  lemma {:induction false} TrailingSpacesShape(s: string)
    ensures forall i :: |s| - TrailingSpaces(s) <= i < |s| ==> IsSpace(s[i])
    ensures TrailingSpaces(s) < |s| ==> !IsSpace(s[|s| - TrailingSpaces(s) - 1])
  {
    if |s| > 0 && IsSpace(s[|s| - 1]) {
      TrailingSpacesShape(s[..|s| - 1]);
    }
  }

  /** `Strip(s)` is the slice of `s` that starts after its leading whitespace. */
  lemma StripSlice(s: string)
    ensures LeadingSpaces(s) + |Strip(s)| <= |s|
    ensures Strip(s) == s[LeadingSpaces(s)..LeadingSpaces(s) + |Strip(s)|]
  {
    var a := LeadingSpaces(s);
    var t := s[a..];
    var r := t[..|t| - TrailingSpaces(t)];
    assert Strip(s) == r;
    assert r == s[a..a + |r|];
  }

  /** Whitespace followed by text that does not start with whitespace. */
  lemma {:induction false} LeadingSpacesPrefix(a: string, t: string)
    requires forall i :: 0 <= i < |a| ==> IsSpace(a[i])
    requires |t| > 0 && !IsSpace(t[0])
    ensures LeadingSpaces(a + t) == |a|
  {
    if |a| > 0 {
      assert (a + t)[1..] == a[1..] + t;
      LeadingSpacesPrefix(a[1..], t);
    } else {
      assert a + t == t;
    }
  }

  /** Text that does not end with whitespace, followed by whitespace. */
  lemma {:induction false} TrailingSpacesSuffix(t: string, b: string)
    requires forall i :: 0 <= i < |b| ==> IsSpace(b[i])
    requires |t| > 0 && !IsSpace(t[|t| - 1])
    ensures TrailingSpaces(t + b) == |b|
  {
    if |b| > 0 {
      assert (t + b)[..|t + b| - 1] == t + b[..|b| - 1];
      TrailingSpacesSuffix(t, b[..|b| - 1]);
    } else {
      assert t + b == t;
    }
  }

  /**
   * `Strip(s)` is the part of `s` that starts at `LeadingSpaces(s)`;
   * everything outside it is whitespace, and it neither starts nor ends
   * with whitespace.
   */
  lemma StripShape(s: string)
    ensures LeadingSpaces(s) + |Strip(s)| <= |s|
    ensures Strip(s) == s[LeadingSpaces(s)..LeadingSpaces(s) + |Strip(s)|]
    ensures forall i :: 0 <= i < LeadingSpaces(s) ==> IsSpace(s[i])
    ensures forall i :: LeadingSpaces(s) + |Strip(s)| <= i < |s| ==> IsSpace(s[i])
    ensures |Strip(s)| > 0 ==> !IsSpace(Strip(s)[0]) && !IsSpace(Strip(s)[|Strip(s)| - 1])
  {
    StripSlice(s);
    LeadingSpacesShape(s);
    var a, r := LeadingSpaces(s), Strip(s);
    var t := s[a..];
    TrailingSpacesShape(t);
    var b := TrailingSpaces(t);
    assert |r| == |t| - b;
    forall i | a + |r| <= i < |s| ensures IsSpace(s[i]) {
      assert s[i] == t[i - a];
    }
    if |r| > 0 {
      assert r[0] == s[a];
      assert r[|r| - 1] == t[|t| - b - 1];
    }
  }

  lemma StripUnpadded(s: string)
    requires |s| > 0 && !IsSpace(s[0]) && !IsSpace(s[|s| - 1])
    ensures Strip(s) == s
  {
    assert LeadingSpaces(s) == 0;
    assert s[0..] == s;
    assert TrailingSpaces(s) == 0;
  }

  // ---------------------------------------------------------------------
  // `s.split(sep)[-1]`
  // ---------------------------------------------------------------------

  /**
   * The scan behind `s.split(sep)`: from index `i`, with `last` the end of
   * the latest match found so far, returns where the final piece starts.
   */
  function LastPieceStart(s: string, sep: string, i: nat, last: nat): (p: nat)
    requires |sep| > 0 && last <= i <= |s|
    ensures last <= p <= |s|
    decreases |s| - i
  {
    if i + |sep| > |s| then last
    else if s[i..i + |sep|] == sep then LastPieceStart(s, sep, i + |sep|, i + |sep|)
    else LastPieceStart(s, sep, i + 1, last)
  }

  /**
   * If `last` is 0 or the end of a match and no match starts in
   * [`last`, `i`), the scan returns 0 or the end of a match, and no match
   * starts at or after that point.
   */
  lemma LastPieceStartShape(s: string, sep: string, i: nat, last: nat)
    requires |sep| > 0 && last <= i <= |s|
    requires last == 0 || (|sep| <= last && MatchAt(s, sep, last - |sep|))
    requires forall j :: last <= j < i ==> !MatchAt(s, sep, j)
    ensures var p := LastPieceStart(s, sep, i, last);
      (p == 0 || (|sep| <= p && MatchAt(s, sep, p - |sep|)))
      && forall j :: p <= j ==> !MatchAt(s, sep, j)
  {
    LastPieceStartEnds(s, sep, i, last);
    LastPieceStartAfter(s, sep, i, last);
  }

  /** The scan returns `last` or the end of a match. */
  lemma {:induction false} LastPieceStartEnds(s: string, sep: string, i: nat, last: nat)
    requires |sep| > 0 && last <= i <= |s|
    requires last == 0 || (|sep| <= last && MatchAt(s, sep, last - |sep|))
    ensures var p := LastPieceStart(s, sep, i, last);
      p == 0 || (|sep| <= p && MatchAt(s, sep, p - |sep|))
    decreases |s| - i
  {
    if i + |sep| > |s| {
    } else if s[i..i + |sep|] == sep {
      LastPieceStartEnds(s, sep, i + |sep|, i + |sep|);
    } else {
      LastPieceStartEnds(s, sep, i + 1, last);
    }
  }

  /** No match starts at or after the point the scan returns. */
  lemma {:induction false} LastPieceStartAfter(s: string, sep: string, i: nat, last: nat)
    requires |sep| > 0 && last <= i <= |s|
    requires forall j :: last <= j < i ==> !MatchAt(s, sep, j)
    ensures forall j :: LastPieceStart(s, sep, i, last) <= j ==> !MatchAt(s, sep, j)
    decreases |s| - i
  {
    if i + |sep| > |s| {
    } else if s[i..i + |sep|] == sep {
      LastPieceStartAfter(s, sep, i + |sep|, i + |sep|);
    } else {
      assert !MatchAt(s, sep, i);
      LastPieceStartAfter(s, sep, i + 1, last);
    }
  }

  /** `s.split(sep)[-1]`. */
  function LastPiece(s: string, sep: string): (r: string)
    requires |sep| > 0
    ensures EndsWith(s, r)
  {
    s[LastPieceStart(s, sep, 0, 0)..]
  }

  /**
   * `LastPiece` is the text after the last (left-to-right, non-overlapping)
   * occurrence of `sep`, or all of `s` when `sep` does not occur: a suffix
   * of `s` that does not contain `sep` and, when shorter than `s`, is
   * preceded by `sep`.
   */
  lemma LastPieceShape(s: string, sep: string)
    requires |sep| > 0
    ensures EndsWith(s, LastPiece(s, sep))
    ensures !Contains(LastPiece(s, sep), sep)
    ensures |LastPiece(s, sep)| < |s| ==> EndsWith(s[..|s| - |LastPiece(s, sep)|], sep)
    ensures !Contains(s, sep) ==> LastPiece(s, sep) == s
  {
    var p := LastPieceStart(s, sep, 0, 0);
    LastPieceStartShape(s, sep, 0, 0);
    forall j | MatchAt(s[p..], sep, j) ensures MatchAt(s, sep, p + j) {
      assert s[p + j..p + j + |sep|] == s[p..][j..j + |sep|];
    }
    assert p > 0 ==> Contains(s, sep);
    assert p > 0 ==> s[..p][p - |sep|..] == s[p - |sep|..p];
  }

  // ---------------------------------------------------------------------
  // `s.replace(pat, '')` and `s.count(pat)`
  // ---------------------------------------------------------------------

  /** `s.replace(pat, '')`: every non-overlapping occurrence of `pat` deleted. */
  function RemoveAll(s: string, pat: string): (r: string)
    ensures |r| <= |s|
    decreases |s|
  {
    if |pat| == 0 || |s| < |pat| then s
    else if s[..|pat|] == pat then RemoveAll(s[|pat|..], pat)
    else [s[0]] + RemoveAll(s[1..], pat)
  }

  /**
   * Which characters go: text in which no occurrence starts is kept, the
   * first occurrence after it is deleted, and the scan resumes after that
   * occurrence.
   */
  lemma {:induction false} RemoveAllSkips(a: string, pat: string, b: string)
    requires |pat| > 0 && forall j :: 0 <= j < |a| ==> !MatchAt(a + pat + b, pat, j)
    ensures RemoveAll(a + pat + b, pat) == a + RemoveAll(b, pat)
    decreases |a|
  {
    var s := a + pat + b;
    if |a| == 0 {
      assert s == pat + b && s[..|pat|] == pat && s[|pat|..] == b;
    } else {
      assert !MatchAt(s, pat, 0);
      assert s[1..] == a[1..] + pat + b;
      forall j | 0 <= j < |a| - 1 ensures !MatchAt(a[1..] + pat + b, pat, j) {
        assert !MatchAt(s, pat, j + 1);
        assert s[1..][j..j + |pat|] == s[j + 1..j + 1 + |pat|];
      }
      RemoveAllSkips(a[1..], pat, b);
      assert RemoveAll(s, pat) == [s[0]] + RemoveAll(s[1..], pat);
      assert [a[0]] + a[1..] == a;
    }
  }

  /** `s.count(pat)` for a non-empty `pat`: the occurrences `RemoveAll` deletes. */
  function CountMatches(s: string, pat: string): nat
    decreases |s|
  {
    if |pat| == 0 || |s| < |pat| then 0
    else if s[..|pat|] == pat then 1 + CountMatches(s[|pat|..], pat)
    else CountMatches(s[1..], pat)
  }

  lemma MulSucc(n: int, c: int)
    ensures n * (1 + c) == n + n * c
  {
  }

  /** Removing the occurrences shortens `s` by exactly `|pat|` per occurrence. */
  lemma {:induction false} RemoveAllLength(s: string, pat: string)
    ensures |RemoveAll(s, pat)| == |s| - |pat| * CountMatches(s, pat)
    decreases |s|
  {
    if |pat| == 0 || |s| < |pat| {
    } else if s[..|pat|] == pat {
      var t := s[|pat|..];
      RemoveAllLength(t, pat);
      var n, c := |pat|, CountMatches(t, pat);
      assert |RemoveAll(s, pat)| == |t| - n * c;
      assert CountMatches(s, pat) == 1 + c;
      MulSucc(n, c);
    } else {
      RemoveAllLength(s[1..], pat);
      assert |RemoveAll(s, pat)| == 1 + |RemoveAll(s[1..], pat)|;
      assert CountMatches(s, pat) == CountMatches(s[1..], pat);
    }
  }

  /** A string that does not contain `pat` is left as it is. */
  lemma {:induction false} RemoveAllAbsent(s: string, pat: string)
    requires !Contains(s, pat)
    ensures RemoveAll(s, pat) == s
    ensures CountMatches(s, pat) == 0
    decreases |s|
  {
    if |pat| > 0 && |s| >= |pat| {
      assert !MatchAt(s, pat, 0);
      forall j | 0 <= j <= |s[1..]| - |pat| && MatchAt(s[1..], pat, j)
        ensures false
      {
        assert s[1..][j..j + |pat|] == s[j + 1..j + 1 + |pat|];
        assert MatchAt(s, pat, j + 1);
      }
      RemoveAllAbsent(s[1..], pat);
    }
  }

  /** A non-empty `pat` is counted at least once exactly when it occurs. */
  lemma {:induction false} CountMatchesPositive(s: string, pat: string)
    requires |pat| > 0
    ensures CountMatches(s, pat) > 0 <==> Contains(s, pat)
    decreases |s|
  {
    if !Contains(s, pat) {
      RemoveAllAbsent(s, pat);
    } else if s[..|pat|] == pat {
    } else {
      var i :| 0 <= i <= |s| - |pat| && MatchAt(s, pat, i);
      assert i != 0;
      assert s[1..][i - 1..i - 1 + |pat|] == s[i..i + |pat|];
      assert MatchAt(s[1..], pat, i - 1);
      CountMatchesPositive(s[1..], pat);
    }
  }

  /**
   * Deleting the occurrences can join two pieces into a new one: "aabb"
   * without "ab" is "ab", which still contains the pattern.
   */
  lemma RemoveAllCanLeavePattern()
    ensures RemoveAll("aabb", "ab") == "ab"
    ensures Contains(RemoveAll("aabb", "ab"), "ab")
  {
    assert "aabb"[..2] == "aa";
    assert "aabb"[1..] == "abb";
    assert "abb"[..2] == "ab";
    assert "abb"[2..] == "b";
    assert RemoveAll("b", "ab") == "b";
    assert MatchAt("ab", "ab", 0);
  }

  /**
   * The scan takes occurrences left to right: in "===2M" the occurrence of
   * "==" at index 0 is taken, so the one at index 1 is not, and the last
   * piece is "=2M" rather than "2M".
   */
  lemma LastPieceLeftToRight()
    ensures LastPiece("===2M", "==") == "=2M"
  {
    var s := "===2M";
    assert s[0..2] == "==";
    assert s[2..4] != "==" by { assert s[3] == '2'; }
    assert s[3..5] != "==" by { assert s[3] == '2'; }
    assert LastPieceStart(s, "==", 0, 0) == 2;
    assert s[2..] == "=2M";
  }
}
