/**
 * String primitives shared by the server-side extraction engine and the client
 * helpers: JavaScript's whitespace classes, ASCII case mapping, `trim`,
 * `indexOf`, `split` on a literal separator, and the whitespace-normalising
 * `cleanText` used by both sides.
 */
module Text {
  import opened Wrappers

  /** The code points JavaScript's `\s` matches; `String.prototype.trim` removes exactly these. */
  predicate IsSpace(c: char) {
    c == '\t' || c == '\n' || c == '\U{000B}' || c == '\U{000C}' || c == '\r' || c == ' '
    || c == '\U{00A0}' || c == '\U{1680}' || ('\U{2000}' <= c <= '\U{200A}')
    || c == '\U{2028}' || c == '\U{2029}' || c == '\U{202F}' || c == '\U{205F}'
    || c == '\U{3000}' || c == '\U{FEFF}'
  }

  /** Line terminators: the characters a regular-expression `.` does not match. */
  predicate IsLineTerminator(c: char) {
    c == '\n' || c == '\r' || c == '\U{2028}' || c == '\U{2029}'
  }

  predicate IsNewline(c: char) { c == '\n' }

  predicate IsAsciiUpper(c: char) { 'A' <= c <= 'Z' }
  predicate IsAsciiLower(c: char) { 'a' <= c <= 'z' }
  predicate IsAsciiLetter(c: char) { IsAsciiUpper(c) || IsAsciiLower(c) }
  predicate IsDigit(c: char) { '0' <= c <= '9' }
  predicate IsAlphanumeric(c: char) { IsAsciiLetter(c) || IsDigit(c) }

  /** The regular-expression class `\w`. */
  predicate IsWordChar(c: char) { IsAlphanumeric(c) || c == '_' }

  function ToLowerChar(c: char): (r: char)
    ensures !IsAsciiUpper(r)
    ensures IsSpace(r) <==> IsSpace(c)
    ensures IsWordChar(r) <==> IsWordChar(c)
  {
    if IsAsciiUpper(c) then (c as int + 32) as char else c
  }

  function ToUpperChar(c: char): (r: char)
    ensures !IsAsciiLower(r)
    ensures IsWordChar(r) <==> IsWordChar(c)
  {
    if IsAsciiLower(c) then (c as int - 32) as char else c
  }

  /** `toLowerCase`, on the ASCII letters. */
  function ToLower(s: string): (r: string)
    ensures |r| == |s|
    ensures forall i :: 0 <= i < |s| ==> r[i] == ToLowerChar(s[i])
  {
    seq(|s|, i requires 0 <= i < |s| => ToLowerChar(s[i]))
  }

  predicate StartsWith(s: string, prefix: string) {
    |prefix| <= |s| && s[..|prefix|] == prefix
  }

  /** The longest suffix of `s` that does not start with a character satisfying `p`. */
  function DropWhile(s: string, p: char -> bool): (r: string)
    ensures |r| <= |s| && r == s[|s| - |r|..]
    ensures r == [] || !p(r[0])
    ensures forall i :: 0 <= i < |s| - |r| ==> p(s[i])
  {
    if s != [] && p(s[0]) then DropWhile(s[1..], p) else s
  }

  /** `trimStart`: drops the leading whitespace. */
  function TrimStart(s: string): (r: string)
    ensures |r| <= |s| && r == s[|s| - |r|..]
    ensures r == [] || !IsSpace(r[0])
    ensures forall i :: 0 <= i < |s| - |r| ==> IsSpace(s[i])
  {
    DropWhile(s, IsSpace)
  }

  /** `trimEnd`: drops the trailing whitespace. */
  function TrimEnd(s: string): (r: string)
    ensures |r| <= |s| && r == s[..|r|]
    ensures r == [] || !IsSpace(r[|r| - 1])
    ensures forall i :: |r| <= i < |s| ==> IsSpace(s[i])
  {
    if s != [] && IsSpace(s[|s| - 1]) then TrimEnd(s[..|s| - 1]) else s
  }

  /** `trim`: the substring left after removing whitespace at both ends. */
  function Trim(s: string): (r: string)
    ensures |r| <= |s|
    ensures r == [] || (!IsSpace(r[0]) && !IsSpace(r[|r| - 1]))
    ensures |r| <= |TrimStart(s)| && r == s[|s| - |TrimStart(s)|..][..|r|]
    ensures forall i :: 0 <= i < |s| - |TrimStart(s)| ==> IsSpace(s[i])
    ensures forall i :: |s| - |TrimStart(s)| + |r| <= i < |s| ==> IsSpace(s[i])
  {
    var t := TrimStart(s);
    var r := TrimEnd(t);
    assert forall i :: |s| - |t| + |r| <= i < |s| ==> s[i] == t[i - (|s| - |t|)];
    r
  }

  lemma TrimOfTrimmed(s: string)
    requires s == [] || (!IsSpace(s[0]) && !IsSpace(s[|s| - 1]))
    ensures Trim(s) == s
  {
  }

  /** `s.replace(/X+/g, " ")` where `inRun` is the class X: every maximal run becomes one space. */
  function ReplaceRuns(s: string, inRun: char -> bool): string
    decreases |s|
  {
    if s == [] then []
    else if inRun(s[0]) then " " + ReplaceRuns(DropWhile(s, inRun), inRun)
    else [s[0]] + ReplaceRuns(s[1..], inRun)
  }

  /** Every space is U+0020 and no two spaces are adjacent. */
  ghost predicate SingleSpaced(t: string) {
    (forall i :: 0 <= i < |t| && IsSpace(t[i]) ==> t[i] == ' ')
    && forall i :: 0 <= i < |t| - 1 ==> !SpacePairAt(t, i)
  }

  /** Positions `i` and `i + 1` both hold whitespace. */
  ghost predicate SpacePairAt(t: string, i: int)
    requires 0 <= i < |t| - 1
  {
    IsSpace(t[i]) && IsSpace(t[i + 1])
  }

  /** What `cleanText` produces: single-spaced, with no whitespace at either end. */
  ghost predicate IsClean(t: string) {
    (t == [] || (!IsSpace(t[0]) && !IsSpace(t[|t| - 1]))) && SingleSpaced(t)
  }

  lemma SingleSpacedCons(c: char, t: string)
    requires SingleSpaced(t)
    requires IsSpace(c) ==> c == ' ' && (t == [] || !IsSpace(t[0]))
    ensures SingleSpaced([c] + t)
  {
    var u := [c] + t;
    forall i | 0 <= i < |u| && IsSpace(u[i]) ensures u[i] == ' ' {
      if i > 0 { assert u[i] == t[i - 1]; }
    }
    forall i | 0 <= i < |u| - 1 ensures !SpacePairAt(u, i) {
      assert u[i + 1] == t[i];
      if i > 0 { assert u[i] == t[i - 1] && !SpacePairAt(t, i - 1); }
    }
  }

  lemma {:induction false} RunsReplacedBySingleSpaces(s: string)
    ensures SingleSpaced(ReplaceRuns(s, IsSpace))
    decreases |s|
  {
    if s == [] {
    } else if IsSpace(s[0]) {
      var d := DropWhile(s, IsSpace);
      RunsReplacedBySingleSpaces(d);
      var t := ReplaceRuns(d, IsSpace);
      assert t == [] || t[0] == d[0];
      SingleSpacedCons(' ', t);
    } else {
      RunsReplacedBySingleSpaces(s[1..]);
      SingleSpacedCons(s[0], ReplaceRuns(s[1..], IsSpace));
    }
  }

  /** A lone space at the head of `t` is replaced by itself. */
  lemma ReplaceRunsLoneSpace(t: string)
    requires t != [] && t[0] == ' ' && (|t| > 1 ==> !IsSpace(t[1]))
    ensures ReplaceRuns(t, IsSpace) == " " + ReplaceRuns(t[1..], IsSpace)
  {
    assert DropWhile(t[1..], IsSpace) == t[1..];
  }

  lemma {:induction false} SingleSpacedUnchanged(t: string)
    requires SingleSpaced(t)
    ensures ReplaceRuns(t, IsSpace) == t
    decreases |t|
  {
    if t != [] {
      var rest := t[1..];
      assert SingleSpaced(rest) by {
        SubstringSingleSpaced(t, 1, |t| - 1);
        assert t[1..|t|] == rest;
      }
      SingleSpacedUnchanged(rest);
      if IsSpace(t[0]) {
        assert |t| > 1 ==> !IsSpace(t[1]) by {
          if |t| > 1 { assert !SpacePairAt(t, 0); }
        }
        ReplaceRunsLoneSpace(t);
      }
      assert t == [t[0]] + rest;
    }
  }

  lemma {:induction false} NoRunUnchanged(t: string, inRun: char -> bool)
    requires forall i :: 0 <= i < |t| ==> !inRun(t[i])
    ensures ReplaceRuns(t, inRun) == t
    decreases |t|
  {
    if t != [] {
      NoRunUnchanged(t[1..], inRun);
    }
  }

  lemma SubstringSingleSpaced(t: string, k: nat, n: nat)
    requires k + n <= |t| && SingleSpaced(t)
    ensures SingleSpaced(t[k..k + n])
  {
    var u := t[k..k + n];
    forall i | 0 <= i < |u| && IsSpace(u[i]) ensures u[i] == ' ' {
      assert u[i] == t[k + i];
    }
    forall i | 0 <= i < |u| - 1 ensures !SpacePairAt(u, i) {
      assert u[i] == t[k + i] && u[i + 1] == t[k + i + 1];
      assert !SpacePairAt(t, k + i);
    }
  }

  /**
   * `cleanText`: `text.replace(/\s+/g, " ").replace(/\n+/g, " ").trim()`.
   * The second replacement never finds a newline left by the first.
   */
  function CleanText(s: string): (r: string)
    ensures IsClean(r)
  {
    CleanedIsClean(s);
    Trim(ReplaceRuns(ReplaceRuns(s, IsSpace), IsNewline))
  }

  lemma CleanedIsClean(s: string)
    ensures IsClean(Trim(ReplaceRuns(ReplaceRuns(s, IsSpace), IsNewline)))
  {
    var spaced := ReplaceRuns(s, IsSpace);
    RunsReplacedBySingleSpaces(s);
    NewlinesAlreadyGone(spaced);
    TrimKeepsSingleSpaced(spaced);
  }

  /** After the first replacement no newline is left, so the second one changes nothing. */
  lemma NewlinesAlreadyGone(spaced: string)
    requires SingleSpaced(spaced)
    ensures ReplaceRuns(spaced, IsNewline) == spaced
  {
    forall i | 0 <= i < |spaced| ensures !IsNewline(spaced[i]) {
      if IsNewline(spaced[i]) { assert IsSpace(spaced[i]); }
    }
    NoRunUnchanged(spaced, IsNewline);
  }

  /** What `trim` leaves is one contiguous slice of its input. */
  lemma TrimIsSlice(t: string)
    ensures |t| - |TrimStart(t)| + |Trim(t)| <= |t|
    ensures Trim(t) == t[|t| - |TrimStart(t)|..|t| - |TrimStart(t)| + |Trim(t)|]
  {
    var r, ts := Trim(t), TrimStart(t);
    var k := |t| - |ts|;
    assert ts == t[k..];
    assert r == ts[..|r|];
  }

  lemma TrimKeepsSingleSpaced(t: string)
    requires SingleSpaced(t)
    ensures IsClean(Trim(t))
  {
    TrimIsSlice(t);
    SubstringSingleSpaced(t, |t| - |TrimStart(t)|, |Trim(t)|);
  }

  lemma CleanTextOfClean(t: string)
    requires IsClean(t)
    ensures CleanText(t) == t
  {
    SingleSpacedUnchanged(t);
    NoRunUnchanged(t, IsNewline);
    TrimOfTrimmed(t);
  }

  /** Cleaning twice is cleaning once. */
  lemma CleanTextIdempotent(s: string)
    ensures CleanText(CleanText(s)) == CleanText(s)
  {
    CleanTextOfClean(CleanText(s));
  }

  /** `pat` occurs in `s` starting at position `j`. */
  predicate MatchesAt(s: string, pat: string, j: int) {
    0 <= j <= |s| && StartsWith(s[j..], pat)
  }

  /** Index of the first occurrence of `pat` in `s`, as `indexOf` finds it. */
  function IndexOf(s: string, pat: string): (r: Option<nat>)
    ensures r.Some? ==> r.value + |pat| <= |s| && MatchesAt(s, pat, r.value)
    ensures r.Some? ==> forall j :: 0 <= j < r.value ==> !MatchesAt(s, pat, j)
    ensures r.None? ==> forall j :: 0 <= j <= |s| ==> !MatchesAt(s, pat, j)
    decreases |s|
  {
    if StartsWith(s, pat) then Some(0)
    else if s == [] then None
    else
      assert forall j :: 1 <= j <= |s| ==> (MatchesAt(s, pat, j) <==> MatchesAt(s[1..], pat, j - 1)) by {
        forall j | 1 <= j <= |s| ensures MatchesAt(s, pat, j) <==> MatchesAt(s[1..], pat, j - 1) {
          assert s[j..] == s[1..][j - 1..];
        }
      }
      match IndexOf(s[1..], pat)
      case None => None
      case Some(i) => Some(i + 1)
  }

  /** `s.includes(pat)`. */
  predicate Contains(s: string, pat: string) {
    IndexOf(s, pat).Some?
  }

  /** `s.split(sep)` for a non-empty literal separator. */
  function Split(s: string, sep: string): (parts: seq<string>)
    requires sep != []
    ensures |parts| >= 1
    ensures |parts| > 1 <==> Contains(s, sep)
    ensures forall k :: 0 <= k < |parts| ==> !Contains(parts[k], sep)
    decreases |s|
  {
    match IndexOf(s, sep)
    case None => [s]
    case Some(i) =>
      NoMatchBeforeFirst(s, sep, i);
      [s[..i]] + Split(s[i + |sep|..], sep)
  }

  /** The text before the first occurrence of a non-empty pattern does not contain it. */
  lemma NoMatchBeforeFirst(s: string, sep: string, i: nat)
    requires sep != [] && IndexOf(s, sep) == Some(i)
    ensures !Contains(s[..i], sep)
  {
    var u := s[..i];
    forall j | 0 <= j <= |u| ensures !MatchesAt(u, sep, j) {
      if j + |sep| <= |u| {
        assert u[j..][..|sep|] == s[j..j + |sep|];
        assert s[j..][..|sep|] == s[j..j + |sep|];
        assert j < i && !MatchesAt(s, sep, j);
      }
    }
  }

  /** `parts.join(sep)`. */
  function Join(parts: seq<string>, sep: string): string {
    if parts == [] then []
    else if |parts| == 1 then parts[0]
    else parts[0] + sep + Join(parts[1..], sep)
  }

  /** Joining the pieces of a split with the same separator gives the original string back. */
  lemma {:induction false} SplitJoin(s: string, sep: string)
    requires sep != []
    ensures Join(Split(s, sep), sep) == s
    decreases |s|
  {
    match IndexOf(s, sep)
    case None =>
    case Some(i) =>
      var rest := s[i + |sep|..];
      SplitJoin(rest, sep);
      assert s == s[..i] + sep + rest;
  }

  /** `s.replace(pat, rep)` with a string pattern: only the first occurrence is replaced. */
  function ReplaceFirst(s: string, pat: string, rep: string): (r: string)
    ensures !Contains(s, pat) ==> r == s
    ensures Contains(s, pat) ==> |r| == |s| - |pat| + |rep|
    ensures forall i ::
              MatchesAt(s, pat, i) && (forall j :: 0 <= j < i ==> !MatchesAt(s, pat, j)) ==>
                i + |pat| <= |s| && r == s[..i] + rep + s[i + |pat|..]
  {
    match IndexOf(s, pat)
    case None => s
    case Some(i) => s[..i] + rep + s[i + |pat|..]
  }

  /** Shortest of a string and its first `n` characters: `s.substring(0, n)` for `n >= 0`. */
  function Prefix(s: string, n: int): string
  {
    if n <= 0 then [] else if n < |s| then s[..n] else s
  }
}
