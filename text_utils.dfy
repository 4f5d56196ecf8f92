/**
 * The client's string helpers: truncation with an ellipsis, whitespace
 * cleaning, keyword extraction, regular-expression escaping, word
 * capitalisation, tag stripping and word counting. Each regular expression
 * of the source is written out as a character-level function.
 */
module TextUtils {
  import opened Text
  import opened Seqs

  /** Every character of `s` satisfies `P`. */
  predicate AllChars(s: string, P: char -> bool) {
    forall j :: 0 <= j < |s| ==> P(s[j])
  }

  predicate NoSpace(w: string) {
    forall j :: 0 <= j < |w| ==> !IsSpace(w[j])
  }

  // ---------------------------------------------------------------------------
  // truncateText
  // ---------------------------------------------------------------------------

  /** `u` occurs in `s` as one contiguous piece, with only whitespace around it. */
  ghost predicate IsTrimmedSliceOf(u: string, s: string) {
    exists k :: TrimmedSliceAt(u, s, k)
  }

  /** `u` occurs in `s` starting at position `k`. */
  predicate SliceAt(u: string, s: string, k: int) {
    0 <= k <= |s| - |u| && u == s[k..k + |u|]
  }

  /** `u` occurs in `s` at position `k`, and every character of `s` before and after it is whitespace. */
  predicate TrimmedSliceAt(u: string, s: string, k: int) {
    SliceAt(u, s, k)
    && (forall i :: 0 <= i < k ==> IsSpace(s[i]))
    && (forall i :: k + |u| <= i < |s| ==> IsSpace(s[i]))
  }

  /**
   * `truncateText(text, maxLength)`: a text that fits is returned as it is;
   * a longer one is cut to `maxLength` characters, trimmed, and given "...".
   */
  function TruncateText(text: string, maxLength: int): (r: string)
    ensures text == "" || |text| <= maxLength ==> r == text
    ensures text != "" && |text| > maxLength ==>
      |r| >= 3 && r[|r| - 3..] == "..."
      && |r| <= (if maxLength < 0 then 0 else maxLength) + 3
      && IsTrimmedSliceOf(r[..|r| - 3], Prefix(text, maxLength))
      && (|r| == 3 || (!IsSpace(r[0]) && !IsSpace(r[|r| - 4])))
  {
    if text == "" || |text| <= maxLength then text
    else
      var cut := Prefix(text, maxLength);
      EllipsisShape(cut);
      Trim(cut) + "..."
  }

  /** The trimmed cut with "..." appended: a slice of the cut with only whitespace around it, then the ellipsis. */
  lemma EllipsisShape(cut: string)
    ensures var r := Trim(cut) + "...";
      |r| >= 3 && r[|r| - 3..] == "..." && |r| <= |cut| + 3
      && IsTrimmedSliceOf(r[..|r| - 3], cut)
      && (|r| == 3 || (!IsSpace(r[0]) && !IsSpace(r[|r| - 4])))
  {
    var core := Trim(cut);
    TrimIsSlice(cut);
    var k := |cut| - |TrimStart(cut)|;
    assert TrimmedSliceAt(core, cut, k);
    assert (core + "...")[..|core|] == core;
  }

  // ---------------------------------------------------------------------------
  // cleanText
  // ---------------------------------------------------------------------------

  /**
   * The client's `cleanText`: the same replacement chain as the server's,
   * with an explicit empty-input guard; the two agree on every string.
   */
  function CleanText(text: string): (r: string)
    ensures r == Text.CleanText(text)
    ensures IsClean(r)
    ensures r == Join(Words(text), " ")
  {
    CleanTextIsJoinedWords(text);
    if text == "" then "" else Text.CleanText(text)
  }

  /** Cleaning twice is cleaning once. */
  lemma CleanTextIdempotent(text: string)
    ensures CleanText(CleanText(text)) == CleanText(text)
  {
    Text.CleanTextIdempotent(text);
  }

  // ---------------------------------------------------------------------------
  // split(/\s+/)
  // ---------------------------------------------------------------------------

  /**
   * `s.split(/\s+/)`: the pieces between maximal whitespace runs, with an
   * empty first (last) piece when `s` starts (ends) with whitespace.
   */
  function SplitOnWhitespace(s: string): (ws: seq<string>)
    ensures |ws| >= 1
    ensures forall i :: 0 <= i < |ws| ==> NoSpace(ws[i])
    decreases |s|
  {
    if s == [] then [""]
    else if IsSpace(s[0]) then [""] + SplitOnWhitespace(DropWhile(s, IsSpace))
    else
      var rest := SplitOnWhitespace(s[1..]);
      assert NoSpace([s[0]] + rest[0]) by { assert NoSpace(rest[0]); }
      [[s[0]] + rest[0]] + rest[1..]
  }

  lemma JoinConsFirst(c: char, ws: seq<string>, sep: string)
    requires |ws| >= 1
    ensures Join([[c] + ws[0]] + ws[1..], sep) == [c] + Join(ws, sep)
  {
    var v := [[c] + ws[0]] + ws[1..];
    assert v[1..] == ws[1..];
  }

  /** Joining the pieces with single spaces is `s.replace(/\s+/g, " ")`. */
  lemma {:induction false} JoinSplitOnWhitespace(s: string)
    ensures Join(SplitOnWhitespace(s), " ") == ReplaceRuns(s, IsSpace)
    decreases |s|
  {
    if s != [] {
      if IsSpace(s[0]) {
        var d := DropWhile(s, IsSpace);
        JoinSplitOnWhitespace(d);
        var ws := SplitOnWhitespace(d);
        assert ([""] + ws)[1..] == ws;
      } else {
        JoinSplitOnWhitespace(s[1..]);
        JoinConsFirst(s[0], SplitOnWhitespace(s[1..]), " ");
      }
    }
  }

  /** A word glued in front of `t` merges into the first piece of `t`. */
  lemma {:induction false} SplitWordThen(w: string, t: string)
    requires NoSpace(w)
    ensures var ws := SplitOnWhitespace(t);
      SplitOnWhitespace(w + t) == [w + ws[0]] + ws[1..]
  {
    if w != [] {
      var u := w[1..];
      var ws := SplitOnWhitespace(t);
      assert NoSpace(u) by { forall j | 0 <= j < |u| ensures !IsSpace(u[j]) { assert u[j] == w[j + 1]; } }
      SplitWordThen(u, t);
      var rest := SplitOnWhitespace(u + t);
      assert rest[0] == u + ws[0] && rest[1..] == ws[1..];
      SplitNonSpaceFirst(w + t);
      assert (w + t)[1..] == u + t && (w + t)[0] == w[0];
      assert SplitOnWhitespace(w + t) == [[w[0]] + rest[0]] + rest[1..];
      assert w == [w[0]] + u;
      assert [w[0]] + rest[0] == w + ws[0];
    } else {
      var ws := SplitOnWhitespace(t);
      assert w + t == t && w + ws[0] == ws[0];
      assert ws == [ws[0]] + ws[1..];
    }
  }

  /** A non-space first character joins the first piece of the rest. */
  lemma SplitNonSpaceFirst(s: string)
    requires s != [] && !IsSpace(s[0])
    ensures var rest := SplitOnWhitespace(s[1..]);
      SplitOnWhitespace(s) == [[s[0]] + rest[0]] + rest[1..]
  {
  }

  /** One space before a piece that starts with a non-space opens a new piece. */
  lemma SplitSpaceThen(t: string)
    requires t == [] || !IsSpace(t[0])
    ensures SplitOnWhitespace(" " + t) == [""] + SplitOnWhitespace(t)
  {
    assert DropWhile(" " + t, IsSpace) == t by {
      assert (" " + t)[1..] == t;
    }
  }

  /** The words of a sentence: non-empty, without whitespace. */
  predicate IsWordList(ws: seq<string>) {
    forall i :: 0 <= i < |ws| ==> ws[i] != "" && NoSpace(ws[i])
  }

  lemma JoinStartsWithFirst(ws: seq<string>, sep: string)
    requires |ws| >= 1
    ensures ws[0] <= Join(ws, sep)
  {
  }

  lemma {:induction false} JoinEndsWithLast(ws: seq<string>, sep: string)
    requires |ws| >= 1
    ensures var j := Join(ws, sep);
      |ws[|ws| - 1]| <= |j| && j[|j| - |ws[|ws| - 1]|..] == ws[|ws| - 1]
  {
    if |ws| > 1 {
      JoinEndsWithLast(ws[1..], sep);
      assert ws[1..][|ws[1..]| - 1] == ws[|ws| - 1];
      var j := Join(ws, sep);
      var rest := Join(ws[1..], sep);
      assert j == (ws[0] + sep) + rest;
      assert j[|j| - |rest|..] == rest;
    }
  }

  /** Splitting a single-spaced sentence gives its words back. */
  lemma {:induction false} SplitJoinWords(ws: seq<string>)
    requires |ws| >= 1 && IsWordList(ws)
    ensures SplitOnWhitespace(Join(ws, " ")) == ws
  {
    if |ws| == 1 {
      SplitWordThen(ws[0], "");
      assert ws[0] + "" == ws[0];
    } else {
      var rest := Join(ws[1..], " ");
      assert IsWordList(ws[1..]) by {
        forall i | 0 <= i < |ws| - 1 ensures ws[1..][i] != "" && NoSpace(ws[1..][i]) { assert ws[1..][i] == ws[i + 1]; }
      }
      SplitJoinWords(ws[1..]);
      JoinStartsWithFirst(ws[1..], " ");
      assert rest[0] == ws[1][0];
      SplitSpaceThen(rest);
      assert Join(ws, " ") == ws[0] + (" " + rest);
      SplitWordThen(ws[0], " " + rest);
      assert ws[0] + "" == ws[0];
    }
  }

  /** A piece of the split has only characters of `s`. */
  lemma {:induction false} SplitPiecesKeep(s: string, P: char -> bool)
    requires AllChars(s, P)
    ensures forall i :: 0 <= i < |SplitOnWhitespace(s)| ==> AllChars(SplitOnWhitespace(s)[i], P)
    decreases |s|
  {
    if s != [] {
      if IsSpace(s[0]) {
        var d := DropWhile(s, IsSpace);
        assert AllChars(d, P) by { forall j | 0 <= j < |d| ensures P(d[j]) { assert d[j] == s[|s| - |d| + j]; } }
        SplitPiecesKeep(d, P);
        var ws := SplitOnWhitespace(d);
        forall i | 0 <= i < |[""] + ws| ensures AllChars(([""] + ws)[i], P) {
          if i > 0 { assert ([""] + ws)[i] == ws[i - 1]; }
        }
      } else {
        var t := s[1..];
        assert AllChars(t, P) by { forall j | 0 <= j < |t| ensures P(t[j]) { assert t[j] == s[j + 1]; } }
        SplitPiecesKeep(t, P);
        var rest := SplitOnWhitespace(t);
        var ws := [[s[0]] + rest[0]] + rest[1..];
        forall i | 0 <= i < |ws| ensures AllChars(ws[i], P) {
          if i == 0 {
            assert AllChars(rest[0], P);
            forall j | 0 <= j < |ws[0]| ensures P(ws[0][j]) {
              if j > 0 { assert ws[0][j] == rest[0][j - 1]; }
            }
          } else {
            assert ws[i] == rest[i];
          }
        }
      }
    }
  }

  // ---------------------------------------------------------------------------
  // Words
  // ---------------------------------------------------------------------------

  predicate NonEmpty(w: string) { w != "" }

  /** The words of a text: the non-empty pieces of `split(/\s+/)`, in order. */
  function Words(s: string): (ws: seq<string>)
    ensures IsWordList(ws)
  {
    var pieces := SplitOnWhitespace(s);
    var ws := Filter(pieces, NonEmpty);
    SubseqMembers(ws, pieces);
    assert forall i :: 0 <= i < |ws| ==> ws[i] in pieces;
    ws
  }

  /** Filtering a list by its head and its tail. */
  lemma FilterByHead(ws: seq<string>)
    requires |ws| >= 1
    ensures Filter(ws, NonEmpty) == Filter([ws[0]], NonEmpty) + Filter(ws[1..], NonEmpty)
  {
    assert ws == [ws[0]] + ws[1..];
    FilterAppend([ws[0]], ws[1..], NonEmpty);
  }

  lemma NoWordsInEmptyPiece()
    ensures Filter([""], NonEmpty) == []
  {
    assert [""][..0] == [];
  }

  /** Piece `i` of `ws`, the split of `s`, is empty only as the first piece after leading whitespace or the last piece before trailing whitespace. */
  predicate EmptyOnlyAtEnd(s: string, ws: seq<string>, i: int)
    requires 0 <= i < |ws|
  {
    ws[i] == "" ==>
      (i == 0 && (s == [] || IsSpace(s[0]))) || (i == |ws| - 1 && (s == [] || IsSpace(s[|s| - 1])))
  }

  /** Only the first and the last piece of the split can be empty: the first when `s` starts with whitespace, the last when it ends with it. */
  lemma {:induction false} SplitEmptyPiecesAtEnds(s: string)
    ensures forall i :: 0 <= i < |SplitOnWhitespace(s)| ==> EmptyOnlyAtEnd(s, SplitOnWhitespace(s), i)
    decreases |s|
  {
    if s != [] {
      var ws := SplitOnWhitespace(s);
      if IsSpace(s[0]) {
        var d := DropWhile(s, IsSpace);
        SplitEmptyPiecesAtEnds(d);
        var ds := SplitOnWhitespace(d);
        assert ws == [""] + ds;
        forall i | 0 < i < |ws| && ws[i] == "" ensures i == |ws| - 1 && IsSpace(s[|s| - 1]) {
          assert ds[i - 1] == "" && EmptyOnlyAtEnd(d, ds, i - 1);
          if d == [] {
            assert ds == [""];
            assert 0 <= |s| - 1 < |s| - |d|;
          } else {
            assert !IsSpace(d[0]);
            assert i - 1 == |ds| - 1 && IsSpace(d[|d| - 1]);
            assert d[|d| - 1] == s[|s| - 1];
          }
        }
      } else {
        var t := s[1..];
        SplitEmptyPiecesAtEnds(t);
        var rest := SplitOnWhitespace(t);
        SplitNonSpaceFirst(s);
        assert ws == [[s[0]] + rest[0]] + rest[1..];
        assert t == [] ==> |rest| == 1;
        forall i | 0 < i < |ws| && ws[i] == "" ensures i == |ws| - 1 && IsSpace(s[|s| - 1]) {
          assert ws[i] == rest[i] && rest[i] == "" && EmptyOnlyAtEnd(t, rest, i);
          assert i == |rest| - 1 && (t == [] || IsSpace(t[|t| - 1]));
          assert t[|t| - 1] == s[|s| - 1];
        }
      }
    }
  }

  /** A text with non-space ends splits into words only. */
  lemma WordsOfTrimmed(t: string)
    requires t != [] && !IsSpace(t[0]) && !IsSpace(t[|t| - 1])
    ensures Words(t) == SplitOnWhitespace(t)
  {
    SplitEmptyPiecesAtEnds(t);
    var ws := SplitOnWhitespace(t);
    forall i | 0 <= i < |ws| ensures NonEmpty(ws[i]) {
      assert EmptyOnlyAtEnd(t, ws, i);
    }
    FilterAllPass(ws, NonEmpty);
  }

  /** Leading whitespace adds no word. */
  lemma WordsTrimStart(s: string)
    ensures Words(TrimStart(s)) == Words(s)
  {
    if s != [] && IsSpace(s[0]) {
      var d := DropWhile(s, IsSpace);
      var ds := SplitOnWhitespace(d);
      assert SplitOnWhitespace(s) == [""] + ds;
      FilterAppend([""], ds, NonEmpty);
      NoWordsInEmptyPiece();
    }
  }

  /** Dropping leading whitespace from a text with one more whitespace character at its end. */
  lemma {:induction false} DropWhileSnoc(t: string, c: char)
    requires IsSpace(c)
    ensures DropWhile(t, IsSpace) == [] ==> DropWhile(t + [c], IsSpace) == []
    ensures DropWhile(t, IsSpace) != [] ==> DropWhile(t + [c], IsSpace) == DropWhile(t, IsSpace) + [c]
    decreases |t|
  {
    var tc := t + [c];
    if t == [] {
      assert tc[1..] == [];
      assert DropWhile(tc, IsSpace) == DropWhile(tc[1..], IsSpace);
    } else if IsSpace(t[0]) {
      assert tc[0] == t[0] && tc[1..] == t[1..] + [c];
      DropWhileSnoc(t[1..], c);
      assert DropWhile(tc, IsSpace) == DropWhile(t[1..] + [c], IsSpace);
      assert DropWhile(t, IsSpace) == DropWhile(t[1..], IsSpace);
    } else {
      assert tc[0] == t[0];
    }
  }

  /** A whitespace character appended keeps the first piece and adds no word to the others. */
  lemma {:induction false} SplitSnocSpace(t: string, c: char)
    requires IsSpace(c)
    ensures SplitOnWhitespace(t + [c])[0] == SplitOnWhitespace(t)[0]
    ensures Filter(SplitOnWhitespace(t + [c])[1..], NonEmpty) == Filter(SplitOnWhitespace(t)[1..], NonEmpty)
    decreases |t|
  {
    NoWordsInEmptyPiece();
    if t == [] {
      assert DropWhile([c], IsSpace) == [] by {
        assert DropWhile([c], IsSpace) == DropWhile([c][1..], IsSpace);
        assert [c][1..] == [];
      }
      assert SplitOnWhitespace([c]) == ["", ""];
      assert SplitOnWhitespace([c])[1..] == [""];
      assert SplitOnWhitespace(t)[1..] == [];
    } else if IsSpace(t[0]) {
      var d := DropWhile(t, IsSpace);
      DropWhileSnoc(t, c);
      assert (t + [c])[0] == t[0];
      assert SplitOnWhitespace(t + [c]) == [""] + SplitOnWhitespace(DropWhile(t + [c], IsSpace));
      assert SplitOnWhitespace(t) == [""] + SplitOnWhitespace(d);
      if d != [] {
        SplitSnocSpace(d, c);
        FilterByHead(SplitOnWhitespace(d + [c]));
        FilterByHead(SplitOnWhitespace(d));
      }
    } else {
      var u := t[1..];
      SplitSnocSpace(u, c);
      assert (t + [c])[1..] == u + [c] && (t + [c])[0] == t[0];
      SplitNonSpaceFirst(t + [c]);
      SplitNonSpaceFirst(t);
      var r1, r2 := SplitOnWhitespace(u + [c]), SplitOnWhitespace(u);
      assert SplitOnWhitespace(t + [c])[1..] == r1[1..];
      assert SplitOnWhitespace(t)[1..] == r2[1..];
    }
  }

  /** Trailing whitespace adds no word. */
  lemma {:induction false} WordsAppendSpaces(t: string, w: string)
    requires AllChars(w, IsSpace)
    ensures Words(t + w) == Words(t)
    decreases |w|
  {
    if w != [] {
      var t1 := t + [w[0]];
      assert AllChars(w[1..], IsSpace) by {
        forall j | 0 <= j < |w[1..]| ensures IsSpace(w[1..][j]) { assert w[1..][j] == w[j + 1]; }
      }
      WordsAppendSpaces(t1, w[1..]);
      assert t + w == t1 + w[1..];
      SplitSnocSpace(t, w[0]);
      FilterByHead(SplitOnWhitespace(t1));
      FilterByHead(SplitOnWhitespace(t));
      assert Words(t1) == Words(t);
    } else {
      assert t + w == t;
    }
  }

  /** The trimmed text splits into exactly the words of the text, and blank text has none. */
  lemma TrimmedSplitIsWords(s: string)
    ensures Trim(s) == "" ==> Words(s) == []
    ensures Trim(s) != "" ==> SplitOnWhitespace(Trim(s)) == Words(s)
  {
    var ts, t := TrimStart(s), Trim(s);
    var k := |s| - |ts|;
    var tail := ts[|t|..];
    assert ts == t + tail;
    assert AllChars(tail, IsSpace) by {
      forall j | 0 <= j < |tail| ensures IsSpace(tail[j]) {
        assert tail[j] == s[k + |t| + j];
      }
    }
    WordsTrimStart(s);
    WordsAppendSpaces(t, tail);
    if t == "" {
      NoWordsInEmptyPiece();
    } else {
      WordsOfTrimmed(t);
    }
  }

  /** Collapsing whitespace runs leaves the split unchanged. */
  lemma {:induction false} SplitOfCollapsed(s: string)
    ensures SplitOnWhitespace(ReplaceRuns(s, IsSpace)) == SplitOnWhitespace(s)
    decreases |s|
  {
    if s != [] {
      if IsSpace(s[0]) {
        var d := DropWhile(s, IsSpace);
        SplitOfCollapsed(d);
        var rd := ReplaceRuns(d, IsSpace);
        assert rd == [] || !IsSpace(rd[0]);
        SplitSpaceThen(rd);
      } else {
        var x := ReplaceRuns(s[1..], IsSpace);
        SplitOfCollapsed(s[1..]);
        assert ([s[0]] + x)[1..] == x;
        SplitNonSpaceFirst([s[0]] + x);
      }
    }
  }

  /**
   * `cleanText` keeps the words of its input, in order, and joins them with
   * single spaces: it changes only the whitespace between and around them.
   */
  lemma CleanTextIsJoinedWords(s: string)
    ensures Text.CleanText(s) == Join(Words(s), " ")
  {
    var r := ReplaceRuns(s, IsSpace);
    RunsReplacedBySingleSpaces(s);
    NewlinesAlreadyGone(r);
    var c := Trim(r);
    assert Text.CleanText(s) == c;
    SplitOfCollapsed(s);
    TrimmedSplitIsWords(r);
    if c != "" {
      JoinSplitOnWhitespace(c);
      SingleSpacedUnchanged(c);
    }
  }

  // ---------------------------------------------------------------------------
  // extractKeywords
  // ---------------------------------------------------------------------------

  /** The characters `replace(/[^\w\s]/g, "")` keeps. */
  predicate KeptInKeywords(c: char) { IsWordChar(c) || IsSpace(c) }

  /** `word.length > 3`. */
  predicate LongWord(w: string) { |w| > 3 }

  /** A keyword character: a word character that is not an upper-case letter. */
  predicate KeywordChar(c: char) { IsWordChar(c) && !IsAsciiUpper(c) }

  /** A set of strings keys each string by itself. */
  function Itself(w: string): string { w }

  /** The words of `text` longer than three characters, lower-cased, with punctuation dropped. */
  function LongWords(text: string): seq<string> {
    Filter(SplitOnWhitespace(Filter(ToLower(text), KeptInKeywords)), LongWord)
  }

  /** `extractKeywords(text)`: the distinct long words, in order of first appearance. */
  function ExtractKeywords(text: string): (r: seq<string>)
    ensures text == "" ==> r == []
    ensures forall i :: 0 <= i < |r| ==> |r[i]| > 3
    ensures forall i, j :: 0 <= i < j < |r| ==> r[i] != r[j]
    ensures IsSubseq(r, LongWords(text))
  {
    if text == "" then []
    else
      DedupLongWords(LongWords(text));
      Dedup(LongWords(text), Itself)
  }

  /** De-duplicating words longer than 3 keeps distinct words longer than 3, in order. */
  lemma DedupLongWords(words: seq<string>)
    requires forall i :: 0 <= i < |words| ==> LongWord(words[i])
    ensures var r := Dedup(words, Itself);
      (forall i :: 0 <= i < |r| ==> |r[i]| > 3)
      && (forall i, j :: 0 <= i < j < |r| ==> r[i] != r[j])
      && IsSubseq(r, words)
  {
    var r := Dedup(words, Itself);
    DedupSubseq(words, Itself);
    SubseqMembers(r, words);
    DedupDistinct(words, Itself);
    forall i | 0 <= i < |r| ensures |r[i]| > 3 {
      assert r[i] in words;
    }
    forall i, j | 0 <= i < j < |r| ensures r[i] != r[j] {
      assert Itself(r[i]) != Itself(r[j]);
    }
  }

  /** `a` appears in `words` before the first appearance of `b`. */
  predicate AppearsBefore(words: seq<string>, a: string, b: string) {
    exists n :: 0 <= n <= |words| && a in words[..n] && b !in words[..n]
  }

  lemma KeySetOfItself(s: seq<string>, w: string)
    ensures w in KeySet(s, Itself) <==> w in s
  {
    if w in KeySet(s, Itself) {
      var i :| 0 <= i < |s| && Itself(s[i]) == w;
    }
  }

  /** Every long word of the text is made of keyword characters. */
  lemma LongWordsChars(text: string)
    ensures forall i :: 0 <= i < |LongWords(text)| ==> AllChars(LongWords(text)[i], KeywordChar)
  {
    var lowered := ToLower(text);
    var kept := Filter(lowered, KeptInKeywords);
    SubseqMembers(kept, lowered);
    var P := (c: char) => KeywordChar(c) || IsSpace(c);
    assert AllChars(kept, P) by {
      forall j | 0 <= j < |kept| ensures P(kept[j]) {
        assert kept[j] in lowered;
        var k :| 0 <= k < |lowered| && lowered[k] == kept[j];
        assert KeptInKeywords(kept[j]);
      }
    }
    SplitPiecesKeep(kept, P);
    var pieces := SplitOnWhitespace(kept);
    var long := Filter(pieces, LongWord);
    SubseqMembers(long, pieces);
    forall i | 0 <= i < |long| ensures AllChars(long[i], KeywordChar) {
      assert long[i] in pieces;
      var k :| 0 <= k < |pieces| && pieces[k] == long[i];
      assert AllChars(pieces[k], P) && NoSpace(pieces[k]);
    }
  }

  /**
   * The keywords are lower-case words of more than three characters, no two
   * alike, every long word of the text among them, in order of first appearance.
   */
  lemma ExtractKeywordsProperties(text: string)
    ensures var r := ExtractKeywords(text);
      (forall i :: 0 <= i < |r| ==> |r[i]| > 3 && AllChars(r[i], KeywordChar))
      && (forall i, j :: 0 <= i < j < |r| ==> r[i] != r[j])
      && (text != "" ==> forall w :: w in r <==> w in LongWords(text))
      && (forall i, j :: 0 <= i < j < |r| ==> AppearsBefore(LongWords(text), r[i], r[j]))
  {
    if text != "" {
      var words := LongWords(text);
      var r := Dedup(words, Itself);
      LongWordsChars(text);
      DedupSubseq(words, Itself);
      SubseqMembers(r, words);
      forall i | 0 <= i < |r| ensures |r[i]| > 3 && AllChars(r[i], KeywordChar) {
        assert r[i] in words;
        var k :| 0 <= k < |words| && words[k] == r[i];
      }
      DedupDistinct(words, Itself);
      forall i, j | 0 <= i < j < |r| ensures r[i] != r[j] {
        assert Itself(r[i]) != Itself(r[j]);
      }
      DedupKeySet(words, Itself);
      forall w ensures w in r <==> w in words {
        KeySetOfItself(r, w);
        KeySetOfItself(words, w);
      }
      DedupFirstOccurrenceOrder(words, Itself);
      forall i, j | 0 <= i < j < |r| ensures AppearsBefore(words, r[i], r[j]) {
        assert KeySeenBefore(words, Itself, r[i], r[j]);
        var n :| 0 <= n <= |words| && r[i] in KeySet(words[..n], Itself) && r[j] !in KeySet(words[..n], Itself);
        KeySetOfItself(words[..n], r[i]);
        KeySetOfItself(words[..n], r[j]);
      }
    }
  }

  // ---------------------------------------------------------------------------
  // escapeRegExp
  // ---------------------------------------------------------------------------

  /** The class `[.*+?^${}()|[\]\\]`. */
  predicate IsRegExpMeta(c: char) {
    c == '.' || c == '*' || c == '+' || c == '?' || c == '^' || c == '$' || c == '{' || c == '}'
    || c == '(' || c == ')' || c == '|' || c == '[' || c == ']' || c == '\\'
  }

  /** `escapeRegExp(s)`: a backslash before every metacharacter; one character longer per metacharacter. */
  function EscapeRegExp(s: string): (r: string)
    ensures |r| == |s| + |Filter(s, IsRegExpMeta)|
  {
    if s == [] then []
    else
      FilterConsLength(s[0], s[1..], IsRegExpMeta);
      assert [s[0]] + s[1..] == s;
      (if IsRegExpMeta(s[0]) then ['\\', s[0]] else [s[0]]) + EscapeRegExp(s[1..])
  }

  /** Reading an escaped pattern back: a backslash stands for the character after it. */
  function Unescape(t: string): string
    decreases |t|
  {
    if t == [] then []
    else if t[0] == '\\' && |t| >= 2 then [t[1]] + Unescape(t[2..])
    else [t[0]] + Unescape(t[1..])
  }

  /** Escaping loses nothing: every character is recovered. */
  lemma {:induction false} UnescapeEscapeRegExp(s: string)
    ensures Unescape(EscapeRegExp(s)) == s
  {
    if s != [] {
      UnescapeEscapeRegExp(s[1..]);
      var t := EscapeRegExp(s);
      if IsRegExpMeta(s[0]) {
        assert t[2..] == EscapeRegExp(s[1..]);
      } else {
        assert t[0] != '\\' && t[1..] == EscapeRegExp(s[1..]);
      }
    }
  }

  // ---------------------------------------------------------------------------
  // capitalizeWords
  // ---------------------------------------------------------------------------

  /**
   * `\b\w` matches at position `i`: a word character whose predecessor is not
   * one; `prevWord` says whether the character before `s` is one.
   */
  predicate WordStartAt(s: string, i: int, prevWord: bool)
    requires 0 <= i < |s|
  {
    IsWordChar(s[i]) && !(if i == 0 then prevWord else IsWordChar(s[i - 1]))
  }

  /** The left-to-right replacement of `/\b\w/g`, after a character that is (`prevWord`) or is not a word character. */
  function CapitalizeFrom(s: string, prevWord: bool): (r: string)
    ensures |r| == |s|
    ensures forall i :: 0 <= i < |s| ==> r[i] == (if WordStartAt(s, i, prevWord) then ToUpperChar(s[i]) else s[i])
  {
    if s == [] then []
    else
      var rest := CapitalizeFrom(s[1..], IsWordChar(s[0]));
      var r := [if IsWordChar(s[0]) && !prevWord then ToUpperChar(s[0]) else s[0]] + rest;
      assert forall i :: 1 <= i < |s| ==> WordStartAt(s, i, prevWord) == WordStartAt(s[1..], i - 1, IsWordChar(s[0]));
      assert forall i :: 1 <= i < |s| ==> r[i] == rest[i - 1];
      r
  }

  /** `capitalizeWords(text)`: the first letter of every word upper-cased, nothing else changed. */
  function CapitalizeWords(text: string): (r: string)
    ensures |r| == |text|
    ensures forall i :: 0 <= i < |text| ==> r[i] == (if WordStartAt(text, i, false) then ToUpperChar(text[i]) else text[i])
  {
    if text == "" then "" else CapitalizeFrom(text, false)
  }

  /** Capitalising twice is capitalising once: the word starts do not move. */
  lemma CapitalizeWordsIdempotent(text: string)
    ensures CapitalizeWords(CapitalizeWords(text)) == CapitalizeWords(text)
  {
    var r := CapitalizeWords(text);
    var rr := CapitalizeWords(r);
    forall i | 0 <= i < |r| ensures rr[i] == r[i] {
      assert IsWordChar(r[i]) <==> IsWordChar(text[i]);
      if i > 0 { assert IsWordChar(r[i - 1]) <==> IsWordChar(text[i - 1]); }
      assert WordStartAt(r, i, false) == WordStartAt(text, i, false);
    }
  }

  // ---------------------------------------------------------------------------
  // removeHtmlTags
  // ---------------------------------------------------------------------------

  /**
   * `removeHtmlTags(text)`: `text.replace(/<[^>]*>/g, "")`, scanning left to
   * right; a `<` with no `>` after it stays. The empty text gives "".
   */
  function RemoveHtmlTags(s: string): (r: string)
    ensures |r| <= |s|
    ensures forall i :: 0 <= i < |r| ==> r[i] in s
    ensures '<' !in s ==> r == s
    decreases |s|
  {
    if s == [] then []
    else if s[0] == '<' then
      match IndexOf(s[1..], ">")
      case Some(j) => RemoveHtmlTags(s[1..][j + 1..])
      case None => [s[0]] + RemoveHtmlTags(s[1..])
    else [s[0]] + RemoveHtmlTags(s[1..])
  }

  /** No `<` is followed, anywhere later, by a `>`: nothing tag-like is left. */
  predicate TagFree(r: string) {
    forall i, j :: 0 <= i < j < |r| && r[i] == '<' ==> r[j] != '>'
  }

  lemma CloseFound(u: string)
    ensures IndexOf(u, ">").Some? ==> '>' in u
  {
    var r := IndexOf(u, ">");
    if r.Some? {
      assert u[r.value..][..1] == ">";
      assert u[r.value] == '>';
    }
  }

  lemma NoMatchNoClose(u: string)
    requires IndexOf(u, ">").None?
    ensures '>' !in u
  {
    forall k | 0 <= k < |u| ensures u[k] != '>' {
      assert !MatchesAt(u, ">", k);
      assert u[k..][..1] == [u[k]];
    }
  }

  lemma {:induction false} RemoveHtmlTagsLeavesNoTag(s: string)
    ensures TagFree(RemoveHtmlTags(s))
    decreases |s|
  {
    if s != [] {
      var t := s[1..];
      if s[0] == '<' && IndexOf(t, ">").Some? {
        RemoveHtmlTagsLeavesNoTag(t[IndexOf(t, ">").value + 1..]);
      } else {
        RemoveHtmlTagsLeavesNoTag(t);
        var rest := RemoveHtmlTags(t);
        var r := [s[0]] + rest;
        if s[0] == '<' {
          NoMatchNoClose(t);
        }
        forall i, j | 0 <= i < j < |r| && r[i] == '<' ensures r[j] != '>' {
          assert r[j] == rest[j - 1];
          if i > 0 { assert r[i] == rest[i - 1]; }
        }
      }
    }
  }

  /** A text without tags is left as it is. */
  lemma {:induction false} RemoveHtmlTagsOfTagFree(s: string)
    requires TagFree(s)
    ensures RemoveHtmlTags(s) == s
    decreases |s|
  {
    if s != [] {
      var t := s[1..];
      assert TagFree(t) by {
        forall i, j | 0 <= i < j < |t| && t[i] == '<' ensures t[j] != '>' { assert s[i + 1] == t[i] && s[j + 1] == t[j]; }
      }
      RemoveHtmlTagsOfTagFree(t);
      if s[0] == '<' {
        assert '>' !in t by {
          forall j | 0 <= j < |t| ensures t[j] != '>' { assert s[j + 1] == t[j]; }
        }
        CloseFound(t);
      }
    }
  }

  /** Stripping twice is stripping once. */
  lemma RemoveHtmlTagsIdempotent(s: string)
    ensures RemoveHtmlTags(RemoveHtmlTags(s)) == RemoveHtmlTags(s)
  {
    RemoveHtmlTagsLeavesNoTag(s);
    RemoveHtmlTagsOfTagFree(RemoveHtmlTags(s));
  }

  // ---------------------------------------------------------------------------
  // countWords
  // ---------------------------------------------------------------------------

  /** `countWords(text)`: the number of pieces of the trimmed text split on whitespace. */
  function CountWords(text: string): (n: nat)
    ensures n == 0 <==> text == ""
    ensures text != "" && Trim(text) == "" ==> n == 1
    ensures Trim(text) != "" ==> n == |Words(text)|
  {
    TrimmedSplitIsWords(text);
    if text == "" then 0 else |SplitOnWhitespace(Trim(text))|
  }

  /** A sentence of words joined by single spaces has as many words as were joined. */
  lemma CountWordsOfSentence(ws: seq<string>)
    requires |ws| >= 1 && IsWordList(ws)
    ensures CountWords(Join(ws, " ")) == |ws|
  {
    var j := Join(ws, " ");
    JoinStartsWithFirst(ws, " ");
    JoinEndsWithLast(ws, " ");
    var last := ws[|ws| - 1];
    assert j[|j| - 1] == last[|last| - 1] by {
      assert j[|j| - |last|..][|last| - 1] == j[|j| - 1];
    }
    assert j[0] == ws[0][0];
    TrimOfTrimmed(j);
    SplitJoinWords(ws);
  }
}
