// TextProcessor: newline-based sentence segmentation, the tagged
// "【句子】" encoding and its parser, HTML/whitespace cleanup and the
// counting language detector.

module TextProcessor {
  import opened Wrappers
  import opened Strings

  /** Sentences are the trimmed, non-empty, newline-free lines of a text. */
  predicate IsSentence(s: string)
  {
    s != [] && IsTrimmed(s) && '\n' !in s
  }

  /** Each line trimmed, blank lines dropped, input order kept. */
  function NonBlankLines(lines: seq<string>): (r: seq<string>)
    requires forall k :: 0 <= k < |lines| ==> '\n' !in lines[k]
    ensures |r| <= |lines|
    ensures forall k :: 0 <= k < |r| ==> IsSentence(r[k])
  {
    if lines == [] then []
    else
      var t := Trim(lines[0]);
      TrimKeepsAbsent(lines[0], '\n');
      (if t != [] then [t] else []) + NonBlankLines(lines[1..])
  }

  /** `splitIntoSentences`: "" for blank text, otherwise the non-blank lines trimmed. */
  function SplitIntoSentences(text: string): (r: seq<string>)
    ensures IsBlank(text) ==> r == []
    ensures forall k :: 0 <= k < |r| ==> IsSentence(r[k])
  {
    if IsBlank(text) then [] else NonBlankLines(Split(text, '\n'))
  }

  lemma {:induction false} NonBlankLinesOfBlank(lines: seq<string>)
    requires forall k :: 0 <= k < |lines| ==> '\n' !in lines[k]
    requires forall k :: 0 <= k < |lines| ==> IsBlank(lines[k])
    ensures NonBlankLines(lines) == []
  {
    if lines != [] {
      TrimEmptyIffBlank(lines[0]);
      NonBlankLinesOfBlank(lines[1..]);
    }
  }

  lemma {:induction false} SplitOfBlankIsBlank(s: string, c: char)
    requires IsBlank(s)
    ensures forall k :: 0 <= k < |Split(s, c)| ==> IsBlank(Split(s, c)[k])
    decreases |s|
  {
    var i := FindChar(s, c);
    if i < |s| {
      SplitOfBlankIsBlank(s[i + 1..], c);
      assert IsBlank(s[..i]);
    }
  }

  /** The blank-text guard is redundant: the result is always the non-blank lines, trimmed, in order. */
  lemma SentencesAreNonBlankLines(text: string)
    ensures SplitIntoSentences(text) == NonBlankLines(Split(text, '\n'))
  {
    if IsBlank(text) {
      SplitOfBlankIsBlank(text, '\n');
      NonBlankLinesOfBlank(Split(text, '\n'));
    }
  }

  lemma {:induction false} NonBlankLinesOfSentences(xs: seq<string>)
    requires forall k :: 0 <= k < |xs| ==> '\n' !in xs[k] && IsSentence(xs[k])
    ensures NonBlankLines(xs) == xs
  {
    if xs != [] {
      TrimOfTrimmed(xs[0]);
      NonBlankLinesOfSentences(xs[1..]);
    }
  }

  /** Segmenting the segmenter's own output, joined by "\n", gives it back. */
  lemma SplitIntoSentencesIdempotent(text: string)
    ensures SplitIntoSentences(Join(SplitIntoSentences(text), "\n")) == SplitIntoSentences(text)
  {
    var xs := SplitIntoSentences(text);
    if xs == [] {
      assert Join(xs, "\n") == "";
    } else {
      var joined := Join(xs, "\n");
      SplitJoin(xs, '\n');
      NonBlankLinesOfSentences(xs);
      JoinStartsWithFirst(xs, "\n");
      assert joined[0] == xs[0][0];
      assert !IsBlank(joined) by { assert !IsWhitespace(joined[0]); }
    }
  }

  lemma {:induction false} JoinStartsWithFirst(xs: seq<string>, sep: string)
    requires |xs| >= 1
    ensures StartsWith(Join(xs, sep), xs[0])
  {
  }

  // ---------------------------------------------------------------------
  // Tagged encoding: "【句子】" + sentence, one per line, and its parser.

  const SentenceTag: string := "【句子】"

  /** Every sentence prefixed with the tag. */
  function Tagged(sentences: seq<string>): (r: seq<string>)
    ensures |r| == |sentences|
    ensures forall k :: 0 <= k < |r| ==> r[k] == SentenceTag + sentences[k]
  {
    if sentences == [] then [] else [SentenceTag + sentences[0]] + Tagged(sentences[1..])
  }

  /** `prepareForTranslation`. */
  function PrepareForTranslation(sentences: seq<string>): string
  {
    Join(Tagged(sentences), "\n")
  }

  /** What one line of a translation result contributes, if anything. */
  function ParseResultLine(line: string): (r: Option<string>)
    ensures r.Some? ==> r.value != []
    ensures var t := Trim(line);
      StartsWith(t, "【") && '】' !in t ==> r == None
    ensures var t := Trim(line);
      !StartsWith(t, "【") ==> r == (if t == [] then None else Some(t))
  {
    var t := Trim(line);
    if StartsWith(t, "【") && '】' in t then
      var content := Trim(t[FindChar(t, '】') + 1..]);
      if content != [] then Some(content) else None
    else if t != [] && !StartsWith(t, "【") then Some(t)
    else None
  }

  function Contribution(line: string): seq<string>
  {
    match ParseResultLine(line)
    case Some(s) => [s]
    case None => []
  }

  function ParseResultLines(lines: seq<string>): (r: seq<string>)
    ensures forall k :: 0 <= k < |r| ==> r[k] != []
  {
    if lines == [] then [] else ParseResultLines(lines[..|lines| - 1]) + Contribution(lines[|lines| - 1])
  }

  /** The sentences `parseTranslationResult` extracts from a model reply. */
  function ParsedTranslation(text: string): seq<string>
  {
    ParseResultLines(Split(text, '\n'))
  }

  /** `parseTranslationResult`: a loop that appends each line's contribution. */
  method ParseTranslationResult(translatedText: string) returns (sentences: seq<string>)
    ensures sentences == ParsedTranslation(translatedText)
  {
    var lines := Split(translatedText, '\n');
    sentences := [];
    var i := 0;
    while i < |lines|
      invariant 0 <= i <= |lines|
      invariant sentences == ParseResultLines(lines[..i])
    {
      assert lines[..i + 1][..i] == lines[..i];
      match ParseResultLine(lines[i]) {
        case Some(content) => sentences := sentences + [content];
        case None =>
      }
      i := i + 1;
    }
    assert lines[..i] == lines;
  }

  lemma ParseTaggedSentence(x: string)
    requires IsSentence(x)
    ensures ParseResultLine(SentenceTag + x) == Some(x)
  {
    var t := SentenceTag + x;
    assert IsTrimmed(t) by {
      assert t[0] == '【';
      assert t[|t| - 1] == x[|x| - 1];
    }
    TrimOfTrimmed(t);
    assert t[3] == '】';
    assert FindChar(t, '】') == 3 by {
      assert t[0] != '】' && t[1] != '】' && t[2] != '】';
    }
    assert t[4..] == x;
    TrimOfTrimmed(x);
  }

  /** Lines that each contribute exactly one given sentence parse to those sentences. */
  lemma {:induction false} ParseOneEach(lines: seq<string>, xs: seq<string>)
    requires |lines| == |xs|
    requires forall k :: 0 <= k < |lines| ==> Contribution(lines[k]) == [xs[k]]
    ensures ParseResultLines(lines) == xs
  {
    if lines != [] {
      var n := |lines| - 1;
      forall k | 0 <= k < n ensures Contribution(lines[..n][k]) == [xs[..n][k]] {
        assert lines[..n][k] == lines[k] && xs[..n][k] == xs[k];
      }
      ParseOneEach(lines[..n], xs[..n]);
      assert ParseResultLines(lines) == xs[..n] + Contribution(lines[n]);
      InitLast(xs);
    }
  }

  lemma ParseTaggedLines(xs: seq<string>)
    requires forall k :: 0 <= k < |xs| ==> IsSentence(xs[k])
    ensures ParseResultLines(Tagged(xs)) == xs
  {
    var t := Tagged(xs);
    forall k | 0 <= k < |xs| ensures Contribution(t[k]) == [xs[k]] {
      ParseTaggedSentence(xs[k]);
    }
    ParseOneEach(t, xs);
  }

  /** Decoding the tagged encoding gives back sentences such as those `splitIntoSentences` produces. */
  lemma PrepareParseRoundTrip(xs: seq<string>)
    requires forall k :: 0 <= k < |xs| ==> IsSentence(xs[k])
    ensures ParsedTranslation(PrepareForTranslation(xs)) == xs
  {
    var tagged := Tagged(xs);
    if xs == [] {
      assert PrepareForTranslation(xs) == "";
      assert Split("", '\n') == [""];
    } else {
      forall k | 0 <= k < |tagged| ensures '\n' !in tagged[k] {
        assert tagged[k] == SentenceTag + xs[k];
        assert '\n' !in SentenceTag;
      }
      SplitJoin(tagged, '\n');
      ParseTaggedLines(xs);
    }
  }

  // ---------------------------------------------------------------------
  // cleanText: tags and entities become " ", `\s+` becomes " ", ends stripped.

  /** Regular expression `<[^>]+>` replaced by " ", leftmost match first. */
  function RemoveTags(s: string): (r: string)
    ensures |r| <= |s|
    ensures '<' !in s ==> r == s
    ensures forall c :: c in r ==> c in s || c == ' '
    decreases |s|
  {
    if |s| == 0 then s
    else if s[0] == '<' && |s| >= 3 && s[1] != '>' && FindChar(s[2..], '>') < |s| - 2 then
      " " + RemoveTags(s[2 + FindChar(s[2..], '>') + 1..])
    else [s[0]] + RemoveTags(s[1..])
  }

  function LetterRun(s: string): (n: nat)
    ensures n <= |s|
    ensures forall i :: 0 <= i < n ==> IsAsciiLetter(s[i])
    ensures n < |s| ==> !IsAsciiLetter(s[n])
  {
    if |s| > 0 && IsAsciiLetter(s[0]) then 1 + LetterRun(s[1..]) else 0
  }

  /** Regular expression `&[a-zA-Z]+;` replaced by " ". */
  function RemoveEntities(s: string): (r: string)
    ensures |r| <= |s|
    ensures '&' !in s ==> r == s
    ensures forall c :: c in r ==> c in s || c == ' '
    decreases |s|
  {
    if |s| == 0 then s
    else if s[0] == '&' && 1 <= LetterRun(s[1..]) && 1 + LetterRun(s[1..]) < |s| && s[1 + LetterRun(s[1..])] == ';' then
      " " + RemoveEntities(s[2 + LetterRun(s[1..])..])
    else [s[0]] + RemoveEntities(s[1..])
  }

  /** A match of `<[^>]+>` from index i to index j. */
  predicate TagAt(s: string, i: int, j: int)
  {
    0 <= i && i + 1 < j < |s| && s[i] == '<' && s[j] == '>'
    && forall k :: i < k < j ==> s[k] != '>'
  }

  /** The replacement " " never forms a new tag: no match is left. */
  lemma {:induction false} RemoveTagsLeavesNoTag(s: string)
    ensures forall i, j :: !TagAt(RemoveTags(s), i, j)
    decreases |s|
  {
    var r := RemoveTags(s);
    if |s| == 0 {
    } else if s[0] == '<' && |s| >= 3 && s[1] != '>' && FindChar(s[2..], '>') < |s| - 2 {
      var rest := s[2 + FindChar(s[2..], '>') + 1..];
      RemoveTagsLeavesNoTag(rest);
      assert r[1..] == RemoveTags(rest);
      forall i, j ensures !TagAt(r, i, j) {
        TagShift(r, i, j);
      }
    } else {
      RemoveTagsLeavesNoTag(s[1..]);
      assert r[1..] == RemoveTags(s[1..]);
      NoTagAtStart(s);
      forall i, j ensures !TagAt(r, i, j) {
        if i >= 1 {
          TagShift(r, i, j);
        }
      }
    }
  }

  lemma TagShift(r: string, i: int, j: int)
    requires |r| > 0
    ensures TagAt(r, i, j) && i >= 1 ==> TagAt(r[1..], i - 1, j - 1)
  {
    if TagAt(r, i, j) && i >= 1 {
      forall k | i - 1 < k < j - 1 ensures r[1..][k] != '>' {
        assert r[1..][k] == r[k + 1];
      }
    }
  }

  /** Where no tag starts at s[0], none starts at the head of the result. */
  lemma NoTagAtStart(s: string)
    requires |s| > 0
    requires !(s[0] == '<' && |s| >= 3 && s[1] != '>' && FindChar(s[2..], '>') < |s| - 2)
    ensures forall j :: !TagAt(RemoveTags(s), 0, j)
  {
    var r := RemoveTags(s);
    assert r == [s[0]] + RemoveTags(s[1..]);
    if s[0] == '<' && |s| >= 3 {
      if s[1] == '>' {
        assert RemoveTags(s[1..])[0] == '>';
        assert r[1] == '>';
      } else {
        var t := s[2..];
        assert '>' !in t;
        assert s[3..] == t[1..];
        assert '>' !in s[3..];
        assert RemoveTags(s[1..]) == [s[1]] + RemoveTags(t);
        forall j | 2 <= j < |r| ensures r[j] != '>' {
          assert r[j] in RemoveTags(t);
        }
      }
    }
  }

  /** A match of `&[a-zA-Z]+;` from index i to index j. */
  predicate EntityAt(s: string, i: int, j: int)
  {
    0 <= i && i + 1 < j < |s| && s[i] == '&' && s[j] == ';'
    && forall k :: i < k < j ==> IsAsciiLetter(s[k])
  }

  /** The replacement " " never forms a new entity: no match is left. */
  lemma {:induction false} RemoveEntitiesLeavesNoEntity(s: string)
    ensures forall i, j :: !EntityAt(RemoveEntities(s), i, j)
    decreases |s|
  {
    var r := RemoveEntities(s);
    if |s| == 0 {
    } else if s[0] == '&' && 1 <= LetterRun(s[1..]) && 1 + LetterRun(s[1..]) < |s| && s[1 + LetterRun(s[1..])] == ';' {
      var rest := s[2 + LetterRun(s[1..])..];
      RemoveEntitiesLeavesNoEntity(rest);
      assert r[1..] == RemoveEntities(rest);
      forall i, j ensures !EntityAt(r, i, j) {
        EntityShift(r, i, j);
      }
    } else {
      RemoveEntitiesLeavesNoEntity(s[1..]);
      assert r[1..] == RemoveEntities(s[1..]);
      NoEntityAtStart(s);
      forall i, j ensures !EntityAt(r, i, j) {
        if i >= 1 {
          EntityShift(r, i, j);
        }
      }
    }
  }

  lemma EntityShift(r: string, i: int, j: int)
    requires |r| > 0
    ensures EntityAt(r, i, j) && i >= 1 ==> EntityAt(r[1..], i - 1, j - 1)
  {
    if EntityAt(r, i, j) && i >= 1 {
      forall k | i - 1 < k < j - 1 ensures IsAsciiLetter(r[1..][k]) {
        assert r[1..][k] == r[k + 1];
      }
    }
  }

  /** A head that is not the replacement " " was copied from the input. */
  lemma EntityHead(x: string)
    requires |RemoveEntities(x)| > 0 && RemoveEntities(x)[0] != ' '
    ensures |x| > 0 && x[0] == RemoveEntities(x)[0]
    ensures RemoveEntities(x)[1..] == RemoveEntities(x[1..])
  {
  }

  /** `[a-zA-Z]{m};` at the start of s. */
  predicate LettersThenSemicolon(s: string, m: nat)
  {
    m < |s| && s[m] == ';' && forall k :: 0 <= k < m ==> IsAsciiLetter(s[k])
  }

  lemma LettersThenSemicolonTail(s: string, m: nat)
    requires m > 0 && LettersThenSemicolon(s, m)
    ensures IsAsciiLetter(s[0]) && LettersThenSemicolon(s[1..], m - 1)
  {
    forall k | 0 <= k < m - 1 ensures IsAsciiLetter(s[1..][k]) {
      assert s[1..][k] == s[k + 1];
    }
  }

  lemma LettersThenSemicolonCons(s: string, m: nat)
    requires m > 0 && |s| > 0 && IsAsciiLetter(s[0]) && LettersThenSemicolon(s[1..], m - 1)
    ensures LettersThenSemicolon(s, m)
  {
    forall k | 0 <= k < m ensures IsAsciiLetter(s[k]) {
      if k > 0 {
        assert s[k] == s[1..][k - 1];
      }
    }
  }

  /** Letters then ';' in the result were letters then ';' in the input. */
  lemma {:induction false} LettersKept(x: string, m: nat)
    requires LettersThenSemicolon(RemoveEntities(x), m)
    ensures LettersThenSemicolon(x, m)
    decreases m
  {
    var r := RemoveEntities(x);
    assert r[0] == ';' || IsAsciiLetter(r[0]);
    EntityHead(x);
    if m > 0 {
      LettersThenSemicolonTail(r, m);
      LettersKept(x[1..], m - 1);
      LettersThenSemicolonCons(x, m);
    }
  }

  /** Where no entity starts at s[0], none starts at the head of the result. */
  lemma NoEntityAtStart(s: string)
    requires |s| > 0
    requires !(s[0] == '&' && 1 <= LetterRun(s[1..]) && 1 + LetterRun(s[1..]) < |s| && s[1 + LetterRun(s[1..])] == ';')
    ensures forall j :: !EntityAt(RemoveEntities(s), 0, j)
  {
    assert RemoveEntities(s) == [s[0]] + RemoveEntities(s[1..]);
    forall j | EntityAt(RemoveEntities(s), 0, j) ensures false {
      EntityAtHead(s, j);
    }
  }

  /** An entity at the head of the copied-head result was an entity at the head of s. */
  lemma EntityAtHead(s: string, j: int)
    requires |s| > 0 && EntityAt([s[0]] + RemoveEntities(s[1..]), 0, j)
    ensures s[0] == '&' && 1 <= LetterRun(s[1..]) && 1 + LetterRun(s[1..]) < |s| && s[1 + LetterRun(s[1..])] == ';'
  {
    var t := s[1..];
    var r := [s[0]] + RemoveEntities(t);
    assert r[1..] == RemoveEntities(t);
    forall k | 0 <= k < j - 1 ensures IsAsciiLetter(r[1..][k]) {
      assert r[1..][k] == r[k + 1];
    }
    LettersKept(t, j - 1);
    LetterRunExact(t, j - 1);
  }

  lemma LetterRunExact(t: string, m: nat)
    requires m < |t| && !IsAsciiLetter(t[m])
    requires forall k :: 0 <= k < m ==> IsAsciiLetter(t[k])
    ensures LetterRun(t) == m
  {
  }

  function SpaceRun(s: string): (n: nat)
    ensures n <= |s|
    ensures forall i :: 0 <= i < n ==> IsRegexSpace(s[i])
    ensures n < |s| ==> !IsRegexSpace(s[n])
  {
    if |s| > 0 && IsRegexSpace(s[0]) then 1 + SpaceRun(s[1..]) else 0
  }

  /** No two adjacent `\s` characters, and the only `\s` character used is ' '. */
  predicate SpacesCollapsed(s: string)
  {
    (forall i :: 0 <= i < |s| ==> IsRegexSpace(s[i]) ==> s[i] == ' ')
    && (forall i :: 0 <= i < |s| - 1 ==> !(IsRegexSpace(s[i]) && IsRegexSpace(s[i + 1])))
  }

  /** Regular expression `\s+` replaced by " ". */
  function CollapseSpaces(s: string): (r: string)
    ensures SpacesCollapsed(r)
    ensures |s| > 0 && !IsRegexSpace(s[0]) ==> |r| > 0 && r[0] == s[0]
    decreases |s|
  {
    if |s| == 0 then s
    else if IsRegexSpace(s[0]) then " " + CollapseSpaces(s[SpaceRun(s)..])
    else [s[0]] + CollapseSpaces(s[1..])
  }

  function TrailingSpaceRun(s: string): (n: nat)
    ensures n <= |s|
    ensures n < |s| ==> !IsRegexSpace(s[|s| - n - 1])
  {
    if |s| > 0 && IsRegexSpace(s[|s| - 1]) then 1 + TrailingSpaceRun(s[..|s| - 1]) else 0
  }

  /** Every character of `s[lo..hi]` is `\s`. */
  predicate SpaceBetween(s: string, lo: int, hi: int)
    requires 0 <= lo <= hi <= |s|
  {
    forall k :: lo <= k < hi ==> IsRegexSpace(s[k])
  }

  /** The trailing `\s` run of `s[lo..hi]`, read in `s`. */
  lemma {:induction false} TrailingRunIsSpace(s: string, lo: int, hi: int)
    requires 0 <= lo <= hi <= |s|
    ensures TrailingSpaceRun(s[lo..hi]) <= hi - lo
    ensures SpaceBetween(s, hi - TrailingSpaceRun(s[lo..hi]), hi)
    decreases hi - lo
  {
    var b := s[lo..hi];
    if |b| > 0 && IsRegexSpace(b[|b| - 1]) {
      assert b[..|b| - 1] == s[lo..hi - 1];
      TrailingRunIsSpace(s, lo, hi - 1);
    }
  }

  /**
   * A line terminator that `\s` does not cover. Without MULTILINE, `$` also
   * matches just before such a character when it ends the input.
   */
  predicate IsFinalTerminator(c: char)
  {
    IsLineTerminator(c) && !IsRegexSpace(c)
  }

  /**
   * `r` is `s` without the `\s` run `s[..i]` and without the `\s` run that
   * follows `s[i..j]`, which either ends `s` or ends just before a final
   * terminator that `r` keeps.
   */
  predicate StrippedAt(s: string, r: string, i: int, j: int)
  {
    0 <= i <= j <= |s| && SpaceBetween(s, 0, i)
    && ((r == s[i..j] && SpaceBetween(s, j, |s|))
        || (j < |s| && IsFinalTerminator(s[|s| - 1]) && r == s[i..j] + [s[|s| - 1]] && SpaceBetween(s, j, |s| - 1)))
  }

  /**
   * Both removed runs are maximal: `r` neither starts with `\s` nor ends
   * with it, except that a final terminator of `s` outside `\s` is kept as
   * the last character of `r`, and then the character before it is not `\s`.
   */
  predicate EndsKept(s: string, r: string)
  {
    (|r| > 0 ==> !IsRegexSpace(r[0]))
    && (|s| > 0 && IsFinalTerminator(s[|s| - 1]) ==>
          |r| > 0 && r[|r| - 1] == s[|s| - 1] && (|r| >= 2 ==> !IsRegexSpace(r[|r| - 2])))
    && ((|s| == 0 || !IsFinalTerminator(s[|s| - 1])) && |r| > 0 ==> !IsRegexSpace(r[|r| - 1]))
  }

  /**
   * Regular expression `^\s+|\s+$` replaced by "": a leading `\s` run goes,
   * and so does the `\s` run at the end, or the one just before a final
   * line terminator that is not itself `\s` (which stays).
   */
  function StripSpaceEnds(s: string): (r: string)
    ensures exists i, j :: StrippedAt(s, r, i, j)
    ensures EndsKept(s, r)
  {
    var i := SpaceRun(s);
    var hi := if i < |s| && IsFinalTerminator(s[|s| - 1]) then |s| - 1 else |s|;
    var j := hi - TrailingSpaceRun(s[i..hi]);
    var r := if hi < |s| then s[i..j] + [s[|s| - 1]] else s[i..j];
    StripRuns(s, i, j, hi);
    StrippedBetween(s, i, j, hi, r);
    r
  }

  /** The trailing `\s` run of `s[i..hi]` is `s[j..hi]`, and it cannot be longer. */
  lemma StripRuns(s: string, i: int, j: int, hi: int)
    requires 0 <= i <= hi <= |s|
    requires j == hi - TrailingSpaceRun(s[i..hi])
    ensures i <= j <= hi
    ensures SpaceBetween(s, j, hi) && (j > i ==> !IsRegexSpace(s[j - 1]))
  {
    TrailingRunIsSpace(s, i, hi);
    var b := s[i..hi];
    var k := |b| - TrailingSpaceRun(b) - 1;
    if k >= 0 {
      assert !IsRegexSpace(b[k]);
      assert b[k] == s[i + k];
    }
  }

  /** The text kept between a leading `\s` run `s[..i]` and a trailing `\s` run `s[j..hi]`. */
  lemma StrippedBetween(s: string, i: int, j: int, hi: int, r: string)
    requires 0 <= i <= j <= hi <= |s|
    requires forall k :: 0 <= k < i ==> IsRegexSpace(s[k])
    requires i < |s| ==> !IsRegexSpace(s[i])
    requires SpaceBetween(s, j, hi) && (j > i ==> !IsRegexSpace(s[j - 1]))
    requires hi == if i < |s| && IsFinalTerminator(s[|s| - 1]) then |s| - 1 else |s|
    requires r == if hi < |s| then s[i..j] + [s[|s| - 1]] else s[i..j]
    ensures StrippedAt(s, r, i, j)
    ensures EndsKept(s, r)
  {
    if hi < |s| {
      assert |r| >= 2 ==> r[|r| - 2] == s[j - 1];
    } else {
      assert |r| > 0 ==> r[|r| - 1] == s[j - 1];
    }
    assert StrippedAt(s, r, i, j);
  }

  /** Stripping keeps spaces collapsed: the kept terminator is not `\s`. */
  lemma StrippedCollapsed(s: string)
    requires SpacesCollapsed(s)
    ensures SpacesCollapsed(StripSpaceEnds(s))
  {
    var r := StripSpaceEnds(s);
    var i, j :| StrippedAt(s, r, i, j);
    if r == s[i..j] {
      CollapsedSlice(s, r, i);
    } else {
      CollapsedWithTerminator(s, i, j);
    }
  }

  /** A slice of a space-collapsed text followed by its final terminator is space-collapsed. */
  lemma CollapsedWithTerminator(s: string, i: int, j: int)
    requires SpacesCollapsed(s) && 0 <= i <= j < |s| && IsFinalTerminator(s[|s| - 1])
    ensures SpacesCollapsed(s[i..j] + [s[|s| - 1]])
  {
    CollapsedSlice(s, s[i..j], i);
    var r := s[i..j] + [s[|s| - 1]];
    assert forall k :: 0 <= k < j - i ==> r[k] == s[i + k];
  }

  /** A space before a final U+0085 goes, and the U+0085 stays: `trim()` does not remove it either. */
  lemma CleanTextBeforeFinalNel()
    ensures CleanText("a \U{85}") == "a\U{85}"
  {
    var raw := "a \U{85}";
    var t := "a\U{85}";
    NelTagsAndEntities();
    NelCollapse();
    var collapsed := CollapseSpaces(RemoveEntities(RemoveTags(raw)));
    assert collapsed == raw;
    NelStrip();
    assert StripSpaceEnds(collapsed) == t;
    NelTrimmed();
    TrimOfTrimmed(t);
  }

  /** U+0085 is not whitespace for Kotlin's `trim`. */
  lemma NelTrimmed()
    ensures IsTrimmed("a\U{85}")
  {
    var c: char := '\U{85}';
    assert !IsWhitespace(c);
    assert "a\U{85}"[1] == c;
  }

  lemma NelTagsAndEntities()
    ensures RemoveEntities(RemoveTags("a \U{85}")) == "a \U{85}"
  {
    var s := "a \U{85}";
    assert RemoveTags(s[2..]) == s[2..];
    assert RemoveTags(s[1..]) == s[1..];
    assert RemoveEntities(s[2..]) == s[2..];
    assert RemoveEntities(s[1..]) == s[1..];
  }

  lemma NelCollapse()
    ensures CollapseSpaces("a \U{85}") == "a \U{85}"
  {
    var s := "a \U{85}";
    assert SpaceRun(s[1..]) == 1;
    assert CollapseSpaces(s[2..]) == s[2..];
    assert CollapseSpaces(s[1..]) == s[1..];
  }

  lemma NelStrip()
    ensures StripSpaceEnds("a \U{85}") == "a\U{85}"
  {
    var s := "a \U{85}";
    assert SpaceRun(s) == 0;
    assert s[0..2] == "a ";
    assert TrailingSpaceRun("a ") == 1;
  }

  lemma CollapsedSlice(s: string, r: string, k: int)
    requires SpacesCollapsed(s) && OccursAt(s, r, k)
    ensures SpacesCollapsed(r)
  {
    assert forall i :: 0 <= i < |r| ==> r[i] == s[k + i];
  }

  /** `cleanText`. */
  function CleanText(rawText: string): (r: string)
    ensures IsTrimmed(r)
    ensures SpacesCollapsed(r)
  {
    var collapsed := CollapseSpaces(RemoveEntities(RemoveTags(rawText)));
    var stripped := StripSpaceEnds(collapsed);
    var r := Trim(stripped);
    StrippedCollapsed(collapsed);
    TrimDrops(stripped);
    CollapsedSlice(stripped, r, |stripped| - |TrimStart(stripped)|);
    r
  }

  // ---------------------------------------------------------------------
  // detectLanguage: counts over the first 200 characters.

  datatype TextLanguage = Chinese | Japanese | English

  const SampleLength: nat := 200

  predicate IsKana(c: char)
  {
    ('\U{3040}' <= c <= '\U{309F}') || ('\U{30A0}' <= c <= '\U{30FF}')
  }

  predicate IsHan(c: char)
  {
    '\U{4E00}' <= c <= '\U{9FFF}'
  }

  function KanaCount(s: string): (n: nat)
    ensures n <= |s|
  {
    if s == [] then 0 else KanaCount(s[..|s| - 1]) + (if IsKana(s[|s| - 1]) then 1 else 0)
  }

  function HanCount(s: string): (n: nat)
    ensures n <= |s|
  {
    if s == [] then 0 else HanCount(s[..|s| - 1]) + (if IsHan(s[|s| - 1]) then 1 else 0)
  }

  function LatinCount(s: string): (n: nat)
    ensures n <= |s|
  {
    if s == [] then 0 else LatinCount(s[..|s| - 1]) + (if IsAsciiLetter(s[|s| - 1]) then 1 else 0)
  }

  /** The decision rule on the three counts. */
  function Classify(kana: nat, han: nat, latin: nat): (lang: TextLanguage)
    ensures lang == Japanese <==> kana > han && kana > latin
    ensures lang == Chinese <==> !(kana > han && kana > latin) && han > latin
  {
    if kana > han && kana > latin then Japanese
    else if han > latin then Chinese
    else English
  }

  function Sample(text: string): (s: string)
    ensures |s| <= SampleLength && StartsWith(text, s)
  {
    if |text| <= SampleLength then text else text[..SampleLength]
  }

  /** The language `detectLanguage` reports for `text`. */
  function DetectedLanguage(text: string): TextLanguage
  {
    var s := Sample(text);
    Classify(KanaCount(s), HanCount(s), LatinCount(s))
  }

  /** `detectLanguage`: one pass over the sample with three counters. */
  method DetectLanguage(text: string) returns (lang: TextLanguage)
    ensures lang == DetectedLanguage(text)
  {
    var sample := Sample(text);
    var japaneseCount, chineseCount, englishCount := 0, 0, 0;
    var i := 0;
    while i < |sample|
      invariant 0 <= i <= |sample|
      invariant japaneseCount == KanaCount(sample[..i])
      invariant chineseCount == HanCount(sample[..i])
      invariant englishCount == LatinCount(sample[..i])
    {
      var c := sample[i];
      assert sample[..i + 1][..i] == sample[..i];
      if IsKana(c) {
        japaneseCount := japaneseCount + 1;
      } else if IsHan(c) {
        chineseCount := chineseCount + 1;
      } else if IsAsciiLetter(c) {
        englishCount := englishCount + 1;
      }
      i := i + 1;
    }
    assert sample[..i] == sample;
    lang := Classify(japaneseCount, chineseCount, englishCount);
  }

  /** Characters after the first 200 never change the verdict. */
  lemma DetectionIgnoresTail(head: string, tail: string)
    requires |head| >= SampleLength
    ensures DetectedLanguage(head + tail) == DetectedLanguage(head)
  {
    assert (head + tail)[..SampleLength] == head[..SampleLength];
  }

  lemma {:induction false} CountsOfKanaText(s: string)
    requires forall i :: 0 <= i < |s| ==> IsKana(s[i])
    ensures KanaCount(s) == |s| && HanCount(s) == 0 && LatinCount(s) == 0
  {
    if s != [] {
      CountsOfKanaText(s[..|s| - 1]);
    }
  }

  /** A sample made only of kana is Japanese. */
  lemma KanaTextIsJapanese(text: string)
    requires text != []
    requires forall i :: 0 <= i < |text| ==> IsKana(text[i])
    ensures DetectedLanguage(text) == Japanese
  {
    CountsOfKanaText(Sample(text));
  }

  /** Text with no kana, Han or Latin letter, the empty text included, is English. */
  lemma {:induction false} UnscriptedTextIsEnglish(text: string)
    requires forall i :: 0 <= i < |text| ==> !IsKana(text[i]) && !IsHan(text[i]) && !IsAsciiLetter(text[i])
    ensures DetectedLanguage(text) == English
  {
    NoCounts(Sample(text));
  }

  lemma {:induction false} NoCounts(s: string)
    requires forall i :: 0 <= i < |s| ==> !IsKana(s[i]) && !IsHan(s[i]) && !IsAsciiLetter(s[i])
    ensures KanaCount(s) == 0 && HanCount(s) == 0 && LatinCount(s) == 0
  {
    if s != [] {
      NoCounts(s[..|s| - 1]);
    }
  }
}
