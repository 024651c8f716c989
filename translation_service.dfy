// TranslationService: the numbered prompt, the numbered-line extractor, the
// partial preview, the extraction gate, and the streaming reconciler that
// turns a stream of model deltas into an append-only list of translations.

module TranslationService {
  import opened Wrappers
  import opened Strings
  import TextProcessor

  // ---------------------------------------------------------------------
  // Prompt

  /** One line of the numbered block: "k. sentence". */
  function NumberedLine(k: nat, sentence: string): string
  {
    NatToString(k) + ". " + sentence
  }

  /** The sentences numbered from `start` upwards. */
  function NumberedFrom(sentences: seq<string>, start: nat): (r: seq<string>)
    ensures |r| == |sentences|
    ensures forall k :: 0 <= k < |r| ==> r[k] == NumberedLine(start + k, sentences[k])
  {
    if sentences == [] then [] else [NumberedLine(start, sentences[0])] + NumberedFrom(sentences[1..], start + 1)
  }

  /** The numbered block of the prompt, one sentence per line, numbered from 1. */
  function NumberedBlock(sentences: seq<string>): string
  {
    Join(NumberedFrom(sentences, 1), "\n")
  }

  /** The five numbered instruction lines of the prompt, without their numbers. */
  function Instructions(count: nat): seq<string>
  {
    [ "必须翻译所有" + NatToString(count) + "句，保持原文的句子顺序和数量" ] + FixedInstructions
  }

  /** Instructions 2 to 5, which do not depend on the sentence count. */
  const FixedInstructions: seq<string> := [
    "每个译文句子前加上序号，格式为\"1. 译文内容\"",
    "保持原文的氛围感和文学性",
    "确保专业术语的准确性",
    "请完整翻译所有句子，不要遗漏" ]

  /** The template lines above the numbered block. */
  function HeaderLines(count: nat, targetLanguage: string): seq<string>
  {
    var ins := Instructions(count);
    [ "请将以下文本逐句翻译成" + targetLanguage + "。要求：", "",
      "1. " + ins[0], "2. " + ins[1], "3. " + ins[2], "4. " + ins[3], "5. " + ins[4],
      "", "原文如下：" ]
  }

  function PromptFooter(count: nat): string
  {
    "请开始完整翻译所有" + NatToString(count) + "句："
  }

  /** The template, line by line; the numbered block fills one template line. */
  function PromptLines(sentences: seq<string>, targetLanguage: string): seq<string>
  {
    HeaderLines(|sentences|, targetLanguage) + [NumberedBlock(sentences), "", PromptFooter(|sentences|)]
  }

  /** The prompt text before `trimIndent`, without its blank first and last lines. */
  function PromptBody(sentences: seq<string>, targetLanguage: string): string
  {
    Join(PromptLines(sentences, targetLanguage), "\n")
  }

  /**
   * What `trimIndent` does to the prompt: the template lines have no
   * indentation, so it only drops the blank first and last lines and
   * rejoins the lines, turning "\r\n" and a lone "\r" into "\n".
   */
  function NormalizeLineBreaks(s: string): (r: string)
    ensures '\r' !in s ==> r == s
    decreases |s|
  {
    if s == [] then s
    else if s[0] == '\r' then
      if |s| > 1 && s[1] == '\n' then "\n" + NormalizeLineBreaks(s[2..]) else "\n" + NormalizeLineBreaks(s[1..])
    else [s[0]] + NormalizeLineBreaks(s[1..])
  }

  /** `buildTranslationPrompt`. */
  function BuildTranslationPrompt(sentences: seq<string>, targetLanguage: string): string
  {
    NormalizeLineBreaks(PromptBody(sentences, targetLanguage))
  }

  // ---------------------------------------------------------------------
  // Extraction of numbered lines: regular expression ^(\d+)\. (.+)$ on each
  // trimmed line, number == accepted + 1, trimmed text of length >= 2.

  predicate NoTerminator(s: string)
  {
    forall i :: 0 <= i < |s| ==> !IsLineTerminator(s[i])
  }

  /**
   * Group `(.+)$` of the rest of a trimmed line: `.` stops at a line
   * terminator, and `$` also matches before a final one; on a trimmed line
   * without '\n' the only terminator that can end the line is U+0085.
   */
  function LineBody(rest: string): (r: Option<string>)
    ensures r.Some? ==> r.value != [] && NoTerminator(r.value)
    ensures NoTerminator(rest) ==> r == (if rest == [] then None else Some(rest))
  {
    if |rest| >= 1 && NoTerminator(rest) then Some(rest)
    else if |rest| >= 2 && rest[|rest| - 1] == '\U{85}' && NoTerminator(rest[..|rest| - 1]) then Some(rest[..|rest| - 1])
    else None
  }

  datatype Groups = Groups(digits: string, body: string)

  /** The two groups of ^(\d+)\. (.+)$ on a trimmed line, when it matches. */
  function MatchNumbered(t: string): (r: Option<Groups>)
    ensures r.Some? ==> |r.value.digits| >= 1 && AllDigits(r.value.digits)
  {
    var n := DigitPrefix(t);
    if n >= 1 && n + 2 <= |t| && t[n] == '.' && t[n + 1] == ' ' then
      match LineBody(t[n + 2..])
      case Some(g) => Some(Groups(t[..n], g))
      case None => None
    else None
  }

  /** A numbered line once decoded: its number and its trimmed text. */
  datatype Entry = Entry(number: int, text: string)

  /** The number and trimmed text of a line matching the pattern, when the number fits an `Int`. */
  function Decode(line: string): (r: Option<Entry>)
    ensures r.Some? ==> r.value.number >= 0
  {
    match MatchNumbered(Trim(line))
    case None => None
    case Some(g) =>
      match DigitsToInt(g.digits)
      case None => None
      case Some(n) => Some(Entry(n, Trim(g.body)))
  }

  /** The line is `number. text` once trimmed and decoded. */
  predicate Carries(line: string, number: nat, text: string)
  {
    Decode(line) == Some(Entry(number, text))
  }

  /** Every line decoded. */
  function DecodeLines(lines: seq<string>): (r: seq<Option<Entry>>)
    ensures |r| == |lines|
  {
    if lines == [] then [] else [Decode(lines[0])] + DecodeLines(lines[1..])
  }

  lemma {:induction false} DecodeLinesAt(lines: seq<string>, k: nat)
    requires k < |lines|
    ensures DecodeLines(lines)[k] == Decode(lines[k])
    decreases k
  {
    if k > 0 {
      DecodeLinesAt(lines[1..], k - 1);
    }
  }

  lemma {:induction false} DecodeLinesAppend(a: seq<string>, b: seq<string>)
    ensures DecodeLines(a + b) == DecodeLines(a) + DecodeLines(b)
    decreases |a|
  {
    if a == [] {
      assert a + b == b;
    } else {
      assert (a + b)[1..] == a[1..] + b;
      DecodeLinesAppend(a[1..], b);
    }
  }

  /** One iteration of the extraction loop on a decoded line: only the next number, with text of length >= 2, is taken. */
  function Accept(acc: seq<string>, decoded: Option<Entry>): seq<string>
  {
    match decoded
    case None => acc
    case Some(e) =>
      if e.text != [] && e.number == |acc| + 1 && |e.text| >= 2 then acc + [e.text] else acc
  }

  function Collect(acc: seq<string>, entries: seq<Option<Entry>>): (r: seq<string>)
    ensures |acc| <= |r| && r[..|acc|] == acc
    decreases |entries|
  {
    if entries == [] then acc else Collect(Accept(acc, entries[0]), entries[1..])
  }

  /** How many of `total` sentences lie beyond the first `already`. */
  function NewlyFound(total: nat, already: int): nat
  {
    if already <= 0 then total else if already >= total then 0 else total - already
  }

  /** The sentences `extractTranslatedSentences` finds in `content`. */
  function Extract(content: string): seq<string>
  {
    Collect([], DecodeLines(Split(content, '\n')))
  }

  /**
   * `extractTranslatedSentences`: a loop over the lines. The count of
   * sentences already known only feeds the log line, returned here as
   * `newFound`; the sentences depend on `content` alone.
   */
  method ExtractTranslatedSentences(content: string, alreadyExtractedCount: int) returns (sentences: seq<string>, newFound: nat)
    ensures sentences == Extract(content)
    ensures newFound == NewlyFound(|sentences|, alreadyExtractedCount)
  {
    var lines := Split(content, '\n');
    ghost var entries := DecodeLines(lines);
    sentences := [];
    newFound := 0;
    var i := 0;
    while i < |lines|
      invariant 0 <= i <= |lines|
      invariant Collect(sentences, entries[i..]) == Extract(content)
      invariant newFound == NewlyFound(|sentences|, alreadyExtractedCount)
    {
      var decoded := Decode(lines[i]);
      DecodeLinesAt(lines, i);
      CollectStep(sentences, entries, i);
      ghost var next := Accept(sentences, decoded);
      if decoded.Some? && decoded.value.text != [] {
        if decoded.value.number == |sentences| + 1 && |decoded.value.text| >= 2 {
          NewlyFoundStep(|sentences|, alreadyExtractedCount);
          sentences := sentences + [decoded.value.text];
          if |sentences| > alreadyExtractedCount {
            newFound := newFound + 1;
          }
        }
      }
      assert sentences == next;
      i := i + 1;
    }
  }

  lemma NewlyFoundStep(total: nat, already: int)
    ensures NewlyFound(total + 1, already) == NewlyFound(total, already) + (if total + 1 > already then 1 else 0)
  {
  }

  /** One step of the fold. */
  lemma CollectStep(acc: seq<string>, entries: seq<Option<Entry>>, i: nat)
    requires i < |entries|
    ensures Collect(acc, entries[i..]) == Collect(Accept(acc, entries[i]), entries[i + 1..])
  {
    assert entries[i..][1..] == entries[i + 1..];
  }

  /** Increasing indices. */
  predicate Increasing(js: seq<nat>)
  {
    forall a, b :: 0 <= a < b < |js| ==> js[a] < js[b]
  }

  /**
   * Where collected sentences come from: sentence `base + m` of `r` is the
   * text of entry `js[m]`, numbered `base + m + 1`, at least two characters
   * long, and the entries used appear in order.
   */
  ghost predicate Sourced(entries: seq<Option<Entry>>, base: nat, r: seq<string>, js: seq<nat>)
  {
    |r| == base + |js| && Increasing(js)
    && forall m :: 0 <= m < |js| ==>
         js[m] < |entries| && |r[base + m]| >= 2 && entries[js[m]] == Some(Entry(base + m + 1, r[base + m]))
  }

  function Shifted(js: seq<nat>): (r: seq<nat>)
    ensures |r| == |js| && forall m :: 0 <= m < |js| ==> r[m] == js[m] + 1
  {
    seq(|js|, m requires 0 <= m < |js| => js[m] + 1)
  }

  lemma SourcedSkip(first: Option<Entry>, rest: seq<Option<Entry>>, base: nat, r: seq<string>, js: seq<nat>)
    requires Sourced(rest, base, r, js)
    ensures Sourced([first] + rest, base, r, Shifted(js))
  {
    var entries := [first] + rest;
    var ks := Shifted(js);
    assert Increasing(ks);
    forall m | 0 <= m < |js|
      ensures ks[m] < |entries| && entries[ks[m]] == rest[js[m]]
    {
    }
  }

  lemma SourcedTake(first: Option<Entry>, rest: seq<Option<Entry>>, base: nat, r: seq<string>, js: seq<nat>)
    requires Sourced(rest, base + 1, r, js)
    requires base < |r| && |r[base]| >= 2 && first == Some(Entry(base + 1, r[base]))
    ensures Sourced([first] + rest, base, r, [0] + Shifted(js))
  {
    var entries := [first] + rest;
    var ks := [0] + Shifted(js);
    forall m | 0 < m < |ks|
      ensures ks[m] < |entries| && |r[base + m]| >= 2 && entries[ks[m]] == Some(Entry(base + m + 1, r[base + m]))
    {
      assert ks[m] == js[m - 1] + 1;
      assert entries[ks[m]] == rest[js[m - 1]];
    }
  }

  lemma {:induction false} CollectSources(acc: seq<string>, entries: seq<Option<Entry>>) returns (js: seq<nat>)
    ensures Sourced(entries, |acc|, Collect(acc, entries), js)
    decreases |entries|
  {
    if entries == [] {
      js := [];
    } else {
      var acc' := Accept(acc, entries[0]);
      var r := Collect(acc', entries[1..]);
      assert r == Collect(acc, entries);
      var rest := CollectSources(acc', entries[1..]);
      assert entries == [entries[0]] + entries[1..];
      if acc' == acc {
        SourcedSkip(entries[0], entries[1..], |acc|, r, rest);
        js := Shifted(rest);
      } else {
        var e := entries[0].value;
        assert acc' == acc + [e.text] && e.number == |acc| + 1 && |e.text| >= 2;
        assert r[|acc|] == e.text by { assert r[..|acc'|] == acc'; }
        SourcedTake(entries[0], entries[1..], |acc|, r, rest);
        js := [0] + Shifted(rest);
      }
    }
  }

  /** Sentence i of the extraction is the text of a line numbered i + 1; the lines used appear in order. */
  lemma ExtractSources(content: string) returns (js: seq<nat>)
    ensures |js| == |Extract(content)|
    ensures Increasing(js)
    ensures forall i :: 0 <= i < |js| ==>
      js[i] < |Split(content, '\n')| && |Extract(content)[i]| >= 2
      && Carries(Split(content, '\n')[js[i]], i + 1, Extract(content)[i])
  {
    var lines := Split(content, '\n');
    js := CollectSources([], DecodeLines(lines));
    assert Sourced(DecodeLines(lines), 0, Extract(content), js);
    forall i | 0 <= i < |js|
      ensures js[i] < |lines| && |Extract(content)[i]| >= 2 && Carries(lines[js[i]], i + 1, Extract(content)[i])
    {
      DecodeLinesAt(lines, js[i]);
    }
  }

  lemma {:induction false} CollectAppend(acc: seq<string>, a: seq<Option<Entry>>, b: seq<Option<Entry>>)
    ensures Collect(acc, a + b) == Collect(Collect(acc, a), b)
    decreases |a|
  {
    if a != [] {
      assert (a + b)[1..] == a[1..] + b;
      CollectAppend(Accept(acc, a[0]), a[1..], b);
    } else {
      assert a + b == b;
    }
  }

  /** Entries numbered on from `|acc| + 1`, each with text of length >= 2, are all collected. */
  lemma {:induction false} CollectNumbered(acc: seq<string>, entries: seq<Option<Entry>>, texts: seq<string>)
    requires |entries| == |texts|
    requires forall k :: 0 <= k < |texts| ==> |texts[k]| >= 2 && entries[k] == Some(Entry(|acc| + k + 1, texts[k]))
    ensures Collect(acc, entries) == acc + texts
    decreases |entries|
  {
    if entries == [] {
      assert acc + texts == acc;
    } else {
      assert Accept(acc, entries[0]) == acc + [texts[0]];
      CollectNumbered(acc + [texts[0]], entries[1..], texts[1..]);
      assert acc + [texts[0]] + texts[1..] == acc + texts;
    }
  }

  /** Lines that decode to nothing are skipped. */
  lemma {:induction false} CollectSkips(acc: seq<string>, entries: seq<Option<Entry>>)
    requires forall k :: 0 <= k < |entries| ==> entries[k] == None
    ensures Collect(acc, entries) == acc
    decreases |entries|
  {
    if entries != [] {
      CollectSkips(acc, entries[1..]);
    }
  }

  /** A sentence satisfying everything the round trip needs. */
  predicate Encodable(s: string)
  {
    |s| >= 2 && IsTrimmed(s) && NoTerminator(s)
  }

  lemma MatchNumberedParts(d: string, s: string)
    requires |d| >= 1 && AllDigits(d)
    requires s != [] && NoTerminator(s)
    ensures MatchNumbered(d + (". " + s)) == Some(Groups(d, s))
  {
    var t := d + (". " + s);
    DigitPrefixAfterDigits(d, ". " + s);
    var n := DigitPrefix(t);
    assert n == |d|;
    assert t[n] == '.' && t[n + 1] == ' ';
    assert t[n + 2..] == s;
    assert t[..n] == d;
    assert LineBody(s) == Some(s);
  }

  lemma DecodeNumberedLine(k: nat, s: string)
    requires Encodable(s) && 1 <= k <= MAX_INT
    ensures Decode(NumberedLine(k, s)) == Some(Entry(k, s))
  {
    var d := NatToString(k);
    var line := NumberedLine(k, s);
    assert line == d + (". " + s);
    assert IsTrimmed(line) by {
      assert line[0] == d[0];
      assert line[|line| - 1] == s[|s| - 1];
    }
    TrimOfTrimmed(line);
    MatchNumberedParts(d, s);
    DigitsValueOfNatToString(k);
    assert DigitsToInt(d) == Some(k);
    TrimOfTrimmed(s);
  }

  /** A line starting with neither whitespace nor a digit decodes to nothing. */
  lemma DecodeUnnumbered(line: string)
    requires line == [] || (!IsWhitespace(line[0]) && !IsDigit(line[0]))
    ensures Decode(line) == None
  {
    if line != [] {
      var t := Trim(line);
      assert TrimStart(line) == line;
      TrimEndDrops(line);
      if t != [] {
        assert t[0] == line[0];
        assert DigitPrefix(t) == 0;
      }
    } else {
      assert Trim(line) == [];
    }
  }

  lemma NumberedLineHasNoNewline(k: nat, s: string)
    requires NoTerminator(s)
    ensures '\n' !in NumberedLine(k, s)
  {
    assert '\n' !in s by {
      forall i | 0 <= i < |s| ensures s[i] != '\n' {
        assert !IsLineTerminator(s[i]);
      }
    }
    NumberedLineWithout(k, s, '\n');
  }

  lemma NumberedEntries(xs: seq<string>)
    requires |xs| <= MAX_INT
    requires forall k :: 0 <= k < |xs| ==> Encodable(xs[k])
    ensures |DecodeLines(NumberedFrom(xs, 1))| == |xs|
    ensures forall k :: 0 <= k < |xs| ==> |xs[k]| >= 2 && DecodeLines(NumberedFrom(xs, 1))[k] == Some(Entry(k + 1, xs[k]))
  {
    forall k | 0 <= k < |xs| ensures |xs[k]| >= 2 && DecodeLines(NumberedFrom(xs, 1))[k] == Some(Entry(k + 1, xs[k])) {
      NumberedEntryAt(xs, k);
    }
  }

  lemma NumberedEntryAt(xs: seq<string>, k: nat)
    requires k < |xs| <= MAX_INT && Encodable(xs[k])
    ensures |xs[k]| >= 2 && DecodeLines(NumberedFrom(xs, 1))[k] == Some(Entry(k + 1, xs[k]))
  {
    var lines := NumberedFrom(xs, 1);
    assert lines[k] == NumberedLine(k + 1, xs[k]);
    DecodeLinesAt(lines, k);
    DecodeNumberedLine(k + 1, xs[k]);
  }

  lemma CollectNumberedLines(xs: seq<string>)
    requires |xs| <= MAX_INT
    requires forall k :: 0 <= k < |xs| ==> Encodable(xs[k])
    ensures Collect([], DecodeLines(NumberedFrom(xs, 1))) == xs
  {
    NumberedEntries(xs);
    CollectFromOne(DecodeLines(NumberedFrom(xs, 1)), xs);
  }

  lemma CollectFromOne(entries: seq<Option<Entry>>, texts: seq<string>)
    requires |entries| == |texts|
    requires forall k :: 0 <= k < |texts| ==> |texts[k]| >= 2 && entries[k] == Some(Entry(k + 1, texts[k]))
    ensures Collect([], entries) == texts
  {
    var acc: seq<string> := [];
    assert |acc| == 0;
    CollectNumbered(acc, entries, texts);
    assert acc + texts == texts;
  }

  /** Decoding the numbered block of the prompt returns the sentences. */
  lemma ExtractRoundTrip(xs: seq<string>)
    requires |xs| <= MAX_INT
    requires forall k :: 0 <= k < |xs| ==> Encodable(xs[k])
    ensures Extract(NumberedBlock(xs)) == xs
  {
    var lines := NumberedFrom(xs, 1);
    if xs == [] {
      assert NumberedBlock(xs) == "";
      assert Split("", '\n') == [""];
      DecodeUnnumbered("");
    } else {
      forall k | 0 <= k < |lines| ensures '\n' !in lines[k] {
        NumberedLineHasNoNewline(k + 1, xs[k]);
      }
      SplitJoin(lines, '\n');
      CollectNumberedLines(xs);
    }
  }

  // ---------------------------------------------------------------------
  // The whole prompt: its numbered instruction lines are decoded first.

  lemma InstructionsEncodable(count: nat)
    ensures forall k :: 0 <= k < 5 ==> Encodable(Instructions(count)[k])
  {
    var ins := Instructions(count);
    FirstInstructionEncodable(count);
    FixedInstructionsEncodable();
    forall k | 1 <= k < 5 ensures Encodable(ins[k]) {
      assert ins[k] == FixedInstructions[k - 1];
    }
  }

  lemma FirstInstructionEncodable(count: nat)
    ensures Encodable(Instructions(count)[0])
  {
    var line := Instructions(count)[0];
    var n := NatToString(count);
    assert NoTerminator(line) by {
      forall i | 0 <= i < |line| ensures !IsLineTerminator(line[i]) {
        if 6 <= i < 6 + |n| { assert line[i] == n[i - 6]; }
      }
    }
  }

  lemma FixedInstructionsEncodable()
    ensures forall k :: 0 <= k < 4 ==> Encodable(FixedInstructions[k])
  {
    assert Encodable(FixedInstructions[0]);
    assert Encodable(FixedInstructions[1]);
    assert Encodable(FixedInstructions[2]);
    assert Encodable(FixedInstructions[3]);
  }

  /** Splitting a text made of lines joined by '\n'. */
  lemma SplitLines(lines: seq<string>)
    requires |lines| >= 1
    requires forall k :: 0 <= k < |lines| ==> '\n' !in lines[k]
    ensures Split(Join(lines, "\n"), '\n') == lines
  {
    SplitJoin(lines, '\n');
  }

  /** The decoded header: two unnumbered lines, the five instructions numbered 1 to 5, two unnumbered lines. */
  function HeaderEntries(ins: seq<string>): seq<Option<Entry>>
    requires |ins| == 5
  {
    [None, None]
    + [Some(Entry(1, ins[0])), Some(Entry(2, ins[1])), Some(Entry(3, ins[2])), Some(Entry(4, ins[3])), Some(Entry(5, ins[4]))]
    + [None, None]
  }

  const NumberPrefixes: seq<string> := ["1. ", "2. ", "3. ", "4. ", "5. "]

  lemma NumberPrefix(j: nat, x: string)
    requires 1 <= j <= 5
    ensures NumberedLine(j, x) == NumberPrefixes[j - 1] + x
  {
    var d := NatToString(j);
    if j == 1 { assert d == "1"; }
    else if j == 2 { assert d == "2"; }
    else if j == 3 { assert d == "3"; }
    else if j == 4 { assert d == "4"; }
    else { assert d == "5"; }
    assert d + ". " == NumberPrefixes[j - 1];
  }

  lemma HeaderLineNumbered(count: nat, targetLanguage: string, j: nat)
    requires 1 <= j <= 5
    ensures HeaderLines(count, targetLanguage)[j + 1] == NumberedLine(j, Instructions(count)[j - 1])
  {
    var ins := Instructions(count);
    NumberPrefix(j, ins[j - 1]);
    assert HeaderLines(count, targetLanguage)[j + 1] == NumberPrefixes[j - 1] + ins[j - 1];
  }

  /** Header line `j + 1` is instruction `j`, numbered `j`. */
  lemma DecodeInstructionLine(count: nat, targetLanguage: string, j: nat)
    requires 1 <= j <= 5
    ensures DecodeLines(HeaderLines(count, targetLanguage))[j + 1] == Some(Entry(j, Instructions(count)[j - 1]))
  {
    var h := HeaderLines(count, targetLanguage);
    var ins := Instructions(count);
    InstructionsEncodable(count);
    HeaderLineNumbered(count, targetLanguage, j);
    DecodeNumberedLine(j, ins[j - 1]);
    DecodeLinesAt(h, j + 1);
  }

  lemma DecodeHeader(count: nat, targetLanguage: string)
    ensures DecodeLines(HeaderLines(count, targetLanguage)) == HeaderEntries(Instructions(count))
  {
    var h := HeaderLines(count, targetLanguage);
    var e := DecodeLines(h);
    forall k | k in {0, 1, 7, 8} ensures e[k] == None {
      DecodeLinesAt(h, k);
      DecodeUnnumbered(h[k]);
    }
    DecodeInstructionLine(count, targetLanguage, 1);
    DecodeInstructionLine(count, targetLanguage, 2);
    DecodeInstructionLine(count, targetLanguage, 3);
    DecodeInstructionLine(count, targetLanguage, 4);
    DecodeInstructionLine(count, targetLanguage, 5);
  }

  lemma CollectHeader(ins: seq<string>)
    requires |ins| == 5 && forall k :: 0 <= k < 5 ==> |ins[k]| >= 2
    ensures Collect([], HeaderEntries(ins)) == ins
  {
    var e := HeaderEntries(ins);
    assert e == e[..2] + e[2..7] + e[7..];
    CollectAppend([], e[..2] + e[2..7], e[7..]);
    CollectAppend([], e[..2], e[2..7]);
    CollectSkips([], e[..2]);
    CollectNumbered([], e[2..7], ins);
    CollectSkips(ins, e[7..]);
  }

  lemma HeaderDecodesInstructions(count: nat, targetLanguage: string)
    ensures Collect([], DecodeLines(HeaderLines(count, targetLanguage))) == Instructions(count)
  {
    DecodeHeader(count, targetLanguage);
    InstructionsEncodable(count);
    CollectHeader(Instructions(count));
  }

  /**
   * Decoding the whole prompt picks up its own five numbered instruction
   * lines first, so only the numbered block, not the prompt, round-trips.
   */
  lemma PromptDecodesInstructionsFirst(xs: seq<string>, targetLanguage: string)
    requires '\n' !in targetLanguage && '\r' !in targetLanguage
    requires forall k :: 0 <= k < |xs| ==> '\r' !in xs[k]
    ensures var decoded := Extract(BuildTranslationPrompt(xs, targetLanguage));
      |decoded| >= 5 && decoded[..5] == Instructions(|xs|)
  {
    var h := HeaderLines(|xs|, targetLanguage);
    var tailLines := [NumberedBlock(xs), "", PromptFooter(|xs|)];
    var rest := Join(tailLines, "\n");
    var body := PromptBody(xs, targetLanguage);
    JoinAppend(h, tailLines, "\n");
    assert body == Join(h, "\n") + ['\n'] + rest;
    NoCarriageReturnInBody(xs, targetLanguage);
    forall k | 0 <= k < |h| ensures '\n' !in h[k] {
      HeaderLineWithout(|xs|, targetLanguage, k, '\n');
    }
    SplitLines(h);
    SplitAppend(Join(h, "\n"), '\n', rest);
    var tail := Split(rest, '\n');
    DecodeLinesAppend(h, tail);
    CollectAppend([], DecodeLines(h), DecodeLines(tail));
    HeaderDecodesInstructions(|xs|, targetLanguage);
  }

  /** The fixed pieces of the header hold no control character. */
  lemma HeaderPiecesWithout(c: char)
    requires c < ' '
    ensures c !in "请将以下文本逐句翻译成" && c !in "。要求：" && c !in "原文如下："
    ensures c !in "1. " && c !in "2. " && c !in "3. " && c !in "4. " && c !in "5. "
  {
  }

  lemma InstructionPiecesWithout(c: char)
    requires c < ' '
    ensures c !in "必须翻译所有" && c !in "句，保持原文的句子顺序和数量"
    ensures c !in "保持原文的氛围感和文学性" && c !in "确保专业术语的准确性" && c !in "请完整翻译所有句子，不要遗漏"
    ensures c !in "每个译文句子前加上序号，格式为\"1. 译文内容\""
  {
    QuotedPieceWithout(c);
  }

  lemma QuotedPieceWithout(c: char)
    requires c < ' '
    ensures c !in "每个译文句子前加上序号，格式为\"1. 译文内容\""
  {
  }

  lemma HeaderLineWithout(count: nat, targetLanguage: string, k: nat, c: char)
    requires c == '\n' || c == '\r'
    requires c !in targetLanguage
    requires k < 9
    ensures c !in HeaderLines(count, targetLanguage)[k]
  {
    HeaderPiecesWithout(c);
    InstructionPiecesWithout(c);
    assert c !in NatToString(count);
  }

  lemma NoCarriageReturnInBody(xs: seq<string>, targetLanguage: string)
    requires '\r' !in targetLanguage
    requires forall k :: 0 <= k < |xs| ==> '\r' !in xs[k]
    ensures '\r' !in PromptBody(xs, targetLanguage)
  {
    var numbered := NumberedFrom(xs, 1);
    forall k | 0 <= k < |numbered| ensures '\r' !in numbered[k] {
      NumberedLineWithout(k + 1, xs[k], '\r');
    }
    JoinWithout(numbered, "\n", '\r');
    var lines := PromptLines(xs, targetLanguage);
    forall k | 0 <= k < |lines| ensures '\r' !in lines[k] {
      if k < 9 {
        HeaderLineWithout(|xs|, targetLanguage, k, '\r');
      } else if k == 11 {
        FooterWithout(|xs|, '\r');
      }
    }
    JoinWithout(lines, "\n", '\r');
  }

  lemma NumberedLineWithout(k: nat, s: string, c: char)
    requires c == '\n' || c == '\r'
    requires c !in s
    ensures c !in NumberedLine(k, s)
  {
    var d := NatToString(k);
    var line := NumberedLine(k, s);
    forall i | 0 <= i < |line| ensures line[i] != c {
      if i < |d| { assert line[i] == d[i]; }
      else if i >= |d| + 2 { assert line[i] == s[i - |d| - 2]; }
    }
  }

  lemma FooterWithout(count: nat, c: char)
    requires c == '\n' || c == '\r'
    ensures c !in PromptFooter(count)
  {
    var n := NatToString(count);
    var footer := PromptFooter(count);
    forall i | 0 <= i < |footer| ensures footer[i] != c {
      if 9 <= i < 9 + |n| { assert footer[i] == n[i - 9]; }
    }
  }

  // ---------------------------------------------------------------------
  // Partial preview

  /** The first line whose trimmed form starts with `prefix`. */
  function FirstWithPrefix(lines: seq<string>, prefix: string): (r: Option<nat>)
    ensures r.Some? ==> (r.value < |lines| && StartsWith(Trim(lines[r.value]), prefix)
                         && forall j :: 0 <= j < r.value ==> !StartsWith(Trim(lines[j]), prefix))
    ensures r.None? ==> forall j :: 0 <= j < |lines| ==> !StartsWith(Trim(lines[j]), prefix)
  {
    if lines == [] then None
    else if StartsWith(Trim(lines[0]), prefix) then Some(0)
    else match FirstWithPrefix(lines[1..], prefix)
      case None => None
      case Some(j) => Some(j + 1)
  }

  /** `lines.lastOrNull { it.trim().isNotEmpty() }?.trim() ?: ""`. */
  function LastNonBlank(lines: seq<string>): string
  {
    if lines == [] then []
    else
      var last := Trim(lines[|lines| - 1]);
      if last != [] then last else LastNonBlank(lines[..|lines| - 1])
  }

  /** The fallback is empty exactly when every line is blank. */
  lemma {:induction false} LastNonBlankEmpty(lines: seq<string>)
    ensures LastNonBlank(lines) == [] <==> forall j :: 0 <= j < |lines| ==> Trim(lines[j]) == []
    decreases |lines|
  {
    if lines != [] && Trim(lines[|lines| - 1]) == [] {
      var init := lines[..|lines| - 1];
      LastNonBlankEmpty(init);
      assert forall j :: 0 <= j < |init| ==> init[j] == lines[j];
    }
  }

  /** Otherwise it is the last line that is not blank, trimmed. */
  lemma LastNonBlankIsLast(lines: seq<string>)
    requires LastNonBlank(lines) != []
    ensures exists j :: 0 <= j < |lines| && LastNonBlank(lines) == Trim(lines[j])
                        && forall k :: j < k < |lines| ==> Trim(lines[k]) == []
  {
    var j := LastNonBlankIndex(lines);
  }

  /** The index of the line the fallback comes from. */
  lemma {:induction false} LastNonBlankIndex(lines: seq<string>) returns (j: nat)
    requires LastNonBlank(lines) != []
    ensures j < |lines| && LastNonBlank(lines) == Trim(lines[j])
    ensures forall k :: j < k < |lines| ==> Trim(lines[k]) == []
    decreases |lines|
  {
    var last := |lines| - 1;
    if Trim(lines[last]) != [] {
      j := last;
    } else {
      var init := lines[..last];
      assert LastNonBlank(lines) == LastNonBlank(init);
      j := LastNonBlankIndex(init);
      assert lines[j] == init[j];
      forall k | j < k < |lines|
        ensures Trim(lines[k]) == []
      {
        if k < last {
          assert lines[k] == init[k];
        }
      }
    }
  }

  /** `getPartialTranslation`. */
  function PartialTranslation(content: string, completedCount: nat): string
  {
    var lines := Split(content, '\n');
    var prefix := NatToString(completedCount + 1) + ".";
    match FirstWithPrefix(lines, prefix)
    case Some(j) => Trim(RemovePrefix(Trim(lines[j]), prefix))
    case None => LastNonBlank(lines)
  }

  /** A numbered line "j. s" starts with "m." only for m == j, so "1." never picks up line 10. */
  lemma NumberedLineStartsWith(j: nat, m: nat, s: string)
    requires StartsWith(NumberedLine(j, s), NatToString(m) + ".")
    ensures j == m
  {
    var a := NatToString(j);
    var b := NatToString(m);
    var line := NumberedLine(j, s);
    var rest := RemovePrefix(line, b + ".");
    NumberedLineSplit(j, s);
    AppendAssoc(b, ".", rest);
    DigitPrefixOfNumber(j, ". " + s);
    DigitPrefixOfNumber(m, "." + rest);
    assert a == line[..|a|];
    assert b == line[..|b|];
    assert a == b;
    DigitsValueOfNatToString(j);
    DigitsValueOfNatToString(m);
  }

  /** The two ways of reading "k. s": number then ". s", and "k." then " s". */
  lemma NumberedLineSplit(k: nat, s: string)
    ensures NumberedLine(k, s) == NatToString(k) + (". " + s)
    ensures NumberedLine(k, s) == (NatToString(k) + ".") + (" " + s)
  {
    var a := NatToString(k);
    assert ". " == "." + " ";
    AppendAssoc(a, ". ", s);
    AppendAssoc(a, ".", " " + s);
    AppendAssoc(".", " ", s);
  }

  lemma NumberedLineTrimmed(k: nat, s: string)
    requires Encodable(s)
    ensures Trim(NumberedLine(k, s)) == NumberedLine(k, s)
  {
    var line := NumberedLine(k, s);
    assert line[0] == NatToString(k)[0];
    assert line[|line| - 1] == s[|s| - 1];
    TrimOfTrimmed(line);
  }

  lemma TrimAfterSpace(x: string)
    requires Encodable(x)
    ensures Trim(" " + x) == x
  {
    assert (" " + x)[1..] == x;
    assert TrimStart(x) == x;
    assert TrimStart(" " + x) == x;
    assert TrimEnd(x) == x;
  }

  /**
   * On the numbered lines the prompt asks for, the preview for the
   * sentence after the first `k` is that sentence, whatever follows it.
   */
  lemma PartialOfNumberedBlock(xs: seq<string>, k: nat)
    requires k < |xs| && forall i :: 0 <= i < |xs| ==> Encodable(xs[i])
    ensures PartialTranslation(NumberedBlock(xs), k) == xs[k]
  {
    var lines := NumberedFrom(xs, 1);
    var prefix := NatToString(k + 1) + ".";
    forall i | 0 <= i < |lines| ensures '\n' !in lines[i] {
      NumberedLineHasNoNewline(i + 1, xs[i]);
    }
    SplitLines(lines);
    FirstNumbered(xs, k);
    TrimAfterSpace(xs[k]);
  }

  /** The first line of the numbered block starting with "k+1." is line k + 1. */
  lemma FirstNumbered(xs: seq<string>, k: nat)
    requires k < |xs| && forall i :: 0 <= i < |xs| ==> Encodable(xs[i])
    ensures var lines := NumberedFrom(xs, 1);
      var prefix := NatToString(k + 1) + ".";
      FirstWithPrefix(lines, prefix) == Some(k) && RemovePrefix(Trim(lines[k]), prefix) == " " + xs[k]
  {
    var lines := NumberedFrom(xs, 1);
    var prefix := NatToString(k + 1) + ".";
    forall i | 0 <= i < k ensures !StartsWith(Trim(lines[i]), prefix) {
      NotEarlierNumbered(xs, i, k);
    }
    NumberedLinePrefix(xs, k);
    FirstWithPrefixAt(lines, prefix, k);
  }

  lemma NumberedLinePrefix(xs: seq<string>, k: nat)
    requires k < |xs| && Encodable(xs[k])
    ensures var t := Trim(NumberedFrom(xs, 1)[k]);
      var prefix := NatToString(k + 1) + ".";
      StartsWith(t, prefix) && RemovePrefix(t, prefix) == " " + xs[k]
  {
    var prefix := NatToString(k + 1) + ".";
    var line := NumberedLine(k + 1, xs[k]);
    assert NumberedFrom(xs, 1)[k] == line;
    NumberedLineTrimmed(k + 1, xs[k]);
    NumberedLineSplit(k + 1, xs[k]);
    assert line[..|prefix|] == prefix;
    assert line[|prefix|..] == " " + xs[k];
  }

  lemma NotEarlierNumbered(xs: seq<string>, i: nat, k: nat)
    requires i < k < |xs| && Encodable(xs[i])
    ensures !StartsWith(Trim(NumberedFrom(xs, 1)[i]), NatToString(k + 1) + ".")
  {
    var line := NumberedLine(i + 1, xs[i]);
    assert NumberedFrom(xs, 1)[i] == line;
    NumberedLineTrimmed(i + 1, xs[i]);
    if StartsWith(line, NatToString(k + 1) + ".") {
      NumberedLineStartsWith(i + 1, k + 1, xs[i]);
    }
  }

  lemma FirstWithPrefixAt(lines: seq<string>, prefix: string, k: nat)
    requires k < |lines| && StartsWith(Trim(lines[k]), prefix)
    requires forall i :: 0 <= i < k ==> !StartsWith(Trim(lines[i]), prefix)
    ensures FirstWithPrefix(lines, prefix) == Some(k)
  {
  }

  // ---------------------------------------------------------------------
  // The extraction gate

  /** Regular expression `\d+\.` found somewhere in `s`. */
  predicate HasNumberDot(s: string)
  {
    exists i, j :: 0 <= i < j < |s| && AllDigits(s[i..j]) && s[j] == '.'
  }

  /** `\d+\.` occurs exactly when some digit is immediately followed by '.'. */
  lemma NumberDotIffDigitDot(s: string)
    ensures HasNumberDot(s) <==> exists j :: 1 <= j < |s| && IsDigit(s[j - 1]) && s[j] == '.'
  {
    if HasNumberDot(s) {
      var i, j :| 0 <= i < j < |s| && AllDigits(s[i..j]) && s[j] == '.';
      assert s[i..j][j - 1 - i] == s[j - 1];
    }
    if exists j :: 1 <= j < |s| && IsDigit(s[j - 1]) && s[j] == '.' {
      var j :| 1 <= j < |s| && IsDigit(s[j - 1]) && s[j] == '.';
      assert AllDigits(s[j - 1..j]);
    }
  }

  /** `shouldAttemptExtraction`: the delta holds "。", "\n", "\"" or a number followed by '.'. */
  predicate ShouldAttemptExtraction(delta: string)
  {
    '。' in delta || '\n' in delta || '"' in delta || HasNumberDot(delta)
  }

  // ---------------------------------------------------------------------
  // Stream events and emitted states

  /** A state update sent to the caller. */
  datatype TranslationState = TranslationState(
    originalSentences: seq<string>,
    translations: seq<string>,
    currentTranslatingIndex: int,
    currentPartialTranslation: string,
    isTranslating: bool,
    isComplete: bool,
    error: Option<string>)

  /** One line read from the response body, with what the JSON decoder finds in it. */
  datatype StreamItem =
    | Line(text: string, chunkContent: Option<string>)
    | ReadError(message: string)

  datatype Event = Delta(text: string) | Done | Noise | Fail(message: string)

  /** Line framing: "data: " lines carry a JSON chunk or the "[DONE]" sentinel; other lines are skipped. */
  function Frame(item: StreamItem): (e: Event)
    ensures item.Line? && !StartsWith(item.text, "data: ") ==> e == Noise
  {
    match item
    case ReadError(m) => Fail(m)
    case Line(text, chunk) =>
      if StartsWith(text, "data: ") then
        if Trim(RemovePrefix(text, "data: ")) == "[DONE]" then Done
        else if chunk.Some? then Delta(chunk.value)
        else Noise
      else Noise
  }

  function Events(items: seq<StreamItem>): (es: seq<Event>)
    ensures |es| == |items|
    ensures forall k :: 0 <= k < |items| ==> es[k] == Frame(items[k])
  {
    if items == [] then [] else [Frame(items[0])] + Events(items[1..])
  }

  /** The reconciler's variables. */
  datatype Recon = Recon(
    content: string,
    committed: seq<string>,
    extractionAttempts: nat,
    lastContentLength: nat,
    currentTranslatingIndex: nat)

  const Start: Recon := Recon("", [], 0, 0, 0)

  /** The gate on a delta, evaluated after the delta is appended. */
  predicate Gate(delta: string, newLength: nat, r: Recon)
  {
    ShouldAttemptExtraction(delta)
    && (newLength - r.lastContentLength > 100 || r.extractionAttempts == 0 || r.extractionAttempts % 20 == 0)
  }

  /** The reconciler after a delta. */
  function AfterDelta(r: Recon, delta: string): (r': Recon)
    ensures r'.content == r.content + delta
    ensures IsPrefix(r.committed, r'.committed)
  {
    var content := r.content + delta;
    if Gate(delta, |content|, r) then
      var extracted := Extract(content);
      if |extracted| > |r.committed| then
        var committed := r.committed + extracted[|r.committed|..];
        Recon(content, committed, 0, |content|, |committed|)
      else r.(content := content, extractionAttempts := r.extractionAttempts + 1)
    else r.(content := content)
  }

  /** The ungated extraction run at "[DONE]", on a stream error and in `finally`. */
  function CatchUp(r: Recon): (r': Recon)
    ensures r'.content == r.content
    ensures IsPrefix(r.committed, r'.committed)
    ensures |r'.committed| >= |Extract(r.content)|
  {
    if |r.content| > 0 && |Extract(r.content)| > |r.committed| then
      var extracted := Extract(r.content);
      r.(committed := r.committed + extracted[|r.committed|..])
    else
      assert |r.content| == 0 ==> Extract(r.content) == [] by { ExtractEmpty(); }
      r
  }

  predicate IsPrefix<T(==)>(a: seq<T>, b: seq<T>)
  {
    |a| <= |b| && b[..|a|] == a
  }

  lemma ExtractEmpty()
    ensures Extract("") == []
  {
    assert Split("", '\n') == [""];
    assert Trim("") == "";
  }

  function Min(a: int, b: int): int
  {
    if a <= b then a else b
  }

  /** The state emitted after a delta. */
  function ProgressState(originals: seq<string>, r: Recon): TranslationState
  {
    var partial :=
      if |r.committed| < |originals| && |r.content| > r.lastContentLength + 20
      then PartialTranslation(r.content, |r.committed|) else "";
    TranslationState(originals, r.committed, Min(r.currentTranslatingIndex, |originals| - 1), partial, true, false, None)
  }

  function CompleteState(originals: seq<string>, r: Recon): TranslationState
  {
    TranslationState(originals, r.committed, -1, "", false, true, None)
  }

  function FailMessage(message: string, saved: nat): string
  {
    "处理响应流失败: " + message + "，已保存 " + NatToString(saved) + " 个翻译结果"
  }

  function FailState(originals: seq<string>, r: Recon, message: string): TranslationState
  {
    TranslationState(originals, r.committed, -1, "", false, false, Some(FailMessage(message, |r.committed|)))
  }

  datatype Run = Run(state: Recon, emitted: seq<TranslationState>)

  /** The read loop: deltas update and report; "[DONE]" and errors end it. */
  function Loop(originals: seq<string>, r: Recon, events: seq<Event>): Run
    decreases |events|
  {
    if events == [] then Run(r, [])
    else match events[0]
      case Noise => Loop(originals, r, events[1..])
      case Delta(d) =>
        var r' := AfterDelta(r, d);
        var rest := Loop(originals, r', events[1..]);
        Run(rest.state, [ProgressState(originals, r')] + rest.emitted)
      case Done =>
        var r' := CatchUp(r);
        Run(r', [CompleteState(originals, r')])
      case Fail(m) =>
        var r' := CatchUp(r);
        Run(r', [FailState(originals, r', m)])
  }

  /** The run of the read loop over `events` from `r`, after `emitted` has been reported. */
  function Resume(originals: seq<string>, r: Recon, emitted: seq<TranslationState>, events: seq<Event>): Run
  {
    var rest := Loop(originals, r, events);
    Run(rest.state, emitted + rest.emitted)
  }

  lemma ResumeNothing(originals: seq<string>, r: Recon, emitted: seq<TranslationState>)
    ensures Resume(originals, r, emitted, []) == Run(r, emitted)
  {
    assert emitted + [] == emitted;
  }

  /** The `finally` block: one more extraction when translations are still missing. */
  function Finally(originals: seq<string>, run: Run): Run
  {
    var r := run.state;
    if |r.committed| < |originals| && |r.content| > 0 then
      var r' := CatchUp(r);
      if |r'.committed| > |r.committed| then Run(r', run.emitted + [CompleteState(originals, r')])
      else run
    else run
  }

  /** `processStreamResponse` on a framed stream. */
  function Process(originals: seq<string>, events: seq<Event>): Run
  {
    Finally(originals, Loop(originals, Start, events))
  }

  // ---------------------------------------------------------------------
  // Properties of the reconciler

  lemma PrefixTrans<T>(a: seq<T>, b: seq<T>, c: seq<T>)
    requires IsPrefix(a, b) && IsPrefix(b, c)
    ensures IsPrefix(a, c)
  {
    assert c[..|a|] == c[..|b|][..|a|];
  }

  /** Each reported list extends the ones before it, and `last` extends them all. */
  predicate AppendOnly(states: seq<TranslationState>, last: seq<string>)
  {
    (forall i, j :: 0 <= i < j < |states| ==> IsPrefix(states[i].translations, states[j].translations))
    && forall i :: 0 <= i < |states| ==> IsPrefix(states[i].translations, last)
  }

  /** Putting in front a state whose list is extended by all later ones keeps the stream append-only. */
  lemma ConsAppendOnly(base: seq<string>, first: TranslationState, states: seq<TranslationState>, last: seq<string>)
    requires AppendOnly(states, last) && IsPrefix(first.translations, last)
    requires IsPrefix(base, first.translations)
    requires forall i :: 0 <= i < |states| ==> IsPrefix(first.translations, states[i].translations)
    ensures AppendOnly([first] + states, last)
    ensures forall i :: 0 <= i < |states| + 1 ==> IsPrefix(base, ([first] + states)[i].translations)
  {
    var all := [first] + states;
    forall i | 0 <= i < |all| ensures IsPrefix(base, all[i].translations) {
      if i > 0 {
        assert all[i] == states[i - 1];
        PrefixTrans(base, first.translations, states[i - 1].translations);
      }
    }
    forall i, j | 0 <= i < j < |all| ensures IsPrefix(all[i].translations, all[j].translations) {
      assert all[j] == states[j - 1];
      if i > 0 {
        assert all[i] == states[i - 1];
      }
    }
  }

  /** The read loop only ever appends to the translations: nothing committed is rewritten or dropped. */
  lemma {:induction false} LoopAppendOnly(originals: seq<string>, r: Recon, events: seq<Event>)
    ensures var run := Loop(originals, r, events);
      IsPrefix(r.committed, run.state.committed)
      && (forall i :: 0 <= i < |run.emitted| ==> IsPrefix(r.committed, run.emitted[i].translations))
      && AppendOnly(run.emitted, run.state.committed)
    decreases |events|
  {
    var run := Loop(originals, r, events);
    if events != [] {
      match events[0]
      case Noise =>
        LoopAppendOnly(originals, r, events[1..]);
      case Delta(d) =>
        var r' := AfterDelta(r, d);
        var rest := Loop(originals, r', events[1..]);
        LoopAppendOnly(originals, r', events[1..]);
        assert run.emitted == [ProgressState(originals, r')] + rest.emitted;
        PrefixTrans(r.committed, r'.committed, run.state.committed);
        ConsAppendOnly(r.committed, ProgressState(originals, r'), rest.emitted, run.state.committed);
      case Done =>
      case Fail(m) =>
    }
  }

  /** `processStreamResponse` only appends: every reported list extends the earlier ones and ends in the final one. */
  lemma ProcessAppendOnly(originals: seq<string>, events: seq<Event>)
    ensures AppendOnly(Process(originals, events).emitted, Process(originals, events).state.committed)
  {
    var run := Loop(originals, Start, events);
    LoopAppendOnly(originals, Start, events);
    var fin := Finally(originals, run);
    if fin != run {
      forall i | 0 <= i < |run.emitted| ensures IsPrefix(run.emitted[i].translations, fin.state.committed) {
        PrefixTrans(run.emitted[i].translations, run.state.committed, fin.state.committed);
      }
      assert fin.emitted == run.emitted + [CompleteState(originals, fin.state)];
    }
  }

  /** The text appended to the buffer: the deltas up to the first "[DONE]" or error. */
  function StreamText(events: seq<Event>): string
    decreases |events|
  {
    if events == [] then ""
    else match events[0]
      case Delta(d) => d + StreamText(events[1..])
      case Noise => StreamText(events[1..])
      case Done => ""
      case Fail(_) => ""
  }

  lemma {:induction false} LoopContent(originals: seq<string>, r: Recon, events: seq<Event>)
    ensures Loop(originals, r, events).state.content == r.content + StreamText(events)
    decreases |events|
  {
    if events != [] {
      match events[0]
      case Noise =>
        LoopContent(originals, r, events[1..]);
      case Delta(d) =>
        LoopContent(originals, AfterDelta(r, d), events[1..]);
        AppendAssoc(r.content, d, StreamText(events[1..]));
      case Done =>
      case Fail(m) =>
    }
  }

  /** The buffer holds exactly the streamed deltas, in order. */
  lemma ProcessContent(originals: seq<string>, events: seq<Event>)
    ensures Process(originals, events).state.content == StreamText(events)
  {
    LoopContent(originals, Start, events);
    assert Start.content + StreamText(events) == StreamText(events);
  }

  /** Sentence `s` is at position `i` of what the first `n` characters of `content` extract to. */
  ghost predicate ExtractedAt(content: string, n: nat, i: nat, s: string)
  {
    n <= |content| && i < |Extract(content[..n])| && Extract(content[..n])[i] == s
  }

  /** Committed sentence `i` was extracted, at position `i`, from the first `at[i]` characters of the buffer. */
  ghost predicate Traced(r: Recon, at: seq<nat>)
  {
    |at| == |r.committed| && forall i :: 0 <= i < |at| ==> ExtractedAt(r.content, at[i], i, r.committed[i])
  }

  lemma ExtractedAtExtends(content: string, more: string, n: nat, i: nat, s: string)
    requires ExtractedAt(content, n, i, s)
    ensures ExtractedAt(content + more, n, i, s)
  {
    assert (content + more)[..n] == content[..n];
  }

  lemma ExtractedAtWhole(content: string, i: nat)
    requires i < |Extract(content)|
    ensures ExtractedAt(content, |content|, i, Extract(content)[i])
  {
    assert content[..|content|] == content;
  }

  /** Sentences committed before the buffer grew stay traceable in the longer buffer. */
  lemma TracedExtends(r: Recon, at: seq<nat>, more: string)
    requires Traced(r, at)
    ensures Traced(r.(content := r.content + more), at)
  {
    forall i | 0 <= i < |at| ensures ExtractedAt(r.content + more, at[i], i, r.committed[i]) {
      ExtractedAtExtends(r.content, more, at[i], i, r.committed[i]);
    }
  }

  /** Taking the new tail of the whole buffer's extraction keeps every sentence traceable. */
  lemma CommitTailTraced(r: Recon, at: seq<nat>, more: string) returns (at': seq<nat>)
    requires Traced(r, at)
    requires |Extract(r.content + more)| > |r.committed|
    ensures Traced(r.(content := r.content + more, committed := r.committed + Extract(r.content + more)[|r.committed|..]), at')
  {
    var content := r.content + more;
    var extracted := Extract(content);
    var committed := r.committed + extracted[|r.committed|..];
    TracedExtends(r, at, more);
    at' := at + seq(|extracted| - |r.committed|, _ => |content|);
    forall i | 0 <= i < |committed| ensures ExtractedAt(content, at'[i], i, committed[i]) {
      if i < |r.committed| {
        assert committed[i] == r.committed[i] && at'[i] == at[i];
      } else {
        assert committed[i] == extracted[i] && at'[i] == |content|;
        ExtractedAtWhole(content, i);
      }
    }
  }

  lemma AfterDeltaTraced(r: Recon, at: seq<nat>, delta: string) returns (at': seq<nat>)
    requires Traced(r, at)
    ensures Traced(AfterDelta(r, delta), at')
  {
    var content := r.content + delta;
    if Gate(delta, |content|, r) && |Extract(content)| > |r.committed| {
      at' := CommitTailTraced(r, at, delta);
    } else {
      TracedExtends(r, at, delta);
      at' := at;
    }
  }

  lemma CatchUpTraced(r: Recon, at: seq<nat>) returns (at': seq<nat>)
    requires Traced(r, at)
    ensures Traced(CatchUp(r), at')
  {
    at' := at;
    if |r.content| > 0 && |Extract(r.content)| > |r.committed| {
      assert r.content + "" == r.content;
      at' := CommitTailTraced(r, at, "");
    }
  }

  lemma {:induction false} LoopTraced(originals: seq<string>, r: Recon, at: seq<nat>, events: seq<Event>) returns (at': seq<nat>)
    requires Traced(r, at)
    ensures Traced(Loop(originals, r, events).state, at')
    decreases |events|
  {
    at' := at;
    if events != [] {
      match events[0]
      case Noise =>
        at' := LoopTraced(originals, r, at, events[1..]);
      case Delta(d) =>
        var mid := AfterDeltaTraced(r, at, d);
        at' := LoopTraced(originals, AfterDelta(r, d), mid, events[1..]);
      case Done =>
        at' := CatchUpTraced(r, at);
      case Fail(m) =>
        at' := CatchUpTraced(r, at);
    }
  }

  /**
   * Every translation `processStreamResponse` ends with is the text of a
   * line numbered with its position, found in some prefix of the streamed
   * text: the source reads translations off numbered lines and nothing else.
   */
  lemma CommittedFromNumberedLines(originals: seq<string>, events: seq<Event>, i: nat) returns (n: nat, j: nat)
    requires i < |Process(originals, events).state.committed|
    ensures n <= |StreamText(events)|
    ensures j < |Split(StreamText(events)[..n], '\n')|
    ensures Carries(Split(StreamText(events)[..n], '\n')[j], i + 1, Process(originals, events).state.committed[i])
  {
    var run := Loop(originals, Start, events);
    var at := LoopTraced(originals, Start, [], events);
    if Finally(originals, run) != run {
      at := CatchUpTraced(run.state, at);
    }
    var fin := Process(originals, events).state;
    ProcessContent(originals, events);
    n := at[i];
    var js := ExtractSources(fin.content[..n]);
    j := js[i];
  }

  /** Events before the loop ends: deltas and skipped lines only. */
  predicate Running(events: seq<Event>)
  {
    forall k :: 0 <= k < |events| ==> events[k].Delta? || events[k].Noise?
  }

  /** The read loop stops at the first "[DONE]" or error: nothing after it is read. */
  lemma {:induction false} LoopStops(originals: seq<string>, r: Recon, pre: seq<Event>, t: Event, post: seq<Event>)
    requires Running(pre) && (t.Done? || t.Fail?)
    ensures Loop(originals, r, pre + [t] + post) == Loop(originals, r, pre + [t])
    decreases |pre|
  {
    if pre != [] {
      assert (pre + [t] + post)[1..] == pre[1..] + [t] + post;
      assert (pre + [t])[1..] == pre[1..] + [t];
      match pre[0]
      case Noise =>
        LoopStops(originals, r, pre[1..], t, post);
      case Delta(d) =>
        LoopStops(originals, AfterDelta(r, d), pre[1..], t, post);
    } else {
      assert (pre + [t] + post)[0] == t && (pre + [t])[0] == t;
    }
  }

  /** Once every sentence in the buffer is committed, the `finally` block does nothing. */
  lemma FinallyIdle(originals: seq<string>, run: Run)
    requires |run.state.committed| >= |Extract(run.state.content)|
    ensures Finally(originals, run) == run
  {
  }

  /** The run of the loop over `pre` and then a terminal event `t`. */
  lemma LoopThenStop(originals: seq<string>, pre: seq<Event>, t: Event)
    requires Running(pre) && (t.Done? || t.Fail?)
    ensures var first := Loop(originals, Start, pre);
      var r := CatchUp(first.state);
      Loop(originals, Start, pre + [t])
      == Run(r, first.emitted + [if t.Done? then CompleteState(originals, r) else FailState(originals, r, t.message)])
  {
    LoopSplit(originals, Start, pre, [t]);
    var first := Loop(originals, Start, pre);
    assert [t][0] == t && [t][1..] == [];
  }

  /**
   * On "[DONE]": nothing after it is read, `finally` adds nothing, and the
   * last state reported is complete, not translating, with index -1 and no
   * error, carrying every sentence extractable from the buffer.
   */
  lemma DoneEndsStream(originals: seq<string>, pre: seq<Event>, post: seq<Event>)
    requires Running(pre)
    ensures Process(originals, pre + [Done] + post) == Loop(originals, Start, pre + [Done])
    ensures |Process(originals, pre + [Done] + post).emitted| >= 1
    ensures var run := Process(originals, pre + [Done] + post);
      var last := run.emitted[|run.emitted| - 1];
      last.isComplete && !last.isTranslating && last.currentTranslatingIndex == -1 && last.error == None
      && last.translations == run.state.committed
      && |run.state.committed| >= |Extract(run.state.content)|
  {
    LoopStops(originals, Start, pre, Done, post);
    LoopThenStop(originals, pre, Done);
    FinallyIdle(originals, Loop(originals, Start, pre + [Done]));
  }

  /**
   * On a stream error: one more extraction runs, and the last state reported
   * carries the error message and every translation committed before the
   * error, which are never cleared.
   */
  lemma FailKeepsTranslations(originals: seq<string>, pre: seq<Event>, message: string, post: seq<Event>)
    requires Running(pre)
    ensures Process(originals, pre + [Fail(message)] + post) == Loop(originals, Start, pre + [Fail(message)])
    ensures |Process(originals, pre + [Fail(message)] + post).emitted| >= 1
    ensures var run := Process(originals, pre + [Fail(message)] + post);
      var last := run.emitted[|run.emitted| - 1];
      !last.isComplete && !last.isTranslating
      && last.error == Some(FailMessage(message, |run.state.committed|))
      && last.translations == run.state.committed
      && IsPrefix(Loop(originals, Start, pre).state.committed, last.translations)
  {
    var t := Fail(message);
    LoopStops(originals, Start, pre, t, post);
    LoopThenStop(originals, pre, t);
    FinallyIdle(originals, Loop(originals, Start, pre + [t]));
  }

  /** Running the loop over `pre` and then `post` is running it over `pre + post` when `pre` does not end it. */
  lemma {:induction false} LoopSplit(originals: seq<string>, r: Recon, pre: seq<Event>, post: seq<Event>)
    requires Running(pre)
    ensures var first := Loop(originals, r, pre);
      var second := Loop(originals, first.state, post);
      Loop(originals, r, pre + post) == Run(second.state, first.emitted + second.emitted)
    decreases |pre|
  {
    if pre == [] {
      assert pre + post == post;
    } else {
      assert (pre + post)[1..] == pre[1..] + post;
      match pre[0]
      case Noise =>
        LoopSplit(originals, r, pre[1..], post);
      case Delta(d) =>
        LoopSplit(originals, AfterDelta(r, d), pre[1..], post);
        var first := Loop(originals, AfterDelta(r, d), pre[1..]);
        var second := Loop(originals, first.state, post);
        assert [ProgressState(originals, AfterDelta(r, d))] + (first.emitted + second.emitted)
            == [ProgressState(originals, AfterDelta(r, d))] + first.emitted + second.emitted;
    }
  }

  /** At the end of `processStreamResponse`, either every original has a translation or nothing extractable is missing. */
  lemma ProcessNoLoss(originals: seq<string>, events: seq<Event>)
    ensures var s := Process(originals, events).state;
      |s.committed| >= |originals| || |s.committed| >= |Extract(s.content)|
  {
    var run := Loop(originals, Start, events);
    if |run.state.content| == 0 {
      assert run.state.content == "";
      ExtractEmpty();
    }
  }

  /** What an in-progress state shows: the index of the next sentence, and a partial only while sentences are missing. */
  predicate InProgressShape(originals: seq<string>, s: TranslationState)
  {
    s.isTranslating ==>
      !s.isComplete && s.error == None
      && s.currentTranslatingIndex == Min(|s.translations|, |originals| - 1)
      && (s.currentPartialTranslation != [] ==> |s.translations| < |originals|)
  }

  lemma {:induction false} LoopProgressShape(originals: seq<string>, r: Recon, events: seq<Event>)
    requires r.currentTranslatingIndex == |r.committed|
    ensures forall k :: 0 <= k < |Loop(originals, r, events).emitted| ==> InProgressShape(originals, Loop(originals, r, events).emitted[k])
    decreases |events|
  {
    if events != [] {
      match events[0]
      case Noise =>
        LoopProgressShape(originals, r, events[1..]);
      case Delta(d) =>
        LoopProgressShape(originals, AfterDelta(r, d), events[1..]);
      case Done =>
      case Fail(m) =>
    }
  }

  /**
   * State `s` is what the read loop reports once it has read the first `n`
   * events from `r`, all of them deltas or skipped lines: `q` is the
   * reconciler after exactly those events, `s` carries its translations, and
   * its partial is shown only while sentences are missing and more than 20
   * characters arrived since the last commit.
   */
  predicate ShownAt(originals: seq<string>, r: Recon, events: seq<Event>, s: TranslationState, q: Recon, n: nat)
  {
    n <= |events| && Running(events[..n]) && q == Loop(originals, r, events[..n]).state
    && q.content == r.content + StreamText(events[..n])
    && q.committed == s.translations && q.lastContentLength <= |q.content|
    && s.currentPartialTranslation ==
         if |q.committed| < |originals| && |q.content| > q.lastContentLength + 20
         then PartialTranslation(q.content, |q.committed|) else ""
  }

  lemma {:induction false} LoopPartial(originals: seq<string>, r: Recon, events: seq<Event>, k: nat) returns (q: Recon, n: nat)
    requires r.lastContentLength <= |r.content|
    requires k < |Loop(originals, r, events).emitted|
    ensures var s := Loop(originals, r, events).emitted[k];
      s.isTranslating ==> ShownAt(originals, r, events, s, q, n)
    decreases |events|, 1
  {
    if events[0].Noise? {
      q, n := NoisePartial(originals, r, events, k);
    } else if events[0].Delta? {
      q, n := DeltaPartial(originals, r, events, k);
    } else {
      q, n := r, 0;
      LastIsNotTranslating(originals, r, events);
    }
  }

  lemma {:induction false} NoisePartial(originals: seq<string>, r: Recon, events: seq<Event>, k: nat) returns (q: Recon, n: nat)
    requires r.lastContentLength <= |r.content|
    requires events != [] && events[0].Noise?
    requires k < |Loop(originals, r, events).emitted|
    ensures var s := Loop(originals, r, events).emitted[k];
      s.isTranslating ==> ShownAt(originals, r, events, s, q, n)
    decreases |events|, 0
  {
    assert Loop(originals, r, events) == Loop(originals, r, events[1..]);
    var q', n' := LoopPartial(originals, r, events[1..], k);
    q, n := q', n' + 1;
    var s := Loop(originals, r, events).emitted[k];
    if s.isTranslating {
      ShownAfterNoise(originals, r, events, s, q', n');
    }
  }

  lemma {:induction false} DeltaPartial(originals: seq<string>, r: Recon, events: seq<Event>, k: nat) returns (q: Recon, n: nat)
    requires r.lastContentLength <= |r.content|
    requires events != [] && events[0].Delta?
    requires k < |Loop(originals, r, events).emitted|
    ensures var s := Loop(originals, r, events).emitted[k];
      s.isTranslating ==> ShownAt(originals, r, events, s, q, n)
    decreases |events|, 0
  {
    var r' := AfterDelta(r, events[0].text);
    AfterDeltaLength(r, events[0].text);
    var rest := Loop(originals, r', events[1..]);
    assert Loop(originals, r, events).emitted == [ProgressState(originals, r')] + rest.emitted;
    if k == 0 {
      q, n := r', 1;
      ShownFirst(originals, r, events);
    } else {
      var q', n' := LoopPartial(originals, r', events[1..], k - 1);
      q, n := q', n' + 1;
      if rest.emitted[k - 1].isTranslating {
        ShownAfterDelta(originals, r, events, rest.emitted[k - 1], q', n');
      }
    }
  }

  /** A read loop that meets the end of the stream or a failure reports one final state. */
  lemma LastIsNotTranslating(originals: seq<string>, r: Recon, events: seq<Event>)
    requires events != [] && !events[0].Noise? && !events[0].Delta?
    ensures |Loop(originals, r, events).emitted| == 1
    ensures !Loop(originals, r, events).emitted[0].isTranslating
  {
  }

  lemma ShownFirst(originals: seq<string>, r: Recon, events: seq<Event>)
    requires r.lastContentLength <= |r.content|
    requires |events| >= 1 && events[0].Delta?
    ensures var r' := AfterDelta(r, events[0].text);
      ShownAt(originals, r, events, ProgressState(originals, r'), r', 1)
  {
    var r' := AfterDelta(r, events[0].text);
    AfterDeltaLength(r, events[0].text);
    StreamTextStep(events, 1);
    assert events[1..][..0] == [];
    assert events[..1][1..] == [];
    assert Loop(originals, r, events[..1]).state == Loop(originals, r', []).state;
  }

  lemma ShownAfterNoise(originals: seq<string>, r: Recon, events: seq<Event>, s: TranslationState, q: Recon, n: nat)
    requires |events| >= 1 && events[0].Noise?
    requires ShownAt(originals, r, events[1..], s, q, n)
    ensures ShownAt(originals, r, events, s, q, n + 1)
  {
    var t := StreamText(events[1..][..n]);
    StreamTextStep(events, n + 1);
    assert "" + t == t;
    assert StreamText(events[..n + 1]) == t;
    RunningStep(events, n);
    assert Loop(originals, r, events[..n + 1]) == Loop(originals, r, events[1..][..n]);
  }

  lemma ShownAfterDelta(originals: seq<string>, r: Recon, events: seq<Event>, s: TranslationState, q: Recon, n: nat)
    requires |events| >= 1 && events[0].Delta?
    requires ShownAt(originals, AfterDelta(r, events[0].text), events[1..], s, q, n)
    ensures ShownAt(originals, r, events, s, q, n + 1)
  {
    StreamTextStep(events, n + 1);
    AppendAssoc(r.content, events[0].text, StreamText(events[1..][..n]));
    RunningStep(events, n);
    assert Loop(originals, r, events[..n + 1]).state
      == Loop(originals, AfterDelta(r, events[0].text), events[1..][..n]).state;
  }

  /** Reading one more event that is a delta or a skipped line keeps the prefix running. */
  lemma RunningStep(events: seq<Event>, n: nat)
    requires n + 1 <= |events| && (events[0].Delta? || events[0].Noise?)
    requires Running(events[1..][..n])
    ensures events[..n + 1][1..] == events[1..][..n] && events[..n + 1][0] == events[0]
    ensures Running(events[..n + 1])
  {
    assert events[..n + 1][1..] == events[1..][..n];
    var p := events[..n + 1];
    var tail := events[1..][..n];
    forall k | 0 <= k < |p| ensures p[k].Delta? || p[k].Noise? {
      if k > 0 {
        assert p[k] == tail[k - 1];
      }
    }
  }

  /** The text of the first `n` events, a delta or a skipped line first. */
  lemma StreamTextStep(events: seq<Event>, n: nat)
    requires 1 <= n <= |events| && (events[0].Delta? || events[0].Noise?)
    ensures StreamText(events[..n]) == (if events[0].Delta? then events[0].text else "") + StreamText(events[1..][..n - 1])
  {
    assert events[..n][1..] == events[1..][..n - 1];
  }

  /** The length recorded at the last commit never exceeds the buffer. */
  lemma AfterDeltaLength(r: Recon, delta: string)
    requires r.lastContentLength <= |r.content|
    ensures AfterDelta(r, delta).lastContentLength <= |AfterDelta(r, delta).content|
  {
  }

  /** The same for every state `processStreamResponse` reports while translating. */
  lemma ProcessPartial(originals: seq<string>, events: seq<Event>, k: nat) returns (q: Recon, n: nat)
    requires k < |Process(originals, events).emitted|
    ensures var s := Process(originals, events).emitted[k];
      s.isTranslating ==> ShownAt(originals, Start, events, s, q, n)
  {
    var run := Loop(originals, Start, events);
    q, n := Start, 0;
    if k < |run.emitted| {
      q, n := LoopPartial(originals, Start, events, k);
      assert Process(originals, events).emitted[k] == run.emitted[k];
    }
  }

  /**
   * Every state `processStreamResponse` reports while translating has index
   * min(translations so far, originals - 1) and a non-empty partial only
   * while translations are missing; the other states are not translating.
   */
  lemma ProcessProgressShape(originals: seq<string>, events: seq<Event>)
    ensures forall k :: 0 <= k < |Process(originals, events).emitted| ==> InProgressShape(originals, Process(originals, events).emitted[k])
  {
    LoopProgressShape(originals, Start, events);
  }

  /** Deltas without a trigger never run the extraction: nothing is committed and no attempt is counted. */
  lemma {:induction false} LoopWithoutTrigger(originals: seq<string>, r: Recon, events: seq<Event>)
    requires forall k :: 0 <= k < |events| ==> events[k].Noise? || (events[k].Delta? && !ShouldAttemptExtraction(events[k].text))
    ensures var run := Loop(originals, r, events);
      run.state.committed == r.committed && run.state.extractionAttempts == r.extractionAttempts
      && forall k :: 0 <= k < |run.emitted| ==> run.emitted[k].translations == r.committed
    decreases |events|
  {
    if events != [] {
      LoopWithoutTrigger(originals, AfterDelta(r, if events[0].Delta? then events[0].text else ""), events[1..]);
      if events[0].Noise? {
        LoopWithoutTrigger(originals, r, events[1..]);
      }
    }
  }

  lemma ExtractSingleLine(k: nat, text: string)
    requires k == 1 && Encodable(text)
    ensures Extract(NumberedLine(k, text)) == [text]
  {
    var line := NumberedLine(k, text);
    NumberedLineHasNoNewline(k, text);
    SplitWithout(line, '\n');
    DecodeNumberedLine(k, text);
    var e := DecodeLines([line]);
    DecodeLinesAt([line], 0);
    var acc: seq<string> := [];
    assert Collect(acc, e) == Collect(Accept(acc, e[0]), e[1..]);
  }

  /** The first numbered line of a stream always passes the gate. */
  lemma FirstLineTriggers(a: string)
    ensures ShouldAttemptExtraction(NumberedLine(1, a))
  {
    var line := NumberedLine(1, a);
    assert NatToString(1) == "1";
    assert line[0] == '1' && line[1] == '.';
    assert AllDigits(line[0..1]);
  }

  /**
   * An early commit is frozen: once "1. a" has been committed, a delta `b`
   * without a trigger grows the line to "1. ab" and the whole buffer then
   * extracts to `a + b`, yet "[DONE]" ends the stream with `a`.
   */
  lemma EarlyCommitIsFrozen(originals: seq<string>, a: string, b: string)
    requires Encodable(a) && Encodable(a + b) && !ShouldAttemptExtraction(b)
    ensures Extract(NumberedLine(1, a) + b) == [a + b]
    ensures Process(originals, [Delta(NumberedLine(1, a)), Delta(b), Done]).state.committed == [a]
  {
    var line := NumberedLine(1, a);
    var r1 := FrozenFirst(a);
    var r2 := AfterDelta(r1, b);
    assert r2 == r1.(content := line + b);
    FrozenCatchUp(a, b, r2);
    var pre := [Delta(line), Delta(b)];
    FrozenLoop(originals, pre, r1, r2);
    FrozenProcess(originals, line, b, r2);
  }

  lemma FrozenProcess(originals: seq<string>, line: string, b: string, r2: Recon)
    requires Loop(originals, Start, [Delta(line), Delta(b)]).state == r2 && CatchUp(r2) == r2
    ensures Process(originals, [Delta(line), Delta(b), Done]).state == r2
  {
    var pre := [Delta(line), Delta(b)];
    assert Running(pre);
    assert [Delta(line), Delta(b), Done] == pre + [Done] + [];
    DoneEndsStream(originals, pre, []);
    LoopThenStop(originals, pre, Done);
  }

  lemma FrozenFirst(a: string) returns (r1: Recon)
    requires Encodable(a)
    ensures r1 == AfterDelta(Start, NumberedLine(1, a))
    ensures r1.committed == [a] && r1.content == NumberedLine(1, a)
  {
    var line := NumberedLine(1, a);
    assert Start.content + line == line;
    ExtractSingleLine(1, a);
    FirstLineTriggers(a);
    assert Gate(line, |line|, Start);
    r1 := AfterDelta(Start, line);
    assert r1 == Recon(line, [] + [a][0..], 0, |line|, 1);
  }

  lemma FrozenCatchUp(a: string, b: string, r2: Recon)
    requires Encodable(a + b) && r2.content == NumberedLine(1, a) + b && |r2.committed| == 1
    ensures CatchUp(r2) == r2
    ensures Extract(NumberedLine(1, a) + b) == [a + b]
  {
    assert NumberedLine(1, a) + b == NumberedLine(1, a + b);
    ExtractSingleLine(1, a + b);
  }

  lemma FrozenLoop(originals: seq<string>, pre: seq<Event>, r1: Recon, r2: Recon)
    requires |pre| == 2 && pre[0].Delta? && pre[1].Delta?
    requires r1 == AfterDelta(Start, pre[0].text) && r2 == AfterDelta(r1, pre[1].text)
    ensures Loop(originals, Start, pre).state == r2
  {
    var tail := pre[1..];
    assert tail[0] == pre[1] && tail[1..] == [];
    assert Loop(originals, r2, tail[1..]).state == r2;
    assert Loop(originals, r1, tail).state == r2;
  }

  predicate AllTranslating(states: seq<TranslationState>)
  {
    forall k :: 0 <= k < |states| ==> states[k].isTranslating && !states[k].isComplete
  }

  /** The read loop over deltas and skipped lines reports only in-progress states. */
  lemma {:induction false} LoopRunningTranslating(originals: seq<string>, r: Recon, events: seq<Event>)
    requires Running(events)
    ensures AllTranslating(Loop(originals, r, events).emitted)
    decreases |events|
  {
    if events != [] {
      var tail := events[1..];
      assert Running(tail) by {
        assert forall k :: 0 <= k < |tail| ==> tail[k] == events[k + 1];
      }
      var r' := if events[0].Delta? then AfterDelta(r, events[0].text) else r;
      LoopRunningTranslating(originals, r', tail);
      var rest := Loop(originals, r', tail);
      if events[0].Delta? {
        var p := ProgressState(originals, r');
        assert p.isTranslating && !p.isComplete;
        assert Loop(originals, r, events).emitted == [p] + rest.emitted;
      } else {
        assert Loop(originals, r, events) == rest;
      }
    }
  }

  /** A delta among the events makes the loop report at least one state. */
  lemma {:induction false} LoopReportsDelta(originals: seq<string>, r: Recon, events: seq<Event>, i: nat)
    requires Running(events) && i < |events| && events[i].Delta?
    ensures |Loop(originals, r, events).emitted| >= 1
    decreases i
  {
    if i > 0 {
      var tail := events[1..];
      assert tail[i - 1] == events[i];
      assert Running(tail) by {
        assert forall k :: 0 <= k < |tail| ==> tail[k] == events[k + 1];
      }
      if events[0].Noise? {
        LoopReportsDelta(originals, r, tail, i - 1);
      }
    }
  }

  /**
   * A stream that closes without "[DONE]" after every sentence was committed
   * leaves the caller with a last state that is still translating and not
   * complete: `finally` reports only when it finds more.
   */
  lemma ClosedWithoutDoneStaysTranslating(originals: seq<string>, events: seq<Event>, i: nat)
    requires Running(events) && i < |events| && events[i].Delta?
    requires |Loop(originals, Start, events).state.committed| >= |originals|
    ensures |Process(originals, events).emitted| >= 1
    ensures var last := Process(originals, events).emitted[|Process(originals, events).emitted| - 1];
      last.isTranslating && !last.isComplete
  {
    LoopRunningTranslating(originals, Start, events);
    LoopReportsDelta(originals, Start, events, i);
    assert Process(originals, events) == Loop(originals, Start, events);
  }

  // ---------------------------------------------------------------------
  // The translation flow

  /** What the chat-completion call comes back with. */
  datatype Response =
    | Rejected(code: int, message: string)
    | NoBody
    | Streamed(items: seq<StreamItem>)
    | CallFailed(exceptionMessage: Option<string>)

  /** The state reported before the request is sent. */
  function Preparing(originals: seq<string>): TranslationState
  {
    TranslationState(originals, [], -1, "", true, false, None)
  }

  /** `translateTextStream`: every state the flow reports for one text and one response. */
  function TranslateTextStream(originalText: string, response: Response): (states: seq<TranslationState>)
    ensures |states| >= 1
  {
    var originals := TextProcessor.SplitIntoSentences(originalText);
    [Preparing(originals)] +
      match response
      case Rejected(code, message) =>
        [TranslationState(originals, [], -1, "", false, false, Some("API请求失败: " + IntToString(code) + " " + message))]
      case NoBody =>
        [TranslationState(originals, [], -1, "", false, false, Some("响应体为空"))]
      case Streamed(items) =>
        Process(originals, Events(items)).emitted
      case CallFailed(message) =>
        [TranslationState([], [], -1, "", false, false, Some("翻译失败: " + MessageText(message)))]
  }

  /**
   * The flow first reports the split sentences with no translations; a
   * failed call ends it with one error state that carries no translations,
   * and an exception also loses the original sentences.
   */
  lemma TranslateFailures(originalText: string, response: Response)
    ensures var states := TranslateTextStream(originalText, response);
      states[0].originalSentences == TextProcessor.SplitIntoSentences(originalText)
      && states[0].translations == [] && states[0].isTranslating && states[0].error == None
      && (!response.Streamed? ==>
            |states| == 2 && states[1].error.Some? && !states[1].isTranslating && !states[1].isComplete
            && states[1].translations == []
            && (states[1].originalSentences == [] <==> (response.CallFailed? || states[0].originalSentences == [])))
  {
  }

  /** The last of `states` reports a complete translation, without error, of at least `n` sentences. */
  predicate EndsComplete(states: seq<TranslationState>, n: nat)
  {
    |states| >= 1
    && var last := states[|states| - 1];
    last.isComplete && !last.isTranslating && last.error == None && |last.translations| >= n
  }

  /**
   * A streamed response that reaches "[DONE]" ends the flow with a complete
   * state holding every sentence extractable from the streamed text.
   */
  lemma TranslateCompletes(originalText: string, items: seq<StreamItem>, pre: seq<Event>, post: seq<Event>)
    requires Events(items) == pre + [Done] + post && Running(pre)
    ensures var states := TranslateTextStream(originalText, Streamed(items));
      |states| >= 2 && EndsComplete(states, |Extract(StreamText(pre + [Done] + post))|)
  {
    var originals := TextProcessor.SplitIntoSentences(originalText);
    var run := Process(originals, pre + [Done] + post);
    StreamedStates(originalText, items);
    ProcessCompletes(originals, pre, post);
    EndsCompleteAfter(Preparing(originals), run.emitted, |Extract(StreamText(pre + [Done] + post))|);
  }

  lemma StreamedStates(originalText: string, items: seq<StreamItem>)
    ensures var originals := TextProcessor.SplitIntoSentences(originalText);
      TranslateTextStream(originalText, Streamed(items)) == [Preparing(originals)] + Process(originals, Events(items)).emitted
  {
  }

  /** The stream-processing half of `TranslateCompletes`. */
  lemma ProcessCompletes(originals: seq<string>, pre: seq<Event>, post: seq<Event>)
    requires Running(pre)
    ensures EndsComplete(Process(originals, pre + [Done] + post).emitted, |Extract(StreamText(pre + [Done] + post))|)
  {
    DoneEndsStream(originals, pre, post);
    ProcessContent(originals, pre + [Done] + post);
  }

  lemma EndsCompleteAfter(x: TranslationState, xs: seq<TranslationState>, n: nat)
    requires EndsComplete(xs, n)
    ensures |[x] + xs| >= 2 && EndsComplete([x] + xs, n)
  {
    assert ([x] + xs)[|xs|] == xs[|xs| - 1];
  }

  // ---------------------------------------------------------------------
  // The reconciler as the source keeps it: mutable variables updated per line.

  class StreamReconciler {
    const originals: seq<string>
    var content: string
    var committed: seq<string>
    var extractionAttempts: nat
    var lastContentLength: nat
    var currentTranslatingIndex: nat
    /** The states passed to `onStateUpdate`, in order. */
    var emitted: seq<TranslationState>

    function State(): Recon
      reads this
    {
      Recon(content, committed, extractionAttempts, lastContentLength, currentTranslatingIndex)
    }

    constructor(originalSentences: seq<string>)
      ensures originals == originalSentences
      ensures State() == Start && emitted == []
    {
      originals := originalSentences;
      content := "";
      committed := [];
      extractionAttempts := 0;
      lastContentLength := 0;
      currentTranslatingIndex := 0;
      emitted := [];
    }

    method OnDelta(delta: string)
      modifies this
      ensures State() == AfterDelta(old(State()), delta)
      ensures emitted == old(emitted) + [ProgressState(originals, State())]
    {
      ghost var before := State();
      content := content + delta;
      if Gate(delta, |content|, State()) {
        extractionAttempts := extractionAttempts + 1;
        var extracted, _ := ExtractTranslatedSentences(content, |committed|);
        if |extracted| > |committed| {
          committed := committed + extracted[|committed|..];
          currentTranslatingIndex := |committed|;
          lastContentLength := |content|;
          extractionAttempts := 0;
        }
      }
      assert State() == AfterDelta(before, delta);
      var partial := "";
      if |committed| < |originals| && |content| > lastContentLength + 20 {
        partial := PartialTranslation(content, |committed|);
      }
      var adjustedIndex := Min(currentTranslatingIndex, |originals| - 1);
      var reported := TranslationState(originals, committed, adjustedIndex, partial, true, false, None);
      assert reported == ProgressState(originals, State());
      emitted := emitted + [reported];
    }

    /** The forced extraction shared by "[DONE]", the error handler and `finally`. */
    method CatchUpNow()
      modifies this
      ensures State() == CatchUp(old(State()))
      ensures emitted == old(emitted)
    {
      if |content| > 0 {
        var extracted, _ := ExtractTranslatedSentences(content, |committed|);
        if |extracted| > |committed| {
          committed := committed + extracted[|committed|..];
        }
      }
    }

    method OnDone()
      modifies this
      ensures State() == CatchUp(old(State()))
      ensures emitted == old(emitted) + [CompleteState(originals, State())]
    {
      CatchUpNow();
      emitted := emitted + [CompleteState(originals, State())];
    }

    method OnFail(message: string)
      modifies this
      ensures State() == CatchUp(old(State()))
      ensures emitted == old(emitted) + [FailState(originals, State(), message)]
    {
      CatchUpNow();
      emitted := emitted + [FailState(originals, State(), message)];
    }

    method OnFinally()
      modifies this
      ensures Run(State(), emitted) == Finally(originals, old(Run(State(), emitted)))
    {
      if |committed| < |originals| && |content| > 0 {
        var before := |committed|;
        CatchUpNow();
        if |committed| > before {
          emitted := emitted + [CompleteState(originals, State())];
        }
      }
    }

    /** One framed line of the read loop; `stop` when the loop ends on it. */
    method Step(e: Event, ghost rest: seq<Event>) returns (stop: bool)
      modifies this
      ensures stop == (e.Done? || e.Fail?)
      ensures stop ==> Resume(originals, old(State()), old(emitted), [e] + rest) == Run(State(), emitted)
      ensures !stop ==> Resume(originals, old(State()), old(emitted), [e] + rest) == Resume(originals, State(), emitted, rest)
    {
      assert ([e] + rest)[1..] == rest;
      stop := false;
      match e {
        case Noise =>
        case Delta(d) =>
          OnDelta(d);
          assert old(emitted) + ([ProgressState(originals, State())] + Loop(originals, State(), rest).emitted)
              == emitted + Loop(originals, State(), rest).emitted;
        case Done =>
          OnDone();
          stop := true;
        case Fail(m) =>
          OnFail(m);
          stop := true;
      }
    }

    /** `processStreamResponse`: frame each line, stop at "[DONE]" or an error, then `finally`. */
    method ProcessStreamResponse(items: seq<StreamItem>)
      requires State() == Start && emitted == []
      modifies this
      ensures Run(State(), emitted) == Process(originals, Events(items))
    {
      var events := Events(items);
      var i := 0;
      var stopped := false;
      assert Resume(originals, State(), emitted, events) == Loop(originals, Start, events);
      while i < |items| && !stopped
        invariant 0 <= i <= |items|
        invariant !stopped ==> Resume(originals, State(), emitted, events[i..]) == Loop(originals, Start, events)
        invariant stopped ==> Loop(originals, Start, events) == Run(State(), emitted)
        decreases |items| - i, if stopped then 0 else 1
      {
        SuffixAt(events, i);
        assert Frame(items[i]) == events[i];
        stopped := Step(Frame(items[i]), events[i + 1..]);
        i := i + 1;
      }
      if !stopped {
        assert events[i..] == [];
        ResumeNothing(originals, State(), emitted);
      }
      ghost var loopRun := Run(State(), emitted);
      assert loopRun == Loop(originals, Start, events);
      OnFinally();
      assert Run(State(), emitted) == Finally(originals, loopRun);
    }
  }
}
