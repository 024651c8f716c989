// Reader: how the reading screen turns translation states into per-sentence
// display pairs, rebuilds them from a chapter's cached translation, decides
// what to persist while a translation streams, and cycles the display mode.

module Reader {
  import opened Wrappers
  import opened Strings
  import TextProcessor
  import TranslationStatus
  import opened TranslationService
  import opened TranslationSettings

  /** One original sentence with what the reader shows beside it. */
  datatype SentencePair = SentencePair(
    original: string,
    translation: string,
    isTranslating: bool,
    isComplete: bool)

  /** `getOrElse(i) { "" }`. */
  function TranslationAt(translations: seq<string>, i: int): (t: string)
    ensures 0 <= i < |translations| ==> t == translations[i]
    ensures !(0 <= i < |translations|) ==> t == ""
  {
    if 0 <= i < |translations| then translations[i] else ""
  }

  // ---------------------------------------------------------------------
  // Merging a translation state

  function PairFor(state: TranslationState, i: nat): SentencePair
    requires i < |state.originalSentences|
  {
    var translation := TranslationAt(state.translations, i);
    var translating := i == state.currentTranslatingIndex && state.isTranslating;
    SentencePair(
      state.originalSentences[i],
      if translating then state.currentPartialTranslation else translation,
      translating,
      translation != "" && !translating)
  }

  function PairsFrom(state: TranslationState, i: nat): (pairs: seq<SentencePair>)
    requires i <= |state.originalSentences|
    ensures |pairs| == |state.originalSentences| - i
    ensures forall k :: 0 <= k < |pairs| ==> pairs[k] == PairFor(state, i + k)
    decreases |state.originalSentences| - i
  {
    if i == |state.originalSentences| then [] else [PairFor(state, i)] + PairsFrom(state, i + 1)
  }

  /** `updateSentencePairs`: None when the state carries no sentences (no update). */
  function UpdateSentencePairs(state: TranslationState): (r: Option<seq<SentencePair>>)
    ensures r.None? <==> state.originalSentences == []
  {
    if state.originalSentences == [] then None else Some(PairsFrom(state, 0))
  }

  /**
   * One pair per original sentence, in order, with the original unchanged;
   * a pair is translating exactly at the reported index while translating
   * and then shows the partial; every other pair shows its translation or
   * ""; a pair is complete exactly when it has a non-empty translation and
   * is not translating.
   */
  lemma UpdatedPairs(state: TranslationState, i: nat)
    requires state.originalSentences != [] && i < |state.originalSentences|
    ensures var pairs := UpdateSentencePairs(state).value;
      var translation := if i < |state.translations| then state.translations[i] else "";
      |pairs| == |state.originalSentences|
      && pairs[i].original == state.originalSentences[i]
      && (pairs[i].isTranslating <==> i == state.currentTranslatingIndex && state.isTranslating)
      && (pairs[i].isTranslating ==> pairs[i].translation == state.currentPartialTranslation)
      && (!pairs[i].isTranslating ==> pairs[i].translation == translation)
      && (pairs[i].isComplete <==> translation != "" && !pairs[i].isTranslating)
  {
  }

  /** At most one pair is translating. */
  lemma AtMostOneTranslating(state: TranslationState, i: nat, j: nat)
    requires state.originalSentences != []
    requires i < |state.originalSentences| && j < |state.originalSentences|
    ensures var pairs := UpdateSentencePairs(state).value;
      pairs[i].isTranslating && pairs[j].isTranslating ==> i == j
  {
  }

  // ---------------------------------------------------------------------
  // Display mode

  /** The display-mode button. */
  function NextMode(m: DisplayMode): (n: DisplayMode)
    ensures n != m
  {
    match m
    case OriginalOnly => Bilingual
    case Bilingual => TranslationOnly
    case TranslationOnly => OriginalOnly
  }

  /** Three presses return to the starting mode, passing through every mode. */
  lemma ModeCycle(m: DisplayMode, n: DisplayMode)
    ensures NextMode(NextMode(NextMode(m))) == m
    ensures NextMode(NextMode(m)) != m
    ensures n == m || n == NextMode(m) || n == NextMode(NextMode(m))
  {
  }

  /** A press advances the mode and stores it in the settings. */
  method ToggleDisplayMode(settings: TranslationSettings, m: DisplayMode) returns (next: DisplayMode)
    modifies settings
    ensures next == NextMode(m)
    ensures settings.Current() == old(settings.Current()).(displayMode := next)
  {
    next := NextMode(m);
    settings.SetDisplayMode(next);
  }

  // ---------------------------------------------------------------------
  // Loading a chapter's cached translation

  /** The columns of a chapter row the reader uses; the sentence lists are stored as JSON text. */
  datatype ChapterRecord = ChapterRecord(
    content: Option<string>,
    translationStatus: int,
    originalSentencesJson: Option<string>,
    translatedSentencesJson: Option<string>)

  /** What the JSON decoder makes of the two stored lists; None when it throws or yields null. */
  datatype DecodedLists = DecodedLists(originals: Option<seq<string>>, translations: Option<seq<string>>)

  predicate HasCachedTranslation(chapter: ChapterRecord)
  {
    chapter.translationStatus == TranslationStatus.COMPLETED
    && chapter.originalSentencesJson.Some? && chapter.originalSentencesJson.value != ""
    && chapter.translatedSentencesJson.Some? && chapter.translatedSentencesJson.value != ""
  }

  function CachedPairs(originals: seq<string>, translations: seq<string>, i: nat): (pairs: seq<SentencePair>)
    requires i <= |originals|
    ensures |pairs| == |originals| - i
    ensures forall k :: 0 <= k < |pairs| ==> pairs[k] == SentencePair(originals[i + k], TranslationAt(translations, i + k), false, true)
    decreases |originals| - i
  {
    if i == |originals| then []
    else [SentencePair(originals[i], TranslationAt(translations, i), false, true)] + CachedPairs(originals, translations, i + 1)
  }

  function BasicPairs(sentences: seq<string>): (pairs: seq<SentencePair>)
    ensures |pairs| == |sentences|
    ensures forall k :: 0 <= k < |pairs| ==> pairs[k] == SentencePair(sentences[k], "", false, false)
  {
    if sentences == [] then [] else [SentencePair(sentences[0], "", false, false)] + BasicPairs(sentences[1..])
  }

  /** `loadTranslationData`; a failing decode lands in the handler, which splits the content. */
  function LoadTranslationData(actualContent: Option<string>, chapter: ChapterRecord, decoded: DecodedLists): seq<SentencePair>
  {
    if actualContent.None? && chapter.content.None? then []
    else
      var content := if actualContent.Some? then actualContent.value else chapter.content.value;
      if HasCachedTranslation(chapter) && decoded.originals.Some? && decoded.translations.Some? then
        CachedPairs(decoded.originals.value, decoded.translations.value, 0)
      else
        BasicPairs(TextProcessor.SplitIntoSentences(content))
  }

  /**
   * A completed cache yields one complete, non-translating pair per cached
   * original, with "" where a translation is missing; anything else yields
   * one untranslated pair per sentence of the content.
   */
  lemma LoadedPairs(actualContent: Option<string>, chapter: ChapterRecord, decoded: DecodedLists)
    requires actualContent.Some? || chapter.content.Some?
    ensures var pairs := LoadTranslationData(actualContent, chapter, decoded);
      var content := if actualContent.Some? then actualContent.value else chapter.content.value;
      if HasCachedTranslation(chapter) && decoded.originals.Some? && decoded.translations.Some? then
        |pairs| == |decoded.originals.value|
        && forall k :: 0 <= k < |pairs| ==>
             pairs[k].original == decoded.originals.value[k] && pairs[k].isComplete && !pairs[k].isTranslating
             && pairs[k].translation == (if k < |decoded.translations.value| then decoded.translations.value[k] else "")
      else
        var sentences := TextProcessor.SplitIntoSentences(content);
        |pairs| == |sentences|
        && forall k :: 0 <= k < |pairs| ==>
             pairs[k].original == sentences[k] && pairs[k].translation == "" && !pairs[k].isComplete && !pairs[k].isTranslating
  {
  }

  /** With no content at all there is nothing to show. */
  lemma LoadWithoutContent(chapter: ChapterRecord, decoded: DecodedLists)
    requires chapter.content.None?
    ensures LoadTranslationData(None, chapter, decoded) == []
  {
  }

  // ---------------------------------------------------------------------
  // Persisting a translation

  /** A database write made while a translation runs. */
  datatype Write =
    | SetStatus(status: int)
    | SaveTranslation(translatedContent: string, originalSentences: seq<string>, translations: seq<string>, status: int)

  predicate Persistable(state: TranslationState)
  {
    state.isComplete && state.error == None
  }

  function SavesFor(states: seq<TranslationState>): (writes: seq<Write>)
    ensures |writes| <= |states|
    ensures forall k :: 0 <= k < |writes| ==> writes[k].SaveTranslation? && writes[k].status == TranslationStatus.COMPLETED
  {
    if states == [] then []
    else
      var s := states[0];
      (if Persistable(s) then [SaveTranslation(Join(s.translations, "\n"), s.originalSentences, s.translations, TranslationStatus.COMPLETED)] else [])
      + SavesFor(states[1..])
  }

  /** `actualContent ?: chapterEntity.content`: the text loaded for the reader, else the stored chapter text. */
  function ContentToTranslate(actualContent: Option<string>, storedContent: Option<string>): (content: Option<string>)
    ensures content.None? <==> actualContent.None? && storedContent.None?
    ensures actualContent.Some? ==> content == actualContent
  {
    if actualContent.Some? then actualContent else storedContent
  }

  /**
   * `startTranslation` over the states the flow reported for `content`:
   * without content it returns before any write; otherwise the status is set
   * to TRANSLATING first, each complete state without error is saved with
   * status COMPLETED, and an exception marks the chapter ERROR.
   */
  function StartTranslation(content: Option<string>, states: seq<TranslationState>, thrown: bool): (writes: seq<Write>)
    ensures content.None? <==> writes == []
    ensures content.Some? ==> writes[0] == SetStatus(TranslationStatus.TRANSLATING)
  {
    if content.None? then []
    else [SetStatus(TranslationStatus.TRANSLATING)] + SavesFor(states) + (if thrown then [SetStatus(TranslationStatus.ERROR)] else [])
  }

  /** A chapter with neither loaded nor stored content keeps its status. */
  lemma NoContentKeepsStatus(states: seq<TranslationState>, thrown: bool, initial: int)
    ensures FinalStatus(StartTranslation(ContentToTranslate(None, None), states, thrown), initial) == initial
  {
  }

  /** The status a chapter is left with after the writes. */
  function FinalStatus(writes: seq<Write>, initial: int): (status: int)
    ensures writes == [] ==> status == initial
    ensures writes != [] ==> status == writes[|writes| - 1].status
    decreases |writes|
  {
    if writes == [] then initial else FinalStatus(writes[1..], writes[0].status)
  }

  /** Every save comes from a complete state without error, and the saved text splits back into its translations. */
  lemma {:induction false} SavesComeFromCompleteStates(states: seq<TranslationState>, k: nat) returns (j: nat)
    requires k < |SavesFor(states)|
    ensures j < |states| && Persistable(states[j])
    ensures SavesFor(states)[k] == SaveTranslation(Join(states[j].translations, "\n"), states[j].originalSentences, states[j].translations, TranslationStatus.COMPLETED)
    decreases |states|
  {
    var s := states[0];
    var head: seq<Write> := if Persistable(s) then [SaveTranslation(Join(s.translations, "\n"), s.originalSentences, s.translations, TranslationStatus.COMPLETED)] else [];
    assert SavesFor(states) == head + SavesFor(states[1..]);
    if k < |head| {
      assert SavesFor(states)[k] == head[0];
      j := 0;
    } else {
      var i := SavesComeFromCompleteStates(states[1..], k - |head|);
      assert states[1..][i] == states[i + 1];
      j := i + 1;
    }
  }

  /** No complete state without error means no save. */
  lemma {:induction false} NothingPersistableNoSave(states: seq<TranslationState>)
    requires forall k :: 0 <= k < |states| ==> !Persistable(states[k])
    ensures SavesFor(states) == []
    decreases |states|
  {
    if states != [] {
      NothingPersistableNoSave(states[1..]);
    }
  }

  lemma {:induction false} FinalStatusOfSaves(saves: seq<Write>, initial: int)
    requires forall k :: 0 <= k < |saves| ==> saves[k].status == TranslationStatus.COMPLETED
    ensures FinalStatus(saves, initial) == if saves == [] then initial else TranslationStatus.COMPLETED
    decreases |saves|
  {
    if saves != [] {
      FinalStatusOfSaves(saves[1..], saves[0].status);
    }
  }

  lemma {:induction false} FinalStatusAppend(a: seq<Write>, b: seq<Write>, initial: int)
    ensures FinalStatus(a + b, initial) == FinalStatus(b, FinalStatus(a, initial))
    decreases |a|
  {
    if a == [] {
      assert a + b == b;
    } else {
      assert (a + b)[1..] == a[1..] + b;
      FinalStatusAppend(a[1..], b, a[0].status);
    }
  }

  /**
   * The chapter ends COMPLETED when some reported state was complete without
   * error and nothing threw, ERROR when something threw, and otherwise stays
   * TRANSLATING: a flow that ends in an error state is never marked ERROR.
   */
  lemma FinalStatusOfTranslation(content: string, states: seq<TranslationState>, thrown: bool, initial: int)
    ensures var status := FinalStatus(StartTranslation(Some(content), states, thrown), initial);
      (thrown ==> status == TranslationStatus.ERROR)
      && (!thrown && (exists k :: 0 <= k < |states| && Persistable(states[k])) ==> status == TranslationStatus.COMPLETED)
      && (!thrown && (forall k :: 0 <= k < |states| ==> !Persistable(states[k])) ==> status == TranslationStatus.TRANSLATING)
  {
    var saves := SavesFor(states);
    var tail: seq<Write> := if thrown then [SetStatus(TranslationStatus.ERROR)] else [];
    assert StartTranslation(Some(content), states, thrown) == [SetStatus(TranslationStatus.TRANSLATING)] + saves + tail;
    FinalStatusAppend([SetStatus(TranslationStatus.TRANSLATING)] + saves, tail, initial);
    FinalStatusAppend([SetStatus(TranslationStatus.TRANSLATING)], saves, initial);
    FinalStatusOfSaves(saves, TranslationStatus.TRANSLATING);
    if !thrown && exists k :: 0 <= k < |states| && Persistable(states[k]) {
      SaveForPersistable(states);
    }
    if forall k :: 0 <= k < |states| ==> !Persistable(states[k]) {
      NothingPersistableNoSave(states);
    }
  }

  lemma {:induction false} SaveForPersistable(states: seq<TranslationState>)
    requires exists k :: 0 <= k < |states| && Persistable(states[k])
    ensures SavesFor(states) != []
    decreases |states|
  {
    if !Persistable(states[0]) {
      var k :| 0 <= k < |states| && Persistable(states[k]);
      assert states[1..][k - 1] == states[k];
      SaveForPersistable(states[1..]);
    }
  }

  /**
   * Persisting the final state of a completed translation and loading it
   * back shows the same translations the merge showed: one complete pair
   * per sentence with its translation, when no translation is missing or
   * empty and the lists decode back.
   */
  lemma PersistThenLoad(state: TranslationState, content: string)
    requires Persistable(state) && !state.isTranslating && state.originalSentences != []
    requires |state.translations| == |state.originalSentences|
    requires forall k :: 0 <= k < |state.translations| ==> state.translations[k] != ""
    ensures var record := ChapterRecord(Some(content), TranslationStatus.COMPLETED, Some("[…]"), Some("[…]"));
      var loaded := LoadTranslationData(None, record, DecodedLists(Some(state.originalSentences), Some(state.translations)));
      loaded == UpdateSentencePairs(state).value
  {
    var record := ChapterRecord(Some(content), TranslationStatus.COMPLETED, Some("[…]"), Some("[…]"));
    var loaded := LoadTranslationData(None, record, DecodedLists(Some(state.originalSentences), Some(state.translations)));
    var shown := UpdateSentencePairs(state).value;
    assert |loaded| == |shown|;
    forall k | 0 <= k < |loaded|
      ensures loaded[k] == shown[k]
    {
      assert !state.isTranslating;
    }
  }
  /** A translation whose stream reaches "[DONE]" leaves the chapter COMPLETED. */
  lemma DoneStreamIsSaved(text: string, items: seq<StreamItem>, pre: seq<Event>, post: seq<Event>, initial: int)
    requires Events(items) == pre + [Done] + post && Running(pre)
    ensures FinalStatus(StartTranslation(Some(text), TranslateTextStream(text, Streamed(items)), false), initial) == TranslationStatus.COMPLETED
  {
    TranslateCompletes(text, items, pre, post);
    CompleteLastIsSaved(text, TranslateTextStream(text, Streamed(items)), initial);
  }

  lemma CompleteLastIsSaved(content: string, states: seq<TranslationState>, initial: int)
    requires EndsComplete(states, 0)
    ensures FinalStatus(StartTranslation(Some(content), states, false), initial) == TranslationStatus.COMPLETED
  {
    assert Persistable(states[|states| - 1]);
    FinalStatusOfTranslation(content, states, false, initial);
  }

  /** A rejected or failed request reports only error states, so the chapter stays TRANSLATING. */
  lemma FailedRequestStaysTranslating(text: string, response: Response, initial: int)
    requires !response.Streamed?
    ensures FinalStatus(StartTranslation(Some(text), TranslateTextStream(text, response), false), initial) == TranslationStatus.TRANSLATING
  {
    var states := TranslateTextStream(text, response);
    TranslateFailures(text, response);
    assert forall k :: 0 <= k < |states| ==> !Persistable(states[k]) by {
      assert |states| == 2;
    }
    FinalStatusOfTranslation(text, states, false, initial);
  }
}
