// TranslationSettings: the translation preferences kept in a key-value
// preference store, read back with defaults, and the display-mode enum.

module TranslationSettings {
  import opened Wrappers
  import opened Strings
  import opened Preferences

  const KeyApiKey: string := "api_key"
  const KeyTargetLanguage: string := "target_language"
  const KeyModel: string := "model"
  const KeyAutoTranslate: string := "auto_translate"
  const KeyDisplayMode: string := "display_mode"
  const KeyAnimationEnabled: string := "animation_enabled"

  const DefaultTargetLanguage: string := "中文"
  const DefaultModel: string := "Qwen/Qwen3-8B"
  const DefaultAutoTranslate: bool := false
  const DefaultAnimationEnabled: bool := true

  // ---------------------------------------------------------------------
  // Display mode

  /** Declared in the order ORIGINAL_ONLY, TRANSLATION_ONLY, BILINGUAL. */
  datatype DisplayMode = OriginalOnly | TranslationOnly | Bilingual

  const DefaultDisplayMode: DisplayMode := Bilingual

  function Ordinal(m: DisplayMode): (n: nat)
    ensures n < 3
  {
    match m
    case OriginalOnly => 0
    case TranslationOnly => 1
    case Bilingual => 2
  }

  /** `DisplayMode.values().getOrElse(ordinal) { BILINGUAL }`. */
  function FromOrdinal(n: int): (m: DisplayMode)
    ensures 0 <= n < 3 ==> Ordinal(m) == n
    ensures !(0 <= n < 3) ==> m == DefaultDisplayMode
  {
    if n == 0 then OriginalOnly
    else if n == 1 then TranslationOnly
    else Bilingual
  }

  function DisplayName(m: DisplayMode): string
  {
    match m
    case OriginalOnly => "仅原文"
    case TranslationOnly => "仅译文"
    case Bilingual => "双语对照"
  }

  /** `fromDisplayName`: the first mode, in declaration order, with that display name. */
  function FromDisplayName(name: string): (r: Option<DisplayMode>)
    ensures r.Some? ==> DisplayName(r.value) == name
    ensures r.None? <==> forall m: DisplayMode :: DisplayName(m) != name
  {
    if name == DisplayName(OriginalOnly) then Some(OriginalOnly)
    else if name == DisplayName(TranslationOnly) then Some(TranslationOnly)
    else if name == DisplayName(Bilingual) then Some(Bilingual)
    else None
  }

  /** Every mode is found again from its display name. */
  lemma DisplayNameRoundTrip(m: DisplayMode)
    ensures FromDisplayName(DisplayName(m)) == Some(m)
  {
    assert DisplayName(OriginalOnly) != DisplayName(TranslationOnly);
    assert DisplayName(OriginalOnly)[2] != DisplayName(Bilingual)[2];
    assert DisplayName(TranslationOnly)[2] != DisplayName(Bilingual)[2];
  }

  /** Every mode is found again from its stored ordinal. */
  lemma OrdinalRoundTrip(m: DisplayMode)
    ensures FromOrdinal(Ordinal(m)) == m
  {
  }

  // ---------------------------------------------------------------------
  // Reads with defaults

  function ApiKey(prefs: Prefs): string
  {
    GetString(prefs, KeyApiKey, "")
  }

  function TargetLanguage(prefs: Prefs): string
  {
    GetString(prefs, KeyTargetLanguage, DefaultTargetLanguage)
  }

  function Model(prefs: Prefs): string
  {
    GetString(prefs, KeyModel, DefaultModel)
  }

  function AutoTranslate(prefs: Prefs): bool
  {
    GetBool(prefs, KeyAutoTranslate, DefaultAutoTranslate)
  }

  function Mode(prefs: Prefs): DisplayMode
  {
    FromOrdinal(GetInt(prefs, KeyDisplayMode, Ordinal(DefaultDisplayMode)))
  }

  function AnimationEnabled(prefs: Prefs): bool
  {
    GetBool(prefs, KeyAnimationEnabled, DefaultAnimationEnabled)
  }

  /** Every setting as the getters read it. */
  datatype Settings = Settings(
    apiKey: string,
    targetLanguage: string,
    model: string,
    autoTranslate: bool,
    displayMode: DisplayMode,
    animationEnabled: bool)

  function Read(prefs: Prefs): Settings
  {
    Settings(ApiKey(prefs), TargetLanguage(prefs), Model(prefs), AutoTranslate(prefs), Mode(prefs), AnimationEnabled(prefs))
  }

  const Defaults: Settings := Settings("", DefaultTargetLanguage, DefaultModel, DefaultAutoTranslate, DefaultDisplayMode, DefaultAnimationEnabled)

  /** `isApiKeyConfigured`. */
  predicate ApiKeyConfigured(prefs: Prefs)
  {
    !IsBlank(ApiKey(prefs))
  }

  // ---------------------------------------------------------------------
  // Properties of the store

  /** An empty store reads as the defaults. */
  lemma EmptyStoreReadsDefaults()
    ensures Read(map[]) == Defaults
    ensures !ApiKeyConfigured(map[])
  {
  }

  /** A stored display ordinal out of range reads as BILINGUAL. */
  lemma BadOrdinalReadsBilingual(prefs: Prefs, n: int)
    requires !(0 <= n < 3)
    ensures Mode(prefs[KeyDisplayMode := Int(n)]) == Bilingual
  {
  }

  /** Writing a string setting is read back, and every other setting is unchanged. */
  lemma SetStringReadBack(prefs: Prefs, key: string, value: string)
    requires key == KeyApiKey || key == KeyTargetLanguage || key == KeyModel
    ensures var after := Read(prefs[key := Str(value)]);
      var before := Read(prefs);
      (key == KeyApiKey ==> after == before.(apiKey := value))
      && (key == KeyTargetLanguage ==> after == before.(targetLanguage := value))
      && (key == KeyModel ==> after == before.(model := value))
  {
  }

  /** Writing a boolean setting is read back, and every other setting is unchanged. */
  lemma SetBoolReadBack(prefs: Prefs, key: string, value: bool)
    requires key == KeyAutoTranslate || key == KeyAnimationEnabled
    ensures var after := Read(prefs[key := Bool(value)]);
      var before := Read(prefs);
      (key == KeyAutoTranslate ==> after == before.(autoTranslate := value))
      && (key == KeyAnimationEnabled ==> after == before.(animationEnabled := value))
  {
  }

  /** Writing the display mode as its ordinal is read back, and every other setting is unchanged. */
  lemma SetModeReadBack(prefs: Prefs, m: DisplayMode)
    ensures Read(prefs[KeyDisplayMode := Int(Ordinal(m))]) == Read(prefs).(displayMode := m)
  {
  }

  // ---------------------------------------------------------------------
  // The settings object over its preference store

  class TranslationSettings {
    var prefs: Prefs

    constructor(stored: Prefs)
      ensures prefs == stored
    {
      prefs := stored;
    }

    function Current(): Settings
      reads this
    {
      Read(prefs)
    }

    method SetApiKey(value: string)
      modifies this
      ensures prefs == old(prefs)[KeyApiKey := Str(value)]
      ensures Current() == old(Current()).(apiKey := value)
    {
      SetStringReadBack(prefs, KeyApiKey, value);
      prefs := prefs[KeyApiKey := Str(value)];
    }

    method SetTargetLanguage(value: string)
      modifies this
      ensures prefs == old(prefs)[KeyTargetLanguage := Str(value)]
      ensures Current() == old(Current()).(targetLanguage := value)
    {
      SetStringReadBack(prefs, KeyTargetLanguage, value);
      prefs := prefs[KeyTargetLanguage := Str(value)];
    }

    method SetModel(value: string)
      modifies this
      ensures prefs == old(prefs)[KeyModel := Str(value)]
      ensures Current() == old(Current()).(model := value)
    {
      SetStringReadBack(prefs, KeyModel, value);
      prefs := prefs[KeyModel := Str(value)];
    }

    method SetAutoTranslate(value: bool)
      modifies this
      ensures prefs == old(prefs)[KeyAutoTranslate := Bool(value)]
      ensures Current() == old(Current()).(autoTranslate := value)
    {
      SetBoolReadBack(prefs, KeyAutoTranslate, value);
      prefs := prefs[KeyAutoTranslate := Bool(value)];
    }

    method SetDisplayMode(value: DisplayMode)
      modifies this
      ensures prefs == old(prefs)[KeyDisplayMode := Int(Ordinal(value))]
      ensures Current() == old(Current()).(displayMode := value)
    {
      SetModeReadBack(prefs, value);
      prefs := prefs[KeyDisplayMode := Int(Ordinal(value))];
    }

    method SetAnimationEnabled(value: bool)
      modifies this
      ensures prefs == old(prefs)[KeyAnimationEnabled := Bool(value)]
      ensures Current() == old(Current()).(animationEnabled := value)
    {
      SetBoolReadBack(prefs, KeyAnimationEnabled, value);
      prefs := prefs[KeyAnimationEnabled := Bool(value)];
    }

    /** `isApiKeyConfigured`. */
    method IsApiKeyConfigured() returns (configured: bool)
      ensures configured <==> ApiKeyConfigured(prefs)
      ensures configured <==> exists i :: 0 <= i < |Current().apiKey| && !IsWhitespace(Current().apiKey[i])
    {
      var key := ApiKey(prefs);
      assert key == Current().apiKey;
      configured := !IsBlank(key);
    }

    /** `resetToDefault`: clears the store. */
    method ResetToDefault()
      modifies this
      ensures prefs == map[]
      ensures Current() == Defaults
    {
      prefs := map[];
      EmptyStoreReadsDefaults();
    }
  }
}
