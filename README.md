# Verified model of a web-novel reader's core

This project models, in Dafny, the core logic of an Android web-novel reader. The reader imports novels from
ncode.syosetu.com (Narou) and translates chapters sentence by sentence with a streaming language-model API. Each
Kotlin core file becomes one module:

- `TranslationService` (translation_service.dfy) covers the translation pipeline:
  - the numbered translation prompt;
  - the numbered-line extractor (`^(\d+)\. (.+)$`);
  - the partial preview and the extraction gate;
  - the server-sent-event read loop, which turns a stream of deltas into a growing list of translations.

  The loop is a pure specification (`Recon`, `AfterDelta`, `CatchUp`, `Loop`, `Finally`, `Process`). The class
  `StreamReconciler` holds the loop's mutable variables. Its methods are proved to follow that specification, and
  the lemmas prove what the stream promises:
  - translations are append-only;
  - the buffer is exactly the streamed text;
  - every commit comes from a numbered line;
  - how "[DONE]", errors and `finally` end the stream;
  - extraction round-trips the numbered block the prompt builds.
- `Reader` (reader.dfy) covers the reading screen:
  - how states become per-sentence display pairs;
  - how a cached translation is rebuilt;
  - what is saved while a translation streams, and which status the chapter ends with;
  - the display-mode cycle.
- `TextProcessor` covers line-based sentence splitting, the "【句子】" tagged format and its parser, HTML and
  whitespace cleanup, and the counting language detector.
- `NarouContent`, `Syosetu` and `NarouApi` cover the importers:
  - the paged chapter-list crawler and its volume numbering;
  - the single-page table-of-contents parser with its sort by chapter number;
  - ncode validation and extraction;
  - the choice of novel record from an API reply.
- `NarouModels` covers the novel record's display helpers.
- `NetworkBookService` covers the parser registry and its first-match rule.
- `PageCache` is a class over an access-ordered LRU map, with its eviction rule.
- `DataConverter` covers the model-to-row conversions and their round trips.
- `TranslationSettings`, `UserInfoManager` and `Preferences` cover settings and the signed-in user, kept in a
  key-value preference store.
- `TranslationStatus` and `ImportProgress` cover the status codes, the import stages and the cancellation token.
- `Strings` holds the Kotlin string primitives these rely on: `trim` with `Char.isWhitespace`, `split`,
  `joinToString`, `replace`, and digit strings with `Int` overflow.

Where the code and its documentation differ, the model follows the code. In particular:

- The extraction gate in `processStreamResponse` needs a trigger in the delta ("。", a newline, a quote or `\d+\.`)
  and one of: more than 100 characters since the last commit, no extraction attempt yet, or a number of attempts
  divisible by 20. The extractor then accepts a numbered line once its text has two characters, so a line may be
  committed while still only two characters long. A later delta that continues it without a trigger is never picked up: "[DONE]" ends with the early,
  truncated translation (`EarlyCommitIsFrozen`).
- "[DONE]" always reports COMPLETED, even when fewer translations than sentences were extracted.
- A stream that closes without "[DONE]" never reports a complete state; its last report is still translating
  (`ClosedWithoutDoneStaysTranslating`).
- The reader marks a chapter COMPLETED only after a complete state without error, and ERROR only when the
  collection throws. A flow that ends in an error state leaves the chapter TRANSLATING (`FailedRequestStaysTranslating`).
- Sentence segmentation splits at line breaks only, not at sentence punctuation.
- The exception branch of `translateTextStream` reports an error state without the original sentences. The
  rejected-request and empty-body branches keep them.
- In the Narou crawler, a volume title before the first chapter opens volume 2, because the volume order starts at
  1 and is incremented by every new title. The Syosetu parser puts the first chapter in volume 1 whatever titles
  precede it.
- Every chapter `href` the Narou crawler accepts starts with "/", so the branch of its URL builder that keeps an
  absolute `http` URL is never taken.
- In the Syosetu parser, an accepted link always carries its chapter number. The fallback to the running order
  applies only when that number does not fit in an `Int`.
- `isValidNcode` compiles `[A-Za-z]` with `IGNORE_CASE`, which in Kotlin implies Unicode case folding. So it also
  accepts 'İ' (U+0130), 'ı' (U+0131), 'ſ' (U+017F) and the Kelvin sign (U+212A).
- Lower-casing a valid ncode that ends in 'İ' yields eight characters, which is no longer a valid ncode.
- The Narou content parser accepts a URL only when it contains the lower-case "/n".

The Syosetu parser shares `NarouContent.CanParse` and `NarouContent.NovelId`, since its code for both is the same.

## Model

| member | source | states |
|---|---|---|
| TranslationStatus.StatusDescription | app/src/main/java/com/example/classwork2/database/entities/TranslationStatus.kt:15-22 | the description is "未知状态" exactly when the status is none of the four codes |
| TranslationStatus.DescriptionsDistinct | app/src/main/java/com/example/classwork2/database/entities/TranslationStatus.kt:16-20 | two known codes have the same description only if they are the same code |
| Preferences.GetString | app/src/main/java/com/example/classwork2/settings/TranslationSettings.kt:41 | a missing key reads as the default; a stored string is returned as stored |
| Preferences.GetBool | app/src/main/java/com/example/classwork2/settings/TranslationSettings.kt:69 | a missing key reads as the default; a stored boolean is returned as stored |
| Preferences.GetInt | app/src/main/java/com/example/classwork2/settings/TranslationSettings.kt:77 | a missing key reads as the default; a stored integer is returned as stored |
| TranslationSettings.Ordinal | app/src/main/java/com/example/classwork2/settings/TranslationSettings.kt:133-137 | the ordinal of a display mode is below 3 |
| TranslationSettings.DisplayName | app/src/main/java/com/example/classwork2/settings/TranslationSettings.kt:133-136 | no contract of its own: the three display names; `DisplayNameRoundTrip` states that each mode is found again from its name |
| TranslationSettings.FromOrdinal | app/src/main/java/com/example/classwork2/settings/TranslationSettings.kt:76-79 | an ordinal in 0..2 gives the mode with that ordinal; any other gives BILINGUAL |
| TranslationSettings.FromDisplayName | app/src/main/java/com/example/classwork2/settings/TranslationSettings.kt:139-141 | a found mode has the given display name; None exactly when no mode has it |
| TranslationSettings.DisplayNameRoundTrip | app/src/main/java/com/example/classwork2/settings/TranslationSettings.kt:133-141 | `fromDisplayName(m.displayName) == m` for every mode |
| TranslationSettings.OrdinalRoundTrip | app/src/main/java/com/example/classwork2/settings/TranslationSettings.kt:75-80 | a mode stored as its ordinal reads back as itself |
| TranslationSettings.EmptyStoreReadsDefaults | app/src/main/java/com/example/classwork2/settings/TranslationSettings.kt:28-35 | an empty store reads as apiKey "", "中文", "Qwen/Qwen3-8B", autoTranslate false, BILINGUAL, animation on, and no API key is configured |
| TranslationSettings.BadOrdinalReadsBilingual | app/src/main/java/com/example/classwork2/settings/TranslationSettings.kt:77-78 | a stored ordinal outside 0..2 reads as BILINGUAL |
| TranslationSettings.ApiKey | app/src/main/java/com/example/classwork2/settings/TranslationSettings.kt:40-41 | no contract of its own: the stored key, else ""; `EmptyStoreReadsDefaults` and `SetStringReadBack` state what it reads |
| TranslationSettings.TargetLanguage | app/src/main/java/com/example/classwork2/settings/TranslationSettings.kt:47-48 | no contract of its own: the stored language, else the default; `EmptyStoreReadsDefaults` and `SetStringReadBack` state what it reads |
| TranslationSettings.Model | app/src/main/java/com/example/classwork2/settings/TranslationSettings.kt:54-55 | no contract of its own: the stored model, else the default; `EmptyStoreReadsDefaults` and `SetStringReadBack` state what it reads |
| TranslationSettings.AutoTranslate | app/src/main/java/com/example/classwork2/settings/TranslationSettings.kt:68-69 | no contract of its own: the stored flag, else the default; `EmptyStoreReadsDefaults` and `SetBoolReadBack` state what it reads |
| TranslationSettings.Mode | app/src/main/java/com/example/classwork2/settings/TranslationSettings.kt:75-79 | no contract of its own: the mode at the stored ordinal, else BILINGUAL; `EmptyStoreReadsDefaults`, `BadOrdinalReadsBilingual` and `SetModeReadBack` state what it reads |
| TranslationSettings.AnimationEnabled | app/src/main/java/com/example/classwork2/settings/TranslationSettings.kt:85-86 | no contract of its own: the stored flag, else the default; `EmptyStoreReadsDefaults` and `SetBoolReadBack` state what it reads |
| TranslationSettings.SetStringReadBack | app/src/main/java/com/example/classwork2/settings/TranslationSettings.kt:40-56 | writing apiKey, targetLanguage or model reads back the value and leaves every other setting as it was |
| TranslationSettings.SetBoolReadBack | app/src/main/java/com/example/classwork2/settings/TranslationSettings.kt:68-70 | writing autoTranslate or animationEnabled reads back the value and leaves every other setting as it was |
| TranslationSettings.SetModeReadBack | app/src/main/java/com/example/classwork2/settings/TranslationSettings.kt:75-80 | writing the display mode as its ordinal reads back the mode and leaves every other setting as it was |
| TranslationSettings.TranslationSettings.constructor | app/src/main/java/com/example/classwork2/settings/TranslationSettings.kt:12-17 | the settings object starts on the given store |
| TranslationSettings.TranslationSettings.SetApiKey | app/src/main/java/com/example/classwork2/settings/TranslationSettings.kt:42 | stores the key under "api_key"; the settings read back change in apiKey only |
| TranslationSettings.TranslationSettings.SetTargetLanguage | app/src/main/java/com/example/classwork2/settings/TranslationSettings.kt:49 | stores under "target_language"; only targetLanguage changes |
| TranslationSettings.TranslationSettings.SetModel | app/src/main/java/com/example/classwork2/settings/TranslationSettings.kt:56 | stores under "model"; only model changes |
| TranslationSettings.TranslationSettings.SetAutoTranslate | app/src/main/java/com/example/classwork2/settings/TranslationSettings.kt:70 | stores under "auto_translate"; only autoTranslate changes |
| TranslationSettings.TranslationSettings.SetDisplayMode | app/src/main/java/com/example/classwork2/settings/TranslationSettings.kt:80 | stores the ordinal under "display_mode"; only displayMode changes |
| TranslationSettings.TranslationSettings.SetAnimationEnabled | app/src/main/java/com/example/classwork2/settings/TranslationSettings.kt:87 | stores under "animation_enabled"; only animationEnabled changes |
| TranslationSettings.TranslationSettings.IsApiKeyConfigured | app/src/main/java/com/example/classwork2/settings/TranslationSettings.kt:92-94 | true exactly when the API key has a character that is not whitespace |
| TranslationSettings.TranslationSettings.ResetToDefault | app/src/main/java/com/example/classwork2/settings/TranslationSettings.kt:99-101 | the store is empty and every setting reads as its default |
| ImportProgress.Ordinal | app/src/main/java/com/example/classwork2/network/ImportProgress.kt:19-25 | each of the five stages has an ordinal below 5 |
| ImportProgress.DisplayName | app/src/main/java/com/example/classwork2/network/ImportProgress.kt:19-25 | every stage has a non-empty display name |
| ImportProgress.StagesInOrder | app/src/main/java/com/example/classwork2/network/ImportProgress.kt:19-25 | the stage list is PREPARING, DOWNLOADING, PARSING, SAVING, COMPLETED: each stage sits at its ordinal and ordinals increase along the list |
| ImportProgress.DisplayNamesDistinct | app/src/main/java/com/example/classwork2/network/ImportProgress.kt:20-24 | two stages have the same display name only if they are the same stage |
| ImportProgress.Progress | app/src/main/java/com/example/classwork2/network/ImportProgress.kt:12 | zero when there are no steps (no division by zero); otherwise the fraction currentStep / totalSteps |
| ImportProgress.ProgressBounded | app/src/main/java/com/example/classwork2/network/ImportProgress.kt:12 | for 0 <= currentStep <= totalSteps the progress is in [0, 1], and is 1 exactly on the last step |
| ImportProgress.SimpleCancellationToken.constructor | app/src/main/java/com/example/classwork2/network/ImportProgress.kt:58-60 | a new token is not cancelled |
| ImportProgress.SimpleCancellationToken.Cancel | app/src/main/java/com/example/classwork2/network/ImportProgress.kt:64-66 | after `cancel` the token reports cancelled, however often it is called |
| ImportProgress.SimpleCancellationToken.IsCancelled | app/src/main/java/com/example/classwork2/network/ImportProgress.kt:62 | no contract of its own: reads the flag; the constructor and `Cancel` rows state its value |
| UserInfoManager.Saved | app/src/main/java/com/example/classwork2/UserInfoManager.kt:49-69 | saving writes the name and avatar type, then the icon name or the drawable id; no other key is added or changed, and the other avatar kind's key keeps its old value |
| UserInfoManager.SaveThenRead | app/src/main/java/com/example/classwork2/UserInfoManager.kt:49-94 | `getUserInfo()` after `saveUserInfo(u)` returns u, for icon and image avatars and whatever the store held |
| UserInfoManager.EmptyStoreReadsDefaults | app/src/main/java/com/example/classwork2/UserInfoManager.kt:77-84 | an empty store reads as username "" with the "person" icon, and holds no user |
| UserInfoManager.HasUserAfterSave | app/src/main/java/com/example/classwork2/UserInfoManager.kt:108-111 | after a save there is a user exactly when the saved name is non-empty |
| UserInfoManager.HasUser | app/src/main/java/com/example/classwork2/UserInfoManager.kt:108-111 | no contract of its own: a non-empty stored name; `HasUserAfterSave` and `EmptyStoreReadsDefaults` state when it holds |
| UserInfoManager.UnknownTypeReadsPersonIcon | app/src/main/java/com/example/classwork2/UserInfoManager.kt:90 | a stored avatar type other than "icon" and "image" reads as the "person" icon |
| UserInfoManager.IconOverImage | app/src/main/java/com/example/classwork2/UserInfoManager.kt:56-66 | an icon saved over an image reads back as the icon, while the stale drawable id stays in the store |
| UserInfoManager.UserInfoManager.constructor | app/src/main/java/com/example/classwork2/UserInfoManager.kt:41-42 | the manager works on the given store |
| UserInfoManager.UserInfoManager.SaveUserInfo | app/src/main/java/com/example/classwork2/UserInfoManager.kt:49-69 | the store becomes `Saved(old store, u)` and `getUserInfo()` then returns u |
| UserInfoManager.UserInfoManager.GetUserInfo | app/src/main/java/com/example/classwork2/UserInfoManager.kt:76-94 | the name is empty exactly when there is no user; the avatar is an image exactly when the stored type is "image" |
| UserInfoManager.UserInfoManager.ClearUserInfo | app/src/main/java/com/example/classwork2/UserInfoManager.kt:99-101 | the store is empty, `getUserInfo()` returns the defaults and `hasUserInfo()` is false |
| UserInfoManager.UserInfoManager.HasUserInfo | app/src/main/java/com/example/classwork2/UserInfoManager.kt:108-111 | no contract of its own: `HasUser` of the store; `ClearUserInfo` states it is false after clearing and `HasUserAfterSave` when it holds after a save |
| DataConverter.UserInfoToEntity | app/src/main/java/com/example/classwork2/database/converter/DataConverter.kt:20-37 | the row keeps the id and name; an icon gives type "icon", its name and no drawable; an image gives type "image", its drawable and no name |
| DataConverter.EntityToUserInfo | app/src/main/java/com/example/classwork2/database/converter/DataConverter.kt:42-53 | no contract of its own: the avatar chosen by type with the "person" and `av1` fallbacks; `UserRoundTrip`, `UserFallbacks` and `UserEntityRoundTrip` state it |
| DataConverter.UserRoundTrip | app/src/main/java/com/example/classwork2/database/converter/DataConverter.kt:20-53 | `entityToUserInfo(userInfoToEntity(u)) == u` for icon and image avatars |
| DataConverter.UserFallbacks | app/src/main/java/com/example/classwork2/database/converter/DataConverter.kt:43-47 | an unknown type gives the "person" icon; type "icon" without a name gives "person"; type "image" without a drawable gives the default drawable |
| DataConverter.UserEntityRoundTrip | app/src/main/java/com/example/classwork2/database/converter/DataConverter.kt:20-53 | a row survives a load and a store exactly when it has the shape `userInfoToEntity` writes (icon with name and no drawable, or image with drawable and no name) |
| DataConverter.BookRoundTrip | app/src/main/java/com/example/classwork2/database/converter/DataConverter.kt:60-84 | `entityToBook(bookToEntity(b))` is b with its chapters emptied |
| DataConverter.BookToEntity | app/src/main/java/com/example/classwork2/database/converter/DataConverter.kt:60-69 | no contract of its own: the six stored fields; `BookRoundTrip` and `BookEntityRoundTrip` state what a store and load keep |
| DataConverter.EntityToBook | app/src/main/java/com/example/classwork2/database/converter/DataConverter.kt:74-84 | no contract of its own: the stored fields with the given chapters; `BookRoundTrip` and `BookEntityRoundTrip` state it |
| DataConverter.BookEntityRoundTrip | app/src/main/java/com/example/classwork2/database/converter/DataConverter.kt:60-84 | `bookToEntity(entityToBook(e, cs)) == e` for any chapters cs |
| DataConverter.ChapterToEntity | app/src/main/java/com/example/classwork2/database/converter/DataConverter.kt:89-96 | the row carries the given bookId |
| DataConverter.EntityToChapter | app/src/main/java/com/example/classwork2/database/converter/DataConverter.kt:101-107 | no contract of its own: id, title and page count with every other field at its default; `ChapterRoundTrip` and `ChapterEntityRoundTrip` state it |
| DataConverter.ChapterRoundTrip | app/src/main/java/com/example/classwork2/database/converter/DataConverter.kt:89-107 | a stored and loaded chapter keeps id, title and page count, with the volume fields and order at their defaults; it is unchanged exactly when it had those defaults |
| DataConverter.ChapterEntityRoundTrip | app/src/main/java/com/example/classwork2/database/converter/DataConverter.kt:89-107 | a chapter row loaded and stored under its own book is the same row |
| DataConverter.BooksToEntities | app/src/main/java/com/example/classwork2/database/converter/DataConverter.kt:114-116 | one row per book, same length and order |
| DataConverter.EntitiesToBooks | app/src/main/java/com/example/classwork2/database/converter/DataConverter.kt:121-123 | one book per row, same length and order, without chapters |
| DataConverter.ChaptersToEntities | app/src/main/java/com/example/classwork2/database/converter/DataConverter.kt:128-130 | one row per chapter, same length and order, all under the given book |
| DataConverter.EntitiesToChapters | app/src/main/java/com/example/classwork2/database/converter/DataConverter.kt:135-137 | one chapter per row, same length and order |
| DataConverter.BatchRoundTrips | app/src/main/java/com/example/classwork2/database/converter/DataConverter.kt:114-123 | book rows survive a batch load and store unchanged; books come back position by position with their chapters emptied |
| DataConverter.BookWithChaptersToEntities | app/src/main/java/com/example/classwork2/database/converter/DataConverter.kt:142-146 | the book's row plus one row per chapter, in order, each stamped with the book's id and keeping the chapter's id, title and page count |
| DataConverter.BookWithChaptersRoundTrip | app/src/main/java/com/example/classwork2/database/converter/DataConverter.kt:101-107 | loading the rows of a book gives the book back exactly when none of its chapters has volume fields or an order |
| PageCache.Delete | app/src/main/java/com/example/classwork2/network/PageCache.kt:78-80 | the access order without u: exactly the other urls, unchanged when u is absent |
| PageCache.DeleteDistinct | app/src/main/java/com/example/classwork2/network/PageCache.kt:78-80 | removing a url keeps the access order free of duplicates and shortens it by one when the url was there |
| PageCache.Find | app/src/main/java/com/example/classwork2/network/PageCache.kt:43-45 | a document is found exactly when the url is cached |
| PageCache.PutWellformed | app/src/main/java/com/example/classwork2/network/PageCache.kt:16-38 | `put` keeps the cache well formed (order and map agree, no duplicates, each page under its own url) and the size at most maxSize |
| PageCache.PutNewWellformed | app/src/main/java/com/example/classwork2/network/PageCache.kt:16-38 | the same for a url not yet cached, where the eldest entry may be evicted |
| PageCache.GetWellformed | app/src/main/java/com/example/classwork2/network/PageCache.kt:43-45 | `get`, which reorders the access-ordered map, keeps the cache well formed |
| PageCache.RemoveWellformed | app/src/main/java/com/example/classwork2/network/PageCache.kt:78-80 | `remove` keeps the cache well formed |
| PageCache.FindAfterPut | app/src/main/java/com/example/classwork2/network/PageCache.kt:16-45 | after `put(url, d)` the evicted url (if any) is gone, url finds d, and every other url finds what it found before |
| PageCache.PutThenFind | app/src/main/java/com/example/classwork2/network/PageCache.kt:36-45 | with maxSize >= 1, `get(url)` right after `put(url, d)` returns d |
| PageCache.EvictsLeastRecentlyUsed | app/src/main/java/com/example/classwork2/network/PageCache.kt:17-19 | when a put evicts, the victim is the least recently accessed url, which was cached before and is not afterwards |
| PageCache.PutMakesMostRecent | app/src/main/java/com/example/classwork2/network/PageCache.kt:36-38 | after `put(url, d)` url is the most recently used entry |
| PageCache.PutExistingKeepsSize | app/src/main/java/com/example/classwork2/network/PageCache.kt:36-38 | `put` on a cached url replaces its document without changing the size or the set of urls |
| PageCache.GetKeepsContents | app/src/main/java/com/example/classwork2/network/PageCache.kt:43-45 | `get` of a cached url changes no lookup result and moves that url to the most recent end, keeping the others in order |
| PageCache.RemoveForgets | app/src/main/java/com/example/classwork2/network/PageCache.kt:78-80 | after `remove(u)` u is not found and every other url finds what it found before |
| PageCache.DistinctCard | app/src/main/java/com/example/classwork2/network/PageCache.kt:57-59 | a list without duplicates has as many elements as its set |
| PageCache.SizeIsListLength | app/src/main/java/com/example/classwork2/network/PageCache.kt:57-59 | in a well-formed cache the map has as many entries as the access order |
| PageCache.PageCache.constructor | app/src/main/java/com/example/classwork2/network/PageCache.kt:12-22 | a new cache is empty and well formed, with the given maxSize |
| PageCache.PageCache.Put | app/src/main/java/com/example/classwork2/network/PageCache.kt:36-38 | the cache becomes `AfterPut` of the old one (insert or replace, mark most recent, evict the eldest past maxSize) and stays well formed |
| PageCache.PageCache.Get | app/src/main/java/com/example/classwork2/network/PageCache.kt:43-45 | returns the stored document or None, marks the url most recently used, and stays well formed |
| PageCache.PageCache.Contains | app/src/main/java/com/example/classwork2/network/PageCache.kt:50-52 | true exactly when a lookup would find a document |
| PageCache.PageCache.Size | app/src/main/java/com/example/classwork2/network/PageCache.kt:57-59 | the number of cached urls, between 0 and maxSize |
| PageCache.PageCache.Clear | app/src/main/java/com/example/classwork2/network/PageCache.kt:64-66 | the cache is empty and well formed |
| PageCache.PageCache.CachedUrls | app/src/main/java/com/example/classwork2/network/PageCache.kt:71-73 | exactly the urls in the access order |
| PageCache.PageCache.Remove | app/src/main/java/com/example/classwork2/network/PageCache.kt:78-80 | returns the stored document or None, and the cache becomes `AfterRemove` of the old one, well formed |
| PageCache.PageCache.Stats | app/src/main/java/com/example/classwork2/network/PageCache.kt:85-91 | size equals the number of listed urls, at most maxSize; the urls are listed in access order |
| NetworkBookService.FirstParser | app/src/main/java/com/example/classwork2/network/NetworkBookService.kt:65-70 | `firstOrNull { canParse }`: None exactly when no parser accepts the URL; otherwise the index of an accepting parser with no accepting parser before it |
| NetworkBookService.Validate | app/src/main/java/com/example/classwork2/network/NetworkBookService.kt:81-98 | Success exactly when the parse returned a book whose title is not blank, carrying that book and the site name; an exception becomes "网络错误: " + message; no error from here looks like the unsupported-site error |
| NetworkBookService.NetworkBookService.constructor | app/src/main/java/com/example/classwork2/network/NetworkBookService.kt:15-21 | a new service has exactly the combined importer registered |
| NetworkBookService.NetworkBookService.RegisterParser | app/src/main/java/com/example/classwork2/network/NetworkBookService.kt:28-30 | appends the parser, so the supported sites gain its name at the end |
| NetworkBookService.NetworkBookService.SupportedSites | app/src/main/java/com/example/classwork2/network/NetworkBookService.kt:37-39 | the parser names in registration order |
| NetworkBookService.NetworkBookService.IsSupportedUrl | app/src/main/java/com/example/classwork2/network/NetworkBookService.kt:47-49 | no contract of its own: some registered parser accepts the URL; `ImportBook` and `PreviewBook` state that it holds exactly when the URL is not rejected as unsupported |
| NetworkBookService.Names | app/src/main/java/com/example/classwork2/network/NetworkBookService.kt:38 | one name per parser, in order |
| NetworkBookService.NetworkBookService.ImportBook | app/src/main/java/com/example/classwork2/network/NetworkBookService.kt:57-100 | the result is Error("不支持的网站: " + url) exactly when no registered parser can parse the URL |
| NetworkBookService.NetworkBookService.PreviewBook | app/src/main/java/com/example/classwork2/network/NetworkBookService.kt:108-138 | the result is Error("不支持的网站: " + url) exactly when no registered parser can parse the URL |
| NetworkBookService.ImportSucceedsWithFirstParser | app/src/main/java/com/example/classwork2/network/NetworkBookService.kt:65-95 | a successful import has a non-blank title and the site name of the first parser that accepts the URL, whose parse returned that book |
| NetworkBookService.PreviewIsImportWithoutQuickPreview | app/src/main/java/com/example/classwork2/network/NetworkBookService.kt:117-122 | when the chosen parser is not the combined importer, preview gives the same result as import |
| NetworkBookService.ThrownParseIsNetworkError | app/src/main/java/com/example/classwork2/network/NetworkBookService.kt:96-98 | an exception from the chosen parser becomes Error("网络错误: " + message) |
| NarouModels.StatusText | app/src/main/java/com/example/classwork2/network/api/NarouApiModels.kt:121-127 | "短篇" whenever novelType is 1, whatever the end flag; otherwise "已完结" when isCompleted is 1 and "连载中" for anything else |
| NarouModels.StatusTextsDistinct | app/src/main/java/com/example/classwork2/network/api/NarouApiModels.kt:121-127 | two novels get the same status text exactly when both are short stories, or neither is and their end flags agree on being 1 |
| NarouModels.NovelUrl | app/src/main/java/com/example/classwork2/network/api/NarouApiModels.kt:132-134 | the URL starts with "https://ncode.syosetu.com/", ends with "/", and holds exactly the ncode in between |
| NarouModels.NonBlank | app/src/main/java/com/example/classwork2/network/api/NarouApiModels.kt:143 | `filter { isNotBlank() }`: no longer than the input, every kept piece is non-blank and comes from the input |
| NarouModels.KeywordList | app/src/main/java/com/example/classwork2/network/api/NarouApiModels.kt:139-145 | blank keywords give the empty list; every listed keyword is non-blank and has no space |
| NarouModels.NonBlankKeepsAll | app/src/main/java/com/example/classwork2/network/api/NarouApiModels.kt:143 | a list of non-blank pieces passes the filter unchanged |
| NarouModels.JoinedNotBlank | app/src/main/java/com/example/classwork2/network/api/NarouApiModels.kt:140 | keywords starting with a non-blank one, joined by spaces, are not blank |
| NarouModels.KeywordListOfJoin | app/src/main/java/com/example/classwork2/network/api/NarouApiModels.kt:139-145 | non-blank keywords without spaces, written space-separated, are read back as the same list |
| NarouModels.FormattedLength | app/src/main/java/com/example/classwork2/network/api/NarouApiModels.kt:150-156 | the one-decimal "千字" branch (left out) is taken exactly for lengths 1000..9999 |
| NarouModels.FormattedTenThousands | app/src/main/java/com/example/classwork2/network/api/NarouApiModels.kt:152 | a length of 10000 or more prints as the decimal digits of length / 10000 followed by "万字" |
| NarouModels.FormattedUnits | app/src/main/java/com/example/classwork2/network/api/NarouApiModels.kt:154 | a length from 0 to 999 prints as its own decimal digits followed by "字" |
| NarouApi.IsValidNcode | app/src/main/java/com/example/classwork2/network/api/NarouApiService.kt:108-110 | no contract of its own: a whole-string, case-insensitive match of the ncode pattern; `StrictIsValid`, `KelvinSignIsValid` and `ExtractedIsValid` state its properties |
| NarouApi.StrictIsValid | app/src/main/java/com/example/classwork2/network/api/NarouApiService.kt:108-110 | every string matching the ncode pattern as written, `[Nn][0-9]{4}[A-Za-z]{2}`, passes the case-insensitive whole-string check |
| NarouApi.KelvinSignIsValid | app/src/main/java/com/example/classwork2/network/api/NarouApiService.kt:108-110 | under case-insensitive Unicode matching the check also accepts a Kelvin sign where the pattern reads an ASCII letter, a string the pattern as written rejects |
| NarouApi.LowercaseStrict | app/src/main/java/com/example/classwork2/network/api/NarouApiService.kt:90 | lower-casing an ASCII ncode keeps its shape, makes it start with 'n' and leaves no capital letter |
| NarouApi.LowercaseMayInvalidate | app/src/main/java/com/example/classwork2/network/api/NarouApiService.kt:159-166 | a valid ncode ending in a dotted capital I lower-cases to eight characters, which is no longer a valid ncode |
| NarouApi.CodeAt | app/src/main/java/com/example/classwork2/network/api/NarouApiService.kt:55 | a match of the URL pattern at a position yields only strings of the ncode shape as written |
| NarouApi.FindCode | app/src/main/java/com/example/classwork2/network/api/NarouApiService.kt:88-89 | `find()` yields only strings of the ncode shape as written |
| NarouApi.FindCodeFirst | app/src/main/java/com/example/classwork2/network/api/NarouApiService.kt:88-89 | the code found is the one at the first position where the pattern matches; no earlier position matches |
| NarouApi.FindCodeComplete | app/src/main/java/com/example/classwork2/network/api/NarouApiService.kt:88-89 | if the pattern matches anywhere at or after the start, `find()` succeeds |
| NarouApi.ExtractNcode | app/src/main/java/com/example/classwork2/network/api/NarouApiService.kt:83-100 | no contract of its own: the first host-plus-ncode match, lower-cased, or none; `FindCode`, `FindCodeFirst`, `ExtractedIsValid` and `NovelUrlRoundTrip` state its properties |
| NarouApi.ExtractedIsValid | app/src/main/java/com/example/classwork2/network/api/NarouApiService.kt:83-100 | whatever `extractNcodeFromUrl` returns is a valid ncode, starts with 'n' and holds no capital letter |
| NarouApi.SupportedIffHostAndCode | app/src/main/java/com/example/classwork2/network/api/NarouApiService.kt:193-195 | a URL is supported exactly when a Narou host followed by an ncode occurs somewhere in it |
| NarouApi.IsSupportedUrl | app/src/main/java/com/example/classwork2/network/api/NarouApiService.kt:193-195 | no contract of its own: extraction finds an ncode; `SupportedIffHostAndCode` states it as an iff on the URL |
| NarouApi.NoHostInScheme | app/src/main/java/com/example/classwork2/network/api/NarouApiService.kt:55 | no host match can start inside a leading "https://" |
| NarouApi.NovelUrlRoundTrip | app/src/main/java/com/example/classwork2/network/api/NarouApiService.kt:83-100 | extracting the ncode from the site URL of an ASCII ncode gives that ncode back, lower-cased |
| NarouApi.NovelUrlId | app/src/main/java/com/example/classwork2/network/NarouContentParser.kt:249-256 | the chapter crawler reads the ncode back from the same URL with its case kept |
| NarouApi.SelectNovel | app/src/main/java/com/example/classwork2/network/api/NarouApiService.kt:166-176 | a novel is returned exactly when the call succeeded with more than one record, and it is the second record |
| NarouApi.NovelInfoByUrl | app/src/main/java/com/example/classwork2/network/api/NarouApiService.kt:118-149 | a URL from which no ncode can be extracted gives no novel |
| NarouApi.NovelInfoByNcode | app/src/main/java/com/example/classwork2/network/api/NarouApiService.kt:157-185 | an ncode failing the format check gives no novel |
| NarouApi.NcodeCaseIgnored | app/src/main/java/com/example/classwork2/network/api/NarouApiService.kt:166 | two valid ncodes with the same lower case give the same result, since only the lower case reaches the service |
| NarouApi.UrlAndNcodeAgree | app/src/main/java/com/example/classwork2/network/api/NarouApiService.kt:118-185 | asking by the site URL of an ASCII ncode and asking by the ncode itself give the same result |
| NarouContent.CanParse | app/src/main/java/com/example/classwork2/network/NarouContentParser.kt:31-33 | no contract of its own: the URL contains "ncode.syosetu.com" and "/n"; `CanParseNovelPage` states what it accepts |
| NarouContent.CanParseNovelPage | app/src/main/java/com/example/classwork2/network/NarouContentParser.kt:31-33 | every novel page of the site, "https://ncode.syosetu.com/" then an ncode starting with 'n' then "/", is accepted |
| NarouContent.StripSlash | app/src/main/java/com/example/classwork2/network/NarouContentParser.kt:52 | a trailing "/" is removed and only then; the input is the result plus that "/" |
| NarouContent.LastIndexOf | app/src/main/java/com/example/classwork2/network/NarouContentParser.kt:250 | none exactly when the character is absent; otherwise an occurrence with no later one |
| NarouContent.NovelId | app/src/main/java/com/example/classwork2/network/NarouContentParser.kt:249-256 | no contract of its own: the last path segment after one trailing "/" is dropped, or ""; `NovelIdIsLastSegment` states it as an iff |
| NarouContent.NovelIdIsLastSegment | app/src/main/java/com/example/classwork2/network/NarouContentParser.kt:249-256 | `extractNovelIdFromUrl` returns a given non-empty id exactly when the id has no "/" and the URL ends in "/id" or "/id/" |
| NarouContent.PageUrlInjective | app/src/main/java/com/example/classwork2/network/NarouContentParser.kt:73-77 | distinct page numbers are fetched from distinct URLs |
| NarouContent.AcceptedHrefIsRelative | app/src/main/java/com/example/classwork2/network/NarouContentParser.kt:185-191 | an `href` that passes the chapter-link check starts with "/", so the stored URL is always the site prefix plus the `href` |
| NarouContent.VolumeTitleStep | app/src/main/java/com/example/classwork2/network/NarouContentParser.kt:164-173 | a volume title different from the current one opens the next volume at sub-order 1 and adds no chapter; repeating the current title changes nothing |
| NarouContent.ParsePage | app/src/main/java/com/example/classwork2/network/NarouContentParser.kt:141-232 | no contract of its own: the recursive definition of one page's chapters and the volume state it hands on; `ParsePageChapters`, `PageNumbered` and `OnElementsRecords` state its properties |
| NarouContent.ParsePageChapters | app/src/main/java/com/example/classwork2/network/NarouContentParser.kt:141-232 | the element loop with its mutable volume title, volume order, sub-order and global order computes the page result of the element-by-element definition |
| NarouContent.ParseElement | app/src/main/java/com/example/classwork2/network/NarouContentParser.kt:161-224 | one pass of the element loop body updates the chapter list, volume title, volume order, sub-order and global order exactly as `OnElement` does: a new volume title opens the next volume at sub-order 1, an accepted chapter link is appended and advances both counters, anything else changes nothing (`VolumeTitleStep`, `Accepted`) |
| NarouContent.OnElementNumbered | app/src/main/java/com/example/classwork2/network/NarouContentParser.kt:161-224 | each element keeps the numbering invariant: orders 1..N without gaps, each chapter continues the volume numbering of the one before, the carried state continues after the last |
| NarouContent.OnElementsNumbered | app/src/main/java/com/example/classwork2/network/NarouContentParser.kt:161-224 | the numbering invariant holds after any sequence of elements |
| NarouContent.PageNumbered | app/src/main/java/com/example/classwork2/network/NarouContentParser.kt:141-232 | a page started at the count of earlier chapters continues their numbering, and the volume state it returns continues after its last chapter |
| NarouContent.Accepted | app/src/main/java/com/example/classwork2/network/NarouContentParser.kt:176-185 | a page accepts at most one link per element |
| NarouContent.AcceptedAreChapterLinks | app/src/main/java/com/example/classwork2/network/NarouContentParser.kt:185 | every accepted link matches `/<novelId>/<digits>/?` |
| NarouContent.OnElementsRecords | app/src/main/java/com/example/classwork2/network/NarouContentParser.kt:176-216 | a page records exactly its accepted links, in order, each as a chapter titled with the trimmed link text, at the site prefix plus its `href`, with consecutive orders; rejected entries and volume titles consume no order |
| NarouContent.NoAcceptedNoChapters | app/src/main/java/com/example/classwork2/network/NarouContentParser.kt:91-97 | a page yields no chapter exactly when it holds no accepted link, which is when the crawl stops |
| NarouContent.CrawlNumbered | app/src/main/java/com/example/classwork2/network/NarouContentParser.kt:61-115 | the page loop, carrying the volume state from page to page, keeps the whole list numbered 1..N with consecutive volumes |
| NarouContent.InsertKeepsElements | app/src/main/java/com/example/classwork2/network/NarouContentParser.kt:124 | inserting a chapter adds exactly that chapter |
| NarouContent.InsertKeepsSorted | app/src/main/java/com/example/classwork2/network/NarouContentParser.kt:124 | inserting into a list sorted by order keeps it sorted |
| NarouContent.SortByOrder | app/src/main/java/com/example/classwork2/network/NarouContentParser.kt:124 | keeps the length; `SortByOrderSorts` and `SortSortedIsIdentity` state that it is a stable sort by order |
| NarouContent.SortByOrderSorts | app/src/main/java/com/example/classwork2/network/NarouContentParser.kt:124 | `sortedBy { it.order }` returns a permutation of its input, sorted by order |
| NarouContent.SortSortedIsIdentity | app/src/main/java/com/example/classwork2/network/NarouContentParser.kt:124 | sorting a list already sorted by order returns it unchanged |
| NarouContent.ChapterListNumbered | app/src/main/java/com/example/classwork2/network/NarouContentParser.kt:46-126 | the final list is numbered 1..N in crawl order, each chapter continues the volume numbering of the one before across page boundaries, and the first chapter opens volume 1 untitled or a titled volume numbered from 2 |
| NarouContent.CrawlStops | app/src/main/java/com/example/classwork2/network/NarouContentParser.kt:69-108 | the crawl reads no page past the first one that fails to load, accepts no chapter or has no next link, and none past page 100 |
| NarouContent.ChapterList | app/src/main/java/com/example/classwork2/network/NarouContentParser.kt:46-126 | no contract of its own: "/" appended when missing, no id gives no chapters, otherwise the sorted crawl; `ParseChapterList`, `ChapterListNumbered` and `CrawlStops` state its properties |
| NarouContent.ParseChapterList | app/src/main/java/com/example/classwork2/network/NarouContentParser.kt:46-126 | the page loop as written computes the recursive crawl definition, then sorted |
| Syosetu.CleanTitle | app/src/main/java/com/example/classwork2/network/SyosetuParser.kt:54-58 | the book title has no leading or trailing whitespace |
| Syosetu.CleanTitleOfPlain | app/src/main/java/com/example/classwork2/network/SyosetuParser.kt:54-58 | a page title without the two status markers and the site suffix only loses its surrounding whitespace |
| Syosetu.ReplaceByEmptyShortens | app/src/main/java/com/example/classwork2/network/SyosetuParser.kt:55-57 | removing every occurrence of a non-empty marker never lengthens a string |
| Syosetu.CleanTitleShortens | app/src/main/java/com/example/classwork2/network/SyosetuParser.kt:54-58 | the cleaned title is never longer than the page title |
| Syosetu.Status | app/src/main/java/com/example/classwork2/network/SyosetuParser.kt:73-77 | the status is one of "已完结" and "连载中" |
| Syosetu.StatusReflectsTitle | app/src/main/java/com/example/classwork2/network/SyosetuParser.kt:73-77 | "已完结" exactly when the page title contains "完結", "连载中" exactly when it does not |
| Syosetu.Author | app/src/main/java/com/example/classwork2/network/SyosetuParser.kt:63-65 | the first author link's text when there is one, the writer-name text otherwise |
| Syosetu.ParseDocument | app/src/main/java/com/example/classwork2/network/SyosetuParser.kt:51-60 | a book is produced exactly when the page title with its markers removed is not blank |
| Syosetu.ParsedBook | app/src/main/java/com/example/classwork2/network/SyosetuParser.kt:51-104 | a parsed book has a non-empty trimmed title, the source URL it was read from, the status its page title implies, the author and genre tags of the page, no word count, and chapters sorted by order |
| Syosetu.ParseBookInfo | app/src/main/java/com/example/classwork2/network/SyosetuParser.kt:32-46 | a page that fails to load gives no book; a book always carries the URL it was fetched from |
| Syosetu.TrailingDigits | app/src/main/java/com/example/classwork2/network/SyosetuParser.kt:226 | counts exactly the run of decimal digits at the end of the string |
| Syosetu.TrailingDigitsAfter | app/src/main/java/com/example/classwork2/network/SyosetuParser.kt:226 | digits written after a non-digit are exactly the trailing digits |
| Syosetu.ChapterNumber | app/src/main/java/com/example/classwork2/network/SyosetuParser.kt:224-231 | a chapter number read from a link is non-negative and fits in an `Int` |
| Syosetu.ChapterNumberOfAccepted | app/src/main/java/com/example/classwork2/network/SyosetuParser.kt:224-231 | for a link accepted as a chapter link, the number read is the decimal value of its digit segment when that fits in an `Int` |
| Syosetu.TableOfContents | app/src/main/java/com/example/classwork2/network/SyosetuParser.kt:109-207 | no contract of its own: the collected chapters sorted by order; `TableOfContentsSorted` and `ParseChapterList` state its properties |
| Syosetu.TableOfContentsSorted | app/src/main/java/com/example/classwork2/network/SyosetuParser.kt:205-206 | the chapter list is sorted by order and holds exactly the chapters collected in document order |
| Syosetu.NoIdNoChapters | app/src/main/java/com/example/classwork2/network/SyosetuParser.kt:114-120 | a base URI from which no id can be read gives no chapters |
| Syosetu.ParseChapterList | app/src/main/java/com/example/classwork2/network/SyosetuParser.kt:109-207 | the loop over the children with its mutable volume title, volume order, sub-order and running order, then the sort, computes the table-of-contents definition |
| Syosetu.OnEntryLaid | app/src/main/java/com/example/classwork2/network/SyosetuParser.kt:132-196 | each child keeps the numbering invariant: chapters continue one after another and the first is sub-chapter 1 of volume 1 |
| Syosetu.OnEntriesLaid | app/src/main/java/com/example/classwork2/network/SyosetuParser.kt:132-196 | the numbering invariant holds after any sequence of children |
| Syosetu.CollectedNumbered | app/src/main/java/com/example/classwork2/network/SyosetuParser.kt:125-196 | in document order each chapter is the next sub-chapter of the same volume or sub-chapter 1 of a later titled volume, and the first chapter is sub-chapter 1 of volume 1 however many titles precede it |
| Syosetu.CollectedRecords | app/src/main/java/com/example/classwork2/network/SyosetuParser.kt:145-181 | the k-th collected chapter records the k-th accepted link: its trimmed text, the site prefix plus its `href`, and as order the chapter number in the link, or its 1-based position among accepted links when that number does not fit in an `Int` |
| TextProcessor.NonBlankLines | app/src/main/java/com/example/classwork2/utils/TextProcessor.kt:36-38 | no more sentences than lines; every sentence is non-empty, trimmed and free of newlines |
| TextProcessor.SplitIntoSentences | app/src/main/java/com/example/classwork2/utils/TextProcessor.kt:22-47 | blank text gives no sentences; every sentence is non-empty, trimmed and free of newlines |
| TextProcessor.NonBlankLinesOfBlank | app/src/main/java/com/example/classwork2/utils/TextProcessor.kt:36-38 | lines that are all blank give no sentences |
| TextProcessor.SplitOfBlankIsBlank | app/src/main/java/com/example/classwork2/utils/TextProcessor.kt:33 | every piece of a blank text split at a character is blank |
| TextProcessor.SentencesAreNonBlankLines | app/src/main/java/com/example/classwork2/utils/TextProcessor.kt:27-38 | the blank-text guard is redundant: the result is always the trimmed non-blank lines, in order |
| TextProcessor.NonBlankLinesOfSentences | app/src/main/java/com/example/classwork2/utils/TextProcessor.kt:36-38 | lines that are already sentences pass the trimming and filtering unchanged |
| TextProcessor.SplitIntoSentencesIdempotent | app/src/main/java/com/example/classwork2/utils/TextProcessor.kt:22-47 | segmenting the segmenter's own output, joined by newlines, gives the same sentences back |
| TextProcessor.JoinStartsWithFirst | app/src/main/java/com/example/classwork2/utils/TextProcessor.kt:67 | a joined list starts with its first element |
| TextProcessor.Tagged | app/src/main/java/com/example/classwork2/utils/TextProcessor.kt:67-69 | one line per sentence, each the sentence prefixed with "【句子】" |
| TextProcessor.PrepareForTranslation | app/src/main/java/com/example/classwork2/utils/TextProcessor.kt:66-70 | no contract of its own: the tagged sentences joined by newlines; `PrepareParseRoundTrip` states that parsing gives the sentences back |
| TextProcessor.ParseResultLine | app/src/main/java/com/example/classwork2/utils/TextProcessor.kt:81-92 | a kept line is never empty; a trimmed line starting with "【" but holding no "】" is dropped; a trimmed line not starting with "【" is kept as it is when non-empty |
| TextProcessor.ParseResultLines | app/src/main/java/com/example/classwork2/utils/TextProcessor.kt:76-96 | no extracted sentence is empty |
| TextProcessor.ParseTranslationResult | app/src/main/java/com/example/classwork2/utils/TextProcessor.kt:76-96 | the loop over the lines, appending each line's contribution, computes the parsed-translation definition |
| TextProcessor.ParseTaggedSentence | app/src/main/java/com/example/classwork2/utils/TextProcessor.kt:66-87 | a sentence tagged with "【句子】" parses back to exactly that sentence |
| TextProcessor.ParseOneEach | app/src/main/java/com/example/classwork2/utils/TextProcessor.kt:80-93 | lines that each contribute one sentence parse to those sentences, in order |
| TextProcessor.ParseTaggedLines | app/src/main/java/com/example/classwork2/utils/TextProcessor.kt:66-93 | the tagged lines of a list of sentences parse back to that list |
| TextProcessor.PrepareParseRoundTrip | app/src/main/java/com/example/classwork2/utils/TextProcessor.kt:66-96 | `parseTranslationResult(prepareForTranslation(xs)) == xs` for every list of sentences |
| TextProcessor.SpaceRun | app/src/main/java/com/example/classwork2/utils/TextProcessor.kt:57 | measures exactly the leading run of `\s` characters |
| TextProcessor.RemoveTags | app/src/main/java/com/example/classwork2/utils/TextProcessor.kt:55 | the result is never longer, a text without '<' comes back unchanged, and every character of the result is in the input or is " " |
| TextProcessor.RemoveTagsLeavesNoTag | app/src/main/java/com/example/classwork2/utils/TextProcessor.kt:55 | no `<[^>]+>` match is left in the result: no '<' is followed by one or more non-'>' characters and then '>' |
| TextProcessor.RemoveEntities | app/src/main/java/com/example/classwork2/utils/TextProcessor.kt:56 | the result is never longer, a text without '&' comes back unchanged, and every character of the result is in the input or is " " |
| TextProcessor.RemoveEntitiesLeavesNoEntity | app/src/main/java/com/example/classwork2/utils/TextProcessor.kt:56 | no `&[a-zA-Z]+;` match is left in the result: no '&' is followed by one or more ASCII letters and then ';' |
| TextProcessor.CollapseSpaces | app/src/main/java/com/example/classwork2/utils/TextProcessor.kt:57 | after `\s+` is replaced by " " no two `\s` characters are adjacent and the only one left is " "; a text not starting with `\s` keeps its first character |
| TextProcessor.StripSpaceEnds | app/src/main/java/com/example/classwork2/utils/TextProcessor.kt:58 | exactly the leading `\s` run and the trailing `\s` run are removed; when the text ends in a line terminator outside `\s` (U+0085, U+2028, U+2029) the trailing run is the one just before it, and that terminator is kept, since `$` also matches before a final line terminator |
| TextProcessor.StrippedCollapsed | app/src/main/java/com/example/classwork2/utils/TextProcessor.kt:57-58 | stripping the ends of a space-collapsed text leaves it space-collapsed |
| TextProcessor.CollapsedSlice | app/src/main/java/com/example/classwork2/utils/TextProcessor.kt:57-59 | a slice of a space-collapsed text is space-collapsed |
| TextProcessor.CleanText | app/src/main/java/com/example/classwork2/utils/TextProcessor.kt:53-60 | the cleaned text has no surrounding whitespace, no two adjacent `\s` characters and no `\s` character other than " " |
| TextProcessor.CleanTextBeforeFinalNel | app/src/main/java/com/example/classwork2/utils/TextProcessor.kt:53-60 | "a \u0085" cleans to "a\u0085": the space before a final U+0085 is removed and the U+0085, which `trim` keeps, survives |
| TextProcessor.Classify | app/src/main/java/com/example/classwork2/utils/TextProcessor.kt:120-124 | Japanese exactly when kana outnumber both Han and Latin letters; Chinese exactly when that fails and Han outnumber Latin letters; English otherwise |
| TextProcessor.Sample | app/src/main/java/com/example/classwork2/utils/TextProcessor.kt:103 | the sample is a prefix of the text of at most 200 characters |
| TextProcessor.DetectLanguage | app/src/main/java/com/example/classwork2/utils/TextProcessor.kt:102-125 | the loop with its three counters over the first 200 characters gives the classification of the sample's counts |
| TextProcessor.DetectionIgnoresTail | app/src/main/java/com/example/classwork2/utils/TextProcessor.kt:103 | characters after the first 200 never change the detected language |
| TextProcessor.CountsOfKanaText | app/src/main/java/com/example/classwork2/utils/TextProcessor.kt:109-118 | a text of kana only counts each character as Japanese and none as Han or Latin |
| TextProcessor.KanaTextIsJapanese | app/src/main/java/com/example/classwork2/utils/TextProcessor.kt:102-125 | a non-empty text of kana only is detected as Japanese |
| TextProcessor.UnscriptedTextIsEnglish | app/src/main/java/com/example/classwork2/utils/TextProcessor.kt:120-124 | a text with no kana, Han or Latin letter is detected as English |
| TextProcessor.NoCounts | app/src/main/java/com/example/classwork2/utils/TextProcessor.kt:109-118 | a text with no kana, Han or Latin letter counts nothing |
| Reader.TranslationAt | app/src/main/java/com/example/classwork2/ui/reader/EnhancedReaderScreen.kt:600 | `getOrElse(i) { "" }`: the i-th translation when it exists, "" otherwise |
| Reader.PairsFrom | app/src/main/java/com/example/classwork2/ui/reader/EnhancedReaderScreen.kt:599-610 | one pair per original sentence from the given index on, each built by the per-sentence rule |
| Reader.UpdateSentencePairs | app/src/main/java/com/example/classwork2/ui/reader/EnhancedReaderScreen.kt:597 | no update exactly when the state carries no original sentences |
| Reader.UpdatedPairs | app/src/main/java/com/example/classwork2/ui/reader/EnhancedReaderScreen.kt:592-613 | one pair per original, in order, with the original unchanged; a pair is translating exactly at the reported index while translating and then shows the partial text; any other pair shows its translation or ""; a pair is complete exactly when its translation is non-empty and it is not translating |
| Reader.AtMostOneTranslating | app/src/main/java/com/example/classwork2/ui/reader/EnhancedReaderScreen.kt:601 | at most one pair is marked translating |
| Reader.NextMode | app/src/main/java/com/example/classwork2/ui/reader/EnhancedReaderScreen.kt:186-190 | the button always changes the mode |
| Reader.ModeCycle | app/src/main/java/com/example/classwork2/ui/reader/EnhancedReaderScreen.kt:186-190 | three presses return to the starting mode, two do not, and every mode is reached |
| Reader.ToggleDisplayMode | app/src/main/java/com/example/classwork2/ui/reader/EnhancedReaderScreen.kt:185-192 | a press advances the mode and stores it in the settings, changing no other setting |
| Reader.CachedPairs | app/src/main/java/com/example/classwork2/ui/reader/EnhancedReaderScreen.kt:473-483 | one complete, non-translating pair per cached original, with the cached translation at that index or "" |
| Reader.BasicPairs | app/src/main/java/com/example/classwork2/ui/reader/EnhancedReaderScreen.kt:493-519 | one untranslated, incomplete pair per sentence, in order |
| Reader.LoadTranslationData | app/src/main/java/com/example/classwork2/ui/reader/EnhancedReaderScreen.kt:437-525 | no contract of its own: the cached complete pairs or one untranslated pair per sentence; `LoadedPairs`, `LoadWithoutContent` and `PersistThenLoad` state its properties |
| Reader.LoadedPairs | app/src/main/java/com/example/classwork2/ui/reader/EnhancedReaderScreen.kt:437-525 | a chapter marked COMPLETED with both lists stored and decodable yields one complete pair per cached original, "" where a translation is missing; anything else, including a failed decode, yields one untranslated pair per sentence of the content |
| Reader.LoadWithoutContent | app/src/main/java/com/example/classwork2/ui/reader/EnhancedReaderScreen.kt:445 | with no content at all nothing is shown |
| Reader.SavesFor | app/src/main/java/com/example/classwork2/ui/reader/EnhancedReaderScreen.kt:563-576 | every database write made while collecting is a save with status COMPLETED, at most one per reported state |
| Reader.ContentToTranslate | app/src/main/java/com/example/classwork2/ui/reader/EnhancedReaderScreen.kt:540 | the content is the actual content when there is one, else the stored content; there is none only when both are missing |
| Reader.StartTranslation | app/src/main/java/com/example/classwork2/ui/reader/EnhancedReaderScreen.kt:540-589 | with no content to translate nothing is written; otherwise the first write sets the chapter to TRANSLATING |
| Reader.NoContentKeepsStatus | app/src/main/java/com/example/classwork2/ui/reader/EnhancedReaderScreen.kt:540 | when neither the actual nor the stored content exists the chapter status is left as it was |
| Reader.SavesComeFromCompleteStates | app/src/main/java/com/example/classwork2/ui/reader/EnhancedReaderScreen.kt:563-574 | every save stores a reported state that is complete without error: its translations joined by newlines, its originals and its translations |
| Reader.NothingPersistableNoSave | app/src/main/java/com/example/classwork2/ui/reader/EnhancedReaderScreen.kt:563 | with no complete state free of error nothing is saved |
| Reader.SaveForPersistable | app/src/main/java/com/example/classwork2/ui/reader/EnhancedReaderScreen.kt:563 | a complete state free of error is saved |
| Reader.FinalStatus | app/src/main/java/com/example/classwork2/ui/reader/EnhancedReaderScreen.kt:546-581 | the chapter's status is the last status written, or the initial one when nothing is written |
| Reader.FinalStatusOfSaves | app/src/main/java/com/example/classwork2/ui/reader/EnhancedReaderScreen.kt:573 | after a non-empty run of saves the chapter status is COMPLETED |
| Reader.FinalStatusAppend | app/src/main/java/com/example/classwork2/ui/reader/EnhancedReaderScreen.kt:546-581 | the status after two runs of writes is the status after the second, started from the status after the first |
| Reader.FinalStatusOfTranslation | app/src/main/java/com/example/classwork2/ui/reader/EnhancedReaderScreen.kt:528-589 | the chapter ends ERROR when the collection threw, COMPLETED when some reported state was complete without error, and stays TRANSLATING otherwise, even when the flow ended in an error state |
| Reader.PersistThenLoad | app/src/main/java/com/example/classwork2/ui/reader/EnhancedReaderScreen.kt:437-486 | saving the final state of a finished translation and loading it back shows the same pairs the merge showed, when every translation is present and non-empty |
| Reader.CompleteLastIsSaved | app/src/main/java/com/example/classwork2/ui/reader/EnhancedReaderScreen.kt:560-577 | a flow whose last reported state is complete without error, with nothing thrown, leaves the chapter COMPLETED |
| Reader.DoneStreamIsSaved | app/src/main/java/com/example/classwork2/ui/reader/EnhancedReaderScreen.kt:546-577 | a translation whose stream reaches "[DONE]" leaves the chapter COMPLETED |
| Reader.FailedRequestStaysTranslating | app/src/main/java/com/example/classwork2/ui/reader/EnhancedReaderScreen.kt:546-577 | a rejected or failed request reports only error states, so the chapter stays TRANSLATING |
| TranslationService.BuildTranslationPrompt | app/src/main/java/com/example/classwork2/network/TranslationService.kt:302-326 | no contract of its own: the prompt text with its line breaks unified; `ExtractRoundTrip`, `PromptDecodesInstructionsFirst` and `NoCarriageReturnInBody` state its properties |
| TranslationService.NumberedFrom | app/src/main/java/com/example/classwork2/network/TranslationService.kt:305-306 | one line per sentence, the k-th reading "k. sentence" counted from the start number |
| TranslationService.NormalizeLineBreaks | app/src/main/java/com/example/classwork2/network/TranslationService.kt:309-322 | a prompt without carriage returns is left unchanged by `trimIndent` |
| TranslationService.LineBody | app/src/main/java/com/example/classwork2/network/TranslationService.kt:335 | the group `(.+)$` is non-empty and holds no line terminator; on a rest without terminators it is the whole rest |
| TranslationService.MatchNumbered | app/src/main/java/com/example/classwork2/network/TranslationService.kt:335 | the number group of `^(\d+)\. (.+)$` is one or more decimal digits |
| TranslationService.Decode | app/src/main/java/com/example/classwork2/network/TranslationService.kt:343-348 | a decoded line number is never negative |
| TranslationService.DecodeLines | app/src/main/java/com/example/classwork2/network/TranslationService.kt:339-343 | one decoding per line |
| TranslationService.Collect | app/src/main/java/com/example/classwork2/network/TranslationService.kt:339-360 | the loop only appends to the sentences found so far |
| TranslationService.ExtractTranslatedSentences | app/src/main/java/com/example/classwork2/network/TranslationService.kt:332-367 | the loop over the lines computes the extraction of the content alone, and its new-sentence counter is the number of sentences found beyond the count already known |
| TranslationService.ExtractSources | app/src/main/java/com/example/classwork2/network/TranslationService.kt:339-360 | sentence i of the extraction is the text of a line numbered i + 1, at least two characters long, and the lines used appear in order |
| TranslationService.CollectNumbered | app/src/main/java/com/example/classwork2/network/TranslationService.kt:350-351 | lines numbered on from the count found so far, each with text of at least two characters, are all taken |
| TranslationService.CollectSkips | app/src/main/java/com/example/classwork2/network/TranslationService.kt:343-344 | lines that do not match the pattern are skipped |
| TranslationService.CollectAppend | app/src/main/java/com/example/classwork2/network/TranslationService.kt:339-360 | extracting two runs of lines is extracting the first, then continuing over the second |
| TranslationService.DecodeNumberedLine | app/src/main/java/com/example/classwork2/network/TranslationService.kt:335-348 | the prompt's line "k. s" decodes to number k and text s, for a sentence s of two or more characters without surrounding whitespace or line terminator |
| TranslationService.DecodeUnnumbered | app/src/main/java/com/example/classwork2/network/TranslationService.kt:340-343 | a line starting with neither whitespace nor a digit decodes to nothing |
| TranslationService.ExtractRoundTrip | app/src/main/java/com/example/classwork2/network/TranslationService.kt:302-367 | extracting the numbered block the prompt builds gives back the sentences, for sentences of two or more characters without surrounding whitespace or line terminator |
| TranslationService.InstructionsEncodable | app/src/main/java/com/example/classwork2/network/TranslationService.kt:312-316 | the five instruction lines are sentences the extractor accepts |
| TranslationService.HeaderDecodesInstructions | app/src/main/java/com/example/classwork2/network/TranslationService.kt:310-318 | the template lines above the numbered block extract to the five instructions |
| TranslationService.PromptDecodesInstructionsFirst | app/src/main/java/com/example/classwork2/network/TranslationService.kt:302-327 | extracting the whole prompt yields its own five numbered instructions first, so only the numbered block, not the prompt, round-trips |
| TranslationService.NoCarriageReturnInBody | app/src/main/java/com/example/classwork2/network/TranslationService.kt:305-322 | a prompt built from sentences and a target language without carriage returns holds none |
| TranslationService.PartialTranslation | app/src/main/java/com/example/classwork2/network/TranslationService.kt:372-391 | no contract of its own: the text after the first "k+1." line, else the last non-blank line; `PartialOfNumberedBlock`, `NumberedLineStartsWith`, `FirstWithPrefix` and `LastNonBlankIsLast` state its properties |
| TranslationService.FirstWithPrefix | app/src/main/java/com/example/classwork2/network/TranslationService.kt:377-387 | the first line whose trimmed form starts with the prefix, none earlier; none when no line does |
| TranslationService.LastNonBlankEmpty | app/src/main/java/com/example/classwork2/network/TranslationService.kt:390 | the fallback is "" exactly when every line is blank |
| TranslationService.LastNonBlankIsLast | app/src/main/java/com/example/classwork2/network/TranslationService.kt:390 | otherwise the fallback is the last non-blank line, trimmed, with only blank lines after it |
| TranslationService.NumberedLineStartsWith | app/src/main/java/com/example/classwork2/network/TranslationService.kt:379 | a numbered line "j. s" starts with "m." only when m is j, so the search for "1." never stops at line 10 |
| TranslationService.PartialOfNumberedBlock | app/src/main/java/com/example/classwork2/network/TranslationService.kt:372-391 | on the numbered lines the prompt asks for, the preview for the sentence after the first k is that sentence |
| TranslationService.NumberDotIffDigitDot | app/src/main/java/com/example/classwork2/network/TranslationService.kt:401 | `\d+\.` occurs in a delta exactly when some digit is directly followed by "." |
| TranslationService.Frame | app/src/main/java/com/example/classwork2/network/TranslationService.kt:157-164 | a line not starting with "data: " is skipped |
| TranslationService.Events | app/src/main/java/com/example/classwork2/network/TranslationService.kt:157-245 | one framed event per line read |
| TranslationService.Gate | app/src/main/java/com/example/classwork2/network/TranslationService.kt:201-205 | no contract of its own: a trigger in the delta and one of more than 100 characters since the last commit, no attempt yet, or attempts divisible by 20; `LoopWithoutTrigger`, `FirstLineTriggers` and `EarlyCommitIsFrozen` state its consequences |
| TranslationService.ShouldAttemptExtraction | app/src/main/java/com/example/classwork2/network/TranslationService.kt:396-402 | no contract of its own: "。", a line break, '"' or a `\d+\.` match in the delta; `NumberDotIffDigitDot`, `FirstLineTriggers` and `LoopWithoutTrigger` state it |
| TranslationService.AfterDelta | app/src/main/java/com/example/classwork2/network/TranslationService.kt:196-222 | a delta is appended to the buffer and the committed translations are only ever extended |
| TranslationService.CatchUp | app/src/main/java/com/example/classwork2/network/TranslationService.kt:170-178 | the ungated extraction keeps the buffer, only extends the committed translations, and leaves at least as many as the buffer extracts to |
| TranslationService.ProgressState | app/src/main/java/com/example/classwork2/network/TranslationService.kt:224-239 | no contract of its own: the state reported after a delta; `LoopProgressShape` and `LoopPartial` state its shape |
| TranslationService.Loop | app/src/main/java/com/example/classwork2/network/TranslationService.kt:157-247 | no contract of its own: the read loop over framed events; `LoopAppendOnly`, `LoopContent`, `LoopStops`, `LoopSplit`, `LoopProgressShape`, `LoopPartial`, `LoopWithoutTrigger`, `LoopRunningTranslating` and `LoopReportsDelta` state its properties |
| TranslationService.Finally | app/src/main/java/com/example/classwork2/network/TranslationService.kt:270-296 | no contract of its own: one more extraction when translations are missing; `FinallyIdle` and `ProcessNoLoss` state its properties |
| TranslationService.Process | app/src/main/java/com/example/classwork2/network/TranslationService.kt:140-297 | no contract of its own: the read loop then the `finally` block; `ProcessAppendOnly`, `ProcessContent`, `ProcessNoLoss`, `ProcessProgressShape`, `ProcessPartial` and `ProcessCompletes` state its properties, and `StreamReconciler.ProcessStreamResponse` is proved equal to it |
| TranslationService.LoopAppendOnly | app/src/main/java/com/example/classwork2/network/TranslationService.kt:157-247 | the read loop only appends: every reported list extends the earlier ones and is extended by the loop's final list |
| TranslationService.ProcessAppendOnly | app/src/main/java/com/example/classwork2/network/TranslationService.kt:140-297 | every list `processStreamResponse` reports extends the ones reported before it and is extended by the final list |
| TranslationService.LoopContent | app/src/main/java/com/example/classwork2/network/TranslationService.kt:196-198 | the buffer grows by exactly the deltas read, in order, up to the first "[DONE]" or error |
| TranslationService.ProcessContent | app/src/main/java/com/example/classwork2/network/TranslationService.kt:196-198 | the final buffer is exactly the streamed deltas, in order |
| TranslationService.CommittedFromNumberedLines | app/src/main/java/com/example/classwork2/network/TranslationService.kt:207-222 | every translation committed is the text of a line numbered with its position, found in some prefix of the streamed text |
| TranslationService.LoopStops | app/src/main/java/com/example/classwork2/network/TranslationService.kt:168-188 | the read loop stops at the first "[DONE]" or error: nothing after it is read |
| TranslationService.FinallyIdle | app/src/main/java/com/example/classwork2/network/TranslationService.kt:274 | once everything extractable is committed the `finally` block reports nothing |
| TranslationService.LoopThenStop | app/src/main/java/com/example/classwork2/network/TranslationService.kt:168-188 | a terminal event runs the ungated extraction and reports one complete or error state |
| TranslationService.DoneEndsStream | app/src/main/java/com/example/classwork2/network/TranslationService.kt:168-188 | on "[DONE]" nothing more is read, `finally` adds nothing, and the last report is complete, not translating, at index -1, without error, with every sentence extractable from the buffer |
| TranslationService.FailKeepsTranslations | app/src/main/java/com/example/classwork2/network/TranslationService.kt:248-269 | on a stream error one more extraction runs and the last report carries the error message with the count saved and every translation committed before the error |
| TranslationService.LoopSplit | app/src/main/java/com/example/classwork2/network/TranslationService.kt:157-247 | the loop over two runs of events, the first without a terminal event, is the loop over the first continued over the second |
| TranslationService.ProcessNoLoss | app/src/main/java/com/example/classwork2/network/TranslationService.kt:274-295 | at the end either every original sentence has a translation or nothing extractable from the buffer is missing |
| TranslationService.LoopProgressShape | app/src/main/java/com/example/classwork2/network/TranslationService.kt:225-239 | every in-progress report shows index min(translations so far, originals - 1), no error, and a non-empty partial only while translations are missing |
| TranslationService.ProcessProgressShape | app/src/main/java/com/example/classwork2/network/TranslationService.kt:140-297 | every state `processStreamResponse` reports while translating has that shape |
| TranslationService.LoopPartial | app/src/main/java/com/example/classwork2/network/TranslationService.kt:225-239 | each in-progress report of the read loop is the report made after some prefix of the events, all deltas or skipped lines, read from the start state: it carries the translations the reconciler committed after exactly that prefix, and its partial is the partial translation of the buffer after that prefix exactly when translations are missing and more than 20 characters arrived since the last commit, "" otherwise |
| TranslationService.ProcessPartial | app/src/main/java/com/example/classwork2/network/TranslationService.kt:140-297 | the same for every state `processStreamResponse` reports while translating, from the initial reconciler; the buffer is the text of the deltas in that prefix |
| TranslationService.LoopWithoutTrigger | app/src/main/java/com/example/classwork2/network/TranslationService.kt:202-222 | deltas without "。", a newline, a quote or a number followed by "." never run the extraction: nothing is committed and no attempt is counted |
| TranslationService.ExtractSingleLine | app/src/main/java/com/example/classwork2/network/TranslationService.kt:332-367 | the single line "1. text" extracts to that text |
| TranslationService.FirstLineTriggers | app/src/main/java/com/example/classwork2/network/TranslationService.kt:396-402 | the first numbered line of a stream always passes the trigger test |
| TranslationService.EarlyCommitIsFrozen | app/src/main/java/com/example/classwork2/network/TranslationService.kt:202-222 | once "1. a" is committed, a delta b without a trigger grows the line to "1. ab", whose extraction is a + b, yet "[DONE]" ends with a |
| TranslationService.LoopRunningTranslating | app/src/main/java/com/example/classwork2/network/TranslationService.kt:233-239 | the loop over deltas and skipped lines reports only translating states |
| TranslationService.LoopReportsDelta | app/src/main/java/com/example/classwork2/network/TranslationService.kt:196-239 | a delta among the events makes the loop report at least one state |
| TranslationService.ClosedWithoutDoneStaysTranslating | app/src/main/java/com/example/classwork2/network/TranslationService.kt:274-295 | a stream that closes without "[DONE]" after every sentence was committed leaves the last report translating and not complete |
| TranslationService.TranslateTextStream | app/src/main/java/com/example/classwork2/network/TranslationService.kt:73-135 | the flow reports at least one state; `TranslateFailures` and `TranslateCompletes` state what it reports |
| TranslationService.TranslateFailures | app/src/main/java/com/example/classwork2/network/TranslationService.kt:80-134 | the flow first reports the split sentences with no translations; a rejected, empty or failed call ends it with one error state without translations, and only the exception also loses the original sentences |
| TranslationService.TranslateCompletes | app/src/main/java/com/example/classwork2/network/TranslationService.kt:73-135 | a streamed response that reaches "[DONE]" ends the flow with a complete state, without error, holding at least every sentence extractable from the streamed text |
| TranslationService.ProcessCompletes | app/src/main/java/com/example/classwork2/network/TranslationService.kt:140-297 | the stream-processing half of that: the last report after "[DONE]" is complete, without error, with every extractable sentence |
| TranslationService.StreamReconciler.constructor | app/src/main/java/com/example/classwork2/network/TranslationService.kt:145-151 | a new reconciler starts with an empty buffer, no translations, zero counters and nothing reported |
| TranslationService.StreamReconciler.OnDelta | app/src/main/java/com/example/classwork2/network/TranslationService.kt:196-239 | the mutable variables move as the delta step of the specification and one in-progress state is reported |
| TranslationService.StreamReconciler.CatchUpNow | app/src/main/java/com/example/classwork2/network/TranslationService.kt:170-178 | the forced extraction updates the variables as the specification's catch-up and reports nothing |
| TranslationService.StreamReconciler.OnDone | app/src/main/java/com/example/classwork2/network/TranslationService.kt:168-188 | "[DONE]" runs the forced extraction and reports one complete state |
| TranslationService.StreamReconciler.OnFail | app/src/main/java/com/example/classwork2/network/TranslationService.kt:248-269 | an error runs the forced extraction and reports one error state |
| TranslationService.StreamReconciler.OnFinally | app/src/main/java/com/example/classwork2/network/TranslationService.kt:270-296 | the `finally` block acts as the specification's final step |
| TranslationService.StreamReconciler.Step | app/src/main/java/com/example/classwork2/network/TranslationService.kt:157-246 | one framed line advances the loop exactly as the specification's loop, and stops it on "[DONE]" or an error |
| TranslationService.StreamReconciler.ProcessStreamResponse | app/src/main/java/com/example/classwork2/network/TranslationService.kt:140-297 | the imperative read loop over the lines, then `finally`, ends with the variables and the reported states of the specification's run |

## Left out

- HTTP transport: OkHttp/Retrofit, the request body, the `Authorization` header and the Gson decoding of stream chunks. A response is a `Response` value: rejected with a code, no body, an exception, or the body's lines. Each line carries what the JSON decoder finds in it (the `content` of the first choice's delta, if any), and a read error ends the body.
- `testConnection` (TranslationService.kt:407-432): it only issues a request and reports whether it succeeded.
- Jsoup fetching and CSS selection: a fetched page is a list of abstract elements plus a next-page flag. `hasNextPageLink` and the request pacing `delay` are not modelled.
- Room persistence and the DAOs. The reader's persistence is reduced to which states are saved and the COMPLETED/ERROR/TRANSLATING decision.
- UI composables and their `mutableStateOf` state.
- Floating point: the temperature setting, `ImportProgress.percentage` and the "%.1f千字" branch of `getFormattedLength`. `NarouModels.FormattedLength` returns None for that branch. `ImportProgress.Progress` is an exact fraction.
- Clocks, dates and locale: `parseUpdateTime`, `parseTimeString`, publish and update times, and the cached-at time of a page.
- Logging, coroutine dispatching, `@Volatile` and `synchronizedMap`. Every operation is modelled as sequential.
- `getAvailableLanguages` and `getAvailableModels` (TranslationSettings.kt:106-128): constant display lists with no logic.
- `NarouBookImporter`, the combined API-and-crawler importer. `NetworkBookService` receives it as an abstract parser, with an optional quick preview.
- The site parsers themselves are not inside `NetworkBookService`: a registered parser is its URL test, its name and the outcomes of its parse calls.
- Exceptions thrown by `canParse` are not modelled.
- The Syosetu parser's `canParse` and `extractNovelIdFromUrl` have the same code as the Narou content parser's. The model uses one definition for both (`NarouContent.CanParse`, `NarouContent.NovelId`).
- Preferences: a key stored with a type other than the one read (which makes `SharedPreferences` throw) is not modelled. Each typed read sees only its own type.
- Strings are sequences of Dafny `char`, which are Unicode scalar values, while Kotlin strings are UTF-16 code units. A character outside the Basic Multilingual Plane counts as one here and two in the source, and surrogate pairs are not modelled. Case mappings other than the ones listed above are not modelled either.
- Every state `processStreamResponse` reports holds the same mutable `translatedSentences` list (TranslationService.kt:184-287), and `flowOn(Dispatchers.IO)` (TranslationService.kt:135) buffers the reports, so a collector may see that list after later sentences were added to it. The model reports snapshots: each state holds the translations committed when it was made. That aliasing is not modelled.
- DataConverter.UserInfoToEntity: the `id` parameter's default of 0 (DataConverter.kt:20) is not modelled; every caller passes the id.
- TextProcessor.CleanText: its contract states the shape of the cleaned text (trimmed, spaces collapsed), not the exact text. Each step it chains has its own contract: `RemoveTags` and `RemoveEntities` leave no match of their patterns (`RemoveTagsLeavesNoTag`, `RemoveEntitiesLeavesNoEntity`), and `StripSpaceEnds` is characterized exactly.
- DataConverter.EntityToBook: the `chapters` parameter's default of `emptyList()` (DataConverter.kt:74) is not modelled; every caller passes the chapters, `[]` where the source relies on the default.
- Regular expressions built from a novel id are matched as if the id were literal. An id holding regex metacharacters is not modelled.
- In the URL patterns (`/([^/]+?)/?$`, `/(\d+)/?$` and the ncode pattern), `$` is taken as the end of the string. A URL ending in a line terminator is not modelled. The extractor's pattern does model `$` before a final U+0085.
- The image avatar's default drawable `R.drawable.av1` is an unspecified integer constant. An icon avatar is modelled by the name of its Material icon.
