// Syosetu: the single-page parser for a novel's table of contents. The
// whole list sits in one document; chapters are numbered by the number in
// their URL when there is one, and the list is sorted by that number.

module Syosetu {
  import opened Wrappers
  import opened Strings
  import opened NarouContent

  const CompletedMarker: string := "【完結済み】"
  const SerialMarker: string := "【連載中】"
  const SiteSuffix: string := " - ハーメルン"
  const StatusCompleted: string := "已完结"
  const StatusOngoing: string := "连载中"

  /**
   * What the parser reads from a fetched document: the text of `title`,
   * the text of the first author link (if any), the text of
   * `.novel_writername`, of `#novel_ex`, of each `.novel_genre`, the base
   * URI and the children of the table of contents.
   */
  datatype Document = Document(
    titleText: string,
    authorLinkText: Option<string>,
    writerNameText: string,
    descriptionText: string,
    genreTexts: seq<string>,
    baseUri: string,
    elements: seq<Element>)

  // ---------------------------------------------------------------------
  // Book information

  /** The page title without the status markers and the site suffix. */
  function Unmarked(raw: string): string
  {
    ReplaceAll(ReplaceAll(ReplaceAll(raw, CompletedMarker, ""), SerialMarker, ""), SiteSuffix, "")
  }

  /** The book title: the unmarked page title, trimmed. */
  function CleanTitle(raw: string): (r: string)
    ensures IsTrimmed(r)
  {
    Trim(Unmarked(raw))
  }

  /** A page title carrying no marker and no suffix only loses its surrounding whitespace. */
  lemma CleanTitleOfPlain(raw: string)
    requires !Contains(raw, CompletedMarker) && !Contains(raw, SerialMarker) && !Contains(raw, SiteSuffix)
    ensures CleanTitle(raw) == Trim(raw)
  {
  }

  /** Removing the markers can only shorten the title. */
  lemma {:induction false} ReplaceByEmptyShortens(s: string, pattern: string)
    requires |pattern| > 0
    ensures |ReplaceAll(s, pattern, "")| <= |s|
    decreases |s|
  {
    if |s| >= |pattern| {
      if s[..|pattern|] == pattern {
        ReplaceByEmptyShortens(s[|pattern|..], pattern);
      } else {
        ReplaceByEmptyShortens(s[1..], pattern);
      }
    }
  }

  /** The cleaned title is never longer than the page title. */
  lemma CleanTitleShortens(raw: string)
    ensures |CleanTitle(raw)| <= |raw|
  {
    ReplaceByEmptyShortens(raw, CompletedMarker);
    var a := ReplaceAll(raw, CompletedMarker, "");
    ReplaceByEmptyShortens(a, SerialMarker);
    var b := ReplaceAll(a, SerialMarker, "");
    ReplaceByEmptyShortens(b, SiteSuffix);
  }

  /** "已完结" exactly when the page title mentions "完結", otherwise "连载中". */
  function Status(raw: string): (r: string)
    ensures r == StatusCompleted || r == StatusOngoing
  {
    if Contains(raw, "完結") then StatusCompleted else StatusOngoing
  }

  lemma StatusReflectsTitle(raw: string)
    ensures Status(raw) == StatusCompleted <==> Contains(raw, "完結")
    ensures Status(raw) == StatusOngoing <==> !Contains(raw, "完結")
  {
    assert StatusCompleted != StatusOngoing by {
      assert StatusCompleted[0] != StatusOngoing[0];
    }
  }

  /** The author link's text, or the writer-name text when there is no author link. */
  function Author(doc: Document): (r: string)
    ensures doc.authorLinkText.Some? ==> r == doc.authorLinkText.value
    ensures doc.authorLinkText.None? ==> r == doc.writerNameText
  {
    doc.authorLinkText.GetOr(doc.writerNameText)
  }

  /** `parseDocumentToBookInfo`: no book when the cleaned title is empty. */
  function ParseDocument(doc: Document, sourceUrl: string): (r: Option<NetworkBookInfo>)
    ensures r.Some? <==> !IsBlank(Unmarked(doc.titleText))
  {
    TrimEmptyIffBlank(Unmarked(doc.titleText));
    var title := CleanTitle(doc.titleText);
    if title == [] then None
    else
      Some(NetworkBookInfo(title, Author(doc), doc.descriptionText, sourceUrl, TableOfContents(doc),
                           None, Status(doc.titleText), doc.genreTexts))
  }

  /** A parsed book has a non-empty trimmed title, the source URL it was read from, the status its page title implies and a sorted chapter list. */
  lemma ParsedBook(doc: Document, sourceUrl: string)
    requires ParseDocument(doc, sourceUrl).Some?
    ensures var b := ParseDocument(doc, sourceUrl).value;
      b.title != [] && IsTrimmed(b.title) && b.sourceUrl == sourceUrl
      && (b.status == StatusCompleted <==> Contains(doc.titleText, "完結"))
      && b.author == Author(doc) && b.tags == doc.genreTexts && b.totalWords.None?
      && SortedByOrder(b.chapters)
  {
    StatusReflectsTitle(doc.titleText);
    TableOfContentsSorted(doc);
  }

  /** `parseBookInfo`: a document that failed to load gives no book. */
  function ParseBookInfo(url: string, fetched: Option<Document>): (r: Option<NetworkBookInfo>)
    ensures fetched.None? ==> r.None?
    ensures r.Some? ==> r.value.sourceUrl == url
  {
    match fetched
    case None => None
    case Some(doc) => ParseDocument(doc, url)
  }

  // ---------------------------------------------------------------------
  // Chapter numbers

  /** The number of decimal digits at the end of `s`. */
  function TrailingDigits(s: string): (n: nat)
    ensures n <= |s|
    ensures forall i :: |s| - n <= i < |s| ==> IsDigit(s[i])
    ensures n < |s| ==> !IsDigit(s[|s| - n - 1])
  {
    if |s| > 0 && IsDigit(s[|s| - 1]) then TrailingDigits(s[..|s| - 1]) + 1 else 0
  }

  /** Digits after a non-digit are exactly the trailing digits. */
  lemma TrailingDigitsAfter(a: string, d: string)
    requires a != [] && !IsDigit(a[|a| - 1]) && AllDigits(d)
    ensures TrailingDigits(a + d) == |d|
  {
    assert (a + d)[|a| - 1] == a[|a| - 1];
  }

  /**
   * `extractChapterNumber`: the digits of `/(\d+)/?$`, as an `Int` when
   * they fit in one (a number too large makes `toInt` throw, which gives null).
   */
  function ChapterNumber(href: string): (r: Option<int>)
    ensures r.Some? ==> 0 <= r.value <= MAX_INT
  {
    var u := StripSlash(href);
    var n := TrailingDigits(u);
    if 0 < n < |u| && u[|u| - n - 1] == '/' then
      assert AllDigits(u[|u| - n..]);
      DigitsToInt(u[|u| - n..])
    else None
  }

  /** For an accepted chapter link, the number read is the chapter number in the link. */
  lemma ChapterNumberOfAccepted(href: string, novelId: string)
    requires IsChapterHref(href, novelId)
    ensures var d := StripSlash(href[|novelId| + 2..]);
      d != [] && AllDigits(d) && ChapterNumber(href) == DigitsToInt(d)
  {
    var p := "/" + novelId + "/";
    var rest := href[|p|..];
    assert href == p + rest;
    StripSlashAfter(p, rest);
    NumberAfterSlash(href, p, StripSlash(rest));
  }

  lemma StripSlashAfter(p: string, rest: string)
    requires rest != []
    ensures StripSlash(p + rest) == p + StripSlash(rest)
  {
    if EndsWith(p + rest, "/") {
      assert (p + rest)[|p + rest| - 1] == rest[|rest| - 1];
      assert (p + rest)[..|p + rest| - 1] == p + rest[..|rest| - 1];
    }
  }

  lemma NumberAfterSlash(href: string, p: string, d: string)
    requires StripSlash(href) == p + d
    requires p != [] && p[|p| - 1] == '/' && d != [] && AllDigits(d)
    ensures ChapterNumber(href) == DigitsToInt(d)
  {
    var u := p + d;
    TrailingDigitsAfter(p, d);
    assert u[|u| - |d| - 1] == p[|p| - 1];
    assert u[|u| - |d|..] == d;
  }

  // ---------------------------------------------------------------------
  // The table of contents

  /** One child of the table of contents applied to the chapters, volume state and running order gathered so far. */
  function OnEntry(st: PageState, e: Element, novelId: string): PageState
  {
    match e
    case VolumeTitle(text) =>
      var v := VolumeState(Some(Trim(text)), st.volume.volumeOrder, 1);
      st.(volume := if st.chapters != [] then v.(volumeOrder := v.volumeOrder + 1) else v)
    case SubList(link) =>
      if link.Some? && IsChapterHref(link.value.href, novelId) then
        var v := st.volume;
        var order := ChapterNumber(link.value.href).GetOr(st.globalOrder);
        var c := ChapterInfo(Trim(link.value.text), FullUrl(link.value.href), order, v.title, v.volumeOrder, v.subOrder);
        PageState(st.chapters + [c], v.(subOrder := v.subOrder + 1), st.globalOrder + 1)
      else st
    case OtherElement => st
  }

  function OnEntries(st: PageState, elements: seq<Element>, novelId: string): PageState
    decreases |elements|
  {
    if elements == [] then st else OnEntries(OnEntry(st, elements[0], novelId), elements[1..], novelId)
  }

  const Empty: PageState := PageState([], InitialVolume, 1)

  /** The chapters in document order, before sorting. */
  function Collected(doc: Document): seq<ChapterInfo>
  {
    var novelId := NovelId(doc.baseUri);
    if novelId == "" then [] else OnEntries(Empty, doc.elements, novelId).chapters
  }

  /** `parseChapterList`: the collected chapters sorted by order. */
  function TableOfContents(doc: Document): seq<ChapterInfo>
  {
    SortByOrder(Collected(doc))
  }

  /** The list is sorted by order and holds exactly the collected chapters. */
  lemma TableOfContentsSorted(doc: Document)
    ensures SortedByOrder(TableOfContents(doc))
    ensures multiset(TableOfContents(doc)) == multiset(Collected(doc))
  {
    SortByOrderSorts(Collected(doc));
  }

  /** A base URI with no id gives no chapters. */
  lemma NoIdNoChapters(doc: Document)
    requires NovelId(doc.baseUri) == ""
    ensures TableOfContents(doc) == []
  {
  }

  /** `parseChapterList` as the source runs it: one pass over the children, then the sort. */
  method ParseChapterList(doc: Document) returns (chapters: seq<ChapterInfo>)
    ensures chapters == TableOfContents(doc)
  {
    var novelId := NovelId(doc.baseUri);
    if novelId == "" {
      return [];
    }
    var elements := doc.elements;
    var found: seq<ChapterInfo> := [];
    var currentVolumeTitle: Option<string> := None;
    var currentVolumeOrder := 1;
    var subChapterOrder := 1;
    var globalOrder := 1;
    var i := 0;
    while i < |elements|
      invariant 0 <= i <= |elements|
      invariant OnEntries(PageState(found, VolumeState(currentVolumeTitle, currentVolumeOrder, subChapterOrder), globalOrder), elements[i..], novelId)
             == OnEntries(Empty, elements, novelId)
    {
      assert elements[i..][1..] == elements[i + 1..];
      match elements[i] {
        case VolumeTitle(text) =>
          currentVolumeTitle := Some(Trim(text));
          subChapterOrder := 1;
          if found != [] {
            currentVolumeOrder := currentVolumeOrder + 1;
          }
        case SubList(link) =>
          if link.Some? {
            var chapterTitle := Trim(link.value.text);
            var chapterUrl := link.value.href;
            if IsChapterHref(chapterUrl, novelId) {
              var chapterNumber := ChapterNumber(chapterUrl);
              var order := if chapterNumber.Some? then chapterNumber.value else globalOrder;
              found := found + [ChapterInfo(chapterTitle, FullUrl(chapterUrl), order, currentVolumeTitle, currentVolumeOrder, subChapterOrder)];
              subChapterOrder := subChapterOrder + 1;
              globalOrder := globalOrder + 1;
            }
          }
        case OtherElement =>
      }
      i := i + 1;
    }
    assert elements[i..] == [];
    chapters := SortByOrder(found);
  }

  // ---------------------------------------------------------------------
  // Numbering of the collected chapters

  /**
   * The invariant of the pass: each chapter continues after the one
   * before it, the first chapter is sub-chapter 1 of volume 1, and the
   * volume state continues after the last chapter.
   */
  predicate Laid(st: PageState)
  {
    var cs := st.chapters;
    Consecutive(cs) && st.globalOrder == |cs| + 1
    && (cs == [] ==> st.volume.volumeOrder == 1 && st.volume.subOrder == 1)
    && (cs != [] ==> cs[0].volumeOrder == 1 && cs[0].subOrder == 1 && Follows(cs[|cs| - 1], st.volume))
  }

  lemma OnEntryLaid(st: PageState, e: Element, novelId: string)
    requires Laid(st)
    ensures Laid(OnEntry(st, e, novelId))
  {
    if e.SubList? && e.link.Some? && IsChapterHref(e.link.value.href, novelId) {
      var r := OnEntry(st, e, novelId);
      var c := r.chapters[|r.chapters| - 1];
      assert r.chapters == st.chapters + [c];
      ConsecutiveAppend(st.chapters, c);
    }
  }

  /** A chapter that follows the last one extends a consecutive list. */
  lemma ConsecutiveAppend(cs: seq<ChapterInfo>, c: ChapterInfo)
    requires Consecutive(cs) && (cs != [] ==> Follows(cs[|cs| - 1], VolumeOf(c)))
    ensures Consecutive(cs + [c])
  {
    var r := cs + [c];
    forall k | 0 < k < |r|
      ensures Follows(r[k - 1], VolumeOf(r[k]))
    {
      if k < |cs| {
        assert r[k - 1] == cs[k - 1] && r[k] == cs[k];
      }
    }
  }

  lemma {:induction false} OnEntriesLaid(st: PageState, elements: seq<Element>, novelId: string)
    requires Laid(st)
    ensures Laid(OnEntries(st, elements, novelId))
    decreases |elements|
  {
    if elements != [] {
      OnEntryLaid(st, elements[0], novelId);
      OnEntriesLaid(OnEntry(st, elements[0], novelId), elements[1..], novelId);
    }
  }

  /**
   * In document order, each chapter continues the volume numbering of the
   * one before it (the next sub-chapter of the same volume, or sub-chapter 1
   * of a later titled volume), and the first chapter is sub-chapter 1 of
   * volume 1 however many titles precede it.
   */
  lemma CollectedNumbered(doc: Document)
    ensures var cs := Collected(doc);
      Consecutive(cs) && (cs != [] ==> cs[0].volumeOrder == 1 && cs[0].subOrder == 1)
  {
    var novelId := NovelId(doc.baseUri);
    if novelId != "" {
      OnEntriesLaid(Empty, doc.elements, novelId);
    }
  }

  // ---------------------------------------------------------------------
  // What each chapter records

  /** Chapter `c` records link `l`; `position` is its 1-based place among the accepted links. */
  predicate EntryOf(c: ChapterInfo, l: Link, position: int)
  {
    c.title == Trim(l.text) && c.url == SitePrefix + l.href
    && c.order == ChapterNumber(l.href).GetOr(position)
  }

  /** Going from `st` to `r` appended one chapter per link of `links`, in order. */
  predicate Listed(st: PageState, r: PageState, links: seq<Link>)
  {
    |r.chapters| == |st.chapters| + |links| && r.chapters[..|st.chapters|] == st.chapters
    && r.globalOrder == st.globalOrder + |links|
    && forall k :: 0 <= k < |links| ==> EntryOf(r.chapters[|st.chapters| + k], links[k], st.globalOrder + k)
  }

  lemma ListedTrans(a: PageState, b: PageState, c: PageState, l1: seq<Link>, l2: seq<Link>)
    requires Listed(a, b, l1) && Listed(b, c, l2)
    ensures Listed(a, c, l1 + l2)
  {
    assert c.chapters[..|a.chapters|] == c.chapters[..|b.chapters|][..|a.chapters|];
    forall k | 0 <= k < |l1 + l2|
      ensures EntryOf(c.chapters[|a.chapters| + k], (l1 + l2)[k], a.globalOrder + k)
    {
      if k < |l1| {
        assert EntryOf(b.chapters[|a.chapters| + k], l1[k], a.globalOrder + k);
        assert c.chapters[|a.chapters| + k] == c.chapters[..|b.chapters|][|a.chapters| + k];
        assert (l1 + l2)[k] == l1[k];
      } else {
        var j := k - |l1|;
        assert EntryOf(c.chapters[|b.chapters| + j], l2[j], b.globalOrder + j);
        assert |a.chapters| + k == |b.chapters| + j;
        assert (l1 + l2)[k] == l2[j];
      }
    }
  }

  lemma OnEntryListed(st: PageState, e: Element, novelId: string)
    ensures Listed(st, OnEntry(st, e, novelId), AcceptedHere(e, novelId))
  {
    if e.SubList? && e.link.Some? && IsChapterHref(e.link.value.href, novelId) {
      AcceptedHrefIsRelative(e.link.value.href, novelId);
      var r := OnEntry(st, e, novelId);
      assert r.chapters[..|st.chapters|] == st.chapters;
    }
  }

  lemma {:induction false} OnEntriesListed(st: PageState, elements: seq<Element>, novelId: string)
    ensures Listed(st, OnEntries(st, elements, novelId), Accepted(elements, novelId))
    decreases |elements|
  {
    if elements == [] {
      assert st.chapters[..|st.chapters|] == st.chapters;
    } else {
      var next := OnEntry(st, elements[0], novelId);
      OnEntryListed(st, elements[0], novelId);
      OnEntriesListed(next, elements[1..], novelId);
      assert Accepted(elements, novelId) == AcceptedHere(elements[0], novelId) + Accepted(elements[1..], novelId);
      ListedTrans(st, next, OnEntries(next, elements[1..], novelId), AcceptedHere(elements[0], novelId), Accepted(elements[1..], novelId));
    }
  }

  /**
   * The k-th collected chapter records the k-th accepted link: its trimmed
   * text, the site prefix plus its `href`, and as order the chapter number
   * in the link, or the link's 1-based position when that number does not
   * fit in an `Int`.
   */
  lemma CollectedRecords(doc: Document, k: nat)
    requires NovelId(doc.baseUri) != ""
    requires k < |Accepted(doc.elements, NovelId(doc.baseUri))|
    ensures |Collected(doc)| == |Accepted(doc.elements, NovelId(doc.baseUri))|
    ensures EntryOf(Collected(doc)[k], Accepted(doc.elements, NovelId(doc.baseUri))[k], k + 1)
  {
    EntriesRecords(doc.elements, NovelId(doc.baseUri), k);
  }

  lemma EntriesRecords(elements: seq<Element>, novelId: string, k: nat)
    requires k < |Accepted(elements, novelId)|
    ensures |OnEntries(Empty, elements, novelId).chapters| == |Accepted(elements, novelId)|
    ensures EntryOf(OnEntries(Empty, elements, novelId).chapters[k], Accepted(elements, novelId)[k], k + 1)
  {
    OnEntriesListed(Empty, elements, novelId);
    ListedFromEmpty(OnEntries(Empty, elements, novelId), Accepted(elements, novelId), k);
  }

  lemma ListedFromEmpty(r: PageState, links: seq<Link>, k: nat)
    requires Listed(Empty, r, links) && k < |links|
    ensures |r.chapters| == |links|
    ensures EntryOf(r.chapters[k], links[k], k + 1)
  {
    assert EntryOf(r.chapters[|Empty.chapters| + k], links[k], Empty.globalOrder + k);
  }
}
