// NarouContent: the chapter-list crawler for ncode.syosetu.com. The table
// of contents arrives page by page as a list of elements (volume titles and
// chapter entries); the parser numbers chapters across pages and carries
// the volume state from one page to the next.

module NarouContent {
  import opened Wrappers
  import opened Strings

  const SiteDomain: string := "ncode.syosetu.com"
  const SitePrefix: string := "https://ncode.syosetu.com"
  const MaxPages: nat := 100

  /** The subtitle link of a chapter entry: its text and its `href`. */
  datatype Link = Link(text: string, href: string)

  /** A child of the table of contents. */
  datatype Element =
    | VolumeTitle(text: string)
    | SubList(link: Option<Link>)
    | OtherElement

  /** What a site parser reports about a book (the last update time is not modelled). */
  datatype NetworkBookInfo = NetworkBookInfo(
    title: string,
    author: string,
    description: string,
    sourceUrl: string,
    chapters: seq<ChapterInfo>,
    totalWords: Option<int>,
    status: string,
    tags: seq<string>)

  /** A chapter as the parsers report it (the publish time is not modelled). */
  datatype ChapterInfo = ChapterInfo(
    title: string,
    url: string,
    order: int,
    volumeTitle: Option<string>,
    volumeOrder: int,
    subOrder: int)

  /** `canParse`. */
  predicate CanParse(url: string)
  {
    Contains(url, SiteDomain) && Contains(url, "/n")
  }

  /** Every novel page of the site, "https://ncode.syosetu.com/n…/", is accepted. */
  lemma CanParseNovelPage(ncode: string)
    requires |ncode| > 0 && ncode[0] == 'n'
    ensures CanParse(SitePrefix + "/" + ncode + "/")
  {
    var url := SitePrefix + "/" + ncode + "/";
    assert url[8..8 + |SiteDomain|] == SiteDomain;
    assert OccursAt(url, SiteDomain, 8);
    assert url[|SitePrefix|..|SitePrefix| + 2] == "/n";
    assert OccursAt(url, "/n", |SitePrefix|);
  }

  // ---------------------------------------------------------------------
  // URLs

  function StripSlash(s: string): (r: string)
    ensures EndsWith(s, "/") ==> s == r + "/"
    ensures !EndsWith(s, "/") ==> r == s
  {
    if EndsWith(s, "/") then s[..|s| - 1] else s
  }

  /** Index of the last `c` in `s`. */
  function LastIndexOf(s: string, c: char): (r: Option<nat>)
    ensures r.None? <==> c !in s
    ensures r.Some? ==> r.value < |s| && s[r.value] == c && c !in s[r.value + 1..]
  {
    if s == [] then None
    else if s[|s| - 1] == c then Some(|s| - 1)
    else
      var r := LastIndexOf(s[..|s| - 1], c);
      assert s == s[..|s| - 1] + [s[|s| - 1]];
      if r.Some? then
        assert s[r.value + 1..] == s[..|s| - 1][r.value + 1..] + [s[|s| - 1]];
        r
      else r
  }

  /** `extractNovelIdFromUrl`: the first group of `/([^/]+?)/?$`, or "" when it does not match. */
  function NovelId(url: string): string
  {
    var u := StripSlash(url);
    match LastIndexOf(u, '/')
    case None => ""
    case Some(i) => u[i + 1..]
  }

  /** The id found is the last path segment, with or without one trailing "/", and nothing else. */
  lemma NovelIdIsLastSegment(url: string, id: string)
    requires id != ""
    ensures NovelId(url) == id <==> '/' !in id && (EndsWith(url, "/" + id) || EndsWith(url, "/" + id + "/"))
  {
    if '/' !in id && (EndsWith(url, "/" + id) || EndsWith(url, "/" + id + "/")) {
      LastSegmentFound(url, id);
    }
    if NovelId(url) == id {
      FoundIsLastSegment(url, id);
    }
  }

  lemma LastSegmentFound(url: string, id: string)
    requires id != "" && '/' !in id && (EndsWith(url, "/" + id) || EndsWith(url, "/" + id + "/"))
    ensures NovelId(url) == id
  {
    var u := StripSlash(url);
    StrippedEndsWithSegment(url, id);
    LastSlashBeforeSegment(u, id);
  }

  lemma StrippedEndsWithSegment(url: string, id: string)
    requires id != "" && '/' !in id && (EndsWith(url, "/" + id) || EndsWith(url, "/" + id + "/"))
    ensures EndsWith(StripSlash(url), "/" + id)
  {
    if EndsWith(url, "/" + id + "/") {
      var tail := "/" + id + "/";
      assert url[|url| - 1] == '/';
      var v := StripSlash(url);
      assert v == url[..|url| - 1];
      assert v[|v| - |id| - 1..] == url[|url| - |id| - 2..|url| - 1];
      assert url[|url| - |id| - 2..] == tail;
      assert url[|url| - |id| - 2..|url| - 1] == tail[..|tail| - 1];
    } else {
      assert url[|url| - 1] == id[|id| - 1];
    }
  }

  lemma LastSlashBeforeSegment(u: string, id: string)
    requires '/' !in id && EndsWith(u, "/" + id)
    ensures LastIndexOf(u, '/') == Some(|u| - |id| - 1)
    ensures u[|u| - |id|..] == id
  {
    var i := |u| - |id| - 1;
    assert u[i..] == "/" + id;
    assert u[i + 1..] == id;
    assert u[i] == '/' && '/' !in u[i + 1..];
  }

  lemma FoundIsLastSegment(url: string, id: string)
    requires id != "" && NovelId(url) == id
    ensures '/' !in id && (EndsWith(url, "/" + id) || EndsWith(url, "/" + id + "/"))
  {
    var u := StripSlash(url);
    var i := LastIndexOf(u, '/').value;
    assert u[i + 1..] == id;
    assert u[i..] == "/" + id;
    if EndsWith(url, "/") {
      assert url == u + "/";
      assert url[|url| - |id| - 2..] == u[i..] + "/";
    } else {
      assert url == u;
    }
  }

  /** The URL of page `page` of the table of contents, `novelUrl` ending in "/". */
  function PageUrl(novelUrl: string, page: nat): string
  {
    if page == 1 then novelUrl else novelUrl + "?p=" + NatToString(page)
  }

  /** Distinct pages are fetched from distinct URLs. */
  lemma PageUrlInjective(novelUrl: string, p: nat, q: nat)
    requires PageUrl(novelUrl, p) == PageUrl(novelUrl, q)
    ensures p == q
  {
    if p != 1 && q != 1 {
      var a := NatToString(p);
      var b := NatToString(q);
      assert novelUrl + "?p=" + a == novelUrl + "?p=" + b;
      assert a == (novelUrl + "?p=" + a)[|novelUrl| + 3..];
      assert b == (novelUrl + "?p=" + b)[|novelUrl| + 3..];
      DigitsValueOfNatToString(p);
      DigitsValueOfNatToString(q);
    }
  }

  /** `href` matches `/<novelId>/\d+/?` as a whole (the id taken literally). */
  predicate IsChapterHref(href: string, novelId: string)
  {
    var p := "/" + novelId + "/";
    StartsWith(href, p)
    && var d := StripSlash(href[|p|..]);
    d != [] && AllDigits(d)
  }

  /** The URL stored for a chapter link. */
  function FullUrl(href: string): string
  {
    if StartsWith(href, "http") then href else SitePrefix + href
  }

  /** An accepted `href` starts with "/", so the absolute-URL branch is never taken. */
  lemma AcceptedHrefIsRelative(href: string, novelId: string)
    requires IsChapterHref(href, novelId)
    ensures FullUrl(href) == SitePrefix + href
  {
    assert href[0] == '/';
  }

  // ---------------------------------------------------------------------
  // One page

  /** The volume state carried from element to element and from page to page. */
  datatype VolumeState = VolumeState(title: Option<string>, volumeOrder: int, subOrder: int)

  const InitialVolume: VolumeState := VolumeState(None, 1, 1)

  datatype PageState = PageState(chapters: seq<ChapterInfo>, volume: VolumeState, globalOrder: int)

  datatype PageResult = PageResult(chapters: seq<ChapterInfo>, volume: VolumeState)

  function OnElement(st: PageState, e: Element, novelId: string): PageState
  {
    match e
    case VolumeTitle(text) =>
      var title := Trim(text);
      if Some(title) != st.volume.title then st.(volume := VolumeState(Some(title), st.volume.volumeOrder + 1, 1))
      else st
    case SubList(link) =>
      if link.Some? && IsChapterHref(link.value.href, novelId) then
        var v := st.volume;
        var c := ChapterInfo(Trim(link.value.text), FullUrl(link.value.href), st.globalOrder, v.title, v.volumeOrder, v.subOrder);
        PageState(st.chapters + [c], v.(subOrder := v.subOrder + 1), st.globalOrder + 1)
      else st
    case OtherElement => st
  }

  /** A volume title that differs from the current one opens the next volume at sub-order 1; repeating it changes nothing. */
  lemma VolumeTitleStep(st: PageState, text: string, novelId: string)
    ensures var r := OnElement(st, VolumeTitle(text), novelId);
      r.chapters == st.chapters && r.globalOrder == st.globalOrder
      && (Some(Trim(text)) == st.volume.title ==> r == st)
      && (Some(Trim(text)) != st.volume.title ==>
            r.volume.title == Some(Trim(text)) && r.volume.volumeOrder == st.volume.volumeOrder + 1 && r.volume.subOrder == 1)
  {
  }

  function OnElements(st: PageState, elements: seq<Element>, novelId: string): PageState
    decreases |elements|
  {
    if elements == [] then st else OnElements(OnElement(st, elements[0], novelId), elements[1..], novelId)
  }

  /** `parsePageChapters`. */
  function ParsePage(elements: seq<Element>, novelId: string, startOrder: int, inherited: VolumeState): PageResult
  {
    var st := OnElements(PageState([], inherited, startOrder + 1), elements, novelId);
    PageResult(st.chapters, st.volume)
  }

  lemma OnElementsStep(st: PageState, elements: seq<Element>, i: nat, novelId: string)
    requires i < |elements|
    ensures OnElements(st, elements[i..], novelId) == OnElements(OnElement(st, elements[i], novelId), elements[i + 1..], novelId)
  {
    assert elements[i..][1..] == elements[i + 1..];
  }

  method ParsePageChapters(elements: seq<Element>, novelId: string, startOrder: int, inherited: VolumeState)
    returns (result: PageResult)
    ensures result == ParsePage(elements, novelId, startOrder, inherited)
  {
    var chapters: seq<ChapterInfo> := [];
    var currentVolumeTitle := inherited.title;
    var currentVolumeOrder := inherited.volumeOrder;
    var subChapterOrder := inherited.subOrder;
    var globalOrder := startOrder + 1;
    var i := 0;
    while i < |elements|
      invariant 0 <= i <= |elements|
      invariant OnElements(PageState(chapters, VolumeState(currentVolumeTitle, currentVolumeOrder, subChapterOrder), globalOrder), elements[i..], novelId)
             == OnElements(PageState([], inherited, startOrder + 1), elements, novelId)
    {
      OnElementsStep(PageState(chapters, VolumeState(currentVolumeTitle, currentVolumeOrder, subChapterOrder), globalOrder), elements, i, novelId);
      chapters, currentVolumeTitle, currentVolumeOrder, subChapterOrder, globalOrder :=
        ParseElement(elements[i], novelId, chapters, currentVolumeTitle, currentVolumeOrder, subChapterOrder, globalOrder);
      i := i + 1;
    }
    assert elements[i..] == [];
    result := PageResult(chapters, VolumeState(currentVolumeTitle, currentVolumeOrder, subChapterOrder));
  }

  /** The body of the element loop: one child of the table of contents updates the loop's variables. */
  method ParseElement(e: Element, novelId: string, chapters: seq<ChapterInfo>, currentVolumeTitle: Option<string>,
                      currentVolumeOrder: int, subChapterOrder: int, globalOrder: int)
    returns (chapters': seq<ChapterInfo>, currentVolumeTitle': Option<string>, currentVolumeOrder': int,
             subChapterOrder': int, globalOrder': int)
    ensures PageState(chapters', VolumeState(currentVolumeTitle', currentVolumeOrder', subChapterOrder'), globalOrder')
         == OnElement(PageState(chapters, VolumeState(currentVolumeTitle, currentVolumeOrder, subChapterOrder), globalOrder), e, novelId)
  {
    chapters', currentVolumeTitle', currentVolumeOrder', subChapterOrder', globalOrder' :=
      chapters, currentVolumeTitle, currentVolumeOrder, subChapterOrder, globalOrder;
    match e {
      case VolumeTitle(text) =>
        var newVolumeTitle := Trim(text);
        if Some(newVolumeTitle) != currentVolumeTitle {
          currentVolumeTitle' := Some(newVolumeTitle);
          currentVolumeOrder' := currentVolumeOrder + 1;
          subChapterOrder' := 1;
        }
      case SubList(link) =>
        if link.Some? {
          var chapterTitle := Trim(link.value.text);
          var chapterUrl := link.value.href;
          if IsChapterHref(chapterUrl, novelId) {
            var fullUrl := FullUrl(chapterUrl);
            chapters' := chapters + [ChapterInfo(chapterTitle, fullUrl, globalOrder, currentVolumeTitle, currentVolumeOrder, subChapterOrder)];
            subChapterOrder' := subChapterOrder + 1;
            globalOrder' := globalOrder + 1;
          }
        }
      case OtherElement =>
    }
  }

  // ---------------------------------------------------------------------
  // Numbering invariants

  /** `next` continues after chapter `c`: same volume and the next sub-order, or a later volume from sub-order 1. */
  predicate Follows(c: ChapterInfo, next: VolumeState)
  {
    (next.volumeOrder == c.volumeOrder && next.title == c.volumeTitle && next.subOrder == c.subOrder + 1)
    || (next.volumeOrder > c.volumeOrder && next.subOrder == 1 && next.title.Some?)
  }

  function VolumeOf(c: ChapterInfo): VolumeState
  {
    VolumeState(c.volumeTitle, c.volumeOrder, c.subOrder)
  }

  /** Orders 1, 2, …, N without gaps. */
  predicate OrderedFromOne(cs: seq<ChapterInfo>)
  {
    forall k :: 0 <= k < |cs| ==> cs[k].order == k + 1
  }

  /** Each chapter continues after the one before it. */
  predicate Consecutive(cs: seq<ChapterInfo>)
  {
    forall k :: 0 < k < |cs| ==> Follows(cs[k - 1], VolumeOf(cs[k]))
  }

  /** The volume numbering as it leaves the initial state: volume 1 untitled, or a titled volume from 2 on. */
  predicate Opening(v: VolumeState)
  {
    v == InitialVolume || (v.volumeOrder >= 2 && v.subOrder == 1 && v.title.Some?)
  }

  /** The invariant of the crawl: everything collected so far (`done` then this page's chapters) is well numbered. */
  predicate Numbered(done: seq<ChapterInfo>, st: PageState)
  {
    var all := done + st.chapters;
    OrderedFromOne(all) && Consecutive(all) && st.globalOrder == |all| + 1
    && (all == [] ==> Opening(st.volume))
    && (all != [] ==> Opening(VolumeOf(all[0])) && Follows(all[|all| - 1], st.volume))
  }

  lemma OnElementNumbered(done: seq<ChapterInfo>, st: PageState, e: Element, novelId: string)
    requires Numbered(done, st)
    ensures Numbered(done, OnElement(st, e, novelId))
  {
    if e.SubList? && e.link.Some? && IsChapterHref(e.link.value.href, novelId) {
      var c := ChapterInfo(Trim(e.link.value.text), FullUrl(e.link.value.href), st.globalOrder, st.volume.title, st.volume.volumeOrder, st.volume.subOrder);
      assert OnElement(st, e, novelId) == PageState(st.chapters + [c], st.volume.(subOrder := st.volume.subOrder + 1), st.globalOrder + 1);
      ChapterNumbered(done, st, c);
    } else if e.VolumeTitle? {
      TitleNumbered(done, st, Trim(e.text));
    }
  }

  lemma ChapterNumbered(done: seq<ChapterInfo>, st: PageState, c: ChapterInfo)
    requires Numbered(done, st)
    requires c.order == st.globalOrder && VolumeOf(c) == st.volume
    ensures Numbered(done, PageState(st.chapters + [c], st.volume.(subOrder := st.volume.subOrder + 1), st.globalOrder + 1))
  {
    var all := done + st.chapters;
    assert done + (st.chapters + [c]) == all + [c];
    var all' := all + [c];
    assert forall k :: 0 <= k < |all| ==> all'[k] == all[k];
    assert all'[|all|] == c;
  }

  lemma TitleNumbered(done: seq<ChapterInfo>, st: PageState, title: string)
    requires Numbered(done, st)
    ensures Some(title) != st.volume.title ==>
      Numbered(done, st.(volume := VolumeState(Some(title), st.volume.volumeOrder + 1, 1)))
  {
  }

  lemma {:induction false} OnElementsNumbered(done: seq<ChapterInfo>, st: PageState, elements: seq<Element>, novelId: string)
    requires Numbered(done, st)
    ensures Numbered(done, OnElements(st, elements, novelId))
    decreases |elements|
  {
    if elements != [] {
      OnElementNumbered(done, st, elements[0], novelId);
      OnElementsNumbered(done, OnElement(st, elements[0], novelId), elements[1..], novelId);
    }
  }

  /**
   * A page continues the numbering of the chapters before it: its chapters
   * get orders startOrder+1, startOrder+2, … without gaps, each continues
   * the volume numbering of the one before, and the volume state it returns
   * continues after its last chapter.
   */
  lemma PageNumbered(done: seq<ChapterInfo>, elements: seq<Element>, novelId: string, inherited: VolumeState)
    requires Numbered(done, PageState([], inherited, |done| + 1))
    ensures var page := ParsePage(elements, novelId, |done|, inherited);
      Numbered(done + page.chapters, PageState([], page.volume, |done + page.chapters| + 1))
  {
    var st := OnElements(PageState([], inherited, |done| + 1), elements, novelId);
    OnElementsNumbered(done, PageState([], inherited, |done| + 1), elements, novelId);
    assert done + st.chapters + [] == done + st.chapters;
  }

  /** The links a page accepts, in order. */
  function Accepted(elements: seq<Element>, novelId: string): (links: seq<Link>)
    ensures |links| <= |elements|
  {
    if elements == [] then []
    else
      var e := elements[0];
      (if e.SubList? && e.link.Some? && IsChapterHref(e.link.value.href, novelId) then [e.link.value] else [])
      + Accepted(elements[1..], novelId)
  }

  /** Every accepted link points at a chapter of the novel. */
  lemma {:induction false} AcceptedAreChapterLinks(elements: seq<Element>, novelId: string)
    ensures forall k :: 0 <= k < |Accepted(elements, novelId)| ==> IsChapterHref(Accepted(elements, novelId)[k].href, novelId)
    decreases |elements|
  {
    if elements != [] {
      AcceptedAreChapterLinks(elements[1..], novelId);
    }
  }

  /** Chapter `c` records link `l` at order `order`. */
  predicate RecordOf(c: ChapterInfo, l: Link, order: int)
  {
    c.title == Trim(l.text) && c.url == SitePrefix + l.href && c.order == order
  }

  /** Going from `st` to `r` appended one chapter per link of `links`, in order, numbered on from `st`. */
  predicate Records(st: PageState, r: PageState, links: seq<Link>)
  {
    |r.chapters| == |st.chapters| + |links| && r.chapters[..|st.chapters|] == st.chapters
    && r.globalOrder == st.globalOrder + |links|
    && forall k :: 0 <= k < |links| ==> RecordOf(r.chapters[|st.chapters| + k], links[k], st.globalOrder + k)
  }

  lemma RecordsTrans(a: PageState, b: PageState, c: PageState, l1: seq<Link>, l2: seq<Link>)
    requires Records(a, b, l1) && Records(b, c, l2)
    ensures Records(a, c, l1 + l2)
  {
    assert c.chapters[..|a.chapters|] == c.chapters[..|b.chapters|][..|a.chapters|];
    forall k | 0 <= k < |l1 + l2|
      ensures RecordOf(c.chapters[|a.chapters| + k], (l1 + l2)[k], a.globalOrder + k)
    {
      if k < |l1| {
        assert RecordOf(b.chapters[|a.chapters| + k], l1[k], a.globalOrder + k);
        assert c.chapters[|a.chapters| + k] == c.chapters[..|b.chapters|][|a.chapters| + k];
        assert (l1 + l2)[k] == l1[k];
      } else {
        var j := k - |l1|;
        assert RecordOf(c.chapters[|b.chapters| + j], l2[j], b.globalOrder + j);
        assert |a.chapters| + k == |b.chapters| + j;
        assert (l1 + l2)[k] == l2[j];
      }
    }
  }

  function AcceptedHere(e: Element, novelId: string): seq<Link>
  {
    if e.SubList? && e.link.Some? && IsChapterHref(e.link.value.href, novelId) then [e.link.value] else []
  }

  lemma OnElementRecords(st: PageState, e: Element, novelId: string)
    ensures Records(st, OnElement(st, e, novelId), AcceptedHere(e, novelId))
  {
    if e.SubList? && e.link.Some? && IsChapterHref(e.link.value.href, novelId) {
      AcceptedHrefIsRelative(e.link.value.href, novelId);
      var r := OnElement(st, e, novelId);
      assert r.chapters[..|st.chapters|] == st.chapters;
    }
  }

  /**
   * A page records exactly its accepted links, in order: the trimmed link
   * text as title and the site prefix plus the `href` as URL; rejected
   * entries and volume titles consume no order.
   */
  lemma {:induction false} OnElementsRecords(st: PageState, elements: seq<Element>, novelId: string)
    ensures Records(st, OnElements(st, elements, novelId), Accepted(elements, novelId))
    decreases |elements|
  {
    if elements == [] {
      assert st.chapters[..|st.chapters|] == st.chapters;
    } else {
      var next := OnElement(st, elements[0], novelId);
      OnElementRecords(st, elements[0], novelId);
      OnElementsRecords(next, elements[1..], novelId);
      assert Accepted(elements, novelId) == AcceptedHere(elements[0], novelId) + Accepted(elements[1..], novelId);
      RecordsTrans(st, next, OnElements(next, elements[1..], novelId), AcceptedHere(elements[0], novelId), Accepted(elements[1..], novelId));
    }
  }

  // ---------------------------------------------------------------------
  // All pages

  /** A fetched page of the table of contents and whether it links to a next page. */
  datatype Page = Page(elements: seq<Element>, hasNext: bool)

  /** The page loop from page `page` on, with the chapters and volume state gathered so far. */
  function CrawlFrom(novelUrl: string, novelId: string, fetch: map<string, Page>, page: nat, done: seq<ChapterInfo>, volume: VolumeState): seq<ChapterInfo>
    decreases MaxPages + 1 - page
  {
    if page == 0 || page > MaxPages then done
    else
      var url := PageUrl(novelUrl, page);
      if url !in fetch then done
      else
        var result := ParsePage(fetch[url].elements, novelId, |done|, volume);
        if result.chapters == [] then done
        else if fetch[url].hasNext then CrawlFrom(novelUrl, novelId, fetch, page + 1, done + result.chapters, result.volume)
        else done + result.chapters
  }

  /** The order `sortedBy { it.order }` puts chapters in: stable, by `order`. */
  predicate SortedByOrder(cs: seq<ChapterInfo>)
  {
    forall i, j :: 0 <= i < j < |cs| ==> cs[i].order <= cs[j].order
  }

  /** Inserts `c` after every chapter whose order is not greater. */
  function InsertByOrder(sorted: seq<ChapterInfo>, c: ChapterInfo): (r: seq<ChapterInfo>)
    ensures |r| == |sorted| + 1
    decreases |sorted|
  {
    if sorted == [] || sorted[|sorted| - 1].order <= c.order then sorted + [c]
    else InsertByOrder(sorted[..|sorted| - 1], c) + [sorted[|sorted| - 1]]
  }

  lemma {:induction false} InsertKeepsElements(sorted: seq<ChapterInfo>, c: ChapterInfo)
    ensures multiset(InsertByOrder(sorted, c)) == multiset(sorted) + multiset{c}
    decreases |sorted|
  {
    if !(sorted == [] || sorted[|sorted| - 1].order <= c.order) {
      var front := sorted[..|sorted| - 1];
      assert sorted == front + [sorted[|sorted| - 1]];
      InsertKeepsElements(front, c);
    }
  }

  lemma {:induction false} InsertKeepsSorted(sorted: seq<ChapterInfo>, c: ChapterInfo)
    requires SortedByOrder(sorted)
    ensures SortedByOrder(InsertByOrder(sorted, c))
    decreases |sorted|
  {
    if !(sorted == [] || sorted[|sorted| - 1].order <= c.order) {
      var last := sorted[|sorted| - 1];
      var front := sorted[..|sorted| - 1];
      assert sorted == front + [last];
      InsertKeepsSorted(front, c);
      InsertKeepsElements(front, c);
      var m := InsertByOrder(front, c);
      forall i | 0 <= i < |m| ensures m[i].order <= last.order {
        assert m[i] in multiset(m);
        assert m[i] in multiset(front) || m[i] == c;
        if m[i] in multiset(front) {
          var j :| 0 <= j < |front| && front[j] == m[i];
          assert sorted[j] == front[j];
        }
      }
    }
  }

  /** `sortedBy { it.order }`: stable insertion by order. */
  function SortByOrder(cs: seq<ChapterInfo>): (r: seq<ChapterInfo>)
    ensures |r| == |cs|
    decreases |cs|
  {
    if cs == [] then [] else InsertByOrder(SortByOrder(cs[..|cs| - 1]), cs[|cs| - 1])
  }

  /** The sort puts the chapters in order and keeps every one of them. */
  lemma {:induction false} SortByOrderSorts(cs: seq<ChapterInfo>)
    ensures SortedByOrder(SortByOrder(cs)) && multiset(SortByOrder(cs)) == multiset(cs)
    decreases |cs|
  {
    if cs != [] {
      var front := cs[..|cs| - 1];
      SortByOrderSorts(front);
      InsertKeepsSorted(SortByOrder(front), cs[|cs| - 1]);
      InsertKeepsElements(SortByOrder(front), cs[|cs| - 1]);
      assert cs == front + [cs[|cs| - 1]];
    }
  }

  /** Sorting a list already in order changes nothing. */
  lemma {:induction false} SortSortedIsIdentity(cs: seq<ChapterInfo>)
    requires SortedByOrder(cs)
    ensures SortByOrder(cs) == cs
    decreases |cs|
  {
    if cs != [] {
      var front := cs[..|cs| - 1];
      var last := cs[|cs| - 1];
      assert SortedByOrder(front) by {
        forall i, j | 0 <= i < j < |front| ensures front[i].order <= front[j].order {
          assert front[i] == cs[i] && front[j] == cs[j];
        }
      }
      SortSortedIsIdentity(front);
      assert SortByOrder(cs) == InsertByOrder(front, last);
      if front != [] {
        assert front[|front| - 1] == cs[|cs| - 2];
      }
      assert cs == front + [last];
    }
  }

  /** `parseChapterList`: "/" appended when missing, no id gives no chapters, then the sorted crawl. */
  function ChapterList(baseUrl: string, fetch: map<string, Page>): seq<ChapterInfo>
  {
    var novelUrl := if EndsWith(baseUrl, "/") then baseUrl else baseUrl + "/";
    var novelId := NovelId(novelUrl);
    if novelId == "" then [] else SortByOrder(CrawlFrom(novelUrl, novelId, fetch, 1, [], InitialVolume))
  }

  /** A finished list: numbered 1..N, volumes consecutive, and opening as a crawl opens. */
  predicate NumberedList(cs: seq<ChapterInfo>)
  {
    OrderedFromOne(cs) && Consecutive(cs) && (cs != [] ==> Opening(VolumeOf(cs[0])))
  }

  lemma NumberedDone(done: seq<ChapterInfo>, volume: VolumeState)
    requires Numbered(done, PageState([], volume, |done| + 1))
    ensures NumberedList(done)
  {
    assert done + [] == done;
  }

  lemma {:induction false} CrawlNumbered(novelUrl: string, novelId: string, fetch: map<string, Page>, page: nat, done: seq<ChapterInfo>, volume: VolumeState)
    requires Numbered(done, PageState([], volume, |done| + 1))
    ensures NumberedList(CrawlFrom(novelUrl, novelId, fetch, page, done, volume))
    ensures |CrawlFrom(novelUrl, novelId, fetch, page, done, volume)| >= |done|
    decreases MaxPages + 1 - page
  {
    var url := PageUrl(novelUrl, page);
    if page == 0 || page > MaxPages || url !in fetch {
      NumberedDone(done, volume);
    } else {
      var result := ParsePage(fetch[url].elements, novelId, |done|, volume);
      var next := done + result.chapters;
      PageNumbered(done, fetch[url].elements, novelId, volume);
      if result.chapters == [] {
        NumberedDone(done, volume);
      } else if fetch[url].hasNext {
        CrawlNumbered(novelUrl, novelId, fetch, page + 1, next, result.volume);
      } else {
        NumberedDone(next, result.volume);
      }
    }
  }

  /**
   * Over all pages the chapters are numbered 1..N in page order (so the
   * final sort keeps that order), each continues the volume numbering of
   * the one before it across page boundaries, and the first chapter opens
   * volume 1 untitled or a titled volume numbered from 2.
   */
  lemma ChapterListNumbered(baseUrl: string, fetch: map<string, Page>)
    ensures NumberedList(ChapterList(baseUrl, fetch))
  {
    var novelUrl := if EndsWith(baseUrl, "/") then baseUrl else baseUrl + "/";
    var novelId := NovelId(novelUrl);
    if novelId != "" {
      var crawl := CrawlFrom(novelUrl, novelId, fetch, 1, [], InitialVolume);
      var empty: seq<ChapterInfo> := [];
      assert Numbered(empty, PageState([], InitialVolume, 1));
      CrawlNumbered(novelUrl, novelId, fetch, 1, empty, InitialVolume);
      SortSortedIsIdentity(crawl);
    }
  }

  /** Two fetch results that agree on the page URLs from `page` to `last` give the same crawl, when page `last` ends it. */
  predicate Agree(novelUrl: string, f: map<string, Page>, g: map<string, Page>, page: nat, last: nat)
  {
    forall p: nat :: page <= p <= last ==>
      (PageUrl(novelUrl, p) in f <==> PageUrl(novelUrl, p) in g)
      && (PageUrl(novelUrl, p) in f ==> f[PageUrl(novelUrl, p)] == g[PageUrl(novelUrl, p)])
  }

  /** Page `p` ends the crawl: it fails to load, accepts no chapter, or has no next link. */
  predicate EndsCrawl(novelUrl: string, novelId: string, f: map<string, Page>, p: nat)
  {
    var url := PageUrl(novelUrl, p);
    url !in f || Accepted(f[url].elements, novelId) == [] || !f[url].hasNext
  }

  /** A page accepting no link yields no chapters. */
  lemma NoAcceptedNoChapters(elements: seq<Element>, novelId: string, startOrder: int, volume: VolumeState)
    ensures ParsePage(elements, novelId, startOrder, volume).chapters == [] <==> Accepted(elements, novelId) == []
  {
    OnElementsRecords(PageState([], volume, startOrder + 1), elements, novelId);
  }

  /**
   * The crawl reads no page past the first one that ends it, and never
   * past page 100: fetch results beyond that page do not matter.
   */
  lemma {:induction false} CrawlStops(novelUrl: string, novelId: string, f: map<string, Page>, g: map<string, Page>,
                                      page: nat, last: nat, done: seq<ChapterInfo>, volume: VolumeState)
    requires 1 <= page <= last <= MaxPages
    requires last == MaxPages || EndsCrawl(novelUrl, novelId, f, last)
    requires Agree(novelUrl, f, g, page, last)
    ensures CrawlFrom(novelUrl, novelId, f, page, done, volume) == CrawlFrom(novelUrl, novelId, g, page, done, volume)
    decreases MaxPages + 1 - page
  {
    if page <= MaxPages && page <= last {
      var url := PageUrl(novelUrl, page);
      assert url in f <==> url in g;
      if url in f {
        assert f[url] == g[url];
        var result := ParsePage(f[url].elements, novelId, |done|, volume);
        NoAcceptedNoChapters(f[url].elements, novelId, |done|, volume);
        if result.chapters != [] && f[url].hasNext {
          if page < last {
            CrawlStops(novelUrl, novelId, f, g, page + 1, last, done + result.chapters, result.volume);
          } else {
            assert page + 1 > MaxPages;
          }
        }
      }
    }
  }

  /** `parseChapterList` as the source runs it: a page loop carrying the volume state across pages. */
  method ParseChapterList(baseUrl: string, fetch: map<string, Page>) returns (chapters: seq<ChapterInfo>)
    ensures chapters == ChapterList(baseUrl, fetch)
  {
    var novelUrl := if EndsWith(baseUrl, "/") then baseUrl else baseUrl + "/";
    var novelId := NovelId(novelUrl);
    if novelId == "" {
      return [];
    }
    var allChapters: seq<ChapterInfo> := [];
    var currentPage := 1;
    var hasNextPage := true;
    var volume := InitialVolume;
    while hasNextPage && currentPage <= MaxPages
      invariant 1 <= currentPage <= MaxPages + 1
      invariant hasNextPage ==>
        CrawlFrom(novelUrl, novelId, fetch, currentPage, allChapters, volume) == CrawlFrom(novelUrl, novelId, fetch, 1, [], InitialVolume)
      invariant !hasNextPage ==> allChapters == CrawlFrom(novelUrl, novelId, fetch, 1, [], InitialVolume)
      decreases MaxPages + 1 - currentPage, hasNextPage
    {
      var pageUrl := PageUrl(novelUrl, currentPage);
      if pageUrl !in fetch {
        break;
      }
      var document := fetch[pageUrl];
      var parseResult := ParsePageChapters(document.elements, novelId, |allChapters|, volume);
      if parseResult.chapters == [] {
        break;
      }
      allChapters := allChapters + parseResult.chapters;
      volume := parseResult.volume;
      hasNextPage := document.hasNext;
      if hasNextPage {
        currentPage := currentPage + 1;
      }
    }
    chapters := SortByOrder(allChapters);
  }
}
