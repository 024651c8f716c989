// NetworkBookService: the registry of site parsers and the first-match
// rule that picks the parser for a URL when importing or previewing a book.
// A parser is abstracted to its URL test, its name and what its parse
// calls return; the parsers themselves are modelled elsewhere or not at all.

module NetworkBookService {
  import opened Wrappers
  import opened Strings
  import opened NarouContent

  /** What one parse call returns: a book or null, or an exception with its (nullable) message. */
  datatype Outcome = Returned(info: Option<NetworkBookInfo>) | Threw(message: Option<string>)

  /**
   * A registered parser. `preview` is the quick preview of the combined
   * API-and-crawler importer; it is None for every other parser.
   */
  datatype SiteParser = SiteParser(
    name: string,
    canParse: string -> bool,
    parseBookInfo: string -> Outcome,
    preview: Option<string -> Outcome>)

  datatype ImportResult = Success(bookInfo: NetworkBookInfo, siteName: string) | Error(message: string)

  const UnsupportedPrefix: string := "不支持的网站: "
  const NoBookMessage: string := "解析失败: 无法从页面获取书籍信息"
  const NoTitleMessage: string := "解析失败: 未找到书籍标题"
  const NetworkPrefix: string := "网络错误: "

  /** `firstOrNull { it.canParse(url) }`, as an index. */
  function FirstParser(parsers: seq<SiteParser>, url: string): (r: Option<nat>)
    ensures r.None? <==> forall i :: 0 <= i < |parsers| ==> !parsers[i].canParse(url)
    ensures r.Some? ==> r.value < |parsers| && parsers[r.value].canParse(url)
                        && forall j :: 0 <= j < r.value ==> !parsers[j].canParse(url)
  {
    if parsers == [] then None
    else if parsers[0].canParse(url) then Some(0)
    else
      var rest := FirstParser(parsers[1..], url);
      if rest.None? then None else Some(rest.value + 1)
  }

  /** The validation shared by import and preview: a null result and a blank title are errors. */
  function Validate(outcome: Outcome, siteName: string): (r: ImportResult)
    ensures r.Success? <==> outcome.Returned? && outcome.info.Some? && !IsBlank(outcome.info.value.title)
    ensures r.Success? ==> r.bookInfo == outcome.info.value && r.siteName == siteName
    ensures r.Error? ==> !StartsWith(r.message, UnsupportedPrefix)
  {
    assert NetworkPrefix[0] != UnsupportedPrefix[0] && NoBookMessage[0] != UnsupportedPrefix[0]
      && NoTitleMessage[0] != UnsupportedPrefix[0];
    match outcome
    case Threw(message) => Error(NetworkPrefix + MessageText(message))
    case Returned(None) => Error(NoBookMessage)
    case Returned(Some(info)) =>
      if IsBlank(info.title) then Error(NoTitleMessage) else Success(info, siteName)
  }

  class NetworkBookService {
    var parsers: seq<SiteParser>

    /** A new service registers the combined importer and nothing else. */
    constructor(importer: SiteParser)
      ensures parsers == [importer]
    {
      parsers := [importer];
    }

    /** `registerParser` appends. */
    method RegisterParser(parser: SiteParser)
      modifies this
      ensures parsers == old(parsers) + [parser]
      ensures SupportedSites() == old(SupportedSites()) + [parser.name]
    {
      parsers := parsers + [parser];
    }

    /** `getSupportedSites`: the parser names in registration order. */
    function SupportedSites(): (r: seq<string>)
      reads this
      ensures |r| == |parsers| && forall i :: 0 <= i < |r| ==> r[i] == parsers[i].name
    {
      Names(parsers)
    }

    /** `isSupportedUrl`. */
    predicate IsSupportedUrl(url: string)
      reads this
    {
      exists i :: 0 <= i < |parsers| && parsers[i].canParse(url)
    }

    /** `importBookFromUrl`. */
    function ImportBook(url: string): (r: ImportResult)
      reads this
      ensures !IsSupportedUrl(url) <==> r == Error(UnsupportedPrefix + url)
    {
      match FirstParser(parsers, url)
      case None => Error(UnsupportedPrefix + url)
      case Some(i) => Validate(parsers[i].parseBookInfo(url), parsers[i].name)
    }

    /** `previewBookFromUrl`: the importer's quick preview when it is the chosen parser, `parseBookInfo` otherwise. */
    function PreviewBook(url: string): (r: ImportResult)
      reads this
      ensures !IsSupportedUrl(url) <==> r == Error(UnsupportedPrefix + url)
    {
      match FirstParser(parsers, url)
      case None => Error(UnsupportedPrefix + url)
      case Some(i) =>
        var p := parsers[i];
        Validate(if p.preview.Some? then p.preview.value(url) else p.parseBookInfo(url), p.name)
    }
  }

  function Names(parsers: seq<SiteParser>): (r: seq<string>)
    ensures |r| == |parsers| && forall i :: 0 <= i < |r| ==> r[i] == parsers[i].name
  {
    if parsers == [] then [] else [parsers[0].name] + Names(parsers[1..])
  }

  /** A successful import carries a book with a title that is not blank, named after the first parser that accepts the URL. */
  lemma ImportSucceedsWithFirstParser(service: NetworkBookService, url: string)
    requires service.ImportBook(url).Success?
    ensures var r := service.ImportBook(url);
      !IsBlank(r.bookInfo.title)
      && (exists i :: 0 <= i < |service.parsers| && service.parsers[i].canParse(url)
            && r.siteName == service.parsers[i].name
            && (forall j :: 0 <= j < i ==> !service.parsers[j].canParse(url))
            && service.parsers[i].parseBookInfo(url) == Returned(Some(r.bookInfo)))
  {
    var i := FirstParser(service.parsers, url).value;
    assert service.parsers[i].canParse(url);
  }

  /** Preview and import give the same result whenever the chosen parser has no quick preview. */
  lemma PreviewIsImportWithoutQuickPreview(service: NetworkBookService, url: string)
    requires FirstParser(service.parsers, url).Some?
    requires service.parsers[FirstParser(service.parsers, url).value].preview.None?
    ensures service.PreviewBook(url) == service.ImportBook(url)
  {
  }

  /** An exception during the parse becomes a network error carrying its message. */
  lemma ThrownParseIsNetworkError(service: NetworkBookService, url: string, message: Option<string>)
    requires FirstParser(service.parsers, url).Some?
    requires service.parsers[FirstParser(service.parsers, url).value].parseBookInfo(url) == Threw(message)
    ensures service.ImportBook(url) == Error(NetworkPrefix + MessageText(message))
  {
  }
}
