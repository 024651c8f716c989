// PageCache: the least-recently-used cache of fetched pages. The source
// keeps an access-ordered linked hash map that drops its eldest entry as
// soon as it holds more than `maxSize` pages; the model keeps the same two
// parts, the pages by URL and the URLs from least to most recently used.

module PageCache {
  import opened Wrappers

  const DefaultMaxSize: int := 50

  /** A cached page; the time it was cached is not modelled. */
  datatype CachedPage<D> = CachedPage(url: string, document: D)

  datatype CacheStats = CacheStats(size: int, maxSize: int, urls: seq<string>)

  /** The contents of the cache: its pages by URL and its URLs, least recently used first. */
  datatype Lru<D> = Lru(order: seq<string>, pages: map<string, CachedPage<D>>)

  predicate Distinct(xs: seq<string>) {
    forall i, j :: 0 <= i < j < |xs| ==> xs[i] != xs[j]
  }

  /** What the linked hash map keeps true: one list entry per page, no more pages than `maxSize`. */
  ghost predicate Wellformed<D>(c: Lru<D>, maxSize: int) {
    0 <= maxSize && |c.order| <= maxSize && Distinct(c.order)
    && (forall u :: u in c.order <==> u in c.pages)
    && (forall u :: u in c.pages ==> c.pages[u].url == u)
  }

  /** `xs` without `u`, the rest in the same order. */
  function Delete(xs: seq<string>, u: string): (r: seq<string>)
    ensures forall v :: v in r <==> v in xs && v != u
    ensures u !in xs ==> r == xs
  {
    if xs == [] then []
    else if xs[0] == u then Delete(xs[1..], u)
    else [xs[0]] + Delete(xs[1..], u)
  }

  lemma {:induction false} DeleteDistinct(xs: seq<string>, u: string)
    requires Distinct(xs)
    ensures Distinct(Delete(xs, u))
    ensures u in xs ==> |Delete(xs, u)| == |xs| - 1
  {
    if xs != [] {
      assert Distinct(xs[1..]);
      DeleteDistinct(xs[1..], u);
      HeadNotInTail(xs);
    }
  }

  lemma HeadNotInTail(xs: seq<string>)
    requires Distinct(xs) && xs != []
    ensures xs[0] !in xs[1..]
  {
    assert forall j :: 0 <= j < |xs[1..]| ==> xs[1..][j] == xs[j + 1] != xs[0];
  }

  /** Dropping the eldest URL keeps the list distinct and removes exactly that URL. */
  lemma DropEldest(o: seq<string>)
    requires Distinct(o) && o != []
    ensures Distinct(o[1..])
    ensures forall u :: u in o[1..] <==> u in o && u != o[0]
  {
    HeadNotInTail(o);
    forall u | u in o && u != o[0]
      ensures u in o[1..]
    {
      var i :| 0 <= i < |o| && o[i] == u;
      assert o[1..][i - 1] == u;
    }
  }

  /** The document stored under `url`, if any. */
  function Find<D>(c: Lru<D>, url: string): (r: Option<D>)
    ensures r.Some? <==> url in c.pages
  {
    if url in c.pages then Some(c.pages[url].document) else None
  }

  /** The URL `put` drops: the eldest one, when a new URL arrives at a full cache. */
  function Evicted<D>(c: Lru<D>, url: string, maxSize: int): Option<string> {
    if url !in c.pages && |c.order| >= maxSize then Some((c.order + [url])[0]) else None
  }

  /**
   * `put`: a known URL gets its new page and becomes the most recently used
   * without any eviction; a new URL is appended and, if the cache then holds
   * more than `maxSize` pages, the eldest entry is dropped.
   */
  function AfterPut<D>(c: Lru<D>, url: string, document: D, maxSize: int): Lru<D> {
    var page := CachedPage(url, document);
    if url in c.pages then Lru(Delete(c.order, url) + [url], c.pages[url := page])
    else
      var grown := Lru(c.order + [url], c.pages[url := page]);
      if |grown.order| > maxSize then Lru(grown.order[1..], grown.pages - {grown.order[0]}) else grown
  }

  /** `get` on an access-ordered map: a hit becomes the most recently used. */
  function AfterGet<D>(c: Lru<D>, url: string): Lru<D> {
    if url in c.pages then Lru(Delete(c.order, url) + [url], c.pages) else c
  }

  function AfterRemove<D>(c: Lru<D>, url: string): Lru<D> {
    Lru(Delete(c.order, url), c.pages - {url})
  }

  /** Appending a URL not yet listed keeps the list distinct. */
  lemma AppendNew(xs: seq<string>, u: string)
    requires Distinct(xs) && u !in xs
    ensures Distinct(xs + [u])
  {
    var o := xs + [u];
    assert forall i :: 0 <= i < |o| - 1 ==> o[i] == xs[i];
  }

  /** Put keeps the cache well formed; in particular it never holds more than `maxSize` pages. */
  lemma PutWellformed<D>(c: Lru<D>, url: string, document: D, maxSize: int)
    requires Wellformed(c, maxSize)
    ensures Wellformed(AfterPut(c, url, document, maxSize), maxSize)
    ensures |AfterPut(c, url, document, maxSize).order| <= maxSize
  {
    if url in c.pages {
      DeleteDistinct(c.order, url);
      AppendNew(Delete(c.order, url), url);
    } else {
      PutNewWellformed(c, url, document, maxSize);
    }
  }

  lemma PutNewWellformed<D>(c: Lru<D>, url: string, document: D, maxSize: int)
    requires Wellformed(c, maxSize) && url !in c.pages
    ensures Wellformed(AfterPut(c, url, document, maxSize), maxSize)
  {
    var o := c.order + [url];
    var ps := c.pages[url := CachedPage(url, document)];
    AppendNew(c.order, url);
    assert forall u :: u in o <==> u in ps;
    if |o| > maxSize {
      DropEldest(o);
      assert AfterPut(c, url, document, maxSize) == Lru(o[1..], ps - {o[0]});
    } else {
      assert AfterPut(c, url, document, maxSize) == Lru(o, ps);
    }
  }

  lemma GetWellformed<D>(c: Lru<D>, url: string, maxSize: int)
    requires Wellformed(c, maxSize)
    ensures Wellformed(AfterGet(c, url), maxSize)
  {
    if url in c.pages {
      DeleteDistinct(c.order, url);
      AppendNew(Delete(c.order, url), url);
    }
  }

  lemma RemoveWellformed<D>(c: Lru<D>, url: string, maxSize: int)
    requires Wellformed(c, maxSize)
    ensures Wellformed(AfterRemove(c, url), maxSize)
  {
    DeleteDistinct(c.order, url);
  }

  /**
   * What `get` returns after `put`: the new document under the URL put, nothing
   * under the URL evicted, and what was there before under every other URL.
   */
  lemma FindAfterPut<D>(c: Lru<D>, url: string, document: D, maxSize: int, v: string)
    requires Wellformed(c, maxSize)
    ensures Find(AfterPut(c, url, document, maxSize), v) ==
      if Evicted(c, url, maxSize) == Some(v) then None
      else if v == url then Some(document)
      else Find(c, v)
  {
    if url !in c.pages && |c.order| >= maxSize {
      var o := c.order + [url];
      assert o[0] == (if c.order == [] then url else c.order[0]);
    }
  }

  /** With room for at least one page, `get` right after `put` returns the document put. */
  lemma PutThenFind<D>(c: Lru<D>, url: string, document: D, maxSize: int)
    requires Wellformed(c, maxSize) && maxSize >= 1
    ensures Find(AfterPut(c, url, document, maxSize), url) == Some(document)
  {
    FindAfterPut(c, url, document, maxSize, url);
    if url !in c.pages && |c.order| >= maxSize {
      assert c.order != [] && c.order[0] in c.pages;
    }
  }

  /** Only the least recently used URL is ever evicted. */
  lemma EvictsLeastRecentlyUsed<D>(c: Lru<D>, url: string, document: D, maxSize: int)
    requires Wellformed(c, maxSize) && maxSize >= 1 && Evicted(c, url, maxSize).Some?
    ensures c.order != [] && Evicted(c, url, maxSize) == Some(c.order[0])
    ensures c.order[0] in c.pages && c.order[0] !in AfterPut(c, url, document, maxSize).pages
  {
    PutWellformed(c, url, document, maxSize);
  }

  /** Put marks its URL the most recently used. */
  lemma PutMakesMostRecent<D>(c: Lru<D>, url: string, document: D, maxSize: int)
    requires Wellformed(c, maxSize) && maxSize >= 1
    ensures var o := AfterPut(c, url, document, maxSize).order; |o| > 0 && o[|o| - 1] == url
  {
  }

  /** Putting a URL already cached replaces its document and keeps the size and the set of URLs. */
  lemma PutExistingKeepsSize<D>(c: Lru<D>, url: string, document: D, maxSize: int)
    requires Wellformed(c, maxSize) && url in c.pages
    ensures |AfterPut(c, url, document, maxSize).order| == |c.order|
    ensures AfterPut(c, url, document, maxSize).pages.Keys == c.pages.Keys
  {
    DeleteDistinct(c.order, url);
  }

  /** `get` changes no lookup: it only makes a hit the most recently used, the others keeping their order. */
  lemma GetKeepsContents<D>(c: Lru<D>, url: string, v: string)
    requires url in c.pages
    ensures Find(AfterGet(c, url), v) == Find(c, v)
    ensures var o := AfterGet(c, url).order; |o| > 0 && o[|o| - 1] == url && o[..|o| - 1] == Delete(c.order, url)
  {
  }

  /** After `remove(u)`, `contains(u)` is false and every other lookup is unchanged. */
  lemma RemoveForgets<D>(c: Lru<D>, url: string, v: string)
    ensures Find(AfterRemove(c, url), url).None?
    ensures v != url ==> Find(AfterRemove(c, url), v) == Find(c, v)
  {
  }

  /** A list of distinct URLs has as many URLs as its set. */
  lemma {:induction false} DistinctCard(xs: seq<string>)
    requires Distinct(xs)
    ensures |(set u | u in xs)| == |xs|
  {
    if xs != [] {
      assert Distinct(xs[1..]);
      DistinctCard(xs[1..]);
      HeadNotInTail(xs);
      assert (set u | u in xs) == {xs[0]} + (set u | u in xs[1..]);
    }
  }

  /** In a well-formed cache the map's size is the length of the access list. */
  lemma SizeIsListLength<D>(c: Lru<D>, maxSize: int)
    requires Wellformed(c, maxSize)
    ensures |c.pages| == |c.order|
  {
    DistinctCard(c.order);
    assert c.pages.Keys == (set u | u in c.order);
  }

  class PageCache<D> {
    const maxSize: int
    var order: seq<string>
    var pages: map<string, CachedPage<D>>

    ghost predicate Valid()
      reads this
    {
      Wellformed(Contents(), maxSize)
    }

    function Contents(): Lru<D>
      reads this
    {
      Lru(order, pages)
    }

    /** A new cache is empty; the source's map constructor rejects a negative capacity. */
    constructor(maxSize: int)
      requires maxSize >= 0
      ensures this.maxSize == maxSize && Contents() == Lru([], map[]) && Valid()
    {
      this.maxSize := maxSize;
      order := [];
      pages := map[];
    }

    /** `put`. */
    method Put(url: string, document: D)
      requires Valid()
      modifies this
      ensures Contents() == AfterPut(old(Contents()), url, document, maxSize) && Valid()
    {
      PutWellformed(Contents(), url, document, maxSize);
      var page := CachedPage(url, document);
      if url in pages {
        order := Delete(order, url) + [url];
        pages := pages[url := page];
      } else {
        order := order + [url];
        pages := pages[url := page];
        if |order| > maxSize {
          pages := pages - {order[0]};
          order := order[1..];
        }
      }
    }

    /** `get`: the document stored under `url`, which becomes the most recently used. */
    method Get(url: string) returns (r: Option<D>)
      requires Valid()
      modifies this
      ensures r == Find(old(Contents()), url)
      ensures Contents() == AfterGet(old(Contents()), url) && Valid()
    {
      GetWellformed(Contents(), url, maxSize);
      if url in pages {
        r := Some(pages[url].document);
        order := Delete(order, url) + [url];
      } else {
        r := None;
      }
    }

    /** `contains`: a lookup that leaves the access order alone. */
    predicate Contains(url: string)
      reads this
      ensures Contains(url) <==> Find(Contents(), url).Some?
    {
      url in pages
    }

    /** `size`. */
    function Size(): (r: int)
      requires Valid()
      reads this
      ensures r == |order| && 0 <= r <= maxSize
    {
      SizeIsListLength(Contents(), maxSize);
      |pages|
    }

    /** `clear`. */
    method Clear()
      requires Valid()
      modifies this
      ensures Contents() == Lru([], map[]) && Valid()
    {
      order := [];
      pages := map[];
    }

    /** `getCachedUrls`. */
    function CachedUrls(): (r: set<string>)
      requires Valid()
      reads this
      ensures forall u :: u in r <==> u in order
    {
      pages.Keys
    }

    /** `remove`: the document that was stored under `url`, if any. */
    method Remove(url: string) returns (r: Option<D>)
      requires Valid()
      modifies this
      ensures r == Find(old(Contents()), url)
      ensures Contents() == AfterRemove(old(Contents()), url) && Valid()
    {
      RemoveWellformed(Contents(), url, maxSize);
      r := if url in pages then Some(pages[url].document) else None;
      order := Delete(order, url);
      pages := pages - {url};
    }

    /** `getStats`: the size, the bound and the URLs in access order. */
    function Stats(): (r: CacheStats)
      requires Valid()
      reads this
      ensures r.size == |r.urls| <= r.maxSize == maxSize && r.urls == order
    {
      SizeIsListLength(Contents(), maxSize);
      CacheStats(|pages|, maxSize, order)
    }
  }
}
