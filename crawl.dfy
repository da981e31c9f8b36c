/**
 * The crawl of `src/main.ts`: a `COMIC` request for a comic's index page
 * is answered by enqueuing one `CHAPTER` request per chapter link, through a
 * process-wide cache of chapter lists; a `CHAPTER` request makes the page
 * load all of its images by pressing PageDown until the page counter reaches
 * the total, and enqueues the image URLs.
 *
 * Whatever a handler reads from the rendered page is given to it as a
 * `Page` value. The crawler's request queue is a sequence that requests are
 * appended to; how Crawlee schedules and de-duplicates them is not modelled.
 */
module Crawl {
  import opened Wrappers
  import opened Paths
  import opened FileUtil

  /** The site every chapter link is relative to. */
  const Host: string := "https://www.copymanga.site"
  /** The title used for an element without text. */
  const NoTitle: string := "暂无标题"
  /** The directory the comics are saved under. */
  const OutputRoot: string := "./caputer"

  /** One chapter of a comic: its page URL and its title. */
  datatype ChapterData = ChapterData(url: string, title: string)

  /** The two request kinds the router dispatches on. */
  datatype Label = COMIC | CHAPTER

  /** A request handed to `crawler.addRequests`. */
  datatype Request = Request(url: string, kind: Label)  // `{ url, label }`

  /** One chapter link of the index page: its `href` attribute and its text, either possibly null. */
  datatype LinkElement = LinkElement(href: Option<string>, text: Option<string>)

  /** Everything the handlers read from a loaded page. */
  datatype Page = Page(
    comicTitle: Option<string>,                // text of the comic's title element
    chapterLinks: seq<LinkElement>,            // the chapter links, in document order
    header: Option<string>,                    // text of the first `h4.header`
    comicCount: Option<string>,                // text of the first `.comicCount`: the page total
    comicIndexReadings: seq<Option<string>>,   // text of `.comicIndex` after each PageDown, in turn
    imageSrcs: seq<Option<string>>)            // `data-src` of each comic image, in document order

  /** `v || fallback` for a text that may be null: null and "" give `fallback`. */
  function OrElse(v: Option<string>, fallback: string): string {
    if v.None? || v.value == "" then fallback else v.value
  }

  /** What JavaScript's `+=` appends for a value that may be null. */
  function Concatenated(v: Option<string>): string {
    match v
    case None => "null"
    case Some(s) => s
  }

  // ---------------------------------------------------------------------
  // Chapter list extraction and the requests built from it
  // ---------------------------------------------------------------------

  /**
   * The chapter list `getAllChapterData` builds from the link elements: one
   * entry per element, in element order, whose URL is the host followed by
   * the `href` and whose title is the element's text or the placeholder.
   */
  function ExtractChapters(els: seq<LinkElement>): (r: seq<ChapterData>)
    ensures |r| == |els|
    ensures forall i :: 0 <= i < |els| ==>
      r[i].url == Host + Concatenated(els[i].href) && r[i].title == OrElse(els[i].text, NoTitle)
    ensures forall i :: 0 <= i < |els| ==> r[i].title != "" && r[i].url[..|Host|] == Host
  {
    if els == [] then []
    else [ChapterData(Host + Concatenated(els[0].href), OrElse(els[0].text, NoTitle))] + ExtractChapters(els[1..])
  }

  /** The requests the `COMIC` handler enqueues: one `CHAPTER` request per chapter, same URL, same order. */
  function ChapterRequests(data: seq<ChapterData>): (r: seq<Request>)
    ensures |r| == |data|
    ensures forall i :: 0 <= i < |data| ==> r[i].url == data[i].url && r[i].kind == CHAPTER
  {
    if data == [] then [] else [Request(data[0].url, CHAPTER)] + ChapterRequests(data[1..])
  }

  /**
   * The requests the `CHAPTER` handler enqueues for the images: each
   * `data-src`, with null read as "", the empty ones dropped, labelled `CHAPTER`.
   */
  function ImageRequests(srcs: seq<Option<string>>): (r: seq<Request>)
    ensures |r| <= |srcs|
    ensures forall q :: q in r ==> q.kind == CHAPTER && q.url != "" && Some(q.url) in srcs
  {
    if srcs == [] then []
    else
      var src := OrElse(srcs[0], "");
      (if src == "" then [] else [Request(src, CHAPTER)]) + ImageRequests(srcs[1..])
  }

  /** Filtering keeps order: the requests for two runs of images are those of each, in turn. */
  lemma {:induction false} ImageRequestsAppend(a: seq<Option<string>>, b: seq<Option<string>>)
    ensures ImageRequests(a + b) == ImageRequests(a) + ImageRequests(b)
  {
    if a != [] {
      assert (a + b)[0] == a[0] && (a + b)[1..] == a[1..] + b;
      ImageRequestsAppend(a[1..], b);
    } else {
      assert a + b == b;
    }
  }

  /** No non-empty image URL is dropped. */
  lemma {:induction false} ImageRequestsComplete(srcs: seq<Option<string>>, u: string)
    requires u != "" && Some(u) in srcs
    ensures Request(u, CHAPTER) in ImageRequests(srcs)
  {
    if srcs[0] != Some(u) {
      ImageRequestsComplete(srcs[1..], u);
    }
  }

  /** The request `spiderComicChapters` seeds the queue with. */
  function SeedRequest(comicName: string): (r: Request)
    ensures r.kind == COMIC && |r.url| == |Host| + 7 + |comicName|
    ensures r.url[..|Host|] == Host && r.url[|Host|..] == "/comic/" + comicName
  {
    Request(Host + "/comic/" + comicName, COMIC)
  }

  // ---------------------------------------------------------------------
  // The chapter-list cache `allChapterAttrMap`
  // ---------------------------------------------------------------------

  /** The cache answers for `comicName` only with a non-empty list. */
  predicate IsHit(entries: map<string, seq<ChapterData>>, comicName: string) {
    comicName in entries && entries[comicName] != []
  }

  /** What one call of `getAllChapterData` returns, the cache after it, and whether it read the page. */
  datatype Fetched = Fetched(data: seq<ChapterData>, entries: map<string, seq<ChapterData>>, extracted: bool)

  /** The cache rule of `getAllChapterData` on the chapter links `links` of the page. */
  function Fetch(entries: map<string, seq<ChapterData>>, comicName: string, links: seq<LinkElement>): (f: Fetched)
    ensures f.extracted <==> !IsHit(entries, comicName)
    ensures comicName in f.entries && f.entries[comicName] == f.data
    ensures f.entries.Keys == entries.Keys + {comicName}
  {
    if IsHit(entries, comicName) then Fetched(entries[comicName], entries, false)
    else
      var data := ExtractChapters(links);
      Fetched(data, entries[comicName := data], true)
  }

  /** A hit returns the cached list and changes nothing; a miss stores exactly the extracted list under its own key. */
  lemma FetchHitOrMiss(entries: map<string, seq<ChapterData>>, comicName: string, links: seq<LinkElement>)
    ensures var f := Fetch(entries, comicName, links);
      f.extracted <==> !IsHit(entries, comicName)
    ensures var f := Fetch(entries, comicName, links);
      !f.extracted ==> f.data == entries[comicName] && f.entries == entries
    ensures var f := Fetch(entries, comicName, links);
      f.extracted ==> (f.data == ExtractChapters(links) && f.entries.Keys == entries.Keys + {comicName}
        && f.entries[comicName] == f.data
        && forall k :: k in entries && k != comicName ==> f.entries[k] == entries[k])
  {
  }

  /**
   * Two calls in a row for the same comic: after a non-empty first result the
   * second returns it without reading the page; on the same page both always agree.
   */
  lemma FetchTwice(entries: map<string, seq<ChapterData>>, comicName: string, links1: seq<LinkElement>, links2: seq<LinkElement>)
    ensures var f1 := Fetch(entries, comicName, links1);
      var f2 := Fetch(f1.entries, comicName, links2);
      f1.data != [] ==> !f2.extracted && f2.data == f1.data && f2.entries == f1.entries
    ensures var f1 := Fetch(entries, comicName, links1);
      links1 == links2 ==> Fetch(f1.entries, comicName, links2).data == f1.data
  {
  }

  // ---------------------------------------------------------------------
  // Chapter pages
  // ---------------------------------------------------------------------

  /**
   * The chapter name: the last `/`-separated part of the header text, or
   * "undefined" (what the template literal prints) when there is no text.
   */
  function ChapterName(header: Option<string>): (r: string)
    ensures '/' !in r
    ensures header.None? ==> r == "undefined"
    ensures header.Some? ==> |r| <= |header.value| && r == header.value[|header.value| - |r|..]
    ensures header.Some? && |r| < |header.value| ==> header.value[|header.value| - |r| - 1] == '/'
  {
    match header
    case None => "undefined"
    case Some(h) => LastSegment(h)
  }

  /** `./caputer/${comicName}/${chapterName}`. */
  function ChapterPath(comicName: string, header: Option<string>): (r: string)
    ensures |r| > |OutputRoot| + 1 + |comicName| && r[..|OutputRoot| + 1] == OutputRoot + "/"
    ensures LastSegment(r) == ChapterName(header)
  {
    var t, n := OutputRoot + "/" + comicName, ChapterName(header);
    LastSlashBeforeSegment(t, n);
    assert (t + "/" + n)[..|OutputRoot| + 1] == t[..|OutputRoot| + 1] == OutputRoot + "/";
    t + "/" + n
  }

  /** The folder `getAllChapterData` creates, named after the comic's title text. */
  function ComicTitleDir(comicTitle: Option<string>): (r: string)
    ensures |r| > |OutputRoot| + 1 && r[..|OutputRoot| + 1] == OutputRoot + "/"
    ensures comicTitle.Some? && comicTitle.value != "" ==> r[|OutputRoot| + 1..] == comicTitle.value
    ensures (comicTitle.None? || comicTitle.value == "") ==> r[|OutputRoot| + 1..] == NoTitle
  {
    OutputRoot + "/" + OrElse(comicTitle, NoTitle)
  }

  /**
   * As written, the `CHAPTER` handler passes the chapter path itself to
   * `mkdir`, which trims the chapter name off, so it only ensures the comic's
   * folder and never creates the chapter folder.
   */
  lemma ChapterMkdirAsWritten(comicName: string, header: Option<string>, dirs: set<string>)
    ensures TrimLastSegment(ChapterPath(comicName, header)) == OutputRoot + "/" + comicName
    ensures ChapterPath(comicName, header) !in Missing(TrimLastSegment(ChapterPath(comicName, header)), dirs)
  {
    var t := OutputRoot + "/" + comicName;
    assert ChapterPath(comicName, header) == t + "/" + ChapterName(header);
    MkdirOfSegmentPath(t, ChapterName(header), dirs);
  }

  /** `mkdir(t + "/" + n)`, for `n` without `/`, targets `t` and cannot create `t + "/" + n`. */
  lemma MkdirOfSegmentPath(t: string, n: string, dirs: set<string>)
    requires '/' !in n && t != ""
    ensures TrimLastSegment(t + "/" + n) == t
    ensures t + "/" + n !in Missing(t, dirs)
  {
    TrimBeforeSegment(t, n);
    MissingAreNewAncestors(t, dirs);
    NotAnAncestor(t, t + "/" + n);
  }

  /** The argument the `CHAPTER` handler evidently means to pass to `mkdir`: the chapter path with a trailing `/`. */
  function ChapterDirArg(comicName: string, header: Option<string>): (r: string)
    ensures TrimLastSegment(r) == ChapterPath(comicName, header)
  {
    TrimAppendedSlash(ChapterPath(comicName, header));
    ChapterPath(comicName, header) + "/"
  }

  /** The first `k` readings all differ from the page total. */
  predicate NoMatchBefore(readings: seq<Option<string>>, pageNum: Option<string>, k: nat)
    requires k <= |readings|
  {
    forall j :: 0 <= j < k ==> readings[j] != pageNum
  }

  /**
   * `scrollToBottom`: press PageDown, pause, read the page counter, and stop
   * once it equals the page total (`===`, so two nulls are equal). The source
   * polls for ever; here the readings are a finite script, and when it runs
   * out without a match `reached` is false.
   */
  method ScrollToBottom(pageNum: Option<string>, readings: seq<Option<string>>) returns (reached: bool, presses: nat)
    ensures reached <==> pageNum in readings
    ensures reached ==> (1 <= presses <= |readings| && readings[presses - 1] == pageNum
      && NoMatchBefore(readings, pageNum, presses - 1))
    ensures !reached ==> presses == |readings|
  {
    presses := 0;
    while presses < |readings|
      invariant presses <= |readings|
      invariant NoMatchBefore(readings, pageNum, presses)
    {
      // page.keyboard.press('PageDown'), then page.waitForTimeout(100)
      presses := presses + 1;
      var pageIndex := readings[presses - 1];
      if pageNum == pageIndex {
        reached := true;
        return;
      }
    }
    reached := false;
  }

  // ---------------------------------------------------------------------
  // The crawler's state
  // ---------------------------------------------------------------------

  /** `allChapterAttrMap`: comic name to its chapter list, kept for the whole process. */
  class ChapterCache {
    var entries: map<string, seq<ChapterData>>

    constructor ()
      ensures entries == map[]
    {
      entries := map[];
    }
  }

  /** The crawler's request queue, as the sequence of requests added to it. */
  class RequestQueue {
    var requests: seq<Request>

    constructor ()
      ensures requests == []
    {
      requests := [];
    }

    /** `crawler.addRequests(rs)`. */
    method AddRequests(rs: seq<Request>)
      modifies this
      ensures requests == old(requests) + rs
    {
      requests := requests + rs;
    }
  }

  /** One run of `spiderComicChapters(comicName)`: its handlers and the state they share. */
  class Spider {
    const comicName: string
    const cache: ChapterCache
    const fs: FileSystem
    const queue: RequestQueue

    /** Builds the crawler and seeds its queue with the one `COMIC` request for the comic. */
    constructor (comicName: string, cache: ChapterCache, fs: FileSystem)
      ensures this.comicName == comicName && this.cache == cache && this.fs == fs
      ensures fresh(queue) && queue.requests == [SeedRequest(comicName)]
    {
      this.comicName, this.cache, this.fs := comicName, cache, fs;
      queue := new RequestQueue();
      new;
      queue.AddRequests([SeedRequest(comicName)]);
    }

    /**
     * `getAllChapterData`: the cached list on a hit; on a miss, ensures the
     * folder named after the comic's title, extracts the chapter list and
     * stores it in the cache.
     */
    method GetAllChapterData(page: Page) returns (data: seq<ChapterData>, extracted: bool)
      requires fs.Valid()
      modifies cache, fs
      ensures fs.Valid()
      ensures var f := Fetch(old(cache.entries), comicName, page.chapterLinks);
        data == f.data && cache.entries == f.entries && extracted == f.extracted
      ensures !extracted ==> fs.dirs == old(fs.dirs) && fs.created == old(fs.created)
      ensures extracted ==>
        var t := ComicTitleDir(page.comicTitle);
        && fs.created == old(fs.created) + Missing(t, old(fs.dirs))
        && fs.dirs == old(fs.dirs) + Elements(Missing(t, old(fs.dirs)))
    {
      if comicName in cache.entries && cache.entries[comicName] != [] {
        return cache.entries[comicName], false;
      }
      var comicTitle := OrElse(page.comicTitle, NoTitle);
      TrimAppendedSlash(OutputRoot + "/" + comicTitle);
      var made := fs.Mkdir(OutputRoot + "/" + comicTitle + "/");
      assert made == Pass;
      data := ExtractChapters(page.chapterLinks);
      cache.entries := cache.entries[comicName := data];
      extracted := true;
    }

    /** The `COMIC` handler: one `CHAPTER` request per chapter of the comic, in order. */
    method ComicHandler(page: Page) returns (data: seq<ChapterData>, extracted: bool)
      requires fs.Valid()
      modifies cache, fs, queue
      ensures fs.Valid()
      ensures var f := Fetch(old(cache.entries), comicName, page.chapterLinks);
        data == f.data && cache.entries == f.entries && extracted == f.extracted
      ensures !extracted ==> fs.dirs == old(fs.dirs) && fs.created == old(fs.created)
      ensures extracted ==>
        var t := ComicTitleDir(page.comicTitle);
        && fs.created == old(fs.created) + Missing(t, old(fs.dirs))
        && fs.dirs == old(fs.dirs) + Elements(Missing(t, old(fs.dirs)))
      ensures queue.requests == old(queue.requests) + ChapterRequests(data)
    {
      data, extracted := GetAllChapterData(page);
      queue.AddRequests(ChapterRequests(data));
    }

    /**
     * The `CHAPTER` handler: ensures the chapter's folder, scrolls until the
     * page counter reaches the total and then enqueues the image URLs. When
     * the counter never reaches the total the source keeps scrolling and
     * never enqueues; here the script of readings ends and nothing is enqueued.
     */
    method ChapterHandler(page: Page) returns (reached: bool, presses: nat)
      requires fs.Valid()
      modifies fs, queue
      ensures fs.Valid()
      ensures var t := ChapterPath(comicName, page.header);
        && fs.created == old(fs.created) + Missing(t, old(fs.dirs))
        && fs.dirs == old(fs.dirs) + Elements(Missing(t, old(fs.dirs)))
        && forall a :: a in Ancestry(t) ==> a in fs.dirs
      ensures reached <==> page.comicCount in page.comicIndexReadings
      ensures reached ==> (1 <= presses <= |page.comicIndexReadings|
        && page.comicIndexReadings[presses - 1] == page.comicCount
        && NoMatchBefore(page.comicIndexReadings, page.comicCount, presses - 1))
      ensures !reached ==> presses == |page.comicIndexReadings|
      ensures queue.requests == old(queue.requests) + (if reached then ImageRequests(page.imageSrcs) else [])
    {
      var made := fs.Mkdir(ChapterDirArg(comicName, page.header));
      assert made == Pass;
      var pageNum := page.comicCount;
      reached, presses := ScrollToBottom(pageNum, page.comicIndexReadings);
      if reached {
        queue.AddRequests(ImageRequests(page.imageSrcs));
      }
    }
  }
}
