# crawlee-demo core in Dafny

This project models the sequential logic of a small Crawlee/Playwright comic
scraper and proves properties of it. It covers three parts:

- **Retry executor** (`src/utils/retry.ts`, module `Retry`). `retry(fn, num, delayTimes)`
  calls a fallible action up to `num` times and pauses after every failure but the last.
  It resolves with the first success and rethrows the error of the last failed call.
  The action is a script: `fn(k)` is the outcome of the (k+1)-th call.
- **Directory helpers** (`src/utils/fileutil.ts`, modules `FileUtil` and `Paths`).
  The file system is a class holding the set of existing directory paths.
  `mkdir` trims the last `/segment` off its argument (the regex `/\/[^\/]*$/`).
  It then creates the missing ancestors of the result, outermost first, with `fs.mkdirSync`.
  `path.dirname` is modelled on Node's POSIX algorithm. The roots `.` and `/` always exist.
  `isExist` and `getFiles` are read-only queries.
- **Crawl handlers** (`src/main.ts`, module `Crawl`). This part covers:
  - the process-wide chapter cache `allChapterAttrMap` and its hit/miss rule;
  - building `ChapterData` from link elements;
  - the `COMIC` handler, which enqueues one `CHAPTER` request per chapter;
  - the `CHAPTER` handler: the chapter name, the chapter folder, the PageDown polling
    loop `scrollToBottom` and the image-URL filter;
  - seeding the queue with the one `COMIC` request.

  Every page read is a field of a `Page` value. The request queue is the sequence of added requests.

Quirks of the code that the model keeps:

- A link without `href` gets the URL `https://www.copymanga.site` + `"null"`, because JavaScript's `+=` appends `"null"`.
- A missing header text gives the chapter name `"undefined"`.
- `pageNum === pageIndex` treats two null readings as equal.
- `mkdir` of a path such as `/x`, whose only `/` comes first, trims it to `""`. Then `fs.mkdirSync("")` throws `ENOENT`.
- The comic folder made in `getAllChapterData` is named after the page's title text. The chapter paths use the route name `comicName`.
- Image URLs are enqueued with the label `CHAPTER`.

The `CHAPTER` handler downloads nothing; it only enqueues the image URLs.

## Model

| member | source | states |
|---|---|---|
| `Retry.Retry` | src/utils/retry.ts:8-29 | `num <= 0`: no call, result null. Otherwise the calls stop at the first success, are at most `num`, and every earlier call failed. It rethrows exactly when all `num` calls fail, with the `num`-th call's error. Pauses number `calls - 1` (or `num - 1` when it throws) and each lasts `delayTimes`. Defaults are 3 attempts and 500 ms. |
| `Retry.RetryAfterFailures` | src/utils/retry.ts:11-28 | For an action that fails `k` times then succeeds, `retry` with `n > 0` succeeds iff `k < n`. It then takes `k + 1` calls; otherwise it takes `n` calls and rethrows the error. |
| `Paths.Dirname` | src/utils/fileutil.ts:18 | `path.dirname` is never empty. It is `.`, `/`, `//` (only for a path starting with `//`), or a proper prefix of the path that is followed by a `/`. |
| `Paths.DirnameExamples` | src/utils/fileutil.ts:18 | `dirname` of `a/b/c.jpg`, `a/b/`, `a`, `/a` and `""` is `a/b`, `a`, `.`, `/` and `.`. |
| `Paths.DirnameDecreasesRank` | src/utils/fileutil.ts:16-19 | Off the roots `.` and `/`, `dirname` strictly decreases a measure, so `mkdir`'s recursion terminates. |
| `Paths.LastSegment` | src/main.ts:47 | The last element of `split('/')`: the longest suffix without `/`. It is either all of the text or follows its last `/`. |
| `Paths.Ancestry` | src/utils/fileutil.ts:16-20 | A directory followed by its successive parents, ending at a root. |
| `FileUtil.TrimLastSegment` | src/utils/fileutil.ts:15 | The regex removes the last `/` and what follows it. An argument without `/` is returned unchanged. |
| `FileUtil.TrimExamples` | src/utils/fileutil.ts:15 | `a/b/c.jpg` and `a/b/` both trim to `a/b`, and `abc` stays `abc`. |
| `FileUtil.TrimAppendedSlash` | src/utils/fileutil.ts:18 | The recursive call's argument `${dirname}/` trims back to `dirname`. |
| `FileUtil.TrimAndLastSegment` | src/utils/fileutil.ts:15 | A path with `/` is its trim, a `/` and its last segment. Without `/`, trim and last segment are the path itself. |
| `FileUtil.FileSystem.IsExist` | src/utils/fileutil.ts:4-12 | True iff the path is in the file system. Roots exist and `""` does not. |
| `FileUtil.FileSystem.GetFiles` | src/utils/fileutil.ts:23-27 | Throws `NoSuchPath` iff the path does not exist. Otherwise it returns the directory's entries. |
| `FileUtil.FileSystem.MkdirSync` | src/utils/fileutil.ts:19 | `ENOENT` for `""` or a missing parent. `EEXIST` for an existing directory. Otherwise it adds exactly that directory. |
| `FileUtil.FileSystem.Mkdir` | src/utils/fileutil.ts:14-21 | For a target `t != ""`, it succeeds and creates exactly the missing ancestors of `t`, outermost first. Afterwards `t` and every ancestor exist. For `t == ""` it throws `ENOENT` and changes nothing. |
| `FileUtil.MissingAreNewAncestors` | src/utils/fileutil.ts:14-21 | `mkdir` creates only the target and its ancestors, and only ones that did not exist. |
| `FileUtil.MissingParentsFirst` | src/utils/fileutil.ts:18-19 | Each created directory's parent was created just before it, or existed already. |
| `FileUtil.MissingCompletesAncestry` | src/utils/fileutil.ts:16-20 | Once the missing directories are added, the target and all its ancestors exist. |
| `FileUtil.MkdirIdempotent` | src/utils/fileutil.ts:16-17 | A second `mkdir` of the same target creates nothing. |
| `FileUtil.Entries` | src/utils/fileutil.ts:26 | What `readdirSync` lists: names without `/`, including the last segment of every child directory. |
| `FileUtil.MkdirListsTarget` | src/utils/fileutil.ts:19 | After `mkdir` of a target other than a root or `""`, the target's parent lists the target's name among its entries. |
| `Crawl.ExtractChapters` | src/main.ts:115-131 | One descriptor per link element, in element order. The url is the host followed by the `href`. The title is the text, or `暂无标题` when the text is null or empty. |
| `Crawl.ChapterCache.constructor` | src/main.ts:25 | `allChapterAttrMap` starts empty. |
| `Crawl.Fetch` | src/main.ts:104-137 | The cache rule: it extracts exactly on a miss. Afterwards the returned list is the entry for `comicName`, and the key set gains at most `comicName`. |
| `Crawl.FetchHitOrMiss` | src/main.ts:104-137 | A non-empty cached list is returned with no extraction and no change. An absent or empty entry is a miss: it stores exactly the extracted list under `comicName` and changes no other key. |
| `Crawl.FetchTwice` | src/main.ts:105-136 | After a non-empty first result, a second call for the same comic returns the same list without reading the page. On the same page the two results are always equal. |
| `Crawl.Spider.GetAllChapterData` | src/main.ts:104-137 | Follows the cache rule above. On a miss it first ensures the folder named after the comic title. |
| `Crawl.ComicTitleDir` | src/main.ts:109-112 | The comic folder is `./caputer/` followed by the title text, or by `暂无标题` when the text is null or empty. |
| `Crawl.RequestQueue.AddRequests` | src/main.ts:96-100 | `crawler.addRequests` appends the given requests in order and changes nothing else. The same call is used at src/main.ts:37 and :148. |
| `Crawl.ChapterRequests` | src/main.ts:37-39 | One `CHAPTER` request per chapter, with the same url and in the same order. |
| `Crawl.Spider.ComicHandler` | src/main.ts:32-40 | Appends to the queue exactly the `CHAPTER` requests of the list that `getAllChapterData` returns. |
| `Crawl.ChapterName` | src/main.ts:46-47 | The chapter name contains no `/`. It is the longest suffix of the header that does not, so it ends the header and follows a `/` or starts it. With no header text it is `"undefined"`. |
| `Crawl.ChapterPath` | src/main.ts:53 | `./caputer/<comicName>/<chapterName>`: it starts with `./caputer/` and its last segment is the chapter name. |
| `Crawl.ChapterMkdirAsWritten` | src/main.ts:53-60 | As written, `mkdir(chapterPath)` targets `./caputer/<comicName>` and never creates the chapter folder. |
| `Crawl.ChapterDirArg` | src/main.ts:60 | The corrected argument `chapterPath + "/"` makes `mkdir` target the chapter folder itself. |
| `Crawl.ScrollToBottom` | src/main.ts:74-85 | Stops at the first reading equal to the page total. The number of presses is the 1-based index of that reading, so at least 1, and no press follows it. Without a match every reading is consumed. |
| `Crawl.ImageRequests` | src/main.ts:88-100 | Every enqueued image url is a non-empty `data-src` of the page and is labelled `CHAPTER`. |
| `Crawl.ImageRequestsAppend` | src/main.ts:97-99 | The filter keeps order: the requests for `a + b` are those for `a` followed by those for `b`. |
| `Crawl.ImageRequestsComplete` | src/main.ts:97-99 | No non-empty `data-src` is dropped. |
| `Crawl.Spider.ChapterHandler` | src/main.ts:43-101 | Ensures the chapter folder and its ancestors (corrected form). On reaching the total it appends exactly the image requests. Otherwise it appends nothing. |
| `Crawl.SeedRequest` | src/main.ts:146-151 | The seed is a `COMIC` request for `host/comic/<comicName>`. |
| `Crawl.Spider.constructor` | src/main.ts:139-151 | A fresh queue holding exactly the one seed request. |

## Findings

| source | as written | input that shows it | evidently intended | confidence | as-written member | corrected member |
|---|---|---|---|---|---|---|
| src/main.ts:60 | `mkdir(chapterPath)` has no trailing `/`, so `mkdir` trims off the chapter name | comic `demo`, header `第1话`: the path `./caputer/demo/第1话` makes `mkdir` target `./caputer/demo` | create the chapter folder, as the comic folder call at src/main.ts:112 does with its trailing `/` | not executed; high (by reading) | `Crawl.ChapterMkdirAsWritten` | `Crawl.ChapterDirArg` (used by `Crawl.Spider.ChapterHandler`) |

## Left out

- `src/utils/download.ts`: streaming HTTP through a proxy, with stream events and progress callbacks. Its only logic is `mkdir(path)` before the write, which the `FileUtil` model covers. In its catch, `reject` does not return, and `fileName` is unused.
- `src/utils/axiosutil.ts`: a streaming HTTP GET and a call made at import time. Both are pure I/O.
- Crawlee itself: the router's dispatch by label, `crawler.run()`, the queue's ordering and de-duplication, and the proxy configuration. This is library code outside this repository.
- Playwright `Page` calls are replaced by the fields of `Page`. A selector that never appears would make `waitForSelector` throw and end the handler; that timeout is not modelled. `setViewportSize` is not modelled.
- Real time: `delay`/`setTimeout` and `waitForTimeout(100)` take no time. Each `delay` is recorded in `waits` and each `waitForTimeout` counts as part of a press.
- Logging (`log.info`, `console.*`), including the unconditional `console.error` in the link mapping.
- The check at src/main.ts:54-59 that the chapter folder already has files only logs, so it is left out.
- Concurrency between requests and the call made at import time (src/main.ts:157).
- Files: the file system holds directories only, and paths are compared as strings. For example, `a` and `./a` are different entries.
- `Crawl.Fetch`: the cache is a Dafny map. Keys inherited from the plain object `{}` are not modelled. For `constructor`, `hasOwnProperty` or `__proto__` as `comicName`, the source finds a truthy value whose `length` is not 0, takes it as a hit and returns something that is not a chapter list.
- `Retry.Retry`: `num` is an integer here. A fractional JavaScript count (for example 2.5, which allows 3 calls) is not modelled.
- `Crawl.ScrollToBottom`: the source polls without bound. Here the readings are a finite script, and running out of readings without a match ends the poll with `reached` false. That stands for a page on which the source would poll forever and never enqueue.
- `FileUtil.FileSystem.GetFiles`: returns the entries as a set. The order in which `readdirSync` lists them is not modelled.
