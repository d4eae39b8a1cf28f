# MangaArchive, modelled in Dafny

MangaArchive (`masc`) scrapes a manga series from a web site. It does this in
two stages:

- It crawls the table of contents into a **descriptor**: volumes, chapters and
  pages, saved as XML.
- It turns each volume of a descriptor into a comic archive (`.cbz`).

The repository also holds:

- tools that rename the entries of existing archives;
- an importer for one web comic ("Rain");
- the older single-file engine it grew out of (`src/main.py`). That engine
  pickles its volumes and writes EPUB books.

This project models that book-keeping and proves what it promises. There is
one Dafny module per source file:

| module | file | what it holds |
|---|---|---|
| `Py` | (shared) | The Python behaviour the code relies on: `str()` and `int()` on the dynamic values the records hold (`None`, strings, integers); comparison of strings; `sorted` with a key, stable, raising TypeError on keys it cannot compare; `str.join`, `split`, `find`; zero-padding; and `os.path.join`/`dirname`. Also the exceptions the code raises, and the directory of files (`Disk`). |
| `Data` | src/masc/data.py | The `Metadata`, `Volume`, `Chapter` and `Page` classes with their appending methods, plus value snapshots (`...V`) for the specifications. |
| `Descriptor` | src/masc/descriptor.py | The descriptor object (`add_volume`, `save`, `load`) over an XML element tree, and what survives a save followed by a load. |
| `Util` | src/masc/util.py | `FetchError`, `chunkify`, `merge`, the cache path, and `fetch_cached`. `fetch_cached` is a state machine over the cache directory and an abstract web server. |
| `Site` | src/masc/scraper.py | The `SiteAdapter` interface, as the answers of its four queries. |
| `Adapter` | src/masc/adapter.py | The Mangafox adapter: its URL pattern as a hand-written matcher with `re.match` semantics, `build_url`, `make_chapter`, `make_page`, and the checks and filter of `get_pages`/`get_image`. |
| `Format` | src/masc/format.py | The CBZ writer: chapter and page order, entry names, image URLs resolved on demand, and clean-up on FetchError. |
| `Scraper` | src/masc/scraper.py | The engine: `crawl`, `build`, `build_volume` and `run`, sequentially. |
| `Tools` | src/masc/main.py | `get_class`, the "Adapter not found" exits, and `fix_file`/`fix_path`, which rename archive entries. |
| `Rain` | src/rain.py | Heading classification, page numbering, chapter grouping, the descriptor the importer saves, and the exceptions that stop it before it saves anything. |
| `Legacy` | src/main.py | The older engine: `fetch_image`, the stricter URL pattern, `make_chapter`/`get_meta`/`get_pages`/`get_image`, the crawl into a dict of volumes, `build_chapter`, `build_volume`, `run`, and the script that launches it. |

## How the model is built

- Mutable objects are modelled as Dafny classes: the records, the descriptor,
  the engine, the cache directory and the output files.
- Each method that changes state is proved equal to a specification function
  over value snapshots (`ensures (r, State()) == Spec(old(State()))`).
- The properties the program promises are lemmas about those functions.
- Loops in the source are `for`/`while` loops in the methods. Each is proved
  against a recursive function over a prefix of its input.
- The web site, HTML parsing, SHA-1 and the web server are parameters. They
  are fixed functions from a URL (or a record) to an answer.
- Python's dynamic values are `Py.Value`; `str()` of one is `Py.Show`.
- `Py.SortBy` is Python's `sorted` with a key. It is stable. It raises
  TypeError when two keys cannot be compared (None with anything, or an
  integer with a string).
- The legacy `chunkify` (src/main.py:16-20) is the same generator as the one
  in src/masc/util.py, so both are `Util.Chunkify`/`Util.Chunks`.
- The legacy `build_url` and `make_page` are the same code as the current
  adapter's, so `Legacy` reuses `Adapter.BuildUrl`, `Adapter.MakePage` and
  `Adapter.KeepNonZero`.
- The legacy `run` groups its chapters with the same dict loop as `crawl`.
  `Legacy` uses `Scraper.GroupAll` for it and `Scraper.VolumeOrder` for
  `sorted(volumes.values(), key=...)`.

## Model

| member | source | states |
|---|---|---|
| Data.Metadata.constructor | src/masc/data.py:2-6 | A new metadata record keeps the title and slug and has no cover URL. |
| Data.Page.constructor | src/masc/data.py:40-44 | A new page keeps its URL and number and has no image URL. |
| Data.Chapter.constructor | src/masc/data.py:21-27 | A new chapter keeps url, title and number, has volume None unless one is given, and has no pages. |
| Data.Chapter.AddPage | src/masc/data.py:29-30 | The pages become the old pages followed by exactly the new page; url, title, number and volume are unchanged. |
| Data.Volume.constructor | src/masc/data.py:9-12 | A new volume keeps its number and has no chapters. |
| Data.Volume.AddChapter | src/masc/data.py:14-15 | The chapters become the old chapters followed by exactly the new chapter; the number is unchanged. |
| Data.AddPageSnapshot | src/masc/data.py:29-30 | Appending a page object appends its snapshot to the chapter's page snapshots. |
| Data.AddChapterSnapshot | src/masc/data.py:14-15 | Appending a chapter object appends its snapshot to the volume's chapter snapshots. |
| Util.FetchErrorText | src/masc/util.py:22-23 | `str(FetchError(status, url))` is framed as "FetchError(" ... ")". |
| Util.FetchErrorTextParses | src/masc/util.py:22-23 | The status and the URL can both be read back from the message, whatever the URL holds. |
| Util.ChunksShape | src/masc/util.py:58-62 | For n >= 1 the chunks concatenate back to the input. All but the last have length exactly n, and the last is non-empty and at most n long. An empty input yields no chunks. |
| Util.Chunkify | src/masc/util.py:58-62 | The generator's while loop, which rebinds the rest of the input, yields exactly the chunks of `Chunks`. |
| Util.MergedLastWins | src/masc/util.py:65-69 | `merge` holds exactly the keys of its inputs. Each key takes the value of the last input that holds it. |
| Util.Merge | src/masc/util.py:65-69 | The update loop returns the merged map. |
| Util.Chunks40 | src/masc/util.py:27 | A 40-digit digest splits into five chunks of eight. |
| Util.CachePathText | src/masc/util.py:27 | The cache path of a 40-character digest is "cache" and its five 8-character chunks, joined by the separator. |
| Util.CachePathShape | src/masc/util.py:27-36 | The same for a hex digest, whose directory (what `makedirs` creates) is that path without its last segment. |
| Util.CachePathInjective | src/masc/util.py:27 | Distinct digests name distinct cache files. |
| Util.DirnameOfChild | src/masc/util.py:36 | `os.path.dirname` of "head/last" is head. |
| Util.FetchHit | src/masc/util.py:29-30 | A cache hit returns the stored bytes, sends no request and changes nothing. |
| Util.FetchMiss | src/masc/util.py:32-38 | A miss sends one request. A status other than 200 raises `FetchError(status, url)` and stores nothing. The call succeeds exactly when the status is 200 and the directory is not there yet, and then returns the body. |
| Util.FetchIdempotent | src/masc/util.py:29-38 | After a successful fetch, the same URL is a hit: the same bytes, no request, no change. |
| Util.FetchKeepsOthers | src/masc/util.py:36-37 | A download leaves every other cache file as it was. |
| Util.FetchStuck | src/masc/util.py:36 | `makedirs` without `exist_ok`: once the directory of a missing file exists, every call raises FileExistsError and the file is never stored. |
| Util.Cache.constructor | src/masc/util.py:26-29 | The cache directory starts with the given files and directories and no requests. |
| Util.Cache.FetchCached | src/masc/util.py:26-38 | `fetch_cached(url)` on the cache directory does what `Fetch` says for the path of the URL's digest. |
| Descriptor.PutShape | src/masc/descriptor.py:10-11 | Storing under a key keeps the keys distinct. An existing key is replaced in place, with the other entries and the order untouched. A new key is appended at the end, as a Python dict does. |
| Descriptor.PutTwice | src/masc/descriptor.py:10-11 | Storing the same key twice keeps only the second value. |
| Descriptor.CollectDistinct | src/masc/descriptor.py:10-41 | Re-inserting the items of a dict one by one gives distinct keys, and changes nothing when they already were. |
| Descriptor.Descriptor.constructor | src/masc/descriptor.py:6-8 | A new descriptor has no metadata and an empty dict. |
| Descriptor.Descriptor.AddVolume | src/masc/descriptor.py:10-11 | `add_volume` stores the volume under its own number and keeps the metadata. |
| Descriptor.Descriptor.Load | src/masc/descriptor.py:13-43 | `load(path)` gives a new descriptor whose snapshot is what `LoadFile` reads from the file, or raises what `LoadFile` raises. |
| Descriptor.Descriptor.Save | src/masc/descriptor.py:45-72 | `save(path)` changes the files exactly as `SaveFile` says for the descriptor's snapshot. |
| Descriptor.BuildTree | src/masc/descriptor.py:46-69 | The nested loops of `save` build the element tree `SaveTree` describes. |
| Descriptor.ReadVolume | src/masc/descriptor.py:24-39 | The nested loops of `load` read one volume element as `LoadVolume` describes. |
| Descriptor.LoadVolumesSnoc | src/masc/descriptor.py:24-41 | Each volume element read is stored in the dict under its number. |
| Descriptor.LoadVolumesFirstError | src/masc/descriptor.py:24-41 | The first volume element that cannot be read ends `load` with its exception. |
| Descriptor.LoadChaptersFirstError | src/masc/descriptor.py:27-39 | The first chapter element that cannot be read ends `load` with its exception. |
| Descriptor.LoadChaptersSnoc | src/masc/descriptor.py:27-39 | Each chapter element read is appended to its volume in document order. |
| Descriptor.ParsedText | src/masc/descriptor.py:20-64 | `str()` of a parsed element's text is never empty, and non-empty text written by `save` reads back unchanged. |
| Descriptor.SavedLayout | src/masc/descriptor.py:55-69 | `save` writes one `volume` element per dict item, in dict order, with number `str(key)`. Each holds its chapters' elements in list order, and each chapter holds its pages' elements in list order. |
| Descriptor.ChapterElementParts | src/masc/descriptor.py:59-69 | A saved chapter element holds its title element and its page elements in order. |
| Descriptor.LoadChapterElement | src/masc/descriptor.py:28-69 | A saved chapter loads back as the reloaded chapter. Its number, url and title are strings, its volume is the enclosing volume's number, and each page has url None and `str()` of its number and image URL. |
| Descriptor.LoadChaptersAllOk | src/masc/descriptor.py:27-39 | When every chapter element loads, the volume gets them all in order. |
| Descriptor.LoadChapterElements | src/masc/descriptor.py:27-69 | The chapters saved for a volume load back in order. |
| Descriptor.LoadVolumeElement | src/masc/descriptor.py:24-69 | A saved volume loads back with number `str(key)`, which is also the key it is stored under. |
| Descriptor.LoadVolumeElements | src/masc/descriptor.py:24-69 | The saved volumes load back as the reloaded items, re-inserted into a dict in saved order. |
| Descriptor.SerializableLayout | src/masc/descriptor.py:53-72 | The tree `save` builds can be written exactly when the cover URL is a string. An attribute set to None makes the writer raise. |
| Descriptor.SaveLoad | src/masc/descriptor.py:13-72 | With a string cover URL, save then load reads back the reloaded descriptor. The slug is kept, and a non-empty title is kept. The cover URL reads back as "None", because `save` writes it as an attribute and `load` reads the element text. |
| Descriptor.ReloadedOrder | src/masc/descriptor.py:24-69 | When no two keys print alike, the volumes come back in dict order, one per item, each keyed by `str(key)`. |
| Descriptor.SaveFailures | src/masc/descriptor.py:49-72 | Without metadata, `save` raises AttributeError and writes nothing. With a cover URL that is not a string, the writer raises TypeError and leaves a partial file that does not load. |
| Descriptor.LaterVolumeWins | src/masc/descriptor.py:11-41 | When two volume elements share a number, the later one replaces the earlier. |
| Descriptor.PutFrom | src/masc/descriptor.py:10-11 | Every item of a dict after a store was there before or is the new item. |
| Descriptor.CollectFrom | src/masc/descriptor.py:41 | Re-inserting items invents none. |
| Descriptor.ReloadedItemTwice | src/masc/descriptor.py:24-69 | Reloading a reloaded volume changes nothing. |
| Descriptor.ReloadedStable | src/masc/descriptor.py:13-72 | A second save and load changes nothing more. |
| Adapter.RunLen | src/masc/adapter.py:11 | A greedy run of pattern characters never passes the end of the URL. |
| Adapter.RunLenMaximal | src/masc/adapter.py:11 | The run `\w+`, `[a-z_]+` or `[^/]+` takes is maximal: every character in it belongs to the class, and the character after it does not. |
| Adapter.LastHtml | src/masc/adapter.py:11 | The page group, which backtracks to leave room for ".html", stays within its run. |
| Adapter.LastHtmlLast | src/masc/adapter.py:11 | The page group ends at the last place within its run where ".html" follows. |
| Adapter.KeepNonZeroAppend | src/masc/adapter.py:62-64 | The page filter distributes over concatenation. |
| Adapter.KeepNonZeroMembers | src/masc/adapter.py:62-64 | A page survives the filter exactly when it was there and is not numbered 0. |
| Adapter.KeepNonZeroNoZeros | src/masc/adapter.py:62-64 | On pages with no number 0, the filter changes nothing. |
| Adapter.MangafoxAdapter.MakeChapter | src/masc/adapter.py:31-38 | `make_chapter` raises AttributeError exactly when the pattern does not match the href. Otherwise the chapter has the href as its url and no pages. |
| Adapter.Mangafox | src/masc/adapter.py:6-19 | The constructor succeeds exactly when the pattern matches, and then keeps the URL and the slug group. Otherwise it raises RuntimeError("URL does not match mangafox pattern"). |
| Adapter.HeadExact | src/masc/adapter.py:11-27 | "http://mangafox.me/manga/" and a slug match the head of the pattern, with the slug group exactly the slug. |
| Adapter.TailExactVolume | src/masc/adapter.py:11-27 | The optional tail with a volume segment gives back volume, chapter and page. |
| Adapter.TailExactChapter | src/masc/adapter.py:11-25 | Without a volume segment, the tail gives back the chapter and page and no volume. |
| Adapter.MatchChapterHref | src/masc/adapter.py:11 | Every chapter-page URL of the site's form matches, and the groups are its slug, volume, chapter and page. |
| Adapter.MatchRootUrl | src/masc/adapter.py:11-23 | The root URL `build_url` writes matches with the slug and no tail. |
| Adapter.BuildUrlMatches | src/masc/adapter.py:11-29 | The pattern reads back from `build_url`'s output the slug, the chapter and the page. The volume comes back as given, or as "TBD" when it was None. |
| Adapter.MakeChapterOfHref | src/masc/adapter.py:31-38 | On a link of the site's form, `make_chapter` gives the chapter that link describes. Its number is the chapter as written. Its title is the span's text or else "Chapter <n>". Its volume comes from the href or, without a volume segment, is the chapter number. |
| Adapter.MakePageOfNumber | src/masc/adapter.py:11-43 | `make_page` on a decimal option gives the page with that number and the URL `build_url` writes. The pattern reads the same number back from that URL. |
| Adapter.CoverSource | src/masc/adapter.py:49 | Reading `div.cover > img['src']` raises AttributeError when there is no cover div, TypeError when the div has no img, and KeyError('src') when the img has no src. Otherwise it gives the src. |
| Adapter.GetMetaSpec | src/masc/adapter.py:45-49 | `get_meta` passes on the fetch error and raises AttributeError when the h1 is missing. Otherwise it raises what reading the cover source raises (AttributeError, TypeError or KeyError), or gives the slug, `str()` of the h1 and the cover URL as a string. |
| Adapter.GetChaptersSpec | src/masc/adapter.py:51-55 | `get_chapters` passes on the fetch error. It succeeds exactly when every "tips" link matches the pattern, and otherwise raises AttributeError. On success it gives one chapter per link, in order, with the link's URL and no pages. |
| Adapter.GetPagesSpec | src/masc/adapter.py:57-65 | `get_pages` passes on the fetch error, or raises RuntimeError naming the chapter URL when there is no select.m. Otherwise it gives one page per option, in option order, with the pages numbered 0 left out. |
| Adapter.GetImageSpec | src/masc/adapter.py:67-73 | `get_image` passes on the fetch error. It raises RuntimeError naming the page URL when there is no img#image, and KeyError('src') when the image has no src. Otherwise it gives the image's source. |
| Adapter.MangafoxOfHref | src/masc/adapter.py:13-19 | The adapter built for a URL of the site's form has that URL's slug. |
| Adapter.MangafoxRefuses | src/masc/adapter.py:15-17 | A URL that does not start with "http://mangafox" is refused with the RuntimeError. |
| Format.Cbz | src/masc/format.py:72-73 | `cbz(adapter)` wraps the adapter in an archive writer whose file format is ".cbz". Also lines 11-12. |
| Format.Range | src/masc/format.py:80-89 | The positions 0 to n-1, in order. |
| Format.IndexOrder | src/masc/format.py:80-89 | Sorting the positions of a list by the key of the element there agrees with `sorted` on the list. It raises the same TypeError when the keys cannot be compared, and otherwise gives each position once. |
| Format.ChapterOrderSorts | src/masc/format.py:89 | The chapter visiting order is `sorted(volume.chapters, key=number)`, as positions. |
| Format.PageOrderSorts | src/masc/format.py:80 | The page visiting order is `sorted(chap.pages, key=number)`, as positions. |
| Format.ArchiveAdapter.BuildChapter | src/masc/format.py:77-87 | The inner `build_chapter`, whose loop resolves, fetches and writes each page, does what `ChapterStep` says. |
| Format.ArchiveAdapter.BuildChapters | src/masc/format.py:93-94 | The chapter loop does what `ChaptersRun` says. |
| Format.ArchiveAdapter.BuildVolume | src/masc/format.py:75-102 | `build_volume` changes the output files, the cache and the chapters held in the volume as `VolumeBuild` says. |
| Format.PageEntries | src/masc/format.py:82-87 | One archive entry per page, in the given order. |
| Format.ResolvedPageTwice | src/masc/format.py:84-85 | Asking for an image URL only when it is None means resolving twice is resolving once. The page number never changes. |
| Format.ResolvedChapterTwice | src/masc/format.py:84-85 | The same for a whole chapter. |
| Format.FetchGrows | src/masc/format.py:86 | `fetch_cached` only adds cache files. After a success, the file holds the returned bytes. Also `src/masc/util.py` lines 29-38. |
| Format.ChapterDoneStable | src/masc/format.py:86 | A chapter whose images are cached keeps them, and its entries, as the cache grows. |
| Format.PageStepPass | src/masc/format.py:83-87 | One page that raises nothing has a number that `int()` reads, and now has an image URL whose file is cached. The page is stored back with that URL. One entry, "ch<chapter>-p<NN>.jpg", holding the cached image, is appended. |
| Format.PagesResolvedCons | src/masc/format.py:82-85 | Resolving is accumulated over the page positions. |
| Format.EntriesAddedCons | src/masc/format.py:82-87 | Entries are accumulated over the page positions. |
| Format.PagesRunPass | src/masc/format.py:82-87 | A page loop that raises nothing resolves exactly the visited pages. It appends one entry per visited page, in visiting order. |
| Format.SortResolvedPages | src/masc/format.py:80-85 | Resolving image URLs does not change the page order. |
| Format.SortResolvedChapters | src/masc/format.py:84-89 | Resolving image URLs does not change the chapter order. |
| Format.OrderCovers | src/masc/format.py:80-89 | The sorted positions cover every position. |
| Format.ResolvedWhole | src/masc/format.py:80-85 | Visiting every page position resolves the whole chapter. |
| Format.EntriesOfChapter | src/masc/format.py:80-87 | Entries appended in sorted page order are exactly the chapter's entries, and every page's image is then cached. |
| Format.ChapterStepPass | src/masc/format.py:77-87 | A `build_chapter` that raises nothing resolves every page of the chapter and leaves the other chapters alone. It appends the chapter's entries in ascending page number. The cache only grows. |
| Format.VolumeEntriesStable | src/masc/format.py:86 | A volume's entries do not change as the cache grows. |
| Format.VisitedCons | src/masc/format.py:93-94 | Resolving one chapter first does not change what the later visits see. |
| Format.ChaptersResolvedCons | src/masc/format.py:93-94 | Resolving is accumulated over the chapter positions. |
| Format.ChaptersAddedCons | src/masc/format.py:93-94 | Entries are accumulated over the chapter positions. |
| Format.ChaptersRunPass | src/masc/format.py:93-94 | A chapter loop that raises nothing resolves exactly the visited chapters and appends their entries in visiting order. The cache only grows. |
| Format.VisitedSorted | src/masc/format.py:89-94 | Sorted chapter positions visit the resolved chapters once each, sorted by number. |
| Format.VolumeRunDone | src/masc/format.py:89-96 | A finished chapter loop leaves every chapter resolved, with its images cached. The entries are those of the chapters in ascending chapter number. |
| Format.VolumeBuildKeeps | src/masc/format.py:75-102 | `build_volume` changes no output file but its own and only adds to the cache. The volume keeps its number of chapters. |
| Format.VolumeBuildWrites | src/masc/format.py:89-102 | A completed `build_volume` writes a zip whose entries are, chapter by chapter in ascending number and page by page in ascending number, each page's cached image. The returned volume has every image URL filled in. |
| Format.VolumeBuildUnsorted | src/masc/format.py:89 | Chapters that cannot be sorted raise TypeError before the archive is opened. Nothing changes. |
| Format.VolumeBuildOutcomes | src/masc/format.py:91-102 | A FetchError is reported, not raised. Another exception is raised and leaves the archive open, with the entries written so far but not yet readable. A run that raises nothing, or a FetchError that removes the file, leaves either a zip or no file. |
| Format.ChaptersRunLength | src/masc/format.py:93-94 | The chapter loop keeps the number of chapters. |
| Format.ChapterStepLength | src/masc/format.py:77-87 | `build_chapter` keeps the number of chapters. |
| Format.PagesRunLength | src/masc/format.py:82-87 | The page loop keeps the number of chapters. |
| Scraper.CrawlChapterSpec | src/masc/scraper.py:120-123 | Every page `get_pages` returns is appended to the chapter, in order, with `image_url` set to `get_image`'s answer. The chapter's other fields are kept. The first exception of either query is the chapter's. |
| Scraper.ScraperEngine.CrawlPages | src/masc/scraper.py:120-123 | The page loop of `crawl` computes `CrawlChapter`. |
| Scraper.VolumeAtIndex | src/masc/scraper.py:125-127 | With distinct keys, looking up a volume's key finds that volume. |
| Scraper.InVolume | src/masc/scraper.py:125-127 | The chapters of a volume come from the input and carry that volume. |
| Scraper.HasKeyIn | src/masc/scraper.py:125 | `chapter.volume not in volumes` is membership among the keys. |
| Scraper.InVolumeSnoc | src/masc/scraper.py:125-127 | A chapter joins the chapters of its own volume and of no other. |
| Scraper.VolumeKeysSnoc | src/masc/scraper.py:125-127 | Its volume is appended to the volumes seen. |
| Scraper.GroupExisting | src/masc/scraper.py:127 | A chapter whose volume is in the dict is appended to that volume. |
| Scraper.InVolumeAbsent | src/masc/scraper.py:125-126 | A volume no chapter names has no chapters. |
| Scraper.GroupNew | src/masc/scraper.py:125-127 | A chapter whose volume is new creates it at the end of the dict, holding that chapter. |
| Scraper.GroupAllShape | src/masc/scraper.py:118-127 | The dict `crawl` builds has one volume per distinct `chapter.volume`, in order of first appearance. Each volume holds exactly the chapters naming it, in input order. |
| Scraper.CrawlChaptersStop | src/masc/scraper.py:118-127 | The first chapter that raises ends the loop. |
| Scraper.CrawlChaptersMap | src/masc/scraper.py:118-127 | The chapter loop raises nothing exactly when every chapter crawls, and then groups the crawled chapters. Otherwise it raises the first exception. |
| Scraper.ScraperEngine.AddToVolume | src/masc/scraper.py:125-127 | The chapter's volume is created if missing and the chapter added to it. The metadata is kept. |
| Scraper.ScraperEngine.CrawlLoop | src/masc/scraper.py:118-127 | The chapter loop fills the new descriptor as `CrawlChapters` says. |
| Scraper.CrawlSaves | src/masc/scraper.py:112-134 | A `crawl` exception from `get_meta` or `get_chapters` writes nothing. A crawl that raises nothing has the adapter's metadata and groups the crawled chapters. It saves a descriptor to "<slug>.xml" or "<out>.xml" that loads back as itself, up to what the XML keeps. |
| Scraper.ScraperEngine.Crawl | src/masc/scraper.py:112-134 | `crawl(args)` replaces the descriptor with a fresh one and changes the files, as `CrawlSpec` says. |
| Scraper.Selected | src/masc/scraper.py:147-149 | The filter keeps exactly the positions whose volume number is listed. |
| Scraper.SelectedAscending | src/masc/scraper.py:144-149 | Filtering keeps the ascending order. |
| Scraper.RangeCount | src/masc/scraper.py:144 | Each position occurs once among all positions. |
| Scraper.OrderDistinct | src/masc/scraper.py:144 | A sorted order of positions repeats none. |
| Scraper.BuildVisitsSpec | src/masc/scraper.py:144-152 | `build` raises TypeError when the volume numbers cannot be compared. Otherwise it visits each volume at most once, in ascending number, and exactly the listed ones (all of them when none are listed). |
| Scraper.VolumeStepSpec | src/masc/scraper.py:85-110 | `build_volume` never calls the format for a volume whose file exists. Otherwise the volume is replaced by the format's updated one, and the dict keeps its keys, order and metadata. No file but the target changes, and the cache only grows. Every exception is caught. After an exception other than FetchError, the archive the format left open is closed when the handler drops it, so the target is a readable zip of the entries written before the exception. |
| Scraper.ScraperEngine.BuildVolume | src/masc/scraper.py:85-110 | `build_volume` changes the engine, the files and the cache as `VolumeStep` says, closing the archive an exception left open into a zip of what it holds. |
| Scraper.BuildLoopKeeps | src/masc/scraper.py:151-152 | The build loop keeps the dict's keys and order, the metadata and the directory. The cache only grows. |
| Scraper.BuildSpecKeeps | src/masc/scraper.py:136-152 | `build` keeps the directory it was given, or `out`. A `build` that raises nothing leaves a descriptor. |
| Scraper.ScraperEngine.Build | src/masc/scraper.py:136-152 | `build(args)` loads a descriptor when there is none. A `build` that raises nothing leaves one, and the state changes as `BuildSpec` says. |
| Scraper.ScraperEngine.BuildVolumes | src/masc/scraper.py:150-151 | The sequential loop of `build` changes the engine, the files and the cache as `BuildLoop` says for the visited positions. |
| Scraper.RunReuses | src/masc/scraper.py:157-166 | With a saved descriptor and no `--rebuild`, `run` does not crawl, so its outcome does not depend on what the site would answer. A descriptor that does not load ends the run unchanged. |
| Scraper.RunCrawls | src/masc/scraper.py:162-166 | Otherwise `run` crawls first, and a crawl that raises ends the run with that exception. |
| Scraper.SavedLoads | src/masc/scraper.py:169 | A save that raises nothing had metadata and writes a descriptor that loads back. Also `src/masc/descriptor.py` lines 45-72. |
| Scraper.RunSaves | src/masc/scraper.py:157-169 | A run that raises nothing saves at `join(dir, "<slug>.xml")` a descriptor that loads back as the engine's final one, so the next run can reuse it. |
| Scraper.ScraperEngine.constructor | src/masc/scraper.py:73-83 | A new engine holds the adapter and the format, no descriptor, and the directory ".". |
| Scraper.ScraperEngine.Run | src/masc/scraper.py:157-169 | `run(args)` changes the engine, the files and the cache as `RunSpec` says. |
| Scraper.ScraperEngine.LoadOrCrawl | src/masc/scraper.py:161-165 | The first half of `run`: it loads the saved descriptor unless told to rebuild or there is none, and crawls otherwise, as `RunReady` says. |
| Scraper.ScraperEngine.BuildAndSave | src/masc/scraper.py:167-169 | The second half of `run`: it builds, then saves the descriptor to the run's file, as `RunFinish` says. |
| Tools.JoinSnoc | src/masc/main.py:14 | `str.join` with one more part adds the separator and that part. |
| Tools.SplitClassParts | src/masc/main.py:11-16 | The class name holds no '.'. Package and class, joined by '.', give back a dotted name. A name without '.' takes the default package. |
| Tools.GetClass | src/masc/main.py:10-19 | `get_class` succeeds exactly when the package is importable and defines the class. It raises ImportError for a missing package and AttributeError for a missing class. |
| Tools.CrawlLaunch | src/masc/main.py:22-33 | `crawl` exits with -1 and "Adapter not found" exactly when the class is missing. Otherwise it starts the engine with that adapter class. |
| Tools.BuildLaunch | src/masc/main.py:36-47 | `build` exits with -1 and "Adapter not found" exactly when the format class is missing. Otherwise it starts the engine with that format. |
| Tools.DownloadLaunch | src/masc/main.py:50-64 | `download` looks up the format only once the adapter is found, and starts only when both exist. A missing class exits with -1, and a missing package raises. |
| Py.FirstIndex | src/masc/main.py:70 | The first position of a character, or -1. |
| Tools.MatchTailOf | src/masc/main.py:70 | "<digits>" followed by any character but a newline, then "jpg" and an optional final newline, matches `\d+.jpg$`. |
| Tools.MatchTailShape | src/masc/main.py:70 | Whatever matches `\d+.jpg$` has that form. |
| Tools.NewNameEntry | src/masc/main.py:84 | The new names have the pattern's form. |
| Tools.MatchChapterShape | src/masc/main.py:70 | The chapter group is a non-empty run without '-', followed by "-p". |
| Tools.MatchEntryShape | src/masc/main.py:70 | A name the pattern matches is built from its groups: a chapter without '-', and a page of digits. |
| Tools.Assemble | src/masc/main.py:70 | A name is put back together from its parts. |
| Tools.MatchEntryOf | src/masc/main.py:70 | Every name of that form matches, with those groups. |
| Tools.FixNameKeeps | src/masc/main.py:79-81 | A name the pattern does not match is kept. |
| Tools.FixNameRenames | src/masc/main.py:83-86 | A page of an integral chapter is renamed to the chapter's number with the page zero-padded to three digits. Any other chapter label goes to the float formatting, whose error aborts the rename. |
| Tools.DigitsOfPad | src/masc/main.py:84 | Zero-padding writes the number in digits. |
| Tools.FixNameUpgrades | src/masc/main.py:84 | An archive written by the CBZ format, with two-digit pages, gets its pages widened to three digits and keeps its chapter numbers. Also `src/masc/format.py` line 83. |
| Tools.FixNameIdempotent | src/masc/main.py:77-86 | Fixing a fixed name renames nothing. |
| Tools.FixEntriesPrefix | src/masc/main.py:77-86 | Once an entry raises, the rest are never read. |
| Tools.FixEntriesShape | src/masc/main.py:77-86 | The new archive has one entry per member listed, in the same order, under the fixed names. Each holds what `read(name)` on the old archive gives for that member's name. It is complete exactly when no name raises and every name reads. |
| Tools.FixArchiveShape | src/masc/main.py:77-86 | Run over the archive's own member list, the loop is complete exactly when no name raises. Entry i then holds the bytes of the last member stored under member i's name. |
| Tools.FixArchiveDistinct | src/masc/main.py:77-86 | When the member names are distinct, every new entry keeps the bytes of its own member. |
| Tools.DuplicateNameShadowed | src/masc/main.py:81 | An archive with two members named "cover.jpg" holding [1] and [2] is rewritten with [2] in both copies. |
| Tools.RewriteEntries | src/masc/main.py:77-86 | The entry loop computes `FixEntries` over the old archive's member list, reading each member by its name. |
| Tools.FixFilePass | src/masc/main.py:72-90 | A successful `fix_file` leaves the renamed entries, each holding what reading its old name gives, under the old name, drops the ".old" copy and touches no other file. |
| Tools.FixFileBad | src/masc/main.py:72-74 | A file that is not a zip raises BadZipFile after the rename, so the original survives only as "<name>.old". |
| Tools.FixFileRaises | src/masc/main.py:75-86 | A name that raises leaves the new archive half-written and keeps the original as "<name>.old". |
| Tools.FixFileFrame | src/masc/main.py:68-90 | `fix_file` touches no file but the archive and its ".old" copy. |
| Tools.FixFile | src/masc/main.py:68-90 | `fix_file(name)` changes the files as `FixFileSpec` says. |
| Tools.ReplaceArchive | src/masc/main.py:75-90 | The new archive is written under the old name and the ".old" copy removed, as `Rewritten` says. |
| Tools.CbzPaths | src/masc/main.py:93-94 | Only names ending in ".cbz" are visited. |
| Tools.Targets | src/masc/main.py:92-94 | Every visited path ends in ".cbz". |
| Tools.FixAll | src/masc/main.py:92-98 | A BadZipFile is reported and the walk goes on, so the walk never ends with one. |
| Tools.FixAllAppend | src/masc/main.py:92-98 | The walk over two lists is the walk over the first, then over the second if nothing raised. |
| Tools.FixAllFrame | src/masc/main.py:92-98 | Only the visited archives and their ".old" copies change. |
| Tools.FixDir | src/masc/main.py:93-98 | The inner loop over one directory listing does what `FixAll` says. |
| Tools.FixPath | src/masc/main.py:92-98 | `fix_path` over the walk does what `FixAll` says. |
| Rain.DigitRun | src/rain.py:11-12 | `\d+` takes the longest run of ASCII digits. |
| Rain.LineRest | src/rain.py:11-12 | `(?P<name>.+)$` takes the non-empty rest of the line. |
| Rain.LineRestOf | src/rain.py:11-12 | Any non-empty text without a newline, with or without a final newline, is taken whole. |
| Rain.DigitRunOf | src/rain.py:11-12 | Digits followed by a non-digit form the whole run. |
| Rain.MatchNumberedOf | src/rain.py:11-12 | "<digits><separator><name>" matches with those groups. |
| Rain.PadDigits | src/rain.py:33-40 | `"{:0>3s}"` keeps digits digits, at least three long. |
| Rain.Classify | src/rain.py:28-33 | A sub-heading gives a chapter number of at least three digits. A sub-heading the pattern does not match gives "000" and "Unkown". |
| Rain.PageNumber | src/rain.py:35-40 | A heading gives a page number of at least three digits, and "000" when the pattern does not match. |
| Rain.ClassifyOf | src/rain.py:11-33 | Every sub-heading "Ch<x> <digits>: <name>" is classified by its padded digits and its name. |
| Rain.MissingLinkClass | src/rain.py:19-33 | A page without a chapter link falls into chapter "000", named "Unkown". |
| Rain.PageNumberOf | src/rain.py:12-40 | Every heading "Comic <digits> - <name>" gives its padded digits. |
| Rain.FindChapter | src/rain.py:42-44 | `chap_num in chapters` finds the chapter with that number, or reports that there is none. |
| Rain.NumbersSnoc | src/rain.py:42 | One more page adds its number. |
| Rain.PagesNumberedAbsent | src/rain.py:42-48 | A number no page carries has no pages. |
| Rain.ChapterForSnoc | src/rain.py:44-48 | A page of an existing chapter changes nothing but that chapter's pages. |
| Rain.AddPageExisting | src/rain.py:44-48 | A page of a known chapter is appended to it. |
| Rain.AddPageNew | src/rain.py:42-48 | A page of a new chapter creates the chapter, with url None and the page's chapter name, at the end of the dict. |
| Rain.GatherShape | src/rain.py:14-48 | The dict the loop builds has one chapter per distinct number, in order of first appearance. Each holds exactly the pages carrying its number, in page order, with image URLs set. |
| Rain.SortedChapters | src/rain.py:56 | The numbers are strings, so `sorted(chapters.values())` cannot raise. |
| Rain.GatherNumbers | src/rain.py:30-43 | Every chapter number the loop stores is a string. |
| Rain.RainVolumeShape | src/rain.py:52-57 | The descriptor holds the metadata "Rain"/"rain" and one volume "0" whose chapters are sorted by number. A chapter is in it exactly when some page carries its number, and it is then the chapter those pages build. |
| Rain.RainSaves | src/rain.py:58 | What the importer leaves in "rain.xml" loads back as the descriptor it built. |
| Rain.FilePage | src/rain.py:18-48 | One pass of the page loop files the page as `AddPage` says. |
| Rain.GatherPages | src/rain.py:14-48 | The page loop stops at the first page that could not be read, with its exception. Otherwise it leaves the chapters dict `Gather` describes. |
| Rain.ImportOutcomes | src/rain.py:9-58 | When the front page cannot be fetched or has no page select, or some page cannot be fetched or lacks its heading, chapter heading or image, the importer raises that exception and writes nothing. Otherwise it succeeds and "rain.xml" loads back as `RainDescriptor` of the pages. |
| Rain.Import | src/rain.py:9-58 | The importer changes the files as `ImportSpec` says. |
| Legacy.FetchImageHit | src/main.py:26-27 | A cached image is returned as stored, with no request and no change. |
| Legacy.FetchImageRefused | src/main.py:29-31 | A refused download raises FileNotFoundError("URL does not exist") and writes nothing. |
| Legacy.FetchImageAgrees | src/main.py:23-35 | The legacy `fetch_image` is `fetch_cached` except for the error a refusal raises: the same bytes, the same cache, and FileNotFoundError where the newer one raises FetchError. Also `src/masc/util.py` lines 26-38. |
| Legacy.FetchImageGrows | src/main.py:33-35 | The fetcher only adds files. After a success, the file holds the returned bytes. |
| Legacy.FetchImage | src/main.py:23-35 | `fetch_image(url)` changes the cache as `FetchImageSpec` says, at the chunked SHA-1 path. |
| Legacy.DigitsPage | src/main.py:187 | The chapter and page groups `\d+` are non-empty runs of digits. |
| Legacy.LegacyTail | src/main.py:187 | The volume group `\w+` is a non-empty run of word characters. |
| Legacy.LegacyMatch | src/main.py:187 | The tail groups are all set or all unset. When set, the volume is word characters and the chapter and page are digits. |
| Legacy.LegacyAcceptsSame | src/main.py:187 | The legacy pattern accepts exactly the URLs the newer one accepts, with the same slug. Only the tail groups differ. Also `src/masc/adapter.py` line 11. |
| Legacy.WordsAreSegment | src/main.py:187 | A run of word characters holds no '/'. |
| Legacy.DigitPageExact | src/main.py:187 | A page of digits before ".html" is the page group. |
| Legacy.DigitsPageAt | src/main.py:187 | The chapter and page groups, once their runs are known. |
| Legacy.DigitsPageExact | src/main.py:187 | "<digits>/<digits>.html" gives both groups. |
| Legacy.LegacyTailAt | src/main.py:187 | The tail, once the volume run is known. |
| Legacy.LegacyTailExact | src/main.py:187 | "/v<volume>/c<chapter>/<page>.html" gives the three groups. |
| Legacy.LegacyMatchHref | src/main.py:187-207 | Every chapter-page URL with a word-character volume and decimal chapter and page matches with all its groups. |
| Legacy.LegacyNeedsVolume | src/main.py:187 | A URL without a volume segment matches with its slug only. The newer pattern reads chapter and page from it. Also `src/masc/adapter.py` line 11. |
| Legacy.NewScraper | src/main.py:193-199 | `MangafoxScraper(url)` succeeds exactly when the pattern matches, keeping the URL and slug. Otherwise it raises the RuntimeError. |
| Legacy.NewScraperAgrees | src/main.py:193-199 | The legacy scraper is built for exactly the URLs the newer adapter is built for, with the same slug or the same error. Also `src/masc/adapter.py` lines 13-19. |
| Legacy.MakeChapter | src/main.py:211-218 | `make_chapter` raises AttributeError when the pattern does not match or there is no title span. Otherwise the chapter has the href, the span's text and no pages. |
| Legacy.MakeChapterOfHref | src/main.py:211-218 | A link with a volume segment gives a chapter numbered and filed as its URL says. |
| Legacy.MakeChapterWithoutVolume | src/main.py:211-218 | A link without a volume segment gives a chapter with number and volume None. |
| Legacy.GetChaptersSpec | src/main.py:230-234 | `get_chapters` passes on the fetch error. It succeeds exactly when every "tips" link matches the pattern and has a title span, and otherwise raises AttributeError. On success it gives one chapter per link, in order, with the link's URL, the span's text and no pages. |
| Legacy.GetMeta | src/main.py:225-228 | `get_meta` passes on the fetch error. It raises AttributeError when the h1 is missing, and otherwise what reading the cover source raises (as `Adapter.CoverSource` says). Otherwise it gives the h1's `.string` as it is, None included, and the cover source. |
| Legacy.GetPagesAgrees | src/main.py:236-241 | The legacy `get_pages` is the newer one except that a page without select.m raises AttributeError. Its pages have no image URL and none is numbered 0. Also `src/masc/adapter.py` lines 57-65. |
| Legacy.GetImage | src/main.py:243-245 | `get_image` succeeds exactly when the newer one does, with the same source. A page without img#image makes the subscript raise TypeError, and an image without src raises KeyError('src'). Also `src/masc/adapter.py` lines 67-73. |
| Legacy.CrawlAllOk | src/main.py:125-130 | A crawl that succeeds gives every chapter its pages, in order. |
| Legacy.CrawlAllErr | src/main.py:125-130 | A crawl that fails, fails at the first chapter whose pages cannot be read. |
| Legacy.CrawlAllStops | src/main.py:126-130 | After a failure, the remaining chapters change nothing. |
| Legacy.ChaptersFresh | src/main.py:230-234 | The chapters `get_chapters` lists have no pages yet. |
| Legacy.CrawlVolumesShape | src/main.py:124-134 | A successful crawl groups the chapters by volume, creating a volume the first time its number is seen. Each chapter holds the pages of `get_pages` in order, none with an image URL yet. |
| Legacy.CrawledChapter | src/main.py:127-130 | One crawled chapter is the listed chapter with `get_pages`'s pages. |
| Legacy.Crawl | src/main.py:124-134 | The crawl loops compute `CrawlVolumes`. |
| Legacy.PageStepShape | src/main.py:104-110 | One page is named "ch<chapter>-p<page>.jpg". It keeps its image URL or gets `get_image`'s, and its image is the cached file of that URL. The cache only grows. |
| Legacy.PageBuiltStable | src/main.py:108 | A built page stays built as the cache grows. |
| Legacy.PagesBuiltSnoc | src/main.py:103-110 | Built pages accumulate in order. |
| Legacy.PagesRunShape | src/main.py:103-110 | The page loop keeps the stored order: page i and image i come from page i of the chapter. |
| Legacy.PagesRunStops | src/main.py:103-110 | Once the loop has raised, the remaining pages change nothing. |
| Legacy.BuildChapterShape | src/main.py:95-113 | A built chapter is named "chap-<number>.html", keeps the title and its pages in stored order, and leaves every page with an image URL whose image is cached. |
| Legacy.BuildPage | src/main.py:104-110 | One pass of the page loop does what `PageStep` says. |
| Legacy.BuildChapter | src/main.py:95-113 | `build_chapter` does what `BuildChapterSpec` says. |
| Legacy.ChaptersBuiltSnoc | src/main.py:80-84 | Built chapters accumulate on the spine in visiting order. |
| Legacy.ChapterStepBuilt | src/main.py:80-84 | One more chapter, at a position not yet visited, is built from the chapter as stored. |
| Legacy.ChaptersRunShape | src/main.py:80-84 | Over distinct positions, the chapter loop builds each chapter once, from the chapter as stored. The cache only grows. |
| Legacy.ChaptersRunStops | src/main.py:80-84 | Once the loop has raised, the remaining chapters change nothing. |
| Legacy.BuildChapters | src/main.py:80-84 | The chapter loop of `build_volume` does what `ChaptersRun` says. |
| Legacy.BuildVolumeFails | src/main.py:70-92 | Unsortable chapters raise TypeError before anything is done. `build_volume` never touches the pickles. A failure writes no book, and the cache only grows. |
| Legacy.SortedRunShape | src/main.py:80-84 | In sorted order, the loop visits every chapter once. The spine follows `sorted`, and every chapter is left with all its image URLs. |
| Legacy.BuildVolumeShape | src/main.py:70-92 | A volume that builds writes one book, "<slug>-v<number>.epub", and changes no other book. The book has id "<slug>-v<number>" and title "Volume <number> - <title>". Its spine holds the chapters in ascending number, each made from its pages in stored order. The volume keeps its chapters in stored order, every page now with an image URL. |
| Legacy.BuildVolume | src/main.py:70-93 | `build_volume` changes the books and the cache as `BuildVolumeSpec` says. |
| Legacy.PagesRunOffline | src/main.py:106-108 | Pages that all have image URLs are built without asking the site anything. |
| Legacy.BuildChapterOffline | src/main.py:95-113 | So is a chapter whose pages all have image URLs. |
| Legacy.KeptStep | src/main.py:139-141 | What the loop keeps is kept across steps and across a dump of the pickle. |
| Legacy.VolumeStepBuilt | src/main.py:139-141 | One more volume, at a position not yet visited, is built from the volume as stored and its book written. |
| Legacy.VolumesRunSnoc | src/main.py:139-141 | The last step of the volume loop keeps what the loop promises. |
| Legacy.VolumesRunShape | src/main.py:139-141 | Over distinct positions, the loop builds each volume once and keeps the dict's keys and order. After each volume the pickle equals the dict. It writes one book per volume, touches no other pickle, and only adds to the cache. |
| Legacy.VolumesRunNext | src/main.py:139-141 | One step of the loop updates the dict and dumps it. |
| Legacy.VolumesRunStops | src/main.py:139-141 | Once a volume has raised, the loop ends. |
| Legacy.CoveredFinished | src/main.py:139 | A loop over every position finishes the dict. |
| Legacy.BuildPhaseShape | src/main.py:138-141 | Unsortable volumes raise TypeError before anything is built. A loop that raises nothing visits every volume, and the pickle holds the finished dict. |
| Legacy.BuildAll | src/main.py:138-141 | "Building Volumes" does what `BuildPhase` says. |
| Legacy.BuildVolumes | src/main.py:139-141 | The loop over the sorted volumes returns the outcome and the dict, and changes the shelf and the cache, as `VolumesRun` says. |
| Legacy.RunLoads | src/main.py:116-136 | Reading the pickle cannot fail. Without it, or with `rebuild`, the crawl decides, and a crawl that raises ends the run with nothing written. |
| Legacy.RunShape | src/main.py:115-141 | A run that raises nothing has built every volume it loaded, and the pickle holds that dict finished. No other pickle changes, no book disappears, and the cache only grows. |
| Legacy.RunResumes | src/main.py:118-141 | After a run that raises nothing, the next run without `rebuild` loads the pickle, and every page in it has an image URL. |
| Legacy.Run | src/main.py:115-142 | `run(rebuild_cache)` changes the pickles, books and cache as `RunSpec` says. |
| Legacy.LaunchMatch | src/main.py:256-266 | A URL the pattern does not match leaves the scraper None, so `scraper.run` raises AttributeError. Otherwise the script runs the scraper for that URL. |
| Legacy.Shelf.constructor | src/main.py:92 | The pickles and books start as given. Also line 121. |
| Legacy.Shelf.Dump | src/main.py:136-141 | `pickle.dump` replaces the named pickle with the dict. |
| Legacy.Shelf.WriteEpub | src/main.py:92 | `write_epub` replaces the named book. |
| Py.SortByCorrect | src/masc/scraper.py:144 | `sorted(s, key=...)` raises TypeError exactly when two keys cannot be compared. Otherwise the result is ordered by key, is a permutation of the input, and keeps elements with equal keys in input order. Also `src/masc/format.py` line 80; `src/masc/format.py` line 89; `src/main.py` line 80; `src/main.py` line 139. |
| Py.InsertionSortCorrect | src/masc/scraper.py:144 | The sort used for `sorted` orders by key and permutes its input. |
| Py.InsertionSortStable | src/masc/scraper.py:144 | It is stable. |
| Py.StringsAreNotNumbers | src/masc/format.py:89 | Chapter numbers are strings, so "10" sorts before "2". Also `src/masc/adapter.py` line 37. |
| Py.StrLeTotal | src/masc/format.py:89 | String comparison is total. |
| Py.StrLeAntisymmetric | src/masc/format.py:89 | String comparison is antisymmetric. |
| Py.StrLeTransitive | src/masc/format.py:89 | String comparison is transitive. |
| Py.KeyLeTransitive | src/masc/scraper.py:144 | The order on comparable keys is transitive. |
| Py.ToInt | src/masc/format.py:83 | `int()` of an int is itself, and `int(None)` raises TypeError. Also `src/masc/adapter.py` line 41. |
| Py.ToIntShow | src/masc/format.py:83 | `int(str(n)) == n`. |
| Py.IntRoundTrip | src/masc/adapter.py:41-42 | The decimal rendering of an int parses back to it. |
| Py.ZeroPadParses | src/masc/format.py:83 | `{:02d}`-style padding is at least as wide as asked and reads back as the number. Also `src/masc/main.py` line 84. |
| Py.PadLeft | src/rain.py:33-40 | `{:0>3s}` left-pads to the width, and longer strings are kept. |
| Py.MapResult | src/masc/adapter.py:53-65 | `list(map(f, s))` succeeds exactly when `f` succeeds on every element, and then maps them in order. Otherwise the first exception escapes. |
| Py.SplitJoin | src/masc/main.py:11-14 | Splitting at '.' and joining again gives the name back, and no part holds a '.'. |
| Py.PathJoin | src/masc/scraper.py:94 | `os.path.join(a, b)` ends with b, or is b when b is absolute. Also line 161. |
| Py.WriteXml | src/masc/descriptor.py:71-72 | Writing an element tree succeeds exactly when every attribute is a string. Otherwise it raises TypeError after opening the file and leaves a partial document. |
| Py.ParseXml | src/masc/descriptor.py:15 | Parsing raises FileNotFoundError for a missing file and a parse error for one that is not XML. |
| Py.ReadEntry | src/masc/main.py:81 | `ZipFile.read(name)` gives the bytes of the last member stored under that name, and raises KeyError(name) when there is none. Also line 86. |
| Py.ReadDistinct | src/masc/main.py:81 | In an archive whose member names are distinct, reading a member's name gives that member's bytes. |
| Py.Disk.Write | src/masc/format.py:91 | Writing a file replaces that one file. Also `src/masc/descriptor.py` line 72. |
| Py.Disk.Remove | src/masc/format.py:100 | Removing a file drops that one file. Also `src/masc/main.py` line 90. |

## Left out

- HTTP and HTML parsing are parameters: a fixed function from a URL to the parsed page. It gives what `find`/`find_all` would give (h1, cover, "tips" links, select options, img#image), or the exception `fetch_html` raises. The Rain importer gets its pages the same way: the page list, or the exception fetching the front page or finding its select raised; then per page what it reads off the page (headings and image source), or the exception fetching or reading it raised. `fetch_html` itself (src/masc/util.py:41-50, src/main.py:38-43) is not part of this model.
- The web server behind `fetch_cached`/`fetch_image` is a fixed function from a URL to a status and a body. SHA-1 is a fixed function from a URL to a digest. `CachePathText` assumes a 40-character digest, and `CachePathShape` a hex one.
- Regular expressions use ASCII classes. Python 3's `\w` and `\d` on `str` also accept non-ASCII letters and digits.
- `int()` on a string is modelled as an optional sign ('+' or '-') and ASCII digits. Python also accepts surrounding whitespace and '_' separators.
- The byte formats of ElementTree, ZipFile, ebooklib and pickle are not modelled. A descriptor file is its element tree, an archive is its list of (name, bytes) entries, a book is a `Legacy.Book` value, and a pickle is the dict of volumes it holds. An archive the CBZ writer leaves open when an exception escapes it is `Unclosed`, with the entries written so far; when `build_volume`'s handler drops it, it is closed into a zip of those entries. An archive or document left half-written by an exception that ends the program (in `fix_file` or `Descriptor.save`) is the single value `Garbled`: whether a finaliser runs at interpreter exit is not modelled.
- `Legacy.Book`: the EPUB navigation item, the table of contents and the "nav" spine entry are the same for every book, and are not represented.
- Writing a file, an EPUB or a pickle never fails. A pickle always loads.
- The download cache is a state of its own (`Util.CacheState`), apart from the output files in `Py.Disk`. The legacy pickles and books are `Legacy.LegacyState`, because the legacy engine shares no file with the rest.
- The `multiprocessing.Pool` branch of `build` (src/masc/scraper.py:151-155) is concurrency. Only the sequential `for_each` path is modelled.
- `for_each` (src/masc/util.py:53-55, src/main.py:11-13) is inlined into the loops that call it.
- The `fix_file` rename for chapter labels that are not decimal integers below 2^53 goes through `"{:03.1f}".format(float(chap))`. That is floating point, so it is a parameter (`floatFormat`) whose answer the model passes on.
- `Tools.FixNameRenames`: stated for integral chapter labels only, for the same reason.
- `importlib.import_module` is a map from a module name to the classes it defines. `exit(-1)` is the `Exit` outcome, and the code of the SystemExit is kept.
- Tools.GetClass: a dotted path with an empty package part ('.Foo') makes `import_module` raise ValueError, and one with a leading dot ('.x.Foo') TypeError; the model raises ImportError for both.
- The argparse command line (src/__main__.py, src/main.py:248-254) is not part of this model. The arguments are the `Args` record, or the parameters of `Legacy.Launch`. The legacy `--chapters` and `--scraper` options are never read.
- The legacy `for scraper_cls in scrapers` loop runs over a one-element list, so `Legacy.Launch` tries that one scraper.
- `show` and `edit` (src/masc/main.py:101-130) only print or prompt.
- Console output (`print`, `traceback.print_exc`) is not modelled.
- The commented-out EPUB format in src/masc/format.py is not live code.
- `os.walk` and `fnmatch` are a given list of (directory, file names) listings. Only the "ends in .cbz" rule is kept.
- `os.makedirs(self.dir)` in the engine's `build_volume` (src/masc/scraper.py:95-98) is not modelled, because its only failure is swallowed. The output directory is assumed to be usable.
- `Util.MergedLastWins`: `merge` builds a dict, and the model a `map`, which has no key order.
- `chunkify` with `n < 1` never ends on a non-empty input. `Util.ChunksShape` and `Util.Chunkify` require `n >= 1`, which every caller passes (8).
- Objects the source mutates in place (records, descriptor, engine, cache, disk) are Dafny classes. The records inside a descriptor are held as value snapshots, so aliasing between two descriptors or between the engine and a caller's objects is not modelled.
- `Format.ArchiveAdapter.BuildVolume` returns the volume with its image URLs filled in, rather than mutating the caller's page objects.
- `Legacy.BuildVolume` likewise returns the updated volume. When a build raises, the pages it had already resolved are dropped: the exception ends the legacy run, and nothing reads them afterwards.
- The legacy `get_meta` stores the title and cover URL on the scraper object. The model returns them (`Legacy.GetMeta`) and passes the title along. The cover URL is unused, because the cover code is commented out.
- A page's image URL that is not a string is written into the cache name via `str()` (`Py.Show`).
- `Adapter.MangafoxAdapter` is a value: the constructor is the function `Adapter.Mangafox`, and `__init__`'s assignment of `self.slug` is its result.
- `Site.SiteAdapter` is the four answers of `get_meta`/`get_chapters`/`get_pages`/`get_image` as fixed functions. The engine and the CBZ writer are proved for any adapter.
- `Adapter.MakeChapterOfHref`: stated for hrefs of the site's form (slug in `[a-z_]+`, segments without '/'). On any other href, only the contract of `MangafoxAdapter.MakeChapter` applies.
- `Descriptor.ReloadedOrder`: stated when no two dict keys have the same `str()`. When two do, `Descriptor.LaterVolumeWins` says which survives.
