/** The older, single-file engine of src/main.py: a Mangafox scraper with a
    stricter URL pattern, an image fetcher with its own cache, a `run` that
    crawls the site into a dict of volumes (checkpointed with pickle) and
    writes one EPUB book per volume. Its `Volume`, `Chapter` and `Page`
    classes have the fields of the data model, so their values are the
    `Data` datatypes; `build_url` and `make_page` are the code of the current
    adapter and are taken from it. */
module Legacy {
  import opened Py
  import opened Data
  import opened Descriptor
  import opened Util
  import Adapter
  import Scraper
  import Format

  // ---------------------------------------------------------------------------
  // fetch_image

  /** `fetch_image(url)` with the cache file at `path`: a path that exists is
      read (a directory raises when opened); otherwise the URL is requested,
      a status other than 200 raises FileNotFoundError, and the body is
      stored after `os.makedirs` of the file's directory, which raises if
      that directory already exists. */
  function FetchImageSpec(s: CacheState, url: string, path: string, web: string -> Response): (Result<Bytes>, CacheState)
  {
    if path in s.files then (Ok(s.files[path]), s)
    else if path in s.dirs then (Err(IsADirectoryError(path)), s)
    else
      var resp := web(url);
      var asked := s.(requests := s.requests + [url]);
      if resp.status != 200 then (Err(FileNotFoundError("URL does not exist")), asked)
      else
        var dir := Dirname(path);
        if dir in s.dirs || dir in s.files then (Err(FileExistsError(dir)), asked)
        else (Ok(resp.content), asked.(files := s.files[path := resp.content], dirs := s.dirs + DirChain(dir)))
  }

  /** A hit returns the stored bytes, asks the server nothing and changes nothing. */
  lemma FetchImageHit(s: CacheState, url: string, path: string, web: string -> Response)
    requires path in s.files
    ensures FetchImageSpec(s, url, path, web) == (Ok(s.files[path]), s)
  {
  }

  /** A refused miss raises FileNotFoundError and writes nothing: files and
      directories are as they were, only the request is recorded. */
  lemma FetchImageRefused(s: CacheState, url: string, path: string, web: string -> Response)
    requires path !in s.files && path !in s.dirs && web(url).status != 200
    ensures FetchImageSpec(s, url, path, web) == (Err(FileNotFoundError("URL does not exist")), s.(requests := s.requests + [url]))
  {
  }

  /** The legacy fetcher is the util one but for the error a refusal raises:
      same bytes, same cache, and FileNotFoundError where the util version
      raises FetchError. */
  lemma FetchImageAgrees(s: CacheState, url: string, path: string, web: string -> Response)
    ensures FetchImageSpec(s, url, path, web).1 == Fetch(s, url, path, web).1
    ensures Fetch(s, url, path, web).0.Err? && Fetch(s, url, path, web).0.error.FetchError? ==>
      FetchImageSpec(s, url, path, web).0 == Err(FileNotFoundError("URL does not exist"))
    ensures !(Fetch(s, url, path, web).0.Err? && Fetch(s, url, path, web).0.error.FetchError?) ==>
      FetchImageSpec(s, url, path, web).0 == Fetch(s, url, path, web).0
  {
  }

  /** The fetcher only ever adds files, and a success leaves the bytes it
      returns in the file at `path`. */
  lemma FetchImageGrows(s: CacheState, url: string, path: string, web: string -> Response)
    ensures Format.Grows(s.files, FetchImageSpec(s, url, path, web).1.files)
    ensures FetchImageSpec(s, url, path, web).0.Ok? ==>
      path in FetchImageSpec(s, url, path, web).1.files &&
      FetchImageSpec(s, url, path, web).1.files[path] == FetchImageSpec(s, url, path, web).0.value
  {
  }

  /** `fetch_image(url)`: the cache path is built with `chunkify`. */
  method FetchImage(cache: Cache, url: string, sha1: string -> string, web: string -> Response) returns (r: Result<Bytes>)
    modifies cache
    ensures (r, cache.State()) == FetchImageSpec(old(cache.State()), url, CachePath(sha1(url)), web)
  {
    var chunks := Chunkify(sha1(url), 8);
    var path := Join([Sep], ["cache"] + chunks);
    if path in cache.files {
      return Ok(cache.files[path]);
    }
    if path in cache.dirs {
      return Err(IsADirectoryError(path));
    }
    var resp := web(url);
    cache.requests := cache.requests + [url];
    if resp.status != 200 {
      return Err(FileNotFoundError("URL does not exist"));
    }
    var dir := Dirname(path);
    if dir in cache.dirs || dir in cache.files {
      return Err(FileExistsError(dir));
    }
    cache.dirs := cache.dirs + DirChain(dir);
    cache.files := cache.files[path := resp.content];
    return Ok(resp.content);
  }

  // ---------------------------------------------------------------------------
  // url_pattern, matched with `re.match` (anchored at the start only)
  //
  // http://mangafox.\w+/manga/(?P<slug>[a-z_]+)
  //   (/v(?P<volume>\w+)/c(?P<chapter>\d+)/(?P<page>\d+).html)?

  /** `(?P<chapter>\d+)/(?P<page>\d+).html` from just after the "c": the
      chapter is the whole run of digits, which a '/' must follow, and the
      page the longest prefix of the next run of digits that `.html` can
      follow (the '.' is unescaped and may itself be a digit). */
  function DigitsPage(s: string, i: nat): (r: Option<(string, string)>)
    requires i <= |s|
    ensures r.Some? ==> r.value.0 != [] && AllDigits(r.value.0) && r.value.1 != [] && AllDigits(r.value.1)
  {
    var j := i + Adapter.RunLen(s, i, IsDigit);
    Adapter.RunLenMaximal(s, i, IsDigit);
    if j == i || j == |s| || s[j] != '/' then None
    else
      var n := Adapter.RunLen(s, j + 1, IsDigit);
      Adapter.RunLenMaximal(s, j + 1, IsDigit);
      var k := Adapter.LastHtml(s, j + 1, n);
      if k == 0 then None else Some((s[i..j], s[j + 1..j + 1 + k]))
  }

  /** The optional tail group after the slug; the volume segment is required. */
  function LegacyTail(s: string, q: nat): (r: Option<(string, string, string)>)
    requires q <= |s|
    ensures r.Some? ==> r.value.0 != [] && forall k :: 0 <= k < |r.value.0| ==> Adapter.IsWord(r.value.0[k])
  {
    if !Adapter.StartsAt(s, q, "/v") then None
    else
      var r := q + 2 + Adapter.RunLen(s, q + 2, Adapter.IsWord);
      Adapter.RunLenMaximal(s, q + 2, Adapter.IsWord);
      if r == q + 2 || !Adapter.StartsAt(s, r, "/c") then None
      else match DigitsPage(s, r + 2)
        case None => None
        case Some(cp) => Some((s[q + 2..r], cp.0, cp.1))
  }

  /** `url_pattern.match(s)`. The head is the current adapter's; a tail that
      does not fit leaves volume, chapter and page unset, and when they are
      set the volume is a run of word characters and chapter and page are
      runs of digits. */
  function LegacyMatch(s: string): (r: Option<Adapter.UrlMatch>)
    ensures r.Some? ==> (r.value.volume.Some? <==> r.value.chapter.Some?) && (r.value.chapter.Some? <==> r.value.page.Some?)
    ensures r.Some? && r.value.chapter.Some? ==>
      r.value.chapter.value != [] && AllDigits(r.value.chapter.value) &&
      r.value.page.value != [] && AllDigits(r.value.page.value) &&
      r.value.volume.value != [] && forall k :: 0 <= k < |r.value.volume.value| ==> Adapter.IsWord(r.value.volume.value[k])
  {
    if !Adapter.StartsAt(s, 0, "http://mangafox") || |s| < 16 || s[15] == '\n' then None
    else
      var m := 16 + Adapter.RunLen(s, 16, Adapter.IsWord);
      if m == 16 || !Adapter.StartsAt(s, m, "/manga/") then None
      else
        var p := m + 7;
        var q := p + Adapter.RunLen(s, p, Adapter.IsSlugChar);
        if q == p then None
        else match LegacyTail(s, q)
          case None => Some(Adapter.UrlMatch(s[p..q], None, None, None))
          case Some(t) => Some(Adapter.UrlMatch(s[p..q], Some(t.0), Some(t.1), Some(t.2)))
  }

  /** The legacy pattern accepts exactly the URLs the current one accepts
      and reads the same slug from them: only the tail groups differ. */
  lemma LegacyAcceptsSame(s: string)
    ensures LegacyMatch(s).Some? <==> Adapter.MatchUrl(s).Some?
    ensures LegacyMatch(s).Some? ==> LegacyMatch(s).value.slug == Adapter.MatchUrl(s).value.slug
  {
  }

  predicate IsWords(t: string)
  {
    t != [] && forall k :: 0 <= k < |t| ==> Adapter.IsWord(t[k])
  }

  /** A run of the pattern's characters that ends where `t` ends is exactly `t`. */
  lemma WordsAreSegment(t: string)
    requires IsWords(t)
    ensures Adapter.IsSegment(t)
  {
    assert forall k :: 0 <= k < |t| ==> t[k] != '/' by {
      forall k | 0 <= k < |t|
        ensures t[k] != '/'
      {
        assert Adapter.IsWord(t[k]);
      }
    }
  }

  /** The page group and ".html" at the end of a URL. */
  lemma DigitPageExact(s: string, j: nat, page: string)
    requires page != [] && AllDigits(page)
    requires j <= |s| && s[j..] == page + ".html"
    ensures Adapter.RunLen(s, j, IsDigit) == |page|
    ensures Adapter.LastHtml(s, j, |page|) == |page|
    ensures s[j..j + |page|] == page
  {
    Adapter.SplitAt(s, j, page, ".html");
    var h := j + |page|;
    assert s[h] == s[h..][0];
    Adapter.RunOf(s, j, page, IsDigit);
    Adapter.HtmlAtEnd(s, h);
    Adapter.LastHtmlExact(s, j, |page|, |page|);
  }

  /** `DigitsPage` once the lengths of its two runs are known. */
  lemma DigitsPageAt(s: string, i: nat, chapter: string, page: string)
    requires i + |chapter| < |s| && chapter != [] && page != [] && s[i + |chapter|] == '/'
    requires Adapter.RunLen(s, i, IsDigit) == |chapter|
    requires Adapter.RunLen(s, i + |chapter| + 1, IsDigit) == |page|
    requires Adapter.LastHtml(s, i + |chapter| + 1, |page|) == |page|
    requires s[i..i + |chapter|] == chapter && s[i + |chapter| + 1..i + |chapter| + 1 + |page|] == page
    ensures DigitsPage(s, i) == Some((chapter, page))
  {
  }

  /** `<chapter>/<page>.html` from just after the "c". */
  lemma DigitsPageExact(s: string, i: nat, chapter: string, page: string)
    requires chapter != [] && AllDigits(chapter) && page != [] && AllDigits(page)
    requires i <= |s| && s[i..] == chapter + ("/" + (page + ".html"))
    ensures DigitsPage(s, i) == Some((chapter, page))
  {
    Adapter.SplitAt(s, i, chapter, "/" + (page + ".html"));
    var j := i + |chapter|;
    Adapter.SplitAt(s, j, "/", page + ".html");
    assert s[j] == s[j..][0];
    Adapter.RunOf(s, i, chapter, IsDigit);
    DigitPageExact(s, j + 1, page);
    DigitsPageAt(s, i, chapter, page);
  }

  /** `LegacyTail` once the volume run is known. */
  lemma LegacyTailAt(s: string, q: nat, r: nat, v: string, chapter: string, page: string)
    requires r == q + 2 + |v| && r <= |s| && v != []
    requires Adapter.StartsAt(s, q, "/v") && Adapter.RunLen(s, q + 2, Adapter.IsWord) == |v| && s[q + 2..r] == v
    requires Adapter.StartsAt(s, r, "/c") && DigitsPage(s, r + 2) == Some((chapter, page))
    ensures LegacyTail(s, q) == Some((v, chapter, page))
  {
  }

  /** The tail group, from just after the slug. */
  lemma LegacyTailExact(s: string, q: nat, v: string, chapter: string, page: string)
    requires IsWords(v) && chapter != [] && AllDigits(chapter) && page != [] && AllDigits(page)
    requires q <= |s| && s[q..] == "/v" + (v + ("/c" + (chapter + ("/" + (page + ".html")))))
    ensures LegacyTail(s, q) == Some((v, chapter, page))
  {
    var cp := chapter + ("/" + (page + ".html"));
    Adapter.VolumeSegment(s, q, v, "/c" + cp, Adapter.IsWord);
    var r := q + 2 + |v|;
    ChapterSegment(s, r, chapter, page);
    LegacyTailAt(s, q, r, v, chapter, page);
  }

  /** "/c", then `<chapter>/<page>.html`. */
  lemma ChapterSegment(s: string, r: nat, chapter: string, page: string)
    requires chapter != [] && AllDigits(chapter) && page != [] && AllDigits(page)
    requires r <= |s| && s[r..] == "/c" + (chapter + ("/" + (page + ".html")))
    ensures r + 2 <= |s| && Adapter.StartsAt(s, r, "/c") && DigitsPage(s, r + 2) == Some((chapter, page))
  {
    Adapter.SplitAt(s, r, "/c", chapter + ("/" + (page + ".html")));
    DigitsPageExact(s, r + 2, chapter, page);
  }

  /** Every chapter-page URL with a volume segment, a word-character volume
      and decimal chapter and page matches the legacy pattern with all its
      groups. */
  lemma LegacyMatchHref(slug: string, volume: string, chapter: string, page: string)
    requires Adapter.IsSlug(slug) && IsWords(volume)
    requires chapter != [] && AllDigits(chapter) && page != [] && AllDigits(page)
    ensures LegacyMatch(Adapter.ChapterHref(slug, Some(volume), chapter, page)) ==
      Some(Adapter.UrlMatch(slug, Some(volume), Some(chapter), Some(page)))
  {
    var s := Adapter.ChapterHref(slug, Some(volume), chapter, page);
    var rest := "/v" + (volume + ("/c" + (chapter + ("/" + (page + ".html")))));
    assert s == "http://mangafox.me/manga/" + (slug + rest);
    Adapter.HeadExact(s, slug, rest);
    LegacyTailExact(s, 25 + |slug|, volume, chapter, page);
  }

  /** A chapter-page URL without a volume segment still matches, but only
      with its slug: the legacy pattern drops chapter and page, where the
      current one reads them. */
  lemma LegacyNeedsVolume(slug: string, chapter: string, page: string)
    requires Adapter.IsSlug(slug) && Adapter.IsSegment(chapter) && Adapter.IsSegment(page)
    ensures LegacyMatch(Adapter.ChapterHref(slug, None, chapter, page)) == Some(Adapter.UrlMatch(slug, None, None, None))
    ensures Adapter.MatchUrl(Adapter.ChapterHref(slug, None, chapter, page)) ==
      Some(Adapter.UrlMatch(slug, None, Some(chapter), Some(page)))
  {
    var s := Adapter.ChapterHref(slug, None, chapter, page);
    var rest := "/c" + (chapter + ("/" + (page + ".html")));
    assert s == "http://mangafox.me/manga/" + (slug + rest);
    Adapter.HeadExact(s, slug, rest);
    var q := 25 + |slug|;
    assert s[q..][1] == 'c';
    assert !Adapter.StartsAt(s, q, "/v") by {
      assert s[q + 1] == s[q..][1];
    }
    Adapter.MatchChapterHref(slug, None, chapter, page);
  }

  // ---------------------------------------------------------------------------
  // The scraper

  /** A `MangafoxScraper` for the series at `baseUrl`. */
  datatype LegacyScraper = LegacyScraper(baseUrl: string, slug: string)

  /** `MangafoxScraper(url)`: the constructor raises unless the pattern
      matches, and keeps the slug group. */
  function NewScraper(url: string): (r: Result<LegacyScraper>)
    ensures r.Ok? <==> LegacyMatch(url).Some?
    ensures r.Err? ==> r.error == RuntimeError("URL does not match mangafox pattern")
    ensures r.Ok? ==> r.value == LegacyScraper(url, LegacyMatch(url).value.slug)
  {
    match LegacyMatch(url)
    case None => Err(RuntimeError("URL does not match mangafox pattern"))
    case Some(m) => Ok(LegacyScraper(url, m.slug))
  }

  /** The legacy scraper is built for exactly the URLs the current adapter is
      built for, with the same slug. */
  lemma NewScraperAgrees(url: string)
    ensures NewScraper(url).Ok? <==> Adapter.Mangafox(url).Ok?
    ensures NewScraper(url).Ok? ==> NewScraper(url).value.slug == Adapter.Mangafox(url).value.slug
    ensures NewScraper(url).Err? ==> NewScraper(url).error == Adapter.Mangafox(url).error
  {
    LegacyAcceptsSame(url);
  }

  /** `build_url` and `make_page` are the current adapter's. */
  function Site(sc: LegacyScraper): Adapter.MangafoxAdapter
  {
    Adapter.MangafoxAdapter(sc.baseUrl, sc.slug)
  }

  /** A regex group read as a field: None when it did not take part. */
  function GroupValue(g: Option<string>): Value
  {
    if g.None? then Null else Str(g.value)
  }

  /** `make_chapter(link)`: a link the pattern does not match, or one without
      a title span, raises AttributeError; otherwise number and volume are
      the chapter and volume groups as they are, None included. */
  function MakeChapter(link: Adapter.Link): (r: Result<ChapterV>)
    ensures r.Err? <==> LegacyMatch(link.href).None? || link.title.None?
    ensures r.Err? ==> r.error == AttributeError
    ensures r.Ok? ==> r.value.pages == [] && r.value.url == Str(link.href) && r.value.title == Show(link.title.value)
  {
    match LegacyMatch(link.href)
    case None => Err(AttributeError)
    case Some(m) =>
      if link.title.None? then Err(AttributeError)
      else Ok(ChapterV(Str(link.href), Show(link.title.value), GroupValue(m.chapter), GroupValue(m.volume), []))
  }

  /** A link of the site's form with a volume segment gives a chapter
      numbered and filed as its URL says. */
  lemma MakeChapterOfHref(slug: string, volume: string, chapter: string, page: string, title: Value)
    requires Adapter.IsSlug(slug) && IsWords(volume)
    requires chapter != [] && AllDigits(chapter) && page != [] && AllDigits(page)
    ensures var href := Adapter.ChapterHref(slug, Some(volume), chapter, page);
      MakeChapter(Adapter.Link(href, Some(title))) == Ok(ChapterV(Str(href), Show(title), Str(chapter), Str(volume), []))
  {
    LegacyMatchHref(slug, volume, chapter, page);
  }

  /** A link without a volume segment gives a chapter with neither number
      nor volume. */
  lemma MakeChapterWithoutVolume(slug: string, chapter: string, page: string, title: Value)
    requires Adapter.IsSlug(slug) && Adapter.IsSegment(chapter) && Adapter.IsSegment(page)
    ensures var href := Adapter.ChapterHref(slug, None, chapter, page);
      MakeChapter(Adapter.Link(href, Some(title))) == Ok(ChapterV(Str(href), Show(title), Null, Null, []))
  {
    LegacyNeedsVolume(slug, chapter, page);
  }

  /** `get_meta(manga_url)`: the title is the `.string` of the h1 as it is
      (None included), then the cover source; a missing h1 raises
      AttributeError, and a cover that cannot be read raises what
      `Adapter.CoverSource` says. */
  function GetMeta(sc: LegacyScraper, fetch: string -> Result<Adapter.Html>): (r: Result<(Value, string)>)
    ensures fetch(sc.baseUrl).Err? ==> r == Err(fetch(sc.baseUrl).error)
    ensures fetch(sc.baseUrl).Ok? ==>
      var html := fetch(sc.baseUrl).value;
      (r.Ok? <==> html.h1.Some? && html.cover.Source?) &&
      (r.Ok? ==> r.value == (html.h1.value, html.cover.src)) &&
      (html.h1.None? ==> r == Err(AttributeError)) &&
      (html.h1.Some? && !html.cover.Source? ==> r == Err(Adapter.CoverSource(html.cover).error))
  {
    match fetch(sc.baseUrl)
    case Err(e) => Err(e)
    case Ok(html) =>
      if html.h1.None? then Err(AttributeError)
      else match Adapter.CoverSource(html.cover)
        case Err(e) => Err(e)
        case Ok(src) => Ok((html.h1.value, src))
  }

  /** `get_chapters(manga_url)`. */
  function GetChapters(sc: LegacyScraper, fetch: string -> Result<Adapter.Html>): Result<seq<ChapterV>>
  {
    match fetch(sc.baseUrl)
    case Err(e) => Err(e)
    case Ok(html) => MapResult(MakeChapter, html.tips)
  }

  /** `get_chapters` succeeds exactly when every "tips" link matches the
      pattern and has a title span; it then gives one chapter per link, in
      the links' order, and otherwise raises AttributeError. */
  lemma GetChaptersSpec(sc: LegacyScraper, fetch: string -> Result<Adapter.Html>)
    ensures fetch(sc.baseUrl).Err? ==> GetChapters(sc, fetch) == Err(fetch(sc.baseUrl).error)
    ensures fetch(sc.baseUrl).Ok? ==>
      var tips := fetch(sc.baseUrl).value.tips;
      (GetChapters(sc, fetch).Ok? <==>
        forall i :: 0 <= i < |tips| ==> LegacyMatch(tips[i].href).Some? && tips[i].title.Some?) &&
      (GetChapters(sc, fetch).Err? ==> GetChapters(sc, fetch).error == AttributeError)
    ensures GetChapters(sc, fetch).Ok? ==>
      var tips := fetch(sc.baseUrl).value.tips;
      var cs := GetChapters(sc, fetch).value;
      |cs| == |tips| &&
      forall i :: 0 <= i < |tips| ==>
        cs[i] == MakeChapter(tips[i]).value && cs[i].url == Str(tips[i].href) &&
        cs[i].title == Show(tips[i].title.value) && cs[i].pages == []
  {
    if fetch(sc.baseUrl).Ok? {
      var tips := fetch(sc.baseUrl).value.tips;
      if GetChapters(sc, fetch).Ok? {
        var cs := GetChapters(sc, fetch).value;
        assert forall i :: 0 <= i < |tips| ==> cs[i] == MakeChapter(tips[i]).value;
      } else {
        var i :| 0 <= i < |tips| && MakeChapter(tips[i]) == Err(GetChapters(sc, fetch).error);
      }
    }
  }

  /** `get_pages(chapter)`: without a select.m the lookup of its options
      raises AttributeError. */
  function GetPages(sc: LegacyScraper, fetch: string -> Result<Adapter.Html>, chapter: ChapterV): Result<seq<PageV>>
  {
    match fetch(Show(chapter.url))
    case Err(e) => Err(e)
    case Ok(html) =>
      if html.options.None? then Err(AttributeError)
      else
        match MapResult((o: string) => Site(sc).MakePage(o, chapter), html.options.value)
        case Err(e) => Err(e)
        case Ok(ps) => Ok(Adapter.KeepNonZero(ps))
  }

  /** The legacy `get_pages` is the current one but for the page without a
      select.m: one page per option, in option order, numbered from the
      option, without an image URL, and page 0 left out. */
  lemma GetPagesAgrees(sc: LegacyScraper, fetch: string -> Result<Adapter.Html>, chapter: ChapterV)
    ensures fetch(Show(chapter.url)).Ok? && fetch(Show(chapter.url)).value.options.None? ==>
      GetPages(sc, fetch, chapter) == Err(AttributeError)
    ensures !(fetch(Show(chapter.url)).Ok? && fetch(Show(chapter.url)).value.options.None?) ==>
      GetPages(sc, fetch, chapter) == Site(sc).GetPages(fetch, chapter)
    ensures GetPages(sc, fetch, chapter).Ok? ==>
      forall p :: p in GetPages(sc, fetch, chapter).value ==> p.imageUrl == Null && p.number != Int(0)
  {
    Adapter.GetPagesSpec(Site(sc), fetch, chapter);
    if GetPages(sc, fetch, chapter).Ok? {
      var options := fetch(Show(chapter.url)).value.options.value;
      var all := MapResult((o: string) => Site(sc).MakePage(o, chapter), options).value;
      forall p | p in GetPages(sc, fetch, chapter).value
        ensures p.imageUrl == Null && p.number != Int(0)
      {
        var i :| 0 <= i < |all| && all[i] == p;
        assert all[i] == Site(sc).MakePage(options[i], chapter).value;
      }
    }
  }

  /** `get_image(page)`: the source of img#image; a page without one makes
      the subscript raise TypeError, and an image without `src` KeyError. */
  function GetImage(sc: LegacyScraper, fetch: string -> Result<Adapter.Html>, page: PageV): (r: Result<string>)
    ensures r.Ok? <==> Site(sc).GetImage(fetch, page).Ok?
    ensures r.Ok? ==> r == Site(sc).GetImage(fetch, page)
    ensures fetch(Show(page.url)).Ok? && fetch(Show(page.url)).value.image.NoImage? ==> r == Err(TypeError)
    ensures fetch(Show(page.url)).Ok? && fetch(Show(page.url)).value.image.NoImageSource? ==> r == Err(KeyError("src"))
    ensures fetch(Show(page.url)).Err? ==> r == Err(fetch(Show(page.url)).error)
  {
    match fetch(Show(page.url))
    case Err(e) => Err(e)
    case Ok(html) =>
      match html.image
      case NoImage => Err(TypeError)
      case NoImageSource => Err(KeyError("src"))
      case ImageSource(src) => Ok(src)
  }

  // ---------------------------------------------------------------------------
  // run: the crawl into a dict of volumes

  /** A chapter with the pages `get_pages` gives it appended. */
  function WithPages(sc: LegacyScraper, fetch: string -> Result<Adapter.Html>, c: ChapterV): Result<ChapterV>
  {
    match GetPages(sc, fetch, c)
    case Err(e) => Err(e)
    case Ok(ps) => Ok(c.(pages := c.pages + ps))
  }

  /** The chapters of the loop with their pages, or the first error. */
  function CrawlAll(sc: LegacyScraper, fetch: string -> Result<Adapter.Html>, cs: seq<ChapterV>): Result<seq<ChapterV>>
  {
    if cs == [] then Ok([])
    else match CrawlAll(sc, fetch, cs[..|cs| - 1])
      case Err(e) => Err(e)
      case Ok(done) =>
        match WithPages(sc, fetch, cs[|cs| - 1])
        case Err(e) => Err(e)
        case Ok(c) => Ok(done + [c])
  }

  /** One step of the crawl, on the results of `WithPages` for each chapter:
      a prefix that succeeded chapter by chapter, extended by the last
      chapter's result, succeeds chapter by chapter. */
  lemma CrawlStep(rs: seq<Result<ChapterV>>, w: Result<seq<ChapterV>>, r: Result<seq<ChapterV>>)
    requires |rs| > 0
    requires w.Ok? <==> forall i :: 0 <= i < |rs| - 1 ==> rs[i].Ok?
    requires w.Ok? ==> |w.value| == |rs| - 1 && forall i :: 0 <= i < |rs| - 1 ==> w.value[i] == rs[i].value
    requires w.Err? ==> r == Err(w.error)
    requires w.Ok? && rs[|rs| - 1].Err? ==> r == Err(rs[|rs| - 1].error)
    requires w.Ok? && rs[|rs| - 1].Ok? ==> r == Ok(w.value + [rs[|rs| - 1].value])
    ensures r.Ok? <==> forall i :: 0 <= i < |rs| ==> rs[i].Ok?
    ensures r.Ok? ==> |r.value| == |rs| && forall i :: 0 <= i < |rs| ==> r.value[i] == rs[i].value
  {
    if w.Ok? && rs[|rs| - 1].Ok? {
      assert forall i :: 0 <= i < |rs| - 1 ==> r.value[i] == w.value[i];
    }
  }

  /** A crawl that succeeds gives every chapter its pages, in order. */
  lemma {:induction false} CrawlAllOk(sc: LegacyScraper, fetch: string -> Result<Adapter.Html>, cs: seq<ChapterV>)
    ensures CrawlAll(sc, fetch, cs).Ok? <==> forall i :: 0 <= i < |cs| ==> WithPages(sc, fetch, cs[i]).Ok?
    ensures CrawlAll(sc, fetch, cs).Ok? ==>
      var done := CrawlAll(sc, fetch, cs).value;
      |done| == |cs| && forall i :: 0 <= i < |cs| ==> done[i] == WithPages(sc, fetch, cs[i]).value
  {
    if cs != [] {
      var pre := cs[..|cs| - 1];
      CrawlAllOk(sc, fetch, pre);
      var rs := seq(|cs|, i requires 0 <= i < |cs| => WithPages(sc, fetch, cs[i]));
      assert forall i :: 0 <= i < |cs| ==> rs[i] == WithPages(sc, fetch, cs[i]);
      assert forall i :: 0 <= i < |pre| ==> rs[i] == WithPages(sc, fetch, pre[i]);
      CrawlStep(rs, CrawlAll(sc, fetch, pre), CrawlAll(sc, fetch, cs));
      assert CrawlAll(sc, fetch, cs).Ok? <==> forall i :: 0 <= i < |rs| ==> rs[i].Ok?;
    }
  }

  /** A crawl that fails fails at the first chapter whose pages cannot be read. */
  lemma {:induction false} CrawlAllErr(sc: LegacyScraper, fetch: string -> Result<Adapter.Html>, cs: seq<ChapterV>)
    requires CrawlAll(sc, fetch, cs).Err?
    ensures exists i :: (0 <= i < |cs| && WithPages(sc, fetch, cs[i]) == Err(CrawlAll(sc, fetch, cs).error) &&
                         forall j :: 0 <= j < i ==> WithPages(sc, fetch, cs[j]).Ok?)
  {
    var pre := cs[..|cs| - 1];
    CrawlAllOk(sc, fetch, pre);
    assert forall i :: 0 <= i < |pre| ==> pre[i] == cs[i];
    if CrawlAll(sc, fetch, pre).Err? {
      CrawlAllErr(sc, fetch, pre);
      var i :| 0 <= i < |pre| && WithPages(sc, fetch, pre[i]) == Err(CrawlAll(sc, fetch, pre).error) &&
        forall j :: 0 <= j < i ==> WithPages(sc, fetch, pre[j]).Ok?;
      assert WithPages(sc, fetch, cs[i]) == Err(CrawlAll(sc, fetch, cs).error);
    } else {
      assert WithPages(sc, fetch, cs[|cs| - 1]) == Err(CrawlAll(sc, fetch, cs).error);
    }
  }

  lemma {:induction false} CrawlAllStops(sc: LegacyScraper, fetch: string -> Result<Adapter.Html>, cs: seq<ChapterV>, n: nat)
    requires n <= |cs| && CrawlAll(sc, fetch, cs[..n]).Err?
    ensures CrawlAll(sc, fetch, cs) == CrawlAll(sc, fetch, cs[..n])
    decreases |cs| - n
  {
    if n < |cs| {
      TakeSnoc(cs, n);
      CrawlAllStops(sc, fetch, cs, n + 1);
    } else {
      assert cs[..n] == cs;
    }
  }

  /** The dict of volumes the crawl builds. */
  function CrawlVolumes(sc: LegacyScraper, fetch: string -> Result<Adapter.Html>): Result<Volumes>
  {
    match GetChapters(sc, fetch)
    case Err(e) => Err(e)
    case Ok(cs) =>
      match CrawlAll(sc, fetch, cs)
      case Err(e) => Err(e)
      case Ok(done) => Ok(Scraper.GroupAll(done))
  }

  /** The chapters `get_chapters` lists have no pages yet. */
  lemma ChaptersFresh(sc: LegacyScraper, fetch: string -> Result<Adapter.Html>, cs: seq<ChapterV>)
    requires GetChapters(sc, fetch) == Ok(cs)
    ensures forall i :: 0 <= i < |cs| ==> cs[i].pages == []
  {
    var tips := fetch(sc.baseUrl).value.tips;
    forall i | 0 <= i < |cs|
      ensures cs[i].pages == []
    {
      assert cs[i] == MakeChapter(tips[i]).value;
    }
  }

  /** A successful crawl groups the chapters by volume, creating a volume the
      first time its number is seen, and each chapter holds the pages of
      `get_pages` in their order, none with an image URL yet. */
  lemma CrawlVolumesShape(sc: LegacyScraper, fetch: string -> Result<Adapter.Html>, cs: seq<ChapterV>, done: seq<ChapterV>)
    requires GetChapters(sc, fetch) == Ok(cs) && CrawlAll(sc, fetch, cs) == Ok(done)
    ensures CrawlVolumes(sc, fetch) == Ok(Scraper.GroupAll(done))
    ensures Scraper.GroupedFrom(Scraper.GroupAll(done), done)
    ensures |done| == |cs|
    ensures forall i :: 0 <= i < |cs| ==>
      GetPages(sc, fetch, cs[i]) == Ok(done[i].pages) && done[i] == cs[i].(pages := done[i].pages) &&
      forall p :: p in done[i].pages ==> p.imageUrl == Null
  {
    CrawlAllOk(sc, fetch, cs);
    ChaptersFresh(sc, fetch, cs);
    Scraper.GroupAllShape(done);
    forall i | 0 <= i < |cs|
      ensures GetPages(sc, fetch, cs[i]) == Ok(done[i].pages) && done[i] == cs[i].(pages := done[i].pages)
      ensures forall p :: p in done[i].pages ==> p.imageUrl == Null
    {
      CrawledChapter(sc, fetch, cs[i], done[i]);
    }
  }

  lemma CrawledChapter(sc: LegacyScraper, fetch: string -> Result<Adapter.Html>, c: ChapterV, d: ChapterV)
    requires WithPages(sc, fetch, c) == Ok(d) && c.pages == []
    ensures GetPages(sc, fetch, c) == Ok(d.pages) && d == c.(pages := d.pages)
    ensures forall p :: p in d.pages ==> p.imageUrl == Null
  {
    assert c.pages + GetPages(sc, fetch, c).value == GetPages(sc, fetch, c).value;
    GetPagesAgrees(sc, fetch, c);
  }

  // ---------------------------------------------------------------------------
  // build_chapter: one EPUB chapter and its images

  /** An image item of the book. */
  datatype Image = Image(fileName: string, content: Bytes)

  /** An HTML item of the book: its title, file name, markup and images. */
  datatype BookChapter = BookChapter(title: string, fileName: string, content: string, images: seq<Image>)

  /** What `write_epub` stores: identifier, title and the chapters of the
      spine in order (the navigation item comes first in every book). */
  datatype Book = Book(id: string, title: string, chapters: seq<BookChapter>)

  /** What `run` talks to: the scraper, what `fetch_html` returns for a URL,
      the hex SHA-1 of a URL, and the web server. */
  datatype Env = Env(scraper: LegacyScraper, fetch: string -> Result<Adapter.Html>, sha1: string -> string, web: string -> Response)

  /** `'ch{}-p{}.jpg'.format(chapter.number, page.number)`: no padding. */
  function ImageName(chapter: Value, page: Value): string
  {
    "ch" + Show(chapter) + "-p" + Show(page) + ".jpg"
  }

  /** `'chap-%s.html' % chapter.number`. */
  function ChapterFile(number: Value): string
  {
    "chap-" + Show(number) + ".html"
  }

  function ImageTag(name: string): string
  {
    "<img src=\"" + name + "\" />"
  }

  function Tags(images: seq<Image>): (r: seq<string>)
    ensures |r| == |images| && forall i {:trigger r[i]} :: 0 <= i < |images| ==> r[i] == ImageTag(images[i].fileName)
  {
    seq(|images|, i requires 0 <= i < |images| => ImageTag(images[i].fileName))
  }

  lemma TagsSnoc(images: seq<Image>, image: Image)
    ensures Tags(images + [image]) == Tags(images) + [ImageTag(image.fileName)]
  {
    assert forall i :: 0 <= i < |images| ==> (images + [image])[i] == images[i];
  }

  /** The URL an image is fetched from. */
  function ImageUrl(p: PageV): string
  {
    Show(p.imageUrl)
  }

  /** One pass of the page loop: a page without an image URL gets the one
      `get_image` finds, stored on the page; then the image is fetched. */
  function PageStep(env: Env, number: Value, p: PageV, cache: CacheState): (Result<(PageV, Image)>, CacheState)
  {
    var url := if p.imageUrl.Null? then GetImage(env.scraper, env.fetch, p) else Ok(ImageUrl(p));
    if url.Err? then (Err(url.error), cache)
    else
      var p1 := if p.imageUrl.Null? then p.(imageUrl := Str(url.value)) else p;
      var fetched := FetchImageSpec(cache, url.value, CachePath(env.sha1(url.value)), env.web);
      if fetched.0.Err? then (Err(fetched.0.error), fetched.1)
      else (Ok((p1, Image(ImageName(number, p.number), fetched.0.value))), fetched.1)
  }

  /** The page loop over `ps`: the pages as updated and the images, or the
      first error, with the cache as the loop left it. */
  function PagesRun(env: Env, number: Value, ps: seq<PageV>, cache: CacheState): (Result<(seq<PageV>, seq<Image>)>, CacheState)
  {
    if ps == [] then (Ok(([], [])), cache)
    else
      var pre := PagesRun(env, number, ps[..|ps| - 1], cache);
      if pre.0.Err? then pre
      else
        var step := PageStep(env, number, ps[|ps| - 1], pre.1);
        if step.0.Err? then (Err(step.0.error), step.1)
        else (Ok((pre.0.value.0 + [step.0.value.0], pre.0.value.1 + [step.0.value.1])), step.1)
  }

  /** What the loop leaves for one page `p`: the page `p1` with its image URL
      resolved (and set, if it had none) and nothing else changed, and the
      image named after the chapter and page numbers, holding the bytes of
      the cache file of that URL. */
  predicate PageBuilt(env: Env, number: Value, p: PageV, p1: PageV, img: Image, files: map<string, Bytes>)
  {
    p1 == p.(imageUrl := p1.imageUrl) && !p1.imageUrl.Null? &&
    (p.imageUrl.Null? ==> p1.imageUrl.Str? && GetImage(env.scraper, env.fetch, p) == Ok(p1.imageUrl.s)) &&
    (!p.imageUrl.Null? ==> p1 == p) &&
    img.fileName == ImageName(number, p.number) &&
    CachePath(env.sha1(ImageUrl(p1))) in files && files[CachePath(env.sha1(ImageUrl(p1)))] == img.content
  }

  lemma PageStepShape(env: Env, number: Value, p: PageV, cache: CacheState)
    ensures Format.Grows(cache.files, PageStep(env, number, p, cache).1.files)
    ensures PageStep(env, number, p, cache).0.Ok? ==>
      var (p1, img) := PageStep(env, number, p, cache).0.value;
      PageBuilt(env, number, p, p1, img, PageStep(env, number, p, cache).1.files)
  {
    var url := if p.imageUrl.Null? then GetImage(env.scraper, env.fetch, p) else Ok(ImageUrl(p));
    if url.Ok? {
      FetchImageGrows(cache, url.value, CachePath(env.sha1(url.value)), env.web);
    }
  }

  lemma PageBuiltStable(env: Env, number: Value, p: PageV, p1: PageV, img: Image, f1: map<string, Bytes>, f2: map<string, Bytes>)
    requires PageBuilt(env, number, p, p1, img, f1) && Format.Grows(f1, f2)
    ensures PageBuilt(env, number, p, p1, img, f2)
  {
  }

  predicate PagesBuilt(env: Env, number: Value, ps: seq<PageV>, pages: seq<PageV>, images: seq<Image>, files: map<string, Bytes>)
  {
    |pages| == |ps| && |images| == |ps| &&
    forall i :: 0 <= i < |ps| ==> PageBuilt(env, number, ps[i], pages[i], images[i], files)
  }

  lemma PagesBuiltSnoc(env: Env, number: Value, ps: seq<PageV>, pages: seq<PageV>, images: seq<Image>,
                       p: PageV, p1: PageV, img: Image, f1: map<string, Bytes>, f2: map<string, Bytes>)
    requires PagesBuilt(env, number, ps, pages, images, f1) && Format.Grows(f1, f2)
    requires PageBuilt(env, number, p, p1, img, f2)
    ensures PagesBuilt(env, number, ps + [p], pages + [p1], images + [img], f2)
  {
    forall i | 0 <= i < |ps|
      ensures PageBuilt(env, number, ps[i], pages[i], images[i], f2)
    {
      PageBuiltStable(env, number, ps[i], pages[i], images[i], f1, f2);
    }
  }

  /** The page loop keeps the stored order: on success page `i` and image `i`
      come from page `i` of the chapter. */
  lemma {:induction false} PagesRunShape(env: Env, number: Value, ps: seq<PageV>, cache: CacheState)
    ensures Format.Grows(cache.files, PagesRun(env, number, ps, cache).1.files)
    ensures PagesRun(env, number, ps, cache).0.Ok? ==>
      var (pages, images) := PagesRun(env, number, ps, cache).0.value;
      PagesBuilt(env, number, ps, pages, images, PagesRun(env, number, ps, cache).1.files)
  {
    if ps != [] {
      var pre := ps[..|ps| - 1];
      var r := PagesRun(env, number, pre, cache);
      PagesRunShape(env, number, pre, cache);
      if r.0.Ok? {
        var step := PageStep(env, number, ps[|ps| - 1], r.1);
        PageStepShape(env, number, ps[|ps| - 1], r.1);
        if step.0.Ok? {
          SplitLast(ps);
          PagesBuiltSnoc(env, number, pre, r.0.value.0, r.0.value.1, ps[|ps| - 1], step.0.value.0, step.0.value.1, r.1.files, step.1.files);
        }
      }
    }
  }

  /** Once the loop has raised, the rest of the pages change nothing. */
  lemma {:induction false} PagesRunStops(env: Env, number: Value, ps: seq<PageV>, n: nat, cache: CacheState)
    requires n <= |ps| && PagesRun(env, number, ps[..n], cache).0.Err?
    ensures PagesRun(env, number, ps, cache) == PagesRun(env, number, ps[..n], cache)
    decreases |ps| - n
  {
    if n < |ps| {
      TakeSnoc(ps, n);
      PagesRunStops(env, number, ps, n + 1, cache);
    } else {
      assert ps[..n] == ps;
    }
  }

  /** `build_chapter(chapter)`: the EPUB chapter, and the chapter with its
      pages updated. */
  function BuildChapterSpec(env: Env, c: ChapterV, cache: CacheState): (Result<(BookChapter, ChapterV)>, CacheState)
  {
    var run := PagesRun(env, c.number, c.pages, cache);
    if run.0.Err? then (Err(run.0.error), run.1)
    else
      var (pages, images) := run.0.value;
      (Ok((BookChapter(c.title, ChapterFile(c.number), Join("\n", Tags(images)), images), c.(pages := pages))), run.1)
  }

  /** The book chapter made from `c`: its title, "chap-<number>.html", one
      image per page in the stored order, named "ch<chapter>-p<page>.jpg". */
  predicate ChapterMade(c: ChapterV, b: BookChapter)
  {
    b.title == c.title && b.fileName == ChapterFile(c.number) && |b.images| == |c.pages| &&
    b.content == Join("\n", Tags(b.images)) &&
    forall j :: 0 <= j < |c.pages| ==> b.images[j].fileName == ImageName(c.number, c.pages[j].number)
  }

  /** The chapter as the page loop leaves it: the same chapter and pages but
      for the image URLs. */
  predicate SameShape(c: ChapterV, d: ChapterV)
  {
    d == c.(pages := d.pages) && |d.pages| == |c.pages| &&
    forall j :: 0 <= j < |c.pages| ==> d.pages[j] == c.pages[j].(imageUrl := d.pages[j].imageUrl)
  }

  predicate Resolved(c: ChapterV)
  {
    forall j :: 0 <= j < |c.pages| ==> !c.pages[j].imageUrl.Null?
  }

  /** A built chapter keeps its pages in stored order with unpadded names,
      and leaves every page of the chapter with an image URL, the one it had
      or the one `get_image` found, its image being the cached file of that
      URL. */
  lemma BuildChapterShape(env: Env, c: ChapterV, cache: CacheState)
    ensures Format.Grows(cache.files, BuildChapterSpec(env, c, cache).1.files)
    ensures BuildChapterSpec(env, c, cache).0.Ok? ==>
      var (b, d) := BuildChapterSpec(env, c, cache).0.value;
      ChapterMade(c, b) && SameShape(c, d) && Resolved(d) &&
      PagesBuilt(env, c.number, c.pages, d.pages, b.images, BuildChapterSpec(env, c, cache).1.files)
  {
    PagesRunShape(env, c.number, c.pages, cache);
  }

  /** One pass of the loop over the pages of `build_chapter`. */
  method BuildPage(env: Env, number: Value, p: PageV, cache: Cache) returns (r: Result<(PageV, Image)>)
    modifies cache
    ensures (r, cache.State()) == PageStep(env, number, p, old(cache.State()))
  {
    var page := p;
    var fileName := ImageName(number, page.number);
    if page.imageUrl.Null? {
      var found := GetImage(env.scraper, env.fetch, page);
      if found.Err? {
        return Err(found.error);
      }
      page := page.(imageUrl := Str(found.value));
    }
    var content := FetchImage(cache, ImageUrl(page), env.sha1, env.web);
    if content.Err? {
      return Err(content.error);
    }
    return Ok((page, Image(fileName, content.value)));
  }

  /** `build_chapter(chapter)`: the loop over the stored pages. */
  method BuildChapter(env: Env, c: ChapterV, cache: Cache) returns (r: Result<(BookChapter, ChapterV)>)
    modifies cache
    ensures (r, cache.State()) == BuildChapterSpec(env, c, old(cache.State()))
  {
    ghost var cache0 := cache.State();
    var chapHtml: seq<string> := [];
    var images: seq<Image> := [];
    var pages: seq<PageV> := [];
    for n := 0 to |c.pages|
      invariant PagesRun(env, c.number, c.pages[..n], cache0) == (Ok((pages, images)), cache.State())
      invariant chapHtml == Tags(images)
    {
      TakeSnoc(c.pages, n);
      var step := BuildPage(env, c.number, c.pages[n], cache);
      if step.Err? {
        PagesRunStops(env, c.number, c.pages, n + 1, cache0);
        return Err(step.error);
      }
      var (page, image) := step.value;
      TagsSnoc(images, image);
      chapHtml := chapHtml + [ImageTag(image.fileName)];
      images := images + [image];
      pages := pages + [page];
    }
    assert c.pages[..|c.pages|] == c.pages;
    return Ok((BookChapter(c.title, ChapterFile(c.number), Join("\n", chapHtml), images), c.(pages := pages)));
  }

  // ---------------------------------------------------------------------------
  // build_volume: one EPUB per volume

  /** The chapter at position `i` replaced by `d`; nothing changes when there
      is no such position. */
  function SetChapter(cs: seq<ChapterV>, i: int, d: ChapterV): (r: seq<ChapterV>)
    ensures |r| == |cs| && forall j {:trigger r[j]} :: 0 <= j < |cs| ==> r[j] == (if j == i then d else cs[j])
  {
    if 0 <= i < |cs| then cs[i := d] else cs
  }

  /** The chapter loop of `build_volume` over the positions `cis`: each
      chapter is read as the loop left the list (its pages are updated in
      place), giving the updated chapters and the spine, or the first error. */
  function ChaptersRun(env: Env, cis: seq<int>, cs: seq<ChapterV>, cache: CacheState): (Result<(seq<ChapterV>, seq<BookChapter>)>, CacheState)
  {
    if cis == [] then (Ok((cs, [])), cache)
    else
      var pre := ChaptersRun(env, cis[..|cis| - 1], cs, cache);
      if pre.0.Err? then pre
      else
        var (cs1, spine) := pre.0.value;
        var ci := cis[|cis| - 1];
        var built := BuildChapterSpec(env, Format.ChapterAt(cs1)(ci), pre.1);
        if built.0.Err? then (Err(built.0.error), built.1)
        else (Ok((SetChapter(cs1, ci, built.0.value.1), spine + [built.0.value.0])), built.1)
  }

  /** What the chapter loop leaves after visiting the positions `cis` of
      `cs`: spine item `k` is made from chapter `cis[k]`, every visited chapter
      has all its image URLs, and the others are untouched. */
  predicate ChaptersBuilt(cis: seq<int>, cs: seq<ChapterV>, cs1: seq<ChapterV>, spine: seq<BookChapter>)
  {
    |cs1| == |cs| && |spine| == |cis| &&
    (forall k :: 0 <= k < |cis| ==>
      0 <= cis[k] < |cs| && ChapterMade(cs[cis[k]], spine[k]) && SameShape(cs[cis[k]], cs1[cis[k]]) && Resolved(cs1[cis[k]])) &&
    forall q :: 0 <= q < |cs| && q !in cis ==> cs1[q] == cs[q]
  }

  lemma ChaptersBuiltSnoc(cis: seq<int>, cs: seq<ChapterV>, cs1: seq<ChapterV>, spine: seq<BookChapter>,
                          ci: int, b: BookChapter, d: ChapterV)
    requires ChaptersBuilt(cis, cs, cs1, spine) && 0 <= ci < |cs| && ci !in cis
    requires ChapterMade(cs1[ci], b) && SameShape(cs1[ci], d) && Resolved(d)
    ensures ChaptersBuilt(cis + [ci], cs, SetChapter(cs1, ci, d), spine + [b])
  {
    var cs2 := SetChapter(cs1, ci, d);
    var cis2 := cis + [ci];
    forall k | 0 <= k < |cis2|
      ensures 0 <= cis2[k] < |cs| && ChapterMade(cs[cis2[k]], (spine + [b])[k])
      ensures SameShape(cs[cis2[k]], cs2[cis2[k]]) && Resolved(cs2[cis2[k]])
    {
      if k < |cis| {
        assert cis2[k] == cis[k] && cis[k] != ci;
      }
    }
  }

  /** The positions `cis` name distinct chapters of a list of `n`. */
  predicate Positions(cis: seq<int>, n: int)
  {
    (forall k :: 0 <= k < |cis| ==> 0 <= cis[k] < n) && forall i, j :: 0 <= i < j < |cis| ==> cis[i] != cis[j]
  }

  /** One more chapter, at a position not yet visited. */
  lemma ChapterStepBuilt(env: Env, cis: seq<int>, ci: int, cs: seq<ChapterV>, cs1: seq<ChapterV>, spine: seq<BookChapter>, cache: CacheState)
    requires ChaptersBuilt(cis, cs, cs1, spine) && 0 <= ci < |cs| && ci !in cis
    ensures Format.Grows(cache.files, BuildChapterSpec(env, cs1[ci], cache).1.files)
    ensures BuildChapterSpec(env, cs1[ci], cache).0.Ok? ==>
      var (b, d) := BuildChapterSpec(env, cs1[ci], cache).0.value;
      ChaptersBuilt(cis + [ci], cs, SetChapter(cs1, ci, d), spine + [b])
  {
    BuildChapterShape(env, cs1[ci], cache);
    var built := BuildChapterSpec(env, cs1[ci], cache);
    if built.0.Ok? {
      ChaptersBuiltSnoc(cis, cs, cs1, spine, ci, built.0.value.0, built.0.value.1);
    }
  }

  /** Over distinct positions, the chapter loop builds each chapter once,
      from the chapter as stored, and only adds to the cache. */
  lemma {:induction false} ChaptersRunShape(env: Env, cis: seq<int>, cs: seq<ChapterV>, cache: CacheState)
    requires Positions(cis, |cs|)
    ensures Format.Grows(cache.files, ChaptersRun(env, cis, cs, cache).1.files)
    ensures ChaptersRun(env, cis, cs, cache).0.Ok? ==>
      ChaptersBuilt(cis, cs, ChaptersRun(env, cis, cs, cache).0.value.0, ChaptersRun(env, cis, cs, cache).0.value.1)
  {
    if cis != [] {
      var pre := cis[..|cis| - 1];
      var ci := cis[|cis| - 1];
      SplitLast(cis);
      assert Positions(pre, |cs|) && ci !in pre by {
        forall k | 0 <= k < |pre|
          ensures pre[k] == cis[k] && pre[k] != ci
        {
        }
      }
      ChaptersRunShape(env, pre, cs, cache);
      var r := ChaptersRun(env, pre, cs, cache);
      if r.0.Ok? {
        ChapterStepBuilt(env, pre, ci, cs, r.0.value.0, r.0.value.1, r.1);
      }
    }
  }

  /** Once the chapter loop has raised, the rest of the chapters change nothing. */
  lemma {:induction false} ChaptersRunStops(env: Env, cis: seq<int>, n: nat, cs: seq<ChapterV>, cache: CacheState)
    requires n <= |cis| && ChaptersRun(env, cis[..n], cs, cache).0.Err?
    ensures ChaptersRun(env, cis, cs, cache) == ChaptersRun(env, cis[..n], cs, cache)
    decreases |cis| - n
  {
    if n < |cis| {
      TakeSnoc(cis, n);
      ChaptersRunStops(env, cis, n + 1, cs, cache);
    } else {
      assert cis[..n] == cis;
    }
  }

  /** `'%s-v%s' % (self.slug, volume.number)`. */
  function BookId(slug: string, number: Value): string
  {
    slug + "-v" + Show(number)
  }

  /** `"Volume {} - {}".format(volume.number, self.title)`. */
  function BookTitle(number: Value, title: Value): string
  {
    "Volume " + Show(number) + " - " + Show(title)
  }

  /** The file `write_epub` writes: the identifier and ".epub". */
  function BookFile(slug: string, number: Value): string
  {
    BookId(slug, number) + ".epub"
  }

  /** The world `run` acts on: the pickled dicts of volumes by file name, the
      EPUB files written, and the image cache. */
  datatype LegacyState = LegacyState(checkpoints: map<string, Volumes>, books: map<string, Book>, cache: CacheState)

  /** `build_volume(volume)`: the chapters in ascending number order (an
      incomparable pair raises TypeError), each built through
      `build_chapter`, then the book written. The volume comes back with its
      pages as the loop updated them in place. Any exception escapes before
      anything is written. */
  function BuildVolumeSpec(env: Env, title: Value, v: VolumeV, st: LegacyState): (Result<VolumeV>, LegacyState)
  {
    match Format.ChapterOrder(v.chapters)
    case Err(e) => (Err(e), st)
    case Ok(cis) =>
      var run := ChaptersRun(env, cis, v.chapters, st.cache);
      if run.0.Err? then (Err(run.0.error), st.(cache := run.1))
      else
        var (cs1, spine) := run.0.value;
        var id := BookId(env.scraper.slug, v.number);
        var book := Book(id, BookTitle(v.number, title), spine);
        (Ok(v.(chapters := cs1)), st.(books := st.books[BookFile(env.scraper.slug, v.number) := book], cache := run.1))
  }

  /** Every chapter of `v1` is the chapter of `v` at the same place, with all
      its image URLs. */
  predicate VolumeResolved(v: VolumeV, v1: VolumeV)
  {
    v1.number == v.number && |v1.chapters| == |v.chapters| &&
    forall i :: 0 <= i < |v.chapters| ==> SameShape(v.chapters[i], v1.chapters[i]) && Resolved(v1.chapters[i])
  }

  /** A volume whose chapters cannot be sorted raises TypeError before
      anything is done; any failure leaves the books and the checkpoints as
      they were, and the cache only grows. */
  lemma BuildVolumeFails(env: Env, title: Value, v: VolumeV, st: LegacyState)
    ensures SortBy(v.chapters, Format.ChapterNumber).Err? ==> BuildVolumeSpec(env, title, v, st) == (Err(TypeError), st)
    ensures BuildVolumeSpec(env, title, v, st).1.checkpoints == st.checkpoints
    ensures Format.Grows(st.cache.files, BuildVolumeSpec(env, title, v, st).1.cache.files)
    ensures BuildVolumeSpec(env, title, v, st).0.Err? ==> BuildVolumeSpec(env, title, v, st).1.books == st.books
  {
    Format.ChapterOrderSorts(v.chapters);
    var order := Format.ChapterOrder(v.chapters);
    if order.Ok? {
      var cis := order.value;
      forall i, j | 0 <= i < j < |cis|
        ensures cis[i] != cis[j]
      {
        Scraper.OrderDistinct(cis, |v.chapters|, i, j);
      }
      ChaptersRunShape(env, cis, v.chapters, st.cache);
    }
  }

  /** The chapter loop over the chapters in sorted order visits every
      chapter once: the spine follows `sorted`, and every chapter is left
      with all its image URLs. */
  lemma SortedRunShape(env: Env, cs: seq<ChapterV>, sorted: seq<ChapterV>, cis: seq<int>, cache: CacheState,
                       cs1: seq<ChapterV>, spine: seq<BookChapter>, cache1: CacheState)
    requires SortBy(cs, Format.ChapterNumber) == Ok(sorted) && Format.ChapterOrder(cs) == Ok(cis)
    requires ChaptersRun(env, cis, cs, cache) == (Ok((cs1, spine)), cache1)
    ensures |cs1| == |cs| && |spine| == |sorted| == |cs|
    ensures forall q :: 0 <= q < |cs| ==> SameShape(cs[q], cs1[q]) && Resolved(cs1[q])
    ensures forall k :: 0 <= k < |cs| ==> ChapterMade(sorted[k], spine[k])
  {
    Format.ChapterOrderSorts(cs);
    forall i, j | 0 <= i < j < |cis|
      ensures cis[i] != cis[j]
    {
      Scraper.OrderDistinct(cis, |cs|, i, j);
    }
    ChaptersRunShape(env, cis, cs, cache);
    forall q | 0 <= q < |cs|
      ensures SameShape(cs[q], cs1[q]) && Resolved(cs1[q])
    {
      Format.OrderCovers(cis, |cs|, q);
    }
    forall k | 0 <= k < |cs|
      ensures ChapterMade(sorted[k], spine[k])
    {
      assert sorted[k] == Format.ChapterAt(cs)(cis[k]);
    }
  }

  /** A volume that builds writes one book, `<slug>-v<number>.epub`, whose
      spine holds the chapters in ascending number order, exactly as
      `sorted` orders them, each made from that chapter's pages in stored
      order; and the volume keeps its chapters in stored order, every page
      of every chapter now with an image URL. */
  lemma BuildVolumeShape(env: Env, title: Value, v: VolumeV, st: LegacyState, v1: VolumeV, st1: LegacyState, sorted: seq<ChapterV>)
    requires BuildVolumeSpec(env, title, v, st) == (Ok(v1), st1)
    requires SortBy(v.chapters, Format.ChapterNumber) == Ok(sorted)
    ensures VolumeResolved(v, v1)
    ensures var file := BookFile(env.scraper.slug, v.number);
      file in st1.books && st1.books == st.books[file := st1.books[file]] &&
      st1.books[file].id == BookId(env.scraper.slug, v.number) &&
      st1.books[file].title == BookTitle(v.number, title) &&
      |st1.books[file].chapters| == |sorted| &&
      forall k :: 0 <= k < |sorted| ==> ChapterMade(sorted[k], st1.books[file].chapters[k])
  {
    var cis := Format.ChapterOrder(v.chapters).value;
    var run := ChaptersRun(env, cis, v.chapters, st.cache);
    SortedRunShape(env, v.chapters, sorted, cis, st.cache, run.0.value.0, run.0.value.1, run.1);
  }

  /** A chapter whose pages all have image URLs is built without asking
      the site for any page: what the scraper and `fetch_html` would answer
      makes no difference. */
  lemma {:induction false} PagesRunOffline(env: Env, env2: Env, number: Value, ps: seq<PageV>, cache: CacheState)
    requires env2.sha1 == env.sha1 && env2.web == env.web
    requires forall i :: 0 <= i < |ps| ==> !ps[i].imageUrl.Null?
    ensures PagesRun(env, number, ps, cache) == PagesRun(env2, number, ps, cache)
  {
    if ps != [] {
      var pre := ps[..|ps| - 1];
      assert forall i :: 0 <= i < |pre| ==> pre[i] == ps[i];
      PagesRunOffline(env, env2, number, pre, cache);
    }
  }

  lemma BuildChapterOffline(env: Env, env2: Env, c: ChapterV, cache: CacheState)
    requires env2.sha1 == env.sha1 && env2.web == env.web && Resolved(c)
    ensures BuildChapterSpec(env, c, cache) == BuildChapterSpec(env2, c, cache)
  {
    PagesRunOffline(env, env2, c.number, c.pages, cache);
  }

  // ---------------------------------------------------------------------------
  // run: the build loop over the volumes and the checkpoint

  /** `self.slug + '.cache'`, the file the dict of volumes is pickled to. */
  function CacheName(slug: string): string
  {
    slug + ".cache"
  }

  /** The volume at position `pos` of the dict replaced by `v`, under its key. */
  function SetVolume(vs: Volumes, pos: int, v: VolumeV): (r: Volumes)
    ensures |r| == |vs| && forall q {:trigger r[q]} :: 0 <= q < |vs| ==> r[q] == (if q == pos then (vs[q].0, v) else vs[q])
  {
    if 0 <= pos < |vs| then vs[pos := (vs[pos].0, v)] else vs
  }

  /** The loop of `run` over the volumes at positions `ps`: each volume is
      built as the loop left the dict, and after each the whole dict, with
      the pages updated in place, is pickled again. The first exception
      ends the loop. */
  function VolumesRun(env: Env, title: Value, ps: seq<int>, vs: Volumes, st: LegacyState): (Outcome, Volumes, LegacyState)
  {
    if ps == [] then (Pass, vs, st)
    else
      var pre := VolumesRun(env, title, ps[..|ps| - 1], vs, st);
      if pre.0.Fail? then pre
      else
        var pos := ps[|ps| - 1];
        var built := BuildVolumeSpec(env, title, Scraper.VolumeAtPos(pre.1)(pos), pre.2);
        if built.0.Err? then (Fail(built.0.error), pre.1, built.1)
        else
          var vs1 := SetVolume(pre.1, pos, built.0.value);
          (Pass, vs1, built.1.(checkpoints := built.1.checkpoints[CacheName(env.scraper.slug) := vs1]))
  }

  /** After visiting the positions `ps` of `vs`: the dict keeps its keys and
      order, each visited volume has all its image URLs, the others are
      untouched. */
  predicate VolumesBuilt(ps: seq<int>, vs: Volumes, vs1: Volumes)
  {
    |vs1| == |vs| && Scraper.Keys(vs1) == Scraper.Keys(vs) &&
    (forall k :: 0 <= k < |ps| ==> 0 <= ps[k] < |vs| && VolumeResolved(vs[ps[k]].1, vs1[ps[k]].1)) &&
    forall q :: 0 <= q < |vs| && q !in ps ==> vs1[q] == vs[q]
  }

  /** A book has been written for every visited volume. */
  predicate BooksWritten(slug: string, ps: seq<int>, vs: Volumes, books: map<string, Book>)
  {
    forall k :: 0 <= k < |ps| && 0 <= ps[k] < |vs| ==> BookFile(slug, vs[ps[k]].1.number) in books
  }

  /** What a step of `run` leaves alone: the cache only grows, no book
      disappears, no pickle but `name` changes, and none is removed. */
  predicate Kept(name: string, st: LegacyState, st1: LegacyState)
  {
    Format.Grows(st.cache.files, st1.cache.files) && st.books.Keys <= st1.books.Keys &&
    st1.checkpoints - {name} == st.checkpoints - {name} && (name in st.checkpoints ==> name in st1.checkpoints)
  }

  lemma KeptStep(name: string, st: LegacyState, st1: LegacyState, st2: LegacyState, vs: Volumes)
    requires Kept(name, st, st1) && Kept(name, st1, st2)
    ensures Kept(name, st, st2)
    ensures Kept(name, st, st2.(checkpoints := st2.checkpoints[name := vs]))
  {
    assert st2.checkpoints[name := vs] - {name} == st2.checkpoints - {name};
  }

  /** One more volume, at a position not yet visited. */
  lemma VolumeStepBuilt(env: Env, title: Value, ps: seq<int>, pos: int, vs: Volumes, vs1: Volumes, st: LegacyState)
    requires VolumesBuilt(ps, vs, vs1) && BooksWritten(env.scraper.slug, ps, vs, st.books)
    requires 0 <= pos < |vs| && pos !in ps
    ensures var built := BuildVolumeSpec(env, title, vs1[pos].1, st);
      Kept(CacheName(env.scraper.slug), st, built.1) &&
      (built.0.Ok? ==>
        VolumesBuilt(ps + [pos], vs, SetVolume(vs1, pos, built.0.value)) &&
        BooksWritten(env.scraper.slug, ps + [pos], vs, built.1.books))
  {
    var v := vs1[pos].1;
    assert v == vs[pos].1;
    BuildVolumeFails(env, title, v, st);
    var built := BuildVolumeSpec(env, title, v, st);
    if built.0.Ok? {
      var sorted := SortBy(v.chapters, Format.ChapterNumber).value;
      BuildVolumeShape(env, title, v, st, built.0.value, built.1, sorted);
      SetVolumeBuilt(env.scraper.slug, ps, pos, vs, vs1, built.0.value, st.books, built.1.books);
    }
  }

  /** Recording a resolved volume at a position not yet visited extends
      both loop invariants by that position. */
  lemma SetVolumeBuilt(slug: string, ps: seq<int>, pos: int, vs: Volumes, vs1: Volumes, v1: VolumeV,
                       books: map<string, Book>, books1: map<string, Book>)
    requires VolumesBuilt(ps, vs, vs1) && BooksWritten(slug, ps, vs, books)
    requires 0 <= pos < |vs| && pos !in ps
    requires VolumeResolved(vs[pos].1, v1) && books.Keys <= books1.Keys && BookFile(slug, vs[pos].1.number) in books1
    ensures VolumesBuilt(ps + [pos], vs, SetVolume(vs1, pos, v1)) && BooksWritten(slug, ps + [pos], vs, books1)
  {
    var vs2 := SetVolume(vs1, pos, v1);
    var ps2 := ps + [pos];
    assert Scraper.Keys(vs2) == Scraper.Keys(vs);
    forall k | 0 <= k < |ps2|
      ensures 0 <= ps2[k] < |vs| && VolumeResolved(vs[ps2[k]].1, vs2[ps2[k]].1)
      ensures BookFile(slug, vs[ps2[k]].1.number) in books1
    {
      if k < |ps| {
        assert ps2[k] == ps[k] && ps[k] != pos;
      }
    }
  }

  /** What the loop has done once it raised nothing over `ps`. */
  predicate LoopDone(slug: string, ps: seq<int>, vs: Volumes, vs1: Volumes, st1: LegacyState)
  {
    VolumesBuilt(ps, vs, vs1) && BooksWritten(slug, ps, vs, st1.books) &&
    (ps != [] ==> CacheName(slug) in st1.checkpoints && st1.checkpoints[CacheName(slug)] == vs1)
  }

  /** The last step of the loop over `ps`, once the loop over the others
      raised nothing. */
  lemma VolumesRunSnoc(env: Env, title: Value, ps: seq<int>, vs: Volumes, st: LegacyState, vs1: Volumes, st1: LegacyState)
    requires ps != [] && VolumesRun(env, title, ps[..|ps| - 1], vs, st) == (Pass, vs1, st1)
    requires Kept(CacheName(env.scraper.slug), st, st1) && LoopDone(env.scraper.slug, ps[..|ps| - 1], vs, vs1, st1)
    requires 0 <= ps[|ps| - 1] < |vs| && ps[|ps| - 1] !in ps[..|ps| - 1]
    ensures Kept(CacheName(env.scraper.slug), st, VolumesRun(env, title, ps, vs, st).2)
    ensures VolumesRun(env, title, ps, vs, st).0.Pass? ==>
      LoopDone(env.scraper.slug, ps, vs, VolumesRun(env, title, ps, vs, st).1, VolumesRun(env, title, ps, vs, st).2)
  {
    var pre := ps[..|ps| - 1];
    var pos := ps[|ps| - 1];
    var name := CacheName(env.scraper.slug);
    VolumesRunLast(env, title, ps, vs, st, vs1, st1);
    VolumeStepBuilt(env, title, pre, pos, vs, vs1, st1);
    var built := BuildVolumeSpec(env, title, vs1[pos].1, st1);
    LoopStep(name, env.scraper.slug, ps, pre, pos, vs, vs1, st, st1, built.0, built.1, VolumesRun(env, title, ps, vs, st));
  }

  /** One step of the loop keeps what the loop so far has established. */
  lemma LoopStep(name: string, slug: string, ps: seq<int>, pre: seq<int>, pos: int, vs: Volumes, vs1: Volumes,
                 st: LegacyState, st1: LegacyState, res: Result<VolumeV>, stb: LegacyState, out: (Outcome, Volumes, LegacyState))
    requires name == CacheName(slug) && ps != [] && pre == ps[..|ps| - 1] && pos == ps[|ps| - 1]
    requires Kept(name, st, st1) && Kept(name, st1, stb)
    requires res.Ok? ==>
      VolumesBuilt(pre + [pos], vs, SetVolume(vs1, pos, res.value)) && BooksWritten(slug, pre + [pos], vs, stb.books)
    requires out == if res.Err? then (Fail(res.error), vs1, stb)
      else (Pass, SetVolume(vs1, pos, res.value), stb.(checkpoints := stb.checkpoints[name := SetVolume(vs1, pos, res.value)]))
    ensures Kept(name, st, out.2)
    ensures out.0.Pass? ==> LoopDone(slug, ps, vs, out.1, out.2)
  {
    assert ps == pre + [pos];
    KeptStep(name, st, st1, stb, out.1);
  }

  /** The loop's last step, once the loop over the other positions raised
      nothing. */
  lemma VolumesRunLast(env: Env, title: Value, ps: seq<int>, vs: Volumes, st: LegacyState, vs1: Volumes, st1: LegacyState)
    requires ps != [] && VolumesRun(env, title, ps[..|ps| - 1], vs, st) == (Pass, vs1, st1)
    requires 0 <= ps[|ps| - 1] < |vs1|
    ensures var pos := ps[|ps| - 1];
      var built := BuildVolumeSpec(env, title, vs1[pos].1, st1);
      VolumesRun(env, title, ps, vs, st) ==
        if built.0.Err? then (Fail(built.0.error), vs1, built.1)
        else (Pass, SetVolume(vs1, pos, built.0.value),
              built.1.(checkpoints := built.1.checkpoints[CacheName(env.scraper.slug) := SetVolume(vs1, pos, built.0.value)]))
  {
    assert Scraper.VolumeAtPos(vs1)(ps[|ps| - 1]) == vs1[ps[|ps| - 1]].1;
  }

  /** Over distinct positions, the loop builds each volume once, keeps the
      dict's keys and order, leaves the pickle it writes equal to the dict,
      writes one book per volume, touches no other pickle, and only adds to
      the cache. */
  lemma {:induction false} VolumesRunShape(env: Env, title: Value, ps: seq<int>, vs: Volumes, st: LegacyState)
    requires Positions(ps, |vs|)
    ensures Kept(CacheName(env.scraper.slug), st, VolumesRun(env, title, ps, vs, st).2)
    ensures ps == [] ==> VolumesRun(env, title, ps, vs, st) == (Pass, vs, st)
    ensures VolumesRun(env, title, ps, vs, st).0.Pass? ==>
      LoopDone(env.scraper.slug, ps, vs, VolumesRun(env, title, ps, vs, st).1, VolumesRun(env, title, ps, vs, st).2)
  {
    if ps == [] {
      assert VolumesBuilt(ps, vs, vs);
    } else {
      var pre := ps[..|ps| - 1];
      var pos := ps[|ps| - 1];
      assert Positions(pre, |vs|) && pos !in pre by {
        forall k | 0 <= k < |pre|
          ensures pre[k] == ps[k] && pre[k] != pos
        {
        }
      }
      VolumesRunShape(env, title, pre, vs, st);
      var r := VolumesRun(env, title, pre, vs, st);
      if r.0.Pass? {
        VolumesRunSnoc(env, title, ps, vs, st, r.1, r.2);
      }
    }
  }

  /** The loop over `ps[..k + 1]`, once the loop over `ps[..k]` raised
      nothing and volume `ps[k]` built. */
  lemma VolumesRunNext(env: Env, title: Value, ps: seq<int>, k: nat, vs: Volumes, st: LegacyState,
                       vs1: Volumes, st1: LegacyState, v: VolumeV, st2: LegacyState)
    requires k < |ps| && VolumesRun(env, title, ps[..k], vs, st) == (Pass, vs1, st1)
    requires BuildVolumeSpec(env, title, Scraper.VolumeAtPos(vs1)(ps[k]), st1) == (Ok(v), st2)
    ensures VolumesRun(env, title, ps[..k + 1], vs, st) ==
      (Pass, SetVolume(vs1, ps[k], v), st2.(checkpoints := st2.checkpoints[CacheName(env.scraper.slug) := SetVolume(vs1, ps[k], v)]))
  {
    TakeSnoc(ps, k);
  }

  lemma {:induction false} VolumesRunStops(env: Env, title: Value, ps: seq<int>, n: nat, vs: Volumes, st: LegacyState)
    requires n <= |ps| && VolumesRun(env, title, ps[..n], vs, st).0.Fail?
    ensures VolumesRun(env, title, ps, vs, st) == VolumesRun(env, title, ps[..n], vs, st)
    decreases |ps| - n
  {
    if n < |ps| {
      TakeSnoc(ps, n);
      VolumesRunStops(env, title, ps, n + 1, vs, st);
    } else {
      assert ps[..n] == ps;
    }
  }

  /** "Building Volumes": the volumes in ascending number order (an
      incomparable pair raises TypeError). */
  function BuildPhase(env: Env, title: Value, vs: Volumes, st: LegacyState): (Outcome, LegacyState)
  {
    match Scraper.VolumeOrder(vs)
    case Err(e) => (Fail(e), st)
    case Ok(ps) =>
      var r := VolumesRun(env, title, ps, vs, st);
      (r.0, r.2)
  }

  /** Every chapter of every volume has all its image URLs. */
  predicate AllResolved(vs: Volumes)
  {
    forall q, i :: 0 <= q < |vs| && 0 <= i < |vs[q].1.chapters| ==> Resolved(vs[q].1.chapters[i])
  }

  /** The dict `vs1` is `vs` with every volume built: the same keys in the
      same order, every chapter of every volume with all its image URLs, and
      a book for every volume. */
  predicate Finished(slug: string, vs: Volumes, vs1: Volumes, books: map<string, Book>)
  {
    |vs1| == |vs| && Scraper.Keys(vs1) == Scraper.Keys(vs) && AllResolved(vs1) &&
    forall q :: 0 <= q < |vs| ==> VolumeResolved(vs[q].1, vs1[q].1) && BookFile(slug, vs[q].1.number) in books
  }

  /** A loop over every position has finished the dict. */
  lemma CoveredFinished(slug: string, ps: seq<int>, vs: Volumes, vs1: Volumes, books: map<string, Book>)
    requires VolumesBuilt(ps, vs, vs1) && BooksWritten(slug, ps, vs, books)
    requires forall q :: 0 <= q < |vs| ==> q in ps
    ensures Finished(slug, vs, vs1, books)
  {
    forall q | 0 <= q < |vs|
      ensures VolumeResolved(vs[q].1, vs1[q].1) && BookFile(slug, vs[q].1.number) in books
    {
      assert q in ps;
      var k :| 0 <= k < |ps| && ps[k] == q;
    }
  }

  /** A build that raises nothing visits every volume: the pickle holds the
      dict finished. Volumes that cannot be sorted raise TypeError before
      anything is built. */
  lemma BuildPhaseShape(env: Env, title: Value, vs: Volumes, st: LegacyState)
    requires CacheName(env.scraper.slug) in st.checkpoints && st.checkpoints[CacheName(env.scraper.slug)] == vs
    ensures SortBy(Scraper.Values(vs), Scraper.VolumeNumber).Err? ==> BuildPhase(env, title, vs, st) == (Fail(TypeError), st)
    ensures Kept(CacheName(env.scraper.slug), st, BuildPhase(env, title, vs, st).1)
    ensures CacheName(env.scraper.slug) in BuildPhase(env, title, vs, st).1.checkpoints
    ensures BuildPhase(env, title, vs, st).0.Pass? ==>
      Finished(env.scraper.slug, vs, BuildPhase(env, title, vs, st).1.checkpoints[CacheName(env.scraper.slug)],
               BuildPhase(env, title, vs, st).1.books)
  {
    Scraper.BuildVisitsSpec(vs, []);
    if Scraper.VolumeOrder(vs).Ok? {
      var ps := Scraper.VolumeOrder(vs).value;
      assert Positions(ps, |vs|) by {
        assert Scraper.Ascending(vs, ps);
      }
      VolumesRunShape(env, title, ps, vs, st);
      var r := VolumesRun(env, title, ps, vs, st);
      if r.0.Pass? {
        if ps == [] {
          assert vs == [];
        }
        CoveredFinished(env.scraper.slug, ps, vs, r.1, r.2.books);
      }
    }
  }

  /** The dict of volumes `run` builds from: the pickle, unless told to
      rebuild or there is none, otherwise a fresh crawl. */
  function Loaded(env: Env, rebuild: bool, st: LegacyState): Result<Volumes>
  {
    var name := CacheName(env.scraper.slug);
    if !rebuild && name in st.checkpoints then Ok(st.checkpoints[name]) else CrawlVolumes(env.scraper, env.fetch)
  }

  /** `run(rebuild_cache)`: the metadata, the volumes (a crawl is pickled
      before anything is built), then the build loop. */
  function RunSpec(env: Env, rebuild: bool, st: LegacyState): (Outcome, LegacyState)
  {
    match GetMeta(env.scraper, env.fetch)
    case Err(e) => (Fail(e), st)
    case Ok(meta) =>
      match Loaded(env, rebuild, st)
      case Err(e) => (Fail(e), st)
      case Ok(vs) => BuildPhase(env, meta.0, vs, st.(checkpoints := st.checkpoints[CacheName(env.scraper.slug) := vs]))
  }

  /** Reading the pickle cannot fail; without it, or with `rebuild`, the
      crawl decides, and a crawl that raises ends the run with nothing
      written. */
  lemma RunLoads(env: Env, rebuild: bool, st: LegacyState)
    ensures !rebuild && CacheName(env.scraper.slug) in st.checkpoints ==> Loaded(env, rebuild, st).Ok?
    ensures CrawlVolumes(env.scraper, env.fetch).Err? && (rebuild || CacheName(env.scraper.slug) !in st.checkpoints) ==>
      RunSpec(env, rebuild, st).1 == st &&
      RunSpec(env, rebuild, st).0 == Fail(if GetMeta(env.scraper, env.fetch).Err? then GetMeta(env.scraper, env.fetch).error
                                          else CrawlVolumes(env.scraper, env.fetch).error)
  {
  }

  /** A run that raises nothing has built every volume it loaded: the pickle
      holds that dict finished; no other pickle changes, no book disappears
      and the cache only grows. */
  lemma RunShape(env: Env, rebuild: bool, st: LegacyState, vs: Volumes, st1: LegacyState)
    requires Loaded(env, rebuild, st) == Ok(vs) && RunSpec(env, rebuild, st) == (Pass, st1)
    ensures GetMeta(env.scraper, env.fetch).Ok?
    ensures Kept(CacheName(env.scraper.slug), st, st1) && CacheName(env.scraper.slug) in st1.checkpoints
    ensures Finished(env.scraper.slug, vs, st1.checkpoints[CacheName(env.scraper.slug)], st1.books)
  {
    var name := CacheName(env.scraper.slug);
    var st0 := st.(checkpoints := st.checkpoints[name := vs]);
    BuildPhaseShape(env, GetMeta(env.scraper, env.fetch).value.0, vs, st0);
    assert st0.checkpoints - {name} == st.checkpoints - {name};
  }

  /** After a run that raises nothing, the next run without `rebuild` loads
      the pickle instead of crawling, and every chapter it holds is built
      without asking the site for a page. */
  lemma RunResumes(env: Env, rebuild: bool, st: LegacyState, st1: LegacyState)
    requires RunSpec(env, rebuild, st) == (Pass, st1)
    ensures CacheName(env.scraper.slug) in st1.checkpoints
    ensures Loaded(env, false, st1) == Ok(st1.checkpoints[CacheName(env.scraper.slug)])
    ensures AllResolved(st1.checkpoints[CacheName(env.scraper.slug)])
  {
    RunShape(env, rebuild, st, Loaded(env, rebuild, st).value, st1);
  }

  /** The script at the end of the module: the scraper class whose pattern
      matches the URL is constructed and run; when none matches, `scraper`
      stays None and `scraper.run` raises AttributeError. */
  function Launch(url: string, rebuild: bool, fetch: string -> Result<Adapter.Html>, sha1: string -> string,
                  web: string -> Response, st: LegacyState): (Outcome, LegacyState)
  {
    match NewScraper(url)
    case Err(_) => (Fail(AttributeError), st)
    case Ok(sc) => RunSpec(Env(sc, fetch, sha1, web), rebuild, st)
  }

  lemma LaunchMatch(url: string, rebuild: bool, fetch: string -> Result<Adapter.Html>, sha1: string -> string,
                    web: string -> Response, st: LegacyState)
    ensures LegacyMatch(url).None? ==> Launch(url, rebuild, fetch, sha1, web, st) == (Fail(AttributeError), st)
    ensures LegacyMatch(url).Some? ==>
      Launch(url, rebuild, fetch, sha1, web, st) ==
        RunSpec(Env(LegacyScraper(url, LegacyMatch(url).value.slug), fetch, sha1, web), rebuild, st)
  {
  }

  /** The files `run` writes besides the image cache: the pickled dicts of
      volumes and the EPUB books. */
  class Shelf {
    var checkpoints: map<string, Volumes>
    var books: map<string, Book>

    constructor (checkpoints: map<string, Volumes>, books: map<string, Book>)
      ensures this.checkpoints == checkpoints && this.books == books
    {
      this.checkpoints := checkpoints;
      this.books := books;
    }

    /** `pickle.dump(volumes, open(name, mode="wb+"))`. */
    method Dump(name: string, vs: Volumes)
      modifies this
      ensures checkpoints == old(checkpoints)[name := vs] && books == old(books)
    {
      checkpoints := checkpoints[name := vs];
    }

    /** `epub.write_epub(file, book)`. */
    method WriteEpub(file: string, book: Book)
      modifies this
      ensures books == old(books)[file := book] && checkpoints == old(checkpoints)
    {
      books := books[file := book];
    }
  }

  function World(shelf: Shelf, cache: Cache): LegacyState
    reads shelf, cache
  {
    LegacyState(shelf.checkpoints, shelf.books, cache.State())
  }

  /** The chapter loop of `build_volume`. */
  method BuildChapters(env: Env, cis: seq<int>, chapters0: seq<ChapterV>, cache: Cache)
    returns (r: Result<(seq<ChapterV>, seq<BookChapter>)>)
    modifies cache
    ensures (r, cache.State()) == ChaptersRun(env, cis, chapters0, old(cache.State()))
  {
    ghost var cache0 := cache.State();
    var chapters := chapters0;
    var spine: seq<BookChapter> := [];
    for k := 0 to |cis|
      invariant ChaptersRun(env, cis[..k], chapters0, cache0) == (Ok((chapters, spine)), cache.State())
    {
      TakeSnoc(cis, k);
      var ci := cis[k];
      var built := BuildChapter(env, Format.ChapterAt(chapters)(ci), cache);
      if built.Err? {
        ChaptersRunStops(env, cis, k + 1, chapters0, cache0);
        return Err(built.error);
      }
      var (b, d) := built.value;
      chapters := SetChapter(chapters, ci, d);
      spine := spine + [b];
    }
    assert cis[..|cis|] == cis;
    return Ok((chapters, spine));
  }

  /** `build_volume(volume)`. */
  method BuildVolume(env: Env, title: Value, volume: VolumeV, shelf: Shelf, cache: Cache) returns (r: Result<VolumeV>)
    modifies shelf, cache
    ensures (r, World(shelf, cache)) == BuildVolumeSpec(env, title, volume, old(World(shelf, cache)))
  {
    var id := BookId(env.scraper.slug, volume.number);
    var bookTitle := BookTitle(volume.number, title);
    var order := Format.ChapterOrder(volume.chapters);
    if order.Err? {
      return Err(order.error);
    }
    var built := BuildChapters(env, order.value, volume.chapters, cache);
    if built.Err? {
      return Err(built.error);
    }
    var (chapters, spine) := built.value;
    shelf.WriteEpub(id + ".epub", Book(id, bookTitle, spine));
    return Ok(volume.(chapters := chapters));
  }

  /** The crawl of `run`: the chapters, each given its pages by `add_page`,
      grouped into the dict by volume. */
  method Crawl(env: Env) returns (r: Result<Volumes>)
    ensures r == CrawlVolumes(env.scraper, env.fetch)
  {
    var chapters := GetChapters(env.scraper, env.fetch);
    if chapters.Err? {
      return Err(chapters.error);
    }
    var cs := chapters.value;
    var volumes: Volumes := [];
    ghost var done: seq<ChapterV> := [];
    for i := 0 to |cs|
      invariant CrawlAll(env.scraper, env.fetch, cs[..i]) == Ok(done)
      invariant volumes == Scraper.GroupAll(done)
    {
      TakeSnoc(cs, i);
      var chapter := cs[i];
      var pages := GetPages(env.scraper, env.fetch, chapter);
      if pages.Err? {
        CrawlAllStops(env.scraper, env.fetch, cs, i + 1);
        return Err(pages.error);
      }
      var ps := pages.value;
      for j := 0 to |ps|
        invariant chapter == cs[i].(pages := cs[i].pages + ps[..j])
      {
        TakeSnoc(ps, j);
        chapter := chapter.(pages := chapter.pages + [ps[j]]);
      }
      assert ps[..|ps|] == ps;
      var k := chapter.volume;
      if !HasKey(volumes, k) {
        volumes := Put(volumes, k, VolumeV(k, []));
      }
      var volume := Scraper.VolumeAt(volumes, k);
      volumes := Put(volumes, k, volume.(chapters := volume.chapters + [chapter]));
      assert (done + [chapter])[..|done|] == done;
      done := done + [chapter];
    }
    assert cs[..|cs|] == cs;
    return Ok(volumes);
  }

  /** "Building Volumes": the loop of `run` over the sorted volumes. */
  method BuildAll(env: Env, title: Value, vs0: Volumes, shelf: Shelf, cache: Cache) returns (o: Outcome)
    modifies shelf, cache
    ensures (o, World(shelf, cache)) == BuildPhase(env, title, vs0, old(World(shelf, cache)))
  {
    var order := Scraper.VolumeOrder(vs0);
    if order.Err? {
      return Fail(order.error);
    }
    var volumes;
    o, volumes := BuildVolumes(env, title, order.value, vs0, shelf, cache);
  }

  /** The loop of "Building Volumes" over the positions `ps`. */
  method BuildVolumes(env: Env, title: Value, ps: seq<int>, vs0: Volumes, shelf: Shelf, cache: Cache) returns (o: Outcome, volumes: Volumes)
    modifies shelf, cache
    ensures (o, volumes, World(shelf, cache)) == VolumesRun(env, title, ps, vs0, old(World(shelf, cache)))
  {
    ghost var st0 := World(shelf, cache);
    volumes := vs0;
    for k := 0 to |ps|
      invariant VolumesRun(env, title, ps[..k], vs0, st0) == (Pass, volumes, World(shelf, cache))
    {
      var pos := ps[k];
      ghost var st1 := World(shelf, cache);
      var built := BuildVolume(env, title, Scraper.VolumeAtPos(volumes)(pos), shelf, cache);
      if built.Err? {
        TakeSnoc(ps, k);
        VolumesRunStops(env, title, ps, k + 1, vs0, st0);
        return Fail(built.error), volumes;
      }
      VolumesRunNext(env, title, ps, k, vs0, st0, volumes, st1, built.value, World(shelf, cache));
      volumes := SetVolume(volumes, pos, built.value);
      shelf.Dump(CacheName(env.scraper.slug), volumes);
    }
    assert ps[..|ps|] == ps;
    return Pass, volumes;
  }

  /** `run(rebuild_cache)`. */
  method Run(env: Env, rebuild: bool, shelf: Shelf, cache: Cache) returns (o: Outcome)
    modifies shelf, cache
    ensures (o, World(shelf, cache)) == RunSpec(env, rebuild, old(World(shelf, cache)))
  {
    var meta := GetMeta(env.scraper, env.fetch);
    if meta.Err? {
      return Fail(meta.error);
    }
    var name := CacheName(env.scraper.slug);
    var volumes: Volumes;
    if !rebuild && name in shelf.checkpoints {
      volumes := shelf.checkpoints[name];
      assert shelf.checkpoints[name := volumes] == shelf.checkpoints;
    } else {
      var crawled := Crawl(env);
      if crawled.Err? {
        return Fail(crawled.error);
      }
      volumes := crawled.value;
      shelf.Dump(name, volumes);
    }
    o := BuildAll(env, meta.value.0, volumes, shelf, cache);
  }
}
