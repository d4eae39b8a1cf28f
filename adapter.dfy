/** The Mangafox site adapter of src/masc/adapter.py: the URL grammar, the
    URLs it builds, and how it turns the parts of the site's pages it looks at
    into chapters, pages and image URLs. */
module Adapter {
  import opened Py
  import opened Data

  // ---------------------------------------------------------------------------
  // url_pattern, matched with `re.match` (anchored at the start only)
  //
  // http://mangafox.\w+/manga/(?P<slug>[a-z_]+)
  //   ((/v(?P<volume>[^/]+))?/c(?P<chapter>[^/]+)/(?P<page>[^/]+).html)?

  /** `\w`, on ASCII. */
  predicate IsWord(c: char)
  {
    ('a' <= c <= 'z') || ('A' <= c <= 'Z') || ('0' <= c <= '9') || c == '_'
  }

  predicate IsSlugChar(c: char)
  {
    ('a' <= c <= 'z') || c == '_'
  }

  predicate NotSlash(c: char)
  {
    c != '/'
  }

  /** The length of the longest run of characters satisfying `p` from `i`:
      what a greedy `[...]+` or `\w+` takes when what follows cannot start
      with such a character. */
  function RunLen(s: string, i: nat, p: char -> bool): (r: nat)
    requires i <= |s|
    ensures i + r <= |s|
    decreases |s| - i
  {
    if i < |s| && p(s[i]) then 1 + RunLen(s, i + 1, p) else 0
  }

  /** The run is maximal: every character in it satisfies `p`, and the one
      after it, if any, does not. */
  lemma {:induction false} RunLenMaximal(s: string, i: nat, p: char -> bool)
    requires i <= |s|
    ensures forall j :: i <= j < i + RunLen(s, i, p) ==> p(s[j])
    ensures i + RunLen(s, i, p) < |s| ==> !p(s[i + RunLen(s, i, p)])
    decreases |s| - i
  {
    if i < |s| && p(s[i]) {
      RunLenMaximal(s, i + 1, p);
    }
  }

  predicate StartsAt(s: string, i: nat, t: string)
  {
    i + |t| <= |s| && s[i..i + |t|] == t
  }

  /** `.html` matches at `k`: any character but a newline, then "html". */
  predicate HtmlAt(s: string, k: nat)
  {
    k + 5 <= |s| && s[k] != '\n' && s[k + 1..k + 5] == "html"
  }

  /** The longest page group `[^/]+` of at most `k` characters from `i`
      that `.html` can follow; 0 when there is none. */
  function LastHtml(s: string, i: nat, k: nat): (r: nat)
    ensures r <= k
  {
    if k == 0 then 0 else if HtmlAt(s, i + k) then k else LastHtml(s, i, k - 1)
  }

  /** `LastHtml` is the last position, within its bound, where `.html` can
      follow. */
  lemma {:induction false} LastHtmlLast(s: string, i: nat, k: nat)
    ensures LastHtml(s, i, k) > 0 ==> HtmlAt(s, i + LastHtml(s, i, k))
    ensures forall j :: i + LastHtml(s, i, k) < j <= i + k ==> !HtmlAt(s, j)
  {
    if k > 0 && !HtmlAt(s, i + k) {
      LastHtmlLast(s, i, k - 1);
    }
  }

  /** `c(?P<chapter>[^/]+)/(?P<page>[^/]+).html` after the "c". */
  function ChapterPage(s: string, i: nat): Option<(string, string)>
    requires i <= |s|
  {
    var j := i + RunLen(s, i, NotSlash);
    if j == i || j == |s| then None
    else
      var k := LastHtml(s, j + 1, RunLen(s, j + 1, NotSlash));
      if k == 0 then None else Some((s[i..j], s[j + 1..j + 1 + k]))
  }

  /** The optional tail group after the slug: volume (if any), chapter, page. */
  function Tail(s: string, q: nat): Option<(Option<string>, string, string)>
    requires q <= |s|
  {
    if StartsAt(s, q, "/v") then
      var r := q + 2 + RunLen(s, q + 2, NotSlash);
      if r == q + 2 || !StartsAt(s, r, "/c") then None
      else match ChapterPage(s, r + 2)
        case None => None
        case Some(cp) => Some((Some(s[q + 2..r]), cp.0, cp.1))
    else if StartsAt(s, q, "/c") then
      match ChapterPage(s, q + 2)
      case None => None
      case Some(cp) => Some((None, cp.0, cp.1))
    else None
  }

  /** The named groups of a match; a group that did not take part is None. */
  datatype UrlMatch = UrlMatch(slug: string, volume: Option<string>, chapter: Option<string>, page: Option<string>)

  /** `url_pattern.match(s)`. The slug is the longest run of `[a-z_]`
      (the tail group is optional, so nothing forces a shorter one), and a
      tail that does not fit leaves volume, chapter and page unset. */
  function MatchUrl(s: string): (r: Option<UrlMatch>)
  {
    if !StartsAt(s, 0, "http://mangafox") || |s| < 16 || s[15] == '\n' then None
    else
      var m := 16 + RunLen(s, 16, IsWord);
      if m == 16 || !StartsAt(s, m, "/manga/") then None
      else
        var p := m + 7;
        var q := p + RunLen(s, p, IsSlugChar);
        if q == p then None
        else match Tail(s, q)
          case None => Some(UrlMatch(s[p..q], None, None, None))
          case Some(t) => Some(UrlMatch(s[p..q], t.0, Some(t.1), Some(t.2)))
  }

  // ---------------------------------------------------------------------------
  // The parts of the site's HTML the adapter reads (BeautifulSoup lookups)

  /** An `<a class="tips">` chapter link, and the `.string` of the
      `span.title` next to it, when there is one. */
  datatype Link = Link(href: string, title: Option<Value>)

  /** What `find('div', 'cover').img['src']` meets: no cover `div`, a `div`
      without an `img`, an `img` without `src`, or the source. */
  datatype Cover = NoCoverDiv | NoCoverImage | NoSource | Source(src: string)

  /** `find('div', 'cover').img['src']`: `.img` of None raises
      AttributeError, subscripting a missing `img` (None) raises TypeError,
      and a missing attribute raises KeyError. */
  function CoverSource(c: Cover): (r: Result<string>)
    ensures r.Ok? <==> c.Source?
    ensures r.Ok? ==> r.value == c.src
    ensures c == NoCoverDiv ==> r == Err(AttributeError)
    ensures c == NoCoverImage ==> r == Err(TypeError)
    ensures c == NoSource ==> r == Err(KeyError("src"))
  {
    match c
    case NoCoverDiv => Err(AttributeError)
    case NoCoverImage => Err(TypeError)
    case NoSource => Err(KeyError("src"))
    case Source(src) => Ok(src)
  }

  /** What `find('img', id='image')` followed by `['src']` meets: no such
      `img`, an `img` without `src`, or the source. */
  datatype ImageElement = NoImage | NoImageSource | ImageSource(src: string)

  /** A fetched page: the `.string` of its `h1` (None when there is no h1),
      its cover, the chapter links, the `value`s of the options of `select.m`
      (None when there is no such element), and its `img#image`. */
  datatype Html = Html(h1: Option<Value>, cover: Cover, tips: seq<Link>, options: Option<seq<string>>, image: ImageElement)

  /** `str(x)` of a regex group, which is None when it did not take part. */
  function GroupText(g: Option<string>): string
  {
    if g.None? then "None" else g.value
  }

  function KeepNonZero(ps: seq<PageV>): seq<PageV>
  {
    if ps == [] then []
    else (if ps[0].number != Int(0) then [ps[0]] else []) + KeepNonZero(ps[1..])
  }

  /** `filter(lambda page: page.number != 0, ps)` keeps exactly the pages
      not numbered 0, in their order: it distributes over concatenation and
      keeps a page on its own exactly when it is not numbered 0. */
  lemma {:induction false} KeepNonZeroAppend(a: seq<PageV>, b: seq<PageV>)
    ensures KeepNonZero(a + b) == KeepNonZero(a) + KeepNonZero(b)
  {
    if a == [] {
      assert a + b == b;
    } else {
      var h := if a[0].number != Int(0) then [a[0]] else [];
      assert (a + b)[0] == a[0];
      assert (a + b)[1..] == a[1..] + b;
      assert KeepNonZero(a + b) == h + KeepNonZero(a[1..] + b);
      KeepNonZeroAppend(a[1..], b);
      assert KeepNonZero(a) == h + KeepNonZero(a[1..]);
      assert h + (KeepNonZero(a[1..]) + KeepNonZero(b)) == (h + KeepNonZero(a[1..])) + KeepNonZero(b);
    }
  }

  lemma {:induction false} KeepNonZeroMembers(a: seq<PageV>)
    ensures forall p :: p in KeepNonZero(a) <==> p in a && p.number != Int(0)
  {
    if a != [] {
      KeepNonZeroMembers(a[1..]);
      assert a == [a[0]] + a[1..];
    }
  }

  lemma {:induction false} KeepNonZeroNoZeros(a: seq<PageV>)
    requires forall i :: 0 <= i < |a| ==> a[i].number != Int(0)
    ensures KeepNonZero(a) == a
  {
    if a != [] {
      KeepNonZeroNoZeros(a[1..]);
      assert a == [a[0]] + a[1..];
    }
  }

  /** A chapter-page URL as the site writes it, with or without the volume
      segment. */
  function ChapterHref(slug: string, volume: Option<string>, chapter: string, page: string): string
  {
    var tail := "/c" + (chapter + ("/" + (page + ".html")));
    if volume.Some? then "http://mangafox.me/manga/" + (slug + ("/v" + (volume.value + tail)))
    else "http://mangafox.me/manga/" + (slug + tail)
  }

  // ---------------------------------------------------------------------------
  // The adapter

  /** A `MangafoxAdapter` for the series at `mangaUrl`. */
  datatype MangafoxAdapter = MangafoxAdapter(mangaUrl: string, slug: string)
  {
    /** `build_url(volume, chapter, page, root)`. */
    function BuildUrl(volume: Value, chapter: Value, page: Value, root: bool): string
    {
      if root then "http://mangafox.me/manga/" + slug + "/"
      else ChapterHref(slug, Some(if volume.Null? then "TBD" else Show(volume)), Show(chapter), Show(page))
    }

    /** `make_chapter(link)`: a link the pattern does not match raises
        AttributeError (on `None.group`). */
    function MakeChapter(link: Link): (r: Result<ChapterV>)
      ensures r.Err? <==> MatchUrl(link.href).None?
      ensures r.Err? ==> r.error == AttributeError
      ensures r.Ok? ==> r.value.pages == [] && r.value.url == Str(link.href)
    {
      match MatchUrl(link.href)
      case None => Err(AttributeError)
      case Some(m) =>
        var chap := GroupText(m.chapter);
        Ok(ChapterV(Str(link.href),
                    if link.title.Some? then Show(link.title.value) else "Chapter " + chap,
                    Str(chap),
                    if m.volume.Some? then Str(m.volume.value) else Str(chap),
                    []))
    }

    /** `make_page(option, chapter)`: the option value read with `int()`. */
    function MakePage(option: string, chapter: ChapterV): (r: Result<PageV>)
    {
      match ToInt(Str(option))
      case Err(e) => Err(e)
      case Ok(n) => Ok(PageV(Str(BuildUrl(chapter.volume, chapter.number, Int(n), false)), Null, Int(n)))
    }

    /** `get_meta()`, given what `fetch_html` returns for a URL. */
    function GetMeta(fetch: string -> Result<Html>): Result<MetadataV>
    {
      match fetch(mangaUrl)
      case Err(e) => Err(e)
      case Ok(html) =>
        if html.h1.None? then Err(AttributeError)
        else match CoverSource(html.cover)
          case Err(e) => Err(e)
          case Ok(src) => Ok(MetadataV(Show(html.h1.value), slug, Str(src)))
    }

    /** `get_chapters()`. */
    function GetChapters(fetch: string -> Result<Html>): Result<seq<ChapterV>>
    {
      match fetch(mangaUrl)
      case Err(e) => Err(e)
      case Ok(html) => MapResult(MakeChapter, html.tips)
    }

    /** `get_pages(chapter)`. */
    function GetPages(fetch: string -> Result<Html>, chapter: ChapterV): (r: Result<seq<PageV>>)
    {
      match fetch(Show(chapter.url))
      case Err(e) => Err(e)
      case Ok(html) =>
        if html.options.None? then Err(RuntimeError(Show(chapter.url) + " does not contain a select.m"))
        else
          match MapResult((o: string) => MakePage(o, chapter), html.options.value)
          case Err(e) => Err(e)
          case Ok(ps) => Ok(KeepNonZero(ps))
    }

    /** `get_image(page)`. */
    function GetImage(fetch: string -> Result<Html>, page: PageV): (r: Result<string>)
    {
      match fetch(Show(page.url))
      case Err(e) => Err(e)
      case Ok(html) =>
        match html.image
        case NoImage => Err(RuntimeError(Show(page.url) + " does not contain an img#image"))
        case NoImageSource => Err(KeyError("src"))
        case ImageSource(src) => Ok(src)
    }
  }

  /** `mangafox(url)`, i.e. `MangafoxAdapter(url)`: the constructor raises
      unless the pattern matches, and keeps the slug group. */
  function Mangafox(url: string): (r: Result<MangafoxAdapter>)
    ensures r.Ok? <==> MatchUrl(url).Some?
    ensures r.Err? ==> r.error == RuntimeError("URL does not match mangafox pattern")
    ensures r.Ok? ==> r.value == MangafoxAdapter(url, MatchUrl(url).value.slug)
  {
    match MatchUrl(url)
    case None => Err(RuntimeError("URL does not match mangafox pattern"))
    case Some(m) => Ok(MangafoxAdapter(url, m.slug))
  }

  // ---------------------------------------------------------------------------
  // What the pattern recovers from the URLs the site uses

  predicate IsSlug(slug: string)
  {
    slug != "" && forall i :: 0 <= i < |slug| ==> IsSlugChar(slug[i])
  }

  /** A field of a URL: non-empty and free of '/'. */
  predicate IsSegment(t: string)
  {
    t != "" && '/' !in t
  }

  lemma SplitAt(s: string, i: nat, a: string, b: string)
    requires i <= |s| && s[i..] == a + b
    ensures i + |a| <= |s| && s[i..i + |a|] == a && s[i + |a|..] == b
  {
    assert s[i..i + |a|] == (a + b)[..|a|];
    assert s[i + |a|..] == (a + b)[|a|..];
  }

  /** A run that ends where `t` ends is exactly `t`. */
  lemma {:induction false} RunOf(s: string, i: nat, t: string, p: char -> bool)
    requires i + |t| <= |s| && s[i..i + |t|] == t
    requires forall k :: 0 <= k < |t| ==> p(t[k])
    requires i + |t| == |s| || !p(s[i + |t|])
    ensures RunLen(s, i, p) == |t|
    decreases |t|
  {
    if t != [] {
      assert s[i] == t[0];
      assert s[i + 1..i + 1 + |t[1..]|] == t[1..];
      RunOf(s, i + 1, t[1..], p);
    }
  }

  lemma {:induction false} LastHtmlExact(s: string, i: nat, k: nat, r: nat)
    requires 0 < r <= k && HtmlAt(s, i + r)
    requires forall j :: i + r < j <= i + k ==> !HtmlAt(s, j)
    ensures LastHtml(s, i, k) == r
    decreases k
  {
    if k > r {
      LastHtmlExact(s, i, k - 1, r);
    }
  }

  /** The page group and ".html" at the end of a URL. */
  lemma PageExact(s: string, j: nat, page: string)
    requires IsSegment(page)
    requires j <= |s| && s[j..] == page + ".html"
    ensures RunLen(s, j, NotSlash) == |page| + 5
    ensures LastHtml(s, j, |page| + 5) == |page|
    ensures s[j..j + |page|] == page
  {
    SplitAt(s, j, page, ".html");
    NoSlashBeforeHtml(page);
    assert s[j..j + |page| + 5] == page + ".html";
    RunOf(s, j, page + ".html", NotSlash);
    HtmlAtEnd(s, j + |page|);
    LastHtmlExact(s, j, |page| + 5, |page|);
  }

  lemma NoSlashBeforeHtml(page: string)
    requires IsSegment(page)
    ensures forall k :: 0 <= k < |page| + 5 ==> NotSlash((page + ".html")[k])
  {
    forall k | 0 <= k < |page| + 5
      ensures NotSlash((page + ".html")[k])
    {
      if k < |page| {
        assert (page + ".html")[k] == page[k] && page[k] in page;
      } else {
        assert (page + ".html")[k] == ".html"[k - |page|];
      }
    }
  }

  lemma HtmlAtEnd(s: string, h: nat)
    requires h <= |s| && s[h..] == ".html"
    ensures HtmlAt(s, h)
    ensures forall j :: h < j ==> !HtmlAt(s, j)
  {
    var x := s[h..];
    assert x[1..5] == "html";
    assert s[h + 1..h + 5] == x[1..5];
    assert s[h] == x[0];
  }

  /** `c<chapter>/<page>.html`, from just after the "c". */
  lemma ChapterPageExact(s: string, i: nat, chapter: string, page: string)
    requires IsSegment(chapter) && IsSegment(page)
    requires i <= |s| && s[i..] == chapter + ("/" + (page + ".html"))
    ensures ChapterPage(s, i) == Some((chapter, page))
  {
    SplitAt(s, i, chapter, "/" + (page + ".html"));
    var j := i + |chapter|;
    SplitAt(s, j, "/", page + ".html");
    assert s[j] == '/';
    SegmentNoSlash(chapter);
    RunOf(s, i, chapter, NotSlash);
    PageExact(s, j + 1, page);
    ChapterPageAt(s, i, chapter, page);
  }

  /** `ChapterPage` once the lengths of its two runs are known. */
  lemma ChapterPageAt(s: string, i: nat, chapter: string, page: string)
    requires i + |chapter| < |s| && chapter != [] && page != []
    requires RunLen(s, i, NotSlash) == |chapter|
    requires LastHtml(s, i + |chapter| + 1, RunLen(s, i + |chapter| + 1, NotSlash)) == |page|
    requires s[i..i + |chapter|] == chapter && s[i + |chapter| + 1..i + |chapter| + 1 + |page|] == page
    ensures ChapterPage(s, i) == Some((chapter, page))
  {
  }

  /** `Tail` with a volume segment, once its runs are known. */
  lemma TailAtVolume(s: string, q: nat, v: string, chapter: string, page: string)
    requires q + 2 + |v| <= |s| && v != []
    requires StartsAt(s, q, "/v") && RunLen(s, q + 2, NotSlash) == |v| && s[q + 2..q + 2 + |v|] == v
    requires StartsAt(s, q + 2 + |v|, "/c") && ChapterPage(s, q + 4 + |v|) == Some((chapter, page))
    ensures Tail(s, q) == Some((Some(v), chapter, page))
  {
  }

  /** `Tail` without a volume segment. */
  lemma TailAtChapter(s: string, q: nat, chapter: string, page: string)
    requires q + 2 <= |s| && s[q + 1] == 'c'
    requires StartsAt(s, q, "/c") && ChapterPage(s, q + 2) == Some((chapter, page))
    ensures Tail(s, q) == Some((None, chapter, page))
  {
    assert !StartsAt(s, q, "/v") by {
      assert s[q..q + 2][1] == s[q + 1];
    }
  }

  /** The tail group with a volume segment, from just after the slug. */
  lemma TailExactVolume(s: string, q: nat, v: string, chapter: string, page: string)
    requires IsSegment(v) && IsSegment(chapter) && IsSegment(page)
    requires q <= |s| && s[q..] == "/v" + (v + ("/c" + (chapter + ("/" + (page + ".html")))))
    ensures Tail(s, q) == Some((Some(v), chapter, page))
  {
    var cp := chapter + ("/" + (page + ".html"));
    SegmentNoSlash(v);
    VolumeSegment(s, q, v, "/c" + cp, NotSlash);
    var r := q + 2 + |v|;
    SplitAt(s, r, "/c", cp);
    ChapterPageExact(s, r + 2, chapter, page);
    TailAtVolume(s, q, v, chapter, page);
  }

  lemma SegmentNoSlash(v: string)
    requires IsSegment(v)
    ensures forall k :: 0 <= k < |v| ==> NotSlash(v[k])
  {
    assert forall k :: 0 <= k < |v| ==> v[k] in v;
  }

  /** "/v", a volume whose characters are all in the class `p`, and what
      follows it, which starts outside the class. */
  lemma VolumeSegment(s: string, q: nat, v: string, after: string, p: char -> bool)
    requires forall k :: 0 <= k < |v| ==> p(v[k])
    requires after != [] && !p(after[0])
    requires q <= |s| && s[q..] == "/v" + (v + after)
    ensures StartsAt(s, q, "/v") && q + 2 + |v| <= |s|
    ensures RunLen(s, q + 2, p) == |v| && s[q + 2..q + 2 + |v|] == v
    ensures s[q + 2 + |v|..] == after
  {
    SplitAt(s, q, "/v", v + after);
    SplitAt(s, q + 2, v, after);
    assert s[q + 2 + |v|] == after[0];
    RunOf(s, q + 2, v, p);
  }

  /** The tail group without a volume segment. */
  lemma TailExactChapter(s: string, q: nat, chapter: string, page: string)
    requires IsSegment(chapter) && IsSegment(page)
    requires q <= |s| && s[q..] == "/c" + (chapter + ("/" + (page + ".html")))
    ensures Tail(s, q) == Some((None, chapter, page))
  {
    SplitAt(s, q, "/c", chapter + ("/" + (page + ".html")));
    assert s[q + 1] == s[q..q + 2][1];
    ChapterPageExact(s, q + 2, chapter, page);
    TailAtChapter(s, q, chapter, page);
  }

  /** "http://mangafox.me/manga/" and a slug, followed by a '/'. */
  lemma HeadExact(s: string, slug: string, rest: string)
    requires IsSlug(slug) && rest != [] && rest[0] == '/'
    requires s == "http://mangafox.me/manga/" + (slug + rest)
    ensures StartsAt(s, 0, "http://mangafox") && |s| >= 16 && s[15] != '\n'
    ensures RunLen(s, 16, IsWord) == 2 && StartsAt(s, 18, "/manga/")
    ensures RunLen(s, 25, IsSlugChar) == |slug| && s[25..25 + |slug|] == slug
    ensures s[25 + |slug|..] == rest
  {
    var h := "http://mangafox.me/manga/";
    RootParts(h);
    HeadAfterRoot(h, s, slug, rest);
  }

  lemma HeadAfterRoot(h: string, s: string, slug: string, rest: string)
    requires |h| == 25 && h[0..15] == "http://mangafox" && h[15] == '.'
    requires h[16..18] == "me" && h[18] == '/' && h[18..25] == "/manga/"
    requires IsSlug(slug) && rest != [] && rest[0] == '/'
    requires s == h + (slug + rest)
    ensures StartsAt(s, 0, "http://mangafox") && |s| >= 16 && s[15] != '\n'
    ensures RunLen(s, 16, IsWord) == 2 && StartsAt(s, 18, "/manga/")
    ensures RunLen(s, 25, IsSlugChar) == |slug| && s[25..25 + |slug|] == slug
    ensures s[25 + |slug|..] == rest
  {
    SliceOfPrefix(h, slug + rest, 0, 15);
    SliceOfPrefix(h, slug + rest, 16, 18);
    SliceOfPrefix(h, slug + rest, 18, 25);
    assert s[15] == h[15] && s[18] == h[18];
    RunOf(s, 16, "me", IsWord);
    assert s[25..] == slug + rest;
    SplitAt(s, 25, slug, rest);
    RunOf(s, 25, slug, IsSlugChar);
  }

  lemma SliceOfPrefix(h: string, t: string, i: nat, j: nat)
    requires i <= j <= |h|
    ensures (h + t)[i..j] == h[i..j]
  {
  }

  /** The pieces of the site's root the pattern reads one by one. */
  lemma RootParts(h: string)
    requires h == "http://mangafox.me/manga/"
    ensures |h| == 25 && h[0..15] == "http://mangafox" && h[15] == '.'
    ensures h[16..18] == "me" && h[18] == '/' && h[18..25] == "/manga/"
  {
  }

  /** Every chapter-page URL of the site's form matches the pattern and gives
      back its slug, volume, chapter and page. */
  lemma MatchChapterHref(slug: string, volume: Option<string>, chapter: string, page: string)
    requires IsSlug(slug) && IsSegment(chapter) && IsSegment(page)
    requires volume.Some? ==> IsSegment(volume.value)
    ensures MatchUrl(ChapterHref(slug, volume, chapter, page)) == Some(UrlMatch(slug, volume, Some(chapter), Some(page)))
  {
    var s := ChapterHref(slug, volume, chapter, page);
    var tail := "/c" + (chapter + ("/" + (page + ".html")));
    var rest := if volume.Some? then "/v" + (volume.value + tail) else tail;
    assert s == "http://mangafox.me/manga/" + (slug + rest);
    HeadExact(s, slug, rest);
    if volume.Some? {
      TailExactVolume(s, 25 + |slug|, volume.value, chapter, page);
    } else {
      TailExactChapter(s, 25 + |slug|, chapter, page);
    }
    MatchWithTail(s, slug, (volume, chapter, page));
  }

  /** A URL whose head reads as `slug` and whose tail reads as `t` matches with both. */
  lemma MatchWithTail(s: string, slug: string, t: (Option<string>, string, string))
    requires StartsAt(s, 0, "http://mangafox") && |s| >= 16 && s[15] != '\n'
    requires RunLen(s, 16, IsWord) == 2 && StartsAt(s, 18, "/manga/")
    requires slug != [] && 25 + |slug| <= |s| && RunLen(s, 25, IsSlugChar) == |slug| && s[25..25 + |slug|] == slug
    requires Tail(s, 25 + |slug|) == Some(t)
    ensures MatchUrl(s) == Some(UrlMatch(slug, t.0, Some(t.1), Some(t.2)))
  {
  }

  /** The series root URL matches with the slug and no tail. */
  lemma MatchRootUrl(a: MangafoxAdapter)
    requires IsSlug(a.slug)
    ensures MatchUrl(a.BuildUrl(Null, Null, Null, true)) == Some(UrlMatch(a.slug, None, None, None))
  {
    var s := a.BuildUrl(Null, Null, Null, true);
    assert s == "http://mangafox.me/manga/" + (a.slug + "/");
    HeadExact(s, a.slug, "/");
  }

  /** `build_url` writes the site's chapter-page form, and the pattern reads
      slug, chapter and page back from it; the volume comes back as "TBD"
      when it was None. */
  lemma BuildUrlMatches(a: MangafoxAdapter, volume: Value, chapter: Value, page: Value)
    requires IsSlug(a.slug) && IsSegment(Show(chapter)) && IsSegment(Show(page))
    requires !volume.Null? ==> IsSegment(Show(volume))
    ensures MatchUrl(a.BuildUrl(volume, chapter, page, false)) ==
      Some(UrlMatch(a.slug, Some(if volume.Null? then "TBD" else Show(volume)), Some(Show(chapter)), Some(Show(page))))
  {
    assert IsSegment("TBD");
    MatchChapterHref(a.slug, Some(if volume.Null? then "TBD" else Show(volume)), Show(chapter), Show(page));
  }

  /** `make_chapter` on a link of the site's form: number and url as
      written, the title from the span or "Chapter <n>", and the volume from
      the href or, without a volume segment, the chapter number. */
  lemma MakeChapterOfHref(a: MangafoxAdapter, slug: string, volume: Option<string>, chapter: string, page: string, title: Option<Value>)
    requires IsSlug(slug) && IsSegment(chapter) && IsSegment(page)
    requires volume.Some? ==> IsSegment(volume.value)
    ensures var href := ChapterHref(slug, volume, chapter, page);
      a.MakeChapter(Link(href, title)) ==
        Ok(ChapterV(Str(href), if title.Some? then Show(title.value) else "Chapter " + chapter,
                    Str(chapter), Str(if volume.Some? then volume.value else chapter), []))
  {
    MatchChapterHref(slug, volume, chapter, page);
  }

  /** `make_page` on an option whose value is a decimal number: the page
      carries that number and the URL `build_url` gives for it, from which the
      pattern reads the number back. */
  lemma MakePageOfNumber(a: MangafoxAdapter, n: int, chapter: ChapterV)
    requires IsSlug(a.slug) && IsSegment(Show(chapter.number))
    requires !chapter.volume.Null? ==> IsSegment(Show(chapter.volume))
    ensures a.MakePage(IntToString(n), chapter) ==
      Ok(PageV(Str(a.BuildUrl(chapter.volume, chapter.number, Int(n), false)), Null, Int(n)))
    ensures var m := MatchUrl(a.MakePage(IntToString(n), chapter).value.url.s);
      m.Some? && m.value.page.Some? && ParseInt(m.value.page.value) == Some(n)
  {
    IntRoundTrip(n);
    NoSlashInNumber(n);
    BuildUrlMatches(a, chapter.volume, chapter.number, Int(n));
  }

  lemma NoSlashInNumber(n: int)
    ensures IsSegment(IntToString(n))
  {
    var d := NatToString(if n < 0 then -n else n);
    assert forall i :: 0 <= i < |d| ==> IsDigit(d[i]);
    if n < 0 {
      assert IntToString(n) == "-" + d;
      assert forall i :: 0 <= i < |IntToString(n)| ==> IntToString(n)[i] == '-' || IsDigit(IntToString(n)[i]);
    }
  }

  /** `get_pages(chapter)`: the fetch error, or the RuntimeError naming the
      chapter URL when there is no select.m, or else one page per option in
      option order with the pages numbered 0 left out. */
  lemma GetPagesSpec(a: MangafoxAdapter, fetch: string -> Result<Html>, chapter: ChapterV)
    ensures fetch(Show(chapter.url)).Err? ==> a.GetPages(fetch, chapter) == Err(fetch(Show(chapter.url)).error)
    ensures fetch(Show(chapter.url)).Ok? && fetch(Show(chapter.url)).value.options.None? ==>
      a.GetPages(fetch, chapter) == Err(RuntimeError(Show(chapter.url) + " does not contain a select.m"))
    ensures a.GetPages(fetch, chapter).Ok? ==>
      var options := fetch(Show(chapter.url)).value.options.value;
      var all := MapResult((o: string) => a.MakePage(o, chapter), options).value;
      |all| == |options| &&
      (forall i :: 0 <= i < |options| ==> all[i] == a.MakePage(options[i], chapter).value) &&
      a.GetPages(fetch, chapter).value == KeepNonZero(all) &&
      forall p :: p in a.GetPages(fetch, chapter).value <==> p in all && p.number != Int(0)
  {
    if a.GetPages(fetch, chapter).Ok? {
      var options := fetch(Show(chapter.url)).value.options.value;
      KeepNonZeroMembers(MapResult((o: string) => a.MakePage(o, chapter), options).value);
    }
  }

  /** `get_image(page)`: the source of img#image, a RuntimeError naming the
      page URL when the page has none, or KeyError when it has no `src`. */
  lemma GetImageSpec(a: MangafoxAdapter, fetch: string -> Result<Html>, page: PageV)
    ensures fetch(Show(page.url)).Err? ==> a.GetImage(fetch, page) == Err(fetch(Show(page.url)).error)
    ensures fetch(Show(page.url)).Ok? ==>
      var html := fetch(Show(page.url)).value;
      (html.image.NoImage? ==> a.GetImage(fetch, page) == Err(RuntimeError(Show(page.url) + " does not contain an img#image"))) &&
      (html.image.NoImageSource? ==> a.GetImage(fetch, page) == Err(KeyError("src"))) &&
      (html.image.ImageSource? ==> a.GetImage(fetch, page) == Ok(html.image.src))
  {
  }

  /** `get_meta()`: the fetch error, AttributeError when the page has no h1,
      then the cover's error, or else the series' slug with the title and
      cover URL as strings. */
  lemma GetMetaSpec(a: MangafoxAdapter, fetch: string -> Result<Html>)
    ensures fetch(a.mangaUrl).Err? ==> a.GetMeta(fetch) == Err(fetch(a.mangaUrl).error)
    ensures fetch(a.mangaUrl).Ok? ==>
      var html := fetch(a.mangaUrl).value;
      (a.GetMeta(fetch).Ok? <==> html.h1.Some? && html.cover.Source?) &&
      (html.h1.None? ==> a.GetMeta(fetch) == Err(AttributeError)) &&
      (html.h1.Some? && !html.cover.Source? ==> a.GetMeta(fetch) == Err(CoverSource(html.cover).error)) &&
      (a.GetMeta(fetch).Ok? ==>
        a.GetMeta(fetch).value.slug == a.slug && a.GetMeta(fetch).value.coverUrl == Str(html.cover.src) &&
        a.GetMeta(fetch).value.title == Show(html.h1.value))
  {
  }

  /** `get_chapters()`: one chapter per "tips" link, in link order, each with
      the link's URL and no pages; a link the pattern does not match raises
      AttributeError. */
  lemma GetChaptersSpec(a: MangafoxAdapter, fetch: string -> Result<Html>)
    ensures fetch(a.mangaUrl).Err? ==> a.GetChapters(fetch) == Err(fetch(a.mangaUrl).error)
    ensures fetch(a.mangaUrl).Ok? ==>
      var tips := fetch(a.mangaUrl).value.tips;
      (a.GetChapters(fetch).Ok? <==> forall i :: 0 <= i < |tips| ==> MatchUrl(tips[i].href).Some?) &&
      (a.GetChapters(fetch).Err? ==> a.GetChapters(fetch).error == AttributeError)
    ensures a.GetChapters(fetch).Ok? ==>
      var tips := fetch(a.mangaUrl).value.tips;
      var cs := a.GetChapters(fetch).value;
      |cs| == |tips| &&
      forall i :: 0 <= i < |tips| ==> cs[i] == a.MakeChapter(tips[i]).value && cs[i].url == Str(tips[i].href) && cs[i].pages == []
  {
    if fetch(a.mangaUrl).Ok? {
      var tips := fetch(a.mangaUrl).value.tips;
      if a.GetChapters(fetch).Ok? {
        var cs := a.GetChapters(fetch).value;
        assert forall i :: 0 <= i < |tips| ==> cs[i] == a.MakeChapter(tips[i]).value;
      }
    }
  }

  /** The adapter built for a URL of the site's form has that URL's slug. */
  lemma MangafoxOfHref(slug: string, volume: Option<string>, chapter: string, page: string)
    requires IsSlug(slug) && IsSegment(chapter) && IsSegment(page)
    requires volume.Some? ==> IsSegment(volume.value)
    ensures Mangafox(ChapterHref(slug, volume, chapter, page)) == Ok(MangafoxAdapter(ChapterHref(slug, volume, chapter, page), slug))
  {
    MatchChapterHref(slug, volume, chapter, page);
  }

  /** A URL that does not start with "http://mangafox" is refused. */
  lemma MangafoxRefuses(url: string)
    requires !StartsWith(url, "http://mangafox")
    ensures Mangafox(url) == Err(RuntimeError("URL does not match mangafox pattern"))
  {
  }
}
