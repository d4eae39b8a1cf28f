/** The CBZ output format of src/masc/format.py: an `ArchiveAdapter` writes a
    volume as a zip archive with one image entry per page, chapter by chapter
    and page by page in ascending number order, fetching images through the
    download cache. */
module Format {
  import opened Py
  import opened Data
  import opened Util
  import opened Site

  // ---------------------------------------------------------------------------
  // Visiting order: `sorted(..., key=lambda x: x.number)`, taken as the
  // sorted order of the positions, so that what is updated in place can be
  // written back at its position

  function Range(n: nat): (r: seq<int>)
    ensures |r| == n && forall i {:trigger r[i]} :: 0 <= i < n ==> r[i] == i
  {
    if n == 0 then [] else Range(n - 1) + [n - 1]
  }

  /** The positions of `s` in ascending order of `key1` (the key of the
      element at a position): they sort `s` exactly as `sorted` does, and
      every position of `s` comes once. */
  lemma IndexOrder<T>(s: seq<T>, at: int -> T, key: T -> Value, key1: int -> Value)
    requires forall i :: 0 <= i < |s| ==> at(i) == s[i]
    requires forall y :: key(at(y)) == key1(y)
    ensures SortBy(Range(|s|), key1).Ok? <==> SortBy(s, key).Ok?
    ensures SortBy(Range(|s|), key1).Err? ==> SortBy(Range(|s|), key1).error == TypeError
    ensures SortBy(Range(|s|), key1).Ok? ==>
      var order := SortBy(Range(|s|), key1).value;
      MapSeq(at, order) == SortBy(s, key).value &&
      multiset(order) == multiset(Range(|s|)) &&
      forall i :: 0 <= i < |order| ==> 0 <= order[i] < |s|
  {
    var r := Range(|s|);
    forall y: int
      ensures key(at(y)) == key1(y)
    {
    }
    SortMap(r, at, key1, key);
    assert MapSeq(at, r) == s;
    SortByCorrect(r, key1);
    if SortBy(r, key1).Ok? {
      var order := SortBy(r, key1).value;
      forall i | 0 <= i < |order|
        ensures 0 <= order[i] < |s|
      {
        assert order[i] in multiset(order);
        assert order[i] in r;
      }
    }
  }

  const NoChapter := ChapterV(Null, "", Null, Null, [])
  const NoPage := PageV(Null, Null, Null)

  function ChapterAt(cs: seq<ChapterV>): int -> ChapterV
  {
    (i: int) => if 0 <= i < |cs| then cs[i] else NoChapter
  }

  function PageAt(ps: seq<PageV>): int -> PageV
  {
    (i: int) => if 0 <= i < |ps| then ps[i] else NoPage
  }

  function ChapterNumber(c: ChapterV): Value { c.number }

  function PageNumber(p: PageV): Value { p.number }

  function ChapterOrder(cs: seq<ChapterV>): Result<seq<int>>
  {
    SortBy(Range(|cs|), (i: int) => ChapterNumber(ChapterAt(cs)(i)))
  }

  function PageOrder(ps: seq<PageV>): Result<seq<int>>
  {
    SortBy(Range(|ps|), (i: int) => PageNumber(PageAt(ps)(i)))
  }

  lemma ChapterOrderSorts(cs: seq<ChapterV>)
    ensures ChapterOrder(cs).Ok? <==> SortBy(cs, ChapterNumber).Ok?
    ensures ChapterOrder(cs).Err? ==> ChapterOrder(cs).error == TypeError
    ensures ChapterOrder(cs).Ok? ==>
      MapSeq(ChapterAt(cs), ChapterOrder(cs).value) == SortBy(cs, ChapterNumber).value &&
      multiset(ChapterOrder(cs).value) == multiset(Range(|cs|)) &&
      forall i :: 0 <= i < |ChapterOrder(cs).value| ==> 0 <= ChapterOrder(cs).value[i] < |cs|
  {
    IndexOrder(cs, ChapterAt(cs), ChapterNumber, (i: int) => ChapterNumber(ChapterAt(cs)(i)));
  }

  lemma PageOrderSorts(ps: seq<PageV>)
    ensures PageOrder(ps).Ok? <==> SortBy(ps, PageNumber).Ok?
    ensures PageOrder(ps).Err? ==> PageOrder(ps).error == TypeError
    ensures PageOrder(ps).Ok? ==>
      MapSeq(PageAt(ps), PageOrder(ps).value) == SortBy(ps, PageNumber).value &&
      multiset(PageOrder(ps).value) == multiset(Range(|ps|)) &&
      forall i :: 0 <= i < |PageOrder(ps).value| ==> 0 <= PageOrder(ps).value[i] < |ps|
  {
    IndexOrder(ps, PageAt(ps), PageNumber, (i: int) => PageNumber(PageAt(ps)(i)));
  }

  // ---------------------------------------------------------------------------
  // One page

  /** The entry name `'ch{}-p{:02d}.jpg'.format(chapter.number, int(page.number))`. */
  function PageName(chapter: Value, page: int): string
  {
    "ch" + Show(chapter) + "-p" + ZeroPadInt(page, 2) + ".jpg"
  }

  /** The page once `build_chapter` has looked at it: a page without an image
      URL gets the adapter's. */
  function ResolvedPage(a: SiteAdapter, p: PageV): PageV
  {
    if p.imageUrl.Null? && a.image(p).Ok? then p.(imageUrl := Str(a.image(p).value)) else p
  }

  /** Where `fetch_cached` keeps the image of a page. */
  function ImagePath(sha1: string -> string, p: PageV): string
  {
    CachePath(sha1(Show(p.imageUrl)))
  }

  function SetPage(cs: seq<ChapterV>, ci: int, pi: int, p: PageV): (r: seq<ChapterV>)
    requires 0 <= ci < |cs| && 0 <= pi < |cs[ci].pages|
  {
    cs[ci := cs[ci].(pages := cs[ci].pages[pi := p])]
  }

  /** What the archive writer holds while it runs: the volume's chapters (whose
      pages it updates), the download cache, and the entries written so far. */
  datatype Progress = Progress(chapters: seq<ChapterV>, cache: CacheState, entries: seq<Entry>)

  datatype ArchiveAdapter = ArchiveAdapter(adapter: SiteAdapter)
  {
    function FileFormat(): string
    {
      ".cbz"
    }

    /** One iteration of the page loop of `build_chapter`, for page `pi` of
        chapter `ci`: `int(page.number)` for the name, the image URL from the
        adapter when the page has none (stored on the page), the image from
        the cache, and the entry. */
    function PageStep(sha1: string -> string, web: string -> Response, ci: int, pi: int, s: Progress): (Outcome, Progress)
    {
      if !(0 <= ci < |s.chapters| && 0 <= pi < |s.chapters[ci].pages|) then (Pass, s)
      else
        var c := s.chapters[ci];
        var p := c.pages[pi];
        match ToInt(p.number)
        case Err(e) => (Fail(e), s)
        case Ok(n) =>
          if p.imageUrl.Null? && adapter.image(p).Err? then (Fail(adapter.image(p).error), s)
          else
            var p1 := ResolvedPage(adapter, p);
            var fetched := Fetch(s.cache, Show(p1.imageUrl), ImagePath(sha1, p1), web);
            var s1 := Progress(SetPage(s.chapters, ci, pi, p1), fetched.1, s.entries);
            if fetched.0.Err? then (Fail(fetched.0.error), s1)
            else (Pass, s1.(entries := s.entries + [Entry(PageName(c.number, n), fetched.0.value)]))
    }

    /** The page loop over the positions `pis`; the first exception stops it. */
    function PagesRun(sha1: string -> string, web: string -> Response, ci: int, pis: seq<int>, s: Progress): (Outcome, Progress)
      decreases |pis|
    {
      if pis == [] then (Pass, s)
      else
        var step := PageStep(sha1, web, ci, pis[0], s);
        if step.0.Fail? then step else PagesRun(sha1, web, ci, pis[1..], step.1)
    }

    /** `build_chapter(chapter, archive)` for chapter `ci`: its pages in
        ascending number order. */
    function ChapterStep(sha1: string -> string, web: string -> Response, ci: int, s: Progress): (Outcome, Progress)
    {
      var ps := if 0 <= ci < |s.chapters| then s.chapters[ci].pages else [];
      match PageOrder(ps)
      case Err(e) => (Fail(e), s)
      case Ok(pis) => PagesRun(sha1, web, ci, pis, s)
    }

    function ChaptersRun(sha1: string -> string, web: string -> Response, cis: seq<int>, s: Progress): (Outcome, Progress)
      decreases |cis|
    {
      if cis == [] then (Pass, s)
      else
        var step := ChapterStep(sha1, web, cis[0], s);
        if step.0.Fail? then step else ChaptersRun(sha1, web, cis[1..], step.1)
    }

    /** `build_volume(filename, volume, metadata)`: the outcome, the volume
        with the pages as the run left them, the files, and the cache. The
        chapters are sorted before the archive is opened; a FetchError is
        reported and the archive removed; any other exception escapes and
        leaves the archive open, with its entries written but not its central
        directory. */
    function VolumeBuild(sha1: string -> string, web: string -> Response, filename: string, v: VolumeV,
                         files: map<string, File>, cache: CacheState): (Outcome, VolumeV, map<string, File>, CacheState)
    {
      match ChapterOrder(v.chapters)
      case Err(e) => (Fail(e), v, files, cache)
      case Ok(cis) =>
        var run := ChaptersRun(sha1, web, cis, Progress(v.chapters, cache, []));
        var v1 := v.(chapters := run.1.chapters);
        if run.0.Pass? then (Pass, v1, files[filename := Zip(run.1.entries)], run.1.cache)
        else if run.0.error.FetchError? then (Pass, v1, files - {filename}, run.1.cache)
        else (run.0, v1, files[filename := Unclosed(run.1.entries)], run.1.cache)
    }

    /** The inner `build_chapter`. */
    method BuildChapter(cache: Cache, sha1: string -> string, web: string -> Response, ci: int,
                        chapters: seq<ChapterV>, entries: seq<Entry>)
      returns (o: Outcome, chapters1: seq<ChapterV>, entries1: seq<Entry>)
      modifies cache
      ensures (o, Progress(chapters1, cache.State(), entries1)) ==
        ChapterStep(sha1, web, ci, Progress(chapters, old(cache.State()), entries))
    {
      var ps := if 0 <= ci < |chapters| then chapters[ci].pages else [];
      var order := PageOrder(ps);
      if order.Err? {
        return Fail(order.error), chapters, entries;
      }
      var pis := order.value;
      PageOrderSorts(ps);
      chapters1, entries1 := chapters, entries;
      ghost var s0 := Progress(chapters, cache.State(), entries);
      for j := 0 to |pis|
        invariant |chapters1| == |chapters| && (0 <= ci < |chapters| ==> |chapters1[ci].pages| == |ps|)
        invariant PagesRun(sha1, web, ci, pis, s0) == PagesRun(sha1, web, ci, pis[j..], Progress(chapters1, cache.State(), entries1))
      {
        ghost var cur := Progress(chapters1, cache.State(), entries1);
        assert pis[j..][0] == pis[j] && pis[j..][1..] == pis[j + 1..];
        var pi := pis[j];
        var c := chapters1[ci];
        var page := c.pages[pi];
        var n := ToInt(page.number);
        if n.Err? {
          return Fail(n.error), chapters1, entries1;
        }
        if page.imageUrl.Null? {
          var url := adapter.image(page);
          if url.Err? {
            return Fail(url.error), chapters1, entries1;
          }
          page := page.(imageUrl := Str(url.value));
        }
        assert page == ResolvedPage(adapter, c.pages[pi]);
        chapters1 := SetPage(chapters1, ci, pi, page);
        var content := cache.FetchCached(Show(page.imageUrl), sha1, web);
        if content.Err? {
          return Fail(content.error), chapters1, entries1;
        }
        entries1 := entries1 + [Entry(PageName(c.number, n.value), content.value)];
        assert PageStep(sha1, web, ci, pi, cur) == (Pass, Progress(chapters1, cache.State(), entries1));
      }
      return Pass, chapters1, entries1;
    }

    /** The chapter loop of `build_volume`, over the chapter positions `cis`. */
    method BuildChapters(cache: Cache, sha1: string -> string, web: string -> Response, cis: seq<int>, chapters0: seq<ChapterV>)
      returns (o: Outcome, chapters: seq<ChapterV>, entries: seq<Entry>)
      modifies cache
      ensures (o, Progress(chapters, cache.State(), entries)) == ChaptersRun(sha1, web, cis, Progress(chapters0, old(cache.State()), []))
    {
      chapters, entries := chapters0, [];
      ghost var s0 := Progress(chapters, cache.State(), entries);
      var k := 0;
      o := Pass;
      while k < |cis| && o.Pass?
        invariant 0 <= k <= |cis|
        invariant o.Pass? ==> ChaptersRun(sha1, web, cis, s0) == ChaptersRun(sha1, web, cis[k..], Progress(chapters, cache.State(), entries))
        invariant o.Fail? ==> ChaptersRun(sha1, web, cis, s0) == (o, Progress(chapters, cache.State(), entries))
        decreases |cis| - k
      {
        assert cis[k..][0] == cis[k] && cis[k..][1..] == cis[k + 1..];
        o, chapters, entries := BuildChapter(cache, sha1, web, cis[k], chapters, entries);
        k := k + 1;
      }
      if o.Pass? {
        assert cis[k..] == [];
      }
    }

    /** `build_volume(filename, volume, metadata)`; `disk` holds the output
        files, `cache` the download cache. Returns the volume with its pages
        as updated in place. */
    method BuildVolume(disk: Disk, cache: Cache, sha1: string -> string, web: string -> Response, filename: string, volume: VolumeV)
      returns (r: Outcome, updated: VolumeV)
      modifies disk, cache
      ensures (r, updated, disk.files, cache.State()) ==
        VolumeBuild(sha1, web, filename, volume, old(disk.files), old(cache.State()))
    {
      var order := ChapterOrder(volume.chapters);
      if order.Err? {
        return Fail(order.error), volume;
      }
      var cis := order.value;
      disk.Write(filename, Zip([]));
      var o, chapters, entries := BuildChapters(cache, sha1, web, cis, volume.chapters);
      ghost var afterOpen := disk.files;
      assert afterOpen == old(disk.files)[filename := Zip([])];
      updated := volume.(chapters := chapters);
      if o.Pass? {
        disk.Write(filename, Zip(entries));
        assert disk.files == old(disk.files)[filename := Zip(entries)];
        r := Pass;
      } else if o.error.FetchError? {
        disk.Remove(filename);
        assert disk.files == old(disk.files) - {filename};
        r := Pass;
      } else {
        disk.Write(filename, Unclosed(entries));
        assert disk.files == old(disk.files)[filename := Unclosed(entries)];
        r := o;
      }
    }
  }

  /** `cbz(adapter)`. */
  function Cbz(adapter: SiteAdapter): (r: ArchiveAdapter)
    ensures r.adapter == adapter && r.FileFormat() == ".cbz"
  {
    ArchiveAdapter(adapter)
  }

  // ---------------------------------------------------------------------------
  // What a run that raises nothing writes

  /** Every file of the first cache is in the second with the same bytes. */
  predicate Grows(f0: map<string, Bytes>, f1: map<string, Bytes>)
  {
    forall k :: k in f0 ==> k in f1 && f1[k] == f0[k]
  }

  function Lookup(files: map<string, Bytes>, path: string): Bytes
  {
    if path in files then files[path] else []
  }

  function IntOr0(v: Value): int
  {
    if ToInt(v).Ok? then ToInt(v).value else 0
  }

  /** The entry for page `p` of the chapter numbered `number`: its name, and
      the cached image of its URL. */
  function EntryFor(sha1: string -> string, files: map<string, Bytes>, number: Value, p: PageV): Entry
  {
    Entry(PageName(number, IntOr0(p.number)), Lookup(files, ImagePath(sha1, p)))
  }

  function PageEntries(sha1: string -> string, files: map<string, Bytes>, number: Value, ps: seq<PageV>): (r: seq<Entry>)
    ensures |r| == |ps| && forall k {:trigger r[k]} :: 0 <= k < |ps| ==> r[k] == EntryFor(sha1, files, number, ps[k])
  {
    if ps == [] then [] else [EntryFor(sha1, files, number, ps[0])] + PageEntries(sha1, files, number, ps[1..])
  }

  /** The entries of a chapter: one per page, in ascending page number. */
  function ChapterEntries(sha1: string -> string, files: map<string, Bytes>, c: ChapterV): seq<Entry>
  {
    match SortBy(c.pages, PageNumber)
    case Ok(ps) => PageEntries(sha1, files, c.number, ps)
    case Err(_) => []
  }

  /** The entries of the chapters `cs`, one chapter after the other. */
  function VolumeEntries(sha1: string -> string, files: map<string, Bytes>, cs: seq<ChapterV>): seq<Entry>
  {
    if cs == [] then [] else ChapterEntries(sha1, files, cs[0]) + VolumeEntries(sha1, files, cs[1..])
  }

  function ResolvedPages(a: SiteAdapter, ps: seq<PageV>): (r: seq<PageV>)
    ensures |r| == |ps| && forall k {:trigger r[k]} :: 0 <= k < |ps| ==> r[k] == ResolvedPage(a, ps[k])
  {
    seq(|ps|, k requires 0 <= k < |ps| => ResolvedPage(a, ps[k]))
  }

  function ResolvedChapter(a: SiteAdapter, c: ChapterV): ChapterV
  {
    c.(pages := ResolvedPages(a, c.pages))
  }

  function ResolvedChapters(a: SiteAdapter, cs: seq<ChapterV>): (r: seq<ChapterV>)
    ensures |r| == |cs| && forall k {:trigger r[k]} :: 0 <= k < |cs| ==> r[k] == ResolvedChapter(a, cs[k])
  {
    seq(|cs|, k requires 0 <= k < |cs| => ResolvedChapter(a, cs[k]))
  }

  /** A chapter every page of which made it into the archive: its pages can
      be sorted, every page number converts with `int()`, every page has an
      image URL and its image is in the cache. */
  predicate ChapterDone(sha1: string -> string, files: map<string, Bytes>, c: ChapterV)
  {
    SortBy(c.pages, PageNumber).Ok? &&
    forall q :: 0 <= q < |c.pages| ==>
      ToInt(c.pages[q].number).Ok? && !c.pages[q].imageUrl.Null? && ImagePath(sha1, c.pages[q]) in files
  }

  lemma ResolvedPageTwice(a: SiteAdapter, p: PageV)
    ensures ResolvedPage(a, ResolvedPage(a, p)) == ResolvedPage(a, p)
    ensures ResolvedPage(a, p).number == p.number
  {
  }

  lemma ResolvedChapterTwice(a: SiteAdapter, c: ChapterV)
    ensures ResolvedChapter(a, ResolvedChapter(a, c)) == ResolvedChapter(a, c)
  {
    var r := ResolvedChapter(a, c).pages;
    forall k | 0 <= k < |r|
      ensures ResolvedPage(a, r[k]) == r[k]
    {
      ResolvedPageTwice(a, c.pages[k]);
    }
    assert ResolvedPages(a, r) == r;
  }

  /** `fetch_cached` only ever adds files, and a success leaves the file in
      the cache. */
  lemma FetchGrows(s: CacheState, url: string, path: string, web: string -> Response)
    ensures Grows(s.files, Fetch(s, url, path, web).1.files)
    ensures Fetch(s, url, path, web).0.Ok? ==>
      path in Fetch(s, url, path, web).1.files && Fetch(s, url, path, web).1.files[path] == Fetch(s, url, path, web).0.value
  {
  }

  lemma ChapterDoneStable(sha1: string -> string, f1: map<string, Bytes>, f2: map<string, Bytes>, c: ChapterV)
    requires ChapterDone(sha1, f1, c) && Grows(f1, f2)
    ensures ChapterDone(sha1, f2, c)
    ensures ChapterEntries(sha1, f1, c) == ChapterEntries(sha1, f2, c)
  {
    var ps := SortBy(c.pages, PageNumber).value;
    SortByCorrect(c.pages, PageNumber);
    forall k | 0 <= k < |ps|
      ensures EntryFor(sha1, f1, c.number, ps[k]) == EntryFor(sha1, f2, c.number, ps[k])
    {
      assert ps[k] in multiset(c.pages);
      var q :| 0 <= q < |c.pages| && c.pages[q] == ps[k];
    }
    assert PageEntries(sha1, f1, c.number, ps) == PageEntries(sha1, f2, c.number, ps);
  }

  /** One page that raises nothing: its entry is appended and the page, now
      with its image URL, is stored back at its position. */
  lemma PageStepPass(f: ArchiveAdapter, sha1: string -> string, web: string -> Response, ci: int, pi: int, s: Progress)
    requires 0 <= ci < |s.chapters| && 0 <= pi < |s.chapters[ci].pages|
    ensures Grows(s.cache.files, f.PageStep(sha1, web, ci, pi, s).1.cache.files)
    ensures var t := f.PageStep(sha1, web, ci, pi, s).1;
      var c := s.chapters[ci];
      var p1 := ResolvedPage(f.adapter, c.pages[pi]);
      f.PageStep(sha1, web, ci, pi, s).0.Pass? ==>
        ToInt(p1.number).Ok? && !p1.imageUrl.Null? && ImagePath(sha1, p1) in t.cache.files &&
        t.chapters == SetPage(s.chapters, ci, pi, p1) &&
        t.entries == s.entries + [Entry(PageName(c.number, IntOr0(p1.number)), t.cache.files[ImagePath(sha1, p1)])]
  {
    var p := s.chapters[ci].pages[pi];
    var p1 := ResolvedPage(f.adapter, p);
    FetchGrows(s.cache, Show(p1.imageUrl), ImagePath(sha1, p1), web);
  }

  /** A page that made it into the archive. */
  predicate PageDone(sha1: string -> string, files: map<string, Bytes>, p: PageV)
  {
    ToInt(p.number).Ok? && !p.imageUrl.Null? && ImagePath(sha1, p) in files
  }

  /** `ts` is `cs` with the pages at positions `pis` of chapter `ci` given
      their image URLs, and nothing else changed. */
  predicate PagesResolved(a: SiteAdapter, ci: int, pis: seq<int>, cs: seq<ChapterV>, ts: seq<ChapterV>)
  {
    0 <= ci < |cs| && |ts| == |cs| &&
    (forall c2 :: 0 <= c2 < |cs| && c2 != ci ==> ts[c2] == cs[c2]) &&
    |ts[ci].pages| == |cs[ci].pages| && ts[ci] == cs[ci].(pages := ts[ci].pages) &&
    forall q :: 0 <= q < |cs[ci].pages| ==>
      ts[ci].pages[q] == if q in pis then ResolvedPage(a, cs[ci].pages[q]) else cs[ci].pages[q]
  }

  /** `e1` is `e0` followed by one entry per position of `pis`, naming the
      page of `pages` at that position and holding its cached image. */
  predicate EntriesAdded(sha1: string -> string, files: map<string, Bytes>, number: Value, pages: seq<PageV>,
                         pis: seq<int>, e0: seq<Entry>, e1: seq<Entry>)
  {
    |e1| == |e0| + |pis| && e1[..|e0|] == e0 &&
    forall k :: 0 <= k < |pis| ==>
      0 <= pis[k] < |pages| && e1[|e0| + k] == EntryFor(sha1, files, number, pages[pis[k]]) &&
      PageDone(sha1, files, pages[pis[k]])
  }

  lemma PagesResolvedCons(a: SiteAdapter, ci: int, pis: seq<int>, cs: seq<ChapterV>, ts: seq<ChapterV>)
    requires pis != [] && 0 <= ci < |cs| && 0 <= pis[0] < |cs[ci].pages|
    requires PagesResolved(a, ci, pis[1..], SetPage(cs, ci, pis[0], ResolvedPage(a, cs[ci].pages[pis[0]])), ts)
    ensures PagesResolved(a, ci, pis, cs, ts)
  {
    var c := cs[ci];
    forall q | 0 <= q < |c.pages|
      ensures ts[ci].pages[q] == if q in pis then ResolvedPage(a, c.pages[q]) else c.pages[q]
    {
      ResolvedPageTwice(a, c.pages[q]);
      assert q in pis <==> q == pis[0] || q in pis[1..];
    }
  }

  lemma EntriesAddedCons(sha1: string -> string, files: map<string, Bytes>, number: Value, pages: seq<PageV>,
                         pis: seq<int>, e0: seq<Entry>, e: Entry, e1: seq<Entry>)
    requires pis != [] && 0 <= pis[0] < |pages|
    requires e == EntryFor(sha1, files, number, pages[pis[0]]) && PageDone(sha1, files, pages[pis[0]])
    requires EntriesAdded(sha1, files, number, pages, pis[1..], e0 + [e], e1)
    ensures EntriesAdded(sha1, files, number, pages, pis, e0, e1)
  {
    forall k | 0 <= k < |pis|
      ensures 0 <= pis[k] < |pages| && e1[|e0| + k] == EntryFor(sha1, files, number, pages[pis[k]]) &&
        PageDone(sha1, files, pages[pis[k]])
    {
      if k > 0 {
        assert pis[k] == pis[1..][k - 1];
        assert |e0| + k == |e0 + [e]| + (k - 1);
      } else {
        assert e1[..|e0 + [e]|][|e0|] == e;
      }
    }
    assert e1[..|e0|] == e1[..|e0 + [e]|][..|e0|];
  }

  /** The page loop over positions `pis` of chapter `ci`, when it raises
      nothing: the pages at those positions get their image URLs, nothing
      else changes, and one entry per position is appended, in the order of
      `pis`, naming that page and holding its cached image. */
  lemma {:induction false} PagesRunPass(f: ArchiveAdapter, sha1: string -> string, web: string -> Response, ci: int, pis: seq<int>, s: Progress)
    requires 0 <= ci < |s.chapters|
    requires forall k :: 0 <= k < |pis| ==> 0 <= pis[k] < |s.chapters[ci].pages|
    ensures Grows(s.cache.files, f.PagesRun(sha1, web, ci, pis, s).1.cache.files)
    ensures var (o, t) := f.PagesRun(sha1, web, ci, pis, s);
      o.Pass? ==>
        PagesResolved(f.adapter, ci, pis, s.chapters, t.chapters) &&
        EntriesAdded(sha1, t.cache.files, s.chapters[ci].number, t.chapters[ci].pages, pis, s.entries, t.entries)
    decreases |pis|
  {
    if pis != [] {
      var c := s.chapters[ci];
      var pi := pis[0];
      var step := f.PageStep(sha1, web, ci, pi, s);
      PageStepPass(f, sha1, web, ci, pi, s);
      if step.0.Pass? {
        var s1 := step.1;
        var p1 := ResolvedPage(f.adapter, c.pages[pi]);
        PagesRunPass(f, sha1, web, ci, pis[1..], s1);
        var (o, t) := f.PagesRun(sha1, web, ci, pis[1..], s1);
        assert f.PagesRun(sha1, web, ci, pis, s) == (o, t);
        if o.Pass? {
          assert s1.chapters[ci].number == c.number;
          PagesResolvedCons(f.adapter, ci, pis, s.chapters, t.chapters);
          assert t.chapters[ci].pages[pi] == p1;
          var e := Entry(PageName(c.number, IntOr0(p1.number)), s1.cache.files[ImagePath(sha1, p1)]);
          assert e == EntryFor(sha1, t.cache.files, c.number, p1);
          EntriesAddedCons(sha1, t.cache.files, c.number, t.chapters[ci].pages, pis, s.entries, e, t.entries);
        }
      }
    }
  }

  /** Resolving image URLs does not change the numbers, so it does not change
      how the pages sort. */
  lemma SortResolvedPages(a: SiteAdapter, ps: seq<PageV>)
    ensures SortBy(ResolvedPages(a, ps), PageNumber).Ok? <==> SortBy(ps, PageNumber).Ok?
    ensures SortBy(ps, PageNumber).Ok? ==>
      var sorted := SortBy(ps, PageNumber).value;
      |SortBy(ResolvedPages(a, ps), PageNumber).value| == |sorted| &&
      forall k :: 0 <= k < |sorted| ==> SortBy(ResolvedPages(a, ps), PageNumber).value[k] == ResolvedPage(a, sorted[k])
  {
    var rp := (p: PageV) => ResolvedPage(a, p);
    forall y ensures PageNumber(rp(y)) == PageNumber(y) {
      ResolvedPageTwice(a, y);
    }
    SortMap(ps, rp, PageNumber, PageNumber);
    assert MapSeq(rp, ps) == ResolvedPages(a, ps);
  }

  lemma SortResolvedChapters(a: SiteAdapter, cs: seq<ChapterV>)
    ensures SortBy(ResolvedChapters(a, cs), ChapterNumber).Ok? <==> SortBy(cs, ChapterNumber).Ok?
    ensures SortBy(cs, ChapterNumber).Ok? ==>
      var sorted := SortBy(cs, ChapterNumber).value;
      |SortBy(ResolvedChapters(a, cs), ChapterNumber).value| == |sorted| &&
      forall k :: 0 <= k < |sorted| ==> SortBy(ResolvedChapters(a, cs), ChapterNumber).value[k] == ResolvedChapter(a, sorted[k])
  {
    var rc := (c: ChapterV) => ResolvedChapter(a, c);
    SortMap(cs, rc, ChapterNumber, ChapterNumber);
    assert MapSeq(rc, cs) == ResolvedChapters(a, cs);
  }

  /** Sorted positions of a sequence cover all of its positions. */
  lemma OrderCovers(order: seq<int>, n: nat, q: int)
    requires multiset(order) == multiset(Range(n)) && 0 <= q < n
    ensures q in order
  {
    assert Range(n)[q] == q;
    assert q in multiset(Range(n));
  }

  /** Positions that cover the chapter resolve all of it. */
  lemma ResolvedWhole(a: SiteAdapter, ci: int, pis: seq<int>, cs: seq<ChapterV>, ts: seq<ChapterV>)
    requires PagesResolved(a, ci, pis, cs, ts)
    requires multiset(pis) == multiset(Range(|cs[ci].pages|))
    ensures ts == cs[ci := ResolvedChapter(a, cs[ci])]
  {
    var rc := ResolvedChapter(a, cs[ci]);
    forall q | 0 <= q < |cs[ci].pages|
      ensures ts[ci].pages[q] == rc.pages[q]
    {
      OrderCovers(pis, |cs[ci].pages|, q);
    }
    assert ts[ci] == rc;
  }

  /** Entries added in page order are the chapter's entries. */
  lemma EntriesOfChapter(a: SiteAdapter, sha1: string -> string, files: map<string, Bytes>, c: ChapterV,
                         pis: seq<int>, e0: seq<Entry>, e1: seq<Entry>)
    requires PageOrder(c.pages) == Ok(pis)
    requires EntriesAdded(sha1, files, c.number, ResolvedChapter(a, c).pages, pis, e0, e1)
    ensures e1 == e0 + ChapterEntries(sha1, files, ResolvedChapter(a, c))
    ensures ChapterDone(sha1, files, ResolvedChapter(a, c))
  {
    var rc := ResolvedChapter(a, c);
    PageOrderSorts(c.pages);
    SortResolvedPages(a, c.pages);
    var sorted := SortBy(rc.pages, PageNumber).value;
    forall k | 0 <= k < |pis|
      ensures sorted[k] == rc.pages[pis[k]]
    {
      assert SortBy(c.pages, PageNumber).value[k] == PageAt(c.pages)(pis[k]);
    }
    var es := PageEntries(sha1, files, c.number, sorted);
    assert e1[|e0|..] == es;
    assert e1 == e1[..|e0|] + e1[|e0|..];
    forall q | 0 <= q < |rc.pages|
      ensures PageDone(sha1, files, rc.pages[q])
    {
      OrderCovers(pis, |c.pages|, q);
      var k :| 0 <= k < |pis| && pis[k] == q;
    }
  }

  /** `build_chapter` for chapter `ci`, when it raises nothing: every page of
      the chapter gets its image URL, and the chapter's entries are appended,
      one per page in ascending page number. */
  lemma ChapterStepPass(f: ArchiveAdapter, sha1: string -> string, web: string -> Response, ci: int, s: Progress)
    requires 0 <= ci < |s.chapters|
    ensures Grows(s.cache.files, f.ChapterStep(sha1, web, ci, s).1.cache.files)
    ensures var (o, t) := f.ChapterStep(sha1, web, ci, s);
      var rc := ResolvedChapter(f.adapter, s.chapters[ci]);
      o.Pass? ==>
        t.chapters == s.chapters[ci := rc] && ChapterDone(sha1, t.cache.files, rc) &&
        t.entries == s.entries + ChapterEntries(sha1, t.cache.files, rc)
  {
    var c := s.chapters[ci];
    PageOrderSorts(c.pages);
    if PageOrder(c.pages).Ok? {
      var pis := PageOrder(c.pages).value;
      PagesRunPass(f, sha1, web, ci, pis, s);
      var (o, t) := f.PagesRun(sha1, web, ci, pis, s);
      if o.Pass? {
        ResolvedWhole(f.adapter, ci, pis, s.chapters, t.chapters);
        EntriesOfChapter(f.adapter, sha1, t.cache.files, c, pis, s.entries, t.entries);
      }
    }
  }

  /** `ts` is `cs` with the chapters at positions `cis` resolved, and nothing
      else changed. */
  predicate ChaptersResolved(a: SiteAdapter, cis: seq<int>, cs: seq<ChapterV>, ts: seq<ChapterV>)
  {
    |ts| == |cs| &&
    forall q :: 0 <= q < |cs| ==> ts[q] == if q in cis then ResolvedChapter(a, cs[q]) else cs[q]
  }

  /** The chapters at positions `cis`, in that order, as the archive writer
      leaves them. */
  function Visited(a: SiteAdapter, cs: seq<ChapterV>, cis: seq<int>): (r: seq<ChapterV>)
    ensures |r| == |cis| && forall k {:trigger r[k]} :: 0 <= k < |cis| ==> r[k] == ResolvedChapter(a, ChapterAt(cs)(cis[k]))
  {
    seq(|cis|, k requires 0 <= k < |cis| => ResolvedChapter(a, ChapterAt(cs)(cis[k])))
  }

  /** `e1` is `e0` followed by the entries of the chapters `vs`, each of which
      made it into the archive. */
  predicate ChaptersAdded(sha1: string -> string, files: map<string, Bytes>, vs: seq<ChapterV>, e0: seq<Entry>, e1: seq<Entry>)
  {
    e1 == e0 + VolumeEntries(sha1, files, vs) &&
    forall k :: 0 <= k < |vs| ==> ChapterDone(sha1, files, vs[k])
  }

  lemma {:induction false} VolumeEntriesStable(sha1: string -> string, f1: map<string, Bytes>, f2: map<string, Bytes>, vs: seq<ChapterV>)
    requires Grows(f1, f2) && forall k :: 0 <= k < |vs| ==> ChapterDone(sha1, f1, vs[k])
    ensures VolumeEntries(sha1, f1, vs) == VolumeEntries(sha1, f2, vs)
    ensures forall k :: 0 <= k < |vs| ==> ChapterDone(sha1, f2, vs[k])
    decreases |vs|
  {
    forall k | 0 <= k < |vs|
      ensures ChapterDone(sha1, f2, vs[k])
    {
      ChapterDoneStable(sha1, f1, f2, vs[k]);
    }
    if vs != [] {
      ChapterDoneStable(sha1, f1, f2, vs[0]);
      VolumeEntriesStable(sha1, f1, f2, vs[1..]);
    }
  }

  /** Resolving chapter `cis[0]` first does not change what the later visits
      see, since resolving twice is resolving once. */
  lemma VisitedCons(a: SiteAdapter, cs: seq<ChapterV>, cis: seq<int>)
    requires cis != [] && 0 <= cis[0] < |cs|
    ensures Visited(a, cs, cis) ==
      [ResolvedChapter(a, cs[cis[0]])] + Visited(a, cs[cis[0] := ResolvedChapter(a, cs[cis[0]])], cis[1..])
  {
    var cs1 := cs[cis[0] := ResolvedChapter(a, cs[cis[0]])];
    ResolvedChapterTwice(a, cs[cis[0]]);
    forall k | 0 <= k < |cis| - 1
      ensures Visited(a, cs1, cis[1..])[k] == Visited(a, cs, cis)[k + 1]
    {
      assert cis[1..][k] == cis[k + 1];
    }
  }

  lemma ChaptersResolvedCons(a: SiteAdapter, cis: seq<int>, cs: seq<ChapterV>, ts: seq<ChapterV>)
    requires cis != [] && 0 <= cis[0] < |cs|
    requires ChaptersResolved(a, cis[1..], cs[cis[0] := ResolvedChapter(a, cs[cis[0]])], ts)
    ensures ChaptersResolved(a, cis, cs, ts)
  {
    forall q | 0 <= q < |cs|
      ensures ts[q] == if q in cis then ResolvedChapter(a, cs[q]) else cs[q]
    {
      ResolvedChapterTwice(a, cs[q]);
      assert q in cis <==> q == cis[0] || q in cis[1..];
    }
  }

  lemma ChaptersAddedCons(sha1: string -> string, f1: map<string, Bytes>, f2: map<string, Bytes>,
                          c: ChapterV, rest: seq<ChapterV>, e0: seq<Entry>, e1: seq<Entry>)
    requires ChapterDone(sha1, f1, c) && Grows(f1, f2)
    requires ChaptersAdded(sha1, f2, rest, e0 + ChapterEntries(sha1, f1, c), e1)
    ensures ChaptersAdded(sha1, f2, [c] + rest, e0, e1)
  {
    ChapterDoneStable(sha1, f1, f2, c);
    AllDoneCons(sha1, f2, c, rest);
    EntriesCons(sha1, f2, c, rest, e0, e1);
  }

  lemma AllDoneCons(sha1: string -> string, files: map<string, Bytes>, c: ChapterV, rest: seq<ChapterV>)
    requires ChapterDone(sha1, files, c) && forall k :: 0 <= k < |rest| ==> ChapterDone(sha1, files, rest[k])
    ensures forall k :: 0 <= k < |[c] + rest| ==> ChapterDone(sha1, files, ([c] + rest)[k])
  {
    var vs := [c] + rest;
    forall k | 0 <= k < |vs|
      ensures ChapterDone(sha1, files, vs[k])
    {
      if k > 0 {
        assert vs[k] == rest[k - 1];
      }
    }
  }

  lemma EntriesCons(sha1: string -> string, files: map<string, Bytes>, c: ChapterV, rest: seq<ChapterV>, e0: seq<Entry>, e1: seq<Entry>)
    requires e1 == e0 + ChapterEntries(sha1, files, c) + VolumeEntries(sha1, files, rest)
    ensures e1 == e0 + VolumeEntries(sha1, files, [c] + rest)
  {
    var vs := [c] + rest;
    var ce := ChapterEntries(sha1, files, c);
    var ve := VolumeEntries(sha1, files, rest);
    assert vs[1..] == rest;
    assert VolumeEntries(sha1, files, vs) == ce + ve;
    AppendAssoc(e0, ce, ve);
  }

  lemma AppendAssoc(a: seq<Entry>, b: seq<Entry>, c: seq<Entry>)
    ensures a + b + c == a + (b + c)
  {
  }

  /** The chapter loop over positions `cis`, when it raises nothing: those
      chapters are resolved, nothing else changes, and their entries are
      appended in the order of `cis`. The cache only grows, on every outcome. */
  lemma {:induction false} ChaptersRunPass(f: ArchiveAdapter, sha1: string -> string, web: string -> Response, cis: seq<int>, s: Progress)
    requires forall k :: 0 <= k < |cis| ==> 0 <= cis[k] < |s.chapters|
    ensures Grows(s.cache.files, f.ChaptersRun(sha1, web, cis, s).1.cache.files)
    ensures var (o, t) := f.ChaptersRun(sha1, web, cis, s);
      o.Pass? ==>
        ChaptersResolved(f.adapter, cis, s.chapters, t.chapters) &&
        ChaptersAdded(sha1, t.cache.files, Visited(f.adapter, s.chapters, cis), s.entries, t.entries)
    decreases |cis|
  {
    if cis != [] {
      var ci := cis[0];
      var rc := ResolvedChapter(f.adapter, s.chapters[ci]);
      ChapterStepPass(f, sha1, web, ci, s);
      var step := f.ChapterStep(sha1, web, ci, s);
      if step.0.Pass? {
        var s1 := step.1;
        assert forall k :: 0 <= k < |cis[1..]| ==> cis[1..][k] == cis[k + 1];
        ChaptersRunPass(f, sha1, web, cis[1..], s1);
        var (o, t) := f.ChaptersRun(sha1, web, cis[1..], s1);
        assert f.ChaptersRun(sha1, web, cis, s) == (o, t);
        if o.Pass? {
          ChaptersResolvedCons(f.adapter, cis, s.chapters, t.chapters);
          VisitedCons(f.adapter, s.chapters, cis);
          var rest := Visited(f.adapter, s1.chapters, cis[1..]);
          ChaptersAddedCons(sha1, s1.cache.files, t.cache.files, rc, rest, s.entries, t.entries);
        }
      }
    }
  }

  /** Chapter positions in sorted order cover the volume: the chapters the
      loop leaves are the resolved chapters, and the chapters it visited are
      those, sorted by number. */
  lemma VisitedSorted(a: SiteAdapter, cs: seq<ChapterV>, ts: seq<ChapterV>)
    requires ChapterOrder(cs).Ok?
    requires ChaptersResolved(a, ChapterOrder(cs).value, cs, ts)
    ensures ts == ResolvedChapters(a, cs)
    ensures SortBy(ts, ChapterNumber).Ok?
    ensures Visited(a, cs, ChapterOrder(cs).value) == SortBy(ts, ChapterNumber).value
  {
    var cis := ChapterOrder(cs).value;
    ChapterOrderSorts(cs);
    forall q | 0 <= q < |cs|
      ensures ts[q] == ResolvedChapter(a, cs[q])
    {
      OrderCovers(cis, |cs|, q);
    }
    assert ts == ResolvedChapters(a, cs);
    SortResolvedChapters(a, cs);
    var sorted := SortBy(cs, ChapterNumber).value;
    forall k | 0 <= k < |cis|
      ensures Visited(a, cs, cis)[k] == SortBy(ts, ChapterNumber).value[k]
    {
      assert sorted[k] == ChapterAt(cs)(cis[k]);
    }
  }

  /** `build_volume` changes no output file but `filename`, only adds to
      the cache, and returns a volume with as many chapters. */
  lemma VolumeBuildKeeps(f: ArchiveAdapter, sha1: string -> string, web: string -> Response, filename: string, v: VolumeV,
                         files: map<string, File>, cache: CacheState)
    ensures var (_, v1, files1, cache1) := f.VolumeBuild(sha1, web, filename, v, files, cache);
      Grows(cache.files, cache1.files) && |v1.chapters| == |v.chapters| &&
      forall k :: k != filename ==> (k in files1 <==> k in files) && (k in files ==> files1[k] == files[k])
  {
    ChapterOrderSorts(v.chapters);
    if ChapterOrder(v.chapters).Ok? {
      var cis := ChapterOrder(v.chapters).value;
      var s := Progress(v.chapters, cache, []);
      ChaptersRunPass(f, sha1, web, cis, s);
      ChaptersRunLength(f, sha1, web, cis, s);
    }
  }

  /** `build_volume` that completes: the archive holds, chapter by chapter in
      ascending chapter number and page by page in ascending page number, one
      entry per page with its cached image, and the returned volume has every
      page's image URL filled in. */
  lemma VolumeBuildWrites(f: ArchiveAdapter, sha1: string -> string, web: string -> Response, filename: string, v: VolumeV,
                          files: map<string, File>, cache: CacheState)
    ensures var (r, v1, files1, cache1) := f.VolumeBuild(sha1, web, filename, v, files, cache);
      r.Pass? && filename in files1 ==>
        v1 == v.(chapters := ResolvedChapters(f.adapter, v.chapters)) &&
        SortBy(v1.chapters, ChapterNumber).Ok? &&
        files1[filename] == Zip(VolumeEntries(sha1, cache1.files, SortBy(v1.chapters, ChapterNumber).value)) &&
        forall k :: 0 <= k < |v1.chapters| ==> ChapterDone(sha1, cache1.files, v1.chapters[k])
  {
    ChapterOrderSorts(v.chapters);
    if ChapterOrder(v.chapters).Ok? {
      var cis := ChapterOrder(v.chapters).value;
      var s := Progress(v.chapters, cache, []);
      ChaptersRunPass(f, sha1, web, cis, s);
      var (o, t) := f.ChaptersRun(sha1, web, cis, s);
      if o.Pass? {
        VolumeRunDone(f.adapter, sha1, v.chapters, t);
      }
    }
  }

  lemma VolumeRunDone(a: SiteAdapter, sha1: string -> string, cs: seq<ChapterV>, t: Progress)
    requires ChapterOrder(cs).Ok?
    requires ChaptersResolved(a, ChapterOrder(cs).value, cs, t.chapters)
    requires ChaptersAdded(sha1, t.cache.files, Visited(a, cs, ChapterOrder(cs).value), [], t.entries)
    ensures t.chapters == ResolvedChapters(a, cs) && SortBy(t.chapters, ChapterNumber).Ok?
    ensures t.entries == VolumeEntries(sha1, t.cache.files, SortBy(t.chapters, ChapterNumber).value)
    ensures forall k :: 0 <= k < |t.chapters| ==> ChapterDone(sha1, t.cache.files, t.chapters[k])
  {
    var cis := ChapterOrder(cs).value;
    ChapterOrderSorts(cs);
    VisitedSorted(a, cs, t.chapters);
    var vs := Visited(a, cs, cis);
    forall q | 0 <= q < |t.chapters|
      ensures ChapterDone(sha1, t.cache.files, t.chapters[q])
    {
      OrderCovers(cis, |cs|, q);
      var k :| 0 <= k < |cis| && cis[k] == q;
      assert vs[k] == t.chapters[q];
    }
  }

  /** Chapters that cannot be sorted raise a TypeError before anything is
      written. */
  lemma VolumeBuildUnsorted(f: ArchiveAdapter, sha1: string -> string, web: string -> Response, filename: string, v: VolumeV,
                            files: map<string, File>, cache: CacheState)
    ensures SortBy(v.chapters, ChapterNumber).Err? ==>
      f.VolumeBuild(sha1, web, filename, v, files, cache) == (Fail(TypeError), v, files, cache)
  {
    ChapterOrderSorts(v.chapters);
  }

  /** Once the chapters sort: a FetchError is never raised but reported,
      with the archive removed; any other exception is raised and leaves the
      archive open and not yet readable; a run that raises nothing leaves a
      zip. */
  lemma VolumeBuildOutcomes(f: ArchiveAdapter, sha1: string -> string, web: string -> Response, filename: string, v: VolumeV,
                            files: map<string, File>, cache: CacheState)
    requires SortBy(v.chapters, ChapterNumber).Ok?
    ensures var (r, _, files1, _) := f.VolumeBuild(sha1, web, filename, v, files, cache);
      (r.Fail? ==> !r.error.FetchError? && filename in files1 && files1[filename].Unclosed?) &&
      (r.Pass? ==> filename !in files1 || files1[filename].Zip?)
  {
    ChapterOrderOk(v.chapters);
    var run := f.ChaptersRun(sha1, web, ChapterOrder(v.chapters).value, Progress(v.chapters, cache, []));
    var out := f.VolumeBuild(sha1, web, filename, v, files, cache);
    if run.0.Pass? {
      assert out.2 == files[filename := Zip(run.1.entries)];
    } else if run.0.error.FetchError? {
      assert out.2 == files - {filename};
    } else {
      assert out.0 == run.0 && out.2 == files[filename := Unclosed(run.1.entries)];
    }
  }

  lemma ChapterOrderOk(cs: seq<ChapterV>)
    requires SortBy(cs, ChapterNumber).Ok?
    ensures ChapterOrder(cs).Ok?
  {
    ChapterOrderSorts(cs);
  }

  lemma {:induction false} ChaptersRunLength(f: ArchiveAdapter, sha1: string -> string, web: string -> Response, cis: seq<int>, s: Progress)
    ensures |f.ChaptersRun(sha1, web, cis, s).1.chapters| == |s.chapters|
    decreases |cis|
  {
    if cis != [] {
      var step := f.ChapterStep(sha1, web, cis[0], s);
      ChapterStepLength(f, sha1, web, cis[0], s);
      if step.0.Pass? {
        ChaptersRunLength(f, sha1, web, cis[1..], step.1);
      }
    }
  }

  lemma ChapterStepLength(f: ArchiveAdapter, sha1: string -> string, web: string -> Response, ci: int, s: Progress)
    ensures |f.ChapterStep(sha1, web, ci, s).1.chapters| == |s.chapters|
  {
    var ps := if 0 <= ci < |s.chapters| then s.chapters[ci].pages else [];
    if PageOrder(ps).Ok? {
      PagesRunLength(f, sha1, web, ci, PageOrder(ps).value, s);
    }
  }

  lemma {:induction false} PagesRunLength(f: ArchiveAdapter, sha1: string -> string, web: string -> Response, ci: int, pis: seq<int>, s: Progress)
    ensures |f.PagesRun(sha1, web, ci, pis, s).1.chapters| == |s.chapters|
    decreases |pis|
  {
    if pis != [] {
      var step := f.PageStep(sha1, web, ci, pis[0], s);
      if step.0.Pass? {
        PagesRunLength(f, sha1, web, ci, pis[1..], step.1);
      }
    }
  }
}
