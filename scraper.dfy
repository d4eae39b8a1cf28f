/** The scraping engine of src/masc/scraper.py: `crawl` asks the site adapter
    for the series and builds the descriptor, `build` writes one archive per
    volume through the output format, and `run` reuses a saved descriptor
    instead of crawling when it can. */
module Scraper {
  import opened Py
  import opened Data
  import opened Util
  import opened Descriptor
  import opened Site
  import opened Format

  /** The command-line arguments the engine reads. */
  datatype Args = Args(out: Option<string>, descriptor: string, volumes: seq<Value>, rebuild: bool)

  // ---------------------------------------------------------------------------
  // crawl: one chapter

  /** `page.image_url = self.adapter.get_image(page)`. */
  function WithImage(a: SiteAdapter): PageV -> Result<PageV>
  {
    (p: PageV) => if a.image(p).Ok? then Ok(p.(imageUrl := Str(a.image(p).value))) else Err(a.image(p).error)
  }

  /** The chapter once `crawl` has added its pages: the adapter's pages, in
      the order it gives them, each with the image URL the adapter gives. */
  function CrawlChapter(a: SiteAdapter, c: ChapterV): Result<ChapterV>
  {
    match a.pages(c)
    case Err(e) => Err(e)
    case Ok(ps) =>
      match MapResult(WithImage(a), ps)
      case Err(e) => Err(e)
      case Ok(qs) => Ok(c.(pages := c.pages + qs))
  }

  function Crawled(a: SiteAdapter): ChapterV -> Result<ChapterV>
  {
    (c: ChapterV) => CrawlChapter(a, c)
  }

  /** Every page `get_pages` returns is appended to the chapter, in the order
      returned, with `image_url` set to what `get_image` answers for it; the
      first exception of either query is the chapter's. */
  lemma CrawlChapterSpec(a: SiteAdapter, c: ChapterV)
    ensures a.pages(c).Err? ==> CrawlChapter(a, c) == Err(a.pages(c).error)
    ensures a.pages(c).Ok? ==>
      var ps := a.pages(c).value;
      (CrawlChapter(a, c).Ok? <==> forall i :: 0 <= i < |ps| ==> a.image(ps[i]).Ok?) &&
      (CrawlChapter(a, c).Err? ==>
        exists i :: 0 <= i < |ps| && a.image(ps[i]) == Err(CrawlChapter(a, c).error) &&
          forall j :: 0 <= j < i ==> a.image(ps[j]).Ok?)
    ensures CrawlChapter(a, c).Ok? ==>
      var r := CrawlChapter(a, c).value;
      var ps := a.pages(c).value;
      r.url == c.url && r.title == c.title && r.number == c.number && r.volume == c.volume &&
      |r.pages| == |c.pages| + |ps| && r.pages[..|c.pages|] == c.pages &&
      forall i :: 0 <= i < |ps| ==> r.pages[|c.pages| + i] == ps[i].(imageUrl := Str(a.image(ps[i]).value))
  {
    if a.pages(c).Ok? {
      var ps := a.pages(c).value;
      var g := WithImage(a);
      assert forall i :: 0 <= i < |ps| ==> (g(ps[i]).Ok? <==> a.image(ps[i]).Ok?);
      if MapResult(g, ps).Err? {
        var i :| 0 <= i < |ps| && g(ps[i]) == Err(MapResult(g, ps).error) && forall j :: 0 <= j < i ==> g(ps[j]).Ok?;
        assert a.image(ps[i]) == Err(CrawlChapter(a, c).error);
      } else {
        var r := CrawlChapter(a, c).value;
        assert r.pages[..|c.pages|] == c.pages;
        forall i | 0 <= i < |ps|
          ensures r.pages[|c.pages| + i] == ps[i].(imageUrl := Str(a.image(ps[i]).value))
        {
          assert r.pages[|c.pages| + i] == MapResult(g, ps).value[i];
        }
      }
    }
  }

  // ---------------------------------------------------------------------------
  // crawl: grouping chapters into volumes

  /** `volumes[k]`, or a new `Volume(k)` when the dict has no key `k`. */
  function VolumeAt(vs: Volumes, k: Value): VolumeV
  {
    if vs == [] then VolumeV(k, []) else if vs[0].0 == k then vs[0].1 else VolumeAt(vs[1..], k)
  }

  lemma {:induction false} VolumeAtIndex(vs: Volumes, k: Value, i: int)
    requires DistinctKeys(vs) && 0 <= i < |vs| && vs[i].0 == k
    ensures VolumeAt(vs, k) == vs[i].1
    decreases i
  {
    if i > 0 {
      assert vs[0].0 != k;
      assert DistinctKeys(vs[1..]) by {
        forall x, y | 0 <= x < y < |vs[1..]|
          ensures vs[1..][x].0 != vs[1..][y].0
        {
          assert vs[1..][x] == vs[x + 1] && vs[1..][y] == vs[y + 1];
        }
      }
      VolumeAtIndex(vs[1..], k, i - 1);
    }
  }

  /** The loop body of `crawl` for one chapter: the volume keyed by the
      chapter's volume is created when missing, then the chapter is appended
      to it. */
  function Group(vs: Volumes, c: ChapterV): Volumes
  {
    var k := c.volume;
    var vs1 := if HasKey(vs, k) then vs else Put(vs, k, VolumeV(k, []));
    var v := VolumeAt(vs1, k);
    Put(vs1, k, v.(chapters := v.chapters + [c]))
  }

  function GroupAll(cs: seq<ChapterV>): Volumes
  {
    if cs == [] then [] else Group(GroupAll(cs[..|cs| - 1]), cs[|cs| - 1])
  }

  function Keys(vs: Volumes): (r: seq<Value>)
    ensures |r| == |vs| && forall i {:trigger r[i]} :: 0 <= i < |vs| ==> r[i] == vs[i].0
  {
    seq(|vs|, i requires 0 <= i < |vs| => vs[i].0)
  }

  function VolumeKeys(cs: seq<ChapterV>): (r: seq<Value>)
    ensures |r| == |cs| && forall i {:trigger r[i]} :: 0 <= i < |cs| ==> r[i] == cs[i].volume
  {
    seq(|cs|, i requires 0 <= i < |cs| => cs[i].volume)
  }

  /** The chapters of `cs` whose volume is `k`, in their order in `cs`. */
  function InVolume(cs: seq<ChapterV>, k: Value): (r: seq<ChapterV>)
    ensures forall j :: 0 <= j < |r| ==> r[j].volume == k && r[j] in cs
  {
    if cs == [] then []
    else
      var pre := InVolume(cs[..|cs| - 1], k);
      assert forall j :: 0 <= j < |pre| ==> pre[j] in cs;
      if cs[|cs| - 1].volume == k then pre + [cs[|cs| - 1]] else pre
  }

  /** `vs` is the dict `crawl` builds from the chapters `cs`: one volume per
      distinct `chapter.volume`, in the order of first occurrence, numbered
      by it and holding exactly the chapters with that volume, in their
      order in `cs`. */
  predicate GroupedFrom(vs: Volumes, cs: seq<ChapterV>)
  {
    DistinctKeys(vs) && Keys(vs) == FirstOccurrences(VolumeKeys(cs)) &&
    forall i :: 0 <= i < |vs| ==> vs[i].1 == VolumeV(vs[i].0, InVolume(cs, vs[i].0))
  }

  lemma HasKeyIn(vs: Volumes, k: Value)
    ensures HasKey(vs, k) <==> k in Keys(vs)
  {
    if k in Keys(vs) {
      var i :| 0 <= i < |vs| && Keys(vs)[i] == k;
      assert vs[i].0 == k;
    }
    if HasKey(vs, k) {
      var i :| 0 <= i < |vs| && vs[i].0 == k;
      assert Keys(vs)[i] == k;
    }
  }

  /** The chapters of `pre + [c]`, from those of `pre`. */
  lemma InVolumeSnoc(pre: seq<ChapterV>, c: ChapterV, k: Value)
    ensures InVolume(pre + [c], k) == InVolume(pre, k) + (if c.volume == k then [c] else [])
  {
    assert (pre + [c])[..|pre|] == pre;
  }

  lemma VolumeKeysSnoc(pre: seq<ChapterV>, c: ChapterV)
    ensures VolumeKeys(pre + [c]) == VolumeKeys(pre) + [c.volume]
  {
  }

  /** One chapter of `crawl` whose volume is already in the dict. */
  lemma GroupExisting(vs: Volumes, pre: seq<ChapterV>, c: ChapterV)
    requires GroupedFrom(vs, pre) && HasKey(vs, c.volume)
    ensures GroupedFrom(Group(vs, c), pre + [c])
  {
    var k := c.volume;
    var cs := pre + [c];
    var i :| 0 <= i < |vs| && vs[i].0 == k;
    VolumeAtIndex(vs, k, i);
    var v := VolumeAt(vs, k);
    PutShape(vs, k, v.(chapters := v.chapters + [c]));
    var g := Group(vs, c);
    forall x | 0 <= x < |g|
      ensures g[x].1 == VolumeV(g[x].0, InVolume(cs, g[x].0))
    {
      InVolumeSnoc(pre, c, g[x].0);
    }
    VolumeKeysSnoc(pre, c);
    FirstOccurrencesSnoc(VolumeKeys(pre), k);
    HasKeyIn(vs, k);
    assert Keys(g) == Keys(vs);
  }

  lemma {:induction false} InVolumeAbsent(cs: seq<ChapterV>, k: Value)
    requires k !in VolumeKeys(cs)
    ensures InVolume(cs, k) == []
  {
    if cs != [] {
      var pre := cs[..|cs| - 1];
      assert VolumeKeys(cs)[|cs| - 1] == cs[|cs| - 1].volume;
      assert forall j :: 0 <= j < |pre| ==> VolumeKeys(pre)[j] == VolumeKeys(cs)[j];
      InVolumeAbsent(pre, k);
    }
  }

  /** One chapter of `crawl` whose volume is new: it goes at the end. */
  lemma GroupNew(vs: Volumes, pre: seq<ChapterV>, c: ChapterV)
    requires GroupedFrom(vs, pre) && !HasKey(vs, c.volume)
    ensures GroupedFrom(Group(vs, c), pre + [c])
  {
    var k := c.volume;
    var cs := pre + [c];
    HasKeyIn(vs, k);
    FirstOccurrencesMembers(VolumeKeys(pre));
    InVolumeAbsent(pre, k);
    PutShape(vs, k, VolumeV(k, []));
    var vs1 := vs + [(k, VolumeV(k, []))];
    VolumeAtIndex(vs1, k, |vs|);
    assert HasKey(vs1, k);
    var v := VolumeAt(vs1, k);
    assert v.(chapters := v.chapters + [c]) == VolumeV(k, [c]);
    PutShape(vs1, k, VolumeV(k, [c]));
    var g := Group(vs, c);
    assert g == Put(vs1, k, VolumeV(k, [c]));
    forall x | 0 <= x < |vs|
      ensures g[x] == vs[x]
    {
      assert vs1[x] == vs[x];
      assert vs[x].0 != k;
    }
    assert g == vs + [(k, VolumeV(k, [c]))];
    forall x | 0 <= x < |g|
      ensures g[x].1 == VolumeV(g[x].0, InVolume(cs, g[x].0))
    {
      InVolumeSnoc(pre, c, g[x].0);
    }
    VolumeKeysSnoc(pre, c);
    FirstOccurrencesSnoc(VolumeKeys(pre), k);
    assert Keys(g) == Keys(vs) + [k];
  }

  /** The volumes `crawl` builds from the chapters `cs`. */
  lemma {:induction false} GroupAllShape(cs: seq<ChapterV>)
    ensures GroupedFrom(GroupAll(cs), cs)
  {
    if cs != [] {
      var pre := cs[..|cs| - 1];
      GroupAllShape(pre);
      SplitLast(cs);
      if HasKey(GroupAll(pre), cs[|cs| - 1].volume) {
        GroupExisting(GroupAll(pre), pre, cs[|cs| - 1]);
      } else {
        GroupNew(GroupAll(pre), pre, cs[|cs| - 1]);
      }
    }
  }

  /** The chapter loop of `crawl`: the first exception stops it, leaving the
      volumes built so far. */
  function CrawlChapters(a: SiteAdapter, cs: seq<ChapterV>): (Outcome, Volumes)
  {
    if cs == [] then (Pass, [])
    else
      var prev := CrawlChapters(a, cs[..|cs| - 1]);
      if prev.0.Fail? then prev
      else match CrawlChapter(a, cs[|cs| - 1])
        case Err(e) => (Fail(e), prev.1)
        case Ok(c) => (Pass, Group(prev.1, c))
  }

  lemma {:induction false} CrawlChaptersStop(a: SiteAdapter, cs: seq<ChapterV>, i: int)
    requires 0 <= i < |cs| && CrawlChapters(a, cs[..i + 1]).0.Fail?
    ensures CrawlChapters(a, cs) == CrawlChapters(a, cs[..i + 1])
    decreases |cs|
  {
    if |cs| > i + 1 {
      var pre := cs[..|cs| - 1];
      assert pre[..i + 1] == cs[..i + 1];
      CrawlChaptersStop(a, pre, i);
    } else {
      assert cs[..i + 1] == cs;
    }
  }

  /** The chapter loop of `crawl` raises nothing exactly when every chapter
      crawls, and then groups the crawled chapters. */
  lemma {:induction false} CrawlChaptersMap(a: SiteAdapter, cs: seq<ChapterV>)
    ensures CrawlChapters(a, cs).0.Pass? <==> MapResult(Crawled(a), cs).Ok?
    ensures CrawlChapters(a, cs).0.Pass? ==> CrawlChapters(a, cs).1 == GroupAll(MapResult(Crawled(a), cs).value)
    ensures CrawlChapters(a, cs).0.Fail? ==> MapResult(Crawled(a), cs) == Err(CrawlChapters(a, cs).0.error)
  {
    if cs != [] {
      var n := |cs| - 1;
      var pre := cs[..n];
      var f := Crawled(a);
      CrawlChaptersMap(a, pre);
      if CrawlChapters(a, pre).0.Fail? {
        MapResultPrefix(f, cs, n);
      } else if f(cs[n]).Err? {
        MapResultStop(f, cs, n);
      } else {
        MapResultSnoc(f, cs, n);
        assert cs[..n + 1] == cs;
        var rs := MapResult(f, cs).value;
        assert rs[..|rs| - 1] == MapResult(f, pre).value;
      }
    }
  }

  // ---------------------------------------------------------------------------
  // crawl

  /** Where `crawl` saves the descriptor: `<slug>.xml`, or `<out>.xml` when
      an output name is given. */
  function CrawlName(out: Option<string>, slug: string): string
  {
    (if out.None? then slug else out.value) + ".xml"
  }

  /** `crawl(args)`: the outcome, the engine's new descriptor and the files. */
  function CrawlSpec(a: SiteAdapter, out: Option<string>, files: map<string, File>): (Outcome, DescriptorV, map<string, File>)
  {
    match a.meta
    case Err(e) => (Fail(e), DescriptorV(None, []), files)
    case Ok(m) =>
      match a.chapters
      case Err(e) => (Fail(e), DescriptorV(Some(m), []), files)
      case Ok(cs) =>
        var run := CrawlChapters(a, cs);
        var d := DescriptorV(Some(m), run.1);
        if run.0.Fail? then (run.0, d, files)
        else
          var saved := SaveFile(files, CrawlName(out, m.slug), d);
          (saved.0, d, saved.1)
  }

  /** A crawl that raises nothing has the adapter's metadata, groups the
      crawled chapters into volumes, and saves a descriptor that loads back
      as itself (up to what the XML form keeps). Any failure before the save
      writes nothing. */
  lemma CrawlSaves(a: SiteAdapter, out: Option<string>, files: map<string, File>)
    ensures var (o, d, files1) := CrawlSpec(a, out, files);
      (a.meta.Err? ==> o == Fail(a.meta.error) && files1 == files) &&
      (a.meta.Ok? && a.chapters.Err? ==> o == Fail(a.chapters.error) && files1 == files) &&
      (o.Pass? ==>
        a.meta.Ok? && a.chapters.Ok? && d.metadata == Some(a.meta.value) &&
        MapResult(Crawled(a), a.chapters.value).Ok? &&
        d.volumes == GroupAll(MapResult(Crawled(a), a.chapters.value).value) &&
        LoadFile(files1, CrawlName(out, a.meta.value.slug)) == Ok(Reloaded(d)))
  {
    if a.meta.Ok? && a.chapters.Ok? {
      var m := a.meta.value;
      CrawlChaptersMap(a, a.chapters.value);
      var d := CrawlSpec(a, out, files).1;
      SaveFailures(files, CrawlName(out, m.slug), d);
      if m.coverUrl.Str? {
        SaveLoad(files, CrawlName(out, m.slug), d);
      }
    }
  }

  // ---------------------------------------------------------------------------
  // build

  const NoVolume := VolumeV(Null, [])

  function VolumeAtPos(vs: Volumes): int -> VolumeV
  {
    (i: int) => if 0 <= i < |vs| then vs[i].1 else NoVolume
  }

  function VolumeNumber(v: VolumeV): Value { v.number }

  function Values(vs: Volumes): (r: seq<VolumeV>)
    ensures |r| == |vs| && forall i {:trigger r[i]} :: 0 <= i < |vs| ==> r[i] == vs[i].1
  {
    seq(|vs|, i requires 0 <= i < |vs| => vs[i].1)
  }

  /** The positions of the dict's volumes in `sorted(..., key=lambda vol:
      vol.number)` order. */
  function VolumeOrder(vs: Volumes): Result<seq<int>>
  {
    SortBy(Range(|vs|), (i: int) => VolumeNumber(VolumeAtPos(vs)(i)))
  }

  /** `filter(lambda vol: vol.number in args.volumes, ...)` on positions. */
  function Selected(vs: Volumes, wanted: seq<Value>, order: seq<int>): (r: seq<int>)
    ensures forall x :: x in r <==> x in order && VolumeAtPos(vs)(x).number in wanted
  {
    if order == [] then []
    else (if VolumeAtPos(vs)(order[0]).number in wanted then [order[0]] else []) + Selected(vs, wanted, order[1..])
  }

  /** The volumes `build` visits, as positions in the dict. */
  function BuildVisits(vs: Volumes, wanted: seq<Value>): Result<seq<int>>
  {
    match VolumeOrder(vs)
    case Err(e) => Err(e)
    case Ok(order) => Ok(if |wanted| > 0 then Selected(vs, wanted, order) else order)
  }

  /** Positions visited once each, in ascending volume number. */
  predicate Ascending(vs: Volumes, ps: seq<int>)
  {
    (forall i :: 0 <= i < |ps| ==> 0 <= ps[i] < |vs|) &&
    forall i, j :: 0 <= i < j < |ps| ==>
      ps[i] != ps[j] && KeyLe(VolumeAtPos(vs)(ps[i]).number, VolumeAtPos(vs)(ps[j]).number)
  }

  lemma {:induction false} SelectedAscending(vs: Volumes, wanted: seq<Value>, order: seq<int>)
    requires Ascending(vs, order)
    ensures Ascending(vs, Selected(vs, wanted, order))
    decreases |order|
  {
    if order != [] {
      var rest := order[1..];
      assert Ascending(vs, rest) by {
        forall i, j | 0 <= i < j < |rest|
          ensures rest[i] != rest[j] && KeyLe(VolumeAtPos(vs)(rest[i]).number, VolumeAtPos(vs)(rest[j]).number)
        {
          assert rest[i] == order[i + 1] && rest[j] == order[j + 1];
        }
      }
      SelectedAscending(vs, wanted, rest);
      var tail := Selected(vs, wanted, rest);
      forall j | 0 <= j < |tail|
        ensures order[0] != tail[j] && KeyLe(VolumeAtPos(vs)(order[0]).number, VolumeAtPos(vs)(tail[j]).number)
      {
        assert tail[j] in rest;
        var q :| 0 <= q < |rest| && rest[q] == tail[j];
        assert order[q + 1] == tail[j];
      }
    }
  }

  lemma RangeCount(n: nat, x: int)
    ensures multiset(Range(n))[x] == if 0 <= x < n then 1 else 0
  {
    if n > 0 {
      RangeCount(n - 1, x);
      assert Range(n) == Range(n - 1) + [n - 1];
    }
  }

  /** A sequence with the elements of `Range(n)` repeats none of them. */
  lemma OrderDistinct(order: seq<int>, n: nat, i: int, j: int)
    requires multiset(order) == multiset(Range(n)) && 0 <= i < j < |order|
    ensures order[i] != order[j]
  {
    var x := order[j];
    assert x in multiset(order);
    RangeCount(n, x);
    assert order == order[..j] + [x] + order[j + 1..];
    assert multiset(order)[x] == multiset(order[..j])[x] + 1 + multiset(order[j + 1..])[x];
    assert multiset(order[..j])[x] == 0;
    assert order[..j][i] == order[i];
  }

  /** `build` raises TypeError when the volume numbers cannot be compared;
      otherwise it visits each volume at most once, in ascending order of
      number, and exactly those whose number is listed (all of them when the
      list is empty). */
  lemma BuildVisitsSpec(vs: Volumes, wanted: seq<Value>)
    ensures BuildVisits(vs, wanted).Ok? <==> SortBy(Values(vs), VolumeNumber).Ok?
    ensures BuildVisits(vs, wanted).Err? ==> BuildVisits(vs, wanted).error == TypeError
    ensures BuildVisits(vs, wanted).Ok? ==>
      var ps := BuildVisits(vs, wanted).value;
      Ascending(vs, ps) &&
      forall q :: 0 <= q < |vs| ==> (q in ps <==> |wanted| == 0 || vs[q].1.number in wanted)
  {
    VolumeOrderSpec(vs);
    if VolumeOrder(vs).Ok? {
      var order := VolumeOrder(vs).value;
      if |wanted| > 0 {
        SelectedAscending(vs, wanted, order);
        forall q | 0 <= q < |vs| ensures VolumeAtPos(vs)(q).number == vs[q].1.number {
        }
      }
    }
  }

  /** Distinct positions whose volumes, read in order, are sorted by number. */
  lemma SortedPositionsAscending(vs: Volumes, order: seq<int>, sorted: seq<VolumeV>)
    requires multiset(order) == multiset(Range(|vs|))
    requires forall i :: 0 <= i < |order| ==> 0 <= order[i] < |vs|
    requires MapSeq(VolumeAtPos(vs), order) == sorted && SortedBy(sorted, VolumeNumber)
    ensures Ascending(vs, order)
  {
    forall i, j | 0 <= i < j < |order|
      ensures order[i] != order[j] && KeyLe(VolumeAtPos(vs)(order[i]).number, VolumeAtPos(vs)(order[j]).number)
    {
      OrderDistinct(order, |vs|, i, j);
      assert sorted[i] == VolumeAtPos(vs)(order[i]) && sorted[j] == VolumeAtPos(vs)(order[j]);
    }
  }

  /** The positions of the dict in ascending order of volume number: a
      TypeError when two numbers cannot be compared, otherwise each position
      once. */
  lemma VolumeOrderSpec(vs: Volumes)
    ensures VolumeOrder(vs).Ok? <==> SortBy(Values(vs), VolumeNumber).Ok?
    ensures VolumeOrder(vs).Err? ==> VolumeOrder(vs).error == TypeError
    ensures VolumeOrder(vs).Ok? ==>
      Ascending(vs, VolumeOrder(vs).value) && forall q :: 0 <= q < |vs| ==> q in VolumeOrder(vs).value
  {
    var at := VolumeAtPos(vs);
    IndexOrder(Values(vs), at, VolumeNumber, (i: int) => VolumeNumber(VolumeAtPos(vs)(i)));
    if VolumeOrder(vs).Ok? {
      var order := VolumeOrder(vs).value;
      SortByCorrect(Values(vs), VolumeNumber);
      SortedPositionsAscending(vs, order, SortBy(Values(vs), VolumeNumber).value);
      forall q | 0 <= q < |vs|
        ensures q in order
      {
        OrderCovers(order, |vs|, q);
      }
    }
  }

  /** The archive `build_volume` writes for a volume:
      `join(dir, '<slug>-v<number>' + file_format())`. */
  function VolumeTarget(dir: string, slug: string, number: Value, ext: string): string
  {
    PathJoin(dir, slug + "-v" + Show(number) + ext)
  }

  /** What the engine holds and the world it acts on. */
  datatype EngineState = EngineState(descriptor: Option<DescriptorV>, dir: string, files: map<string, File>, cache: CacheState)

  /** `build_volume(volume)` for the volume at position `pos` of the dict:
      every exception is swallowed, an existing archive is left alone, and
      the volume, updated in place by the output format, stays in the dict. */
  function VolumeStep(f: ArchiveAdapter, sha1: string -> string, web: string -> Response, pos: int, st: EngineState): EngineState
  {
    match st.descriptor
    case None => st
    case Some(d) =>
      if !(0 <= pos < |d.volumes|) || d.metadata.None? then st
      else
        var item := d.volumes[pos];
        var target := VolumeTarget(st.dir, d.metadata.value.slug, item.1.number, f.FileFormat());
        if target in st.files then st
        else
          var built := f.VolumeBuild(sha1, web, target, item.1, st.files, st.cache);
          st.(descriptor := Some(d.(volumes := d.volumes[pos := (item.0, built.1)])), files := Finalised(built.2, target), cache := built.3)
  }

  /** The files once the handler of `build_volume` has ended: the exception
      and its traceback are dropped, so the ZipFile the output format left
      open is finalised, which closes it and makes the entries written so far
      a readable archive. */
  function Finalised(files: map<string, File>, path: string): (r: map<string, File>)
    ensures path in files && files[path].Unclosed? ==> r == files[path := Zip(files[path].written)]
    ensures !(path in files && files[path].Unclosed?) ==> r == files
  {
    if path in files && files[path].Unclosed? then files[path := Zip(files[path].written)] else files
  }

  /** The sequential loop `for_each(sorted_volumes, self.build_volume)`. */
  function BuildLoop(f: ArchiveAdapter, sha1: string -> string, web: string -> Response, ps: seq<int>, st: EngineState): EngineState
    decreases |ps|
  {
    if ps == [] then st else BuildLoop(f, sha1, web, ps[1..], VolumeStep(f, sha1, web, ps[0], st))
  }

  /** `build(args)`. */
  function BuildSpec(f: ArchiveAdapter, sha1: string -> string, web: string -> Response, args: Args, st: EngineState): (Outcome, EngineState)
  {
    var st1 := if args.out.Some? then st.(dir := args.out.value) else st;
    var loaded := if st1.descriptor.Some? then Ok(st1.descriptor.value) else LoadFile(st1.files, args.descriptor);
    match loaded
    case Err(e) => (Fail(e), st1)
    case Ok(d) =>
      var st2 := st1.(descriptor := Some(d));
      match BuildVisits(d.volumes, args.volumes)
      case Err(e) => (Fail(e), st2)
      case Ok(ps) => (Pass, BuildLoop(f, sha1, web, ps, st2))
  }

  /** `build_volume` never invokes the output format for a volume whose
      archive exists; otherwise the dict keeps its keys and order, the
      volume at `pos` is replaced by the format's updated one, and no file
      but the target changes. */
  lemma VolumeStepSpec(f: ArchiveAdapter, sha1: string -> string, web: string -> Response, pos: int, st: EngineState)
    requires st.descriptor.Some? && 0 <= pos < |st.descriptor.value.volumes| && st.descriptor.value.metadata.Some?
    ensures var d := st.descriptor.value;
      var target := VolumeTarget(st.dir, d.metadata.value.slug, d.volumes[pos].1.number, f.FileFormat());
      var st1 := VolumeStep(f, sha1, web, pos, st);
      (target in st.files ==> st1 == st) &&
      (target !in st.files ==>
        var built := f.VolumeBuild(sha1, web, target, d.volumes[pos].1, st.files, st.cache);
        st1.descriptor.Some? && st1.descriptor.value.metadata == d.metadata &&
        Keys(st1.descriptor.value.volumes) == Keys(d.volumes) &&
        st1.descriptor.value.volumes[pos].1 == built.1 &&
        (forall q :: 0 <= q < |d.volumes| && q != pos ==> st1.descriptor.value.volumes[q] == d.volumes[q]) &&
        st1.files == Finalised(built.2, target) && st1.cache == built.3 && st1.dir == st.dir &&
        (built.0.Fail? && SortBy(d.volumes[pos].1.chapters, ChapterNumber).Ok? ==>
          target in built.2 && built.2[target].Unclosed? && target in st1.files &&
          st1.files[target] == Zip(built.2[target].written)) &&
        Grows(st.cache.files, st1.cache.files) &&
        forall k :: k != target ==> (k in st1.files <==> k in st.files) && (k in st.files ==> st1.files[k] == st.files[k]))
  {
    var d := st.descriptor.value;
    var target := VolumeTarget(st.dir, d.metadata.value.slug, d.volumes[pos].1.number, f.FileFormat());
    VolumeBuildKeeps(f, sha1, web, target, d.volumes[pos].1, st.files, st.cache);
    if SortBy(d.volumes[pos].1.chapters, ChapterNumber).Ok? {
      VolumeBuildOutcomes(f, sha1, web, target, d.volumes[pos].1, st.files, st.cache);
    }
  }

  /** The build loop keeps the dict's keys and order, the metadata and the
      directory, and only adds to the cache. */
  lemma {:induction false} BuildLoopKeeps(f: ArchiveAdapter, sha1: string -> string, web: string -> Response, ps: seq<int>, st: EngineState)
    ensures var st1 := BuildLoop(f, sha1, web, ps, st);
      st1.dir == st.dir && Grows(st.cache.files, st1.cache.files) &&
      (st.descriptor.None? ==> st1 == st) &&
      (st.descriptor.Some? ==>
        st1.descriptor.Some? && st1.descriptor.value.metadata == st.descriptor.value.metadata &&
        Keys(st1.descriptor.value.volumes) == Keys(st.descriptor.value.volumes))
    decreases |ps|
  {
    if ps != [] {
      var st1 := VolumeStep(f, sha1, web, ps[0], st);
      if st.descriptor.Some? && 0 <= ps[0] < |st.descriptor.value.volumes| && st.descriptor.value.metadata.Some? {
        VolumeStepSpec(f, sha1, web, ps[0], st);
      }
      BuildLoopKeeps(f, sha1, web, ps[1..], st1);
    }
  }

  // ---------------------------------------------------------------------------
  // run

  /** `join(dir, '<slug>.xml')`, where `run` keeps the descriptor. */
  function RunName(dir: string, slug: string): string
  {
    PathJoin(dir, slug + ".xml")
  }

  /** The first half of `run(args)`: load the saved descriptor `name`
      unless told to rebuild or there is none, crawl otherwise. */
  function RunReady(a: SiteAdapter, args: Args, name: string, st: EngineState): (Outcome, EngineState)
  {
    if !args.rebuild && name in st.files then
      match LoadFile(st.files, name)
      case Err(e) => (Fail(e), st)
      case Ok(d) => (Pass, st.(descriptor := Some(d)))
    else
      var crawled := CrawlSpec(a, args.out, st.files);
      (crawled.0, st.(descriptor := Some(crawled.1), files := crawled.2))
  }

  /** The second half: build, then save the descriptor to `name`. */
  function RunFinish(f: ArchiveAdapter, sha1: string -> string, web: string -> Response, args: Args, name: string, st: EngineState): (Outcome, EngineState)
  {
    var built := BuildSpec(f, sha1, web, args, st);
    if built.0.Fail? then built
    else match built.1.descriptor
      case None => (Fail(AttributeError), built.1)
      case Some(d) =>
        var saved := SaveFile(built.1.files, name, d);
        (saved.0, built.1.(files := saved.1))
  }

  /** `run(args)`. */
  function RunSpec(a: SiteAdapter, f: ArchiveAdapter, sha1: string -> string, web: string -> Response, args: Args, st: EngineState): (Outcome, EngineState)
  {
    var st1 := if args.out.Some? then st.(dir := args.out.value) else st;
    var name := RunName(st1.dir, a.slug);
    var ready := RunReady(a, args, name, st1);
    if ready.0.Fail? then ready else RunFinish(f, sha1, web, args, name, ready.1)
  }

  /** With a saved descriptor and no `rebuild`, `run` does not crawl: what
      it does does not depend on what the site would answer. */
  lemma RunReuses(a: SiteAdapter, b: SiteAdapter, f: ArchiveAdapter, sha1: string -> string, web: string -> Response, args: Args, st: EngineState)
    requires a.slug == b.slug
    requires var dir := if args.out.Some? then args.out.value else st.dir;
      !args.rebuild && RunName(dir, a.slug) in st.files
    ensures RunSpec(a, f, sha1, web, args, st) == RunSpec(b, f, sha1, web, args, st)
    ensures var dir := if args.out.Some? then args.out.value else st.dir;
      LoadFile(st.files, RunName(dir, a.slug)).Err? ==>
        RunSpec(a, f, sha1, web, args, st).0 == Fail(LoadFile(st.files, RunName(dir, a.slug)).error) &&
        RunSpec(a, f, sha1, web, args, st).1.files == st.files
  {
  }

  /** Otherwise `run` crawls first, and a crawl that raises ends the run
      with that exception. */
  lemma RunCrawls(a: SiteAdapter, f: ArchiveAdapter, sha1: string -> string, web: string -> Response, args: Args, st: EngineState)
    requires var dir := if args.out.Some? then args.out.value else st.dir;
      args.rebuild || RunName(dir, a.slug) !in st.files
    ensures CrawlSpec(a, args.out, st.files).0.Fail? ==>
      RunSpec(a, f, sha1, web, args, st).0 == CrawlSpec(a, args.out, st.files).0 &&
      RunSpec(a, f, sha1, web, args, st).1.files == CrawlSpec(a, args.out, st.files).2
  {
  }

  /** `build` keeps the directory it was given (or `out`), and a build
      that raises nothing leaves the engine with a descriptor. */
  lemma BuildSpecKeeps(f: ArchiveAdapter, sha1: string -> string, web: string -> Response, args: Args, st: EngineState)
    ensures var (o, st1) := BuildSpec(f, sha1, web, args, st);
      st1.dir == (if args.out.Some? then args.out.value else st.dir) &&
      (o.Pass? ==> st1.descriptor.Some?)
  {
    var st1 := if args.out.Some? then st.(dir := args.out.value) else st;
    var loaded := if st1.descriptor.Some? then Ok(st1.descriptor.value) else LoadFile(st1.files, args.descriptor);
    if loaded.Ok? {
      var st2 := st1.(descriptor := Some(loaded.value));
      if BuildVisits(loaded.value.volumes, args.volumes).Ok? {
        BuildLoopKeeps(f, sha1, web, BuildVisits(loaded.value.volumes, args.volumes).value, st2);
      }
    }
  }

  /** A save that raises nothing writes a descriptor that loads back. */
  lemma SavedLoads(files: map<string, File>, path: string, d: DescriptorV)
    ensures SaveFile(files, path, d).0.Pass? ==>
      d.metadata.Some? && LoadFile(SaveFile(files, path, d).1, path) == Ok(Reloaded(d))
  {
    SaveFailures(files, path, d);
    if d.metadata.Some? && d.metadata.value.coverUrl.Str? {
      SaveLoad(files, path, d);
    }
  }

  /** A run that raises nothing leaves a descriptor at `join(dir,
      '<slug>.xml')` that loads back as the engine's final descriptor (up to
      what the XML form keeps), so that the next run can reuse it. */
  lemma RunSaves(a: SiteAdapter, f: ArchiveAdapter, sha1: string -> string, web: string -> Response, args: Args, st: EngineState)
    ensures var (o, st1) := RunSpec(a, f, sha1, web, args, st);
      o.Pass? ==>
        st1.descriptor.Some? && st1.descriptor.value.metadata.Some? &&
        LoadFile(st1.files, RunName(st1.dir, a.slug)) == Ok(Reloaded(st1.descriptor.value))
  {
    var st1 := if args.out.Some? then st.(dir := args.out.value) else st;
    var name := RunName(st1.dir, a.slug);
    var ready := RunReady(a, args, name, st1);
    if ready.0.Pass? {
      assert ready.1.dir == st1.dir;
      BuildSpecKeeps(f, sha1, web, args, ready.1);
      var built := BuildSpec(f, sha1, web, args, ready.1);
      if built.0.Pass? {
        SavedLoads(built.1.files, name, built.1.descriptor.value);
      }
    }
  }

  // ---------------------------------------------------------------------------
  // The engine

  class ScraperEngine {
    const adapter: SiteAdapter
    const format: ArchiveAdapter
    var descriptor: Descriptor?
    var dir: string

    constructor (adapter: SiteAdapter, format: ArchiveAdapter)
      ensures this.adapter == adapter && this.format == format && descriptor == null && dir == "."
    {
      this.adapter := adapter;
      this.format := format;
      descriptor := null;
      dir := ".";
    }

    function State(disk: Disk, cache: Cache): EngineState
      reads this, descriptor, disk, cache
    {
      EngineState(if descriptor == null then None else Some(descriptor.Snapshot()), dir, disk.files, cache.State())
    }

    /** `crawl(args)`. */
    method Crawl(disk: Disk, args: Args) returns (r: Outcome)
      modifies this, disk
      ensures descriptor != null && fresh(descriptor) && descriptor.Valid() && dir == old(dir)
      ensures (r, descriptor.Snapshot(), disk.files) == CrawlSpec(adapter, args.out, old(disk.files))
    {
      var d := new Descriptor();
      descriptor := d;
      var meta := adapter.meta;
      if meta.Err? {
        return Fail(meta.error);
      }
      d.metadata := Some(meta.value);
      var chapters := adapter.chapters;
      if chapters.Err? {
        return Fail(chapters.error);
      }
      var o := CrawlLoop(d, chapters.value);
      if o.Fail? {
        return o;
      }
      r := d.Save(disk, CrawlName(args.out, meta.value.slug));
    }

    /** The chapter loop of `crawl`, filling the new descriptor `d`. */
    method CrawlLoop(d: Descriptor, cs: seq<ChapterV>) returns (r: Outcome)
      requires d.Valid() && d.volumes == []
      modifies d
      ensures d.Valid() && d.metadata == old(d.metadata)
      ensures (r, d.volumes) == CrawlChapters(adapter, cs)
    {
      for i := 0 to |cs|
        invariant d.Valid() && d.metadata == old(d.metadata)
        invariant CrawlChapters(adapter, cs[..i]) == (Pass, d.volumes)
      {
        assert cs[..i + 1][..i] == cs[..i] && cs[..i + 1][i] == cs[i];
        var chapter := CrawlPages(cs[i]);
        if chapter.Err? {
          CrawlChaptersStop(adapter, cs, i);
          return Fail(chapter.error);
        }
        AddToVolume(d, chapter.value);
      }
      assert cs[..|cs|] == cs;
      r := Pass;
    }

    /** The end of the chapter loop of `crawl`: the volume for the chapter
        is created if missing, and the chapter added to it. */
    static method AddToVolume(d: Descriptor, chapter: ChapterV)
      requires d.Valid()
      modifies d
      ensures d.Valid() && d.metadata == old(d.metadata)
      ensures d.volumes == Group(old(d.volumes), chapter)
    {
      var k := chapter.volume;
      if !HasKey(d.volumes, k) {
        PutShape(d.volumes, k, VolumeV(k, []));
        d.volumes := Put(d.volumes, k, VolumeV(k, []));
      }
      var volume := VolumeAt(d.volumes, k);
      PutShape(d.volumes, k, volume.(chapters := volume.chapters + [chapter]));
      d.volumes := Put(d.volumes, k, volume.(chapters := volume.chapters + [chapter]));
    }

    /** The page loop of `crawl` for one chapter. */
    method CrawlPages(chapter: ChapterV) returns (r: Result<ChapterV>)
      ensures r == CrawlChapter(adapter, chapter)
    {
      var pages := adapter.pages(chapter);
      if pages.Err? {
        return Err(pages.error);
      }
      var ps := pages.value;
      var c := chapter;
      for j := 0 to |ps|
        invariant MapResult(WithImage(adapter), ps[..j]).Ok?
        invariant c == chapter.(pages := chapter.pages + MapResult(WithImage(adapter), ps[..j]).value)
      {
        var image := adapter.image(ps[j]);
        if image.Err? {
          MapResultStop(WithImage(adapter), ps, j);
          return Err(image.error);
        }
        var page := ps[j].(imageUrl := Str(image.value));
        MapResultSnoc(WithImage(adapter), ps, j);
        c := c.(pages := c.pages + [page]);
      }
      assert ps[..|ps|] == ps;
      return Ok(c);
    }

    /** `build_volume(volume)` for the volume at position `pos` of the dict. */
    method BuildVolume(disk: Disk, cache: Cache, sha1: string -> string, web: string -> Response, pos: int)
      modifies descriptor, disk, cache
      ensures State(disk, cache) == VolumeStep(format, sha1, web, pos, old(State(disk, cache)))
    {
      if descriptor == null || !(0 <= pos < |descriptor.volumes|) || descriptor.metadata.None? {
        return;
      }
      var item := descriptor.volumes[pos];
      var target := VolumeTarget(dir, descriptor.metadata.value.slug, item.1.number, format.FileFormat());
      if target in disk.files {
        return;
      }
      var _, updated := format.BuildVolume(disk, cache, sha1, web, target, item.1);
      if target in disk.files && disk.files[target].Unclosed? {
        disk.Write(target, Zip(disk.files[target].written));
      }
      descriptor.volumes := descriptor.volumes[pos := (item.0, updated)];
    }

    /** `build(args)`, sequentially. */
    method Build(disk: Disk, cache: Cache, sha1: string -> string, web: string -> Response, args: Args) returns (r: Outcome)
      modifies this, descriptor, disk, cache
      ensures descriptor == old(descriptor) || fresh(descriptor)
      ensures r.Pass? ==> descriptor != null
      ensures (r, State(disk, cache)) == BuildSpec(format, sha1, web, args, old(State(disk, cache)))
    {
      if args.out.Some? {
        dir := args.out.value;
      }
      ghost var st1 := State(disk, cache);
      if descriptor == null {
        var loaded := Descriptor.Load(disk, args.descriptor);
        if loaded.Err? {
          return Fail(loaded.error);
        }
        descriptor := loaded.value;
      }
      ghost var st2 := State(disk, cache);
      assert st2 == st1.(descriptor := st2.descriptor);
      var visits := BuildVisits(descriptor.volumes, args.volumes);
      if visits.Err? {
        return Fail(visits.error);
      }
      r := Pass;
      BuildVolumes(disk, cache, sha1, web, visits.value);
    }

    /** The sequential loop of `build` over the positions `ps`. */
    method BuildVolumes(disk: Disk, cache: Cache, sha1: string -> string, web: string -> Response, ps: seq<int>)
      requires descriptor != null
      modifies descriptor, disk, cache
      ensures State(disk, cache) == BuildLoop(format, sha1, web, ps, old(State(disk, cache)))
    {
      ghost var st0 := State(disk, cache);
      for j := 0 to |ps|
        invariant BuildLoop(format, sha1, web, ps, st0) == BuildLoop(format, sha1, web, ps[j..], State(disk, cache))
      {
        assert ps[j..][0] == ps[j] && ps[j..][1..] == ps[j + 1..];
        BuildVolume(disk, cache, sha1, web, ps[j]);
      }
      assert ps[|ps|..] == [];
    }

    /** The first half of `run(args)`: load the saved descriptor, or crawl. */
    method LoadOrCrawl(disk: Disk, cache: Cache, args: Args, name: string) returns (r: Outcome)
      modifies this, disk
      ensures descriptor == old(descriptor) || fresh(descriptor)
      ensures (r, State(disk, cache)) == RunReady(adapter, args, name, old(State(disk, cache)))
    {
      if !args.rebuild && name in disk.files {
        var loaded := Descriptor.Load(disk, name);
        if loaded.Err? {
          return Fail(loaded.error);
        }
        descriptor := loaded.value;
        r := Pass;
      } else {
        r := Crawl(disk, args);
      }
    }

    /** The second half: build, then save the descriptor to `name`. */
    method BuildAndSave(disk: Disk, cache: Cache, sha1: string -> string, web: string -> Response, args: Args, name: string) returns (r: Outcome)
      modifies this, descriptor, disk, cache
      ensures (r, State(disk, cache)) == RunFinish(format, sha1, web, args, name, old(State(disk, cache)))
    {
      r := Build(disk, cache, sha1, web, args);
      if r.Fail? {
        return;
      }
      r := descriptor.Save(disk, name);
    }

    /** `run(args)`. */
    method Run(disk: Disk, cache: Cache, sha1: string -> string, web: string -> Response, args: Args) returns (r: Outcome)
      modifies this, descriptor, disk, cache
      ensures (r, State(disk, cache)) == RunSpec(adapter, format, sha1, web, args, old(State(disk, cache)))
    {
      if args.out.Some? {
        dir := args.out.value;
      }
      var name := RunName(dir, adapter.slug);
      r := LoadOrCrawl(disk, cache, args, name);
      if r.Fail? {
        return;
      }
      r := BuildAndSave(disk, cache, sha1, web, args, name);
    }
  }
}
