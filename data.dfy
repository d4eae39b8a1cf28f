/** The content model of src/masc/data.py: mutable `Metadata`, `Volume`,
    `Chapter` and `Page` records, with value snapshots (`...V` datatypes) that
    the specifications of the other components are written against. */
module Data {
  import opened Py

  datatype PageV = PageV(url: Value, imageUrl: Value, number: Value)

  datatype ChapterV = ChapterV(url: Value, title: string, number: Value, volume: Value, pages: seq<PageV>)

  datatype VolumeV = VolumeV(number: Value, chapters: seq<ChapterV>)

  datatype MetadataV = MetadataV(title: string, slug: string, coverUrl: Value)

  class Metadata {
    var title: string
    var slug: string
    var coverUrl: Value

    constructor (title: string, slug: string)
      ensures this.title == title && this.slug == slug && coverUrl == Null
    {
      this.title := title;
      this.slug := slug;
      coverUrl := Null;
    }
  }

  class Page {
    var url: Value
    var imageUrl: Value
    var number: Value

    constructor (url: Value, number: Value)
      ensures this.url == url && this.number == number && imageUrl == Null
    {
      this.url := url;
      this.number := number;
      imageUrl := Null;
    }
  }

  class Chapter {
    var url: Value
    var title: string
    var number: Value
    var volume: Value
    var pages: seq<Page>

    constructor (url: Value, title: string, number: Value, volume: Value := Null)
      ensures this.url == url && this.title == title && this.number == number
      ensures this.volume == volume && pages == []
    {
      this.url := url;
      this.title := title;
      this.number := number;
      this.volume := volume;
      pages := [];
    }

    method AddPage(page: Page)
      modifies this
      ensures pages == old(pages) + [page]
      ensures url == old(url) && title == old(title) && number == old(number) && volume == old(volume)
    {
      pages := pages + [page];
    }
  }

  class Volume {
    var number: Value
    var chapters: seq<Chapter>

    constructor (number: Value)
      ensures this.number == number && chapters == []
    {
      this.number := number;
      chapters := [];
    }

    method AddChapter(chapter: Chapter)
      modifies this
      ensures chapters == old(chapters) + [chapter] && number == old(number)
    {
      chapters := chapters + [chapter];
    }
  }

  // ---------------------------------------------------------------------------
  // Snapshots

  function MetadataOf(m: Metadata): MetadataV
    reads m
  {
    MetadataV(m.title, m.slug, m.coverUrl)
  }

  function PageOf(p: Page): PageV
    reads p
  {
    PageV(p.url, p.imageUrl, p.number)
  }

  function PagesOf(ps: seq<Page>): (r: seq<PageV>)
    reads ps
    ensures |r| == |ps|
    ensures forall i {:trigger r[i]} :: 0 <= i < |ps| ==> r[i] == PageOf(ps[i])
  {
    if ps == [] then [] else PagesOf(ps[..|ps| - 1]) + [PageOf(ps[|ps| - 1])]
  }

  function ChapterOf(c: Chapter): ChapterV
    reads c, c.pages
  {
    ChapterV(c.url, c.title, c.number, c.volume, PagesOf(c.pages))
  }

  /** Every page object reachable from the chapters `cs`. */
  ghost function PageSet(cs: seq<Chapter>): set<Page>
    reads cs
  {
    set c, p | c in cs && p in c.pages :: p
  }

  function ChaptersOf(cs: seq<Chapter>): (r: seq<ChapterV>)
    reads cs, PageSet(cs)
    ensures |r| == |cs|
    ensures forall i {:trigger r[i]} :: 0 <= i < |cs| ==> r[i] == ChapterOf(cs[i])
  {
    if cs == [] then []
    else
      assert forall p :: p in cs[|cs| - 1].pages ==> p in PageSet(cs);
      assert PageSet(cs[..|cs| - 1]) <= PageSet(cs);
      ChaptersOf(cs[..|cs| - 1]) + [ChapterOf(cs[|cs| - 1])]
  }

  function VolumeOf(v: Volume): VolumeV
    reads v, v.chapters, PageSet(v.chapters)
  {
    VolumeV(v.number, ChaptersOf(v.chapters))
  }

  // ---------------------------------------------------------------------------
  // What the constructors and appenders promise, stated on snapshots

  /** Appending a page to a chapter appends its snapshot to the chapter's page list. */
  lemma AddPageSnapshot(before: seq<Page>, p: Page)
    ensures PagesOf(before + [p]) == PagesOf(before) + [PageOf(p)]
  {
    assert (before + [p])[..|before|] == before;
  }

  lemma AddChapterSnapshot(before: seq<Chapter>, c: Chapter)
    ensures ChaptersOf(before + [c]) == ChaptersOf(before) + [ChapterOf(c)]
  {
    assert (before + [c])[..|before|] == before;
  }
}
