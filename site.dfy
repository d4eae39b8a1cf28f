/** The interfaces of src/masc/scraper.py that the scraper engine and the
    output formats are written against. */
module Site {
  import opened Py
  import opened Data

  /** A `SiteAdapter`, as what its four queries answer. The site is taken not
      to change while the program runs, so each query is a fixed answer (or a
      fixed function of its argument). */
  datatype SiteAdapter = SiteAdapter(
    slug: string,
    meta: Result<MetadataV>,
    chapters: Result<seq<ChapterV>>,
    pages: ChapterV -> Result<seq<PageV>>,
    image: PageV -> Result<string>)
}
