/** The series descriptor of src/masc/descriptor.py: metadata plus the volumes
    keyed by volume number in a Python dict, saved to and loaded from an XML
    file. */
module Descriptor {
  import opened Py
  import opened Data

  /** The items of the volume dict, in insertion order. */
  type Volumes = seq<(Value, VolumeV)>

  datatype DescriptorV = DescriptorV(metadata: Option<MetadataV>, volumes: Volumes)

  // ---------------------------------------------------------------------------
  // Dict semantics on insertion-ordered items

  predicate DistinctKeys(vs: Volumes)
  {
    forall i, j :: 0 <= i < j < |vs| ==> vs[i].0 != vs[j].0
  }

  predicate HasKey(vs: Volumes, k: Value)
  {
    exists i :: 0 <= i < |vs| && vs[i].0 == k
  }

  /** `d[k] = v`: an existing key keeps its place and takes the new value, a
      new key goes at the end. */
  function Put(vs: Volumes, k: Value, v: VolumeV): Volumes
  {
    if vs == [] then [(k, v)]
    else if vs[0].0 == k then [(k, v)] + vs[1..]
    else [vs[0]] + Put(vs[1..], k, v)
  }

  lemma DropDistinct(vs: Volumes)
    requires vs != [] && DistinctKeys(vs)
    ensures DistinctKeys(vs[1..])
  {
    var rest := vs[1..];
    forall i, j | 0 <= i < j < |rest| ensures rest[i].0 != rest[j].0 {
      assert rest[i] == vs[i + 1] && rest[j] == vs[j + 1];
    }
  }

  lemma HasKeyTail(vs: Volumes, k: Value)
    requires vs != [] && vs[0].0 != k
    ensures HasKey(vs, k) <==> HasKey(vs[1..], k)
  {
    var rest := vs[1..];
    if HasKey(vs, k) {
      var i :| 0 <= i < |vs| && vs[i].0 == k;
      assert rest[i - 1] == vs[i];
    }
    if HasKey(rest, k) {
      var i :| 0 <= i < |rest| && rest[i].0 == k;
      assert vs[i + 1] == rest[i];
    }
  }

  /** Where `d[k] = v` puts the item, on a dict with distinct keys. */
  lemma {:induction false} PutPlaces(vs: Volumes, k: Value, v: VolumeV)
    requires DistinctKeys(vs)
    ensures HasKey(vs, k) ==>
      (|Put(vs, k, v)| == |vs| &&
       forall i :: 0 <= i < |vs| ==> Put(vs, k, v)[i] == (if vs[i].0 == k then (k, v) else vs[i]))
    ensures !HasKey(vs, k) ==> Put(vs, k, v) == vs + [(k, v)]
  {
    if vs == [] {
    } else if vs[0].0 == k {
      var r := Put(vs, k, v);
      assert HasKey(vs, k);
      forall i | 0 <= i < |vs| ensures r[i] == (if vs[i].0 == k then (k, v) else vs[i]) {
        if i > 0 { assert vs[0].0 != vs[i].0; }
      }
    } else {
      var rest := vs[1..];
      DropDistinct(vs);
      HasKeyTail(vs, k);
      PutPlaces(rest, k, v);
      var r := Put(vs, k, v);
      assert r == [vs[0]] + Put(rest, k, v);
      if HasKey(vs, k) {
        forall i | 0 <= i < |vs| ensures r[i] == (if vs[i].0 == k then (k, v) else vs[i]) {
          if i > 0 { assert r[i] == Put(rest, k, v)[i - 1] && rest[i - 1] == vs[i]; }
        }
      } else {
        assert vs == [vs[0]] + rest;
      }
    }
  }

  lemma PutShape(vs: Volumes, k: Value, v: VolumeV)
    requires DistinctKeys(vs)
    ensures DistinctKeys(Put(vs, k, v))
    ensures HasKey(vs, k) ==>
      (|Put(vs, k, v)| == |vs| &&
       forall i :: 0 <= i < |vs| ==> Put(vs, k, v)[i] == (if vs[i].0 == k then (k, v) else vs[i]))
    ensures !HasKey(vs, k) ==> Put(vs, k, v) == vs + [(k, v)]
  {
    PutPlaces(vs, k, v);
    var r := Put(vs, k, v);
    if HasKey(vs, k) {
      forall i, j | 0 <= i < j < |r| ensures r[i].0 != r[j].0 {
        assert r[i].0 == vs[i].0 && r[j].0 == vs[j].0;
      }
    } else {
      forall i, j | 0 <= i < j < |r| ensures r[i].0 != r[j].0 {
        if j == |vs| { assert r[i] == vs[i]; } else { assert r[i] == vs[i] && r[j] == vs[j]; }
      }
    }
  }

  /** Putting the same key twice keeps only the second value. */
  lemma {:induction false} PutTwice(vs: Volumes, k: Value, a: VolumeV, b: VolumeV)
    ensures Put(Put(vs, k, a), k, b) == Put(vs, k, b)
  {
    if vs != [] && vs[0].0 != k {
      PutTwice(vs[1..], k, a, b);
      assert Put(vs, k, a)[1..] == Put(vs[1..], k, a);
    }
  }

  /** The dict built by putting the items one after another. */
  function Collect(vs: Volumes): Volumes
  {
    if vs == [] then [] else Put(Collect(vs[..|vs| - 1]), vs[|vs| - 1].0, vs[|vs| - 1].1)
  }

  lemma {:induction false} CollectDistinct(vs: Volumes)
    ensures DistinctKeys(Collect(vs))
    ensures DistinctKeys(vs) ==> Collect(vs) == vs
  {
    if vs != [] {
      var pre := vs[..|vs| - 1];
      CollectDistinct(pre);
      PutShape(Collect(pre), vs[|vs| - 1].0, vs[|vs| - 1].1);
      if DistinctKeys(vs) {
        assert DistinctKeys(pre);
        assert !HasKey(pre, vs[|vs| - 1].0);
        assert pre + [vs[|vs| - 1]] == vs;
      }
    }
  }

  // ---------------------------------------------------------------------------
  // The mutable descriptor

  /** A `Descriptor` object. The dict holds value snapshots of its volumes
      (see README, "Left out"). */
  class Descriptor {
    var metadata: Option<MetadataV>
    var volumes: Volumes

    ghost predicate Valid()
      reads this
    {
      DistinctKeys(volumes)
    }

    function Snapshot(): DescriptorV
      reads this
    {
      DescriptorV(metadata, volumes)
    }

    constructor ()
      ensures Valid() && metadata == None && volumes == []
    {
      metadata := None;
      volumes := [];
    }

    /** `add_volume(volume)`: `self.volumes[volume.number] = volume`. */
    method AddVolume(volume: VolumeV)
      requires Valid()
      modifies this
      ensures Valid() && metadata == old(metadata)
      ensures volumes == Put(old(volumes), volume.number, volume)
    {
      PutShape(volumes, volume.number, volume);
      volumes := Put(volumes, volume.number, volume);
    }

    /** `Descriptor.load(path)`. */
    static method Load(disk: Disk, path: string) returns (r: Result<Descriptor>)
      ensures r.Err? ==> LoadFile(disk.files, path) == Err(r.error)
      ensures r.Ok? ==> fresh(r.value) && r.value.Valid() && LoadFile(disk.files, path) == Ok(r.value.Snapshot())
    {
      var xml := ParseXml(disk.files, path);
      if xml.Err? {
        return Err(xml.error);
      }
      var root := xml.value;
      var metadataTag := Find(root, "metadata");
      if metadataTag.None? {
        return Err(AttributeError);
      }
      var titleTag := Find(metadataTag.value, "title");
      if titleTag.None? {
        return Err(AttributeError);
      }
      var metadata := MetadataV(TextOf(titleTag.value), Attr(metadataTag.value, "slug"), Null);
      var coverTag := Find(metadataTag.value, "cover");
      if coverTag.None? {
        return Err(AttributeError);
      }
      metadata := metadata.(coverUrl := Str(TextOf(coverTag.value)));
      var d := new Descriptor();
      d.metadata := Some(metadata);
      var volumeTags := FindAll(root, "volume");
      for i := 0 to |volumeTags|
        invariant fresh(d) && d.Valid() && d.metadata == Some(metadata)
        invariant LoadVolumes(volumeTags[..i]) == Ok(d.volumes)
      {
        var volume := ReadVolume(volumeTags[i]);
        if volume.Err? {
          LoadVolumesFirstError(volumeTags, i);
          return Err(volume.error);
        }
        LoadVolumesSnoc(volumeTags, i);
        d.AddVolume(volume.value);
      }
      assert volumeTags[..|volumeTags|] == volumeTags;
      return Ok(d);
    }

    /** `save(path)`: a missing metadata record raises before anything is
        written; otherwise the tree is handed to the XML writer. */
    method Save(disk: Disk, path: string) returns (r: Outcome)
      modifies disk
      ensures (r, disk.files) == SaveFile(old(disk.files), path, Snapshot())
    {
      var tree := BuildTree(Snapshot());
      if tree.Err? {
        return Fail(tree.error);
      }
      if Serializable(tree.value) {
        disk.Write(path, Xml(tree.value));
        r := Pass;
      } else {
        disk.Write(path, Garbled);
        r := Fail(TypeError);
      }
    }
  }

  /** The loops of `save` that build the element tree. */
  method BuildTree(d: DescriptorV) returns (r: Result<Element>)
    ensures r == SaveTree(d)
  {
    if d.metadata.None? {
      return Err(AttributeError);
    }
    var m := d.metadata.value;
    var metadataTag := Element("metadata", map["slug" := Str(m.slug)], None,
      [Element("title", map[], Some(m.title), []), Element("cover", map["url" := m.coverUrl], None, [])]);
    var children := [metadataTag];
    for i := 0 to |d.volumes|
      invariant children == [MetadataElement(m)] + MapSeq(VolumeElement, d.volumes[..i])
    {
      var (vid, volume) := d.volumes[i];
      var chapterTags := [];
      for j := 0 to |volume.chapters|
        invariant chapterTags == MapSeq(ChapterElement, volume.chapters[..j])
      {
        var chapter := volume.chapters[j];
        var chapterChildren := [Element("title", map[], Some(chapter.title), [])];
        for k := 0 to |chapter.pages|
          invariant chapterChildren == [TitleElement(chapter.title)] + MapSeq(PageElement, chapter.pages[..k])
        {
          var page := chapter.pages[k];
          MapSeqSnoc(PageElement, chapter.pages, k);
          chapterChildren := chapterChildren + [Element("page", map["number" := Str(Show(page.number)), "url" := Str(Show(page.imageUrl))], None, [])];
        }
        assert chapter.pages[..|chapter.pages|] == chapter.pages;
        MapSeqSnoc(ChapterElement, volume.chapters, j);
        chapterTags := chapterTags + [Element("chapter", map["number" := Str(Show(chapter.number)), "url" := Str(Show(chapter.url))], None, chapterChildren)];
      }
      assert volume.chapters[..|volume.chapters|] == volume.chapters;
      MapSeqSnoc(VolumeElement, d.volumes, i);
      children := children + [Element("volume", map["number" := Str(Show(vid))], None, chapterTags)];
    }
    assert d.volumes[..|d.volumes|] == d.volumes;
    return Ok(Element("descriptor", map[], None, children));
  }

  /** The loops of `load` that read one `volume` element. */
  method ReadVolume(volumeTag: Element) returns (r: Result<VolumeV>)
    ensures r == LoadVolume(volumeTag)
  {
    var number := Str(Attr(volumeTag, "number"));
    var chapters := [];
    var chapterTags := FindAll(volumeTag, "chapter");
    for i := 0 to |chapterTags|
      invariant LoadChapters(chapterTags[..i], number) == Ok(chapters)
    {
      var chapterTag := chapterTags[i];
      var titleTag := Find(chapterTag, "title");
      if titleTag.None? {
        LoadChaptersFirstError(chapterTags, number, i);
        return Err(AttributeError);
      }
      var pages := [];
      var pageTags := FindAll(chapterTag, "page");
      for k := 0 to |pageTags|
        invariant pages == MapSeq(LoadPage, pageTags[..k])
      {
        MapSeqSnoc(LoadPage, pageTags, k);
        pages := pages + [PageV(Null, Str(Attr(pageTags[k], "url")), Str(Attr(pageTags[k], "number")))];
      }
      assert pageTags[..|pageTags|] == pageTags;
      LoadChaptersSnoc(chapterTags, number, i);
      chapters := chapters + [ChapterV(Str(Attr(chapterTag, "url")), TextOf(titleTag.value), Str(Attr(chapterTag, "number")), number, pages)];
    }
    assert chapterTags[..|chapterTags|] == chapterTags;
    return Ok(VolumeV(number, chapters));
  }

  // ---------------------------------------------------------------------------
  // save: the tree written to disk

  function TitleElement(title: string): Element
  {
    Element("title", map[], Some(title), [])
  }

  function PageElement(p: PageV): Element
  {
    Element("page", map["number" := Str(Show(p.number)), "url" := Str(Show(p.imageUrl))], None, [])
  }

  function ChapterElement(c: ChapterV): Element
  {
    Element("chapter", map["number" := Str(Show(c.number)), "url" := Str(Show(c.url))], None,
      [TitleElement(c.title)] + MapSeq(PageElement, c.pages))
  }

  function VolumeElement(item: (Value, VolumeV)): Element
  {
    Element("volume", map["number" := Str(Show(item.0))], None, MapSeq(ChapterElement, item.1.chapters))
  }

  /** The cover URL is stored as the `url` attribute, unconverted. */
  function MetadataElement(m: MetadataV): Element
  {
    Element("metadata", map["slug" := Str(m.slug)], None,
      [TitleElement(m.title), Element("cover", map["url" := m.coverUrl], None, [])])
  }

  function SaveTree(d: DescriptorV): Result<Element>
  {
    match d.metadata
    case None => Err(AttributeError)
    case Some(m) => Ok(Element("descriptor", map[], None, [MetadataElement(m)] + MapSeq(VolumeElement, d.volumes)))
  }

  /** The outcome of `save(path)` and the files afterwards. */
  function SaveFile(files: map<string, File>, path: string, d: DescriptorV): (Outcome, map<string, File>)
  {
    match SaveTree(d)
    case Err(e) => (Fail(e), files)
    case Ok(root) => WriteXml(files, path, root)
  }

  // ---------------------------------------------------------------------------
  // load: reading a tree back

  function LoadMetadata(root: Element): Result<MetadataV>
  {
    match Find(root, "metadata")
    case None => Err(AttributeError)
    case Some(m) =>
      match Find(m, "title")
      case None => Err(AttributeError)
      case Some(t) =>
        match Find(m, "cover")
        case None => Err(AttributeError)
        case Some(c) => Ok(MetadataV(TextOf(t), Attr(m, "slug"), Str(TextOf(c))))
  }

  function LoadPage(e: Element): PageV
  {
    PageV(Null, Str(Attr(e, "url")), Str(Attr(e, "number")))
  }

  function LoadChapter(e: Element, volume: Value): Result<ChapterV>
  {
    match Find(e, "title")
    case None => Err(AttributeError)
    case Some(t) => Ok(ChapterV(Str(Attr(e, "url")), TextOf(t), Str(Attr(e, "number")), volume, MapSeq(LoadPage, FindAll(e, "page"))))
  }

  /** The chapters of one volume element; the first failure wins. */
  function LoadChapters(es: seq<Element>, volume: Value): Result<seq<ChapterV>>
  {
    if es == [] then Ok([])
    else
      match LoadChapters(es[..|es| - 1], volume)
      case Err(e) => Err(e)
      case Ok(cs) =>
        match LoadChapter(es[|es| - 1], volume)
        case Err(e) => Err(e)
        case Ok(c) => Ok(cs + [c])
  }

  function LoadVolume(e: Element): Result<VolumeV>
  {
    var number := Str(Attr(e, "number"));
    match LoadChapters(FindAll(e, "chapter"), number)
    case Err(err) => Err(err)
    case Ok(cs) => Ok(VolumeV(number, cs))
  }

  /** The volume elements in order, each put into the dict under its number. */
  function LoadVolumes(es: seq<Element>): Result<Volumes>
  {
    if es == [] then Ok([])
    else
      match LoadVolumes(es[..|es| - 1])
      case Err(e) => Err(e)
      case Ok(vs) =>
        match LoadVolume(es[|es| - 1])
        case Err(e) => Err(e)
        case Ok(v) => Ok(Put(vs, v.number, v))
  }

  function LoadTree(root: Element): Result<DescriptorV>
  {
    match LoadMetadata(root)
    case Err(e) => Err(e)
    case Ok(m) =>
      match LoadVolumes(FindAll(root, "volume"))
      case Err(e) => Err(e)
      case Ok(vs) => Ok(DescriptorV(Some(m), vs))
  }

  function LoadFile(files: map<string, File>, path: string): Result<DescriptorV>
  {
    match ParseXml(files, path)
    case Err(e) => Err(e)
    case Ok(root) => LoadTree(root)
  }

  lemma LoadVolumesSnoc(es: seq<Element>, i: nat)
    requires i < |es| && LoadVolumes(es[..i]).Ok? && LoadVolume(es[i]).Ok?
    ensures LoadVolumes(es[..i + 1]) == Ok(Put(LoadVolumes(es[..i]).value, LoadVolume(es[i]).value.number, LoadVolume(es[i]).value))
  {
    TakeSnoc(es, i);
  }

  lemma {:induction false} LoadVolumesFirstError(es: seq<Element>, i: nat)
    requires i < |es| && LoadVolumes(es[..i]).Ok? && LoadVolume(es[i]).Err?
    ensures LoadVolumes(es) == Err(LoadVolume(es[i]).error)
  {
    var pre := es[..|es| - 1];
    if |es| == i + 1 {
      assert pre == es[..i];
    } else {
      assert pre[..i] == es[..i] && pre[i] == es[i];
      LoadVolumesFirstError(pre, i);
    }
  }

  lemma {:induction false} LoadChaptersFirstError(es: seq<Element>, volume: Value, i: nat)
    requires i < |es| && LoadChapters(es[..i], volume).Ok? && LoadChapter(es[i], volume).Err?
    ensures LoadChapters(es, volume) == Err(LoadChapter(es[i], volume).error)
  {
    var pre := es[..|es| - 1];
    if |es| == i + 1 {
      assert pre == es[..i];
    } else {
      assert pre[..i] == es[..i] && pre[i] == es[i];
      LoadChaptersFirstError(pre, volume, i);
    }
  }

  lemma LoadChaptersSnoc(es: seq<Element>, volume: Value, i: nat)
    requires i < |es| && LoadChapters(es[..i], volume).Ok? && LoadChapter(es[i], volume).Ok?
    ensures LoadChapters(es[..i + 1], volume) == Ok(LoadChapters(es[..i], volume).value + [LoadChapter(es[i], volume).value])
  {
    TakeSnoc(es, i);
  }

  // ---------------------------------------------------------------------------
  // What survives a save followed by a load

  /** `str(e.text)` of an element written with text `s`: the parser reads
      empty text back as None. */
  function ParsedText(s: string): (r: string)
    ensures r != ""
    ensures s != "" ==> r == s
  {
    if s == "" then "None" else s
  }

  /** A page after the round trip: its url is gone, its image URL and number
      are the strings `str()` made of them. */
  function ReloadedPage(p: PageV): PageV
  {
    PageV(Null, Str(Show(p.imageUrl)), Str(Show(p.number)))
  }

  /** A chapter after the round trip: strings for number and url, and the
      enclosing volume's number as its volume. */
  function ReloadedChapter(volume: Value, c: ChapterV): ChapterV
  {
    ChapterV(Str(Show(c.url)), ParsedText(c.title), Str(Show(c.number)), volume, MapSeq(ReloadedPage, c.pages))
  }

  function ReloadedChapters(volume: Value, cs: seq<ChapterV>): (r: seq<ChapterV>)
    ensures |r| == |cs|
    ensures forall i {:trigger r[i]} :: 0 <= i < |cs| ==> r[i] == ReloadedChapter(volume, cs[i])
  {
    seq(|cs|, i requires 0 <= i < |cs| => ReloadedChapter(volume, cs[i]))
  }

  /** A dict item after the round trip: it is keyed by `str(key)`. */
  function ReloadedItem(item: (Value, VolumeV)): (Value, VolumeV)
  {
    var number := Str(Show(item.0));
    (number, VolumeV(number, ReloadedChapters(number, item.1.chapters)))
  }

  /** The descriptor `load` returns for a file `save` wrote: the cover URL
      reads "None", and items whose keys print alike are merged by the dict. */
  function Reloaded(d: DescriptorV): (r: DescriptorV)
    requires d.metadata.Some?
  {
    var m := d.metadata.value;
    DescriptorV(Some(MetadataV(ParsedText(m.title), m.slug, Str("None"))), Collect(MapSeq(ReloadedItem, d.volumes)))
  }

  lemma FindAllTitleFirst(title: Element, rest: seq<Element>, tag: string)
    requires title.tag == tag
    requires forall i :: 0 <= i < |rest| ==> rest[i].tag != tag
    ensures Filter([title] + rest, tag) == [title]
  {
    assert ([title] + rest)[1..] == rest;
    FilterNone(rest, tag);
  }

  lemma {:induction false} FilterNone(es: seq<Element>, tag: string)
    requires forall i :: 0 <= i < |es| ==> es[i].tag != tag
    ensures Filter(es, tag) == []
  {
    if es != [] {
      FilterNone(es[1..], tag);
    }
  }

  /** The layout `save` writes: one `volume` element per dict item, holding
      `str(key)` and its chapters in list order, and one `page` element per
      page in list order. */
  lemma SavedLayout(d: DescriptorV)
    requires d.metadata.Some?
    ensures SaveTree(d).Ok?
    ensures FindAll(SaveTree(d).value, "volume") == MapSeq(VolumeElement, d.volumes)
    ensures forall i :: 0 <= i < |d.volumes| ==>
      VolumeElement(d.volumes[i]).attrs["number"] == Str(Show(d.volumes[i].0)) &&
      FindAll(VolumeElement(d.volumes[i]), "chapter") == MapSeq(ChapterElement, d.volumes[i].1.chapters)
    ensures forall c: ChapterV :: FindAll(ChapterElement(c), "page") == MapSeq(PageElement, c.pages)
  {
    var root := SaveTree(d).value;
    assert root.children == [MetadataElement(d.metadata.value)] + MapSeq(VolumeElement, d.volumes);
    FilterAppend([MetadataElement(d.metadata.value)], MapSeq(VolumeElement, d.volumes), "volume");
    FilterAll(MapSeq(VolumeElement, d.volumes), "volume");
    forall i | 0 <= i < |d.volumes|
      ensures FindAll(VolumeElement(d.volumes[i]), "chapter") == MapSeq(ChapterElement, d.volumes[i].1.chapters)
    {
      VolumeElementChapters(d.volumes[i]);
    }
    forall c: ChapterV ensures FindAll(ChapterElement(c), "page") == MapSeq(PageElement, c.pages) {
      ChapterElementParts(c);
    }
  }

  lemma VolumeElementChapters(item: (Value, VolumeV))
    ensures FindAll(VolumeElement(item), "chapter") == MapSeq(ChapterElement, item.1.chapters)
  {
    FilterAll(MapSeq(ChapterElement, item.1.chapters), "chapter");
  }

  lemma ChapterElementParts(c: ChapterV)
    ensures Find(ChapterElement(c), "title") == Some(TitleElement(c.title))
    ensures FindAll(ChapterElement(c), "page") == MapSeq(PageElement, c.pages)
  {
    var pages := MapSeq(PageElement, c.pages);
    FindAllTitleFirst(TitleElement(c.title), pages, "title");
    FilterAppend([TitleElement(c.title)], pages, "page");
    FilterAll(pages, "page");
  }

  lemma LoadChapterElement(volume: Value, c: ChapterV)
    ensures LoadChapter(ChapterElement(c), volume) == Ok(ReloadedChapter(volume, c))
  {
    ChapterElementParts(c);
    assert MapSeq(LoadPage, MapSeq(PageElement, c.pages)) == MapSeq(ReloadedPage, c.pages);
  }

  lemma {:induction false} LoadChaptersAllOk(es: seq<Element>, volume: Value, cs: seq<ChapterV>)
    requires |es| == |cs|
    requires forall i :: 0 <= i < |es| ==> LoadChapter(es[i], volume) == Ok(cs[i])
    ensures LoadChapters(es, volume) == Ok(cs)
  {
    if es != [] {
      LoadChaptersAllOk(es[..|es| - 1], volume, cs[..|cs| - 1]);
      SplitLast(cs);
    }
  }

  lemma LoadChapterElements(volume: Value, cs: seq<ChapterV>)
    ensures LoadChapters(MapSeq(ChapterElement, cs), volume) == Ok(ReloadedChapters(volume, cs))
  {
    var es := MapSeq(ChapterElement, cs);
    forall i | 0 <= i < |es| ensures LoadChapter(es[i], volume) == Ok(ReloadedChapters(volume, cs)[i]) {
      LoadChapterElement(volume, cs[i]);
    }
    LoadChaptersAllOk(es, volume, ReloadedChapters(volume, cs));
  }

  lemma LoadVolumeElement(item: (Value, VolumeV))
    ensures LoadVolume(VolumeElement(item)) == Ok(ReloadedItem(item).1)
    ensures ReloadedItem(item).1.number == ReloadedItem(item).0
  {
    var e := VolumeElement(item);
    FilterAll(e.children, "chapter");
    LoadChapterElements(Str(Show(item.0)), item.1.chapters);
  }

  lemma {:induction false} LoadVolumeElements(vs: Volumes)
    ensures LoadVolumes(MapSeq(VolumeElement, vs)) == Ok(Collect(MapSeq(ReloadedItem, vs)))
  {
    if vs != [] {
      var pre := vs[..|vs| - 1];
      MapSeqFront(VolumeElement, vs);
      LoadVolumeElements(pre);
      LoadVolumeElement(vs[|vs| - 1]);
      MapSeqFront(ReloadedItem, vs);
    }
  }

  lemma ChapterElementSerializable(c: ChapterV)
    ensures Serializable(ChapterElement(c))
  {
    var ce := ChapterElement(c);
    forall k | 0 <= k < |ce.children| ensures Serializable(ce.children[k]) {
      if k > 0 {
        assert ce.children[k] == PageElement(c.pages[k - 1]);
      }
    }
  }

  lemma VolumeElementSerializable(item: (Value, VolumeV))
    ensures Serializable(VolumeElement(item))
  {
    var v := VolumeElement(item);
    forall j | 0 <= j < |v.children| ensures Serializable(v.children[j]) {
      assert v.children[j] == ChapterElement(item.1.chapters[j]);
      ChapterElementSerializable(item.1.chapters[j]);
    }
  }

  lemma SerializableLayout(d: DescriptorV)
    requires d.metadata.Some?
    ensures Serializable(SaveTree(d).value) <==> d.metadata.value.coverUrl.Str?
  {
    var m := d.metadata.value;
    var root := SaveTree(d).value;
    var cover := Element("cover", map["url" := m.coverUrl], None, []);
    assert MetadataElement(m).children[1] == cover;
    assert root.children[0] == MetadataElement(m);
    if m.coverUrl.Str? {
      assert Serializable(MetadataElement(m));
      forall i | 0 <= i < |root.children| ensures Serializable(root.children[i]) {
        if i > 0 {
          assert root.children[i] == VolumeElement(d.volumes[i - 1]);
          VolumeElementSerializable(d.volumes[i - 1]);
        }
      }
    } else {
      assert "url" in cover.attrs && !cover.attrs["url"].Str?;
      assert !Serializable(MetadataElement(m));
    }
  }

  /** Save then load: with a string cover URL the file is written and reads
      back as `Reloaded(d)` — slug kept, a non-empty title kept, cover URL
      "None", every number and URL a string, page urls None. */
  lemma SaveLoad(files: map<string, File>, path: string, d: DescriptorV)
    requires d.metadata.Some? && d.metadata.value.coverUrl.Str?
    ensures SaveFile(files, path, d).0 == Pass
    ensures LoadFile(SaveFile(files, path, d).1, path) == Ok(Reloaded(d))
    ensures var m := Reloaded(d).metadata.value;
      m.slug == d.metadata.value.slug && m.coverUrl == Str("None") &&
      (d.metadata.value.title != "" ==> m.title == d.metadata.value.title)
  {
    var m := d.metadata.value;
    var root := SaveTree(d).value;
    SerializableLayout(d);
    assert SaveFile(files, path, d).1 == files[path := Xml(root)];
    var me := MetadataElement(m);
    FindAllTitleFirst(me, MapSeq(VolumeElement, d.volumes), "metadata");
    assert root.children == [me] + MapSeq(VolumeElement, d.volumes);
    FindAllTitleFirst(me.children[0], [me.children[1]], "title");
    assert me.children == [me.children[0]] + [me.children[1]];
    assert me.children[1..] == [me.children[1]];
    assert Filter([me.children[1]], "cover") == [me.children[1]] + Filter([], "cover");
    assert FindAll(me, "cover") == [me.children[1]];
    assert LoadMetadata(root) == Ok(MetadataV(ParsedText(m.title), m.slug, Str("None")));
    SavedLayout(d);
    LoadVolumeElements(d.volumes);
  }

  /** The dict's view of the round trip: when no two keys print alike, the
      volumes come back in dict order, one per item. */
  lemma ReloadedOrder(d: DescriptorV)
    requires d.metadata.Some?
    requires forall i, j :: 0 <= i < j < |d.volumes| ==> Show(d.volumes[i].0) != Show(d.volumes[j].0)
    ensures Reloaded(d).volumes == MapSeq(ReloadedItem, d.volumes)
    ensures |Reloaded(d).volumes| == |d.volumes|
    ensures forall i :: 0 <= i < |d.volumes| ==> Reloaded(d).volumes[i].0 == Str(Show(d.volumes[i].0))
  {
    var items := MapSeq(ReloadedItem, d.volumes);
    assert DistinctKeys(items);
    CollectDistinct(items);
  }

  /** The two ways `save` fails: without metadata nothing is written; with a
      cover URL that is not a string the serialiser raises, and the partial
      file it leaves does not load. */
  lemma SaveFailures(files: map<string, File>, path: string, d: DescriptorV)
    ensures d.metadata.None? ==> SaveFile(files, path, d) == (Fail(AttributeError), files)
    ensures d.metadata.Some? && !d.metadata.value.coverUrl.Str? ==>
      SaveFile(files, path, d) == (Fail(TypeError), files[path := Garbled]) &&
      LoadFile(SaveFile(files, path, d).1, path) == Err(ParseError(path))
  {
    if d.metadata.Some? {
      SerializableLayout(d);
    }
  }

  /** `load` of two volume elements with the same number: the earlier one
      leaves no trace. */
  lemma LaterVolumeWins(es: seq<Element>, first: Element, second: Element)
    requires LoadVolume(first).Ok? && LoadVolume(second).Ok?
    requires LoadVolume(first).value.number == LoadVolume(second).value.number
    ensures LoadVolumes(es + [first, second]) == LoadVolumes(es + [second])
  {
    var s := es + [first, second];
    assert s[..|s| - 1] == es + [first];
    assert (es + [first])[..|es|] == es;
    assert (es + [second])[..|es|] == es;
    if LoadVolumes(es).Ok? {
      var a := LoadVolume(first).value;
      var b := LoadVolume(second).value;
      PutTwice(LoadVolumes(es).value, a.number, a, b);
    }
  }

  lemma {:induction false} PutFrom(vs: Volumes, k: Value, v: VolumeV, x: (Value, VolumeV))
    requires x in Put(vs, k, v)
    ensures x in vs || x == (k, v)
  {
    if vs != [] && vs[0].0 != k {
      if x != vs[0] {
        PutFrom(vs[1..], k, v, x);
      }
    } else if vs != [] && x != (k, v) {
      assert x in vs[1..];
    }
  }

  lemma {:induction false} CollectFrom(vs: Volumes, x: (Value, VolumeV))
    requires x in Collect(vs)
    ensures x in vs
  {
    if vs != [] {
      var pre := vs[..|vs| - 1];
      PutFrom(Collect(pre), vs[|vs| - 1].0, vs[|vs| - 1].1, x);
      if x != vs[|vs| - 1] {
        CollectFrom(pre, x);
      }
    }
  }

  lemma ReloadedItemTwice(item: (Value, VolumeV))
    ensures ReloadedItem(ReloadedItem(item)) == ReloadedItem(item)
  {
    var number := Str(Show(item.0));
    var cs := ReloadedChapters(number, item.1.chapters);
    forall i | 0 <= i < |cs| ensures ReloadedChapter(number, cs[i]) == cs[i] {
      var ps := cs[i].pages;
      assert MapSeq(ReloadedPage, ps) == ps;
    }
    assert ReloadedChapters(number, cs) == cs;
  }

  /** A second save and load changes nothing more. */
  lemma ReloadedStable(d: DescriptorV)
    requires d.metadata.Some?
    ensures Reloaded(Reloaded(d)) == Reloaded(d)
  {
    var items := Collect(MapSeq(ReloadedItem, d.volumes));
    forall i | 0 <= i < |items| ensures ReloadedItem(items[i]) == items[i] {
      CollectFrom(MapSeq(ReloadedItem, d.volumes), items[i]);
      var j :| 0 <= j < |d.volumes| && MapSeq(ReloadedItem, d.volumes)[j] == items[i];
      ReloadedItemTwice(d.volumes[j]);
    }
    assert MapSeq(ReloadedItem, items) == items;
    CollectDistinct(MapSeq(ReloadedItem, d.volumes));
    CollectDistinct(items);
  }
}
