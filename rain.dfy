/** The one-off importer of src/rain.py: it walks the page selector of the
    "Rain" web comic, files every page under the chapter named in its
    sub-heading (chapters are created the first time their number is seen),
    and saves one descriptor holding a single volume "0". Fetching and parsing
    the pages are outside the model: each page arrives as the three strings
    the importer reads off it, or as the error reading it raised. */
module Rain {
  import opened Py
  import opened Data
  import opened Descriptor
  import Format

  /** What the importer reads off one comic page: the text of the link in the
      sub-heading (None when the sub-heading has no link), the text of the
      heading, and the `src` of the comic image. */
  datatype ComicPage = ComicPage(chapterLink: Option<string>, heading: string, image: string)

  const MissingLink := "Ch. 0: Unkown"
  const UnknownName := "Unkown"
  const NoNumber := "000"

  // ---------------------------------------------------------------------------
  // The two heading patterns

  /** The length of the run of ASCII digits `s` starts with. */
  function DigitRun(s: string): (n: nat)
    ensures n <= |s| && AllDigits(s[..n]) && (n < |s| ==> !IsDigit(s[n]))
  {
    if s == [] || !IsDigit(s[0]) then 0
    else
      var k := DigitRun(s[1..]);
      assert s[..k + 1] == [s[0]] + s[1..][..k];
      k + 1
  }

  /** `(?P<name>.+)$`: the rest of the text, non-empty and without a newline;
      '$' also accepts one final newline. */
  function LineRest(s: string): (r: Option<string>)
    ensures r.Some? ==> |r.value| > 0 && '\n' !in r.value
  {
    if |s| > 0 && '\n' !in s then Some(s)
    else if |s| > 1 && s[|s| - 1] == '\n' && '\n' !in s[..|s| - 1] then Some(s[..|s| - 1])
    else None
  }

  function Newline(newline: bool): string { if newline then "\n" else "" }

  lemma LineRestOf(name: string, newline: bool)
    requires |name| > 0 && '\n' !in name
    ensures LineRest(name + Newline(newline)) == Some(name)
  {
    if newline {
      var s := name + "\n";
      assert s[|s| - 1] == '\n' && s[..|s| - 1] == name;
    } else {
      assert name + "" == name;
    }
  }

  /** `(?P<n>\d+)<sep>(?P<name>.+)$`, for a separator that starts with a
      non-digit (so the digit group is the whole run of digits). */
  function MatchNumbered(t: string, sep: string): Option<(string, string)>
  {
    var n := DigitRun(t);
    if n == 0 || !StartsWith(t[n..], sep) then None
    else match LineRest(t[n + |sep|..])
      case None => None
      case Some(name) => Some((t[..n], name))
  }

  lemma {:induction false} DigitRunOf(digits: string, rest: string)
    requires AllDigits(digits) && (rest == [] || !IsDigit(rest[0]))
    ensures DigitRun(digits + rest) == |digits|
  {
    if digits == [] {
      assert digits + rest == rest;
    } else {
      assert (digits + rest)[1..] == digits[1..] + rest;
      DigitRunOf(digits[1..], rest);
    }
  }

  lemma MatchNumberedOf(digits: string, sep: string, name: string, newline: bool)
    requires |digits| > 0 && AllDigits(digits) && |sep| > 0 && !IsDigit(sep[0])
    requires |name| > 0 && '\n' !in name
    ensures MatchNumbered(digits + (sep + (name + Newline(newline))), sep) == Some((digits, name))
  {
    var rest := name + Newline(newline);
    var t := digits + (sep + rest);
    DigitRunOf(digits, sep + rest);
    var n := DigitRun(t);
    assert t[..n] == digits;
    assert t[n..] == sep + rest;
    assert t[n + |sep|..] == rest;
    LineRestOf(name, newline);
  }

  /** `^Ch.? (?P<chap>\d+): (?P<name>.+)$`: the '.' is unescaped, so any one
      character but a newline may follow "Ch"; the engine tries that
      character first and then the form without it. */
  function MatchChapter(s: string): Option<(string, string)>
  {
    if !StartsWith(s, "Ch") then None
    else if |s| >= 4 && s[2] != '\n' && s[3] == ' ' && MatchNumbered(s[4..], ": ").Some? then MatchNumbered(s[4..], ": ")
    else if |s| >= 3 && s[2] == ' ' then MatchNumbered(s[3..], ": ")
    else None
  }

  /** `^Comic (?P<num>\d+) - (?P<name>.+)$`, giving the number. */
  function MatchTitle(s: string): Option<string>
  {
    if !StartsWith(s, "Comic ") then None
    else match MatchNumbered(s[6..], " - ")
      case None => None
      case Some(groups) => Some(groups.0)
  }

  /** `"{:0>3s}".format(digits)` keeps a string of digits a string of digits. */
  lemma PadDigits(d: string)
    requires AllDigits(d)
    ensures AllDigits(PadLeft(d, '0', 3)) && |PadLeft(d, '0', 3)| >= 3
  {
    var r := PadLeft(d, '0', 3);
    if |d| < 3 {
      forall i | 0 <= i < |r|
        ensures IsDigit(r[i])
      {
        if i >= 3 - |d| {
          assert r[i] == r[3 - |d|..][i - (3 - |d|)];
        }
      }
    }
  }

  /** The chapter number and name of a sub-heading: the digits padded to three
      characters, or "000" and "Unkown" when the pattern does not match. */
  function Classify(s: string): (r: (string, string))
    ensures |r.0| >= 3 && AllDigits(r.0)
    ensures MatchChapter(s).None? ==> r == (NoNumber, UnknownName)
  {
    match MatchChapter(s)
    case None => (NoNumber, UnknownName)
    case Some(groups) =>
      PadDigits(groups.0);
      (PadLeft(groups.0, '0', 3), groups.1)
  }

  /** The page number of a heading: the digits padded to three characters, or
      "000" when the pattern does not match. */
  function PageNumber(s: string): (r: string)
    ensures |r| >= 3 && AllDigits(r)
    ensures MatchTitle(s).None? ==> r == NoNumber
  {
    match MatchTitle(s)
    case None => NoNumber
    case Some(d) =>
      PadDigits(d);
      PadLeft(d, '0', 3)
  }

  /** The sub-headings the pattern is written for. */
  function ChapterText(x: Option<char>, digits: string, name: string, newline: bool): string
  {
    "Ch" + (match x case None => " " case Some(c) => [c] + " ") + (digits + (": " + (name + Newline(newline))))
  }

  /** Every sub-heading of that form is classified by its groups. */
  lemma ClassifyOf(x: Option<char>, digits: string, name: string, newline: bool)
    requires x.Some? ==> x.value != '\n'
    requires |digits| > 0 && AllDigits(digits) && |name| > 0 && '\n' !in name
    ensures Classify(ChapterText(x, digits, name, newline)) == (PadLeft(digits, '0', 3), name)
  {
    var s := ChapterText(x, digits, name, newline);
    var t := digits + (": " + (name + Newline(newline)));
    MatchNumberedOf(digits, ": ", name, newline);
    if x.Some? {
      assert s == "Ch" + [x.value] + " " + t;
      assert s[4..] == t;
    } else {
      assert s == "Ch" + " " + t;
      assert s[3] == digits[0];
      assert s[3..] == t;
    }
  }

  /** A page without a chapter link counts as chapter "000" named "Unkown". */
  lemma MissingLinkClass()
    ensures Classify(MissingLink) == (NoNumber, UnknownName)
  {
    ClassifyOf(Some('.'), "0", UnknownName, false);
    MissingLinkText();
    assert PadLeft("0", '0', 3) == NoNumber;
  }

  /** The placeholder sub-heading has the form the pattern is written for. */
  lemma MissingLinkText()
    ensures MissingLink == ChapterText(Some('.'), "0", UnknownName, false)
  {
    ChapterTextDot("0", UnknownName);
    var m := MissingLink;
    assert m[..4] == "Ch. " && m[4..5] == "0" && m[5..7] == ": " && m[7..] == UnknownName;
    assert m == m[..4] + m[4..5] + m[5..7] + m[7..];
  }

  lemma ChapterTextDot(digits: string, name: string)
    ensures ChapterText(Some('.'), digits, name, false) == "Ch. " + digits + ": " + name
  {
    assert Newline(false) == "";
  }

  /** Every heading of the form "Comic <digits> - <name>" gets its padded digits. */
  lemma PageNumberOf(digits: string, name: string, newline: bool)
    requires |digits| > 0 && AllDigits(digits) && |name| > 0 && '\n' !in name
    ensures PageNumber("Comic " + (digits + (" - " + (name + Newline(newline))))) == PadLeft(digits, '0', 3)
  {
    var t := digits + (" - " + (name + Newline(newline)));
    MatchNumberedOf(digits, " - ", name, newline);
    assert ("Comic " + t)[6..] == t;
  }

  // ---------------------------------------------------------------------------
  // The chapter grouping loop

  function ChapterHeading(p: ComicPage): string
  {
    match p.chapterLink
    case None => MissingLink
    case Some(s) => s
  }

  /** What the loop takes from one page: its chapter number and name, and
      the page object it appends (no URL, the image's `src`, the padded page
      number). */
  datatype Sighting = Sighting(number: Value, name: string, page: PageV)

  function Sight(p: ComicPage): Sighting
  {
    var (number, name) := Classify(ChapterHeading(p));
    Sighting(Str(number), name, PageV(Null, Str(p.image), Str(PageNumber(p.heading))))
  }

  function Sightings(ps: seq<ComicPage>): (r: seq<Sighting>)
    ensures |r| == |ps| && forall i {:trigger r[i]} :: 0 <= i < |ps| ==> r[i] == Sight(ps[i])
  {
    seq(|ps|, i requires 0 <= i < |ps| => Sight(ps[i]))
  }

  /** The position of the chapter numbered `k` in the dict, or -1. */
  function FindChapter(cs: seq<ChapterV>, k: Value): (i: int)
    ensures -1 <= i < |cs|
    ensures i >= 0 ==> cs[i].number == k
    ensures i < 0 ==> forall j :: 0 <= j < |cs| ==> cs[j].number != k
  {
    if cs == [] then -1
    else if cs[|cs| - 1].number == k then |cs| - 1
    else FindChapter(cs[..|cs| - 1], k)
  }

  /** One pass of the loop: the chapter is created on first sight, then the
      page is appended to it. */
  function AddPage(cs: seq<ChapterV>, s: Sighting): seq<ChapterV>
  {
    var i := FindChapter(cs, s.number);
    var cs1 := if i < 0 then cs + [ChapterV(Null, s.name, s.number, Null, [])] else cs;
    var j := if i < 0 then |cs| else i;
    cs1[j := cs1[j].(pages := cs1[j].pages + [s.page])]
  }

  /** The chapters dict after the loop, in insertion order. */
  function Gather(ss: seq<Sighting>): seq<ChapterV>
  {
    if ss == [] then [] else AddPage(Gather(ss[..|ss| - 1]), ss[|ss| - 1])
  }

  function Numbers(ss: seq<Sighting>): (r: seq<Value>)
    ensures |r| == |ss| && forall i {:trigger r[i]} :: 0 <= i < |ss| ==> r[i] == ss[i].number
  {
    seq(|ss|, i requires 0 <= i < |ss| => ss[i].number)
  }

  function ChapterNumbers(cs: seq<ChapterV>): (r: seq<Value>)
    ensures |r| == |cs| && forall i {:trigger r[i]} :: 0 <= i < |cs| ==> r[i] == cs[i].number
  {
    seq(|cs|, i requires 0 <= i < |cs| => cs[i].number)
  }

  /** The pages of chapter `k`, in the order of the selector. */
  function PagesNumbered(ss: seq<Sighting>, k: Value): seq<PageV>
  {
    if ss == [] then []
    else
      var pre := PagesNumbered(ss[..|ss| - 1], k);
      if ss[|ss| - 1].number == k then pre + [ss[|ss| - 1].page] else pre
  }

  /** The chapter name on the first page of chapter `k`. */
  function FirstName(ss: seq<Sighting>, k: Value): string
  {
    if ss == [] then UnknownName
    else if k in Numbers(ss[..|ss| - 1]) then FirstName(ss[..|ss| - 1], k)
    else ss[|ss| - 1].name
  }

  /** The chapter object numbered `k` that the pages build. */
  function ChapterFor(ss: seq<Sighting>, k: Value): ChapterV
  {
    ChapterV(Null, FirstName(ss, k), k, Null, PagesNumbered(ss, k))
  }

  /** One chapter per distinct number, in the order numbers first appear,
      each named after its first page and holding its pages in order. */
  predicate Gathered(cs: seq<ChapterV>, ss: seq<Sighting>)
  {
    ChapterNumbers(cs) == FirstOccurrences(Numbers(ss)) &&
    forall i :: 0 <= i < |cs| ==> cs[i] == ChapterFor(ss, cs[i].number)
  }

  lemma NumbersSnoc(ss: seq<Sighting>, s: Sighting)
    ensures Numbers(ss + [s]) == Numbers(ss) + [s.number]
    ensures (ss + [s])[..|ss|] == ss
  {
    assert (ss + [s])[..|ss|] == ss;
  }

  lemma {:induction false} PagesNumberedAbsent(ss: seq<Sighting>, k: Value)
    requires k !in Numbers(ss)
    ensures PagesNumbered(ss, k) == []
  {
    if ss != [] {
      var pre := ss[..|ss| - 1];
      assert Numbers(ss)[|ss| - 1] == ss[|ss| - 1].number;
      assert forall j :: 0 <= j < |pre| ==> Numbers(pre)[j] == Numbers(ss)[j];
      PagesNumberedAbsent(pre, k);
    }
  }

  /** A page of an earlier chapter changes nothing but that chapter's pages. */
  lemma ChapterForSnoc(ss: seq<Sighting>, s: Sighting, k: Value)
    requires k in Numbers(ss)
    ensures ChapterFor(ss + [s], k) ==
      var c := ChapterFor(ss, k);
      if s.number == k then c.(pages := c.pages + [s.page]) else c
  {
    NumbersSnoc(ss, s);
  }

  lemma AddPageExisting(cs: seq<ChapterV>, ss: seq<Sighting>, s: Sighting)
    requires Gathered(cs, ss) && FindChapter(cs, s.number) >= 0
    ensures Gathered(AddPage(cs, s), ss + [s])
  {
    var k := s.number;
    var i := FindChapter(cs, k);
    var cs1 := AddPage(cs, s);
    NumbersSnoc(ss, s);
    FirstOccurrencesMembers(Numbers(ss));
    FirstOccurrencesSnoc(Numbers(ss), k);
    assert ChapterNumbers(cs)[i] == k;
    assert ChapterNumbers(cs1) == ChapterNumbers(cs);
    forall j | 0 <= j < |cs1|
      ensures cs1[j] == ChapterFor(ss + [s], cs1[j].number)
    {
      assert ChapterNumbers(cs)[j] in FirstOccurrences(Numbers(ss));
      ChapterForSnoc(ss, s, cs[j].number);
      if j != i {
        assert ChapterNumbers(cs)[j] != ChapterNumbers(cs)[i];
      }
    }
  }

  lemma AddPageNew(cs: seq<ChapterV>, ss: seq<Sighting>, s: Sighting)
    requires Gathered(cs, ss) && FindChapter(cs, s.number) < 0
    ensures Gathered(AddPage(cs, s), ss + [s])
  {
    var k := s.number;
    var cs1 := AddPage(cs, s);
    NumbersSnoc(ss, s);
    FirstOccurrencesMembers(Numbers(ss));
    FirstOccurrencesSnoc(Numbers(ss), k);
    assert k !in ChapterNumbers(cs);
    assert k !in Numbers(ss);
    PagesNumberedAbsent(ss, k);
    assert ChapterNumbers(cs1) == ChapterNumbers(cs) + [k];
    forall j | 0 <= j < |cs1|
      ensures cs1[j] == ChapterFor(ss + [s], cs1[j].number)
    {
      if j < |cs| {
        assert ChapterNumbers(cs)[j] in FirstOccurrences(Numbers(ss));
        ChapterForSnoc(ss, s, cs[j].number);
      } else {
        assert cs1[j] == ChapterV(Null, s.name, k, Null, [s.page]);
      }
    }
  }

  /** The dict the loop builds is grouped from the pages. */
  lemma {:induction false} GatherShape(ss: seq<Sighting>)
    ensures Gathered(Gather(ss), ss)
  {
    if ss != [] {
      var pre := ss[..|ss| - 1];
      GatherShape(pre);
      SplitLast(ss);
      if FindChapter(Gather(pre), ss[|ss| - 1].number) >= 0 {
        AddPageExisting(Gather(pre), pre, ss[|ss| - 1]);
      } else {
        AddPageNew(Gather(pre), pre, ss[|ss| - 1]);
      }
    }
  }

  // ---------------------------------------------------------------------------
  // Assembling and saving the descriptor

  const RainMetadata := MetadataV("Rain", "rain", Str("..."))
  const RainVolume: Value := Str("0")
  const RainFile := "rain.xml"

  /** `sorted(chapters.values(), key=lambda chap: chap.number)`: the numbers
      are all strings, so the sort cannot raise. */
  function SortedChapters(cs: seq<ChapterV>): (r: seq<ChapterV>)
    requires forall i :: 0 <= i < |cs| ==> cs[i].number.Str?
    ensures SortBy(cs, Format.ChapterNumber) == Ok(r)
  {
    var keys := MapSeq(Format.ChapterNumber, cs);
    assert forall i :: 0 <= i < |keys| ==> keys[i].Str?;
    SortByCorrect(cs, Format.ChapterNumber);
    SortBy(cs, Format.ChapterNumber).value
  }

  lemma GatherNumbers(ps: seq<ComicPage>)
    ensures forall i :: 0 <= i < |Gather(Sightings(ps))| ==> Gather(Sightings(ps))[i].number.Str?
  {
    var ss := Sightings(ps);
    var cs := Gather(ss);
    GatherShape(ss);
    FirstOccurrencesMembers(Numbers(ss));
    forall i | 0 <= i < |cs|
      ensures cs[i].number.Str?
    {
      assert ChapterNumbers(cs)[i] in Numbers(ss);
      var j :| 0 <= j < |ss| && Numbers(ss)[j] == cs[i].number;
      assert ss[j] == Sight(ps[j]);
    }
  }

  /** The descriptor the importer saves. */
  function RainDescriptor(ps: seq<ComicPage>): DescriptorV
  {
    GatherNumbers(ps);
    DescriptorV(Some(RainMetadata), [(RainVolume, VolumeV(RainVolume, SortedChapters(Gather(Sightings(ps)))))])
  }

  /** The saved descriptor holds one volume "0" whose chapters are sorted by
      number; a chapter is in it exactly when some page carries its number,
      and it is then the chapter those pages build. */
  lemma RainVolumeShape(ps: seq<ComicPage>)
    ensures var d := RainDescriptor(ps);
      var ss := Sightings(ps);
      d.metadata == Some(RainMetadata) && |d.volumes| == 1 && d.volumes[0].0 == RainVolume &&
      d.volumes[0].1.number == RainVolume &&
      SortedBy(d.volumes[0].1.chapters, Format.ChapterNumber) &&
      forall c :: c in d.volumes[0].1.chapters <==> c.number in Numbers(ss) && c == ChapterFor(ss, c.number)
  {
    var ss := Sightings(ps);
    var cs := Gather(ss);
    GatherNumbers(ps);
    var sorted := SortedChapters(cs);
    SortByCorrect(cs, Format.ChapterNumber);
    GatherShape(ss);
    FirstOccurrencesMembers(Numbers(ss));
    assert forall c :: c in sorted <==> c in cs by {
      forall c
        ensures c in sorted <==> c in cs
      {
        assert c in sorted <==> c in multiset(sorted);
        assert c in cs <==> c in multiset(cs);
      }
    }
    forall c
      ensures c in cs <==> c.number in Numbers(ss) && c == ChapterFor(ss, c.number)
    {
      if c in cs {
        var i :| 0 <= i < |cs| && cs[i] == c;
        assert ChapterNumbers(cs)[i] in FirstOccurrences(Numbers(ss));
      }
      if c.number in Numbers(ss) && c == ChapterFor(ss, c.number) {
        assert c.number in ChapterNumbers(cs);
        var i :| 0 <= i < |cs| && ChapterNumbers(cs)[i] == c.number;
        assert cs[i] == c;
      }
    }
  }

  /** What the importer leaves on disk reads back as the descriptor it built. */
  lemma RainSaves(files: map<string, File>, ps: seq<ComicPage>)
    ensures SaveFile(files, RainFile, RainDescriptor(ps)).0 == Pass
    ensures LoadFile(SaveFile(files, RainFile, RainDescriptor(ps)).1, RainFile) == Ok(Reloaded(RainDescriptor(ps)))
  {
    SaveLoad(files, RainFile, RainDescriptor(ps));
  }

  /** One pass of the loop over the page selector. */
  method FilePage(chapters: seq<ChapterV>, p: ComicPage) returns (cs: seq<ChapterV>)
    ensures cs == AddPage(chapters, Sight(p))
  {
    var chapterText := if p.chapterLink.None? then MissingLink else p.chapterLink.value;
    var (number, name) := Classify(chapterText);
    var pageNumber := PageNumber(p.heading);
    cs := chapters;
    var i := FindChapter(cs, Str(number));
    if i < 0 {
      cs := cs + [ChapterV(Null, name, Str(number), Null, [])];
      i := |cs| - 1;
    }
    var page := PageV(Null, Null, Str(pageNumber));
    page := page.(imageUrl := Str(p.image));
    cs := cs[i := cs[i].(pages := cs[i].pages + [page])];
  }

  /** A page as the site gave it: as read, or the error reading it raised. */
  function ReadPage(p: Result<ComicPage>): Result<ComicPage> { p }

  /** The loop over the page selector: the chapters dict it leaves, or the
      error of the first page that could not be read, which ends the loop. */
  method GatherPages(pages: seq<Result<ComicPage>>) returns (r: Result<seq<ChapterV>>)
    ensures MapResult(ReadPage, pages).Err? ==> r == Err(MapResult(ReadPage, pages).error)
    ensures MapResult(ReadPage, pages).Ok? ==> r == Ok(Gather(Sightings(MapResult(ReadPage, pages).value)))
  {
    var chapters := [];
    for n := 0 to |pages|
      invariant MapResult(ReadPage, pages[..n]).Ok?
      invariant chapters == Gather(Sightings(MapResult(ReadPage, pages[..n]).value))
    {
      if pages[n].Err? {
        MapResultStop(ReadPage, pages, n);
        return Err(pages[n].error);
      }
      MapResultSnoc(ReadPage, pages, n);
      ghost var done := MapResult(ReadPage, pages[..n]).value;
      assert Sightings(done + [pages[n].value])[..|done|] == Sightings(done);
      chapters := FilePage(chapters, pages[n].value);
    }
    assert pages[..|pages|] == pages;
    return Ok(chapters);
  }

  /** The importer, given what the site serves: the error of reading the
      front page or its page selector, or the pages in selector order. Any
      error ends the script before anything is written; otherwise the
      descriptor is saved to "rain.xml". */
  function ImportSpec(files: map<string, File>, site: Result<seq<Result<ComicPage>>>): (Outcome, map<string, File>)
  {
    match site
    case Err(e) => (Fail(e), files)
    case Ok(ps) =>
      match MapResult(ReadPage, ps)
      case Err(e) => (Fail(e), files)
      case Ok(cps) => SaveFile(files, RainFile, RainDescriptor(cps))
  }

  /** An unreadable front page or selector, or the first unreadable page,
      is the error the importer raises, and it writes nothing; when every
      page reads, "rain.xml" loads back as the descriptor built from them. */
  lemma ImportOutcomes(files: map<string, File>, site: Result<seq<Result<ComicPage>>>)
    ensures site.Err? ==> ImportSpec(files, site) == (Fail(site.error), files)
    ensures site.Ok? && (exists i :: 0 <= i < |site.value| && site.value[i].Err?) ==>
      ImportSpec(files, site).1 == files && ImportSpec(files, site).0.Fail? &&
      exists i :: 0 <= i < |site.value| && site.value[i] == Err(ImportSpec(files, site).0.error) &&
        forall j :: 0 <= j < i ==> site.value[j].Ok?
    ensures site.Ok? && (forall i :: 0 <= i < |site.value| ==> site.value[i].Ok?) ==>
      var cps := MapResult(ReadPage, site.value).value;
      |cps| == |site.value| && (forall i :: 0 <= i < |cps| ==> site.value[i] == Ok(cps[i])) &&
      ImportSpec(files, site).0 == Pass &&
      LoadFile(ImportSpec(files, site).1, RainFile) == Ok(Reloaded(RainDescriptor(cps)))
  {
    if site.Ok? {
      var m := MapResult(ReadPage, site.value);
      if m.Ok? {
        RainSaves(files, m.value);
      }
    }
  }

  /** The importer: the loop over the page selector, then the descriptor. */
  method Import(disk: Disk, site: Result<seq<Result<ComicPage>>>) returns (r: Outcome)
    modifies disk
    ensures (r, disk.files) == ImportSpec(old(disk.files), site)
  {
    if site.Err? {
      return Fail(site.error);
    }
    var gathered := GatherPages(site.value);
    if gathered.Err? {
      return Fail(gathered.error);
    }
    var chapters := gathered.value;
    ghost var pages := MapResult(ReadPage, site.value).value;
    GatherNumbers(pages);
    var d := new Descriptor();
    d.metadata := Some(MetadataV("Rain", "rain", Null));
    d.metadata := Some(d.metadata.value.(coverUrl := Str("...")));
    var volume := VolumeV(RainVolume, SortedChapters(chapters));
    d.AddVolume(volume);
    r := d.Save(disk, RainFile);
  }
}
