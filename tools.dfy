/** The maintenance commands of the command-line front end: resolving an
    adapter or format class from a dotted name, and `fix`, which rewrites the
    page entries of every `.cbz` archive under a directory to three-digit page
    numbers. */
module Tools {
  import opened Py
  import Format

  // ---------------------------------------------------------------------------
  // get_class

  /** The module and class named by a dotted name: the class is the text after
      the last '.', the module the text before it, or `default` without a '.'. */
  function SplitClass(dotted: string, default: string): (string, string)
  {
    var parts := Split(dotted, '.');
    var splat := parts[..|parts| - 1];
    (if |splat| > 0 then Join(".", splat) else default, parts[|parts| - 1])
  }

  lemma {:induction false} JoinSnoc(c: char, parts: seq<string>)
    requires |parts| >= 2
    ensures Join([c], parts) == Join([c], parts[..|parts| - 1]) + [c] + parts[|parts| - 1]
  {
    if |parts| > 2 {
      JoinSnoc(c, parts[1..]);
      assert parts[1..][..|parts| - 2] == parts[..|parts| - 1][1..];
    }
  }

  /** The split puts the dotted name back together, and the class holds no '.'. */
  lemma SplitClassParts(dotted: string, default: string)
    ensures '.' !in SplitClass(dotted, default).1
    ensures '.' in dotted ==> SplitClass(dotted, default).0 + "." + SplitClass(dotted, default).1 == dotted
    ensures '.' !in dotted ==> SplitClass(dotted, default) == (default, dotted)
  {
    var parts := Split(dotted, '.');
    SplitJoin(dotted, '.');
    if |parts| >= 2 {
      JoinSnoc('.', parts);
      assert dotted[|Join(".", parts[..|parts| - 1])|] == '.';
    } else {
      assert dotted == parts[0];
    }
  }

  /** `get_class`: importing the module and looking the class up in it, where
      `modules` gives the classes each importable module defines. */
  function GetClass(dotted: string, default: string, modules: map<string, set<string>>): (r: Result<(string, string)>)
    ensures r.Ok? ==> r.value == SplitClass(dotted, default)
    ensures r.Ok? <==> SplitClass(dotted, default).0 in modules && SplitClass(dotted, default).1 in modules[SplitClass(dotted, default).0]
    ensures r.Err? ==> r.error == ImportError(SplitClass(dotted, default).0) || r.error == AttributeError
  {
    var (m, c) := SplitClass(dotted, default);
    if m !in modules then Err(ImportError(m))
    else if c !in modules[m] then Err(AttributeError)
    else Ok((m, c))
  }

  const AdapterPackage := "masc.adapter"
  const FormatPackage := "masc.format"
  const NotFoundMessage := "Adapter not found"

  /** How a command starts: it exits with -1 and a message, an exception
      escapes, or the classes are resolved and the engine is constructed. */
  datatype Launch =
    | Exit(code: int, message: string)
    | Raised(error: Error)
    | Start(adapter: Option<(string, string)>, format: Option<(string, string)>)

  function Caught(e: Error): Launch
  {
    if e == AttributeError then Exit(-1, NotFoundMessage) else Raised(e)
  }

  /** `crawl`, up to the construction of the engine. */
  function CrawlLaunch(adapter: string, modules: map<string, set<string>>): (r: Launch)
    ensures r.Exit? <==> GetClass(adapter, AdapterPackage, modules) == Err(AttributeError)
    ensures r.Exit? ==> r == Exit(-1, NotFoundMessage)
    ensures r.Start? ==> r == Start(Some(SplitClass(adapter, AdapterPackage)), None)
  {
    match GetClass(adapter, AdapterPackage, modules)
    case Err(e) => Caught(e)
    case Ok(c) => Start(Some(c), None)
  }

  /** `build`, up to the construction of the engine. */
  function BuildLaunch(format: string, modules: map<string, set<string>>): (r: Launch)
    ensures r.Exit? <==> GetClass(format, FormatPackage, modules) == Err(AttributeError)
    ensures r.Exit? ==> r == Exit(-1, NotFoundMessage)
    ensures r.Start? ==> r == Start(None, Some(SplitClass(format, FormatPackage)))
  {
    match GetClass(format, FormatPackage, modules)
    case Err(e) => Caught(e)
    case Ok(c) => Start(None, Some(c))
  }

  /** `download`: both lookups share one handler, so the format is looked up
      only once the adapter has been found; anything is constructed only when
      both classes exist. */
  function DownloadLaunch(adapter: string, format: string, modules: map<string, set<string>>): (r: Launch)
    ensures var (am, ac) := SplitClass(adapter, AdapterPackage);
      var (fm, fc) := SplitClass(format, FormatPackage);
      (r.Start? <==> am in modules && ac in modules[am] && fm in modules && fc in modules[fm]) &&
      (r.Start? ==> r == Start(Some((am, ac)), Some((fm, fc)))) &&
      (r.Exit? <==> (am in modules && ac !in modules[am]) ||
                    (am in modules && ac in modules[am] && fm in modules && fc !in modules[fm])) &&
      (r.Exit? ==> r == Exit(-1, NotFoundMessage)) &&
      (r.Raised? <==> am !in modules || (ac in modules[am] && fm !in modules))
  {
    match GetClass(adapter, AdapterPackage, modules)
    case Err(e) => Caught(e)
    case Ok(a) =>
      match GetClass(format, FormatPackage, modules)
      case Err(e) => Caught(e)
      case Ok(f) => Start(Some(a), Some(f))
  }

  // ---------------------------------------------------------------------------
  // The entry-name rule of fix_file

  /** The groups of a name that `^ch(?P<chap>[^\-]+)-p(?P<page>\d+).jpg$`
      matches (the '.' before "jpg" is unescaped and stands for any character
      but a newline, and '$' also matches before a final newline). */
  datatype Groups = Groups(chap: string, page: string)

  /** What closes a match: one character but a newline for the unescaped '.',
      "jpg", and the end of the name or a final newline, which '$' lets
      through. */
  function Tail(x: char, newline: bool): string
  {
    [x] + "jpg" + (if newline then "\n" else "")
  }

  /** What follows "-p": the page digits and the tail. */
  function MatchTail(t: string): Option<string>
  {
    var k := if EndsWith(t, "jpg\n") then 5 else if EndsWith(t, "jpg") then 4 else 0;
    if k == 0 || |t| <= k then None
    else if AllDigits(t[..|t| - k]) && t[|t| - k] != '\n' then Some(t[..|t| - k])
    else None
  }

  lemma MatchTailOf(page: string, x: char, newline: bool)
    requires |page| > 0 && AllDigits(page) && x != '\n'
    ensures MatchTail(page + Tail(x, newline)) == Some(page)
  {
    var t := page + Tail(x, newline);
    if newline {
      assert t[|t| - 4..] == "jpg\n";
      assert t[..|t| - 5] == page;
      assert t[|t| - 5] == x;
    } else {
      assert t[|t| - 1] == 'g';
      assert t[|t| - 3..] == "jpg";
      assert t[..|t| - 4] == page;
      assert t[|t| - 4] == x;
    }
  }

  lemma MatchTailShape(t: string)
    requires MatchTail(t).Some?
    ensures var d := MatchTail(t).value;
      |d| > 0 && AllDigits(d) && |d| < |t| && t[|d|] != '\n' &&
      (t == d + Tail(t[|d|], false) || t == d + Tail(t[|d|], true))
  {
    var d := MatchTail(t).value;
    if EndsWith(t, "jpg\n") {
      assert t == d + [t[|d|]] + t[|t| - 4..];
    } else {
      assert t == d + [t[|d|]] + t[|t| - 3..];
    }
  }

  /** What follows "ch": the chapter up to the first '-', then "p" and the tail. */
  function MatchChapter(rest: string): Option<Groups>
  {
    var i := FirstIndex(rest, '-');
    if i < 1 || !StartsWith(rest[i + 1..], "p") then None
    else match MatchTail(rest[i + 2..])
      case None => None
      case Some(page) => Some(Groups(rest[..i], page))
  }

  function MatchEntry(name: string): Option<Groups>
  {
    if !StartsWith(name, "ch") then None else MatchChapter(name[2..])
  }

  /** The names the pattern is written for. */
  function EntryName(chap: string, page: string, x: char, newline: bool): string
  {
    "ch" + (chap + ("-p" + (page + Tail(x, newline))))
  }

  lemma NewNameEntry(c: string, p: string)
    ensures "ch" + c + "-p" + p + ".jpg" == EntryName(c, p, '.', false)
  {
    var x := ".jpg";
    assert Tail('.', false) == x;
    assert "ch" + c + "-p" + p + x == "ch" + (c + ("-p" + (p + x)));
  }

  lemma MatchChapterShape(rest: string)
    requires MatchChapter(rest).Some?
    ensures var g := MatchChapter(rest).value;
      |g.chap| > 0 && '-' !in g.chap && MatchTail(rest[|g.chap| + 2..]) == Some(g.page) &&
      rest == g.chap + ("-p" + rest[|g.chap| + 2..])
  {
    var i := FirstIndex(rest, '-');
    assert rest == rest[..i] + ("-p" + rest[i + 2..]);
  }

  /** A matching name is put together from its groups: the chapter is a
      non-empty run without '-', the page a non-empty run of digits. */
  lemma MatchEntryShape(name: string)
    requires MatchEntry(name).Some?
    ensures var g := MatchEntry(name).value;
      |g.chap| > 0 && '-' !in g.chap && |g.page| > 0 && AllDigits(g.page) &&
      exists x: char, newline: bool :: x != '\n' && name == EntryName(g.chap, g.page, x, newline)
  {
    var rest := name[2..];
    assert MatchEntry(name) == MatchChapter(rest);
    assert name == "ch" + rest by { assert name[..2] == "ch"; }
    MatchChapterShape(rest);
    var g := MatchChapter(rest).value;
    var t := rest[|g.chap| + 2..];
    MatchTailShape(t);
    var x := t[|g.page|];
    var newline := t != g.page + Tail(x, false);
    Assemble(name, rest, g.chap, t, g.page, x, newline);
  }

  lemma Assemble(name: string, rest: string, chap: string, t: string, page: string, x: char, newline: bool)
    requires name == "ch" + rest && rest == chap + ("-p" + t) && t == page + Tail(x, newline)
    ensures name == EntryName(chap, page, x, newline)
  {
  }

  /** Every name of that shape matches, with those groups. */
  lemma MatchEntryOf(chap: string, page: string, x: char, newline: bool)
    requires |chap| > 0 && '-' !in chap && |page| > 0 && AllDigits(page) && x != '\n'
    ensures MatchEntry(EntryName(chap, page, x, newline)) == Some(Groups(chap, page))
  {
    var t := page + Tail(x, newline);
    var rest := chap + ("-p" + t);
    var name := EntryName(chap, page, x, newline);
    assert name[2..] == rest;
    assert rest[|chap|] == '-';
    assert FirstIndex(rest, '-') == |chap|;
    assert rest[|chap| + 1..] == "p" + t;
    assert rest[|chap| + 2..] == t;
    assert rest[..|chap|] == chap;
    MatchTailOf(page, x, newline);
  }

  /** Chapter labels up to here are integers that a double holds exactly. */
  const MaxExact: nat := 0x20_0000_0000_0000

  predicate Integral(chap: string)
  {
    |chap| > 0 && AllDigits(chap) && DigitsValue(chap) < MaxExact
  }

  /** The chapter part of the new name: `"{:03.1f}".format(float(chap))` with
      ".0" removed is the integer's decimal rendering for an integral label;
      any other label goes to `floatFormat`, which gives that text or the
      ValueError `float()` raises. */
  function ChapterLabel(chap: string, floatFormat: string -> Result<string>): Result<string>
  {
    if Integral(chap) then Ok(NatToString(DigitsValue(chap))) else floatFormat(chap)
  }

  /** The new name of a page: three-digit page numbers. */
  function NewName(chapter: string, page: nat): string
  {
    "ch" + chapter + "-p" + ZeroPadInt(page, 3) + ".jpg"
  }

  /** The name an entry gets in the rewritten archive. */
  function FixName(name: string, floatFormat: string -> Result<string>): Result<string>
  {
    match MatchEntry(name)
    case None => Ok(name)
    case Some(g) =>
      match ChapterLabel(g.chap, floatFormat)
      case Err(e) => Err(e)
      case Ok(number) => Ok(NewName(number, DigitsValue(g.page)))
  }

  /** A name the pattern does not match is kept. */
  lemma FixNameKeeps(name: string, floatFormat: string -> Result<string>)
    requires MatchEntry(name).None?
    ensures FixName(name, floatFormat) == Ok(name)
  {
  }

  /** A page of an integral chapter is renamed to the chapter's number and the
      page number zero-padded to three digits; any other chapter label is
      passed to `floatFormat`, whose error aborts the rename. */
  lemma FixNameRenames(chap: string, page: string, x: char, newline: bool, floatFormat: string -> Result<string>)
    requires |chap| > 0 && '-' !in chap && |page| > 0 && AllDigits(page) && x != '\n'
    ensures Integral(chap) ==>
      FixName(EntryName(chap, page, x, newline), floatFormat) == Ok(NewName(NatToString(DigitsValue(chap)), DigitsValue(page)))
    ensures !Integral(chap) && floatFormat(chap).Err? ==>
      FixName(EntryName(chap, page, x, newline), floatFormat) == Err(floatFormat(chap).error)
  {
    MatchEntryOf(chap, page, x, newline);
  }

  lemma DigitsOfPad(n: nat, w: nat)
    ensures |ZeroPadInt(n, w)| > 0 && AllDigits(ZeroPadInt(n, w)) && DigitsValue(ZeroPadInt(n, w)) == n
  {
    ZeroPadParses(n, w);
    var d := NatToString(n);
    if |d| < w {
      LeadingZeros(w - |d|, d);
    }
  }

  /** An archive written by the CBZ format (two-digit pages) gets its page
      numbers widened to three digits and keeps its chapter numbers. */
  lemma FixNameUpgrades(chapter: nat, page: nat, floatFormat: string -> Result<string>)
    requires chapter < MaxExact
    ensures FixName(Format.PageName(Int(chapter), page), floatFormat) == Ok(NewName(NatToString(chapter), page))
  {
    var c := NatToString(chapter);
    var p := ZeroPadInt(page, 2);
    NatRoundTrip(chapter);
    DigitsOfPad(page, 2);
    assert '-' !in c;
    FixNameRenames(c, p, '.', false, floatFormat);
    NewNameEntry(c, p);
  }

  /** Rewriting an archive twice renames nothing the second time. */
  lemma FixNameIdempotent(name: string, floatFormat: string -> Result<string>)
    requires MatchEntry(name).None? || Integral(MatchEntry(name).value.chap)
    ensures FixName(name, floatFormat).Ok?
    ensures FixName(FixName(name, floatFormat).value, floatFormat) == FixName(name, floatFormat)
  {
    if MatchEntry(name).Some? {
      var g := MatchEntry(name).value;
      var v := DigitsValue(g.chap);
      var c := NatToString(v);
      var p := ZeroPadInt(DigitsValue(g.page), 3);
      assert FixName(name, floatFormat) == Ok(NewName(c, DigitsValue(g.page)));
      NatRoundTrip(v);
      DigitsOfPad(DigitsValue(g.page), 3);
      assert '-' !in c;
      FixNameRenames(c, p, '.', false, floatFormat);
      NewNameEntry(c, p);
    }
  }

  // ---------------------------------------------------------------------------
  // fix_file and fix_path

  /** The entries of the rewritten archive for the members `es` of the old
      archive `arc`, or the error of the first member that raises. Each
      member's bytes are read by its name, so they are those of the last
      member of `arc` stored under that name. */
  function FixEntries(arc: seq<Entry>, es: seq<Entry>, floatFormat: string -> Result<string>): Result<seq<Entry>>
  {
    if es == [] then Ok([])
    else match FixEntries(arc, es[..|es| - 1], floatFormat)
      case Err(e) => Err(e)
      case Ok(w) =>
        match FixName(es[|es| - 1].name, floatFormat)
        case Err(e) => Err(e)
        case Ok(n) =>
          match ReadEntry(arc, es[|es| - 1].name)
          case Err(e) => Err(e)
          case Ok(data) => Ok(w + [Entry(n, data)])
  }

  /** Once a prefix has raised, the rest of the archive is never read. */
  lemma {:induction false} FixEntriesPrefix(arc: seq<Entry>, es: seq<Entry>, n: nat, floatFormat: string -> Result<string>)
    requires n <= |es| && FixEntries(arc, es[..n], floatFormat).Err?
    ensures FixEntries(arc, es, floatFormat) == FixEntries(arc, es[..n], floatFormat)
    decreases |es| - n
  {
    if n < |es| {
      TakeSnoc(es, n);
      FixEntriesPrefix(arc, es, n + 1, floatFormat);
    } else {
      assert es[..n] == es;
    }
  }

  /** The entries of the rewritten archive: one per member of `es`, in the
      same order, under the names `FixName` gives, each holding what reading
      that member's name from `arc` gives. */
  lemma {:induction false} FixEntriesShape(arc: seq<Entry>, es: seq<Entry>, floatFormat: string -> Result<string>)
    ensures var r := FixEntries(arc, es, floatFormat);
      (r.Ok? <==> forall i :: 0 <= i < |es| ==> FixName(es[i].name, floatFormat).Ok? && ReadEntry(arc, es[i].name).Ok?) &&
      (r.Ok? ==> |r.value| == |es|) &&
      (r.Ok? ==> forall i :: 0 <= i < |es| ==>
          Ok(r.value[i].data) == ReadEntry(arc, es[i].name) && Ok(r.value[i].name) == FixName(es[i].name, floatFormat))
  {
    if es != [] {
      var init := es[..|es| - 1];
      var last := es[|es| - 1];
      FixEntriesShape(arc, init, floatFormat);
      var w := FixEntries(arc, init, floatFormat);
      var n := FixName(last.name, floatFormat);
      var d := ReadEntry(arc, last.name);
      if w.Err? {
        var j :| 0 <= j < |init| && !(FixName(init[j].name, floatFormat).Ok? && ReadEntry(arc, init[j].name).Ok?);
        assert es[j] == init[j];
      } else if n.Err? {
        assert !FixName(es[|es| - 1].name, floatFormat).Ok?;
      } else if d.Err? {
        assert !ReadEntry(arc, es[|es| - 1].name).Ok?;
      } else {
        var r := w.value + [Entry(n.value, d.value)];
        assert FixEntries(arc, es, floatFormat) == Ok(r);
        forall i | 0 <= i < |es|
          ensures Ok(r[i].data) == ReadEntry(arc, es[i].name) && Ok(r[i].name) == FixName(es[i].name, floatFormat)
        {
          if i < |init| { assert r[i] == w.value[i] && es[i] == init[i]; }
        }
      }
    }
  }

  /** `fix_file`'s loop over an archive's own members: it raises exactly when
      a name does, and otherwise writes one entry per member, in order, under
      the fixed name, holding the bytes of the last member stored under the
      old name (a later member with the same name shadows an earlier one). */
  lemma FixArchiveShape(es: seq<Entry>, floatFormat: string -> Result<string>)
    ensures FixEntries(es, es, floatFormat).Ok? <==> forall i :: 0 <= i < |es| ==> FixName(es[i].name, floatFormat).Ok?
    ensures var r := FixEntries(es, es, floatFormat);
      r.Ok? ==>
        |r.value| == |es| &&
        forall i :: 0 <= i < |es| ==>
          Ok(r.value[i].name) == FixName(es[i].name, floatFormat) &&
          exists k :: 0 <= k < |es| && es[k].name == es[i].name && LastNamed(es, k) && r.value[i].data == es[k].data
  {
    FixEntriesShape(es, es, floatFormat);
    forall i | 0 <= i < |es| ensures ReadEntry(es, es[i].name).Ok? {
      assert es[i].name == es[i].name;
    }
  }

  /** When no two members share a name, every entry keeps its own bytes. */
  lemma FixArchiveDistinct(es: seq<Entry>, floatFormat: string -> Result<string>)
    requires forall j, k :: 0 <= j < k < |es| ==> es[j].name != es[k].name
    requires FixEntries(es, es, floatFormat).Ok?
    ensures |FixEntries(es, es, floatFormat).value| == |es|
    ensures forall i :: 0 <= i < |es| ==> FixEntries(es, es, floatFormat).value[i].data == es[i].data
  {
    FixEntriesShape(es, es, floatFormat);
    forall i | 0 <= i < |es| ensures FixEntries(es, es, floatFormat).value[i].data == es[i].data {
      ReadDistinct(es, i);
    }
  }

  /** Two members stored under one name that the pattern leaves alone: both
      entries of the new archive hold the bytes of the second. */
  lemma DuplicateNameShadowed(floatFormat: string -> Result<string>)
    ensures var es := [Entry("cover.jpg", [1]), Entry("cover.jpg", [2])];
      FixEntries(es, es, floatFormat) == Ok([Entry("cover.jpg", [2]), Entry("cover.jpg", [2])])
  {
    var es := [Entry("cover.jpg", [1]), Entry("cover.jpg", [2])];
    assert !StartsWith("cover.jpg", "ch") by { assert "cover.jpg"[1] == 'o'; }
    FixNameKeeps("cover.jpg", floatFormat);
    assert ReadEntry(es, "cover.jpg") == Ok([2]);
    var first := es[..|es| - 1];
    assert first == [es[0]] && first[|first| - 1] == es[0] && first[..|first| - 1] == [];
    var e := Entry("cover.jpg", [2]);
    assert [] + [e] == [e] && [e] + [e] == [e, e];
    assert FixEntries(es, first, floatFormat) == Ok([e]);
  }

  function OldName(name: string): string { name + ".old" }

  /** `fix_file(name)`: the archive is first moved to "<name>.old", read from
      there, and rewritten under its own name; the ".old" copy is removed at
      the end. An archive being written holds no readable zip until it is
      closed, so one abandoned by an exception is garbled. */
  function FixFileSpec(files: map<string, File>, name: string, floatFormat: string -> Result<string>): (Outcome, map<string, File>)
  {
    if name !in files then (Fail(FileNotFoundError(name)), files)
    else
      var moved := files[OldName(name) := files[name]] - {name};
      match files[name]
      case Zip(es) => Rewritten(moved, name, FixEntries(es, es, floatFormat))
      case _ => (Fail(BadZipFile(OldName(name))), moved)
  }

  /** The files once the loop over the old entries has ended. */
  function Rewritten(moved: map<string, File>, name: string, r: Result<seq<Entry>>): (Outcome, map<string, File>)
  {
    match r
    case Ok(es1) => (Pass, moved[name := Zip(es1)] - {OldName(name)})
    case Err(e) => (Fail(e), moved[name := Garbled])
  }

  /** A successful rewrite leaves the renamed entries under the old name, drops
      the ".old" copy and touches no other file. */
  lemma FixFilePass(files: map<string, File>, name: string, floatFormat: string -> Result<string>)
    requires FixFileSpec(files, name, floatFormat).0 == Pass
    ensures var files1 := FixFileSpec(files, name, floatFormat).1;
      name in files && files[name].Zip? &&
      files1 == files[name := Zip(FixEntries(files[name].entries, files[name].entries, floatFormat).value)] - {OldName(name)}
  {
    var files1 := FixFileSpec(files, name, floatFormat).1;
    var es1 := FixEntries(files[name].entries, files[name].entries, floatFormat).value;
    assert name != OldName(name) by { assert |OldName(name)| > |name|; }
    assert files1 == files[name := Zip(es1)] - {OldName(name)};
  }

  /** A file that is not a zip archive raises BadZipFile after the rename, so
      the original survives only as "<name>.old". */
  lemma FixFileBad(files: map<string, File>, name: string, floatFormat: string -> Result<string>)
    requires name in files && !files[name].Zip?
    ensures var (r, files1) := FixFileSpec(files, name, floatFormat);
      r == Fail(BadZipFile(OldName(name))) && name !in files1 &&
      OldName(name) in files1 && files1[OldName(name)] == files[name] &&
      forall k :: k != name && k != OldName(name) ==> (k in files1 <==> k in files) && (k in files ==> files1[k] == files[k])
  {
  }

  /** A name `floatFormat` rejects abandons the new archive half-written, with
      the original kept as "<name>.old". */
  lemma FixFileRaises(files: map<string, File>, name: string, floatFormat: string -> Result<string>)
    requires name in files && files[name].Zip? && FixEntries(files[name].entries, files[name].entries, floatFormat).Err?
    ensures var (r, files1) := FixFileSpec(files, name, floatFormat);
      r == Fail(FixEntries(files[name].entries, files[name].entries, floatFormat).error) &&
      name in files1 && files1[name] == Garbled &&
      OldName(name) in files1 && files1[OldName(name)] == files[name]
  {
    assert name != OldName(name) by { assert |OldName(name)| > |name|; }
  }

  /** `fix_file(name)` touches no file but the archive and its ".old" copy. */
  lemma FixFileFrame(files: map<string, File>, name: string, floatFormat: string -> Result<string>, k: string)
    requires k != name && k != OldName(name)
    ensures var files1 := FixFileSpec(files, name, floatFormat).1;
      (k in files1 <==> k in files) && (k in files ==> files1[k] == files[k])
  {
    if name in files {
      var moved := files[OldName(name) := files[name]] - {name};
      assert (k in moved <==> k in files) && (k in files ==> moved[k] == files[k]);
    }
  }

  lemma JoinedKeepsSuffix(dir: string, name: string, suffix: string)
    requires EndsWith(name, suffix)
    ensures EndsWith(PathJoin(dir, name), suffix)
  {
    if !StartsWith(name, "/") {
      EndsWithTrans(PathJoin(dir, name), name, suffix);
    }
  }

  /** The paths `fix_path` visits in one directory listing: the names ending in ".cbz". */
  function CbzPaths(dir: string, names: seq<string>): (r: seq<string>)
    ensures forall i :: 0 <= i < |r| ==> EndsWith(r[i], ".cbz")
  {
    if names == [] then []
    else
      var rest := CbzPaths(dir, names[1..]);
      if EndsWith(names[0], ".cbz") then
        JoinedKeepsSuffix(dir, names[0], ".cbz");
        [PathJoin(dir, names[0])] + rest
      else rest
  }

  /** The archives in a walk, directory by directory. */
  function Targets(walk: seq<(string, seq<string>)>): (r: seq<string>)
    ensures forall i :: 0 <= i < |r| ==> EndsWith(r[i], ".cbz")
  {
    if walk == [] then [] else CbzPaths(walk[0].0, walk[0].1) + Targets(walk[1..])
  }

  /** `fix_path` over the archives in order: a BadZipFile is reported and the
      walk goes on; any other exception ends it. */
  function FixAll(files: map<string, File>, paths: seq<string>, floatFormat: string -> Result<string>): (r: (Outcome, map<string, File>))
    ensures r.0.Fail? ==> !r.0.error.BadZipFile?
    decreases |paths|
  {
    if paths == [] then (Pass, files)
    else
      var (r, files1) := FixFileSpec(files, paths[0], floatFormat);
      if r.Pass? || r.error.BadZipFile? then FixAll(files1, paths[1..], floatFormat) else (r, files1)
  }

  lemma {:induction false} FixAllAppend(files: map<string, File>, a: seq<string>, b: seq<string>, floatFormat: string -> Result<string>)
    decreases |a|
    ensures FixAll(files, a + b, floatFormat) ==
      (var (r, files1) := FixAll(files, a, floatFormat); if r.Pass? then FixAll(files1, b, floatFormat) else (r, files1))
  {
    if a != [] {
      assert (a + b)[1..] == a[1..] + b;
      var (r, files1) := FixFileSpec(files, a[0], floatFormat);
      if r.Pass? || r.error.BadZipFile? {
        FixAllAppend(files1, a[1..], b, floatFormat);
      }
    } else {
      assert a + b == b;
    }
  }

  /** Only the visited archives and their ".old" copies change. */
  lemma {:induction false} FixAllFrame(files: map<string, File>, paths: seq<string>, floatFormat: string -> Result<string>, k: string)
    requires forall i :: 0 <= i < |paths| ==> k != paths[i] && k != OldName(paths[i])
    decreases |paths|
    ensures var files1 := FixAll(files, paths, floatFormat).1;
      (k in files1 <==> k in files) && (k in files ==> files1[k] == files[k])
  {
    if paths != [] {
      var (r, files1) := FixFileSpec(files, paths[0], floatFormat);
      FixFileFrame(files, paths[0], floatFormat, k);
      if r.Pass? || r.error.BadZipFile? {
        FixAllFrame(files1, paths[1..], floatFormat, k);
      }
    }
  }

  /** `fix_file(name)`. */
  method FixFile(disk: Disk, name: string, floatFormat: string -> Result<string>) returns (r: Outcome)
    modifies disk
    ensures (r, disk.files) == FixFileSpec(old(disk.files), name, floatFormat)
  {
    var tmp := OldName(name);
    assert name != tmp by { assert |tmp| > |name|; }
    if name !in disk.files {
      return Fail(FileNotFoundError(name));
    }
    var original := disk.files[name];
    disk.Write(tmp, original);
    disk.Remove(name);
    var moved := disk.files;
    if !original.Zip? {
      assert FixFileSpec(old(disk.files), name, floatFormat) == (Fail(BadZipFile(tmp)), moved);
      return Fail(BadZipFile(tmp));
    }
    assert FixFileSpec(old(disk.files), name, floatFormat) == Rewritten(moved, name, FixEntries(original.entries, original.entries, floatFormat));
    r := ReplaceArchive(disk, name, original.entries, floatFormat);
  }

  /** The second half of `fix_file`: the new archive is opened under the old
      name, filled, closed, and the ".old" copy removed. */
  method ReplaceArchive(disk: Disk, name: string, es: seq<Entry>, floatFormat: string -> Result<string>) returns (r: Outcome)
    modifies disk
    ensures (r, disk.files) == Rewritten(old(disk.files), name, FixEntries(es, es, floatFormat))
  {
    disk.Write(name, Zip([]));
    var rewritten := RewriteEntries(es, es, floatFormat);
    if rewritten.Err? {
      disk.Write(name, Garbled);
      assert disk.files == old(disk.files)[name := Garbled];
      return Fail(rewritten.error);
    }
    disk.Write(name, Zip(rewritten.value));
    disk.Remove(OldName(name));
    assert disk.files == old(disk.files)[name := Zip(rewritten.value)] - {OldName(name)};
    r := Pass;
  }

  /** The loop of `fix_file` over the members `es` of the old archive `arc`:
      each goes into the new archive under its fixed name, with the bytes
      `arc.read(name)` gives, until a member raises. */
  method RewriteEntries(arc: seq<Entry>, es: seq<Entry>, floatFormat: string -> Result<string>) returns (r: Result<seq<Entry>>)
    ensures r == FixEntries(arc, es, floatFormat)
  {
    var written: seq<Entry> := [];
    var i := 0;
    while i < |es|
      invariant 0 <= i <= |es|
      invariant FixEntries(arc, es[..i], floatFormat) == Ok(written)
    {
      TakeSnoc(es, i);
      var n := FixName(es[i].name, floatFormat);
      if n.Err? {
        FixEntriesPrefix(arc, es, i + 1, floatFormat);
        return Err(n.error);
      }
      var data := ReadEntry(arc, es[i].name);
      if data.Err? {
        FixEntriesPrefix(arc, es, i + 1, floatFormat);
        return Err(data.error);
      }
      written := written + [Entry(n.value, data.value)];
      i := i + 1;
    }
    assert es[..i] == es;
    r := Ok(written);
  }

  /** The inner loop of `fix_path`, over one directory listing. */
  method FixDir(disk: Disk, dir: string, names: seq<string>, floatFormat: string -> Result<string>) returns (r: Outcome)
    modifies disk
    ensures (r, disk.files) == FixAll(old(disk.files), CbzPaths(dir, names), floatFormat)
  {
    r := Pass;
    var i := 0;
    while i < |names|
      invariant 0 <= i <= |names|
      invariant FixAll(old(disk.files), CbzPaths(dir, names), floatFormat) ==
        (if r.Pass? then FixAll(disk.files, CbzPaths(dir, names[i..]), floatFormat) else (r, disk.files))
    {
      assert names[i..][1..] == names[i + 1..];
      if !r.Pass? {
        break;
      }
      if EndsWith(names[i], ".cbz") {
        var path := PathJoin(dir, names[i]);
        var e := FixFile(disk, path, floatFormat);
        if e.Fail? && !e.error.BadZipFile? {
          r := e;
        }
      }
      i := i + 1;
    }
    if r.Pass? {
      assert names[i..] == [];
    }
  }

  /** `fix_path(args)`, with the walk of the directory given as its listings. */
  method FixPath(disk: Disk, walk: seq<(string, seq<string>)>, floatFormat: string -> Result<string>) returns (r: Outcome)
    modifies disk
    ensures (r, disk.files) == FixAll(old(disk.files), Targets(walk), floatFormat)
  {
    r := Pass;
    var i := 0;
    while i < |walk|
      invariant 0 <= i <= |walk|
      invariant FixAll(old(disk.files), Targets(walk), floatFormat) ==
        (if r.Pass? then FixAll(disk.files, Targets(walk[i..]), floatFormat) else (r, disk.files))
    {
      assert walk[i..][1..] == walk[i + 1..];
      if !r.Pass? {
        break;
      }
      FixAllAppend(disk.files, CbzPaths(walk[i].0, walk[i].1), Targets(walk[i + 1..]), floatFormat);
      r := FixDir(disk, walk[i].0, walk[i].1, floatFormat);
      i := i + 1;
    }
    if r.Pass? {
      assert walk[i..] == [];
    }
  }
}
