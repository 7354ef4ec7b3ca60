/** Option validation and dispatch of the command line
    (src/cal_exporter/cli.py): which fetcher a calendar source selects, which
    exporter a format name selects, and how the options of `main` resolve
    into one plan of work or a usage error. */
module Cli {
  import opened Wrappers
  import opened PyStr
  import opened Models
  import opened Filters

  // ---------------------------------------------------------------------------
  // Fetchers

  /** The event source `main` ends up reading from. */
  datatype Fetcher =
    | ICalUrl(url: string)
    | GoogleCalendar(calendarId: string, credentials: Option<string>)
    | LocalICal(path: string)

  /** A public iCal feed: an http(s) URL that mentions `.ics` (case-sensitive)
      or `ical` (in any case). */
  predicate IsICalSource(calendar: string) {
    (StartsWith(calendar, "http://") || StartsWith(calendar, "https://"))
    && (ContainsStr(calendar, ".ics") || ContainsStr(Lower(calendar), "ical"))
  }

  /** `get_fetcher(calendar, credentials)`: everything that is not an iCal
      feed is taken to be a Google Calendar id. */
  function GetFetcher(calendar: string, credentials: Option<string>): (f: Fetcher)
    ensures f.ICalUrl? <==> IsICalSource(calendar)
    ensures !f.LocalICal?
    ensures f.ICalUrl? ==> f.url == calendar
    ensures f.GoogleCalendar? ==> f.calendarId == calendar && f.credentials == credentials
  {
    if IsICalSource(calendar) then ICalUrl(calendar) else GoogleCalendar(calendar, credentials)
  }

  /** Scheme and marker are both needed: a plain calendar id is never a feed. */
  lemma NoSchemeIsGoogle(calendar: string, credentials: Option<string>)
    requires !StartsWith(calendar, "http://") && !StartsWith(calendar, "https://")
    ensures GetFetcher(calendar, credentials) == GoogleCalendar(calendar, credentials)
  {
  }

  lemma PrimaryIsGoogle()
    ensures GetFetcher("primary", None) == GoogleCalendar("primary", None)
  {
    assert "primary"[..7] != "http://" by {
      assert "primary"[..7][0] == 'p';
    }
    NoSchemeIsGoogle("primary", None);
  }

  /** An http(s) URL with `.ics` at its end is a feed. */
  lemma IcsUrlIsICal(host: string, name: string)
    ensures GetFetcher("https://" + host + name + ".ics", None) == ICalUrl("https://" + host + name + ".ics")
  {
    var p := "https://" + host + name;
    var u := p + ".ics";
    assert u == "https://" + (host + name + ".ics");
    StartsWithAppend("https://", host + name + ".ics");
    assert u[|p|..|p| + 4] == ".ics";
    ContainsAt(u, ".ics", |p|);
  }

  /** The `ical` marker is matched in any letter case. */
  lemma UpperICalMarker(rest: string)
    ensures IsICalSource("http://" + rest + "ICAL")
  {
    var p := "http://" + rest;
    var u := p + "ICAL";
    assert u == "http://" + (rest + "ICAL");
    StartsWithAppend("http://", rest + "ICAL");
    LowerAppend(p, "ICAL");
    assert Lower("ICAL") == "ical";
    var l := Lower(u);
    assert l[|p|..|p| + 4] == "ical";
    ContainsAt(l, "ical", |p|);
  }

  /** A string lacking one character of the needle does not contain it. */
  lemma MissingCharNotContained(s: string, needle: string, k: int)
    requires 0 <= k < |needle| && needle[k] !in s
    ensures !ContainsStr(s, needle)
  {
    forall i | 0 <= i <= |s| - |needle|
      ensures !OccursAt(s, needle, i)
    {
      assert s[i..i + |needle|][k] == s[i + k];
      assert s[i + k] in s;
    }
  }

  /** The `.ics` marker is matched as written: `.ICS` alone does not select
      the iCal fetcher. */
  lemma UpperIcsIsGoogle()
    ensures GetFetcher("http://h/A.ICS", None) == GoogleCalendar("http://h/A.ICS", None)
  {
    NoMarkerIsGoogle("http://h/A.ICS", None);
  }

  /** Without an 's' there is no `.ics`, and without an 'l' or 'L' there is no
      `ical` in any case. */
  lemma NoMarkerIsGoogle(u: string, credentials: Option<string>)
    requires 's' !in u && 'l' !in u && 'L' !in u
    ensures GetFetcher(u, credentials) == GoogleCalendar(u, credentials)
  {
    MissingCharNotContained(u, ".ics", 3);
    var l := Lower(u);
    assert 'l' !in l by {
      forall i | 0 <= i < |l|
        ensures l[i] != 'l'
      {
        assert l[i] == LowerChar(u[i]);
      }
    }
    MissingCharNotContained(l, "ical", 3);
  }

  // ---------------------------------------------------------------------------
  // Export formats

  /** The five export formats of the `-e` choice, of the extension check and
      of the exporter table. */
  datatype Format = Pdf | Xlsx | Ods | Csv | Json

  function FormatName(f: Format): (n: string)
    ensures |n| >= 3 && NoUpper(n) && '.' !in n
  {
    match f
    case Pdf => "pdf"
    case Xlsx => "xlsx"
    case Ods => "ods"
    case Csv => "csv"
    case Json => "json"
  }

  /** Membership in the format table, by exact (case-sensitive) key. */
  function ParseFormat(name: string): (r: Option<Format>)
    ensures r.Some? ==> FormatName(r.value) == name
    ensures r.None? ==> forall f: Format :: FormatName(f) != name
  {
    if name == "pdf" then Some(Pdf)
    else if name == "xlsx" then Some(Xlsx)
    else if name == "ods" then Some(Ods)
    else if name == "csv" then Some(Csv)
    else if name == "json" then Some(Json)
    else None
  }

  lemma ParseFormatName(f: Format)
    ensures ParseFormat(FormatName(f)) == Some(f)
  {
  }

  /** `get_exporter(format, path)`: the exporter for a table key, or `None`. */
  function GetExporter(format: string): (r: Option<Format>)
    ensures r.Some? <==> exists f: Format :: FormatName(f) == format
    ensures r.Some? ==> FormatName(r.value) == format
  {
    ParseFormat(format)
  }

  /** Lookup is by exact key: `"PDF"` has no exporter, which is why `main`
      lowercases the choice first. */
  lemma GetExporterCaseSensitive()
    ensures GetExporter("PDF") == None
    ensures GetExporter("pdf") == Some(Pdf)
  {
  }

  /** click's case-insensitive `Choice`: the lowercased value must be a format. */
  function ChoiceFormat(value: string): (r: Option<Format>)
    ensures r.Some? ==> FormatName(r.value) == Lower(value)
    ensures r.None? <==> forall f: Format :: FormatName(f) != Lower(value)
  {
    ParseFormat(Lower(value))
  }

  lemma ChoiceIgnoresCase(f: Format, value: string)
    requires Lower(value) == FormatName(f)
    ensures ChoiceFormat(value) == Some(f)
  {
    ParseFormatName(f);
  }

  // ---------------------------------------------------------------------------
  // The output file's extension

  /** The last path component: what follows the final '/'. */
  function FinalName(path: string): (r: string)
    ensures '/' !in r && |r| <= |path| && path[|path| - |r|..] == r
    ensures |r| == |path| || path[|path| - |r| - 1] == '/'
  {
    path[LastIndexOf(path, '/') + 1..]
  }

  /** `Path(name).suffix`: from the last dot, unless that dot starts the name
      or ends it. */
  function Suffix(name: string): (r: string)
    ensures r == "" || (|r| >= 2 && r[0] == '.' && '.' !in r[1..] && |r| < |name| && name[|name| - |r|..] == r)
  {
    var i := LastIndexOf(name, '.');
    if 0 < i < |name| - 1 then name[i..] else ""
  }

  /** `s.lstrip(".")` */
  function StripLeadingDots(s: string): (r: string)
    ensures |r| <= |s| && s[|s| - |r|..] == r
    ensures r == "" || r[0] != '.'
    ensures forall i :: 0 <= i < |s| - |r| ==> s[i] == '.'
    decreases |s|
  {
    if |s| > 0 && s[0] == '.' then StripLeadingDots(s[1..]) else s
  }

  /** `Path(write).suffix.lower().lstrip(".")` */
  function Extension(path: string): (r: string)
    ensures '.' !in r && NoUpper(r)
  {
    var sfx := Suffix(FinalName(path));
    SuffixExtension(sfx);
    StripLeadingDots(Lower(sfx))
  }

  /** A suffix, lowered and without its dot, is dot-free and lower-case. */
  lemma SuffixExtension(sfx: string)
    requires sfx == "" || (|sfx| >= 2 && sfx[0] == '.' && '.' !in sfx[1..])
    ensures '.' !in StripLeadingDots(Lower(sfx)) && NoUpper(StripLeadingDots(Lower(sfx)))
  {
    if sfx == "" {
      assert Lower(sfx) == "";
    } else {
      var ext := sfx[1..];
      assert sfx == "." + ext;
      DottedExtension(sfx, ext);
      LowerNoDot(ext);
      assert StripLeadingDots(Lower(sfx)) == Lower(ext);
    }
  }

  /** The format the extension of `path` names, if it names one. */
  function InferFormat(path: string): (r: Option<Format>)
    ensures r.Some? ==> FormatName(r.value) == Extension(path)
    ensures r.None? ==> forall f: Format :: FormatName(f) != Extension(path)
  {
    ParseFormat(Extension(path))
  }

  /** `rfind` finds a character that no later position repeats. */
  lemma LastIndexOfAt(s: string, c: char, i: int)
    requires 0 <= i < |s| && s[i] == c && c !in s[i + 1..]
    ensures LastIndexOf(s, c) == i
  {
    var j := LastIndexOf(s, c);
    assert j == i;
  }

  /** The final component of `dir + name` is `name` when `dir` is empty or
      ends with a slash. */
  lemma FinalNameOf(dir: string, name: string)
    requires dir == "" || dir[|dir| - 1] == '/'
    requires '/' !in name
    ensures FinalName(dir + name) == name
  {
    var p := dir + name;
    assert p[|dir|..] == name;
    if dir == "" {
      assert p == name;
    } else {
      LastIndexOfAt(p, '/', |dir| - 1);
    }
  }

  /** The suffix starts at a dot that is neither first nor last and that
      no later position repeats. */
  lemma SuffixAt(name: string, i: int)
    requires 0 < i < |name| - 1 && name[i] == '.' && '.' !in name[i + 1..]
    ensures Suffix(name) == name[i..]
  {
    LastIndexOfAt(name, '.', i);
  }

  /** `stem.ext` with a non-empty stem has suffix `.ext`. */
  lemma SuffixOf(stem: string, ext: string)
    requires |stem| >= 1 && |ext| >= 1 && '.' !in ext
    ensures Suffix(stem + "." + ext) == "." + ext
  {
    var n := stem + "." + ext;
    var dotted := "." + ext;
    var k := |stem|;
    assert n == stem + dotted;
    assert n[k..] == dotted;
    assert n[k + 1..] == dotted[1..] == ext;
    SuffixAt(n, k);
  }

  /** A name that starts with its only dot (`.csv`) has no suffix. */
  lemma HiddenNameHasNoSuffix(ext: string)
    requires '.' !in ext
    ensures Suffix("." + ext) == ""
  {
    var n := "." + ext;
    assert n[1..] == ext;
    LastIndexOfAt(n, '.', 0);
  }

  /** A file name without a slash is its own final component. */
  lemma FinalNameWithoutSlash(name: string)
    requires '/' !in name
    ensures FinalName(name) == name
  {
  }

  /** A dot-file such as `.csv` has no extension at all. */
  lemma DotFileHasNoExtension(ext: string)
    requires '.' !in ext && '/' !in ext
    ensures Extension("." + ext) == ""
  {
    var n := "." + ext;
    assert '/' !in n by {
      assert forall i :: 1 <= i < |n| ==> n[i] == ext[i - 1];
    }
    FinalNameWithoutSlash(n);
    HiddenNameHasNoSuffix(ext);
    assert Lower("") == "";
  }

  /** Lowercasing keeps a string free of dots. */
  lemma LowerNoDot(s: string)
    requires '.' !in s
    ensures '.' !in Lower(s)
  {
    var l := Lower(s);
    forall i | 0 <= i < |l|
      ensures l[i] != '.'
    {
      assert l[i] == LowerChar(s[i]);
    }
  }

  /** The extension of `.ext` without further dots is `ext` lowercased. */
  lemma DottedExtension(sfx: string, ext: string)
    requires |ext| >= 1 && '.' !in ext && sfx == "." + ext
    ensures StripLeadingDots(Lower(sfx)) == Lower(ext)
  {
    LowerAppend(".", ext);
    assert Lower(".") == ".";
    LowerNoDot(ext);
    assert ("." + Lower(ext))[1..] == Lower(ext);
  }

  /** The extension of `dir/stem.ext` is `ext` lowercased. */
  lemma ExtensionOf(dir: string, stem: string, ext: string)
    requires dir == "" || dir[|dir| - 1] == '/'
    requires |stem| >= 1 && |ext| >= 1 && '.' !in ext && '/' !in stem && '/' !in ext
    ensures Extension(dir + (stem + "." + ext)) == Lower(ext)
  {
    var name := stem + "." + ext;
    FinalNameOf(dir, name);
    SuffixOf(stem, ext);
    ExtensionFromSuffix(dir + name, ext);
  }

  lemma ExtensionFromSuffix(path: string, ext: string)
    requires |ext| >= 1 && '.' !in ext && Suffix(FinalName(path)) == "." + ext
    ensures Extension(path) == Lower(ext)
  {
    DottedExtension(Suffix(FinalName(path)), ext);
  }

  /** The extension decides the format in any letter case: `report.XLSX`
      exports to xlsx. */
  lemma InferredFormat(dir: string, stem: string, ext: string, f: Format)
    requires dir == "" || dir[|dir| - 1] == '/'
    requires |stem| >= 1 && '/' !in stem && '/' !in ext
    requires Lower(ext) == FormatName(f)
    ensures InferFormat(dir + (stem + "." + ext)) == Some(f)
  {
    assert |ext| >= 3;
    assert '.' !in ext by {
      forall i | 0 <= i < |ext|
        ensures ext[i] != '.'
      {
        assert Lower(ext)[i] == LowerChar(ext[i]);
      }
    }
    ExtensionOf(dir, stem, ext);
    ParseFormatName(f);
  }

  // ---------------------------------------------------------------------------
  // Options of `main`

  /** The options as click hands them to `main`; `-e` is the raw value
      before the choice check. */
  datatype Options = Options(
    calendar: Option<string>,
    local: Option<string>,
    search: seq<string>,
    date: string,
    write: Option<string>,
    exportChoice: Option<string>,
    terminal: bool,
    credentials: Option<string>)

  /** Python truthiness of an optional string: present and non-empty. */
  predicate IsSet(o: Option<string>) {
    o.Some? && |o.value| > 0
  }

  datatype UsageError =
    | InvalidExportChoice(value: string)
    | MissingSource
    | ConflictingSources
    | UnknownExtension(path: string)

  /** A file to write and the format to write it in. */
  datatype Output = Output(path: string, format: Format)

  /** What `main` goes on to do once the options are accepted. */
  datatype Plan = Plan(
    fetcher: Fetcher,
    date: string,
    search: seq<string>,
    output: Option<Output>,
    terminal: bool)

  /** The exporter key asked for: the lowered `-e` choice when given, else the
      extension of the file to write. */
  function FormatKey(write: string, exportChoice: Option<string>): string {
    if exportChoice.Some? then Lower(exportChoice.value) else Extension(write)
  }

  /** Whichever way the key is given, the format it names is the one written. */
  lemma OutputFormatOfKey(write: string, exportChoice: Option<string>)
    ensures forall f: Format :: FormatKey(write, exportChoice) == FormatName(f) ==>
              OutputFormat(write, exportChoice) == Some(f)
  {
    forall f: Format | FormatKey(write, exportChoice) == FormatName(f)
      ensures OutputFormat(write, exportChoice) == Some(f)
    {
      ParseFormatName(f);
    }
  }

  /** The format of the file to write: the `-e` choice when given, else the
      one the extension names. */
  function OutputFormat(write: string, exportChoice: Option<string>): (r: Option<Format>)
    ensures r.Some? ==> FormatName(r.value) == FormatKey(write, exportChoice)
    ensures r.None? <==> forall f: Format :: FormatName(f) != FormatKey(write, exportChoice)
  {
    if exportChoice.Some? then ChoiceFormat(exportChoice.value) else InferFormat(write)
  }

  /** The checks of `main` (and of the `-e` choice before it) in their order. */
  function Resolve(o: Options): (r: Result<Plan, UsageError>)
    ensures r == Failure(MissingSource) <==>
              (o.exportChoice.None? || ChoiceFormat(o.exportChoice.value).Some?) && !IsSet(o.calendar) && !IsSet(o.local)
    ensures r == Failure(ConflictingSources) <==>
              (o.exportChoice.None? || ChoiceFormat(o.exportChoice.value).Some?) && IsSet(o.calendar) && IsSet(o.local)
    ensures r.Failure? && r.error.InvalidExportChoice? <==>
              o.exportChoice.Some? && ChoiceFormat(o.exportChoice.value).None?
    ensures r.Failure? && r.error.InvalidExportChoice? ==> r.error.value == o.exportChoice.value
    ensures r.Success? ==> IsSet(o.calendar) != IsSet(o.local)
    ensures r.Success? ==> (r.value.fetcher.LocalICal? <==> IsSet(o.local))
    ensures r.Success? && IsSet(o.local) ==> r.value.fetcher == LocalICal(o.local.value)
    ensures r.Success? && !IsSet(o.local) ==> r.value.fetcher == GetFetcher(o.calendar.value, o.credentials)
    ensures r.Success? ==> r.value.date == o.date && r.value.search == o.search
    ensures r.Success? ==> (r.value.output.Some? <==> IsSet(o.write))
    ensures r.Success? ==> r.value.terminal == (!IsSet(o.write) || o.terminal)
    ensures r.Success? ==> r.value.terminal || r.value.output.Some?
    ensures r.Success? && r.value.output.Some? ==>
              r.value.output.value.path == o.write.value
              && FormatName(r.value.output.value.format)
                 == FormatKey(o.write.value, o.exportChoice)
  {
    if o.exportChoice.Some? && ChoiceFormat(o.exportChoice.value).None? then Failure(InvalidExportChoice(o.exportChoice.value))
    else if !IsSet(o.calendar) && !IsSet(o.local) then Failure(MissingSource)
    else if IsSet(o.calendar) && IsSet(o.local) then Failure(ConflictingSources)
    else
      var fetcher := if IsSet(o.local) then LocalICal(o.local.value) else GetFetcher(o.calendar.value, o.credentials);
      if IsSet(o.write) then
        (match OutputFormat(o.write.value, o.exportChoice)
         case None => Failure(UnknownExtension(o.write.value))
         case Some(f) => Success(Plan(fetcher, o.date, o.search, Some(Output(o.write.value, f)), o.terminal)))
      else Success(Plan(fetcher, o.date, o.search, None, true))
  }

  /** With `-c` alone the calendar picks the fetcher: a feed URL is fetched as
      iCal, anything else is a Google calendar id read with `--credentials`. */
  lemma CalendarPlanFetcher(o: Options)
    requires IsSet(o.calendar) && !IsSet(o.local)
    ensures Resolve(o).Success? ==>
              Resolve(o).value.fetcher
              == (if IsICalSource(o.calendar.value) then ICalUrl(o.calendar.value)
                  else GoogleCalendar(o.calendar.value, o.credentials))
  {
  }

  /** The remaining usage error: a file to write with neither `-e` nor a known
      extension. */
  lemma UnknownExtensionIff(o: Options)
    ensures Resolve(o) == Failure(UnknownExtension(o.write.GetOr(""))) <==>
              IsSet(o.calendar) != IsSet(o.local) && IsSet(o.write) && o.exportChoice.None?
              && InferFormat(o.write.value).None?
  {
  }

  /** The `-e` choice takes precedence over the extension. */
  lemma ExplicitExportWins(o: Options, f: Format)
    requires IsSet(o.calendar) != IsSet(o.local) && IsSet(o.write)
    requires o.exportChoice.Some? && Lower(o.exportChoice.value) == FormatName(f)
    ensures Resolve(o).Success? && Resolve(o).value.output == Some(Output(o.write.value, f))
  {
    ChoiceIgnoresCase(f, o.exportChoice.value);
  }

  /** Without `-w` output goes to the terminal, whatever `-t` and `-e` say. */
  lemma NoWriteMeansTerminal(o: Options)
    requires IsSet(o.calendar) != IsSet(o.local) && !IsSet(o.write)
    requires o.exportChoice.None? || ChoiceFormat(o.exportChoice.value).Some?
    ensures Resolve(o).Success? && Resolve(o).value.terminal && Resolve(o).value.output.None?
  {
  }

  /** An empty `-c` counts as no `-c`. */
  lemma EmptyCalendarIsMissing(o: Options)
    requires o.calendar == Some("") && !IsSet(o.local)
    requires o.exportChoice.None?
    ensures Resolve(o) == Failure(MissingSource)
  {
  }

  function DefaultOptions(): Options {
    Options(None, None, [], "today", None, None, false, None)
  }

  /** `cal-exporter -s "#test"`: no source. */
  lemma SearchOnlyIsMissingSource()
    ensures Resolve(DefaultOptions().(search := ["#test"])) == Failure(MissingSource)
  {
  }

  /** `cal-exporter -c test -l calendar.ics`: two sources. */
  lemma BothSourcesConflict()
    ensures Resolve(DefaultOptions().(calendar := Some("test"), local := Some("calendar.ics")))
         == Failure(ConflictingSources)
  {
  }

  /** A local file with `-w` and no `-e` writes the format the extension
      names, when it names one; terminal output then follows `-t`. */
  lemma InferredOutput(o: Options)
    requires IsSet(o.local) && !IsSet(o.calendar) && IsSet(o.write) && o.exportChoice.None?
    ensures InferFormat(o.write.value).Some? ==>
              Resolve(o) == Success(Plan(LocalICal(o.local.value), o.date, o.search,
                                         Some(Output(o.write.value, InferFormat(o.write.value).value)), o.terminal))
  {
  }

  /** `cal-exporter -l calendar.ics -w out/output.csv` writes CSV only. */
  lemma CsvInferredFromExtension()
    ensures var o := DefaultOptions().(local := Some("calendar.ics"), write := Some("out/output.csv"));
      Resolve(o) == Success(Plan(LocalICal("calendar.ics"), "today", [], Some(Output("out/output.csv", Csv)), false))
  {
    var path := "out/output.csv";
    assert path == "out/" + ("output" + "." + "csv");
    InferredFormat("out/", "output", "csv", Csv);
    var o := DefaultOptions().(local := Some("calendar.ics"), write := Some(path));
    InferredOutput(o);
  }

  /** A dot-file such as `.csv` has no extension, so `-w .csv` needs `-e`. */
  lemma DotFileNeedsExport(o: Options, ext: string)
    requires IsSet(o.calendar) != IsSet(o.local) && o.exportChoice.None?
    requires o.write == Some("." + ext) && '.' !in ext && '/' !in ext
    ensures Resolve(o) == Failure(UnknownExtension("." + ext))
  {
    DotFileHasNoExtension(ext);
    assert InferFormat("." + ext).None?;
  }

  // ---------------------------------------------------------------------------
  // Lines 171-172: hashtag filtering

  /** `if search: events = filter_events(events, list(search))` */
  function ApplySearch(events: seq<Event>, search: seq<string>): (r: seq<Event>)
    ensures |search| == 0 ==> r == events
    ensures |r| <= |events|
  {
    if |search| > 0 then FilterEvents(events, search) else events
  }

  /** The guard is redundant: with no terms the filter already returns its
      input untouched. */
  lemma ApplySearchIsFilter(events: seq<Event>, search: seq<string>)
    ensures ApplySearch(events, search) == FilterEvents(events, search)
  {
  }
}
