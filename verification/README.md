# cal_exporter in Dafny

A model of the pure core of `cal_exporter`, a command-line tool that reads
calendar events from a Google Calendar, a public iCal feed or a local `.ics`
file, keeps the events of a date range whose descriptions carry the requested
hashtags, and exports them. The model covers:

- the date-range parser (`parse_date_range`, `_split_date_range`,
  `_parse_single_date`): `today`, a `YYYY-MM-DD[THH:MM]:YYYY-MM-DD[THH:MM]`
  range, or a single date, with the forced start and end times of day;
- the hashtag engine (`extract_hashtags`, `_normalize_hashtag`,
  `_parse_hashtag_groups`, `filter_events`): the `#\w+` scanner, search-term
  normalisation, the OR-of-AND groups, and the filter that keeps matching
  events and refreshes their stored tags;
- the date-overlap filter (`filter_by_date_range`);
- the `CalendarEvent` record, its `H:MM` duration string and the string fields
  of `to_dict`;
- the command line: fetcher selection (`get_fetcher`), exporter lookup
  (`get_exporter`), and the option checks of `main` (one source, format from
  `-e` or from the file extension, terminal output by default, filtering only
  when `-s` is given);
- the cell truncation of the PDF report (`_truncate`).

Modules: `Wrappers` (Option, Result), `PyStr` (the ASCII part of Python's
`str` and `int` behaviour the code relies on), `Models`, `Hashtags`,
`Filters`, `DateRange`, `Cli`, `PdfExport`.

The model is functional. `filter_events` overwrites `event.hashtags` in place
on a match; `Filters.FilterEvents` returns the updated event values instead.
The clock (`datetime.now`), the local time zone (`tzlocal()`) and the general
grammar of `dateutil.parser.parse` are parameters: `now`, `localOffset`
(seconds east of UTC) and `general`. The parser is concrete on the two ISO
shapes the range pattern admits, with Python's `datetime` field checks.
Event times are integers: microseconds on one UTC scale, so comparing them is
comparing the aware datetimes.

An inverted date range (start after end) is not empty: the overlap test at
`src/cal_exporter/filters.py:214` still keeps an event that spans both bounds;
`Filters.InvertedRangeCanMatch` states it.

## Model

| member | source | states |
|---|---|---|
| PyStr.Lower | src/cal_exporter/filters.py:122 | `str.lower()` keeps the length, maps each character on its own, and leaves no upper-case letter |
| PyStr.LowerOfLower | src/cal_exporter/filters.py:122 | a string is its own lower-case form exactly when it has no upper-case letter, so lowering twice is lowering once |
| PyStr.Strip | src/cal_exporter/filters.py:26 | `str.strip()` leaves a result that neither starts nor ends with whitespace |
| PyStr.StripPadded | src/cal_exporter/filters.py:119 | stripping removes exactly the whitespace margins around a trimmed core |
| PyStr.StripBlank | src/cal_exporter/filters.py:119 | a blank or empty string strips to the empty string |
| PyStr.StripIdempotent | src/cal_exporter/filters.py:26 | stripping a stripped string changes nothing |
| PyStr.LastIndexOf | src/cal_exporter/cli.py:139-140 | `rfind` returns the position of the last occurrence, or -1 exactly when the character is absent |
| PyStr.Split | src/cal_exporter/filters.py:142 | `split(",")` gives at least one piece, no piece contains the separator, and a separator-free text is its own only piece |
| PyStr.JoinSplit | src/cal_exporter/filters.py:142 | joining the pieces of a split with the separator restores the text |
| PyStr.Join | src/cal_exporter/models.py:44 | `sep.join(xs)`: the pieces in order with the separator between neighbours; `JoinSplit` and `SplitJoin` make it the inverse of `Split` |
| PyStr.SplitJoin | src/cal_exporter/filters.py:142 | splitting a join of separator-free pieces restores the pieces, so split and join are inverse |
| PyStr.SplitLower | src/cal_exporter/filters.py:142 | splitting a lowered text gives the lowered pieces of the text |
| PyStr.ZeroPadValue | src/cal_exporter/models.py:32 | `f"{n:02d}"` reads back as `n` and is exactly two characters for `n < 100` |
| PyStr.ZeroPadOfDigits | src/cal_exporter/models.py:32 | a numeral of k digits, leading zeros included, is the zero-padding to width k of its own value |
| PyStr.IntToStringRoundTrip | src/cal_exporter/models.py:32 | `int(str(n)) == n` for every integer, negative ones included |
| PyStr.IntToStringCanonical | src/cal_exporter/models.py:32 | `str(n)` is a `-` exactly for negatives followed by decimal digits with no leading zero |
| PyStr.SliceTo | src/cal_exporter/exporters/pdf_export.py:133 | `s[:k]` is a prefix of `s`, of length `k` within bounds, all of `s` beyond, and counted from the end when `k` is negative |
| Models.NewEvent | src/cal_exporter/models.py:8-18 | a new event keeps every given field and has an empty `hashtags` list by default |
| Models.DurationMinutes | src/cal_exporter/models.py:20-29 | the minutes of `end - start` truncated toward zero, stated as bounds on the duration for both signs |
| Models.FormatDuration | src/cal_exporter/models.py:26-32 | the text ends with `:` and two digits, the first of which is at most 5 |
| Models.DurationRoundTrip | src/cal_exporter/models.py:29-32 | reading `hours:MM` back as `hours * 60 + MM` gives the total minutes again, for every integer including negatives |
| Models.MinutesFieldInRange | src/cal_exporter/models.py:31-32 | the minutes field is two digits whose value is `m % 60`, below 60 |
| Models.HoursFieldCanonical | src/cal_exporter/models.py:29-32 | the hours field reads back as `m // 60` and is written as `str` writes it: `-` exactly for negative durations, then digits with no leading zero |
| Models.DurationNinety | src/cal_exporter/models.py:26-32 | 90 minutes are shown as `1:30` |
| Models.DurationWholeHours | src/cal_exporter/models.py:26-32 | 180 minutes are shown as `3:00` |
| Models.DurationNegative | src/cal_exporter/models.py:30-32 | floor division shows -30 minutes as `-1:30` |
| Models.ToDict | src/cal_exporter/models.py:34-45 | summary passes through; a missing description or location becomes `""`; the duration field reads back as the duration in minutes; the tags are joined with `", "` in stored order |
| Hashtags.WordRun | src/cal_exporter/filters.py:113 | the longest prefix of word characters: every character before it is `\w` and the one at it is not |
| Hashtags.Scan | src/cal_exporter/filters.py:113-114 | `re.findall(r'#\w+', s)` as a left-to-right scan that takes the longest word run after each `#` and resumes after it; `ScanMembership` and `ScanAppend` characterise its result |
| Hashtags.ScanYieldsHashtags | src/cal_exporter/filters.py:113-114 | every tag found is `#` followed by one or more word characters |
| Hashtags.ExtractHashtags | src/cal_exporter/filters.py:109-114 | `None` and `""` give no tags; every tag returned has the `#\w+` shape |
| Hashtags.ExtractIsScan | src/cal_exporter/filters.py:109-114 | the empty-text guard changes nothing: extraction is the scan of the text or of `""` |
| Hashtags.WordRunUnique | src/cal_exporter/filters.py:113 | the longest word-character prefix is the only length with its two defining properties |
| Hashtags.ScanAppend | src/cal_exporter/filters.py:113-114 | a text cut before a non-word character yields the tags of the left part followed by those of the right part |
| Hashtags.ScanHashtag | src/cal_exporter/filters.py:113-114 | a text that is one well-formed tag yields exactly that tag |
| Hashtags.ScanSound | src/cal_exporter/filters.py:113-114 | every tag returned is a maximal `#\w+` occurrence in the text |
| Hashtags.ScanComplete | src/cal_exporter/filters.py:113-114 | every maximal `#\w+` occurrence in the text is returned |
| Hashtags.ScanMembership | src/cal_exporter/filters.py:113-114 | a string is returned iff it has the `#\w+` shape and occurs maximally in the text |
| Hashtags.Normalize | src/cal_exporter/filters.py:117-122 | the normal form starts with `#`, has no upper-case letter, and has no trailing blank |
| Hashtags.NormalShapeFixed | src/cal_exporter/filters.py:117-122 | a tag already of that shape is its own normal form |
| Hashtags.NormalizeIdempotent | src/cal_exporter/filters.py:117-122 | normalising twice is normalising once |
| Hashtags.NormalizeIgnoresCase | src/cal_exporter/filters.py:117-122 | lowering a tag first does not change its normal form |
| Hashtags.NormalizeAddsHash | src/cal_exporter/filters.py:120-121 | a trimmed bare word and the same word behind `#` normalise alike |
| Hashtags.NormalizePadded | src/cal_exporter/filters.py:119 | blanks around a tag do not change its normal form |
| Hashtags.NormalizeBlank | src/cal_exporter/filters.py:117-122 | a blank or empty piece normalises to the bare tag `#` |
| Hashtags.NormalizeBareWord | src/cal_exporter/filters.py:117-122 | a trimmed lower-case word without `#` normalises to `#` before the word |
| Hashtags.TermGroup | src/cal_exporter/filters.py:141-145 | the group of one term, whichever branch the source takes, is the set of normal forms of its comma pieces |
| Hashtags.TermGroupSpec | src/cal_exporter/filters.py:141-145 | the comma and the no-comma branch give the same group: the normalised comma pieces, each in normal form, the first always present |
| Hashtags.TermGroupBranches | src/cal_exporter/filters.py:141-145 | the no-comma branch's singleton is the set of normalised pieces of a one-piece split |
| Hashtags.TermGroupIgnoresCase | src/cal_exporter/filters.py:141-145 | a term's group does not depend on its letter case |
| Hashtags.ParseGroups | src/cal_exporter/filters.py:125-146 | one non-empty group per term, in order, holding the normalised comma pieces of that term, each `#`-prefixed, lower-case and its own normal form |
| Hashtags.ParseGroupsIgnoresCase | src/cal_exporter/filters.py:125-146 | lowering every term leaves the groups unchanged |
| Hashtags.ParseGroupsAddsHash | src/cal_exporter/filters.py:120-121 | a one-word term without `#` gives the same group as `#word` |
| Hashtags.BareHashNeverMatches | src/cal_exporter/filters.py:186-188 | a group that contains the bare `#` is never a subset of the extracted tags |
| Hashtags.BlankPieceNeverMatches | src/cal_exporter/filters.py:141-142 | a term with an empty or blank comma piece (`a,,b`) matches no description at all |
| Hashtags.SingleTermGroup | src/cal_exporter/filters.py:145 | a term naming one normal tag is the group of that tag alone |
| Hashtags.PairTermGroup | src/cal_exporter/filters.py:141-143 | the term `a, b` of two normal tags is the AND-group `{a, b}` |
| Hashtags.ParseGroupsPairOr | src/cal_exporter/filters.py:125-146 | the terms `a, b` and `c` give the groups `[{a, b}, {c}]`, read as (a AND b) OR c |
| Hashtags.ParseGroupsExample | src/cal_exporter/filters.py:125-146 | `"#zzp, #work"` and `"#meeting"` give `[{"#zzp", "#work"}, {"#meeting"}]` |
| Filters.Refresh | src/cal_exporter/filters.py:181-194 | a refreshed event differs from the input only in `hashtags`, which are the tags of its own description |
| Filters.Selected | src/cal_exporter/filters.py:181-190 | an event is selected when some AND-group is a subset of the lowered tags of its description; `FilterEventsSingle` ties it to the filter |
| Filters.KeepMatching | src/cal_exporter/filters.py:178-197 | the loop never lengthens the list |
| Filters.KeepMatchingSound | src/cal_exporter/filters.py:186-195 | every kept event matches some group and carries the tags extracted from its description |
| Filters.KeepMatchingAppend | src/cal_exporter/filters.py:179-197 | the loop treats each event on its own, so it distributes over concatenation |
| Filters.KeepMatchingMembership | src/cal_exporter/filters.py:179-195 | an event is in the result iff it is the refreshed form of a matching input event |
| Filters.KeepMatchingFixedPoint | src/cal_exporter/filters.py:179-197 | running the loop on its own output changes nothing |
| Filters.FilterEvents | src/cal_exporter/filters.py:149-197 | no terms returns the input untouched; otherwise every event returned matches some group and carries its freshly extracted tags, and none is added |
| Filters.FilterEventsAppend | src/cal_exporter/filters.py:179-197 | filtering a concatenation is concatenating the filtered parts, so input order is kept |
| Filters.FilterEventsSingle | src/cal_exporter/filters.py:186-195 | one event is kept, refreshed, exactly when some group is a subset of its lowered description tags |
| Filters.FilterEventsMembership | src/cal_exporter/filters.py:176-195 | an event is returned iff it is the refreshed form of an input event that matches |
| Filters.FilterEventsFixedPoint | src/cal_exporter/filters.py:149-197 | filtering the output again with the same terms changes nothing |
| Filters.FilterEventsKeepsFields | src/cal_exporter/filters.py:194 | a returned event differs from its input event at most in `hashtags` |
| Filters.FilterEventsIgnoresCase | src/cal_exporter/filters.py:176-188 | the result does not depend on the letter case of the terms |
| Filters.FilterWithoutHashPrefix | src/cal_exporter/filters.py:120-121 | `-s billable` filters exactly like `-s '#billable'` |
| Filters.BlankPieceFiltersEverything | src/cal_exporter/filters.py:141-142 | one term with an empty comma piece filters out every event |
| Filters.ExportedTagsRescan | src/cal_exporter/models.py:44 | the `", "`-joined tag column scans back to exactly the list of tags |
| Filters.ExportedTagsOfFiltered | src/cal_exporter/filters.py:194 | the exported tag column of a filtered event scans back to its stored tags |
| Filters.FilterByDateRange | src/cal_exporter/filters.py:200-217 | every event kept is an input event that overlaps the range, and none is added |
| Filters.DateRangeMembership | src/cal_exporter/filters.py:210-217 | an event is kept iff it is an input event with `start <= end_of_range` and `end >= start_of_range` |
| Filters.DateRangeAppend | src/cal_exporter/filters.py:210-217 | the filter distributes over concatenation, so input order is kept |
| Filters.DateRangeIdempotent | src/cal_exporter/filters.py:210-217 | filtering twice with the same range is filtering once |
| Filters.FiltersCommute | src/cal_exporter/filters.py:179-217 | the hashtag and date filters can run in either order |
| Filters.InvertedRangeCanMatch | src/cal_exporter/filters.py:214 | with the range start after its end, an event spanning both bounds is still kept |
| DateRange.Dateutil | src/cal_exporter/filters.py:80 | an ISO-shaped token never overflows and, when accepted, is a naive date-time with valid calendar and clock fields; any other token is decided by the general parser |
| DateRange.IsoParse | src/cal_exporter/filters.py:80 | an ISO token parses iff its date is a real calendar date and its time is in range, to exactly its written fields, naive |
| DateRange.FormatDateParses | src/cal_exporter/filters.py:59 | a valid date written `YYYY-MM-DD` has the date shape and parses back to that date at midnight |
| DateRange.FormatDateTimeParses | src/cal_exporter/filters.py:59 | a valid date and time written `YYYY-MM-DDTHH:MM` has the date-time shape and parses back to them |
| DateRange.IsoParseFormats | src/cal_exporter/filters.py:80 | an accepted ISO token is exactly its parsed fields written back as `YYYY-MM-DD` or `YYYY-MM-DDTHH:MM`: parsing loses nothing |
| DateRange.SplitDateRange | src/cal_exporter/filters.py:49-66 | one or two pieces; two pieces are ISO tokens that make up the string around a `:`; one piece is the string itself |
| DateRange.SplitDateRangeComplete | src/cal_exporter/filters.py:59-63 | whenever the string is two ISO tokens around a `:`, those two tokens are returned, so the split is unambiguous |
| DateRange.StrippedHasNoTrailingNewline | src/cal_exporter/filters.py:26 | a stripped string never ends in a newline, so the `$`-before-newline case of the pattern cannot occur |
| DateRange.ParseSingleDate | src/cal_exporter/filters.py:69-96 | a rejection is the invalid-format error naming the token, an overflow escapes, and a parsed value keeps its date, gets the local offset only when naive, keeps its time when the token has `T` or a space, and otherwise gets 00:00:00.000000 as a start or 23:59:59.000000 as an end |
| DateRange.ParseDateRange | src/cal_exporter/filters.py:13-46 | both ends of an accepted range carry a UTC offset |
| DateRange.TodayRange | src/cal_exporter/filters.py:26-31 | `today` in any case and with blanks around it is the current date from 00:00:00.000000 to 23:59:59.000000 at the local offset |
| DateRange.TodaySpan | src/cal_exporter/filters.py:29-31 | at one fixed local offset, the `today` range is one second short of a whole day |
| DateRange.RangeUsesBothTokens | src/cal_exporter/filters.py:34-41 | a range takes its start from the first token and its end from the second, and fails with the first token's failure |
| DateRange.RangeIgnoresGeneralParser | src/cal_exporter/filters.py:34-41 | the result for a range of two ISO tokens does not depend on the general parser |
| DateRange.SingleDateRange | src/cal_exporter/filters.py:43-46 | a single date ends at 23:59:59 of the start's day and offset, even when the input had its own time, or fails with the token's failure |
| DateRange.SingleDateOrdered | src/cal_exporter/filters.py:44-45 | on the single-date path the start never lies after the end |
| DateRange.SingleIsoDate | src/cal_exporter/filters.py:44-46 | a valid `YYYY-MM-DD` covers that local day from midnight to 23:59:59 |
| DateRange.IsoDateRange | src/cal_exporter/filters.py:34-41 | `YYYY-MM-DD:YYYY-MM-DD` runs from midnight of the first date to 23:59:59 of the second, in whichever order they are |
| DateRange.IsoDateToken | src/cal_exporter/filters.py:83-91 | an accepted date token is its day's local midnight as a start and its day's local 23:59:59 as an end |
| DateRange.NoColonNoRange | src/cal_exporter/filters.py:34-38 | a string without a colon is never split |
| DateRange.RejectedSingleFails | src/cal_exporter/filters.py:95-96 | a single token the parser rejects fails the whole call with the invalid-format error naming it |
| DateRange.UnrecognisedFails | src/cal_exporter/filters.py:95-96 | a trimmed word with no colon, not starting with a digit and not five long, that the parser rejects fails with its name |
| DateRange.NotADate | src/cal_exporter/filters.py:95-96 | `not-a-date` fails with the invalid-format error whenever the general parser rejects it |
| Cli.IsICalSource | src/cal_exporter/cli.py:24-26 | a source is a public feed when it has an http(s) scheme and contains `.ics` as written or `ical` in any case; `Cli.GetFetcher` selects the iCal fetcher exactly for these |
| Cli.GetFetcher | src/cal_exporter/cli.py:21-38 | the iCal fetcher for the same URL iff the source starts with `http://` or `https://` and contains `.ics` or, in any case, `ical`; otherwise the Google fetcher with the given id and credentials |
| Cli.NoSchemeIsGoogle | src/cal_exporter/cli.py:24 | a source without an http(s) scheme always selects the Google fetcher |
| Cli.PrimaryIsGoogle | src/cal_exporter/cli.py:29-32 | the calendar id `primary` selects the Google fetcher |
| Cli.IcsUrlIsICal | src/cal_exporter/cli.py:24-27 | an https URL ending in `.ics` selects the iCal fetcher |
| Cli.UpperICalMarker | src/cal_exporter/cli.py:25 | the `ical` marker is matched in any letter case |
| Cli.UpperIcsIsGoogle | src/cal_exporter/cli.py:25 | the `.ics` marker is matched as written, so `http://h/A.ICS` is a Google id |
| Cli.NoMarkerIsGoogle | src/cal_exporter/cli.py:24-32 | a source with no `s` and no `l` or `L` can contain neither marker and selects the Google fetcher |
| Cli.FormatName | src/cal_exporter/cli.py:43-49 | each format's key is lower-case, dot-free and at least three long |
| Cli.ParseFormat | src/cal_exporter/cli.py:43-51 | a key is found iff it is the exact key of a format, and the format found has that key |
| Cli.ParseFormatName | src/cal_exporter/cli.py:43-51 | looking up a format's own key gives that format back |
| Cli.GetExporter | src/cal_exporter/cli.py:41-58 | an exporter exists iff the name is one of the five table keys, and then it is that key's format; any other name gives `None` |
| Cli.GetExporterCaseSensitive | src/cal_exporter/cli.py:51 | `PDF` has no exporter and `pdf` has one: lookup is by exact key |
| Cli.ChoiceFormat | src/cal_exporter/cli.py:88-91 | the `-e` choice is accepted iff its lowered value is a format key, and selects that format |
| Cli.ChoiceIgnoresCase | src/cal_exporter/cli.py:90 | any casing of a format key selects that format |
| Cli.FinalName | src/cal_exporter/cli.py:139 | the final path component is a slash-free tail of the path that follows a `/` or is the whole path |
| Cli.Extension | src/cal_exporter/cli.py:140 | the extension is lower-case and contains no dot; `ExtensionOf` gives its value for `dir/stem.ext` and `DotFileHasNoExtension` for a dot-file |
| Cli.Suffix | src/cal_exporter/cli.py:140 | `Path.suffix` is empty or a proper tail of the name made of a dot and at least one dot-free character |
| Cli.StripLeadingDots | src/cal_exporter/cli.py:140 | `lstrip(".")` removes exactly the leading dots and keeps the rest |
| Cli.InferFormat | src/cal_exporter/cli.py:140-142 | the inferred format is the one whose key equals the extension, and none when no key does |
| Cli.SuffixOf | src/cal_exporter/cli.py:140 | `stem.ext` with a non-empty stem has suffix `.ext` |
| Cli.HiddenNameHasNoSuffix | src/cal_exporter/cli.py:140 | a name that starts with its only dot has no suffix |
| Cli.DotFileHasNoExtension | src/cal_exporter/cli.py:139-140 | a dot-file such as `.csv` has an empty extension |
| Cli.ExtensionOf | src/cal_exporter/cli.py:139-140 | the extension of `dir/stem.ext` is `ext` lowered |
| Cli.InferredFormat | src/cal_exporter/cli.py:137-142 | the extension names a format in any letter case (`report.XLSX` is xlsx) |
| Cli.OutputFormat | src/cal_exporter/cli.py:137-142 | the format written is the one whose exporter key is the lowered `-e` choice, or else the extension; there is none exactly when no format has that key |
| Cli.OutputFormatOfKey | src/cal_exporter/cli.py:137-142 | whenever the key asked for (choice or extension) names a format, that format is the one written |
| Cli.Resolve | src/cal_exporter/cli.py:88-163 | an `-e` value outside the five choices is the invalid-choice error naming it, and only then; after that, no source and two sources are the usage errors; an accepted plan has one source, reads `-l`'s file when `-l` is given and otherwise uses the fetcher `get_fetcher` picks for `-c` and the credentials, passes the date and search terms on unchanged, writes a file iff `-w` is given, in the format of `-e` or else of the extension, and prints to the terminal when nothing is written or `-t` asks |
| Cli.CalendarPlanFetcher | src/cal_exporter/cli.py:159-163 | with `-c` alone an accepted plan fetches a feed URL as iCal and anything else as a Google calendar id with the given credentials |
| Cli.UnknownExtensionIff | src/cal_exporter/cli.py:137-147 | the unknown-extension usage error occurs iff there is one source, a file to write, no `-e`, and an unrecognised extension |
| Cli.ExplicitExportWins | src/cal_exporter/cli.py:137-142 | with `-e` given, the file is written in that format whatever its extension |
| Cli.NoWriteMeansTerminal | src/cal_exporter/cli.py:150-151 | without `-w` the plan prints to the terminal and writes no file |
| Cli.EmptyCalendarIsMissing | src/cal_exporter/cli.py:130-131 | an empty `-c` counts as no source |
| Cli.SearchOnlyIsMissingSource | src/cal_exporter/cli.py:130-131 | `-s "#test"` alone is the missing-source usage error |
| Cli.BothSourcesConflict | src/cal_exporter/cli.py:133-134 | `-c test -l calendar.ics` is the conflicting-sources usage error |
| Cli.InferredOutput | src/cal_exporter/cli.py:137-151 | a local source with `-w` and no `-e` writes the format its extension names, when it names one, and keeps the `-t` flag as given |
| Cli.CsvInferredFromExtension | src/cal_exporter/cli.py:137-151 | `-l calendar.ics -w out/output.csv` writes CSV and does not print to the terminal |
| Cli.DotFileNeedsExport | src/cal_exporter/cli.py:139-147 | `-w .csv` without `-e` is the unknown-extension usage error |
| Cli.ApplySearch | src/cal_exporter/cli.py:171-172 | without search terms the events pass unchanged, and filtering never adds events |
| Cli.ApplySearchIsFilter | src/cal_exporter/cli.py:171-172 | the `if search` guard is redundant: the filter already returns its input when there are no terms |
| PdfExport.Truncate | src/cal_exporter/exporters/pdf_export.py:129-133 | text within the limit is kept; longer text becomes a prefix of itself followed by `...`, exactly the limit long when the limit is at least 3 |
| PdfExport.TruncateFits | src/cal_exporter/exporters/pdf_export.py:129-133 | with a limit of at least 3 the result never exceeds it |
| PdfExport.TruncateIdempotent | src/cal_exporter/exporters/pdf_export.py:129-133 | truncating twice with the same limit is truncating once |
| PdfExport.TruncateKeepsPrefix | src/cal_exporter/exporters/pdf_export.py:131-133 | the result is the text itself or a prefix of it followed by `...` |
| PdfExport.SummaryCell | src/cal_exporter/exporters/pdf_export.py:77 | the summary cell is at most 50 characters and is the summary itself when that fits |
| PdfExport.HashtagsCell | src/cal_exporter/exporters/pdf_export.py:78 | the tag cell is at most 30 characters and is the `", "`-joined tags when they fit |
| PdfExport.LongSummaryExample | src/cal_exporter/exporters/pdf_export.py:77 | a 60-character summary shows as its first 47 characters and `...` |
| PdfExport.ShortLimitOverflows | src/cal_exporter/exporters/pdf_export.py:133 | below a limit of 3 the negative slice counts from the end, so `abcd` with limit 2 becomes `abc...` |

## Left out

- Fetchers (Google Calendar API, iCal over HTTP, local `.ics` files): network, OAuth and file I/O through foreign libraries. The iCal and local-file fetchers' in-range test (`src/cal_exporter/fetchers/ical.py:58`, `src/cal_exporter/fetchers/local_ical.py:57`) is the overlap predicate of `Filters.FilterByDateRange`; the Google fetcher leaves the range to the API's `timeMin`/`timeMax` query (`src/cal_exporter/fetchers/google_api.py:121-132`) and keeps every item returned, and that server-side test is not modelled.
- Exporters (CSV, JSON, XLSX, ODS, terminal, PDF layout): file writing and rendering through foreign libraries; only the PDF cell truncation is modelled.
- `duration_hours` and the `start`, `end` and `duration_hours` fields of `to_dict`: floating point and `isoformat()` output.
- Models.DurationMinutes: computes `int(duration_hours * 60)` exactly on integer microseconds; the source goes through a float, which can round a duration just below a whole minute differently.
- DateRange.IsoParse: covers the two ISO shapes the range pattern admits; every other input goes to the `general` parameter, which stands for the rest of `dateutil`'s grammar and time-zone handling.
- DateRange.ParseDateRange: its own contract only says both ends carry an offset; the behaviour of each path is stated by `TodayRange`, `RangeUsesBothTokens`, `SingleDateRange` and `RejectedSingleFails`.
- The time-zone database, `tzlocal()` and `datetime.now()`: replaced by the `localOffset` and `now` parameters. A naive result gets the local offset; an explicit offset is kept, not converted. The local offset is one constant for every date, so a change of offset across a daylight-saving switch is not modelled: `DateRange.TodaySpan` and `DateRange.IsoDateRange` hold as stated only in a zone with a fixed offset. In a zone that switches, the source gives each end of a range its own offset, so a range across the switch, and a `today` on the day of the switch, is an hour shorter or longer than the model's.
- Unicode: `\w`, `str.isspace`, `str.strip` and `str.lower` are modelled on ASCII only. So is the range pattern's `\d` (`src/cal_exporter/filters.py:59`), which in the source also matches non-ASCII decimal digits: a range written in such digits is split there but goes whole to the `general` parser here. click's case-insensitive `Choice` (`src/cal_exporter/cli.py:90`) compares casefolded strings; `Cli.ChoiceFormat` compares ASCII-lowered ones.
- The `re.IGNORECASE` flag of `extract_hashtags`: it has no effect on `#\w+`.
- Cli.Resolve: stops at the option checks. Parsing the date, fetching, the exit when no event is left, exporting and terminal output are not part of it, and neither is the wrapping of every error into a `ClickException`.
- click plumbing: decorators, `echo`, `sys.exit`, `--version`, and the `Path(exists=True)` check on `-l` and `-g`.
- Cli.GetFetcher and Cli.GetExporter: the `ImportError` paths for missing optional libraries are not modelled.
- Cli.FinalName: `pathlib` normalisation (trailing slashes, `.` and `..` components) is not modelled.
- Lazy-import shims of the fetcher and exporter packages: no logic.
