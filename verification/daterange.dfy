/** The date-range parser of src/cal_exporter/filters.py (`parse_date_range`,
    `_split_date_range`, `_parse_single_date`).

    Ambient inputs of the source become parameters: `now` is the local wall
    clock reading that `datetime.now(tzlocal())` returns, `localOffset` the
    UTC offset (seconds) `tzlocal()` attaches, and `general` the part of
    `dateutil.parser.parse` not covered by the two ISO shapes modelled here. */
module DateRange {
  import opened Wrappers
  import opened PyStr

  /** A `datetime`: calendar fields plus an optional UTC offset in seconds
      (`None` is a naive datetime). `replace(...)` is a field update. */
  datatype DateTime = DateTime(
    year: int, month: int, day: int,
    hour: int, minute: int, second: int, microsecond: int,
    offset: Option<int>)

  /** What `dateutil.parser.parse` does with a string: a value, a `ValueError`
      (rejection), or an `OverflowError`, which `_parse_single_date` does not
      catch. */
  datatype ParseOutcome = Parsed(dt: DateTime) | Rejected | Overflowed

  /** `ValueError("Invalid date format: ...")` names the offending token; an
      overflow escapes unchanged. */
  datatype DateError = InvalidDateFormat(token: string) | ParserOverflow(token: string)

  // ---------------------------------------------------------------------------
  // Calendar

  predicate IsLeapYear(y: int) {
    y % 4 == 0 && (y % 100 != 0 || y % 400 == 0)
  }

  function DaysInMonth(y: int, m: int): int
    requires 1 <= m <= 12
  {
    if m == 2 then (if IsLeapYear(y) then 29 else 28)
    else if m == 4 || m == 6 || m == 9 || m == 11 then 30
    else 31
  }

  /** The field ranges Python's `datetime` constructor enforces. */
  predicate ValidDate(y: int, m: int, d: int) {
    1 <= y <= 9999 && 1 <= m <= 12 && 1 <= d <= DaysInMonth(y, m)
  }

  predicate ValidTime(dt: DateTime) {
    0 <= dt.hour <= 23 && 0 <= dt.minute <= 59 && 0 <= dt.second <= 59
    && 0 <= dt.microsecond <= 999_999
  }

  /** Days since 1970-01-01 of a proleptic Gregorian date. */
  function DaysFromCivil(y: int, m: int, d: int): int {
    var y' := if m <= 2 then y - 1 else y;
    var era := y' / 400;
    var yoe := y' - era * 400;
    var mp := if m > 2 then m - 3 else m + 9;
    var doy := (153 * mp + 2) / 5 + d - 1;
    var doe := yoe * 365 + yoe / 4 - yoe / 100 + doy;
    era * 146097 + doe - 719468
  }

  /** The instant an aware datetime denotes, in microseconds since the epoch;
      aware datetimes compare by this value. */
  function Instant(dt: DateTime): int
    requires dt.offset.Some?
  {
    var secs := DaysFromCivil(dt.year, dt.month, dt.day) * 86400
      + dt.hour * 3600 + dt.minute * 60 + dt.second - dt.offset.value;
    secs * 1_000_000 + dt.microsecond
  }

  function StartOfDay(dt: DateTime): DateTime {
    dt.(hour := 0, minute := 0, second := 0, microsecond := 0)
  }

  /** `replace(hour=23, minute=59, second=59)`: microseconds are kept. */
  function EndOfDayKeepingMicros(dt: DateTime): DateTime {
    dt.(hour := 23, minute := 59, second := 59)
  }

  // ---------------------------------------------------------------------------
  // The two ISO shapes of the range pattern

  /** `\d{4}-\d{2}-\d{2}` */
  predicate IsDateShape(t: string) {
    |t| == 10 && AllDigits(t[0..4]) && t[4] == '-' && AllDigits(t[5..7]) && t[7] == '-'
    && AllDigits(t[8..10])
  }

  /** `\d{4}-\d{2}-\d{2}T\d{2}:\d{2}` */
  predicate IsDateTimeShape(t: string) {
    |t| == 16 && IsDateShape(t[..10]) && t[10] == 'T' && AllDigits(t[11..13]) && t[13] == ':'
    && AllDigits(t[14..16])
  }

  /** One token of the range pattern: `\d{4}-\d{2}-\d{2}(T\d{2}:\d{2})?`. */
  predicate IsIsoToken(t: string) {
    IsDateShape(t) || IsDateTimeShape(t)
  }

  /** The `YYYY-MM-DD` part of an ISO token. */
  function DatePart(t: string): (d: string)
    requires IsIsoToken(t)
    ensures IsDateShape(d)
  {
    if IsDateShape(t) then assert t[..10] == t; t[..10] else t[..10]
  }

  function YearOf(t: string): nat
    requires IsIsoToken(t)
  {
    DigitsValue(DatePart(t)[0..4])
  }

  function MonthOf(t: string): nat
    requires IsIsoToken(t)
  {
    DigitsValue(DatePart(t)[5..7])
  }

  function DayOf(t: string): nat
    requires IsIsoToken(t)
  {
    DigitsValue(DatePart(t)[8..10])
  }

  /** Hour and minute of a `YYYY-MM-DDTHH:MM` token, zero for a bare date. */
  function HourOf(t: string): nat
    requires IsIsoToken(t)
  {
    if IsDateShape(t) then 0 else DigitsValue(t[11..13])
  }

  function MinuteOf(t: string): nat
    requires IsIsoToken(t)
  {
    if IsDateShape(t) then 0 else DigitsValue(t[14..16])
  }

  /** `dateutil` on an ISO-shaped token: the written fields, naive, rejected
      when one is out of range for `datetime`. */
  function IsoParse(t: string): (r: Option<DateTime>)
    requires IsIsoToken(t)
    ensures r.Some? <==> ValidDate(YearOf(t), MonthOf(t), DayOf(t)) && HourOf(t) <= 23 && MinuteOf(t) <= 59
    ensures r.Some? ==> r.value == DateTime(YearOf(t), MonthOf(t), DayOf(t), HourOf(t), MinuteOf(t), 0, 0, None)
    ensures r.Some? ==> ValidTime(r.value)
  {
    var y := YearOf(t);
    var m := MonthOf(t);
    var d := DayOf(t);
    if ValidDate(y, m, d) && HourOf(t) <= 23 && MinuteOf(t) <= 59 then
      Some(DateTime(y, m, d, HourOf(t), MinuteOf(t), 0, 0, None))
    else None
  }

  /** The date parser: concrete on the ISO shapes, `general` elsewhere. */
  function Dateutil(general: string -> ParseOutcome, t: string): (r: ParseOutcome)
    ensures IsIsoToken(t) ==> !r.Overflowed?
    ensures IsIsoToken(t) && r.Parsed? ==>
              r.dt.offset.None? && ValidTime(r.dt) && ValidDate(r.dt.year, r.dt.month, r.dt.day)
  {
    if IsIsoToken(t) then
      match IsoParse(t)
      case Some(dt) => Parsed(dt)
      case None => Rejected
    else general(t)
  }

  function FormatDate(y: nat, m: nat, d: nat): string {
    ZeroPad(y, 4) + "-" + ZeroPad(m, 2) + "-" + ZeroPad(d, 2)
  }

  function FormatDateTime(y: nat, m: nat, d: nat, h: nat, mi: nat): string {
    FormatDate(y, m, d) + "T" + ZeroPad(h, 2) + ":" + ZeroPad(mi, 2)
  }

  /** Each field of a written date sits in its own slice. */
  lemma FormatDateFields(y: nat, m: nat, d: nat)
    requires y < 10000 && m < 100 && d < 100
    ensures var t := FormatDate(y, m, d);
      && |t| == 10 && t[4] == '-' && t[7] == '-'
      && t[0..4] == ZeroPad(y, 4) && t[5..7] == ZeroPad(m, 2) && t[8..10] == ZeroPad(d, 2)
  {
    ZeroPadValue(y, 4);
    ZeroPadValue(m, 2);
    ZeroPadValue(d, 2);
    assert FormatDate(y, m, d) == ZeroPad(y, 4) + "-" + ZeroPad(m, 2) + "-" + ZeroPad(d, 2);
  }

  /** Every date with a four-digit year, written `YYYY-MM-DD`, is a date
      token whose fields read back as that date. */
  lemma FormatDateReads(y: nat, m: nat, d: nat)
    requires y < 10000 && m < 100 && d < 100
    ensures IsDateShape(FormatDate(y, m, d))
    ensures YearOf(FormatDate(y, m, d)) == y && MonthOf(FormatDate(y, m, d)) == m
    ensures DayOf(FormatDate(y, m, d)) == d
    ensures HourOf(FormatDate(y, m, d)) == 0 && MinuteOf(FormatDate(y, m, d)) == 0
  {
    var t := FormatDate(y, m, d);
    FormatDateFields(y, m, d);
    ZeroPadValue(y, 4);
    ZeroPadValue(m, 2);
    ZeroPadValue(d, 2);
    assert DatePart(t) == t;
  }

  /** A valid calendar date written `YYYY-MM-DD` parses to that date at
      midnight, naive. */
  lemma FormatDateParses(y: nat, m: nat, d: nat)
    requires ValidDate(y, m, d)
    ensures IsDateShape(FormatDate(y, m, d))
    ensures IsoParse(FormatDate(y, m, d)) == Some(DateTime(y, m, d, 0, 0, 0, 0, None))
  {
    FormatDateReads(y, m, d);
  }

  lemma FormatDateTimeFields(y: nat, m: nat, d: nat, h: nat, mi: nat)
    requires y < 10000 && m < 100 && d < 100 && h < 100 && mi < 100
    ensures var t := FormatDateTime(y, m, d, h, mi);
      && |t| == 16 && t[..10] == FormatDate(y, m, d) && t[10] == 'T' && t[13] == ':'
      && t[11..13] == ZeroPad(h, 2) && t[14..16] == ZeroPad(mi, 2)
  {
    FormatDateFields(y, m, d);
    ZeroPadValue(h, 2);
    ZeroPadValue(mi, 2);
  }

  /** Likewise `YYYY-MM-DDTHH:MM` with a valid time of day. */
  lemma FormatDateTimeParses(y: nat, m: nat, d: nat, h: nat, mi: nat)
    requires ValidDate(y, m, d) && h <= 23 && mi <= 59
    ensures IsDateTimeShape(FormatDateTime(y, m, d, h, mi))
    ensures IsoParse(FormatDateTime(y, m, d, h, mi)) == Some(DateTime(y, m, d, h, mi, 0, 0, None))
  {
    var t := FormatDateTime(y, m, d, h, mi);
    FormatDateReads(y, m, d);
    FormatDateTimeFields(y, m, d, h, mi);
    ZeroPadValue(h, 2);
    ZeroPadValue(mi, 2);
    assert IsDateTimeShape(t);
    assert !IsDateShape(t);
    assert DatePart(t) == DatePart(FormatDate(y, m, d));
  }

  /** The other way round: an accepted ISO token is exactly how its parsed
      fields are written. */
  lemma IsoParseFormats(t: string)
    requires IsIsoToken(t)
    ensures var r := IsoParse(t);
      IsDateShape(t) && r.Some? ==> FormatDate(r.value.year, r.value.month, r.value.day) == t
    ensures var r := IsoParse(t);
      IsDateTimeShape(t) && r.Some? ==>
        FormatDateTime(r.value.year, r.value.month, r.value.day, r.value.hour, r.value.minute) == t
  {
    var p := DatePart(t);
    ZeroPadOfDigits(p[0..4]);
    ZeroPadOfDigits(p[5..7]);
    ZeroPadOfDigits(p[8..10]);
    assert p == p[0..4] + "-" + p[5..7] + "-" + p[8..10];
    assert p == t[..10];
    if IsDateTimeShape(t) {
      ZeroPadOfDigits(t[11..13]);
      ZeroPadOfDigits(t[14..16]);
      assert t == t[..10] + "T" + t[11..13] + ":" + t[14..16];
    }
  }

  // ---------------------------------------------------------------------------
  // _split_date_range

  /** `s` matches `^(TOKEN):(TOKEN)$` with groups `a` and `b`. Python's `$`
      also matches just before a final newline. */
  predicate RangeShape(s: string, a: string, b: string) {
    IsIsoToken(a) && IsIsoToken(b) && (s == a + ":" + b || s == a + ":" + b + "\n")
  }

  /** `_split_date_range`: the two groups when the whole string is a range,
      otherwise the string itself as the only element. */
  function SplitDateRange(s: string): (r: seq<string>)
    ensures |r| == 1 || |r| == 2
    ensures |r| == 2 ==> RangeShape(s, r[0], r[1])
    ensures |r| == 1 ==> r[0] == s
  {
    var body := if |s| > 0 && s[|s| - 1] == '\n' then s[..|s| - 1] else s;
    if |body| >= 11 && body[10] == ':' && IsIsoToken(body[..10]) && IsIsoToken(body[11..]) then
      assert body == body[..10] + ":" + body[11..];
      assert s == body || s == body + "\n";
      [body[..10], body[11..]]
    else if |body| >= 17 && body[16] == ':' && IsIsoToken(body[..16]) && IsIsoToken(body[17..]) then
      assert body == body[..16] + ":" + body[17..];
      assert s == body || s == body + "\n";
      [body[..16], body[17..]]
    else [s]
  }

  /** The split is complete and unambiguous: whenever the string has the
      range shape, the two groups are found, and they are the only ones. */
  lemma SplitDateRangeComplete(s: string, a: string, b: string)
    requires RangeShape(s, a, b)
    ensures SplitDateRange(s) == [a, b]
  {
    var body := a + ":" + b;
    var last := b[|b| - 1];
    assert last == b[9] || last == b[15];
    assert IsDigit(last) by {
      if IsDateShape(b) {
        assert b[8..10][1] == last;
      } else {
        assert b[14..16][1] == last;
      }
    }
    if s == body {
      assert s[|s| - 1] == last;
    } else {
      assert s[..|s| - 1] == body;
    }
    if IsDateShape(a) {
      assert body[..10] == a && body[11..] == b;
    } else {
      assert body[10] == a[10] == 'T';
      assert body[..16] == a && body[17..] == b;
    }
  }

  /** A stripped string never ends with a newline, so the `$` quirk cannot
      arise inside `parse_date_range`. */
  lemma StrippedHasNoTrailingNewline(s: string)
    ensures |Strip(s)| == 0 || Strip(s)[|Strip(s)| - 1] != '\n'
  {
  }

  // ---------------------------------------------------------------------------
  // _parse_single_date

  /** The token carries a time of day in the source's sense: it contains an
      upper-case 'T' or a space. */
  predicate HasTimePart(t: string) {
    'T' in t || ' ' in t
  }

  /** `_parse_single_date(token, is_start)`. */
  function ParseSingleDate(token: string, isStart: bool, localOffset: int,
                           general: string -> ParseOutcome): (r: Result<DateTime, DateError>)
    ensures Dateutil(general, token).Rejected? <==> r == Failure(InvalidDateFormat(token))
    ensures Dateutil(general, token).Overflowed? <==> r == Failure(ParserOverflow(token))
    ensures r.Success? <==> Dateutil(general, token).Parsed?
    ensures r.Success? ==> var p := Dateutil(general, token).dt;
      && r.value.year == p.year && r.value.month == p.month && r.value.day == p.day
      && r.value.offset == (if p.offset.Some? then p.offset else Some(localOffset))
      && (HasTimePart(token) ==>
            r.value.hour == p.hour && r.value.minute == p.minute
            && r.value.second == p.second && r.value.microsecond == p.microsecond)
      && (!HasTimePart(token) && isStart ==>
            r.value.hour == 0 && r.value.minute == 0 && r.value.second == 0 && r.value.microsecond == 0)
      && (!HasTimePart(token) && !isStart ==>
            r.value.hour == 23 && r.value.minute == 59 && r.value.second == 59 && r.value.microsecond == 0)
  {
    match Dateutil(general, token)
    case Rejected => Failure(InvalidDateFormat(token))
    case Overflowed => Failure(ParserOverflow(token))
    case Parsed(p) =>
      var dt := if p.offset.None? then p.(offset := Some(localOffset)) else p;
      if !HasTimePart(token) then
        Success(if isStart then StartOfDay(dt) else dt.(hour := 23, minute := 59, second := 59, microsecond := 0))
      else Success(dt)
  }

  // ---------------------------------------------------------------------------
  // parse_date_range

  /** `parse_date_range(spec)` with the clock, the local offset and the
      general parser supplied by the caller. */
  function ParseDateRange(spec: string, now: DateTime, localOffset: int,
                          general: string -> ParseOutcome): (r: Result<(DateTime, DateTime), DateError>)
    ensures r.Success? ==> r.value.0.offset.Some? && r.value.1.offset.Some?
  {
    var s := Strip(spec);
    if Lower(s) == "today" then
      var today := StartOfDay(now.(offset := Some(localOffset)));
      Success((today, EndOfDayKeepingMicros(today)))
    else if ':' in s && |SplitDateRange(s)| == 2 then
      var parts := SplitDateRange(s);
      var start :- ParseSingleDate(parts[0], true, localOffset, general);
      var end :- ParseSingleDate(parts[1], false, localOffset, general);
      Success((start, end))
    else
      var start :- ParseSingleDate(s, true, localOffset, general);
      Success((start, EndOfDayKeepingMicros(start)))
  }

  /** "today", in any case and with surrounding blanks, is the current local
      date from 00:00:00.000000 to 23:59:59.000000. */
  lemma TodayRange(spec: string, now: DateTime, localOffset: int, general: string -> ParseOutcome)
    requires Lower(Strip(spec)) == "today"
    ensures var r := ParseDateRange(spec, now, localOffset, general);
      && r.Success?
      && r.value.0 == DateTime(now.year, now.month, now.day, 0, 0, 0, 0, Some(localOffset))
      && r.value.1 == DateTime(now.year, now.month, now.day, 23, 59, 59, 0, Some(localOffset))
  {
  }

  /** The "today" range spans one second short of a whole day. */
  lemma TodaySpan(spec: string, now: DateTime, localOffset: int, general: string -> ParseOutcome)
    requires Lower(Strip(spec)) == "today"
    ensures var r := ParseDateRange(spec, now, localOffset, general);
      r.Success? && Instant(r.value.1) - Instant(r.value.0) == 86_399_000_000
  {
  }

  /** A range string is split at its separator colon: the start comes from
      the first token, the end from the second, each parsed on its own, and
      the first failure is the result's failure. */
  lemma RangeUsesBothTokens(spec: string, now: DateTime, localOffset: int,
                            general: string -> ParseOutcome, a: string, b: string)
    requires RangeShape(Strip(spec), a, b)
    ensures var r := ParseDateRange(spec, now, localOffset, general);
      var rs := ParseSingleDate(a, true, localOffset, general);
      var re := ParseSingleDate(b, false, localOffset, general);
      && (rs.Failure? ==> r == Failure(rs.error))
      && (rs.Success? && re.Failure? ==> r == Failure(re.error))
      && (rs.Success? && re.Success? ==> r == Success((rs.value, re.value)))
  {
    var s := Strip(spec);
    SplitDateRangeComplete(s, a, b);
    assert s[|a|] == ':';
    assert Lower(s) != "today" by {
      assert |Lower(s)| == |s| > 5;
    }
  }

  /** A range of two ISO tokens does not depend on the general parser. */
  lemma RangeIgnoresGeneralParser(spec: string, now: DateTime, localOffset: int,
                                  g1: string -> ParseOutcome, g2: string -> ParseOutcome,
                                  a: string, b: string)
    requires RangeShape(Strip(spec), a, b)
    ensures ParseDateRange(spec, now, localOffset, g1) == ParseDateRange(spec, now, localOffset, g2)
  {
    RangeUsesBothTokens(spec, now, localOffset, g1, a, b);
    RangeUsesBothTokens(spec, now, localOffset, g2, a, b);
  }

  /** A string that is neither "today" nor a range is parsed once; the end is
      the start moved to 23:59:59 on the same day and offset, even when the
      input carried its own time of day. */
  lemma SingleDateRange(spec: string, now: DateTime, localOffset: int, general: string -> ParseOutcome)
    requires Lower(Strip(spec)) != "today"
    requires |SplitDateRange(Strip(spec))| != 2
    ensures var r := ParseDateRange(spec, now, localOffset, general);
      var rs := ParseSingleDate(Strip(spec), true, localOffset, general);
      && (rs.Failure? ==> r == Failure(rs.error))
      && (rs.Success? ==>
            (r.Success? && r.value.0 == rs.value && r.value.1 == rs.value.(hour := 23, minute := 59, second := 59)))
  {
  }

  /** On the single-date path the start never lies after the end. */
  lemma SingleDateOrdered(spec: string, now: DateTime, localOffset: int, general: string -> ParseOutcome)
    requires Lower(Strip(spec)) != "today"
    requires |SplitDateRange(Strip(spec))| != 2
    requires var r := ParseDateRange(spec, now, localOffset, general); r.Success? && ValidTime(r.value.0)
    ensures var r := ParseDateRange(spec, now, localOffset, general);
      Instant(r.value.0) <= Instant(r.value.1)
  {
    SingleDateRange(spec, now, localOffset, general);
  }

  /** A plain `YYYY-MM-DD` covers that local day from midnight to 23:59:59. */
  lemma SingleIsoDate(y: nat, m: nat, d: nat, now: DateTime, localOffset: int,
                      general: string -> ParseOutcome)
    requires ValidDate(y, m, d)
    ensures ParseDateRange(FormatDate(y, m, d), now, localOffset, general)
         == Success((DateTime(y, m, d, 0, 0, 0, 0, Some(localOffset)),
                     DateTime(y, m, d, 23, 59, 59, 0, Some(localOffset))))
  {
    var t := FormatDate(y, m, d);
    FormatDateParses(y, m, d);
    DateShapeIsPlain(t);
    NoColonNoRange(t);
    SingleDateRange(t, now, localOffset, general);
    IsoDateToken(t, DateTime(y, m, d, 0, 0, 0, 0, None), true, localOffset, general);
  }

  /** `YYYY-MM-DD:YYYY-MM-DD` runs from midnight of the first date to
      23:59:59 of the second, whichever order they are in. */
  lemma IsoDateRange(y1: nat, m1: nat, d1: nat, y2: nat, m2: nat, d2: nat, now: DateTime,
                     localOffset: int, general: string -> ParseOutcome)
    requires ValidDate(y1, m1, d1) && ValidDate(y2, m2, d2)
    ensures ParseDateRange(FormatDate(y1, m1, d1) + ":" + FormatDate(y2, m2, d2), now, localOffset, general)
         == Success((DateTime(y1, m1, d1, 0, 0, 0, 0, Some(localOffset)),
                     DateTime(y2, m2, d2, 23, 59, 59, 0, Some(localOffset))))
  {
    var a := FormatDate(y1, m1, d1);
    var b := FormatDate(y2, m2, d2);
    var s := a + ":" + b;
    FormatDateParses(y1, m1, d1);
    FormatDateParses(y2, m2, d2);
    DateShapeIsPlain(a);
    DateShapeIsPlain(b);
    assert s[0] == a[0] && s[|s| - 1] == b[9];
    StripTrimmed(s);
    assert RangeShape(Strip(s), a, b);
    RangeUsesBothTokens(s, now, localOffset, general, a, b);
    IsoDateToken(a, DateTime(y1, m1, d1, 0, 0, 0, 0, None), true, localOffset, general);
    IsoDateToken(b, DateTime(y2, m2, d2, 0, 0, 0, 0, None), false, localOffset, general);
  }

  /** A date token holds digits and dashes only: no blank at either end, no
      colon, no time part, and it is not "today". */
  lemma DateShapeIsPlain(t: string)
    requires IsDateShape(t)
    ensures !IsSpace(t[0]) && !IsSpace(t[9])
    ensures ':' !in t && !HasTimePart(t)
    ensures Strip(t) == t && Lower(t) != "today"
  {
    forall i | 0 <= i < 10
      ensures t[i] == '-' || IsDigit(t[i])
    {
      if i < 4 {
        assert t[i] == t[0..4][i];
      } else if 5 <= i < 7 {
        assert t[i] == t[5..7][i - 5];
      } else if 8 <= i {
        assert t[i] == t[8..10][i - 8];
      }
    }
    StripTrimmed(t);
    assert |Lower(t)| == 10;
  }

  /** A date token the ISO reader accepts is, as a start, that day's
      midnight and, as an end, that day's 23:59:59, both in local time. */
  lemma IsoDateToken(t: string, dt: DateTime, isStart: bool, localOffset: int,
                     general: string -> ParseOutcome)
    requires IsDateShape(t) && IsoParse(t) == Some(dt) && dt.offset.None?
    ensures ParseSingleDate(t, isStart, localOffset, general)
         == Success(dt.(hour := if isStart then 0 else 23, minute := if isStart then 0 else 59,
                        second := if isStart then 0 else 59, microsecond := 0,
                        offset := Some(localOffset)))
  {
    DateShapeIsPlain(t);
  }

  /** Without a colon there is no range to split. */
  lemma NoColonNoRange(s: string)
    requires ':' !in s
    ensures SplitDateRange(s) == [s]
  {
    var r := SplitDateRange(s);
    if |r| == 2 {
      assert false;
    }
  }

  /** Any token the parser rejects fails the whole call with the
      invalid-format error naming that token. */
  lemma RejectedSingleFails(spec: string, now: DateTime, localOffset: int, general: string -> ParseOutcome)
    requires Lower(Strip(spec)) != "today"
    requires |SplitDateRange(Strip(spec))| != 2
    requires Dateutil(general, Strip(spec)).Rejected?
    ensures ParseDateRange(spec, now, localOffset, general) == Failure(InvalidDateFormat(Strip(spec)))
  {
    SingleDateRange(spec, now, localOffset, general);
  }

  /** The test suite's "not-a-date" fails whenever the general parser rejects it. */
  lemma NotADate(now: DateTime, localOffset: int, general: string -> ParseOutcome)
    requires general("not-a-date") == Rejected
    ensures ParseDateRange("not-a-date", now, localOffset, general) == Failure(InvalidDateFormat("not-a-date"))
  {
    var s := "not-a-date";
    assert ':' !in s by {
      assert forall i :: 0 <= i < |s| ==> s[i] != ':';
    }
    UnrecognisedFails(s, now, localOffset, general);
  }

  /** A word without a colon that neither starts with a digit nor has the
      length of "today", and that the general parser rejects, makes the whole
      call fail with its name. */
  lemma UnrecognisedFails(s: string, now: DateTime, localOffset: int, general: string -> ParseOutcome)
    requires |s| >= 1 && |s| != 5 && !IsSpace(s[0]) && !IsSpace(s[|s| - 1])
    requires !IsDigit(s[0]) && ':' !in s
    requires general(s) == Rejected
    ensures ParseDateRange(s, now, localOffset, general) == Failure(InvalidDateFormat(s))
  {
    StripTrimmed(s);
    assert |Lower(s)| == |s|;
    assert !IsIsoToken(s) by {
      if |s| >= 10 {
        assert s[..10][0..4][0] == s[0];
      }
    }
    NoColonNoRange(s);
    RejectedSingleFails(s, now, localOffset, general);
  }

}
