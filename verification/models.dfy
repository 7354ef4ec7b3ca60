/** The calendar event record and the strings derived from it
    (src/cal_exporter/models.py). */
module Models {
  import opened Wrappers
  import opened PyStr

  /** One microsecond-based instant scale is used for all times; one minute is
      this many units. */
  const MinuteUnits: int := 60_000_000

  /** A calendar event. `start` and `end` are instants (microseconds on a
      common UTC scale), so comparing them is comparing the aware datetimes. */
  datatype Event = Event(
    summary: string,
    start: int,
    end: int,
    description: Option<string>,
    location: Option<string>,
    uid: Option<string>,
    hashtags: seq<string>)

  /** The dataclass constructor with `hashtags` left to its default factory. */
  function NewEvent(summary: string, start: int, end: int, description: Option<string>,
                    location: Option<string>, uid: Option<string>): (e: Event)
    ensures e.hashtags == []
    ensures e.summary == summary && e.start == start && e.end == end
    ensures e.description == description && e.location == location && e.uid == uid
  {
    Event(summary, start, end, description, location, uid, [])
  }

  /** `int(duration_hours * 60)`: whole minutes of `end - start`, truncated
      toward zero as Python's `int()` does, computed without floating point. */
  function DurationMinutes(e: Event): (m: int)
    ensures e.end - e.start >= 0 ==> 0 <= m * MinuteUnits <= e.end - e.start < (m + 1) * MinuteUnits
    ensures e.end - e.start < 0 ==> (m - 1) * MinuteUnits < e.end - e.start <= m * MinuteUnits <= 0
  {
    var d := e.end - e.start;
    if d >= 0 then d / MinuteUnits else -((-d) / MinuteUnits)
  }

  /** `f"{hours}:{minutes:02d}"` with `hours = m // 60` and `minutes = m % 60`;
      Python's floor division agrees with Dafny's on the positive divisor 60. */
  function FormatDuration(m: int): (r: string)
    ensures |r| >= 4 && r[|r| - 3] == ':'
    ensures IsDigit(r[|r| - 2]) && IsDigit(r[|r| - 1]) && r[|r| - 2] <= '5'
  {
    var minutes := ZeroPad(m % 60, 2);
    ZeroPadValue(m % 60, 2);
    assert minutes[0] <= '5' by {
      assert DigitsValue(minutes) == DigitsValue(minutes[..1]) * 10 + DigitValue(minutes[1]);
      assert minutes[..1][..0] == [];
    }
    IntToString(m / 60) + ":" + minutes
  }

  /** Reads an `H:MM` string back into total minutes; the inverse of
      `FormatDuration`. */
  function ParseDuration(s: string): Option<int> {
    if |s| < 4 || s[|s| - 3] != ':' || !AllDigits(s[|s| - 2..]) then None
    else
      match ParseInt(s[..|s| - 3])
      case None => None
      case Some(h) =>
        var mm := DigitsValue(s[|s| - 2..]);
        if mm < 60 then Some(h * 60 + mm) else None
  }

  lemma DurationRoundTrip(m: int)
    ensures ParseDuration(FormatDuration(m)) == Some(m)
  {
    var h := IntToString(m / 60);
    var minutes := ZeroPad(m % 60, 2);
    ZeroPadValue(m % 60, 2);
    IntToStringRoundTrip(m / 60);
    ParseDurationOf(h, minutes, m / 60, m % 60);
  }

  /** Reading `h + ":" + mm` with a two-digit minutes field below 60. */
  lemma ParseDurationOf(h: string, mm: string, hours: int, minutes: nat)
    requires |mm| == 2 && AllDigits(mm) && DigitsValue(mm) == minutes < 60
    requires ParseInt(h) == Some(hours)
    ensures ParseDuration(h + ":" + mm) == Some(hours * 60 + minutes)
  {
    var s := h + ":" + mm;
    assert s[..|s| - 3] == h;
    assert s[|s| - 3] == ':';
    assert s[|s| - 2..] == mm;
  }


  /** The minutes field is always two digits from 00 to 59. */
  lemma MinutesFieldInRange(m: int)
    ensures var r := FormatDuration(m);
      DigitsValue(r[|r| - 2..]) == m % 60 < 60
  {
    var r := FormatDuration(m);
    ZeroPadValue(m % 60, 2);
    assert r[|r| - 2..] == ZeroPad(m % 60, 2);
  }

  /** The hours field is written the way `str` writes the floor quotient
      `m // 60`: a '-' exactly when the duration is negative, then digits
      without a leading zero or a '+'. */
  lemma HoursFieldCanonical(m: int)
    ensures var r := FormatDuration(m);
      var h := r[..|r| - 3];
      && |h| >= 1
      && (h[0] == '-' <==> m < 0)
      && ParseInt(h) == Some(m / 60)
      && (var digits := if m < 0 then h[1..] else h;
          |digits| >= 1 && AllDigits(digits) && (|digits| > 1 ==> digits[0] != '0'))
  {
    HoursField(m);
    IntToStringCanonical(m / 60);
    IntToStringRoundTrip(m / 60);
  }

  /** What comes before the `:MM` is the text of the hours. */
  lemma HoursField(m: int)
    ensures var r := FormatDuration(m); r[..|r| - 3] == IntToString(m / 60)
  {
    var r := FormatDuration(m);
    ZeroPadValue(m % 60, 2);
    assert r == IntToString(m / 60) + ":" + ZeroPad(m % 60, 2);
  }

  /** 90 minutes read "1:30". */
  lemma DurationNinety()
    ensures FormatDuration(90) == "1:30"
  {
    assert NatToString(1) == "1";
    assert NatToString(30) == "30";
  }

  /** Whole hours keep a two-digit minutes field: 180 minutes read "3:00". */
  lemma DurationWholeHours()
    ensures FormatDuration(180) == "3:00"
  {
    assert NatToString(3) == "3";
    assert NatToString(0) == "0";
    assert ZeroPad(0, 2) == "00";
  }

  /** A negative duration floors the hours: -30 minutes read "-1:30". */
  lemma DurationNegative()
    ensures FormatDuration(-30) == "-1:30"
  {
    assert -30 / 60 == -1 && -30 % 60 == 30;
    assert NatToString(1) == "1";
    assert NatToString(30) == "30";
  }


  /** The string-valued fields of `to_dict()`. */
  datatype ExportRow = ExportRow(
    summary: string,
    durationFormatted: string,
    description: string,
    location: string,
    hashtags: string)

  function ToDict(e: Event): (r: ExportRow)
    ensures r.summary == e.summary
    ensures r.description == (if e.description.Some? then e.description.value else "")
    ensures r.location == (if e.location.Some? then e.location.value else "")
    ensures ParseDuration(r.durationFormatted) == Some(DurationMinutes(e))
    ensures |e.hashtags| == 0 ==> r.hashtags == ""
    ensures |e.hashtags| == 1 ==> r.hashtags == e.hashtags[0]
    ensures |e.hashtags| >= 2 ==> r.hashtags == e.hashtags[0] + ", " + Join(e.hashtags[1..], ", ")
  {
    DurationRoundTrip(DurationMinutes(e));
    ExportRow(
      e.summary,
      FormatDuration(DurationMinutes(e)),
      e.description.GetOr(""),
      e.location.GetOr(""),
      Join(e.hashtags, ", "))
  }
}
