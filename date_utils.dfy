/**
 * The client's date helpers: parsing with a fallback to five fixed numeric
 * patterns, the "Today / Yesterday / N days ago" label, the recency test and
 * the "time ago" label. Time values are whole milliseconds since the epoch;
 * `new Date(s)`, the clock, `toLocaleDateString` and
 * `Intl.RelativeTimeFormat` are parameters.
 */
module DateUtils {
  import opened Wrappers
  import opened Platform
  import Text

  /** The locale used when the caller gives none. */
  const DefaultLocale: string := "en-US"

  /** `1000 * 60 * 60 * 24`: one day in milliseconds. */
  const DayMs: int := 1000 * 60 * 60 * 24

  // ---------------------------------------------------------------------------
  // tryCustomParse
  // ---------------------------------------------------------------------------

  /** The format label attached to each pattern. */
  datatype Format = YearMonthDay | MonthDayYearSlash | MonthDayYearDash | DayMonthYearSlash | DayMonthYearDash

  /** `^(\d{w1})S(\d{w2})S(\d{w3})$` with separator S, and the format it is labelled with. */
  datatype Pattern = Pattern(w1: nat, w2: nat, w3: nat, sep: char, format: Format)

  /** The five patterns, in the order they are tried. */
  const Patterns: seq<Pattern> := [
    Pattern(4, 2, 2, '-', YearMonthDay),
    Pattern(2, 2, 4, '/', MonthDayYearSlash),
    Pattern(2, 2, 4, '-', MonthDayYearDash),
    Pattern(2, 2, 4, '/', DayMonthYearSlash),
    Pattern(2, 2, 4, '-', DayMonthYearDash)
  ]

  predicate AllDigits(u: string) {
    forall i :: 0 <= i < |u| ==> Text.IsDigit(u[i])
  }

  /** The whole of `s` matches the pattern: digits of the three widths, the separator between them. */
  predicate Matches(s: string, p: Pattern) {
    |s| == p.w1 + p.w2 + p.w3 + 2
    && s[p.w1] == p.sep && s[p.w1 + 1 + p.w2] == p.sep
    && AllDigits(s[..p.w1]) && AllDigits(s[p.w1 + 1..p.w1 + 1 + p.w2]) && AllDigits(s[p.w1 + p.w2 + 2..])
  }

  /** The three captured groups of a match. */
  function Groups(s: string, p: Pattern): (string, string, string)
    requires Matches(s, p)
  {
    (s[..p.w1], s[p.w1 + 1..p.w1 + 1 + p.w2], s[p.w1 + p.w2 + 2..])
  }

  /** The ISO string handed to `new Date`: `${y}-${m}-${d}T00:00:00Z`. */
  function Iso(y: string, m: string, d: string): string {
    y + "-" + m + "-" + d + "T00:00:00Z"
  }

  /**
   * The body of the loop for a pattern that matched. The second test is an
   * array literal, which is always truthy, so every format other than
   * year-month-day is read month first and the third branch is never taken.
   */
  function Build(format: Format, g: (string, string, string)): string {
    if format == YearMonthDay then Iso(g.0, g.1, g.2)
    else Iso(g.2, g.0, g.1)
  }

  /** The index of the first pattern at or after `k` that `s` matches. */
  function FirstMatch(s: string, k: nat): (r: Option<nat>)
    requires k <= |Patterns|
    ensures r.Some? ==> k <= r.value < |Patterns| && Matches(s, Patterns[r.value])
    ensures r.Some? ==> forall j :: k <= j < r.value ==> !Matches(s, Patterns[j])
    ensures r.None? ==> forall j :: k <= j < |Patterns| ==> !Matches(s, Patterns[j])
    decreases |Patterns| - k
  {
    if k == |Patterns| then None
    else if Matches(s, Patterns[k]) then Some(k)
    else FirstMatch(s, k + 1)
  }

  /**
   * `tryCustomParse(dateString)`: the ISO string built from the first pattern
   * that matches, None (`null`) when none does. `new Date` of that string is
   * taken by the caller.
   */
  function TryCustomParse(s: string): (r: Option<string>)
    ensures r.None? <==> forall j :: 0 <= j < |Patterns| ==> !Matches(s, Patterns[j])
    ensures r.Some? ==> IsoDate(r.value)
  {
    match FirstMatch(s, 0)
    case None => None
    case Some(k) =>
      var g := Groups(s, Patterns[k]);
      IsoShape(g.0, g.1, g.2);
      IsoShape(g.2, g.0, g.1);
      Some(Build(Patterns[k].format, g))
  }

  /** `YYYY-MM-DDT00:00:00Z` with decimal digits: the shape of every string the patterns build. */
  predicate IsoDate(u: string) {
    |u| == 20 && u[4] == '-' && u[7] == '-' && u[10..] == "T00:00:00Z"
    && AllDigits(u[..4]) && AllDigits(u[5..7]) && AllDigits(u[8..10])
  }

  lemma IsoShape(y: string, m: string, d: string)
    ensures |y| == 4 && |m| == 2 && |d| == 2 && AllDigits(y) && AllDigits(m) && AllDigits(d) ==> IsoDate(Iso(y, m, d))
  {
    if |y| == 4 && |m| == 2 && |d| == 2 {
      var u := Iso(y, m, d);
      assert u[..4] == y && u[5..7] == m && u[8..10] == d;
    }
  }

  /** The same slash or dash shape matched earlier always wins: the day-first patterns are never chosen. */
  lemma DayFirstNeverChosen(s: string)
    ensures var r := FirstMatch(s, 0);
      r.Some? ==> Patterns[r.value].format != DayMonthYearSlash && Patterns[r.value].format != DayMonthYearDash
  {
    assert Patterns[3] == Patterns[1].(format := DayMonthYearSlash);
    assert Patterns[4] == Patterns[2].(format := DayMonthYearDash);
  }

  /** What each kind of date string becomes: year-month-day kept, every other shape read month first. */
  lemma TryCustomParseResults(s: string)
    ensures TryCustomParse(s).None? <==> forall j :: 0 <= j < |Patterns| ==> !Matches(s, Patterns[j])
    ensures Matches(s, Patterns[0]) ==>
      TryCustomParse(s) == Some(Iso(s[..4], s[5..7], s[8..]))
    ensures !Matches(s, Patterns[0]) && (Matches(s, Patterns[1]) || Matches(s, Patterns[2])) ==>
      TryCustomParse(s) == Some(Iso(s[6..], s[..2], s[3..5]))
  {
    if TryCustomParse(s).None? {
      assert FirstMatch(s, 0).None?;
    }
  }

  /**
   * The loop as its labels suggest: a membership test on the format, so that
   * day-first strings are read day first.
   */
  function BuildByLabel(format: Format, g: (string, string, string)): string {
    if format == YearMonthDay then Iso(g.0, g.1, g.2)
    else if format == MonthDayYearSlash || format == MonthDayYearDash then Iso(g.2, g.0, g.1)
    else Iso(g.2, g.1, g.0)
  }

  function TryCustomParseByLabel(s: string): Option<string> {
    match FirstMatch(s, 0)
    case None => None
    case Some(k) => Some(BuildByLabel(Patterns[k].format, Groups(s, Patterns[k])))
  }

  /**
   * Testing the label properly would change nothing: the day-first branch
   * is unreachable either way, so a day-first string is always read month first.
   */
  lemma LabelTestMakesNoDifference(s: string)
    ensures TryCustomParseByLabel(s) == TryCustomParse(s)
  {
    DayFirstNeverChosen(s);
  }

  // ---------------------------------------------------------------------------
  // parseDate
  // ---------------------------------------------------------------------------

  /**
   * `parseDate(dateString)`: the engine's own parse, else the custom
   * patterns; None (`null`) for an empty string or an Invalid Date.
   */
  function ParseDate(s: string, dates: DateParser): (r: Option<int>)
    ensures s == "" ==> r.None?
    ensures s != "" && dates(s).Some? ==> r == dates(s)
    ensures r.Some? ==> dates(s) == r || TryCustomParse(s).Some?
  {
    if s == "" then None
    else if dates(s).Some? then dates(s)
    else
      match TryCustomParse(s)
      case None => None
      case Some(iso) => dates(iso)
  }

  /**
   * A string the engine cannot read but one of the patterns matches is read
   * as midnight UTC of the date the pattern gives: year-month-day as written,
   * the other shapes month first.
   */
  lemma ParseDateFallback(s: string, dates: DateParser)
    requires s != "" && dates(s).None?
    ensures Matches(s, Patterns[0]) ==> ParseDate(s, dates) == dates(Iso(s[..4], s[5..7], s[8..]))
    ensures !Matches(s, Patterns[0]) && (Matches(s, Patterns[1]) || Matches(s, Patterns[2])) ==>
      ParseDate(s, dates) == dates(Iso(s[6..], s[..2], s[3..5]))
    ensures (forall j :: 0 <= j < |Patterns| ==> !Matches(s, Patterns[j])) ==> ParseDate(s, dates).None?
  {
    TryCustomParseResults(s);
  }

  // ---------------------------------------------------------------------------
  // Decimal numerals
  // ---------------------------------------------------------------------------

  function DigitChar(d: nat): char
    requires d < 10
  {
    ('0' as int + d) as char
  }

  /** `String(n)` for a whole number: its decimal numeral. */
  function NatToString(n: nat): (r: string)
    ensures r != [] && AllDigits(r)
  {
    if n < 10 then [DigitChar(n)] else NatToString(n / 10) + [DigitChar(n % 10)]
  }

  function IntToString(n: int): (r: string)
    ensures r != []
    ensures n < 0 ==> r[0] == '-'
  {
    if n < 0 then "-" + NatToString(-n) else NatToString(n)
  }

  /** The value of a string of decimal digits. */
  function DecimalValue(u: string): nat
    requires AllDigits(u)
  {
    if u == [] then 0
    else DecimalValue(u[..|u| - 1]) * 10 + (u[|u| - 1] as int - '0' as int)
  }

  /** The numeral reads back as the number. */
  lemma {:induction false} NatToStringValue(n: nat)
    ensures DecimalValue(NatToString(n)) == n
  {
    if n >= 10 {
      NatToStringValue(n / 10);
      var r := NatToString(n);
      assert r[..|r| - 1] == NatToString(n / 10);
    }
  }

  // ---------------------------------------------------------------------------
  // formatDate
  // ---------------------------------------------------------------------------

  /**
   * `formatDate(dateString, locale)` at clock `now`. `toLocale(t, locale)`
   * is `toLocaleDateString` with the date-and-time options.
   */
  function FormatDate(s: string, locale: string, now: int, dates: DateParser, toLocale: (int, string) -> string): (r: string)
    ensures var p := ParseDate(s, dates);
      (p.None? ==> r == "Date not available")
      && (p.Some? && 0 <= now - p.value < DayMs ==> r == "Today")
      && (p.Some? && DayMs <= now - p.value < 2 * DayMs ==> r == "Yesterday")
      && (p.Some? && 2 * DayMs <= now - p.value < 8 * DayMs ==>
            r == NatToString((now - p.value) / DayMs) + " days ago"
            && 2 <= DecimalValue(NatToString((now - p.value) / DayMs)) <= 7)
      && (p.Some? && now - p.value < 0 ==> |r| > 9 && r[0] == '-' && r[|r| - 9..] == " days ago")
      && (p.Some? && now - p.value < 0 ==> r == IntToString((now - p.value) / DayMs) + " days ago")
      && (p.Some? && now - p.value >= 8 * DayMs ==> r == toLocale(p.value, locale))
  {
    match ParseDate(s, dates)
    case None => "Date not available"
    case Some(t) =>
      var diffDays := (now - t) / DayMs;
      DayCount(now - t);
      DayLabelValue(now - t);
      if diffDays == 0 then "Today"
      else if diffDays == 1 then "Yesterday"
      else if diffDays <= 7 then IntToString(diffDays) + " days ago"
      else toLocale(t, locale)
  }

  /** The number written in an "N days ago" label is the whole days elapsed, 2..7. */
  lemma DayLabelValue(d: int)
    ensures 2 * DayMs <= d < 8 * DayMs ==> 2 <= DecimalValue(NatToString(d / DayMs)) <= 7
  {
    if 2 * DayMs <= d < 8 * DayMs {
      DayCount(d);
      NatToStringValue(d / DayMs);
    }
  }

  /** Whole days elapsed, rounded down, by ranges of milliseconds. */
  lemma DayCount(d: int)
    ensures 0 <= d < DayMs ==> d / DayMs == 0
    ensures DayMs <= d < 2 * DayMs ==> d / DayMs == 1
    ensures 2 * DayMs <= d < 8 * DayMs ==> 2 <= d / DayMs <= 7
    ensures d < 0 ==> d / DayMs < 0
    ensures d >= 8 * DayMs ==> d / DayMs >= 8
  {
    var q := d / DayMs;
    assert q * DayMs <= d < q * DayMs + DayMs;
  }

  // ---------------------------------------------------------------------------
  // isRecentDate
  // ---------------------------------------------------------------------------

  /** `isRecentDate(dateString, daysThreshold)` at clock `now`: at most that many days old, counted as a fraction. */
  function IsRecentDate(s: string, daysThreshold: int, now: int, dates: DateParser): (r: bool)
    ensures r <==> ParseDate(s, dates).Some? && now - ParseDate(s, dates).value <= daysThreshold * DayMs
  {
    match ParseDate(s, dates)
    case None => false
    case Some(t) =>
      WithinDays(now - t, daysThreshold);
      (now - t) as real / DayMs as real <= daysThreshold as real
  }

  /** An age in days, counted as a fraction, is within the threshold exactly when its milliseconds are. */
  lemma WithinDays(elapsed: int, daysThreshold: int)
    ensures (elapsed as real / DayMs as real <= daysThreshold as real) <==> elapsed <= daysThreshold * DayMs
  {
    var x := elapsed as real;
    var d := DayMs as real;
    var th := daysThreshold as real;
    assert d > 0.0;
    assert x / d * d == x;
    if x / d <= th {
      assert x <= th * d by { RealScale(x / d, th, d); }
    } else {
      assert x > th * d by { RealScale(th, x / d, d); }
    }
  }

  lemma RealScale(a: real, b: real, d: real)
    requires d > 0.0 && a <= b
    ensures a * d <= b * d
  {
  }

  // ---------------------------------------------------------------------------
  // getRelativeTime
  // ---------------------------------------------------------------------------

  /** The units handed to `Intl.RelativeTimeFormat.format`. */
  datatype Unit = Seconds | Minutes | Hours | Days

  /** Seconds, then minutes, then hours, then days: each count is the elapsed milliseconds over the unit, rounded down. */
  lemma NestedFloors(diff: int)
    ensures diff / 1000 / 60 == diff / 60000
    ensures diff / 1000 / 60 / 60 == diff / 3600000
    ensures diff / 1000 / 60 / 60 / 24 == diff / DayMs
  {
    var s := diff / 1000;
    assert s / 60 == diff / 60000;
    var m := diff / 60000;
    assert m / 60 == diff / 3600000;
    var h := diff / 3600000;
    assert h / 24 == diff / 86400000;
  }

  /**
   * `getRelativeTime(dateString, locale)` at clock `now`: `rtf(n, unit)` is
   * `Intl.RelativeTimeFormat(locale, {numeric: "auto"}).format`, `toLocale`
   * is `toLocaleDateString` with the date-only options.
   */
  function GetRelativeTime(s: string, locale: string, now: int, dates: DateParser,
                           rtf: (int, Unit) -> string, toLocale: (int, string) -> string): (r: string)
    ensures var p := ParseDate(s, dates);
      (p.None? ==> r == "Unknown time")
      && (p.Some? && now - p.value < 60000 ==> r == rtf(-((now - p.value) / 1000), Seconds))
      && (p.Some? && 60000 <= now - p.value < 3600000 ==> r == rtf(-((now - p.value) / 60000), Minutes))
      && (p.Some? && 3600000 <= now - p.value < DayMs ==> r == rtf(-((now - p.value) / 3600000), Hours))
      && (p.Some? && DayMs <= now - p.value < 7 * DayMs ==> r == rtf(-((now - p.value) / DayMs), Days))
      && (p.Some? && now - p.value >= 7 * DayMs ==> r == toLocale(p.value, locale))
  {
    match ParseDate(s, dates)
    case None => "Unknown time"
    case Some(t) =>
      var diff := now - t;
      NestedFloors(diff);
      UnitThresholds(diff);
      var seconds := diff / 1000;
      var minutes := seconds / 60;
      var hours := minutes / 60;
      var days := hours / 24;
      if seconds < 60 then rtf(-seconds, Seconds)
      else if minutes < 60 then rtf(-minutes, Minutes)
      else if hours < 24 then rtf(-hours, Hours)
      else if days < 7 then rtf(-days, Days)
      else toLocale(t, locale)
  }

  /** Each unit's count stays below its limit exactly when the elapsed milliseconds do. */
  lemma UnitThresholds(diff: int)
    ensures diff / 1000 < 60 <==> diff < 60000
    ensures diff / 60000 < 60 <==> diff < 3600000
    ensures diff / 3600000 < 24 <==> diff < DayMs
    ensures diff / DayMs < 7 <==> diff < 7 * DayMs
  {
  }
}
