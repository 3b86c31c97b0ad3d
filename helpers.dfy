/** helpers.py: reading the `[ YYYY.MM.DD HH:MM:SS ]` timestamp at the head of
    a chat line as seconds since the Unix epoch (`extract_eve_timestamp`), and
    the Discord webhook call (`send_to_discord`). */
module Helpers {
  import opened Text

  // ---------------------------------------------------------------------------
  // `re.search(r'\[\s*(\d{4}\.\d{2}\.\d{2} \d{2}:\d{2}:\d{2})\s*\]', line)`
  // ---------------------------------------------------------------------------

  /** The width of the captured `YYYY.MM.DD HH:MM:SS`. */
  const StampWidth: nat := 19

  /** The shape of the captured group: digits, with '.', ' ' and ':' at the
      separator positions. */
  predicate StampShape(g: string) {
    |g| == StampWidth &&
    forall j :: 0 <= j < StampWidth ==>
      if j == 4 || j == 7 then g[j] == '.'
      else if j == 10 then g[j] == ' '
      else if j == 13 || j == 16 then g[j] == ':'
      else IsDigit(g[j])
  }

  /** The pattern, read literally, matches `s[i..e + 1]` with the group `s[a..b]`:
      '[' at i, whitespace up to a, the group, whitespace from b up to e, ']' at e. */
  ghost predicate StampSpan(s: string, i: nat, a: nat, b: nat, e: nat) {
    i < a <= b <= e < |s| && s[i] == '[' && AllIn(s, i + 1, a, IsSpace)
    && StampShape(s[a..b]) && AllIn(s, b, e, IsSpace) && s[e] == ']'
  }

  /** The pattern at start position i, giving the group it captures. */
  function StampAt(s: string, i: nat): (r: Option<string>)
    ensures r.Some? ==> i < |s| && s[i] == '[' && StampShape(r.value)
  {
    if i < |s| && s[i] == '[' then
      var a := SkipWhile(s, i + 1, IsSpace);
      if a + StampWidth <= |s| && StampShape(s[a..a + StampWidth]) then
        var e := SkipWhile(s, a + StampWidth, IsSpace);
        if e < |s| && s[e] == ']' then Some(s[a..a + StampWidth]) else None
      else None
    else None
  }

  /** The scan agrees with the pattern, and the group at a start position is
      unique: both runs of `\s*` are bounded by non-space characters. */
  lemma StampAtMeans(s: string, i: nat)
    ensures StampAt(s, i).Some? ==> exists a: nat, b: nat, e: nat :: StampSpan(s, i, a, b, e) && StampAt(s, i).value == s[a..b]
    ensures forall a: nat, b: nat, e: nat :: StampSpan(s, i, a, b, e) ==> StampAt(s, i) == Some(s[a..b])
  {
    if StampAt(s, i).Some? {
      var a := SkipWhile(s, i + 1, IsSpace);
      var e := SkipWhile(s, a + StampWidth, IsSpace);
      assert StampSpan(s, i, a, a + StampWidth, e);
    }
    forall a: nat, b: nat, e: nat | StampSpan(s, i, a, b, e) ensures StampAt(s, i) == Some(s[a..b]) {
      StampSpanIsGreedy(s, i, a, b, e);
    }
  }

  lemma StampSpanIsGreedy(s: string, i: nat, a: nat, b: nat, e: nat)
    requires StampSpan(s, i, a, b, e)
    ensures a == SkipWhile(s, i + 1, IsSpace) && b == a + StampWidth && e == SkipWhile(s, b, IsSpace)
  {
    RunWithin(s, i + 1, a, IsSpace);
    assert s[a] == s[a..b][0];
    RunWithin(s, b, e, IsSpace);
  }

  // ---------------------------------------------------------------------------
  // `datetime.datetime.strptime(group, '%Y.%m.%d %H:%M:%S')`
  // ---------------------------------------------------------------------------

  datatype DateTime = DateTime(year: int, month: int, day: int, hour: int, minute: int, second: int)

  predicate IsLeap(year: int) {
    year % 4 == 0 && (year % 100 != 0 || year % 400 == 0)
  }

  function DaysInMonth(year: int, month: int): nat
    requires 1 <= month <= 12
  {
    if month == 2 then (if IsLeap(year) then 29 else 28)
    else if month == 4 || month == 6 || month == 9 || month == 11 then 30
    else 31
  }

  /** What the `datetime` constructor accepts; anything else raises `ValueError`,
      including the seconds 60 and 61 that `%S` reads. */
  predicate ValidDateTime(dt: DateTime) {
    1 <= dt.year <= 9999 && 1 <= dt.month <= 12 && 1 <= dt.day <= DaysInMonth(dt.year, dt.month)
    && 0 <= dt.hour <= 23 && 0 <= dt.minute <= 59 && 0 <= dt.second <= 59
  }

  /** The fields of a captured group, read as decimal numbers. */
  function Fields(g: string): DateTime
    requires StampShape(g)
  {
    DateTime(DigitsValue(g[0..4]), DigitsValue(g[5..7]), DigitsValue(g[8..10]),
             DigitsValue(g[11..13]), DigitsValue(g[14..16]), DigitsValue(g[17..19]))
  }

  /** `strptime` on a group of the right shape: the date and time it denotes, or
      `None` for the `ValueError` it raises when they do not exist. */
  function ParseStamp(g: string): (r: Option<DateTime>)
    requires StampShape(g)
    ensures r.Some? <==> ValidDateTime(Fields(g))
    ensures r.Some? ==> r.value == Fields(g)
  {
    if ValidDateTime(Fields(g)) then Some(Fields(g)) else None
  }

  // ---------------------------------------------------------------------------
  // `int(dt.timestamp())`
  // ---------------------------------------------------------------------------

  /** Days in the years before `year` (proleptic Gregorian calendar). */
  function DaysBeforeYear(year: int): int {
    var y := year - 1;
    365 * y + y / 4 - y / 100 + y / 400
  }

  function DaysBeforeMonth(year: int, month: int): nat
    requires 1 <= month <= 12
  {
    if month == 1 then 0 else DaysBeforeMonth(year, month - 1) + DaysInMonth(year, month - 1)
  }

  /** Day 1 is 0001-01-01, as `date.toordinal()` counts. */
  function Ordinal(year: int, month: int, day: int): int
    requires 1 <= month <= 12
  {
    DaysBeforeYear(year) + DaysBeforeMonth(year, month) + day
  }

  /** The ordinal of 1970-01-01. */
  const EpochOrdinal: int := 719163

  /** Seconds since the epoch of a wall-clock time read in a zone `utcOffset`
      seconds east of UTC (`timestamp()` on a naive datetime uses the local
      zone; its offset for that date is a parameter here). The value is a whole
      number of seconds, so `int()` does not change it. */
  function Timestamp(dt: DateTime, utcOffset: int): (r: int)
    requires 1 <= dt.month <= 12
    ensures ValidDateTime(dt) ==>
              var midnight := (Ordinal(dt.year, dt.month, dt.day) - EpochOrdinal) * 86400 - utcOffset;
              midnight <= r < midnight + 86400
  {
    (Ordinal(dt.year, dt.month, dt.day) - EpochOrdinal) * 86400
    + dt.hour * 3600 + dt.minute * 60 + dt.second - utcOffset
  }

  /** `extract_eve_timestamp(line)`: the first bracketed timestamp in the line as
      seconds since the epoch; `None` when there is none, or when the first one
      names a date or time that does not exist. */
  function ExtractEveTimestamp(line: string, utcOffset: int): (r: Option<int>)
    ensures r.Some? ==> exists i: nat, a: nat, b: nat, e: nat ::
                          StampSpan(line, i, a, b, e) && (forall j :: 0 <= j < i ==> StampAt(line, j).None?)
                          && ValidDateTime(Fields(line[a..b])) && r.value == Timestamp(Fields(line[a..b]), utcOffset)
  {
    match Search(line, StampAt)
    case None => None
    case Some((i, g)) =>
      StampAtMeans(line, i);
      match ParseStamp(g)
      case None => None
      case Some(dt) => Some(Timestamp(dt, utcOffset))
  }

  /** No bracketed timestamp anywhere: no result. */
  lemma NoStampNoTimestamp(line: string, utcOffset: int)
    requires forall i: nat, a: nat, b: nat, e: nat :: !StampSpan(line, i, a, b, e)
    ensures ExtractEveTimestamp(line, utcOffset).None?
  {
    match Search(line, StampAt)
    case None =>
    case Some((i, g)) =>
      StampAtMeans(line, i);
  }

  // ---------------------------------------------------------------------------
  // Round trip: the timestamp EVE writes is read back as the time it denotes.
  // ---------------------------------------------------------------------------

  function Digit(n: nat): char
    requires n < 10
  {
    ('0' as int + n) as char
  }

  /** `n` zero-padded to `width` digits. */
  function Pad(n: nat, width: nat): (r: string)
    requires n < Pow10(width)
    ensures |r| == width && forall j :: 0 <= j < width ==> IsDigit(r[j])
    ensures DigitsValue(r) == n
  {
    if width == 0 then []
    else
      var r := Pad(n / 10, width - 1) + [Digit(n % 10)];
      assert r[..|r| - 1] == Pad(n / 10, width - 1);
      r
  }

  function Pow10(k: nat): nat {
    if k == 0 then 1 else 10 * Pow10(k - 1)
  }

  /** How EVE writes a time: `YYYY.MM.DD HH:MM:SS`. */
  function Format(dt: DateTime): (g: string)
    requires ValidDateTime(dt)
    ensures StampShape(g) && Fields(g) == dt
  {
    var g := Pad(dt.year, 4) + "." + Pad(dt.month, 2) + "." + Pad(dt.day, 2) + " "
             + Pad(dt.hour, 2) + ":" + Pad(dt.minute, 2) + ":" + Pad(dt.second, 2);
    Layout(Pad(dt.year, 4), Pad(dt.month, 2), Pad(dt.day, 2), Pad(dt.hour, 2), Pad(dt.minute, 2), Pad(dt.second, 2));
    g
  }

  predicate AllDigits(t: string) {
    forall j :: 0 <= j < |t| ==> IsDigit(t[j])
  }

  /** Six digit fields joined with the separators have the shape of a group,
      and each field sits at its place. */
  lemma Layout(y: string, mo: string, d: string, h: string, mi: string, se: string)
    requires |y| == 4 && |mo| == 2 && |d| == 2 && |h| == 2 && |mi| == 2 && |se| == 2
    requires AllDigits(y) && AllDigits(mo) && AllDigits(d) && AllDigits(h) && AllDigits(mi) && AllDigits(se)
    ensures var g := y + "." + mo + "." + d + " " + h + ":" + mi + ":" + se;
      StampShape(g) && g[0..4] == y && g[5..7] == mo && g[8..10] == d
      && g[11..13] == h && g[14..16] == mi && g[17..19] == se
  {
    var g := y + "." + mo + "." + d + " " + h + ":" + mi + ":" + se;
    assert g[0..4] == y && g[5..7] == mo && g[8..10] == d;
    assert g[11..13] == h && g[14..16] == mi && g[17..19] == se;
    forall j | 0 <= j < StampWidth
      ensures if j == 4 || j == 7 then g[j] == '.'
              else if j == 10 then g[j] == ' '
              else if j == 13 || j == 16 then g[j] == ':'
              else IsDigit(g[j])
    {
      if j < 4 { assert g[j] == y[j]; }
      else if 4 < j < 7 { assert g[j] == mo[j - 5]; }
      else if 7 < j < 10 { assert g[j] == d[j - 8]; }
      else if 10 < j < 13 { assert g[j] == h[j - 11]; }
      else if 13 < j < 16 { assert g[j] == mi[j - 14]; }
      else if 16 < j { assert g[j] == se[j - 17]; }
    }
  }

  /** At the '[' of `[ YYYY.MM.DD HH:MM:SS ]` the pattern captures the time. */
  lemma StampAtFormatted(line: string, i: nat, g: string)
    requires StampShape(g) && i + 4 + StampWidth <= |line|
    requires line[i..i + 4 + StampWidth] == "[ " + g + " ]"
    ensures StampAt(line, i) == Some(g)
  {
    var w := line[i..i + 4 + StampWidth];
    assert line[i] == w[0] == '[' && line[i + 1] == w[1] == ' ';
    assert line[i + 2] == w[2] == g[0];
    assert SkipWhile(line, i + 1, IsSpace) == i + 2;
    forall j | 0 <= j < StampWidth ensures line[i + 2 + j] == g[j] {
      assert line[i + 2 + j] == w[2 + j];
    }
    assert line[i + 2..i + 2 + StampWidth] == g;
    assert line[i + 2 + StampWidth] == w[2 + StampWidth] == ' ';
    assert line[i + 3 + StampWidth] == w[3 + StampWidth] == ']';
    assert SkipWhile(line, i + 2 + StampWidth, IsSpace) == i + 3 + StampWidth;
  }

  /** With no '[' before it, the first pattern match starts at the first '['. */
  lemma SearchFindsFirstBracket(line: string, i: nat, g: string)
    requires StampAt(line, i) == Some(g)
    requires forall j :: 0 <= j < i ==> line[j] != '['
    ensures Search(line, StampAt) == Some((i, g))
  {
  }

  /** The converse of the contract of ExtractEveTimestamp, for any layout `\s*`
      accepts: when the leftmost match of the pattern starts at i, the result is
      the time its group names, or `None` when that time does not exist. */
  lemma ExtractAtFirstStamp(line: string, utcOffset: int, i: nat, a: nat, b: nat, e: nat)
    requires StampSpan(line, i, a, b, e) && forall j :: 0 <= j < i ==> StampAt(line, j).None?
    ensures ExtractEveTimestamp(line, utcOffset)
            == if ValidDateTime(Fields(line[a..b])) then Some(Timestamp(Fields(line[a..b]), utcOffset)) else None
  {
    var g := line[a..b];
    StampAtMeans(line, i);
    assert StampAt(line, i) == Some(g);
    var r := Search(line, StampAt);
    assert r.Some? && r.value.0 <= i;
    assert r.value == (i, g);
  }

  /** A line whose first '[' opens a well-formed timestamp yields that time,
      whatever precedes the '[' or follows the ']'. */
  lemma RoundTrip(prefix: string, dt: DateTime, suffix: string, utcOffset: int)
    requires ValidDateTime(dt) && '[' !in prefix
    ensures ExtractEveTimestamp(prefix + "[ " + Format(dt) + " ]" + suffix, utcOffset) == Some(Timestamp(dt, utcOffset))
  {
    var g := Format(dt);
    var line := prefix + "[ " + g + " ]" + suffix;
    var i := |prefix|;
    assert line[i..i + 4 + StampWidth] == "[ " + g + " ]";
    StampAtFormatted(line, i, g);
    assert forall j :: 0 <= j < i ==> line[j] == prefix[j];
    SearchFindsFirstBracket(line, i, g);
  }

  /** Only the first bracketed timestamp is looked at: when it names a time that
      does not exist, the result is `None` even if a valid one follows. */
  lemma InvalidFirstStamp(prefix: string, g: string, suffix: string, utcOffset: int)
    requires StampShape(g) && !ValidDateTime(Fields(g)) && '[' !in prefix
    ensures ExtractEveTimestamp(prefix + "[ " + g + " ]" + suffix, utcOffset).None?
  {
    var line := prefix + "[ " + g + " ]" + suffix;
    var i := |prefix|;
    assert line[i..i + 4 + StampWidth] == "[ " + g + " ]";
    StampAtFormatted(line, i, g);
    assert forall j :: 0 <= j < i ==> line[j] == prefix[j];
    SearchFindsFirstBracket(line, i, g);
  }

  /** The other direction of the round trip: a well-formed group that names an
      existing time is exactly how that time is written. */
  lemma FormatOfFields(g: string)
    requires StampShape(g) && ValidDateTime(Fields(g))
    ensures Format(Fields(g)) == g
  {
    var h := Format(Fields(g));
    FieldDigits(g);
    FieldDigits(h);
    DigitsInjective(g[0..4], h[0..4]);
    DigitsInjective(g[5..7], h[5..7]);
    DigitsInjective(g[8..10], h[8..10]);
    DigitsInjective(g[11..13], h[11..13]);
    DigitsInjective(g[14..16], h[14..16]);
    DigitsInjective(g[17..19], h[17..19]);
    SameFieldsSameGroup(g, h);
  }

  /** The six fields of a group are runs of digits. */
  lemma FieldDigits(g: string)
    requires StampShape(g)
    ensures AllDigits(g[0..4]) && AllDigits(g[5..7]) && AllDigits(g[8..10])
    ensures AllDigits(g[11..13]) && AllDigits(g[14..16]) && AllDigits(g[17..19])
  {
    assert forall j :: 0 <= j < 4 ==> g[0..4][j] == g[j];
    assert forall j :: 0 <= j < 2 ==> g[5..7][j] == g[5 + j] && g[8..10][j] == g[8 + j];
    assert forall j :: 0 <= j < 2 ==> g[11..13][j] == g[11 + j] && g[14..16][j] == g[14 + j] && g[17..19][j] == g[17 + j];
  }

  /** Two groups with the same six fields are the same text: the separators
      are fixed by the shape. */
  lemma SameFieldsSameGroup(g: string, h: string)
    requires StampShape(g) && StampShape(h)
    requires g[0..4] == h[0..4] && g[5..7] == h[5..7] && g[8..10] == h[8..10]
    requires g[11..13] == h[11..13] && g[14..16] == h[14..16] && g[17..19] == h[17..19]
    ensures g == h
  {
    forall j | 0 <= j < StampWidth ensures g[j] == h[j] {
      if j < 4 { assert g[j] == g[0..4][j] && h[j] == h[0..4][j]; }
      else if 5 <= j < 7 { assert g[j] == g[5..7][j - 5] && h[j] == h[5..7][j - 5]; }
      else if 8 <= j < 10 { assert g[j] == g[8..10][j - 8] && h[j] == h[8..10][j - 8]; }
      else if 11 <= j < 13 { assert g[j] == g[11..13][j - 11] && h[j] == h[11..13][j - 11]; }
      else if 14 <= j < 16 { assert g[j] == g[14..16][j - 14] && h[j] == h[14..16][j - 14]; }
      else if 17 <= j < 19 { assert g[j] == g[17..19][j - 17] && h[j] == h[17..19][j - 17]; }
    }
  }

  /** Equal values of equally long digit strings: the strings are equal. */
  lemma {:induction false} DigitsInjective(t: string, u: string)
    requires |t| == |u| && AllDigits(t) && AllDigits(u)
    requires DigitsValue(t) == DigitsValue(u)
    ensures t == u
    decreases |t|
  {
    if t != [] {
      var n := |t| - 1;
      assert DigitValue(t[n]) == DigitValue(u[n]);
      DigitsInjective(t[..n], u[..n]);
      assert t == t[..n] + [t[n]] && u == u[..n] + [u[n]];
    }
  }

  // ---------------------------------------------------------------------------
  // The conversion keeps the order of times, so distinct times differ.
  // ---------------------------------------------------------------------------

  /** Lexicographic order on (year, month, day, hour, minute, second). */
  predicate Before(x: DateTime, y: DateTime) {
    if x.year != y.year then x.year < y.year
    else if x.month != y.month then x.month < y.month
    else if x.day != y.day then x.day < y.day
    else if x.hour != y.hour then x.hour < y.hour
    else if x.minute != y.minute then x.minute < y.minute
    else x.second < y.second
  }

  function DaysInYear(year: int): int {
    if IsLeap(year) then 366 else 365
  }

  lemma Div4Step(year: int)
    ensures year / 4 == (year - 1) / 4 + (if year % 4 == 0 then 1 else 0)
  {
  }

  lemma Div100Step(year: int)
    ensures year / 100 == (year - 1) / 100 + (if year % 100 == 0 then 1 else 0)
  {
  }

  lemma Div400Step(year: int)
    ensures year / 400 == (year - 1) / 400 + (if year % 400 == 0 then 1 else 0)
  {
  }

  /** Every fourth century is a century, and every century a fourth year. */
  lemma CenturiesNest(year: int)
    ensures year % 400 == 0 ==> year % 100 == 0
    ensures year % 100 == 0 ==> year % 4 == 0
  {
    if year % 400 == 0 {
      var q := year / 400;
      assert year == 100 * (4 * q);
      assert year / 100 == 4 * q;
    }
    if year % 100 == 0 {
      var q := year / 100;
      assert year == 4 * (25 * q);
      assert year / 4 == 25 * q;
    }
  }

  lemma DaysBeforeNextYear(year: int)
    ensures DaysBeforeYear(year + 1) == DaysBeforeYear(year) + DaysInYear(year)
  {
    Div4Step(year);
    Div100Step(year);
    Div400Step(year);
    CenturiesNest(year);
    var a, b, c := year % 4 == 0, year % 100 == 0, year % 400 == 0;
    assert DaysInYear(year) == 365 + (if a then 1 else 0) - (if b then 1 else 0) + (if c then 1 else 0);
  }

  lemma {:induction false} DaysBeforeYearGrows(y1: int, y2: int)
    requires y1 < y2
    ensures DaysBeforeYear(y1) + DaysInYear(y1) <= DaysBeforeYear(y2)
    decreases y2 - y1
  {
    DaysBeforeNextYear(y1);
    if y1 + 1 < y2 {
      DaysBeforeYearGrows(y1 + 1, y2);
    }
  }

  lemma {:induction false} DaysBeforeMonthGrows(year: int, m1: int, m2: int)
    requires 1 <= m1 < m2 <= 12
    ensures DaysBeforeMonth(year, m1) + DaysInMonth(year, m1) <= DaysBeforeMonth(year, m2)
    decreases m2 - m1
  {
    if m1 + 1 < m2 {
      DaysBeforeMonthGrows(year, m1 + 1, m2);
    }
  }

  lemma DaysBeforeMonthWithinYear(year: int, month: int)
    requires 1 <= month <= 12
    ensures DaysBeforeMonth(year, month) + DaysInMonth(year, month) <= DaysInYear(year)
  {
    if month < 12 {
      DaysBeforeMonthGrows(year, month, 12);
    }
  }

  /** Of two valid dates, the earlier one has the smaller ordinal. */
  lemma OrdinalIncreasing(x: DateTime, y: DateTime)
    requires ValidDateTime(x) && ValidDateTime(y)
    requires x.year < y.year || (x.year == y.year && (x.month < y.month || (x.month == y.month && x.day < y.day)))
    ensures Ordinal(x.year, x.month, x.day) < Ordinal(y.year, y.month, y.day)
  {
    if x.year < y.year {
      DaysBeforeMonthWithinYear(x.year, x.month);
      DaysBeforeYearGrows(x.year, y.year);
    } else if x.month < y.month {
      DaysBeforeMonthGrows(x.year, x.month, y.month);
    }
  }

  /** `extract_eve_timestamp` keeps the order of the times it reads: a strictly
      earlier valid time gives a strictly smaller number of seconds. */
  lemma TimestampIncreasing(x: DateTime, y: DateTime, utcOffset: int)
    requires ValidDateTime(x) && ValidDateTime(y) && Before(x, y)
    ensures Timestamp(x, utcOffset) < Timestamp(y, utcOffset)
  {
    if x.year != y.year || x.month != y.month || x.day != y.day {
      OrdinalIncreasing(x, y);
    }
  }

  // ---------------------------------------------------------------------------
  // `send_to_discord(message, WEBHOOK_URL)`
  // ---------------------------------------------------------------------------

  const WebhookName: string := "Fleet Chat Relay"
  const WebhookAvatar: string := "https://i.imgur.com/a5sNnRi.gif"

  /** The JSON body posted to the webhook. */
  datatype Payload = Payload(username: string, avatarUrl: string, content: string)

  /** What the POST gives back: a status code, or an exception from `requests`. */
  datatype Response = Status(code: int) | Raised

  /** What `send_to_discord` does with the response: nothing, log the status
      code as an error, or let the exception escape to its caller. */
  datatype Outcome = Accepted | Logged(code: int) | Propagated

  /** The body is built from the configured name and avatar and the message. */
  function BuildPayload(message: string): (p: Payload)
    ensures p.content == message && p.username == WebhookName && p.avatarUrl == WebhookAvatar
  {
    Payload(WebhookName, WebhookAvatar, message)
  }

  /** Only 200 and 204 count as delivered. */
  function SendOutcome(response: Response): (o: Outcome)
    ensures response.Raised? <==> o.Propagated?
    ensures o.Accepted? <==> response.Status? && (response.code == 200 || response.code == 204)
    ensures o.Logged? ==> response.Status? && o.code == response.code
  {
    match response
    case Raised => Propagated
    case Status(code) => if code in {200, 204} then Accepted else Logged(code)
  }

  /** `send_to_discord`: post the payload (the endpoint's answer is a parameter)
      and report what happened. */
  method SendToDiscord(message: string, webhookUrl: string, response: Response) returns (posted: Payload, o: Outcome)
    ensures posted == BuildPayload(message)
    ensures o == SendOutcome(response)
  {
    posted := BuildPayload(message);
    o := SendOutcome(response);
  }
}


/** Worked cases of the calendar rules `extract_eve_timestamp` inherits from `datetime`. */
module HelpersExamples {
  import opened Helpers

  /** 1970-01-01 00:00:00 UTC is second 0, 2024-01-01 00:00:00 UTC is second
      1704067200, and a zone one hour east of UTC reads the same wall-clock
      time an hour earlier. */
  lemma EpochAnchors()
    ensures Timestamp(DateTime(1970, 1, 1, 0, 0, 0), 0) == 0
    ensures Timestamp(DateTime(2024, 1, 1, 0, 0, 0), 0) == 1704067200
    ensures Timestamp(DateTime(2024, 1, 1, 0, 0, 0), 3600) == 1704067200 - 3600
  {
  }

  /** Leap days exist in 2000 and 2024, not in 1900 or 2023; month 13, hour 24,
      second 60 and year 0 do not exist. */
  lemma CalendarLimits()
    ensures ValidDateTime(DateTime(2024, 2, 29, 23, 59, 59)) && ValidDateTime(DateTime(2000, 2, 29, 0, 0, 0))
    ensures !ValidDateTime(DateTime(2023, 2, 29, 0, 0, 0)) && !ValidDateTime(DateTime(1900, 2, 29, 0, 0, 0))
    ensures !ValidDateTime(DateTime(2024, 13, 1, 0, 0, 0)) && !ValidDateTime(DateTime(2024, 1, 1, 24, 0, 0))
    ensures !ValidDateTime(DateTime(2024, 1, 1, 0, 0, 60)) && !ValidDateTime(DateTime(0, 1, 1, 0, 0, 0))
  {
  }
}
