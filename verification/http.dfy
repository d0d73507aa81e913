/**
 * The pure and buffer-handling parts of the weather client
 * (`net/http_manager.c`, in the `app7` and `component` variants): the URL
 * assembly, the curl write callback that accumulates a response, and the
 * extraction of date, time and weekday from a result's `last_update`.
 *
 * The JSON tree is not modelled: a string item is the bytes of its
 * `valuestring`, or None when the item is missing or not a string.
 */
module Http {
  import opened Common
  import opened CText

  const DASH: bv8 := 0x2D
  const COLON: bv8 := 0x3A
  const LETTER_T: bv8 := 0x54

  // ---------------------------------------------------------------- url

  /** `assemble_url`: `malloc(strlen(host) + strlen(path) + 1)`, then
      `strcpy` of the host and `strcat` of the path. The C string handed to
      curl is the host followed by the path. */
  method AssembleUrl(host: Bytes, path: Bytes) returns (url: array<bv8>)
    requires 0 !in host && 0 !in path
    ensures fresh(url)
    ensures url.Length == |host| + |path| + 1
    ensures url[..] == host + path + [0]
    ensures CStr(url[..]) == host + path
  {
    url := new bv8[|host| + |path| + 1];
    // strcpy(url, host)
    var i := 0;
    while i < |host|
      invariant 0 <= i <= |host|
      invariant url[..i] == host[..i]
    {
      url[i] := host[i];
      i := i + 1;
    }
    url[|host|] := 0;
    // strcat(url, path): find the terminator, then copy from there
    var end := 0;
    assert forall k | 0 <= k < |host| :: url[k] == host[k] != 0;
    while url[end] != 0
      invariant 0 <= end <= |host|
      invariant url[..|host|] == host && url[|host|] == 0
      invariant forall k | 0 <= k < |host| :: url[k] != 0
      decreases |host| - end
    {
      end := end + 1;
    }
    var j := 0;
    while j < |path|
      invariant 0 <= j <= |path|
      invariant url[..end] == host
      invariant url[end..end + j] == path[..j]
    {
      url[end + j] := path[j];
      j := j + 1;
    }
    url[end + |path|] := 0;
    assert url[..] == url[..end] + url[end..end + |path|] + [url[end + |path|]];
    assert 0 !in host + path;
    TerminatedPrefix(host + path, url[..]);
  }

  // ---------------------------------------------------------------- response

  /** `http_resp_data_t`, the buffer `write_callback` grows. */
  class Response {
    /** `data`: None while it is NULL, else the whole allocation. */
    var data: Option<Bytes>
    var size: nat

    /** The allocation holds the received bytes and a NUL after them. */
    ghost predicate Valid()
      reads this
    {
      && (data.None? ==> size == 0)
      && (data.Some? ==> |data.value| == size + 1 && data.value[size] == 0)
    }

    /** The bytes received so far. */
    function Received(): (r: Bytes)
      reads this
      requires Valid()
      ensures |r| == size
    {
      if data.Some? then data.value[..size] else []
    }

    /** `http_resp_data_t response_data = {0}`. */
    constructor ()
      ensures Valid() && data.None? && Received() == []
    {
      data := None;
      size := 0;
    }

    /** `write_callback` with the `size * nmemb` bytes curl hands over;
        `grown` is whether `realloc` succeeded. */
    method WriteCallback(chunk: Bytes, grown: bool) returns (written: nat)
      requires Valid()
      modifies this
      ensures Valid()
      ensures !grown ==> written == 0 && data == old(data) && size == old(size)
      ensures grown ==> written == |chunk| && size == old(size) + |chunk|
      ensures grown ==> Received() == old(Received()) + chunk
    {
      if !grown {
        return 0;
      }
      var kept := Received();
      data := Some(kept + chunk + [0]);
      size := size + |chunk|;
      written := |chunk|;
    }
  }

  // ---------------------------------------------------------------- weekday

  /** The weekday formula of the `app7` variant: Zeller's congruence with
      0 = Saturday, shifted so that 0 = Sunday. January and February count
      as months 13 and 14 of the year before. */
  function App7Weekday(year: int, month: int, day: int): (w: int)
    ensures 0 <= w <= 6
  {
    var y := if month < 3 then year - 1 else year;
    var m := if month < 3 then month + 12 else month;
    var century := CDiv(y, 100);
    var yearOfCentury := CMod(y, 100);
    var h := CMod(day + CDiv(13 * (m + 1), 5) + yearOfCentury + CDiv(yearOfCentury, 4)
                  + CDiv(century, 4) - 2 * century, 7);
    CMod(h + 6, 7)
  }

  /** The weekday formula of the `component` variant: Zeller's congruence in
      the form with 0 = Sunday, made non-negative with `+ 7`. */
  function ComponentWeekday(year: int, month: int, day: int): (w: int)
    ensures 0 <= w <= 6
  {
    var y0 := if month < 3 then year - 1 else year;
    var m := if month < 3 then month + 12 else month;
    var c := CDiv(y0, 100);
    var y := CMod(y0, 100);
    var w0 := CMod(y + CDiv(y, 4) + CDiv(c, 4) - 2 * c + CDiv(26 * (m + 1), 10) + day - 1, 7);
    CMod(w0 + 7, 7)
  }

  /** The sum both formulas reduce modulo 7 (the `app7` form). */
  function ZellerSum(year: int, month: int, day: int): int
  {
    var y := if month < 3 then year - 1 else year;
    var m := if month < 3 then month + 12 else month;
    var century := CDiv(y, 100);
    var yearOfCentury := CMod(y, 100);
    day + CDiv(13 * (m + 1), 5) + yearOfCentury + CDiv(yearOfCentury, 4) + CDiv(century, 4) - 2 * century
  }

  /** Adding sevens does not change a remainder by 7. */
  lemma AddSevens(a: int, k: int)
    ensures (a + 7 * k) % 7 == a % 7
  {
  }

  lemma SameModSeven(a: int, b: int)
    requires (a - b) % 7 == 0
    ensures a % 7 == b % 7
  {
    AddSevens(b, (a - b) / 7);
  }

  /** A truncated remainder by 7 differs from its operand by a multiple of 7. */
  lemma CModSeven(a: int)
    ensures (a - CMod(a, 7)) % 7 == 0
  {
    if a < 0 {
      assert a - CMod(a, 7) == 7 * -((-a) / 7);
      AddSevens(0, -((-a) / 7));
    } else {
      assert a - CMod(a, 7) == 7 * (a / 7);
      AddSevens(0, a / 7);
    }
  }

  /** `26 * k / 10` and `13 * k / 5` truncate the same rational number. */
  lemma TwiceOverTen(k: int)
    ensures CDiv(26 * k, 10) == CDiv(13 * k, 5)
  {
    if k >= 0 {
      var q := (13 * k) / 5;
      var r := (13 * k) % 5;
      assert 26 * k == 10 * q + 2 * r;
    } else {
      var q := (-13 * k) / 5;
      var r := (-13 * k) % 5;
      assert -26 * k == 10 * q + 2 * r;
    }
  }

  /** `(x % 7 + s) % 7` with `s` making the sum non-negative. */
  lemma ShiftedRemainder(e: int, s: int)
    requires 6 <= s <= 7
    ensures CMod(CMod(e, 7) + s, 7) == (e + s) % 7
  {
    var h := CMod(e, 7);
    CModSeven(e);
    assert (e + s) - (h + s) == e - h;
    SameModSeven(e + s, h + s);
  }

  /** Both weekday formulas are the Euclidean `(sum + 6) % 7` of one sum. */
  lemma WeekdaysFromSum(year: int, month: int, day: int)
    ensures App7Weekday(year, month, day) == (ZellerSum(year, month, day) + 6) % 7
    ensures ComponentWeekday(year, month, day) == (ZellerSum(year, month, day) + 6) % 7
  {
    var e := ZellerSum(year, month, day);
    var m := if month < 3 then month + 12 else month;
    TwiceOverTen(m + 1);
    ShiftedRemainder(e, 6);
    ShiftedRemainder(e - 1, 7);
  }

  /** The two variants compute the same weekday for every date, valid or
      not, and whatever the sign of the intermediate sum. */
  lemma WeekdayVariantsAgree(year: int, month: int, day: int)
    ensures App7Weekday(year, month, day) == ComponentWeekday(year, month, day)
  {
    WeekdaysFromSum(year, month, day);
  }

  // ---------------------------------------------------------------- calendar

  /** Leap years of the Gregorian calendar. */
  predicate IsLeap(y: int)
  {
    y % 4 == 0 && (y % 100 != 0 || y % 400 == 0)
  }

  function DaysInYear(y: int): nat
  {
    if IsLeap(y) then 366 else 365
  }

  /** Days from 1 January of year 1 to 1 January of year `y`. */
  function DaysBeforeYear(y: int): nat
    requires y >= 1
  {
    if y == 1 then 0 else DaysBeforeYear(y - 1) + DaysInYear(y - 1)
  }

  function DaysInMonth(y: int, m: int): nat
    requires 1 <= m <= 12
  {
    if m == 2 then (if IsLeap(y) then 29 else 28)
    else if m == 4 || m == 6 || m == 9 || m == 11 then 30
    else 31
  }

  /** Days from 1 January to the first of month `m` in year `y`. */
  function DaysBeforeMonth(y: int, m: int): nat
    requires 1 <= m <= 12
  {
    if m == 1 then 0 else DaysBeforeMonth(y, m - 1) + DaysInMonth(y, m - 1)
  }

  /** The day of the week in the proleptic Gregorian calendar, 0 = Sunday,
      counted from 1 January of year 1, a Monday. */
  function DayOfWeek(y: int, m: int, d: int): (w: int)
    requires y >= 1 && 1 <= m <= 12
    ensures 0 <= w <= 6
  {
    (DaysBeforeYear(y) + DaysBeforeMonth(y, m) + d) % 7
  }

  /** The leap days before year `y + 1`, counted by the Gregorian rule. */
  function LeapDays(y: int): int
  {
    y / 4 - y / 100 + y / 400
  }

  lemma StepFour(y: int)
    ensures y / 4 - (y - 1) / 4 == (if y % 4 == 0 then 1 else 0)
  {
  }

  lemma StepHundred(y: int)
    ensures y / 100 - (y - 1) / 100 == (if y % 100 == 0 then 1 else 0)
  {
  }

  lemma StepFourHundred(y: int)
    ensures y / 400 - (y - 1) / 400 == (if y % 400 == 0 then 1 else 0)
  {
  }

  lemma Divisors(y: int)
    ensures y % 100 == 0 ==> y % 4 == 0
    ensures y % 400 == 0 ==> y % 100 == 0
  {
  }

  /** One more year adds one more leap day exactly when it is a leap year. */
  lemma LeapDaysStep(y: int)
    ensures LeapDays(y) == LeapDays(y - 1) + (if IsLeap(y) then 1 else 0)
  {
    StepFour(y);
    StepHundred(y);
    StepFourHundred(y);
    Divisors(y);
  }

  lemma {:induction false} DaysBeforeYearClosed(y: int)
    requires y >= 1
    ensures DaysBeforeYear(y) == 365 * (y - 1) + LeapDays(y - 1)
  {
    if y > 1 {
      DaysBeforeYearClosed(y - 1);
      LeapDaysStep(y - 1);
    }
  }

  /** The month offsets: days before each month, leap day excluded. */
  function MonthStart(m: int): nat
    requires 1 <= m <= 12
  {
    [0, 31, 59, 90, 120, 151, 181, 212, 243, 273, 304, 334][m - 1]
  }

  lemma DaysBeforeMonthTable(y: int, m: int)
    requires 1 <= m <= 12
    ensures DaysBeforeMonth(y, m) == MonthStart(m) + (if m >= 3 && IsLeap(y) then 1 else 0)
  {
    if m > 1 {
      DaysBeforeMonthTable(y, m - 1);
    }
  }

  lemma QuarterOfSplit(y: int)
    requires y >= 0
    ensures y / 4 == 25 * (y / 100) + (y % 100) / 4
    ensures y / 400 == (y / 100) / 4
  {
  }

  /** A year split as Zeller splits it, into century `c` and year of century
      `r`: its days beyond whole weeks come to `r + r/4 + c/4 - 2c`. */
  lemma CenturySplit(y: int)
    requires y >= 0
    ensures y + LeapDays(y)
      == y % 100 + (y % 100) / 4 + (y / 100) / 4 - 2 * (y / 100) + 7 * (18 * (y / 100))
  {
    QuarterOfSplit(y);
  }

  /** Zeller's month term matches the month offsets modulo 7. */
  lemma MonthTerm(month: int)
    requires 1 <= month <= 12
    ensures var m := if month < 3 then month + 12 else month;
      (13 * (m + 1) / 5 + (if month < 3 then 6 else 7) - MonthStart(month)) % 7 == 0
  {
  }

  /** Both weekday formulas give the Gregorian day of the week for every
      date from year 1 on. */
  lemma WeekdayIsGregorian(year: int, month: int, day: int)
    requires year >= 1 && 1 <= month <= 12
    ensures App7Weekday(year, month, day) == DayOfWeek(year, month, day)
    ensures ComponentWeekday(year, month, day) == DayOfWeek(year, month, day)
  {
    WeekdaysFromSum(year, month, day);
    var y := if month < 3 then year - 1 else year;
    var m := if month < 3 then month + 12 else month;
    var c := y / 100;
    var t := 13 * (m + 1) / 5;
    var d := t + (if month < 3 then 6 else 7) - MonthStart(month);
    MonthTerm(month);
    CenturySplit(y);
    DaysBeforeYearClosed(year);
    DaysBeforeMonthTable(year, month);
    LeapDaysStep(year);
    var e := ZellerSum(year, month, day);
    assert e == day + t + y % 100 + (y % 100) / 4 + c / 4 - 2 * c;
    var total := DaysBeforeYear(year) + DaysBeforeMonth(year, month) + day;
    assert (e + 6) - total == d + 7 * (-18 * c - 52 * (year - 1));
    AddSevens(d, -18 * c - 52 * (year - 1));
    SameModSeven(e + 6, total);
  }

  // ---------------------------------------------------------------- last_update

  /** What `parseWeatherData` keeps of `last_update` in `weather_data_t`. */
  datatype Stamp = Stamp(date: Bytes, updateTime: Bytes, weekday: int)

  /** The fields after `memset(&weather_data, 0, sizeof(weather_data))`. */
  const NO_STAMP := Stamp([], [], 0)

  /** `sizeof` of `date` and `update_time` in `weather_data_t`. */
  const DATE_SIZE: nat := 16
  const TIME_SIZE: nat := 32

  /** The three conversions of `"%d-%d-%d"` and the input after them. */
  datatype Ymd = Ymd(year: int, month: int, day: int, rest: Bytes)

  /** `sscanf(s, "%d-%d-%d", ...)` when it returns 3. */
  function ScanDate(s: Bytes): (r: Option<Ymd>)
    ensures r.Some? ==> |r.value.rest| + 5 <= |s|
  {
    match ScanInt(s)
    case None => None
    case Some(y) =>
      match ScanAfter(y.rest, DASH)
      case None => None
      case Some(m) =>
        match ScanAfter(m.rest, DASH)
        case None => None
        case Some(d) => Some(Ymd(y.value, m.value, d.value, d.rest))
  }

  datatype DateTime = DateTime(year: int, month: int, day: int, hour: int, minute: int, second: int)

  datatype Clock = Clock(hour: int, minute: int, second: int)

  /** The `"T%d:%d:%d"` part of the `component` format. */
  function ScanClock(s: Bytes): Option<Clock>
  {
    match ScanAfter(s, LETTER_T)
    case None => None
    case Some(h) =>
      match ScanAfter(h.rest, COLON)
      case None => None
      case Some(mi) =>
        match ScanAfter(mi.rest, COLON)
        case None => None
        case Some(sec) => Some(Clock(h.value, mi.value, sec.value))
  }

  /** `sscanf(s, "%d-%d-%dT%d:%d:%d", ...)` when it returns 6: the first
      three conversions are those of `"%d-%d-%d"`. */
  function ScanDateTime(s: Bytes): (r: Option<DateTime>)
    ensures r.Some? ==> ScanDate(s).Some?
    ensures r.Some? ==> var d := ScanDate(s).value;
      r.value.year == d.year && r.value.month == d.month && r.value.day == d.day
  {
    match ScanDate(s)
    case None => None
    case Some(ymd) =>
      match ScanClock(ymd.rest)
      case None => None
      case Some(c) => Some(DateTime(ymd.year, ymd.month, ymd.day, c.hour, c.minute, c.second))
  }

  /** `app7`: the eight bytes after the first 'T', or nothing without one. */
  function App7Time(lu: Bytes): (t: Bytes)
    ensures |t| <= 8
    ensures IndexFrom(lu, 0, LETTER_T).None? ==> t == []
    ensures IndexFrom(lu, 0, LETTER_T).Some? ==>
      var i := IndexFrom(lu, 0, LETTER_T).value;
      t <= lu[i + 1..] && |t| == Min(8, |lu| - i - 1)
  {
    match IndexFrom(lu, 0, LETTER_T)
    case None => []
    case Some(i) => Take(lu[i + 1..], 8)
  }

  /** The `app7` handling of `last_update`: the date is its first ten
      bytes, the time follows the 'T', and the weekday is computed only when
      `"%d-%d-%d"` converts all three numbers. */
  function App7Stamp(lastUpdate: Option<Bytes>): (st: Stamp)
    ensures lastUpdate.None? ==> st == NO_STAMP
    ensures lastUpdate.Some? ==> st.date <= lastUpdate.value && |st.date| == Min(|lastUpdate.value|, 10)
    ensures lastUpdate.Some? ==> st.updateTime == App7Time(lastUpdate.value)
    ensures lastUpdate.Some? ==>
      st.weekday == match ScanDate(lastUpdate.value)
        case None => 0
        case Some(d) => App7Weekday(d.year, d.month, d.day)
    ensures 0 <= st.weekday <= 6
  {
    match lastUpdate
    case None => NO_STAMP
    case Some(lu) =>
      var weekday := match ScanDate(lu)
        case None => 0
        case Some(d) => App7Weekday(d.year, d.month, d.day);
      Stamp(Take(lu, 10), App7Time(lu), weekday)
  }

  /** `"%04d-%02d-%02d"`. */
  function FormatDate(y: int, m: int, d: int): (r: Bytes)
    ensures 0 <= y < 10000 && 0 <= m < 100 && 0 <= d < 100 ==> |r| == 10 && r[4] == DASH && r[7] == DASH
  {
    PaddedWidthBelow(y, 4, 10000);
    PaddedWidthBelow(m, 2, 100);
    PaddedWidthBelow(d, 2, 100);
    PaddedDecimal(y, 4) + ([DASH] + (PaddedDecimal(m, 2) + ([DASH] + PaddedDecimal(d, 2))))
  }

  /** `"%02d:%02d:%02d"`. */
  function FormatTime(h: int, mi: int, s: int): (r: Bytes)
    ensures 0 <= h < 100 && 0 <= mi < 100 && 0 <= s < 100 ==> |r| == 8 && r[2] == COLON && r[5] == COLON
  {
    PaddedWidthBelow(h, 2, 100);
    PaddedWidthBelow(mi, 2, 100);
    PaddedWidthBelow(s, 2, 100);
    PaddedDecimal(h, 2) + ([COLON] + (PaddedDecimal(mi, 2) + ([COLON] + PaddedDecimal(s, 2))))
  }

  /** The `component` handling of `last_update`: the raw text, cut to the
      buffer, stands as the time until all six numbers convert; then date
      and time are reprinted from the numbers (`snprintf` cuts each to its
      buffer) and the weekday is computed. */
  function ComponentStamp(lastUpdate: Option<Bytes>): (st: Stamp)
    ensures lastUpdate.None? ==> st == NO_STAMP
    ensures |st.date| < DATE_SIZE && |st.updateTime| < TIME_SIZE
    ensures lastUpdate.Some? && ScanDateTime(lastUpdate.value).None? ==>
      && st.date == [] && st.weekday == 0
      && st.updateTime <= lastUpdate.value && |st.updateTime| == Min(|lastUpdate.value|, TIME_SIZE - 1)
    ensures lastUpdate.Some? && ScanDateTime(lastUpdate.value).Some? ==>
      var t := ScanDateTime(lastUpdate.value).value;
      && st.date == Take(FormatDate(t.year, t.month, t.day), DATE_SIZE - 1)
      && st.updateTime == Take(FormatTime(t.hour, t.minute, t.second), TIME_SIZE - 1)
      && st.weekday == ComponentWeekday(t.year, t.month, t.day)
    ensures 0 <= st.weekday <= 6
  {
    match lastUpdate
    case None => NO_STAMP
    case Some(lu) =>
      match ScanDateTime(lu)
      case None => Stamp([], Take(lu, TIME_SIZE - 1), 0)
      case Some(t) =>
        Stamp(Take(FormatDate(t.year, t.month, t.day), DATE_SIZE - 1),
              Take(FormatTime(t.hour, t.minute, t.second), TIME_SIZE - 1),
              ComponentWeekday(t.year, t.month, t.day))
  }

  /** `sizeof` of `code` in `weather_data_t`. */
  const CODE_SIZE: nat := 8

  /** `strncpy(dst, src, n)`: the first `n` bytes of `dst` take the
      string's bytes, at most `n` of them, and NULs after them. */
  method StrNCopy(dst: array<bv8>, src: Bytes, n: nat)
    requires n <= dst.Length && 0 !in src
    modifies dst
    ensures forall i | 0 <= i < n :: dst[i] == if i < |src| then src[i] else 0
    ensures dst[n..] == old(dst[n..])
  {
    var i := 0;
    while i < n && i < |src|
      invariant 0 <= i <= n && i <= |src|
      invariant forall k | 0 <= k < i :: dst[k] == src[k]
      invariant dst[n..] == old(dst[n..])
    {
      dst[i] := src[i];
      i := i + 1;
    }
    while i < n
      invariant 0 <= i <= n
      invariant forall k | 0 <= k < i :: dst[k] == if k < |src| then src[k] else 0
      invariant dst[n..] == old(dst[n..])
    {
      dst[i] := 0;
      i := i + 1;
    }
  }

  /** The `component` copy of the weather code into `char code[8]`, which
      the `memset` has zeroed: only when the item and its string are
      present, and at most seven bytes, so the buffer always holds a
      terminated string, the code cut to seven bytes. */
  method ComponentCode(item: Option<Bytes>) returns (code: array<bv8>)
    requires item.Some? ==> 0 !in item.value
    ensures fresh(code) && code.Length == CODE_SIZE && code[CODE_SIZE - 1] == 0
    ensures item.None? ==> forall i | 0 <= i < CODE_SIZE :: code[i] == 0
    ensures CStr(code[..]) == if item.Some? then Take(item.value, CODE_SIZE - 1) else []
  {
    code := new bv8[CODE_SIZE](_ => 0);
    if item.Some? {
      StrNCopy(code, item.value, CODE_SIZE - 1);
    }
    var c := if item.Some? then Take(item.value, CODE_SIZE - 1) else [];
    assert code[..|c| + 1] == c + [0] by {
      forall i | 0 <= i <= |c|
        ensures code[i] == (c + [0])[i]
      {
      }
    }
    TerminatedPrefix(c, code[..]);
  }

  // ---------------------------------------------------------------- ISO 8601 timestamps

  /** `YYYY-MM-DDThh:mm:ss`, the form the weather service sends. */
  function IsoTimestamp(t: DateTime): Bytes
  {
    FormatDate(t.year, t.month, t.day) + ([LETTER_T] + FormatTime(t.hour, t.minute, t.second))
  }

  /** A timestamp whose fields fit their printed widths. */
  predicate Canonical(t: DateTime)
  {
    && 1 <= t.year <= 9999 && 1 <= t.month <= 12 && 0 <= t.day <= 99
    && 0 <= t.hour <= 99 && 0 <= t.minute <= 99 && 0 <= t.second <= 99
  }

  /** `PaddedWidth` for the widths 2 and 4 of the date and time formats. */
  lemma PaddedWidthBelow(n: int, w: nat, bound: nat)
    requires (w == 2 && bound == 100) || (w == 4 && bound == 10000)
    ensures 0 <= n < bound ==> |PaddedDecimal(n, w)| == w
  {
    if 0 <= n < bound {
      assert Pow10(2) == 100 && Pow10(4) == 10000;
      PaddedWidth(n, w);
    }
  }

  /** `%0<w>d` of a number with at most `w` digits is exactly `w` digits. */
  lemma PaddedWidth(n: nat, w: nat)
    requires 1 <= w && n < Pow10(w)
    ensures |PaddedDecimal(n, w)| == w
    ensures forall i | 0 <= i < w :: IsDigitByte(PaddedDecimal(n, w)[i])
  {
    DecimalBound(n, w);
    DecimalBytesLength(n);
    DecimalBytesDigits(n);
    var k := PadFor(w, n);
    var z := Zeros(k);
    var d := DecimalBytes(n);
    assert PaddedDecimal(n, w) == z + d;
    forall i | 0 <= i < w
      ensures IsDigitByte((z + d)[i])
    {
      if i < k {
        assert (z + d)[i] == 0x30;
      } else {
        assert (z + d)[i] == d[i - k];
      }
    }
  }

  /** A separator and `%0<w>d`: the separator matches and the number
      reads back. */
  lemma ScanAfterPadded(c: bv8, n: int, w: nat, tail: Bytes)
    requires tail == [] || !IsDigitByte(tail[0])
    ensures ScanAfter([c] + (PaddedDecimal(n, w) + tail), c) == Some(Scanned(n, tail))
  {
    var r := [c] + (PaddedDecimal(n, w) + tail);
    assert r[1..] == PaddedDecimal(n, w) + tail;
    ScanPadded(n, w, tail);
  }

  /** `"%d-%d-%d"` reads back the numbers `"%04d-%02d-%02d"` printed. */
  lemma ScanFormatDate(y: int, m: int, d: int, after: Bytes)
    requires after == [] || !IsDigitByte(after[0])
    ensures ScanDate(FormatDate(y, m, d) + after) == Some(Ymd(y, m, d, after))
  {
    var r2 := [DASH] + (PaddedDecimal(d, 2) + after);
    var r1 := [DASH] + (PaddedDecimal(m, 2) + r2);
    assert FormatDate(y, m, d) + after == PaddedDecimal(y, 4) + r1;
    ScanPadded(y, 4, r1);
    ScanAfterPadded(DASH, m, 2, r2);
    ScanAfterPadded(DASH, d, 2, after);
  }

  /** `"T%d:%d:%d"` reads back the numbers `"T%02d:%02d:%02d"` printed. */
  lemma ScanFormatTime(h: int, mi: int, sec: int, tail: Bytes)
    requires tail == [] || !IsDigitByte(tail[0])
    ensures ScanClock([LETTER_T] + (FormatTime(h, mi, sec) + tail)) == Some(Clock(h, mi, sec))
  {
    var r2 := [COLON] + (PaddedDecimal(sec, 2) + tail);
    var r1 := [COLON] + (PaddedDecimal(mi, 2) + r2);
    assert [LETTER_T] + (FormatTime(h, mi, sec) + tail) == [LETTER_T] + (PaddedDecimal(h, 2) + r1);
    ScanAfterPadded(LETTER_T, h, 2, r1);
    ScanAfterPadded(COLON, mi, 2, r2);
    ScanAfterPadded(COLON, sec, 2, tail);
  }

  /** The `component` format reads back every timestamp it could print. */
  lemma ScanIsoTimestamp(t: DateTime, tail: Bytes)
    requires tail == [] || !IsDigitByte(tail[0])
    ensures ScanDate(IsoTimestamp(t) + tail)
      == Some(Ymd(t.year, t.month, t.day, [LETTER_T] + (FormatTime(t.hour, t.minute, t.second) + tail)))
    ensures ScanDateTime(IsoTimestamp(t) + tail) == Some(t)
  {
    var after := [LETTER_T] + (FormatTime(t.hour, t.minute, t.second) + tail);
    assert IsoTimestamp(t) + tail == FormatDate(t.year, t.month, t.day) + after;
    ScanFormatDate(t.year, t.month, t.day, after);
    ScanFormatTime(t.hour, t.minute, t.second, tail);
  }

  /** A canonical timestamp: ten bytes of date without a 'T', the 'T', then
      eight bytes of time. */
  lemma IsoLayout(t: DateTime)
    requires Canonical(t)
    ensures |FormatDate(t.year, t.month, t.day)| == 10
    ensures forall i | 0 <= i < 10 :: FormatDate(t.year, t.month, t.day)[i] != LETTER_T
    ensures |FormatTime(t.hour, t.minute, t.second)| == 8
  {
    assert Pow10(2) == 100 && Pow10(4) == 10000;
    PaddedWidth(t.year, 4);
    PaddedWidth(t.month, 2);
    PaddedWidth(t.day, 2);
    PaddedWidth(t.hour, 2);
    PaddedWidth(t.minute, 2);
    PaddedWidth(t.second, 2);
    var a := PaddedDecimal(t.year, 4);
    var b := PaddedDecimal(t.month, 2);
    var c := PaddedDecimal(t.day, 2);
    var f := a + ([DASH] + (b + ([DASH] + c)));
    forall i | 0 <= i < 10
      ensures f[i] != LETTER_T
    {
      if i < 4 {
        assert f[i] == a[i];
      } else if i == 4 || i == 7 {
        assert f[i] == DASH;
      } else if i < 7 {
        assert f[i] == b[i - 5];
      } else {
        assert f[i] == c[i - 8];
      }
    }
  }

  /** The first 'T' of a canonical timestamp follows the ten date bytes. */
  lemma IsoFirstT(date: Bytes, rest: Bytes)
    requires |date| == 10 && forall i | 0 <= i < 10 :: date[i] != LETTER_T
    ensures IndexFrom(date + ([LETTER_T] + rest), 0, LETTER_T) == Some(10)
  {
    var lu := date + ([LETTER_T] + rest);
    assert lu[10] == LETTER_T;
    assert forall j | 0 <= j < 10 :: lu[j] == date[j];
  }

  /** On a canonical timestamp the `app7` cut reads the date and the time
      that the `component` reprint produces. */
  lemma App7ReadsIso(t: DateTime, tail: Bytes)
    requires Canonical(t)
    requires tail == [] || !IsDigitByte(tail[0])
    ensures Take(IsoTimestamp(t) + tail, 10) == FormatDate(t.year, t.month, t.day)
    ensures App7Time(IsoTimestamp(t) + tail) == FormatTime(t.hour, t.minute, t.second)
  {
    IsoLayout(t);
    var date := FormatDate(t.year, t.month, t.day);
    var time := FormatTime(t.hour, t.minute, t.second);
    var lu := IsoTimestamp(t) + tail;
    var rest := time + tail;
    assert lu == date + ([LETTER_T] + rest);
    assert Take(lu, 10) == date by {
      assert lu[..10] == date;
    }
    assert App7Time(lu) == time by {
      IsoFirstT(date, rest);
      assert lu[11..] == rest;
      assert Take(rest, 8) == time by {
        assert rest[..8] == time;
      }
    }
  }

  /** On the timestamps the weather service sends, both variants keep the
      same date, time and weekday, and the weekday is the Gregorian one. */
  lemma StampsAgreeOnIsoTimestamps(t: DateTime, tail: Bytes)
    requires Canonical(t)
    requires tail == [] || !IsDigitByte(tail[0])
    ensures var lu := Some(IsoTimestamp(t) + tail);
      && App7Stamp(lu) == ComponentStamp(lu)
      && App7Stamp(lu) == Stamp(FormatDate(t.year, t.month, t.day),
                                FormatTime(t.hour, t.minute, t.second),
                                DayOfWeek(t.year, t.month, t.day))
  {
    IsoLayout(t);
    App7ReadsIso(t, tail);
    ScanIsoTimestamp(t, tail);
    WeekdayIsGregorian(t.year, t.month, t.day);
  }
}
