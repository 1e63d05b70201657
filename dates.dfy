/**
  The deadline tracker: how the portal's date texts are parsed, how many days are
  left until them, how that count is banded for display, the quiet-hours window and
  the small lookup tables (emoji per activity type, Persian weekday and month names).

  Instants are integers of milliseconds since the Unix epoch. JavaScript's
  `new Date(year, monthIndex, day, hours, minutes)` is modelled by `LocalEpoch`, with
  the host's time zone taken to be UTC.
 */
module Dates {
  import opened Optional
  import opened JsText

  const MsPerMinute := 60_000
  const MsPerHour := 3_600_000
  const MsPerDay := 86_400_000

  /** The extractor's "unknown" sentinel for a missing date. */
  const Unknown := "نامشخص"

  /** The Arabic comma that separates the weekday, the date and the time. */
  const ArabicComma := '\U{060C}'

  // ---------------------------------------------------------------------------
  // Month names

  const EnglishMonths := ["January", "February", "March", "April", "May", "June", "July",
                          "August", "September", "October", "November", "December"]

  /** The `months` table of formatPersianDate and checkAndSendReminders: an English month name to 1..12. */
  function MonthNumber(name: string): (m: Option<int>)
    ensures m.Some? ==> 1 <= m.value <= 12 && EnglishMonths[m.value - 1] == name
    ensures m.None? ==> name !in EnglishMonths
  {
    if name == "January" then Some(1)
    else if name == "February" then Some(2)
    else if name == "March" then Some(3)
    else if name == "April" then Some(4)
    else if name == "May" then Some(5)
    else if name == "June" then Some(6)
    else if name == "July" then Some(7)
    else if name == "August" then Some(8)
    else if name == "September" then Some(9)
    else if name == "October" then Some(10)
    else if name == "November" then Some(11)
    else if name == "December" then Some(12)
    else None
  }

  /** The table is a bijection between the twelve names and 1..12. */
  lemma MonthNumberOfName(m: int)
    requires 1 <= m <= 12
    ensures MonthNumber(EnglishMonths[m - 1]) == Some(m)
  {
    var name := EnglishMonths[m - 1];
    assert name in EnglishMonths;
    var r := MonthNumber(name);
    assert EnglishMonths[r.value - 1] == name;
  }

  // ---------------------------------------------------------------------------
  // The calendar

  /** Days from 1970-01-01 to the given proleptic Gregorian date (month 1..12, any day number). */
  function DaysFromCivil(y: int, m: int, d: int): int
    requires 1 <= m <= 12
  {
    var y' := if m <= 2 then y - 1 else y;
    var era := y' / 400;
    var yoe := y' - era * 400;
    var mp := if m > 2 then m - 3 else m + 9;
    var doy := (153 * mp + 2) / 5 + d - 1;
    var doe := yoe * 365 + yoe / 4 - yoe / 100 + doy;
    era * 146097 + doe - 719468
  }

  /** `new Date(year, ...)` reads a year in 0..99 as 1900..1999. */
  function JsYear(y: int): int {
    if 0 <= y <= 99 then 1900 + y else y
  }

  /**
    `new Date(year, monthIndex, day, hours, minutes)`: month indices outside 0..11 and
    day, hour and minute numbers out of range roll over into the neighbouring units.
   */
  function LocalEpoch(year: int, monthIndex: int, day: int, hours: int, minutes: int): int {
    var y := JsYear(year) + monthIndex / 12;
    var mn := monthIndex % 12;
    (DaysFromCivil(y, mn + 1, 1) + day - 1) * MsPerDay + hours * MsPerHour + minutes * MsPerMinute
  }

  /** `getDay()`: 0 is Sunday. */
  function WeekDay(t: int): (w: int)
    ensures 0 <= w < 7
  {
    (t / MsPerDay + 4) % 7
  }

  /** `Math.ceil((t - now) / (1000 * 60 * 60 * 24))`, in integers. */
  function DaysUntil(t: int, now: int): int {
    -((now - t) / MsPerDay)
  }

  /** The count is the ceiling of the difference in days. */
  lemma DaysUntilIsCeiling(t: int, now: int)
    ensures (DaysUntil(t, now) - 1) * MsPerDay < t - now <= DaysUntil(t, now) * MsPerDay
  {
    var q := (now - t) / MsPerDay;
    var r := (now - t) % MsPerDay;
    assert now - t == q * MsPerDay + r && 0 <= r < MsPerDay;
  }

  /** As `now` advances the count never increases. */
  lemma DaysUntilMonotone(t: int, now1: int, now2: int)
    requires now1 <= now2
    ensures DaysUntil(t, now2) <= DaysUntil(t, now1)
  {
    DaysUntilIsCeiling(t, now1);
    DaysUntilIsCeiling(t, now2);
    var d1, d2 := DaysUntil(t, now1), DaysUntil(t, now2);
    assert (d2 - 1) * MsPerDay < d1 * MsPerDay;
    ScaledLess(d2 - 1, d1, MsPerDay);
  }

  lemma ScaledLess(a: int, b: int, k: int)
    requires k > 0 && a * k < b * k
    ensures a < b
  {}

  /**
    Passed means a whole day has gone by since the instant (for a midnight: it is the
    next day or later), zero days means `now` lies in the day that starts at it.
   */
  lemma DaysUntilSign(t: int, now: int)
    ensures DaysUntil(t, now) < 0 <==> t + MsPerDay <= now
    ensures DaysUntil(t, now) == 0 <==> t <= now < t + MsPerDay
  {
    DaysUntilIsCeiling(t, now);
  }

  // ---------------------------------------------------------------------------
  // The date regex of formatPersianDate: (\w+)،\s*(\d+)\s+(\w+)\s+(\d+)،\s*(.+)
  // Each quantifier is greedy and, because of what follows it, can never give back
  // characters usefully, except the final \s* before (.+); so an anchored match is a
  // sequence of maximal runs, and the regex finds the first start index that matches.

  datatype DateParts = DateParts(day: string, month: string, year: string, time: string)

  /** `(\d+)\s+(\w+)\s+(\d+)` anchored at `i`, with the end of the match. */
  datatype DayMonthYear = DayMonthYear(day: string, month: string, year: string, end: nat)

  predicate AllDigits(s: string) {
    forall k :: 0 <= k < |s| ==> IsDigit(s[k])
  }

  function DayMonthYearAt(s: string, i: nat): (r: Option<DayMonthYear>)
    requires i <= |s|
    ensures r.Some? ==> i < r.value.end <= |s| && AllDigits(r.value.day) && AllDigits(r.value.year)
    ensures r.Some? ==> r.value.day != [] && r.value.year != []
  {
    var b := Span(s, i, IsDigit);
    var c := Span(s, b, IsSpace);
    var d := Span(s, c, IsWordChar);
    var e := Span(s, d, IsSpace);
    var f := Span(s, e, IsDigit);
    if b == i || c == b || d == c || e == d || f == e then None
    else Some(DayMonthYear(s[i..b], s[c..d], s[e..f], f))
  }

  /**
    `،\s*(.+)` anchored at `f`. When the white space runs to the end of the text, `\s*`
    gives back characters until `.` can take one that is not a line terminator.
   */
  function TimeTailAt(s: string, f: nat): (r: Option<string>)
    requires f <= |s|
    ensures r.Some? ==> r.value != []
  {
    if f == |s| || s[f] != ArabicComma then None
    else
      var g := Span(s, f + 1, IsSpace);
      if g < |s| then Some(s[g..Span(s, g, IsNotLineTerminator)])
      else LastMatchable(s, f + 1, g)
  }

  /** The last character of `s[lo..hi]` that `.` matches, as a one-character match. */
  function LastMatchable(s: string, lo: nat, hi: nat): (r: Option<string>)
    requires lo <= hi <= |s|
    ensures r.Some? ==> |r.value| == 1
    decreases hi
  {
    if hi == lo then None
    else if !IsLineTerminator(s[hi - 1]) then Some([s[hi - 1]])
    else LastMatchable(s, lo, hi - 1)
  }

  /** The date regex anchored at `i`. */
  function DateMatchAt(s: string, i: nat): Option<DateParts>
    requires i <= |s|
  {
    var a := Span(s, i, IsWordChar);
    if a == i || a == |s| || s[a] != ArabicComma then None
    else
      match DayMonthYearAt(s, Span(s, a + 1, IsSpace))
      case None => None
      case Some(dmy) =>
        match TimeTailAt(s, dmy.end)
        case None => None
        case Some(time) => Some(DateParts(dmy.day, dmy.month, dmy.year, time))
  }

  /** `text.match(dateRegex)`: the match at the first start index from `i` on that matches. */
  function FindDate(s: string, i: nat): (r: Option<DateParts>)
    requires i <= |s|
    ensures r.Some? ==> AllDigits(r.value.day) && AllDigits(r.value.year)
    decreases |s| - i
  {
    match DateMatchAt(s, i)
    case Some(p) => Some(p)
    case None => if i == |s| then None else FindDate(s, i + 1)
  }

  /** A text without ASCII word characters (the Persian "unknown" sentinel, say) never matches. */
  lemma {:induction false} NoWordCharNoDate(s: string, i: nat)
    requires i <= |s|
    requires forall k :: 0 <= k < |s| ==> !IsWordChar(s[k])
    ensures FindDate(s, i) == None
    decreases |s| - i
  {
    assert Span(s, i, IsWordChar) == i;
    if i < |s| {
      NoWordCharNoDate(s, i + 1);
    }
  }

  // ---------------------------------------------------------------------------
  // The time regex (\d+):(\d+)\s*(AM|PM), case-insensitive

  datatype Clock = Clock(hours: string, minutes: string, pm: bool)

  function ClockAt(t: string, i: nat): (r: Option<Clock>)
    requires i <= |t|
    ensures r.Some? ==> AllDigits(r.value.hours) && AllDigits(r.value.minutes)
  {
    var b := Span(t, i, IsDigit);
    if b == i || b == |t| || t[b] != ':' then None
    else
      var c := Span(t, b + 1, IsDigit);
      var d := Span(t, c, IsSpace);
      if c == b + 1 || d + 2 > |t| || !(t[d + 1] == 'M' || t[d + 1] == 'm') then None
      else if t[d] == 'A' || t[d] == 'a' then Some(Clock(t[i..b], t[b + 1..c], false))
      else if t[d] == 'P' || t[d] == 'p' then Some(Clock(t[i..b], t[b + 1..c], true))
      else None
  }

  function FindClock(t: string, i: nat): (r: Option<Clock>)
    requires i <= |t|
    ensures r.Some? ==> AllDigits(r.value.hours) && AllDigits(r.value.minutes)
    decreases |t| - i
  {
    match ClockAt(t, i)
    case Some(c) => Some(c)
    case None => if i == |t| then None else FindClock(t, i + 1)
  }

  /** 12-hour to 24-hour: PM adds 12 except to 12, and 12 AM is 0. */
  function To24Hour(h: nat, pm: bool): nat {
    if pm && h != 12 then h + 12 else if !pm && h == 12 then 0 else h
  }

  /** On the clock's hours 1..12 the conversion is a bijection onto 0..23, AM onto the first half. */
  lemma To24HourBijective(h: nat, pm: bool, h': nat, pm': bool)
    requires 1 <= h <= 12 && 1 <= h' <= 12
    ensures 0 <= To24Hour(h, pm) <= 23
    ensures pm <==> To24Hour(h, pm) >= 12
    ensures To24Hour(h, pm) == To24Hour(h', pm') ==> h == h' && pm == pm'
  {}

  /** Every hour of the day is reached: the inverse conversion. */
  lemma To24HourOnto(hour: int)
    requires 0 <= hour <= 23
    ensures var h := if hour % 12 == 0 then 12 else hour % 12;
            1 <= h <= 12 && To24Hour(h, hour >= 12) == hour
  {}

  /** `time24` of formatPersianDate: the converted hour padded to two digits, the minutes as written. */
  function Time24(time: string): string {
    match FindClock(time, 0)
    case None => time
    case Some(c) => PadStart2(NatToString(To24Hour(DigitsValue(c.hours), c.pm))) + ":" + c.minutes
  }

  // ---------------------------------------------------------------------------
  // formatPersianDate

  /**
    What is displayed: the text itself when it does not parse; otherwise the Persian
    weekday, the Gregorian `YYYY-MM-DD` string handed to the Shamsi conversion (which
    is not part of this model) and the 24-hour time.
   */
  datatype Display = Verbatim(text: string) | Localized(weekday: string, gregorian: string, time24: string)

  datatype DateInfo = DateInfo(formatted: Display, daysRemaining: Option<int>)

  /** The local midnight of the date a text names, when it parses. */
  function DeadlineMidnight(text: string): (t: Option<int>) {
    match FindDate(text, 0)
    case None => None
    case Some(p) =>
      match MonthNumber(p.month)
      case None => None
      case Some(m) => Some(LocalEpoch(DigitsValue(p.year), m - 1, DigitsValue(p.day), 0, 0))
  }

  /**
    formatPersianDate: never fails; falls back to the verbatim text with no day count
    exactly when the text does not parse, and otherwise counts the days from `now` to
    the midnight that starts the named date (its time of day is ignored).
   */
  function FormatPersianDate(text: string, now: int): (r: DateInfo)
    ensures r.daysRemaining.None? <==> r.formatted == Verbatim(text)
    ensures r.daysRemaining.None? <==> DeadlineMidnight(text).None?
    ensures r.daysRemaining.Some? ==> r.daysRemaining.value == DaysUntil(DeadlineMidnight(text).value, now)
  {
    match FindDate(text, 0)
    case None => DateInfo(Verbatim(text), None)
    case Some(p) =>
      match MonthNumber(p.month)
      case None => DateInfo(Verbatim(text), None)
      case Some(m) =>
        var t := LocalEpoch(DigitsValue(p.year), m - 1, DigitsValue(p.day), 0, 0);
        DateInfo(LocalizedDate(p, m, t), Some(DaysUntil(t, now)))
  }

  /** The weekday, the date written year-month-day and the 24-hour time of a parsed date at midnight `t`. */
  function LocalizedDate(p: DateParts, m: nat, t: int): (r: Display)
    ensures r.Localized?
  {
    var mm := if m < 10 then "0" + NatToString(m) else NatToString(m);
    Localized(PersianDayName(WeekDay(t)), p.year + "-" + mm + "-" + PadStart2(p.day), Time24(p.time))
  }

  /** The days left until a date text, when it parses. */
  function DaysLeft(text: string, now: int): Option<int> {
    FormatPersianDate(text, now).daysRemaining
  }

  /** The unknown sentinel never parses. */
  lemma UnknownNeverParses(now: int)
    ensures FormatPersianDate(Unknown, now) == DateInfo(Verbatim(Unknown), None)
  {
    NoWordCharNoDate(Unknown, 0);
  }

  /** Whether a text parses does not depend on the clock, and its count never rises as time passes. */
  lemma DaysLeftMonotone(text: string, now1: int, now2: int)
    requires now1 <= now2
    ensures DaysLeft(text, now1).Some? <==> DaysLeft(text, now2).Some?
    ensures DaysLeft(text, now1).Some? ==> DaysLeft(text, now2).value <= DaysLeft(text, now1).value
  {
    if DeadlineMidnight(text).Some? {
      DaysUntilMonotone(DeadlineMidnight(text).value, now1, now2);
    }
  }

  /** A text that counts as passed stays passed. */
  lemma PassedStaysPassed(text: string, now1: int, now2: int)
    requires now1 <= now2
    requires DaysLeft(text, now1).Some? && DaysLeft(text, now1).value < 0
    ensures DaysLeft(text, now2).Some? && DaysLeft(text, now2).value < 0
  {
    DaysLeftMonotone(text, now1, now2);
  }

  /** Expired in the source's sense: parses to a negative number of days. */
  predicate IsExpired(text: string, now: int) {
    var d := DaysLeft(text, now);
    d.Some? && d.value < 0
  }

  /** A parsed date is expired exactly when the day after it has begun. */
  lemma ExpiredIffNextDayBegun(text: string, now: int)
    requires DeadlineMidnight(text).Some?
    ensures IsExpired(text, now) <==> DeadlineMidnight(text).value + MsPerDay <= now
  {
    DaysUntilSign(DeadlineMidnight(text).value, now);
  }

  // ---------------------------------------------------------------------------
  // calculateDaysRemaining: the regex (\d+)\s+(\w+)\s+(\d+), clamped at zero

  function FindDayMonthYear(s: string, i: nat): (r: Option<DayMonthYear>)
    requires i <= |s|
    ensures r.Some? ==> AllDigits(r.value.day) && AllDigits(r.value.year)
    decreases |s| - i
  {
    match DayMonthYearAt(s, i)
    case Some(p) => Some(p)
    case None => if i == |s| then None else FindDayMonthYear(s, i + 1)
  }

  /** The local midnight of the first day-month-year in `text` whose month name is known. */
  function CountMidnight(text: string): (r: Option<int>)
    ensures r.Some? <==> (FindDayMonthYear(text, 0).Some? && MonthNumber(FindDayMonthYear(text, 0).value.month).Some?)
  {
    match FindDayMonthYear(text, 0)
    case None => None
    case Some(p) =>
      match MonthNumber(p.month)
      case None => None
      case Some(m) => Some(LocalEpoch(DigitsValue(p.year), m - 1, DigitsValue(p.day), 0, 0))
  }

  /**
    The whole days left until the named date's midnight, rounded up, and zero once that
    midnight has come.
   */
  function CalculateDaysRemaining(text: string, now: int): (r: Option<int>)
    ensures r.Some? ==> r.value >= 0
    ensures r.Some? <==> CountMidnight(text).Some?
    ensures r.Some? ==> r.value == (if DaysUntil(CountMidnight(text).value, now) > 0 then DaysUntil(CountMidnight(text).value, now) else 0)
    ensures r.Some? && r.value > 0 ==>
              (r.value - 1) * MsPerDay < CountMidnight(text).value - now <= r.value * MsPerDay
  {
    match CountMidnight(text)
    case None => None
    case Some(t) =>
      var d := DaysUntil(t, now);
      DaysUntilIsCeiling(t, now);
      Some(if d > 0 then d else 0)
  }

  /** The clamped count is zero exactly when the named midnight is at most `now`, and never rises. */
  lemma CalculateDaysRemainingClamp(text: string, now1: int, now2: int)
    requires now1 <= now2
    requires CalculateDaysRemaining(text, now1).Some?
    ensures CalculateDaysRemaining(text, now2).Some?
    ensures CalculateDaysRemaining(text, now2).value <= CalculateDaysRemaining(text, now1).value
    ensures CalculateDaysRemaining(text, now1).value == 0 <==> CountMidnight(text).value <= now1
  {
    var t := CountMidnight(text).value;
    DaysUntilMonotone(t, now1, now2);
    DaysUntilIsCeiling(t, now1);
  }

  // ---------------------------------------------------------------------------
  // The reminder's deadline: (\d+)\s+(\w+)\s+(\d+)،\s*(.+) and the time of day

  function ReminderMatchAt(s: string, i: nat): Option<DateParts>
    requires i <= |s|
  {
    match DayMonthYearAt(s, i)
    case None => None
    case Some(dmy) =>
      match TimeTailAt(s, dmy.end)
      case None => None
      case Some(time) => Some(DateParts(dmy.day, dmy.month, dmy.year, time))
  }

  function FindReminderDate(s: string, i: nat): (r: Option<DateParts>)
    requires i <= |s|
    ensures r.Some? ==> AllDigits(r.value.day) && AllDigits(r.value.year)
    decreases |s| - i
  {
    match ReminderMatchAt(s, i)
    case Some(p) => Some(p)
    case None => if i == |s| then None else FindReminderDate(s, i + 1)
  }

  /**
    The instant checkAndSendReminders compares with `now`: the named date at the named
    time (converted to 24 hours), or at midnight when no time is recognised.
   */
  function ReminderDeadline(text: string): (r: Option<int>)
    ensures r.Some? <==> FindReminderDate(text, 0).Some? && MonthNumber(FindReminderDate(text, 0).value.month).Some?
    ensures r.Some? ==>
      var p := FindReminderDate(text, 0).value;
      var base := LocalEpoch(DigitsValue(p.year), MonthNumber(p.month).value - 1, DigitsValue(p.day), 0, 0);
      r.value == base + (match FindClock(p.time, 0)
                         case None => 0
                         case Some(c) => To24Hour(DigitsValue(c.hours), c.pm) * MsPerHour + DigitsValue(c.minutes) * MsPerMinute)
  {
    match FindReminderDate(text, 0)
    case None => None
    case Some(p) =>
      match MonthNumber(p.month)
      case None => None
      case Some(m) =>
        var base := LocalEpoch(DigitsValue(p.year), m - 1, DigitsValue(p.day), 0, 0);
        match FindClock(p.time, 0)
        case None => Some(base)
        case Some(c) =>
          ReminderDeadlineOffset(DigitsValue(p.year), m - 1, DigitsValue(p.day), To24Hour(DigitsValue(c.hours), c.pm), DigitsValue(c.minutes));
          Some(LocalEpoch(DigitsValue(p.year), m - 1, DigitsValue(p.day),
                          To24Hour(DigitsValue(c.hours), c.pm), DigitsValue(c.minutes)))
  }

  /** A recognised time of day only moves the instant forward within the hours and minutes it names. */
  lemma ReminderDeadlineOffset(y: int, mi: int, d: int, h: nat, mins: nat)
    ensures LocalEpoch(y, mi, d, h, mins) == LocalEpoch(y, mi, d, 0, 0) + h * MsPerHour + mins * MsPerMinute
  {}

  // ---------------------------------------------------------------------------
  // The display bands of the deadline overview

  datatype Band = NoDate | Passed | Today | OneDayLeft | Urgent | Soon | Comfortable

  /** The ladder of the deadline overview, tested in order. */
  function BandOf(days: Option<int>): (b: Band)
    ensures b == NoDate <==> days.None?
    ensures b == Passed <==> days.Some? && days.value < 0
    ensures b == Today <==> days == Some(0)
    ensures b == OneDayLeft <==> days == Some(1)
    ensures b == Urgent <==> days.Some? && 2 <= days.value <= 3
    ensures b == Soon <==> days.Some? && 4 <= days.value <= 7
    ensures b == Comfortable <==> days.Some? && days.value > 7
  {
    if days.None? then NoDate
    else if days.value < 0 then Passed
    else if days.value == 0 then Today
    else if days.value == 1 then OneDayLeft
    else if days.value <= 3 then Urgent
    else if days.value <= 7 then Soon
    else Comfortable
  }

  // ---------------------------------------------------------------------------
  // Quiet hours: 00:30 up to (not including) 07:30, in minutes of the day

  const QuietStart := 0 * 60 + 30
  const QuietEnd := 7 * 60 + 30

  function IsInQuietHours(hour: int, minute: int): bool {
    QuietStart <= hour * 60 + minute < QuietEnd
  }

  /** On a valid clock reading the window is exactly 00:30 through 07:29. */
  lemma QuietHoursWindow(hour: int, minute: int)
    requires 0 <= hour <= 23 && 0 <= minute <= 59
    ensures IsInQuietHours(hour, minute) <==>
            (hour == 0 && minute >= 30) || (1 <= hour <= 6) || (hour == 7 && minute < 30)
  {}

  // ---------------------------------------------------------------------------
  // Lookup tables

  const EmojiKinds := ["assign", "resource", "url", "forum", "quiz", "page", "folder", "label"]
  const DefaultEmoji := "📌"

  /** getEmoji: one emoji per known activity type, the pin for every other type. */
  function GetEmoji(kind: string): (e: string)
    ensures kind !in EmojiKinds <==> e == DefaultEmoji
  {
    if kind == "assign" then "📝"
    else if kind == "resource" then "📁"
    else if kind == "url" then "🔗"
    else if kind == "forum" then "💬"
    else if kind == "quiz" then "❓"
    else if kind == "page" then "📄"
    else if kind == "folder" then "📂"
    else if kind == "label" then "🏷️"
    else DefaultEmoji
  }

  const PersianDays := ["یکشنبه", "دوشنبه", "سه‌شنبه", "چهارشنبه", "پنج‌شنبه", "جمعه", "شنبه"]

  /** getPersianDayName: Sunday (0) to Saturday (6), the empty string otherwise. */
  function PersianDayName(n: int): (r: string)
    ensures 0 <= n < 7 ==> r == PersianDays[n]
    ensures r == "" <==> !(0 <= n < 7)
  {
    if n == 0 then "یکشنبه"
    else if n == 1 then "دوشنبه"
    else if n == 2 then "سه‌شنبه"
    else if n == 3 then "چهارشنبه"
    else if n == 4 then "پنج‌شنبه"
    else if n == 5 then "جمعه"
    else if n == 6 then "شنبه"
    else ""
  }

  const PersianMonths := ["فروردین", "اردیبهشت", "خرداد", "تیر", "مرداد", "شهریور",
                          "مهر", "آبان", "آذر", "دی", "بهمن", "اسفند"]

  /** getPersianMonthName: Farvardin (1) to Esfand (12), the empty string otherwise. */
  function PersianMonthName(n: int): (r: string)
    ensures 1 <= n <= 12 ==> r == PersianMonths[n - 1]
    ensures r == "" <==> !(1 <= n <= 12)
  {
    if n == 1 then "فروردین"
    else if n == 2 then "اردیبهشت"
    else if n == 3 then "خرداد"
    else if n == 4 then "تیر"
    else if n == 5 then "مرداد"
    else if n == 6 then "شهریور"
    else if n == 7 then "مهر"
    else if n == 8 then "آبان"
    else if n == 9 then "آذر"
    else if n == 10 then "دی"
    else if n == 11 then "بهمن"
    else if n == 12 then "اسفند"
    else ""
  }

  /** Distinct numbers get distinct names in both tables. */
  lemma NameTablesInjective(i: int, j: int)
    ensures 0 <= i < 7 && 0 <= j < 7 && i != j ==> PersianDayName(i) != PersianDayName(j)
    ensures 1 <= i <= 12 && 1 <= j <= 12 && i != j ==> PersianMonthName(i) != PersianMonthName(j)
  {}
}
