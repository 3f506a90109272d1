/**
 * The weekly evaluator of `lib/openNow.ts`. A place has a map from day
 * name to `[open, close]`. The evaluator builds a window for today and one
 * for yesterday, moves a close that is not after the open to the next
 * day, and reports the first window that holds the current instant, both
 * ends included, with its closing time as "HH:MM".
 *
 * Instants are milliseconds from today's local midnight, so today's
 * midnight is 0 and yesterday's is `-DayMs`.
 */
module WeeklyHours {
  import opened Optional
  import opened Text
  import opened JsNumber
  import opened Clock

  /** Day name to `[open, close]` or `[]`; at run time any length can occur. */
  type HoursMap = map<string, seq<string>>

  datatype Place = Place(alwaysOpen: bool, openHours: Option<HoursMap>)

  datatype Status = Status(open: bool, closesAt: Option<string>)

  /** The instants from `o` to `c`, both included. */
  datatype Interval = Interval(o: int, c: int)

  /** Indexed by `getDay()`. */
  const Days: seq<string> :=
    ["Sunday", "Monday", "Tuesday", "Wednesday", "Thursday", "Friday", "Saturday"]

  const ClosedText := "Closed"
  const LastMinuteText := "23:59"
  const AllDayText := "24/7"

  function DayBefore(d: Weekday): (y: Weekday)
    ensures y == (if d == 0 then 6 else d - 1)
  {
    (d + 6) % 7
  }

  /** `n || 0` on the result of `Number(part)`: NaN and a missing part both give 0. */
  function OrZero(n: Option<Num>): int {
    match n
    case Some(Fin(v)) => v
    case _ => 0
  }

  function Part(parts: seq<string>, i: nat): Option<Num> {
    if i < |parts| then Some(ParseNumber(parts[i])) else None
  }

  /** `h || 0` and `m || 0` of `text.split(':').map(Number)`, as minutes `h * 60 + m`. */
  function OffsetMinutes(text: string): int {
    var parts := Split(text, ':');
    OrZero(Part(parts, 0)) * 60 + OrZero(Part(parts, 1))
  }

  /** The offset from midnight set by `setHours(h || 0, m || 0, 0, 0)`. */
  function SetHoursOffset(text: string): int {
    OffsetMinutes(text) * MinuteMs
  }

  /** The closing instant before any move to the next day; "23:59" means its last millisecond. */
  function ClosingInstant(close: string, base: int): int {
    if close == LastMinuteText then base + DayMs - 1 else base + SetHoursOffset(close)
  }

  /** `if (c <= o) c.setDate(c.getDate() + 1)`: a close not after the open moves to the next day. */
  function MovedClose(c: int, o: int): int {
    if c <= o then c + DayMs else c
  }

  predicate Listed(hours: HoursMap, dayName: string) {
    && dayName in hours
    && |hours[dayName]| == 2
    && hours[dayName][0] != ClosedText
    && hours[dayName][1] != ClosedText
  }

  /** The window `add(dayName, ...)` pushes, for a day whose midnight is `base`. */
  function Window(hours: HoursMap, dayName: string, base: int): (w: Option<Interval>)
    // a missing day, a wrong length or a 'Closed' side contributes nothing
    ensures w.Some? <==> Listed(hours, dayName)
    ensures w.Some? ==> w.value.o == base + SetHoursOffset(hours[dayName][0])
    // a close not after the open moves to the next day; a later close stays
    ensures w.Some? ==> var c0 := ClosingInstant(hours[dayName][1], base);
                        && (c0 <= w.value.o ==> w.value.c == c0 + DayMs)
                        && (c0 > w.value.o ==> w.value.c == c0)
    // equal open and close give a full day
    ensures w.Some? && hours[dayName][1] != LastMinuteText
            && SetHoursOffset(hours[dayName][0]) == SetHoursOffset(hours[dayName][1])
            ==> w.value.c == w.value.o + DayMs
  {
    if dayName !in hours then None
    else
      var val := hours[dayName];
      if |val| != 2 then None
      else if val[0] == ClosedText || val[1] == ClosedText then None
      else
        var o := base + SetHoursOffset(val[0]);
        var c := ClosingInstant(val[1], base);
        Some(Interval(o, MovedClose(c, o)))
  }

  /** The window of a day listed with `[open, close]`. */
  lemma WindowOfPair(hours: HoursMap, dayName: string, base: int, open: string, close: string)
    requires dayName in hours && hours[dayName] == [open, close]
    requires open != ClosedText && close != ClosedText
    ensures Window(hours, dayName, base)
            == Some(Interval(base + SetHoursOffset(open), MovedClose(ClosingInstant(close, base), base + SetHoursOffset(open))))
  {
    var val := hours[dayName];
    assert |val| == 2 && val[0] == open && val[1] == close;
    assert Listed(hours, dayName);
    var w := Window(hours, dayName, base);
    var o, c := base + SetHoursOffset(open), ClosingInstant(close, base);
    assert w.Some?;
    assert w.value.o == o;
    assert w.value.c == MovedClose(c, o);
    assert w == Some(Interval(w.value.o, w.value.c));
  }

  predicate Holds(w: Interval, t: int) {
    w.o <= t <= w.c
  }

  function Present<T>(w: Option<T>): seq<T> {
    if w.Some? then [w.value] else []
  }

  /** The first interval of `ws` that holds `t`. */
  function FirstHolding(ws: seq<Interval>, t: int): (r: Option<nat>)
    ensures r.Some? ==> r.value < |ws| && Holds(ws[r.value], t)
    ensures r.Some? ==> forall j :: 0 <= j < r.value ==> !Holds(ws[j], t)
    ensures r.None? ==> forall j :: 0 <= j < |ws| ==> !Holds(ws[j], t)
  {
    if |ws| == 0 then None
    else if Holds(ws[0], t) then Some(0)
    else
      match FirstHolding(ws[1..], t)
      case Some(k) => Some(k + 1)
      case None => None
  }

  /** `getHours()` of an instant. */
  function LocalHours(t: int): (h: int)
    ensures 0 <= h < 24
  {
    t % DayMs / HourMs
  }

  /** `getMinutes()` of an instant. */
  function LocalMinutes(t: int): (m: int)
    ensures 0 <= m < 60
  {
    t % HourMs / MinuteMs
  }

  /** The two-digit hour, a colon and the two-digit minute of an instant. */
  function ClosesAtText(t: int): (s: string)
    ensures |s| == 5 && s[2] == ':'
    ensures AllDigits(s[..2]) && AllDigits(s[3..])
  {
    var s := Pad2(LocalHours(t)) + ":" + Pad2(LocalMinutes(t));
    assert s[..2] == Pad2(LocalHours(t));
    assert s[3..] == Pad2(LocalMinutes(t));
    s
  }

  function TodayWindow(hours: HoursMap, now: Instant): Option<Interval> {
    Window(hours, Days[now.day], 0)
  }

  function YesterdayWindow(hours: HoursMap, now: Instant): Option<Interval> {
    Window(hours, Days[DayBefore(now.day)], -DayMs)
  }

  /** Today's window when today is listed with `[open, close]` opening at `o` and closing at `c`. */
  lemma TodayWindowOfPair(hours: HoursMap, now: Instant, open: string, close: string, o: int, c: int)
    requires Days[now.day] in hours && hours[Days[now.day]] == [open, close]
    requires open != ClosedText && close != ClosedText
    requires SetHoursOffset(open) == o && ClosingInstant(close, 0) == c
    ensures TodayWindow(hours, now) == Some(Interval(o, MovedClose(c, o)))
  {
    WindowOfPair(hours, Days[now.day], 0, open, close);
  }

  /** Yesterday's window when yesterday is listed with `[open, close]`: today's, a day earlier. */
  lemma YesterdayWindowOfPair(hours: HoursMap, now: Instant, open: string, close: string, o: int, c: int)
    requires Days[DayBefore(now.day)] in hours && hours[Days[DayBefore(now.day)]] == [open, close]
    requires open != ClosedText && close != ClosedText
    requires SetHoursOffset(open) == o && ClosingInstant(close, 0) == c
    ensures YesterdayWindow(hours, now) == Some(Interval(o - DayMs, MovedClose(c - DayMs, o - DayMs)))
  {
    var y := Days[DayBefore(now.day)];
    WindowOfPair(hours, y, -DayMs, open, close);
    assert ClosingInstant(close, -DayMs) == c - DayMs;
    assert -DayMs + SetHoursOffset(open) == o - DayMs;
  }

  predicate HoldsNow(w: Option<Interval>, now: Instant) {
    w.Some? && Holds(w.value, now.ms)
  }

  /** Whether the place is open at `now`, and until when. */
  function IsOpenNow(p: Place, now: Instant): (r: Status)
    // an always-open place is open '24/7' whatever its hours
    ensures p.alwaysOpen ==> r == Status(true, Some(AllDayText))
    // otherwise it is open exactly when today's or yesterday's window holds now
    ensures !p.alwaysOpen ==>
              var hours := p.openHours.OrElse(map[]);
              (r.open <==> HoldsNow(TodayWindow(hours, now), now) || HoldsNow(YesterdayWindow(hours, now), now))
    // today's window is preferred for the closing time
    ensures !p.alwaysOpen && r.open ==>
              var hours := p.openHours.OrElse(map[]);
              var today := TodayWindow(hours, now);
              r.closesAt == Some(ClosesAtText(
                if HoldsNow(today, now) then today.value.c else YesterdayWindow(hours, now).value.c))
    // a closed place reports no closing time
    ensures !r.open ==> r.closesAt.None?
  {
    if p.alwaysOpen then Status(true, Some(AllDayText))
    else
      var hours := p.openHours.OrElse(map[]);
      var intervals := Present(TodayWindow(hours, now)) + Present(YesterdayWindow(hours, now));
      match FirstHolding(intervals, now.ms)
      case Some(k) => Status(true, Some(ClosesAtText(intervals[k].c)))
      case None => Status(false, None)
  }

  /** A close of "23:59" is the last millisecond of a day, and is reported as "23:59". */
  lemma LastMinuteReportedAs2359(t: int, k: int)
    requires -1 <= k <= 1 && t == DayMs - 1 + k * DayMs
    ensures ClosesAtText(t) == LastMinuteText
  {
    assert t % DayMs == DayMs - 1;
    assert LocalHours(t) == 23;
    assert t % HourMs == HourMs - 1;
    assert LocalMinutes(t) == 59;
    Padded2359();
  }

  /** A time of day `e` minutes after midnight, up to a day earlier or later, is reported as `e`. */
  lemma ClosesAtOfTimeOfDay(t: int, e: int, k: int)
    requires 0 <= e < MinutesPerDay && -1 <= k <= 1 && t == e * MinuteMs + k * DayMs
    ensures ClosesAtText(t) == Pad2(e / 60) + ":" + Pad2(e % 60)
    ensures e / 60 * 60 + e % 60 == e
  {
    assert t % DayMs == e * MinuteMs;
    var h, m := e / 60, e % 60;
    assert e * MinuteMs == h * HourMs + m * MinuteMs;
    assert LocalHours(t) == h;
    assert t % HourMs == m * MinuteMs;
    assert LocalMinutes(t) == m;
  }

  /**
   * With times of day inside one day, yesterday's window can hold now only
   * through its tail past midnight: its close was moved to today, and now
   * is not later than the closing time of day.
   */
  lemma YesterdayOnlyPastMidnight(hours: HoursMap, now: Instant)
    requires Listed(hours, Days[DayBefore(now.day)])
    requires var v := hours[Days[DayBefore(now.day)]];
             0 <= OffsetMinutes(v[0]) < MinutesPerDay && 0 <= OffsetMinutes(v[1]) < MinutesPerDay
    requires HoldsNow(YesterdayWindow(hours, now), now)
    ensures var v := hours[Days[DayBefore(now.day)]];
            && v[1] != LastMinuteText
            && OffsetMinutes(v[1]) <= OffsetMinutes(v[0])
            && now.ms <= SetHoursOffset(v[1])
  {
    var v := hours[Days[DayBefore(now.day)]];
    var w := YesterdayWindow(hours, now).value;
    var so, sc := OffsetMinutes(v[0]), OffsetMinutes(v[1]);
    assert w.o == -DayMs + so * MinuteMs;
    assert ClosingInstant(v[1], -DayMs) == (if v[1] == LastMinuteText then -1 else -DayMs + sc * MinuteMs);
  }
}
