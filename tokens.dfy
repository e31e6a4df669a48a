/**
 * The callback data the inline keyboards carry and how the handlers read it
 * back: calendar navigation (`calendar_<prev|next>_<year>_<month>`), the
 * chosen day (`date_<year>_<month>_<day>`), the chosen slot (`time_HH:MM`),
 * a typed time (`strptime(text, "%H:%M")`), an RSVP press
 * (`join_<id>` / `decline_<id>`) and the event list's `view_<id>` /
 * `delete_<id>`.
 */
module Tokens {
  import opened Wrappers
  import opened Text
  import opened Gregorian
  import opened Keyboards

  // ---------------------------------------------------------------- calendar navigation

  /** The earliest and latest year the navigation accepts. */
  const MinNavYear := 1970
  const MaxNavYear := 9999

  /**
   * The month arithmetic of the navigation handler: `prev` steps back a month,
   * wrapping from January to December of the year before; `next` steps
   * forward, wrapping from December to January; any other action leaves the
   * month as it is. Only the months 0 and 13 wrap, exactly as the handler
   * tests them.
   */
  function ShiftMonth(action: String, year: int, month: int): (int, int) {
    if action == "prev" then
      if month - 1 == 0 then (year - 1, 12) else (year, month - 1)
    else if action == "next" then
      if month + 1 == 13 then (year + 1, 1) else (year, month + 1)
    else
      (year, month)
  }

  /** Months counted from January of year 0: consecutive months have consecutive indices. */
  function MonthIndex(year: int, month: int): int {
    year * 12 + (month - 1)
  }

  /**
   * On a real month, `prev` and `next` move exactly one month back and
   * forward (across a year boundary too) and land on a real month.
   */
  lemma ShiftMonthSteps(action: String, year: int, month: int)
    requires 1 <= month <= 12
    ensures var (y, m) := ShiftMonth(action, year, month);
      1 <= m <= 12
      && MonthIndex(y, m) == MonthIndex(year, month) + (if action == "prev" then -1 else if action == "next" then 1 else 0)
  {
  }

  /** `next` undoes `prev` and `prev` undoes `next`. */
  lemma ShiftMonthInverse(year: int, month: int)
    requires 1 <= month <= 12
    ensures var (y, m) := ShiftMonth("prev", year, month); ShiftMonth("next", y, m) == (year, month)
    ensures var (y, m) := ShiftMonth("next", year, month); ShiftMonth("prev", y, m) == (year, month)
  {
  }

  /**
   * `process_calendar_navigation` up to the new calendar: the data must split
   * on `_` into exactly four parts whose last two are integers; the shifted
   * year must lie in 1970..9999 and `create_calendar` must not raise for the
   * shifted month. Any failure is reported and changes nothing.
   */
  function Navigate(data: String): (r: Option<(int, int)>)
    ensures r.Some? ==> MinNavYear <= r.value.0 <= MaxNavYear && CalendarDefined(r.value.0, r.value.1)
  {
    var parts := Split(data, '_');
    if |parts| != 4 then None
    else
      match (ParseInt(parts[2]), ParseInt(parts[3]))
      case (Some(year), Some(month)) =>
        var (y, m) := ShiftMonth(parts[1], year, month);
        if y < MinNavYear || y > MaxNavYear then None
        else if !CalendarDefined(y, m) then None
        else Some((y, m))
      case _ => None
  }

  /** A number's decimal text has no underscore, colon or letter in it. */
  lemma IntToStringChars(i: int)
    ensures forall k :: 0 <= k < |IntToString(i)| ==> IntToString(i)[k] == '-' || IsDigit(IntToString(i)[k])
  {
  }

  lemma JoinFour(a: String, b: String, c: String, d: String, sep: char)
    ensures Join([a, b, c, d], sep) == a + [sep] + b + [sep] + c + [sep] + d
  {
    assert [a, b, c, d][1..] == [b, c, d];
    assert [b, c, d][1..] == [c, d];
    assert [c, d][1..] == [d];
    assert Join([c, d], sep) == c + [sep] + d;
    assert Join([b, c, d], sep) == b + [sep] + (c + [sep] + d);
  }

  /** Reading back one of the calendar's own arrow buttons. */
  lemma SplitNavCallback(direction: String, year: int, month: int)
    requires '_' !in direction
    ensures Split(NavCallback(direction, year, month), '_') == ["calendar", direction, IntToString(year), IntToString(month)]
  {
    var parts := ["calendar", direction, IntToString(year), IntToString(month)];
    IntToStringChars(year);
    IntToStringChars(month);
    JoinFour("calendar", direction, IntToString(year), IntToString(month), '_');
    assert NavCallback(direction, year, month) == Join(parts, '_');
    assert forall i :: 0 <= i < |parts| ==> '_' !in parts[i];
    SplitJoin(parts, '_');
  }

  /**
   * Pressing an arrow of the calendar for `year`/`month` shows the shifted
   * month exactly when that month is in the accepted range and has a calendar.
   */
  lemma NavigateArrow(direction: String, year: int, month: int)
    requires direction == "prev" || direction == "next"
    ensures var (y, m) := ShiftMonth(direction, year, month);
      Navigate(NavCallback(direction, year, month))
        == if MinNavYear <= y <= MaxNavYear && CalendarDefined(y, m) then Some((y, m)) else None
  {
    SplitNavCallback(direction, year, month);
    ParseIntOfIntToString(year);
    ParseIntOfIntToString(month);
  }

  // ---------------------------------------------------------------- the chosen day

  /**
   * The date text `process_date_callback` builds from `date_<year>_<month>_<day>`:
   * day and month are read as integers and zero-padded, the year is kept as
   * it was written. None when the data does not split into four parts or
   * the day or month is not an integer.
   */
  function DateToken(data: String): Option<String> {
    var parts := Split(data, '_');
    if |parts| != 4 then None
    else
      match (ParseInt(parts[3]), ParseInt(parts[2]))
      case (Some(day), Some(month)) => Some(Pad2(day) + "." + Pad2(month) + "." + parts[1])
      case _ => None
  }

  lemma SplitDateCallback(year: int, month: int, day: int)
    ensures Split(DateCallback(year, month, day), '_') == ["date", IntToString(year), IntToString(month), IntToString(day)]
  {
    var parts := ["date", IntToString(year), IntToString(month), IntToString(day)];
    IntToStringChars(year);
    IntToStringChars(month);
    IntToStringChars(day);
    JoinFour("date", IntToString(year), IntToString(month), IntToString(day), '_');
    assert DateCallback(year, month, day) == Join(parts, '_');
    assert forall i :: 0 <= i < |parts| ==> '_' !in parts[i];
    SplitJoin(parts, '_');
  }

  /** A day button of the calendar yields the zero-padded `DD.MM.YYYY` of that day. */
  lemma DateTokenOfCallback(year: int, month: int, day: int)
    ensures DateToken(DateCallback(year, month, day)) == Some(Pad2(day) + "." + Pad2(month) + "." + IntToString(year))
  {
    SplitDateCallback(year, month, day);
    ParseIntOfIntToString(month);
    ParseIntOfIntToString(day);
  }

  // ---------------------------------------------------------------- typed time

  /** One field of `%H:%M`: one or two ASCII digits whose value is at most `max`. */
  predicate ClockField(f: String, max: int) {
    1 <= |f| <= 2 && AllDigits(f) && DigitsValue(f) <= max
  }

  /**
   * `datetime.strptime(s, "%H:%M")` on the stripped text: the hour is one or
   * two digits up to 23, the minute one or two digits up to 59, with one colon
   * between them and nothing else. Any other text raises `ValueError` (None).
   */
  function ParseClock(s: String): Option<(int, int)> {
    var parts := Split(s, ':');
    if |parts| == 2 && ClockField(parts[0], 23) && ClockField(parts[1], 59) then
      Some((DigitsValue(parts[0]), DigitsValue(parts[1])))
    else
      None
  }

  /** An accepted time is a real time of day, written as hour digits, a colon and minute digits. */
  lemma ParseClockAccepts(s: String)
    requires ParseClock(s).Some?
    ensures var (h, m) := ParseClock(s).value; 0 <= h <= 23 && 0 <= m <= 59
    ensures exists hs, ms :: s == hs + ":" + ms && ClockField(hs, 23) && ClockField(ms, 59)
  {
    var parts := Split(s, ':');
    JoinSplit(s, ':');
    assert s == parts[0] + ":" + parts[1];
  }

  /** Any hour and minute written in one or two digits is accepted and read back. */
  lemma ParseClockOfFields(hs: String, ms: String)
    requires ClockField(hs, 23) && ClockField(ms, 59)
    ensures ParseClock(hs + ":" + ms) == Some((DigitsValue(hs), DigitsValue(ms)))
  {
    assert forall i :: 0 <= i < |hs| ==> hs[i] != ':' by {
      forall i | 0 <= i < |hs| ensures hs[i] != ':' { assert IsDigit(hs[i]); }
    }
    assert forall i :: 0 <= i < |ms| ==> ms[i] != ':' by {
      forall i | 0 <= i < |ms| ensures ms[i] != ':' { assert IsDigit(ms[i]); }
    }
    SplitAtSeparator(hs, ':', ms);
    SplitNoSeparator(ms, ':');
  }

  /** The picker's own slot texts are accepted as typed times. */
  lemma ParseClockOfClockText(hour: int, minute: int)
    requires 0 <= hour < 24 && 0 <= minute < 60
    ensures ParseClock(ClockText(hour, minute)) == Some((hour, minute))
  {
    ClockTextShape(hour, minute);
    var t := ClockText(hour, minute);
    assert t == t[..2] + ":" + t[3..];
    ParseClockOfFields(t[..2], t[3..]);
  }

  // ---------------------------------------------------------------- RSVP and event ids

  datatype Action = JoinEvent | DeclineEvent

  /**
   * `action, event_id = data.split("_")` and `int(event_id)` for data that
   * starts with `join_` or `decline_`: exactly two parts, the second an
   * integer; anything that is not `join` is a decline. A malformed token
   * raises outside the handler's `try` (None).
   */
  function ParticipationToken(data: String): (r: Option<(Action, int)>)
    ensures r.Some? ==> |Split(data, '_')| == 2 && ParseInt(Split(data, '_')[1]) == Some(r.value.1)
  {
    var parts := Split(data, '_');
    if |parts| != 2 then None
    else
      match ParseInt(parts[1])
      case Some(id) => Some((if parts[0] == "join" then JoinEvent else DeclineEvent, id))
      case None => None
  }

  /** The callback text of an RSVP button. */
  function RsvpCallback(action: Action, eventId: int): String {
    (if action == JoinEvent then "join_" else "decline_") + IntToString(eventId)
  }

  /** Reading back an RSVP button gives its action and event. */
  lemma ParticipationTokenOfCallback(action: Action, eventId: int)
    ensures ParticipationToken(RsvpCallback(action, eventId)) == Some((action, eventId))
  {
    var word := if action == JoinEvent then "join" else "decline";
    IntToStringChars(eventId);
    assert RsvpCallback(action, eventId) == word + "_" + IntToString(eventId);
    SplitAtSeparator(word, '_', IntToString(eventId));
    SplitNoSeparator(IntToString(eventId), '_');
    ParseIntOfIntToString(eventId);
  }

  /** `int(data.replace(prefix, ""))`, as `view_event` and `delete_event` read an id. */
  function IdToken(data: String, prefix: String): Option<int>
    requires prefix != []
  {
    ParseInt(RemoveAll(data, prefix))
  }

  /** An id button's callback gives back its id. */
  lemma IdTokenOfCallback(prefix: String, eventId: int)
    requires prefix != [] && prefix[0] != '-' && !IsDigit(prefix[0])
    ensures IdToken(prefix + IntToString(eventId), prefix) == Some(eventId)
  {
    IntToStringChars(eventId);
    RemoveAllPrefix(prefix, IntToString(eventId));
    ParseIntOfIntToString(eventId);
  }
}
