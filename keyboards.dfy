/**
 * The inline keyboards the bot sends: the month calendar, the time picker,
 * and the two RSVP buttons under a published event. A keyboard is a list of
 * rows, a row a list of buttons.
 */
module Keyboards {
  import opened Wrappers
  import opened Text
  import opened Gregorian

  datatype Button = Button(text: String, callback: String)

  type Keyboard = seq<seq<Button>>

  datatype Date = Date(year: int, month: int, day: int)

  const Ignore: String := "ignore"
  const Blank := Button(" ", Ignore)
  const WeekdayLabels: seq<String> := ["Пн", "Вт", "Ср", "Чт", "Пт", "Сб", "Вс"]
  const MonthNames: seq<String> :=
    ["January", "February", "March", "April", "May", "June",
     "July", "August", "September", "October", "November", "December"]
  const PrevArrow: String := "\U{2B05}\U{FE0F}"
  const NextArrow: String := "\U{27A1}\U{FE0F}"
  const CancelCalendarRow: seq<Button> := [Button("❌ Отмена", "cancel_calendar")]
  const CustomTimeRow: seq<Button> := [Button("\U{270D}\U{FE0F} Ввести своё время", "custom_time")]
  const CancelTimeRow: seq<Button> := [Button("❌ Отмена", "cancel_time")]

  // ---------------------------------------------------------------- calendar

  /** `datetime(year, month, 1).strftime('%B %Y')` in the default C locale. */
  function MonthLabel(year: int, month: int): String
    requires 1 <= month <= 12 && year >= 1
  {
    MonthNames[month - 1] + " " + NatToString(year)
  }

  /** `f"calendar_{direction}_{year}_{month}"`. */
  function NavCallback(direction: String, year: int, month: int): String {
    "calendar_" + direction + "_" + IntToString(year) + "_" + IntToString(month)
  }

  /** `f"date_{year}_{month}_{day}"`. */
  function DateCallback(year: int, month: int, day: int): String {
    "date_" + IntToString(year) + "_" + IntToString(month) + "_" + IntToString(day)
  }

  /** A day's button; today's day is shown in brackets. */
  function DayButton(year: int, month: int, day: int, today: Date): Button {
    var shown := IntToString(day);
    Button(if Date(year, month, day) == today then "[" + shown + "]" else shown, DateCallback(year, month, day))
  }

  /**
   * `create_calendar` raises unless `datetime(year, month, 1)` and the first
   * day of the following month both exist, so December 9999 has no calendar.
   */
  predicate CalendarDefined(year: int, month: int) {
    1 <= month <= 12 && MinYear <= year <= MaxYear && !(year == MaxYear && month == 12)
  }

  function FirstWeekday(year: int, month: int): int
    requires CalendarDefined(year, month)
  {
    Weekday(year, month, 1)
  }

  /** The number of week rows: the leading blanks and the days, in rows of seven, rounded up. */
  function WeekRows(year: int, month: int): int
    requires CalendarDefined(year, month)
  {
    (FirstWeekday(year, month) + DaysInMonth(year, month) + 6) / 7
  }

  /** What the day grid of one month depends on: the weekday of the 1st (Monday 0) and the month's length. */
  datatype Layout = Layout(year: int, month: int, today: Date, offset: int, lastDay: int)

  function LayoutOf(year: int, month: int, today: Date): Layout
    requires CalendarDefined(year, month)
  {
    Layout(year, month, today, FirstWeekday(year, month), DaysInMonth(year, month))
  }

  /**
   * The k-th cell of the day grid read row by row: `offset` blanks, then the
   * days 1..lastDay in order, then blanks.
   */
  function Cell(g: Layout, k: int): Button {
    if g.offset <= k < g.offset + g.lastDay then DayButton(g.year, g.month, k - g.offset + 1, g.today) else Blank
  }

  /** The n cells starting at position base. */
  function Cells(g: Layout, base: int, n: nat): seq<Button> {
    seq(n, c requires 0 <= c < n => Cell(g, base + c))
  }

  /** The first `rows` rows of the grid, seven cells each. */
  function Grid(g: Layout, rows: nat): Keyboard {
    seq(rows, r requires 0 <= r < rows => Cells(g, 7 * r, 7))
  }

  function CalendarHeader(year: int, month: int): seq<Button>
    requires CalendarDefined(year, month)
  {
    [Button(MonthLabel(year, month), Ignore), Button(PrevArrow, NavCallback("prev", year, month)),
     Button(NextArrow, NavCallback("next", year, month))]
  }

  function WeekdayRow(): seq<Button> {
    seq(7, i requires 0 <= i < 7 => Button(WeekdayLabels[i], Ignore))
  }

  /** The keyboard `create_calendar` builds. */
  function Calendar(year: int, month: int, today: Date): Keyboard
    requires CalendarDefined(year, month)
  {
    [CalendarHeader(year, month), WeekdayRow()] + Grid(LayoutOf(year, month, today), WeekRows(year, month)) + [CancelCalendarRow]
  }

  /**
   * `create_calendar(year, month)`: the month label with the two navigation
   * buttons, the weekday names, the day grid in rows of exactly seven, and
   * the cancel button; None where the source raises.
   */
  method CreateCalendar(year: int, month: int, today: Date) returns (kb: Option<Keyboard>)
    ensures kb.Some? <==> CalendarDefined(year, month)
    ensures kb.Some? ==> kb.value == Calendar(year, month, today)
  {
    if !CalendarDefined(year, month) {
      return None;
    }
    var buttons: Keyboard := [CalendarHeader(year, month), WeekdayRow()];
    var offset := FirstWeekday(year, month);
    var lastDay := DaysInMonth(year, month);
    ghost var g := LayoutOf(year, month, today);
    var week: seq<Button> := [];
    for i := 0 to offset
      invariant week == Cells(g, 0, i)
    {
      CellsSnoc(g, 0, i);
      week := week + [Blank];
    }
    ghost var full := 0;
    for day := 1 to lastDay + 1
      invariant 7 * full + |week| == offset + day - 1 && |week| < 7
      invariant buttons == [CalendarHeader(year, month), WeekdayRow()] + Grid(g, full)
      invariant week == Cells(g, 7 * full, |week|)
    {
      CellsSnoc(g, 7 * full, |week|);
      week := week + [DayButton(year, month, day, today)];
      if |week| == 7 {
        GridSnoc(g, full);
        assert buttons + [week] == [CalendarHeader(year, month), WeekdayRow()] + (Grid(g, full) + [week]);
        buttons := buttons + [week];
        week := [];
        full := full + 1;
      }
    }
    GridRowCount(offset, lastDay, full, |week|);
    if |week| > 0 {
      while |week| < 7
        invariant 7 * full + |week| >= offset + lastDay && |week| <= 7
        invariant week == Cells(g, 7 * full, |week|)
        decreases 7 - |week|
      {
        CellsSnoc(g, 7 * full, |week|);
        week := week + [Blank];
      }
      GridSnoc(g, full);
      assert buttons + [week] == [CalendarHeader(year, month), WeekdayRow()] + (Grid(g, full) + [week]);
      buttons := buttons + [week];
      full := full + 1;
    }
    assert full == WeekRows(year, month);
    assert buttons == [CalendarHeader(year, month), WeekdayRow()] + Grid(g, full);
    buttons := buttons + [CancelCalendarRow];
    kb := Some(buttons);
  }

  lemma CellsSnoc(g: Layout, base: int, n: nat)
    ensures Cells(g, base, n) + [Cell(g, base + n)] == Cells(g, base, n + 1)
  {
  }

  lemma GridSnoc(g: Layout, rows: nat)
    ensures Grid(g, rows) + [Cells(g, 7 * rows, 7)] == Grid(g, rows + 1)
  {
  }

  /** Full rows plus a partial row, if any, is the rounded-up count. */
  lemma GridRowCount(offset: int, lastDay: int, full: int, partial: int)
    requires 7 * full + partial == offset + lastDay && 0 <= partial < 7
    ensures (offset + lastDay + 6) / 7 == full + (if partial > 0 then 1 else 0)
  {
  }

  /** Day d sits at position offset + d - 1 of the grid, and at no other. */
  lemma DayPosition(g: Layout, d: int, k: int)
    requires 1 <= d <= g.lastDay
    ensures Cell(g, k).callback == DateCallback(g.year, g.month, d) <==> k == g.offset + d - 1
  {
    if g.offset <= k < g.offset + g.lastDay && Cell(g, k).callback == DateCallback(g.year, g.month, d) {
      DateCallbackInjective(g.year, g.month, k - g.offset + 1, d);
    }
    if !(g.offset <= k < g.offset + g.lastDay) {
      assert Cell(g, k).callback[0] != DateCallback(g.year, g.month, d)[0];
    }
  }

  /** Distinct days of one month carry distinct callbacks. */
  lemma DateCallbackInjective(year: int, month: int, d1: int, d2: int)
    requires d1 >= 1 && d2 >= 1
    requires DateCallback(year, month, d1) == DateCallback(year, month, d2)
    ensures d1 == d2
  {
    var prefix := "date_" + IntToString(year) + "_" + IntToString(month) + "_";
    assert DateCallback(year, month, d1) == prefix + NatToString(d1);
    assert DateCallback(year, month, d2) == prefix + NatToString(d2);
    assert NatToString(d1) == DateCallback(year, month, d1)[|prefix|..];
    NatToStringInjective(d1, d2);
  }

  /** In a grid with room for every day, day d sits at row k / 7 and column k % 7, k = offset + d - 1, and nowhere else. */
  lemma GridListsEachDayOnce(g: Layout, rows: nat, d: int)
    requires 0 <= g.offset && g.offset + g.lastDay <= 7 * rows && 1 <= d <= g.lastDay
    ensures var k := g.offset + d - 1;
      k / 7 < rows && Grid(g, rows)[k / 7][k % 7] == DayButton(g.year, g.month, d, g.today)
    ensures forall r, c :: 0 <= r < rows && 0 <= c < 7 && Grid(g, rows)[r][c].callback == DateCallback(g.year, g.month, d)
                       ==> r == (g.offset + d - 1) / 7 && c == (g.offset + d - 1) % 7
  {
    var k := g.offset + d - 1;
    assert Grid(g, rows)[k / 7][k % 7] == Cell(g, 7 * (k / 7) + k % 7);
    forall r, c | 0 <= r < rows && 0 <= c < 7 && Grid(g, rows)[r][c].callback == DateCallback(g.year, g.month, d)
      ensures r == k / 7 && c == k % 7
    {
      assert Grid(g, rows)[r][c] == Cell(g, 7 * r + c);
      DayPosition(g, d, 7 * r + c);
    }
  }

  /**
   * Every day of the month appears in the calendar exactly once, at row
   * (offset + d - 1) / 7 of the grid and column (offset + d - 1) % 7, so the
   * days run in order along the rows starting under the 1st's weekday.
   */
  lemma CalendarListsEachDayOnce(year: int, month: int, today: Date, d: int)
    requires CalendarDefined(year, month) && 1 <= d <= DaysInMonth(year, month)
    ensures var kb := Calendar(year, month, today);
      var k := FirstWeekday(year, month) + d - 1;
      2 + k / 7 < |kb| - 1 && kb[2 + k / 7][k % 7] == DayButton(year, month, d, today)
    ensures var kb := Calendar(year, month, today);
      forall r, c :: 2 <= r < |kb| - 1 && 0 <= c < 7 && kb[r][c].callback == DateCallback(year, month, d)
                 ==> r == 2 + (FirstWeekday(year, month) + d - 1) / 7 && c == (FirstWeekday(year, month) + d - 1) % 7
  {
    var kb := Calendar(year, month, today);
    var g := LayoutOf(year, month, today);
    var rows := WeekRows(year, month);
    var grid := Grid(g, rows);
    GridListsEachDayOnce(g, rows, d);
    assert kb == [CalendarHeader(year, month), WeekdayRow()] + grid + [CancelCalendarRow];
    assert forall r :: 2 <= r < |kb| - 1 ==> kb[r] == grid[r - 2];
  }

  // ---------------------------------------------------------------- time picker

  /** `f"{hour:02d}:{minute:02d}"`. */
  function ClockText(hour: int, minute: int): String {
    Pad2(hour) + ":" + Pad2(minute)
  }

  function SlotButton(hour: int, minute: int): Button {
    Button(ClockText(hour, minute), "time_" + ClockText(hour, minute))
  }

  /** Row r of the picker holds the hour 06..23 and then 00..03. */
  function SlotHour(r: int): int {
    if r < 18 then r + 6 else r - 18
  }

  predicate IsTimeKeyboard(kb: Keyboard) {
    |kb| == 24
    && (forall r :: 0 <= r < 22 ==> kb[r] == [SlotButton(SlotHour(r), 0), SlotButton(SlotHour(r), 30)])
    && kb[22] == CustomTimeRow
    && kb[23] == CancelTimeRow
  }

  /**
   * `create_time_keyboard()`: 22 rows of the two half-hour slots of one hour,
   * 06:00 to 23:30 and then 00:00 to 03:30, followed by the custom-time row
   * and the cancel row.
   */
  method CreateTimeKeyboard() returns (kb: Keyboard)
    ensures IsTimeKeyboard(kb)
  {
    var minutes := [0, 30];
    var buttons: Keyboard := [];
    for hour := 6 to 24
      invariant |buttons| == hour - 6
      invariant forall r :: 0 <= r < |buttons| ==> buttons[r] == [SlotButton(SlotHour(r), 0), SlotButton(SlotHour(r), 30)]
    {
      var row: seq<Button> := [];
      for i := 0 to 2
        invariant row == seq(i, j requires 0 <= j < i => SlotButton(hour, minutes[j]))
      {
        row := row + [SlotButton(hour, minutes[i])];
      }
      buttons := buttons + [row];
    }
    for hour := 0 to 4
      invariant |buttons| == 18 + hour
      invariant forall r :: 0 <= r < |buttons| ==> buttons[r] == [SlotButton(SlotHour(r), 0), SlotButton(SlotHour(r), 30)]
    {
      var row: seq<Button> := [];
      for i := 0 to 2
        invariant row == seq(i, j requires 0 <= j < i => SlotButton(hour, minutes[j]))
      {
        row := row + [SlotButton(hour, minutes[i])];
      }
      buttons := buttons + [row];
    }
    buttons := buttons + [CustomTimeRow];
    buttons := buttons + [CancelTimeRow];
    kb := buttons;
  }

  /** The clock text of an hour and minute in range is two digits, a colon, two digits. */
  lemma ClockTextShape(hour: int, minute: int)
    requires 0 <= hour < 24 && 0 <= minute < 60
    ensures var t := ClockText(hour, minute);
      |t| == 5 && t[2] == ':' && AllDigits(t[..2]) && AllDigits(t[3..])
      && DigitsValue(t[..2]) == hour && DigitsValue(t[3..]) == minute
  {
    Pad2TwoDigits(hour);
    Pad2TwoDigits(minute);
    var t := ClockText(hour, minute);
    assert t[..2] == Pad2(hour) && t[3..] == Pad2(minute);
  }

  /** No two slots of the picker show the same time. */
  lemma SlotsDistinct(r1: int, m1: int, r2: int, m2: int)
    requires 0 <= r1 < 22 && 0 <= r2 < 22 && m1 in {0, 30} && m2 in {0, 30}
    requires ClockText(SlotHour(r1), m1) == ClockText(SlotHour(r2), m2)
    ensures r1 == r2 && m1 == m2
  {
    ClockTextShape(SlotHour(r1), m1);
    ClockTextShape(SlotHour(r2), m2);
  }

  /** Removing `time_` from a slot's callback gives back exactly the time it shows. */
  lemma SlotCallbackCarriesTime(hour: int, minute: int)
    requires 0 <= hour < 24 && 0 <= minute < 60
    ensures RemoveAll(SlotButton(hour, minute).callback, "time_") == ClockText(hour, minute)
  {
    ClockTextShape(hour, minute);
    var t := ClockText(hour, minute);
    forall i | 0 <= i < |t| ensures t[i] != 't' {
      if i < 2 { assert t[i] == t[..2][i]; } else if i > 2 { assert t[i] == t[3..][i - 3]; }
    }
    RemoveAllPrefix("time_", t);
  }

  // ---------------------------------------------------------------- RSVP buttons

  /** The buttons under a freshly published event, without counts. */
  function PublishKeyboard(eventId: int): Keyboard {
    [[Button("✅ Участвую", "join_" + IntToString(eventId)),
      Button("❌ Не участвую", "decline_" + IntToString(eventId))]]
  }

  /** The buttons with the current counts, as the debounced refresh rebuilds them. */
  function CountsKeyboard(eventId: int, joining: int, declining: int): Keyboard {
    [[Button("✅ Участвую (" + IntToString(joining) + ")", "join_" + IntToString(eventId)),
      Button("❌ Не участвую (" + IntToString(declining) + ")", "decline_" + IntToString(eventId))]]
  }
}
