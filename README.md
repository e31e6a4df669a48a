# CyEventPoll bot: a Dafny model

CyEventPoll is a Telegram bot for a club's events. A user with access creates an event through a
six-step conversation. The steps are title, description, a day on a month calendar, a time slot or
a typed time, and an optional photo. The event is stored in SQLite and posted to a channel with
"join" and "decline" buttons. Anyone can list the events, open an event's card (which lists its
participants), and press the RSVP buttons. A user with access can delete an event. Each RSVP
re-counts the event's participants and refreshes the channel post's buttons with the counts.
The repository holds two revisions:
- the package (`models.py`, `handlers.py`, `keyboards.py`, `database.py`);
- an older single-file bot (`main.py`), which follows slightly different rules.

This project models that behaviour in Dafny and proves what each handler promises.

| file | module | models |
|---|---|---|
| `wrappers.dfy` | `Wrappers` | `Option` |
| `text.dfy` | `Text` | the Python string operations the bot relies on: `isspace`, `strip`, `split`, `join`, `int()`, `str(int)`, `:02d`, `replace` |
| `models.dfy` | `Models` | the three field validators of `Event`, and building an `Event` (which collects every failing field) |
| `gregorian.dfy` | `Gregorian` | month lengths, day ordinals and weekdays (Monday 0) of the proleptic calendar that `datetime` uses |
| `keyboards.dfy` | `Keyboards` | `create_calendar` and `create_time_keyboard` as loops, proved against functions that describe the keyboards; the publish and refresh buttons |
| `markdown.dfy` | `Markdown` | `escape_markdown`, including the regular-expression pass that escapes dots outside dates |
| `tokens.dfy` | `Tokens` | reading the callback data back: calendar navigation, the picked day, the time slot, typed times, RSVP and `view_`/`delete_` ids |
| `store.dfy` | `Store` | the `events` and `participants` tables as a class, with the schema's constraints as its invariant |
| `updater.dfy` | `Updater` | `schedule_keyboard_update`: the pending buffer, the count cache and the three-attempt retry |
| `participation.dfy` | `Participation` | what an RSVP press decides, in both revisions |
| `legacy.dfy` | `Legacy` | where `main.py` differs: its date validator, its day check, its post text and length check, its buttons |
| `wizard.dfy` | `Wizard` | the conversation's steps and data, the validation probes, and the router's order of handlers |
| `handlers.dfy` | `Handlers` | the bot as a class, one method per handler: sessions, tables and refresher |

Things from outside the process are parameters (`Handlers.Env`):
- the date parser and the current instant (`Models.Clock`);
- the local date;
- the access list;
- the channel's answer to a post;
- a failure of the database connection;
- Telegram's answer to each keyboard edit.

Replies are tags; their wording is not modelled. `Handlers.EventBot.rev` says which revision's rules
apply: `Package` for the package, `SingleFile` for `main.py`.

The schema declares `ON DELETE CASCADE`, but SQLite does not enforce it, so deleting an event
leaves its participant rows behind. The model records that as a finding. The bot deletes as the
program does and leaves those rows. So the bot's invariant does not include the foreign key. It
only requires that no participant row refers to an id not handed out yet. That is enough for every
new event to start without participants. The deleted event's rows are never shown, because its
card and its RSVP buttons no longer find it.

A day picked on the calendar is zero-padded to `DD.MM.YYYY`. The event list is ordered by that
text, so it is ordered by day of the month before month and year
(`Store.DateTextOrderIsNotChronological`). That is how the code behaves.

## Model

| member | source | states |
|---|---|---|
| Models.ValidateTitle | models.py:13-19 | a title is accepted unchanged exactly when it has at most 100 characters and is not blank; longer is the too-long error, checked before the blank error |
| Models.ValidateDescription | models.py:21-27 | the same for the description, with the limit 1000 and its own two errors |
| Models.ValidateDate | models.py:29-45 | an accepted date is returned unchanged |
| Models.ValidateDateCases | models.py:29-45 | before now is the future-date error (re-raised as it is); now or later is accepted; a parser error is re-raised when its message carries "Дата события" and is the format error otherwise; accepted exactly when it parses to an instant not before now |
| Models.NewEvent | models.py:7-45 | an event is built exactly when all three validators accept, with its fields unchanged; otherwise one to three field errors |
| Models.PlaceholderValid | handlers.py:151 | the placeholder "test" passes the title and description validators |
| Text.StripTrimsWhitespace | models.py:17 | `strip()` removes exactly the leading and trailing whitespace and keeps the middle |
| Text.StripEmptyIffBlank | models.py:17 | a stripped text is empty exactly when the text is all whitespace |
| Text.JoinSplit | handlers.py:179 | joining the parts of `split("_")` with `_` gives the text back |
| Text.SplitJoin | handlers.py:179 | splitting a `_`-join of parts without `_` gives the parts back |
| Text.ParseIntOfIntToString | handlers.py:183 | `int(str(i))` is `i` for every integer |
| Gregorian.NextDayWeekday | keyboards.py:24-26 | the day after a date falls on the next weekday, modulo 7 |
| Gregorian.EpochWeekday | keyboards.py:26 | 1 January 1970 is a Thursday (3 with Monday 0), as `weekday()` gives it |
| Keyboards.CreateCalendar | keyboards.py:13-42 | the loop builds the month's keyboard: the label row with both arrows, the weekday row, the day grid of seven cells per row and the cancel row; no keyboard exactly where `datetime` raises |
| Keyboards.CalendarListsEachDayOnce | keyboards.py:24-40 | every day of the month sits in the grid at the cell after its weekday offset, and no other cell carries its callback |
| Keyboards.GridListsEachDayOnce | keyboards.py:28-40 | the same for a grid of any number of rows that fits the month |
| Keyboards.DayPosition | keyboards.py:30-33 | a cell carries a day's callback exactly when it is that day's position |
| Keyboards.DateCallbackInjective | keyboards.py:33 | two days of a month never share a `date_` callback |
| Keyboards.GridRowCount | keyboards.py:34-40 | the grid has as many rows as full weeks plus one for a partial week, `ceil((offset + days) / 7)` |
| Keyboards.CreateTimeKeyboard | keyboards.py:44-60 | the loops build 22 rows of the :00 and :30 slots for 06..23 then 00..03, then the typed-time row and the cancel row |
| Keyboards.SlotsDistinct | keyboards.py:46-57 | no two slots show the same time |
| Keyboards.SlotCallbackCarriesTime | keyboards.py:49-50 | removing `time_` from a slot's callback leaves its `HH:MM` |
| Keyboards.ClockTextShape | keyboards.py:49 | `f"{hour:02d}:{minute:02d}"` is five characters whose two fields read back as the hour and the minute |
| Markdown.EscapeMarkdown | handlers.py:78-101 | the loop over the 17 characters and the dot pass compute the escaped text; empty stays empty |
| Markdown.UnescapeEscaped | handlers.py:83-99 | removing the backslashes before dots, then before the 17 characters, gives the original text back: no information is lost |
| Markdown.DateTimeUnescaped | handlers.py:90-99 | a `DD.MM.YYYY HH:MM` date is left as it is, dots included |
| Markdown.EscapedWithoutDigits | handlers.py:86-99 | in a text without digits every dot is escaped |
| Markdown.SecondAlternativeNeverDate | handlers.py:93-99 | a match of the second alternative never starts with a date, so its dots are escaped |
| Markdown.DateKept | handlers.py:91-99 | a date at the start of a match keeps its dots and the pass continues after it |
| Tokens.Navigate | handlers.py:179-197 | an accepted navigation token gives a year in 1970..9999 and a month the calendar exists for |
| Tokens.NavigateArrow | handlers.py:176-199 | an arrow's callback gives the shifted month, or an error where the year leaves 1970..9999 or the calendar would raise |
| Tokens.ShiftMonthSteps | handlers.py:186-195 | `prev` and `next` move one month back or forward across year ends; any other action stays |
| Tokens.ShiftMonthInverse | handlers.py:186-195 | `next` undoes `prev` and the other way round |
| Tokens.DateTokenOfCallback | handlers.py:224-228 | a day button's callback gives the zero-padded `DD.MM.YYYY` of that day |
| Tokens.ParseClockAccepts | handlers.py:293-295 | a typed time that `strptime("%H:%M")` accepts is an hour and a minute in range, joined by a colon |
| Tokens.ParseClockOfClockText | handlers.py:295 | every slot's text is accepted as its own hour and minute |
| Tokens.ParticipationToken | handlers.py:461-462 | an accepted RSVP token splits into exactly two parts, the second an integer |
| Tokens.ParticipationTokenOfCallback | handlers.py:461-465 | a `join_`/`decline_` callback reads back as its action and event id |
| Tokens.IdTokenOfCallback | handlers.py:408 | a `view_`/`delete_` callback reads back as its event id |
| Store.FindEvent | handlers.py:410-414 | the lookup by id finds a stored row with that id, or no row has it |
| Store.EventStore.constructor | database.py:8-27 | empty tables that satisfy the constraints |
| Store.EventStore.InsertEvent | handlers.py:337-347 | a (title, date) pair already stored is refused and changes nothing; otherwise the row is appended with the next id and no message id |
| Store.EventStore.SetMessageId | handlers.py:372-374 | the row with that id gets the message id; nothing else changes |
| Store.EventStore.DeleteEventRow | handlers.py:452-453 | as written: only the event row goes; participant rows stay |
| Store.EventStore.DeleteEvent | database.py:26 | as declared: the event row and its participant rows go |
| Store.EventStore.Upsert | handlers.py:502-508 | `INSERT OR REPLACE`: the user's row for the event is replaced by the new one |
| Store.UpsertKeepsPairsUnique | database.py:25 | after an upsert there is still one row per (event, user) |
| Store.WithoutEventKeepsConstraints | database.py:9-16 | deleting a row keeps ids increasing and (title, date) unique |
| Store.StatusAfterUpsert | handlers.py:502-508 | after an upsert the user's status is the new one; every other (event, user) keeps theirs |
| Store.CountAfterUpsert | handlers.py:511-523 | after an upsert the counts change by exactly the one replaced row |
| Store.ParticipantsCounted | handlers.py:422-428 | the card lists as many names as the "participating" count |
| Store.FreshEventUnjoined | database.py:9 | no participant row refers to an id not handed out yet, so a new event starts with no participants |
| Store.ReferentialBounded | database.py:26 | every participant row refers to an id already handed out |
| Store.InsertKeepsReferential | database.py:26 | inserting an event keeps every participant row's event |
| Store.UpsertKeepsReferential | database.py:26 | an upsert for a stored event keeps the foreign key |
| Store.DeleteEventKeepsReferential | database.py:26 | a cascading delete keeps the foreign key |
| Store.DeleteEventRowLeavesOrphans | handlers.py:452 | the delete as written leaves a participant row pointing at the deleted event, still counted |
| Store.FindAfterDeleteEvent | handlers.py:452 | after `DELETE FROM events` the deleted id is not found, and every other id finds the row it found before |
| Store.UpsertKeepsNoFutureRefs | handlers.py:502-508 | an upsert for a stored event keeps every participant row on an id already handed out, even with rows left behind by deletes |
| Store.DeleteEventClearsParticipants | database.py:26 | after a cascading delete no one has a status for the event and its counts are 0 |
| Store.SortByDateCorrect | handlers.py:393 | `ORDER BY date` returns every row once, in date-text order |
| Store.DateTextOrderIsNotChronological | handlers.py:393 | 01.02.2025 is listed before 02.01.2025 |
| Updater.EditWithRetry | handlers.py:61-76 | one to three attempts, stopping at the first accepted one; delivered exactly when one of the three is accepted; the pauses after failed attempts |
| Updater.PausesBounded | handlers.py:73-74 | the pauses are 200 ms then 400 ms |
| Updater.KeyboardUpdater.constructor | handlers.py:26-29 | an empty buffer and an empty cache |
| Updater.KeyboardUpdater.ScheduleUpdate | handlers.py:31-59 | the call's counts are buffered, taken back as the last entry (the empty-buffer return cannot happen), the entry dropped, the cache set, the buttons rebuilt with those counts |
| Updater.CountsKeyboardReadBack | handlers.py:50-59 | both refreshed buttons read back as the RSVPs of their event |
| Participation.StatusFor | handlers.py:465 | the new status is "participating" exactly for `join` |
| Participation.DecideRecordsChanges | handlers.py:475-508 | a press is written exactly when the event exists, the status changes, and it is not a decline without a row; what is written is the pressed status |
| Participation.RecordedIsAnnounced | handlers.py:531-537 | every written press is announced: `should_notify` never fails after the earlier returns |
| Participation.ShouldNotifyIffChange | handlers.py:532-536 | `should_notify` holds exactly for the changes other than a decline without a row |
| Participation.RevisionsDiffer | main.py:502-544 | both revisions agree on every press except a decline without a row, which the single file writes without announcing |
| Legacy.LegacyValidateDateAgrees | main.py:47-55 | for the same clock, the single-file validator accepts the same dates and reports every failure, past dates included, as the format error |
| Legacy.LegacyNewEventAgrees | main.py:47-55 | for the same clock, both revisions build the same event from the same fields |
| Legacy.LegacyMidnight | main.py:274-277 | `strptime("%d.%m.%Y")` succeeds only on a four-digit year and an existing date |
| Legacy.LegacyDateStep | main.py:267-281 | a day the single file accepts is stored as the same text the package stores |
| Legacy.LegacyDateOfCallback | main.py:270-281 | a day button is accepted exactly when its midnight is not before now |
| Legacy.FourDigitYear | main.py:276 | years 1000..9999 print as four digits and read back |
| Legacy.LegacyPublishTextLength | main.py:400 | the post is 32 characters plus its three fields |
| Legacy.LegacyTooLongCases | main.py:400-404 | with valid fields only a post with an image can be too long, once the fields exceed 992 characters |
| Legacy.LegacyDeclineLabelSaysJoin | main.py:394-397 | as written, the decline button says "Учавствую" like the join button |
| Legacy.PublishLabelsDiffer | handlers.py:349-352 | the intended buttons: the decline button says "Не участвую" and the labels differ |
| Legacy.PublishKeyboardReadBack | handlers.py:349-352 | both publish buttons read back as the RSVPs of the event |
| Wizard.ProbeAccepts | handlers.py:151 | a probe `Event(...)` succeeds exactly when all three validators accept, in either revision, for the same clock |
| Wizard.TitleProbeDecides | handlers.py:150-151 | while the clock accepts tomorrow, only the title decides the title step |
| Wizard.DescriptionProbeDecides | handlers.py:162-163 | the same for the description step |
| Wizard.DateProbeDecides | handlers.py:230 | the day and time probes are decided by the date alone |
| Wizard.StrippedStaysValid | handlers.py:152 | the stripped text that is stored still passes its validator |
| Wizard.CommandsRouted | handlers.py:114-115 | `/cancel` reaches the cancel handler in every step; `/skip` saves only in the image step and is taken as text in the text steps |
| Wizard.CaptionedCommandsRouted | handlers.py:114-115 | a photo captioned `/cancel` reaches the cancel handler in every step, because the command filters read the caption; a photo captioned `/skip` is still the image step's photo |
| Wizard.MenuRouted | handlers.py:135 | the two menu buttons reach the menu handler in every step |
| Wizard.DayRouted | handlers.py:221 | a day button is handled only while a day is being picked |
| Wizard.SlotRouted | handlers.py:250 | a slot button is handled only while a time is being picked |
| Wizard.RsvpRouted | handlers.py:458 | RSVP buttons are handled in every step |
| Wizard.EventButtonsRouted | handlers.py:406-439 | the list's and the card's buttons are handled in every step |
| Wizard.PickerButtonsRouted | keyboards.py:33 | the calendar's and the time picker's buttons reach their own handlers |
| Handlers.PickedDay | handlers.py:224-231 | a stored day is the button's zero-padded day text |
| Handlers.PickedDayOfButton | handlers.py:221-232 | a day button stores that day exactly when the revision's check passes |
| Handlers.ComposePost | handlers.py:354 | the single-file post (main.py:399) is its three fields plus 32 characters of frame; the package post holds three shown fields that read back as the title, the description and the date, so nothing of the event is lost |
| Handlers.EventListReadBack | handlers.py:391-403 | the list shows each stored event once in date-text order, each button reading back as its id and reaching `view_event` |
| Handlers.ViewReplyReadBack | handlers.py:406-435 | a `view_` button shows the event's card or "not found"; the card's names are the participating count; the delete button only for access, reading back as the id |
| Handlers.SaveOutcomes | handlers.py:330-388 | only the date can make a finished session invalid; which outcomes keep the session, use up an id and leave a row; duplicates exactly on a stored (title, date) |
| Handlers.PublishedReadBack | handlers.py:349-374 | a published row keeps its fields and the post's message id; its two buttons differ and read back as its RSVPs |
| Handlers.EventBot.constructor | handlers.py:26-29 | no sessions, empty tables, an empty cache |
| Handlers.EventBot.Cancel | handlers.py:114-121 | with no step nothing changes; otherwise the session is cleared |
| Handlers.EventBot.CancelPicker | handlers.py:124-132 | the session is cleared whatever the step |
| Handlers.EventBot.Menu | handlers.py:135-144 | without access nothing changes; "create" starts the title step keeping the data; "list" shows the events |
| Handlers.EventBot.OnTitle | handlers.py:147-156 | the step advances, storing the stripped title, exactly when the probe passes, which is when the title is valid; otherwise nothing changes |
| Handlers.EventBot.OnDescription | handlers.py:159-174 | the same for the description, then the calendar of the current month |
| Handlers.EventBot.OnNavigate | handlers.py:176-218 | the shifted month's calendar, or the error; the session stays |
| Handlers.EventBot.OnDate | handlers.py:221-247 | a day that passes is stored and the time picker shown; otherwise nothing changes |
| Handlers.EventBot.OnTime | handlers.py:250-273 | the day plus the slot is stored and the image step follows exactly when it validates |
| Handlers.EventBot.OnRequestCustomTime | handlers.py:276-288 | the typed-time step follows and the data stays |
| Handlers.EventBot.OnCustomTime | handlers.py:291-309 | a typed time that parses and validates with the day is stored; otherwise nothing changes; a photo raises |
| Handlers.EventBot.OnImage | handlers.py:312-327 | the photo's id (or none for `/skip`) is stored, then the event is saved |
| Handlers.EventBot.SaveEvent | handlers.py:330-388 | the reply, the session and both tables after `save_event`, as `SaveSpec` describes them |
| Handlers.EventBot.Refuse | handlers.py:384-388 | an invalid event or a failing connection writes nothing |
| Handlers.EventBot.Insert | handlers.py:335-347 | a duplicate clears the session and writes nothing; a new row is published |
| Handlers.EventBot.Publish | handlers.py:349-380 | the post's outcome for the fresh row, as `PublishSpec` describes it |
| Handlers.EventBot.Retract | handlers.py:375-380 | a failed post deletes the fresh row again; the events table is as before the insert, and the participants and the last id are unchanged |
| Handlers.EventBot.Record | handlers.py:371-383 | a sent post records its message id on the row and clears the session |
| Handlers.EventBot.OnDelete | handlers.py:438-455 | without access nothing changes. Otherwise only the event row goes, whether or not it was stored, and the participant rows stay. Every other id finds its event as before; the deleted one's card reads "not found" and its RSVPs find no event |
| Handlers.EventBot.OnParticipation | handlers.py:458-549 | the decision, the one replaced row when written; in the package, the cache holding the counts after the write and the refreshed keyboard carrying those counts, none otherwise |
| Handlers.EventBot.OnMessage | handlers.py:102-327 | a message reaches the first matching handler. Only a photo or `/skip` in the image step writes the events table. `/start` and `/cancel` (in a text or a photo's caption) greet or cancel whatever the step. Unmatched messages change nothing |
| Handlers.EventBot.OnCallback | handlers.py:124-549 | a button press reaches the first matching handler; only delete and RSVP write the tables; `view_` shows the card |

## Left out

- Telegram I/O is left out: sending, editing and deleting messages, replies and callback answers. The channel's answer to a post and to each keyboard edit are parameters. Deleting the channel post in `delete_event` (handlers.py:445-451) is not modelled.
- The message ids of the calendar, picker and prompt messages that the session data records are left out.
- `dateutil` parsing, the EET time zone, daylight saving time and `datetime.now()` are left out. They come in as a parse function and an instant counted in minutes.
- Legacy.LegacyValidateDateAgrees: like Legacy.LegacyNewEventAgrees and Wizard.ProbeAccepts, it holds only for one clock, that is, for a host running on EET. The single file reads dates and "now" in the host's local time (main.py:50-51, 197, 209, 277). The package reads them in EET (models.py:33-39). On a host running in UTC, at 09:00 UTC on a winter day, "<today> 10:00" is past for the package (10:00 EET is 08:00 UTC) and accepted by the single file.
- `Handlers.Env.today` stands for two dates the package takes from different clocks. The first calendar's month comes from the EET date (handlers.py:166), while its "[d]" marker of today comes from the host's local date (keyboards.py:15). Around midnight these can differ, and the model does not capture that.
- Month names are those of the C locale. The Russian texts of replies and errors are tags, and escaping inside error messages is not modelled.
- `int()` accepts underscores and non-ASCII digits. Only ASCII digits with an optional sign and surrounding whitespace are modelled.
- Markdown.EscapeMarkdown: Python's `\d` in the dot pass (handlers.py:93, 99) matches every Unicode decimal digit; the model's digits are ASCII. A date written in other digits, such as "١٢.٠١.٢٠٢٥", keeps its dots in the source but has them escaped in the model.
- Tokens.ParseClockAccepts: `strptime`'s `%H` and `%M` (handlers.py:293-295) read fields of Unicode decimal digits; `Tokens.ParseClock` accepts ASCII digits only, so a typed time such as "1٧:30" is accepted by the source and refused by the model.
- Legacy.LegacyMidnight: `%Y`, `%m` and `%d` (main.py:274-277) likewise accept Unicode decimal digits; the model accepts ASCII digits only.
- aiogram also matches commands written as `/start@botname`; only the plain form is modelled.
- Concurrency is left out: each handler is modelled as one atomic step, and the update lock and the sleeps are not modelled. aiogram runs updates as concurrent tasks, and `handle_participation` counts and commits outside the lock (handlers.py:511-529). Two presses can therefore reach the lock in the reverse order, and the older counts end up on the post. The model does not capture that ordering.
- SQLite internals are left out: transactions, errors other than a failing connection or insert in `save_event` (including a failing `UPDATE` after the post), the order of rows with equal dates in `ORDER BY date`, and the order of the card's names. The card's query (handlers.py:422-426) has no `ORDER BY`, and `Store.Participants` fixes it as the order of the rows in the table.
- `start_keyboard` is the `Welcome` reply. `errors_handler` is the `Unhandled` reply of a handler whose exception escapes.
- `init_db`, `main()` and the dispatcher setup are left out; the router's order of handlers is modelled in `Wizard.RouteMessage` and `Wizard.RouteCallback`.
- Handlers.EventBot.OnMessage: states only which routes write the tables, what the commands do and what an unmatched message does; what each other route does is the contract of that handler's own method.
- Handlers.EventBot.OnCallback: likewise, states only which routes write the tables, the card reply and the unmatched case.
- Handlers.EventBot.Publish: both revisions publish with the corrected buttons of the finding below, not with `main.py`'s labels.

## Findings

| source | as written | input that shows it | evidently intended | confidence | as-written member | corrected member |
|---|---|---|---|---|---|---|
| database.py:26 | `ON DELETE CASCADE` is declared, but no connection enables `PRAGMA foreign_keys`, so `DELETE FROM events` in `delete_event` (handlers.py:452) leaves the event's participant rows behind | an event with one participant row, then its delete button: the row still refers to the deleted id | the participant rows are deleted with their event | not executed | Store.DeleteEventRowLeavesOrphans | Store.DeleteEventKeepsReferential |
| main.py:396 | the decline button of a published event is labelled "❌ Учавствую", the same word as the join button | any event published by the single-file bot | "❌ Не участвую", as the package labels it (handlers.py:351) | not executed | Legacy.LegacyDeclineLabelSaysJoin | Legacy.PublishLabelsDiffer |

Finding 1 is modelled as written by `Store.EventStore.DeleteEventRow` and corrected by `Store.EventStore.DeleteEvent`. The bot's `OnDelete` and `Retract` use the delete as written, as the program does. Only the corrected delete keeps the foreign key.

Finding 2 is modelled as written by `Legacy.LegacyPublishKeyboard` and corrected by `Keyboards.PublishKeyboard`, which the bot publishes with in both revisions.
