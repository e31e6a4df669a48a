/**
 * The bot: every user's conversation state, the two tables and the keyboard
 * refresher, with one method per handler and the two dispatchers that pick a
 * handler the way the router does. Both revisions run on the same class; its
 * `rev` says whose rules apply where they differ.
 *
 * Everything from outside the process comes in as an `Env`: the clock, the
 * local date and tomorrow's text, the access list, the channel's answer to a
 * post, a failure of the database connection, and Telegram's answers to
 * keyboard edits. Replies are tags; their Russian wording is not modelled.
 */
module Handlers {
  import opened Wrappers
  import opened Text
  import opened Models
  import Keyboards
  import opened Markdown
  import opened Tokens
  import opened Store
  import opened Updater
  import opened Participation
  import opened Legacy
  import opened Wizard
  import Gregorian

  datatype Env = Env(
    clock: Clock,                 // the date parser and the current instant
    tomorrow: String,             // now plus one day, as "%d.%m.%Y %H:%M"
    today: Keyboards.Date,        // the first calendar's month and its today marker (EET and host dates, taken as one)
    allowed: int -> bool,         // `check_access`
    posted: Option<int>,          // the channel's answer to the post: its message id, or an error
    storeFault: bool,             // the connection or the insert fails other than on UNIQUE
    edits: nat -> bool)           // Telegram's answer to the k-th keyboard edit attempt

  datatype Reply =
    | Denied                                   // access refused
    | Welcome                                  // the greeting with the start keyboard
    | NothingToCancel
    | Cancelled
    | AskTitle
    | AskDescription
    | Invalid(errors: seq<FieldError>)         // the `ValueError` of an `Event(...)` probe
    | NotText                                  // a photo where a text field was expected
    | AskDate(calendar: Option<Keyboards.Keyboard>)  // None: the calendar raised after the step moved on
    | ShowCalendar(month: Keyboards.Keyboard)
    | NavigationError
    | AskTime(slots: Keyboards.Keyboard)
    | DateError
    | AskImage
    | AskTypedTime
    | TimeError
    | AskPhotoOrSkip
    | DuplicateEvent
    | TooLong                                  // the single-file revision's length check
    | PublishError
    | Published(post: String, buttons: Keyboards.Keyboard)
    | SaveError
    | SaveErrorThenPublished                   // the single-file revision: the error, then the success message
    | NoEvents
    | EventList(buttons: Keyboards.Keyboard)
    | NotFound
    | EventCard(text: String, buttons: Keyboards.Keyboard)
    | EventDeleted
    | Rsvp(outcome: Outcome)
    | LegacyRsvp(legacyOutcome: LegacyOutcome)
    | Unhandled                                // an exception outside the handler's `try`
    | Ignored                                  // no handler matches

  // ---------------------------------------------------------------- the texts and keyboards shown

  /** A stored text as the revision shows it: escaped by the package, as it is by the single file. */
  function Shown(rev: Revision, s: String): String {
    if rev == Package then Escaped(s) else s
  }

  /** The package's post around its three shown fields: the title in bold, the description, the date. */
  function PackagePost(title: String, description: String, date: String): String {
    "📅 **" + title + "**\n\n" + description + "\n\n🕒 **Дата и время**: " + date
  }

  /** The text of the channel post. */
  function Post(rev: Revision, title: String, description: String, date: String): String {
    if rev == SingleFile then LegacyPublishText(title, description, date)
    else PackagePost(Escaped(title), Escaped(description), Escaped(date))
  }

  /** What a reader of a shown field recovers: the backslashes `escape_markdown` added are dropped. */
  function Unshown(s: String): String {
    Unescape(Unescape(s, {'.'}), Chars(Special))
  }

  /** One row of the event list: the title and date, and the event's `view_` button. */
  function ListButton(rev: Revision, row: EventRow): Keyboards.Button {
    Keyboards.Button("📅 " + Shown(rev, row.title) + " (" + Shown(rev, row.date) + ")", "view_" + IntToString(row.id))
  }

  function EventListKeyboard(rev: Revision, rows: seq<EventRow>): Keyboards.Keyboard {
    seq(|rows|, i requires 0 <= i < |rows| => [ListButton(rev, rows[i])])
  }

  /** `show_events`: the events ordered by their date text, one button each. */
  function EventsReply(rev: Revision, events: seq<EventRow>): Reply {
    if events == [] then NoEvents else EventList(EventListKeyboard(rev, SortByDate(events)))
  }

  /** The participants part of the card: one line per name, or the "nobody" line. */
  function ParticipantLines(rev: Revision, names: seq<String>): String {
    if names == [] then "🚶‍♂️ Нет участников."
    else Join(seq(|names|, i requires 0 <= i < |names| => "👤 @" + Shown(rev, names[i])), '\n')
  }

  function CardText(rev: Revision, row: EventRow, names: seq<String>): String {
    "📅 **" + Shown(rev, row.title) + "**\n\n📝 " + Shown(rev, row.description)
    + "\n\n🕒 **Дата и время**: " + Shown(rev, row.date) + "\n\n👥 **Участники**:\n" + ParticipantLines(rev, names)
  }

  /** The card's delete button, offered only to users with access. */
  function DeleteButtons(allowed: bool, eventId: int): Keyboards.Keyboard {
    if allowed then [[Keyboards.Button("🗑 Удалить событие", "delete_" + IntToString(eventId))]] else []
  }

  /** `view_event`: the id after `view_`, the event's card with its participating users, or "not found". */
  function ViewReply(rev: Revision, events: seq<EventRow>, ps: seq<ParticipantRow>, data: String, allowed: bool): Reply {
    match IdToken(data, "view_")
    case None => Unhandled
    case Some(id) =>
      match FindEvent(events, id)
      case None => NotFound
      case Some(row) => EventCard(CardText(rev, row, Participants(ps, id)), DeleteButtons(allowed, id))
  }

  // ---------------------------------------------------------------- the wizard's checks

  /**
   * The day a calendar button stores: the package probes that day at 00:00
   * with the date validator, the single file compares its midnight with now.
   * Either way what is stored is the button's zero-padded day text.
   */
  function PickedDay(rev: Revision, clock: Clock, data: String): (r: Option<String>)
    ensures r.Some? ==> r == DateToken(data)
  {
    if rev == SingleFile then LegacyDateStep(data, clock.now)
    else
      var token := DateToken(data);
      if token.Some? && Probe(rev, clock, Placeholder, Placeholder, token.value + " 00:00").Accepted? then token else None
  }

  /** `Event(title=..., description=..., date=..., image_id=...)` on the session's data. */
  function Build(rev: Revision, clock: Clock, d: Data): Validated
    requires d.title.Some? && d.description.Some? && d.date.Some?
  {
    if rev == SingleFile then LegacyNewEvent(clock, d.title.value, d.description.value, d.date.value, d.imageId)
    else NewEvent(clock, d.title.value, d.description.value, d.date.value, d.imageId)
  }

  /**
   * What `save_event` does, as a value: the reply, whether the session is
   * kept, whether a row was inserted (and so an id used up), and the row
   * that stays in the table.
   */
  datatype Save = Save(reply: Reply, keep: bool, inserted: bool, row: Option<EventRow>)

  function SaveSpec(rev: Revision, env: Env, d: Data, events: seq<EventRow>, lastId: int): Save
    requires d.title.Some? && d.description.Some? && d.date.Some?
  {
    var title, description, date := d.title.value, d.description.value, d.date.value;
    var built := Build(rev, env.clock, d);
    if built.Rejected? then Save(Invalid(built.errors), true, false, None)
    else if env.storeFault then
      if rev == Package then Save(SaveError, true, false, None) else Save(SaveErrorThenPublished, false, false, None)
    else if Clashes(events, title, date) then Save(DuplicateEvent, false, false, None)
    else PublishSpec(rev, env, EventRow(lastId + 1, title, description, date, d.imageId, None))
  }

  /**
   * What happens to a row once inserted: the single file's length check
   * keeps it without a message id; a failed post deletes it; a post that
   * goes through records its message id.
   */
  function PublishSpec(rev: Revision, env: Env, row: EventRow): Save {
    if rev == SingleFile && LegacyTooLong(LegacyPublishText(row.title, row.description, row.date), row.imageId) then
      Save(TooLong, true, true, Some(row))
    else if env.posted.None? then Save(PublishError, true, true, None)
    else
      Save(Published(Post(rev, row.title, row.description, row.date), Keyboards.PublishKeyboard(row.id)), false, true,
           Some(row.(messageId := env.posted)))
  }

  /**
   * The post as `save_event` formats it. The single file puts the fields in
   * as they are, 32 characters of frame around them. The package escapes
   * each field, and each shown field reads back as the field itself, so the
   * post loses nothing of the event.
   */
  method ComposePost(rev: Revision, title: String, description: String, date: String) returns (post: String)
    ensures post == Post(rev, title, description, date)
    ensures rev == SingleFile ==> |post| == 32 + |title| + |description| + |date|
    ensures rev == Package ==>
      exists t, ds, dt :: post == PackagePost(t, ds, dt) && Unshown(t) == title && Unshown(ds) == description && Unshown(dt) == date
  {
    if rev == SingleFile {
      LegacyPublishTextLength(title, description, date);
      return LegacyPublishText(title, description, date);
    }
    var t := EscapeMarkdown(title);
    var ds := EscapeMarkdown(description);
    var dt := EscapeMarkdown(date);
    UnescapeEscaped(title);
    UnescapeEscaped(description);
    UnescapeEscaped(date);
    post := "📅 **" + t + "**\n\n" + ds + "\n\n🕒 **Дата и время**: " + dt;
    assert post == PackagePost(t, ds, dt);
  }

  // ---------------------------------------------------------------- what the replies promise

  /**
   * The event list shows every stored event once, in date-text order, and
   * each button reads back as its own event's id and reaches `view_event`
   * in every step.
   */
  lemma EventListReadBack(rev: Revision, events: seq<EventRow>, step: Option<Step>)
    requires events != []
    ensures EventsReply(rev, events).EventList?
    ensures var kb, rows := EventsReply(rev, events).buttons, SortByDate(events);
      |kb| == |rows| == |events| && SortedByDate(rows) && multiset(rows) == multiset(events)
      && forall i :: 0 <= i < |kb| ==>
           |kb[i]| == 1 && IdToken(kb[i][0].callback, "view_") == Some(rows[i].id)
           && RouteCallback(kb[i][0].callback, step) == ToView
  {
    var rows := SortByDate(events);
    SortByDateCorrect(events);
    assert |rows| == |multiset(rows)| == |multiset(events)| == |events|;
    var kb: Keyboards.Keyboard := EventListKeyboard(rev, rows);
    forall i | 0 <= i < |kb|
      ensures IdToken(kb[i][0].callback, "view_") == Some(rows[i].id)
      ensures RouteCallback(kb[i][0].callback, step) == ToView
    {
      IdTokenOfCallback("view_", rows[i].id);
      EventButtonsRouted(rows[i].id, step);
    }
  }

  /**
   * A `view_` button shows the card of the stored event with that id, or
   * "not found" once it is gone; the card names as many users as the
   * "participating" counter counts, and its delete button, shown only to
   * users with access, reads back as the same id and reaches `delete_event`.
   */
  lemma ViewReplyReadBack(rev: Revision, events: seq<EventRow>, ps: seq<ParticipantRow>, id: int, allowed: bool, step: Option<Step>)
    ensures var r := ViewReply(rev, events, ps, "view_" + IntToString(id), allowed);
      match FindEvent(events, id)
      case None => r == NotFound
      case Some(row) =>
        r == EventCard(CardText(rev, row, Participants(ps, id)), DeleteButtons(allowed, id))
        && |Participants(ps, id)| == CountStatus(ps, id, Participating)
    ensures !allowed ==> DeleteButtons(allowed, id) == []
    ensures allowed ==>
      var kb := DeleteButtons(allowed, id);
      |kb| == 1 && |kb[0]| == 1 && IdToken(kb[0][0].callback, "delete_") == Some(id)
      && RouteCallback(kb[0][0].callback, step) == ToDelete
  {
    IdTokenOfCallback("view_", id);
    IdTokenOfCallback("delete_", id);
    EventButtonsRouted(id, step);
    ParticipantsCounted(ps, id);
  }

  /**
   * A calendar day button stores that day's `DD.MM.YYYY` text exactly when
   * the revision's check passes: the package's validator accepts the day at
   * 00:00, the single file's midnight of that day is not before now.
   */
  lemma PickedDayOfButton(rev: Revision, clock: Clock, year: int, month: int, day: int)
    requires Gregorian.ValidDate(year, month, day) && year >= 1000
    ensures var text := Pad2(day) + "." + Pad2(month) + "." + IntToString(year);
      var passes := if rev == Package then ValidateDate(clock, text + " 00:00").Ok?
                    else (Gregorian.Ordinal(year, month, day) - 1) * MinutesPerDay >= clock.now;
      PickedDay(rev, clock, Keyboards.DateCallback(year, month, day)) == if passes then Some(text) else None
  {
    var text := Pad2(day) + "." + Pad2(month) + "." + IntToString(year);
    DateTokenOfCallback(year, month, day);
    DateProbeDecides(rev, clock, text + " 00:00");
    LegacyDateOfCallback(year, month, day, clock.now);
  }

  /**
   * The outcomes of `save_event` on a session that reached the image step.
   * Its title and description were checked on the way, so only the date can
   * make the event invalid. A session is kept exactly for another try: an
   * invalid event, the package's store failure, an over-long single-file
   * post and a failed post. An id is used up exactly when the row was
   * inserted, and a row stays exactly when the post is too long or went
   * out; a new row carries the next id and the session's fields.
   */
  lemma SaveOutcomes(rev: Revision, env: Env, d: Data, events: seq<EventRow>, lastId: int)
    requires WellFormed(Session(Some(Image), d))
    ensures var r := SaveSpec(rev, env, d, events, lastId);
      (r.reply.Invalid? <==> !ValidateDate(env.clock, d.date.value).Ok?)
      && (r.keep <==> r.reply.Invalid? || r.reply == SaveError || r.reply == TooLong || r.reply == PublishError)
      && (r.inserted <==> r.reply == TooLong || r.reply == PublishError || r.reply.Published?)
      && (r.row.Some? <==> r.reply == TooLong || r.reply.Published?)
      && (r.reply == DuplicateEvent <==>
            ValidateDate(env.clock, d.date.value).Ok? && !env.storeFault && Clashes(events, d.title.value, d.date.value))
      && (ValidateDate(env.clock, d.date.value).Ok? && !env.storeFault && !Clashes(events, d.title.value, d.date.value) ==>
            r == PublishSpec(rev, env, EventRow(lastId + 1, d.title.value, d.description.value, d.date.value, d.imageId, None)))
  {
    ProbeAccepts(rev, env.clock, d.title.value, d.description.value, d.date.value);
    LegacyNewEventAgrees(env.clock, d.title.value, d.description.value, d.date.value, d.imageId);
  }

  /**
   * What a published row keeps and what its post and buttons carry: the
   * row's own fields with the post's message id, the revision's post text,
   * and two differently labelled buttons that read back as the RSVPs of
   * the row's id.
   */
  lemma PublishedReadBack(rev: Revision, env: Env, row: EventRow)
    requires PublishSpec(rev, env, row).reply.Published?
    ensures var r := PublishSpec(rev, env, row);
      env.posted.Some? && r.row == Some(row.(messageId := env.posted)) && !r.keep
      && r.reply.post == Post(rev, row.title, row.description, row.date)
      && ParticipationToken(r.reply.buttons[0][0].callback) == Some((JoinEvent, row.id))
      && ParticipationToken(r.reply.buttons[0][1].callback) == Some((DeclineEvent, row.id))
      && r.reply.buttons[0][0].text != r.reply.buttons[0][1].text
  {
    PublishKeyboardReadBack(row.id);
    PublishLabelsDiffer(row.id);
  }

  // ---------------------------------------------------------------- the bot

  class EventBot {
    const rev: Revision
    /** The FSM storage: each user's step and data; a user without an entry has none. */
    var sessions: map<int, Session>
    const store: EventStore
    const updater: KeyboardUpdater

    /**
     * The schema's constraints, participant rows only on ids already
     * handed out (deleting an event leaves its rows, so the foreign key
     * itself does not hold), no queued refresh between calls, and every
     * session well formed.
     */
    ghost predicate Valid()
      reads this, store, updater
    {
      store.Valid() && NoFutureRefs(store.participants, store.lastId) && updater.Idle()
      && forall u :: u in sessions ==> WellFormed(sessions[u])
    }

    function SessionOf(u: int): Session
      reads this
    {
      if u in sessions then sessions[u] else NoSession
    }

    constructor (rev: Revision)
      ensures Valid() && this.rev == rev && sessions == map[]
      ensures fresh(store) && fresh(updater)
      ensures store.events == [] && store.participants == [] && updater.counts == map[]
    {
      this.rev := rev;
      sessions := map[];
      store := new EventStore();
      updater := new KeyboardUpdater();
    }

    // ------------------------------------------------------------ cancelling

    /** `cancel_command`: with no step there is nothing to cancel; otherwise the session is cleared. */
    method Cancel(u: int) returns (reply: Reply)
      requires Valid()
      modifies this
      ensures Valid()
      ensures old(SessionOf(u)).step.None? ==> reply == NothingToCancel && sessions == old(sessions)
      ensures old(SessionOf(u)).step.Some? ==> reply == Cancelled && sessions == old(sessions)[u := NoSession]
    {
      if SessionOf(u).step.None? {
        return NothingToCancel;
      }
      sessions := sessions[u := NoSession];
      reply := Cancelled;
    }

    /** `cancel_calendar_time`: the session is cleared whatever the step. */
    method CancelPicker(u: int) returns (reply: Reply)
      requires Valid()
      modifies this
      ensures Valid()
      ensures reply == Cancelled && sessions == old(sessions)[u := NoSession]
    {
      sessions := sessions[u := NoSession];
      reply := Cancelled;
    }

    // ------------------------------------------------------------ the menu

    /**
     * `process_action`: for users with access, "create" starts the title
     * step keeping whatever data the session holds, and "list" shows the
     * events.
     */
    method Menu(u: int, text: String, env: Env) returns (reply: Reply)
      requires Valid() && (text == MenuCreate || text == MenuList)
      modifies this
      ensures Valid()
      ensures !env.allowed(u) ==> reply == Denied && sessions == old(sessions)
      ensures env.allowed(u) && text == MenuCreate ==>
        reply == AskTitle && sessions == old(sessions)[u := Session(Some(Title), old(SessionOf(u)).data)]
      ensures env.allowed(u) && text == MenuList ==> reply == EventsReply(rev, store.events) && sessions == old(sessions)
    {
      assert MenuCreate[0] != MenuList[0];
      if !env.allowed(u) {
        return Denied;
      }
      if text == MenuCreate {
        sessions := sessions[u := Session(Some(Title), SessionOf(u).data)];
        reply := AskTitle;
      } else {
        reply := EventsReply(rev, store.events);
      }
    }

    // ------------------------------------------------------------ the title and the description

    /**
     * `process_title`: the raw text is probed with the placeholder
     * description and tomorrow's date; if the probe passes, the stripped
     * text is stored and the description step follows. Otherwise nothing
     * changes. While the clock accepts tomorrow, only the title decides.
     */
    method OnTitle(u: int, m: Incoming, env: Env) returns (reply: Reply)
      requires Valid() && SessionOf(u).step == Some(Title)
      modifies this
      ensures Valid()
      ensures var accepted := m.TextMessage? && Probe(rev, env.clock, m.text, Placeholder, env.tomorrow).Accepted?;
        (accepted ==>
          reply == AskDescription
          && sessions == old(sessions)[u := Session(Some(Description), old(SessionOf(u)).data.(title := Some(Strip(m.text))))])
        && (!accepted ==>
          sessions == old(sessions)
          && reply == if m.TextMessage? then Invalid(Probe(rev, env.clock, m.text, Placeholder, env.tomorrow).errors) else NotText)
      ensures ValidateDate(env.clock, env.tomorrow).Ok? ==>
        ((m.TextMessage? && Probe(rev, env.clock, m.text, Placeholder, env.tomorrow).Accepted?)
         <==> m.TextMessage? && ValidateTitle(m.text).Ok?)
    {
      if m.PhotoMessage? {
        return NotText;
      }
      if ValidateDate(env.clock, env.tomorrow).Ok? {
        TitleProbeDecides(rev, env.clock, env.tomorrow, m.text);
      }
      var probe := Probe(rev, env.clock, m.text, Placeholder, env.tomorrow);
      if probe.Rejected? {
        return Invalid(probe.errors);
      }
      ProbeAccepts(rev, env.clock, m.text, Placeholder, env.tomorrow);
      StrippedStaysValid(m.text);
      sessions := sessions[u := Session(Some(Description), SessionOf(u).data.(title := Some(Strip(m.text))))];
      reply := AskDescription;
    }

    /**
     * `process_description`: the same probe for the description; on success
     * the stripped text is stored, the date step follows and the calendar of
     * the current month is shown. The step has moved on even when that
     * calendar raises.
     */
    method OnDescription(u: int, m: Incoming, env: Env) returns (reply: Reply)
      requires Valid() && SessionOf(u).step == Some(Description)
      modifies this
      ensures Valid()
      ensures var accepted := m.TextMessage? && Probe(rev, env.clock, Placeholder, m.text, env.tomorrow).Accepted?;
        (accepted ==>
          sessions == old(sessions)[u := Session(Some(Date), old(SessionOf(u)).data.(description := Some(Strip(m.text))))]
          && reply == AskDate(
            if Keyboards.CalendarDefined(env.today.year, env.today.month)
            then Some(Keyboards.Calendar(env.today.year, env.today.month, env.today)) else None))
        && (!accepted ==>
          sessions == old(sessions)
          && reply == if m.TextMessage? then Invalid(Probe(rev, env.clock, Placeholder, m.text, env.tomorrow).errors) else NotText)
      ensures ValidateDate(env.clock, env.tomorrow).Ok? ==>
        ((m.TextMessage? && Probe(rev, env.clock, Placeholder, m.text, env.tomorrow).Accepted?)
         <==> m.TextMessage? && ValidateDescription(m.text).Ok?)
    {
      if m.PhotoMessage? {
        return NotText;
      }
      if ValidateDate(env.clock, env.tomorrow).Ok? {
        DescriptionProbeDecides(rev, env.clock, env.tomorrow, m.text);
      }
      var probe := Probe(rev, env.clock, Placeholder, m.text, env.tomorrow);
      if probe.Rejected? {
        return Invalid(probe.errors);
      }
      ProbeAccepts(rev, env.clock, Placeholder, m.text, env.tomorrow);
      StrippedStaysValid(m.text);
      sessions := sessions[u := Session(Some(Date), SessionOf(u).data.(description := Some(Strip(m.text))))];
      var calendar := Keyboards.CreateCalendar(env.today.year, env.today.month, env.today);
      reply := AskDate(calendar);
    }

    // ------------------------------------------------------------ the day and the time

    /** `process_calendar_navigation`: the shifted month's calendar, or an error; the session stays as it is. */
    method OnNavigate(data: String, env: Env) returns (reply: Reply)
      ensures Navigate(data).None? ==> reply == NavigationError
      ensures Navigate(data).Some? ==>
        reply == ShowCalendar(Keyboards.Calendar(Navigate(data).value.0, Navigate(data).value.1, env.today))
    {
      var target := Navigate(data);
      if target.None? {
        return NavigationError;
      }
      var calendar := Keyboards.CreateCalendar(target.value.0, target.value.1, env.today);
      if calendar.None? {
        assert false;
        return NavigationError;
      }
      reply := ShowCalendar(calendar.value);
    }

    /** `process_date_callback`: a day that passes the revision's check is stored and the time picker shown. */
    method OnDate(u: int, data: String, env: Env) returns (reply: Reply)
      requires Valid() && SessionOf(u).step == Some(Date)
      modifies this
      ensures Valid()
      ensures PickedDay(rev, env.clock, data).Some? ==>
        sessions == old(sessions)[u := Session(Some(Time), old(SessionOf(u)).data.(date := PickedDay(rev, env.clock, data)))]
        && reply.AskTime? && Keyboards.IsTimeKeyboard(reply.slots)
      ensures PickedDay(rev, env.clock, data).None? ==> sessions == old(sessions) && reply == DateError
    {
      var day := PickedDay(rev, env.clock, data);
      if day.None? {
        return DateError;
      }
      sessions := sessions[u := Session(Some(Time), SessionOf(u).data.(date := day))];
      var slots := Keyboards.CreateTimeKeyboard();
      reply := AskTime(slots);
    }

    /**
     * `process_time_callback`: the data without `time_` is appended to the
     * stored day; the result is probed with the date validator and, if it
     * passes, stored as the date before the image step.
     */
    method OnTime(u: int, data: String, env: Env) returns (reply: Reply)
      requires Valid() && SessionOf(u).step == Some(Time)
      modifies this
      ensures Valid()
      ensures var stamp := old(SessionOf(u)).data.date.value + " " + RemoveAll(data, "time_");
        (ValidateDate(env.clock, stamp).Ok? ==>
          reply == AskImage
          && sessions == old(sessions)[u := Session(Some(Image), old(SessionOf(u)).data.(date := Some(stamp)))])
        && (!ValidateDate(env.clock, stamp).Ok? ==> reply == TimeError && sessions == old(sessions))
    {
      var s := SessionOf(u);
      var stamp := s.data.date.value + " " + RemoveAll(data, "time_");
      DateProbeDecides(rev, env.clock, stamp);
      if Probe(rev, env.clock, Placeholder, Placeholder, stamp).Rejected? {
        return TimeError;
      }
      sessions := sessions[u := Session(Some(Image), s.data.(date := Some(stamp)))];
      reply := AskImage;
    }

    /** `request_custom_time`: the typed-time step follows, the data stays. */
    method OnRequestCustomTime(u: int) returns (reply: Reply)
      requires Valid() && SessionOf(u).step == Some(Time)
      modifies this
      ensures Valid()
      ensures reply == AskTypedTime && sessions == old(sessions)[u := Session(Some(CustomTime), old(SessionOf(u)).data)]
    {
      sessions := sessions[u := Session(Some(CustomTime), SessionOf(u).data)];
      reply := AskTypedTime;
    }

    /**
     * `process_custom_time`: the stripped text must read as `%H:%M`; it is
     * appended to the stored day and the result probed like a picked slot.
     * A photo has no text and raises outside the `try`.
     */
    method OnCustomTime(u: int, m: Incoming, env: Env) returns (reply: Reply)
      requires Valid() && SessionOf(u).step == Some(CustomTime)
      modifies this
      ensures Valid()
      ensures m.PhotoMessage? ==> reply == Unhandled && sessions == old(sessions)
      ensures m.TextMessage? ==>
        var typed := Strip(m.text);
        var stamp := old(SessionOf(u)).data.date.value + " " + typed;
        var accepted := ParseClock(typed).Some? && ValidateDate(env.clock, stamp).Ok?;
        (accepted ==>
          reply == AskImage
          && sessions == old(sessions)[u := Session(Some(Image), old(SessionOf(u)).data.(date := Some(stamp)))])
        && (!accepted ==> reply == TimeError && sessions == old(sessions))
    {
      if m.PhotoMessage? {
        return Unhandled;
      }
      var typed := Strip(m.text);
      if ParseClock(typed).None? {
        return TimeError;
      }
      var s := SessionOf(u);
      var stamp := s.data.date.value + " " + typed;
      DateProbeDecides(rev, env.clock, stamp);
      if Probe(rev, env.clock, Placeholder, Placeholder, stamp).Rejected? {
        return TimeError;
      }
      sessions := sessions[u := Session(Some(Image), s.data.(date := Some(stamp)))];
      reply := AskImage;
    }

    // ------------------------------------------------------------ saving

    /**
     * `process_image` and `skip_image`: the photo's file id (or None) is
     * stored, then the event is saved.
     */
    method OnImage(u: int, imageId: Option<String>, env: Env) returns (reply: Reply)
      requires Valid() && SessionOf(u).step == Some(Image)
      modifies this, store
      ensures Valid()
      ensures var d := old(SessionOf(u)).data.(imageId := imageId);
        var spec := SaveSpec(rev, env, d, old(store.events), old(store.lastId));
        reply == spec.reply
        && sessions == (if spec.keep then old(sessions)[u := Session(Some(Image), d)] else old(sessions)[u := NoSession])
        && store.events == old(store.events) + (if spec.row.Some? then [spec.row.value] else [])
        && store.participants == old(store.participants)
        && store.lastId == old(store.lastId) + (if spec.inserted then 1 else 0)
    {
      var s := SessionOf(u);
      sessions := sessions[u := Session(Some(Image), s.data.(imageId := imageId))];
      reply := SaveEvent(u, env);
    }

    /**
     * `save_event`: build the event from the session's data, insert it,
     * then post it to the channel and record the post's message id. A
     * duplicate and a published event end the session; an invalid event, a
     * failed post (whose row is deleted again) and the package's store
     * failure keep it for another try.
     */
    method SaveEvent(u: int, env: Env) returns (reply: Reply)
      requires Valid() && SessionOf(u).step == Some(Image)
      modifies this, store
      ensures Valid()
      ensures var spec := SaveSpec(rev, env, old(SessionOf(u)).data, old(store.events), old(store.lastId));
        reply == spec.reply
        && sessions == (if spec.keep then old(sessions) else old(sessions)[u := NoSession])
        && store.events == old(store.events) + (if spec.row.Some? then [spec.row.value] else [])
        && store.participants == old(store.participants)
        && store.lastId == old(store.lastId) + (if spec.inserted then 1 else 0)
    {
      var d := SessionOf(u).data;
      if Build(rev, env.clock, d).Rejected? || env.storeFault {
        reply := Refuse(u, env);
      } else {
        reply := Insert(u, d.title.value, d.description.value, d.date.value, d.imageId, env);
      }
    }

    /** The outcomes of `save_event` that write nothing: an invalid event, or a failing connection. */
    method Refuse(u: int, env: Env) returns (reply: Reply)
      requires Valid() && SessionOf(u).step == Some(Image)
      requires Build(rev, env.clock, SessionOf(u).data).Rejected? || env.storeFault
      modifies this
      ensures Valid()
      ensures var spec := SaveSpec(rev, env, old(SessionOf(u)).data, store.events, store.lastId);
        reply == spec.reply && !spec.inserted && spec.row.None?
        && sessions == (if spec.keep then old(sessions) else old(sessions)[u := NoSession])
    {
      var built := Build(rev, env.clock, SessionOf(u).data);
      if built.Rejected? {
        return Invalid(built.errors);
      }
      if rev == Package {
        return SaveError;
      }
      sessions := sessions[u := NoSession];
      reply := SaveErrorThenPublished;
    }

    /** The insert of a valid event: a duplicate ends the session, a new row goes on to be published. */
    method Insert(u: int, title: String, description: String, date: String, imageId: Option<String>, env: Env)
      returns (reply: Reply)
      requires Valid()
      modifies this, store
      ensures Valid()
      ensures Clashes(old(store.events), title, date) ==>
        reply == DuplicateEvent && sessions == old(sessions)[u := NoSession]
        && store.events == old(store.events) && store.participants == old(store.participants)
        && store.lastId == old(store.lastId)
      ensures !Clashes(old(store.events), title, date) ==>
        var spec := PublishSpec(rev, env, EventRow(old(store.lastId) + 1, title, description, date, imageId, None));
        reply == spec.reply
        && sessions == (if spec.keep then old(sessions) else old(sessions)[u := NoSession])
        && store.events == old(store.events) + (if spec.row.Some? then [spec.row.value] else [])
        && store.participants == old(store.participants)
        && store.lastId == old(store.lastId) + 1
    {
      ghost var events0 := store.events;
      var id := store.InsertEvent(title, description, date, imageId);
      if id.None? {
        sessions := sessions[u := NoSession];
        return DuplicateEvent;
      }
      var row := EventRow(id.value, title, description, date, imageId, None);
      reply := Publish(u, env, events0, row);
    }

    /**
     * The rest of `save_event` once the row is inserted: the single file's
     * length check, the post, and then either the message id recorded or the
     * row deleted again.
     */
    method Publish(u: int, env: Env, ghost before: seq<EventRow>, row: EventRow) returns (reply: Reply)
      requires Valid()
      requires store.events == before + [row] && row.id == store.lastId && row.messageId.None?
      requires forall i :: 0 <= i < |before| ==> before[i].id < row.id
      modifies this, store
      ensures Valid()
      ensures var spec := PublishSpec(rev, env, row);
        reply == spec.reply
        && sessions == (if spec.keep then old(sessions) else old(sessions)[u := NoSession])
        && store.events == before + (if spec.row.Some? then [spec.row.value] else [])
        && store.participants == old(store.participants)
        && store.lastId == old(store.lastId)
    {
      if rev == SingleFile && LegacyTooLong(LegacyPublishText(row.title, row.description, row.date), row.imageId) {
        return TooLong;
      }
      var post := ComposePost(rev, row.title, row.description, row.date);
      if env.posted.None? {
        Retract(before, row);
        return PublishError;
      }
      Record(u, before, row, env.posted.value);
      reply := Published(post, Keyboards.PublishKeyboard(row.id));
    }

    /** A failed post: `DELETE FROM events` removes the fresh row again, and the table is as before the insert. */
    method Retract(ghost before: seq<EventRow>, row: EventRow)
      requires Valid()
      requires store.events == before + [row] && row.id == store.lastId
      requires forall i :: 0 <= i < |before| ==> before[i].id < row.id
      modifies store
      ensures Valid()
      ensures store.events == before && store.participants == old(store.participants) && store.lastId == old(store.lastId)
    {
      WithoutLastEvent(before, row);
      store.DeleteEventRow(row.id);
    }

    /** A post that went through: its message id is recorded on the row and the session ends. */
    method Record(u: int, ghost before: seq<EventRow>, row: EventRow, messageId: int)
      requires Valid()
      requires store.events == before + [row] && row.id == store.lastId
      requires forall i :: 0 <= i < |before| ==> before[i].id < row.id
      modifies this, store
      ensures Valid()
      ensures sessions == old(sessions)[u := NoSession]
      ensures store.events == before + [row.(messageId := Some(messageId))]
      ensures store.participants == old(store.participants) && store.lastId == old(store.lastId)
    {
      WithMessageIdOfLast(before, row, messageId);
      store.SetMessageId(row.id, messageId);
      sessions := sessions[u := NoSession];
    }

    // ------------------------------------------------------------ deleting and RSVPs

    /**
     * `delete_event`: for users with access, the id after `delete_` is read
     * and `DELETE FROM events` run on it; with foreign keys off the event's
     * participant rows stay. The reply is the same whether or not the id was
     * stored. Every other event stays; this one is gone: its card reads "not
     * found" and its RSVP buttons find no event, so the rows left behind are
     * never shown (and `FreshEventUnjoined` keeps them off later events).
     */
    method OnDelete(u: int, data: String, env: Env) returns (reply: Reply)
      requires Valid()
      modifies store
      ensures Valid()
      ensures !env.allowed(u) ==> reply == Denied && unchanged(store)
      ensures env.allowed(u) && IdToken(data, "delete_").None? ==> reply == Unhandled && unchanged(store)
      ensures env.allowed(u) && IdToken(data, "delete_").Some? ==>
        var id := IdToken(data, "delete_").value;
        reply == EventDeleted
        && store.events == WithoutEvent(old(store.events), id)
        && store.participants == old(store.participants) && store.lastId == old(store.lastId)
        && (forall x :: x != id ==> FindEvent(store.events, x) == FindEvent(old(store.events), x))
        && (forall allowed :: ViewReply(rev, store.events, store.participants, "view_" + IntToString(id), allowed) == NotFound)
        && (forall current, action :: Decide(FindEvent(store.events, id).Some?, current, action) == EventMissing)
    {
      if !env.allowed(u) {
        return Denied;
      }
      var token := IdToken(data, "delete_");
      if token.None? {
        return Unhandled;
      }
      var id := token.value;
      forall x ensures FindEvent(WithoutEvent(store.events, id), x) == if x == id then None else FindEvent(store.events, x) {
        FindAfterDeleteEvent(store.events, id, x);
      }
      IdTokenOfCallback("view_", id);
      store.DeleteEventRow(id);
      reply := EventDeleted;
    }

    /**
     * `handle_participation`: the press is decided by the revision's rule;
     * a recorded press replaces the user's row for the event and, in the
     * package, the event's counts are recomputed from the rows and the
     * channel buttons refreshed with them: `refreshed` is the keyboard the
     * edit carries, None where no refresh is scheduled.
     */
    method OnParticipation(u: int, data: String, username: String, env: Env)
      returns (reply: Reply, refreshed: Option<Keyboards.Keyboard>)
      requires Valid()
      modifies store, updater
      ensures Valid()
      ensures ParticipationToken(data).None? ==>
        reply == Unhandled && refreshed.None? && unchanged(store) && unchanged(updater)
      ensures ParticipationToken(data).Some? ==>
        var (action, id) := ParticipationToken(data).value;
        var stored := FindEvent(old(store.events), id).Some?;
        var current := StatusOf(old(store.participants), id, u);
        var written := if rev == Package then Decide(stored, current, action).Recorded?
                       else LegacyDecide(stored, current, action).LegacyRecorded?;
        reply == (if rev == Package then Rsvp(Decide(stored, current, action)) else LegacyRsvp(LegacyDecide(stored, current, action)))
        && store.events == old(store.events) && store.lastId == old(store.lastId)
        && store.participants == (if written then WithoutPair(old(store.participants), id, u) + [ParticipantRow(id, u, username, StatusFor(action))]
                                  else old(store.participants))
        && (written ==> StatusOf(store.participants, id, u) == Some(StatusFor(action)))
        && updater.counts == (if written && rev == Package
                              then old(updater.counts)[id := (CountStatus(store.participants, id, Participating),
                                                              CountStatus(store.participants, id, NotParticipating))]
                              else old(updater.counts))
        && refreshed == (if written && rev == Package
                         then Some(Keyboards.CountsKeyboard(id, CountStatus(store.participants, id, Participating),
                                                                CountStatus(store.participants, id, NotParticipating)))
                         else None)
    {
      var token := ParticipationToken(data);
      if token.None? {
        return Unhandled, None;
      }
      var (action, id) := token.value;
      var found := FindEvent(store.events, id);
      var current := StatusOf(store.participants, id, u);
      var status := StatusFor(action);
      if rev == SingleFile {
        var outcome := LegacyDecide(found.Some?, current, action);
        if outcome.LegacyRecorded? {
          UpsertKeepsNoFutureRefs(store.events, store.participants, store.lastId, id, u, username, status);
          StatusAfterUpsert(store.participants, id, u, username, status, id, u);
          store.Upsert(id, u, username, status);
        }
        return LegacyRsvp(outcome), None;
      }
      var outcome := Decide(found.Some?, current, action);
      if outcome.Recorded? {
        UpsertKeepsNoFutureRefs(store.events, store.participants, store.lastId, id, u, username, status);
        StatusAfterUpsert(store.participants, id, u, username, status, id, u);
        store.Upsert(id, u, username, status);
        var joining := CountStatus(store.participants, id, Participating);
        var declining := CountStatus(store.participants, id, NotParticipating);
        var shown, attempts, delivered := updater.ScheduleUpdate(id, joining, declining, found.value.messageId, env.edits);
        refreshed := Some(shown);
      } else {
        refreshed := None;
      }
      reply := Rsvp(outcome);
    }

    // ------------------------------------------------------------ the router

    /** An incoming message goes to the first handler whose filters match. */
    method OnMessage(u: int, m: Incoming, env: Env) returns (reply: Reply)
      requires Valid()
      modifies this, store
      ensures Valid()
      ensures store.participants == old(store.participants)
      ensures var route := RouteMessage(m, old(SessionOf(u)).step);
        (route != ToImage && route != ToSkip ==> store.events == old(store.events) && store.lastId == old(store.lastId))
        && (route == Unrouted ==> reply == Ignored && sessions == old(sessions))
        && (route == ToCancel ==>
              sessions == (if old(SessionOf(u)).step.None? then old(sessions) else old(sessions)[u := NoSession]))
        && (route == ToStart ==> reply == (if env.allowed(u) then Welcome else Denied) && sessions == old(sessions))
    {
      var route := RouteMessage(m, SessionOf(u).step);
      match route
      case ToStart =>
        reply := if env.allowed(u) then Welcome else Denied;
      case ToCancel =>
        reply := Cancel(u);
      case ToMenu =>
        reply := Menu(u, m.text, env);
      case ToTitle =>
        reply := OnTitle(u, m, env);
      case ToDescription =>
        reply := OnDescription(u, m, env);
      case ToCustomTime =>
        reply := OnCustomTime(u, m, env);
      case ToImage =>
        reply := OnImage(u, Some(m.fileId), env);
      case ToInvalidImage =>
        reply := AskPhotoOrSkip;
      case ToSkip =>
        reply := OnImage(u, None, env);
      case Unrouted =>
        reply := Ignored;
    }

    /** A button press goes to the first callback handler whose filters match. */
    method OnCallback(u: int, data: String, username: String, env: Env) returns (reply: Reply)
      requires Valid()
      modifies this, store, updater
      ensures Valid()
      ensures var route := RouteCallback(data, old(SessionOf(u)).step);
        (route != ToDelete && route != ToParticipation ==> unchanged(store))
        && (route == ToView || route == ToDelete || route == ToParticipation ==> sessions == old(sessions))
        && (route == ToView ==> reply == ViewReply(rev, store.events, store.participants, data, env.allowed(u)))
        && (route == Unanswered ==> reply == Ignored && sessions == old(sessions))
    {
      var route := RouteCallback(data, SessionOf(u).step);
      match route
      case ToCancelPicker =>
        reply := CancelPicker(u);
      case ToNavigate =>
        reply := OnNavigate(data, env);
      case ToDate =>
        reply := OnDate(u, data, env);
      case ToTime =>
        reply := OnTime(u, data, env);
      case ToRequestCustomTime =>
        reply := OnRequestCustomTime(u);
      case ToView =>
        reply := ViewReply(rev, store.events, store.participants, data, env.allowed(u));
      case ToDelete =>
        reply := OnDelete(u, data, env);
      case ToParticipation =>
        var refreshed;
        reply, refreshed := OnParticipation(u, data, username, env);
      case Unanswered =>
        reply := Ignored;
    }
  }
}
