/**
 * The event-creation conversation: its six steps, the data it collects, the
 * validation probes each step runs, and the order in which the router tries
 * the handlers for an incoming message or button press.
 */
module Wizard {
  import opened Wrappers
  import opened Text
  import opened Models
  import Keyboards
  import opened Tokens
  import opened Legacy

  /** The states of `EventCreation`. */
  datatype Step = Title | Description | Date | Time | CustomTime | Image

  /** The session's data; a missing key and `image_id=None` read the same. */
  datatype Data = Data(title: Option<String>, description: Option<String>, date: Option<String>, imageId: Option<String>)

  const EmptyData := Data(None, None, None, None)

  /** A user's FSM context: the current step (None: no conversation) and its data. */
  datatype Session = Session(step: Option<Step>, data: Data)

  /** What `state.clear()` leaves. */
  const NoSession := Session(None, EmptyData)

  /**
   * What each step can rely on: every step after the title has a title,
   * every step after the description a description, every step after the
   * day a date; stored titles and descriptions pass their validators; and
   * without a step there is no data.
   */
  predicate WellFormed(s: Session) {
    (s.data.title.Some? ==> ValidateTitle(s.data.title.value).Ok?)
    && (s.data.description.Some? ==> ValidateDescription(s.data.description.value).Ok?)
    && match s.step
       case None => s.data == EmptyData
       case Some(Title) => true
       case Some(Description) => s.data.title.Some?
       case Some(Date) => s.data.title.Some? && s.data.description.Some?
       case Some(_) => s.data.title.Some? && s.data.description.Some? && s.data.date.Some?
  }

  /** The two revisions of the bot. */
  datatype Revision = Package | SingleFile

  /** `Event(title=..., description=..., date=...)` as the revision builds it. */
  function Probe(rev: Revision, clock: Clock, title: String, description: String, date: String): Validated {
    if rev == SingleFile then LegacyNewEvent(clock, title, description, date, None)
    else NewEvent(clock, title, description, date, None)
  }

  /** A probe accepts exactly when all three validators do, in either revision. */
  lemma ProbeAccepts(rev: Revision, clock: Clock, title: String, description: String, date: String)
    ensures Probe(rev, clock, title, description, date).Accepted?
      <==> ValidateTitle(title).Ok? && ValidateDescription(description).Ok? && ValidateDate(clock, date).Ok?
  {
    LegacyNewEventAgrees(clock, title, description, date, None);
  }

  /**
   * The title step probes with the placeholder description and tomorrow's
   * date: as long as the clock accepts tomorrow, only the title decides.
   */
  lemma TitleProbeDecides(rev: Revision, clock: Clock, tomorrow: String, text: String)
    requires ValidateDate(clock, tomorrow).Ok?
    ensures Probe(rev, clock, text, Placeholder, tomorrow).Accepted? <==> ValidateTitle(text).Ok?
  {
    PlaceholderValid();
    ProbeAccepts(rev, clock, text, Placeholder, tomorrow);
  }

  /** The same for the description step. */
  lemma DescriptionProbeDecides(rev: Revision, clock: Clock, tomorrow: String, text: String)
    requires ValidateDate(clock, tomorrow).Ok?
    ensures Probe(rev, clock, Placeholder, text, tomorrow).Accepted? <==> ValidateDescription(text).Ok?
  {
    PlaceholderValid();
    ProbeAccepts(rev, clock, Placeholder, text, tomorrow);
  }

  /** The date and time steps probe with placeholders for both texts: only the date decides. */
  lemma DateProbeDecides(rev: Revision, clock: Clock, date: String)
    ensures Probe(rev, clock, Placeholder, Placeholder, date).Accepted? <==> ValidateDate(clock, date).Ok?
  {
    PlaceholderValid();
    ProbeAccepts(rev, clock, Placeholder, Placeholder, date);
  }

  /** Stripping never makes a text longer and keeps its non-blank core. */
  lemma StripShortens(s: String)
    ensures |Strip(s)| <= |s|
    ensures !AllSpace(s) ==> !AllSpace(Strip(s))
  {
    StripTrimsWhitespace(s);
    StripEmptyIffBlank(s);
    if !AllSpace(s) {
      assert !IsSpace(Strip(s)[0]);
    }
  }

  /**
   * The steps store `text.strip()` of a text the validator accepted; the
   * stored text passes the same validator again, so at the end only the
   * date can fail.
   */
  lemma StrippedStaysValid(text: String)
    ensures ValidateTitle(text).Ok? ==> ValidateTitle(Strip(text)).Ok?
    ensures ValidateDescription(text).Ok? ==> ValidateDescription(Strip(text)).Ok?
  {
    StripShortens(text);
  }

  // ---------------------------------------------------------------- routing

  /** The two buttons of the start keyboard. */
  const MenuCreate: String := "📅 Создать событие"
  const MenuList: String := "📋 Посмотреть события"

  /** The end of the word that starts at `i`: the first whitespace from there on. */
  function WordEnd(s: String, i: nat): (e: nat)
    requires i <= |s|
    ensures i <= e <= |s|
    decreases |s| - i
  {
    if i < |s| && !IsSpace(s[i]) then WordEnd(s, i + 1) else i
  }

  /** The first whitespace-separated word, as `text.split(maxsplit=1)[0]` gives it. */
  function FirstWord(s: String): String {
    var b := SpaceEnd(s, 0);
    s[b..WordEnd(s, b)]
  }

  /** aiogram's `Command(name)`: the first word is `/name`. */
  predicate IsCommand(text: String, name: String) {
    FirstWord(text) == "/" + name
  }

  /**
   * A message: its text, or a photo (whose `text` is None) with its caption
   * if it has one. aiogram's command filters read the caption of a message
   * without text; every other filter and handler reads only the text.
   */
  datatype Incoming = TextMessage(text: String) | PhotoMessage(fileId: String, caption: Option<String>)

  datatype MessageRoute =
    | ToStart | ToCancel | ToMenu | ToTitle | ToDescription | ToCustomTime
    | ToImage | ToInvalidImage | ToSkip | Unrouted

  /** The message handlers in the order they are registered; the first whose filters match runs. */
  function RouteMessage(m: Incoming, step: Option<Step>): MessageRoute {
    match m
    case TextMessage(t) =>
      if IsCommand(t, "start") then ToStart
      else if IsCommand(t, "cancel") then ToCancel
      else if t == MenuCreate || t == MenuList then ToMenu
      else if step == Some(Title) then ToTitle
      else if step == Some(Description) then ToDescription
      else if step == Some(CustomTime) then ToCustomTime
      else if step == Some(Image) && !StartsWith(t, "/") then ToInvalidImage
      else if step == Some(Image) && IsCommand(t, "skip") then ToSkip
      else Unrouted
    case PhotoMessage(_, caption) =>
      if caption.Some? && IsCommand(caption.value, "start") then ToStart
      else if caption.Some? && IsCommand(caption.value, "cancel") then ToCancel
      else if step == Some(Title) then ToTitle
      else if step == Some(Description) then ToDescription
      else if step == Some(CustomTime) then ToCustomTime
      else if step == Some(Image) then ToImage
      else Unrouted
  }

  datatype CallbackRoute =
    | ToCancelPicker | ToNavigate | ToDate | ToTime | ToRequestCustomTime
    | ToView | ToDelete | ToParticipation | Unanswered

  /** The callback handlers in the order they are registered. */
  function RouteCallback(data: String, step: Option<Step>): CallbackRoute {
    if data == "cancel_calendar" || data == "cancel_time" then ToCancelPicker
    else if StartsWith(data, "calendar_") && step == Some(Date) then ToNavigate
    else if StartsWith(data, "date_") && step == Some(Date) then ToDate
    else if StartsWith(data, "time_") && step == Some(Time) then ToTime
    else if data == "custom_time" && step == Some(Time) then ToRequestCustomTime
    else if StartsWith(data, "view_") then ToView
    else if StartsWith(data, "delete_") then ToDelete
    else if StartsWith(data, "join_") || StartsWith(data, "decline_") then ToParticipation
    else Unanswered
  }

  lemma FirstWordOfWord(w: String)
    requires w != [] && !IsSpace(w[0]) && forall i :: 0 <= i < |w| ==> !IsSpace(w[i])
    ensures FirstWord(w) == w
  {
    assert SpaceEnd(w, 0) == 0;
    WordEndOfWord(w, 0);
  }

  lemma {:induction false} WordEndOfWord(w: String, i: nat)
    requires i <= |w| && forall k :: 0 <= k < |w| ==> !IsSpace(w[k])
    ensures WordEnd(w, i) == |w|
    decreases |w| - i
  {
    if i < |w| {
      WordEndOfWord(w, i + 1);
    }
  }

  /** Which commands `/cancel` and `/skip` are. */
  lemma CommandWords()
    ensures IsCommand("/cancel", "cancel") && !IsCommand("/cancel", "start")
    ensures IsCommand("/skip", "skip") && !IsCommand("/skip", "start") && !IsCommand("/skip", "cancel")
  {
    FirstWordOfWord("/cancel");
    FirstWordOfWord("/skip");
    assert "/cancel" != "/start";
    assert "/skip" != "/start" && "/skip" != "/cancel";
  }

  /**
   * `/cancel` reaches the cancel handler in every step; in the title,
   * description and custom-time steps `/skip` is taken as the step's text,
   * and only in the image step does it save the event.
   */
  lemma CommandsRouted(step: Option<Step>)
    ensures RouteMessage(TextMessage("/cancel"), step) == ToCancel
    ensures RouteMessage(TextMessage("/skip"), step)
      == match step
         case Some(Title) => ToTitle
         case Some(Description) => ToDescription
         case Some(CustomTime) => ToCustomTime
         case Some(Image) => ToSkip
         case _ => Unrouted
  {
    CommandWords();
    assert StartsWith("/skip", "/");
  }

  /**
   * A photo captioned `/cancel` cancels in every step, before any step's
   * handler sees it; captioned `/skip`, it is still the image step's photo.
   */
  lemma CaptionedCommandsRouted(fileId: String, step: Option<Step>)
    ensures RouteMessage(PhotoMessage(fileId, Some("/cancel")), step) == ToCancel
    ensures RouteMessage(PhotoMessage(fileId, Some("/skip")), step)
      == match step
         case Some(Title) => ToTitle
         case Some(Description) => ToDescription
         case Some(CustomTime) => ToCustomTime
         case Some(Image) => ToImage
         case _ => Unrouted
  {
    CommandWords();
  }

  /** The menu buttons win over every step: they are never taken as a title or description. */
  lemma MenuRouted(step: Option<Step>)
    ensures RouteMessage(TextMessage(MenuCreate), step) == ToMenu
    ensures RouteMessage(TextMessage(MenuList), step) == ToMenu
  {
    assert !IsSpace(MenuCreate[0]) && !IsSpace(MenuList[0]);
    assert FirstWord(MenuCreate)[0] != '/' by {
      assert SpaceEnd(MenuCreate, 0) == 0;
    }
    assert FirstWord(MenuList)[0] != '/' by {
      assert SpaceEnd(MenuList, 0) == 0;
    }
  }

  /** A text that differs from `p` at position `k` neither starts with `p` nor equals it. */
  lemma Differs(data: String, p: String, k: nat)
    requires k < |p| && k < |data| && data[k] != p[k]
    ensures !StartsWith(data, p) && data != p
  {
    assert |p| <= |data| ==> data[..|p|][k] == data[k];
  }

  /** A day button is handled only while a day is being picked. */
  lemma DayRouted(data: String, step: Option<Step>)
    requires StartsWith(data, "date_")
    ensures RouteCallback(data, step) == if step == Some(Date) then ToDate else Unanswered
  {
    assert data[0] == 'd' && data[1] == 'a' by { assert data[..5] == "date_"; }
    Differs(data, "cancel_calendar", 0);
    Differs(data, "cancel_time", 0);
    Differs(data, "calendar_", 0);
    Differs(data, "time_", 0);
    Differs(data, "custom_time", 0);
    Differs(data, "view_", 0);
    Differs(data, "delete_", 1);
    Differs(data, "join_", 0);
    Differs(data, "decline_", 1);
  }

  /** A slot button is handled only while a time is being picked. */
  lemma SlotRouted(data: String, step: Option<Step>)
    requires StartsWith(data, "time_")
    ensures RouteCallback(data, step) == if step == Some(Time) then ToTime else Unanswered
  {
    assert data[0] == 't' by { assert data[..5] == "time_"; }
    Differs(data, "cancel_calendar", 0);
    Differs(data, "cancel_time", 0);
    Differs(data, "calendar_", 0);
    Differs(data, "date_", 0);
    Differs(data, "custom_time", 0);
    Differs(data, "view_", 0);
    Differs(data, "delete_", 0);
    Differs(data, "join_", 0);
    Differs(data, "decline_", 0);
  }

  /** An RSVP button is handled in every step. */
  lemma RsvpRouted(action: Action, eventId: int, step: Option<Step>)
    ensures RouteCallback(RsvpCallback(action, eventId), step) == ToParticipation
  {
    var data := RsvpCallback(action, eventId);
    if action == JoinEvent {
      assert data[..5] == "join_";
      Differs(data, "cancel_calendar", 0);
      Differs(data, "cancel_time", 0);
      Differs(data, "calendar_", 0);
      Differs(data, "date_", 0);
      Differs(data, "time_", 0);
      Differs(data, "custom_time", 0);
      Differs(data, "view_", 0);
      Differs(data, "delete_", 0);
    } else {
      assert data[..8] == "decline_";
      Differs(data, "cancel_calendar", 0);
      Differs(data, "cancel_time", 0);
      Differs(data, "calendar_", 0);
      Differs(data, "date_", 1);
      Differs(data, "time_", 0);
      Differs(data, "custom_time", 0);
      Differs(data, "view_", 0);
      Differs(data, "delete_", 2);
    }
  }

  /** The event list's and the event card's buttons are handled in every step. */
  lemma EventButtonsRouted(eventId: int, step: Option<Step>)
    ensures RouteCallback("view_" + IntToString(eventId), step) == ToView
    ensures RouteCallback("delete_" + IntToString(eventId), step) == ToDelete
  {
    var view := "view_" + IntToString(eventId);
    assert view[..5] == "view_";
    Differs(view, "cancel_calendar", 0);
    Differs(view, "cancel_time", 0);
    Differs(view, "calendar_", 0);
    Differs(view, "date_", 0);
    Differs(view, "time_", 0);
    Differs(view, "custom_time", 0);
    var delete := "delete_" + IntToString(eventId);
    assert delete[..7] == "delete_";
    Differs(delete, "cancel_calendar", 0);
    Differs(delete, "cancel_time", 0);
    Differs(delete, "calendar_", 0);
    Differs(delete, "date_", 1);
    Differs(delete, "time_", 0);
    Differs(delete, "custom_time", 0);
    Differs(delete, "view_", 0);
  }

  /** The calendar's day buttons and the picker's slots reach their own handlers, and only in their step. */
  lemma PickerButtonsRouted(year: int, month: int, day: int, hour: int, minute: int, step: Option<Step>)
    ensures RouteCallback(Keyboards.DateCallback(year, month, day), step) == if step == Some(Date) then ToDate else Unanswered
    ensures RouteCallback(Keyboards.SlotButton(hour, minute).callback, step) == if step == Some(Time) then ToTime else Unanswered
  {
    assert Keyboards.DateCallback(year, month, day)[..5] == "date_";
    DayRouted(Keyboards.DateCallback(year, month, day), step);
    assert Keyboards.SlotButton(hour, minute).callback[..5] == "time_";
    SlotRouted(Keyboards.SlotButton(hour, minute).callback, step);
  }
}
