/**
 * The single-file revision of the bot, where its rules differ from the
 * package: the date validator reports a past date as a format error, a day
 * picked on the calendar is checked with `strptime("%d.%m.%Y")` against the
 * local midnight, the published text is checked for Telegram's length limits
 * only after the row is committed, and the publish buttons are labelled
 * differently.
 */
module Legacy {
  import opened Wrappers
  import opened Text
  import opened Models
  import opened Gregorian
  import opened Keyboards
  import opened Tokens

  // ---------------------------------------------------------------- the validator

  /**
   * The single-file `validate_date`: the future-date error it raises is
   * caught by its own `except ValueError` and turned into the format error,
   * like every parser failure.
   */
  function LegacyValidateDate(clock: Clock, value: String): Result<String> {
    match clock.parse(value)
    case Instant(t) => if t < clock.now then Err(DateFormat) else Ok(value)
    case Unparsable(_) => Err(DateFormat)
  }

  /**
   * Both validators accept the same dates; the single-file one only ever
   * reports the format error, also for a date in the past.
   */
  lemma LegacyValidateDateAgrees(clock: Clock, value: String)
    ensures LegacyValidateDate(clock, value).Ok? <==> ValidateDate(clock, value).Ok?
    ensures LegacyValidateDate(clock, value).Ok? ==> LegacyValidateDate(clock, value).value == value
    ensures LegacyValidateDate(clock, value).Err? ==> LegacyValidateDate(clock, value).error == DateFormat
    ensures ValidateDate(clock, value) == Err(DateInPast) ==> LegacyValidateDate(clock, value) == Err(DateFormat)
  {
    ValidateDateCases(clock, value);
  }

  /** The single-file `Event(...)`: the same fields, with its own date validator. */
  function LegacyNewEvent(clock: Clock, title: String, description: String, date: String, imageId: Option<String>): Validated {
    var errors := Failures(ValidateTitle(title)) + Failures(ValidateDescription(description)) + Failures(LegacyValidateDate(clock, date));
    if errors == [] then Accepted(Event(title, description, date, imageId)) else Rejected(errors)
  }

  /** The two revisions build the same events from the same fields; only their date messages differ. */
  lemma LegacyNewEventAgrees(clock: Clock, title: String, description: String, date: String, imageId: Option<String>)
    ensures LegacyNewEvent(clock, title, description, date, imageId).Accepted?
      <==> NewEvent(clock, title, description, date, imageId).Accepted?
    ensures LegacyNewEvent(clock, title, description, date, imageId).Accepted?
      ==> LegacyNewEvent(clock, title, description, date, imageId) == NewEvent(clock, title, description, date, imageId)
  {
    LegacyValidateDateAgrees(clock, date);
  }

  // ---------------------------------------------------------------- a picked day

  const MinutesPerDay := 1440

  /**
   * `datetime.strptime(f"{day:02d}.{month:02d}.{year}", "%d.%m.%Y")` as the
   * minute of that local midnight, counted from 0001-01-01 00:00 like the
   * clock's instants. `%Y` takes exactly four digits and nothing may follow;
   * the zero-padded day and month are accepted exactly when they name a day
   * of a real month, and the date must exist.
   */
  function LegacyMidnight(day: int, month: int, yearText: String): (r: Option<int>)
    ensures r.Some? ==> |yearText| == 4 && AllDigits(yearText) && ValidDate(DigitsValue(yearText), month, day)
  {
    if |yearText| == 4 && AllDigits(yearText) && ValidDate(DigitsValue(yearText), month, day) then
      Some((Ordinal(DigitsValue(yearText), month, day) - 1) * MinutesPerDay)
    else
      None
  }

  /**
   * The single-file `process_date_callback` up to the new state: the data
   * splits into four parts, day and month are integers, the text parses and
   * its midnight is not before now. Otherwise nothing changes.
   */
  function LegacyDateStep(data: String, now: int): (r: Option<String>)
    ensures r.Some? ==> r == DateToken(data)
  {
    var parts := Split(data, '_');
    if |parts| != 4 then None
    else
      match (ParseInt(parts[3]), ParseInt(parts[2]))
      case (Some(day), Some(month)) =>
        var midnight := LegacyMidnight(day, month, parts[1]);
        if midnight.None? || midnight.value < now then None
        else Some(Pad2(day) + "." + Pad2(month) + "." + parts[1])
      case _ => None
  }

  /** A four-digit year prints as four digits and reads back. */
  lemma FourDigitYear(y: int)
    requires 1000 <= y <= 9999
    ensures |IntToString(y)| == 4 && AllDigits(IntToString(y)) && DigitsValue(IntToString(y)) == y
  {
    DigitsValueOfNatToString(y);
    assert |NatToString(y / 1000)| == 1;
    assert |NatToString(y / 100)| == 2;
    assert |NatToString(y / 10)| == 3;
  }

  /**
   * A day button of a calendar moves the wizard on exactly when that day's
   * midnight is not before now; the stored text is the button's
   * `DD.MM.YYYY`.
   */
  lemma LegacyDateOfCallback(year: int, month: int, day: int, now: int)
    requires ValidDate(year, month, day) && year >= 1000
    ensures LegacyDateStep(DateCallback(year, month, day), now)
      == if (Ordinal(year, month, day) - 1) * MinutesPerDay < now then None
         else Some(Pad2(day) + "." + Pad2(month) + "." + IntToString(year))
  {
    SplitDateCallback(year, month, day);
    ParseIntOfIntToString(month);
    ParseIntOfIntToString(day);
    FourDigitYear(year);
  }

  // ---------------------------------------------------------------- the published text

  /** The single-file post: the title in bold italics, the description, then the date. */
  function LegacyPublishText(title: String, description: String, date: String): String {
    "📅 **_" + title + "_**\n\n" + description + "\n\n🕒 **Дата и время**: " + date
  }

  /** The post is 32 characters of frame around the three fields. */
  lemma LegacyPublishTextLength(title: String, description: String, date: String)
    ensures |LegacyPublishText(title, description, date)| == 32 + |title| + |description| + |date|
  {
    assert |"📅 **_"| == 5;
    assert |"_**\n\n"| == 5;
    assert |"\n\n🕒 **Дата и время**: "| == 22;
  }

  /** `if event.image_id` in Python: an image id that is missing or empty counts as none. */
  predicate HasImage(imageId: Option<String>) {
    imageId.Some? && imageId.value != ""
  }

  /** The two checks made after the insert: a caption over 1024, or a text over 4096 characters. */
  predicate LegacyTooLong(text: String, imageId: Option<String>) {
    (|text| > 1024 && HasImage(imageId)) || (|text| > 4096 && !HasImage(imageId))
  }

  /**
   * Fields that pass the validators never make a post without image too
   * long while the date stays under 2900 characters; with an image the
   * limit bites once the three fields exceed 992 characters together.
   */
  lemma LegacyTooLongCases(title: String, description: String, date: String, imageId: Option<String>)
    requires ValidateTitle(title).Ok? && ValidateDescription(description).Ok? && |date| < 2900
    ensures LegacyTooLong(LegacyPublishText(title, description, date), imageId)
      <==> HasImage(imageId) && |title| + |description| + |date| > 992
  {
    LegacyPublishTextLength(title, description, date);
  }

  // ---------------------------------------------------------------- the publish buttons

  /** The single-file publish buttons, as written: both labelled "Учавствую". */
  function LegacyPublishKeyboard(eventId: int): Keyboard {
    [[Button("✅ Учавствую", "join_" + IntToString(eventId)),
      Button("❌ Учавствую", "decline_" + IntToString(eventId))]]
  }

  /** As written, the decline button carries the join word: its label differs from join's only in the mark. */
  lemma LegacyDeclineLabelSaysJoin(eventId: int)
    ensures var kb := LegacyPublishKeyboard(eventId);
      kb[0][0].text[1..] == kb[0][1].text[1..] && kb[0][1].text[2..] == "Учавствую"
      && ParticipationToken(kb[0][1].callback) == Some((DeclineEvent, eventId))
  {
    ParticipationTokenOfCallback(DeclineEvent, eventId);
    assert "❌ Учавствую"[2..] == "Учавствую";
    assert "✅ Учавствую"[1..] == "❌ Учавствую"[1..];
  }

  /**
   * The buttons as intended, which the model publishes with: the decline
   * button says "Не участвую" and the two labels differ.
   */
  lemma PublishLabelsDiffer(eventId: int)
    ensures var kb := PublishKeyboard(eventId);
      |kb| == 1 && |kb[0]| == 2 && kb[0][0].text != kb[0][1].text && kb[0][1].text[2..] == "Не участвую"
  {
    assert "❌ Не участвую"[2..] == "Не участвую";
    assert "✅ Участвую"[2] != "❌ Не участвую"[2];
  }

  /** Each intended publish button reads back as the RSVP of its own event. */
  lemma PublishKeyboardReadBack(eventId: int)
    ensures var kb := PublishKeyboard(eventId);
      ParticipationToken(kb[0][0].callback) == Some((JoinEvent, eventId))
      && ParticipationToken(kb[0][1].callback) == Some((DeclineEvent, eventId))
  {
    ParticipationTokenOfCallback(JoinEvent, eventId);
    ParticipationTokenOfCallback(DeclineEvent, eventId);
  }
}
