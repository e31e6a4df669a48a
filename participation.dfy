/**
 * What an RSVP press decides, given whether the event is stored and the
 * user's current status: the bot's handler (answer with an alert, refuse a
 * decline from someone who never joined, always announce a recorded change)
 * and the single-file revision's handler (write every change, announce all
 * but a first decline).
 */
module Participation {
  import opened Wrappers
  import opened Store
  import opened Tokens

  /** `"Участвую" if action == "join" else "Не участвую"`. */
  function StatusFor(action: Action): (s: Status)
    ensures (s == Participating) <==> (action == JoinEvent)
  {
    if action == JoinEvent then Participating else NotParticipating
  }

  /** `should_notify`: the press joins for the first time, or flips an existing status. */
  predicate ShouldNotify(current: Option<Status>, action: Action) {
    (current.None? && action == JoinEvent)
    || (current == Some(Participating) && action == DeclineEvent)
    || (current == Some(NotParticipating) && action == JoinEvent)
  }

  datatype Outcome =
    | EventMissing              // "❌ Событие не найдено."
    | AlreadyMarked(status: Status)  // "ℹ️ Вы уже отметили: …"
    | NeverJoined               // "ℹ️ Вы ещё не были участником этого события."
    | Recorded(status: Status, notify: bool)

  /** The bot's `handle_participation` up to the write. */
  function Decide(eventStored: bool, current: Option<Status>, action: Action): Outcome {
    if !eventStored then EventMissing
    else if current == Some(StatusFor(action)) then AlreadyMarked(StatusFor(action))
    else if action == DeclineEvent && current.None? then NeverJoined
    else Recorded(StatusFor(action), ShouldNotify(current, action))
  }

  /**
   * A press is written exactly when the event is stored and the status
   * changes, except a decline by someone with no row; what is written is the
   * pressed status.
   */
  lemma DecideRecordsChanges(eventStored: bool, current: Option<Status>, action: Action)
    ensures Decide(eventStored, current, action).Recorded?
      <==> eventStored && current != Some(StatusFor(action)) && !(action == DeclineEvent && current.None?)
    ensures Decide(eventStored, current, action).Recorded? ==> Decide(eventStored, current, action).status == StatusFor(action)
  {
  }

  /** Every recorded press is announced: the notify test never fails after the earlier returns. */
  lemma RecordedIsAnnounced(eventStored: bool, current: Option<Status>, action: Action)
    requires Decide(eventStored, current, action).Recorded?
    ensures Decide(eventStored, current, action).notify
  {
    match current
    case None =>
      assert action == JoinEvent;
    case Some(s) =>
      assert s != StatusFor(action);
  }

  /**
   * `should_notify` holds exactly for the presses that change something,
   * except a decline by someone with no row.
   */
  lemma ShouldNotifyIffChange(current: Option<Status>, action: Action)
    ensures ShouldNotify(current, action)
      <==> current != Some(StatusFor(action)) && !(action == DeclineEvent && current.None?)
  {
    match current
    case None =>
    case Some(s) =>
      if s == Participating { assert StatusFor(action) == Participating <==> action == JoinEvent; }
  }

  datatype LegacyOutcome =
    | LegacyEventMissing
    | LegacyUnchanged
    | LegacyRecorded(status: Status, announce: bool)

  /** The single-file revision's `handle_participation`: every change is written. */
  function LegacyDecide(eventStored: bool, current: Option<Status>, action: Action): LegacyOutcome {
    if !eventStored then LegacyEventMissing
    else if current == Some(StatusFor(action)) then LegacyUnchanged
    else LegacyRecorded(StatusFor(action), ShouldNotify(current, action))
  }

  /**
   * The two revisions agree on every press but one: a decline by someone
   * who never joined, which the bot refuses and the single-file revision
   * writes without announcing.
   */
  lemma RevisionsDiffer(eventStored: bool, current: Option<Status>, action: Action)
    ensures var m, l := Decide(eventStored, current, action), LegacyDecide(eventStored, current, action);
      if eventStored && current.None? && action == DeclineEvent then
        m == NeverJoined && l == LegacyRecorded(NotParticipating, false)
      else
        (m == EventMissing <==> l == LegacyEventMissing)
        && (m.AlreadyMarked? <==> l == LegacyUnchanged)
        && (m.Recorded? <==> l.LegacyRecorded?)
        && (m.Recorded? ==> m.status == l.status && m.notify && l.announce)
  {
    if eventStored && !(current.None? && action == DeclineEvent) && current != Some(StatusFor(action)) {
      RecordedIsAnnounced(eventStored, current, action);
    }
  }
}
