/**
 * The debounced refresh of a published event's RSVP buttons. Under one lock
 * a call appends its counts to the event's pending list, takes the last
 * entry, drops the list, records the counts in the cache and edits the
 * channel message, retrying up to three times with a growing pause.
 *
 * Telegram's answer to each edit attempt is a parameter, `accepts(k)` for
 * the k-th attempt (counted from 0); the pauses are returned in
 * milliseconds instead of being slept.
 */
module Updater {
  import opened Wrappers
  import opened Text
  import opened Keyboards
  import opened Tokens

  /** The number of edit attempts. */
  const Attempts := 3

  function Pow2(k: nat): nat {
    if k == 0 then 1 else 2 * Pow2(k - 1)
  }

  /** The pause after the failed attempt `k`: 0.2 s doubled per attempt. */
  function BackoffMillis(k: nat): nat {
    200 * Pow2(k)
  }

  /** The pauses taken after the first `n` failed attempts. */
  function Pauses(n: nat): seq<nat> {
    seq(n, k requires 0 <= k => BackoffMillis(k))
  }

  /**
   * The retry loop: attempt after attempt until one is accepted or three have
   * failed; after a failed attempt other than the last the loop pauses.
   */
  method EditWithRetry(messageId: Option<int>, accepts: nat -> bool)
    returns (attempts: nat, pauses: seq<nat>, delivered: bool)
    ensures 1 <= attempts <= Attempts
    ensures delivered <==> messageId.Some? && exists k :: 0 <= k < Attempts && accepts(k)
    ensures delivered ==> accepts(attempts - 1) && forall k :: 0 <= k < attempts - 1 ==> !accepts(k)
    ensures !delivered ==> attempts == Attempts
    ensures pauses == Pauses(if delivered then attempts - 1 else Attempts - 1)
  {
    pauses := [];
    attempts := 0;
    delivered := false;
    var attempt := 0;
    while attempt < Attempts
      invariant 0 <= attempt <= Attempts
      invariant attempts == attempt && !delivered
      invariant messageId.Some? ==> forall k :: 0 <= k < attempt ==> !accepts(k)
      invariant pauses == Pauses(if attempt < Attempts then attempt else Attempts - 1)
    {
      attempts := attempt + 1;
      // An edit without a message id is refused like any other failed request.
      if messageId.Some? && accepts(attempt) {
        delivered := true;
        return;
      }
      if attempt < Attempts - 1 {
        pauses := pauses + [BackoffMillis(attempt)];
      }
      attempt := attempt + 1;
    }
  }

  /** The longest the loop can pause in total: 0.2 s + 0.4 s. */
  lemma PausesBounded(n: nat)
    requires n <= Attempts - 1
    ensures |Pauses(n)| == n
    ensures forall k :: 0 <= k < n ==> Pauses(n)[k] == 200 * Pow2(k)
    ensures n == 2 ==> Pauses(n) == [200, 400]
  {
    if n == 2 {
      assert Pow2(1) == 2;
    }
  }

  class KeyboardUpdater {
    /** `pending_updates`: counts queued per event while the lock is held. */
    var pending: map<int, seq<(int, int)>>
    /** `participant_counts`: the last counts sent per event. */
    var counts: map<int, (int, int)>

    constructor ()
      ensures pending == map[] && counts == map[]
    {
      pending := map[];
      counts := map[];
    }

    /** What the lock guarantees between calls: nothing stays queued. */
    ghost predicate Idle()
      reads this
    {
      pending == map[]
    }

    /**
     * `schedule_keyboard_update`: the counts passed in are queued, the last
     * queued entry (this call's own) is taken, the queue is dropped, the
     * cache records the counts and the message's buttons are rebuilt with
     * them and sent.
     */
    method ScheduleUpdate(eventId: int, joining: int, declining: int, messageId: Option<int>, accepts: nat -> bool)
      returns (shown: Keyboard, attempts: nat, delivered: bool)
      modifies this
      ensures pending == old(pending) - {eventId}
      ensures old(Idle()) ==> Idle()
      ensures counts == old(counts)[eventId := (joining, declining)]
      ensures shown == CountsKeyboard(eventId, joining, declining)
      ensures 1 <= attempts <= Attempts
      ensures delivered <==> messageId.Some? && exists k :: 0 <= k < Attempts && accepts(k)
    {
      var queued := if eventId in pending then pending[eventId] else [];
      pending := pending[eventId := queued + [(joining, declining)]];
      // The pause here lets no other call in: the lock is held.
      assert pending[eventId] != [];
      var last := pending[eventId][|pending[eventId]| - 1];
      pending := pending - {eventId};
      counts := counts[eventId := last];
      shown := CountsKeyboard(eventId, last.0, last.1);
      var pauses;
      attempts, pauses, delivered := EditWithRetry(messageId, accepts);
    }
  }

  /** Both buttons of the refreshed keyboard read back as the RSVP of their own event. */
  lemma CountsKeyboardReadBack(eventId: int, joining: int, declining: int)
    ensures var kb := CountsKeyboard(eventId, joining, declining);
      |kb| == 1 && |kb[0]| == 2
      && ParticipationToken(kb[0][0].callback) == Some((JoinEvent, eventId))
      && ParticipationToken(kb[0][1].callback) == Some((DeclineEvent, eventId))
  {
    ParticipationTokenOfCallback(JoinEvent, eventId);
    ParticipationTokenOfCallback(DeclineEvent, eventId);
  }
}
