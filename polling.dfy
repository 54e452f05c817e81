// The timer-id protocol shared by the polled drivers
// (iio_buffer_light_set_polling and iio_compass_set_polling): a driver keeps
// the id of its GLib timeout, 0 when none is running.

module Polling {
  import opened SensorTypes

  /** The timeout id after set_polling(state), when GLib would hand the new
      timeout the id `sourceId`. Enabling an enabled driver and disabling a
      disabled one return at once; otherwise the running timeout (if any) is
      removed and, when enabling, a new one is added. */
  function NextTimeout(timeoutId: nat, state: bool, sourceId: SourceId): (next: nat)
    ensures next > 0 <==> state
    ensures (timeoutId > 0) == state ==> next == timeoutId
  {
    if timeoutId > 0 && state then timeoutId
    else if timeoutId == 0 && !state then timeoutId
    else if state then sourceId
    else 0
  }

  /** The timeouts alive on behalf of a driver whose current id is `timeoutId`:
      the one it holds, or none. */
  function LiveTimers(timeoutId: nat): set<nat>
  {
    if timeoutId > 0 then {timeoutId} else {}
  }

  /** set_polling is idempotent: a second call with the same state, whatever
      id GLib would offer, keeps the first call's result. */
  lemma RepeatIsNoOp(timeoutId: nat, state: bool, first: SourceId, second: SourceId)
    ensures NextTimeout(NextTimeout(timeoutId, state, first), state, second) ==
            NextTimeout(timeoutId, state, first)
  {
  }

  /** Only the last call decides whether a timeout is running. */
  lemma LastCallWins(timeoutId: nat, s1: bool, s2: bool, a: SourceId, b: SourceId)
    ensures NextTimeout(NextTimeout(timeoutId, s1, a), s2, b) > 0 <==> s2
  {
  }
}
