/** The trigger of the engine's scheduling loop: poll on a short period, and do
    a tick when the last one is too long ago, or when a push notification
    arrived after the last tick and has aged past the debounce window. */
module Schedule {

  /** Seconds a push notification must age before it triggers a tick, so that
      the venue's account and order state can settle first. */
  const Debounce: real := 2.0

  /** The trigger at trade_engine.py:171, over seconds since the epoch:
      `current` is now, `last` the time of the last tick, `lastTick` the time of
      the latest push notification. */
  predicate ShouldTick(current: real, last: real, lastTick: real, loopInterval: real)
  {
    current - last > loopInterval || (last < lastTick < current - Debounce)
  }

  /** A push that is not newer than the last tick never triggers: only the
      polling interval does. */
  lemma StalePushIgnored(current: real, last: real, lastTick: real, loopInterval: real)
    requires lastTick <= last
    ensures ShouldTick(current, last, lastTick, loopInterval) <==> current - last > loopInterval
  {
  }

  /** Within the polling interval, a push triggers exactly when it is newer
      than the last tick and older than the debounce window. */
  lemma PushWithinInterval(current: real, last: real, lastTick: real, loopInterval: real)
    requires current - last <= loopInterval
    ensures ShouldTick(current, last, lastTick, loopInterval) <==> last < lastTick && lastTick + Debounce < current
  {
  }

  /** With a five-second interval, the last tick at second 0 and a push at
      second 3, the push adds no earlier tick: both branches open after second 5. */
  lemma FiveSecondScenario(current: real)
    ensures ShouldTick(current, 0.0, 3.0, 5.0) <==> current > 5.0
  {
  }
}
