/**
 * The two expiry tests of the aggregator. `add` treats an event as expired once
 * `end ?? start` is not after `now` (src/main.ts:291) and writes it with a
 * time-to-live of `(end ?? start) - now` (src/main.ts:170). `#clean` drops a
 * cached event only when it has an `end` and that `end` is not after `now`
 * (src/main.ts:143): an event without an end is never cleaned.
 */
module Expiry {
  import opened Types

  /** The instant after which the store may reclaim an event: its end, else its start. */
  function Threshold(e: Event): int {
    match e.end
    case Some(t) => t
    case None => e.start
  }

  /** `add` keeps an input exactly when it is live at `now`. */
  predicate IsLive(e: Event, now: int) {
    Threshold(e) > now
  }

  /** `#clean` drops a cached event exactly when this holds. */
  predicate IsCleanable(e: Event, now: int) {
    e.end.Some? && e.end.value <= now
  }

  /** The `expireIn` annotation written with an event (src/main.ts:170). */
  function ExpireIn(e: Event, now: int): (t: int)
    ensures t > 0 <==> IsLive(e, now)
  {
    Threshold(e) - now
  }

  /**
   * What `#clean` drops is expired in `add`'s sense, but not conversely:
   * an event without an end whose start has passed stays in the cache.
   */
  lemma CleanableIsExpired(e: Event, now: int)
    ensures IsCleanable(e, now) ==> !IsLive(e, now)
    ensures e.end.None? ==> !IsCleanable(e, now)
    ensures e.end.Some? ==> (IsCleanable(e, now) <==> !IsLive(e, now))
  {
  }
}
