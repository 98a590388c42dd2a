/**
 * Freshness of a cached HTTP response (`CacheSemantics` in cli/http_util.rs), after
 * sections 4.2 and 4.2.2 of RFC 9111.
 *
 * Instants and durations are whole nanoseconds since the Unix epoch. Header values arrive
 * already parsed: `None` stands for an absent header, `Some(None)` for one that does not parse.
 */
module CacheSemantics {
  import opened Wrappers

  const SECOND: nat := 1_000_000_000

  datatype CacheControl = CacheControl(
    noCache: bool,
    maxAge: Option<nat>,
    minFresh: Option<nat>,
    maxStale: Option<nat>)

  datatype Stored = Stored(
    control: CacheControl,
    varyStar: bool,
    ageSecs: nat,
    date: Option<int>,
    expires: Option<Option<int>>,
    lastModified: Option<Option<int>>)

  function Age(s: Stored, cached: int, now: int): nat {
    s.ageSecs * SECOND + (if now >= cached then now - cached else 0)
  }

  /** Seconds since the epoch, with dates before it clamped to the epoch. */
  function Instant(secs: int): int {
    if secs > 0 then secs * SECOND else 0
  }

  /** A date before the epoch overflows the source's cast and falls back to the download time. */
  function ServerDate(s: Stored, cached: int): int {
    if s.date.Some? && s.date.value >= 0 then s.date.value * SECOND else cached
  }

  function MaxAge(s: Stored, cached: int): nat {
    if s.control.noCache || s.varyStar then 0
    else if s.control.maxAge.Some? then s.control.maxAge.value
    else
      var serverDate := ServerDate(s, cached);
      match s.expires
      case Some(None) => 0
      case Some(Some(t)) =>
        if Instant(t) >= serverDate then Instant(t) - serverDate else 0
      case None =>
        match s.lastModified
        case Some(Some(t)) =>
          if serverDate >= Instant(t) then ((serverDate - Instant(t)) / SECOND / 10) * SECOND else 0
        case _ => 0
  }

  predicate IsStale(s: Stored, cached: int, now: int) {
    MaxAge(s, cached) <= Age(s, cached, now)
  }

  /** How long a stale response has been stale; the subtraction cannot underflow. */
  function Staleness(s: Stored, cached: int, now: int): nat
    requires IsStale(s, cached, now)
  {
    Age(s, cached, now) - MaxAge(s, cached)
  }

  function TimeToLive(s: Stored, cached: int, now: int): nat {
    var maxAge, age := MaxAge(s, cached), Age(s, cached, now);
    if maxAge >= age then maxAge - age else 0
  }

  predicate ShouldUse(s: Stored, cached: int, now: int) {
    if s.control.noCache then false
    else if s.control.maxAge.Some? && Age(s, cached, now) > s.control.maxAge.value then false
    else if s.control.minFresh.Some? && TimeToLive(s, cached, now) < s.control.minFresh.value then false
    else if IsStale(s, cached, now) then
      s.control.maxStale.Some? && s.control.maxStale.value > Staleness(s, cached, now)
    else true
  }

  function Min(a: int, b: int): int { if a <= b then a else b }

  /**
   * The single age limit that the directives amount to: the freshness lifetime stretched by
   * `max-stale`, cut back to the explicit `max-age`, and shortened by `min-fresh`.
   */
  function AgeLimit(s: Stored, cached: int): int {
    if s.control.noCache then 0 else
      var lifetime := MaxAge(s, cached);
      var stretched := lifetime + (if s.control.maxStale.Some? then s.control.maxStale.value else 0);
      var capped :=
        if s.control.maxAge.Some? then Min(stretched, s.control.maxAge.value + 1) else stretched;
      if s.control.minFresh.Some? && s.control.minFresh.value > 0
      then Min(capped, lifetime - s.control.minFresh.value + 1)
      else capped
  }

  /** The five branches of `should_use` are one comparison of the current age with one limit. */
  lemma ShouldUseIsAgeBelowLimit(s: Stored, cached: int, now: int)
    ensures ShouldUse(s, cached, now) <==> Age(s, cached, now) < AgeLimit(s, cached)
  {
  }

  /** The instant at which a stored response stops being usable, fixed when it is stored. */
  function Deadline(s: Stored, cached: int): int {
    cached + AgeLimit(s, cached) - s.ageSecs * SECOND
  }

  /** Freshness is lost once, at the deadline, and never comes back. */
  lemma FreshnessNeverReturns(s: Stored, cached: int, earlier: int, later: int)
    requires earlier <= later
    ensures ShouldUse(s, cached, later) ==> ShouldUse(s, cached, earlier)
    ensures cached <= later ==> (ShouldUse(s, cached, later) <==> later < Deadline(s, cached))
  {
  }
}
