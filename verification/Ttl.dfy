/** Times to live: `null` for no expiry, or milliseconds within fixed bounds. */
module Ttl {
  import opened Results

  const MIN_TTL_MS := 1.0
  const MAX_TTL_MS := 86400000.0

  datatype Ttl = Never | Ms(ms: real)

  predicate ValidTtl(ttl: Ttl) {
    ttl.Ms? ==> MIN_TTL_MS <= ttl.ms <= MAX_TTL_MS
  }

  function Deadline(ttl: Ttl, now: real): Option<real> {
    if ttl.Ms? then Some(now + ttl.ms) else None
  }
}
