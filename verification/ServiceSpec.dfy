/**
 The cache service on values: keys and patterns are qualified by the key builder, entries
 live in the memory adapter, and the tag index follows every write and removal.
 */
module ServiceSpec {
  import opened Glob
  import opened KeyBuilder
  import opened MemorySpec
  import opened Results
  import opened TagStore
  import opened Ttl

  /** One separator for service, builder and adapter; one namespace for service and builder. */
  datatype ServiceConfig = ServiceConfig(cache: Config, prefix: string, namespace: Option<string>, ttl: Ttl)

  datatype Service<V> = Service(cache: State<V>, tags: Index)

  datatype Request<V> =
    | Fetch(key: string, namespace: Option<string>)
    | Probe(key: string, namespace: Option<string>)
    | Lifetime(key: string, namespace: Option<string>)
    | Count
    | Store(key: string, value: V, requested: Option<Ttl>, tags: seq<string>, overwrite: bool, valueBytes: nat,
            namespace: Option<string>)
    | Discard(key: string, namespace: Option<string>)
    | Extend(key: string, ttl: Ttl, namespace: Option<string>)
    | ClearAll
    | ClearMatching(pattern: string, namespace: Option<string>)
    | InvalidateTags(tags: seq<string>, namespace: Option<string>)

  function ScopeOf(cfg: ServiceConfig, namespace: Option<string>): Option<string> {
    if namespace.Some? then namespace else cfg.namespace
  }

  function KeyFor(cfg: ServiceConfig, namespace: Option<string>, key: string): Option<string> {
    FullKey(cfg.prefix, ScopeOf(cfg, namespace), cfg.cache.separator, key)
  }

  function PatternFor(cfg: ServiceConfig, namespace: Option<string>, pattern: string): Option<string> {
    FullPattern(cfg.prefix, ScopeOf(cfg, namespace), cfg.cache.separator, pattern)
  }

  /** The keys indexed under any of the given tags. */
  ghost function TaggedKeys(m: Index, tags: seq<string>, scope: Option<string>): set<string> {
    set k | k in m && m[k] * ScopedTags(tags, scope) != {}
  }

  ghost function MatchingEntries(m: Index, pattern: string, sep: char): set<string> {
    set k | k in m && GlobMatches(pattern, k, sep)
  }

  ghost function OnCache<V>(cfg: ServiceConfig, s: Service<V>, op: Op<V>, now: real): (Service<V>, Response<V>)
    requires s.cache.store.Valid()
  {
    var (cache, answer) := Step(cfg.cache, s.cache, op, now);
    (s.(cache := cache), answer)
  }

  ghost function Serve<V>(cfg: ServiceConfig, s: Service<V>, req: Request<V>, now: real): (Service<V>, Response<V>)
    requires s.cache.store.Valid()
  {
    match req
    case Fetch(key, namespace) =>
      var full := KeyFor(cfg, namespace, key);
      if full.None? then (s, Rejected(InvalidKey)) else OnCache(cfg, s, Get(full.value), now)
    case Probe(key, namespace) =>
      var full := KeyFor(cfg, namespace, key);
      if full.None? then (s, Rejected(InvalidKey)) else OnCache(cfg, s, Has(full.value), now)
    case Lifetime(key, namespace) =>
      var full := KeyFor(cfg, namespace, key);
      if full.None? then (s, Rejected(InvalidKey)) else OnCache(cfg, s, TtlOf(full.value), now)
    case Count => OnCache(cfg, s, Size, now)
    case Store(key, value, requested, tags, overwrite, valueBytes, namespace) =>
      var full := KeyFor(cfg, namespace, key);
      if full.None? then (s, Rejected(InvalidKey))
      else if !ValidTags(tags) then (s, Rejected(InvalidTag))
      else
        var ttl := if requested.Some? then requested.value else cfg.ttl;
        var (after, answer) := OnCache(cfg, s, Set(full.value, value, Some(ttl), overwrite, valueBytes), now);
        if !answer.Stored? then (after, answer)
        else
          var scoped := ScopedTags(tags, ScopeOf(cfg, namespace));
          (after.(tags := LinkAll(s.tags - {full.value}, full.value, scoped)), answer)
    case Discard(key, namespace) =>
      var full := KeyFor(cfg, namespace, key);
      if full.None? then (s, Rejected(InvalidKey))
      else
        var (after, answer) := OnCache(cfg, s, Delete(full.value), now);
        (after.(tags := s.tags - {full.value}), answer)
    case Extend(key, ttl, namespace) =>
      var full := KeyFor(cfg, namespace, key);
      if full.None? then (s, Rejected(InvalidKey)) else OnCache(cfg, s, Expire(full.value, ttl), now)
    case ClearAll =>
      var (after, answer) := OnCache(cfg, s, Clear(""), now);
      (after.(tags := map[]), answer)
    case ClearMatching(pattern, namespace) =>
      var full := PatternFor(cfg, namespace, pattern);
      if full.None? then (s, Rejected(InvalidKey))
      else
        var (after, answer) := OnCache(cfg, s, Clear(full.value), now);
        (after.(tags := s.tags - MatchingEntries(s.tags, full.value, cfg.cache.separator)), answer)
    case InvalidateTags(tags, namespace) =>
      if !ValidTags(tags) then (s, Rejected(InvalidTag))
      else if ScopeOf(cfg, namespace) == Some("") then (s, Rejected(InvalidKey))
      else
        var keys := TaggedKeys(s.tags, tags, ScopeOf(cfg, namespace));
        (Service(s.cache.(store := s.cache.store.Without(keys)), s.tags - keys),
         Cleared(|keys * s.cache.store.data.Keys|))
  }
}
