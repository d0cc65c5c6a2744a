/**
 What the service guarantees over whole runs: the tag index agrees with the cache it
 indexes, so tag and pattern invalidation reach exactly the entries they name.
 */
module ServiceTheorems {
  import opened Glob
  import opened KeyBuilder
  import opened MemorySpec
  import MemoryTheorems
  import opened OrderedMap
  import opened Results
  import opened ServiceSpec
  import opened TagStore
  import opened Ttl

  datatype Event<V> = Event(req: Request<V>, answer: Response<V>)

  datatype Call<V> = Call(req: Request<V>, now: real)

  datatype Outcome<V> = Outcome(state: Service<V>, history: seq<Event<V>>)

  lemma ServeKeepsValid<V>(cfg: ServiceConfig, s: Service<V>, req: Request<V>, now: real)
    requires s.cache.store.Valid()
    ensures Serve(cfg, s, req, now).0.cache.store.Valid()
  {
    hide Step, FullKey, FullPattern, GlobMatches, TaggedKeys, Apply;
    match req
    case InvalidateTags(tags, namespace) =>
      WithoutValid(s.cache.store, TaggedKeys(s.tags, tags, ScopeOf(cfg, namespace)));
    case _ =>
      var op := OpOf(cfg, req);
      var e := EffectOf(cfg.cache, s.cache, op, now);
      ApplyValid(s.cache.store, e);
  }

  /** The adapter operation a request comes down to, when it passes validation. */
  ghost function OpOf<V>(cfg: ServiceConfig, req: Request<V>): Op<V> {
    match req
    case Fetch(key, namespace) => Get(Named(KeyFor(cfg, namespace, key)))
    case Probe(key, namespace) => Has(Named(KeyFor(cfg, namespace, key)))
    case Lifetime(key, namespace) => TtlOf(Named(KeyFor(cfg, namespace, key)))
    case Count => Size
    case Store(key, value, requested, _, overwrite, valueBytes, namespace) =>
      Set(Named(KeyFor(cfg, namespace, key)), value,
          Some(if requested.Some? then requested.value else cfg.ttl), overwrite, valueBytes)
    case Discard(key, namespace) => Delete(Named(KeyFor(cfg, namespace, key)))
    case Extend(key, ttl, namespace) => Expire(Named(KeyFor(cfg, namespace, key)), ttl)
    case ClearAll => Clear("")
    case ClearMatching(pattern, namespace) => Clear(Named(PatternFor(cfg, namespace, pattern)))
    case InvalidateTags(_, _) => Size
  }

  function Named(full: Option<string>): string {
    if full.Some? then full.value else ""
  }

  ghost function Run<V>(cfg: ServiceConfig, start: real, calls: seq<Call<V>>): (r: Outcome<V>)
    ensures r.state.cache.store.Valid()
  {
    if calls == [] then Outcome(Service(State(Empty(), start), map[]), [])
    else
      var last := calls[|calls| - 1];
      var before := Run(cfg, start, calls[..|calls| - 1]);
      var (after, answer) := Serve(cfg, before.state, last.req, last.now);
      ServeKeepsValid(cfg, before.state, last.req, last.now);
      Outcome(after, before.history + [Event(last.req, answer)])
  }

  // ---------------------------------------------------------------------------
  // The latest successful write of each full key, in the caller's terms
  // ---------------------------------------------------------------------------

  datatype Written<V> = Written(key: string, scope: Option<string>, tags: set<string>, value: V)

  function TagSet(tags: seq<string>): set<string> {
    set t | t in tags
  }

  ghost function LatestWrite<V>(cfg: ServiceConfig, history: seq<Event<V>>): map<string, Written<V>> {
    if history == [] then map[]
    else
      var e := history[|history| - 1];
      var m := LatestWrite(cfg, history[..|history| - 1]);
      if e.req.Store? && e.answer.Stored? && KeyFor(cfg, e.req.namespace, e.req.key).Some? then
        m[KeyFor(cfg, e.req.namespace, e.req.key).value :=
            Written(e.req.key, ScopeOf(cfg, e.req.namespace), TagSet(e.req.tags), e.req.value)]
      else m
  }

  function Scoped<V>(w: Written<V>): set<string> {
    set t | t in w.tags :: ScopedTag(t, w.scope)
  }

  /** The record of a write is well formed: it names its own full key, and its tags were validated. */
  ghost predicate ProperWrite<V>(cfg: ServiceConfig, full: string, w: Written<V>) {
    && FullKey(cfg.prefix, w.scope, cfg.cache.separator, w.key) == Some(full)
    && forall t :: t in w.tags ==> ValidTag(t)
  }

  /** Every present entry holds the value of its latest successful write and is indexed under exactly its tags. */
  ghost predicate Agrees<V>(cfg: ServiceConfig, s: Service<V>, latest: map<string, Written<V>>) {
    forall k :: k in s.cache.store.data ==>
      && k in latest
      && ProperWrite(cfg, k, latest[k])
      && Of(s.tags, k) == Scoped(latest[k])
      && s.cache.store.data[k].value == latest[k].value
  }

  lemma ScopedTagsOfSet<V>(w: Written<V>, tags: seq<string>)
    requires w.tags == TagSet(tags)
    ensures ScopedTags(tags, w.scope) == Scoped(w)
  {
    forall i | 0 <= i < |tags| ensures ScopedTag(tags[i], w.scope) in Scoped(w) {
      assert tags[i] in TagSet(tags);
    }
    forall t | t in TagSet(tags) ensures ScopedTag(t, w.scope) in ScopedTags(tags, w.scope) {
      var i :| 0 <= i < |tags| && tags[i] == t;
    }
  }

  /** What an operation other than an accepted write leaves was there before, with the same value. */
  lemma StepOnlyForgets<V>(cfg: Config, s: State<V>, op: Op<V>, now: real)
    requires s.store.Valid() && !Step(cfg, s, op, now).1.Stored?
    ensures var after := Step(cfg, s, op, now).0.store.data;
            forall k :: k in after ==> k in s.store.data && after[k].value == s.store.data[k].value
  {
    hide Step;
    var e := EffectOf(cfg, s, op, now);
  }

  /** What an accepted write leaves, besides its own entry, was there before. */
  lemma StepStores<V>(cfg: Config, s: State<V>, op: Op<V>, now: real)
    requires s.store.Valid() && Step(cfg, s, op, now).1.Stored?
    ensures op.Set?
    ensures var after := Step(cfg, s, op, now).0.store.data;
            && op.key in after && after[op.key].value == op.value
            && forall k :: k in after && k != op.key ==> k in s.store.data && after[k].value == s.store.data[k].value
  {
    hide Step;
    var e := EffectOf(cfg, s, op, now);
  }

  /** Requests other than accepted writes bring no entry in, and untag only what they take out. */
  lemma OthersOnlyForget<V>(cfg: ServiceConfig, s: Service<V>, req: Request<V>, now: real)
    requires s.cache.store.Valid() && !(req.Store? && Serve(cfg, s, req, now).1.Stored?)
    ensures var after := Serve(cfg, s, req, now).0;
            forall k :: k in after.cache.store.data ==>
              k in s.cache.store.data && Of(after.tags, k) == Of(s.tags, k) &&
              after.cache.store.data[k].value == s.cache.store.data[k].value
  {
    hide Step, GlobMatches, FullKey, FullPattern, Minus, TaggedKeys, LinkAll, ValidPattern;
    if !req.InvalidateTags? {
      var op := OpOf(cfg, req);
      OnlySetsStore(cfg.cache, s.cache, op, now);
      if !Step(cfg.cache, s.cache, op, now).1.Stored? {
        StepOnlyForgets(cfg.cache, s.cache, op, now);
      }
      if req.ClearMatching? && PatternFor(cfg, req.namespace, req.pattern).Some? {
        FullPatternIsValid(cfg.prefix, ScopeOf(cfg, req.namespace), cfg.cache.separator, req.pattern);
      }
      ForgottenAreGone(cfg.cache, s.cache, op, now);
    }
  }

  lemma OnlySetsStore<V>(cfg: Config, s: State<V>, op: Op<V>, now: real)
    requires s.store.Valid()
    ensures Step(cfg, s, op, now).1.Stored? ==> op.Set?
  {
    hide Step;
    var e := EffectOf(cfg, s, op, now);
  }

  /** What a delete or a clear names is not in the store afterwards. */
  lemma ForgottenAreGone<V>(cfg: Config, s: State<V>, op: Op<V>, now: real)
    requires s.store.Valid()
    ensures var store := Step(cfg, s, op, now).0.store;
            && (op.Delete? ==> op.key !in store.data)
            && (op.Clear? && op.pattern == "" ==> store.data == map[])
            && (op.Clear? && ValidPattern(op.pattern) ==>
                  forall k :: k in store.data ==> !GlobMatches(op.pattern, k, cfg.separator))
  {
    hide GlobMatches;
  }

  lemma StoreTags<V>(cfg: ServiceConfig, s: Service<V>, req: Request<V>, now: real)
    requires s.cache.store.Valid() && req.Store? && Serve(cfg, s, req, now).1.Stored?
    ensures var after := Serve(cfg, s, req, now).0;
            var full := KeyFor(cfg, req.namespace, req.key);
            var w := Written(req.key, ScopeOf(cfg, req.namespace), TagSet(req.tags), req.value);
            && full.Some?
            && ProperWrite(cfg, full.value, w)
            && Of(after.tags, full.value) == Scoped(w)
            && (full.value in after.cache.store.data ==> after.cache.store.data[full.value].value == req.value)
            && forall k :: k in after.cache.store.data && k != full.value ==>
                 k in s.cache.store.data && Of(after.tags, k) == Of(s.tags, k) &&
                 after.cache.store.data[k].value == s.cache.store.data[k].value
  {
    hide Step, GlobMatches, FullKey, ScopedTags, Scoped;
    var w := Written(req.key, ScopeOf(cfg, req.namespace), TagSet(req.tags), req.value);
    ScopedTagsOfSet(w, req.tags);
    StepStores(cfg.cache, s.cache, OpOf(cfg, req), now);
    assert forall t :: t in w.tags ==> ValidTag(t);
  }

  lemma ServeAgrees<V>(cfg: ServiceConfig, s: Service<V>, req: Request<V>, now: real, history: seq<Event<V>>)
    requires s.cache.store.Valid() && Agrees(cfg, s, LatestWrite(cfg, history))
    ensures var (after, answer) := Serve(cfg, s, req, now);
            Agrees(cfg, after, LatestWrite(cfg, history + [Event(req, answer)]))
  {
    hide Serve, FullKey, Step;
    var (after, answer) := Serve(cfg, s, req, now);
    var longer := history + [Event(req, answer)];
    assert longer[..|longer| - 1] == history;
    if req.Store? && answer.Stored? {
      StoreTags(cfg, s, req, now);
    } else {
      OthersOnlyForget(cfg, s, req, now);
    }
  }

  /** After every run, the index says of each present entry exactly what its latest write said. */
  lemma {:induction false} RunAgrees<V>(cfg: ServiceConfig, start: real, calls: seq<Call<V>>)
    ensures Agrees(cfg, Run(cfg, start, calls).state, LatestWrite(cfg, Run(cfg, start, calls).history))
  {
    if calls != [] {
      var n := |calls| - 1;
      RunAgrees(cfg, start, calls[..n]);
      var before := Run(cfg, start, calls[..n]);
      ServeAgrees(cfg, before.state, calls[n].req, calls[n].now, before.history);
    }
  }

  // ---------------------------------------------------------------------------
  // Each request in its caller's terms
  // ---------------------------------------------------------------------------

  /** The full key a request means: in its own namespace if it names one, otherwise in the service's. */
  ghost function Meant(cfg: ServiceConfig, namespace: Option<string>, key: string): Option<string> {
    FullKey(cfg.prefix, if namespace.Some? then namespace else cfg.namespace, cfg.cache.separator, key)
  }

  /** Before a request is answered, nothing but one dead entry may have gone. */
  ghost predicate SameButDead<V>(s: Service<V>, after: Service<V>, full: string, now: real) {
    && after.tags == s.tags && after.cache.lastPurgeAt == s.cache.lastPurgeAt
    && after.cache.store.data ==
       if MemoryTheorems.Alive(s.cache.store, full, now) then s.cache.store.data else s.cache.store.data - {full}
  }

  /** A malformed key is rejected, a living entry is hit with its latest write, anything else is missed. */
  ghost predicate ReadIsExact<V>(cfg: ServiceConfig, s: Service<V>, latest: map<string, Written<V>>, key: string,
                                 namespace: Option<string>, now: real, after: Service<V>, answer: Response<V>) {
    var data, full := s.cache.store.data, Meant(cfg, namespace, key);
    if full.None? then answer == Rejected(InvalidKey) && after == s
    else
      && SameButDead(s, after, full.value, now)
      && if full.value in data && (data[full.value].expiresAt.None? || now < data[full.value].expiresAt.value) then
           && full.value in latest && answer == Hit(latest[full.value].value)
           && latest[full.value].key == key
           && latest[full.value].scope == if namespace.Some? then namespace else cfg.namespace
         else answer == Miss
  }

  lemma ReadAnswers<V>(cfg: ServiceConfig, s: Service<V>, latest: map<string, Written<V>>, key: string,
                       namespace: Option<string>, now: real)
    requires s.cache.store.Valid() && Agrees(cfg, s, latest)
    ensures var (after, answer) := Serve(cfg, s, Fetch(key, namespace), now);
            ReadIsExact(cfg, s, latest, key, namespace, now, after, answer)
  {
    hide FullKey, Scoped, Step;
    var full := Meant(cfg, namespace, key);
    if full.Some? {
      MemoryTheorems.GetAnswers(cfg.cache, s.cache, full.value, now);
      if full.value in s.cache.store.data {
        var w := latest[full.value];
        FullKeyInjective(cfg.prefix, cfg.cache.separator, w.scope, w.key,
                         if namespace.Some? then namespace else cfg.namespace, key);
      }
    }
  }

  /**
   After every run, a read of a malformed key is rejected; any other hits exactly when its full
   key is stored and its deadline has not come, with the value of the latest write of that raw
   key in that very namespace.
   */
  lemma {:induction false} ReadsAreExact<V>(cfg: ServiceConfig, start: real, calls: seq<Call<V>>, key: string,
      namespace: Option<string>, now: real)
    ensures var r := Run(cfg, start, calls);
            var (after, answer) := Serve(cfg, r.state, Fetch(key, namespace), now);
            ReadIsExact(cfg, r.state, LatestWrite(cfg, r.history), key, namespace, now, after, answer)
  {
    hide LatestWrite, Run, Serve, ReadIsExact, Agrees;
    RunAgrees(cfg, start, calls);
    var r := Run(cfg, start, calls);
    ReadAnswers(cfg, r.state, LatestWrite(cfg, r.history), key, namespace, now);
  }

  /** `has`, `ttl` and `size` answer about the same entries a read would hit. */
  lemma ProbesAnswer<V>(cfg: ServiceConfig, s: Service<V>, key: string, namespace: Option<string>, now: real)
    requires s.cache.store.Valid()
    ensures var full := Meant(cfg, namespace, key);
            var (after, answer) := Serve(cfg, s, Probe(key, namespace), now);
            if full.None? then answer == Rejected(InvalidKey) && after == s
            else answer == Present(MemoryTheorems.Alive(s.cache.store, full.value, now)) &&
                 SameButDead(s, after, full.value, now)
  {
    hide FullKey, Step, Minus;
    var full := Meant(cfg, namespace, key);
    if full.Some? {
      MemoryTheorems.HasAnswers(cfg.cache, s.cache, full.value, now);
    }
  }

  lemma LifetimesAnswer<V>(cfg: ServiceConfig, s: Service<V>, key: string, namespace: Option<string>, now: real)
    requires s.cache.store.Valid()
    ensures var full, data := Meant(cfg, namespace, key), s.cache.store.data;
            var (after, answer) := Serve(cfg, s, Lifetime(key, namespace), now);
            if full.None? then answer == Rejected(InvalidKey) && after == s
            else
              && SameButDead(s, after, full.value, now)
              && if !MemoryTheorems.Alive(s.cache.store, full.value, now) then answer == Miss
                 else if data[full.value].expiresAt.None? then answer == Remaining(None)
                 else
                   var left := data[full.value].expiresAt.value - now;
                   && answer.Remaining? && answer.ms.Some? && answer.ms.value >= 1
                   && (left < 1.0 ==> answer.ms.value == 1)
                   && (left >= 1.0 ==> answer.ms.value as real <= left < answer.ms.value as real + 1.0)
  {
    hide FullKey, Step, Minus;
    var full := Meant(cfg, namespace, key);
    if full.Some? {
      MemoryTheorems.TtlAnswers(cfg.cache, s.cache, full.value, now);
    }
  }

  lemma CountsAnswer<V>(cfg: ServiceConfig, s: Service<V>, now: real)
    requires s.cache.store.Valid()
    ensures var (after, answer) := Serve(cfg, s, Count, now);
            && answer == Counted(|set k | k in s.cache.store.data && MemoryTheorems.Alive(s.cache.store, k, now)|)
            && after.tags == s.tags
            && forall k :: k in after.cache.store.data <==> MemoryTheorems.Alive(s.cache.store, k, now)
  {
    hide Step, Minus;
    MemoryTheorems.SizeAnswers(cfg.cache, s.cache, now);
  }

  /** What is wrong with a write, in the order it is looked for. */
  ghost function WriteError<V>(cfg: ServiceConfig, req: Request<V>): Option<Error>
    requires req.Store?
  {
    if Meant(cfg, req.namespace, req.key).None? then Some(InvalidKey)
    else if HasBadTag(req.tags) then Some(InvalidTag)
    else if MemoryTheorems.OutOfBounds(if req.requested.Some? then req.requested.value else cfg.ttl) then
      Some(InvalidTtl)
    else None
  }

  /**
   A write is rejected for its key, its tags or its TTL, or skipped for a living entry it may not
   overwrite, and then changes nothing. Otherwise its full key holds its value under its
   deadline and is indexed under exactly its tags, and no other key's tags change.
   */
  lemma WritesAnswer<V>(cfg: ServiceConfig, s: Service<V>, req: Request<V>, now: real)
    requires s.cache.store.Valid() && req.Store?
    ensures var (after, answer) := Serve(cfg, s, req, now);
            var full, wrong := Meant(cfg, req.namespace, req.key), WriteError(cfg, req);
            var ttl := if req.requested.Some? then req.requested.value else cfg.ttl;
            var scope := if req.namespace.Some? then req.namespace else cfg.namespace;
            if wrong.Some? then answer == Rejected(wrong.value) && after == s
            else if !req.overwrite && MemoryTheorems.Alive(s.cache.store, full.value, now) then
              answer == Skipped && after == s
            else
              && answer == Stored && full.value in after.cache.store.data
              && after.cache.store.data[full.value] ==
                 Entry(req.value, if ttl.Ms? then Some(now + ttl.ms) else None, req.valueBytes + 2 * |full.value|)
              && (forall k :: k in after.cache.store.data && k != full.value ==>
                    k in s.cache.store.data && after.cache.store.data[k] == s.cache.store.data[k])
              && forall k :: Of(after.tags, k) ==
                             if k == full.value then set tag <- req.tags :: ScopedTag(tag, scope) else Of(s.tags, k)
  {
    hide FullKey, Step, Minus, LinkAll, ScopedTags, HasBadTag, ValidTags, Distinct;
    BadTagsAreInvalid(req.tags);
    var full := Meant(cfg, req.namespace, req.key);
    if full.Some? {
      var scope := ScopeOf(cfg, req.namespace);
      MemoryTheorems.SetAnswers(cfg.cache, s.cache, OpOf(cfg, req), now);
      ScopedTagsAre(req.tags, scope);
      EntriesAfter(s.tags - {full.value}, full.value, ScopedTags(req.tags, scope));
    }
  }

  lemma DiscardsAnswer<V>(cfg: ServiceConfig, s: Service<V>, key: string, namespace: Option<string>, now: real)
    requires s.cache.store.Valid()
    ensures var full := Meant(cfg, namespace, key);
            var (after, answer) := Serve(cfg, s, Discard(key, namespace), now);
            if full.None? then answer == Rejected(InvalidKey) && after == s
            else
              && answer == Deleted(full.value in s.cache.store.data)
              && after.cache.store.data == s.cache.store.data - {full.value}
              && after.tags == s.tags - {full.value}
  {
    hide FullKey, Step, Minus;
    var full := Meant(cfg, namespace, key);
    if full.Some? {
      MemoryTheorems.DeleteAnswers(cfg.cache, s.cache, full.value, now);
    }
  }

  /** A new deadline for a living entry; its value, its tags and every other entry stay. */
  lemma ExtensionsAnswer<V>(cfg: ServiceConfig, s: Service<V>, key: string, ttl: Ttl, namespace: Option<string>,
                            now: real)
    requires s.cache.store.Valid()
    ensures var full, data := Meant(cfg, namespace, key), s.cache.store.data;
            var (after, answer) := Serve(cfg, s, Extend(key, ttl, namespace), now);
            && after.tags == s.tags
            && if full.None? then answer == Rejected(InvalidKey) && after == s
               else if MemoryTheorems.OutOfBounds(ttl) then answer == Rejected(InvalidTtl) && after == s
               else
                 && answer == Updated(MemoryTheorems.Alive(s.cache.store, full.value, now))
                 && if !MemoryTheorems.Alive(s.cache.store, full.value, now) then
                      after.cache.store.data == data - {full.value}
                    else
                      var entry := data[full.value];
                      after.cache.store.data == data[full.value :=
                        Entry(entry.value, if ttl.Ms? then Some(now + ttl.ms) else None, entry.bytes)]
  {
    hide FullKey, Step, Minus;
    var full := Meant(cfg, namespace, key);
    if full.Some? {
      MemoryTheorems.ExpireAnswers(cfg.cache, s.cache, full.value, ttl, now);
    }
  }

  /** Clearing everything leaves no entry and no tag. */
  lemma ClearAllAnswers<V>(cfg: ServiceConfig, s: Service<V>, now: real)
    requires s.cache.store.Valid()
    ensures var (after, answer) := Serve(cfg, s, ClearAll, now);
            && answer == Cleared(|s.cache.store.data.Keys|)
            && after.cache.store.data == map[] && after.tags == map[]
  {
    hide Step, Minus, GlobMatches;
    MemoryTheorems.ClearAnswers(cfg.cache, s.cache, "", now);
    var after := Serve(cfg, s, ClearAll, now).0;
    assert after.cache.store.data.Keys == {};
    assert s.cache.store.data.Keys - {} == s.cache.store.data.Keys;
  }

  /** Clearing by pattern also forgets the tags of the keys it names; a malformed pattern changes nothing. */
  lemma PatternClearsUntag<V>(cfg: ServiceConfig, s: Service<V>, pattern: string, namespace: Option<string>, now: real)
    requires s.cache.store.Valid()
    ensures var scope := if namespace.Some? then namespace else cfg.namespace;
            var full := FullPattern(cfg.prefix, scope, cfg.cache.separator, pattern);
            var (after, answer) := Serve(cfg, s, ClearMatching(pattern, namespace), now);
            if full.None? then answer == Rejected(InvalidKey) && after == s
            else forall k :: Of(after.tags, k) ==
                             if GlobMatches(full.value, k, cfg.cache.separator) then {} else Of(s.tags, k)
  {
    hide FullPattern, Step, GlobMatches;
  }

  /** Invalidating by tag forgets every tag of the keys that carried one; malformed tags or scope change nothing. */
  lemma TagInvalidationsUntag<V>(cfg: ServiceConfig, s: Service<V>, tags: seq<string>, namespace: Option<string>,
                                 now: real)
    requires s.cache.store.Valid()
    ensures var scope := if namespace.Some? then namespace else cfg.namespace;
            var (after, answer) := Serve(cfg, s, InvalidateTags(tags, namespace), now);
            if HasBadTag(tags) then answer == Rejected(InvalidTag) && after == s
            else if scope == Some("") then answer == Rejected(InvalidKey) && after == s
            else forall k :: Of(after.tags, k) ==
                             if exists tag <- tags :: ScopedTag(tag, scope) in Of(s.tags, k) then {} else Of(s.tags, k)
  {
    BadTagsAreInvalid(tags);
    var scope := if namespace.Some? then namespace else cfg.namespace;
    CarryingOne(s.tags, tags, scope);
    hide Step, Minus, HasBadTag, ValidTags, ScopedTags, Map.Without, ScopedTag, TaggedKeys;
    var keys := TaggedKeys(s.tags, tags, scope);
    if !HasBadTag(tags) && scope != Some("") {
      assert Serve(cfg, s, InvalidateTags(tags, namespace), now).0.tags == s.tags - keys;
    }
    hide Serve;
  }

  lemma CarryingOne(m: Index, tags: seq<string>, scope: Option<string>)
    ensures forall k :: k in TaggedKeys(m, tags, scope) <==> exists tag <- tags :: ScopedTag(tag, scope) in Of(m, k)
  {
    ScopedTagsAre(tags, scope);
    hide ScopedTag, ScopedTags;
    forall k ensures k in TaggedKeys(m, tags, scope) <==> exists tag <- tags :: ScopedTag(tag, scope) in Of(m, k) {
      if tag :| tag in tags && ScopedTag(tag, scope) in Of(m, k) {
        assert ScopedTag(tag, scope) in m[k] * ScopedTags(tags, scope);
      }
    }
  }

  // ---------------------------------------------------------------------------
  // What invalidation reaches
  // ---------------------------------------------------------------------------

  /** The present entries whose latest write was made in `scope` and carried one of `tags`. */
  ghost function Carrying<V>(store: MemorySpec.Store<V>, latest: map<string, Written<V>>, tags: seq<string>,
                               scope: Option<string>): set<string> {
    set k | k in store.data && k in latest && latest[k].scope == scope && latest[k].tags * TagSet(tags) != {}
  }

  lemma TaggedAsWritten<V>(cfg: ServiceConfig, full: string, w: Written<V>, tags: seq<string>, scope: Option<string>)
    requires ProperWrite(cfg, full, w) && ValidTags(tags) && scope != Some("")
    ensures Scoped(w) * ScopedTags(tags, scope) != {} <==> w.scope == scope && w.tags * TagSet(tags) != {}
  {
    var parts := IdentityParts(cfg.prefix, w.scope) + [w.key];
    assert w.scope.Some? ==> parts[|parts| - 2] == w.scope.value && ValidPart(parts[|parts| - 2], cfg.cache.separator);
    if Scoped(w) * ScopedTags(tags, scope) != {} {
      var s :| s in Scoped(w) * ScopedTags(tags, scope);
      var t :| t in w.tags && s == ScopedTag(t, w.scope);
      var i :| 0 <= i < |tags| && s == ScopedTag(tags[i], scope);
      ScopedTagInjective(t, w.scope, tags[i], scope);
      assert t in w.tags * TagSet(tags);
    }
    if w.scope == scope && w.tags * TagSet(tags) != {} {
      var t :| t in w.tags * TagSet(tags);
      var i :| 0 <= i < |tags| && tags[i] == t;
      assert ScopedTag(t, scope) in Scoped(w) * ScopedTags(tags, scope);
    }
  }

  lemma InvalidationReaches<V>(cfg: ServiceConfig, s: Service<V>, latest: map<string, Written<V>>, tags: seq<string>,
                               namespace: Option<string>, now: real)
    requires s.cache.store.Valid() && Agrees(cfg, s, latest)
    requires ValidTags(tags) && ScopeOf(cfg, namespace) != Some("")
    ensures var store := s.cache.store;
            var hit := Carrying(store, latest, tags, ScopeOf(cfg, namespace));
            var (after, answer) := Serve(cfg, s, InvalidateTags(tags, namespace), now);
            after.cache.store == store.Without(hit) && answer == Cleared(|hit|)
  {
    hide TaggedKeys, Carrying, Agrees, ScopedTags;
    var scope := ScopeOf(cfg, namespace);
    TaggedAreCarrying(cfg, s, latest, tags, scope);
    WithoutRelevant(s.cache.store, TaggedKeys(s.tags, tags, scope), Carrying(s.cache.store, latest, tags, scope));
  }

  lemma TaggedAreCarrying<V>(cfg: ServiceConfig, s: Service<V>, latest: map<string, Written<V>>, tags: seq<string>,
      scope: Option<string>)
    requires s.cache.store.Valid() && Agrees(cfg, s, latest)
    requires ValidTags(tags) && scope != Some("")
    ensures TaggedKeys(s.tags, tags, scope) * s.cache.store.data.Keys == Carrying(s.cache.store, latest, tags, scope)
  {
    hide FullKey, Scoped, ScopedTags;
    forall k | k in s.cache.store.data
      ensures k in TaggedKeys(s.tags, tags, scope) <==> k in Carrying(s.cache.store, latest, tags, scope)
    {
      TaggedAsWritten(cfg, k, latest[k], tags, scope);
    }
  }

  /** Only the present keys of a drop set matter. */
  lemma WithoutRelevant<V>(store: MemorySpec.Store<V>, a: set<string>, b: set<string>)
    requires store.Valid() && a * store.data.Keys == b
    ensures store.Without(a) == store.Without(b)
  {
    MinusSame(store.order, a, b);
    assert store.data - a == store.data - b;
  }

  /**
   After any run, invalidating by tag removes exactly the present entries of that namespace
   whose latest write carried one of the tags, and reports how many they were.
   */
  lemma {:induction false} TagInvalidationIsExact<V>(cfg: ServiceConfig, start: real, calls: seq<Call<V>>,
      tags: seq<string>, namespace: Option<string>, now: real)
    requires ValidTags(tags) && ScopeOf(cfg, namespace) != Some("")
    ensures var r := Run(cfg, start, calls);
            var store := r.state.cache.store;
            var hit := Carrying(store, LatestWrite(cfg, r.history), tags, ScopeOf(cfg, namespace));
            var (after, answer) := Serve(cfg, r.state, InvalidateTags(tags, namespace), now);
            after.cache.store == store.Without(hit) && answer == Cleared(|hit|)
  {
    RunAgrees(cfg, start, calls);
    var r := Run(cfg, start, calls);
    InvalidationReaches(cfg, r.state, LatestWrite(cfg, r.history), tags, namespace, now);
  }

  /** The present entries a pattern names: see `Reaches` for the whole-segment `**`. */
  ghost function Reached<V>(store: MemorySpec.Store<V>, latest: map<string, Written<V>>, scope: Option<string>,
      pattern: string): set<string> {
    set k | k in store.data && k in latest && Reaches(scope, pattern, latest[k].scope, latest[k].key)
  }

  lemma ClearReaches<V>(cfg: ServiceConfig, s: Service<V>, latest: map<string, Written<V>>, pattern: string,
                        namespace: Option<string>, now: real)
    requires s.cache.store.Valid() && Agrees(cfg, s, latest)
    requires PatternFor(cfg, namespace, pattern).Some?
    ensures var store := s.cache.store;
            var hit := Reached(store, latest, ScopeOf(cfg, namespace), pattern);
            var (after, answer) := Serve(cfg, s, ClearMatching(pattern, namespace), now);
            after.cache.store == store.Without(hit) && answer == Cleared(|hit|)
  {
    hide FullKey, FullPattern, GlobMatches, Reaches, Scoped;
    var scope := ScopeOf(cfg, namespace);
    var store, full := s.cache.store, PatternFor(cfg, namespace, pattern).value;
    FullPatternIsValid(cfg.prefix, scope, cfg.cache.separator, pattern);
    forall k | k in store.data
      ensures GlobMatches(full, k, cfg.cache.separator) <==> Reaches(scope, pattern, latest[k].scope, latest[k].key)
    {
      PatternReachesItsScope(cfg.prefix, cfg.cache.separator, scope, pattern, latest[k].scope, latest[k].key);
    }
    assert MatchingKeys(store, full, cfg.cache.separator) == Reached(store, latest, scope, pattern);
  }

  /**
   After any run, clearing by pattern removes exactly the present entries whose latest write
   was made in that namespace with a raw key the pattern matches.
   */
  lemma {:induction false} PatternClearIsExact<V>(cfg: ServiceConfig, start: real, calls: seq<Call<V>>, pattern: string,
                               namespace: Option<string>, now: real)
    requires PatternFor(cfg, namespace, pattern).Some?
    ensures var r := Run(cfg, start, calls);
            var store := r.state.cache.store;
            var hit := Reached(store, LatestWrite(cfg, r.history), ScopeOf(cfg, namespace), pattern);
            var (after, answer) := Serve(cfg, r.state, ClearMatching(pattern, namespace), now);
            after.cache.store == store.Without(hit) && answer == Cleared(|hit|)
  {
    RunAgrees(cfg, start, calls);
    var r := Run(cfg, start, calls);
    ClearReaches(cfg, r.state, LatestWrite(cfg, r.history), pattern, namespace, now);
  }
}
