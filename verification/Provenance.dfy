/**
 What an instance was built from, what can be built at all, and what a resolution may do to
 the container's state.
 */
module Provenance {
  import opened ConsumerIndex
  import opened Results

  // ---------------------------------------------------------------------------
  // Provenance
  // ---------------------------------------------------------------------------

  /** What a provider has resolved for it. */
  function Parts(provider: Provider): seq<Token> {
    match provider
    case Value => []
    case Existing(target) => [target]
    case Build(inject, _) => inject
  }

  function PartsOf(r: Registry, t: Token): seq<Token> {
    if t in r then Parts(r[t].provider) else []
  }

  ghost predicate PartsClosed(r: Registry, c: set<Token>) {
    forall t, p :: t in c && p in PartsOf(r, t) ==> p in c
  }

  /** Building `from` takes `to`, itself included, directly or through others. */
  ghost predicate Takes(r: Registry, from: Token, to: Token) {
    forall c: set<Token> :: PartsClosed(r, c) && from in c ==> to in c
  }

  /** Everything takes at least what it took. */
  ghost predicate TakesMore(r: Registry, s: Registry) {
    forall t, p :: p in PartsOf(r, t) ==> p in PartsOf(s, t)
  }

  lemma TakesItself(r: Registry, t: Token)
    ensures Takes(r, t, t)
  {
  }

  lemma TakesPart(r: Registry, t: Token, p: Token)
    requires p in PartsOf(r, t)
    ensures Takes(r, t, p)
  {
  }

  lemma TakesTrans(r: Registry, a: Token, b: Token, c: Token)
    requires Takes(r, a, b) && Takes(r, b, c)
    ensures Takes(r, a, c)
  {
    hide PartsClosed;
  }

  lemma TakesGrows(r: Registry, s: Registry, a: Token, b: Token)
    requires TakesMore(r, s) && Takes(r, a, b)
    ensures Takes(s, a, b)
  {
    forall c: set<Token> | PartsClosed(s, c) && a in c ensures b in c {
      assert PartsClosed(r, c);
    }
  }

  /** A change elsewhere leaves what is taken within a closed set alone. */
  lemma TakesWithin(r: Registry, s: Registry, names: set<Token>, a: Token, b: Token)
    requires PartsClosed(r, names) && a in names && Takes(r, a, b)
    requires forall t :: t in names ==> PartsOf(s, t) == PartsOf(r, t)
    ensures Takes(s, a, b)
  {
    forall c: set<Token> | PartsClosed(s, c) && a in c ensures b in c {
      assert PartsClosed(r, c * names);
    }
  }

  ghost predicate AllTaken(r: Registry, token: Token, origins: set<Origin>) {
    forall o :: o in origins ==> Takes(r, token, o.token)
  }

  lemma AllTakenGrows(r: Registry, s: Registry, token: Token, origins: set<Origin>)
    requires TakesMore(r, s) && AllTaken(r, token, origins)
    ensures AllTaken(s, token, origins)
  {
    hide Takes, TakesMore;
    forall o | o in origins ensures Takes(s, token, o.token) {
      TakesGrows(r, s, token, o.token);
    }
  }

  /** What a part was built from is taken by its consumer too. */
  lemma AllTakenTrans(r: Registry, consumer: Token, part: Token, origins: set<Origin>)
    requires Takes(r, consumer, part) && AllTaken(r, part, origins)
    ensures AllTaken(r, consumer, origins)
  {
    hide Takes;
    forall o | o in origins ensures Takes(r, consumer, o.token) {
      TakesTrans(r, consumer, part, o.token);
    }
  }

  /** Everything on the path takes each of `tokens`. */
  ghost predicate Consumed(r: Registry, path: seq<Token>, tokens: seq<Token>) {
    forall i, t :: 0 <= i < |path| && t in tokens ==> Takes(r, path[i], t)
  }

  lemma ConsumedGrows(r: Registry, s: Registry, path: seq<Token>, tokens: seq<Token>)
    requires TakesMore(r, s) && Consumed(r, path, tokens)
    ensures Consumed(s, path, tokens)
  {
    hide Takes, TakesMore;
    forall i, t | 0 <= i < |path| && t in tokens ensures Takes(s, path[i], t) {
      TakesGrows(r, s, path[i], t);
    }
  }

  /** With `token` on the path, the path takes its parts. */
  lemma ConsumesParts(r: Registry, path: seq<Token>, token: Token)
    requires Consumed(r, path, [token])
    ensures Consumed(r, path + [token], PartsOf(r, token))
  {
    hide Takes;
    forall i, t | 0 <= i < |path + [token]| && t in PartsOf(r, token) ensures Takes(r, (path + [token])[i], t) {
      TakesPart(r, token, t);
      if i < |path| {
        assert token in [token];
        TakesTrans(r, path[i], token, t);
      }
    }
  }

  lemma ConsumesOne(r: Registry, path: seq<Token>, tokens: seq<Token>, i: nat)
    requires Consumed(r, path, tokens) && i < |tokens|
    ensures Consumed(r, path, [tokens[i]])
    ensures path != [] ==> Takes(r, path[|path| - 1], tokens[i])
  {
    assert tokens[i] in tokens;
  }

  /** Every recorded link is one the registrations bear out. */
  ghost predicate LinksTaken(r: Registry, d: Dependents) {
    forall t, consumer :: consumer in Direct(d, t) ==> Takes(r, consumer, t)
  }

  lemma LinksGrow(r: Registry, s: Registry, d: Dependents)
    requires TakesMore(r, s) && LinksTaken(r, d)
    ensures LinksTaken(s, d)
  {
    hide Takes, TakesMore;
    forall t, consumer | consumer in Direct(d, t) ensures Takes(s, consumer, t) {
      TakesGrows(r, s, consumer, t);
    }
  }

  lemma RecordedIsTaken(r: Registry, d: Dependents, path: seq<Token>, token: Token)
    requires LinksTaken(r, d) && Consumed(r, path, [token])
    ensures LinksTaken(r, Recorded(d, token, OwnerOf(r, path)))
  {
    hide Takes;
    OwnerIsOnPath(r, path);
    assert token in [token];
  }

  lemma {:induction false} OwnerIsOnPath(r: Registry, path: seq<Token>)
    ensures OwnerOf(r, path).Some? ==> exists i :: 0 <= i < |path| && path[i] == OwnerOf(r, path).value
  {
    if path != [] {
      OwnerIsOnPath(r, path[..|path| - 1]);
      assert forall i :: 0 <= i < |path| - 1 ==> path[..|path| - 1][i] == path[i];
    }
  }

  /** Links borne out one by one are borne out in chains. */
  lemma LinkedIsTaken(r: Registry, d: Dependents, token: Token, consumer: Token)
    requires LinksTaken(r, d) && Linked(d, token, consumer)
    ensures Takes(r, consumer, token)
  {
    hide Takes;
    TakesItself(r, token);
    var c := set t | t in AllTokens(d) + {token} && Takes(r, t, token);
    forall t | t in c ensures Direct(d, t) <= c {
      forall u | u in Direct(d, t) ensures u in c {
        TakesTrans(r, u, t, token);
      }
    }
    assert Closed(d, c);
  }

  ghost predicate Named(origins: set<Origin>, t: Token) {
    exists p :: p in origins && p.token == t
  }

  lemma NamedMore(a: set<Origin>, b: set<Origin>)
    ensures forall t :: Named(a, t) || Named(b, t) ==> Named(a + b, t)
  {
    forall t | Named(a, t) || Named(b, t) ensures Named(a + b, t) {
      var p :| (p in a || p in b) && p.token == t;
      assert p in a + b;
    }
  }

  /** `old` with more tokens registered, and none changed. */
  ghost predicate Grown(old_: Registry, r: Registry) {
    forall t :: t in old_ ==> t in r && r[t] == old_[t]
  }

  /**
   What an instance was built from is current, is linked to the cached instance that
   consumes it, includes all that its parts were built from, and when `captiveFree` holds
   nothing scoped.
   */
  ghost predicate Proper(r: Registry, d: Dependents, origins: set<Origin>, owner: Option<Token>, captiveFree: bool) {
    forall o :: o in origins ==>
      && o.token in r && r[o.token] == o.registration
      && (owner.Some? ==> Linked(d, o.token, owner.value))
      && (captiveFree ==> !o.registration.lifetime.Scoped?)
      && forall t <- Parts(o.registration.provider) :: Named(origins, t)
  }

  ghost predicate ProperCache(r: Registry, d: Dependents, cache: Cache, captiveFree: bool) {
    forall t :: t in cache ==>
      && t in r && Origin(t, r[t]) in cache[t].origins && AllTaken(r, t, cache[t].origins)
      && Proper(r, d, cache[t].origins, Some(t), captiveFree)
  }

  /** What a cached instance was built from is exactly what its token takes. */
  lemma OriginsAreTaken(r: Registry, d: Dependents, cache: Cache, free: bool, token: Token, t: Token)
    requires ProperCache(r, d, cache, free) && token in cache
    ensures Named(cache[token].origins, t) <==> Takes(r, token, t)
  {
    var origins := cache[token].origins;
    if Takes(r, token, t) {
      NamesAreClosed(r, d, origins, Some(token), free);
      assert Origin(token, r[token]) in origins;
    }
  }

  function Names(origins: set<Origin>): set<Token> {
    set o | o in origins :: o.token
  }

  lemma NamesAreClosed(r: Registry, d: Dependents, origins: set<Origin>, owner: Option<Token>, free: bool)
    requires Proper(r, d, origins, owner, free)
    ensures PartsClosed(r, Names(origins)) && forall t :: t in Names(origins) <==> Named(origins, t)
  {
    hide Linked;
    forall t, p | t in Names(origins) && p in PartsOf(r, t) ensures p in Names(origins) {
      var o :| o in origins && o.token == t;
      assert Named(origins, p);
    }
  }

  lemma ProperGrows(r: Registry, d: Dependents, r': Registry, d': Dependents, origins: set<Origin>,
      owner: Option<Token>, free: bool)
    requires Proper(r, d, origins, owner, free) && Grown(r, r') && Extends(d, d')
    ensures Proper(r', d', origins, owner, free)
  {
    if owner.Some? {
      forall o | o in origins ensures Linked(d', o.token, owner.value) {
        LinkedGrows(d, d', o.token, owner.value);
      }
    }
  }

  lemma CacheGrows(r: Registry, d: Dependents, r': Registry, d': Dependents, cache: Cache, free: bool)
    requires ProperCache(r, d, cache, free) && Grown(r, r') && Extends(d, d')
    ensures ProperCache(r', d', cache, free)
  {
    GrownTakesMore(r, r');
    hide AllTaken, TakesMore;
    forall t | t in cache ensures Proper(r', d', cache[t].origins, Some(t), free) && AllTaken(r', t, cache[t].origins) {
      ProperGrows(r, d, r', d', cache[t].origins, Some(t), free);
      AllTakenGrows(r, r', t, cache[t].origins);
    }
  }

  lemma GrownTakesMore(r: Registry, s: Registry)
    requires Grown(r, s)
    ensures TakesMore(r, s)
  {
  }

  lemma {:induction false} OwnerGrows(r: Registry, r': Registry, path: seq<Token>)
    requires Grown(r, r') && forall i :: 0 <= i < |path| ==> path[i] in r
    ensures OwnerOf(r', path) == OwnerOf(r, path)
  {
    if path != [] {
      OwnerGrows(r, r', path[..|path| - 1]);
    }
  }

  /** What `token`, resolved under `path`, comes back as. */
  ghost predicate Made(r: Registry, d: Dependents, token: Token, path: seq<Token>, inst: Instance, captiveFree: bool) {
    && token in r && Origin(token, r[token]) in inst.origins && AllTaken(r, token, inst.origins)
    && Proper(r, d, inst.origins, OwnerOf(r, path + [token]), captiveFree)
    && (OwnerOf(r, path).Some? ==> Linked(d, token, OwnerOf(r, path).value))
  }

  lemma MadeIsNamed(r: Registry, d: Dependents, token: Token, path: seq<Token>, inst: Instance, free: bool)
    requires Made(r, d, token, path, inst, free)
    ensures Named(inst.origins, token) && AllTaken(r, token, inst.origins)
  {
    assert Origin(token, r[token]).token == token;
  }

  /** A resolved part belongs to the consumer above it. */
  lemma MadeIsPart(r: Registry, d: Dependents, token: Token, path: seq<Token>, inst: Instance, free: bool)
    requires Made(r, d, token, path, inst, free)
    ensures Proper(r, d, inst.origins, OwnerOf(r, path), free)
  {
    assert (path + [token])[..|path|] == path;
    if OwnerOf(r, path).Some? && !r[token].lifetime.Transient? {
      forall o | o in inst.origins ensures Linked(d, o.token, OwnerOf(r, path).value) {
        LinkedTrans(d, o.token, token, OwnerOf(r, path).value);
      }
    }
  }

  /** The instance `token` adds itself to what its parts were built from. */
  lemma OwnOrigin(r: Registry, d: Dependents, token: Token, path: seq<Token>, parts: set<Origin>, free: bool)
    requires token in r && Proper(r, d, parts, OwnerOf(r, path + [token]), free)
    requires free ==> !r[token].lifetime.Scoped?
    requires OwnerOf(r, path).Some? ==> Linked(d, token, OwnerOf(r, path).value)
    requires forall t <- Parts(r[token].provider) :: Named(parts, t)
    requires AllTaken(r, token, parts)
    ensures Made(r, d, token, path, Instance(parts + {Origin(token, r[token])}), free)
  {
    assert (path + [token])[..|path|] == path;
    hide Named, Takes;
    NamedMore(parts, {Origin(token, r[token])});
    TakesItself(r, token);
  }

  lemma NothingTaken(r: Registry, token: Token)
    ensures AllTaken(r, token, {})
  {
  }

  lemma AllTakenUnion(r: Registry, token: Token, a: set<Origin>, b: set<Origin>)
    requires AllTaken(r, token, a) && AllTaken(r, token, b)
    ensures AllTaken(r, token, a + b)
  {
    hide Takes;
  }

  /** What an instance was built from is exactly what its token takes, as registered now. */
  lemma MadeIsExact(r: Registry, d: Dependents, token: Token, path: seq<Token>, inst: Instance, free: bool)
    requires Made(r, d, token, path, inst, free)
    ensures forall o :: o in inst.origins ==> o.token in r && r[o.token] == o.registration
    ensures forall t :: Named(inst.origins, t) <==> Takes(r, token, t)
  {
    NamesAreClosed(r, d, inst.origins, OwnerOf(r, path + [token]), free);
    assert Origin(token, r[token]) in inst.origins;
    forall t | Takes(r, token, t) ensures Named(inst.origins, t) {
      assert t in Names(inst.origins);
    }
  }

  lemma ProperNothing(r: Registry, d: Dependents, owner: Option<Token>, free: bool)
    ensures Proper(r, d, {}, owner, free)
  {
  }

  lemma ProperUnion(r: Registry, d: Dependents, a: set<Origin>, b: set<Origin>, owner: Option<Token>, free: bool)
    requires Proper(r, d, a, owner, free) && Proper(r, d, b, owner, free)
    ensures Proper(r, d, a + b, owner, free)
  {
    hide Named, Linked;
    NamedMore(a, b);
  }

  // ---------------------------------------------------------------------------
  // When evictions are exact
  // ---------------------------------------------------------------------------

  /** The cached instances that were not built from `token`. */
  function NotBuiltFrom(cache: Cache, token: Token): Cache {
    map t | t in cache && token !in Names(cache[t].origins) :: cache[t]
  }

  /** Where the registrations bear every link out, exactly what was built from `token` is affected. */
  lemma AffectedAreBuilt(r: Registry, d: Dependents, cache: Cache, free: bool, token: Token, affected: set<Token>)
    requires ProperCache(r, d, cache, free) && IsAffected(d, token, affected) && LinksTaken(r, d)
    ensures cache - affected == NotBuiltFrom(cache, token)
  {
    forall t | t in cache ensures t in affected <==> token in Names(cache[t].origins) {
      NamesAreClosed(r, d, cache[t].origins, Some(t), free);
      if t in affected {
        assert Linked(d, token, t);
        LinkedIsTaken(r, d, token, t);
        OriginsAreTaken(r, d, cache, free, t, token);
      }
    }
  }

  /** A change of `token` would evict exactly the entries built from it. */
  ghost predicate EvictsExactly(d: Dependents, cache: Cache, token: Token) {
    forall t :: t in cache ==> (Linked(d, token, t) <==> Named(cache[t].origins, token))
  }

  /** What a change leaves is what was not built from the token exactly when its links say so. */
  lemma LeftExactly(d: Dependents, cache: Cache, token: Token, affected: set<Token>)
    requires IsAffected(d, token, affected)
    ensures cache - affected == NotBuiltFrom(cache, token) <==> EvictsExactly(d, cache, token)
  {
    forall t | t in cache ensures t in affected <==> Linked(d, token, t) {
    }
    forall t | t in cache ensures token in Names(cache[t].origins) <==> Named(cache[t].origins, token) {
    }
    assert forall t :: t in cache ==> (t in cache - affected <==> !Linked(d, token, t));
    assert forall t :: t in cache ==> (t in NotBuiltFrom(cache, token) <==> !Named(cache[t].origins, token));
  }

  /** What a cached instance was built from consumes nothing but what it was built from. */
  ghost predicate LinksAreOrigins(d: Dependents, cache: Cache) {
    forall t, part, used :: t in cache && Named(cache[t].origins, part) && part in Direct(d, used) ==>
      Named(cache[t].origins, used)
  }

  /** Every change evicts exactly what it should if and only if no recorded link into an origin is stale. */
  lemma ExactExactly(r: Registry, d: Dependents, cache: Cache, free: bool)
    requires ProperCache(r, d, cache, free)
    ensures (forall token :: EvictsExactly(d, cache, token)) <==> LinksAreOrigins(d, cache)
  {
    hide Linked, Named, AllTaken;
    if LinksAreOrigins(d, cache) {
      forall token, t | t in cache ensures Linked(d, token, t) <==> Named(cache[t].origins, token) {
        NamedIsLinked(r, d, cache, free, t, token);
        OriginsKeepOut(r, d, cache, free, t, token);
      }
    }
    if forall token :: EvictsExactly(d, cache, token) {
      forall t, part, used | t in cache && Named(cache[t].origins, part) && part in Direct(d, used)
        ensures Named(cache[t].origins, used)
      {
        NamedIsLinked(r, d, cache, free, t, part);
        LinkedStep(d, used, part);
        LinkedTrans(d, used, part, t);
        assert EvictsExactly(d, cache, used);
      }
    }
  }

  lemma NamedIsLinked(r: Registry, d: Dependents, cache: Cache, free: bool, t: Token, token: Token)
    requires ProperCache(r, d, cache, free) && t in cache
    ensures Named(cache[t].origins, token) ==> Linked(d, token, t)
  {
    hide Linked;
  }

  /** A token outside the origins is linked to nothing among them. */
  lemma OriginsKeepOut(r: Registry, d: Dependents, cache: Cache, free: bool, t: Token, token: Token)
    requires ProperCache(r, d, cache, free) && t in cache && LinksAreOrigins(d, cache)
    ensures Linked(d, token, t) ==> Named(cache[t].origins, token)
  {
    var origins := cache[t].origins;
    if !Named(origins, token) {
      var outside := set x | x in AllTokens(d) + {token} && x !in Names(origins);
      NamesAreClosed(r, d, origins, Some(t), free);
      forall x | x in outside ensures Direct(d, x) <= outside {
        forall y | y in Direct(d, x) ensures y in outside {
          assert Named(origins, y) ==> Named(origins, x);
        }
      }
      assert Closed(d, outside);
      assert Origin(t, r[t]) in origins;
    }
  }

  // ---------------------------------------------------------------------------
  // Nothing is built out of thin air
  // ---------------------------------------------------------------------------

  /**
   `t` can be built from registrations alone within `n` levels: what it takes is registered,
   factories succeed, and nothing scoped is taken outside a scope or under a singleton.
   */
  ghost predicate Grounded(r: Registry, t: Token, captive: bool, inScope: bool, n: nat)
    decreases n
  {
    && n > 0 && t in r
    && (r[t].lifetime.Scoped? ==> !captive && inScope)
    && (r[t].provider.Build? ==> r[t].provider.succeeds)
    && forall p <- PartsOf(r, t) :: Grounded(r, p, captive || r[t].lifetime.Singleton?, inScope, n - 1)
  }

  ghost predicate Grounds(r: Registry, t: Token, captive: bool, inScope: bool) {
    exists n: nat :: Grounded(r, t, captive, inScope, n)
  }

  /** More levels and more registrations only help, and under a singleton the scope does not matter. */
  lemma {:induction false} GroundedGrows(r: Registry, s: Registry, t: Token, strong: bool, weak: bool, inA: bool,
                                         inB: bool, m: nat, n: nat)
    requires Grown(r, s) && m <= n && (weak ==> strong) && (inA && !inB ==> strong)
    requires Grounded(r, t, strong, inA, m)
    ensures Grounded(s, t, weak, inB, n)
    decreases m
  {
    assert t in r && s[t] == r[t] && PartsOf(s, t) == PartsOf(r, t);
    forall p | p in PartsOf(s, t) ensures Grounded(s, p, weak || s[t].lifetime.Singleton?, inB, n - 1) {
      GroundedGrows(r, s, p, strong || r[t].lifetime.Singleton?, weak || r[t].lifetime.Singleton?, inA, inB, m - 1,
                    n - 1);
    }
  }

  lemma GroundsGrows(r: Registry, s: Registry, t: Token, strong: bool, weak: bool, inA: bool, inB: bool)
    requires Grown(r, s) && (weak ==> strong) && (inA && !inB ==> strong) && Grounds(r, t, strong, inA)
    ensures Grounds(s, t, weak, inB)
  {
    var n: nat :| Grounded(r, t, strong, inA, n);
    GroundedGrows(r, s, t, strong, weak, inA, inB, n, n);
  }

  /** Only the registrations within a closed set matter. */
  lemma {:induction false} GroundedWithin(r: Registry, s: Registry, names: set<Token>, t: Token, captive: bool,
                                          inScope: bool, n: nat)
    requires PartsClosed(r, names) && t in names && Grounded(r, t, captive, inScope, n)
    requires forall x :: x in names && x in r ==> x in s && s[x] == r[x]
    ensures Grounded(s, t, captive, inScope, n)
    decreases n
  {
    forall p | p in PartsOf(s, t) ensures Grounded(s, p, captive || s[t].lifetime.Singleton?, inScope, n - 1) {
      GroundedWithin(r, s, names, p, captive || r[t].lifetime.Singleton?, inScope, n - 1);
    }
  }

  lemma {:induction false} CommonLevel(r: Registry, parts: seq<Token>, captive: bool, inScope: bool) returns (n: nat)
    requires forall p <- parts :: Grounds(r, p, captive, inScope)
    ensures forall p <- parts :: Grounded(r, p, captive, inScope, n)
  {
    if parts == [] {
      n := 0;
    } else {
      assert parts[0] in parts && forall p <- parts[1..] :: p in parts;
      var a: nat :| Grounded(r, parts[0], captive, inScope, a);
      var b := CommonLevel(r, parts[1..], captive, inScope);
      n := if a < b then b else a;
      forall p | p in parts ensures Grounded(r, p, captive, inScope, n) {
        GroundedGrows(r, r, p, captive, captive, inScope, inScope, if p == parts[0] then a else b, n);
      }
    }
  }

  /** What is built from grounded parts is grounded. */
  lemma PartsGround(r: Registry, t: Token, captive: bool, inScope: bool)
    requires t in r && (r[t].lifetime.Scoped? ==> !captive && inScope)
    requires r[t].provider.Build? ==> r[t].provider.succeeds
    requires forall p <- PartsOf(r, t) :: Grounds(r, p, captive || r[t].lifetime.Singleton?, inScope)
    ensures Grounds(r, t, captive, inScope)
  {
    var n := CommonLevel(r, PartsOf(r, t), captive || r[t].lifetime.Singleton?, inScope);
    assert Grounded(r, t, captive, inScope, n + 1);
  }

  /** Every cached instance is cached as registered and could be built: a singleton without anything scoped. */
  ghost predicate AllGrounded(s: Snapshot) {
    && (forall t :: t in s.singletons ==>
          t in s.registry && s.registry[t].lifetime.Singleton? && Grounds(s.registry, t, true, false))
    && (forall id, t :: id in s.scopes && t in s.scopes[id] ==>
          t in s.registry && s.registry[t].lifetime.Scoped? && Grounds(s.registry, t, false, true))
  }

  lemma AllGroundedGrows(a: Snapshot, b: Snapshot)
    requires AllGrounded(a) && Grown(a.registry, b.registry)
    requires a.singletons == b.singletons && a.scopes == b.scopes
    ensures AllGrounded(b)
  {
    hide Grounds;
    forall t | t in b.singletons ensures Grounds(b.registry, t, true, false) {
      GroundsGrows(a.registry, b.registry, t, true, true, false, false);
    }
    forall id, t | id in b.scopes && t in b.scopes[id] ensures Grounds(b.registry, t, false, true) {
      GroundsGrows(a.registry, b.registry, t, false, false, true, true);
    }
  }

  /** What survives a change was not built from the changed token, so it still could be built. */
  lemma GroundedSurvive(s: Snapshot, before: Registry, token: Token, affected: set<Token>)
    requires Coherent(s.(registry := before)) && AllGrounded(s.(registry := before))
    requires IsAffected(s.dependents, token, affected)
    requires forall t :: t != token && t in before ==> t in s.registry && s.registry[t] == before[t]
    ensures AllGrounded(Evicted(s, affected))
  {
    hide Grounds, IsAffected;
    forall t | t in s.singletons - affected
      ensures t in s.registry && s.registry[t].lifetime.Singleton? && Grounds(s.registry, t, true, false)
    {
      SurvivorIsGrounded(before, s.registry, s.dependents, s.singletons, true, token, affected, t);
    }
    forall id, t | id in s.scopes && t in s.scopes[id] - affected
      ensures t in s.registry && s.registry[t].lifetime.Scoped? && Grounds(s.registry, t, false, true)
    {
      SurvivorIsGrounded(before, s.registry, s.dependents, s.scopes[id], false, token, affected, t);
    }
  }

  lemma SurvivorIsGrounded(r: Registry, s: Registry, d: Dependents, cache: Cache, free: bool, token: Token,
                           affected: set<Token>, t: Token)
    requires ProperCache(r, d, cache, free) && IsAffected(d, token, affected) && t in cache && t !in affected
    requires forall x :: x != token && x in r ==> x in s && s[x] == r[x]
    requires t in r && Grounds(r, t, free, !free)
    ensures t in s && s[t] == r[t] && Grounds(s, t, free, !free)
  {
    var names := Names(cache[t].origins);
    NamesAreClosed(r, d, cache[t].origins, Some(t), free);
    NamedIsLinked(r, d, cache, free, t, token);
    assert Linked(d, token, t) ==> t in affected;
    assert Origin(t, r[t]) in cache[t].origins;
    var n: nat :| Grounded(r, t, free, !free, n);
    GroundedWithin(r, s, names, t, free, !free, n);
  }

  /** Grounded things can be built, unregistered classes or not. */
  lemma {:induction false} GroundedIsBuildable(c: Settings, r: Registry, t: Token, captive: bool, inScope: bool, n: nat)
    requires Grounded(r, t, captive, inScope, n)
    ensures Buildable(c, r, t, captive, inScope, n)
    decreases n
  {
    var below := captive || r[t].lifetime.Singleton?;
    forall p | p in PartsOf(r, t) ensures Buildable(c, r, p, below, inScope, n - 1) {
      GroundedIsBuildable(c, r, p, below, inScope, n - 1);
    }
    match r[t].provider
    case Value =>
    case Existing(target) => assert target in PartsOf(r, t);
    case Build(inject, _) => assert forall i :: 0 <= i < |inject| ==> inject[i] in PartsOf(r, t);
  }

  lemma PartsAreBuildable(c: Settings, r: Registry, t: Token, captive: bool, inScope: bool, n: nat)
    requires t in r && Buildable(c, r, t, captive, inScope, n)
    ensures n > 0
    ensures forall p <- PartsOf(r, t) :: Buildable(c, r, p, captive || r[t].lifetime.Singleton?, inScope, n - 1)
  {
  }

  /** Nothing that takes itself, directly or through others, can be built. */
  lemma {:induction false} CyclesCannotBeBuilt(c: Settings, r: Registry, path: seq<Token>, i: nat, captive: bool,
                                               inScope: bool, n: nat)
    requires i < |path| && forall j :: 0 <= j < |path| ==> path[(j + 1) % |path|] in PartsOf(r, path[j])
    ensures !Buildable(c, r, path[i], captive, inScope, n)
    decreases n
  {
    var t, next := path[i], (i + 1) % |path|;
    assert path[next] in PartsOf(r, t);
    if Buildable(c, r, t, captive, inScope, n) {
      PartsAreBuildable(c, r, t, captive, inScope, n);
      CyclesCannotBeBuilt(c, r, path, next, captive || r[t].lifetime.Singleton?, inScope, n - 1);
    }
  }

  // ---------------------------------------------------------------------------
  // What a resolution may change
  // ---------------------------------------------------------------------------

  /** `classes`: the class tokens that can be built unregistered: whether each takes no arguments, and builds. */
  datatype Settings = Settings(
    autoRegisterClasses: bool,
    detectCircularDependencies: bool,
    maxResolutionDepth: nat,
    classes: map<Token, (bool, bool)>)

  datatype Snapshot = Snapshot(
    registry: Registry, dependents: Dependents, singletons: Cache, scopes: map<ScopeId, Cache>)

  ghost predicate Coherent(s: Snapshot) {
    && ProperCache(s.registry, s.dependents, s.singletons, true)
    && forall id :: id in s.scopes ==> ProperCache(s.registry, s.dependents, s.scopes[id], false)
  }

  lemma CoherentGrows(a: Snapshot, b: Snapshot)
    requires Coherent(a) && Grown(a.registry, b.registry) && Extends(a.dependents, b.dependents)
    requires a.singletons == b.singletons && a.scopes == b.scopes
    ensures Coherent(b)
  {
    CacheGrows(a.registry, a.dependents, b.registry, b.dependents, a.singletons, true);
    forall id | id in a.scopes ensures ProperCache(b.registry, b.dependents, b.scopes[id], false) {
      CacheGrows(a.registry, a.dependents, b.registry, b.dependents, a.scopes[id], false);
    }
  }

  /** Nothing that was cached is lost or replaced. */
  ghost predicate Kept(before: Cache, after: Cache) {
    forall t :: t in before ==> t in after && after[t] == before[t]
  }

  ghost predicate AllKept(before: map<ScopeId, Cache>, after: map<ScopeId, Cache>) {
    before.Keys == after.Keys && forall id :: id in before ==> Kept(before[id], after[id])
  }

  /** Registrations, edges and cached instances are only added, and only classes get registered. */
  ghost predicate Adds(c: Settings, a: Snapshot, b: Snapshot) {
    && Grown(a.registry, b.registry) && SameFound(c, a.registry, b.registry)
    && Extends(a.dependents, b.dependents)
    && Kept(a.singletons, b.singletons) && AllKept(a.scopes, b.scopes)
  }

  lemma AddsTrans(c: Settings, x: Snapshot, y: Snapshot, z: Snapshot)
    requires Adds(c, x, y) && Adds(c, y, z)
    ensures Adds(c, x, z)
  {
  }

  lemma AddsNothing(c: Settings, x: Snapshot)
    ensures Adds(c, x, x)
  {
  }

  /** No scope but the given one has changed. */
  ghost predicate OnlyScope(before: map<ScopeId, Cache>, after: map<ScopeId, Cache>, scope: Option<ScopeId>) {
    before.Keys == after.Keys && forall id :: id in before && scope != Some(id) ==> after[id] == before[id]
  }

  ghost predicate Registered(r: Registry, path: seq<Token>) {
    forall i :: 0 <= i < |path| ==> path[i] in r
  }

  lemma RegisteredGrows(r: Registry, r': Registry, path: seq<Token>)
    requires Grown(r, r') && Registered(r, path)
    ensures Registered(r', path) && OwnerOf(r', path) == OwnerOf(r, path)
  {
    OwnerGrows(r, r', path);
  }

  // ---------------------------------------------------------------------------
  // What can be resolved
  // ---------------------------------------------------------------------------

  /** The registration a token resolves by: its own, or the one a plain class is given. */
  function Found(c: Settings, r: Registry, t: Token): Option<Registration> {
    if t in r then Some(r[t])
    else if c.autoRegisterClasses && t in c.classes && c.classes[t].0 then
      Some(Registration(Transient, Build([], c.classes[t].1), 0))
    else None
  }

  ghost predicate SameFound(c: Settings, r: Registry, s: Registry) {
    forall t :: Found(c, r, t) == Found(c, s, t)
  }

  /**
   `token` can be built in `n` levels: everything it takes is registered and can be built
   below it, and nothing scoped is needed outside a scope or under a singleton (`captive`).
   */
  ghost predicate Buildable(c: Settings, r: Registry, token: Token, captive: bool, inScope: bool, n: nat)
    decreases n, 1
  {
    && n > 0 && Found(c, r, token).Some?
    && var g := Found(c, r, token).value;
       && (g.lifetime.Scoped? ==> !captive && inScope)
       && PartsBuildable(c, r, g.provider, captive || g.lifetime.Singleton?, inScope, n - 1)
  }

  ghost predicate PartsBuildable(c: Settings, r: Registry, provider: Provider, captive: bool, inScope: bool, n: nat)
    decreases n, 2
  {
    match provider
    case Value => true
    case Existing(target) => Buildable(c, r, target, captive, inScope, n)
    case Build(inject, succeeds) =>
      succeeds && forall i :: 0 <= i < |inject| ==> Buildable(c, r, inject[i], captive, inScope, n)
  }

  ghost predicate NoneBuildable(c: Settings, r: Registry, path: seq<Token>, captive: bool, inScope: bool, n: nat) {
    forall i :: 0 <= i < |path| ==> !Buildable(c, r, path[i], captive, inScope, n)
  }

  /** `token` can be built under `path`: the depth suffices, and what it needs stays clear of the path. */
  ghost predicate Ready(c: Settings, r: Registry, token: Token, path: seq<Token>, captive: bool, inScope: bool,
      n: nat) {
    && |path| + n <= c.maxResolutionDepth && Buildable(c, r, token, captive, inScope, n)
    && NoneBuildable(c, r, path, captive, inScope, n)
  }

  /** What is left of that for the parts of an instance once its token is on the path. */
  ghost predicate PartsReady(c: Settings, r: Registry, provider: Provider, path: seq<Token>, captive: bool,
      inScope: bool, n: nat) {
    && |path| + n <= c.maxResolutionDepth && PartsBuildable(c, r, provider, captive, inScope, n)
    && NoneBuildable(c, r, path, captive, inScope, n)
  }

  /** More levels, and fewer singletons above, only help. */
  lemma {:induction false} BuildableGrows(
    c: Settings, r: Registry, token: Token, strong: bool, weak: bool, inScope: bool, m: nat, n: nat)
    requires m <= n && (weak ==> strong) && Buildable(c, r, token, strong, inScope, m)
    ensures Buildable(c, r, token, weak, inScope, n)
    decreases m
  {
    var g := Found(c, r, token).value;
    var strong', weak' := strong || g.lifetime.Singleton?, weak || g.lifetime.Singleton?;
    match g.provider
    case Value =>
    case Existing(target) => BuildableGrows(c, r, target, strong', weak', inScope, m - 1, n - 1);
    case Build(inject, _) =>
      forall i | 0 <= i < |inject| ensures Buildable(c, r, inject[i], weak', inScope, n - 1) {
        BuildableGrows(c, r, inject[i], strong', weak', inScope, m - 1, n - 1);
      }
  }

  lemma {:induction false} BuildableSame(c: Settings, r: Registry, s: Registry, token: Token, captive: bool,
      inScope: bool, n: nat)
    requires SameFound(c, r, s)
    ensures Buildable(c, r, token, captive, inScope, n) == Buildable(c, s, token, captive, inScope, n)
    decreases n
  {
    assert Found(c, r, token) == Found(c, s, token);
    if n > 0 && Found(c, r, token).Some? {
      var g := Found(c, r, token).value;
      var below := captive || g.lifetime.Singleton?;
      match g.provider
      case Value =>
      case Existing(target) => BuildableSame(c, r, s, target, below, inScope, n - 1);
      case Build(inject, _) =>
        forall i | 0 <= i < |inject|
          ensures Buildable(c, r, inject[i], below, inScope, n - 1) == Buildable(c, s, inject[i], below, inScope, n - 1)
        {
          BuildableSame(c, r, s, inject[i], below, inScope, n - 1);
        }
    }
  }

  lemma ReadySame(c: Settings, r: Registry, s: Registry, token: Token, path: seq<Token>, captive: bool, inScope: bool,
      n: nat)
    requires SameFound(c, r, s)
    ensures Ready(c, r, token, path, captive, inScope, n) == Ready(c, s, token, path, captive, inScope, n)
  {
    hide Buildable;
    BuildableSame(c, r, s, token, captive, inScope, n);
    forall i | 0 <= i < |path|
      ensures Buildable(c, r, path[i], captive, inScope, n) == Buildable(c, s, path[i], captive, inScope, n)
    {
      BuildableSame(c, r, s, path[i], captive, inScope, n);
    }
  }

  lemma FewerLevels(c: Settings, r: Registry, path: seq<Token>, weak: bool, strong: bool, inScope: bool, m: nat, n: nat)
    requires m <= n && (weak ==> strong) && NoneBuildable(c, r, path, weak, inScope, n)
    ensures NoneBuildable(c, r, path, strong, inScope, m)
  {
    hide Buildable;
    forall i | 0 <= i < |path| ensures !Buildable(c, r, path[i], strong, inScope, m) {
      if Buildable(c, r, path[i], strong, inScope, m) {
        BuildableGrows(c, r, path[i], strong, weak, inScope, m, n);
      }
    }
  }

  /** With the fewest levels that will do, nothing below `token` needs `token` again. */
  lemma {:induction false} ReadyParts(
    c: Settings, r: Registry, token: Token, path: seq<Token>, captive: bool, inScope: bool, n: nat) returns (m: nat)
    requires Ready(c, r, token, path, captive, inScope, n) && token in r
    ensures PartsReady(c, r, r[token].provider, path + [token], captive || r[token].lifetime.Singleton?, inScope, m)
    decreases n
  {
    var below := captive || r[token].lifetime.Singleton?;
    assert n > 0 && PartsBuildable(c, r, r[token].provider, below, inScope, n - 1);
    hide Buildable, PartsBuildable;
    FewerLevels(c, r, path, captive, captive, inScope, n - 1, n);
    if Buildable(c, r, token, captive, inScope, n - 1) {
      m := ReadyParts(c, r, token, path, captive, inScope, n - 1);
    } else {
      m := n - 1;
      FewerLevels(c, r, path + [token], captive, below, inScope, n - 1, n - 1);
    }
  }

  /** The four reasons to refuse a token, none of which holds of one that is ready. */
  lemma ReadyPasses(c: Settings, r: Registry, token: Token, path: seq<Token>, captive: bool, inScope: bool, n: nat)
    requires Ready(c, r, token, path, captive, inScope, n)
    ensures |path| + 1 <= c.maxResolutionDepth && token !in path && Found(c, r, token).Some?
    ensures Found(c, r, token).value.lifetime.Scoped? ==> !captive && inScope
  {
  }

  ghost predicate CanResolve(c: Settings, r: Registry, token: Token, path: seq<Token>, captive: bool, inScope: bool) {
    exists n :: Ready(c, r, token, path, captive, inScope, n)
  }

  ghost predicate CanMake(c: Settings, r: Registry, provider: Provider, path: seq<Token>, captive: bool,
      inScope: bool) {
    exists n :: PartsReady(c, r, provider, path, captive, inScope, n)
  }

  /** `token` can be built within the depth limit. */
  ghost predicate CanBuild(c: Settings, r: Registry, token: Token, inScope: bool) {
    exists n: nat :: n <= c.maxResolutionDepth && Buildable(c, r, token, false, inScope, n)
  }

  lemma CanResolveFirst(c: Settings, r: Registry, token: Token, inScope: bool)
    ensures CanBuild(c, r, token, inScope) ==> CanResolve(c, r, token, [], false, inScope)
  {
    hide Buildable;
    if n: nat :| n <= c.maxResolutionDepth && Buildable(c, r, token, false, inScope, n) {
      assert Ready(c, r, token, [], false, inScope, n);
    }
  }

  lemma Refused(c: Settings, r: Registry, token: Token, path: seq<Token>, captive: bool, inScope: bool)
    requires || |path| + 1 > c.maxResolutionDepth || token in path || Found(c, r, token).None?
             || (Found(c, r, token).value.lifetime.Scoped? && (captive || !inScope))
    ensures !CanResolve(c, r, token, path, captive, inScope)
  {
    hide Ready;
    if n :| Ready(c, r, token, path, captive, inScope, n) {
      ReadyPasses(c, r, token, path, captive, inScope, n);
    }
  }

  lemma ResolvingMakes(c: Settings, r: Registry, s: Registry, token: Token, path: seq<Token>, captive: bool,
      inScope: bool)
    requires SameFound(c, r, s) && token in s && CanResolve(c, r, token, path, captive, inScope)
    ensures CanMake(c, s, s[token].provider, path + [token], captive || s[token].lifetime.Singleton?, inScope)
  {
    hide Ready, PartsReady;
    var n: nat :| Ready(c, r, token, path, captive, inScope, n);
    ReadySame(c, r, s, token, path, captive, inScope, n);
    var m := ReadyParts(c, s, token, path, captive, inScope, n);
  }

  lemma MakingResolvesAll(c: Settings, r: Registry, provider: Provider, path: seq<Token>, parts: seq<Token>,
      captive: bool, inScope: bool)
    requires parts == Parts(provider)
    ensures CanMake(c, r, provider, path, captive, inScope) ==>
              && (forall t <- parts :: CanResolve(c, r, t, path, captive, inScope))
              && (provider.Build? ==> provider.succeeds)
  {
    hide Buildable;
    if n: nat :| PartsReady(c, r, provider, path, captive, inScope, n) {
      forall t | t in parts ensures CanResolve(c, r, t, path, captive, inScope) {
        assert Ready(c, r, t, path, captive, inScope, n);
      }
    }
  }

  /** How an answer stands to the caches: a cached instance is handed out again, a new one is kept. */
  ghost predicate CacheDecides(c: Settings, before: Snapshot, after: Snapshot, token: Token, path: seq<Token>,
      captive: bool, scope: Option<ScopeId>, r: Option<Instance>)
    requires scope.Some? ==> scope.value in before.scopes && scope.value in after.scopes
  {
    && (r.Some? ==>
          && |path| < c.maxResolutionDepth && !(c.detectCircularDependencies && token in path)
          && token in after.registry && Found(c, before.registry, token) == Some(after.registry[token])
          && match after.registry[token].lifetime
             case Transient => true
             case Singleton => token in after.singletons && after.singletons[token] == r.value
             case Scoped => !captive && scope.Some? && token in after.scopes[scope.value] &&
                            after.scopes[scope.value][token] == r.value)
    && (|path| < c.maxResolutionDepth && token !in path && token in before.registry ==>
          match before.registry[token].lifetime
          case Transient => true
          case Singleton => token in before.singletons ==> r == Some(before.singletons[token])
          case Scoped => !captive && scope.Some? && token in before.scopes[scope.value] ==>
                           r == Some(before.scopes[scope.value][token]))
  }

  ghost predicate BuiltWithout(cache: Cache, token: Token) {
    forall t :: t in cache ==> !Named(cache[t].origins, token)
  }

  ghost predicate ScopedAreKnown(scopes: map<ScopeId, Cache>, known: set<Token>) {
    forall id :: id in scopes ==> scopes[id].Keys <= known
  }

  lemma RegisteredWith(r: Registry, path: seq<Token>, token: Token)
    requires Registered(r, path) && token in r
    ensures Registered(r, path + [token])
  {
  }

  lemma FoundIsRegistered(c: Settings, r: Registry, token: Token)
    ensures Found(c, r, token).None? ==> token !in r
    ensures token in r ==> Found(c, r, token) == Some(r[token])
  {
  }

  lemma CoherentMeans(s: Snapshot, scope: Option<ScopeId>)
    requires Coherent(s) && (scope.Some? ==> scope.value in s.scopes)
    ensures ProperCache(s.registry, s.dependents, s.singletons, true)
    ensures scope.Some? ==> ProperCache(s.registry, s.dependents, s.scopes[scope.value], false)
  {
  }

  lemma CanResolveSame(c: Settings, r: Registry, s: Registry, token: Token, path: seq<Token>, captive: bool,
      inScope: bool)
    requires SameFound(c, r, s)
    ensures CanResolve(c, r, token, path, captive, inScope) ==> CanResolve(c, s, token, path, captive, inScope)
  {
    hide Ready;
    if n :| Ready(c, r, token, path, captive, inScope, n) {
      ReadySame(c, r, s, token, path, captive, inScope, n);
    }
  }

  function ScopesWithout(scopes: map<ScopeId, Cache>, gone: set<Token>): map<ScopeId, Cache> {
    map id | id in scopes :: scopes[id] - gone
  }

  /** The state without the cached entries, and the index entries, of the given tokens. */
  function Evicted(s: Snapshot, gone: set<Token>): Snapshot {
    Snapshot(s.registry, s.dependents - gone, s.singletons - gone, ScopesWithout(s.scopes, gone))
  }

  lemma AddsRegistered(c: Settings, a: Snapshot, b: Snapshot, path: seq<Token>)
    requires Adds(c, a, b) && Registered(a.registry, path)
    ensures Registered(b.registry, path) && TakesMore(a.registry, b.registry)
  {
    GrownTakesMore(a.registry, b.registry);
  }

  lemma AddsFinds(c: Settings, a: Snapshot, b: Snapshot)
    requires Adds(c, a, b)
    ensures SameFound(c, a.registry, b.registry)
  {
  }

  lemma AddsKeeps(c: Settings, a: Snapshot, b: Snapshot, token: Token)
    requires Adds(c, a, b) && token in a.registry
    ensures token in b.registry && b.registry[token] == a.registry[token]
  {
  }

  /** The state once a fresh instance is cached as its lifetime says. */
  function Caching(s: Snapshot, token: Token, inst: Instance, scope: Option<ScopeId>): Snapshot
    requires token in s.registry
    requires s.registry[token].lifetime.Scoped? ==> scope.Some? && scope.value in s.scopes
  {
    match s.registry[token].lifetime
    case Transient => s
    case Singleton => s.(singletons := s.singletons[token := inst])
    case Scoped => s.(scopes := s.scopes[scope.value := s.scopes[scope.value][token := inst]])
  }

  predicate IsCached(s: Snapshot, token: Token, lifetime: Lifetime, scope: Option<ScopeId>) {
    match lifetime
    case Transient => false
    case Singleton => token in s.singletons
    case Scoped => scope.Some? && scope.value in s.scopes && token in s.scopes[scope.value]
  }

  function CachedFor(s: Snapshot, token: Token, lifetime: Lifetime, scope: Option<ScopeId>): Instance
    requires IsCached(s, token, lifetime, scope)
  {
    if lifetime.Singleton? then s.singletons[token] else s.scopes[scope.value][token]
  }

  lemma OnlyScopeTrans(a: map<ScopeId, Cache>, b: map<ScopeId, Cache>, c: map<ScopeId, Cache>, scope: Option<ScopeId>)
    requires OnlyScope(a, b, scope) && OnlyScope(b, c, scope)
    ensures OnlyScope(a, c, scope)
  {
  }

  lemma CachingOnly(s: Snapshot, token: Token, inst: Instance, scope: Option<ScopeId>)
    requires token in s.registry && (s.registry[token].lifetime.Scoped? ==> scope.Some? && scope.value in s.scopes)
    ensures OnlyScope(s.scopes, Caching(s, token, inst, scope).scopes, scope)
  {
  }

  /** Between looking a token up and caching it, nothing took its place. */
  lemma KeptDecides(c: Settings, a: Snapshot, b: Snapshot, token: Token, path: seq<Token>, captive: bool,
                    scope: Option<ScopeId>, inst: Instance)
    requires Adds(c, a, b) && (scope.Some? ==> scope.value in a.scopes)
    requires token in b.registry && Found(c, a.registry, token) == Some(b.registry[token])
    requires |path| < c.maxResolutionDepth && !(c.detectCircularDependencies && token in path)
    requires b.registry[token].lifetime.Scoped? ==> !captive && scope.Some?
    requires !IsCached(a, token, b.registry[token].lifetime, scope)
    ensures scope.Some? ==> scope.value in b.scopes
    ensures var after := Caching(b, token, inst, scope);
            Adds(c, a, after) && (scope.Some? ==> scope.value in after.scopes) &&
            CacheDecides(c, a, after, token, path, captive, scope, Some(inst))
  {
  }

  lemma DecidesEarlier(c: Settings, a: Snapshot, b: Snapshot, after: Snapshot, token: Token, path: seq<Token>,
      captive: bool, scope: Option<ScopeId>, r: Option<Instance>)
    requires Adds(c, a, b) && a.singletons == b.singletons && a.scopes == b.scopes
    requires scope.Some? ==> scope.value in b.scopes && scope.value in after.scopes
    requires CacheDecides(c, b, after, token, path, captive, scope, r)
    ensures CacheDecides(c, a, after, token, path, captive, scope, r)
  {
    assert Found(c, a.registry, token) == Found(c, b.registry, token);
  }

  lemma SameFoundItself(c: Settings, r: Registry)
    ensures SameFound(c, r, r)
  {
  }

  lemma ScopesStay(c: Settings, a: Snapshot, b: Snapshot, scope: Option<ScopeId>)
    requires Adds(c, a, b) && (scope.Some? ==> scope.value in a.scopes)
    ensures scope.Some? ==> scope.value in b.scopes
  {
  }

  lemma FailureDecides(c: Settings, a: Snapshot, b: Snapshot, token: Token, path: seq<Token>, captive: bool,
                       scope: Option<ScopeId>)
    requires scope.Some? ==> scope.value in a.scopes && scope.value in b.scopes
    requires || |path| >= c.maxResolutionDepth || token in path || token !in a.registry
             || !IsCached(a, token, a.registry[token].lifetime, scope)
             || (a.registry[token].lifetime.Scoped? && (captive || scope.None?))
    ensures CacheDecides(c, a, b, token, path, captive, scope, None)
  {
  }

  lemma HitDecides(c: Settings, a: Snapshot, b: Snapshot, token: Token, path: seq<Token>, captive: bool,
                   scope: Option<ScopeId>, inst: Instance)
    requires scope.Some? ==> scope.value in a.scopes
    requires a.singletons == b.singletons && a.scopes == b.scopes
    requires token in b.registry && Found(c, a.registry, token) == Some(b.registry[token])
    requires |path| < c.maxResolutionDepth && !(c.detectCircularDependencies && token in path)
    requires IsCached(b, token, b.registry[token].lifetime, scope)
    requires b.registry[token].lifetime.Scoped? ==> !captive && inst == b.scopes[scope.value][token]
    requires b.registry[token].lifetime.Singleton? ==> inst == b.singletons[token]
    ensures CacheDecides(c, a, b, token, path, captive, scope, Some(inst))
  {
  }

  lemma StillLinked(c: Settings, a: Snapshot, b: Snapshot, path: seq<Token>, token: Token)
    requires Adds(c, a, b) && Registered(a.registry, path) && token in a.registry
    requires OwnerOf(a.registry, path).Some? ==> Linked(a.dependents, token, OwnerOf(a.registry, path).value)
    ensures OwnerOf(b.registry, path).Some? ==> Linked(b.dependents, token, OwnerOf(b.registry, path).value)
    ensures token in b.registry && b.registry[token] == a.registry[token]
    ensures OwnerOf(b.registry, path + [token]) == OwnerOf(a.registry, path + [token])
  {
    OwnerGrows(a.registry, b.registry, path);
    OwnerGrows(a.registry, b.registry, path + [token]);
    if OwnerOf(b.registry, path).Some? {
      LinkedGrows(a.dependents, b.dependents, token, OwnerOf(a.registry, path).value);
    }
  }
}
