/**
 The dependency-injection resolver: singleton and scope caches, and the evictions a registry
 change sets off.
 */
module Resolver {
  import opened ConsumerIndex
  import opened OrderedMap
  import opened Provenance
  import opened Results

  class ContainerResolver {
    const settings: Settings
    const index: DependentIndex
    var registry: Registry
    var singletonCache: Cache
    var scopes: map<ScopeId, Cache>
    var scopedTokens: set<Token>
    /** The singletons handed to the eviction callback so far, for disposal. */
    var disposed: seq<Token>
    /** The number the next scope gets. */
    var nextScope: ScopeId
    /** No registration has since the start, or the last wholesale change, dropped a part that it took. */
    ghost var steady: bool

    ghost function State(): Snapshot
      reads this, index
    {
      Snapshot(registry, index.dependents, singletonCache, scopes)
    }

    ghost predicate Valid()
      reads this, index
    {
      && Coherent(State()) && AllGrounded(State()) && ScopedAreKnown(scopes, scopedTokens)
      && (forall id :: id in scopes ==> id < nextScope)
      && (steady ==> LinksTaken(registry, index.dependents))
    }

    constructor (settings: Settings)
      ensures Valid() && fresh(index) && this.settings == settings
      ensures State() == Snapshot(map[], map[], map[], map[]) && disposed == [] && steady
    {
      index := new DependentIndex();
      this.settings := settings;
      registry, singletonCache, scopes, scopedTokens, disposed := map[], map[], map[], {}, [];
      nextScope, steady := 0, true;
    }

    /** Opens a scope with a cache of its own. */
    method OpenScope() returns (id: ScopeId)
      requires Valid()
      modifies this`scopes, this`nextScope
      ensures Valid() && id !in old(scopes) && scopes == old(scopes)[id := map[]]
    {
      hide ProperCache, Grounds, LinksTaken;
      EmptyIsProper(registry, index.dependents, false);
      id := nextScope;
      nextScope := nextScope + 1;
      scopes := scopes[id := map[]];
    }

    /** Closes a scope; closing it again does nothing. */
    method CloseScope(id: ScopeId)
      requires Valid()
      modifies this`scopes
      ensures Valid() && scopes == old(scopes) - {id}
    {
      scopes := scopes - {id};
    }

    /** Resolves within a scope; a scope that is not open refuses. */
    method ResolveInScope(id: ScopeId, token: Token) returns (r: Option<Instance>)
      requires Valid()
      modifies this, index
      ensures Valid() && Adds(settings, old(State()), State()) && steady == old(steady) && disposed == old(disposed)
      ensures OnlyScope(old(scopes), scopes, Some(id))
      ensures id !in old(scopes) ==> r.None? && State() == old(State())
      ensures id in old(scopes) && CanBuild(settings, old(registry), token, true) ==> r.Some?
      ensures id in old(scopes) ==> CacheDecides(settings, old(State()), State(), token, [], false, Some(id), r)
    {
      AddsNothing(settings, State());
      if id !in scopes {
        return None;
      }
      r := Resolve(token, Some(id));
    }

    /** Succeeds on everything that can be built, and only ever hands out current instances. */
    method Resolve(token: Token, scope: Option<ScopeId>) returns (r: Option<Instance>)
      requires Valid() && (scope.Some? ==> scope.value in scopes)
      modifies this, index
      ensures Valid() && Adds(settings, old(State()), State()) && steady == old(steady) && disposed == old(disposed)
      ensures OnlyScope(old(scopes), scopes, scope)
      ensures r.Some? ==>
                && (forall o :: o in r.value.origins ==> o.token in registry && registry[o.token] == o.registration)
                && (forall t :: Named(r.value.origins, t) <==> Takes(registry, token, t))
                && (exists n: nat :: Buildable(settings, old(registry), token, false, scope.Some?, n))
      ensures CanBuild(settings, old(registry), token, scope.Some?) ==> r.Some?
      ensures CacheDecides(settings, old(State()), State(), token, [], false, scope, r)
    {
      hide Coherent, ScopedAreKnown, LinksTaken, CanBuild, CanResolve, Takes, Named, Proper, AllTaken, AllGrounded,
           Grounds, Buildable;
      CanResolveFirst(settings, registry, token, scope.Some?);
      r := ResolveInternal(token, [], None, scope);
      if r.Some? {
        MadeIsExact(registry, index.dependents, token, [], r.value, false);
        GroundedWasBuildable(settings, old(registry), registry, token, scope.Some?);
      }
    }

    /** Nothing comes back when the source throws. */
    method ResolveInternal(token: Token, path: seq<Token>, singletonAncestor: Option<Token>, scope: Option<ScopeId>)
      returns (r: Option<Instance>)
      requires Valid() && (scope.Some? ==> scope.value in scopes)
      requires |path| <= settings.maxResolutionDepth && Registered(registry, path)
      requires Consumed(registry, path, [token])
      modifies this, index
      ensures Valid() && Adds(settings, old(State()), State()) && steady == old(steady) && disposed == old(disposed)
      ensures OnlyScope(old(scopes), scopes, scope)
      ensures r.Some? ==> Made(registry, index.dependents, token, path, r.value, singletonAncestor.Some?)
      ensures r.Some? ==> Grounds(registry, token, singletonAncestor.Some?, scope.Some?)
      ensures CacheDecides(settings, old(State()), State(), token, path, singletonAncestor.Some?, scope, r)
      ensures CanResolve(settings, old(registry), token, path, singletonAncestor.Some?, scope.Some?) ==> r.Some?
      decreases settings.maxResolutionDepth - |path|, 1
    {
      hide Made, Coherent, ScopedAreKnown, Adds, Registered, CanResolve, CanMake, OwnerOf, Linked, ProperCache, Found,
           CacheDecides, LinksTaken, Consumed, TakesMore, IsCached, CachedFor, AllGrounded, Grounds;
      ghost var s0, captive := State(), singletonAncestor.Some?;
      var registration := Enter(token, path, singletonAncestor, scope);
      if registration.None? {
        return None;
      }
      ghost var s1 := State();
      var hit := FromCache(token, registration.value.lifetime, scope);
      if hit.Some? {
        HitIsMade(settings, s0, s1, token, path, captive, scope);
        HitIsGrounded(s1, token, captive, scope);
        return hit;
      }
      r := CreateAndKeep(token, path, singletonAncestor, scope);
      AddsTrans(settings, s0, s1, State());
      AddsFinds(settings, s0, s1);
      ScopesStay(settings, s0, State(), scope);
      CanResolveSame(settings, s0.registry, s1.registry, token, path, captive, scope.Some?);
      DecidesEarlier(settings, s0, s1, State(), token, path, captive, scope, r);
    }

    /**
     Finds the registration and records the dependency. Nothing comes back for a token that is
     refused: too deep, on the path already, not to be found, or scoped where it must not be.
     */
    method Enter(token: Token, path: seq<Token>, singletonAncestor: Option<Token>, scope: Option<ScopeId>)
      returns (registration: Option<Registration>)
      requires Valid() && (scope.Some? ==> scope.value in scopes)
      requires |path| <= settings.maxResolutionDepth && Registered(registry, path)
      requires Consumed(registry, path, [token])
      modifies this`registry, index
      ensures Valid() && Adds(settings, old(State()), State())
      ensures registration.None? ==>
                && CacheDecides(settings, old(State()), State(), token, path, singletonAncestor.Some?, scope, None)
                && !CanResolve(settings, old(registry), token, path, singletonAncestor.Some?, scope.Some?)
      ensures registration.Some? ==>
                && |path| < settings.maxResolutionDepth && !(settings.detectCircularDependencies && token in path)
                && Found(settings, old(registry), token) == registration
                && token in registry && registry[token] == registration.value
                && (registration.value.lifetime.Scoped? ==> singletonAncestor.None? && scope.Some?)
                && Registered(registry, path) && Consumed(registry, path, [token])
                && (OwnerOf(registry, path).Some? ==> Linked(index.dependents, token, OwnerOf(registry, path).value))
    {
      hide Made, Coherent, ScopedAreKnown, Adds, Registered, CanResolve, OwnerOf, Linked, Found, CacheDecides,
           LinksTaken, Consumed, TakesMore, IsCached, AllGrounded;
      ghost var s0, captive := State(), singletonAncestor.Some?;
      if |path| + 1 > settings.maxResolutionDepth || (settings.detectCircularDependencies && token in path) {
        AddsNothing(settings, s0);
        Refused(settings, registry, token, path, captive, scope.Some?);
        FailureDecides(settings, s0, s0, token, path, captive, scope);
        return None;
      }
      registration := LookUp(token);
      FoundIsRegistered(settings, s0.registry, token);
      ghost var s1 := State();
      if registration.None? {
        Refused(settings, s0.registry, token, path, captive, scope.Some?);
        FailureDecides(settings, s0, s1, token, path, captive, scope);
        return;
      }
      AddsRegistered(settings, s0, s1, path);
      ConsumedGrows(s0.registry, registry, path, [token]);
      RecordDependent(token, path);
      AddsTrans(settings, s0, s1, State());
      if registration.value.lifetime.Scoped? && (singletonAncestor.Some? || scope.None?) {
        Refused(settings, s0.registry, token, path, captive, scope.Some?);
        FailureDecides(settings, s0, State(), token, path, captive, scope);
        return None;
      }
    }

    /** What the cache of the token's lifetime holds for it. */
    method FromCache(token: Token, lifetime: Lifetime, scope: Option<ScopeId>) returns (hit: Option<Instance>)
      requires scope.Some? ==> scope.value in scopes
      ensures hit == if IsCached(State(), token, lifetime, scope) then Some(CachedFor(State(), token, lifetime, scope))
                     else None
    {
      if lifetime.Singleton? && token in singletonCache {
        return Some(singletonCache[token]);
      }
      if lifetime.Scoped? && scope.Some? && token in scopes[scope.value] {
        return Some(scopes[scope.value][token]);
      }
      return None;
    }

    /** Builds a fresh instance and caches it as its lifetime says. */
    method CreateAndKeep(token: Token, path: seq<Token>, singletonAncestor: Option<Token>, scope: Option<ScopeId>)
      returns (r: Option<Instance>)
      requires Valid() && (scope.Some? ==> scope.value in scopes)
      requires |path| < settings.maxResolutionDepth && Registered(registry, path)
      requires token in registry && !(settings.detectCircularDependencies && token in path)
      requires registry[token].lifetime.Scoped? ==> singletonAncestor.None? && scope.Some?
      requires !IsCached(State(), token, registry[token].lifetime, scope)
      requires Consumed(registry, path, [token])
      requires OwnerOf(registry, path).Some? ==> Linked(index.dependents, token, OwnerOf(registry, path).value)
      modifies this, index
      ensures Valid() && Adds(settings, old(State()), State()) && steady == old(steady) && disposed == old(disposed)
      ensures OnlyScope(old(scopes), scopes, scope)
      ensures r.Some? ==> Made(registry, index.dependents, token, path, r.value, singletonAncestor.Some?)
      ensures r.Some? ==> Grounds(registry, token, singletonAncestor.Some?, scope.Some?)
      ensures CacheDecides(settings, old(State()), State(), token, path, singletonAncestor.Some?, scope, r)
      ensures CanResolve(settings, old(registry), token, path, singletonAncestor.Some?, scope.Some?) ==> r.Some?
      decreases settings.maxResolutionDepth - |path|, 0
    {
      hide Made, Coherent, ScopedAreKnown, Adds, CanResolve, CanMake, OwnerOf, Linked, Found, CacheDecides, LinksTaken,
           Consumed, Caching, IsCached, Registered, AllGrounded, Grounds, OnlyScope;
      ghost var s0, captive := State(), singletonAncestor.Some?;
      var registration := registry[token];
      var nextAncestor := if registration.lifetime.Singleton? then Some(token) else singletonAncestor;
      if CanResolve(settings, s0.registry, token, path, captive, scope.Some?) {
        SameFoundItself(settings, s0.registry);
        ResolvingMakes(settings, s0.registry, s0.registry, token, path, captive, scope.Some?);
      }
      r := CreateInstance(token, path, nextAncestor, scope);
      ghost var s1 := State();
      ScopesStay(settings, s0, s1, scope);
      if r.None? {
        FailureDecides(settings, s0, s1, token, path, captive, scope);
        return;
      }
      AddsKeeps(settings, s0, s1, token);
      FoundIsRegistered(settings, s0.registry, token);
      ghost var free, single := nextAncestor.Some?, registration.lifetime.Singleton?;
      MadeWeakens(registry, index.dependents, token, path, r.value, free, captive);
      MadeWeakens(registry, index.dependents, token, path, r.value, free, single);
      GroundsWeakens(registry, token, registration.lifetime, free, captive, scope.Some?);
      KeepFresh(s0, token, path, captive, r.value, scope);
      OnlyScopeTrans(s0.scopes, s1.scopes, scopes, scope);
    }

    /** Caches what was built since `s0`, when `token` was not cached. */
    method KeepFresh(ghost s0: Snapshot, token: Token, ghost path: seq<Token>, ghost captive: bool, inst: Instance,
                     scope: Option<ScopeId>)
      requires Valid() && Adds(settings, s0, State()) && token in registry
      requires scope.Some? ==> scope.value in s0.scopes && scope.value in scopes
      requires Found(settings, s0.registry, token) == Some(registry[token])
      requires |path| < settings.maxResolutionDepth && !(settings.detectCircularDependencies && token in path)
      requires registry[token].lifetime.Scoped? ==> !captive && scope.Some?
      requires !IsCached(s0, token, registry[token].lifetime, scope)
      requires Made(registry, index.dependents, token, path, inst, registry[token].lifetime.Singleton?)
      requires GroundsFor(registry, token)
      modifies this`singletonCache, this`scopes, this`scopedTokens
      ensures Valid() && registry == old(registry) && Adds(settings, s0, State())
      ensures OnlyScope(old(scopes), scopes, scope)
      ensures scope.Some? ==> scope.value in scopes
      ensures CacheDecides(settings, s0, State(), token, path, captive, scope, Some(inst))
    {
      hide Made, Coherent, ScopedAreKnown, Adds, Linked, Found, CacheDecides, LinksTaken, Caching, IsCached,
           AllGrounded, GroundsFor;
      KeptDecides(settings, s0, State(), token, path, captive, scope, inst);
      CachingOnly(State(), token, inst, scope);
      Keep(token, path, inst, scope);
    }

    /** The token's registration; a plain class without one is registered as a transient first. */
    method LookUp(token: Token) returns (registration: Option<Registration>)
      requires Valid()
      modifies this`registry
      ensures Valid() && Adds(settings, old(State()), State())
      ensures registration == Found(settings, old(registry), token)
      ensures token in old(registry) ==> registration == Some(old(registry)[token]) && registry == old(registry)
      ensures token !in old(registry) ==>
                var plain := settings.autoRegisterClasses && token in settings.classes && settings.classes[token].0;
                && (registration.Some? <==> plain)
                && (plain ==>
                      && registration.value.lifetime == Transient && registration.value.provider.Build?
                      && registration.value.provider.inject == []
                      && registration.value.provider.succeeds == settings.classes[token].1)
                && registry == if plain then old(registry)[token := registration.value] else old(registry)
      ensures registration.Some? ==> token in registry && registry[token] == registration.value
    {
      hide Coherent, ScopedAreKnown, LinksTaken, TakesMore, AllGrounded;
      if token in registry {
        AddsNothing(settings, State());
        return Some(registry[token]);
      }
      if !settings.autoRegisterClasses || token !in settings.classes || !settings.classes[token].0 {
        AddsNothing(settings, State());
        return None;
      }
      registration := Some(Registration(Transient, Build([], settings.classes[token].1), 0));
      registry := registry[token := registration.value];
      CoherentGrows(old(State()), State());
      AllGroundedGrows(old(State()), State());
      GrownTakesMore(old(registry), registry);
      LinksMayGrow(old(registry), registry, index.dependents);
    }

    method RecordDependent(token: Token, path: seq<Token>)
      requires Valid() && Consumed(registry, path, [token])
      modifies index
      ensures Valid() && Adds(settings, old(State()), State())
      ensures OwnerOf(registry, path).Some? ==> Linked(index.dependents, token, OwnerOf(registry, path).value)
    {
      hide Coherent, ScopedAreKnown, LinksTaken, Consumed, AllGrounded;
      RecordedLinks(index.dependents, token, OwnerOf(registry, path));
      if steady {
        RecordedIsTaken(registry, index.dependents, path, token);
      }
      index.Record(token, path, registry);
      CoherentGrows(old(State()), State());
      AllGroundedGrows(old(State()), State());
    }

    /** Caches a fresh instance as its lifetime says. */
    method Keep(token: Token, ghost path: seq<Token>, inst: Instance, scope: Option<ScopeId>)
      requires Valid() && (scope.Some? ==> scope.value in scopes) && token in registry
      requires registry[token].lifetime.Scoped? ==> scope.Some?
      requires Made(registry, index.dependents, token, path, inst, registry[token].lifetime.Singleton?)
      requires GroundsFor(registry, token)
      modifies this`singletonCache, this`scopes, this`scopedTokens
      ensures Valid() && State() == Caching(old(State()), token, inst, scope)
    {
      hide Made, ProperCache, LinksTaken, Grounds;
      if registry[token].lifetime.Singleton? {
        MadeIsCached(registry, index.dependents, singletonCache, token, path, inst, true);
        singletonCache := singletonCache[token := inst];
      } else if registry[token].lifetime.Scoped? {
        MadeIsCached(registry, index.dependents, scopes[scope.value], token, path, inst, false);
        scopes := scopes[scope.value := scopes[scope.value][token := inst]];
        scopedTokens := scopedTokens + {token};
      }
    }

    /** Builds one instance with `token` on the path; everything it resolves on the way becomes part of it. */
    method CreateInstance(token: Token, path: seq<Token>, singletonAncestor: Option<Token>, scope: Option<ScopeId>)
      returns (r: Option<Instance>)
      requires Valid() && (scope.Some? ==> scope.value in scopes)
      requires |path| < settings.maxResolutionDepth && Registered(registry, path)
      requires token in registry
      requires registry[token].lifetime.Scoped? ==> singletonAncestor.None? && scope.Some?
      requires registry[token].lifetime.Singleton? ==> singletonAncestor.Some?
      requires Consumed(registry, path, [token])
      requires OwnerOf(registry, path).Some? ==> Linked(index.dependents, token, OwnerOf(registry, path).value)
      modifies this, index
      ensures Valid() && Adds(settings, old(State()), State()) && steady == old(steady) && disposed == old(disposed)
      ensures OnlyScope(old(scopes), scopes, scope)
      ensures r.Some? ==> Made(registry, index.dependents, token, path, r.value, singletonAncestor.Some?)
      ensures r.Some? ==> Grounds(registry, token, singletonAncestor.Some?, scope.Some?)
      ensures var provider := old(registry)[token].provider;
              CanMake(settings, old(registry), provider, path + [token], singletonAncestor.Some?, scope.Some?) ==>
                r.Some?
      decreases settings.maxResolutionDepth - (|path| + 1), 3
    {
      hide Made, Coherent, ScopedAreKnown, Grown, Extends, SameFound, Kept, CanResolve, CanMake, OwnerOf, Linked,
           Proper, Named, LinksTaken, Consumed, AllTaken, AllGrounded, Grounds;
      ghost var s0, captive := State(), singletonAncestor.Some?;
      var registration := registry[token];
      var below := path + [token];
      var parts: set<Origin> := {};
      RegisteredWith(registry, path, token);
      ConsumesParts(registry, path, token);
      assert below[|below| - 1] == token;
      match registration.provider {
        case Value =>
          AddsNothing(settings, s0);
          ProperNothing(registry, index.dependents, OwnerOf(registry, below), captive);
          NothingTaken(registry, token);
        case Existing(target) =>
          MakingResolvesAll(settings, registry, registration.provider, below, [target], captive, scope.Some?);
          var plain := settings.autoRegisterClasses && target in settings.classes && settings.classes[target].0;
          if target !in registry && !plain {
            AddsNothing(settings, s0);
            Refused(settings, registry, target, below, captive, scope.Some?);
            return None;
          }
          var resolved := ResolveAll([target], below, singletonAncestor, scope);
          if resolved.None? {
            return None;
          }
          parts := resolved.value;
        case Build(inject, succeeds) =>
          MakingResolvesAll(settings, registry, registration.provider, below, inject, captive, scope.Some?);
          var args := ResolveAll(inject, below, singletonAncestor, scope);
          if args.None? || !succeeds {
            return None;
          }
          parts := args.value;
      }
      StillLinked(settings, s0, State(), path, token);
      OwnOrigin(registry, index.dependents, token, path, parts, captive);
      PartsGround(registry, token, captive, scope.Some?);
      r := Some(Instance(parts + {Origin(token, registration)}));
    }

    /** Resolves each of `tokens` under `path`, in order; what comes back is what they were built from. */
    method ResolveAll(tokens: seq<Token>, path: seq<Token>, singletonAncestor: Option<Token>, scope: Option<ScopeId>)
      returns (parts: Option<set<Origin>>)
      requires Valid() && (scope.Some? ==> scope.value in scopes)
      requires 0 < |path| <= settings.maxResolutionDepth && Registered(registry, path)
      requires Consumed(registry, path, tokens)
      modifies this, index
      ensures Valid() && Adds(settings, old(State()), State()) && steady == old(steady) && disposed == old(disposed)
      ensures OnlyScope(old(scopes), scopes, scope)
      ensures parts.Some? ==>
                && AllTaken(registry, path[|path| - 1], parts.value)
                && Proper(registry, index.dependents, parts.value, OwnerOf(registry, path), singletonAncestor.Some?)
                && forall t <- tokens :: Named(parts.value, t) &&
                                         Grounds(registry, t, singletonAncestor.Some?, scope.Some?)
      ensures (forall t <- tokens :: CanResolve(settings, old(registry), t, path, singletonAncestor.Some?, scope.Some?))
              ==> parts.Some?
      decreases settings.maxResolutionDepth - |path|, 2
    {
      hide Made, Coherent, ScopedAreKnown, Grown, Extends, SameFound, Kept, CanResolve, OwnerOf, Linked, Proper,
           Named, CacheDecides, LinksTaken, Consumed, AllTaken, Takes, TakesMore, AllGrounded, Grounds;
      ghost var s0, captive := State(), singletonAncestor.Some?;
      AddsNothing(settings, s0);
      var origins: set<Origin> := {};
      NothingTaken(registry, path[|path| - 1]);
      ProperNothing(registry, index.dependents, OwnerOf(registry, path), captive);
      for i := 0 to |tokens|
        invariant Valid() && Adds(settings, s0, State()) && Registered(registry, path)
        invariant scope.Some? ==> scope.value in scopes
        invariant steady == old(steady) && disposed == old(disposed)
        invariant OnlyScope(old(scopes), scopes, scope)
        invariant Consumed(registry, path, tokens) && AllTaken(registry, path[|path| - 1], origins)
        invariant Proper(registry, index.dependents, origins, OwnerOf(registry, path), captive)
        invariant forall j :: 0 <= j < i ==>
                    Named(origins, tokens[j]) && Grounds(registry, tokens[j], captive, scope.Some?)
      {
        ghost var s1 := State();
        ConsumesOne(registry, path, tokens, i);
        var part := ResolveInternal(tokens[i], path, singletonAncestor, scope);
        if part.None? {
          CanResolveSame(settings, s0.registry, s1.registry, tokens[i], path, captive, scope.Some?);
          AddsTrans(settings, s0, s1, State());
          return None;
        }
        AddsTrans(settings, s0, s1, State());
        ScopesStay(settings, s0, State(), scope);
        RegisteredGrows(s1.registry, registry, path);
        ProperGrows(s1.registry, s1.dependents, registry, index.dependents, origins, OwnerOf(registry, path), captive);
        MadeIsPart(registry, index.dependents, tokens[i], path, part.value, captive);
        ProperUnion(registry, index.dependents, origins, part.value.origins, OwnerOf(registry, path), captive);
        MadeIsNamed(registry, index.dependents, tokens[i], path, part.value, captive);
        GrownTakesMore(s1.registry, registry);
        ConsumedGrows(s1.registry, registry, path, tokens);
        ConsumesOne(registry, path, tokens, i);
        AllTakenGrows(s1.registry, registry, path[|path| - 1], origins);
        AllTakenTrans(registry, path[|path| - 1], tokens[i], part.value.origins);
        AllTakenUnion(registry, path[|path| - 1], origins, part.value.origins);
        NamedMore(origins, part.value.origins);
        forall j | 0 <= j < i ensures Grounds(registry, tokens[j], captive, scope.Some?) {
          GroundsGrows(s1.registry, registry, tokens[j], captive, captive, scope.Some?, scope.Some?);
        }
        origins := origins + part.value.origins;
      }
      parts := Some(origins);
    }

    // -------------------------------------------------------------------------
    // Registry changes
    // -------------------------------------------------------------------------

    /** Nothing that is still cached was built from `token`, in any way. */
    ghost predicate Forgotten(token: Token)
      reads this, index
    {
      ForgottenIn(State(), token)
    }

    /** Fails on an unknown token. */
    method Replace(token: Token, registration: Registration) returns (ok: bool)
      requires Valid()
      modifies this, index
      ensures Valid()
      ensures ok <==> token in old(registry)
      ensures registry == if ok then old(registry)[token := registration] else old(registry)
      ensures ok ==> EvictedFor(token) && Forgotten(token) && DisposedEvicted()
      ensures ok && old(steady) ==> EvictedExactly(token)
      ensures ok ==> (steady <==> old(steady) && KeepsParts(old(registry), registry, token))
      ensures !ok ==> unchanged(this) && unchanged(index)
    {
      hide Coherent, LinksTaken, AllGrounded, DisposedInOrder;
      if token !in registry {
        return false;
      }
      registry := registry[token := registration];
      steady := steady && KeepsParts(old(registry), registry, token);
      Invalidate(token, old(registry));
      return true;
    }

    method Remove(token: Token) returns (ok: bool)
      requires Valid()
      modifies this, index
      ensures Valid()
      ensures ok <==> token in old(registry)
      ensures registry == old(registry) - {token}
      ensures ok ==> EvictedFor(token) && Forgotten(token) && DisposedEvicted()
      ensures ok && old(steady) ==> EvictedExactly(token)
      ensures ok ==> (steady <==> old(steady) && KeepsParts(old(registry), registry, token))
      ensures !ok ==> unchanged(this) && unchanged(index)
    {
      hide Coherent, LinksTaken, AllGrounded, DisposedInOrder;
      if token !in registry {
        return false;
      }
      registry := registry - {token};
      steady := steady && KeepsParts(old(registry), registry, token);
      Invalidate(token, old(registry));
      return true;
    }

    /** A new token changes nothing else; a known one is replaced, or refused. */
    method Register(token: Token, registration: Registration, allowDuplicates: bool) returns (ok: bool)
      requires Valid()
      modifies this, index
      ensures Valid()
      ensures ok <==> token !in old(registry) || allowDuplicates
      ensures registry == if ok then old(registry)[token := registration] else old(registry)
      ensures ok && token in old(registry) ==> EvictedFor(token) && Forgotten(token) && DisposedEvicted()
      ensures ok && token in old(registry) && old(steady) ==> EvictedExactly(token)
      ensures steady <==> old(steady) && (ok ==> KeepsParts(old(registry), registry, token))
      ensures !ok || token !in old(registry) ==>
                State() == old(State()).(registry := registry) && disposed == old(disposed)
    {
      hide LinksTaken, TakesMore, AllGrounded, DisposedInOrder;
      NothingToKeep(registry, token, registration);
      if token in registry {
        if !allowDuplicates {
          return false;
        }
        ok := Replace(token, registration);
        return;
      }
      registry := registry[token := registration];
      CoherentGrows(old(State()), State());
      AllGroundedGrows(old(State()), State());
      GrownTakesMore(old(registry), registry);
      LinksMayGrow(old(registry), registry, index.dependents);
      return true;
    }

    /** Wholesale replacement of the registrations: every cached instance goes. */
    method Restore(registrations: Registry)
      requires Valid()
      modifies this, index
      ensures Valid() && registry == registrations && steady
      ensures singletonCache == map[] && scopes.Keys == old(scopes).Keys && index.dependents == map[]
      ensures forall id :: id in scopes ==> scopes[id] == map[]
      ensures old(disposed) <= disposed
      ensures Distinct(disposed[|old(disposed)|..]) && Members(disposed[|old(disposed)|..]) == old(singletonCache).Keys
    {
      hide Coherent, LinksTaken, ScopesWithout, Distinct, Members, ScopedAreKnown;
      registry := registrations;
      var invalidated := singletonCache.Keys + scopedTokens;
      EvictSingletons();
      index.dependents := map[];
      steady := true;
      ghost var known := scopedTokens;
      scopedTokens := {};
      ScopesEmptied(scopes, known, invalidated);
      EvictScoped(invalidated);
      EmptyIsCoherent(State());
    }

    /**
     The change evicted every entry with a chain of recorded links from `token`, and no other;
     the singletons among them were disposed of one by one, each before what it consumed, and
     `token` last.
     */
    twostate predicate EvictedFor(token: Token)
      reads this, index
    {
      exists affected, ordered ::
        && IsAffected(old(index.dependents), token, affected)
        && Distinct(ordered) && Members(ordered) == affected - {token}
        && ConsumersFirst(old(index.dependents), [], ordered)
        && State() == Evicted(old(State()).(registry := registry), affected)
        && disposed == old(disposed) + Present(ordered + [token], old(singletonCache))
    }

    /** The singletons that went were disposed of, each once and in order. */
    twostate predicate DisposedEvicted()
      reads this, index
    {
      && old(disposed) <= disposed
      && DisposedInOrder(old(index.dependents), old(singletonCache), singletonCache, disposed[|old(disposed)|..])
    }

    /** Exactly what was built from `token` went, from the singletons and from every open scope. */
    twostate predicate EvictedExactly(token: Token)
      reads this, index
    {
      && singletonCache == NotBuiltFrom(old(singletonCache), token)
      && scopes.Keys == old(scopes).Keys
      && forall id :: id in scopes ==> scopes[id] == NotBuiltFrom(old(scopes)[id], token)
    }

    /** Evicts the consumers of a changed registration, then the token itself and its aliases. */
    method Invalidate(token: Token, ghost before: Registry)
      requires Coherent(State().(registry := before)) && AllGrounded(State().(registry := before))
      requires ScopedAreKnown(scopes, scopedTokens) && forall id :: id in scopes ==> id < nextScope
      requires OthersKept(before, registry, token)
      requires steady ==> LinksTaken(before, index.dependents) && KeepsParts(before, registry, token)
      modifies this`singletonCache, this`scopes, this`disposed, index
      ensures Valid() && EvictedFor(token) && Forgotten(token) && DisposedEvicted()
      ensures old(LinksTaken(before, index.dependents)) ==> EvictedExactly(token)
    {
      hide Coherent, ScopedAreKnown, BuiltWithout, IsAffected, Aliases, Distinct, Members, ConsumersFirst, Present,
           LinksTaken, OthersKept, KeepsParts, ScopesWithout, NotBuiltFrom, AllGrounded, DisposedInOrder;
      ghost var s0, disposed0 := State(), disposed;
      var consumers, affected := index.Take(token);
      EvictAll(consumers);
      EvictSingleton(token);
      TokenIsAffected(s0.dependents, token, affected, consumers);
      DropMore(s0.singletons, Members(consumers), {token}, affected);
      PresentGrows(consumers, token, s0.singletons);
      EvictionIsSound(s0, before, token, affected);
      OthersStay(s0, before, token);
      GroundedSurvive(s0, before, token, affected);
      EvictAliasesOf(token);
      EvictScoped({token});
      ScopesWithoutTwice(s0.scopes, Members(consumers), {token}, affected);
      KnownStayKnown(s0.scopes, affected, scopedTokens);
      if steady {
        KeptPartsKeepLinks(before, registry, token, s0.dependents, affected);
      }
      if LinksTaken(before, s0.dependents) {
        EvictionIsExact(s0.(registry := before), token, affected);
      }
      assert disposed == disposed0 + Present(consumers + [token], s0.singletons);
      DisposesInOrder(s0.dependents, token, affected, consumers, s0.singletons);
      assert State() == Evicted(s0, affected);
    }

    method EvictSingleton(token: Token)
      modifies this`singletonCache, this`disposed
      ensures singletonCache == old(singletonCache) - {token}
      ensures disposed == old(disposed) + if token in old(singletonCache) then [token] else []
    {
      if token !in singletonCache {
        return;
      }
      singletonCache := singletonCache - {token};
      disposed := disposed + [token];
    }

    /** Drops and disposes of every cached singleton; scopes, registrations and links stay. */
    method ClearSingletons()
      requires Valid()
      modifies this`singletonCache, this`disposed
      ensures Valid() && State() == old(State()).(singletons := map[])
      ensures old(disposed) <= disposed
      ensures Distinct(disposed[|old(disposed)|..]) && Members(disposed[|old(disposed)|..]) == old(singletonCache).Keys
    {
      hide LinksTaken, Distinct, Members, ScopedAreKnown, Grounds;
      EvictSingletons();
    }

    /** Evicts every singleton, in some order. */
    method EvictSingletons()
      modifies this`singletonCache, this`disposed
      ensures singletonCache == map[]
      ensures old(disposed) <= disposed
      ensures Distinct(disposed[|old(disposed)|..]) && Members(disposed[|old(disposed)|..]) == old(singletonCache).Keys
    {
      ghost var gone: seq<Token> := [];
      var rest := singletonCache.Keys;
      while rest != {}
        invariant rest == singletonCache.Keys && disposed == old(disposed) + gone
        invariant Distinct(gone) && Members(gone) + rest == old(singletonCache).Keys && Members(gone) !! rest
        decreases rest
      {
        var token :| token in rest;
        EvictSingleton(token);
        DistinctConcat(gone, [token]);
        assert Members(gone + [token]) == Members(gone) + {token};
        gone := gone + [token];
        rest := rest - {token};
      }
      assert disposed[|old(disposed)|..] == gone;
    }

    /** Evicts every consumer in turn, from the singletons and from the live scopes. */
    method EvictAll(consumers: seq<Token>)
      requires Distinct(consumers)
      modifies this`singletonCache, this`scopes, this`disposed
      ensures singletonCache == old(singletonCache) - Members(consumers)
      ensures disposed == old(disposed) + Present(consumers, old(singletonCache))
      ensures scopes == ScopesWithout(old(scopes), Members(consumers))
    {
      hide Present, ScopesWithout, Members;
      ghost var cache0, scopes0 := singletonCache, scopes;
      NothingEvicted(cache0, scopes0, consumers);
      for i := 0 to |consumers|
        invariant singletonCache == cache0 - Members(consumers[..i])
        invariant disposed == old(disposed) + Present(consumers[..i], cache0)
        invariant scopes == ScopesWithout(scopes0, Members(consumers[..i]))
      {
        OneMoreEvicted(cache0, scopes0, consumers, i);
        EvictSingleton(consumers[i]);
        EvictScoped({consumers[i]});
      }
      assert consumers[..|consumers|] == consumers;
    }

    /** Live scopes drop their own copies. */
    method EvictScoped(tokens: set<Token>)
      modifies this`scopes
      ensures scopes == ScopesWithout(old(scopes), tokens)
    {
      scopes := map id | id in scopes :: scopes[id] - tokens;
    }

    /** A second sweep, for cached aliases of the changed token. */
    method EvictAliasesOf(target: Token)
      modifies this`singletonCache, this`disposed
      ensures singletonCache == map t | t in old(singletonCache) && !(t != target && Aliases(registry, t, target)) ::
                                    old(singletonCache)[t]
      ensures (forall t :: t in old(singletonCache) && t != target ==> !Aliases(registry, t, target)) ==>
                disposed == old(disposed)
    {
      hide Aliases;
      var rest := singletonCache.Keys;
      while rest != {}
        invariant rest <= old(singletonCache).Keys
        invariant singletonCache == map t | t in old(singletonCache) &&
                    (t in rest || !(t != target && Aliases(registry, t, target))) :: old(singletonCache)[t]
        invariant (forall t :: t in old(singletonCache) && t != target ==> !Aliases(registry, t, target)) ==>
                    disposed == old(disposed)
        decreases rest
      {
        var cached :| cached in rest;
        rest := rest - {cached};
        if cached != target {
          var reaches := AliasChainReaches(registry, cached, target);
          if reaches {
            EvictSingleton(cached);
          }
        }
      }
    }
  }

  /** The target of an alias registration. */
  function NextOf(r: Registry, t: Token): Option<Token> {
    if t in r && r[t].provider.Existing? then Some(r[t].provider.target) else None
  }

  ghost predicate AliasPath(r: Registry, p: seq<Token>) {
    forall i :: 0 <= i < |p| - 1 ==> NextOf(r, p[i]) == Some(p[i + 1])
  }

  /** Following aliases from `token`, one step or more, comes to `target`. */
  ghost predicate Aliases(r: Registry, token: Token, target: Token) {
    exists p: seq<Token> :: |p| >= 2 && p[0] == token && p[|p| - 1] == target && AliasPath(r, p)
  }

  function Targets(r: Registry): set<Token> {
    set t | t in r && r[t].provider.Existing? :: r[t].provider.target
  }

  method AliasChainReaches(r: Registry, token: Token, target: Token) returns (b: bool)
    ensures b <==> Aliases(r, token, target)
  {
    var visited: set<Token> := {};
    var current := token;
    ghost var p := [token];
    while true
      invariant |p| > 0 && p[0] == token && p[|p| - 1] == current && AliasPath(r, p)
      invariant visited <= Targets(r) && target !in visited
      invariant current == token || current in visited
      invariant forall t :: (t == token || t in visited) && t != current ==>
                  NextOf(r, t).None? || NextOf(r, t).value in visited
      decreases Targets(r) - visited
    {
      if current !in r || !r[current].provider.Existing? {
        NeverReaches(r, token, target, visited);
        return false;
      }
      var next := r[current].provider.target;
      p := p + [next];
      if next == target {
        assert AliasPath(r, p);
        return true;
      }
      if next in visited {
        NeverReaches(r, token, target, visited);
        return false;
      }
      visited := visited + {next};
      current := next;
    }
  }

  lemma NeverReaches(r: Registry, token: Token, target: Token, visited: set<Token>)
    requires target !in visited
    requires forall t :: t == token || t in visited ==> NextOf(r, t).None? || NextOf(r, t).value in visited
    ensures !Aliases(r, token, target)
  {
    forall p: seq<Token> | |p| >= 2 && p[0] == token && AliasPath(r, p) ensures p[|p| - 1] in visited {
      PathStaysIn(r, p, visited, |p| - 1);
    }
  }

  lemma {:induction false} PathStaysIn(r: Registry, p: seq<Token>, visited: set<Token>, n: nat)
    requires AliasPath(r, p) && 1 <= n < |p|
    requires forall t :: t == p[0] || t in visited ==> NextOf(r, t).None? || NextOf(r, t).value in visited
    ensures p[n] in visited
  {
    assert NextOf(r, p[n - 1]) == Some(p[n]);
    if n > 1 {
      PathStaysIn(r, p, visited, n - 1);
    }
  }

  /** What a cached alias leads to is among what the alias was built from. */
  lemma AliasIsOrigin(r: Registry, d: Dependents, cache: Cache, token: Token, target: Token)
    requires ProperCache(r, d, cache, true) && token in cache && Aliases(r, token, target)
    ensures Named(cache[token].origins, target)
  {
    var p: seq<Token> :| |p| >= 2 && p[0] == token && p[|p| - 1] == target && AliasPath(r, p);
    AliasPathIsOrigin(r, d, cache, token, p, |p| - 1);
  }

  /** Once nothing cached was built from `token`, no cached alias leads to it. */
  lemma NoAliasLeft(r: Registry, d: Dependents, cache: Cache, token: Token)
    requires ProperCache(r, d, cache, true) && BuiltWithout(cache, token)
    ensures forall t :: t in cache ==> !Aliases(r, t, token)
  {
    hide ProperCache, Aliases;
    forall t | t in cache ensures !Aliases(r, t, token) {
      if Aliases(r, t, token) {
        AliasIsOrigin(r, d, cache, t, token);
      }
    }
  }

  lemma {:induction false} AliasPathIsOrigin(r: Registry, d: Dependents, cache: Cache, token: Token, p: seq<Token>,
      n: nat)
    requires ProperCache(r, d, cache, true) && token in cache && n < |p| && p[0] == token && AliasPath(r, p)
    ensures Named(cache[token].origins, p[n])
  {
    if n == 0 {
      assert Origin(token, r[token]) in cache[token].origins;
    } else {
      AliasPathIsOrigin(r, d, cache, token, p, n - 1);
      var o :| o in cache[token].origins && o.token == p[n - 1];
      assert NextOf(r, p[n - 1]) == Some(p[n]);
      assert p[n] in Parts(o.registration.provider);
      assert Named(cache[token].origins, p[n]);
    }
  }

  /** The tokens that are cached, in the given order. */
  function Present(tokens: seq<Token>, cache: Cache): seq<Token> {
    if tokens == [] then []
    else
      var last := tokens[|tokens| - 1];
      Present(tokens[..|tokens| - 1], cache) + if last in cache then [last] else []
  }

  lemma PresentGrows(tokens: seq<Token>, token: Token, cache: Cache)
    ensures Present(tokens + [token], cache) == Present(tokens, cache) + if token in cache then [token] else []
  {
    assert (tokens + [token])[..|tokens|] == tokens;
  }

  lemma {:induction false} PresentAreCached(tokens: seq<Token>, cache: Cache)
    requires Distinct(tokens)
    ensures var out := Present(tokens, cache);
            Distinct(out) && forall t :: t in out <==> t in tokens && t in cache
  {
    if tokens != [] {
      var n := |tokens| - 1;
      PresentAreCached(tokens[..n], cache);
      assert tokens == tokens[..n] + [tokens[n]];
    }
  }

  /** Those that are cached stay in order. */
  lemma {:induction false} PresentInOrder(tokens: seq<Token>, cache: Cache, i: nat, j: nat) returns (p: nat, q: nat)
    requires i < j < |Present(tokens, cache)| && Distinct(tokens)
    ensures p < q < |tokens| && tokens[p] == Present(tokens, cache)[i] && tokens[q] == Present(tokens, cache)[j]
  {
    var n := |tokens| - 1;
    var front := Present(tokens[..n], cache);
    if j < |front| {
      p, q := PresentInOrder(tokens[..n], cache, i, j);
    } else {
      PresentAreCached(tokens[..n], cache);
      assert front[i] in front;
      p :| 0 <= p < n && tokens[..n][p] == front[i];
      q := n;
    }
  }

  /** Each evicted singleton is disposed of once, before what it consumed unless the two depend on each other. */
  ghost predicate DisposedInOrder(d: Dependents, before: Cache, after: Cache, out: seq<Token>) {
    && Distinct(out) && (forall t :: t in out <==> t in before && t !in after)
    && forall i, j :: 0 <= i < j < |out| && out[j] in Direct(d, out[i]) ==> Linked(d, out[j], out[i])
  }

  lemma DisposesInOrder(d: Dependents, token: Token, affected: set<Token>, ordered: seq<Token>, cache: Cache)
    requires IsAffected(d, token, affected) && Distinct(ordered) && Members(ordered) == affected - {token}
    requires ConsumersFirst(d, [], ordered)
    ensures DisposedInOrder(d, cache, cache - affected, Present(ordered + [token], cache))
  {
    hide Present, ConsumersFirst, Linked;
    var tokens := ordered + [token];
    var out := Present(tokens, cache);
    assert Members(ordered) !! Members([token]);
    DistinctConcat(ordered, [token]);
    PresentAreCached(tokens, cache);
    assert forall t :: t in tokens <==> t in Members(ordered) || t == token;
    forall i, j | 0 <= i < j < |out| && out[j] in Direct(d, out[i]) ensures Linked(d, out[j], out[i]) {
      var p, q := PresentInOrder(tokens, cache, i, j);
      assert tokens[p] == ordered[p];
      ConsumedEarlier(d, token, affected, ordered, p, q);
    }
  }

  lemma ConsumedEarlier(d: Dependents, token: Token, affected: set<Token>, ordered: seq<Token>, p: nat, q: nat)
    requires IsAffected(d, token, affected) && Distinct(ordered) && Members(ordered) == affected - {token}
    requires ConsumersFirst(d, [], ordered) && p < q <= |ordered|
    requires (ordered + [token])[q] in Direct(d, ordered[p])
    ensures Linked(d, (ordered + [token])[q], ordered[p])
  {
    if q < |ordered| {
      assert ordered[q] !in [] + ordered[..p];
    } else {
      assert ordered[p] in Members(ordered);
    }
  }

  lemma NothingEvicted(cache: Cache, scopes: map<ScopeId, Cache>, consumers: seq<Token>)
    ensures Present(consumers[..0], cache) == [] && cache - Members(consumers[..0]) == cache
    ensures ScopesWithout(scopes, Members(consumers[..0])) == scopes
  {
    forall id | id in scopes ensures scopes[id] - Members(consumers[..0]) == scopes[id] {
    }
  }

  lemma OneMoreEvicted(cache: Cache, scopes: map<ScopeId, Cache>, consumers: seq<Token>, i: nat)
    requires Distinct(consumers) && i < |consumers|
    ensures var gone := Members(consumers[..i]);
            && cache - gone - {consumers[i]} == cache - Members(consumers[..i + 1])
            && ScopesWithout(ScopesWithout(scopes, gone), {consumers[i]}) ==
               ScopesWithout(scopes, Members(consumers[..i + 1]))
            && Present(consumers[..i + 1], cache) ==
               Present(consumers[..i], cache) + if consumers[i] in cache - gone then [consumers[i]] else []
  {
    hide ScopesWithout, Present;
    var gone, more := Members(consumers[..i]), Members(consumers[..i + 1]);
    assert consumers[..i + 1] == consumers[..i] + [consumers[i]];
    assert more == gone + {consumers[i]} && consumers[i] !in gone;
    ScopesWithoutTwice(scopes, gone, {consumers[i]}, more);
    DropMore(cache, gone, {consumers[i]}, more);
    PresentGrows(consumers[..i], consumers[i], cache);
  }

  lemma ScopesWithoutTwice(scopes: map<ScopeId, Cache>, a: set<Token>, b: set<Token>, both: set<Token>)
    requires a + b == both
    ensures ScopesWithout(ScopesWithout(scopes, a), b) == ScopesWithout(scopes, both)
  {
    forall id | id in scopes ensures scopes[id] - a - b == scopes[id] - both {
      DropMore(scopes[id], a, b, both);
    }
  }

  /** Every scoped instance is of a token that was reported. */
  lemma ScopesEmptied(scopes: map<ScopeId, Cache>, known: set<Token>, gone: set<Token>)
    requires ScopedAreKnown(scopes, known) && known <= gone
    ensures ScopesWithout(scopes, gone) == map id | id in scopes :: map[]
  {
    forall id | id in scopes ensures scopes[id] - gone == map[] {
    }
  }

  lemma EmptyIsCoherent(s: Snapshot)
    requires s.singletons == map[] && s.dependents == map[] && forall id :: id in s.scopes ==> s.scopes[id] == map[]
    ensures Coherent(s) && ScopedAreKnown(s.scopes, {}) && LinksTaken(s.registry, s.dependents)
  {
  }

  lemma EmptyIsProper(r: Registry, d: Dependents, free: bool)
    ensures ProperCache(r, d, map[], free)
  {
  }

  lemma KnownStayKnown(scopes: map<ScopeId, Cache>, gone: set<Token>, known: set<Token>)
    requires ScopedAreKnown(scopes, known)
    ensures ScopedAreKnown(ScopesWithout(scopes, gone), known) && ScopesWithout(scopes, gone).Keys == scopes.Keys
  {
  }

  lemma OthersStay(s: Snapshot, before: Registry, token: Token)
    requires OthersKept(before, s.registry, token)
    ensures forall t :: t != token && t in before ==> t in s.registry && s.registry[t] == before[t]
  {
  }

  /** What caching an instance of `token` takes of its registrations. */
  ghost predicate GroundsFor(r: Registry, token: Token) {
    token in r && (r[token].lifetime.Transient? || Grounds(r, token, r[token].lifetime.Singleton?,
                                                           !r[token].lifetime.Singleton?))
  }

  lemma GroundsWeakens(r: Registry, token: Token, lifetime: Lifetime, free: bool, captive: bool, inScope: bool)
    requires token in r && r[token].lifetime == lifetime && Grounds(r, token, free, inScope)
    requires (captive ==> free) && (lifetime.Singleton? ==> free) && (lifetime.Scoped? ==> inScope)
    ensures Grounds(r, token, captive, inScope) && GroundsFor(r, token)
  {
    hide Grounds;
    GroundsGrows(r, r, token, free, captive, inScope, inScope);
    if !lifetime.Transient? {
      GroundsGrows(r, r, token, free, lifetime.Singleton?, inScope, !lifetime.Singleton?);
    }
  }

  /** A cached instance could be built where it is handed out. */
  lemma HitIsGrounded(s: Snapshot, token: Token, captive: bool, scope: Option<ScopeId>)
    requires AllGrounded(s) && token in s.registry && IsCached(s, token, s.registry[token].lifetime, scope)
    requires s.registry[token].lifetime.Scoped? ==> !captive
    ensures Grounds(s.registry, token, captive, scope.Some?)
  {
    hide Grounds;
    var single := s.registry[token].lifetime.Singleton?;
    GroundsGrows(s.registry, s.registry, token, single, captive && single, !single, scope.Some?);
  }

  lemma GroundedWasBuildable(c: Settings, before: Registry, after: Registry, token: Token, inScope: bool)
    requires SameFound(c, before, after) && Grounds(after, token, false, inScope)
    ensures exists n: nat :: Buildable(c, before, token, false, inScope, n)
  {
    var n: nat :| Grounded(after, token, false, inScope, n);
    GroundedIsBuildable(c, after, token, false, inScope, n);
    BuildableSame(c, before, after, token, false, inScope, n);
  }

  ghost predicate ForgottenIn(s: Snapshot, token: Token) {
    && BuiltWithout(s.singletons, token)
    && forall id :: id in s.scopes ==> BuiltWithout(s.scopes[id], token)
  }

  /** What is left after a change is coherent, was not built from the token, and holds no alias of it. */
  lemma EvictionIsSound(s: Snapshot, before: Registry, token: Token, affected: set<Token>)
    requires Coherent(s.(registry := before)) && IsAffected(s.dependents, token, affected)
    requires OthersKept(before, s.registry, token)
    ensures var after := Evicted(s, affected);
            && Coherent(after) && ForgottenIn(after, token)
            && forall t :: t in after.singletons ==> !Aliases(s.registry, t, token)
  {
    hide ProperCache, IsAffected, BuiltWithout, Aliases, OthersKept;
    var r, d, after := s.registry, s.dependents, Evicted(s, affected);
    SurvivorsStayProper(before, r, d, token, affected, s.singletons, true);
    NoAliasLeft(r, d - affected, after.singletons, token);
    forall id | id in after.scopes
      ensures ProperCache(r, d - affected, after.scopes[id], false) && BuiltWithout(after.scopes[id], token)
    {
      SurvivorsStayProper(before, r, d, token, affected, s.scopes[id], false);
    }
  }

  /** Where the registrations bore every link out, exactly what was built from the token is gone. */
  lemma EvictionIsExact(s: Snapshot, token: Token, affected: set<Token>)
    requires Coherent(s) && IsAffected(s.dependents, token, affected) && LinksTaken(s.registry, s.dependents)
    ensures var after := Evicted(s, affected);
            && after.singletons == NotBuiltFrom(s.singletons, token)
            && forall id :: id in s.scopes ==> after.scopes[id] == NotBuiltFrom(s.scopes[id], token)
  {
    hide ProperCache, IsAffected, LinksTaken, NotBuiltFrom;
    AffectedAreBuilt(s.registry, s.dependents, s.singletons, true, token, affected);
    forall id | id in s.scopes ensures s.scopes[id] - affected == NotBuiltFrom(s.scopes[id], token) {
      AffectedAreBuilt(s.registry, s.dependents, s.scopes[id], false, token, affected);
    }
  }

  /** Only the registration of `token` may have changed. */
  ghost predicate OthersKept(before: Registry, r: Registry, token: Token) {
    forall t :: t != token ==> (t in before <==> t in r) && (t in before ==> r[t] == before[t])
  }

  /** The changed registration still takes every part it took. */
  ghost predicate KeepsParts(before: Registry, r: Registry, token: Token) {
    forall p :: p in PartsOf(before, token) ==> p in PartsOf(r, token)
  }

  lemma NothingToKeep(r: Registry, token: Token, registration: Registration)
    ensures token !in r ==> KeepsParts(r, r[token := registration], token)
  {
  }

  lemma LinksMayGrow(r: Registry, s: Registry, d: Dependents)
    requires TakesMore(r, s)
    ensures LinksTaken(r, d) ==> LinksTaken(s, d)
  {
    hide LinksTaken, TakesMore;
    if LinksTaken(r, d) {
      LinksGrow(r, s, d);
    }
  }

  lemma KeptPartsKeepLinks(before: Registry, r: Registry, token: Token, d: Dependents, gone: set<Token>)
    requires OthersKept(before, r, token) && KeepsParts(before, r, token) && LinksTaken(before, d)
    ensures LinksTaken(r, d - gone)
  {
    hide Takes;
    forall t, p | p in PartsOf(before, t) ensures p in PartsOf(r, t) {
    }
    LinksGrow(before, r, d);
  }

  lemma TokenIsAffected(d: Dependents, token: Token, affected: set<Token>, consumers: seq<Token>)
    requires IsAffected(d, token, affected) && Members(consumers) == affected - {token}
    ensures Members(consumers) + {token} == affected
  {
  }

  /** An entry outside the affected set was not built from the changed token, and keeps its links. */
  lemma SurvivorsStayProper(before: Registry, r: Registry, d: Dependents, token: Token, affected: set<Token>,
      cache: Cache, free: bool)
    requires ProperCache(before, d, cache, free) && IsAffected(d, token, affected)
    requires OthersKept(before, r, token)
    ensures ProperCache(r, d - affected, cache - affected, free)
    ensures BuiltWithout(cache - affected, token)
  {
    hide AllTaken;
    forall t | t in cache - affected
      ensures Proper(r, d - affected, cache[t].origins, Some(t), free) && t in r && Origin(t, r[t]) in cache[t].origins
      ensures AllTaken(r, t, cache[t].origins)
      ensures forall o :: o in cache[t].origins ==> o.token != token
    {
      forall o | o in cache[t].origins ensures o.token != token && Linked(d - affected, o.token, t) {
        LinkedSurvives(d, affected, o.token, t);
      }
      StillTaken(before, r, d, token, t, cache[t].origins, free);
    }
  }

  /** A change elsewhere leaves what an instance takes as it was. */
  lemma StillTaken(before: Registry, r: Registry, d: Dependents, token: Token, t: Token, origins: set<Origin>,
                   free: bool)
    requires Proper(before, d, origins, Some(t), free) && AllTaken(before, t, origins) && OthersKept(before, r, token)
    requires t in before && Origin(t, before[t]) in origins && forall o :: o in origins ==> o.token != token
    ensures AllTaken(r, t, origins)
  {
    hide Takes, Linked;
    NamesAreClosed(before, d, origins, Some(t), free);
    forall o | o in origins ensures Takes(r, t, o.token) {
      TakesWithin(before, r, Names(origins), t, o.token);
    }
  }

  lemma OwnerOfLast(r: Registry, path: seq<Token>, token: Token)
    requires token in r
    ensures OwnerOf(r, path + [token]) == if r[token].lifetime.Transient? then OwnerOf(r, path) else Some(token)
  {
    assert (path + [token])[..|path|] == path;
  }

  lemma CachedIsMade(r: Registry, d: Dependents, cache: Cache, token: Token, path: seq<Token>, strong: bool, weak: bool)
    requires ProperCache(r, d, cache, strong) && token in cache && token in r && !r[token].lifetime.Transient?
    requires OwnerOf(r, path).Some? ==> Linked(d, token, OwnerOf(r, path).value)
    requires weak ==> strong
    ensures Made(r, d, token, path, cache[token], weak)
  {
    OwnerOfLast(r, path, token);
  }

  /** A cached instance is what resolving its token makes, and what the caches decide on. */
  lemma HitIsMade(c: Settings, a: Snapshot, b: Snapshot, token: Token, path: seq<Token>, captive: bool,
                  scope: Option<ScopeId>)
    requires Coherent(b) && a.singletons == b.singletons && a.scopes == b.scopes
    requires scope.Some? ==> scope.value in a.scopes
    requires token in b.registry && Found(c, a.registry, token) == Some(b.registry[token])
    requires |path| < c.maxResolutionDepth && !(c.detectCircularDependencies && token in path)
    requires IsCached(b, token, b.registry[token].lifetime, scope)
    requires b.registry[token].lifetime.Scoped? ==> !captive
    requires OwnerOf(b.registry, path).Some? ==> Linked(b.dependents, token, OwnerOf(b.registry, path).value)
    ensures var inst := CachedFor(b, token, b.registry[token].lifetime, scope);
            && Made(b.registry, b.dependents, token, path, inst, captive)
            && CacheDecides(c, a, b, token, path, captive, scope, Some(inst))
  {
    hide Made, ProperCache, Linked;
    CoherentMeans(b, scope);
    if b.registry[token].lifetime.Singleton? {
      CachedIsMade(b.registry, b.dependents, b.singletons, token, path, true, captive);
    } else {
      CachedIsMade(b.registry, b.dependents, b.scopes[scope.value], token, path, false, captive);
    }
    HitDecides(c, a, b, token, path, captive, scope, CachedFor(b, token, b.registry[token].lifetime, scope));
  }

  lemma MadeIsCached(r: Registry, d: Dependents, cache: Cache, token: Token, path: seq<Token>, inst: Instance,
      free: bool)
    requires ProperCache(r, d, cache, free) && Made(r, d, token, path, inst, free) && !r[token].lifetime.Transient?
    ensures ProperCache(r, d, cache[token := inst], free)
  {
    OwnerOfLast(r, path, token);
  }

  lemma MadeWeakens(r: Registry, d: Dependents, token: Token, path: seq<Token>, inst: Instance, strong: bool,
      weak: bool)
    requires Made(r, d, token, path, inst, strong) && (weak ==> strong)
    ensures Made(r, d, token, path, inst, weak)
  {
  }

  // ---------------------------------------------------------------------------
  // A stale link
  // ---------------------------------------------------------------------------

  /** Only `a` takes anything, and that is `b`. */
  ghost predicate OnePart(r: Registry, a: Token, b: Token) {
    a != b && forall t :: PartsOf(r, t) == if t == a then [b] else []
  }

  lemma AddsParts(c: Settings, a: Snapshot, b: Snapshot)
    requires Adds(c, a, b)
    ensures forall t :: PartsOf(b.registry, t) == PartsOf(a.registry, t)
  {
    forall t ensures PartsOf(b.registry, t) == PartsOf(a.registry, t) {
      assert Found(c, a.registry, t) == Found(c, b.registry, t);
    }
  }

  lemma TakesOnly(r: Registry, from: Token, to: Token)
    requires PartsOf(r, from) == []
    ensures Takes(r, from, to) <==> from == to
  {
    assert PartsClosed(r, {from});
  }

  /** After `a` was built from `b`, evicting `a` leaves the link between them behind. */
  lemma LinkIsLeft(s: Snapshot, a: Token, b: Token, affected: set<Token>)
    requires Coherent(s) && LinksTaken(s.registry, s.dependents) && OnePart(s.registry, a, b)
    requires a in s.singletons && IsAffected(s.dependents, a, affected)
    ensures a in Direct(s.dependents - affected, b)
  {
    var r, d := s.registry, s.dependents;
    forall t | t in Direct(d, a) ensures t == a {
      if t != a {
        TakesOnly(r, t, a);
      }
    }
    assert Closed(d, {a});
    forall t | t in Direct(d, b) ensures t == a || t == b {
      if t != a {
        TakesOnly(r, t, b);
      }
    }
    TakesPart(r, a, b);
    OriginsAreTaken(r, d, s.singletons, true, a, b);
    NamedIsLinked(r, d, s.singletons, true, a, b);
    OnlyDirectly(d, a, b);
  }

  lemma OnlyDirectly(d: Dependents, a: Token, b: Token)
    requires a != b && Direct(d, b) <= {a, b}
    ensures Linked(d, b, a) ==> a in Direct(d, b)
  {
    if a !in Direct(d, b) {
      assert Closed(d, {b});
    }
  }

  lemma BuildsInTwo(c: Settings, r: Registry, a: Token, b: Token)
    requires a in r && b in r && r[b] == Registration(Singleton, Value, r[b].version)
    requires r[a].lifetime.Singleton? && (r[a].provider == Build([b], true) || r[a].provider == Value)
    ensures c.maxResolutionDepth >= 2 ==> CanBuild(c, r, a, false)
  {
    assert Buildable(c, r, b, true, false, 1);
    assert Buildable(c, r, a, false, false, 2);
  }

  /** A container in which `a` takes the value `b`, with `a` resolved. */
  method ResolveOnePart(settings: Settings, a: Token, b: Token) returns (c: ContainerResolver)
    requires settings.maxResolutionDepth >= 2 && a != b
    ensures fresh(c) && fresh(c.index) && c.Valid() && c.settings == settings && c.steady
    ensures OnePart(c.registry, a, b) && a in c.State().singletons && a in c.registry
    ensures b in c.registry && c.registry[b] == Registration(Singleton, Value, 0)
  {
    hide Coherent, LinksTaken, CanBuild, ScopedAreKnown, Takes, Adds, IsAffected, ConsumersFirst, Distinct;
    c := new ContainerResolver(settings);
    var ok := c.Register(b, Registration(Singleton, Value, 0), false);
    ok := c.Register(a, Registration(Singleton, Build([b], true), 1), false);
    ghost var s0 := c.State();
    BuildsInTwo(settings, c.registry, a, b);
    var first := c.Resolve(a, None);
    AddsParts(settings, s0, c.State());
    AddsKeeps(settings, s0, c.State(), a);
    AddsKeeps(settings, s0, c.State(), b);
  }

  /** Then `a` is replaced by a value: the link between them stays. */
  method LeaveStaleLink(settings: Settings, a: Token, b: Token) returns (c: ContainerResolver)
    requires settings.maxResolutionDepth >= 2 && a != b
    ensures fresh(c) && fresh(c.index) && c.Valid() && c.settings == settings
    ensures a in c.registry && c.registry[a] == Registration(Singleton, Value, 2)
    ensures b in c.registry && c.registry[b] == Registration(Singleton, Value, 0)
    ensures a in Direct(c.State().dependents, b)
  {
    hide Coherent, LinksTaken, ScopedAreKnown, IsAffected, ConsumersFirst, Distinct, OnePart;
    c := ResolveOnePart(settings, a, b);
    ghost var s := c.State();
    var ok := c.Replace(a, Registration(Singleton, Value, 2));
    ReplacedLeavesLink(s, c.State(), a, b);
  }

  /**
   Once a registration has dropped a part, its new instance can be evicted for a change of that
   part: resolve `a` built from `b`, replace `a` by a value, resolve `a` again, replace `b`.
   */
  method StaleLinkEvicts(settings: Settings, a: Token, b: Token) returns (cached: bool, fromB: bool, left: bool)
    requires settings.maxResolutionDepth >= 2 && a != b
    ensures cached && !fromB && !left
  {
    hide Coherent, LinksTaken, CanBuild, IsAffected, ScopedAreKnown, Linked, Takes, Extends, Adds, ConsumersFirst,
         Distinct;
    var c := LeaveStaleLink(settings, a, b);
    ghost var s2 := c.State();
    BuildsInTwo(settings, c.registry, a, b);
    var second := c.Resolve(a, None);
    ghost var s3 := c.State();
    AddsLinks(settings, s2, s3, b, a);
    AddsKeeps(settings, s2, s3, a);
    AddsKeeps(settings, s2, s3, b);
    TakesOnly(c.registry, a, b);
    cached := a in c.singletonCache;
    fromB := b in Names(c.singletonCache[a].origins);
    var ok := c.Replace(b, Registration(Singleton, Value, 3));
    LinkedIsEvicted(s3, c.State(), a, b);
    left := a in c.singletonCache;
  }

  lemma ReplacedLeavesLink(s: Snapshot, after: Snapshot, a: Token, b: Token)
    requires Coherent(s) && LinksTaken(s.registry, s.dependents) && OnePart(s.registry, a, b) && a in s.singletons
    requires exists affected ::
               IsAffected(s.dependents, a, affected) && after == Evicted(s.(registry := after.registry), affected)
    ensures a in Direct(after.dependents, b)
  {
    hide Coherent, LinksTaken, IsAffected;
    var affected :| IsAffected(s.dependents, a, affected) && after == Evicted(s.(registry := after.registry), affected);
    LinkIsLeft(s, a, b, affected);
  }

  lemma LinkedIsEvicted(s: Snapshot, after: Snapshot, a: Token, b: Token)
    requires a in Direct(s.dependents, b)
    requires exists affected ::
               IsAffected(s.dependents, b, affected) && after == Evicted(s.(registry := after.registry), affected)
    ensures a !in after.singletons
  {
  }

  lemma AddsLinks(c: Settings, s: Snapshot, t: Snapshot, token: Token, consumer: Token)
    requires Adds(c, s, t) && consumer in Direct(s.dependents, token)
    ensures consumer in Direct(t.dependents, token)
  {
  }
}
