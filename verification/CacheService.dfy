/** The cache service over one memory adapter and its own tag store, updated in place. */
module CacheService {
  import opened Glob
  import opened KeyBuilder
  import opened MemoryCache
  import opened MemorySpec
  import opened OrderedMap
  import opened Results
  import opened ServiceSpec
  import opened TagStore
  import opened Ttl

  class CacheInvalidationManager<V> {
    const adapter: MemoryCacheAdapter<V>
    const tagStore: InMemoryTagStore

    constructor (adapter: MemoryCacheAdapter<V>, tagStore: InMemoryTagStore)
      ensures this.adapter == adapter && this.tagStore == tagStore
    {
      this.adapter, this.tagStore := adapter, tagStore;
    }

    /** Removes every key indexed under one of the tags, counting those that were present. */
    method InvalidateByTag(tags: seq<string>, scope: Option<string>, now: real) returns (cleared: nat)
      requires adapter.Valid() && tagStore.Valid()
      modifies adapter, tagStore
      ensures adapter.Valid() && tagStore.Valid()
      ensures var keys := TaggedKeys(old(tagStore.keyToTags), tags, scope);
              && adapter.store == old(adapter.store).Without(keys)
              && adapter.lastPurgeAt == old(adapter.lastPurgeAt)
              && tagStore.keyToTags == old(tagStore.keyToTags) - keys
              && cleared == |keys * old(adapter.store).data.Keys|
    {
      hide TaggedKeys, ScopedTags, ScopedTag, UnlinkFrom, Carriers, Inverse, Map.Without;
      var keys := CollectKeys(tags, scope);
      cleared := DeleteKeys(keys, now);
      label Deleted:
      ghost var untagged := tagStore.keyToTags;
      for i := 0 to |tags|
        invariant unchanged@Deleted(adapter)
        invariant tagStore.Valid() && tagStore.keyToTags == untagged
      {
        NoCarriersLeft(old(tagStore.keyToTags), tags, scope, i);
        var dropped := tagStore.Invalidate(tags[i], scope);
        UnlinkFromNothing(untagged, ScopedTag(tags[i], scope));
      }
    }

    /** The keys of all the tags, without duplicates. */
    method CollectKeys(tags: seq<string>, scope: Option<string>) returns (keys: set<string>)
      requires tagStore.Valid()
      ensures keys == TaggedKeys(tagStore.keyToTags, tags, scope)
    {
      hide TaggedKeys;
      keys := {};
      TaggedByNone(tagStore.keyToTags, tags, scope);
      for i := 0 to |tags|
        invariant keys == TaggedKeys(tagStore.keyToTags, tags[..i], scope)
      {
        var more := tagStore.GetKeys(tags[i], scope);
        TaggedGrows(tagStore.keyToTags, tags, i, scope);
        keys := keys + more;
      }
      assert tags[..|tags|] == tags;
    }

    /** Deletes one key and every tag mapping it still has. */
    method DeleteKey(key: string, now: real) returns (existed: bool)
      requires adapter.Valid() && tagStore.Valid()
      modifies adapter, tagStore
      ensures adapter.Valid() && tagStore.Valid()
      ensures adapter.store == old(adapter.store).Without({key}) && adapter.lastPurgeAt == old(adapter.lastPurgeAt)
      ensures tagStore.keyToTags == old(tagStore.keyToTags) - {key}
      ensures existed <==> key in old(adapter.store).data
    {
      hide Step, Inverse, MemorySpec.TotalBytes;
      DeleteMeans(adapter.cfg, adapter.Snapshot(), key, now);
      var result := adapter.Delete(key, now);
      tagStore.RemoveKey(key);
      existed := result.existed;
    }

    /** Deletes each key and forgets its tags, counting those that were present. */
    method DeleteKeys(keys: set<string>, now: real) returns (cleared: nat)
      requires adapter.Valid() && tagStore.Valid()
      modifies adapter, tagStore
      ensures adapter.Valid() && tagStore.Valid()
      ensures adapter.store == old(adapter.store).Without(keys) && adapter.lastPurgeAt == old(adapter.lastPurgeAt)
      ensures tagStore.keyToTags == old(tagStore.keyToTags) - keys
      ensures cleared == |keys * old(adapter.store).data.Keys|
    {
      hide Step, Inverse, MemorySpec.TotalBytes, Distinct, Map.Without, StillToDelete;
      cleared := 0;
      ghost var store0, tags0 := adapter.store, tagStore.keyToTags;
      AllToDelete(store0, tags0, keys);
      var rest := keys;
      while rest != {}
        invariant adapter.Valid() && tagStore.Valid() && adapter.lastPurgeAt == old(adapter.lastPurgeAt)
        invariant StillToDelete(store0, tags0, keys, adapter.store, tagStore.keyToTags, rest, cleared)
        decreases rest
      {
        var key :| key in rest;
        OneLessToDelete(store0, tags0, keys, adapter.store, tagStore.keyToTags, rest, cleared, key);
        var existed := DeleteKey(key, now);
        if existed {
          cleared := cleared + 1;
        }
        rest := rest - {key};
      }
      NoneToDelete(store0, tags0, keys, adapter.store, tagStore.keyToTags, cleared);
    }
  }

  /** With `rest` still to delete, store, index and count are on the way to what deleting `keys` leaves. */
  ghost predicate StillToDelete<V>(store0: MemorySpec.Store<V>, tags0: Index, keys: set<string>,
                                   store: MemorySpec.Store<V>, tags: Index, rest: set<string>, cleared: nat) {
    && store.Without(rest) == store0.Without(keys)
    && tags - rest == tags0 - keys
    && cleared + |rest * store.data.Keys| == |keys * store0.data.Keys|
  }

  lemma AllToDelete<V>(store: MemorySpec.Store<V>, tags: Index, keys: set<string>)
    ensures StillToDelete(store, tags, keys, store, tags, keys, 0)
  {
  }

  lemma OneLessToDelete<V>(store0: MemorySpec.Store<V>, tags0: Index, keys: set<string>, store: MemorySpec.Store<V>,
                           tags: Index, rest: set<string>, cleared: nat, key: string)
    requires key in rest && StillToDelete(store0, tags0, keys, store, tags, rest, cleared)
    ensures StillToDelete(store0, tags0, keys, store.Without({key}), tags - {key}, rest - {key},
                          cleared + if key in store.data then 1 else 0)
  {
    hide Minus;
    TakeOne(store, tags, rest, key);
    assert store.Without({key}).data == store.data - {key};
  }

  lemma NoneToDelete<V>(store0: MemorySpec.Store<V>, tags0: Index, keys: set<string>, store: MemorySpec.Store<V>,
                        tags: Index, cleared: nat)
    requires store.Valid() && StillToDelete(store0, tags0, keys, store, tags, {}, cleared)
    ensures store == store0.Without(keys) && tags == tags0 - keys && cleared == |keys * store0.data.Keys|
  {
    hide Minus, Map.Without, Distinct;
    WithoutNothing(store, {});
    DropNone(tags);
    CountNone(store.data.Keys);
  }

  lemma DropNone(tags: Index)
    ensures tags - {} == tags
  {
  }

  lemma CountNone(present: set<string>)
    ensures |{} * present| == 0
  {
    var none: set<string> := {};
    assert none * present == none;
  }

  /** Taking one key out early changes nothing about what is left to take. */
  lemma TakeOne<V>(store: MemorySpec.Store<V>, tags: Index, rest: set<string>, key: string)
    requires key in rest
    ensures store.Without({key}).Without(rest - {key}) == store.Without(rest)
    ensures tags - {key} - (rest - {key}) == tags - rest
    ensures |rest * store.data.Keys| ==
            |(rest - {key}) * (store.data - {key}).Keys| + if key in store.data then 1 else 0
  {
    hide Map.Without;
    assert store.Without({key}).Without(rest - {key}) == store.Without(rest) by {
      WithoutTwice(store, {key}, rest - {key});
      assert {key} + (rest - {key}) == rest;
    }
    DropTwice(tags, rest, key);
    CountOne(store.data.Keys, rest, key);
    assert (store.data - {key}).Keys == store.data.Keys - {key};
  }

  lemma DropTwice(tags: Index, rest: set<string>, key: string)
    requires key in rest
    ensures tags - {key} - (rest - {key}) == tags - rest
  {
  }

  lemma CountOne(present: set<string>, rest: set<string>, key: string)
    requires key in rest
    ensures |rest * present| == |(rest - {key}) * (present - {key})| + if key in present then 1 else 0
  {
    var both := rest * present;
    assert (rest - {key}) * (present - {key}) == both - {key};
    assert key in both <==> key in present;
  }

  lemma TaggedByNone(m: Index, tags: seq<string>, scope: Option<string>)
    ensures TaggedKeys(m, tags[..0], scope) == {}
  {
    assert ScopedTags(tags[..0], scope) == {};
  }

  lemma TaggedGrows(m: Index, tags: seq<string>, i: nat, scope: Option<string>)
    requires i < |tags|
    ensures TaggedKeys(m, tags[..i + 1], scope) ==
            TaggedKeys(m, tags[..i], scope) + Carriers(m, ScopedTag(tags[i], scope))
  {
    ScopedTagsGrow(tags, scope, i);
    forall k | k in m
      ensures m[k] * ScopedTags(tags[..i + 1], scope) != {} <==>
              m[k] * ScopedTags(tags[..i], scope) != {} || ScopedTag(tags[i], scope) in m[k]
    {
      assert m[k] * ScopedTags(tags[..i + 1], scope) ==
             m[k] * ScopedTags(tags[..i], scope) + m[k] * {ScopedTag(tags[i], scope)};
      if ScopedTag(tags[i], scope) in m[k] {
        assert ScopedTag(tags[i], scope) in m[k] * ScopedTags(tags[..i + 1], scope);
      }
    }
  }

  lemma NoCarriersLeft(m: Index, tags: seq<string>, scope: Option<string>, i: nat)
    requires i < |tags|
    ensures Carriers(m - TaggedKeys(m, tags, scope), ScopedTag(tags[i], scope)) == {}
  {
    forall k | k in m && ScopedTag(tags[i], scope) in m[k] ensures k in TaggedKeys(m, tags, scope) {
      assert ScopedTag(tags[i], scope) in m[k] * ScopedTags(tags, scope);
    }
  }

  class CacheService<V> {
    const adapter: MemoryCacheAdapter<V>
    const tagStore: InMemoryTagStore
    const keyBuilder: DefaultKeyBuilder
    const invalidation: CacheInvalidationManager<V>
    const namespace: Option<string>
    const defaultTtl: Ttl

    ghost predicate Valid()
      reads this, adapter, tagStore
    {
      && adapter.Valid() && tagStore.Valid()
      && invalidation.adapter == adapter && invalidation.tagStore == tagStore
      && keyBuilder.currentNamespace == namespace
      && keyBuilder.globalSeparator == adapter.cfg.separator
    }

    ghost function Cfg(): ServiceConfig {
      ServiceConfig(adapter.cfg, keyBuilder.globalPrefix, namespace, defaultTtl)
    }

    ghost function Snapshot(): Service<V>
      reads adapter, tagStore
    {
      Service(adapter.Snapshot(), tagStore.keyToTags)
    }

    constructor (cfg: Config, prefix: string, namespace: Option<string>, defaultTtl: Ttl, now: real)
      requires namespace != Some("")
      ensures Valid() && fresh(adapter) && fresh(tagStore)
      ensures Cfg() == ServiceConfig(cfg, prefix, namespace, defaultTtl)
      ensures Snapshot() == Service(State(Empty(), now), map[])
    {
      var memory := new MemoryCacheAdapter<V>(cfg, now);
      var index := new InMemoryTagStore();
      adapter, tagStore := memory, index;
      keyBuilder := new DefaultKeyBuilder(prefix, cfg.separator, namespace);
      invalidation := new CacheInvalidationManager<V>(memory, index);
      this.namespace, this.defaultTtl := namespace, defaultTtl;
    }

    method Get(key: string, namespace: Option<string>, now: real) returns (answer: Response<V>)
      requires Valid()
      modifies adapter
      ensures Valid() && (Snapshot(), answer) == Serve(Cfg(), old(Snapshot()), Fetch(key, namespace), now)
    {
      hide Step, FullKey;
      var fullKey := keyBuilder.Build(key, Scoped(namespace));
      if fullKey.Err? {
        return Rejected(fullKey.error);
      }
      answer := adapter.Get(fullKey.value, now);
    }

    method Has(key: string, namespace: Option<string>, now: real) returns (answer: Response<V>)
      requires Valid()
      modifies adapter
      ensures Valid() && (Snapshot(), answer) == Serve(Cfg(), old(Snapshot()), Probe(key, namespace), now)
    {
      hide Step, FullKey;
      var fullKey := keyBuilder.Build(key, Scoped(namespace));
      if fullKey.Err? {
        return Rejected(fullKey.error);
      }
      answer := adapter.Has(fullKey.value, now);
    }

    method TtlOf(key: string, namespace: Option<string>, now: real) returns (answer: Response<V>)
      requires Valid()
      modifies adapter
      ensures Valid() && (Snapshot(), answer) == Serve(Cfg(), old(Snapshot()), Lifetime(key, namespace), now)
    {
      hide Step, FullKey;
      var fullKey := keyBuilder.Build(key, Scoped(namespace));
      if fullKey.Err? {
        return Rejected(fullKey.error);
      }
      answer := adapter.TtlOf(fullKey.value, now);
    }

    method Size(now: real) returns (answer: Response<V>)
      requires Valid()
      modifies adapter
      ensures Valid() && (Snapshot(), answer) == Serve(Cfg(), old(Snapshot()), Count, now)
    {
      hide Step;
      answer := adapter.Size(now);
    }

    method Set(key: string, value: V, requested: Option<Ttl>, tags: seq<string>, overwrite: bool, valueBytes: nat,
               namespace: Option<string>, now: real) returns (answer: Response<V>)
      requires Valid()
      modifies adapter, tagStore
      ensures Valid()
      ensures (Snapshot(), answer) ==
              Serve(Cfg(), old(Snapshot()), Store(key, value, requested, tags, overwrite, valueBytes, namespace), now)
    {
      hide Step, FullKey, LinkAll, ScopedTags;
      var fullKey := keyBuilder.Build(key, Scoped(namespace));
      if fullKey.Err? {
        return Rejected(fullKey.error);
      }
      var tagsOk := ValidateTags(tags);
      if !tagsOk {
        return Rejected(InvalidTag);
      }
      var ttl := if requested.Some? then requested.value else defaultTtl;
      answer := adapter.Set(fullKey.value, value, Some(ttl), overwrite, valueBytes, now);
      if answer.Stored? {
        tagStore.RemoveKey(fullKey.value);
        if |tags| > 0 {
          var added := tagStore.Add(fullKey.value, tags, TagScope(namespace));
        } else {
          NoTagsToLink(tagStore.keyToTags, fullKey.value, tags, TagScope(namespace));
        }
      }
    }

    method Delete(key: string, namespace: Option<string>, now: real) returns (answer: Response<V>)
      requires Valid()
      modifies adapter, tagStore
      ensures Valid() && (Snapshot(), answer) == Serve(Cfg(), old(Snapshot()), Discard(key, namespace), now)
    {
      hide Step, FullKey;
      var fullKey := keyBuilder.Build(key, Scoped(namespace));
      if fullKey.Err? {
        return Rejected(fullKey.error);
      }
      answer := adapter.Delete(fullKey.value, now);
      tagStore.RemoveKey(fullKey.value);
    }

    method Expire(key: string, ttl: Ttl, namespace: Option<string>, now: real) returns (answer: Response<V>)
      requires Valid()
      modifies adapter
      ensures Valid() && (Snapshot(), answer) == Serve(Cfg(), old(Snapshot()), Extend(key, ttl, namespace), now)
    {
      hide Step, FullKey;
      var fullKey := keyBuilder.Build(key, Scoped(namespace));
      if fullKey.Err? {
        return Rejected(fullKey.error);
      }
      answer := adapter.Expire(fullKey.value, ttl, now);
    }

    /** Without pattern and namespace everything goes, tags included; otherwise only what the scoped pattern names. */
    method Clear(pattern: Option<string>, namespace: Option<string>, now: real) returns (answer: Response<V>)
      requires Valid()
      modifies adapter, tagStore
      ensures Valid()
      ensures var req := if pattern.None? && namespace.None? then ClearAll
                         else ClearMatching(if pattern.Some? then pattern.value else "*", namespace);
              (Snapshot(), answer) == Serve(Cfg(), old(Snapshot()), req, now)
    {
      hide Step, FullPattern, GlobMatches;
      if pattern.Some? || namespace.Some? {
        answer := InvalidateByPattern(if pattern.Some? then pattern.value else "*", namespace, now);
        return;
      }
      answer := adapter.Clear("", now);
      tagStore.Clear();
    }

    method InvalidateByPattern(pattern: string, namespace: Option<string>, now: real) returns (answer: Response<V>)
      requires Valid()
      modifies adapter, tagStore
      ensures Valid() && (Snapshot(), answer) == Serve(Cfg(), old(Snapshot()), ClearMatching(pattern, namespace), now)
    {
      hide Step, FullPattern, GlobMatches;
      var qualified := keyBuilder.BuildPattern(pattern, Scoped(namespace));
      if qualified.Err? {
        return Rejected(qualified.error);
      }
      FullPatternIsValid(keyBuilder.globalPrefix, ScopeOf(Cfg(), namespace), adapter.cfg.separator, pattern);
      answer := adapter.Clear(qualified.value, now);
      PurgeTagsMatching(qualified.value);
    }

    method InvalidateByTag(tags: seq<string>, namespace: Option<string>, now: real) returns (answer: Response<V>)
      requires Valid()
      modifies adapter, tagStore
      ensures Valid() && (Snapshot(), answer) == Serve(Cfg(), old(Snapshot()), InvalidateTags(tags, namespace), now)
    {
      hide TaggedKeys;
      var tagsOk := ValidateTags(tags);
      if !tagsOk {
        return Rejected(InvalidTag);
      }
      if TagScope(namespace) == Some("") {
        return Rejected(InvalidKey);
      }
      var cleared := invalidation.InvalidateByTag(tags, TagScope(namespace), now);
      return Cleared(cleared);
    }

    /** Forgets the tags of every tracked key a valid full pattern matches. */
    method PurgeTagsMatching(pattern: string)
      requires tagStore.Valid() && ValidPattern(pattern)
      modifies tagStore
      ensures tagStore.Valid()
      ensures tagStore.keyToTags ==
              old(tagStore.keyToTags) - MatchingEntries(old(tagStore.keyToTags), pattern, keyBuilder.globalSeparator)
    {
      hide GlobMatches;
      var compiled := CreateGlobMatcher(pattern, keyBuilder.globalSeparator);
      var keys := tagStore.TrackedKeys();
      var rest, done := keys, {};
      ghost var before, sep := tagStore.keyToTags, keyBuilder.globalSeparator;
      while rest != {}
        invariant tagStore.Valid()
        invariant done !! rest && done + rest == keys
        invariant tagStore.keyToTags == before - (set k | k in done && GlobMatches(pattern, k, sep))
        decreases rest
      {
        var key :| key in rest;
        var matches := MatchGlob(compiled.value, pattern, key);
        ghost var gone := set k | k in done && GlobMatches(pattern, k, sep);
        ghost var goneNow := set k | k in done + {key} && GlobMatches(pattern, k, sep);
        if matches {
          tagStore.RemoveKey(key);
          assert goneNow == gone + {key};
        } else {
          assert goneNow == gone;
        }
        rest, done := rest - {key}, done + {key};
      }
      assert done == keys;
      assert MatchingEntries(before, pattern, sep) == set k | k in done && GlobMatches(pattern, k, sep);
    }

    method ValidateTags(tags: seq<string>) returns (ok: bool)
      ensures ok <==> ValidTags(tags)
    {
      ok := forall i :: 0 <= i < |tags| ==> ValidTag(tags[i]);
    }

    function TagScope(namespace: Option<string>): Option<string> {
      if namespace.Some? then namespace else this.namespace
    }

    static function Scoped(namespace: Option<string>): Options {
      NoOptions.(namespace := namespace)
    }
  }

  lemma NoTagsToLink(m: Index, key: string, tags: seq<string>, scope: Option<string>)
    requires tags == []
    ensures LinkAll(m, key, ScopedTags(tags, scope)) == m
  {
    assert ScopedTags(tags, scope) == {};
  }
}
