/** The in-memory cache adapter: a bounded TTL store over an insertion-ordered map, updated in place. */
module MemoryCache {
  import opened Glob
  import opened MemorySpec
  import opened MemoryTheorems
  import opened OrderedMap
  import opened Results
  import opened Ttl

  class MemoryCacheAdapter<V> {
    const cfg: Config
    var store: Store<V>
    var bytesUsed: int
    var lastPurgeAt: real

    /** The byte counter is always the sum of the stored sizes. */
    ghost predicate Valid()
      reads this
    {
      store.Valid() && bytesUsed == TotalBytes(store)
    }

    ghost function Snapshot(): State<V>
      reads this
    {
      State(store, lastPurgeAt)
    }

    constructor (cfg: Config, now: real)
      ensures Valid() && this.cfg == cfg && Snapshot() == State(Empty(), now)
    {
      this.cfg := cfg;
      store := Empty();
      bytesUsed := 0;
      lastPurgeAt := now;
    }

    method Get(key: string, now: real) returns (answer: Response<V>)
      requires Valid()
      modifies this
      ensures Valid() && (Snapshot(), answer) == Step(cfg, old(Snapshot()), Op.Get(key), now)
    {
      if key !in store.data {
        return Miss;
      }
      var entry := store.data[key];
      if entry.Expired(now) {
        Remove(key);
        return Miss;
      }
      TouchKeepsTotal(store, key);
      store := store.Without({key});
      store := store.Put(key, entry);
      return Hit(entry.value);
    }

    method Set(key: string, value: V, requested: Option<Ttl>, overwrite: bool, valueBytes: nat, now: real)
      returns (answer: Response<V>)
      requires Valid()
      modifies this
      ensures Valid()
      ensures (Snapshot(), answer) ==
              Step(cfg, old(Snapshot()), Op.Set(key, value, requested, overwrite, valueBytes), now)
    {
      hide Step, Write, Minus, TotalBytes, Distinct, MadeRoom, Released, PurgeIfDue, ExpiredKeys, Checked;
      SetMeans(cfg, Snapshot(), key, value, requested, overwrite, valueBytes, now);
      var ttl := if requested.Some? then requested.value else Ms(cfg.defaultTtl);
      if ttl.Ms? && (ttl.ms < MIN_TTL_MS || ttl.ms > MAX_TTL_MS) {
        return Rejected(InvalidTtl);
      }
      if !overwrite {
        var present := Has(key, now);
        if present.present {
          return Skipped;
        }
      }
      ghost var checked := Snapshot();
      var bytes := valueBytes + |key| * 2;
      ReleaseAndPurge(key, now);
      EvictIfNeeded(bytes, now);
      WriteMeans(cfg, checked, key, value, ttl, valueBytes, now);
      var entry := Entry(value, if ttl.Ms? then Some(now + ttl.ms) else None, bytes);
      store := store.Put(key, entry);
      bytesUsed := bytesUsed + bytes;
      return Stored;
    }

    /** The part of a write before its eviction: a purge when due, and the old entry's bytes given back. */
    method ReleaseAndPurge(key: string, now: real)
      requires Valid()
      modifies this
      ensures Valid() && Snapshot() == Released(old(Snapshot()), key, now)
    {
      hide Minus, TotalBytes, Distinct, PurgeIfDue, ExpiredKeys;
      MaybePurgeExpired(now);
      if key in store.data {
        Remove(key);
      } else {
        WithoutNothing(store, {key});
      }
    }

    method Delete(key: string, now: real) returns (answer: Response<V>)
      requires Valid()
      modifies this
      ensures Valid() && (Snapshot(), answer) == Step(cfg, old(Snapshot()), Op.Delete(key), now)
    {
      var existed := key in store.data;
      Remove(key);
      return Deleted(existed);
    }

    /** Deletes the keys one after the other; a key named twice is deleted the first time only. */
    method DeleteMany(keys: seq<string>, now: real) returns (deleted: nat, deletedKeys: seq<string>)
      requires Valid()
      modifies this
      ensures Valid() && Snapshot() == State(old(store).Without(Members(keys)), old(lastPurgeAt))
      ensures deletedKeys == FirstPresent(keys, old(store).data.Keys) && deleted == |deletedKeys|
    {
      hide Step, Minus, TotalBytes, FirstPresent, Map.Without;
      deleted, deletedKeys := 0, [];
      ghost var before := store;
      DroppedNothing(before, keys);
      for i := 0 to |keys|
        invariant Valid() && lastPurgeAt == old(lastPurgeAt)
        invariant store == before.Without(Members(keys[..i]))
        invariant store.data.Keys == before.data.Keys - Members(keys[..i])
        invariant deletedKeys == FirstPresent(keys[..i], before.data.Keys) && deleted == |deletedKeys|
      {
        DroppedMore(before, keys, i);
        DeleteMeans(cfg, Snapshot(), keys[i], now);
        var answer := Delete(keys[i], now);
        if answer.existed {
          deleted, deletedKeys := deleted + 1, deletedKeys + [keys[i]];
        }
      }
      assert keys[..|keys|] == keys;
    }

    method Has(key: string, now: real) returns (answer: Response<V>)
      requires Valid()
      modifies this
      ensures Valid() && (Snapshot(), answer) == Step(cfg, old(Snapshot()), Op.Has(key), now)
    {
      if key !in store.data {
        return Present(false);
      }
      if store.data[key].Expired(now) {
        Remove(key);
        return Present(false);
      }
      return Present(true);
    }

    method Clear(pattern: string, now: real) returns (answer: Response<V>)
      requires Valid()
      modifies this
      ensures Valid() && (Snapshot(), answer) == Step(cfg, old(Snapshot()), Op.Clear(pattern), now)
    {
      hide Step, Minus, SumBytes, TotalBytes, GlobMatches;
      ClearMeans(cfg, Snapshot(), pattern, now);
      if pattern == "" {
        var size := |store.order|;
        store := Empty();
        bytesUsed := 0;
        EmptyHoldsNothing<V>();
        return Cleared(size);
      }
      var compiled := CreateGlobMatcher(pattern, cfg.separator);
      if compiled.Err? {
        return Rejected(compiled.error);
      }
      var cleared := 0;
      var keys := store.order;
      ghost var before := store;
      WithoutNothing(store, Matching(keys[..0], pattern, cfg.separator));
      for i := 0 to |keys|
        invariant Valid() && lastPurgeAt == old(lastPurgeAt)
        invariant store == before.Without(Matching(keys[..i], pattern, cfg.separator))
        invariant cleared == |Matching(keys[..i], pattern, cfg.separator)|
      {
        MatchingGrows(keys, i, pattern, cfg.separator);
        var matches := MatchGlob(compiled.value, pattern, keys[i]);
        if matches {
          WithoutTwice(before, Matching(keys[..i], pattern, cfg.separator), {keys[i]});
          Remove(keys[i]);
          cleared := cleared + 1;
        }
      }
      assert keys[..|keys|] == keys;
      assert Matching(keys, pattern, cfg.separator) == MatchingKeys(before, pattern, cfg.separator);
      return Cleared(cleared);
    }

    method Keys(pattern: string, limit: Option<int>, now: real) returns (answer: Response<V>)
      requires Valid()
      modifies this
      ensures Valid() && (Snapshot(), answer) == Step(cfg, old(Snapshot()), Op.Keys(pattern, limit), now)
    {
      hide Step, Minus, SumBytes, TotalBytes, GlobMatches;
      KeysMeans(cfg, Snapshot(), pattern, limit, now);
      MinusNothing(store.order[..0], ExpiredKeys(store, now));
      var filtered: seq<string> := [];
      var keys := store.order;
      var before := store;
      WithoutNothing(store, Dead(keys[..0], store, now));
      for i := 0 to |keys|
        invariant Valid() && lastPurgeAt == old(lastPurgeAt)
        invariant store == before.Without(Dead(keys[..i], before, now))
        invariant filtered == Minus(keys[..i], ExpiredKeys(before, now))
      {
        DeadGrows(keys, i, before, now);
        if before.data[keys[i]].Expired(now) {
          WithoutTwice(before, Dead(keys[..i], before, now), {keys[i]});
          Remove(keys[i]);
        } else {
          filtered := filtered + [keys[i]];
        }
      }
      assert keys[..|keys|] == keys;
      assert Dead(keys, before, now) == ExpiredKeys(before, now);
      if pattern != "" {
        var compiled := CreateGlobMatcher(pattern, cfg.separator);
        if compiled.Err? {
          return Rejected(compiled.error);
        }
        filtered := Filter(filtered, compiled.value, pattern);
      }
      if limit.Some? {
        var end := if limit.value < 0 then |filtered| + limit.value else limit.value;
        filtered := if end < 0 then [] else if end < |filtered| then filtered[..end] else filtered;
      }
      return Listed(filtered);
    }

    method Size(now: real) returns (answer: Response<V>)
      requires Valid()
      modifies this
      ensures Valid() && (Snapshot(), answer) == Step(cfg, old(Snapshot()), Op.Size, now)
    {
      PurgeExpired(now);
      return Counted(|store.order|);
    }

    method TtlOf(key: string, now: real) returns (answer: Response<V>)
      requires Valid()
      modifies this
      ensures Valid() && (Snapshot(), answer) == Step(cfg, old(Snapshot()), Op.TtlOf(key), now)
    {
      if key !in store.data {
        return Miss;
      }
      var entry := store.data[key];
      if entry.Expired(now) {
        Remove(key);
        return Miss;
      }
      if entry.expiresAt.None? {
        return Remaining(None);
      }
      var left := (entry.expiresAt.value - now).Floor;
      return Remaining(Some(if left < 1 then 1 else left));
    }

    method Expire(key: string, ttl: Ttl, now: real) returns (answer: Response<V>)
      requires Valid()
      modifies this
      ensures Valid() && (Snapshot(), answer) == Step(cfg, old(Snapshot()), Op.Expire(key, ttl), now)
    {
      if ttl.Ms? && (ttl.ms < MIN_TTL_MS || ttl.ms > MAX_TTL_MS) {
        return Rejected(InvalidTtl);
      }
      if key !in store.data {
        return Updated(false);
      }
      var entry := store.data[key];
      if entry.Expired(now) {
        Remove(key);
        return Updated(false);
      }
      ghost var before := store;
      store := store.Put(key, entry.(expiresAt := if ttl.Ms? then Some(now + ttl.ms) else None));
      SumBytesAgree(before.order, before.data, store.data);
      return Updated(true);
    }

    /** Drops one entry and gives its bytes back; the counter never goes below zero on the way. */
    method Remove(key: string)
      requires Valid()
      modifies this`store, this`bytesUsed
      ensures Valid()
      ensures store == old(store).Without({key})
      ensures bytesUsed == old(bytesUsed) - (if key in old(store).data then old(store).data[key].bytes else 0)
    {
      WithoutValid(store, {key});
      if key !in store.data {
        WithoutNothing(store, {key});
        return;
      }
      var entry := store.data[key];
      ghost var before := store;
      store := store.Without({key});
      bytesUsed := bytesUsed - entry.bytes;
      MinusOne(before.order, key, before.data);
      SumBytesAgree(store.order, store.data, before.data);
      bytesUsed := if bytesUsed < 0 then 0 else bytesUsed;
    }

    method PurgeExpired(now: real)
      requires Valid()
      modifies this
      ensures Valid() && store == Purged(old(store), now) && lastPurgeAt == now
    {
      hide Minus, SumBytes, TotalBytes;
      var keys := store.order;
      var before := store;
      WithoutNothing(store, Dead(keys[..0], store, now));
      for i := 0 to |keys|
        invariant Valid()
        invariant store == before.Without(Dead(keys[..i], before, now))
      {
        DeadGrows(keys, i, before, now);
        if before.data[keys[i]].Expired(now) {
          WithoutTwice(before, Dead(keys[..i], before, now), {keys[i]});
          Remove(keys[i]);
        }
      }
      assert keys[..|keys|] == keys;
      assert Dead(keys, before, now) == ExpiredKeys(before, now);
      lastPurgeAt := now;
    }

    method MaybePurgeExpired(now: real)
      requires Valid()
      modifies this
      ensures Valid() && Snapshot() == PurgeIfDue(old(Snapshot()), now)
    {
      if now - lastPurgeAt < EXPIRED_PURGE_INTERVAL_MS {
        return;
      }
      PurgeExpired(now);
    }

    method EvictIfNeeded(incoming: nat, now: real)
      requires Valid()
      modifies this
      ensures Valid() && Snapshot() == MadeRoom(cfg, old(Snapshot()), incoming, now)
    {
      hide Minus, SumBytes, Trimmed, Distinct;
      var overCount := |store.order| >= cfg.maxEntries;
      var overBytes := bytesUsed + incoming > cfg.maxBytes;
      if !overCount && !overBytes {
        return;
      }
      PurgeExpired(now);
      ghost var purged := store;
      while |store.order| >= cfg.maxEntries
        invariant Valid() && lastPurgeAt == now
        invariant Trimmed(cfg, store, incoming) == Trimmed(cfg, purged, incoming)
        decreases |store.order|
      {
        if store.order == [] {
          break;
        }
        TrimOne(cfg, store, incoming);
        Remove(store.order[0]);
      }
      while bytesUsed + incoming > cfg.maxBytes && |store.order| > 0
        invariant Valid() && lastPurgeAt == now
        invariant store.order == [] || |store.order| < cfg.maxEntries
        invariant Trimmed(cfg, store, incoming) == Trimmed(cfg, purged, incoming)
        decreases |store.order|
      {
        TrimOne(cfg, store, incoming);
        Remove(store.order[0]);
      }
      TrimNone(cfg, store, incoming);
    }
  }

  lemma TrimOne<V>(cfg: Config, store: Store<V>, incoming: nat)
    requires store.Valid() && store.order != [] && !HasRoom(cfg, store.order, store.data, incoming)
    ensures var less := store.Without({store.order[0]});
            && less.Valid() && less.order == store.order[1..]
            && Trimmed(cfg, less, incoming) == Trimmed(cfg, store, incoming)
  {
    WithoutFirst(store);
    WithoutValid(store, {store.order[0]});
  }

  lemma TrimNone<V>(cfg: Config, store: Store<V>, incoming: nat)
    requires store.Valid() && (store.order == [] || HasRoom(cfg, store.order, store.data, incoming))
    ensures Trimmed(cfg, store, incoming) == store
  {
  }

  /** The keys that are present, each at its first mention. */
  function FirstPresent(keys: seq<string>, present: set<string>): (r: seq<string>)
    ensures forall k :: k in r <==> k in keys && k in present
  {
    if keys == [] then []
    else
      var last, front := keys[|keys| - 1], keys[..|keys| - 1];
      FirstPresent(front, present) + if last in present && last !in front then [last] else []
  }

  lemma {:induction false} FirstPresentDistinct(keys: seq<string>, present: set<string>)
    ensures Distinct(FirstPresent(keys, present))
  {
    if keys != [] {
      FirstPresentDistinct(keys[..|keys| - 1], present);
    }
  }

  /** They come in the order of their first mention. */
  lemma {:induction false} FirstPresentInOrder(keys: seq<string>, present: set<string>, i: nat, j: nat) returns (p: nat)
    requires i < j < |FirstPresent(keys, present)|
    ensures p < |keys| && keys[p] == FirstPresent(keys, present)[i]
    ensures FirstPresent(keys, present)[j] !in keys[..p + 1]
  {
    var n := |keys| - 1;
    var front := FirstPresent(keys[..n], present);
    if j < |front| {
      p := FirstPresentInOrder(keys[..n], present, i, j);
      assert keys[..n][..p + 1] == keys[..p + 1];
    } else {
      assert front[i] in front && keys[n] !in keys[..n];
      p :| 0 <= p < n && keys[..n][p] == front[i];
      assert keys[..p + 1] == keys[..n][..p + 1];
    }
  }

  lemma DroppedNothing<V>(store: Store<V>, keys: seq<string>)
    requires store.Valid()
    ensures store.Without(Members(keys[..0])) == store && FirstPresent(keys[..0], store.data.Keys) == []
    ensures store.data.Keys - Members(keys[..0]) == store.data.Keys
  {
    WithoutNothing(store, Members(keys[..0]));
  }

  /** One more key of the list gone. */
  lemma DroppedMore<V>(store: Store<V>, keys: seq<string>, i: nat)
    requires i < |keys|
    ensures var left := store.Without(Members(keys[..i]));
            && left.Without({keys[i]}) == store.Without(Members(keys[..i + 1]))
            && left.Without({keys[i]}).data.Keys == store.data.Keys - Members(keys[..i + 1])
            && FirstPresent(keys[..i + 1], store.data.Keys) ==
               FirstPresent(keys[..i], store.data.Keys) + if keys[i] in left.data then [keys[i]] else []
  {
    assert keys[..i + 1][..i] == keys[..i] && Members(keys[..i + 1]) == Members(keys[..i]) + {keys[i]};
    WithoutTwice(store, Members(keys[..i]), {keys[i]});
  }

  lemma DeleteMeans<V>(cfg: Config, s: State<V>, key: string, now: real)
    requires s.store.Valid()
    ensures Step(cfg, s, Op.Delete(key), now) == (s.(store := s.store.Without({key})), Deleted(key in s.store.data))
  {
  }

  ghost function Matching(keys: seq<string>, pattern: string, sep: char): set<string> {
    set k | k in keys && GlobMatches(pattern, k, sep)
  }

  lemma MatchingGrows(keys: seq<string>, i: nat, pattern: string, sep: char)
    requires i < |keys| && Distinct(keys)
    ensures keys[i] !in Matching(keys[..i], pattern, sep)
    ensures Matching(keys[..i + 1], pattern, sep) ==
            if GlobMatches(pattern, keys[i], sep) then Matching(keys[..i], pattern, sep) + {keys[i]}
            else Matching(keys[..i], pattern, sep)
  {
    assert keys[..i + 1] == keys[..i] + [keys[i]];
  }

  ghost function Dead<V>(keys: seq<string>, store: Store<V>, now: real): set<string> {
    set k | k in keys && k in store.data && store.data[k].Expired(now)
  }

  lemma DeadGrows<V>(keys: seq<string>, i: nat, store: Store<V>, now: real)
    requires i < |keys| && Distinct(keys) && keys[i] in store.data
    ensures keys[i] !in Dead(keys[..i], store, now)
    ensures Dead(keys[..i + 1], store, now) ==
            if store.data[keys[i]].Expired(now) then Dead(keys[..i], store, now) + {keys[i]}
            else Dead(keys[..i], store, now)
    ensures Minus(keys[..i + 1], ExpiredKeys(store, now)) ==
            if store.data[keys[i]].Expired(now) then Minus(keys[..i], ExpiredKeys(store, now))
            else Minus(keys[..i], ExpiredKeys(store, now)) + [keys[i]]
  {
    assert keys[..i + 1] == keys[..i] + [keys[i]];
    MinusAppend(keys[..i], [keys[i]], ExpiredKeys(store, now));
  }

  /** The keys a compiled pattern matches, in order. */
  method Filter(keys: seq<string>, matcher: GlobMatcher, ghost pattern: string) returns (kept: seq<string>)
    requires matcher == Compiled(pattern, matcher.separator)
    ensures kept == Minus(keys, Others(keys, pattern, matcher.separator))
  {
    kept := [];
    ghost var others := Others(keys, pattern, matcher.separator);
    for i := 0 to |keys|
      invariant kept == Minus(keys[..i], others)
    {
      assert keys[..i + 1] == keys[..i] + [keys[i]];
      MinusAppend(keys[..i], [keys[i]], others);
      var matches := MatchGlob(matcher, pattern, keys[i]);
      if matches {
        kept := kept + [keys[i]];
      }
    }
    assert keys[..|keys|] == keys;
  }

  lemma ClearMeans<V>(cfg: Config, s: State<V>, pattern: string, now: real)
    requires s.store.Valid()
    ensures var drop := MatchingKeys(s.store, pattern, cfg.separator);
            Step(cfg, s, Op.Clear(pattern), now) ==
            if pattern == "" then (s.(store := Empty()), Cleared(|s.store.order|))
            else if !ValidPattern(pattern) then (s, Rejected(InvalidKey))
            else (s.(store := s.store.Without(drop)), Cleared(|drop|))
  {
  }

  lemma EmptyHoldsNothing<V>()
    ensures TotalBytes(Empty<string, Entry<V>>()) == 0
  {
  }

  lemma WriteMeans<V>(cfg: Config, s: State<V>, key: string, value: V, ttl: Ttl, valueBytes: nat, now: real)
    requires s.store.Valid() && Released(s, key, now).store.Valid()
    ensures var room := MadeRoom(cfg, Released(s, key, now), SizeOf(key, valueBytes), now);
            var store := room.store.Put(key, Entry(value, Deadline(ttl, now), SizeOf(key, valueBytes)));
            && Write(cfg, s, key, value, ttl, valueBytes, now) == room.(store := store)
            && store.Valid() && room.store.Valid()
            && TotalBytes(store) == TotalBytes(room.store) + SizeOf(key, valueBytes)
  {
    var bytes := SizeOf(key, valueBytes);
    RoomIsMade(cfg, Released(s, key, now), bytes, now);
    PutAddsBytes(MadeRoom(cfg, Released(s, key, now), bytes, now).store, key, Entry(value, Deadline(ttl, now), bytes));
  }

  lemma PutAddsBytes<V>(room: Store<V>, key: string, entry: Entry<V>)
    requires room.Valid() && key !in room.data
    ensures var store := room.Put(key, entry);
            store.Valid() && TotalBytes(store) == TotalBytes(room) + entry.bytes
  {
    var store := room.Put(key, entry);
    SumBytesAppend(room.order, [key], store.data);
    SumBytesAgree(room.order, room.data, store.data);
  }
}
