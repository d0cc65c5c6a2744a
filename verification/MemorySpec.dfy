/**
 What the memory adapter does to its store, operation by operation, as functions on values.
 The class in MemoryCache is proved to do exactly this; MemoryTheorems says what it amounts
 to over whole runs.
 */
module MemorySpec {
  import opened Glob
  import opened OrderedMap
  import opened Results
  import opened Ttl

  const EXPIRED_PURGE_INTERVAL_MS := 30000.0

  datatype Config = Config(maxEntries: int, maxBytes: int, defaultTtl: real, separator: char)

  datatype Entry<V> = Entry(value: V, expiresAt: Option<real>, bytes: nat) {
    /** Dead at its deadline, not after it. */
    predicate Expired(now: real) {
      expiresAt.Some? && now >= expiresAt.value
    }
  }

  type Store<V> = Map<string, Entry<V>>

  datatype State<V> = State(store: Store<V>, lastPurgeAt: real)

  datatype Op<V> =
    | Get(key: string)
    | Set(key: string, value: V, requested: Option<Ttl>, overwrite: bool, valueBytes: nat)
    | Delete(key: string)
    | Has(key: string)
    | Clear(pattern: string)
    | Keys(pattern: string, limit: Option<int>)
    | Size
    | TtlOf(key: string)
    | Expire(key: string, ttl: Ttl)

  datatype Response<V> =
    | Hit(value: V)
    | Miss
    | Stored
    | Skipped
    | Deleted(existed: bool)
    | Present(present: bool)
    | Cleared(count: nat)
    | Listed(keys: seq<string>)
    | Counted(count: nat)
    | Remaining(ms: Option<int>)
    | Updated(updated: bool)
    | Rejected(error: Error)

  function Resolve(cfg: Config, ttl: Option<Ttl>): Ttl {
    if ttl.Some? then ttl.value else Ms(cfg.defaultTtl)
  }

  // ---------------------------------------------------------------------------
  // The store
  // ---------------------------------------------------------------------------

  function SumBytes<V>(order: seq<string>, data: map<string, Entry<V>>): nat
    requires forall k :: k in order ==> k in data
  {
    if order == [] then 0 else data[order[0]].bytes + SumBytes(order[1..], data)
  }

  function TotalBytes<V>(store: Store<V>): nat
    requires forall k :: k in store.order ==> k in store.data
  {
    SumBytes(store.order, store.data)
  }

  function ExpiredKeys<V>(store: Store<V>, now: real): set<string> {
    set k | k in store.data && store.data[k].Expired(now)
  }

  function Purged<V>(store: Store<V>, now: real): Store<V> {
    store.Without(ExpiredKeys(store, now))
  }

  ghost function MatchingKeys<V>(store: Store<V>, pattern: string, sep: char): set<string> {
    set k | k in store.data && GlobMatches(pattern, k, sep)
  }

  /** The keys of a listing that a pattern leaves out. */
  ghost function Others(keys: seq<string>, pattern: string, sep: char): set<string> {
    set k | k in keys && !GlobMatches(pattern, k, sep)
  }

  /** Both caps hold for one more entry of `incoming` bytes beside those of `order`. */
  predicate HasRoom<V>(cfg: Config, order: seq<string>, data: map<string, Entry<V>>, incoming: nat)
    requires forall k :: k in order ==> k in data
  {
    |order| < cfg.maxEntries && SumBytes(order, data) + incoming <= cfg.maxBytes
  }

  /** Drops least recently used entries until the rest leaves room. */
  ghost function Trimmed<V>(cfg: Config, store: Store<V>, incoming: nat): (r: Store<V>)
    requires store.Valid()
    ensures r.Valid()
    decreases |store.order|
  {
    if store.order == [] || HasRoom(cfg, store.order, store.data, incoming) then store
    else
      WithoutFirst(store);
      WithoutValid(store, {store.order[0]});
      Trimmed(cfg, store.Without({store.order[0]}), incoming)
  }

  /** The eviction step of a write: expired entries go first, then live ones, oldest first. */
  ghost function MadeRoom<V>(cfg: Config, s: State<V>, incoming: nat, now: real): State<V>
    requires s.store.Valid()
  {
    if HasRoom(cfg, s.store.order, s.store.data, incoming) then s
    else
      WithoutValid(s.store, ExpiredKeys(s.store, now));
      State(Trimmed(cfg, Purged(s.store, now), incoming), now)
  }

  // ---------------------------------------------------------------------------
  // The operations
  // ---------------------------------------------------------------------------

  /** The key, dropped if it is expired. */
  function Checked<V>(s: State<V>, key: string, now: real): State<V> {
    if key in s.store.data && s.store.data[key].Expired(now) then s.(store := s.store.Without({key})) else s
  }

  function Touched<V>(store: Store<V>, key: string): Store<V>
    requires key in store.data
  {
    store.Without({key}).Put(key, store.data[key])
  }

  function PurgeIfDue<V>(s: State<V>, now: real): State<V> {
    if now - s.lastPurgeAt < EXPIRED_PURGE_INTERVAL_MS then s else State(Purged(s.store, now), now)
  }

  function SizeOf(key: string, valueBytes: nat): nat {
    valueBytes + |key| * 2
  }

  /** The state an accepted write makes room in: purged when due, the old entry released. */
  function Released<V>(s: State<V>, key: string, now: real): State<V> {
    var purged := PurgeIfDue(s, now);
    purged.(store := purged.store.Without({key}))
  }

  lemma ReleasedValid<V>(s: State<V>, key: string, now: real)
    requires s.store.Valid()
    ensures Released(s, key, now).store.Valid()
  {
    WithoutValid(s.store, ExpiredKeys(s.store, now));
    WithoutValid(PurgeIfDue(s, now).store, {key});
  }

  ghost function Write<V>(cfg: Config, s: State<V>, key: string, value: V, ttl: Ttl, valueBytes: nat, now: real)
    : State<V>
    requires s.store.Valid()
  {
    ReleasedValid(s, key, now);
    var bytes := SizeOf(key, valueBytes);
    var room := MadeRoom(cfg, Released(s, key, now), bytes, now);
    room.(store := room.store.Put(key, Entry(value, Deadline(ttl, now), bytes)))
  }

  function Limited(keys: seq<string>, limit: Option<int>): (r: seq<string>)
    ensures r <= keys
  {
    if limit.None? then keys else FirstOf(keys, limit.value)
  }

  /** What each operation does and answers at instant `now`. */
  ghost function Step<V>(cfg: Config, s: State<V>, op: Op<V>, now: real): (State<V>, Response<V>)
    requires s.store.Valid()
  {
    match op
    case Get(key) =>
      var c := Checked(s, key, now);
      if key in c.store.data then (c.(store := Touched(c.store, key)), Hit(c.store.data[key].value))
      else (c, Miss)
    case Set(key, value, ttl, overwrite, valueBytes) =>
      var resolved := Resolve(cfg, ttl);
      if !ValidTtl(resolved) then (s, Rejected(InvalidTtl))
      else
        var c := if overwrite then s else Checked(s, key, now);
        if !overwrite && key in c.store.data then (c, Skipped)
        else
          WithoutValid(s.store, {key});
          (Write(cfg, c, key, value, resolved, valueBytes, now), Stored)
    case Delete(key) =>
      (s.(store := s.store.Without({key})), Deleted(key in s.store.data))
    case Has(key) =>
      var c := Checked(s, key, now);
      (c, Present(key in c.store.data))
    case Clear(pattern) =>
      if pattern == "" then (s.(store := Empty()), Cleared(|s.store.order|))
      else if !ValidPattern(pattern) then (s, Rejected(InvalidKey))
      else
        var drop := MatchingKeys(s.store, pattern, cfg.separator);
        (s.(store := s.store.Without(drop)), Cleared(|drop|))
    case Keys(pattern, limit) =>
      var live := s.(store := Purged(s.store, now));
      if pattern != "" && !ValidPattern(pattern) then (live, Rejected(InvalidKey))
      else
        var listed := if pattern == "" then live.store.order
                      else Minus(live.store.order, Others(live.store.order, pattern, cfg.separator));
        (live, Listed(Limited(listed, limit)))
    case Size =>
      var live := State(Purged(s.store, now), now);
      (live, Counted(|live.store.order|))
    case TtlOf(key) =>
      var c := Checked(s, key, now);
      (c, if key !in c.store.data then Miss
          else if c.store.data[key].expiresAt.None? then Remaining(None)
          else
            var left := (c.store.data[key].expiresAt.value - now).Floor;
            Remaining(Some(if left < 1 then 1 else left)))
    case Expire(key, ttl) =>
      if !ValidTtl(ttl) then (s, Rejected(InvalidTtl))
      else
        var c := Checked(s, key, now);
        if key !in c.store.data then (c, Updated(false))
        else
          (c.(store := c.store.Put(key, c.store.data[key].(expiresAt := Deadline(ttl, now)))), Updated(true))
  }

  // ---------------------------------------------------------------------------
  // Every operation has one of four effects on the store
  // ---------------------------------------------------------------------------

  datatype Effect<V> =
    | Forget(drop: set<string>)
    | Touch(key: string)
    | Replace(drop: set<string>, key: string, entry: Entry<V>)
    | Redate(key: string, expiresAt: Option<real>)

  ghost predicate Applicable<V>(store: Store<V>, e: Effect<V>) {
    match e
    case Forget(_) => true
    case Touch(key) => key in store.data
    case Replace(drop, key, _) => key in store.data ==> key in drop
    case Redate(key, _) => key in store.data
  }

  ghost function Apply<V>(store: Store<V>, e: Effect<V>): Store<V>
    requires Applicable(store, e)
  {
    match e
    case Forget(drop) => store.Without(drop)
    case Touch(key) => store.Without({key}).Put(key, store.data[key])
    case Replace(drop, key, entry) => store.Without(drop).Put(key, entry)
    case Redate(key, expiresAt) => store.Put(key, store.data[key].(expiresAt := expiresAt))
  }

  lemma ApplyValid<V>(store: Store<V>, e: Effect<V>)
    requires store.Valid() && Applicable(store, e)
    ensures Apply(store, e).Valid()
  {
    match e
    case Forget(drop) => WithoutValid(store, drop);
    case Touch(key) => WithoutValid(store, {key});
    case Replace(drop, key, _) => WithoutValid(store, drop);
    case Redate(_, _) =>
  }

  /** Trimming drops a prefix of the LRU order, and the shortest one that makes room. */
  lemma {:induction false} TrimmedIsShortestPrefix<V>(cfg: Config, store: Store<V>, incoming: nat) returns (n: nat)
    requires store.Valid()
    ensures n <= |store.order|
    ensures Trimmed(cfg, store, incoming) == store.Without(Members(store.order[..n]))
    ensures Trimmed(cfg, store, incoming).order == store.order[n..]
    ensures n == |store.order| || HasRoom(cfg, store.order[n..], store.data, incoming)
    ensures var left := Trimmed(cfg, store, incoming);
            n == |store.order| || HasRoom(cfg, left.order, left.data, incoming)
    ensures forall m :: 0 <= m < n ==> !HasRoom(cfg, store.order[m..], store.data, incoming)
    decreases |store.order|
  {
    if store.order == [] || HasRoom(cfg, store.order, store.data, incoming) {
      n := 0;
      WithoutNothing(store, {});
      assert Members(store.order[..0]) == {};
    } else {
      var first := store.order[0];
      var rest := store.Without({first});
      WithoutFirst(store);
      WithoutValid(store, {first});
      var n' := TrimmedIsShortestPrefix(cfg, rest, incoming);
      n := n' + 1;
      RoomAfterFirst(cfg, store, n, incoming);
      WithoutTwice(store, {first}, Members(rest.order[..n']));
      MembersOfPrefix(store.order, n);
      forall m | 0 <= m < n ensures !HasRoom(cfg, store.order[m..], store.data, incoming) {
        if m == 0 {
          assert store.order[0..] == store.order;
        } else {
          RoomAfterFirst(cfg, store, m, incoming);
        }
      }
    }
  }

  lemma RoomAfterFirst<V>(cfg: Config, store: Store<V>, m: nat, incoming: nat)
    requires store.Valid() && 1 <= m <= |store.order|
    requires var rest := store.Without({store.order[0]});
             rest.Valid() && rest.order == store.order[1..]
    ensures var rest := store.Without({store.order[0]});
            HasRoom(cfg, store.order[m..], store.data, incoming) <==>
            HasRoom(cfg, rest.order[m - 1..], rest.data, incoming)
  {
    var rest := store.Without({store.order[0]});
    assert rest.order[m - 1..] == store.order[m..];
    SumBytesAgree(rest.order[m - 1..], rest.data, store.data);
  }

  lemma {:induction false} SumBytesAgree<V>(order: seq<string>, a: map<string, Entry<V>>, b: map<string, Entry<V>>)
    requires forall k :: k in order ==> k in a && k in b && a[k].bytes == b[k].bytes
    ensures SumBytes(order, a) == SumBytes(order, b)
  {
    if order != [] {
      SumBytesAgree(order[1..], a, b);
    }
  }

  lemma CheckedIsForget<V>(s: State<V>, key: string, now: real) returns (drop: set<string>)
    requires s.store.Valid()
    ensures Checked(s, key, now).store == s.store.Without(drop)
    ensures drop <= ExpiredKeys(s.store, now)
  {
    if key in s.store.data && s.store.data[key].Expired(now) {
      drop := {key};
    } else {
      drop := {};
      WithoutNothing(s.store, {});
    }
  }

  lemma WriteIsReplace<V>(cfg: Config, s: State<V>, key: string, value: V, ttl: Ttl, valueBytes: nat, now: real)
    returns (drop: set<string>)
    requires s.store.Valid()
    ensures key in drop
    ensures Write(cfg, s, key, value, ttl, valueBytes, now).store ==
            s.store.Without(drop).Put(key, Entry(value, Deadline(ttl, now), SizeOf(key, valueBytes)))
  {
    ReleasedValid(s, key, now);
    var purged := PurgeIfDue(s, now);
    var due := if now - s.lastPurgeAt < EXPIRED_PURGE_INTERVAL_MS then {} else ExpiredKeys(s.store, now);
    WithoutNothing(s.store, {});
    assert purged.store == s.store.Without(due);
    WithoutTwice(s.store, due, {key});
    var released := Released(s, key, now);
    var bytes := SizeOf(key, valueBytes);
    var more: set<string> := {};
    WithoutNothing(released.store, {});
    if !HasRoom(cfg, released.store.order, released.store.data, bytes) {
      var dead := ExpiredKeys(released.store, now);
      WithoutValid(released.store, dead);
      var live := Purged(released.store, now);
      var n := TrimmedIsShortestPrefix(cfg, live, bytes);
      more := dead + Members(live.order[..n]);
      WithoutTwice(released.store, dead, Members(live.order[..n]));
    }
    drop := due + {key} + more;
    WithoutTwice(s.store, due + {key}, more);
  }

  lemma EffectOf<V>(cfg: Config, s: State<V>, op: Op<V>, now: real) returns (e: Effect<V>)
    requires s.store.Valid()
    ensures Applicable(s.store, e)
    ensures Step(cfg, s, op, now).0.store == Apply(s.store, e)
    ensures var answer := Step(cfg, s, op, now).1;
            match e
            case Forget(drop) => !answer.Hit? && !answer.Stored? && answer != Updated(true)
            case Touch(key) =>
              op == Get(key) && answer == Hit(s.store.data[key].value) && !s.store.data[key].Expired(now)
            case Replace(drop, key, entry) =>
              && op.Set? && op.key == key && answer == Stored
              && entry == Entry(op.value, Deadline(Resolve(cfg, op.requested), now), SizeOf(key, op.valueBytes))
            case Redate(key, expiresAt) =>
              && op.Expire? && op.key == key && answer == Updated(true) && expiresAt == Deadline(op.ttl, now)
  {
    WithoutNothing(s.store, {});
    match op
    case Get(key) =>
      if key in s.store.data && !s.store.data[key].Expired(now) {
        e := Touch(key);
      } else {
        var drop := CheckedIsForget(s, key, now);
        e := Forget(drop);
      }
    case Set(key, value, ttl, overwrite, valueBytes) =>
      var drop := CheckedIsForget(s, key, now);
      if !ValidTtl(Resolve(cfg, ttl)) {
        e := Forget({});
      } else {
        var c := if overwrite then s else Checked(s, key, now);
        if !overwrite && key in c.store.data {
          e := Forget(drop);
        } else {
          WithoutValid(s.store, drop);
          var more := WriteIsReplace(cfg, c, key, value, Resolve(cfg, ttl), valueBytes, now);
          var all := if overwrite then more else drop + more;
          WithoutTwice(s.store, drop, more);
          e := Replace(all, key, Entry(value, Deadline(Resolve(cfg, ttl), now), SizeOf(key, valueBytes)));
        }
      }
    case Delete(key) =>
      e := Forget({key});
    case Has(key) =>
      var drop := CheckedIsForget(s, key, now);
      e := Forget(drop);
    case Clear(pattern) =>
      if pattern == "" {
        e := Forget(s.store.data.Keys);
        WithoutAll(s.store);
      } else if !ValidPattern(pattern) {
        e := Forget({});
      } else {
        e := Forget(MatchingKeys(s.store, pattern, cfg.separator));
      }
    case Keys(_, _) =>
      e := Forget(ExpiredKeys(s.store, now));
    case Size =>
      e := Forget(ExpiredKeys(s.store, now));
    case TtlOf(key) =>
      var drop := CheckedIsForget(s, key, now);
      e := Forget(drop);
    case Expire(key, ttl) =>
      if ValidTtl(ttl) && key in s.store.data && !s.store.data[key].Expired(now) {
        e := Redate(key, Deadline(ttl, now));
      } else {
        var drop := CheckedIsForget(s, key, now);
        e := if ValidTtl(ttl) then Forget(drop) else Forget({});
      }
  }
}
