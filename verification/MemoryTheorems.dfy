/**
 What the memory adapter guarantees over whole runs: it refines a plain TTL map, keeps its
 capacity bounds, and keeps its entries in order of last use.
 */
module MemoryTheorems {
  import opened Glob
  import opened MemorySpec
  import opened OrderedMap
  import opened Results
  import opened Ttl

  /** One executed operation, its answer, and the instant it ran at. */
  datatype Event<V> = Event(op: Op<V>, answer: Response<V>, now: real)

  /** A requested operation and the instant it runs at. */
  datatype Call<V> = Call(op: Op<V>, now: real)

  /** The adapter after a sequence of calls, and everything it answered. */
  datatype Outcome<V> = Outcome(state: State<V>, history: seq<Event<V>>)

  ghost function Run<V>(cfg: Config, start: real, calls: seq<Call<V>>): (r: Outcome<V>)
    ensures r.state.store.Valid()
    ensures |r.history| == |calls|
  {
    if calls == [] then Outcome(State(Empty(), start), [])
    else
      var last := calls[|calls| - 1];
      var before := Run(cfg, start, calls[..|calls| - 1]);
      var (after, answer) := Step(cfg, before.state, last.op, last.now);
      StepKeepsValid(cfg, before.state, last.op, last.now);
      Outcome(after, before.history + [Event(last.op, answer, last.now)])
  }

  lemma StepKeepsValid<V>(cfg: Config, s: State<V>, op: Op<V>, now: real)
    requires s.store.Valid()
    ensures Step(cfg, s, op, now).0.store.Valid()
  {
    var e := EffectOf(cfg, s, op, now);
    ApplyValid(s.store, e);
  }

  // ---------------------------------------------------------------------------
  // The plain TTL map
  // ---------------------------------------------------------------------------

  datatype Cell<V> = Cell(value: V, expiresAt: Option<real>) {
    predicate Expired(now: real) {
      expiresAt.Some? && now >= expiresAt.value
    }
  }

  /**
   The unbounded map a caller has in mind, read off the history alone: the latest successful
   write of each key not since deleted or cleared, with its current deadline.
   */
  ghost function Latest<V>(cfg: Config, history: seq<Event<V>>): map<string, Cell<V>> {
    if history == [] then map[]
    else
      var e := history[|history| - 1];
      var m := Latest(cfg, history[..|history| - 1]);
      match e.op
      case Set(key, value, requested, _, _) =>
        if e.answer.Stored? then m[key := Cell(value, Deadline(Resolve(cfg, requested), e.now))] else m
      case Delete(key) => m - {key}
      case Clear(pattern) =>
        if e.answer.Rejected? then m
        else if pattern == "" then map[]
        else m - set k | k in m && GlobMatches(pattern, k, cfg.separator)
      case Expire(key, ttl) =>
        if e.answer == Updated(true) && key in m then m[key := m[key].(expiresAt := Deadline(ttl, e.now))] else m
      case _ => m
  }

  /** Everything stored is what the plain map holds: eviction only forgets. */
  ghost predicate Within<V>(store: Store<V>, m: map<string, Cell<V>>) {
    forall k :: k in store.data ==> k in m && m[k] == Cell(store.data[k].value, store.data[k].expiresAt)
  }

  lemma StepStaysWithin<V>(cfg: Config, s: State<V>, op: Op<V>, now: real, history: seq<Event<V>>)
    requires s.store.Valid() && Within(s.store, Latest(cfg, history))
    ensures var (after, answer) := Step(cfg, s, op, now);
            Within(after.store, Latest(cfg, history + [Event(op, answer, now)]))
  {
    var (after, answer) := Step(cfg, s, op, now);
    var longer := history + [Event(op, answer, now)];
    assert longer[..|longer| - 1] == history;
    var e := EffectOf(cfg, s, op, now);
  }

  /** Every run stays within the plain TTL map. */
  lemma {:induction false} RunStaysWithin<V>(cfg: Config, start: real, calls: seq<Call<V>>)
    ensures Within(Run(cfg, start, calls).state.store, Latest(cfg, Run(cfg, start, calls).history))
  {
    if calls != [] {
      var last := calls[|calls| - 1];
      RunStaysWithin(cfg, start, calls[..|calls| - 1]);
      var before := Run(cfg, start, calls[..|calls| - 1]);
      StepStaysWithin(cfg, before.state, last.op, last.now, before.history);
    }
  }

  lemma {:induction false} HistoryGrows<V>(cfg: Config, start: real, calls: seq<Call<V>>, n: nat)
    requires n <= |calls|
    ensures Run(cfg, start, calls).history[..n] == Run(cfg, start, calls[..n]).history
  {
    if n < |calls| {
      HistoryGrows(cfg, start, calls[..|calls| - 1], n);
      assert calls[..|calls| - 1][..n] == calls[..n];
    } else {
      assert calls[..n] == calls;
    }
  }

  /**
   Every hit of every run answers with the latest successful write of its key not since
   deleted or cleared, and strictly before that entry's current deadline.
   */
  lemma {:induction false} HitsAreLatestAndAlive<V>(cfg: Config, start: real, calls: seq<Call<V>>, i: nat)
    requires i < |calls| && calls[i].op.Get?
    requires Run(cfg, start, calls).history[i].answer.Hit?
    ensures var history := Run(cfg, start, calls).history;
            var m := Latest(cfg, history[..i]);
            var key := calls[i].op.key;
            && key in m
            && history[i].answer == Hit(m[key].value)
            && !m[key].Expired(calls[i].now)
  {
    HistoryGrows(cfg, start, calls, i);
    HistoryGrows(cfg, start, calls, i + 1);
    assert calls[..i + 1][..i] == calls[..i];
    var history := Run(cfg, start, calls).history;
    assert history[i] == history[..i + 1][i];
    var before := Run(cfg, start, calls[..i]);
    RunStaysWithin(cfg, start, calls[..i]);
    var e := EffectOf(cfg, before.state, calls[i].op, calls[i].now);
  }

  // ---------------------------------------------------------------------------
  // With room for everything, the plain map exactly
  // ---------------------------------------------------------------------------

  /** The guard of the eviction step: an accepted write finds too little room. */
  ghost predicate Overflows<V>(cfg: Config, s: State<V>, op: Op<V>, now: real)
    requires s.store.Valid()
  {
    && op.Set?
    && Step(cfg, s, op, now).1.Stored?
    && var c := if op.overwrite then s else Checked(s, op.key, now);
       WithoutValid(s.store, {op.key});
       ReleasedValid(c, op.key, now);
       var released := Released(c, op.key, now).store;
       !HasRoom(cfg, released.order, released.data, SizeOf(op.key, op.valueBytes))
  }

  ghost predicate LiveAgree<V>(store: Store<V>, m: map<string, Cell<V>>, now: real) {
    forall k :: k in m && !m[k].Expired(now) ==> k in store.data
  }

  /** Without an overflow, an operation only drops dead entries and those it was asked to drop. */
  lemma StepKeepsLive<V>(cfg: Config, s: State<V>, op: Op<V>, now: real, k: string)
    requires s.store.Valid() && !Overflows(cfg, s, op, now)
    requires k in s.store.data && !s.store.data[k].Expired(now)
    requires !(op.Delete? && op.key == k)
    requires op.Clear? && ValidPattern(op.pattern) ==> !GlobMatches(op.pattern, k, cfg.separator)
    requires op.Clear? ==> op.pattern != ""
    ensures k in Step(cfg, s, op, now).0.store.data
  {
  }

  lemma StepAgrees<V>(cfg: Config, s: State<V>, op: Op<V>, now: real, history: seq<Event<V>>)
    requires s.store.Valid() && !Overflows(cfg, s, op, now)
    requires Within(s.store, Latest(cfg, history)) && LiveAgree(s.store, Latest(cfg, history), now)
    ensures var (after, answer) := Step(cfg, s, op, now);
            LiveAgree(after.store, Latest(cfg, history + [Event(op, answer, now)]), now)
  {
    var (after, answer) := Step(cfg, s, op, now);
    var longer := history + [Event(op, answer, now)];
    assert longer[..|longer| - 1] == history;
    var m, m' := Latest(cfg, history), Latest(cfg, longer);
    forall k | k in m' && !m'[k].Expired(now) ensures k in after.store.data {
      if answer.Stored? && op.key == k {
        var e := EffectOf(cfg, s, op, now);
      } else if answer == Updated(true) && op.key == k {
        var e := EffectOf(cfg, s, op, now);
      } else {
        assert k in m && m[k] == m'[k];
        StepKeepsLive(cfg, s, op, now, k);
      }
    }
  }

  ghost predicate ClockAdvances<V>(calls: seq<Call<V>>) {
    forall i, j :: 0 <= i < j < |calls| ==> calls[i].now <= calls[j].now
  }

  ghost predicate NeverOverflows<V>(cfg: Config, start: real, calls: seq<Call<V>>) {
    forall i :: 0 <= i < |calls| ==>
      !Overflows(cfg, Run(cfg, start, calls[..i]).state, calls[i].op, calls[i].now)
  }

  /** A run that never overflows holds exactly the live part of the plain TTL map. */
  lemma {:induction false} RunAgrees<V>(cfg: Config, start: real, calls: seq<Call<V>>, now: real)
    requires ClockAdvances(calls) && NeverOverflows(cfg, start, calls)
    requires calls != [] ==> calls[|calls| - 1].now <= now
    ensures LiveAgree(Run(cfg, start, calls).state.store, Latest(cfg, Run(cfg, start, calls).history), now)
  {
    if calls != [] {
      var n := |calls| - 1;
      var front, last := calls[..n], calls[n];
      forall i | 0 <= i < n ensures front[..i] == calls[..i] {
      }
      RunAgrees(cfg, start, front, last.now);
      RunStaysWithin(cfg, start, front);
      var before := Run(cfg, start, front);
      StepAgrees(cfg, before.state, last.op, last.now, before.history);
    }
  }

  /** Hence a read after such a run is a hit exactly when the plain map has a live value, and answers with it. */
  lemma {:induction false} ReadsAreExact<V>(cfg: Config, start: real, calls: seq<Call<V>>, key: string, now: real)
    requires ClockAdvances(calls) && NeverOverflows(cfg, start, calls)
    requires calls != [] ==> calls[|calls| - 1].now <= now
    ensures var r := Run(cfg, start, calls);
            var m := Latest(cfg, r.history);
            Step(cfg, r.state, Get(key), now).1 ==
            if key in m && !m[key].Expired(now) then Hit(m[key].value) else Miss
  {
    RunAgrees(cfg, start, calls, now);
    RunStaysWithin(cfg, start, calls);
  }

  // ---------------------------------------------------------------------------
  // Capacity
  // ---------------------------------------------------------------------------

  /** The bounds the adapter promises; a lone entry may exceed them. */
  ghost predicate WithinCapacity<V>(cfg: Config, store: Store<V>)
    requires store.Valid()
  {
    && |store.order| <= (if cfg.maxEntries < 1 then 1 else cfg.maxEntries)
    && (|store.order| > 1 ==> TotalBytes(store) <= cfg.maxBytes)
  }

  lemma {:induction false} SumBytesAppend<V>(a: seq<string>, b: seq<string>, data: map<string, Entry<V>>)
    requires forall k :: k in a + b ==> k in data
    ensures (forall k :: k in a ==> k in data) && (forall k :: k in b ==> k in data)
    ensures SumBytes(a + b, data) == SumBytes(a, data) + SumBytes(b, data)
  {
    assert forall k :: k in a || k in b ==> k in a + b;
    if a == [] {
      assert a + b == b;
    } else {
      SumBytesAppend(a[1..], b, data);
      assert (a + b)[1..] == a[1..] + b;
    }
  }

  lemma {:induction false} MinusShrinks<V>(order: seq<string>, drop: set<string>, data: map<string, Entry<V>>)
    requires forall k :: k in order ==> k in data
    ensures |Minus(order, drop)| <= |order|
    ensures SumBytes(Minus(order, drop), data) <= SumBytes(order, data)
  {
    if order != [] {
      MinusShrinks(order[1..], drop, data);
    }
  }

  /** Taking one entry out lowers the total by exactly its size. */
  lemma {:induction false} MinusOne<V>(order: seq<string>, key: string, data: map<string, Entry<V>>)
    requires Distinct(order) && key in order
    requires forall k :: k in order ==> k in data
    ensures |Minus(order, {key})| == |order| - 1
    ensures SumBytes(Minus(order, {key}), data) == SumBytes(order, data) - data[key].bytes
  {
    if order[0] == key {
      MinusNothing(order[1..], {key});
    } else {
      MinusOne(order[1..], key, data);
    }
  }

  lemma ForgetKeepsCapacity<V>(cfg: Config, store: Store<V>, drop: set<string>)
    requires store.Valid() && store.Without(drop).Valid() && WithinCapacity(cfg, store)
    ensures WithinCapacity(cfg, store.Without(drop))
  {
    MinusShrinks(store.order, drop, store.data);
    SumBytesAgree(store.Without(drop).order, store.Without(drop).data, store.data);
  }

  lemma TouchKeepsTotal<V>(store: Store<V>, key: string)
    requires store.Valid() && key in store.data
    ensures var t := Touched(store, key);
            t.Valid() && |t.order| == |store.order| && TotalBytes(t) == TotalBytes(store)
  {
    WithoutValid(store, {key});
    MinusOne(store.order, key, store.data);
    var t := Touched(store, key);
    SumBytesAgree(t.order, t.data, store.data);
    SumBytesAppend(Minus(store.order, {key}), [key], store.data);
  }

  lemma RoomIsMade<V>(cfg: Config, s: State<V>, incoming: nat, now: real)
    requires s.store.Valid()
    ensures var room := MadeRoom(cfg, s, incoming, now).store;
            && room.Valid()
            && room.data.Keys <= s.store.data.Keys
            && (room.order == [] || HasRoom(cfg, room.order, room.data, incoming))
  {
    if !HasRoom(cfg, s.store.order, s.store.data, incoming) {
      WithoutValid(s.store, ExpiredKeys(s.store, now));
      var n := TrimmedIsShortestPrefix(cfg, Purged(s.store, now), incoming);
    }
  }

  lemma PutWithinCapacity<V>(cfg: Config, room: Store<V>, key: string, entry: Entry<V>)
    requires room.Valid() && key !in room.data
    requires room.order == [] || HasRoom(cfg, room.order, room.data, entry.bytes)
    ensures room.Put(key, entry).Valid() && WithinCapacity(cfg, room.Put(key, entry))
  {
    var store := room.Put(key, entry);
    SumBytesAppend(room.order, [key], store.data);
    SumBytesAgree(room.order, room.data, store.data);
  }

  lemma WriteFitsCapacity<V>(cfg: Config, s: State<V>, key: string, value: V, ttl: Ttl, valueBytes: nat, now: real)
    requires s.store.Valid()
    ensures var store := Write(cfg, s, key, value, ttl, valueBytes, now).store;
            store.Valid() && WithinCapacity(cfg, store)
  {
    hide HasRoom, WithinCapacity;
    ReleasedValid(s, key, now);
    var released, bytes := Released(s, key, now), SizeOf(key, valueBytes);
    RoomIsMade(cfg, released, bytes, now);
    PutWithinCapacity(cfg, MadeRoom(cfg, released, bytes, now).store, key, Entry(value, Deadline(ttl, now), bytes));
  }

  /** In every reachable state both bounds hold, save for a lone oversized entry. */
  lemma {:induction false} RunKeepsCapacity<V>(cfg: Config, start: real, calls: seq<Call<V>>)
    ensures WithinCapacity(cfg, Run(cfg, start, calls).state.store)
  {
    if calls != [] {
      var n := |calls| - 1;
      RunKeepsCapacity(cfg, start, calls[..n]);
      StepKeepsCapacity(cfg, Run(cfg, start, calls[..n]).state, calls[n].op, calls[n].now);
    }
  }

  lemma StepKeepsCapacity<V>(cfg: Config, s: State<V>, op: Op<V>, now: real)
    requires s.store.Valid() && WithinCapacity(cfg, s.store)
    ensures var after := Step(cfg, s, op, now).0.store;
            after.Valid() && WithinCapacity(cfg, after)
  {
    var e := EffectOf(cfg, s, op, now);
    ApplyValid(s.store, e);
    match e
    case Forget(drop) => ForgetKeepsCapacity(cfg, s.store, drop);
    case Touch(key) => TouchKeepsTotal(s.store, key);
    case Replace(_, key, _) =>
      var c := if op.overwrite then s else Checked(s, key, now);
      WithoutValid(s.store, {key});
      WriteFitsCapacity(cfg, c, key, op.value, Resolve(cfg, op.requested), op.valueBytes, now);
    case Redate(key, _) =>
      SumBytesAgree(s.store.order, s.store.data, Apply(s.store, e).data);
  }

  /** With no room for any entry configured, an accepted write still leaves its own entry, and no other. */
  lemma NoRoomHoldsOne<V>(cfg: Config, s: State<V>, op: Op<V>, now: real)
    requires s.store.Valid() && cfg.maxEntries < 1 && Step(cfg, s, op, now).1.Stored?
    ensures Step(cfg, s, op, now).0.store.order == [op.key]
  {
    hide Minus, SumBytes;
    var c := if op.overwrite then s else Checked(s, op.key, now);
    WithoutValid(s.store, {op.key});
    ReleasedValid(c, op.key, now);
    RoomIsMade(cfg, Released(c, op.key, now), SizeOf(op.key, op.valueBytes), now);
  }

  function AtLeastZero(n: int): nat {
    if n < 0 then 0 else n
  }

  /**
   When exactly the caps hold in a reachable state: the entry cap if it allows an entry or
   nothing is stored, the byte cap unless a lone entry exceeds it by itself.
   */
  lemma {:induction false} CapsHoldExactly<V>(cfg: Config, start: real, calls: seq<Call<V>>)
    ensures var store := Run(cfg, start, calls).state.store;
            && (|store.order| <= AtLeastZero(cfg.maxEntries) <==> cfg.maxEntries >= 1 || store.order == [])
            && (TotalBytes(store) <= AtLeastZero(cfg.maxBytes) <==>
                  |store.order| != 1 || store.data[store.order[0]].bytes <= AtLeastZero(cfg.maxBytes))
  {
    hide Run;
    RunKeepsCapacity(cfg, start, calls);
    var store := Run(cfg, start, calls).state.store;
    if |store.order| == 1 {
      assert SumBytes(store.order[1..], store.data) == 0;
    }
  }

  // ---------------------------------------------------------------------------
  // Order of last use
  // ---------------------------------------------------------------------------

  /** A read hit or a write. */
  ghost predicate Touches<V>(e: Event<V>, key: string) {
    || (e.op == Get(key) && e.answer.Hit?)
    || (e.op.Set? && e.op.key == key && e.answer.Stored?)
  }

  /** When `key` was last used, counted in operations; -1 if never. */
  ghost function LastTouch<V>(history: seq<Event<V>>, key: string): int {
    if history == [] then -1
    else if Touches(history[|history| - 1], key) then |history| - 1
    else LastTouch(history[..|history| - 1], key)
  }

  ghost predicate InTouchOrder<V>(order: seq<string>, history: seq<Event<V>>) {
    && (forall i :: 0 <= i < |order| ==> 0 <= LastTouch(history, order[i]) < |history|)
    && (forall i, j :: 0 <= i < j < |order| ==> LastTouch(history, order[i]) < LastTouch(history, order[j]))
  }

  lemma {:induction false} MinusKeepsTouchOrder<V>(order: seq<string>, drop: set<string>, history: seq<Event<V>>)
    requires InTouchOrder(order, history)
    ensures InTouchOrder(Minus(order, drop), history)
  {
    hide LastTouch;
    if order != [] {
      assert InTouchOrder(order[1..], history);
      MinusKeepsTouchOrder(order[1..], drop, history);
      var rest := Minus(order[1..], drop);
      forall i | 0 <= i < |rest| ensures LastTouch(history, order[0]) < LastTouch(history, rest[i]) {
        assert rest[i] in order[1..];
        var j :| 0 <= j < |order[1..]| && order[1..][j] == rest[i];
        assert order[j + 1] == rest[i];
      }
    }
  }

  lemma OthersKeepTouchOrder<V>(order: seq<string>, history: seq<Event<V>>, e: Event<V>)
    requires InTouchOrder(order, history)
    requires forall k :: k in order ==> !Touches(e, k)
    ensures InTouchOrder(order, history + [e])
  {
    assert (history + [e])[..|history|] == history;
    assert forall k :: k in order ==> LastTouch(history + [e], k) == LastTouch(history, k);
  }

  lemma TouchedGoesLast<V>(order: seq<string>, key: string, history: seq<Event<V>>, e: Event<V>)
    requires InTouchOrder(order, history) && key !in order
    requires forall k :: Touches(e, k) <==> k == key
    ensures InTouchOrder(order + [key], history + [e])
  {
    OthersKeepTouchOrder(order, history, e);
  }

  /** The store's order is always the order of last use. */
  lemma {:induction false} RunKeepsTouchOrder<V>(cfg: Config, start: real, calls: seq<Call<V>>)
    ensures var r := Run(cfg, start, calls);
            InTouchOrder(r.state.store.order, r.history)
  {
    if calls != [] {
      var n := |calls| - 1;
      RunKeepsTouchOrder(cfg, start, calls[..n]);
      var before, last := Run(cfg, start, calls[..n]), calls[n];
      var (after, answer) := Step(cfg, before.state, last.op, last.now);
      var event := Event(last.op, answer, last.now);
      var order := before.state.store.order;
      var e := EffectOf(cfg, before.state, last.op, last.now);
      match e
      case Forget(drop) =>
        MinusKeepsTouchOrder(order, drop, before.history);
        OthersKeepTouchOrder(Minus(order, drop), before.history, event);
      case Touch(key) =>
        MinusKeepsTouchOrder(order, {key}, before.history);
        TouchedGoesLast(Minus(order, {key}), key, before.history, event);
      case Replace(drop, key, _) =>
        MinusKeepsTouchOrder(order, drop, before.history);
        TouchedGoesLast(Minus(order, drop), key, before.history, event);
      case Redate(key, _) =>
        OthersKeepTouchOrder(order, before.history, event);
    }
  }

  // ---------------------------------------------------------------------------
  // What a write evicts
  // ---------------------------------------------------------------------------

  /** Stored, and before its deadline if it has one. */
  ghost predicate Alive<V>(store: Store<V>, key: string, now: real) {
    && key in store.data
    && (store.data[key].expiresAt.None? || now < store.data[key].expiresAt.value)
  }

  /** The keys a write of `key` finds beside its own: the dead among them only until a purge is due. */
  ghost function Beside<V>(s: State<V>, key: string, now: real): seq<string> {
    var due := now - s.lastPurgeAt >= EXPIRED_PURGE_INTERVAL_MS;
    Minus(s.store.order, set k | k in s.store.data && (k == key || (due && !Alive(s.store, k, now))))
  }

  /** The living ones among them. */
  ghost function LivingBeside<V>(store: Store<V>, key: string, now: real): seq<string> {
    Minus(store.order, set k | k in store.data && (k == key || !Alive(store, k, now)))
  }

  /** An entry of `incoming` bytes fits beside those of `keys`. */
  ghost predicate FitsBeside<V>(cfg: Config, keys: seq<string>, data: map<string, Entry<V>>, incoming: nat)
    requires forall k :: k in keys ==> k in data
  {
    |keys| + 1 <= cfg.maxEntries && SumBytes(keys, data) + incoming <= cfg.maxBytes
  }

  /**
   A write that overflows removes exactly the expired entries and the shortest
   least-recently-used run of the live ones that makes room; the rest keeps its order, and
   the new entry is the most recent.
   */
  lemma {:induction false} EvictionIsMinimal<V>(cfg: Config, s: State<V>, op: Op<V>, now: real) returns (n: nat)
    requires s.store.Valid() && Overflows(cfg, s, op, now)
    ensures var live := LivingBeside(s.store, op.key, now);
            var after, data := Step(cfg, s, op, now).0.store, s.store.data;
            var incoming := op.valueBytes + 2 * |op.key|;
            && n <= |live| && (forall k :: k in live ==> k in data)
            && after.order == live[n..] + [op.key]
            && (n == |live| || FitsBeside(cfg, live[n..], data, incoming))
            && (forall m :: 0 <= m < n ==> !FitsBeside(cfg, live[m..], data, incoming))
  {
    var incoming := SizeOf(op.key, op.valueBytes);
    hide Step, Minus, Trimmed, SumBytes, Distinct;
    var rest := OverflowTrims(cfg, s, op, now);
    hide Overflows;
    LivingAreUnexpired(s.store, op.key, now);
    n := TrimmedIsShortestPrefix(cfg, rest, incoming);
    RoomOfSurvivors(cfg, rest, s.store.data, incoming);
  }

  lemma LivingAreUnexpired<V>(store: Store<V>, key: string, now: real)
    requires store.Valid()
    ensures LivingBeside(store, key, now) == Minus(store.order, ExpiredKeys(store, now) + {key})
  {
    MinusSame(store.order, ExpiredKeys(store, now) + {key},
              set k | k in store.data && (k == key || !Alive(store, k, now)));
  }

  lemma RoomOfSurvivors<V>(cfg: Config, rest: Store<V>, data: map<string, Entry<V>>, incoming: nat)
    requires rest.Valid() && forall k :: k in rest.order ==> k in data && rest.data[k] == data[k]
    ensures forall m :: 0 <= m <= |rest.order| ==>
              (HasRoom(cfg, rest.order[m..], data, incoming) <==> HasRoom(cfg, rest.order[m..], rest.data, incoming))
  {
    forall m | 0 <= m <= |rest.order|
      ensures HasRoom(cfg, rest.order[m..], data, incoming) <==> HasRoom(cfg, rest.order[m..], rest.data, incoming)
    {
      SumBytesAgree(rest.order[m..], rest.data, data);
    }
  }

  /** The store an overflowing write trims: the live entries other than its own key. */
  lemma OverflowTrims<V>(cfg: Config, s: State<V>, op: Op<V>, now: real) returns (rest: Store<V>)
    requires s.store.Valid() && Overflows(cfg, s, op, now)
    ensures rest.Valid()
    ensures rest.order == Minus(s.store.order, ExpiredKeys(s.store, now) + {op.key})
    ensures forall k :: k in rest.order ==> k in s.store.data && rest.data[k] == s.store.data[k]
    ensures Step(cfg, s, op, now).0.store.order == Trimmed(cfg, rest, SizeOf(op.key, op.valueBytes)).order + [op.key]
  {
    var key := op.key;
    var drop := CheckedIsForget(s, key, now);
    var c := if op.overwrite then s else Checked(s, key, now);
    if op.overwrite {
      drop := {};
      WithoutNothing(s.store, {});
    }
    WithoutValid(s.store, drop);
    ReleasedValid(c, key, now);
    WithoutValid(Released(c, key, now).store, ExpiredKeys(Released(c, key, now).store, now));
    rest := Purged(Released(c, key, now).store, now);
    PurgedRelease(s, c, key, drop, now);
    var n := TrimmedIsShortestPrefix(cfg, rest, SizeOf(key, op.valueBytes));
  }

  lemma DeadAreExpired<V>(s: State<V>, c: State<V>, key: string, drop: set<string>, due: set<string>, now: real)
    requires c.store == s.store.Without(drop) && drop <= ExpiredKeys(s.store, now)
    requires PurgeIfDue(c, now).store == c.store.Without(due) && due <= ExpiredKeys(c.store, now)
    ensures drop + due + {key} + ExpiredKeys(Released(c, key, now).store, now) == ExpiredKeys(s.store, now) + {key}
  {
    hide Minus;
    var released := Released(c, key, now).store;
    assert released.data == s.store.data - drop - due - {key};
    forall k | k in ExpiredKeys(s.store, now) && k !in drop && k !in due && k != key
      ensures k in ExpiredKeys(released, now)
    {
    }
  }

  /** After the purge, the entries a write may evict are the live ones other than its own key. */
  lemma PurgedRelease<V>(s: State<V>, c: State<V>, key: string, drop: set<string>, now: real)
    requires s.store.Valid() && c.store == s.store.Without(drop) && drop <= ExpiredKeys(s.store, now)
    requires c.lastPurgeAt == s.lastPurgeAt
    ensures var rest := Purged(Released(c, key, now).store, now);
            && rest.order == Minus(s.store.order, ExpiredKeys(s.store, now) + {key})
            && forall k :: k in rest.order ==> k in rest.data && k in s.store.data && rest.data[k] == s.store.data[k]
  {
    hide Minus;
    var due := if now - c.lastPurgeAt < EXPIRED_PURGE_INTERVAL_MS then {} else ExpiredKeys(c.store, now);
    WithoutValid(s.store, drop);
    WithoutNothing(c.store, {});
    assert PurgeIfDue(c, now).store == c.store.Without(due);
    var dead := ExpiredKeys(Released(c, key, now).store, now);
    WithoutTwice(s.store, drop, due);
    WithoutTwice(s.store, drop + due, {key});
    WithoutTwice(s.store, drop + due + {key}, dead);
    DeadAreExpired(s, c, key, drop, due, now);
  }

  /** A write with room to spare evicts nothing: only its own old entry and, when a purge is due, dead ones go. */
  lemma NoOverflowNoEviction<V>(cfg: Config, s: State<V>, op: Op<V>, now: real, k: string)
    requires s.store.Valid() && op.Set? && k in s.store.data && k != op.key
    ensures Overflows(cfg, s, op, now) || k in Step(cfg, s, op, now).0.store.data ||
            (s.store.data[k].Expired(now) && now - s.lastPurgeAt >= EXPIRED_PURGE_INTERVAL_MS)
  {
  }

  // ---------------------------------------------------------------------------
  // Each operation in its caller's terms
  // ---------------------------------------------------------------------------

  ghost predicate OutOfBounds(ttl: Ttl) {
    ttl.Ms? && (ttl.ms < MIN_TTL_MS || ttl.ms > MAX_TTL_MS)
  }

  /** `after` is `before` less some entries, the others unchanged and in their order. */
  ghost predicate OnlyLess<V>(before: Store<V>, after: Store<V>) {
    && after.data.Keys <= before.data.Keys
    && (forall k :: k in after.data ==> after.data[k] == before.data[k])
    && after.order == Minus(before.order, before.data.Keys - after.data.Keys)
  }

  lemma {:induction false} MinusMissing(order: seq<string>, present: set<string>, drop: set<string>)
    requires forall k :: k in order ==> k in present
    ensures Minus(order, drop) == Minus(order, present - (present - drop))
  {
    if order != [] {
      MinusMissing(order[1..], present, drop);
    }
  }

  lemma WithoutIsLess<V>(store: Store<V>, drop: set<string>)
    requires store.Valid()
    ensures OnlyLess(store, store.Without(drop))
  {
    MinusMissing(store.order, store.data.Keys, drop);
    assert (store.data - drop).Keys == store.data.Keys - drop;
  }

  /** What dropping a dead entry on the way leaves. */
  lemma CheckedDropsTheDead<V>(s: State<V>, key: string, now: real)
    requires s.store.Valid()
    ensures var after := Checked(s, key, now);
            && after.lastPurgeAt == s.lastPurgeAt && OnlyLess(s.store, after.store)
            && forall k :: k in after.store.data <==> k in s.store.data && (k == key ==> Alive(s.store, key, now))
  {
    hide Minus;
    WithoutNothing(s.store, {});
    WithoutIsLess(s.store, {key});
    WithoutIsLess(s.store, {});
  }

  /** A read hits exactly the living, and drops the key it finds dead. */
  lemma GetAnswers<V>(cfg: Config, s: State<V>, key: string, now: real)
    requires s.store.Valid()
    ensures var (after, answer) := Step(cfg, s, Get(key), now);
            && answer == (if Alive(s.store, key, now) then Hit(s.store.data[key].value) else Miss)
            && after.lastPurgeAt == s.lastPurgeAt
            && after.store.data == (if Alive(s.store, key, now) then s.store.data else s.store.data - {key})
            && after.store.order == Minus(s.store.order, {key}) + if Alive(s.store, key, now) then [key] else []
  {
    hide Minus, OnlyLess;
    if key !in s.store.data {
      MinusNothing(s.store.order, {key});
    }
  }

  /** `has` answers as a read would, and touches nothing that lives. */
  lemma HasAnswers<V>(cfg: Config, s: State<V>, key: string, now: real)
    requires s.store.Valid()
    ensures var (after, answer) := Step(cfg, s, Has(key), now);
            && answer == Present(Alive(s.store, key, now))
            && after.lastPurgeAt == s.lastPurgeAt && OnlyLess(s.store, after.store)
            && forall k :: k in after.store.data <==> k in s.store.data && (k == key ==> Alive(s.store, key, now))
  {
    hide OnlyLess;
    CheckedDropsTheDead(s, key, now);
  }

  /** The time left, in whole milliseconds rounded down, but at least one for a key that lives. */
  lemma TtlAnswers<V>(cfg: Config, s: State<V>, key: string, now: real)
    requires s.store.Valid()
    ensures var (after, answer) := Step(cfg, s, TtlOf(key), now);
            && (!Alive(s.store, key, now) ==> answer == Miss)
            && (Alive(s.store, key, now) && s.store.data[key].expiresAt.None? ==> answer == Remaining(None))
            && (Alive(s.store, key, now) && s.store.data[key].expiresAt.Some? ==>
                  var left := s.store.data[key].expiresAt.value - now;
                  && answer.Remaining? && answer.ms.Some? && answer.ms.value >= 1
                  && (left < 1.0 ==> answer.ms.value == 1)
                  && (left >= 1.0 ==> answer.ms.value as real <= left < answer.ms.value as real + 1.0))
            && after.lastPurgeAt == s.lastPurgeAt && OnlyLess(s.store, after.store)
            && forall k :: k in after.store.data <==> k in s.store.data && (k == key ==> Alive(s.store, key, now))
  {
    hide OnlyLess;
    CheckedDropsTheDead(s, key, now);
  }

  /** Re-dating works exactly on the living, and changes the deadline of that entry alone. */
  lemma ExpireAnswers<V>(cfg: Config, s: State<V>, key: string, ttl: Ttl, now: real)
    requires s.store.Valid()
    ensures var (after, answer) := Step(cfg, s, Expire(key, ttl), now);
            && answer == (if OutOfBounds(ttl) then Rejected(InvalidTtl) else Updated(Alive(s.store, key, now)))
            && after.lastPurgeAt == s.lastPurgeAt
            && if OutOfBounds(ttl) then after == s
               else if Alive(s.store, key, now) then
                 && after.store.order == s.store.order && after.store.data.Keys == s.store.data.Keys
                 && forall k :: k in s.store.data ==>
                      after.store.data[k] == if k != key then s.store.data[k]
                                             else Entry(s.store.data[key].value,
                                                        if ttl.Ms? then Some(now + ttl.ms) else None,
                                                        s.store.data[key].bytes)
               else OnlyLess(s.store, after.store) && after.store.data == s.store.data - {key}
  {
    hide OnlyLess;
    CheckedDropsTheDead(s, key, now);
  }

  lemma DeleteAnswers<V>(cfg: Config, s: State<V>, key: string, now: real)
    requires s.store.Valid()
    ensures var (after, answer) := Step(cfg, s, Delete(key), now);
            && answer == Deleted(key in s.store.data)
            && after.lastPurgeAt == s.lastPurgeAt
            && OnlyLess(s.store, after.store) && after.store.data == s.store.data - {key}
  {
    hide OnlyLess;
    WithoutIsLess(s.store, {key});
  }

  /** Without a pattern everything goes; with one what it matches, or nothing if it is too long. */
  lemma ClearAnswers<V>(cfg: Config, s: State<V>, pattern: string, now: real)
    requires s.store.Valid()
    ensures var (after, answer) := Step(cfg, s, Clear(pattern), now);
            && after.lastPurgeAt == s.lastPurgeAt && OnlyLess(s.store, after.store)
            && (|pattern| > MAX_KEY_LENGTH ==> answer == Rejected(InvalidKey) && after == s)
            && (|pattern| <= MAX_KEY_LENGTH ==>
                  && answer == Cleared(|s.store.data.Keys - after.store.data.Keys|)
                  && forall k :: k in after.store.data <==>
                       k in s.store.data && pattern != "" && !GlobMatches(pattern, k, cfg.separator))
  {
    hide OnlyLess, GlobMatches, Minus;
    WithoutNothing(s.store, {});
    WithoutIsLess(s.store, {});
    if pattern == "" {
      WithoutAll(s.store);
      WithoutIsLess(s.store, s.store.data.Keys);
      OrderCounts(s.store);
      assert s.store.data.Keys - {} == s.store.data.Keys;
    } else {
      var drop := MatchingKeys(s.store, pattern, cfg.separator);
      WithoutIsLess(s.store, drop);
      assert s.store.data.Keys - (s.store.data - drop).Keys == drop;
    }
  }

  /** The living are what a purge leaves. */
  lemma PurgedAreAlive<V>(store: Store<V>, now: real)
    requires store.Valid()
    ensures var after := Purged(store, now);
            && after.Valid() && OnlyLess(store, after)
            && (forall k :: k in after.data <==> Alive(store, k, now))
            && |after.order| == |set k | k in store.data && Alive(store, k, now)|
  {
    hide OnlyLess, Minus;
    var after := Purged(store, now);
    WithoutIsLess(store, ExpiredKeys(store, now));
    WithoutValid(store, ExpiredKeys(store, now));
    OrderCounts(after);
    assert after.data.Keys == set k | k in store.data && Alive(store, k, now);
  }

  /** Counting purges first: the answer is the number of living entries, and only those are left. */
  lemma SizeAnswers<V>(cfg: Config, s: State<V>, now: real)
    requires s.store.Valid()
    ensures var (after, answer) := Step(cfg, s, Size, now);
            && answer == Counted(|set k | k in s.store.data && Alive(s.store, k, now)|)
            && after.lastPurgeAt == now && OnlyLess(s.store, after.store)
            && forall k :: k in after.store.data <==> Alive(s.store, k, now)
  {
    hide OnlyLess;
    PurgedAreAlive(s.store, now);
  }

  /** The keys a listing starts from: the living ones a pattern leaves in, in the store's order. */
  ghost function LivingMatches<V>(store: Store<V>, pattern: string, sep: char, now: real): seq<string> {
    Minus(store.order, set k | k in store.data &&
                               !(Alive(store, k, now) && (pattern == "" || GlobMatches(pattern, k, sep))))
  }

  lemma LivingListed<V>(store: Store<V>, pattern: string, sep: char, now: real)
    requires store.Valid()
    ensures var live := Purged(store, now).order;
            LivingMatches(store, pattern, sep, now) ==
            if pattern == "" then live else Minus(live, Others(live, pattern, sep))
  {
    hide Minus, GlobMatches;
    var live, dead := Purged(store, now), ExpiredKeys(store, now);
    WithoutValid(store, dead);
    var others := if pattern == "" then {} else Others(live.order, pattern, sep);
    MinusTwice(store.order, dead, others);
    MinusNothing(live.order, {});
    assert dead + others ==
           set k | k in store.data && !(Alive(store, k, now) && (pattern == "" || GlobMatches(pattern, k, sep)));
  }

  lemma KeysMeans<V>(cfg: Config, s: State<V>, pattern: string, limit: Option<int>, now: real)
    requires s.store.Valid()
    ensures var live := s.(store := Purged(s.store, now));
            var listed := if pattern == "" then live.store.order
                          else Minus(live.store.order, Others(live.store.order, pattern, cfg.separator));
            Step(cfg, s, Op.Keys(pattern, limit), now) ==
            if pattern != "" && !ValidPattern(pattern) then (live, Rejected(InvalidKey))
            else (live, Listed(Limited(listed, limit)))
  {
  }

  /** A listing drops every dead entry and shows the living matches, the first `limit` of them or all but the last. */
  lemma KeysAnswers<V>(cfg: Config, s: State<V>, pattern: string, limit: Option<int>, now: real)
    requires s.store.Valid()
    ensures var (after, answer) := Step(cfg, s, Keys(pattern, limit), now);
            var all := LivingMatches(s.store, pattern, cfg.separator, now);
            && after.lastPurgeAt == s.lastPurgeAt && OnlyLess(s.store, after.store)
            && (forall k :: k in after.store.data <==> Alive(s.store, k, now))
            && (|pattern| > MAX_KEY_LENGTH ==> answer == Rejected(InvalidKey))
            && (|pattern| <= MAX_KEY_LENGTH ==>
                  && answer.Listed? && answer.keys <= all
                  && |answer.keys| == if limit.None? || limit.value > |all| then |all|
                                      else if limit.value >= 0 then limit.value
                                      else if |all| + limit.value >= 0 then |all| + limit.value
                                      else 0)
  {
    PurgedAreAlive(s.store, now);
    LivingListed(s.store, pattern, cfg.separator, now);
    KeysMeans(cfg, s, pattern, limit, now);
    hide Step, OnlyLess, GlobMatches, Minus, LivingMatches, Alive, Purged, Others;
  }

  // ---------------------------------------------------------------------------
  // A write in its caller's terms
  // ---------------------------------------------------------------------------

  /** The three outcomes of a write, and the check that decides two of them. */
  lemma SetMeans<V>(cfg: Config, s: State<V>, key: string, value: V, requested: Option<Ttl>, overwrite: bool,
                    valueBytes: nat, now: real)
    requires s.store.Valid()
    ensures var after := Step(cfg, s, Op.Set(key, value, requested, overwrite, valueBytes), now);
            var c := if overwrite then s else Checked(s, key, now);
            && c.store.Valid()
            && Step(cfg, s, Op.Has(key), now) == (Checked(s, key, now), Present(key in Checked(s, key, now).store.data))
            && after == if !ValidTtl(Resolve(cfg, requested)) then (s, Rejected(InvalidTtl))
                        else if !overwrite && key in c.store.data then (c, Skipped)
                        else (Write(cfg, c, key, value, Resolve(cfg, requested), valueBytes, now), Stored)
  {
    WithoutValid(s.store, {key});
  }

  /**
   A write is rejected for its TTL, skipped for a living entry it may not overwrite, or stored:
   under its key, with its value, its deadline and its own size, and as the most recent.
   */
  lemma SetAnswers<V>(cfg: Config, s: State<V>, op: Op<V>, now: real)
    requires s.store.Valid() && op.Set?
    ensures var (after, answer) := Step(cfg, s, op, now);
            var ttl := if op.requested.Some? then op.requested.value else Ms(cfg.defaultTtl);
            && answer == (if OutOfBounds(ttl) then Rejected(InvalidTtl)
                          else if !op.overwrite && Alive(s.store, op.key, now) then Skipped
                          else Stored)
            && (!answer.Stored? ==> after == s)
            && (answer.Stored? ==>
                  && after.store.Valid() && after.store.order != []
                  && after.store.order[|after.store.order| - 1] == op.key
                  && after.store.data[op.key] ==
                     Entry(op.value, if ttl.Ms? then Some(now + ttl.ms) else None, op.valueBytes + 2 * |op.key|)
                  && forall k :: k in after.store.data && k != op.key ==>
                       k in s.store.data && after.store.data[k] == s.store.data[k])
  {
    var e := EffectOf(cfg, s, op, now);
    ApplyValid(s.store, e);
    SetMeans(cfg, s, op.key, op.value, op.requested, op.overwrite, op.valueBytes, now);
    hide Step, Write, Minus, Distinct;
  }

  /** What an accepted write makes room in, and when it has to make any. */
  lemma OverflowsExactly<V>(cfg: Config, s: State<V>, op: Op<V>, now: real)
    requires s.store.Valid() && op.Set? && Step(cfg, s, op, now).1.Stored?
    ensures var after := Step(cfg, s, op, now).0;
            var beside := Beside(s, op.key, now);
            && (forall k :: k in beside ==> k in s.store.data)
            && var fits := FitsBeside(cfg, beside, s.store.data, op.valueBytes + 2 * |op.key|);
               && (Overflows(cfg, s, op, now) <==> !fits)
               && (fits ==> after.store.order == beside + [op.key])
               && after.lastPurgeAt ==
                  if !fits || now - s.lastPurgeAt >= EXPIRED_PURGE_INTERVAL_MS then now else s.lastPurgeAt
  {
    var key := op.key;
    var c := if op.overwrite then s else Checked(s, key, now);
    WithoutNothing(s.store, {});
    var drop := if c == s then {} else {key};
    WithoutValid(s.store, drop);
    ReleasedValid(c, key, now);
    var released := Released(c, key, now);
    ReleasedAreBeside(s, c, key, drop, now);
    SumBytesAgree(released.store.order, released.store.data, s.store.data);
    hide Minus, Beside, SumBytes, Distinct, Trimmed, ExpiredKeys, Checked, Released;
  }

  lemma ReleasedAreBeside<V>(s: State<V>, c: State<V>, key: string, drop: set<string>, now: real)
    requires s.store.Valid() && c.store == s.store.Without(drop) && drop <= ExpiredKeys(s.store, now) * {key}
    requires c.lastPurgeAt == s.lastPurgeAt
    ensures var released := Released(c, key, now);
            && released.store.order == Beside(s, key, now)
            && (forall k :: k in released.store.order ==>
                  k in released.store.data && k in s.store.data && released.store.data[k] == s.store.data[k])
            && released.lastPurgeAt ==
               if now - s.lastPurgeAt >= EXPIRED_PURGE_INTERVAL_MS then now else s.lastPurgeAt
  {
    hide Minus;
    var due := if now - c.lastPurgeAt < EXPIRED_PURGE_INTERVAL_MS then {} else ExpiredKeys(c.store, now);
    WithoutValid(s.store, drop);
    WithoutNothing(c.store, {});
    assert PurgeIfDue(c, now).store == c.store.Without(due);
    WithoutTwice(s.store, drop, due);
    WithoutTwice(s.store, drop + due, {key});
    WithoutValid(s.store, drop + due + {key});
    MinusSame(s.store.order, drop + due + {key},
              set k | k in s.store.data && (k == key || (now - s.lastPurgeAt >= EXPIRED_PURGE_INTERVAL_MS &&
                                                         !Alive(s.store, k, now))));
  }
}
