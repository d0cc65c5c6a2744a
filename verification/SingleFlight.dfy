/**
 `getOrSet` as a protocol: concurrent calls, interleaved at every await, share one
 computation per key. Values are opaque; the cache may change under the calls' feet.
 */
module SingleFlight {
  import opened Results

  type CallId = nat
  type CompId = nat
  type Value = int

  /** How far a compute-and-store promise has got. */
  datatype Progress =
    | Computing
    | Storing(value: Value)
    | Stored(value: Value)
    | Settled(outcome: Option<Value>)
      // nothing when it rejected

  datatype Computation = Computation(key: string, starter: CallId, forced: bool, progress: Progress)

  datatype Phase =
    | Started
    | Missed
    | Awaiting(comp: CompId)
    | Returned(value: Value, cached: bool, from: Option<CompId>)
    | Threw

  datatype Call = Call(key: string, forceRefresh: bool, phase: Phase)

  datatype System = System(
    cache: map<string, Value>,
    inFlight: map<string, CompId>,
    comps: map<CompId, Computation>,
    calls: map<CallId, Call>)

  datatype Action =
    | Begin(id: CallId, key: string, forceRefresh: bool)
    | Read(id: CallId)
    | JoinOrStart(id: CallId, comp: CompId)
    | FnReturns(comp: CompId, value: Value)
    | FnThrows(comp: CompId)
    | Write(comp: CompId)
    | StoreThrows(comp: CompId)
    | Settle(comp: CompId)
    | Wake(id: CallId)
    | Interfere(key: string, contents: Option<Value>)

  ghost predicate Enabled(s: System, a: Action) {
    match a
    case Begin(id, _, _) => id !in s.calls
    case Read(id) => id in s.calls && s.calls[id].phase.Started? && !s.calls[id].forceRefresh
    case JoinOrStart(id, c) =>
      && id in s.calls && c !in s.comps
      && (s.calls[id].phase.Missed? || (s.calls[id].phase.Started? && s.calls[id].forceRefresh))
    case FnReturns(c, _) => c in s.comps && s.comps[c].progress.Computing?
    case FnThrows(c) => c in s.comps && s.comps[c].progress.Computing?
    case Write(c) => c in s.comps && s.comps[c].progress.Storing?
    case StoreThrows(c) => c in s.comps && s.comps[c].progress.Storing?
    case Settle(c) => c in s.comps && s.comps[c].progress.Stored?
    case Wake(id) =>
      && id in s.calls && s.calls[id].phase.Awaiting?
      && s.calls[id].phase.comp in s.comps && s.comps[s.calls[id].phase.comp].progress.Settled?
    case Interfere(_, _) => true
  }

  ghost function Advance(s: System, c: CompId, p: Progress): System
    requires c in s.comps
  {
    s.(comps := s.comps[c := s.comps[c].(progress := p)])
  }

  ghost function Move(s: System, id: CallId, p: Phase): System
    requires id in s.calls
  {
    s.(calls := s.calls[id := s.calls[id].(phase := p)])
  }

  ghost function Next(s: System, a: Action): System
    requires Enabled(s, a)
  {
    match a
    case Begin(id, key, force) => s.(calls := s.calls[id := Call(key, force, Started)])
    case Read(id) =>
      var key := s.calls[id].key;
      Move(s, id, if key in s.cache then Returned(s.cache[key], true, None) else Missed)
    case JoinOrStart(id, c) =>
      var call := s.calls[id];
      if !call.forceRefresh && call.key in s.inFlight then Move(s, id, Awaiting(s.inFlight[call.key]))
      else
        var t := Move(s, id, Awaiting(c));
        t.(comps := s.comps[c := Computation(call.key, id, call.forceRefresh, Computing)],
           inFlight := s.inFlight[call.key := c])
    case FnReturns(c, value) => Advance(s, c, Storing(value))
    case FnThrows(c) => Advance(s, c, Settled(None))
    case Write(c) =>
      var comp := s.comps[c];
      Advance(s, c, Stored(comp.progress.value)).(cache := s.cache[comp.key := comp.progress.value])
    case StoreThrows(c) => Advance(s, c, Settled(None))
    case Settle(c) => Advance(s, c, Settled(Some(s.comps[c].progress.value)))
    case Wake(id) =>
      var call := s.calls[id];
      var c := call.phase.comp;
      var outcome := s.comps[c].progress.outcome;
      var t := Move(s, id, if outcome.Some? then Returned(outcome.value, false, Some(c)) else Threw);
      if s.comps[c].starter == id && call.key in s.inFlight && s.inFlight[call.key] == c
      then t.(inFlight := s.inFlight - {call.key}) else t
    case Interfere(key, value) =>
      s.(cache := if value.Some? then s.cache[key := value.value] else s.cache - {key})
  }

  ghost function After(actions: seq<Action>, s: System): Option<System>
    decreases |actions|
  {
    if actions == [] then Some(s)
    else if !Enabled(s, actions[0]) then None
    else After(actions[1..], Next(s, actions[0]))
  }

  const Idle := System(map[], map[], map[], map[])

  // ---------------------------------------------------------------------------
  // Invariants
  // ---------------------------------------------------------------------------

  /** The compute-and-store promises of `key` that have not settled. */
  ghost function Unsettled(s: System, key: string): set<CompId> {
    set c | c in s.comps && s.comps[c].key == key && !s.comps[c].progress.Settled?
  }

  /** Those started by a `forceRefresh` call, settled or not. */
  ghost function Forced(s: System, key: string): set<CompId> {
    set c | c in s.comps && s.comps[c].key == key && s.comps[c].forced
  }

  ghost function InFlight(s: System, key: string): set<CompId> {
    if key in s.inFlight then {s.inFlight[key]} else {}
  }

  ghost predicate Inv(s: System) {
    && (forall k :: k in s.inFlight ==> s.inFlight[k] in s.comps && s.comps[s.inFlight[k]].key == k)
    && (forall k :: |Unsettled(s, k) - InFlight(s, k)| <= |Forced(s, k)|)
    && (forall id :: id in s.calls ==> CallOk(s, s.calls[id]))
  }

  /** A call that awaits, or returned uncached, does so on a computation of its own key. */
  ghost predicate CallOk(s: System, call: Call) {
    match call.phase
    case Awaiting(c) => c in s.comps && s.comps[c].key == call.key
    case Returned(value, cached, comp) =>
      && (cached <==> comp.None?)
      && (comp.Some? ==> comp.value in s.comps && s.comps[comp.value].key == call.key &&
                         s.comps[comp.value].progress == Settled(Some(value)))
    case _ => true
  }

  lemma CompsStay(s: System, a: Action)
    requires Enabled(s, a)
    ensures var t := Next(s, a);
            forall c :: c in s.comps ==>
              && c in t.comps && t.comps[c].key == s.comps[c].key
              && (s.comps[c].progress.Settled? ==> t.comps[c].progress == s.comps[c].progress)
  {
  }

  /** A step that moves a call leaves it on a computation of its own key. */
  lemma CallsFollow(s: System, a: Action, id: CallId)
    requires Enabled(s, a) && Inv(s) && id in Next(s, a).calls
    ensures var t := Next(s, a);
            (id in s.calls && t.calls[id] == s.calls[id]) || CallOk(t, t.calls[id])
  {
    hide Unsettled, Forced, InFlight;
  }

  lemma InFlightFollows(s: System, a: Action)
    requires Enabled(s, a) && Inv(s)
    ensures var t := Next(s, a);
            forall k :: k in t.inFlight ==> t.inFlight[k] in t.comps && t.comps[t.inFlight[k]].key == k
  {
    hide Unsettled, Forced, InFlight, CallOk;
  }

  lemma NextKeepsCalls(s: System, a: Action)
    requires Enabled(s, a) && Inv(s)
    ensures var t := Next(s, a);
            && (forall k :: k in t.inFlight ==> t.inFlight[k] in t.comps && t.comps[t.inFlight[k]].key == k)
            && (forall id :: id in t.calls ==> CallOk(t, t.calls[id]))
  {
    hide Next, Enabled, Unsettled, Forced, InFlight;
    var t := Next(s, a);
    CompsStay(s, a);
    InFlightFollows(s, a);
    forall id | id in t.calls ensures CallOk(t, t.calls[id]) {
      CallsFollow(s, a, id);
    }
  }

  /** Starting a computation displaces at most the one in flight, and only when forced. */
  lemma StartCounts(s: System, id: CallId, c: CompId, k: string)
    requires Enabled(s, JoinOrStart(id, c)) && Inv(s)
    requires s.calls[id].forceRefresh || s.calls[id].key !in s.inFlight
    ensures var t := Next(s, JoinOrStart(id, c));
            |Unsettled(t, k) - InFlight(t, k)| <= |Forced(t, k)|
  {
    var t := Next(s, JoinOrStart(id, c));
    var call := s.calls[id];
    StartedSets(s, t, call.key, c, Computation(call.key, id, call.forceRefresh, Computing), k);
    var before, flying, forced := Unsettled(s, k), InFlight(s, k), Forced(s, k);
    assert |flying| <= 1 && (k !in s.inFlight ==> flying == {});
    hide Unsettled, Forced, Next, Enabled, CallOk, InFlight;
    if call.key == k {
      assert before + {c} - {c} == before;
      StartedCards(before, flying, forced, c, call.forceRefresh);
    }
  }

  lemma StartedCards(before: set<CompId>, flying: set<CompId>, forced: set<CompId>, c: CompId, isForced: bool)
    requires |before - flying| <= |forced| && |flying| <= 1 && c !in forced
    requires !isForced ==> flying == {}
    ensures |before| <= |if isForced then forced + {c} else forced|
  {
    if isForced {
      Fewer(before, (before - flying) + flying);
    } else {
      assert before - flying == before;
    }
  }

  lemma StartedSets(s: System, t: System, key: string, c: CompId, comp: Computation, k: string)
    requires c !in s.comps && comp.key == key && comp.progress.Computing?
    requires t.comps == s.comps[c := comp] && t.inFlight == s.inFlight[key := c]
    ensures c !in Unsettled(s, k) && c !in Forced(s, k)
    ensures Unsettled(t, k) == if key == k then Unsettled(s, k) + {c} else Unsettled(s, k)
    ensures Forced(t, k) == if key == k && comp.forced then Forced(s, k) + {c} else Forced(s, k)
    ensures InFlight(t, k) == if key == k then {c} else InFlight(s, k)
  {
  }

  lemma OthersOnlySettle(s: System, a: Action, k: string)
    requires Enabled(s, a)
    requires !(a.JoinOrStart? && (s.calls[a.id].forceRefresh || s.calls[a.id].key !in s.inFlight))
    ensures var t := Next(s, a);
            && t.comps.Keys == s.comps.Keys
            && (forall c :: c in s.comps ==>
                  && t.comps[c].key == s.comps[c].key && t.comps[c].forced == s.comps[c].forced
                  && (s.comps[c].progress.Settled? ==> t.comps[c].progress.Settled?))
            && (|| InFlight(t, k) == InFlight(s, k)
                || (k in s.inFlight && s.inFlight[k] in s.comps && s.comps[s.inFlight[k]].progress.Settled? &&
                    InFlight(t, k) == {}))
  {
  }

  /** Every other step only settles computations, or forgets one that has settled. */
  lemma OthersCount(s: System, a: Action, k: string)
    requires Enabled(s, a) && Inv(s)
    requires !(a.JoinOrStart? && (s.calls[a.id].forceRefresh || s.calls[a.id].key !in s.inFlight))
    ensures var t := Next(s, a);
            |Unsettled(t, k) - InFlight(t, k)| <= |Forced(t, k)|
  {
    var t := Next(s, a);
    OthersOnlySettle(s, a, k);
    hide Next, Enabled;
    assert Forced(t, k) == Forced(s, k);
    assert Unsettled(t, k) <= Unsettled(s, k);
    Fewer(Unsettled(t, k) - InFlight(t, k), Unsettled(s, k) - InFlight(s, k));
  }

  lemma Fewer<T>(a: set<T>, b: set<T>)
    requires a <= b
    ensures |a| <= |b|
  {
    assert b == a + (b - a);
  }

  lemma NextKeepsInv(s: System, a: Action)
    requires Enabled(s, a) && Inv(s)
    ensures Inv(Next(s, a))
  {
    hide Unsettled, InFlight, Forced, CallOk;
    NextKeepsCalls(s, a);
    forall k ensures |Unsettled(Next(s, a), k) - InFlight(Next(s, a), k)| <= |Forced(Next(s, a), k)| {
      if a.JoinOrStart? && (s.calls[a.id].forceRefresh || s.calls[a.id].key !in s.inFlight) {
        StartCounts(s, a.id, a.comp, k);
      } else {
        OthersCount(s, a, k);
      }
    }
  }

  lemma {:induction false} RunKeepsInv(actions: seq<Action>, s: System)
    requires Inv(s) && After(actions, s).Some?
    ensures Inv(After(actions, s).value)
    decreases |actions|
  {
    if actions != [] {
      NextKeepsInv(s, actions[0]);
      RunKeepsInv(actions[1..], Next(s, actions[0]));
    }
  }

  // ---------------------------------------------------------------------------
  // What every run guarantees
  // ---------------------------------------------------------------------------

  /** In every run, a key has at most one unsettled computation for each forced refresh, plus one. */
  lemma UnsettledAreFew(actions: seq<Action>, key: string)
    requires After(actions, Idle).Some?
    ensures var s := After(actions, Idle).value;
            |Unsettled(s, key)| <= |Forced(s, key)| + 1
  {
    RunKeepsInv(actions, Idle);
    var s := After(actions, Idle).value;
    Fewer(Unsettled(s, key), (Unsettled(s, key) - InFlight(s, key)) + InFlight(s, key));
  }

  /** Without `forceRefresh`, concurrent misses of a key never compute twice at once. */
  lemma SingleFlightPerKey(actions: seq<Action>, key: string)
    requires After(actions, Idle).Some?
    requires forall a :: a in actions && a.Begin? ==> !a.forceRefresh
    ensures var s := After(actions, Idle).value;
            |Unsettled(s, key)| <= 1 && Unsettled(s, key) <= InFlight(s, key)
  {
    RunKeepsInv(actions, Idle);
    NothingForced(actions, Idle);
    var s := After(actions, Idle).value;
    assert Forced(s, key) == {};
    var rest := Unsettled(s, key) - InFlight(s, key);
    assert rest == {};
    Fewer(Unsettled(s, key), InFlight(s, key));
  }

  lemma {:induction false} NothingForced(actions: seq<Action>, s: System)
    requires After(actions, s).Some?
    requires forall a :: a in actions && a.Begin? ==> !a.forceRefresh
    requires forall c :: c in s.comps ==> !s.comps[c].forced
    requires forall id :: id in s.calls ==> !s.calls[id].forceRefresh
    ensures forall c :: c in After(actions, s).value.comps ==> !After(actions, s).value.comps[c].forced
    decreases |actions|
  {
    if actions != [] {
      assert actions[0] in actions;
      NothingForced(actions[1..], Next(s, actions[0]));
    }
  }

  lemma StepThen(a: Action, rest: seq<Action>, s: System)
    requires Enabled(s, a)
    ensures After([a] + rest, s) == After(rest, Next(s, a))
  {
    assert ([a] + rest)[1..] == rest;
  }

  lemma NoStep(s: System)
    ensures After([], s) == Some(s)
  {
  }

  /** A plain call starts computing `key`, then a forced one starts computing it too. */
  ghost function PlainThenForced(key: string): seq<Action> {
    [Begin(0, key, false)] + ([Read(0)] + ([JoinOrStart(0, 0)] + ([Begin(1, key, true)] + ([JoinOrStart(1, 1)] + []))))
  }

  lemma PlainThenForcedRuns(key: string)
    ensures After(PlainThenForced(key), Idle).Some?
    ensures After(PlainThenForced(key), Idle).value.comps ==
            map[0 := Computation(key, 0, false, Computing), 1 := Computation(key, 1, true, Computing)]
  {
    hide After;
    var s1 := Next(Idle, Begin(0, key, false));
    var s2 := Next(s1, Read(0));
    var s3 := Next(s2, JoinOrStart(0, 0));
    var s4 := Next(s3, Begin(1, key, true));
    StepThen(JoinOrStart(1, 1), [], s4);
    StepThen(Begin(1, key, true), [JoinOrStart(1, 1)] + [], s3);
    var forced := [Begin(1, key, true)] + ([JoinOrStart(1, 1)] + []);
    StepThen(JoinOrStart(0, 0), forced, s2);
    StepThen(Read(0), [JoinOrStart(0, 0)] + forced, s1);
    StepThen(Begin(0, key, false), [Read(0)] + ([JoinOrStart(0, 0)] + forced), Idle);
    var s5 := Next(s4, JoinOrStart(1, 1));
    NoStep(s5);
  }

  /** With one forced refresh, two computations of a key can be under way at once. */
  lemma ForcedRefreshOverlaps(key: string)
    ensures exists actions ::
              && After(actions, Idle).Some?
              && |Unsettled(After(actions, Idle).value, key)| == 2
              && |Forced(After(actions, Idle).value, key)| == 1
  {
    hide After;
    PlainThenForcedRuns(key);
    var s := After(PlainThenForced(key), Idle).value;
    assert Unsettled(s, key) == {0, 1};
    assert Forced(s, key) == {1};
  }

  /** Whoever started the computation in flight for a key still waits for it. */
  ghost predicate StartersWait(s: System) {
    forall k :: k in s.inFlight && s.inFlight[k] in s.comps ==>
      var starter := s.comps[s.inFlight[k]].starter;
      starter in s.calls && s.calls[starter].phase == Awaiting(s.inFlight[k])
  }

  lemma NextKeepsStarters(s: System, a: Action)
    requires Enabled(s, a) && Inv(s) && StartersWait(s)
    ensures StartersWait(Next(s, a))
  {
    hide Unsettled, Forced, InFlight;
  }

  lemma {:induction false} RunKeepsStarters(actions: seq<Action>, s: System)
    requires Inv(s) && StartersWait(s) && After(actions, s).Some?
    ensures StartersWait(After(actions, s).value)
    decreases |actions|
  {
    if actions != [] {
      NextKeepsInv(s, actions[0]);
      NextKeepsStarters(s, actions[0]);
      RunKeepsStarters(actions[1..], Next(s, actions[0]));
    }
  }

  /**
   In every run the entry of a key names a computation of that key whose starter still waits
   for it, so nothing is in flight once nobody waits.
   */
  lemma NoEntryOutlivesItsStarter(actions: seq<Action>)
    requires After(actions, Idle).Some?
    ensures var s := After(actions, Idle).value;
            && (forall k :: k in s.inFlight ==>
                  && s.inFlight[k] in s.comps && s.comps[s.inFlight[k]].key == k
                  && var starter := s.comps[s.inFlight[k]].starter;
                     starter in s.calls && s.calls[starter].key == k &&
                     s.calls[starter].phase == Awaiting(s.inFlight[k]))
            && ((forall id :: id in s.calls ==> !s.calls[id].phase.Awaiting?) ==> s.inFlight == map[])
  {
    hide After;
    assert After(actions, Idle).Some?;
    RunKeepsInv(actions, Idle);
    RunKeepsStarters(actions, Idle);
    var s := After(actions, Idle).value;
    if forall id :: id in s.calls ==> !s.calls[id].phase.Awaiting? {
      assert s.inFlight.Keys == {};
    }
  }

  /**
   A caller that returns uncached returns what a computation of its own key produced: one it
   started, or the one in flight when it missed.
   */
  lemma UncachedResultsAreComputed(actions: seq<Action>, id: CallId)
    requires After(actions, Idle).Some?
    requires id in After(actions, Idle).value.calls
    requires var p := After(actions, Idle).value.calls[id].phase; p.Returned? && !p.cached
    ensures var s := After(actions, Idle).value;
            var from := s.calls[id].phase.from;
            && from.Some? && from.value in s.comps
            && s.comps[from.value].key == s.calls[id].key
            && s.comps[from.value].progress == Settled(Some(s.calls[id].phase.value))
            && FnReturns(from.value, s.calls[id].phase.value) in actions
            && Write(from.value) in actions
            && StartedOrShared(actions, Idle, id, from.value)
  {
    RunKeepsInv(actions, Idle);
    var s := After(actions, Idle).value;
    WaitsOnWhatItTook(actions, Idle, id, s.calls[id].phase.from.value);
    SettledWithFnResult(actions, Idle, s.calls[id].phase.from.value, s.calls[id].phase.value);
    SettledAfterWriting(actions, Idle, s.calls[id].phase.from.value);
  }

  /** The computation that `JoinOrStart` leaves a call waiting for. */
  ghost function Taken(s: System, id: CallId, own: CompId): CompId
    requires id in s.calls
  {
    var call := s.calls[id];
    if !call.forceRefresh && call.key in s.inFlight then s.inFlight[call.key] else own
  }

  /** At some step of the run the call started `c`, or found it in flight for its key. */
  ghost predicate StartedOrShared(actions: seq<Action>, s: System, id: CallId, c: CompId)
    requires After(actions, s).Some?
    decreases |actions|
  {
    && actions != []
    && (|| (actions[0].JoinOrStart? && actions[0].id == id && Taken(s, id, actions[0].comp) == c)
        || StartedOrShared(actions[1..], Next(s, actions[0]), id, c))
  }

  ghost predicate WaitsOn(s: System, id: CallId, c: CompId) {
    && id in s.calls
    && (s.calls[id].phase == Awaiting(c) || (s.calls[id].phase.Returned? && s.calls[id].phase.from == Some(c)))
  }

  lemma {:induction false} WaitsOnWhatItTook(actions: seq<Action>, s: System, id: CallId, c: CompId)
    requires After(actions, s).Some? && WaitsOn(After(actions, s).value, id, c)
    ensures WaitsOn(s, id, c) || StartedOrShared(actions, s, id, c)
    decreases |actions|
  {
    if actions != [] {
      WaitsOnWhatItTook(actions[1..], Next(s, actions[0]), id, c);
    }
  }

  /** What a computation settles with is what its own `fn` returned. */
  lemma {:induction false} SettledWithFnResult(actions: seq<Action>, s: System, c: CompId, value: Value)
    requires After(actions, s).Some? && c in After(actions, s).value.comps
    requires After(actions, s).value.comps[c].progress == Settled(Some(value))
    ensures FnReturns(c, value) in actions ||
            (c in s.comps && s.comps[c].progress in {Storing(value), Stored(value), Settled(Some(value))})
    decreases |actions|
  {
    if actions != [] {
      SettledWithFnResult(actions[1..], Next(s, actions[0]), c, value);
      assert forall a :: a in actions[1..] ==> a in actions;
      assert actions[0] in actions;
    }
  }

  // ---------------------------------------------------------------------------
  // What the cache answers
  // ---------------------------------------------------------------------------

  lemma {:induction false} LastStep(actions: seq<Action>, s: System)
    requires actions != [] && After(actions, s).Some?
    ensures var n := |actions| - 1;
            var before := After(actions[..n], s);
            before.Some? && Enabled(before.value, actions[n]) &&
            After(actions, s) == Some(Next(before.value, actions[n]))
    decreases |actions|
  {
    var n := |actions| - 1;
    if n == 0 {
      assert actions[..n] == [] && actions[1..] == [];
    } else {
      LastStep(actions[1..], Next(s, actions[0]));
      assert actions[..n][1..] == actions[1..][..n - 1];
    }
  }

  /** The state before action `i` of a run. */
  ghost predicate Before(actions: seq<Action>, i: nat, s: System) {
    i < |actions| && After(actions[..i], Idle) == Some(s)
  }

  lemma BeforeLater(actions: seq<Action>, n: nat, i: nat, s: System)
    requires n <= |actions| && Before(actions[..n], i, s)
    ensures Before(actions, i, s) && actions[..n][i] == actions[i]
  {
    assert actions[..n][..i] == actions[..i];
  }

  lemma ReadMoves(s: System, a: Action, id: CallId)
    requires Enabled(s, a) && id in Next(s, a).calls
    ensures var t := Next(s, a);
            var call := t.calls[id];
            && (call.phase.Returned? && call.phase.cached && !(id in s.calls && s.calls[id] == call) ==>
                  a == Read(id) && id in s.calls && call.key == s.calls[id].key && !call.forceRefresh &&
                  call.key in s.cache && s.cache[call.key] == call.phase.value)
            && (call.phase.Missed? && !(id in s.calls && s.calls[id] == call) ==>
                  a == Read(id) && id in s.calls && call.key == s.calls[id].key && call.key !in s.cache)
  {
  }

  /**
   A call answered from the cache, or left without an answer by it, read the cache at some
   step: what it returned is what its key held then, and it missed only because its key was absent.
   */
  lemma {:induction false} AnswersAreRead(actions: seq<Action>, id: CallId) returns (i: nat, s: System)
    requires After(actions, Idle).Some? && id in After(actions, Idle).value.calls
    requires var p := After(actions, Idle).value.calls[id].phase; p.Missed? || (p.Returned? && p.cached)
    ensures Before(actions, i, s) && actions[i] == Read(id)
    ensures var call := After(actions, Idle).value.calls[id];
            if call.phase.Missed? then call.key !in s.cache
            else !call.forceRefresh && call.key in s.cache && s.cache[call.key] == call.phase.value
  {
    var n := |actions| - 1;
    LastStep(actions, Idle);
    s := After(actions[..n], Idle).value;
    var call := After(actions, Idle).value.calls[id];
    ReadMoves(s, actions[n], id);
    hide Next, Enabled, After;
    if id in s.calls && s.calls[id] == call {
      i, s := AnswersAreRead(actions[..n], id);
      BeforeLater(actions, n, i, s);
    } else {
      i := n;
    }
  }

  /** The step decides what `key` holds: it writes the value of a computation of that key, or comes from elsewhere. */
  ghost predicate Decides(s: System, a: Action, key: string) {
    (a.Write? && a.comp in s.comps && s.comps[a.comp].key == key) || (a.Interfere? && a.key == key)
  }

  /** What the cache holds under `key` once such a step is done. */
  ghost predicate Leaves(s: System, a: Action, contents: Option<Value>) {
    match a
    case Write(c) => c in s.comps && contents.Some? && s.comps[c].progress == Storing(contents.value)
    case Interfere(_, value) => contents == value
    case _ => false
  }

  ghost function Held(s: System, key: string): Option<Value> {
    if key in s.cache then Some(s.cache[key]) else None
  }

  lemma CacheMoves(s: System, a: Action, key: string)
    requires Enabled(s, a)
    ensures if Decides(s, a, key) then Leaves(s, a, Held(Next(s, a), key)) else Held(Next(s, a), key) == Held(s, key)
  {
  }

  /**
   The cache holds under each key what the latest deciding step left there: the value of a
   computation of that key, which its `fn` returned, or what someone else put or removed.
   */
  lemma {:induction false} CacheHoldsTheLatest(actions: seq<Action>, key: string) returns (i: int, s: System)
    requires After(actions, Idle).Some?
    ensures -1 <= i < |actions|
    ensures i == -1 ==> Held(After(actions, Idle).value, key) == None
    ensures i >= 0 ==>
              && Before(actions, i, s) && Decides(s, actions[i], key)
              && Leaves(s, actions[i], Held(After(actions, Idle).value, key))
              && (actions[i].Write? ==> FnReturns(actions[i].comp, After(actions, Idle).value.cache[key]) in actions)
    ensures forall j, t :: i < j && Before(actions, j, t) ==> !Decides(t, actions[j], key)
  {
    var n := |actions| - 1;
    i, s := -1, Idle;
    if actions != [] {
      LastStep(actions, Idle);
      var front, before := actions[..n], After(actions[..n], Idle).value;
      CacheMoves(before, actions[n], key);
      hide Next, Enabled, Decides, Leaves;
      if Decides(before, actions[n], key) {
        i, s := n, before;
        if actions[n].Write? {
          StoringWhatFnReturned(front, actions[n].comp, before, actions[n], key);
        }
      } else {
        i, s := CacheHoldsTheLatest(front, key);
        if i >= 0 {
          BeforeLater(actions, n, i, s);
        }
        forall j, t | i < j && Before(actions, j, t) ensures !Decides(t, actions[j], key) {
          if j < n {
            assert front[..j] == actions[..j];
            assert Before(front, j, t);
          }
        }
      }
    }
  }

  lemma StoringWhatFnReturned(front: seq<Action>, c: CompId, s: System, a: Action, key: string)
    requires After(front, Idle) == Some(s) && Enabled(s, a) && a == Write(c) && Decides(s, a, key)
    ensures key in Next(s, a).cache && FnReturns(c, Next(s, a).cache[key]) in front
  {
    StoredWithFnResult(front, Idle, c, s.comps[c].progress.value);
  }

  /** What a computation is about to store, or has stored, is what its own `fn` returned. */
  lemma {:induction false} StoredWithFnResult(actions: seq<Action>, s: System, c: CompId, value: Value)
    requires After(actions, s).Some? && c in After(actions, s).value.comps
    requires After(actions, s).value.comps[c].progress in {Storing(value), Stored(value)}
    ensures FnReturns(c, value) in actions || (c in s.comps && s.comps[c].progress in {Storing(value), Stored(value)})
    decreases |actions|
  {
    if actions != [] {
      StoredWithFnResult(actions[1..], Next(s, actions[0]), c, value);
      assert forall a :: a in actions[1..] ==> a in actions;
      assert actions[0] in actions;
    }
  }

  ghost predicate Written(p: Progress) {
    p.Stored? || (p.Settled? && p.outcome.Some?)
  }

  /** A computation settles with a value only once it has written it to the cache. */
  lemma {:induction false} SettledAfterWriting(actions: seq<Action>, s: System, c: CompId)
    requires After(actions, s).Some? && c in After(actions, s).value.comps
    requires Written(After(actions, s).value.comps[c].progress)
    ensures Write(c) in actions || (c in s.comps && Written(s.comps[c].progress))
    decreases |actions|
  {
    if actions != [] {
      SettledAfterWriting(actions[1..], Next(s, actions[0]), c);
      assert forall a :: a in actions[1..] ==> a in actions;
      assert actions[0] in actions;
    }
  }

  /** And without one only by a failure. */
  lemma {:induction false} RejectedByFailing(actions: seq<Action>, s: System, c: CompId)
    requires After(actions, s).Some? && c in After(actions, s).value.comps
    requires After(actions, s).value.comps[c].progress == Settled(None)
    ensures FnThrows(c) in actions || StoreThrows(c) in actions ||
            (c in s.comps && s.comps[c].progress == Settled(None))
    decreases |actions|
  {
    if actions != [] {
      RejectedByFailing(actions[1..], Next(s, actions[0]), c);
      assert forall a :: a in actions[1..] ==> a in actions;
      assert actions[0] in actions;
    }
  }

  lemma ThrowMoves(s: System, a: Action, id: CallId) returns (c: CompId)
    requires Enabled(s, a) && id in Next(s, a).calls && Next(s, a).calls[id].phase.Threw?
    requires !(id in s.calls && s.calls[id] == Next(s, a).calls[id])
    ensures WaitsOn(s, id, c) && c in s.comps && s.comps[c].progress == Settled(None)
  {
    c := s.calls[id].phase.comp;
  }

  lemma {:induction false} SharedLater(actions: seq<Action>, n: nat, s: System, id: CallId, c: CompId)
    requires n <= |actions| && After(actions, s).Some? && After(actions[..n], s).Some?
    requires StartedOrShared(actions[..n], s, id, c)
    ensures StartedOrShared(actions, s, id, c)
    decreases |actions|
  {
    var front := actions[..n];
    assert n > 0 && front[0] == actions[0] && front[1..] == actions[1..][..n - 1];
    if !(actions[0].JoinOrStart? && actions[0].id == id && Taken(s, id, actions[0].comp) == c) {
      SharedLater(actions[1..], n - 1, Next(s, actions[0]), id, c);
    }
  }

  /** A call throws only when a computation it started or joined failed: its `fn` threw, or storing its value did. */
  lemma {:induction false} ThrownMeansFailed(actions: seq<Action>, id: CallId) returns (c: CompId)
    requires After(actions, Idle).Some? && id in After(actions, Idle).value.calls
    requires After(actions, Idle).value.calls[id].phase.Threw?
    ensures StartedOrShared(actions, Idle, id, c) && (FnThrows(c) in actions || StoreThrows(c) in actions)
  {
    var n := |actions| - 1;
    LastStep(actions, Idle);
    var front, before := actions[..n], After(actions[..n], Idle).value;
    if id in before.calls && before.calls[id] == After(actions, Idle).value.calls[id] {
      c := ThrownMeansFailed(front, id);
    } else {
      c := ThrowMoves(before, actions[n], id);
      WaitsOnWhatItTook(front, Idle, id, c);
      RejectedByFailing(front, Idle, c);
    }
    SharedLater(actions, n, Idle, id, c);
    assert forall a :: a in front ==> a in actions;
  }
}
