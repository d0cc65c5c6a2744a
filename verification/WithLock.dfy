/**
 `withLock` as a protocol: any number of calls, their heartbeats, sweeps, `clear()`, the
 clock and other holders of the same store, interleaved at every await.
 */
module WithLock {
  import opened LockStore
  import opened Results
  import opened Ttl

  type CallId = nat

  /** Where one call stands, between two awaits. */
  datatype Phase =
    | Waiting(triesLeft: nat)
      // about to try `store.acquire`
    | Inside(token: Token)
      // `fn` is running under the lease
    | Leaving(token: Token, failed: bool)
      // `fn` has settled and the heartbeat is cleared; `release` comes next
    | Reporting(token: Token, failed: bool, released: bool)
      // `release` has answered; the outcome is about to be decided
    | Returned(token: Token)
    | Threw

  /**
   One call. `lossSeen` is a failed renewal whose continuation has not run yet; `leaseLost`
   is the flag that continuation sets.
   */
  datatype Call = Call(key: string, ttl: Ttl, phase: Phase, lossSeen: bool, leaseLost: bool)

  datatype System = System(locks: Locks, calls: map<CallId, Call>, minted: Token, others: set<Token>, clock: real)

  datatype Action =
    | Begin(id: CallId, key: string, ttl: Ttl, attempts: nat)
    | TryAcquire(id: CallId)
    | Heartbeat(id: CallId)
    | NoticeLoss(id: CallId)
    | Settle(id: CallId, failed: bool)
    | Release(id: CallId)
    | Report(id: CallId)
    | OtherAcquire(key: string, ttl: Ttl)
    | OtherExtend(key: string, token: Token, ttl: Ttl)
    | OtherRelease(key: string, token: Token)
    | Sweep(now: real)
    | ClearAll
    | Tick(now: real)

  /** When an action can happen. Holders outside `withLock` use only tokens they were given. */
  ghost predicate Enabled(s: System, a: Action) {
    match a
    case Begin(id, _, ttl, _) => id !in s.calls && ValidTtl(ttl)
    case TryAcquire(id) => id in s.calls && s.calls[id].phase.Waiting?
    case Heartbeat(id) =>
      id in s.calls && s.calls[id].phase.Inside? && s.calls[id].ttl.Ms? && !s.calls[id].leaseLost
    case NoticeLoss(id) => id in s.calls && s.calls[id].lossSeen
    case Settle(id, _) => id in s.calls && s.calls[id].phase.Inside?
    case Release(id) => id in s.calls && s.calls[id].phase.Leaving?
    case Report(id) => id in s.calls && s.calls[id].phase.Reporting?
    case OtherAcquire(_, ttl) => ValidTtl(ttl)
    case OtherExtend(_, token, ttl) => token in s.others && ValidTtl(ttl)
    case OtherRelease(_, token) => token in s.others
    case Sweep(_) => true
    case ClearAll => true
    case Tick(now) => s.clock <= now
  }

  ghost function Next(s: System, a: Action): System
    requires Enabled(s, a)
  {
    match a
    case Begin(id, key, ttl, attempts) =>
      s.(calls := s.calls[id := Call(key, ttl, Waiting(attempts), false, false)])
    case TryAcquire(id) =>
      var c := s.calls[id];
      var (locks, got) := Attempted(s.locks, c.key, s.minted, c.ttl, s.clock);
      var phase := if got then Inside(s.minted)
                   else if c.phase.triesLeft > 0 then Waiting(c.phase.triesLeft - 1)
                   else Threw;
      s.(locks := locks, calls := s.calls[id := c.(phase := phase)], minted := s.minted + 1)
    case Heartbeat(id) =>
      var c := s.calls[id];
      var (locks, extended) := Extended(s.locks, c.key, c.phase.token, c.ttl, s.clock);
      s.(locks := locks, calls := s.calls[id := c.(lossSeen := c.lossSeen || !extended)])
    case NoticeLoss(id) =>
      s.(calls := s.calls[id := s.calls[id].(lossSeen := false, leaseLost := true)])
    case Settle(id, failed) =>
      var c := s.calls[id];
      s.(calls := s.calls[id := c.(phase := Leaving(c.phase.token, failed))])
    case Release(id) =>
      var c := s.calls[id];
      var (locks, released) := Released(s.locks, c.key, c.phase.token);
      s.(locks := locks, calls := s.calls[id := c.(phase := Reporting(c.phase.token, c.phase.failed, released))])
    case Report(id) =>
      var c := s.calls[id];
      var phase := if c.phase.failed || !c.phase.released || c.leaseLost then Threw else Returned(c.phase.token);
      s.(calls := s.calls[id := c.(phase := phase)])
    case OtherAcquire(key, ttl) =>
      s.(locks := Attempted(s.locks, key, s.minted, ttl, s.clock).0,
         others := s.others + {s.minted}, minted := s.minted + 1)
    case OtherExtend(key, token, ttl) =>
      s.(locks := Extended(s.locks, key, token, ttl, s.clock).0)
    case OtherRelease(key, token) =>
      s.(locks := Released(s.locks, key, token).0)
    case Sweep(now) => s.(locks := Swept(s.locks, now))
    case ClearAll => s.(locks := map[])
    case Tick(now) => s.(clock := now)
  }

  ghost predicate Initial(s: System) {
    s.locks == map[] && s.calls == map[] && s.others == {}
  }

  /** A run: the states it passes through and the action between each two. */
  datatype Run = Run(states: seq<System>, actions: seq<Action>)

  ghost predicate ValidRun(r: Run) {
    && |r.states| == |r.actions| + 1
    && Initial(r.states[0])
    && forall i :: 0 <= i < |r.actions| ==>
         Enabled(r.states[i], r.actions[i]) && r.states[i + 1] == Next(r.states[i], r.actions[i])
  }

  // ---------------------------------------------------------------------------
  // Invariants
  // ---------------------------------------------------------------------------

  ghost function TokenOf(c: Call): Option<Token> {
    match c.phase
    case Inside(t) => Some(t)
    case Leaving(t, _) => Some(t)
    case Reporting(t, _, _) => Some(t)
    case Returned(t) => Some(t)
    case _ => None
  }

  /** Every token in use was minted, and no two calls, nor a call and another holder, share one. */
  ghost predicate TokensUnique(s: System) {
    && (forall k :: k in s.locks ==> s.locks[k].token < s.minted)
    && (forall t :: t in s.others ==> t < s.minted)
    && (forall id :: id in s.calls && TokenOf(s.calls[id]).Some? ==>
          TokenOf(s.calls[id]).value < s.minted && TokenOf(s.calls[id]).value !in s.others)
    && (forall a, b :: a in s.calls && b in s.calls && a != b && TokenOf(s.calls[a]).Some? ==>
          TokenOf(s.calls[a]) != TokenOf(s.calls[b]))
  }

  lemma NextKeepsTokensUnique(s: System, a: Action)
    requires Enabled(s, a) && TokensUnique(s)
    ensures TokensUnique(Next(s, a))
  {
    var t := Next(s, a);
    MovesOneCall(s, a);
    hide Next, Enabled, TokenOf;
    assert TokensUnique(t);
  }

  /** A step gives at most one call a token, a fresh one, and otherwise leaves tokens where they are. */
  lemma MovesOneCall(s: System, a: Action)
    requires Enabled(s, a) && TokensUnique(s)
    ensures var t := Next(s, a);
            && s.minted <= t.minted
            && (forall k :: k in t.locks ==>
                  (k in s.locks && t.locks[k].token == s.locks[k].token) || t.locks[k].token < t.minted)
            && (forall o :: o in t.others ==> o in s.others || (a.OtherAcquire? && o == s.minted < t.minted))
            && (forall id :: id in t.calls && TokenOf(t.calls[id]).Some? ==>
                  || (id in s.calls && TokenOf(s.calls[id]) == TokenOf(t.calls[id]))
                  || (a == TryAcquire(id) && TokenOf(t.calls[id]) == Some(s.minted) && s.minted < t.minted))
  {
  }

  /** A token once lost is never regained: only a fresh one can enter the store. */
  lemma NoTokenComesBack(s: System, a: Action, key: string, token: Token)
    requires Enabled(s, a) && TokensUnique(s)
    requires token < s.minted && !Holds(s.locks, key, token)
    ensures !Holds(Next(s, a).locks, key, token)
  {
  }

  // ---------------------------------------------------------------------------
  // Over whole runs
  // ---------------------------------------------------------------------------

  lemma {:induction false} RunKeepsTokensUnique(r: Run, n: nat)
    requires ValidRun(r) && n < |r.states|
    ensures TokensUnique(r.states[n])
  {
    if n > 0 {
      RunKeepsTokensUnique(r, n - 1);
      NextKeepsTokensUnique(r.states[n - 1], r.actions[n - 1]);
    }
  }

  /** However the run goes on, a minted token that has lost its name never holds it again. */
  lemma {:induction false} LostForGood(r: Run, key: string, token: Token, m: nat, n: nat)
    requires ValidRun(r) && m <= n < |r.states|
    requires token < r.states[m].minted && !Holds(r.states[m].locks, key, token)
    ensures token < r.states[n].minted && !Holds(r.states[n].locks, key, token)
  {
    if m < n {
      LostForGood(r, key, token, m, n - 1);
      RunKeepsTokensUnique(r, n - 1);
      NoTokenComesBack(r.states[n - 1], r.actions[n - 1], key, token);
    }
  }

  /** At action `i`, call `id` got its token. */
  ghost predicate AcquiredAt(r: Run, id: CallId, i: nat, key: string, token: Token)
    requires ValidRun(r)
  {
    && i < |r.actions| && r.actions[i] == TryAcquire(id)
    && r.states[i + 1].calls[id].key == key && r.states[i + 1].calls[id].phase == Inside(token)
    && token == r.states[i].minted && Holds(r.states[i + 1].locks, key, token)
  }

  /** At action `j`, call `id` released `token`, and `held` says whether it still had it. */
  ghost predicate ReleasedAt(r: Run, id: CallId, j: nat, key: string, token: Token, held: bool)
    requires ValidRun(r)
  {
    && j < |r.actions| && r.actions[j] == Action.Release(id)
    && id in r.states[j].calls && r.states[j].calls[id].key == key && r.states[j].calls[id].phase.Leaving?
    && r.states[j].calls[id].phase.token == token
    && (held <==> Holds(r.states[j].locks, key, token))
  }

  /** What one step can do to a call. */
  lemma CallMoves(s: System, a: Action, id: CallId)
    requires Enabled(s, a) && id in s.calls
    ensures var t := Next(s, a);
            && id in t.calls && t.calls[id].key == s.calls[id].key
            && var was, key := s.calls[id].phase, s.calls[id].key;
               match t.calls[id].phase
               case Waiting(_) => was.Waiting?
               case Threw => true
               case Inside(token) =>
                 was == Inside(token) ||
                 (a == TryAcquire(id) && was.Waiting? && token == s.minted && Holds(t.locks, key, token))
               case Leaving(token, failed) =>
                 was == Leaving(token, failed) || (a == Settle(id, failed) && was == Inside(token))
               case Reporting(token, failed, released) =>
                 was == Reporting(token, failed, released) ||
                 (a == Action.Release(id) && was == Leaving(token, failed) &&
                  (released <==> Holds(s.locks, key, token)))
               case Returned(token) =>
                 was == Returned(token) || (a == Report(id) && was == Reporting(token, false, true))
  {
  }

  lemma NewCallWaits(s: System, a: Action, id: CallId)
    requires Enabled(s, a) && id !in s.calls && id in Next(s, a).calls
    ensures Next(s, a).calls[id].phase.Waiting?
  {
  }

  /** How a call got where it is: the acquisition behind its token, and the release behind its answer. */
  lemma {:induction false} HistoryOf(r: Run, id: CallId, n: nat) returns (i: nat, j: nat)
    requires ValidRun(r) && n < |r.states| && id in r.states[n].calls
    ensures var c := r.states[n].calls[id];
            match c.phase
            case Inside(t) => i < n && AcquiredAt(r, id, i, c.key, t)
            case Leaving(t, _) => i < n && AcquiredAt(r, id, i, c.key, t)
            case Reporting(t, _, released) =>
              i < j < n && AcquiredAt(r, id, i, c.key, t) && ReleasedAt(r, id, j, c.key, t, released)
            case Returned(t) => i < j < n && AcquiredAt(r, id, i, c.key, t) && ReleasedAt(r, id, j, c.key, t, true)
            case _ => true
  {
    var before, a := r.states[n - 1], r.actions[n - 1];
    assert Enabled(before, a) && r.states[n] == Next(before, a);
    if id !in before.calls {
      NewCallWaits(before, a, id);
      i, j := 0, 0;
    } else {
      CallMoves(before, a, id);
      hide Next, Enabled, Holds;
      i, j := HistoryOf(r, id, n - 1);
      if a == TryAcquire(id) {
        i := n - 1;
      } else if a == Action.Release(id) {
        j := n - 1;
      }
    }
  }

  /**
   A call that returned normally held its name, under its own token, in every state from its
   acquisition to its release: no expiry, sweep, `clear()` or other holder came between.
   */
  lemma NormalReturnHeldThroughout(r: Run, id: CallId, n: nat) returns (i: nat, j: nat)
    requires ValidRun(r) && n < |r.states| && id in r.states[n].calls && r.states[n].calls[id].phase.Returned?
    ensures var c := r.states[n].calls[id];
            && i < j < n
            && AcquiredAt(r, id, i, c.key, c.phase.token)
            && ReleasedAt(r, id, j, c.key, c.phase.token, true)
            && forall k :: i < k <= j ==> Holds(r.states[k].locks, c.key, c.phase.token)
  {
    i, j := HistoryOf(r, id, n);
    var c := r.states[n].calls[id];
    forall k | i < k <= j ensures Holds(r.states[k].locks, c.key, c.phase.token) {
      MintedGrows(r, i + 1, k);
      if !Holds(r.states[k].locks, c.key, c.phase.token) {
        LostForGood(r, c.key, c.phase.token, k, j);
        assert false;
      }
    }
  }

  lemma {:induction false} MintedGrows(r: Run, m: nat, n: nat)
    requires ValidRun(r) && m <= n < |r.states|
    ensures r.states[m].minted <= r.states[n].minted
  {
    if m < n {
      MintedGrows(r, m, n - 1);
    }
  }

  /** Two calls on one name that both return normally held it over disjoint stretches of the run. */
  lemma NormalReturnsExclude(r: Run, a: CallId, b: CallId, n: nat) returns (i1: nat, j1: nat, i2: nat, j2: nat)
    requires ValidRun(r) && n < |r.states| && a != b
    requires a in r.states[n].calls && r.states[n].calls[a].phase.Returned?
    requires b in r.states[n].calls && r.states[n].calls[b].phase.Returned?
    requires r.states[n].calls[a].key == r.states[n].calls[b].key
    ensures i1 < |r.actions| && j1 < |r.actions| && i2 < |r.actions| && j2 < |r.actions|
    ensures r.actions[i1] == TryAcquire(a) && r.actions[j1] == Action.Release(a)
    ensures r.actions[i2] == TryAcquire(b) && r.actions[j2] == Action.Release(b)
    ensures i1 < j1 < i2 < j2 || i2 < j2 < i1 < j1
  {
    i1, j1 := NormalReturnHeldThroughout(r, a, n);
    i2, j2 := NormalReturnHeldThroughout(r, b, n);
    RunKeepsTokensUnique(r, n);
    var k := if i1 < i2 then i2 + 1 else i1 + 1;
    assert !(i1 < k <= j1 && i2 < k <= j2);
  }

  /** Between acquisition and release: `fn` runs, or has settled. */
  ghost predicate InSection(c: Call) {
    c.phase.Inside? || c.phase.Leaving?
  }

  /** A lease lost before its release is never reported as success, whatever happens afterwards. */
  lemma {:induction false} LostLeaseNeverReturns(r: Run, id: CallId, m: nat, n: nat)
    requires ValidRun(r) && m <= n < |r.states|
    requires id in r.states[m].calls && InSection(r.states[m].calls[id])
    requires !Holds(r.states[m].locks, r.states[m].calls[id].key, r.states[m].calls[id].phase.token)
    ensures id in r.states[n].calls && !r.states[n].calls[id].phase.Returned?
    ensures var c, t := r.states[n].calls[id], r.states[m].calls[id].phase.token;
            && c.key == r.states[m].calls[id].key
            && (c.phase.Threw? || c.phase == Inside(t) || (c.phase.Leaving? && c.phase.token == t) ||
                (c.phase.Reporting? && !c.phase.released))
  {
    hide Next, Enabled, Holds;
    if m < n {
      var key, token := r.states[m].calls[id].key, r.states[m].calls[id].phase.token;
      LostLeaseNeverReturns(r, id, m, n - 1);
      HistoryToken(r, id, m);
      LostForGood(r, key, token, m, n - 1);
      var before, a := r.states[n - 1], r.actions[n - 1];
      assert Enabled(before, a) && r.states[n] == Next(before, a);
      CallMoves(before, a, id);
    }
  }

  lemma HistoryToken(r: Run, id: CallId, m: nat)
    requires ValidRun(r) && m < |r.states|
    requires id in r.states[m].calls && TokenOf(r.states[m].calls[id]).Some?
    ensures TokenOf(r.states[m].calls[id]).value < r.states[m].minted
  {
    RunKeepsTokensUnique(r, m);
  }

  // ---------------------------------------------------------------------------
  // Exclusion
  // ---------------------------------------------------------------------------

  /** What can take `token` off its name: its holder, a `clear()`, or a sweep once its deadline has come. */
  ghost predicate Ends(s: System, a: Action, key: string, token: Token)
    requires Enabled(s, a)
  {
    match a
    case Release(id) => s.calls[id].key == key && s.calls[id].phase.token == token
    case OtherRelease(name, t) => name == key && t == token
    case ClearAll => true
    case Sweep(now) => !Standing(s.locks, key, now)
    case TryAcquire(_) => !Standing(s.locks, key, s.clock)
    case OtherAcquire(_, _) => !Standing(s.locks, key, s.clock)
    case _ => false
  }

  /** A name changes hands in no other way: until its deadline nobody takes it from its holder. */
  lemma HeldUntilDeadline(s: System, a: Action, key: string, token: Token)
    requires Enabled(s, a) && TokensUnique(s) && Holds(s.locks, key, token)
    ensures !Holds(Next(s, a).locks, key, token) <==> Ends(s, a, key, token)
  {
    match a
    case TryAcquire(id) =>
      StandingRefuses(s.locks, s.calls[id].key, s.minted, s.calls[id].ttl, s.clock);
    case OtherAcquire(name, ttl) =>
      StandingRefuses(s.locks, name, s.minted, ttl, s.clock);
    case _ =>
  }

  /** An attempt on a standing lease gets nothing, and leaves that lease, deadline included, as it was. */
  lemma AttemptsRespectLeases(s: System, a: Action, key: string)
    requires Enabled(s, a) && (a.TryAcquire? || a.OtherAcquire?) && Standing(s.locks, key, s.clock)
    ensures key in Next(s, a).locks && Next(s, a).locks[key] == s.locks[key]
    ensures a.TryAcquire? && s.calls[a.id].key == key ==> !Next(s, a).calls[a.id].phase.Inside?
  {
    match a
    case TryAcquire(id) =>
      StandingRefuses(s.locks, s.calls[id].key, s.minted, s.calls[id].ttl, s.clock);
    case OtherAcquire(name, ttl) =>
      StandingRefuses(s.locks, name, s.minted, ttl, s.clock);
  }

  /** Over every run, no attempt changes the holder of a name, or its deadline, before that deadline. */
  lemma NoTakeoverBeforeDeadline(r: Run, i: nat, key: string)
    requires ValidRun(r) && i < |r.actions| && (r.actions[i].TryAcquire? || r.actions[i].OtherAcquire?)
    requires key in r.states[i].locks
    requires var due := r.states[i].locks[key].expiresAt; due.None? || r.states[i].clock < due.value
    ensures key in r.states[i + 1].locks && r.states[i + 1].locks[key] == r.states[i].locks[key]
  {
    AttemptsRespectLeases(r.states[i], r.actions[i], key);
  }

  /** Over every run, a token that leaves the store between two states does so by one of those actions. */
  lemma {:induction false} LostByAnEnding(r: Run, key: string, token: Token, m: nat, n: nat) returns (i: nat)
    requires ValidRun(r) && m <= n < |r.states|
    requires Holds(r.states[m].locks, key, token) && !Holds(r.states[n].locks, key, token)
    ensures m <= i < n && Enabled(r.states[i], r.actions[i])
    ensures Holds(r.states[i].locks, key, token) && Ends(r.states[i], r.actions[i], key, token)
  {
    hide Next, Enabled, Holds, Ends;
    if Holds(r.states[n - 1].locks, key, token) {
      i := n - 1;
      RunKeepsTokensUnique(r, i);
      HeldUntilDeadline(r.states[i], r.actions[i], key, token);
    } else {
      i := LostByAnEnding(r, key, token, m, n - 1);
    }
  }

  /** A lease that stays changes only by renewal, which moves its deadline to one TTL from now. */
  lemma OnlyRenewalsMoveDeadlines(s: System, a: Action, key: string, token: Token)
    requires Enabled(s, a) && TokensUnique(s)
    requires Holds(s.locks, key, token) && Holds(Next(s, a).locks, key, token)
    ensures Next(s, a).locks[key].expiresAt ==
            match a
            case Heartbeat(id) =>
              if s.calls[id].key == key && s.calls[id].phase.token == token then Some(s.clock + s.calls[id].ttl.ms)
              else s.locks[key].expiresAt
            case OtherExtend(name, t, ttl) =>
              if name != key || t != token then s.locks[key].expiresAt
              else if ttl.Ms? then Some(s.clock + ttl.ms) else None
            case _ => s.locks[key].expiresAt
  {
  }

  /** A renewal fails, for the call to notice, exactly when the lease is gone. */
  lemma HeartbeatsSeeLosses(s: System, id: CallId)
    requires Enabled(s, Heartbeat(id))
    ensures var c := s.calls[id];
            Next(s, Heartbeat(id)).calls[id] == c.(lossSeen := c.lossSeen || !Holds(s.locks, c.key, c.phase.token))
  {
  }

  /** A noticed loss aborts the call, and whatever its release says it ends by throwing. */
  lemma NoticedLossesThrow(s: System, id: CallId)
    ensures Enabled(s, NoticeLoss(id)) ==> Next(s, NoticeLoss(id)).calls[id].leaseLost
    ensures Enabled(s, Report(id)) && s.calls[id].leaseLost ==> Next(s, Report(id)).calls[id].phase.Threw?
  {
  }

  // ---------------------------------------------------------------------------
  // Retries
  // ---------------------------------------------------------------------------

  /** How many of the actions from `b` up to state `n` are tries of the call. */
  ghost function Tries(r: Run, id: CallId, b: nat, n: nat): nat
    requires ValidRun(r) && n < |r.states|
  {
    if n <= b then 0 else Tries(r, id, b, n - 1) + if r.actions[n - 1] == TryAcquire(id) then 1 else 0
  }

  /** From action `b` up to state `n`, every try of the call met a standing lease on its name. */
  ghost predicate AlwaysRefused(r: Run, id: CallId, key: string, b: nat, n: nat)
    requires ValidRun(r) && n < |r.states|
  {
    forall i :: b <= i < n && r.actions[i] == TryAcquire(id) ==> Standing(r.states[i].locks, key, r.states[i].clock)
  }

  /** A try that meets no standing lease takes the name; a failing one uses up a retry, or ends the call. */
  lemma TryMoves(s: System, id: CallId)
    requires Enabled(s, TryAcquire(id))
    ensures var c, t := s.calls[id], Next(s, TryAcquire(id));
            && t.calls.Keys == s.calls.Keys && t.calls[id].key == c.key
            && if !Standing(s.locks, c.key, s.clock) then
                 && t.calls[id].phase == Inside(s.minted)
                 && c.key in t.locks
                 && t.locks[c.key] == Lease(s.minted, if c.ttl.Ms? then Some(s.clock + c.ttl.ms) else None)
               else t.calls[id].phase == if c.phase.triesLeft > 0 then Waiting(c.phase.triesLeft - 1) else Threw
  {
    StandingRefuses(s.locks, s.calls[id].key, s.minted, s.calls[id].ttl, s.clock);
  }

  /** Nothing but its own tries moves a waiting call, or one that never got its lock. */
  lemma OthersLeaveWaiting(s: System, a: Action, id: CallId)
    requires Enabled(s, a) && id in s.calls && a != TryAcquire(id)
    ensures id in Next(s, a).calls && Next(s, a).calls[id].key == s.calls[id].key
    ensures s.calls[id].phase.Waiting? || s.calls[id].phase.Threw? ==> Next(s, a).calls[id].phase == s.calls[id].phase
    ensures Next(s, a).calls[id].phase.Waiting? ==> s.calls[id].phase.Waiting?
  {
  }

  /**
   A call begun with `attempts` retries tries at most once more often than that. As long as all
   its tries were refused it waits for the next one, and it gives up after exactly the last.
   */
  lemma {:induction false} RetriesAreCounted(r: Run, id: CallId, key: string, ttl: Ttl, attempts: nat, b: nat, n: nat)
    requires ValidRun(r) && b < n < |r.states| && r.actions[b] == Begin(id, key, ttl, attempts)
    ensures id in r.states[n].calls && r.states[n].calls[id].key == key
    ensures var tries, phase := Tries(r, id, b, n), r.states[n].calls[id].phase;
            && tries <= attempts + 1
            && if AlwaysRefused(r, id, key, b, n)
               then phase == if tries <= attempts then Waiting(attempts - tries) else Threw
               else !phase.Waiting?
  {
    hide Standing, Next, Enabled;
    var before, a := r.states[n - 1], r.actions[n - 1];
    assert Enabled(before, a) && r.states[n] == Next(before, a);
    if n == b + 1 {
      BegunWaits(before, id, key, ttl, attempts);
      assert Tries(r, id, b, b) == 0;
    } else {
      hide AlwaysRefused;
      RetriesAreCounted(r, id, key, ttl, attempts, b, n - 1);
      RefusedLater(r, id, key, b, n);
      if a == TryAcquire(id) {
        TriesWait(before, id);
        TryMoves(before, id);
      } else {
        OthersLeaveWaiting(before, a, id);
      }
    }
  }

  lemma BegunWaits(s: System, id: CallId, key: string, ttl: Ttl, attempts: nat)
    requires Enabled(s, Begin(id, key, ttl, attempts))
    ensures Next(s, Begin(id, key, ttl, attempts)).calls ==
            s.calls[id := Call(key, ttl, Waiting(attempts), false, false)]
  {
  }

  lemma TriesWait(s: System, id: CallId)
    requires Enabled(s, TryAcquire(id))
    ensures id in s.calls && s.calls[id].phase.Waiting?
  {
  }

  lemma RefusedLater(r: Run, id: CallId, key: string, b: nat, n: nat)
    requires ValidRun(r) && b < n < |r.states|
    ensures AlwaysRefused(r, id, key, b, n) <==>
            AlwaysRefused(r, id, key, b, n - 1) &&
            (r.actions[n - 1] == TryAcquire(id) ==> Standing(r.states[n - 1].locks, key, r.states[n - 1].clock))
  {
  }

  /** A call sees a loss, or is aborted for one, only when its token is out of the store for good. */
  lemma {:induction false} AbortsAreTrue(r: Run, id: CallId, n: nat)
    requires ValidRun(r) && n < |r.states| && id in r.states[n].calls
    requires r.states[n].calls[id].lossSeen || r.states[n].calls[id].leaseLost
    ensures var c := r.states[n].calls[id];
            c.phase.Threw? || (TokenOf(c).Some? && !Holds(r.states[n].locks, c.key, TokenOf(c).value))
  {
    hide Holds, Next, Enabled;
    var before, a := r.states[n - 1], r.actions[n - 1];
    assert Enabled(before, a) && r.states[n] == Next(before, a);
    FlaggedWasThere(before, a, id);
    FlagsMove(before, a, id);
    CallMoves(before, a, id);
    if before.calls[id].lossSeen || before.calls[id].leaseLost {
      AbortsAreTrue(r, id, n - 1);
    }
    if TokenOf(before.calls[id]).Some? {
      var key, token := before.calls[id].key, TokenOf(before.calls[id]).value;
      HistoryToken(r, id, n - 1);
      if !Holds(before.locks, key, token) {
        LostForGood(r, key, token, n - 1, n);
      }
    }
  }

  lemma FlaggedWasThere(s: System, a: Action, id: CallId)
    requires Enabled(s, a) && id in Next(s, a).calls
    requires Next(s, a).calls[id].lossSeen || Next(s, a).calls[id].leaseLost
    ensures id in s.calls
  {
  }

  // ---------------------------------------------------------------------------
  // A lease that is kept
  // ---------------------------------------------------------------------------

  /** Only a failed renewal, or noticing one, raises a flag of a call. */
  lemma FlagsMove(s: System, a: Action, id: CallId)
    requires Enabled(s, a) && id in s.calls && id in Next(s, a).calls
    ensures var c, d := s.calls[id], Next(s, a).calls[id];
            && (d.leaseLost ==> c.leaseLost || c.lossSeen)
            && (d.lossSeen ==> c.lossSeen || (c.phase.Inside? && !Holds(s.locks, c.key, c.phase.token)))
            && (d.phase.Threw? && !c.phase.Threw? && !c.phase.Waiting? ==>
                  c.phase.Reporting? && (c.phase.failed || !c.phase.released || c.leaseLost))
  {
  }

  lemma {:induction false} WaitingIsUnflagged(r: Run, id: CallId, n: nat)
    requires ValidRun(r) && n < |r.states| && id in r.states[n].calls && r.states[n].calls[id].phase.Waiting?
    ensures !r.states[n].calls[id].lossSeen && !r.states[n].calls[id].leaseLost
  {
    if n > 0 && id in r.states[n - 1].calls {
      CallMoves(r.states[n - 1], r.actions[n - 1], id);
      FlagsMove(r.states[n - 1], r.actions[n - 1], id);
      WaitingIsUnflagged(r, id, n - 1);
    }
  }

  /** From action `i` up to state `n`, the call had its token in the store whenever it was in its section. */
  ghost predicate HeldInSection(r: Run, id: CallId, i: nat, n: nat, token: Token)
    requires ValidRun(r) && n < |r.states|
  {
    forall k :: i < k <= n && id in r.states[k].calls && InSection(r.states[k].calls[id]) ==>
      Holds(r.states[k].locks, r.states[k].calls[id].key, token)
  }

  /** Between action `i` and state `n`, the call's own `fn` failed. */
  ghost predicate FnFailed(r: Run, id: CallId, i: nat, n: nat)
    requires ValidRun(r) && n < |r.states|
  {
    exists j :: i < j < n && r.actions[j] == Settle(id, true)
  }

  /** The call holds `token`, or held it until it ended, has seen no loss, and only a failing `fn` can make it throw. */
  ghost predicate NoLoss(c: Call, key: string, token: Token, fnFailed: bool) {
    && c.key == key && !c.lossSeen && !c.leaseLost
    && match c.phase
       case Waiting(_) => false
       case Inside(t) => t == token
       case Leaving(t, failed) => t == token && (failed ==> fnFailed)
       case Reporting(t, failed, released) => t == token && released && (failed ==> fnFailed)
       case Returned(t) => t == token
       case Threw => fnFailed
  }

  lemma HeldStepIsNoLoss(s: System, a: Action, id: CallId, key: string, token: Token, fnFailed: bool)
    requires Enabled(s, a) && id in s.calls && NoLoss(s.calls[id], key, token, fnFailed)
    requires InSection(s.calls[id]) ==> Holds(s.locks, key, token)
    ensures id in Next(s, a).calls && NoLoss(Next(s, a).calls[id], key, token, fnFailed || a == Settle(id, true))
  {
    CallMoves(s, a, id);
    FlagsMove(s, a, id);
    hide Next, Enabled, Holds;
  }

  lemma ShownNoLoss(c: Call, key: string, token: Token, fnFailed: bool)
    requires NoLoss(c, key, token, fnFailed)
    ensures c.key == key
  {
  }

  lemma FailedLater(r: Run, id: CallId, i: nat, n: nat)
    requires ValidRun(r) && i < n - 1 < n < |r.states|
    ensures FnFailed(r, id, i, n) <==> FnFailed(r, id, i, n - 1) || r.actions[n - 1] == Settle(id, true)
  {
  }

  lemma AcquiredUnflagged(r: Run, id: CallId, i: nat, key: string, token: Token)
    requires ValidRun(r) && AcquiredAt(r, id, i, key, token)
    ensures id in r.states[i + 1].calls && NoLoss(r.states[i + 1].calls[id], key, token, FnFailed(r, id, i, i + 1))
  {
    assert Enabled(r.states[i], r.actions[i]) && r.states[i + 1] == Next(r.states[i], r.actions[i]);
    WaitingIsUnflagged(r, id, i);
    hide Holds, FnFailed;
  }

  /**
   While its lease is kept, a call sees no loss, its abort signal stays silent, its release
   succeeds, and nothing but its own `fn` makes it throw.
   */
  lemma {:induction false} KeptLeaseIsNoLoss(r: Run, id: CallId, i: nat, n: nat, key: string, token: Token)
    requires ValidRun(r) && i < n < |r.states| && AcquiredAt(r, id, i, key, token)
    requires HeldInSection(r, id, i, n, token)
    ensures id in r.states[n].calls && NoLoss(r.states[n].calls[id], key, token, FnFailed(r, id, i, n))
  {
    hide Next, Enabled, Holds, NoLoss, FnFailed;
    if n == i + 1 {
      AcquiredUnflagged(r, id, i, key, token);
    } else {
      KeptLeaseIsNoLoss(r, id, i, n - 1, key, token);
      ShownNoLoss(r.states[n - 1].calls[id], key, token, FnFailed(r, id, i, n - 1));
      HeldStepIsNoLoss(r.states[n - 1], r.actions[n - 1], id, key, token, FnFailed(r, id, i, n - 1));
      FailedLater(r, id, i, n);
    }
  }

  /** A failing `fn` decides the call against a normal return. */
  lemma {:induction false} FailureNeverReturns(r: Run, id: CallId, j: nat, n: nat)
    requires ValidRun(r) && j < n < |r.states| && r.actions[j] == Settle(id, true)
    ensures id in r.states[n].calls
    ensures var c := r.states[n].calls[id];
            c.phase.Threw? || ((c.phase.Leaving? || c.phase.Reporting?) && c.phase.failed)
  {
    if j < n - 1 {
      FailureNeverReturns(r, id, j, n - 1);
      CallMoves(r.states[n - 1], r.actions[n - 1], id);
      hide Next, Enabled;
    }
  }

  /**
   A call that acquired its lock and has ended returned normally if and only if it held its
   lease in every state of its section and its `fn` did not fail.
   */
  lemma ReturnsExactly(r: Run, id: CallId, i: nat, n: nat, key: string, token: Token)
    requires ValidRun(r) && i < n < |r.states| && AcquiredAt(r, id, i, key, token)
    requires id in r.states[n].calls && (r.states[n].calls[id].phase.Returned? || r.states[n].calls[id].phase.Threw?)
    ensures r.states[n].calls[id].phase.Returned? <==>
            HeldInSection(r, id, i, n, token) && !FnFailed(r, id, i, n)
  {
    if r.states[n].calls[id].phase.Returned? {
      forall k | i < k <= n && id in r.states[k].calls && InSection(r.states[k].calls[id])
        ensures Holds(r.states[k].locks, r.states[k].calls[id].key, token)
      {
        TokenStays(r, id, i, k, key, token);
        if !Holds(r.states[k].locks, r.states[k].calls[id].key, token) {
          LostLeaseNeverReturns(r, id, k, n);
        }
      }
      if FnFailed(r, id, i, n) {
        var j :| i < j < n && r.actions[j] == Settle(id, true);
        FailureNeverReturns(r, id, j, n);
      }
    } else if HeldInSection(r, id, i, n, token) {
      KeptLeaseIsNoLoss(r, id, i, n, key, token);
    }
  }

  /** A call keeps its name, and the token it acquired for as long as it has one. */
  lemma {:induction false} TokenStays(r: Run, id: CallId, i: nat, n: nat, key: string, token: Token)
    requires ValidRun(r) && i < n < |r.states| && AcquiredAt(r, id, i, key, token)
    ensures id in r.states[n].calls && r.states[n].calls[id].key == key
    ensures r.states[n].calls[id].phase.Threw? || TokenOf(r.states[n].calls[id]) == Some(token)
  {
    hide Next, Enabled, Holds;
    AcquiredUnflagged(r, id, i, key, token);
    if i + 1 < n {
      TokenStays(r, id, i, n - 1, key, token);
      TokenStep(r.states[n - 1], r.actions[n - 1], id, token);
    }
  }

  lemma TokenStep(s: System, a: Action, id: CallId, token: Token)
    requires Enabled(s, a) && id in s.calls
    requires s.calls[id].phase.Threw? || TokenOf(s.calls[id]) == Some(token)
    ensures var t := Next(s, a);
            && id in t.calls && t.calls[id].key == s.calls[id].key
            && (t.calls[id].phase.Threw? || TokenOf(t.calls[id]) == Some(token))
  {
    hide Holds;
  }
}
