/** The in-process lock store: one lease per scoped name, identified by a fencing token. */
module LockStore {
  import opened Results
  import opened Ttl

  const LOCK_SCOPE_SEPARATOR := '\0'

  /** Fencing tokens; the host mints a fresh one for every attempt. */
  type Token = nat

  datatype Lease = Lease(token: Token, expiresAt: Option<real>) {
    predicate Expired(now: real) {
      expiresAt.Some? && now >= expiresAt.value
    }
  }

  type Locks = map<string, Lease>

  function LeaseFor(token: Token, ttl: Ttl, now: real): Lease {
    Lease(token, Deadline(ttl, now))
  }

  function ScopedLockKey(key: string, namespace: Option<string>): string {
    if namespace.Some? then namespace.value + [LOCK_SCOPE_SEPARATOR] + key else key
  }

  /** No separator-free name, in whatever scope, shares a map key with `key` in any scope unless it is the same pair. */
  ghost predicate NeverContends(key: string) {
    forall scope: Option<string>, other: string, otherScope: Option<string> ::
      LOCK_SCOPE_SEPARATOR !in other && ScopedLockKey(key, scope) == ScopedLockKey(other, otherScope) ==>
        key == other && scope == otherScope
  }

  lemma LockNamesApart(key1: string, scope1: Option<string>, key2: string, scope2: Option<string>)
    requires LOCK_SCOPE_SEPARATOR !in key1 && LOCK_SCOPE_SEPARATOR !in key2
    requires ScopedLockKey(key1, scope1) == ScopedLockKey(key2, scope2)
    ensures key1 == key2 && scope1 == scope2
  {
    var s := ScopedLockKey(key1, scope1);
    if scope1.Some? && scope2.Some? {
      var n1, n2 := |scope1.value|, |scope2.value|;
      assert forall i :: n1 < i < |s| ==> s[i] == key1[i - n1 - 1];
      assert forall i :: n2 < i < |s| ==> s[i] == key2[i - n2 - 1];
      assert s[n1] == s[n2] == LOCK_SCOPE_SEPARATOR;
      assert scope1.value == s[..n1] == s[..n2] == scope2.value;
      assert key1 == s[n1 + 1..] == s[n2 + 1..] == key2;
    }
    assert scope1.Some? ==> ScopedLockKey(key1, scope1)[|scope1.value|] == LOCK_SCOPE_SEPARATOR;
    assert scope2.Some? ==> ScopedLockKey(key2, scope2)[|scope2.value|] == LOCK_SCOPE_SEPARATOR;
  }

  /** An unscoped name holding the separator is another name in the scope written before it. */
  lemma LockNamesCanCollide(scope: string, key: string)
    ensures ScopedLockKey(scope + [LOCK_SCOPE_SEPARATOR] + key, None) == ScopedLockKey(key, Some(scope))
  {
  }

  lemma {:induction false} LastSeparator(key: string) returns (scope: string, name: string)
    requires LOCK_SCOPE_SEPARATOR in key
    ensures key == scope + [LOCK_SCOPE_SEPARATOR] + name && LOCK_SCOPE_SEPARATOR !in name
  {
    var n := |key| - 1;
    if key[n] == LOCK_SCOPE_SEPARATOR {
      scope, name := key[..n], "";
    } else {
      scope, name := LastSeparator(key[..n]);
      name := name + [key[n]];
    }
  }

  /** A name is safe from the names of other scopes exactly when it does not hold the separator. */
  lemma NeverContendsExactly(key: string)
    ensures NeverContends(key) <==> LOCK_SCOPE_SEPARATOR !in key
  {
    if LOCK_SCOPE_SEPARATOR in key {
      var scope, name := LastSeparator(key);
      LockNamesCanCollide(scope, name);
      assert ScopedLockKey(key, None) == ScopedLockKey(name, Some(scope));
    } else {
      forall scope: Option<string>, other: string, otherScope: Option<string> |
        LOCK_SCOPE_SEPARATOR !in other && ScopedLockKey(key, scope) == ScopedLockKey(other, otherScope)
        ensures key == other && scope == otherScope
      {
        LockNamesApart(key, scope, other, otherScope);
      }
    }
  }

  ghost predicate Holds(locks: Locks, key: string, token: Token) {
    key in locks && locks[key].token == token
  }

  function Swept(locks: Locks, now: real): Locks {
    map k | k in locks && !locks[k].Expired(now) :: locks[k]
  }

  /** An attempt sweeps first, then takes the name if it is free. */
  function Attempted(locks: Locks, key: string, token: Token, ttl: Ttl, now: real): (Locks, bool) {
    var swept := Swept(locks, now);
    if key in swept then (swept, false) else (swept[key := LeaseFor(token, ttl, now)], true)
  }

  function Released(locks: Locks, key: string, token: Token): (Locks, bool) {
    if key in locks && locks[key].token == token then (locks - {key}, true) else (locks, false)
  }

  function Extended(locks: Locks, key: string, token: Token, ttl: Ttl, now: real): (Locks, bool) {
    if key in locks && locks[key].token == token then (locks[key := LeaseFor(token, ttl, now)], true)
    else (locks, false)
  }

  /** A lease stands up to its deadline, that instant excluded, or for good when it has none. */
  ghost predicate Standing(locks: Locks, name: string, now: real) {
    name in locks && (locks[name].expiresAt.None? || now < locks[name].expiresAt.value)
  }

  /** Every lease of `after` other than `name`'s is one of `before` that still stands. */
  ghost predicate OthersStand(before: Locks, after: Locks, name: string, now: real) {
    forall n :: n != name ==> (n in after <==> Standing(before, n, now)) && (n in after ==> after[n] == before[n])
  }

  /** A standing lease refuses every taker and stays as it was; nothing else does. */
  lemma StandingRefuses(locks: Locks, name: string, token: Token, ttl: Ttl, now: real)
    ensures var (after, got) := Attempted(locks, name, token, ttl, now);
            && (got <==> !Standing(locks, name, now))
            && name in after
            && after[name] == (if got then Lease(token, if ttl.Ms? then Some(now + ttl.ms) else None) else locks[name])
            && OthersStand(locks, after, name, now)
  {
    var swept := Swept(locks, now);
    assert forall n :: n in swept <==> Standing(locks, n, now);
  }

  class InMemoryLockStore {
    var locks: Locks

    constructor ()
      ensures locks == map[]
    {
      locks := map[];
    }

    /** Answers whether the name was free; the caller then owns `token`. */
    method Acquire(key: string, namespace: Option<string>, ttl: Ttl, token: Token,
        now: real) returns (r: Result<bool>)
      modifies this
      ensures r == if ValidTtl(ttl) then Ok(Attempted(old(locks), ScopedLockKey(key, namespace), token, ttl, now).1)
                   else Err(InvalidTtl)
      ensures locks == if ValidTtl(ttl) then Attempted(old(locks), ScopedLockKey(key, namespace), token, ttl, now).0
                       else old(locks)
      ensures r.Err? <==> ttl.Ms? && (ttl.ms < MIN_TTL_MS || ttl.ms > MAX_TTL_MS)
      ensures r.Ok? ==>
                var name := ScopedLockKey(key, namespace);
                && (r.value <==> !Standing(old(locks), name, now))
                && name in locks
                && locks[name] == (if r.value then Lease(token, if ttl.Ms? then Some(now + ttl.ms) else None)
                                   else old(locks)[name])
                && OthersStand(old(locks), locks, name, now)
    {
      StandingRefuses(locks, ScopedLockKey(key, namespace), token, ttl, now);
      if ttl.Ms? && (ttl.ms < MIN_TTL_MS || ttl.ms > MAX_TTL_MS) {
        return Err(InvalidTtl);
      }
      var expiresAt := if ttl.Ms? then Some(now + ttl.ms) else None;
      var scoped := ScopedLockKey(key, namespace);
      SweepExpired(now);
      if scoped in locks {
        return Ok(false);
      }
      locks := locks[scoped := Lease(token, expiresAt)];
      return Ok(true);
    }

    method Release(scoped: string, token: Token) returns (released: bool)
      modifies this
      ensures (locks, released) == Released(old(locks), scoped, token)
      ensures released <==> scoped in old(locks) && old(locks)[scoped].token == token
      ensures locks == if released then old(locks) - {scoped} else old(locks)
    {
      if scoped in locks && locks[scoped].token == token {
        locks := locks - {scoped};
        return true;
      }
      return false;
    }

    method Extend(scoped: string, token: Token, ttl: Ttl, now: real) returns (r: Result<bool>)
      modifies this
      ensures r == if ValidTtl(ttl) then Ok(Extended(old(locks), scoped, token, ttl, now).1) else Err(InvalidTtl)
      ensures locks == if ValidTtl(ttl) then Extended(old(locks), scoped, token, ttl, now).0 else old(locks)
      ensures r.Err? <==> ttl.Ms? && (ttl.ms < MIN_TTL_MS || ttl.ms > MAX_TTL_MS)
      ensures r.Ok? ==> (r.value <==> scoped in old(locks) && old(locks)[scoped].token == token)
      ensures locks == if r == Ok(true)
                       then old(locks)[scoped := Lease(token, if ttl.Ms? then Some(now + ttl.ms) else None)]
                       else old(locks)
    {
      if ttl.Ms? && (ttl.ms < MIN_TTL_MS || ttl.ms > MAX_TTL_MS) {
        return Err(InvalidTtl);
      }
      if scoped in locks {
        var current := locks[scoped];
        if current.token == token {
          locks := locks[scoped := current.(expiresAt := if ttl.Ms? then Some(now + ttl.ms) else None)];
          return Ok(true);
        }
      }
      return Ok(false);
    }

    method SweepExpired(now: real)
      modifies this
      ensures locks == Swept(old(locks), now)
      ensures forall n :: (n in locks <==> Standing(old(locks), n, now)) && (n in locks ==> locks[n] == old(locks)[n])
    {
      var rest := locks.Keys;
      while rest != {}
        invariant rest <= old(locks).Keys
        invariant locks == map k | k in old(locks) && (k in rest || !old(locks)[k].Expired(now)) :: old(locks)[k]
        decreases rest
      {
        var key :| key in rest;
        if locks[key].Expired(now) {
          locks := locks - {key};
        }
        rest := rest - {key};
      }
    }

    method Clear()
      modifies this
      ensures locks == map[]
    {
      locks := map[];
    }
  }

  /** What one try of `store.acquire` can come to; `truthy` says whether the rejection value counts as true. */
  datatype Try = Got(token: Token) | Busy | Failed(truthy: bool)

  datatype Acquisition = Locked(token: Token) | Contended | StoreFailed

  /**
   The retry loop of the lock manager, against the answers a store would give to successive
   tries. The first success wins; otherwise only the last try decides between contention
   and failure, and a rejection with a falsy value passes for contention.
   */
  method AcquireWithRetries(tries: seq<Try>, attempts: int) returns (r: Acquisition, used: nat)
    requires attempts < |tries|
    ensures used <= |tries| && used <= (if attempts < 0 then 0 else attempts + 1)
    ensures forall i :: 0 <= i < used - 1 ==> !tries[i].Got?
    ensures r.Locked? ==> used > 0 && tries[used - 1] == Got(r.token)
    ensures !r.Locked? ==> used == (if attempts < 0 then 0 else attempts + 1) && (used > 0 ==> !tries[used - 1].Got?)
    ensures r.StoreFailed? <==> used > 0 && tries[used - 1] == Failed(true)
  {
    var lastError := false;
    var attempt := 0;
    while attempt <= attempts
      invariant 0 <= attempt <= (if attempts < 0 then 0 else attempts + 1)
      invariant forall i :: 0 <= i < attempt ==> !tries[i].Got?
      invariant lastError <==> attempt > 0 && tries[attempt - 1] == Failed(true)
    {
      if tries[attempt].Failed? {
        lastError := tries[attempt].truthy;
      } else {
        lastError := false;
        if tries[attempt].Got? {
          return Locked(tries[attempt].token), attempt + 1;
        }
      }
      attempt := attempt + 1;
    }
    used := attempt;
    r := if lastError then StoreFailed else Contended;
  }
}
