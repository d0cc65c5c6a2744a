/** Whether a flag's prerequisites are on: a memoised walk that keeps its path to survive cycles. */
module FeatureFlags {
  import opened Results

  datatype State = Active | Disabled | Draft | Archived

  /** A served value, as far as "on" and "off" go. */
  datatype Value = False | Null | Undefined | Other(text: string)

  datatype Reason = IsDisabled | IsExpired | DependencyDisabled | NotFound | Failed | Default | RuleMatch

  datatype Evaluation = Evaluation(value: Value, reason: Reason)

  /**
   A flag seen from one context at one instant: `expired`, `matched` and `live` are what its
   expiry date and its rules come to there.
   */
  datatype Flag = Flag(
    enabled: bool, state: State, expired: bool, dependencies: seq<string>, offValue: Value, matched: bool, live: Value)

  type Registry = map<string, Flag>

  /** The gates come first, in order; only a flag past all of them runs its rules. */
  function EvaluateFlag(flag: Flag, dependenciesSatisfied: bool): Evaluation {
    if !flag.enabled || flag.state.Disabled? || flag.state.Draft? then Evaluation(flag.offValue, IsDisabled)
    else if flag.state.Archived? || flag.expired then Evaluation(flag.offValue, IsExpired)
    else if |flag.dependencies| > 0 && !dependenciesSatisfied then Evaluation(flag.offValue, DependencyDisabled)
    else Evaluation(flag.live, if flag.matched then RuleMatch else Default)
  }

  predicate IsDependencyOn(e: Evaluation) {
    e.reason in {Default, RuleMatch} && e.value.Other?
  }

  /** Neither switched off nor archived nor expired, and its live value counts as on. */
  ghost predicate LiveOn(flag: Flag) {
    flag.enabled && flag.state.Active? && !flag.expired && flag.live.Other?
  }

  /**
   What a flag serves, by its own fields: each reason has its exact condition, and the off value
   is served with the reasons of the gates only. `blocked` when some prerequisite is not on.
   */
  ghost predicate Serves(flag: Flag, blocked: bool, e: Evaluation) {
    var open := flag.enabled && flag.state.Active? && !flag.expired;
    && (e.reason == IsDisabled <==> !flag.enabled || flag.state.Disabled? || flag.state.Draft?)
    && (e.reason == IsExpired <==> flag.enabled && (flag.state.Archived? || (flag.state.Active? && flag.expired)))
    && (e.reason == DependencyDisabled <==> open && blocked)
    && (e.reason == RuleMatch <==> open && !blocked && flag.matched)
    && (e.reason == Default <==> open && !blocked && !flag.matched)
    && e.value == if open && !blocked then flag.live else flag.offValue
  }

  lemma EvaluatesExactly(flag: Flag, satisfied: bool)
    ensures Serves(flag, flag.dependencies != [] && !satisfied, EvaluateFlag(flag, satisfied))
  {
  }

  // ---------------------------------------------------------------------------
  // What "on" means
  // ---------------------------------------------------------------------------

  /** On, with every chain of prerequisites ending within `n` steps. */
  ghost predicate OnWithin(r: Registry, key: string, n: nat)
    decreases n
  {
    && n > 0 && key in r && LiveOn(r[key])
    && forall d :: d in r[key].dependencies ==> OnWithin(r, d, n - 1)
  }

  /** The least fixed point: the flag exists, evaluates on, and all its prerequisites are on. */
  ghost predicate On(r: Registry, key: string) {
    exists n: nat :: OnWithin(r, key, n)
  }

  ghost predicate AllOn(r: Registry, keys: seq<string>) {
    forall d :: d in keys ==> On(r, d)
  }

  lemma {:induction false} OnWithinGrows(r: Registry, key: string, m: nat, n: nat)
    requires m <= n && OnWithin(r, key, m)
    ensures OnWithin(r, key, n)
    decreases m
  {
    forall d | d in r[key].dependencies ensures OnWithin(r, d, n - 1) {
      OnWithinGrows(r, d, m - 1, n - 1);
    }
  }

  lemma {:induction false} CommonBound(r: Registry, keys: seq<string>) returns (n: nat)
    requires AllOn(r, keys)
    ensures forall d :: d in keys ==> OnWithin(r, d, n)
  {
    if keys == [] {
      n := 0;
    } else {
      assert keys[0] in keys;
      var a: nat :| OnWithin(r, keys[0], a);
      assert forall d :: d in keys[1..] ==> d in keys;
      var b := CommonBound(r, keys[1..]);
      n := if a < b then b else a;
      forall d | d in keys ensures OnWithin(r, d, n) {
        OnWithinGrows(r, d, if d == keys[0] then a else b, n);
      }
    }
  }

  /** It is a fixed point. */
  lemma OnUnfolds(r: Registry, key: string)
    ensures On(r, key) <==>
            key in r && LiveOn(r[key]) && AllOn(r, r[key].dependencies)
  {
    if On(r, key) {
      var n: nat :| OnWithin(r, key, n);
      forall d | d in r[key].dependencies ensures On(r, d) {
        assert OnWithin(r, d, n - 1);
      }
    }
    if key in r && LiveOn(r[key]) && AllOn(r, r[key].dependencies) {
      var n := CommonBound(r, r[key].dependencies);
      assert OnWithin(r, key, n + 1);
    }
  }

  /** And the least one: nothing outside any other fixed point is on. */
  lemma {:induction false} OnIsLeast(r: Registry, fixed: set<string>, key: string, n: nat)
    requires forall k | k in r && LiveOn(r[k]) ::
               (forall d :: d in r[k].dependencies ==> d in fixed) ==> k in fixed
    requires OnWithin(r, key, n)
    ensures key in fixed
    decreases n
  {
    forall d | d in r[key].dependencies ensures d in fixed {
      OnIsLeast(r, fixed, d, n - 1);
    }
  }

  /** Each key on the path is a prerequisite of the one before it. */
  ghost predicate DependencyPath(r: Registry, path: seq<string>) {
    && (forall i :: 0 <= i < |path| ==> path[i] in r)
    && (forall i :: 0 <= i < |path| - 1 ==> path[i + 1] in r[path[i]].dependencies)
  }

  /** Following a path, the steps left shrink. */
  lemma {:induction false} OnAlongPath(r: Registry, path: seq<string>, i: nat, n: nat)
    requires DependencyPath(r, path) && i < |path| && OnWithin(r, path[0], n)
    ensures i <= n && OnWithin(r, path[i], n - i)
  {
    if i > 0 {
      OnAlongPath(r, path, i - 1, n);
    }
  }

  /** A flag that depends on itself through others is off. */
  lemma {:induction false} CycleIsOff(r: Registry, path: seq<string>, n: nat)
    requires DependencyPath(r, path) && path != [] && path[0] in r[path[|path| - 1]].dependencies
    ensures !OnWithin(r, path[0], n)
    decreases n
  {
    if OnWithin(r, path[0], n) {
      OnAlongPath(r, path, |path| - 1, n);
      CycleIsOff(r, path, n - |path|);
    }
  }

  // ---------------------------------------------------------------------------
  // The walk
  // ---------------------------------------------------------------------------

  /** The keys a starting chain leaves to consider. */
  function Without(r: Registry, chain: set<string>): Registry {
    r - chain
  }

  function PathKeys(path: seq<string>): set<string> {
    set k | k in path
  }

  /** One resolution: the path so far and the results already known, shared by all levels. */
  class DependencyWalk {
    const registry: Registry
    const start: set<string>
    var chain: set<string>
    var memo: map<string, bool>
    ghost var path: seq<string>

    /** Memo entries are right whatever path they were computed under. */
    ghost predicate Valid()
      reads this
    {
      && chain == start + PathKeys(path) && start !! PathKeys(path)
      && DependencyPath(Without(registry, start), path)
      && forall k :: k in memo ==> (memo[k] <==> On(Without(registry, start), k))
    }

    constructor (registry: Registry, chain: set<string>)
      ensures Valid() && this.registry == registry && start == chain && path == []
    {
      this.registry, start, this.chain, memo, path := registry, chain, chain, map[], [];
    }

    /** True exactly when every dependency of `flag` is on, the starting chain left out. */
    method DependenciesOn(flag: Flag) returns (on: bool)
      requires Valid()
      requires path != [] ==> path[|path| - 1] in registry && registry[path[|path| - 1]] == flag
      modifies this
      ensures Valid() && path == old(path)
      ensures on <==> AllOn(Without(registry, start), flag.dependencies)
      decreases registry.Keys - chain, 1
    {
      hide On, OnWithin, EvaluateFlag, DependencyPath;
      ghost var r := Without(registry, start);
      for i := 0 to |flag.dependencies|
        invariant Valid() && path == old(path)
        invariant AllOn(r, flag.dependencies[..i])
      {
        var key := flag.dependencies[i];
        assert key in flag.dependencies;
        assert flag.dependencies[..i + 1] == flag.dependencies[..i] + [key];
        if key in memo {
          if !memo[key] {
            return false;
          }
        } else if key in chain {
          ChainIsOff(registry, start, path, flag, key);
          return false;
        } else {
          var dependencyOn := false;
          UnknownIsOff(r, key);
          if key in registry {
            dependencyOn := EvaluateDependency(flag, key);
          }
          memo := memo[key := dependencyOn];
          if !dependencyOn {
            return false;
          }
        }
      }
      assert flag.dependencies[..|flag.dependencies|] == flag.dependencies;
      return true;
    }

    /** Evaluates one prerequisite with its key on the path, and takes it off again. */
    method EvaluateDependency(ghost flag: Flag, key: string) returns (on: bool)
      requires Valid() && key in registry && key !in chain && key in flag.dependencies
      requires path != [] ==> path[|path| - 1] in registry && registry[path[|path| - 1]] == flag
      modifies this
      ensures Valid() && path == old(path)
      ensures on <==> On(Without(registry, start), key)
      decreases registry.Keys - chain, 0
    {
      hide On, OnWithin, EvaluateFlag, DependencyPath, PathKeys, IsDependencyOn, AllOn;
      ghost var r := Without(registry, start);
      var dependency := registry[key];
      chain := chain + {key};
      path := path + [key];
      LongerPath(registry, start, old(path), flag, key);
      var inner := DependenciesOn(dependency);
      chain := chain - {key};
      path := path[..|path| - 1];
      on := IsDependencyOn(EvaluateFlag(dependency, inner));
      AnswerIsExact(r, key, inner);
    }
  }

  lemma UnknownIsOff(r: Registry, key: string)
    ensures key !in r ==> !On(r, key)
  {
  }

  /** A flag blocked by its own dependencies evaluates off, so evaluation and fixed point agree. */
  lemma AnswerIsExact(r: Registry, key: string, inner: bool)
    requires key in r && (inner <==> AllOn(r, r[key].dependencies))
    ensures IsDependencyOn(EvaluateFlag(r[key], inner)) <==> On(r, key)
  {
    OnUnfolds(r, key);
  }

  lemma LongerPath(registry: Registry, start: set<string>, path: seq<string>, flag: Flag, key: string)
    requires DependencyPath(Without(registry, start), path)
    requires key in Without(registry, start) && key in flag.dependencies
    requires path != [] ==> path[|path| - 1] in registry && registry[path[|path| - 1]] == flag
    ensures DependencyPath(Without(registry, start), path + [key]) && (path + [key])[..|path|] == path
    ensures PathKeys(path + [key]) == PathKeys(path) + {key}
  {
  }

  /** A dependency met again on the path, or in the starting chain, is off. */
  lemma ChainIsOff(registry: Registry, start: set<string>, path: seq<string>, flag: Flag, key: string)
    requires DependencyPath(Without(registry, start), path)
    requires path != [] ==> path[|path| - 1] in registry && registry[path[|path| - 1]] == flag
    requires key in flag.dependencies && (key in start || key in path)
    ensures !On(Without(registry, start), key)
  {
    var r := Without(registry, start);
    if key !in start {
      var i :| 0 <= i < |path| && path[i] == key;
      var cycle := path[i..];
      forall n: nat ensures !OnWithin(r, key, n) {
        CycleIsOff(r, cycle, n);
      }
    }
  }

  // ---------------------------------------------------------------------------
  // Resolving one flag
  // ---------------------------------------------------------------------------

  /**
   Whether a flag's prerequisites hold, given keys already on a caller's path (`chain`) and
   keys already proved (`satisfied`).
   */
  method ResolveDependencies(key: string, registry: Registry, chain: set<string>, satisfied: set<string>)
    returns (ok: bool, satisfied': set<string>)
    ensures ok <==>
            || key in satisfied
            || (key !in chain && key in registry && registry[key].enabled &&
                AllOn(Without(registry, chain + {key}), registry[key].dependencies))
    ensures satisfied' == if ok then satisfied + {key} else satisfied
  {
    if key in satisfied {
      assert satisfied + {key} == satisfied;
      return true, satisfied;
    }
    if key in chain || key !in registry || !registry[key].enabled {
      return false, satisfied;
    }
    var walk := new DependencyWalk(registry, chain + {key});
    ok := walk.DependenciesOn(registry[key]);
    satisfied' := if ok then satisfied + {key} else satisfied;
  }

  /** Leaving the flag itself out of its own prerequisites changes nothing: it cannot be among them and on. */
  lemma {:induction false} OwnKeyIsNoHelp(r: Registry, key: string, d: string, n: nat)
    ensures OnWithin(Without(r, {key}), d, n) ==> OnWithin(r, d, n)
    ensures OnWithin(r, d, n) ==> OnWithin(Without(r, {key}), d, n) || OnWithin(r, key, n)
    decreases n
  {
    if n > 0 && d in r {
      forall x | x in r[d].dependencies
        ensures OnWithin(Without(r, {key}), x, n - 1) ==> OnWithin(r, x, n - 1)
        ensures OnWithin(r, x, n - 1) ==>
                OnWithin(Without(r, {key}), x, n - 1) || OnWithin(r, key, n - 1)
      {
        OwnKeyIsNoHelp(r, key, x, n - 1);
      }
      if OnWithin(r, key, n - 1) {
        OnWithinGrows(r, key, n - 1, n);
      }
    }
  }

  /** No prerequisite of a flag can be on through the flag itself. */
  lemma {:induction false} LeastRankKey(r: Registry, key: string, m: nat)
    requires key in r && OnWithin(r, key, m)
    ensures AllOn(Without(r, {key}), r[key].dependencies)
    decreases m
  {
    forall d | d in r[key].dependencies ensures On(Without(r, {key}), d) {
      OwnKeyIsNoHelp(r, key, d, m - 1);
      if !OnWithin(Without(r, {key}), d, m - 1) {
        LeastRankKey(r, key, m - 1);
      }
    }
  }

  /**
   Resolving, then evaluating with the answer, as a client call does. Nothing comes back when
   a missing flag throws; `reachable` says whether the provider could be asked for it.
   */
  method Evaluate(key: string, registry: Registry, reachable: bool, throwOnMissing: bool)
    returns (e: Option<Evaluation>)
    ensures e.None? <==> key !in registry && reachable && throwOnMissing
    ensures e.Some? ==> (IsDependencyOn(e.value) <==> On(registry, key))
    ensures e.Some? && key !in registry ==> e.value == Evaluation(Undefined, if reachable then NotFound else Failed)
    ensures e.Some? && key in registry ==>
              Serves(registry[key], !AllOn(registry, registry[key].dependencies), e.value)
  {
    if key !in registry {
      UnknownIsOff(registry, key);
      if !reachable {
        return Some(Evaluation(Undefined, Failed));
      }
      if throwOnMissing {
        return None;
      }
      return Some(Evaluation(Undefined, NotFound));
    }
    var flag := registry[key];
    var satisfied := true;
    if |flag.dependencies| > 0 {
      var known;
      satisfied, known := ResolveDependencies(key, registry, {}, {});
    }
    e := Some(EvaluateFlag(flag, satisfied));
    EvaluatesExactly(flag, satisfied);
    EvaluationIsExact(registry, key);
  }

  /** Resolving a flag with its own key on the path changes nothing about its prerequisites, nor about the flag. */
  lemma EvaluationIsExact(r: Registry, key: string)
    requires key in r
    ensures On(r, key) <==> LiveOn(r[key]) && AllOn(Without(r, {key}), r[key].dependencies)
    ensures AllOn(Without(r, {key}), r[key].dependencies) <==> AllOn(r, r[key].dependencies)
    ensures {} + {key} == {key}
  {
    OnUnfolds(r, key);
    if AllOn(r, r[key].dependencies) {
      if On(r, key) {
        var n: nat :| OnWithin(r, key, n);
        LeastRankKey(r, key, n);
      } else {
        forall d | d in r[key].dependencies ensures On(Without(r, {key}), d) {
          var n: nat :| OnWithin(r, d, n);
          OwnKeyIsNoHelp(r, key, d, n);
        }
      }
    }
    if AllOn(Without(r, {key}), r[key].dependencies) {
      forall d | d in r[key].dependencies ensures On(r, d) {
        var n: nat :| OnWithin(Without(r, {key}), d, n);
        OwnKeyIsNoHelp(r, key, d, n);
      }
    }
  }
}
