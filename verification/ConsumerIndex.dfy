/**
 The container's reverse index: which cached instances consumed which token, so that a
 registry change can name everything built from the old registration.
 */
module ConsumerIndex {
  import opened OrderedMap
  import opened Results

  type Token = string
  type ScopeId = nat

  datatype Lifetime = Singleton | Scoped | Transient

  /** `Build` stands for factories and classes; user code may fail. */
  datatype Provider =
    | Value
    | Existing(target: Token)
    | Build(inject: seq<Token>, succeeds: bool)

  /** `version` tells registrations of one token apart. */
  datatype Registration = Registration(lifetime: Lifetime, provider: Provider, version: nat)

  /** One registration that took part in building an instance, directly or through others. */
  datatype Origin = Origin(token: Token, registration: Registration)

  /** An instance, seen as what it was built from. */
  datatype Instance = Instance(origins: set<Origin>)

  type Registry = map<Token, Registration>
  type Cache = map<Token, Instance>

  /** Token to the cached instances whose construction resolved it. */
  type Dependents = map<Token, set<Token>>

  function Direct(d: Dependents, t: Token): set<Token> {
    if t in d then d[t] else {}
  }

  // ---------------------------------------------------------------------------
  // Transitive dependents
  // ---------------------------------------------------------------------------

  ghost predicate Closed(d: Dependents, c: set<Token>) {
    forall t :: t in c ==> Direct(d, t) <= c
  }

  /** `to` depends on `from`, directly or through others: no closed set tells them apart. */
  ghost predicate Linked(d: Dependents, from: Token, to: Token) {
    forall c: set<Token> :: Closed(d, c) && from in c ==> to in c
  }

  ghost predicate Extends(d: Dependents, e: Dependents) {
    forall t :: Direct(d, t) <= Direct(e, t)
  }

  lemma LinkedStep(d: Dependents, from: Token, to: Token)
    requires to in Direct(d, from)
    ensures Linked(d, from, to)
  {
  }

  lemma LinkedTrans(d: Dependents, a: Token, b: Token, c: Token)
    requires Linked(d, a, b) && Linked(d, b, c)
    ensures Linked(d, a, c)
  {
  }

  lemma LinkedGrows(d: Dependents, e: Dependents, from: Token, to: Token)
    requires Extends(d, e) && Linked(d, from, to)
    ensures Linked(e, from, to)
  {
    forall c: set<Token> | Closed(e, c) && from in c ensures to in c {
      assert Closed(d, c) by {
        forall t | t in c ensures Direct(d, t) <= c {
          assert Direct(d, t) <= Direct(e, t);
        }
      }
    }
  }

  /** Forgetting the entries of a closed set keeps every link that ends outside it. */
  lemma LinkedSurvives(d: Dependents, gone: set<Token>, from: Token, to: Token)
    requires Closed(d, gone) && Linked(d, from, to) && to !in gone
    ensures Linked(d - gone, from, to)
  {
    forall c: set<Token> | Closed(d - gone, c) && from in c ensures to in c {
      var all := c + gone;
      forall t | t in all ensures Direct(d, t) <= all {
        if t in gone {
          assert Direct(d, t) <= gone;
        } else {
          assert Direct(d, t) == Direct(d - gone, t) <= c;
        }
      }
      assert Closed(d, all);
    }
  }

  /** The tokens that transitively depend on `token`, itself included. */
  ghost predicate IsAffected(d: Dependents, token: Token, affected: set<Token>) {
    && token in affected && Closed(d, affected)
    && forall c: set<Token> :: Closed(d, c) && token in c ==> affected <= c
  }

  /** The index once `owner` is a consumer of `token`; nothing is its own consumer. */
  function Recorded(d: Dependents, token: Token, owner: Option<Token>): Dependents {
    if owner.None? || owner.value == token then d else d[token := Direct(d, token) + {owner.value}]
  }

  predicate KeepsInstances(registry: Registry, t: Token) {
    t in registry && !registry[t].lifetime.Transient?
  }

  /** The last token on the path whose instances are cached, as a set of at most one. */
  ghost function NearestCached(registry: Registry, path: seq<Token>): set<Token> {
    set i | 0 <= i < |path| && KeepsInstances(registry, path[i]) &&
            (forall j :: i < j < |path| ==> !KeepsInstances(registry, path[j])) :: path[i]
  }

  lemma {:induction false} OwnerIsNearest(registry: Registry, path: seq<Token>)
    ensures NearestCached(registry, path) == match OwnerOf(registry, path) case None => {} case Some(owner) => {owner}
  {
    if path != [] {
      var n := |path| - 1;
      OwnerIsNearest(registry, path[..n]);
      if KeepsInstances(registry, path[n]) {
        assert NearestCached(registry, path) == {path[n]};
      } else {
        assert forall i :: 0 <= i < n ==> path[..n][i] == path[i];
        hide OwnerOf;
        assert NearestCached(registry, path) == NearestCached(registry, path[..n]);
      }
    }
  }

  lemma RecordedExactly(d: Dependents, token: Token, registry: Registry, path: seq<Token>)
    ensures forall t :: Direct(Recorded(d, token, OwnerOf(registry, path)), t) ==
                        Direct(d, t) + if t == token then NearestCached(registry, path) - {token} else {}
  {
    OwnerIsNearest(registry, path);
    hide NearestCached, OwnerOf;
  }

  lemma RecordedLinks(d: Dependents, token: Token, owner: Option<Token>)
    ensures Extends(d, Recorded(d, token, owner))
    ensures owner.Some? ==> Linked(Recorded(d, token, owner), token, owner.value)
  {
    if owner.Some? && owner.value != token {
      LinkedStep(Recorded(d, token, owner), token, owner.value);
    }
  }

  class DependentIndex {
    var dependents: Dependents

    constructor ()
      ensures dependents == map[]
    {
      dependents := map[];
    }

    /** Records the nearest cached ancestor on `path` as a consumer of `token`. */
    method Record(token: Token, path: seq<Token>, registry: Registry)
      modifies this
      ensures dependents == Recorded(old(dependents), token, OwnerOf(registry, path))
      ensures forall t ::
                Direct(dependents, t) ==
                Direct(old(dependents), t) + if t == token then NearestCached(registry, path) - {token} else {}
    {
      RecordedExactly(dependents, token, registry, path);
      hide NearestCached;
      var i := |path| - 1;
      assert path[..|path|] == path;
      while i >= 0
        invariant -1 <= i < |path| && dependents == old(dependents)
        invariant OwnerOf(registry, path) == OwnerOf(registry, path[..i + 1])
      {
        var owner := path[i];
        assert path[..i + 1][..i] == path[..i];
        if owner in registry && !registry[owner].lifetime.Transient? {
          if owner == token {
            return;
          }
          var consumers := if token in dependents then dependents[token] else {};
          dependents := dependents[token := consumers + {owner}];
          return;
        }
        i := i - 1;
      }
    }

    /** Returns every transitive consumer of `token`, each once and after its own consumers, and forgets them all. */
    method Take(token: Token) returns (ordered: seq<Token>, ghost affected: set<Token>)
      modifies this
      ensures IsAffected(old(dependents), token, affected)
      ensures dependents == old(dependents) - affected
      ensures Distinct(ordered) && Members(ordered) == affected - {token}
      ensures ConsumersFirst(old(dependents), [], ordered)
    {
      var visited;
      ordered, visited := Visit(token, {token}, old(dependents), [], {token});
      affected := visited;
    }

    /** Depth-first; what it adds to `visited` comes back in post-order. `open` are the visits under way. */
    method Visit(current: Token, visited: set<Token>, ghost before: Dependents, ghost earlier: seq<Token>,
                 ghost open: set<Token>)
      returns (ordered: seq<Token>, visited': set<Token>)
      requires current in open && visited == open + Members(earlier)
      requires forall t :: t in open ==> Linked(before, t, current)
      requires Direct(dependents, current) == Direct(before, current)
      requires forall t :: t !in visited ==> Direct(dependents, t) == Direct(before, t)
      modifies this
      ensures Explored(before, current, visited, visited', ordered)
      ensures ConsumersFirst(before, earlier, ordered)
      ensures Direct(before, current) <= visited' && visited' == open + Members(earlier + ordered)
      ensures dependents == old(dependents) - (visited' - visited + {current})
      decreases AllTokens(before) - visited
    {
      hide Explored, Closed, Linked, ConsumersFirst, Members;
      var direct := if current in dependents then dependents[current] else {};
      dependents := dependents - {current};
      ordered, visited' := [], visited;
      NothingExplored(before, current, visited, earlier);
      var rest := direct;
      while rest != {}
        invariant rest <= direct == Direct(before, current)
        invariant direct - rest <= visited'
        invariant visited <= visited' && Explored(before, current, visited, visited', ordered)
        invariant ConsumersFirst(before, earlier, ordered) && visited' == open + Members(earlier + ordered)
        invariant dependents == old(dependents) - (visited' - visited + {current})
        decreases rest
      {
        var dependent :| dependent in rest;
        rest := rest - {dependent};
        if dependent in visited' {
          continue;
        }
        ghost var soFar, index := visited', dependents;
        OpenBelow(before, open, current, dependent);
        var below, deeper := Visit(dependent, visited' + {dependent}, before, earlier + ordered, open + {dependent});
        ChildOrdered(before, earlier, ordered, below, dependent, open);
        ChildExplored(before, current, visited, visited', ordered, dependent, deeper, below);
        DropMore(old(dependents), visited' - visited + {current}, deeper - (visited' + {dependent}) + {dependent},
                 deeper - visited + {current});
        ordered, visited' := ordered + below + [dependent], deeper;
      }
    }
  }

  /** What a visit of `current` has added to `visited`: consumers only, each with all its own, each once. */
  ghost predicate Explored(d: Dependents, current: Token, visited: set<Token>, visited': set<Token>,
      ordered: seq<Token>) {
    && visited <= visited'
    && (forall t :: t in visited' - visited ==> Direct(d, t) <= visited')
    && (forall c: set<Token> :: Closed(d, c) && current in c ==> visited' - visited <= c)
    && Distinct(ordered) && Members(ordered) == visited' - visited
  }

  lemma NothingExplored(d: Dependents, current: Token, visited: set<Token>, earlier: seq<Token>)
    ensures Explored(d, current, visited, visited, []) && ConsumersFirst(d, earlier, [])
    ensures visited - visited == {} && earlier + [] == earlier
  {
  }

  /**
   Each listed token comes after everything that consumed it directly, unless the two depend
   on each other.
   */
  ghost predicate ConsumersFirst(d: Dependents, earlier: seq<Token>, ordered: seq<Token>) {
    forall i, t :: 0 <= i < |ordered| && t in Direct(d, ordered[i]) ==>
      t in earlier + ordered[..i] || Linked(d, t, ordered[i])
  }

  lemma OpenBelow(d: Dependents, open: set<Token>, current: Token, child: Token)
    requires child in Direct(d, current) && forall t :: t in open ==> Linked(d, t, current)
    ensures forall t :: t in open + {child} ==> Linked(d, t, child)
  {
    LinkedStep(d, current, child);
    forall t | t in open ensures Linked(d, t, child) {
      LinkedTrans(d, t, current, child);
    }
  }

  lemma ChildOrdered(d: Dependents, earlier: seq<Token>, ordered: seq<Token>, below: seq<Token>, child: Token,
                     open: set<Token>)
    requires ConsumersFirst(d, earlier, ordered) && ConsumersFirst(d, earlier + ordered, below)
    requires forall t :: t in open + {child} ==> Linked(d, t, child)
    requires Direct(d, child) <= open + {child} + Members(earlier + ordered + below)
    ensures ConsumersFirst(d, earlier, ordered + below + [child])
    ensures open + {child} + Members(earlier + ordered + below) == open + Members(earlier + (ordered + below + [child]))
  {
    hide Linked;
    var all := ordered + below + [child];
    forall i, t | 0 <= i < |all| && t in Direct(d, all[i]) ensures t in earlier + all[..i] || Linked(d, t, all[i]) {
      if i < |ordered| {
        assert all[..i] == ordered[..i];
      } else if i < |ordered| + |below| {
        assert earlier + all[..i] == earlier + ordered + below[..i - |ordered|];
      } else {
        assert all[..i] == ordered + below;
        assert earlier + all[..i] == earlier + ordered + below;
      }
    }
    assert earlier + all == earlier + ordered + below + [child];
  }

  lemma ChildExplored(d: Dependents, current: Token, visited: set<Token>, soFar: set<Token>, ordered: seq<Token>,
                      child: Token, deeper: set<Token>, below: seq<Token>)
    requires Explored(d, current, visited, soFar, ordered)
    requires child in Direct(d, current) && child !in soFar
    requires Explored(d, child, soFar + {child}, deeper, below) && Direct(d, child) <= deeper
    ensures Explored(d, current, visited, deeper, ordered + below + [child])
    ensures visited <= deeper && soFar + {child} <= deeper
    ensures (soFar - visited + {current}) + (deeper - (soFar + {child}) + {child}) == deeper - visited + {current}
  {
    assert deeper - visited == (soFar - visited) + (deeper - (soFar + {child})) + {child};
    forall c: set<Token> | Closed(d, c) && current in c ensures deeper - visited <= c {
      assert child in c;
    }
    var all := ordered + below + [child];
    assert forall x :: x in all <==> x in ordered || x in below || x == child;
    assert forall x :: x in ordered <==> x in Members(ordered);
    assert forall x :: x in below <==> x in Members(below);
    DistinctConcat(ordered, below);
    assert Members(ordered + below) == Members(ordered) + Members(below);
    DistinctConcat(ordered + below, [child]);
  }

  lemma DropMore<V>(d: map<Token, V>, a: set<Token>, b: set<Token>, both: set<Token>)
    requires a + b == both
    ensures d - a - b == d - both
  {
  }

  function AllTokens(d: Dependents): set<Token> {
    d.Keys + set k, t | k in d && t in d[k] :: t
  }

  /** The nearest token on `path` whose instances are cached. */
  function OwnerOf(registry: Registry, path: seq<Token>): Option<Token> {
    if path == [] then None
    else
      var last := path[|path| - 1];
      if last in registry && !registry[last].lifetime.Transient? then Some(last)
      else OwnerOf(registry, path[..|path| - 1])
  }
}
