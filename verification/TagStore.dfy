/** The in-memory tag store: a two-way index between cache keys and namespace-scoped tags. */
module TagStore {
  import opened Results

  const MAX_TAG_LENGTH := 128
  const SCOPE_SEPARATOR := '\0'

  predicate ValidTag(tag: string) {
    0 < |tag| <= MAX_TAG_LENGTH && SCOPE_SEPARATOR !in tag
  }

  predicate ValidTags(tags: seq<string>) {
    forall i :: 0 <= i < |tags| ==> ValidTag(tags[i])
  }

  function ScopedTag(tag: string, scope: Option<string>): string {
    (if scope.Some? then scope.value else "") + [SCOPE_SEPARATOR] + tag
  }

  /** Validated tags of different namespaces never share an index entry. */
  lemma ScopedTagInjective(tag1: string, scope1: Option<string>, tag2: string, scope2: Option<string>)
    requires SCOPE_SEPARATOR !in tag1 && SCOPE_SEPARATOR !in tag2
    requires scope1 != Some("") && scope2 != Some("")
    requires ScopedTag(tag1, scope1) == ScopedTag(tag2, scope2)
    ensures tag1 == tag2 && scope1 == scope2
  {
    var ns1 := if scope1.Some? then scope1.value else "";
    var ns2 := if scope2.Some? then scope2.value else "";
    var s := ScopedTag(tag1, scope1);
    assert forall i :: |ns1| < i < |s| ==> s[i] == tag1[i - |ns1| - 1];
    assert forall i :: |ns2| < i < |s| ==> s[i] == tag2[i - |ns2| - 1];
    assert s[|ns1|] == s[|ns2|] == SCOPE_SEPARATOR;
    assert |ns1| == |ns2|;
    assert ns1 == s[..|ns1|] == ns2;
    assert tag1 == s[|ns1| + 1..] == tag2;
  }

  function ScopedTags(tags: seq<string>, scope: Option<string>): set<string> {
    set i | 0 <= i < |tags| :: ScopedTag(tags[i], scope)
  }

  lemma ScopedTagsGrow(tags: seq<string>, scope: Option<string>, i: nat)
    requires i < |tags|
    ensures ScopedTags(tags[..i + 1], scope) == ScopedTags(tags[..i], scope) + {ScopedTag(tags[i], scope)}
  {
    forall t | t in ScopedTags(tags[..i + 1], scope)
      ensures t in ScopedTags(tags[..i], scope) + {ScopedTag(tags[i], scope)}
    {
      var j :| 0 <= j < i + 1 && t == ScopedTag(tags[..i + 1][j], scope);
      if j < i {
        assert t == ScopedTag(tags[..i][j], scope);
      }
    }
    forall t | t in ScopedTags(tags[..i], scope) ensures t in ScopedTags(tags[..i + 1], scope) {
      var j :| 0 <= j < i && t == ScopedTag(tags[..i][j], scope);
      assert t == ScopedTag(tags[..i + 1][j], scope);
    }
    assert tags[..i + 1][i] == tags[i];
  }

  // ---------------------------------------------------------------------------
  // The index
  // ---------------------------------------------------------------------------

  type Index = map<string, set<string>>

  /** What the index says of one entry; nothing when it has none. */
  function Of(m: Index, k: string): set<string> {
    if k in m then m[k] else {}
  }

  ghost predicate NoEmptySets(m: Index) {
    forall k :: k in m ==> m[k] != {}
  }

  /** Each map is the other one turned round, and neither holds an empty set. */
  ghost predicate Inverse(tagToKeys: Index, keyToTags: Index) {
    && NoEmptySets(tagToKeys) && NoEmptySets(keyToTags)
    && forall t, k :: k in Of(tagToKeys, t) <==> t in Of(keyToTags, k)
  }

  ghost function Carriers(m: Index, v: string): set<string> {
    set k | k in m && v in m[k]
  }

  lemma CarriersAreIndexed(tagToKeys: Index, keyToTags: Index, tag: string)
    requires Inverse(tagToKeys, keyToTags)
    ensures Of(tagToKeys, tag) == Carriers(keyToTags, tag)
  {
    forall k ensures k in Of(tagToKeys, tag) <==> k in Carriers(keyToTags, tag) {
      assert k in Of(tagToKeys, tag) <==> tag in Of(keyToTags, k);
    }
  }

  /** Adds or takes one member, dropping an entry that becomes empty. */
  function Link(m: Index, k: string, v: string): Index {
    m[k := Of(m, k) + {v}]
  }

  function Unlink(m: Index, k: string, v: string): Index {
    if k !in m then m
    else if m[k] - {v} == {} then m - {k}
    else m[k := m[k] - {v}]
  }

  /** Making the entry first, then adding the member. */
  lemma LinkInSteps(m: Index, k: string, v: string)
    ensures var made := if k !in m then m[k := {}] else m;
            made[k := made[k] + {v}] == Link(m, k, v)
  {
    assert {} + {v} == {v};
  }

  lemma LinkKeepsInverse(tagToKeys: Index, keyToTags: Index, key: string, tag: string)
    requires Inverse(tagToKeys, keyToTags)
    ensures Inverse(Link(tagToKeys, tag, key), Link(keyToTags, key, tag))
  {
    forall t, k ensures k in Of(Link(tagToKeys, tag, key), t) <==> t in Of(Link(keyToTags, key, tag), k) {
      assert k in Of(tagToKeys, t) <==> t in Of(keyToTags, k);
    }
  }

  lemma UnlinkKeepsInverse(tagToKeys: Index, keyToTags: Index, key: string, tag: string)
    requires Inverse(tagToKeys, keyToTags)
    ensures Inverse(Unlink(tagToKeys, tag, key), Unlink(keyToTags, key, tag))
  {
    forall t, k ensures k in Of(Unlink(tagToKeys, tag, key), t) <==> t in Of(Unlink(keyToTags, key, tag), k) {
      assert k in Of(tagToKeys, t) <==> t in Of(keyToTags, k);
    }
  }

  /** Adding `vs` to the entry of `k`. */
  function LinkAll(m: Index, k: string, vs: set<string>): Index {
    if vs == {} then m else m[k := Of(m, k) + vs]
  }

  /** Taking `vs` from the entry of `k`. */
  function UnlinkAll(m: Index, k: string, vs: set<string>): Index {
    if k !in m then m
    else if m[k] - vs == {} then m - {k}
    else m[k := m[k] - vs]
  }

  /** Taking `v` from the entries of every key in `ks`. */
  function UnlinkFrom(m: Index, ks: set<string>, v: string): Index {
    map k | k in m && !(k in ks && m[k] - {v} == {}) :: if k in ks then m[k] - {v} else m[k]
  }

  lemma ScopedTagsAre(tags: seq<string>, scope: Option<string>)
    ensures ScopedTags(tags, scope) == set tag <- tags :: ScopedTag(tag, scope)
  {
    forall i | 0 <= i < |tags| ensures ScopedTag(tags[i], scope) in set tag <- tags :: ScopedTag(tag, scope) {
      assert tags[i] in tags;
    }
  }

  /** Entry by entry, what adding to an entry or taking from one comes to. */
  lemma EntriesAfter(m: Index, key: string, vs: set<string>)
    ensures forall k :: Of(LinkAll(m, key, vs), k) == Of(m, k) + if k == key then vs else {}
    ensures forall k :: Of(UnlinkAll(m, key, vs), k) == Of(m, k) - if k == key then vs else {}
  {
  }

  lemma EntriesWithout(m: Index, v: string)
    ensures forall k :: Of(UnlinkFrom(m, Carriers(m, v), v), k) == Of(m, k) - {v}
  {
  }

  ghost predicate HasBadTag(tags: seq<string>) {
    exists tag <- tags :: tag == "" || |tag| > MAX_TAG_LENGTH || SCOPE_SEPARATOR in tag
  }

  lemma BadTagsAreInvalid(tags: seq<string>)
    ensures HasBadTag(tags) <==> !ValidTags(tags)
  {
    if !ValidTags(tags) {
      var i :| 0 <= i < |tags| && !ValidTag(tags[i]);
      assert tags[i] in tags;
    }
  }

  class InMemoryTagStore {
    var tagToKeys: Index
    var keyToTags: Index

    ghost predicate Valid()
      reads this
    {
      Inverse(tagToKeys, keyToTags)
    }

    constructor ()
      ensures Valid() && keyToTags == map[]
    {
      tagToKeys, keyToTags := map[], map[];
    }

    method Add(key: string, tags: seq<string>, scope: Option<string>) returns (r: Result<()>)
      requires Valid()
      modifies this
      ensures Valid()
      ensures r == if ValidTags(tags) then Ok(()) else Err(InvalidTag)
      ensures keyToTags == if r.Ok? then LinkAll(old(keyToTags), key, ScopedTags(tags, scope)) else old(keyToTags)
      ensures r.Err? <==> HasBadTag(tags)
      ensures r.Ok? ==>
                forall k :: Of(keyToTags, k) ==
                            Of(old(keyToTags), k) + if k == key then set tag <- tags :: ScopedTag(tag, scope) else {}
    {
      hide Inverse, LinkAll, ScopedTags, ScopedTag, Of, HasBadTag;
      BadTagsAreInvalid(tags);
      ScopedTagsAre(tags, scope);
      EntriesAfter(keyToTags, key, ScopedTags(tags, scope));
      LinkNothing(old(keyToTags), key, tags, scope);
      for i := 0 to |tags|
        invariant ValidTags(tags[..i])
        invariant keyToTags == old(keyToTags) && tagToKeys == old(tagToKeys)
      {
        if !ValidTag(tags[i]) {
          return Err(InvalidTag);
        }
        assert tags[..i + 1] == tags[..i] + [tags[i]];
      }
      assert tags[..|tags|] == tags;
      for i := 0 to |tags|
        invariant Valid()
        invariant keyToTags == LinkAll(old(keyToTags), key, ScopedTags(tags[..i], scope))
      {
        ScopedTagsGrow(tags, scope, i);
        AddOne(key, ScopedTag(tags[i], scope));
        LinkMore(old(keyToTags), key, ScopedTags(tags[..i], scope), ScopedTag(tags[i], scope));
      }
      assert tags[..|tags|] == tags;
      return Ok(());
    }

    /** Links a key and a scoped tag in both maps. */
    method AddOne(key: string, scoped: string)
      requires Valid()
      modifies this
      ensures Valid() && keyToTags == Link(old(keyToTags), key, scoped)
    {
      hide Inverse, Link;
      LinkKeepsInverse(tagToKeys, keyToTags, key, scoped);
      LinkInSteps(tagToKeys, scoped, key);
      LinkInSteps(keyToTags, key, scoped);
      if scoped !in tagToKeys {
        tagToKeys := tagToKeys[scoped := {}];
      }
      tagToKeys := tagToKeys[scoped := tagToKeys[scoped] + {key}];
      if key !in keyToTags {
        keyToTags := keyToTags[key := {}];
      }
      keyToTags := keyToTags[key := keyToTags[key] + {scoped}];
    }

    method Remove(key: string, tags: seq<string>, scope: Option<string>)
      requires Valid()
      modifies this
      ensures Valid()
      ensures keyToTags == UnlinkAll(old(keyToTags), key, ScopedTags(tags, scope))
      ensures forall k :: Of(keyToTags, k) ==
                          Of(old(keyToTags), k) - if k == key then set tag <- tags :: ScopedTag(tag, scope) else {}
    {
      ScopedTagsAre(tags, scope);
      EntriesAfter(keyToTags, key, ScopedTags(tags, scope));
      assert ScopedTags(tags[..0], scope) == {};
      assert forall k :: k in keyToTags ==> keyToTags[k] - {} == keyToTags[k];
      for i := 0 to |tags|
        invariant Valid()
        invariant keyToTags == UnlinkAll(old(keyToTags), key, ScopedTags(tags[..i], scope))
      {
        ScopedTagsGrow(tags, scope, i);
        var scoped := ScopedTag(tags[i], scope);
        UnlinkKeepsInverse(tagToKeys, keyToTags, key, scoped);
        if scoped in tagToKeys {
          var keys := tagToKeys[scoped] - {key};
          tagToKeys := if keys == {} then tagToKeys - {scoped} else tagToKeys[scoped := keys];
        }
        if key in keyToTags {
          var owned := keyToTags[key] - {scoped};
          keyToTags := if owned == {} then keyToTags - {key} else keyToTags[key := owned];
        }
        UnlinkMore(old(keyToTags), key, ScopedTags(tags[..i], scope), scoped);
      }
      assert tags[..|tags|] == tags;
    }

    method GetKeys(tag: string, scope: Option<string>) returns (keys: set<string>)
      requires Valid()
      ensures keys == Carriers(keyToTags, ScopedTag(tag, scope))
      ensures forall k :: k in keys <==> ScopedTag(tag, scope) in Of(keyToTags, k)
    {
      var scoped := ScopedTag(tag, scope);
      CarriersAreIndexed(tagToKeys, keyToTags, scoped);
      keys := if scoped in tagToKeys then tagToKeys[scoped] else {};
    }

    /** Forgets one tag everywhere; `cleared` counts the keys that carried it. */
    method Invalidate(tag: string, scope: Option<string>) returns (cleared: nat)
      requires Valid()
      modifies this
      ensures Valid()
      ensures var carriers := Carriers(old(keyToTags), ScopedTag(tag, scope));
              && cleared == |carriers|
              && keyToTags == UnlinkFrom(old(keyToTags), carriers, ScopedTag(tag, scope))
      ensures cleared == |set k | k in old(keyToTags) && ScopedTag(tag, scope) in old(keyToTags)[k]|
      ensures forall k :: Of(keyToTags, k) == Of(old(keyToTags), k) - {ScopedTag(tag, scope)}
    {
      EntriesWithout(keyToTags, ScopedTag(tag, scope));
      hide UnlinkFrom, Inverse, NoEmptySets;
      var scoped := ScopedTag(tag, scope);
      CarriersAreIndexed(tagToKeys, keyToTags, scoped);
      if scoped !in tagToKeys {
        UnlinkFromNothing(keyToTags, scoped);
        return 0;
      }
      var keys := tagToKeys[scoped];
      cleared := |keys|;
      var rest, done := keys, {};
      UnlinkFromNothing(keyToTags, scoped);
      while rest != {}
        invariant tagToKeys == old(tagToKeys) && done !! rest && done + rest == keys
        invariant keyToTags == UnlinkFrom(old(keyToTags), done, scoped)
        decreases rest
      {
        var key :| key in rest;
        ghost var before := keyToTags;
        if key in keyToTags {
          var remaining := keyToTags[key] - {scoped};
          keyToTags := if remaining == {} then keyToTags - {key} else keyToTags[key := remaining];
        }
        assert keyToTags == Unlink(before, key, scoped);
        UnlinkFromMore(old(keyToTags), done, scoped, key);
        rest, done := rest - {key}, done + {key};
      }
      tagToKeys := tagToKeys - {scoped};
      InvalidateKeepsInverse(old(tagToKeys), old(keyToTags), scoped);
    }

    /** Forgets everything about one key. */
    method RemoveKey(key: string)
      requires Valid()
      modifies this
      ensures Valid() && keyToTags == old(keyToTags) - {key}
    {
      if key !in keyToTags {
        return;
      }
      var rest, done := keyToTags[key], {};
      while rest != {}
        invariant keyToTags == old(keyToTags) && done !! rest && done + rest == keyToTags[key]
        invariant NoEmptySets(tagToKeys)
        invariant forall t, k :: k in Of(tagToKeys, t) <==> t in Of(keyToTags, k) && !(k == key && t in done)
        decreases rest
      {
        var scoped :| scoped in rest;
        ghost var before := tagToKeys;
        if scoped in tagToKeys {
          var keys := tagToKeys[scoped] - {key};
          tagToKeys := if keys == {} then tagToKeys - {scoped} else tagToKeys[scoped := keys];
        }
        assert tagToKeys == Unlink(before, scoped, key);
        forall t, k
          ensures k in Of(tagToKeys, t) <==> t in Of(keyToTags, k) && !(k == key && t in done + {scoped})
        {
          assert k in Of(before, t) <==> t in Of(keyToTags, k) && !(k == key && t in done);
        }
        rest, done := rest - {scoped}, done + {scoped};
      }
      forall t, k ensures k in Of(tagToKeys, t) <==> t in Of(keyToTags - {key}, k) {
        assert k in Of(tagToKeys, t) <==> t in Of(keyToTags, k) && !(k == key && t in done);
      }
      keyToTags := keyToTags - {key};
    }

    method TrackedKeys() returns (keys: set<string>)
      ensures keys == keyToTags.Keys
    {
      keys := keyToTags.Keys;
    }

    method Clear()
      modifies this
      ensures Valid() && keyToTags == map[]
    {
      tagToKeys, keyToTags := map[], map[];
    }
  }

  lemma LinkMore(m: Index, key: string, done: set<string>, scoped: string)
    ensures LinkAll(m, key, done + {scoped}) == Link(LinkAll(m, key, done), key, scoped)
  {
    assert scoped in done + {scoped};
    assert Of(m, key) + done + {scoped} == Of(m, key) + (done + {scoped});
    assert done == {} ==> done + {scoped} == {scoped};
  }

  lemma LinkNothing(m: Index, key: string, tags: seq<string>, scope: Option<string>)
    ensures LinkAll(m, key, ScopedTags(tags[..0], scope)) == m
  {
    assert ScopedTags(tags[..0], scope) == {};
  }

  lemma UnlinkFromNothing(m: Index, scoped: string)
    ensures UnlinkFrom(m, {}, scoped) == m
  {
  }

  lemma UnlinkFromMore(m: Index, done: set<string>, scoped: string, key: string)
    requires key !in done
    ensures UnlinkFrom(m, done + {key}, scoped) == Unlink(UnlinkFrom(m, done, scoped), key, scoped)
  {
  }

  lemma UnlinkMore(m: Index, key: string, done: set<string>, scoped: string)
    requires NoEmptySets(m)
    ensures UnlinkAll(m, key, done + {scoped}) == Unlink(UnlinkAll(m, key, done), key, scoped)
  {
    if key in m {
      assert m[key] - done - {scoped} == m[key] - (done + {scoped});
    }
  }

  lemma InvalidateKeepsInverse(tagToKeys: Index, keyToTags: Index, scoped: string)
    requires Inverse(tagToKeys, keyToTags)
    ensures Inverse(tagToKeys - {scoped}, UnlinkFrom(keyToTags, Of(tagToKeys, scoped), scoped))
  {
    forall t, k
      ensures k in Of(tagToKeys - {scoped}, t) <==> t in Of(UnlinkFrom(keyToTags, Of(tagToKeys, scoped), scoped), k)
    {
      assert k in Of(tagToKeys, t) <==> t in Of(keyToTags, k);
      assert k in Of(tagToKeys, scoped) <==> scoped in Of(keyToTags, k);
    }
  }
}
