/**
 Hot-key tracking: a bounded table of per-key hit counts in which a newcomer evicts the
 coldest key and inherits its count (the Space-Saving summary).
 */
module HotKeys {
  import opened OrderedMap
  import opened Results

  const MAX_TRACKED_KEYS: nat := 1024

  type Counts = Map<string, nat>

  // ---------------------------------------------------------------------------
  // The table
  // ---------------------------------------------------------------------------

  /** The position of the first smallest count. */
  function ColdestIndex(m: Counts): (c: nat)
    requires m.Valid() && m.order != []
    ensures c < |m.order|
    ensures forall i :: 0 <= i < |m.order| ==> m.data[m.order[c]] <= m.data[m.order[i]]
    ensures forall i :: 0 <= i < c ==> m.data[m.order[c]] < m.data[m.order[i]]
  {
    ColdestFrom(m, 0, 1)
  }

  function ColdestFrom(m: Counts, best: nat, next: nat): (c: nat)
    requires m.Valid() && best < next <= |m.order|
    requires forall i :: 0 <= i < next ==> m.data[m.order[best]] <= m.data[m.order[i]]
    requires forall i :: 0 <= i < best ==> m.data[m.order[best]] < m.data[m.order[i]]
    ensures c < |m.order|
    ensures forall i :: 0 <= i < |m.order| ==> m.data[m.order[c]] <= m.data[m.order[i]]
    ensures forall i :: 0 <= i < c ==> m.data[m.order[c]] < m.data[m.order[i]]
    decreases |m.order| - next
  {
    if next == |m.order| then best
    else if m.data[m.order[next]] < m.data[m.order[best]] then ColdestFrom(m, next, next + 1)
    else ColdestFrom(m, best, next + 1)
  }

  function Coldest(m: Counts): string
    requires m.Valid() && m.order != []
  {
    m.order[ColdestIndex(m)]
  }

  lemma ColdestIsSmallest(m: Counts)
    requires m.Valid() && m.order != []
    ensures Coldest(m) in m.data && forall j :: j in m.data ==> m.data[Coldest(m)] <= m.data[j]
  {
  }

  /** No key is hit less than `coldest`, and none that came before it as little. */
  ghost predicate FirstLeastHit(m: Counts, coldest: string)
    requires m.Valid()
  {
    exists c :: 0 <= c < |m.order| && m.order[c] == coldest &&
                forall i :: 0 <= i < |m.order| ==>
                  m.data[coldest] <= m.data[m.order[i]] && (i < c ==> m.data[coldest] < m.data[m.order[i]])
  }

  ghost predicate FirstLeastHitGone(before: Counts, after: Counts, hits: nat)
    requires before.Valid()
  {
    exists coldest :: FirstLeastHit(before, coldest) && coldest in before.data &&
      after.order == Minus(before.order, {coldest}) && after.data == before.data - {coldest} &&
      hits == before.data[coldest]
  }

  /** The table after one more hit of `key`: raised in place, added last, or put last in place of the coldest key. */
  ghost predicate HitRecorded(before: Counts, key: string, cap: nat, after: Counts)
    requires before.Valid()
  {
    if key in before.data then
      after.order == before.order && after.data == before.data[key := before.data[key] + 1]
    else if |before.order| < cap || before.order == [] then
      after.order == before.order + [key] && after.data == before.data[key := 1]
    else
      exists coldest :: FirstLeastHit(before, coldest) && coldest in before.data &&
        after.order == Minus(before.order, {coldest}) + [key] &&
        after.data == (before.data - {coldest})[key := before.data[coldest] + 1]
  }

  lemma CountedIsRecorded(m: Counts, key: string, cap: nat)
    requires m.Valid()
    ensures HitRecorded(m, key, cap, Counted(m, key, cap))
  {
    hide Minus, Distinct;
    if m.order != [] {
      var c := ColdestIndex(m);
      assert FirstLeastHit(m, m.order[c]);
    }
  }

  /** One hit of `key` in a table of at most `cap` keys. */
  function Counted(m: Counts, key: string, cap: nat): Counts
    requires m.Valid()
  {
    if key in m.data then m.Put(key, m.data[key] + 1)
    else if |m.order| >= cap && m.order != [] then m.Without({Coldest(m)}).Put(key, m.data[Coldest(m)] + 1)
    else m.Put(key, 1)
  }

  class InMemoryCacheMetrics {
    var hits: nat
    var keyHits: Counts

    ghost predicate Valid()
      reads this
    {
      keyHits.Valid()
    }

    constructor ()
      ensures Valid() && hits == 0 && keyHits == Empty()
    {
      hits, keyHits := 0, Empty();
    }

    /** An absent or empty key counts towards the total only. */
    method IncrementHit(key: Option<string>)
      requires Valid()
      modifies this
      ensures Valid() && hits == old(hits) + 1
      ensures keyHits == if key.Some? && key.value != "" then Counted(old(keyHits), key.value, MAX_TRACKED_KEYS)
                         else old(keyHits)
      ensures key.Some? && key.value != "" ==> HitRecorded(old(keyHits), key.value, MAX_TRACKED_KEYS, keyHits)
    {
      hide Minus, Coldest, Distinct, HitRecorded, FirstLeastHitGone;
      if key.Some? {
        CountedIsRecorded(keyHits, key.value, MAX_TRACKED_KEYS);
      }
      hits := hits + 1;
      if key.None? || key.value == "" {
        return;
      }
      if key.value in keyHits.data {
        PutValid(keyHits, key.value, keyHits.data[key.value] + 1);
        keyHits := keyHits.Put(key.value, keyHits.data[key.value] + 1);
        return;
      }
      if |keyHits.order| >= MAX_TRACKED_KEYS {
        var coldest := EvictColdestKey();
        PutValid(keyHits, key.value, coldest + 1);
        keyHits := keyHits.Put(key.value, coldest + 1);
        return;
      }
      PutValid(keyHits, key.value, 1);
      keyHits := keyHits.Put(key.value, 1);
    }

    /** Removes the oldest of the least-hit keys and answers with its count. */
    method EvictColdestKey() returns (coldestHits: nat)
      requires Valid()
      modifies this`keyHits
      ensures Valid()
      ensures old(keyHits).order == [] ==> keyHits == old(keyHits) && coldestHits == 0
      ensures old(keyHits).order != [] ==>
                var coldest := Coldest(old(keyHits));
                keyHits == old(keyHits).Without({coldest}) && coldestHits == old(keyHits).data[coldest]
      ensures old(keyHits).order != [] ==> FirstLeastHitGone(old(keyHits), keyHits, coldestHits)
    {
      if keyHits.order == [] {
        return 0;
      }
      var best := 0;
      for i := 1 to |keyHits.order|
        invariant keyHits == old(keyHits) && best < i
        invariant forall j :: 0 <= j < i ==> keyHits.data[keyHits.order[best]] <= keyHits.data[keyHits.order[j]]
        invariant forall j :: 0 <= j < best ==> keyHits.data[keyHits.order[best]] < keyHits.data[keyHits.order[j]]
      {
        if keyHits.data[keyHits.order[i]] < keyHits.data[keyHits.order[best]] {
          best := i;
        }
      }
      ColdestIsUnique(keyHits, best);
      var coldest := keyHits.order[best];
      assert FirstLeastHit(keyHits, coldest);
      coldestHits := keyHits.data[coldest];
      WithoutValid(keyHits, {coldest});
      keyHits := keyHits.Without({coldest});
    }

    /** The tracked keys, hottest first, ties in order of arrival. */
    method GetHotKeys(topN: int) returns (hot: seq<(string, nat)>)
      requires Valid()
      ensures hot == Hottest(keyHits, topN)
    {
      var entries: seq<(string, nat)> := [];
      for i := 0 to |keyHits.order|
        invariant entries == Entries(keyHits, keyHits.order[..i])
      {
        assert keyHits.order[..i + 1] == keyHits.order[..i] + [keyHits.order[i]];
        entries := entries + [(keyHits.order[i], keyHits.data[keyHits.order[i]])];
      }
      assert keyHits.order[..|keyHits.order|] == keyHits.order;
      var sorted := SortedByHits(entries);
      hot := FirstOf(sorted, topN);
    }

    method Reset()
      modifies this
      ensures Valid() && hits == 0 && keyHits == Empty()
    {
      hits, keyHits := 0, Empty();
    }
  }

  lemma ColdestIsUnique(m: Counts, best: nat)
    requires m.Valid() && best < |m.order|
    requires forall j :: 0 <= j < |m.order| ==> m.data[m.order[best]] <= m.data[m.order[j]]
    requires forall j :: 0 <= j < best ==> m.data[m.order[best]] < m.data[m.order[j]]
    ensures best == ColdestIndex(m)
  {
  }

  function Entries(m: Counts, keys: seq<string>): (r: seq<(string, nat)>)
    requires forall i :: 0 <= i < |keys| ==> keys[i] in m.data
    ensures |r| == |keys|
    ensures forall i :: 0 <= i < |keys| ==> r[i] == (keys[i], m.data[keys[i]])
  {
    seq(|keys|, i requires 0 <= i < |keys| => (keys[i], m.data[keys[i]]))
  }

  /** Stable insertion: equals stay in order of arrival. */
  function Inserted(e: (string, nat), sorted: seq<(string, nat)>): seq<(string, nat)> {
    if sorted == [] || e.1 >= sorted[0].1 then [e] + sorted
    else [sorted[0]] + Inserted(e, sorted[1..])
  }

  function SortedByHits(entries: seq<(string, nat)>): seq<(string, nat)> {
    if entries == [] then [] else Inserted(entries[0], SortedByHits(entries[1..]))
  }

  function Hottest(m: Counts, topN: int): seq<(string, nat)>
    requires m.Valid()
  {
    FirstOf(SortedByHits(Entries(m, m.order)), topN)
  }

  // ---------------------------------------------------------------------------
  // The Space-Saving bounds
  // ---------------------------------------------------------------------------

  /** The table after a stream of keyed hits. */
  ghost function After(hits: seq<string>, cap: nat): (m: Counts)
    ensures m.Valid()
  {
    if hits == [] then Empty()
    else
      var before := After(hits[..|hits| - 1], cap);
      CountedValid(before, hits[|hits| - 1], cap);
      Counted(before, hits[|hits| - 1], cap)
  }

  lemma CountedValid(m: Counts, key: string, cap: nat)
    requires m.Valid()
    ensures Counted(m, key, cap).Valid()
  {
    if m.order != [] {
      WithoutValid(m, {Coldest(m)});
    }
  }

  function TrueCount(hits: seq<string>, key: string): nat {
    multiset(hits)[key]
  }

  function Sum(order: seq<string>, data: map<string, nat>): nat
    requires forall k :: k in order ==> k in data
  {
    if order == [] then 0 else data[order[0]] + Sum(order[1..], data)
  }

  lemma {:induction false} SumAgrees(order: seq<string>, a: map<string, nat>, b: map<string, nat>)
    requires forall k :: k in order ==> k in a && k in b && a[k] == b[k]
    ensures Sum(order, a) == Sum(order, b)
  {
    if order != [] {
      SumAgrees(order[1..], a, b);
    }
  }

  lemma {:induction false} SumAppend(order: seq<string>, key: string, data: map<string, nat>)
    requires key in data && forall k :: k in order ==> k in data
    ensures Sum(order + [key], data) == Sum(order, data) + data[key]
  {
    if order == [] {
      assert order + [key] == [key];
    } else {
      SumAppend(order[1..], key, data);
      assert (order + [key])[1..] == order[1..] + [key];
    }
  }

  lemma {:induction false} SumMinusOne(order: seq<string>, key: string, data: map<string, nat>)
    requires Distinct(order) && key in order && forall k :: k in order ==> k in data
    ensures |Minus(order, {key})| == |order| - 1
    ensures Sum(Minus(order, {key}), data) == Sum(order, data) - data[key]
  {
    if order[0] == key {
      MinusNothing(order[1..], {key});
    } else {
      SumMinusOne(order[1..], key, data);
    }
  }

  /** Raising one count raises the sum by as much. */
  lemma {:induction false} SumRaised(order: seq<string>, key: string, data: map<string, nat>, v: nat)
    requires Distinct(order) && key in order && forall k :: k in order ==> k in data
    ensures Sum(order, data[key := v]) == Sum(order, data) - data[key] + v
  {
    if order[0] == key {
      SumAgrees(order[1..], data, data[key := v]);
    } else {
      SumRaised(order[1..], key, data, v);
    }
  }

  lemma {:induction false} SumAtLeast(order: seq<string>, data: map<string, nat>, low: nat)
    requires forall k :: k in order ==> k in data && low <= data[k]
    ensures |order| * low <= Sum(order, data)
  {
    if order != [] {
      SumAtLeast(order[1..], data, low);
      assert |order| * low == low + |order[1..]| * low;
    }
  }

  /**
   What the table keeps of the true counts: below capacity it is exact; at capacity no
   count, tracked or not, is off by more than the smallest count in it.
   */
  ghost predicate Close(data: map<string, nat>, full: bool, hits: seq<string>) {
    && (forall k :: k in data ==> TrueCount(hits, k) <= data[k])
    && (!full ==> forall k :: TrueCount(hits, k) == if k in data then data[k] else 0)
    && (forall j, k :: j in data && k in data ==> data[k] - TrueCount(hits, k) <= data[j])
    && (full ==> forall j, k :: j in data && k !in data ==> TrueCount(hits, k) <= data[j])
  }

  ghost predicate Summary(m: Counts, hits: seq<string>, cap: nat)
    requires m.Valid()
  {
    && |m.order| <= cap
    && Sum(m.order, m.data) == |hits|
    && Close(m.data, |m.order| == cap, hits)
  }

  lemma CountedKeepsSum(m: Counts, key: string, cap: nat)
    requires m.Valid() && cap >= 1 && |m.order| <= cap
    ensures var after := Counted(m, key, cap);
            after.Valid() && |after.order| <= cap && Sum(after.order, after.data) == Sum(m.order, m.data) + 1
  {
    CountedValid(m, key, cap);
    var after := Counted(m, key, cap);
    if key in m.data {
      SumRaised(m.order, key, m.data, m.data[key] + 1);
    } else if |m.order| >= cap {
      var coldest := Coldest(m);
      SumMinusOne(m.order, coldest, m.data);
      SumAppend(Minus(m.order, {coldest}), key, after.data);
      SumAgrees(Minus(m.order, {coldest}), m.data, after.data);
    } else {
      SumAppend(m.order, key, after.data);
      SumAgrees(m.order, m.data, after.data);
    }
  }

  lemma OneMoreHit(hits: seq<string>, key: string, k: string)
    ensures TrueCount(hits + [key], k) == TrueCount(hits, k) + if k == key then 1 else 0
  {
  }

  lemma TrackedHitStaysClose(data: map<string, nat>, full: bool, hits: seq<string>, key: string)
    requires Close(data, full, hits) && key in data
    ensures Close(data[key := data[key] + 1], full, hits + [key])
  {
    forall k { OneMoreHit(hits, key, k); }
  }

  lemma NewcomerStaysClose(data: map<string, nat>, full: bool, hits: seq<string>, key: string)
    requires Close(data, false, hits) && key !in data
    ensures Close(data[key := 1], full, hits + [key])
  {
    forall k { OneMoreHit(hits, key, k); }
  }

  /** The newcomer inherits the smallest count, which bounds both its own past and the evicted key's. */
  lemma EvictionStaysClose(data: map<string, nat>, coldest: string, hits: seq<string>, key: string)
    requires Close(data, true, hits) && key !in data
    requires coldest in data && forall j :: j in data ==> data[coldest] <= data[j]
    ensures Close((data - {coldest})[key := data[coldest] + 1], true, hits + [key])
  {
    forall k { OneMoreHit(hits, key, k); }
  }

  lemma CountedKeepsSummary(m: Counts, hits: seq<string>, key: string, cap: nat)
    requires m.Valid() && cap >= 1 && Summary(m, hits, cap)
    ensures Counted(m, key, cap).Valid() && Summary(Counted(m, key, cap), hits + [key], cap)
  {
    hide Close, Sum, Coldest, Minus, TrueCount;
    CountedKeepsSum(m, key, cap);
    if key in m.data {
      TrackedHitStaysClose(m.data, |m.order| == cap, hits, key);
    } else if |m.order| >= cap {
      var coldest := Coldest(m);
      ColdestIsSmallest(m);
      SumMinusOne(m.order, coldest, m.data);
      EvictionStaysClose(m.data, coldest, hits, key);
    } else {
      NewcomerStaysClose(m.data, |m.order| + 1 == cap, hits, key);
    }
  }

  lemma EmptySummary(cap: nat)
    requires cap >= 1
    ensures Summary(Empty(), [], cap)
  {
  }

  lemma {:induction false} StreamSummary(hits: seq<string>, cap: nat)
    requires cap >= 1
    ensures Summary(After(hits, cap), hits, cap)
  {
    hide Summary, Counted;
    if hits == [] {
      EmptySummary(cap);
    } else {
      var n := |hits| - 1;
      StreamSummary(hits[..n], cap);
      CountedKeepsSummary(After(hits[..n], cap), hits[..n], hits[n], cap);
      assert hits == hits[..n] + [hits[n]];
    }
  }

  /** The smallest count of a full table is at most N/cap. */
  lemma SmallestIsSmall(m: Counts, hits: seq<string>, cap: nat, j: string)
    requires m.Valid() && Summary(m, hits, cap) && |m.order| == cap
    requires j in m.data && forall k :: k in m.data ==> m.data[j] <= m.data[k]
    ensures cap * m.data[j] <= |hits|
  {
    SumAtLeast(m.order, m.data, m.data[j]);
  }

  /**
   For every stream of N keyed hits: the counts sum to N over at most `cap` keys, each is at
   least the true count and exceeds it by at most N/cap, and no key with more than N/cap
   hits is missing.
   */
  lemma {:induction false} SpaceSavingBounds(hits: seq<string>, cap: nat)
    requires cap >= 1
    ensures var m := After(hits, cap);
            && |m.order| <= cap
            && Sum(m.order, m.data) == |hits|
            && (forall k :: k in m.data ==> TrueCount(hits, k) <= m.data[k])
            && (forall k :: k in m.data ==> cap * (m.data[k] - TrueCount(hits, k)) <= |hits|)
            && (forall k :: cap * TrueCount(hits, k) > |hits| ==> k in m.data)
  {
    hide After, TrueCount, Sum, Minus;
    StreamSummary(hits, cap);
    CloseWithinShare(After(hits, cap), hits, cap);
  }

  lemma CloseWithinShare(m: Counts, hits: seq<string>, cap: nat)
    requires m.Valid() && cap >= 1 && Summary(m, hits, cap)
    ensures forall k :: k in m.data ==> cap * (m.data[k] - TrueCount(hits, k)) <= |hits|
    ensures forall k :: k !in m.data ==> cap * TrueCount(hits, k) <= |hits|
  {
    hide Sum, TrueCount;
    if |m.order| == cap {
      var low := Coldest(m);
      ColdestIsSmallest(m);
      SmallestIsSmall(m, hits, cap, low);
      forall k | k in m.data ensures cap * (m.data[k] - TrueCount(hits, k)) <= |hits| {
        Scale(cap, m.data[k] - TrueCount(hits, k), m.data[low]);
      }
      forall k | k !in m.data ensures cap * TrueCount(hits, k) <= |hits| {
        Scale(cap, TrueCount(hits, k), m.data[low]);
      }
    }
  }

  lemma Scale(cap: nat, a: int, b: int)
    requires a <= b
    ensures cap * a <= cap * b
  {
  }

  /** As long as no more than `cap` keys have been hit, every count is the true one and nothing is evicted. */
  lemma {:induction false} FewKeysAreExact(hits: seq<string>, cap: nat, keys: set<string>)
    requires cap >= 1 && |keys| <= cap && forall k <- hits :: k in keys
    ensures var m := After(hits, cap);
            && (forall k :: k in m.data <==> k in hits)
            && (forall k :: k in m.data ==> m.data[k] == TrueCount(hits, k))
  {
    if hits != [] {
      var n := |hits| - 1;
      var front, last := hits[..n], hits[n];
      FewKeysAreExact(front, cap, keys);
      var m := After(front, cap);
      assert hits == front + [last];
      hide After, TrueCount, Counted, Distinct;
      AfterOneMore(front, last, cap);
      if last !in m.data {
        OrderFits(m, keys - {last});
      }
      CountedStaysExact(m, front, last, cap);
    }
  }

  lemma CountedStaysExact(m: Counts, hits: seq<string>, key: string, cap: nat)
    requires m.Valid() && (key !in m.data ==> |m.order| < cap)
    requires forall k :: k in m.data <==> k in hits
    requires forall k :: k in m.data ==> m.data[k] == TrueCount(hits, k)
    ensures var after := Counted(m, key, cap).data;
            && (forall k :: k in after <==> k in hits + [key])
            && (forall k :: k in after ==> after[k] == TrueCount(hits + [key], k))
  {
    hide TrueCount, Coldest, Distinct, Minus;
    NeverHit(hits, key);
    forall k { OneMoreHit(hits, key, k); }
  }

  lemma NeverHit(hits: seq<string>, key: string)
    ensures key !in hits ==> TrueCount(hits, key) == 0
  {
  }

  lemma AfterOneMore(hits: seq<string>, key: string, cap: nat)
    ensures After(hits + [key], cap) == Counted(After(hits, cap), key, cap)
  {
    assert (hits + [key])[..|hits|] == hits;
  }

  lemma OrderFits(m: Counts, keys: set<string>)
    requires m.Valid() && m.data.Keys <= keys
    ensures |m.order| <= |keys|
  {
    OrderCounts(m);
    assert keys == m.data.Keys + (keys - m.data.Keys);
  }

  // ---------------------------------------------------------------------------
  // The ranking
  // ---------------------------------------------------------------------------

  ghost predicate Descending(s: seq<(string, nat)>) {
    forall i, j :: 0 <= i < j < |s| ==> s[i].1 >= s[j].1
  }

  lemma {:induction false} InsertedKeeps(e: (string, nat), s: seq<(string, nat)>)
    ensures multiset(Inserted(e, s)) == multiset(s) + multiset{e}
  {
    if s != [] && e.1 < s[0].1 {
      InsertedKeeps(e, s[1..]);
      assert s == [s[0]] + s[1..];
    }
  }

  lemma {:induction false} InsertedSorts(e: (string, nat), s: seq<(string, nat)>)
    requires Descending(s)
    ensures Descending(Inserted(e, s))
  {
    if s != [] && e.1 < s[0].1 {
      var rest := Inserted(e, s[1..]);
      InsertedSorts(e, s[1..]);
      InsertedKeeps(e, s[1..]);
      forall x | x in rest ensures s[0].1 >= x.1 {
        assert x in multiset(rest);
      }
    }
  }

  /** The ranking lists the same entries, hottest first. */
  lemma {:induction false} RankingSorts(entries: seq<(string, nat)>)
    ensures Descending(SortedByHits(entries)) && multiset(SortedByHits(entries)) == multiset(entries)
  {
    if entries != [] {
      RankingSorts(entries[1..]);
      InsertedSorts(entries[0], SortedByHits(entries[1..]));
      InsertedKeeps(entries[0], SortedByHits(entries[1..]));
      assert entries == [entries[0]] + entries[1..];
    }
  }

  /** The entries with `count` hits, in the order they come. */
  function OfHits(entries: seq<(string, nat)>, count: nat): seq<(string, nat)> {
    if entries == [] then []
    else (if entries[0].1 == count then [entries[0]] else []) + OfHits(entries[1..], count)
  }

  lemma OfHitsCons(e: (string, nat), s: seq<(string, nat)>, count: nat)
    ensures OfHits([e] + s, count) == (if e.1 == count then [e] else []) + OfHits(s, count)
  {
    assert ([e] + s)[1..] == s;
  }

  lemma {:induction false} InsertedBeforeEquals(e: (string, nat), s: seq<(string, nat)>, count: nat)
    ensures OfHits(Inserted(e, s), count) == (if e.1 == count then [e] else []) + OfHits(s, count)
  {
    if s == [] || e.1 >= s[0].1 {
      assert Inserted(e, s) == [e] + s;
      OfHitsCons(e, s, count);
    } else {
      InsertedBeforeEquals(e, s[1..], count);
      var first, rest := s[0], Inserted(e, s[1..]);
      assert Inserted(e, s) == [first] + rest && s == [first] + s[1..];
      OfHitsCons(first, rest, count);
      OfHitsCons(first, s[1..], count);
      hide Inserted, OfHits;
      if e.1 == count {
        assert [] + ([e] + OfHits(s[1..], count)) == [e] + ([] + OfHits(s[1..], count));
      }
    }
  }

  /** Keys with the same count are ranked in the order of the table. */
  lemma {:induction false} RankingIsStable(entries: seq<(string, nat)>, count: nat)
    ensures OfHits(SortedByHits(entries), count) == OfHits(entries, count)
  {
    if entries != [] {
      RankingIsStable(entries[1..], count);
      InsertedBeforeEquals(entries[0], SortedByHits(entries[1..]), count);
    }
  }

  /**
   A key left out of the ranking was truly hit no more often than any listed key is credited
   with, tracked or not; so a listed key's true count falls short of it by at most N/cap.
   */
  lemma {:induction false} RankingIsTrustworthy(hits: seq<string>, cap: nat, topN: int, i: nat, other: string)
    requires cap >= 1
    requires i < |Hottest(After(hits, cap), topN)|
    requires forall e :: e in Hottest(After(hits, cap), topN) ==> e.0 != other
    ensures var (key, credited) := Hottest(After(hits, cap), topN)[i];
            && TrueCount(hits, other) <= credited
            && cap * (TrueCount(hits, other) - TrueCount(hits, key)) <= |hits|
  {
    hide After, TrueCount, Sum, Summary, Hottest, Distinct;
    StreamSummary(hits, cap);
    var m := After(hits, cap);
    CloseWithinShare(m, hits, cap);
    ListedIsTracked(m, topN, i);
    if other in m.data {
      LeftOutIsCooler(m, topN, i, other);
    }
    var (key, credited) := Hottest(m, topN)[i];
    CoolerIsCovered(m, hits, cap, key, other);
    Scale(cap, TrueCount(hits, other) - TrueCount(hits, key), m.data[key] - TrueCount(hits, key));
  }

  lemma CoolerIsCovered(m: Counts, hits: seq<string>, cap: nat, key: string, other: string)
    requires m.Valid() && Summary(m, hits, cap) && key in m.data
    requires other in m.data ==> m.data[other] <= m.data[key]
    ensures TrueCount(hits, other) <= m.data[key]
  {
  }

  lemma ListedIsTracked(m: Counts, topN: int, i: nat)
    requires m.Valid() && i < |Hottest(m, topN)|
    ensures var (key, credited) := Hottest(m, topN)[i];
            key in m.data && credited == m.data[key]
  {
    var entries := Entries(m, m.order);
    var sorted := SortedByHits(entries);
    RankingSorts(entries);
    assert sorted[i] in multiset(sorted);
    assert sorted[i] in entries;
  }

  lemma LeftOutIsCooler(m: Counts, topN: int, i: nat, other: string)
    requires m.Valid() && i < |Hottest(m, topN)| && other in m.data
    requires forall e :: e in Hottest(m, topN) ==> e.0 != other
    ensures m.data[other] <= Hottest(m, topN)[i].1
  {
    hide SortedByHits, Distinct;
    var entries := Entries(m, m.order);
    var sorted := SortedByHits(entries);
    RankingSorts(entries);
    var p :| 0 <= p < |m.order| && m.order[p] == other;
    assert entries[p] in multiset(entries);
    assert entries[p] in sorted;
    var q :| 0 <= q < |sorted| && sorted[q] == entries[p];
    assert forall n :: 0 <= n < |Hottest(m, topN)| ==> Hottest(m, topN)[n].0 != other;
  }

  /**
   The ranking lists as many tracked keys as asked for, or all but that many for a negative
   number: each once, with its own count, hottest first, and none that is left out is hotter.
   */
  lemma RankingIsExact(m: Counts, topN: int)
    requires m.Valid()
    ensures var hot := Hottest(m, topN);
            && |hot| == (if topN >= |m.order| then |m.order|
                         else if topN >= 0 then topN
                         else if |m.order| + topN >= 0 then |m.order| + topN
                         else 0)
            && (forall i :: 0 <= i < |hot| ==> hot[i].0 in m.data && hot[i].1 == m.data[hot[i].0])
            && (forall i, j :: 0 <= i < j < |hot| ==> hot[i].0 != hot[j].0 && hot[i].1 >= hot[j].1)
            && (forall i, k :: 0 <= i < |hot| && k in m.data && (forall e <- hot :: e.0 != k) ==> m.data[k] <= hot[i].1)
  {
    var hot, entries := Hottest(m, topN), Entries(m, m.order);
    RankingSorts(entries);
    RankedOnce(entries);
    assert |SortedByHits(entries)| == |multiset(entries)| == |m.order|;
    hide SortedByHits, Distinct;
    forall i | 0 <= i < |hot| ensures hot[i].0 in m.data && hot[i].1 == m.data[hot[i].0] {
      ListedIsTracked(m, topN, i);
    }
    forall i, k | 0 <= i < |hot| && k in m.data && (forall e <- hot :: e.0 != k) ensures m.data[k] <= hot[i].1 {
      LeftOutIsCooler(m, topN, i, k);
    }
  }

  ghost predicate NamedOnce(s: seq<(string, nat)>) {
    forall i, j :: 0 <= i < j < |s| ==> s[i].0 != s[j].0
  }

  lemma {:induction false} InsertedOnce(e: (string, nat), s: seq<(string, nat)>)
    requires NamedOnce(s) && forall x <- s :: x.0 != e.0
    ensures NamedOnce(Inserted(e, s)) && forall x :: x in Inserted(e, s) <==> x == e || x in s
  {
    if s == [] || e.1 >= s[0].1 {
      assert Inserted(e, s) == [e] + s;
    } else {
      assert forall i :: 0 <= i < |s[1..]| ==> s[1..][i] == s[i + 1];
      assert forall x :: x in s <==> x == s[0] || x in s[1..];
      InsertedOnce(e, s[1..]);
      var rest := Inserted(e, s[1..]);
      assert Inserted(e, s) == [s[0]] + rest;
      assert forall x <- rest :: x.0 != s[0].0;
    }
  }

  /** A list that names each key once still does when it is ranked. */
  lemma {:induction false} RankedOnce(entries: seq<(string, nat)>)
    requires NamedOnce(entries)
    ensures NamedOnce(SortedByHits(entries)) && forall x :: x in SortedByHits(entries) <==> x in entries
  {
    if entries != [] {
      assert forall i :: 0 <= i < |entries[1..]| ==> entries[1..][i] == entries[i + 1];
      RankedOnce(entries[1..]);
      InsertedOnce(entries[0], SortedByHits(entries[1..]));
      assert forall x :: x in entries <==> x == entries[0] || x in entries[1..];
    }
  }
}
