/** The insertion-ordered map of the host language: overwriting keeps a key's place, deleting forgets it. */
module OrderedMap {

  ghost predicate Distinct<K>(s: seq<K>) {
    forall i, j :: 0 <= i < j < |s| ==> s[i] != s[j]
  }

  /** `s` without the members of `drop`, in the same order. */
  function Minus<K(==, !new)>(s: seq<K>, drop: set<K>): (r: seq<K>)
    ensures forall k :: k in r <==> k in s && k !in drop
  {
    if s == [] then []
    else if s[0] in drop then Minus(s[1..], drop)
    else [s[0]] + Minus(s[1..], drop)
  }

  function Members<K(!new)>(s: seq<K>): set<K> {
    set k | k in s
  }

  lemma DistinctConcat<K(!new)>(a: seq<K>, b: seq<K>)
    requires Distinct(a) && Distinct(b) && Members(a) !! Members(b)
    ensures Distinct(a + b)
  {
    forall i, j | 0 <= i < j < |a + b| ensures (a + b)[i] != (a + b)[j] {
      if i < |a| <= j {
        assert a[i] in Members(a) && b[j - |a|] in Members(b);
      }
    }
  }

  lemma MembersOfPrefix<K(!new)>(s: seq<K>, n: nat)
    requires 0 < n <= |s|
    ensures {s[0]} + Members(s[1..][..n - 1]) == Members(s[..n])
  {
    assert s[..n] == [s[0]] + s[1..][..n - 1];
  }

  datatype Map<K(==, !new), V> = Map(order: seq<K>, data: map<K, V>) {

    ghost predicate Valid() {
      && Distinct(order)
      && forall k :: k in order <==> k in data
    }

    function Put(k: K, v: V): Map<K, V> {
      Map(if k in data then order else order + [k], data[k := v])
    }

    function Without(drop: set<K>): Map<K, V> {
      Map(Minus(order, drop), data - drop)
    }
  }

  function Empty<K(==, !new), V>(): (m: Map<K, V>)
    ensures m.Valid()
  {
    Map([], map[])
  }

  lemma PutValid<K(!new), V>(m: Map<K, V>, k: K, v: V)
    requires m.Valid()
    ensures m.Put(k, v).Valid()
  {
  }

  lemma WithoutValid<K(!new), V>(m: Map<K, V>, drop: set<K>)
    requires m.Valid()
    ensures m.Without(drop).Valid()
  {
    MinusDistinct(m.order, drop);
  }

  lemma {:induction false} MinusDistinct<K(!new)>(s: seq<K>, drop: set<K>)
    requires Distinct(s)
    ensures Distinct(Minus(s, drop))
  {
    if s != [] {
      MinusDistinct(s[1..], drop);
      forall k | k in Minus(s[1..], drop) ensures k != s[0] {
        var i :| 0 <= i < |s[1..]| && s[1..][i] == k;
        assert s[i + 1] == k;
      }
    }
  }

  /** Dropping in two goes, or in one. */
  lemma {:induction false} MinusTwice<K(!new)>(s: seq<K>, a: set<K>, b: set<K>)
    ensures Minus(Minus(s, a), b) == Minus(s, a + b)
  {
    if s != [] {
      MinusTwice(s[1..], a, b);
      if s[0] !in a {
        assert ([s[0]] + Minus(s[1..], a))[1..] == Minus(s[1..], a);
      }
    }
  }

  lemma {:induction false} MinusAppend<K(!new)>(s: seq<K>, t: seq<K>, drop: set<K>)
    ensures Minus(s + t, drop) == Minus(s, drop) + Minus(t, drop)
  {
    if s == [] {
      assert s + t == t;
    } else {
      var whole := s + t;
      assert whole[0] == s[0] && whole[1..] == s[1..] + t;
      MinusAppend(s[1..], t, drop);
      if s[0] !in drop {
        assert [s[0]] + (Minus(s[1..], drop) + Minus(t, drop)) == [s[0]] + Minus(s[1..], drop) + Minus(t, drop);
      }
    }
  }

  lemma {:induction false} MinusNothing<K(!new)>(s: seq<K>, drop: set<K>)
    requires forall k :: k in s ==> k !in drop
    ensures Minus(s, drop) == s
  {
    if s != [] {
      MinusNothing(s[1..], drop);
    }
  }

  /** Only what is there to drop matters. */
  lemma {:induction false} MinusSame<K(!new)>(s: seq<K>, a: set<K>, b: set<K>)
    requires forall k :: k in s ==> (k in a <==> k in b)
    ensures Minus(s, a) == Minus(s, b)
  {
    if s != [] {
      MinusSame(s[1..], a, b);
    }
  }

  lemma WithoutTwice<K(!new), V>(m: Map<K, V>, a: set<K>, b: set<K>)
    ensures m.Without(a).Without(b) == m.Without(a + b)
  {
    MinusTwice(m.order, a, b);
    assert m.data - a - b == m.data - (a + b);
  }

  /** Dropping the oldest key of a valid map. */
  lemma WithoutFirst<K(!new), V>(m: Map<K, V>)
    requires m.Valid() && m.order != []
    ensures m.Without({m.order[0]}).order == m.order[1..]
  {
    MinusNothing(m.order[1..], {m.order[0]});
  }

  lemma WithoutNothing<K(!new), V>(m: Map<K, V>, drop: set<K>)
    requires m.Valid()
    requires forall k :: k in m.data ==> k !in drop
    ensures m.Without(drop) == m
  {
    MinusNothing(m.order, drop);
  }

  lemma {:induction false} MinusEverything<K(!new)>(s: seq<K>, drop: set<K>)
    requires forall k :: k in s ==> k in drop
    ensures Minus(s, drop) == []
  {
    if s != [] {
      MinusEverything(s[1..], drop);
    }
  }

  lemma WithoutAll<K(!new), V>(m: Map<K, V>)
    requires m.Valid()
    ensures m.Without(m.data.Keys) == Empty()
  {
    MinusEverything(m.order, m.data.Keys);
  }

  lemma {:induction false} DistinctCounts<K(!new)>(s: seq<K>)
    requires Distinct(s)
    ensures |Members(s)| == |s|
  {
    if s != [] {
      DistinctCounts(s[1..]);
      assert Members(s) == Members(s[1..]) + {s[0]};
      assert forall i :: 0 <= i < |s[1..]| ==> s[1..][i] == s[i + 1];
    }
  }

  lemma OrderCounts<K(!new), V>(m: Map<K, V>)
    requires m.Valid()
    ensures |m.order| == |m.data.Keys|
  {
    DistinctCounts(m.order);
    assert Members(m.order) == m.data.Keys;
  }

  /** The first `count` elements; a negative count leaves that many off the end. */
  function FirstOf<T>(s: seq<T>, count: int): (r: seq<T>)
    ensures r <= s
  {
    if count >= |s| then s
    else if count >= 0 then s[..count]
    else if count >= -|s| then s[..|s| + count]
    else []
  }
}
