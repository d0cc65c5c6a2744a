/**
 The segment-aware glob matcher of the cache package: two nested greedy matchers, each
 keeping a single backtrack point, against the declarative relation they implement.
 */
module Glob {
  import opened Results
  import opened Strings

  const MAX_KEY_LENGTH := 256

  // ---------------------------------------------------------------------------
  // Declarative meaning, stated on the pattern text
  // ---------------------------------------------------------------------------

  /** `*` is any run of characters, `?` exactly one, anything else is itself. */
  ghost predicate SegmentMatches(pattern: string, value: string)
    decreases |pattern|
  {
    if pattern == [] then value == []
    else if pattern[0] == '*' then
      exists k :: 0 <= k <= |value| && SegmentMatches(pattern[1..], value[k..])
    else
      && value != []
      && (pattern[0] == '?' || pattern[0] == value[0])
      && SegmentMatches(pattern[1..], value[1..])
  }

  /** `**` is zero or more whole segments, anything else is one segment. */
  ghost predicate SegmentsMatch(patterns: seq<string>, values: seq<string>)
    decreases |patterns|
  {
    if patterns == [] then values == []
    else if patterns[0] == "**" then
      exists k :: 0 <= k <= |values| && SegmentsMatch(patterns[1..], values[k..])
    else
      && values != []
      && SegmentMatches(patterns[0], values[0])
      && SegmentsMatch(patterns[1..], values[1..])
  }

  ghost predicate GlobMatches(pattern: string, value: string, sep: char) {
    SegmentsMatch(Split(pattern, sep), Split(value, sep))
  }

  /** What the one-character patterns mean. */
  lemma SegmentAtoms(c: char, value: string)
    ensures SegmentMatches("", value) <==> value == ""
    ensures SegmentMatches("*", value)
    ensures SegmentMatches("?", value) <==> |value| == 1
    ensures c != '*' && c != '?' ==> (SegmentMatches([c], value) <==> value == [c])
  {
    assert value[|value|..] == "" && SegmentMatches("*"[1..], value[|value|..]);
    assert "?"[1..] == "" && [c][1..] == "";
  }

  /** A pattern matches what its two parts match one after the other, which settles what any pattern means. */
  lemma {:induction false} SegmentConcat(a: string, b: string, value: string)
    ensures SegmentMatches(a + b, value) <==>
            exists k :: 0 <= k <= |value| && SegmentMatches(a, value[..k]) && SegmentMatches(b, value[k..])
    decreases |a|
  {
    if a == "" {
      assert a + b == b && value[..0] == "" && value[0..] == value;
      if k :| 0 <= k <= |value| && SegmentMatches(a, value[..k]) && SegmentMatches(b, value[k..]) {
        assert k == 0;
      }
    } else {
      assert (a + b)[0] == a[0] && (a + b)[1..] == a[1..] + b;
      if a[0] == '*' {
        StarThenConcat(a, b, value);
      } else {
        OneThenConcat(a, b, value);
      }
    }
  }

  lemma {:induction false} StarThenConcat(a: string, b: string, value: string)
    requires a != "" && a[0] == '*' && (a + b)[0] == a[0] && (a + b)[1..] == a[1..] + b
    ensures SegmentMatches(a + b, value) <==>
            exists k :: 0 <= k <= |value| && SegmentMatches(a, value[..k]) && SegmentMatches(b, value[k..])
    decreases |a|, 0
  {
    if SegmentMatches(a + b, value) {
      var j :| 0 <= j <= |value| && SegmentMatches(a[1..] + b, value[j..]);
      SegmentConcat(a[1..], b, value[j..]);
      var k :| 0 <= k <= |value[j..]| && SegmentMatches(a[1..], value[j..][..k]) && SegmentMatches(b, value[j..][k..]);
      assert value[..j + k][j..] == value[j..][..k] && value[j + k..] == value[j..][k..];
    }
    if k :| 0 <= k <= |value| && SegmentMatches(a, value[..k]) && SegmentMatches(b, value[k..]) {
      var j :| 0 <= j <= k && SegmentMatches(a[1..], value[..k][j..]);
      assert value[j..][..k - j] == value[..k][j..] && value[j..][k - j..] == value[k..];
      SegmentConcat(a[1..], b, value[j..]);
    }
  }

  lemma {:induction false} OneThenConcat(a: string, b: string, value: string)
    requires a != "" && a[0] != '*' && (a + b)[0] == a[0] && (a + b)[1..] == a[1..] + b
    ensures SegmentMatches(a + b, value) <==>
            exists k :: 0 <= k <= |value| && SegmentMatches(a, value[..k]) && SegmentMatches(b, value[k..])
    decreases |a|, 0
  {
    if SegmentMatches(a + b, value) {
      SegmentConcat(a[1..], b, value[1..]);
      var k :| 0 <= k <= |value[1..]| && SegmentMatches(a[1..], value[1..][..k]) && SegmentMatches(b, value[1..][k..]);
      assert value[..k + 1][1..] == value[1..][..k] && value[k + 1..] == value[1..][k..];
    }
    if k :| 0 <= k <= |value| && SegmentMatches(a, value[..k]) && SegmentMatches(b, value[k..]) {
      assert k > 0 && value[1..][..k - 1] == value[..k][1..] && value[1..][k - 1..] == value[k..];
      SegmentConcat(a[1..], b, value[1..]);
    }
  }

  /** What the one-segment patterns mean. */
  lemma SegmentsAtoms(segment: string, values: seq<string>)
    ensures SegmentsMatch([], values) <==> values == []
    ensures SegmentsMatch(["**"], values)
    ensures segment != "**" ==>
              (SegmentsMatch([segment], values) <==> |values| == 1 && SegmentMatches(segment, values[0]))
  {
    assert ["**"][1..] == [] && [segment][1..] == [];
    assert values[|values|..] == [] && SegmentsMatch(["**"][1..], values[|values|..]);
    assert |values| == 1 ==> values[1..] == [];
  }

  lemma {:induction false} SegmentsConcat(a: seq<string>, b: seq<string>, values: seq<string>)
    ensures SegmentsMatch(a + b, values) <==>
            exists k :: 0 <= k <= |values| && SegmentsMatch(a, values[..k]) && SegmentsMatch(b, values[k..])
    decreases |a|
  {
    if a == [] {
      assert a + b == b && values[..0] == [] && values[0..] == values;
      if k :| 0 <= k <= |values| && SegmentsMatch(a, values[..k]) && SegmentsMatch(b, values[k..]) {
        assert k == 0;
      }
    } else {
      assert (a + b)[0] == a[0] && (a + b)[1..] == a[1..] + b;
      if a[0] == "**" {
        StarsThenConcat(a, b, values);
      } else {
        SegmentThenConcat(a, b, values);
      }
    }
  }

  lemma {:induction false} StarsThenConcat(a: seq<string>, b: seq<string>, values: seq<string>)
    requires a != [] && a[0] == "**" && (a + b)[0] == a[0] && (a + b)[1..] == a[1..] + b
    ensures SegmentsMatch(a + b, values) <==>
            exists k :: 0 <= k <= |values| && SegmentsMatch(a, values[..k]) && SegmentsMatch(b, values[k..])
    decreases |a|, 0
  {
    if SegmentsMatch(a + b, values) {
      var j :| 0 <= j <= |values| && SegmentsMatch(a[1..] + b, values[j..]);
      SegmentsConcat(a[1..], b, values[j..]);
      var k :| 0 <= k <= |values[j..]| && SegmentsMatch(a[1..], values[j..][..k]) &&
               SegmentsMatch(b, values[j..][k..]);
      assert values[..j + k][j..] == values[j..][..k] && values[j + k..] == values[j..][k..];
    }
    if k :| 0 <= k <= |values| && SegmentsMatch(a, values[..k]) && SegmentsMatch(b, values[k..]) {
      var j :| 0 <= j <= k && SegmentsMatch(a[1..], values[..k][j..]);
      assert values[j..][..k - j] == values[..k][j..] && values[j..][k - j..] == values[k..];
      SegmentsConcat(a[1..], b, values[j..]);
    }
  }

  lemma {:induction false} SegmentThenConcat(a: seq<string>, b: seq<string>, values: seq<string>)
    requires a != [] && a[0] != "**" && (a + b)[0] == a[0] && (a + b)[1..] == a[1..] + b
    ensures SegmentsMatch(a + b, values) <==>
            exists k :: 0 <= k <= |values| && SegmentsMatch(a, values[..k]) && SegmentsMatch(b, values[k..])
    decreases |a|, 0
  {
    if SegmentsMatch(a + b, values) {
      SegmentsConcat(a[1..], b, values[1..]);
      var k :| 0 <= k <= |values[1..]| && SegmentsMatch(a[1..], values[1..][..k]) &&
               SegmentsMatch(b, values[1..][k..]);
      assert values[..k + 1][1..] == values[1..][..k] && values[k + 1..] == values[1..][k..];
    }
    if k :| 0 <= k <= |values| && SegmentsMatch(a, values[..k]) && SegmentsMatch(b, values[k..]) {
      assert k > 0 && values[1..][..k - 1] == values[..k][1..] && values[1..][k - 1..] == values[k..];
      SegmentsConcat(a[1..], b, values[1..]);
    }
  }

  // ---------------------------------------------------------------------------
  // Wildcard lists: what the two greedy loops have in common
  // ---------------------------------------------------------------------------

  /** One position of a compiled pattern: any run of values, or one accepted value. */
  datatype Item<P> = Any | One(p: P)

  ghost predicate Matches<P, V>(items: seq<Item<P>>, values: seq<V>, accepts: (P, V) -> bool)
    decreases |items|
  {
    if items == [] then values == []
    else match items[0]
      case Any => exists k :: 0 <= k <= |values| && Matches(items[1..], values[k..], accepts)
      case One(p) => values != [] && accepts(p, values[0]) && Matches(items[1..], values[1..], accepts)
  }

  /** `items` has no wildcard and accepts `values` one for one. */
  ghost predicate Aligned<P, V>(items: seq<Item<P>>, values: seq<V>, accepts: (P, V) -> bool) {
    && |items| == |values|
    && forall i :: 0 <= i < |items| ==> items[i].One? && accepts(items[i].p, values[i])
  }

  lemma AlignedCons<P, V>(items: seq<Item<P>>, values: seq<V>, accepts: (P, V) -> bool)
    requires items != [] && values != []
    ensures Aligned(items, values, accepts) <==>
            items[0].One? && accepts(items[0].p, values[0]) && Aligned(items[1..], values[1..], accepts)
  {
    if Aligned(items[1..], values[1..], accepts) && items[0].One? && accepts(items[0].p, values[0]) {
      forall i | 0 <= i < |items| ensures items[i].One? && accepts(items[i].p, values[i]) {
        if i > 0 {
          assert items[i] == items[1..][i - 1] && values[i] == values[1..][i - 1];
        }
      }
    }
  }

  /** A wildcard-free prefix of the pattern consumes exactly as many values as it is long. */
  lemma {:induction false} MatchesAfterLiterals<P, V>(
    items: seq<Item<P>>, n: nat, values: seq<V>, accepts: (P, V) -> bool)
    requires n <= |items|
    requires forall i :: 0 <= i < n ==> items[i].One?
    ensures Matches(items, values, accepts) <==>
            && n <= |values|
            && Aligned(items[..n], values[..n], accepts)
            && Matches(items[n..], values[n..], accepts)
  {
    if n == 0 {
      assert items[0..] == items && values[0..] == values;
    } else if values != [] {
      MatchesAfterLiterals(items[1..], n - 1, values[1..], accepts);
      assert items[1..][n - 1..] == items[n..];
      if n <= |values| {
        assert values[1..][n - 1..] == values[n..];
        assert items[1..][..n - 1] == items[..n][1..];
        assert values[1..][..n - 1] == values[..n][1..];
        AlignedCons(items[..n], values[..n], accepts);
      }
    }
  }

  /** A pattern that starts with a wildcard matches a list as soon as it matches one of its suffixes. */
  lemma AnyAbsorbs<P, V>(items: seq<Item<P>>, values: seq<V>, k: nat, accepts: (P, V) -> bool)
    requires items != [] && items[0].Any? && k <= |values|
    requires Matches(items, values[k..], accepts)
    ensures Matches(items, values, accepts)
  {
    var j :| 0 <= j <= |values[k..]| && Matches(items[1..], values[k..][j..], accepts);
    assert values[k..][j..] == values[k + j..];
  }

  /** Dropping the alignment at the first value: the wildcard must absorb that value. */
  lemma AnyAdvances<P, V>(items: seq<Item<P>>, values: seq<V>, accepts: (P, V) -> bool)
    requires items != [] && items[0].Any? && values != []
    requires !Matches(items[1..], values, accepts)
    ensures Matches(items, values, accepts) <==> Matches(items, values[1..], accepts)
  {
    if Matches(items, values, accepts) {
      var k :| 0 <= k <= |values| && Matches(items[1..], values[k..], accepts);
      assert values[0..] == values;
      assert k > 0;
      assert values[1..][k - 1..] == values[k..];
    }
    if Matches(items, values[1..], accepts) {
      AnyAbsorbs(items, values, 1, accepts);
    }
  }

  /**
   Why one backtrack point is enough: with the literals after the wildcard aligned at the
   earliest place, the outer wildcard never has to move once another wildcard is reached.
   */
  lemma CommitToLaterAny<P, V>(items: seq<Item<P>>, n: nat, values: seq<V>, accepts: (P, V) -> bool)
    requires n + 1 < |items| && items[0].Any? && items[n + 1].Any? && n <= |values|
    requires Aligned(items[1..n + 1], values[..n], accepts)
    ensures Matches(items, values, accepts) <==> Matches(items[n + 1..], values[n..], accepts)
  {
    var rest := items[1..];
    forall i | 0 <= i < n ensures rest[i].One? {
      assert rest[i] == items[1..n + 1][i];
    }
    assert rest[n..] == items[n + 1..];
    assert rest[..n] == items[1..n + 1];
    if Matches(items, values, accepts) {
      var k :| 0 <= k <= |values| && Matches(rest, values[k..], accepts);
      MatchesAfterLiterals(rest, n, values[k..], accepts);
      assert values[k..][n..] == values[n..][k..];
      AnyAbsorbs(items[n + 1..], values[n..], k, accepts);
    }
    if Matches(items[n + 1..], values[n..], accepts) {
      MatchesAfterLiterals(rest, n, values, accepts);
      assert values[0..] == values;
    }
  }

  /** With the values used up, the literals aligned at the earliest place are the only candidate. */
  lemma AlignedAtEnd<P, V>(items: seq<Item<P>>, n: nat, values: seq<V>, accepts: (P, V) -> bool)
    requires n + 1 <= |items| && items[0].Any? && n == |values|
    requires Aligned(items[1..n + 1], values, accepts)
    ensures Matches(items, values, accepts) <==> Matches(items[n + 1..], [], accepts)
  {
    var rest := items[1..];
    forall i | 0 <= i < n ensures rest[i].One? {
      assert rest[i] == items[1..n + 1][i];
    }
    assert rest[n..] == items[n + 1..];
    assert rest[..n] == items[1..n + 1];
    assert values[..n] == values && values[n..] == [];
    MatchesAfterLiterals(rest, n, values, accepts);
    assert values[0..] == values;
    if Matches(items, values, accepts) {
      var k :| 0 <= k <= |values| && Matches(rest, values[k..], accepts);
      MatchesAfterLiterals(rest, n, values[k..], accepts);
    }
  }

  lemma {:induction false} MatchesNothing<P, V>(items: seq<Item<P>>, accepts: (P, V) -> bool)
    ensures Matches(items, [], accepts) <==> forall i :: 0 <= i < |items| ==> items[i].Any?
  {
    if items != [] {
      MatchesNothing(items[1..], accepts);
      var none: seq<V> := [];
      assert none[0..] == none;
      if forall i :: 0 <= i < |items[1..]| ==> items[1..][i].Any? {
        assert forall i :: 1 <= i < |items| ==> items[i] == items[1..][i - 1];
      }
      if forall i :: 0 <= i < |items| ==> items[i].Any? {
        assert forall i :: 0 <= i < |items[1..]| ==> items[1..][i] == items[i + 1];
      }
      if items[0].Any? && Matches(items, none, accepts) {
        var k :| 0 <= k <= |none| && Matches(items[1..], none[k..], accepts);
      }
    }
  }

  // ---------------------------------------------------------------------------
  // The invariant of a greedy loop with a single backtrack point
  // ---------------------------------------------------------------------------

  /** `ti`, `vi` scan the pattern and the values; `starTi` is -1 until a wildcard was passed. */
  ghost predicate Greedy<P, V>(
    items: seq<Item<P>>, values: seq<V>, accepts: (P, V) -> bool, ti: int, vi: int, starTi: int, starVi: int)
  {
    && 0 <= ti <= |items| && 0 <= vi <= |values|
    && if starTi < 0 then
      && starTi == -1 && ti == vi
      && Aligned(items[..ti], values[..vi], accepts)
    else
      && starTi < ti && 0 <= starVi && ti - (starTi + 1) == vi - starVi >= 0
      && items[starTi].Any?
      && Aligned(items[starTi + 1..ti], values[starVi..vi], accepts)
      && (Matches(items, values, accepts) <==> Matches(items[starTi..], values[starVi..], accepts))
  }

  /** `n` full scans of a pattern of `items` positions. */
  ghost function Scans(n: nat, items: nat): nat {
    if n == 0 then 0 else Scans(n - 1, items) + items + 1
  }

  /**
   What a loop has spent: one scan of the pattern for every backtrack point passed, plus
   the scan in progress.
   */
  ghost predicate Spent(steps: nat, items: nat, values: nat, ti: int, starTi: int, starVi: int) {
    var s := if starTi < 0 then 0 else starVi + 1;
    && 0 <= ti <= items
    && 0 <= s <= values + 1
    && if s <= values then steps <= Scans(s, items) + ti
       else steps <= Scans(values, items) + ti + 1
  }

  /** Every iteration of either loop, the trailing one included, fits in this bound. */
  ghost function IterationBound(items: nat, values: nat): nat {
    (items + 1) * (values + 1)
  }

  lemma {:induction false} ScansMonotone(m: nat, n: nat, items: nat)
    requires m <= n
    ensures Scans(m, items) <= Scans(n, items)
  {
    if m < n {
      ScansMonotone(m, n - 1, items);
    }
  }

  lemma {:induction false} ScansTotal(n: nat, items: nat)
    ensures Scans(n, items) == n * (items + 1)
  {
    if n > 0 {
      ScansTotal(n - 1, items);
    }
  }

  lemma SpentWithinBound(steps: nat, items: nat, values: nat, ti: int, starTi: int, starVi: int)
    requires Spent(steps, items, values, ti, starTi, starVi)
    ensures steps <= IterationBound(items, values)
  {
    ScansMonotone(if starTi < 0 then 0 else if starVi < values then starVi + 1 else values, values, items);
    ScansTotal(values, items);
  }

  /** Each move of the loop pays for itself. */
  lemma SpendOne(steps: nat, items: nat, values: nat, ti: int, vi: int, starTi: int, starVi: int)
    requires Spent(steps, items, values, ti, starTi, starVi)
    requires 0 <= vi < values
    requires starTi < ti && (starTi < 0 || ti - (starTi + 1) == vi - starVi >= 0)
    ensures starTi < 0 ==> steps + 1 <= IterationBound(items, values)
    ensures ti < items ==> Spent(steps + 1, items, values, ti + 1, starTi, starVi)
    ensures ti < items ==> Spent(steps + 1, items, values, ti + 1, ti, vi)
    ensures starTi >= 0 ==> Spent(steps + 1, items, values, starTi + 1, starTi, starVi + 1)
  {
    ScansMonotone(if starTi < 0 then 0 else starVi + 1, vi + 1, items);
    assert (items + 1) * (values + 1) >= items + 1;
  }

  lemma GreedyAtStart<P, V>(items: seq<Item<P>>, values: seq<V>, accepts: (P, V) -> bool)
    ensures Greedy(items, values, accepts, 0, 0, -1, 0)
  {
  }

  lemma ConsumeOne<P, V>(
    items: seq<Item<P>>, values: seq<V>, accepts: (P, V) -> bool, ti: int, vi: int, starTi: int, starVi: int)
    requires Greedy(items, values, accepts, ti, vi, starTi, starVi)
    requires ti < |items| && vi < |values| && items[ti].One? && accepts(items[ti].p, values[vi])
    ensures Greedy(items, values, accepts, ti + 1, vi + 1, starTi, starVi)
  {
    if starTi < 0 {
      assert items[..ti + 1] == items[..ti] + [items[ti]];
      assert values[..vi + 1] == values[..vi] + [values[vi]];
    } else {
      assert items[starTi + 1..ti + 1] == items[starTi + 1..ti] + [items[ti]];
      assert values[starVi..vi + 1] == values[starVi..vi] + [values[vi]];
    }
  }

  lemma EnterAny<P, V>(
    items: seq<Item<P>>, values: seq<V>, accepts: (P, V) -> bool, ti: int, vi: int, starTi: int, starVi: int)
    requires Greedy(items, values, accepts, ti, vi, starTi, starVi)
    requires ti < |items| && vi < |values| && items[ti].Any?
    ensures Greedy(items, values, accepts, ti + 1, vi, ti, vi)
  {
    if starTi < 0 {
      forall i | 0 <= i < ti ensures items[i].One? {
        assert items[i] == items[..ti][i];
      }
      MatchesAfterLiterals(items, ti, values, accepts);
    } else {
      var tail, rest := items[starTi..], values[starVi..];
      var n := ti - (starTi + 1);
      assert tail[1..n + 1] == items[starTi + 1..ti];
      assert rest[..n] == values[starVi..vi];
      CommitToLaterAny(tail, n, rest, accepts);
      assert tail[n + 1..] == items[ti..] && rest[n..] == values[vi..];
    }
  }

  /** The scan is stuck at a value nothing at `ti` accepts. */
  lemma Stuck<P, V>(
    items: seq<Item<P>>, values: seq<V>, accepts: (P, V) -> bool, ti: int, vi: int, starTi: int, starVi: int)
    requires Greedy(items, values, accepts, ti, vi, starTi, starVi)
    requires vi < |values|
    requires ti < |items| ==> items[ti].One? && !accepts(items[ti].p, values[vi])
    ensures starTi < 0 ==> !Matches(items, values, accepts)
    ensures starTi >= 0 ==> Greedy(items, values, accepts, starTi + 1, starVi + 1, starTi, starVi + 1)
  {
    if starTi < 0 {
      forall i | 0 <= i < ti ensures items[i].One? {
        assert items[i] == items[..ti][i];
      }
      MatchesAfterLiterals(items, ti, values, accepts);
    } else {
      var tail, rest := items[starTi..], values[starVi..];
      var n := ti - (starTi + 1);
      forall i | 0 <= i < n ensures tail[1..][i].One? {
        assert tail[1..][i] == items[starTi + 1..ti][i];
      }
      MatchesAfterLiterals(tail[1..], n, rest, accepts);
      assert tail[1..][n..] == items[ti..] && rest[n..] == values[vi..];
      AnyAdvances(tail, rest, accepts);
      assert rest[1..] == values[starVi + 1..];
    }
  }

  lemma ValuesUsedUp<P, V>(
    items: seq<Item<P>>, values: seq<V>, accepts: (P, V) -> bool, ti: int, vi: int, starTi: int, starVi: int)
    requires Greedy(items, values, accepts, ti, vi, starTi, starVi)
    requires vi == |values|
    ensures Matches(items, values, accepts) <==> forall i :: ti <= i < |items| ==> items[i].Any?
  {
    if starTi < 0 {
      forall i | 0 <= i < ti ensures items[i].One? {
        assert items[i] == items[..ti][i];
      }
      MatchesAfterLiterals(items, ti, values, accepts);
    } else {
      var tail, rest := items[starTi..], values[starVi..];
      var n := ti - (starTi + 1);
      assert tail[1..n + 1] == items[starTi + 1..ti] && rest == values[starVi..vi];
      AlignedAtEnd(tail, n, rest, accepts);
      assert tail[n + 1..] == items[ti..];
    }
    MatchesNothing(items[ti..], accepts);
    assert values[vi..] == [];
    if forall i :: 0 <= i < |items[ti..]| ==> items[ti..][i].Any? {
      assert forall i :: ti <= i < |items| ==> items[i] == items[ti..][i - ti];
    }
  }

  // ---------------------------------------------------------------------------
  // One segment
  // ---------------------------------------------------------------------------

  /** What a non-star token accepts. */
  datatype Single = Literal(c: char) | AnyChar

  type Token = Item<Single>

  predicate AcceptsChar(token: Single, c: char) {
    token.AnyChar? || token.c == c
  }

  function TokenOf(c: char): Token {
    if c == '*' then Any else One(if c == '?' then AnyChar else Literal(c))
  }

  /** The token list of a pattern segment, a run of `*` collapsed into one token. */
  function Tokens(segment: string): seq<Token> {
    if segment == [] then []
    else
      var rest := Tokens(segment[1..]);
      if segment[0] == '*' && rest != [] && rest[0].Any? then rest
      else [TokenOf(segment[0])] + rest
  }

  /** Collapsing runs of `*` does not change what a segment pattern matches. */
  lemma {:induction false} TokensKeepMeaning(segment: string, value: string)
    ensures Matches(Tokens(segment), value, AcceptsChar) <==> SegmentMatches(segment, value)
    decreases |segment|
  {
    if segment != [] {
      var rest := Tokens(segment[1..]);
      assert ([TokenOf(segment[0])] + rest)[1..] == rest;
      if segment[0] == '*' {
        forall k | 0 <= k <= |value|
          ensures Matches(rest, value[k..], AcceptsChar) <==> SegmentMatches(segment[1..], value[k..])
        {
          TokensKeepMeaning(segment[1..], value[k..]);
        }
        if rest != [] && rest[0].Any? {
          assert value[0..] == value;
          if k :| 0 <= k <= |value| && Matches(rest, value[k..], AcceptsChar) {
            AnyAbsorbs(rest, value, k, AcceptsChar);
          }
        }
      } else if value != [] {
        TokensKeepMeaning(segment[1..], value[1..]);
      }
    }
  }

  lemma {:induction false} TokensOfLonger(segment: string, c: char)
    ensures Tokens(segment + [c]) ==
            var before := Tokens(segment);
            if c == '*' && before != [] && before[|before| - 1].Any? then before else before + [TokenOf(c)]
  {
    if segment == [] {
      assert segment + [c] == [c];
    } else {
      TokensOfLonger(segment[1..], c);
      assert (segment + [c])[1..] == segment[1..] + [c];
    }
  }

  method TokenizeSegment(segment: string) returns (tokens: seq<Token>)
    ensures tokens == Tokens(segment)
  {
    tokens := [];
    for i := 0 to |segment|
      invariant tokens == Tokens(segment[..i])
    {
      TokensOfLonger(segment[..i], segment[i]);
      assert segment[..i + 1] == segment[..i] + [segment[i]];
      if segment[i] == '*' {
        if tokens != [] && tokens[|tokens| - 1].Any? {
          continue;
        }
        tokens := tokens + [Any];
      } else if segment[i] == '?' {
        tokens := tokens + [One(AnyChar)];
      } else {
        tokens := tokens + [One(Literal(segment[i]))];
      }
    }
    assert segment[..|segment|] == segment;
  }

  /** The greedy single-segment matcher; `steps` counts the iterations of both loops. */
  method MatchSegment(tokens: seq<Token>, value: string) returns (matched: bool, ghost steps: nat)
    ensures matched <==> Matches(tokens, value, AcceptsChar)
    ensures steps <= IterationBound(|tokens|, |value|)
  {
    hide Matches, Aligned;
    var ti, vi := 0, 0;
    var starTi, starVi := -1, 0;
    steps := 0;
    GreedyAtStart(tokens, value, AcceptsChar);
    while vi < |value|
      invariant Greedy(tokens, value, AcceptsChar, ti, vi, starTi, starVi)
      invariant Spent(steps, |tokens|, |value|, ti, starTi, starVi)
      decreases |value| - (if starTi < 0 then -1 else starVi), |tokens| - ti
    {
      SpendOne(steps, |tokens|, |value|, ti, vi, starTi, starVi);
      steps := steps + 1;
      if ti < |tokens| && tokens[ti].One? && AcceptsChar(tokens[ti].p, value[vi]) {
        ConsumeOne(tokens, value, AcceptsChar, ti, vi, starTi, starVi);
        ti, vi := ti + 1, vi + 1;
      } else if ti < |tokens| && tokens[ti].Any? {
        EnterAny(tokens, value, AcceptsChar, ti, vi, starTi, starVi);
        starTi, starVi, ti := ti, vi, ti + 1;
      } else {
        Stuck(tokens, value, AcceptsChar, ti, vi, starTi, starVi);
        if starTi < 0 {
          return false, steps;
        }
        starVi := starVi + 1;
        vi, ti := starVi, starTi + 1;
      }
    }
    ValuesUsedUp(tokens, value, AcceptsChar, ti, vi, starTi, starVi);
    while ti < |tokens| && tokens[ti].Any?
      invariant 0 <= ti <= |tokens|
      invariant Matches(tokens, value, AcceptsChar) <==> forall i :: ti <= i < |tokens| ==> tokens[i].Any?
      invariant Spent(steps, |tokens|, |value|, ti, starTi, starVi)
    {
      steps := steps + 1;
      ti := ti + 1;
    }
    SpentWithinBound(steps, |tokens|, |value|, ti, starTi, starVi);
    matched := ti == |tokens|;
  }

  // ---------------------------------------------------------------------------
  // Whole keys
  // ---------------------------------------------------------------------------

  type Part = Item<seq<Token>>

  ghost predicate AcceptsSegment(tokens: seq<Token>, segment: string) {
    Matches(tokens, segment, AcceptsChar)
  }

  function PartOf(segment: string): Part {
    if segment == "**" then Any else One(Tokens(segment))
  }

  function Parts(segments: seq<string>): (parts: seq<Part>)
    ensures |parts| == |segments|
  {
    seq(|segments|, i requires 0 <= i < |segments| => PartOf(segments[i]))
  }

  /** A compiled pattern means what its segments mean. */
  lemma {:induction false} PartsKeepMeaning(segments: seq<string>, values: seq<string>)
    ensures Matches(Parts(segments), values, AcceptsSegment) <==> SegmentsMatch(segments, values)
    decreases |segments|
  {
    if segments != [] {
      assert Parts(segments)[1..] == Parts(segments[1..]);
      if segments[0] == "**" {
        forall k | 0 <= k <= |values|
          ensures Matches(Parts(segments[1..]), values[k..], AcceptsSegment) <==>
                  SegmentsMatch(segments[1..], values[k..])
        {
          PartsKeepMeaning(segments[1..], values[k..]);
        }
      } else if values != [] {
        TokensKeepMeaning(segments[0], values[0]);
        PartsKeepMeaning(segments[1..], values[1..]);
      }
    }
  }

  /** A glob pattern compiled for one separator. */
  datatype GlobMatcher = GlobMatcher(parts: seq<Part>, separator: char)

  function Compiled(pattern: string, sep: char): GlobMatcher {
    GlobMatcher(Parts(Split(pattern, sep)), sep)
  }

  predicate ValidPattern(pattern: string) {
    0 < |pattern| <= MAX_KEY_LENGTH
  }

  method CreateGlobMatcher(pattern: string, sep: char) returns (r: Result<GlobMatcher>)
    ensures r == if ValidPattern(pattern) then Ok(Compiled(pattern, sep)) else Err(InvalidKey)
  {
    if |pattern| == 0 || |pattern| > MAX_KEY_LENGTH {
      return Err(InvalidKey);
    }
    var segments := Split(pattern, sep);
    var parts: seq<Part> := [];
    for i := 0 to |segments|
      invariant parts == Parts(segments[..i])
    {
      assert Parts(segments[..i + 1]) == Parts(segments[..i]) + [PartOf(segments[i])];
      if segments[i] == "**" {
        parts := parts + [Any];
      } else {
        var tokens := TokenizeSegment(segments[i]);
        parts := parts + [One(tokens)];
      }
    }
    assert segments[..|segments|] == segments;
    return Ok(GlobMatcher(parts, sep));
  }

  /** The greedy matcher over whole segments, calling the segment matcher at each step. */
  method MatchSegments(parts: seq<Part>, values: seq<string>) returns (matched: bool, ghost steps: nat)
    ensures matched <==> Matches(parts, values, AcceptsSegment)
    ensures steps <= IterationBound(|parts|, |values|)
  {
    hide Matches, Aligned;
    var pi, vi := 0, 0;
    var starPi, starVi := -1, 0;
    steps := 0;
    GreedyAtStart(parts, values, AcceptsSegment);
    while vi < |values|
      invariant Greedy(parts, values, AcceptsSegment, pi, vi, starPi, starVi)
      invariant Spent(steps, |parts|, |values|, pi, starPi, starVi)
      decreases |values| - (if starPi < 0 then -1 else starVi), |parts| - pi
    {
      SpendOne(steps, |parts|, |values|, pi, vi, starPi, starVi);
      steps := steps + 1;
      var accepted := false;
      if pi < |parts| && parts[pi].One? {
        ghost var inner;
        accepted, inner := MatchSegment(parts[pi].p, values[vi]);
        assert accepted <==> AcceptsSegment(parts[pi].p, values[vi]);
      }
      if accepted {
        ConsumeOne(parts, values, AcceptsSegment, pi, vi, starPi, starVi);
        pi, vi := pi + 1, vi + 1;
      } else if pi < |parts| && parts[pi].Any? {
        EnterAny(parts, values, AcceptsSegment, pi, vi, starPi, starVi);
        starPi, starVi, pi := pi, vi, pi + 1;
      } else {
        Stuck(parts, values, AcceptsSegment, pi, vi, starPi, starVi);
        if starPi < 0 {
          return false, steps;
        }
        starVi := starVi + 1;
        vi, pi := starVi, starPi + 1;
      }
    }
    ValuesUsedUp(parts, values, AcceptsSegment, pi, vi, starPi, starVi);
    while pi < |parts| && parts[pi].Any?
      invariant 0 <= pi <= |parts|
      invariant Matches(parts, values, AcceptsSegment) <==> forall i :: pi <= i < |parts| ==> parts[i].Any?
      invariant Spent(steps, |parts|, |values|, pi, starPi, starVi)
    {
      steps := steps + 1;
      pi := pi + 1;
    }
    SpentWithinBound(steps, |parts|, |values|, pi, starPi, starVi);
    matched := pi == |parts|;
  }

  /** The compiled matcher decides the declarative relation on the pattern text. */
  method MatchGlob(matcher: GlobMatcher, ghost pattern: string, value: string) returns (matched: bool)
    requires matcher == Compiled(pattern, matcher.separator)
    ensures matched <==> GlobMatches(pattern, value, matcher.separator)
  {
    ghost var steps;
    matched, steps := MatchSegments(matcher.parts, Split(value, matcher.separator));
    PartsKeepMeaning(Split(pattern, matcher.separator), Split(value, matcher.separator));
  }
}
