/**
 Uniform integers from random 32-bit words, by rejection: a word at or above the largest
 multiple of the range is thrown away and another one is drawn.
 */
module RandomInt {
  import opened Results

  const WORDS: nat := 0x1_0000_0000

  type Word = w: nat | w < WORDS

  /** A number as the host language has them: the remainder by zero is none. */
  datatype Number = NaN | Int(value: int)

  /** For a range above zero, words below this are accepted. */
  function Limit(range: nat): nat
    requires range > 0
  {
    WORDS / range * range
  }

  function Abs(n: int): nat {
    if n < 0 then -n else n
  }

  /** The rounded-down quotient times the range, whatever its sign. */
  function LimitFor(range: int): Number {
    if range == 0 then NaN
    else if range > 0 then Int(Limit(range))
    else Int((WORDS + Abs(range) - 1) / Abs(range) * Abs(range))
  }

  /** No comparison with NaN holds, so with it every word is accepted. */
  predicate Accepted(word: Word, range: int) {
    LimitFor(range) == NaN || word < LimitFor(range).value
  }

  /** The index of the first accepted word, if there is one. */
  function FirstAccepted(words: seq<Word>, range: int): (index: Option<nat>)
    ensures index.None? ==> forall i | 0 <= i < |words| :: !Accepted(words[i], range)
    ensures index.Some? ==>
              && index.value < |words| && Accepted(words[index.value], range)
              && forall i | 0 <= i < index.value :: !Accepted(words[i], range)
  {
    if words == [] then None
    else if Accepted(words[0], range) then Some(0)
    else match FirstAccepted(words[1..], range)
      case None => None
      case Some(index) => Some(index + 1)
  }

  /** The remainder has the sign of the word, whatever the sign of the range. */
  function ResultOf(word: Word, range: int, min: int): Number {
    if range == 0 then NaN else Int(min + word % Abs(range))
  }

  /** The result of drawing from `words`; nothing if every word is rejected and the loop goes on. */
  function Drawn(words: seq<Word>, range: int, min: int): Option<Number> {
    match FirstAccepted(words, range)
    case None => None
    case Some(index) => Some(ResultOf(words[index], range, min))
  }

  /** A single bound is the upper one. */
  method Draw(words: seq<Word>, first: int, second: Option<int>) returns (result: Option<Number>, used: nat)
    ensures var min := if second.Some? then first else 0;
            var max := if second.Some? then second.value else first;
            && result == Drawn(words, max - min, min)
            && (result.Some? && min < max ==> result.value.Int? && min <= result.value.value < max)
            && used <= |words| && (result.None? ==> used == |words|)
            && (result.Some? ==> FirstAccepted(words, max - min) == Some(used - 1))
    ensures var min := if second.Some? then first else 0;
            DrawnFrom(words, min, if second.Some? then second.value else first, result, used)
  {
    hide DrawnFrom;
    DrawnExactly(words, if second.Some? then first else 0, if second.Some? then second.value else first);
    var min, max := first, second;
    if max.None? {
      max := Some(min);
      min := 0;
    }
    var range := max.value - min;
    var limit := LimitFor(range);
    hide Limit, LimitFor, ResultOf, FirstAccepted, FirstFrom;
    used := 0;
    FirstFromStart(words, range);
    while true
      invariant used <= |words|
      invariant FirstAccepted(words, range) == FirstFrom(words, used, range)
      decreases |words| - used
    {
      NextWord(words, used, range);
      if used == |words| {
        return None, used;
      }
      var word := words[used];
      used := used + 1;
      if limit.NaN? || word < limit.value {
        ResultInRange(word, range, min);
        return Some(ResultOf(word, range, min)), used;
      }
    }
  }

  /** The first accepted word from `used` on, by its index in the whole stream. */
  function FirstFrom(words: seq<Word>, used: nat, range: int): Option<nat>
    requires used <= |words|
  {
    match FirstAccepted(words[used..], range)
    case None => None
    case Some(index) => Some(used + index)
  }

  lemma FirstFromStart(words: seq<Word>, range: int)
    ensures FirstAccepted(words, range) == FirstFrom(words, 0, range)
  {
    assert words[0..] == words;
  }

  lemma NextWord(words: seq<Word>, used: nat, range: int)
    requires used <= |words|
    ensures FirstFrom(words, used, range) ==
            if used == |words| then None
            else if Accepted(words[used], range) then Some(used)
            else FirstFrom(words, used + 1, range)
  {
    if used < |words| {
      assert words[used..][1..] == words[used + 1..];
    }
  }

  lemma ResultInRange(word: Word, range: int, min: int)
    ensures range > 0 ==> ResultOf(word, range, min).Int? && min <= ResultOf(word, range, min).value < min + range
  {
  }

  /** The words of the last, incomplete stretch of the range's length are thrown away; without a range none is. */
  lemma AcceptedExactly(range: int)
    ensures forall word: Word :: Accepted(word, range) <==> range <= 0 || word < WORDS - WORDS % range
  {
    if range <= 0 {
      WiderThanWords(range);
    } else {
      assert WORDS == WORDS / range * range + WORDS % range;
    }
  }

  /**
   With bounds in order, `used` words were drawn, all but the last thrown away, and the last one
   decides; otherwise the very first word does.
   */
  ghost predicate DrawnFrom(words: seq<Word>, min: int, max: int, result: Option<Number>, used: nat) {
    var range := max - min;
    && used <= |words|
    && (range > 0 ==>
          && (forall i :: 0 <= i < used && (result.None? || i < used - 1) ==> words[i] >= WORDS - WORDS % range)
          && (result.None? ==> used == |words|)
          && (result.Some? ==>
                && 0 < used && words[used - 1] < WORDS - WORDS % range
                && result.value == Int(min + words[used - 1] % range)))
    && (range <= 0 && words != [] ==>
          used == 1 && result == Some(if range == 0 then NaN else Int(min + words[0] % -range)))
  }

  lemma DrawnExactly(words: seq<Word>, min: int, max: int)
    ensures var index := FirstAccepted(words, max - min);
            DrawnFrom(words, min, max, Drawn(words, max - min, min),
                      if index.Some? then index.value + 1 else |words|)
  {
    AcceptedExactly(max - min);
    hide Accepted;
    if index :| FirstAccepted(words, max - min) == Some(index) {
      assert Abs(max - min) == if max > min then max - min else min - max;
    }
  }

  predicate DrawsBetween(words: seq<Word>, min: int, max: int) {
    var result := Drawn(words, max - min, min);
    result.Some? ==> result.value.Int? && min <= result.value.value < max
  }

  /** Every draw lies between the bounds exactly when the lower one is below the upper one. */
  lemma {:induction false} InRangeExactly(min: int, max: int)
    ensures (forall words: seq<Word> :: DrawsBetween(words, min, max)) <==> min < max
  {
    if min >= max {
      var words: seq<Word> := [0];
      WiderThanWords(max - min);
      assert FirstAccepted(words, max - min) == Some(0);
      assert !DrawsBetween(words, min, max);
    }
  }

  /** With a range of zero or less the first word is always accepted. */
  lemma WiderThanWords(range: int)
    requires range <= 0
    ensures forall word: Word :: Accepted(word, range)
  {
    if range < 0 {
      var r := Abs(range);
      var n := WORDS + r - 1;
      assert n == n / r * r + n % r;
    }
  }

  // ---------------------------------------------------------------------------
  // The limit wastes less than one range
  // ---------------------------------------------------------------------------

  lemma Multiple(quotient: nat, range: nat, rest: nat)
    requires rest < range
    ensures (quotient * range + rest) % range == rest
    ensures (quotient * range + rest) / range == quotient
  {
    var n := quotient * range + rest;
    assert n / range * range + n % range == n;
    if n / range < quotient {
      Monotone(n / range + 1, quotient, range);
    } else if n / range > quotient {
      Monotone(quotient + 1, n / range, range);
    }
  }

  lemma Monotone(a: nat, b: nat, range: nat)
    requires a <= b
    ensures a * range <= b * range
  {
  }

  /** The limit is the largest multiple of the range that a 32-bit word can reach. */
  lemma {:induction false} LimitIsTight(range: nat)
    requires 0 < range <= WORDS
    ensures Limit(range) % range == 0 && WORDS - range < Limit(range) <= WORDS
  {
    Multiple(WORDS / range, range, 0);
    assert WORDS == WORDS / range * range + WORDS % range;
  }

  /** Past 2^32 the limit is 0 and no word is ever accepted. */
  lemma AcceptsSomeWord(range: int)
    ensures (exists word: Word :: Accepted(word, range)) <==> range <= WORDS
  {
    if range <= 0 {
      WiderThanWords(range);
      var zero: Word := 0;
      assert Accepted(zero, range);
    } else if range <= WORDS {
      LimitIsTight(range);
      var zero: Word := 0;
      assert Accepted(zero, range);
    } else {
      assert WORDS / range == 0 by {
        assert WORDS == 0 * range + WORDS;
        Multiple(0, range, WORDS);
      }
    }
  }

  // ---------------------------------------------------------------------------
  // Uniformity
  // ---------------------------------------------------------------------------

  /** The words below `quotient * range` that leave the given rest. */
  function Preimage(quotient: nat, range: nat, rest: nat): set<nat>
    requires rest < range
  {
    set w | 0 <= w < quotient * range && w % range == rest
  }

  lemma {:induction false} PreimageSize(quotient: nat, range: nat, rest: nat)
    requires rest < range
    ensures |Preimage(quotient, range, rest)| == quotient
  {
    if quotient == 0 {
      assert Preimage(quotient, range, rest) == {};
    } else {
      var below := Preimage(quotient - 1, range, rest);
      var next := (quotient - 1) * range + rest;
      assert quotient * range == (quotient - 1) * range + range;
      Multiple(quotient - 1, range, rest);
      forall w: nat ensures w in Preimage(quotient, range, rest) <==> w in below + {next} {
        if (quotient - 1) * range <= w < quotient * range {
          Multiple(quotient - 1, range, w - (quotient - 1) * range);
        }
      }
      assert Preimage(quotient, range, rest) == below + {next} && next !in below;
      PreimageSize(quotient - 1, range, rest);
    }
  }

  /** Every result in the range comes from exactly floor(2^32 / range) of the accepted words. */
  lemma EveryResultIsAsLikely(range: nat, min: int, result: int)
    requires 0 < range <= WORDS && min <= result < min + range
    ensures |set w: nat | w < Limit(range) && min + w % range == result| == WORDS / range
  {
    PreimageSize(WORDS / range, range, result - min);
    assert (set w: nat | w < Limit(range) && min + w % range == result)
        == Preimage(WORDS / range, range, result - min);
  }

  /** Exchanges the words that give one rest with those that give another. */
  function Exchanged(word: Word, range: nat, a: nat, b: nat): (exchanged: Word)
    requires a < range && b < range
    ensures exchanged < Limit(range) <==> word < Limit(range)
    ensures word < Limit(range) ==>
              && exchanged / range == word / range
              && exchanged % range == if word % range == a then b else if word % range == b then a else word % range
    ensures word >= Limit(range) ==> exchanged == word
  {
    if word >= Limit(range) then word
    else if word % range == a then Moved(word, range, b)
    else if word % range == b then Moved(word, range, a)
    else word
  }

  /** The word with the same quotient and another rest. */
  function Moved(word: Word, range: nat, rest: nat): (moved: Word)
    requires rest < range && word < Limit(range)
    ensures moved < Limit(range) && moved % range == rest && moved / range == word / range
  {
    var quotient := word / range;
    assert word == quotient * range + word % range;
    Multiple(quotient, range, rest);
    assert quotient < WORDS / range by {
      if quotient >= WORDS / range {
        Monotone(WORDS / range, quotient, range);
      }
    }
    Monotone(quotient + 1, WORDS / range, range);
    assert WORDS / range * range <= WORDS;
    quotient * range + rest
  }

  lemma ExchangedTwice(word: Word, range: nat, a: nat, b: nat)
    requires a < range && b < range
    ensures Exchanged(Exchanged(word, range, a, b), range, a, b) == word
  {
    hide Exchanged, Limit;
    var once := Exchanged(word, range, a, b);
    var twice := Exchanged(once, range, a, b);
    if word < Limit(range) {
      SameNumber(twice, word, range);
    }
  }

  lemma SameNumber(m: nat, n: nat, range: nat)
    requires range > 0 && m / range == n / range && m % range == n % range
    ensures m == n
  {
    assert m == m / range * range + m % range;
    assert n == n / range * range + n % range;
  }

  function ExchangedAll(words: seq<Word>, range: nat, a: nat, b: nat): (exchanged: seq<Word>)
    requires a < range && b < range
    ensures |exchanged| == |words|
    ensures forall i | 0 <= i < |words| :: exchanged[i] == Exchanged(words[i], range, a, b)
  {
    seq(|words|, i requires 0 <= i < |words| => Exchanged(words[i], range, a, b))
  }

  /**
   No result is favoured by any run of the loop: exchanging words is a bijection of the word
   streams of each length that takes every stream giving one result to a stream giving the
   other after as many draws.
   */
  lemma {:induction false} StreamsAreBalanced(words: seq<Word>, range: nat, min: int, a: nat, b: nat)
    requires a < range && b < range
    ensures var other := ExchangedAll(words, range, a, b);
            && ExchangedAll(other, range, a, b) == words
            && FirstAccepted(other, range) == FirstAccepted(words, range)
            && (Drawn(words, range, min) == Some(Int(min + a)) <==> Drawn(other, range, min) == Some(Int(min + b)))
  {
    var other := ExchangedAll(words, range, a, b);
    forall i | 0 <= i < |words| ensures ExchangedAll(other, range, a, b)[i] == words[i] {
      ExchangedTwice(words[i], range, a, b);
    }
    if words != [] {
      assert ExchangedAll(words[1..], range, a, b) == other[1..];
      StreamsAreBalanced(words[1..], range, min, a, b);
    }
  }
}
