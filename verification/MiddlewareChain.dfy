/**
 The middleware chain around one cache operation. Each middleware may call `next()` any
 number of times, retry on a failure, replace the result or forget to return one.
 */
module MiddlewareChain {
  import opened Results

  /** What a promise settles to: a value, `undefined`, or a rejection. */
  datatype Reply<T> = Value(value: T) | Undefined | ResultMissing | Failed(code: nat) {
    predicate Throws() {
      ResultMissing? || Failed?
    }
  }

  /** What a middleware does after its calls of `next()` so far settled as they did. */
  datatype Move<T> = CallNext | Finish(reply: Reply<T>)

  /** `react` decides from the replies to its calls; it calls `next()` at most `most` times. */
  datatype Middleware<!T> = Middleware(react: seq<Reply<T>> -> Move<T>, most: nat)

  ghost predicate Settles<T(!new)>(m: Middleware<T>) {
    forall replies: seq<Reply<T>> | |replies| >= m.most :: m.react(replies).Finish?
  }

  /** Entering and leaving a middleware; entering position `|middlewares|` is the operation itself. */
  datatype Event = Entered(index: nat) | Left(index: nat)

  datatype Outcome<T> = Outcome(reply: Reply<T>, log: seq<Event>)

  /** An operation: its replies depend on everything that happened before. */
  datatype Operation<!T> = Operation(run: seq<Event> -> Reply<T>, isTtl: bool)

  /** A middleware resolving `undefined` is an error, except around `ttl`. */
  function Narrowed<T>(operation: Operation<T>, reply: Reply<T>): Reply<T> {
    if reply.Undefined? && !operation.isTtl then ResultMissing else reply
  }

  ghost function Chain<T(!new)>(middlewares: seq<Middleware<T>>, operation: Operation<T>, index: nat, log: seq<Event>)
    : Outcome<T>
    requires index <= |middlewares| && forall m <- middlewares :: Settles(m)
    decreases |middlewares| - index, 1, 0
  {
    if index == |middlewares| then Outcome(operation.run(log), log + [Entered(index)])
    else Inside(middlewares, operation, index, [], log + [Entered(index)])
  }

  /** One activation of the middleware at `index`, its calls so far having settled as `replies`. */
  ghost function Inside<T(!new)>(middlewares: seq<Middleware<T>>, operation: Operation<T>, index: nat,
                           replies: seq<Reply<T>>, log: seq<Event>): Outcome<T>
    requires index < |middlewares| && forall m <- middlewares :: Settles(m)
    decreases |middlewares| - index, 0, middlewares[index].most - |replies|
  {
    match middlewares[index].react(replies)
    case Finish(reply) => Outcome(Narrowed(operation, reply), log + [Left(index)])
    case CallNext =>
      assert Settles(middlewares[index]);
      var next := Chain(middlewares, operation, index + 1, log);
      Inside(middlewares, operation, index, replies + [next.reply], next.log)
  }

  // ---------------------------------------------------------------------------
  // How often each position is entered
  // ---------------------------------------------------------------------------

  function Entries(log: seq<Event>, index: nat): nat {
    multiset(log)[Entered(index)]
  }

  function Times(a: nat, b: nat): (product: nat)
    ensures product == a * b
  {
    if a == 0 then 0 else b + Times(a - 1, b)
  }

  /** The product of the counts at positions `first`, ..., `end - 1`. */
  function Product(counts: seq<nat>, first: nat, end: nat): (product: nat)
    requires first <= end <= |counts|
    decreases end - first
  {
    if first == end then 1 else Times(counts[first], Product(counts, first + 1, end))
  }

  /** As long as nothing throws, `m` calls `next()` between `low` and `high` times and does not throw. */
  ghost predicate Calls<T(!new)>(m: Middleware<T>, operation: Operation<T>, low: nat, high: nat) {
    forall replies: seq<Reply<T>> | forall reply <- replies :: !reply.Throws() ::
      match m.react(replies)
      case CallNext => |replies| < high
      case Finish(reply) => |replies| >= low && !Narrowed(operation, reply).Throws()
  }

  ghost predicate Calm<T(!new)>(middlewares: seq<Middleware<T>>, operation: Operation<T>, low: seq<nat>, high: seq<nat>)
  {
    && (forall m <- middlewares :: Settles(m))
    && |low| == |high| == |middlewares|
    && (forall log :: !operation.run(log).Throws())
    && (forall i | 0 <= i < |middlewares| :: Calls(middlewares[i], operation, low[i], high[i]))
  }

  lemma EntriesConcat(log: seq<Event>, event: Event, index: nat)
    ensures Entries(log + [event], index) == Entries(log, index) + if event == Entered(index) then 1 else 0
  {
  }

  /** From any position on, each later position is entered once per combination of calls before it. */
  lemma {:induction false} ChainEntries<T(!new)>(middlewares: seq<Middleware<T>>, operation: Operation<T>,
      low: seq<nat>, high: seq<nat>, index: nat, log: seq<Event>, at: nat)
    requires Calm(middlewares, operation, low, high)
    requires index <= |middlewares| && at <= |middlewares|
    ensures var outcome := Chain(middlewares, operation, index, log);
            && !outcome.reply.Throws()
            && (at < index ==> Entries(outcome.log, at) == Entries(log, at))
            && (at >= index ==>
                  Product(low, index, at) <= Entries(outcome.log, at) - Entries(log, at) <= Product(high, index, at))
    decreases |middlewares| - index, 1, 0
  {
    hide Entries;
    EntriesConcat(log, Entered(index), at);
    if index < |middlewares| {
      InsideEntries(middlewares, operation, low, high, index, [], log + [Entered(index)], at);
    }
  }

  lemma {:induction false} InsideEntries<T(!new)>(middlewares: seq<Middleware<T>>, operation: Operation<T>,
      low: seq<nat>, high: seq<nat>, index: nat, replies: seq<Reply<T>>, log: seq<Event>, at: nat)
    requires Calm(middlewares, operation, low, high)
    requires index < |middlewares| && at <= |middlewares|
    requires forall reply <- replies :: !reply.Throws()
    ensures var outcome := Inside(middlewares, operation, index, replies, log);
            && !outcome.reply.Throws()
            && (at <= index ==> Entries(outcome.log, at) == Entries(log, at))
            && (at > index ==>
                  var added := Entries(outcome.log, at) - Entries(log, at);
                  && added >= Times(Remaining(low[index], |replies|), Product(low, index + 1, at))
                  && added <= Times(Remaining(high[index], |replies|), Product(high, index + 1, at)))
    decreases |middlewares| - index, 0, middlewares[index].most - |replies|
  {
    hide Entries, Product, Chain;
    assert Calls(middlewares[index], operation, low[index], high[index]);
    match middlewares[index].react(replies)
    case Finish(reply) =>
      EntriesConcat(log, Left(index), at);
    case CallNext =>
      assert Settles(middlewares[index]);
      var next := Chain(middlewares, operation, index + 1, log);
      ChainEntries(middlewares, operation, low, high, index + 1, log, at);
      InsideEntries(middlewares, operation, low, high, index, replies + [next.reply], next.log, at);
  }

  function Remaining(calls: nat, made: nat): nat {
    if made < calls then calls - made else 0
  }

  /**
   Where the i-th middleware calls `next()` exactly `counts[i]` times and nothing throws, the
   position `at` is entered once per combination of calls before it; at `|middlewares|` that
   is how often the operation runs.
   */
  lemma EntriesAreProducts<T(!new)>(middlewares: seq<Middleware<T>>, operation: Operation<T>, counts: seq<nat>, at: nat)
    requires Calm(middlewares, operation, counts, counts) && at <= |middlewares|
    ensures Entries(Chain(middlewares, operation, 0, []).log, at) == Product(counts, 0, at)
  {
    ChainEntries(middlewares, operation, counts, counts, 0, [], at);
  }

  // ---------------------------------------------------------------------------
  // Calls started side by side
  // ---------------------------------------------------------------------------

  /** One activation at a position of the chain, and how many calls of `next()` it has started. */
  datatype Activation = Activation(index: nat, started: nat)

  predicate CanStart(counts: seq<nat>, active: seq<Activation>, i: nat) {
    i < |active| && active[i].index < |counts| && active[i].started < counts[active[i].index]
  }

  /** Activation `i` starts one more call, which enters the next position. */
  function Start(active: seq<Activation>, i: nat): seq<Activation>
    requires i < |active|
  {
    active[i := active[i].(started := active[i].started + 1)] + [Activation(active[i].index + 1, 0)]
  }

  /**
   All activations after the given starts, in whatever order they came: an activation need not
   wait for one call before it starts the next, nor for the activations of others.
   */
  function Interleaved(counts: seq<nat>, starts: seq<nat>): Option<seq<Activation>> {
    if starts == [] then Some([Activation(0, 0)])
    else
      var before := Interleaved(counts, starts[..|starts| - 1]);
      var i := starts[|starts| - 1];
      if before.Some? && CanStart(counts, before.value, i) then Some(Start(before.value, i)) else None
  }

  /** Every middleware has started all the calls it makes. */
  ghost predicate Complete(counts: seq<nat>, active: seq<Activation>) {
    forall a <- active :: a.index < |counts| ==> a.started == counts[a.index]
  }

  ghost predicate WellFormed(counts: seq<nat>, active: seq<Activation>) {
    forall a <- active :: a.index <= |counts| && (a.index < |counts| ==> a.started <= counts[a.index])
  }

  function EntriesOf(active: seq<Activation>, at: nat): nat {
    if active == [] then 0
    else EntriesOf(active[..|active| - 1], at) + if active[|active| - 1].index == at then 1 else 0
  }

  /** The entries of position `at` that an activation stands for: its own, or those its calls to come will bring. */
  function Share(counts: seq<nat>, a: Activation, at: nat): nat
    requires at <= |counts|
  {
    if a.index == at then 1
    else if a.index < at && a.started <= counts[a.index] then
      Times(counts[a.index] - a.started, Product(counts, a.index + 1, at))
    else 0
  }

  function Shares(counts: seq<nat>, active: seq<Activation>, at: nat): nat
    requires at <= |counts|
  {
    if active == [] then 0
    else Shares(counts, active[..|active| - 1], at) + Share(counts, active[|active| - 1], at)
  }

  lemma {:induction false} SharesUpdate(counts: seq<nat>, active: seq<Activation>, i: nat, a: Activation, at: nat)
    requires at <= |counts| && i < |active|
    ensures Shares(counts, active[i := a], at) + Share(counts, active[i], at) ==
            Shares(counts, active, at) + Share(counts, a, at)
  {
    hide Share;
    var n := |active| - 1;
    if i < n {
      SharesUpdate(counts, active[..n], i, a, at);
      assert active[i := a][..n] == active[..n][i := a];
    } else {
      assert active[i := a][..n] == active[..n];
    }
  }

  /** A start hands the new activation exactly what it takes from the one that starts it. */
  lemma StartKeepsShares(counts: seq<nat>, active: seq<Activation>, i: nat, at: nat)
    requires at <= |counts| && CanStart(counts, active, i)
    ensures Shares(counts, Start(active, i), at) == Shares(counts, active, at)
  {
    var a := active[i];
    var more, entered := a.(started := a.started + 1), Activation(a.index + 1, 0);
    SharesUpdate(counts, active, i, more, at);
    assert Start(active, i)[..|active|] == active[i := more];
    assert Share(counts, a, at) == Share(counts, more, at) + Share(counts, entered, at);
  }

  lemma {:induction false} InterleavedKeepsShares(counts: seq<nat>, starts: seq<nat>, at: nat)
    requires at <= |counts| && Interleaved(counts, starts).Some?
    ensures var active := Interleaved(counts, starts).value;
            WellFormed(counts, active) && Shares(counts, active, at) == Product(counts, 0, at)
  {
    if starts == [] {
      assert [Activation(0, 0)][..0] == [];
    } else {
      var front, i := starts[..|starts| - 1], starts[|starts| - 1];
      InterleavedKeepsShares(counts, front, at);
      StartKeepsShares(counts, Interleaved(counts, front).value, i, at);
    }
  }

  lemma {:induction false} SharesAreEntries(counts: seq<nat>, active: seq<Activation>, at: nat)
    requires at <= |counts| && WellFormed(counts, active)
    ensures EntriesOf(active, at) <= Shares(counts, active, at)
    ensures Complete(counts, active) ==> EntriesOf(active, at) == Shares(counts, active, at)
  {
    if active != [] {
      var n := |active| - 1;
      assert active[n] in active && forall a <- active[..n] :: a in active;
      SharesAreEntries(counts, active[..n], at);
    }
  }

  /**
   However the calls of `next()` are interleaved or run side by side, no position is ever
   entered more often than the product of the counts before it, and once every middleware has
   made its calls each position has been entered exactly that often.
   */
  lemma AnyInterleavingIsProduct(counts: seq<nat>, starts: seq<nat>, at: nat)
    requires at <= |counts| && Interleaved(counts, starts).Some?
    ensures var active := Interleaved(counts, starts).value;
            && EntriesOf(active, at) <= Product(counts, 0, at)
            && (Complete(counts, active) ==> EntriesOf(active, at) == Product(counts, 0, at))
  {
    InterleavedKeepsShares(counts, starts, at);
    SharesAreEntries(counts, Interleaved(counts, starts).value, at);
  }

  // ---------------------------------------------------------------------------
  // Onion order and missing results
  // ---------------------------------------------------------------------------

  /** Calls `next()` once and returns, or rethrows, what it got. */
  ghost predicate PassesThrough<T(!new)>(m: Middleware<T>) {
    m.react([]) == CallNext && forall reply: Reply<T> :: m.react([reply]) == Finish(reply)
  }

  /** In at positions `index`, ..., `count`, then out in the opposite order. */
  function Onion(index: nat, count: nat): seq<Event>
    requires index <= count
    decreases count - index
  {
    if index == count then [Entered(index)] else [Entered(index)] + Onion(index + 1, count) + [Left(index)]
  }

  /** The events that precede the operation: every middleware entered, outermost first. */
  function Way(index: nat, count: nat): seq<Event>
    requires index <= count
    decreases count - index
  {
    if index == count then [] else [Entered(index)] + Way(index + 1, count)
  }

  lemma PassedThrough<T(!new)>(middlewares: seq<Middleware<T>>, operation: Operation<T>, index: nat, log: seq<Event>)
    requires index < |middlewares| && forall m <- middlewares :: Settles(m) && PassesThrough(m)
    ensures var next := Chain(middlewares, operation, index + 1, log + [Entered(index)]);
            Chain(middlewares, operation, index, log) ==
            Outcome(Narrowed(operation, next.reply), next.log + [Left(index)])
  {
    var inside := log + [Entered(index)];
    var next := Chain(middlewares, operation, index + 1, inside);
    assert PassesThrough(middlewares[index]) && [] + [next.reply] == [next.reply];
    var returned := Inside(middlewares, operation, index, [next.reply], next.log);
    assert returned == Outcome(Narrowed(operation, next.reply), next.log + [Left(index)]);
    assert Inside(middlewares, operation, index, [], inside) == returned;
  }

  lemma {:induction false} ChainNests<T(!new)>(middlewares: seq<Middleware<T>>, operation: Operation<T>, index: nat,
                                         log: seq<Event>)
    requires index <= |middlewares| && forall m <- middlewares :: Settles(m) && PassesThrough(m)
    ensures var outcome := Chain(middlewares, operation, index, log);
            var reply := operation.run(log + Way(index, |middlewares|));
            && outcome.log == log + Onion(index, |middlewares|)
            && outcome.reply == if index < |middlewares| then Narrowed(operation, reply) else reply
    decreases |middlewares| - index
  {
    if index == |middlewares| {
      assert log + [] == log;
    } else {
      var inside := log + [Entered(index)];
      PassedThrough(middlewares, operation, index, log);
      ChainNests(middlewares, operation, index + 1, inside);
      hide Chain, PassesThrough, Settles;
      assert inside + Way(index + 1, |middlewares|) == log + Way(index, |middlewares|);
      assert inside + Onion(index + 1, |middlewares|) + [Left(index)] == log + Onion(index, |middlewares|);
    }
  }

  /**
   Middlewares that pass results through nest like the layers of an onion, and the caller gets
   what the operation replied after all of them were entered.
   */
  lemma ChainIsOnion<T(!new)>(middlewares: seq<Middleware<T>>, operation: Operation<T>, index: nat, log: seq<Event>)
    requires index <= |middlewares| && forall m <- middlewares :: Settles(m) && PassesThrough(m)
    ensures var outcome := Chain(middlewares, operation, index, log);
            var reply := operation.run(log + Way(index, |middlewares|));
            && outcome.log == log + Onion(index, |middlewares|)
            && outcome.reply ==
               if reply.Undefined? && index < |middlewares| && !operation.isTtl then ResultMissing else reply
  {
    ChainNests(middlewares, operation, index, log);
    hide Chain, Onion, Way, Settles, PassesThrough;
  }

  /**
   A middleware that answers by itself keeps everything after it, the operation included, from
   being entered; its answer stands, unless it is `undefined` where a result is due.
   */
  lemma AnswersByItself<T(!new)>(middlewares: seq<Middleware<T>>, operation: Operation<T>, index: nat, log: seq<Event>,
                                 reply: Reply<T>)
    requires index < |middlewares| && forall m <- middlewares :: Settles(m)
    requires middlewares[index].react([]) == Finish(reply)
    ensures Chain(middlewares, operation, index, log) ==
            Outcome(if reply.Undefined? && !operation.isTtl then ResultMissing else reply,
                    log + [Entered(index), Left(index)])
  {
    assert log + [Entered(index)] + [Left(index)] == log + [Entered(index), Left(index)];
  }

  /** Calls `next()` again when it throws, once, and returns the last reply. */
  ghost predicate Retries<T(!new)>(m: Middleware<T>) {
    && m.react([]) == CallNext
    && (forall first: Reply<T> :: m.react([first]) == if first.Throws() then CallNext else Finish(first))
    && (forall first: Reply<T>, second: Reply<T> :: m.react([first, second]) == Finish(second))
  }

  /** A retry enters the rest of the chain again from the same position, not from the one after it. */
  lemma RetryReenters<T(!new)>(middlewares: seq<Middleware<T>>, operation: Operation<T>, index: nat, log: seq<Event>)
    requires index < |middlewares| && (forall m <- middlewares :: Settles(m)) && Retries(middlewares[index])
    ensures var first := Chain(middlewares, operation, index + 1, log + [Entered(index)]);
            var last := if first.reply.Throws() then Chain(middlewares, operation, index + 1, first.log) else first;
            Chain(middlewares, operation, index, log) ==
            Outcome(if last.reply.Undefined? && !operation.isTtl then ResultMissing else last.reply,
                    last.log + [Left(index)])
  {
    var m, inside := middlewares[index], log + [Entered(index)];
    var first := Chain(middlewares, operation, index + 1, inside);
    assert [] + [first.reply] == [first.reply];
    assert m.react([first.reply]) == if first.reply.Throws() then CallNext else Finish(first.reply);
    if first.reply.Throws() {
      var second := Chain(middlewares, operation, index + 1, first.log);
      assert [first.reply] + [second.reply] == [first.reply, second.reply];
      assert m.react([first.reply, second.reply]) == Finish(second.reply);
      assert Inside(middlewares, operation, index, [first.reply], first.log) ==
             Inside(middlewares, operation, index, [first.reply, second.reply], second.log);
    }
    assert Inside(middlewares, operation, index, [], inside) ==
           Inside(middlewares, operation, index, [first.reply], first.log);
  }

  /** Behind at least one middleware a caller gets `undefined` only from `ttl`. */
  lemma NeverUndefined<T(!new)>(middlewares: seq<Middleware<T>>, operation: Operation<T>)
    requires middlewares != [] && forall m <- middlewares :: Settles(m)
    ensures Chain(middlewares, operation, 0, []).reply.Undefined? ==> operation.isTtl
  {
    InsideNeverUndefined(middlewares, operation, 0, [], [Entered(0)]);
    assert [] + [Entered(0)] == [Entered(0)];
  }

  lemma {:induction false} InsideNeverUndefined<T(!new)>(middlewares: seq<Middleware<T>>, operation: Operation<T>,
      index: nat, replies: seq<Reply<T>>, log: seq<Event>)
    requires index < |middlewares| && forall m <- middlewares :: Settles(m)
    ensures Inside(middlewares, operation, index, replies, log).reply.Undefined? ==> operation.isTtl
    decreases middlewares[index].most - |replies|
  {
    match middlewares[index].react(replies)
    case Finish(reply) =>
    case CallNext =>
      assert Settles(middlewares[index]);
      var next := Chain(middlewares, operation, index + 1, log);
      InsideNeverUndefined(middlewares, operation, index, replies + [next.reply], next.log);
  }
}
