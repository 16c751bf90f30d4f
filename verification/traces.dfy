/**
 Fiber bodies described by what they can observably do.

 A body of `Fiber<T>` (the `std::function<void (Fiber&)>` it is built from)
 is reduced to its trace: the finite sequence of values it passes to
 `yield`, followed either by a normal return or by an exception escaping it.
 */
module Traces {

  /** How a body ends: it returns, or an exception `error` escapes it. */
  datatype Outcome<+E> = Normal | Raised(error: E)

  /** Everything a body does that its resumer can observe. */
  datatype Trace<+T, +E> = Trace(values: seq<T>, outcome: Outcome<E>)

  /** A fiber body. `Then` runs `rest` after `first` unless `first` threw;
      `YieldAll` passes on every value of a nested fiber running `inner`. */
  datatype Body<+T, +E> =
    | Return
    | Yield(value: T)
    | Throw(error: E)
    | Then(first: Body<T, E>, rest: Body<T, E>)
    | YieldAll(inner: Body<T, E>)

  /** Sequential composition of traces: an exception stops everything after it. */
  function Append<T, E>(first: Trace<T, E>, second: Trace<T, E>): Trace<T, E>
  {
    if first.outcome.Raised? then first
    else Trace(first.values + second.values, second.outcome)
  }

  /** What comes first is kept: the composed trace starts with the first
      trace's values, raises iff either part raises, is the first trace
      when that one raised, and otherwise continues with the second. */
  lemma AppendKeepsFirst<T, E>(first: Trace<T, E>, second: Trace<T, E>)
    ensures var r := Append(first, second);
      && first.values <= r.values
      && (r.outcome.Raised? <==> first.outcome.Raised? || second.outcome.Raised?)
      && (first.outcome.Raised? ==> r == first)
      && (first.outcome.Normal? ==> r.values[|first.values|..] == second.values && r.outcome == second.outcome)
  {
  }

  /** The values that occur in a `Yield` of the body. */
  ghost function YieldsIn<T, E>(b: Body<T, E>): set<T>
  {
    match b
    case Return => {}
    case Yield(v) => {v}
    case Throw(_) => {}
    case Then(first, rest) => YieldsIn(first) + YieldsIn(rest)
    case YieldAll(inner) => YieldsIn(inner)
  }

  /** The exceptions that occur in a `Throw` of the body. */
  ghost function ThrowsIn<T, E>(b: Body<T, E>): set<E>
  {
    match b
    case Return => {}
    case Yield(_) => {}
    case Throw(e) => {e}
    case Then(first, rest) => ThrowsIn(first) + ThrowsIn(rest)
    case YieldAll(inner) => ThrowsIn(inner)
  }

  /** The trace semantics of a body; everything it yields or raises comes
      from a `Yield` or a `Throw` in it. That a nested fiber driven by
      `yieldAll` contributes exactly its own trace is proved, against the
      state machine, by `Fibers.DelegationIsTransparent`. */
  function Run<T, E>(b: Body<T, E>): (r: Trace<T, E>)
    ensures forall v :: v in r.values ==> v in YieldsIn(b)
    ensures r.outcome.Raised? ==> r.outcome.error in ThrowsIn(b)
  {
    match b
    case Return => Trace([], Normal)
    case Yield(v) => Trace([v], Normal)
    case Throw(e) => Trace([], Raised(e))
    case Then(first, rest) => Append(Run(first), Run(rest))
    case YieldAll(inner) => Run(inner)
  }

  /** A thrown exception ends the body: nothing after it is yielded, and
      the values yielded before it are kept. */
  lemma ThrowStopsBody<T, E>(before: Body<T, E>, e: E, after: Body<T, E>)
    requires Run(before).outcome.Normal?
    ensures Run(Then(Then(before, Throw(e)), after)) == Trace(Run(before).values, Raised(e))
  {
    var inner := Then(before, Throw(e));
    assert Run(before).values + [] == Run(before).values;
    assert Run(inner) == Trace(Run(before).values, Raised(e));
  }

  /** Sequencing is associative, so a loop body may be grouped either way. */
  lemma ThenAssociative<T, E>(a: Body<T, E>, b: Body<T, E>, c: Body<T, E>)
    ensures Run(Then(Then(a, b), c)) == Run(Then(a, Then(b, c)))
  {
  }
}
