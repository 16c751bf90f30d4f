/**
 The `Fiber` state machine of main.cpp, without its stack.

 A fiber is the trace of its body plus the fields the class keeps:
 `yieldedValue`, the captured exception `eptr` and `flagFinish`, and the
 number of yields the body has passed (`pos`). The context switch
 (`swapcontext` or `SwitchToFiber`) is reduced to its effect: control
 passes into the body, which runs until its next `yield` or to its end.
 */
module Fibers {
  import opened Wrappers
  import opened Traces

  datatype Fiber<T, E> = Fiber(
    trace: Trace<T, E>,
    pos: nat,
    yieldedValue: T,
    eptr: Option<E>,
    flagFinish: bool)

  /** What `next()` hands back to its caller: a boolean, or the body's
      exception rethrown. */
  datatype Resumed<+E> = Returned(alive: bool) | Threw(error: E)

  /** What the destructor does: release the fiber, or `std::terminate`. */
  datatype Teardown = Released | Terminated

  /** What `yieldAll` did: the values it yielded through the outer fiber,
      how the loop ended, and the inner fiber it leaves behind. */
  datatype Delegation<T, E> = Delegation(yielded: seq<T>, outcome: Outcome<E>, inner: Fiber<T, E>)

  /** The states the operations below can reach: at most every yield has
      been passed, a finished fiber has passed them all, and a captured
      exception is the one the body raised. */
  ghost predicate WellFormed<T, E>(f: Fiber<T, E>)
  {
    && f.pos <= |f.trace.values|
    && (f.flagFinish ==> f.pos == |f.trace.values|)
    && (f.eptr.Some? ==> f.flagFinish && f.trace.outcome == Raised(f.eptr.value))
  }

  /** A well-formed fiber constructed with `initial` as its `T()`: its
      value slot holds the last value yielded, or `initial` before any. */
  ghost predicate Valid<T, E>(f: Fiber<T, E>, initial: T)
  {
    && WellFormed(f)
    && f.yieldedValue == (if f.pos == 0 then initial else f.trace.values[f.pos - 1])
  }

  /** The constructor: nothing has run, nothing is captured, not finished.
      `initial` is the default-constructed `YieldValueType()`. */
  function New<T, E>(body: Body<T, E>, initial: T): (f: Fiber<T, E>)
    ensures f.trace == Run(body) && f.pos == 0
    ensures Valid(f, initial) && !IsFinished(f) && f.eptr == None
    ensures Current(f) == initial
  {
    Fiber(Run(body), 0, initial, None, false)
  }

  function Current<T, E>(f: Fiber<T, E>): T
  {
    f.yieldedValue
  }

  /** `current()` on a fiber built with default `initial`: the default
      before the first yield, the last value yielded after it, and after
      one more `next()` the value that call reached, or the same value
      once the body has ended. */
  lemma CurrentIsLatest<T, E>(f: Fiber<T, E>, initial: T)
    requires Valid(f, initial)
    ensures Current(f) == (if f.pos == 0 then initial else f.trace.values[f.pos - 1])
    ensures !IsFinished(f) ==>
              Current(Next(f).0) == (if f.pos < |f.trace.values| then f.trace.values[f.pos] else Current(f))
  {
  }

  /** `isFinished()`: in a reachable state, a finished fiber has passed
      every yield, and a captured exception means it is finished. */
  function IsFinished<T, E>(f: Fiber<T, E>): (r: bool)
    ensures WellFormed(f) && r ==> f.pos == |f.trace.values|
    ensures WellFormed(f) && f.eptr.Some? ==> r
  {
    f.flagFinish
  }

  /** `yield(value)`, seen from the fiber's record: the value is stored
      for `current()` and nothing else changes; the switch back to the
      resumer is part of `Resume`. */
  function Yield<T, E>(f: Fiber<T, E>, value: T): (r: Fiber<T, E>)
    requires !IsFinished(f)
    ensures Current(r) == value
    ensures !IsFinished(r) && r.eptr == f.eptr && r.pos == f.pos && r.trace == f.trace
  {
    f.(yieldedValue := value)
  }

  /** The body has returned or thrown (`fEntry` after `func` returns): an
      escaping exception is captured in `eptr`, and the fiber is finished. */
  function Finish<T, E>(f: Fiber<T, E>): (r: Fiber<T, E>)
    requires !IsFinished(f) && f.pos == |f.trace.values|
    ensures IsFinished(r)
    ensures r.eptr == (if f.trace.outcome.Raised? then Some(f.trace.outcome.error) else f.eptr)
    ensures Current(r) == Current(f) && r.pos == f.pos && r.trace == f.trace
  {
    f.(eptr := if f.trace.outcome.Raised? then Some(f.trace.outcome.error) else f.eptr,
       flagFinish := true)
  }

  /** Control passes into the body, which runs to its next `yield` or to
      its end. */
  function Resume<T, E>(f: Fiber<T, E>): (r: Fiber<T, E>)
    requires WellFormed(f) && !IsFinished(f)
    ensures WellFormed(r) && r.trace == f.trace
    ensures f.pos < |f.trace.values| ==>
              && !IsFinished(r) && r.eptr == None
              && r.pos == f.pos + 1 && Current(r) == f.trace.values[f.pos]
    ensures f.pos == |f.trace.values| ==>
              && IsFinished(r) && Current(r) == Current(f)
              && (r.eptr.Some? <==> f.trace.outcome.Raised?)
  {
    if f.pos < |f.trace.values| then
      Yield(f, f.trace.values[f.pos]).(pos := f.pos + 1)
    else
      Finish(f)
  }

  /** The tail of `next()`: a captured exception is rethrown and `eptr`
      reset to null; otherwise the result is "not finished". */
  function Deliver<T, E>(f: Fiber<T, E>): (r: (Fiber<T, E>, Resumed<E>))
    ensures r.0.eptr == None
    ensures f.eptr.Some? ==> r.1 == Threw(f.eptr.value)
    ensures f.eptr.None? ==> r.1 == Returned(!IsFinished(f))
    ensures r.0 == f.(eptr := None)
  {
    if f.eptr.Some? then (f.(eptr := None), Threw(f.eptr.value))
    else (f, Returned(!IsFinished(f)))
  }

  /** `next()`: resume the body, then report. It returns true exactly when
      the body stopped at a `yield`, false when the body returned, and
      rethrows, once, an exception that escaped the body. */
  function Next<T, E>(f: Fiber<T, E>): (r: (Fiber<T, E>, Resumed<E>))
    requires WellFormed(f) && !IsFinished(f)
    ensures WellFormed(r.0) && r.0.trace == f.trace && r.0.eptr == None
    ensures r.1 == Returned(true) <==> f.pos < |f.trace.values|
    ensures r.1 == Returned(false) <==> f.pos == |f.trace.values| && f.trace.outcome.Normal?
    ensures r.1.Threw? <==> f.pos == |f.trace.values| && f.trace.outcome.Raised?
    ensures r.1.Threw? ==> r.1.error == f.trace.outcome.error
    ensures IsFinished(r.0) <==> f.pos == |f.trace.values|
    ensures f.pos < |f.trace.values| ==> r.0.pos == f.pos + 1 && Current(r.0) == f.trace.values[f.pos]
    ensures f.pos == |f.trace.values| ==> r.0.pos == f.pos && Current(r.0) == Current(f)
  {
    Deliver(Resume(f))
  }

  /** `~Fiber()`: a fiber that has not finished cannot be destroyed. */
  function Destroy<T, E>(f: Fiber<T, E>): (r: Teardown)
    ensures r == Released <==> IsFinished(f)
  {
    if !IsFinished(f) then Terminated else Released
  }

  /** `next()` keeps the fiber consistent with the default it was built with. */
  lemma NextPreservesValid<T, E>(f: Fiber<T, E>, initial: T)
    requires Valid(f, initial) && !IsFinished(f)
    ensures Valid(Next(f).0, initial)
  {
  }

  /** The fiber after `k` calls of `next()`, none of them on a finished fiber. */
  function Advance<T, E>(f: Fiber<T, E>, k: nat): Fiber<T, E>
    requires WellFormed(f)
    requires k == 0 || (!IsFinished(f) && k <= |f.trace.values| - f.pos + 1)
    decreases k
  {
    if k == 0 then f else Advance(Next(f).0, k - 1)
  }

  /** The life of a fiber driven by `next()` only: it stays unfinished
      until the call that finds the body at its end, and `current()` gives
      the default before the first yield, then the latest value yielded,
      which it keeps once the body has finished. */
  lemma {:induction false} Lifecycle<T, E>(f: Fiber<T, E>, initial: T, k: nat)
    requires Valid(f, initial) && !IsFinished(f)
    requires k <= |f.trace.values| - f.pos + 1
    decreases k
    ensures var g := Advance(f, k);
      && Valid(g, initial)
      && (IsFinished(g) <==> f.pos + k == |f.trace.values| + 1)
      && g.pos == (if f.pos + k <= |f.trace.values| then f.pos + k else |f.trace.values|)
      && Current(g) == (if g.pos == 0 then initial else f.trace.values[g.pos - 1])
  {
    if k > 0 {
      var h := Next(f).0;
      NextPreservesValid(f, initial);
      if k > 1 {
        Lifecycle(h, initial, k - 1);
      }
    }
  }

  /** From construction: unfinished for the first `|values|` calls of
      `next()`, finished by the one after; `current()` is `T()` until the
      first yield and the last yielded value from then on. */
  lemma FreshLifecycle<T, E>(body: Body<T, E>, initial: T, k: nat)
    requires k <= |Run(body).values| + 1
    ensures var g := Advance(New(body, initial), k);
      var n := |Run(body).values|;
      && (IsFinished(g) <==> k == n + 1)
      && Current(g) == (if k == 0 || n == 0 then initial
                        else Run(body).values[(if k <= n then k else n) - 1])
  {
    Lifecycle(New(body, initial), initial, k);
  }

  /** An exception escaping the body is captured and the fiber finished
      in the same step; the `next()` that resumed the body rethrows it and
      clears `eptr`, and being finished, the fiber admits no further
      `next()`, so the exception is delivered exactly once. */
  lemma ExceptionDeliveredOnce<T, E>(f: Fiber<T, E>)
    requires WellFormed(f) && !IsFinished(f)
    requires f.pos == |f.trace.values| && f.trace.outcome.Raised?
    ensures IsFinished(Resume(f)) && Resume(f).eptr == Some(f.trace.outcome.error)
    ensures Next(f).1 == Threw(f.trace.outcome.error)
    ensures IsFinished(Next(f).0) && Next(f).0.eptr == None
  {
  }

  /** `yieldAll(inner)`: resume `inner` while it reports alive, yielding
      each of its values through the outer fiber; an exception from
      `inner` leaves the loop as it came. Either way `inner` ends finished,
      so destroying the temporary does not terminate. */
  function YieldAll<T, E>(inner: Fiber<T, E>): (r: Delegation<T, E>)
    requires WellFormed(inner) && !IsFinished(inner)
    ensures r.yielded == inner.trace.values[inner.pos..]
    ensures r.outcome == inner.trace.outcome
    ensures IsFinished(r.inner) && r.inner.eptr == None && r.inner.trace == inner.trace
    ensures Destroy(r.inner) == Released
    decreases |inner.trace.values| - inner.pos
  {
    var (next, res) := Next(inner);
    match res
    case Threw(e) => Delegation([], Raised(e), next)
    case Returned(alive) =>
      if alive then
        var rest := YieldAll(next);
        Delegation([Current(next)] + rest.yielded, rest.outcome, rest.inner)
      else
        Delegation([], Normal, next)
  }

  /** Delegating to a freshly built fiber contributes exactly that fiber's
      trace, which is what `Run` gives a `YieldAll` body. */
  lemma DelegationIsTransparent<T, E>(body: Body<T, E>, initial: T)
    ensures var d := YieldAll(New(body, initial));
      Trace(d.yielded, d.outcome) == Run(Traces.YieldAll(body))
  {
  }
}
