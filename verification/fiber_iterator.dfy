/**
 `FiberIterator`, `begin` and `end` of main.cpp: a range-for over a fiber
 visits the values its body yields.
 */
module FiberIterators {
  import opened Wrappers
  import opened Traces
  import opened Fibers

  /** An iterator over `fiber`; `live` is false exactly when the C++
      iterator's fiber pointer is null, which is what `end()` holds. */
  datatype Iterator<T, E> = Iterator(fiber: Fiber<T, E>, live: bool)

  /** `it == end(f)`: equality with the end iterator only asks whether the
      pointer is null. */
  function IsEnd<T, E>(it: Iterator<T, E>): (r: bool)
    ensures r <==> it == Iterator(it.fiber, false)
  {
    !it.live
  }

  /** The iterator's private `next()`: resume the fiber once, and drop the
      pointer when `next()` returns false. An exception from the body
      leaves through it, reported here as the second component. */
  function Step<T, E>(it: Iterator<T, E>): (r: (Iterator<T, E>, Option<E>))
    requires WellFormed(it.fiber) && it.live && !IsFinished(it.fiber)
    ensures r.0.fiber == Next(it.fiber).0
    ensures r.1.None? && IsEnd(r.0) <==> Next(it.fiber).1 == Returned(false)
    ensures r.1.None? && !IsEnd(r.0) <==> Next(it.fiber).1 == Returned(true)
    ensures r.1.Some? <==> Next(it.fiber).1.Threw?
    ensures r.1.Some? ==> r.1.value == Next(it.fiber).1.error
    ensures !IsEnd(r.0) && r.1.None? ==> !IsFinished(r.0.fiber)
  {
    var (f, res) := Next(it.fiber);
    match res
    case Threw(e) => (Iterator(f, true), Some(e))
    case Returned(alive) => (Iterator(f, alive), None)
  }

  /** `begin(f)`: the iterator resumes the fiber once on construction. */
  function Begin<T, E>(f: Fiber<T, E>): (r: (Iterator<T, E>, Option<E>))
    requires WellFormed(f) && !IsFinished(f)
    ensures r.0.fiber == Next(f).0
    ensures r.1.None? && IsEnd(r.0) <==> Next(f).1 == Returned(false)
    ensures r.1.Some? <==> Next(f).1.Threw?
    ensures r.1.Some? ==> r.1.value == Next(f).1.error
    ensures r.1.None? && !IsEnd(r.0) ==> f.pos < |f.trace.values| && Deref(r.0) == f.trace.values[f.pos]
  {
    Step(Iterator(f, true))
  }

  /** `end(f)`: a null iterator; it does not look at the fiber. */
  function End<T, E>(f: Fiber<T, E>): (r: Iterator<T, E>)
    ensures IsEnd(r)
  {
    Iterator(f, false)
  }

  /** `++it`: resume the fiber again. */
  function Increment<T, E>(it: Iterator<T, E>): (r: (Iterator<T, E>, Option<E>))
    requires WellFormed(it.fiber) && !IsEnd(it) && !IsFinished(it.fiber)
    ensures r.0.fiber == Next(it.fiber).0
    ensures r.1.None? && IsEnd(r.0) <==> Next(it.fiber).1 == Returned(false)
    ensures r.1.Some? <==> Next(it.fiber).1.Threw?
    ensures r.1.Some? ==> r.1.value == Next(it.fiber).1.error
    ensures r.1.None? && !IsEnd(r.0) ==>
              it.fiber.pos < |it.fiber.trace.values| && Deref(r.0) == it.fiber.trace.values[it.fiber.pos]
  {
    Step(it)
  }

  /** `*it`: the fiber's `current()`; only a non-null iterator may be
      dereferenced. */
  function Deref<T, E>(it: Iterator<T, E>): (r: T)
    requires !IsEnd(it)
    ensures r == Current(it.fiber)
  {
    Current(it.fiber)
  }

  /** `for (auto&& v : fiber) ...`: the values visited are exactly the
      values the body still had to yield, in order; the loop stops when
      the body returns or rethrows its exception, and the fiber it leaves
      is finished, so destroying it is safe. */
  method RangeFor<T, E>(f: Fiber<T, E>) returns (visited: seq<T>, error: Option<E>, last: Fiber<T, E>)
    requires WellFormed(f) && !IsFinished(f)
    ensures visited == f.trace.values[f.pos..]
    ensures error == (if f.trace.outcome.Raised? then Some(f.trace.outcome.error) else None)
    ensures IsFinished(last) && last.eptr == None && Destroy(last) == Released
  {
    var ys := f.trace.values;
    visited := [];
    var started := Begin(f);
    var it := started.0;
    error := started.1;
    while error.None? && !IsEnd(it)
      invariant WellFormed(it.fiber) && it.fiber.trace == f.trace && it.fiber.eptr == None
      invariant error.None? && !IsEnd(it) ==>
                  && !IsFinished(it.fiber) && f.pos < it.fiber.pos
                  && visited == ys[f.pos..it.fiber.pos - 1]
                  && Current(it.fiber) == ys[it.fiber.pos - 1]
      invariant !(error.None? && !IsEnd(it)) ==>
                  && IsFinished(it.fiber) && visited == ys[f.pos..]
                  && error == (if f.trace.outcome.Raised? then Some(f.trace.outcome.error) else None)
      decreases |ys| - it.fiber.pos, if IsFinished(it.fiber) then 0 else 1
    {
      visited := visited + [Deref(it)];
      var stepped := Increment(it);
      it, error := stepped.0, stepped.1;
    }
    last := it.fiber;
  }

  /** Iterating a freshly built fiber visits its body's whole trace. */
  method RangeForFresh<T, E>(body: Body<T, E>, initial: T) returns (visited: seq<T>, error: Option<E>)
    ensures visited == Run(body).values
    ensures error.Some? <==> Run(body).outcome.Raised?
    ensures error.Some? ==> error.value == Run(body).outcome.error
  {
    var f := New(body, initial);
    var last;
    visited, error, last := RangeFor(f);
    assert Run(body).values[0..] == Run(body).values;
  }
}
