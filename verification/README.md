# Cxx-yield, modelled in Dafny

Cxx-yield is a small C++ library of stackful fibers with generator-style `yield`.

- **main.cpp** holds the `Fiber` class, the `FiberIterator` that lets a range-`for` walk the values a fiber yields, and the `permutation` generator with its demo `main`.
- **server.cpp** is an HTTP demo built on io_uring. It reads a request, checks for `GET`, takes out the request target, and answers `/` with a fixed page and everything else with 404. A read or write that fails with `EAGAIN` is retried.

This project models both cores as pure functions over immutable data:

- `Traces` (traces.dfy): a fiber body as data: `Return`, `Yield(v)`, `Throw(e)`, `Then(a, b)` and `YieldAll(inner)`. Each body has a trace semantics `Run`: the values it yields, then a normal return or an escaping exception.
- `Fibers` (fibers.dfy): the `Fiber` object as a record of these fields:
  - the body's trace;
  - how many yields have been passed;
  - `yieldedValue`, `eptr` and `flagFinish`.

  `next()` is the composition of two steps. First the context switch runs the body to its next `yield`, or to its end, where `fEntry` captures the exception. Then the tail of `next()` rethrows and clears `eptr`, or reports `!isFinished()`. The module also covers `yield`, `current`, `isFinished`, the destructor's precondition and `yieldAll`.
- `FiberIterators` (fiber_iterator.dfy): `FiberIterator`, `begin`, `end`, `++`, `*`, and a range-`for` loop over a fiber.
- `Permutation` (permutation.dfy):
  - the `permutation` body built out of `Traces.Body`;
  - a reference definition `Perms` of the arrays it yields;
  - its count, distinctness, rearrangement and completeness;
  - the demo `main`.
- `HttpServer` (http_server.dfy) covers:
  - `to_iov`;
  - `string_view::compare`, `find` and `substr` as `serve` uses them;
  - the GET test, target extraction and routing;
  - the EAGAIN retry loops of `serve` and `http_send_file`;
  - `serve` as a whole.

  The I/O results and `errno` are inputs.
- `Wrappers` (wrappers.dfy): `Option` and `Result`.

A default-constructed `T()` cannot be written generically, so `Fibers.New` takes it as the parameter `initial`. C++ exceptions become an abstract type `E`. `std::out_of_range` from `substr` becomes `HttpServer.Error.OutOfRange`. `size_t` is the 64-bit range, and `npos` is `2^64 - 1`.

The destructor of main.cpp's `Fiber` calls `std::terminate` on a fiber that has not finished. It does not unwind a suspended body first (`Fibers.Destroy`). main.cpp's `next()` takes no value, so nothing flows into a fiber except through its body's captured arguments. The `next(value)` that server.cpp calls belongs to a different fiber header (see "Left out").

A request of exactly the three bytes `GET` passes the GET test. It then makes `substr(4, …)` throw `std::out_of_range` inside the fiber (`HttpServer.BareGetThrows`). `serve` reports that as `Failed(OutOfRange)`. What the fiber library of server.cpp then does with the exception is not part of this model (see below).

## Model

| member | source | states |
|---|---|---|
| Traces.ThrowStopsBody | main.cpp:176-182 | an exception escaping the body ends it: the values yielded before it are kept and nothing after it is yielded |
| Traces.Run | main.cpp:176-182 | every value a body yields comes from one of its `yield`s, and an exception that escapes it comes from one of its `throw`s |
| Traces.AppendKeepsFirst | main.cpp:176-182 | running one part after another keeps the first part's values in front; the whole raises iff a part raises, stops at the first part if that raised, and otherwise continues with the second part |
| Traces.ThenAssociative | main.cpp:256-262 | grouping of sequenced loop iterations does not change the trace |
| Fibers.New | main.cpp:42-46 | a new fiber holds its body's trace with nothing run: not finished, no captured exception, `current()` is the default value |
| Fibers.Yield | main.cpp:142-151 | `yield(v)` on an unfinished fiber makes `current()` return `v` and leaves finished-ness, the captured exception and progress unchanged |
| Fibers.Finish | main.cpp:173-186 | when the body returns or throws, the fiber becomes finished and an escaping exception is captured in `eptr`; `current()` is unchanged |
| Fibers.Resume | main.cpp:107-114 | the switch into the body advances it by exactly one yield, making that value current, or, at the body's end, finishes the fiber with `eptr` set iff the body raised |
| Fibers.Deliver | main.cpp:115-119 | a captured exception is rethrown and `eptr` reset to null; without one, `next()` returns `!isFinished()` |
| Fibers.Next | main.cpp:107-120 | `next()` on an unfinished fiber returns true iff the body stopped at a yield, false iff it returned normally, and rethrows iff it raised, the same exception; the fiber is finished iff the body reached its end; `current()` becomes the value just yielded or stays as it was |
| Fibers.CurrentIsLatest | main.cpp:125-127 | `current()` is the default before the first yield and the last yielded value after it; after another `next()` it is the value that call reached, or unchanged once the body has ended |
| Fibers.IsFinished | main.cpp:132-134 | in a reachable state, a finished fiber has passed every yield, and a captured exception implies the fiber is finished; that it is false until the body ends and true from then on is stated by `Fibers.Next` and `Fibers.Lifecycle` |
| Fibers.Destroy | main.cpp:89-91 | destruction releases the fiber iff it is finished and terminates otherwise |
| Fibers.NextPreservesValid | main.cpp:122-127 | after `next()`, `current()` is still the last value yielded, or the default before the first yield |
| Fibers.Lifecycle | main.cpp:122-134 | over `k` calls of `next()`, the fiber stays unfinished until the call that meets the body's end; `current()` is the default before the first yield, then the latest yielded value, kept after finishing |
| Fibers.FreshLifecycle | main.cpp:42-46 | from construction, the fiber is finished exactly after `|values| + 1` calls, and `current()` follows the trace as above |
| Fibers.ExceptionDeliveredOnce | main.cpp:115-117 | a raised exception is captured while the fiber is marked finished; the `next()` that resumed the body rethrows it and clears `eptr`, and the finished fiber admits no further `next()` |
| Fibers.YieldAll | main.cpp:156-165 | `yieldAll(inner)` yields exactly `inner`'s remaining values in order, ends as `inner` ended (an exception passes through unchanged), and leaves `inner` finished, so destroying it does not terminate |
| Fibers.DelegationIsTransparent | main.cpp:156-161 | delegating to a new fiber contributes exactly its body's trace, which is what the trace semantics assigns to a `YieldAll` body |
| FiberIterators.Step | main.cpp:230-233 | the iterator's `next()` resumes the fiber once and becomes the end iterator iff `next()` returned false; a rethrown exception leaves through it |
| FiberIterators.Begin | main.cpp:201-203 | `begin(f)` resumes once; it reports an exception iff `next()` rethrew, and the same one; otherwise it is the end iterator iff `next()` returned false, and else `*it` is the first value yielded |
| FiberIterators.IsEnd | main.cpp:222-227 | an iterator compares equal to `end()` iff its fiber pointer is null |
| FiberIterators.End | main.cpp:245-248 | `end(f)` is the end iterator |
| FiberIterators.Increment | main.cpp:206-209 | `++it` resumes once more; it reports an exception iff `next()` rethrew, and the same one; otherwise it compares equal to `end` iff `next()` returned false, and else `*it` is the next value of the trace |
| FiberIterators.Deref | main.cpp:212-215 | `*it` is only allowed on a non-end iterator and gives the fiber's `current()` |
| FiberIterators.RangeFor | main.cpp:194-248 | a range-for visits exactly the body's remaining yielded values in order, surfaces the body's exception iff it raised, and leaves the fiber finished with nothing captured, so it can be destroyed |
| FiberIterators.RangeForFresh | main.cpp:272-275 | iterating a freshly built fiber visits its body's whole trace and raises iff the body raises, with the same exception |
| Permutation.PermutationBody | main.cpp:254-266 | the body of `permutation(arr, length)` never raises; what it yields is stated by `PermutationTrace` |
| Permutation.PermutationLoop | main.cpp:256-262 | the `for` loop from iteration `i` never raises; what it yields is stated by `PermutationLoopTrace` |
| Permutation.Rotate | main.cpp:257-260 | `newArr` has the same size as `arr` |
| Permutation.RotateRearranges | main.cpp:257-260 | `newArr` is `arr` with element `i` moved to the back and the rest shifted up, a rearrangement of `arr` |
| Permutation.RotateSplit | main.cpp:257-260 | taking element `i` of the pool appends it to the chosen elements and leaves the rest of the pool in front |
| Permutation.PermutationTrace | main.cpp:254-266 | the generator yields exactly `Perms(arr, length)`, which is `[arr]` for length 0, and returns normally |
| Permutation.PermutationLoopTrace | main.cpp:256-262 | the `for` loop from iteration `i` yields the arrays of each delegated smaller permutation in turn and returns normally |
| Permutation.NegativeLengthYieldsNothing | main.cpp:255-256 | a negative `length` enters the loop branch, whose loop does not run, so nothing is yielded |
| Permutation.PermsCount | main.cpp:254-266 | a pool of `length` elements gives `length!` arrays |
| Permutation.PermsFromCount | main.cpp:256-262 | the loop from iteration `i` gives `(length - i) * (length - 1)!` arrays |
| Permutation.PermsShape | main.cpp:254-266 | every yielded array keeps the already chosen elements in front and holds the pool, in some order, behind them |
| Permutation.FirstChoice | main.cpp:257-261 | an array from the delegated fiber of iteration `i` has the right shape and takes pool element `i` first |
| Permutation.PermsFromShape | main.cpp:256-262 | an array from loop iterations `i` onwards takes its first choice from the pool elements `i` onwards |
| Permutation.PermsRearrange | main.cpp:254-266 | every yielded array is a rearrangement of `arr` |
| Permutation.PermsDistinct | main.cpp:254-266 | a pool of distinct elements yields no array twice |
| Permutation.PermsFromDistinct | main.cpp:256-262 | the loop from iteration `i` yields no array twice, for distinct pool elements |
| Permutation.FirstChoicesDiffer | main.cpp:256-262 | arrays from iteration `i` and from later iterations differ, because their first choices differ |
| Permutation.PermsFromContains | main.cpp:256-262 | everything iteration `i` yields is yielded by the loop started at any earlier iteration |
| Permutation.PermsComplete | main.cpp:254-266 | every ordering of the pool behind the chosen elements is yielded |
| Permutation.AllPermutations | main.cpp:254-266 | over a whole array of distinct elements, the generator yields `|arr|!` arrays, all distinct, each a rearrangement of `arr`, and every rearrangement appears |
| Permutation.PermutationsOf | main.cpp:269-275 | a range-for over the generator on distinct elements visits `n!` rows, no two alike, which are exactly the rearrangements of the array; nothing is raised and the fiber is released without terminating |
| Permutation.PermutationDemo | main.cpp:268-276 | `main` prints 24 rows, no two alike, which are exactly the rearrangements of `{1,2,3,4}`; it raises nothing, and its fiber is released without terminating |
| HttpServer.ToIov | server.cpp:35-40 | the base is always the view's data; the length is `len`, or the whole view when `len` is `size_t(-1)` |
| HttpServer.ToIovWhole | server.cpp:35-40 | with the default length, the `iovec` covers the whole view |
| HttpServer.WholeIovs | server.cpp:57-64 | the `iovec`s of one `writev` are, part by part, the whole view of each part at its address |
| HttpServer.WholeIovsCover | server.cpp:57-64 | the whole-view `iovec`s of some strings ask for exactly as many bytes as the strings hold together |
| HttpServer.ServeIovecs | server.cpp:35-40 | the read `iovec` asks for 1024 bytes at the buffer, which is the bound `WellSized` assumes for a read result; the response `iovec`s ask for exactly the bytes of the response |
| HttpServer.Substr | server.cpp:93 | `substr(pos, count)` throws `out_of_range` iff `pos` is past the end; otherwise it gives the `min(count, size - pos)` characters from `pos` |
| HttpServer.Find | server.cpp:93 | `find(c, pos)` is the first index at or after `pos` holding `c`, and `npos` iff there is none |
| HttpServer.IsGet | server.cpp:92 | a buffer is a GET request iff it has at least three bytes and they are `GET` |
| HttpServer.RequestTarget | server.cpp:93 | target extraction fails iff the buffer is shorter than 4 bytes; otherwise the target is the bytes from offset 4 up to, but not including, the first space, or to the end |
| HttpServer.Response | server.cpp:55-65 | target `/` gets the 200 header and then the index page; any other target gets the 404 header only |
| HttpServer.ResponseStatus | server.cpp:43-65 | the bytes sent start with `HTTP/1.1 200 OK` iff the target is `/`, then carry the index page, and start with `HTTP/1.1 404 Not Found` iff it is not |
| HttpServer.OnRead | server.cpp:80-88 | a read result of 0 or less is retried iff `errno` is `EAGAIN` and gives up otherwise; a positive result is the request, that many bytes of the buffer |
| HttpServer.OnWrite | server.cpp:67-72 | the response is sent again iff the write result is 0 or less and `errno` is `EAGAIN` |
| HttpServer.ReadLoop | server.cpp:79-88 | the retry loop ends at the first read that is not an `EAGAIN` failure, with that read's request or failure; until then, every read was retried |
| HttpServer.SendFile | server.cpp:53-73 | every attempt sends the same response for the same target; each attempt except the last met an `EAGAIN` failure, and sending ends at the first write that did not |
| HttpServer.Serve | server.cpp:76-101 | `serve` returns the socket it was given. It waits while no read has completed. A failed read or a non-GET request sends nothing. A GET with a target submits exactly the attempts of `http_send_file` for that target, at least one, and `serve` returns iff that send completed. It throws iff the request is the bare `GET` |
| HttpServer.BareGetThrows | server.cpp:92-93 | the 3-byte request `GET` passes the GET test, and target extraction then throws `out_of_range` |
| HttpServer.IndexRequestTarget | server.cpp:93 | `GET / HTTP/1.1` asks for the target `/` |
| HttpServer.IndexRequestServed | server.cpp:76-101 | a connection whose first read delivers `GET / HTTP/1.1` and whose first write succeeds gets one `writev` of the 200 header and the index page, and `serve` returns the socket |

## Left out

- Context switching and stacks are not modelled; only their effect is: control passes into the body until its next `yield` or its end. This covers `getcontext`/`makecontext`/`swapcontext`, the `SIGSTKSZ` stack and the Windows fiber API (main.cpp:50-98, 109-114, 145-150, 183-185). They are platform calls.
- `std::function`, `std::bind` and `std::exception_ptr` are replaced by the `Body` datatype and an abstract exception type.
- Fibers.YieldAll: the `assert(&fiber != this)` precondition has no counterpart, because fibers are values here and the inner fiber is a separate value by construction.
- Fibers.Next: the precondition `WellFormed` is not something the source asks of callers. It is the invariant every reachable fiber state satisfies, and `New` establishes it.
- FiberIterators.IsEnd: iterator `==` and `!=` compare fiber pointers; only the comparison with `end()` is modelled, which is the only use the code sanctions.
- The copy-deletion of `Fiber` and the `std::iterator` base are C++ typing details without behaviour.
- Permutation.PermutationBody: requires `length <= |arr|`. In the C++ a `length` above 4 makes `arr[i]` and the `copy_n` counts go past the array, which is undefined behaviour, so that case has no defined result to model.
- Bodies are finite traces, so a body that never returns (an endless generator) has no `Body`. Any finite run of `next()` calls on such a fiber still matches some finite trace.
- Permutation.PermutationDemo: the `cout`/`ostream_iterator` row format of main.cpp:273-274 is not modelled; the rows are given as sequences.
- Permutation: `array<int, 4>` becomes a sequence of any length, and `int` elements are unbounded; the generator does no arithmetic on them.
- yield.hpp, the fiber header server.cpp uses, is not part of this model. That covers `next(value)`, `current()` returning an optional, and `Fiber<int, true>`. What happens when an exception escapes `serve`'s fiber in `main`'s event loop depends on it, so it is not modelled either.
- The following are I/O plumbing and are not modelled:
  - io_uring setup, submission and completion, and the `await_io_uring_*` helpers (server.cpp:21-33, 103-157);
  - sockets, `accept`/`bind`/`listen`/`close`;
  - `printf`/`perror`.
- HttpServer.OnRead: `errno` is an input. With io_uring a failed operation reports `-errno` in its result and does not set `errno`, so the value the code tests is whatever an earlier call left.
- HttpServer.ToIov: `to_iov(buf, sizeof(buf))` builds a `string_view` from the uninitialised `buf`, which scans it with `strlen`. Only the resulting base and the explicit length 1024 are modelled; the scan is undefined behaviour and is not modelled.
- HttpServer.ToIov: addresses are natural numbers. The `const_cast` and the addresses of the static header strings are not modelled.
- HttpServer.SendFile: a short positive write is not retried, as in the code; the unsent remainder is not modelled.
- benchmark/pingpang.cpp and benchmark/createalot.cpp are not modelled: they are timing loops over the fiber API of yield.hpp.
