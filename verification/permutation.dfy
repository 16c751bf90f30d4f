/**
 The `permutation` generator of main.cpp and the range-for in its `main`.

 `permutation(fiber, arr, length)` keeps `arr` as a pool of `length`
 elements still to choose (the front) followed by the elements chosen so
 far, in the order they were chosen (the back). Each step takes pool
 element `i` out and appends it at the very back, then delegates to a
 nested fiber for the smaller pool; an empty pool yields `arr`.
 The model works on sequences of any size, the source on `array<int, 4>`.
 */
module Permutation {
  import opened Wrappers
  import opened Traces
  import opened Fibers
  import opened FiberIterators

  /** `newArr`: `arr` with element `i` taken out and appended at the back. */
  function Rotate(arr: seq<int>, i: nat): (r: seq<int>)
    requires i < |arr|
    ensures |r| == |arr|
  {
    arr[..i] + arr[i + 1..] + [arr[i]]
  }

  /** `newArr` is a rearrangement of `arr`: only element `i` moved, to
      the back. */
  lemma RotateRearranges(arr: seq<int>, i: nat)
    requires i < |arr|
    ensures var r := Rotate(arr, i);
      && r[|arr| - 1] == arr[i]
      && (forall k :: 0 <= k < i ==> r[k] == arr[k])
      && (forall k :: i <= k < |arr| - 1 ==> r[k] == arr[k + 1])
      && multiset(r) == multiset(arr)
  {
    assert arr == arr[..i] + [arr[i]] + arr[i + 1..];
  }

  /** The body `bind(permutation, _1, arr, length)`. A zero `length` yields
      `arr`; any other runs the `for` loop, which does nothing when
      `length` is negative. Nothing in it throws. */
  function PermutationBody<E>(arr: seq<int>, length: int): (b: Body<seq<int>, E>)
    requires length <= |arr|
    ensures Run(b).outcome == Normal
    decreases if length > 0 then length else 0, 1, 0
  {
    if length != 0 then PermutationLoop(arr, length, 0) else Yield(arr)
  }

  /** Iterations `i`, `i + 1`, ... of the loop: each delegates, through
      `yieldAll`, to a temporary fiber permuting the smaller pool. */
  function PermutationLoop<E>(arr: seq<int>, length: int, i: nat): (b: Body<seq<int>, E>)
    requires length <= |arr|
    ensures Run(b).outcome == Normal
    decreases if length > 0 then length else 0, 0, length - i
  {
    if i >= length then Return
    else
      Then(YieldAll(PermutationBody(Rotate(arr, i), length - 1)),
           PermutationLoop(arr, length, i + 1))
  }

  /** The arrays the generator yields, in depth-first order. */
  function Perms(arr: seq<int>, length: nat): seq<seq<int>>
    requires length <= |arr|
    decreases length, 1, 0
  {
    if length == 0 then [arr] else PermsFrom(arr, length, 0)
  }

  function PermsFrom(arr: seq<int>, length: nat, i: nat): seq<seq<int>>
    requires 0 < length <= |arr| && i <= length
    decreases length, 0, length - i
  {
    if i == length then []
    else Perms(Rotate(arr, i), length - 1) + PermsFrom(arr, length, i + 1)
  }

  function Factorial(n: nat): nat
  {
    if n == 0 then 1 else n * Factorial(n - 1)
  }

  ghost predicate Distinct<X>(s: seq<X>)
  {
    forall i, j :: 0 <= i < j < |s| ==> s[i] != s[j]
  }

  /** `p` keeps the elements already chosen (`arr[length..]`) in front and
      holds the pool `arr[..length]`, in some order, behind them. */
  ghost predicate Shaped(p: seq<int>, arr: seq<int>, length: nat)
    requires length <= |arr|
  {
    && |p| == |arr|
    && p[..|arr| - length] == arr[length..]
    && multiset(p[|arr| - length..]) == multiset(arr[..length])
  }

  /** A fiber running the generator yields `Perms` and returns normally. */
  lemma {:induction false} PermutationTrace<E>(arr: seq<int>, length: nat)
    requires length <= |arr|
    ensures Run(PermutationBody<E>(arr, length)) == Trace(Perms(arr, length), Normal)
    decreases length, 1, 0
  {
    if length > 0 {
      PermutationLoopTrace<E>(arr, length, 0);
    }
  }

  lemma {:induction false} PermutationLoopTrace<E>(arr: seq<int>, length: nat, i: nat)
    requires 0 < length <= |arr| && i <= length
    ensures Run(PermutationLoop<E>(arr, length, i)) == Trace(PermsFrom(arr, length, i), Normal)
    decreases length, 0, length - i
  {
    if i < length {
      var inner := PermutationBody<E>(Rotate(arr, i), length - 1);
      var later := PermutationLoop<E>(arr, length, i + 1);
      assert PermutationLoop<E>(arr, length, i) == Then(YieldAll(inner), later);
      PermutationTrace<E>(Rotate(arr, i), length - 1);
      PermutationLoopTrace<E>(arr, length, i + 1);
      assert Run(YieldAll(inner)) == Trace(Perms(Rotate(arr, i), length - 1), Normal);
    }
  }

  /** A negative `length` skips the loop: nothing is yielded. */
  lemma NegativeLengthYieldsNothing<E>(arr: seq<int>, length: int)
    requires length < 0
    ensures Run(PermutationBody<E>(arr, length)) == Trace([], Normal)
  {
  }

  /** Taking element `i` out of the pool: the back grows by `arr[i]` and
      the pool loses exactly that element. */
  lemma RotateSplit(arr: seq<int>, i: nat, length: nat)
    requires i < length <= |arr|
    ensures Rotate(arr, i)[length - 1..] == arr[length..] + [arr[i]]
    ensures Rotate(arr, i)[..length - 1] == arr[..i] + arr[i + 1..length]
    ensures multiset(arr[..length]) == multiset(arr[..i] + arr[i + 1..length]) + multiset{arr[i]}
  {
    var r := Rotate(arr, i);
    assert r == arr[..i] + arr[i + 1..] + [arr[i]];
    assert arr[i + 1..] == arr[i + 1..length] + arr[length..];
    assert r == (arr[..i] + arr[i + 1..length]) + (arr[length..] + [arr[i]]);
    assert arr[..length] == arr[..i] + [arr[i]] + arr[i + 1..length];
  }

  /** `Perms` has `length!` entries. */
  lemma {:induction false} PermsCount(arr: seq<int>, length: nat)
    requires length <= |arr|
    ensures |Perms(arr, length)| == Factorial(length)
    decreases length, 1, 0
  {
    if length > 0 {
      PermsFromCount(arr, length, 0);
    }
  }

  lemma {:induction false} PermsFromCount(arr: seq<int>, length: nat, i: nat)
    requires 0 < length <= |arr| && i <= length
    ensures |PermsFrom(arr, length, i)| == (length - i) * Factorial(length - 1)
    decreases length, 0, length - i
  {
    if i < length {
      var r := Rotate(arr, i);
      PermsCount(r, length - 1);
      PermsFromCount(arr, length, i + 1);
      var f, k := Factorial(length - 1), length - (i + 1);
      var first, later := Perms(r, length - 1), PermsFrom(arr, length, i + 1);
      assert PermsFrom(arr, length, i) == first + later;
      CountStep(|PermsFrom(arr, length, i)|, |first|, |later|, f, k);
    }
  }

  lemma CountStep(total: nat, first: nat, later: nat, f: nat, k: nat)
    requires total == first + later && first == f && later == k * f
    ensures total == (k + 1) * f
  {
  }

  /** Every entry of `Perms` keeps the chosen elements and rearranges the pool. */
  lemma {:induction false} PermsShape(arr: seq<int>, length: nat)
    requires length <= |arr|
    ensures forall p :: p in Perms(arr, length) ==> Shaped(p, arr, length)
    decreases length, 1, 0
  {
    if length == 0 {
      assert arr[|arr|..] == [] && arr[..0] == [];
      assert arr[..|arr|] == arr[0..];
    } else {
      PermsFromShape(arr, length, 0);
    }
  }

  /** Taking `arr[i]` out of the pool first and arranging what is left
      gives an arrangement of the whole pool that starts with `arr[i]`. */
  lemma ShapedAfterChoice(arr: seq<int>, i: nat, length: nat, p: seq<int>)
    requires i < length <= |arr|
    requires Shaped(p, Rotate(arr, i), length - 1)
    ensures Shaped(p, arr, length) && p[|arr| - length] == arr[i]
  {
    var r := Rotate(arr, i);
    var m := |arr| - length;
    RotateSplit(arr, i, length);
    assert p[..m + 1] == arr[length..] + [arr[i]];
    assert p[..m] == p[..m + 1][..m];
    assert p[m] == p[..m + 1][m];
    assert p[m..] == [p[m]] + p[m + 1..];
    assert multiset(p[m + 1..]) == multiset(arr[..i] + arr[i + 1..length]);
  }

  /** An entry produced after taking out `arr[i]` first starts its pool
      section with `arr[i]`. */
  lemma FirstChoice(arr: seq<int>, i: nat, length: nat, p: seq<int>)
    requires i < length <= |arr|
    requires p in Perms(Rotate(arr, i), length - 1)
    ensures Shaped(p, arr, length) && p[|arr| - length] == arr[i]
    decreases length, 0, 0
  {
    PermsShape(Rotate(arr, i), length - 1);
    ShapedAfterChoice(arr, i, length, p);
  }

  lemma {:induction false} PermsFromShape(arr: seq<int>, length: nat, i: nat)
    requires 0 < length <= |arr| && i <= length
    ensures forall p :: p in PermsFrom(arr, length, i) ==>
              Shaped(p, arr, length) && p[|arr| - length] in arr[i..length]
    decreases length, 0, length - i
  {
    if i < length {
      var m := |arr| - length;
      PermsFromShape(arr, length, i + 1);
      forall p | p in Perms(Rotate(arr, i), length - 1)
        ensures Shaped(p, arr, length) && p[m] in arr[i..length]
      {
        FirstChoice(arr, i, length, p);
        assert arr[i..length][0] == arr[i];
      }
      forall p | p in PermsFrom(arr, length, i + 1)
        ensures p[m] in arr[i..length]
      {
        assert arr[i + 1..length] == arr[i..length][1..];
      }
    }
  }

  /** Each entry is a rearrangement of `arr`. */
  lemma PermsRearrange(arr: seq<int>, length: nat)
    requires length <= |arr|
    ensures forall p :: p in Perms(arr, length) ==> |p| == |arr| && multiset(p) == multiset(arr)
  {
    PermsShape(arr, length);
    forall p | p in Perms(arr, length)
      ensures multiset(p) == multiset(arr)
    {
      var m := |arr| - length;
      assert p == p[..m] + p[m..];
      assert arr == arr[..length] + arr[length..];
    }
  }

  lemma DistinctConcat<X>(a: seq<X>, b: seq<X>)
    requires Distinct(a) && Distinct(b)
    requires forall x :: x in a ==> x !in b
    ensures Distinct(a + b)
  {
    forall i, j | 0 <= i < j < |a + b|
      ensures (a + b)[i] != (a + b)[j]
    {
      if j < |a| {
        assert (a + b)[i] == a[i] && (a + b)[j] == a[j];
      } else if i >= |a| {
        assert (a + b)[i] == b[i - |a|] && (a + b)[j] == b[j - |a|];
      } else {
        assert (a + b)[i] == a[i] && (a + b)[j] == b[j - |a|];
        assert a[i] in a;
      }
    }
  }

  /** When the pool holds no duplicates, neither does `Perms`. */
  lemma {:induction false} PermsDistinct(arr: seq<int>, length: nat)
    requires length <= |arr| && Distinct(arr[..length])
    ensures Distinct(Perms(arr, length))
    decreases length, 1, 0
  {
    if length > 0 {
      PermsFromDistinct(arr, length, 0);
    }
  }

  lemma {:induction false} PermsFromDistinct(arr: seq<int>, length: nat, i: nat)
    requires 0 < length <= |arr| && i <= length && Distinct(arr[..length])
    ensures Distinct(PermsFrom(arr, length, i))
    decreases length, 0, length - i
  {
    if i < length {
      var r := Rotate(arr, i);
      RotateSplit(arr, i, length);
      DistinctRemove(arr[..length], i);
      assert arr[..length][..i] + arr[..length][i + 1..] == r[..length - 1];
      PermsDistinct(r, length - 1);
      PermsFromDistinct(arr, length, i + 1);
      var first, later := Perms(r, length - 1), PermsFrom(arr, length, i + 1);
      FirstChoicesDiffer(arr, i, length, first, later);
      DistinctConcat(first, later);
    }
  }

  lemma DistinctRemove<X>(s: seq<X>, i: nat)
    requires i < |s| && Distinct(s)
    ensures Distinct(s[..i] + s[i + 1..])
  {
  }

  /** With a duplicate-free pool, the entries produced after taking out
      `arr[i]` first differ from all those produced by later iterations. */
  lemma FirstChoicesDiffer(arr: seq<int>, i: nat, length: nat, first: seq<seq<int>>, later: seq<seq<int>>)
    requires i < length <= |arr| && Distinct(arr[..length])
    requires first == Perms(Rotate(arr, i), length - 1) && later == PermsFrom(arr, length, i + 1)
    ensures forall p :: p in first ==> p !in later
  {
    var m := |arr| - length;
    PermsFromShape(arr, length, i + 1);
    forall p | p in first
      ensures p !in later
    {
      FirstChoice(arr, i, length, p);
    }
  }

  lemma {:induction false} PermsFromContains(arr: seq<int>, length: nat, j: nat, i: nat, p: seq<int>)
    requires 0 < length <= |arr| && j <= i < length
    requires p in Perms(Rotate(arr, i), length - 1)
    ensures p in PermsFrom(arr, length, j)
    decreases i - j
  {
    if j < i {
      PermsFromContains(arr, length, j + 1, i, p);
    }
  }

  /** Removing the same element from two equal multisets leaves equal ones. */
  lemma MultisetCancel(x: int, s: seq<int>, t: seq<int>)
    requires multiset{x} + multiset(s) == multiset{x} + multiset(t)
    ensures multiset(s) == multiset(t)
  {
    forall y
      ensures multiset(s)[y] == multiset(t)[y]
    {
      assert (multiset{x} + multiset(s))[y] == (multiset{x} + multiset(t))[y];
    }
  }

  /** The first element of an arrangement of the pool is some pool element
      `i`; the rest of the arrangement is an arrangement of the pool that
      iteration `i` hands to its delegated fiber. */
  lemma PoolChoice(arr: seq<int>, length: nat, rest: seq<int>) returns (i: nat)
    requires 0 < length <= |arr| && multiset(rest) == multiset(arr[..length])
    ensures i < length && 0 < |rest| && arr[i] == rest[0]
    ensures multiset(rest[1..]) == multiset(Rotate(arr, i)[..length - 1])
    ensures Rotate(arr, i)[length - 1..] + rest[1..] == arr[length..] + rest
  {
    assert |rest| == |multiset(rest)| == length;
    assert rest[0] in multiset(arr[..length]);
    var k :| 0 <= k < length && arr[..length][k] == rest[0];
    i := k;
    RotateSplit(arr, i, length);
    assert rest == [rest[0]] + rest[1..];
    assert multiset(rest) == multiset{rest[0]} + multiset(rest[1..]);
    MultisetCancel(rest[0], rest[1..], arr[..i] + arr[i + 1..length]);
  }

  /** Every arrangement of the pool behind the chosen elements is produced. */
  lemma {:induction false} PermsComplete(arr: seq<int>, length: nat, rest: seq<int>)
    requires length <= |arr| && multiset(rest) == multiset(arr[..length])
    ensures arr[length..] + rest in Perms(arr, length)
    decreases length
  {
    if length == 0 {
      assert |rest| == |multiset(rest)| == 0;
      assert arr[0..] + rest == arr;
    } else {
      var i := PoolChoice(arr, length, rest);
      PermsComplete(Rotate(arr, i), length - 1, rest[1..]);
      PermsFromContains(arr, length, 0, i, arr[length..] + rest);
    }
  }

  /** Over a whole array of distinct elements: `|arr|!` arrays, each a
      rearrangement of `arr`, no two alike, and none missing. */
  lemma AllPermutations(arr: seq<int>)
    requires Distinct(arr)
    ensures var ps := Perms(arr, |arr|);
      && |ps| == Factorial(|arr|)
      && Distinct(ps)
      && (forall p :: p in ps ==> multiset(p) == multiset(arr))
      && (forall q :: multiset(q) == multiset(arr) ==> q in ps)
  {
    var n := |arr|;
    PermsCount(arr, n);
    assert arr[..n] == arr && arr[n..] == [];
    PermsDistinct(arr, n);
    PermsRearrange(arr, n);
    forall q | multiset(q) == multiset(arr)
      ensures q in Perms(arr, n)
    {
      PermsComplete(arr, n, q);
      assert arr[n..] + q == q;
    }
  }

  lemma OneToFourDistinct()
    ensures Distinct([1, 2, 3, 4])
  {
  }

  /** A range-for over a fiber running `permutation(arr, |arr|)`, built
      with `initial` as its `T()`: for distinct elements it visits `|arr|!`
      rows, no two alike, which are exactly the rearrangements of `arr`;
      it raises nothing and leaves the fiber finished, so its destructor
      does not terminate. */
  method PermutationsOf<E>(arr: seq<int>, initial: seq<int>) returns (rows: seq<seq<int>>, error: Option<E>, teardown: Teardown)
    requires Distinct(arr)
    ensures |rows| == Factorial(|arr|) && Distinct(rows)
    ensures forall p :: p in rows ==> multiset(p) == multiset(arr)
    ensures forall q :: multiset(q) == multiset(arr) ==> q in rows
    ensures error == None && teardown == Released
  {
    var body := PermutationBody<E>(arr, |arr|);
    PermutationTrace<E>(arr, |arr|);
    AllPermutations(arr);
    var fiber := New(body, initial);
    var last;
    rows, error, last := RangeFor(fiber);
    assert rows == Run(body).values[0..];
    teardown := Destroy(last);
  }

  /** `main`: the generator on `{1, 2, 3, 4}`, whose `T()` is the zero
      array, prints 24 rows, no two alike, which are exactly the
      rearrangements of `{1, 2, 3, 4}`. */
  method PermutationDemo<E>() returns (rows: seq<seq<int>>, error: Option<E>, teardown: Teardown)
    ensures |rows| == 24 && Distinct(rows)
    ensures forall p :: p in rows ==> multiset(p) == multiset([1, 2, 3, 4])
    ensures forall q :: multiset(q) == multiset([1, 2, 3, 4]) ==> q in rows
    ensures error == None && teardown == Released
  {
    OneToFourDistinct();
    rows, error, teardown := PermutationsOf<E>([1, 2, 3, 4], [0, 0, 0, 0]);
    assert Factorial(4) == 24;
  }
}
