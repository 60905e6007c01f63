/** The state machine both permutation generators of the N-Queens benchmark
    run, as functions: an `indices` list that is always a permutation of
    `0 .. n-1`, and a `cycles` list that works as a mixed-radix countdown.
    Each pass over the cycles from the right either swaps two indices (and
    the generator yields the first `r` of them) or, having reset every cycle,
    ends the generation.  The countdown shows that exactly `n! / (n-r)!`
    tuples are produced. */
module PermSpec {
  import opened Wrappers

  /** `list(range(n))`. */
  function Iota(n: nat): (r: seq<int>)
    ensures |r| == n && forall k :: 0 <= k < n ==> r[k] == k
  {
    seq(n, k => k)
  }

  /** The initial cycles `[n, n-1, ..., n-r+1]`. */
  function InitCycles(n: int, r: nat): (c: seq<int>)
    ensures |c| == r && forall k :: 0 <= k < r ==> c[k] == n - k
  {
    seq(r, k => n - k)
  }

  predicate Distinct(s: seq<int>)
  {
    forall a, b :: 0 <= a < b < |s| ==> s[a] != s[b]
  }

  /** `ind` is a permutation of `0 .. n-1`. */
  predicate IsPerm(ind: seq<int>, n: int)
  {
    && |ind| == n
    && (forall k :: 0 <= k < |ind| ==> 0 <= ind[k] < n)
    && Distinct(ind)
  }

  /** Cycle `k` lies in `[1, n-k]`. */
  predicate CyclesOk(c: seq<int>, n: int)
  {
    forall k :: 0 <= k < |c| ==> 1 <= c[k] <= n - k
  }

  /** `indices[i:] = indices[i+1:] + indices[i:i+1]`: the suffix from `i`
      rotated left by one. */
  function Rotate(ind: seq<int>, i: int): (r: seq<int>)
    requires 0 <= i < |ind|
    ensures |r| == |ind|
    ensures forall k :: 0 <= k < i ==> r[k] == ind[k]
    ensures forall k :: i <= k < |ind| - 1 ==> r[k] == ind[k + 1]
    ensures r[|ind| - 1] == ind[i]
  {
    ind[..i] + ind[i + 1..] + [ind[i]]
  }

  /** Exchange of the entries at `a` and `b`. */
  function Swap(ind: seq<int>, a: int, b: int): (r: seq<int>)
    requires 0 <= a < |ind| && 0 <= b < |ind|
    ensures |r| == |ind| && r[a] == ind[b] && r[b] == ind[a]
    ensures forall k :: 0 <= k < |ind| && k != a && k != b ==> r[k] == ind[k]
  {
    ind[a := ind[b]][b := ind[a]]
  }

  lemma RotatePerm(ind: seq<int>, n: int, i: int)
    requires IsPerm(ind, n) && 0 <= i < n
    ensures IsPerm(Rotate(ind, i), n)
  {
    var r := Rotate(ind, i);
    forall a, b | 0 <= a < b < n
      ensures r[a] != r[b]
    {
      var a' := if a < i then a else if a < n - 1 then a + 1 else i;
      var b' := if b < i then b else if b < n - 1 then b + 1 else i;
      assert r[a] == ind[a'] && r[b] == ind[b'];
      assert a' != b';
    }
  }

  lemma SwapPerm(ind: seq<int>, n: int, a: int, b: int)
    requires IsPerm(ind, n) && 0 <= a < n && 0 <= b < n
    ensures IsPerm(Swap(ind, a, b), n)
  {
    var r := Swap(ind, a, b);
    forall p, q | 0 <= p < q < n
      ensures r[p] != r[q]
    {
      var p' := if p == a then b else if p == b then a else p;
      var q' := if q == a then b else if q == b then a else q;
      assert r[p] == ind[p'] && r[q] == ind[q'];
    }
  }

  /** The outcome of one pass: the new lists, and whether it swapped. */
  datatype Step = Step(indices: seq<int>, cycles: seq<int>, swapped: bool)

  /** One pass of the generator's inner loop, from position `i` down to 0:
      decrement cycle `i`; at zero, rotate the suffix, reset the cycle to
      `n - i` and go on left; otherwise swap `indices[i]` with
      `indices[n - cycles[i]]` and stop. */
  function Pass(ind: seq<int>, c: seq<int>, i: int, n: int): Step
    requires |ind| == n && |c| <= n && -1 <= i < |c| && CyclesOk(c, n)
    decreases i + 1
  {
    if i < 0 then Step(ind, c, false)
    else if c[i] - 1 == 0 then Pass(Rotate(ind, i), c[i := n - i], i - 1, n)
    else Step(Swap(ind, i, n - (c[i] - 1)), c[i := c[i] - 1], true)
  }

  /** A pass keeps the cycles in range and leaves those right of `i` alone,
      and it keeps the indices a permutation. */
  lemma {:induction false} PassShape(ind: seq<int>, c: seq<int>, i: int, n: int)
    requires |ind| == n && |c| <= n && -1 <= i < |c| && CyclesOk(c, n)
    ensures var st := Pass(ind, c, i, n);
            && |st.indices| == n && |st.cycles| == |c| && CyclesOk(st.cycles, n)
            && st.cycles[i + 1..] == c[i + 1..]
            && (IsPerm(ind, n) ==> IsPerm(st.indices, n))
    decreases i + 1
  {
    if i >= 0 {
      var d := c[i] - 1;
      if d == 0 {
        PassShape(Rotate(ind, i), c[i := n - i], i - 1, n);
        var st := Pass(Rotate(ind, i), c[i := n - i], i - 1, n);
        assert st.cycles[i + 1..] == c[i := n - i][i + 1..] == c[i + 1..];
        if IsPerm(ind, n) {
          RotatePerm(ind, n, i);
        }
      } else if IsPerm(ind, n) {
        SwapPerm(ind, n, i, n - d);
      }
    }
  }

  /** The cycles read as a number: digit `k` is `cycles[k] - 1`, of radix
      `n - k`, the rightmost digit least significant.  This is the value of
      the first `k` digits. */
  function Value(c: seq<int>, n: int, k: int): int
    requires 0 <= k <= |c|
  {
    if k == 0 then 0 else Value(c, n, k - 1) * (n - (k - 1)) + (c[k - 1] - 1)
  }

  /** `n * (n-1) * ... * (n-k+1)`, the number of `k`-permutations of `n`. */
  function Falling(n: int, k: nat): int
  {
    if k == 0 then 1 else Falling(n, k - 1) * (n - (k - 1))
  }

  function Factorial(n: nat): nat
  {
    if n == 0 then 1 else n * Factorial(n - 1)
  }

  /** `Falling(n, k)` is `n! / (n-k)!`. */
  lemma {:induction false} FallingFactorial(n: nat, k: nat)
    requires k <= n
    ensures Falling(n, k) * Factorial(n - k) == Factorial(n)
  {
    if k > 0 {
      FallingFactorial(n, k - 1);
      assert Factorial(n - (k - 1)) == (n - (k - 1)) * Factorial(n - k);
      calc {
        Falling(n, k) * Factorial(n - k);
        Falling(n, k - 1) * (n - (k - 1)) * Factorial(n - k);
        { MulAssoc(Falling(n, k - 1), n - (k - 1), Factorial(n - k)); }
        Falling(n, k - 1) * Factorial(n - (k - 1));
      }
    }
  }

  lemma MulAssoc(a: int, b: int, c: int)
    ensures a * b * c == a * (b * c)
  {
  }

  lemma {:induction false} ValuePrefix(c1: seq<int>, c2: seq<int>, n: int, k: int)
    requires 0 <= k <= |c1| && k <= |c2| && c1[..k] == c2[..k]
    ensures Value(c1, n, k) == Value(c2, n, k)
  {
    if k > 0 {
      assert c1[..k - 1] == c1[..k][..k - 1];
      assert c2[..k - 1] == c2[..k][..k - 1];
      assert c1[k - 1] == c1[..k][k - 1];
      assert c2[k - 1] == c2[..k][k - 1];
      ValuePrefix(c1, c2, n, k - 1);
    }
  }

  lemma {:induction false} ValueNonNegative(c: seq<int>, n: int, k: int)
    requires 0 <= k <= |c| <= n && CyclesOk(c, n)
    ensures Value(c, n, k) >= 0
  {
    if k > 0 {
      ValueNonNegative(c, n, k - 1);
      MulNonNegative(Value(c, n, k - 1), n - (k - 1));
    }
  }

  /** A pass that swaps counts the cycles down by one; a pass that does not
      swap started from the value zero. */
  lemma {:induction false} PassValue(ind: seq<int>, c: seq<int>, i: int, n: int)
    requires |ind| == n && |c| <= n && -1 <= i < |c| && CyclesOk(c, n)
    ensures var st := Pass(ind, c, i, n);
            && |st.cycles| == |c|
            && (st.swapped ==> Value(st.cycles, n, i + 1) == Value(c, n, i + 1) - 1)
            && (!st.swapped ==> Value(c, n, i + 1) == 0)
    decreases i + 1
  {
    PassShape(ind, c, i, n);
    if i >= 0 {
      var d := c[i] - 1;
      var st := Pass(ind, c, i, n);
      if d == 0 {
        var c1 := c[i := n - i];
        PassValue(Rotate(ind, i), c1, i - 1, n);
        PassShape(Rotate(ind, i), c1, i - 1, n);
        assert c1[..i] == c[..i];
        ValuePrefix(c1, c, n, i);
        assert st.cycles[i] == n - i by {
          assert st.cycles[i..] == c1[i..];
          assert st.cycles[i] == st.cycles[i..][0];
        }
        var v := Value(c, n, i);
        if st.swapped {
          assert Value(st.cycles, n, i) == v - 1;
          assert Value(st.cycles, n, i + 1) == (v - 1) * (n - i) + (n - i - 1);
          Borrow(v, n - i);
        }
      } else {
        assert st.cycles == c[i := d];
        assert st.cycles[..i] == c[..i];
        ValuePrefix(st.cycles, c, n, i);
      }
    }
  }

  lemma Borrow(v: int, w: int)
    ensures (v - 1) * w + (w - 1) == v * w - 1
  {
    assert (v - 1) * w == v * w - w;
  }

  /** The value of the initial cycles: every digit at its maximum. */
  lemma {:induction false} InitValue(n: int, r: nat, k: nat)
    requires k <= r
    ensures Value(InitCycles(n, r), n, k) == Falling(n, k) - 1
  {
    if k > 0 {
      InitValue(n, r, k - 1);
      var w := n - (k - 1);
      assert Value(InitCycles(n, r), n, k) == (Falling(n, k - 1) - 1) * w + (w - 1);
      Borrow(Falling(n, k - 1), w);
    }
  }

  /** `pool[indices[0]], ..., pool[indices[r-1]]`, the tuple the generator
      yields. */
  function Gather<T>(pool: seq<T>, ind: seq<int>, r: int): (t: seq<T>)
    requires 0 <= r <= |ind| && forall k :: 0 <= k < r ==> 0 <= ind[k] < |pool|
    ensures |t| == r && forall k :: 0 <= k < r ==> t[k] == pool[ind[k]]
  {
    seq(r, k requires 0 <= k < r => pool[ind[k]])
  }

  /** `t` is `pool` taken at `r` distinct positions, the first `r` of some
      permutation of `0 .. |pool|-1`. */
  ghost predicate Drawn<T>(t: seq<T>, pool: seq<T>, r: int)
  {
    exists ind :: IsPerm(ind, |pool|) && 0 <= r <= |pool| && t == Gather(pool, ind, r)
  }

  /** The tuples the generator yields after the first, from the state
      `(ind, c)`: one per swapping pass, until a pass swaps nothing. */
  function Run<T>(pool: seq<T>, ind: seq<int>, c: seq<int>, r: int): seq<seq<T>>
    requires IsPerm(ind, |pool|) && |c| == r <= |pool| && CyclesOk(c, |pool|)
    decreases Value(c, |pool|, r)
  {
    var n := |pool|;
    var st := Pass(ind, c, r - 1, n);
    if !st.swapped then []
    else
      PassShape(ind, c, r - 1, n);
      PassValue(ind, c, r - 1, n);
      ValueNonNegative(st.cycles, n, r);
      [Gather(pool, st.indices, r)] + Run(pool, st.indices, st.cycles, r)
  }

  /** Everything `permutations(pool, r)` yields.  A negative `r` yields the
      single slice `pool[:r]`, since the loop over `reversed(range(r))` is
      empty. */
  function Generate<T>(pool: seq<T>, r: int): (out: seq<seq<T>>)
    requires r <= |pool|
    ensures |out| >= 1
    ensures r >= 0 ==> out[0] == pool[..r]
  {
    var n := |pool|;
    if r < 0 then [pool[..if n + r < 0 then 0 else n + r]]
    else
      var first := Gather(pool, Iota(n), r);
      assert first == pool[..r];
      [first] + (if n == 0 then [] else Run(pool, Iota(n), InitCycles(n, r), r))
  }

  lemma {:induction false} RunCount<T>(pool: seq<T>, ind: seq<int>, c: seq<int>, r: int)
    requires IsPerm(ind, |pool|) && |c| == r <= |pool| && CyclesOk(c, |pool|)
    ensures |Run(pool, ind, c, r)| == Value(c, |pool|, r)
    decreases Value(c, |pool|, r)
  {
    var n := |pool|;
    var st := Pass(ind, c, r - 1, n);
    PassValue(ind, c, r - 1, n);
    PassShape(ind, c, r - 1, n);
    if st.swapped {
      ValueNonNegative(st.cycles, n, r);
      RunCount(pool, st.indices, st.cycles, r);
    }
  }

  /** For `0 <= r <= n` the generator yields `n! / (n-r)!` tuples. */
  lemma GenerateCount<T>(pool: seq<T>, r: int)
    requires 0 <= r <= |pool|
    ensures |Generate(pool, r)| == Falling(|pool|, r)
    ensures Falling(|pool|, r) * Factorial(|pool| - r) == Factorial(|pool|)
  {
    var n := |pool|;
    InitValue(n, r, r);
    FallingFactorial(n, r);
    if n > 0 {
      assert IsPerm(Iota(n), n);
      assert CyclesOk(InitCycles(n, r), n);
      RunCount(pool, Iota(n), InitCycles(n, r), r);
    }
  }

  lemma {:induction false} RunDrawn<T>(pool: seq<T>, ind: seq<int>, c: seq<int>, r: int)
    requires IsPerm(ind, |pool|) && |c| == r <= |pool| && CyclesOk(c, |pool|)
    ensures forall k :: 0 <= k < |Run(pool, ind, c, r)| ==> Drawn(Run(pool, ind, c, r)[k], pool, r)
    decreases Value(c, |pool|, r)
  {
    var n := |pool|;
    var st := Pass(ind, c, r - 1, n);
    if st.swapped {
      PassValue(ind, c, r - 1, n);
      PassShape(ind, c, r - 1, n);
      ValueNonNegative(st.cycles, n, r);
      RunDrawn(pool, st.indices, st.cycles, r);
      var rest := Run(pool, st.indices, st.cycles, r);
      assert Run(pool, ind, c, r) == [Gather(pool, st.indices, r)] + rest;
      assert Drawn(Gather(pool, st.indices, r), pool, r);
    }
  }

  /** Every tuple yielded for `0 <= r <= n` is `pool` at `r` distinct
      positions. */
  lemma GenerateDrawn<T>(pool: seq<T>, r: int)
    requires 0 <= r <= |pool|
    ensures forall k :: 0 <= k < |Generate(pool, r)| ==> Drawn(Generate(pool, r)[k], pool, r)
  {
    var n := |pool|;
    assert IsPerm(Iota(n), n);
    assert Drawn(Gather(pool, Iota(n), r), pool, r);
    if n > 0 {
      RunDrawn(pool, Iota(n), InitCycles(n, r), r);
    }
  }

  /** The last pass of the documented example, on `range(3)` with `r = 2`,
      swaps nothing. */
  lemma DocStep0()
    ensures Run([0, 1, 2], [2, 1, 0], [1, 1], 2) == []
  {
    assert Pass([2, 1, 0], [1, 1], 1, 3) == Step([0, 1, 2], [3, 2], false);
  }

  lemma DocStep1()
    ensures Run([0, 1, 2], [2, 0, 1], [1, 2], 2) == [[2, 1]]
  {
    assert Pass([2, 0, 1], [1, 2], 1, 3) == Step([2, 1, 0], [1, 1], true);
    DocStep0();
    assert Gather([0, 1, 2], [2, 1, 0], 2) == [2, 1];
  }

  lemma DocStep2()
    ensures Run([0, 1, 2], [1, 2, 0], [2, 1], 2) == [[2, 0], [2, 1]]
  {
    assert Pass([1, 2, 0], [2, 1], 1, 3) == Step([2, 0, 1], [1, 2], true);
    DocStep1();
    assert Gather([0, 1, 2], [2, 0, 1], 2) == [2, 0];
  }

  lemma DocStep3()
    ensures Run([0, 1, 2], [1, 0, 2], [2, 2], 2) == [[1, 2], [2, 0], [2, 1]]
  {
    assert Pass([1, 0, 2], [2, 2], 1, 3) == Step([1, 2, 0], [2, 1], true);
    DocStep2();
    assert Gather([0, 1, 2], [1, 2, 0], 2) == [1, 2];
  }

  lemma DocStep4()
    ensures Run([0, 1, 2], [0, 2, 1], [3, 1], 2) == [[1, 0], [1, 2], [2, 0], [2, 1]]
  {
    assert Pass([0, 2, 1], [3, 1], 1, 3) == Step([1, 0, 2], [2, 2], true);
    DocStep3();
    assert Gather([0, 1, 2], [1, 0, 2], 2) == [1, 0];
  }

  lemma DocStep5()
    ensures Run([0, 1, 2], [0, 1, 2], [3, 2], 2) == [[0, 2], [1, 0], [1, 2], [2, 0], [2, 1]]
  {
    assert Pass([0, 1, 2], [3, 2], 1, 3) == Step([0, 2, 1], [3, 1], true);
    DocStep4();
    assert Gather([0, 1, 2], [0, 2, 1], 2) == [0, 2];
  }

  /** The documented example: `permutations(range(3), 2)` yields
      `(0,1) (0,2) (1,0) (1,2) (2,0) (2,1)`, in that order. */
  lemma DocExample()
    ensures Generate([0, 1, 2], 2) == [[0, 1], [0, 2], [1, 0], [1, 2], [2, 0], [2, 1]]
  {
    assert InitCycles(3, 2) == [3, 2];
    assert Iota(3) == [0, 1, 2];
    assert Gather([0, 1, 2], Iota(3), 2) == [0, 1];
    DocStep5();
  }
}
