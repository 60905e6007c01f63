/** The pure-Python N-Queens benchmark: a reimplementation of
    `itertools.permutations` as a state machine over an `indices` and a
    `cycles` list, and the solver that keeps the permutations of the columns
    whose diagonals are all distinct. */
module NQueens {
  import opened Wrappers
  import opened PermSpec

  /** permutations(pool, r): `r` defaults to the length of the pool.  The
      lists `indices` and `cycles` are updated in place, by a suffix rotation
      when a cycle runs out and by a swap otherwise; every swap yields the
      first `r` indices' entries of the pool.  The output is exactly what the
      state machine of `Generate` produces. */
  method Permutations<T>(pool: seq<T>, r: Option<int>) returns (out: seq<seq<T>>)
    requires r.Some? ==> r.value <= |pool|
    ensures out == Generate(pool, if r.None? then |pool| else r.value)
  {
    var n := |pool|;
    var rr := if r.None? then n else r.value;
    var indices := Iota(n);
    var cycles := if rr >= 0 then InitCycles(n, rr) else [];
    var first := if rr >= 0 then rr else if n + rr < 0 then 0 else n + rr;
    out := [Gather(pool, indices, first)];
    GenerateStart(pool, rr);
    if rr < 0 {
      // `reversed(range(r))` is empty: the first pass of the while loop
      // falls through to its `else: return`, as it does for `n == 0`.
      return;
    }
    while n != 0
      invariant |indices| == n && IsPerm(indices, n)
      invariant |cycles| == rr && CyclesOk(cycles, n)
      invariant out + Run(pool, indices, cycles, rr) == Generate(pool, rr)
      decreases Value(cycles, n, rr)
    {
      ghost var ind0, cyc0 := indices, cycles;
      var broke;
      indices, cycles, broke := CyclePass(indices, cycles, rr, n);
      if !broke {
        RunStep(pool, ind0, cyc0, rr);
        break;
      }
      RunStep(pool, ind0, cyc0, rr);
      out := out + [Gather(pool, indices, rr)];
    }
    if n == 0 {
      RunStep(pool, indices, cycles, rr);
    }
  }

  /** The first tuple, and the state the loop of permutations starts from. */
  lemma GenerateStart<T>(pool: seq<T>, r: int)
    requires r <= |pool|
    ensures var n := |pool|;
            var first := if r >= 0 then r else if n + r < 0 then 0 else n + r;
            && IsPerm(Iota(n), n)
            && Gather(pool, Iota(n), first) == pool[..first]
            && (r >= 0 ==>
                  && CyclesOk(InitCycles(n, r), n)
                  && [Gather(pool, Iota(n), r)] + Run(pool, Iota(n), InitCycles(n, r), r) == Generate(pool, r))
            && (r < 0 ==> [Gather(pool, Iota(n), first)] == Generate(pool, r))
  {
    var n := |pool|;
    assert IsPerm(Iota(n), n);
    if r >= 0 && n == 0 {
      assert Pass(Iota(n), InitCycles(n, r), r - 1, n).swapped == false;
    }
  }

  /** One step of `Run`: a pass that swaps yields a tuple and continues from
      its state; a pass that does not ends the run. */
  lemma RunStep<T>(pool: seq<T>, ind: seq<int>, c: seq<int>, r: int)
    requires IsPerm(ind, |pool|) && |c| == r <= |pool| && CyclesOk(c, |pool|)
    ensures var st := Pass(ind, c, r - 1, |pool|);
            && (!st.swapped ==> Run(pool, ind, c, r) == [])
            && (st.swapped ==>
                  && IsPerm(st.indices, |pool|) && |st.cycles| == r && CyclesOk(st.cycles, |pool|)
                  && 0 <= Value(st.cycles, |pool|, r) < Value(c, |pool|, r)
                  && Run(pool, ind, c, r) == [Gather(pool, st.indices, r)] + Run(pool, st.indices, st.cycles, r))
  {
    var st := Pass(ind, c, r - 1, |pool|);
    PassShape(ind, c, r - 1, |pool|);
    PassValue(ind, c, r - 1, |pool|);
    if st.swapped {
      ValueNonNegative(st.cycles, |pool|, r);
    }
  }

  /** The `for i in reversed(range(r))` loop of permutations, with its
      for/else: it walks the cycles from the right, rotating and resetting
      every cycle that runs out, until one swap is made (`broke`) or the pass
      ends.  Its outcome is the one pass `Pass` describes, so `indices` stays
      a permutation and each cycle stays in `[1, n-i]`. */
  method CyclePass(indices: seq<int>, cycles: seq<int>, r: int, n: int)
    returns (ind: seq<int>, cyc: seq<int>, broke: bool)
    requires 0 <= r <= n && |indices| == n && IsPerm(indices, n)
    requires |cycles| == r && CyclesOk(cycles, n)
    ensures Step(ind, cyc, broke) == Pass(indices, cycles, r - 1, n)
    ensures IsPerm(ind, n) && |cyc| == r && CyclesOk(cyc, n)
  {
    ind, cyc := indices, cycles;
    var i := r - 1;
    while i >= 0
      invariant -1 <= i < r
      invariant |ind| == n && |cyc| == r && CyclesOk(cyc, n)
      invariant Pass(ind, cyc, i, n) == Pass(indices, cycles, r - 1, n)
      decreases i
    {
      ghost var ind1, cyc1 := ind, cyc;
      cyc := cyc[i := cyc[i] - 1];
      if cyc[i] == 0 {
        ind := Rotate(ind, i);
        cyc := cyc[i := n - i];
        assert cyc == cyc1[i := n - i];
      } else {
        var j := cyc[i];
        ind := Swap(ind, i, n - j);
        PassShape(indices, cycles, r - 1, n);
        return ind, cyc, true;
      }
      i := i - 1;
    }
    PassShape(indices, cycles, r - 1, n);
    broke := false;
  }

  /** `list(range(n))` for a possibly negative `n`. */
  function Cols(queenCount: int): (c: seq<int>)
    ensures |c| == (if queenCount < 0 then 0 else queenCount)
  {
    Iota(if queenCount < 0 then 0 else queenCount)
  }

  /** The values of a sequence, as a set. */
  function Elems(s: seq<int>): set<int>
  {
    set i | 0 <= i < |s| :: s[i]
  }

  /** `vec[i] + i` for every row `i`: the anti-diagonal of each queen. */
  function Sums(vec: seq<int>): (d: seq<int>)
    ensures |d| == |vec| && forall i :: 0 <= i < |vec| ==> d[i] == vec[i] + i
  {
    seq(|vec|, i requires 0 <= i < |vec| => vec[i] + i)
  }

  /** `vec[i] - i` for every row `i`: the diagonal of each queen. */
  function Diffs(vec: seq<int>): (d: seq<int>)
    ensures |d| == |vec| && forall i :: 0 <= i < |vec| ==> d[i] == vec[i] - i
  {
    seq(|vec|, i requires 0 <= i < |vec| => vec[i] - i)
  }

  /** The test of n_queens: `queen_count == len(set(sums)) == len(set(diffs))`. */
  predicate SetTest(vec: seq<int>, queenCount: int)
  {
    queenCount == |Elems(Sums(vec))| && |Elems(Sums(vec))| == |Elems(Diffs(vec))|
  }

  /** A sequence has as many distinct values as entries exactly when no value
      repeats, and never more. */
  lemma {:induction false} CardDistinct(s: seq<int>)
    ensures |Elems(s)| <= |s|
    ensures |Elems(s)| == |s| <==> Distinct(s)
    decreases |s|
  {
    if |s| == 0 {
      assert Elems(s) == {};
    } else {
      var init := s[..|s| - 1];
      var last := s[|s| - 1];
      CardDistinct(init);
      assert Elems(s) == Elems(init) + {last} by {
        forall v | v in Elems(s) ensures v in Elems(init) + {last} {
          var k :| 0 <= k < |s| && s[k] == v;
          if k < |s| - 1 { assert init[k] == v; }
        }
        forall v | v in Elems(init) ensures v in Elems(s) {
          var k :| 0 <= k < |init| && init[k] == v;
          assert s[k] == v;
        }
      }
      if last in Elems(init) {
        var k :| 0 <= k < |init| && init[k] == last;
        assert s[k] == s[|s| - 1];
        assert Elems(s) == Elems(init);
      } else {
        assert |Elems(s)| == |Elems(init)| + 1;
        if Distinct(s) {
          assert Distinct(init) by {
            forall a, b | 0 <= a < b < |init| ensures init[a] != init[b] {
              assert init[a] == s[a] && init[b] == s[b];
            }
          }
        } else {
          var a, b :| 0 <= a < b < |s| && s[a] == s[b];
          assert forall k :: 0 <= k < |init| ==> init[k] != last;
          assert init[a] == s[a];
          assert b < |s| - 1;
          assert init[a] == init[b];
        }
        if Distinct(init) {
          forall a, b | 0 <= a < b < |s| ensures s[a] != s[b] {
            if b == |s| - 1 {
              assert init[a] == s[a];
            } else {
              assert init[a] == s[a] && init[b] == s[b];
            }
          }
        }
      }
    }
  }

  /** The set test accepts a vector exactly when it has `queen_count` rows and
      no two queens share a diagonal in either direction. */
  lemma SetTestIff(vec: seq<int>, queenCount: int)
    requires |vec| == |Cols(queenCount)|
    ensures SetTest(vec, queenCount) <==>
              queenCount >= 0 && Distinct(Sums(vec)) && Distinct(Diffs(vec))
  {
    CardDistinct(Sums(vec));
    CardDistinct(Diffs(vec));
  }

  /** The entries of `perms` that pass the set test, in order. */
  function Keep(perms: seq<seq<int>>, queenCount: int): (kept: seq<seq<int>>)
    ensures forall v :: v in kept <==> v in perms && SetTest(v, queenCount)
    ensures |kept| <= |perms|
  {
    if perms == [] then []
    else
      var rest := Keep(perms[1..], queenCount);
      assert forall v :: v in perms <==> v == perms[0] || v in perms[1..];
      if SetTest(perms[0], queenCount) then [perms[0]] + rest else rest
  }

  /** n_queens: the permutations of the columns that pass the set test. */
  function Solutions(queenCount: int): seq<seq<int>>
  {
    var cols := Cols(queenCount);
    Keep(Generate(cols, |cols|), queenCount)
  }

  /** Every solution places one queen per row and column: it is a
      permutation of the columns, entry `i` being the column of row `i`, and
      no two queens share a diagonal. */
  lemma SolutionsAreBoards(queenCount: int, vec: seq<int>)
    requires vec in Solutions(queenCount)
    ensures queenCount >= 0 && IsPerm(vec, queenCount)
    ensures Distinct(Sums(vec)) && Distinct(Diffs(vec))
  {
    var cols := Cols(queenCount);
    var n := |cols|;
    var perms := Generate(cols, n);
    GenerateDrawn(cols, n);
    var k :| 0 <= k < |perms| && perms[k] == vec;
    assert Drawn(vec, cols, n);
    var ind :| IsPerm(ind, n) && vec == Gather(cols, ind, n);
    assert vec == ind;
    SetTestIff(vec, queenCount);
  }

  /** n_queens yields a permutation of the columns exactly when its
      diagonals are pairwise distinct in both directions. */
  lemma SolutionsIff(queenCount: int, vec: seq<int>)
    requires vec in Generate(Cols(queenCount), |Cols(queenCount)|)
    ensures vec in Solutions(queenCount) <==>
              queenCount >= 0 && Distinct(Sums(vec)) && Distinct(Diffs(vec))
  {
    var cols := Cols(queenCount);
    var n := |cols|;
    var perms := Generate(cols, n);
    GenerateDrawn(cols, n);
    var k :| 0 <= k < |perms| && perms[k] == vec;
    assert Drawn(vec, cols, n);
    SetTestIff(vec, queenCount);
  }
}
