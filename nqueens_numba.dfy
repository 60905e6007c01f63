/** The Numba N-Queens benchmark: the same permutation state machine written
    over arrays, with the suffix rotation spelled out as a copy loop and each
    tuple copied out of a scratch array, and a solver that compares the
    diagonals of every pair of queens. */
module NQueensNumba {
  import opened Wrappers
  import opened PermSpec
  import opened NQueens

  /** The rotation of permutations_numba: `new_indices` is a fresh list, the
      suffix rotated left by one, and the loop copies it back entry by entry
      from position `i`; the prefix before `i` is not touched. */
  method RotateSuffix(indices: array<int>, i: int)
    requires 0 <= i < indices.Length
    modifies indices
    ensures indices[..] == Rotate(old(indices[..]), i)
  {
    var newIndices := indices[i + 1..] + indices[i..i + 1];
    ghost var before := indices[..];
    for j := 0 to |newIndices|
      invariant forall k :: 0 <= k < i + j ==> indices[k] == Rotate(before, i)[k]
      invariant forall k :: i + j <= k < indices.Length ==> indices[k] == before[k]
    {
      indices[i + j] := newIndices[j];
    }
  }

  /** The loop `for k in range(r): temp[k] = pool[indices[k]]`. */
  method FillTemp(temp: array<int>, pool: seq<int>, indices: array<int>)
    requires temp != indices && temp.Length <= indices.Length
    requires forall k :: 0 <= k < temp.Length ==> 0 <= indices[k] < |pool|
    modifies temp
    ensures temp[..] == Gather(pool, indices[..], temp.Length)
  {
    for k := 0 to temp.Length
      invariant forall m :: 0 <= m < k ==> temp[m] == pool[indices[m]]
    {
      temp[k] := pool[indices[k]];
    }
  }

  /** One iteration of the `for i in range(r - 1, -1, -1)` loop at `i`:
      decrement cycle `i`; at zero rotate the suffix and reset the cycle,
      otherwise swap `indices[i]` with `indices[-j]` and report the swap.
      The pass continuing from `i - 1` (or the pass just ended) is the pass
      that started at `i`. */
  method CycleStep(indices: array<int>, cycles: array<int>, i: int, n: int) returns (swapped: bool)
    requires indices != cycles
    requires indices.Length == n && cycles.Length <= n && 0 <= i < cycles.Length
    requires CyclesOk(cycles[..], n)
    modifies indices, cycles
    ensures CyclesOk(cycles[..], n)
    ensures swapped ==> Step(indices[..], cycles[..], true) == Pass(old(indices[..]), old(cycles[..]), i, n)
    ensures !swapped ==> Pass(indices[..], cycles[..], i - 1, n) == Pass(old(indices[..]), old(cycles[..]), i, n)
  {
    ghost var ind1, cyc1 := indices[..], cycles[..];
    cycles[i] := cycles[i] - 1;
    if cycles[i] == 0 {
      RotateSuffix(indices, i);
      cycles[i] := n - i;
      assert cycles[..] == cyc1[i := n - i];
      swapped := false;
    } else {
      var j := cycles[i];
      indices[i], indices[n - j] := indices[n - j], indices[i];
      assert indices[..] == Swap(ind1, i, n - j);
      assert cycles[..] == cyc1[i := cyc1[i] - 1];
      swapped := true;
    }
  }

  /** One pass of the `for i in range(r - 1, -1, -1)` loop, ending at the
      first swap with `broke` set.  The arrays end in the state `Pass`
      gives. */
  method CyclePassNumba(indices: array<int>, cycles: array<int>, r: int, n: int) returns (broke: bool)
    requires indices != cycles
    requires 0 <= r <= n && indices.Length == n && IsPerm(indices[..], n)
    requires cycles.Length == r && CyclesOk(cycles[..], n)
    modifies indices, cycles
    ensures Step(indices[..], cycles[..], broke) == Pass(old(indices[..]), old(cycles[..]), r - 1, n)
    ensures IsPerm(indices[..], n) && CyclesOk(cycles[..], n)
  {
    ghost var ind0, cyc0 := indices[..], cycles[..];
    PassShape(ind0, cyc0, r - 1, n);
    var i := r - 1;
    while i >= 0
      invariant -1 <= i < r
      invariant CyclesOk(cycles[..], n)
      invariant Pass(indices[..], cycles[..], i, n) == Pass(ind0, cyc0, r - 1, n)
      decreases i
    {
      var swapped := CycleStep(indices, cycles, i, n);
      if swapped {
        return true;
      }
      i := i - 1;
    }
    broke := false;
  }

  /** permutations_numba(pool, r): `r` defaults to the length of the pool.
      A negative `r` makes `np.empty(r)` raise ValueError; an `r` beyond the
      pool reads past the end of `indices` while the first tuple is built,
      which raises IndexError.  Otherwise the result lists the same tuples,
      in the same order, as the generator of nqueens.py; each is a copy of
      `temp` taken when it was appended. */
  method PermutationsNumba(pool: seq<int>, r: Option<int>) returns (res: Result<seq<seq<int>>>)
    ensures var rr := if r.None? then |pool| else r.value;
            && (rr < 0 ==> res == Failure(ValueError))
            && (rr > |pool| ==> res == Failure(IndexError))
            && (0 <= rr <= |pool| ==> res == Success(Generate(pool, rr)))
  {
    var n := |pool|;
    var rr := if r.None? then n else r.value;
    if rr < 0 {
      return Failure(ValueError);
    }
    var indices := new int[n](k => k);
    var cycles := new int[rr](k => n - k);
    var temp := new int[rr];
    assert indices[..] == Iota(n);
    assert cycles[..] == InitCycles(n, rr);
    for k := 0 to rr
      invariant k <= n
      invariant indices[..] == Iota(n) && cycles[..] == InitCycles(n, rr)
      invariant forall m :: 0 <= m < k ==> temp[m] == pool[indices[m]]
    {
      if k >= n {
        return Failure(IndexError);
      }
      temp[k] := pool[indices[k]];
    }
    assert temp[..] == Gather(pool, indices[..], rr);
    var temp0 := temp[..];
    GenerateStart(pool, rr);
    var rest := RemainingTuples(pool, indices, cycles, temp, rr);
    return Success([temp0] + rest);
  }

  /** The `while n:` loop of permutations_numba: one pass per iteration,
      each swapping pass appending a copy of `temp` refilled from the new
      indices, until a pass makes no swap. */
  method RemainingTuples(pool: seq<int>, indices: array<int>, cycles: array<int>, temp: array<int>, r: int)
    returns (tuples: seq<seq<int>>)
    requires indices != cycles && temp != indices && temp != cycles
    requires 0 <= r <= |pool| && indices.Length == |pool| && IsPerm(indices[..], |pool|)
    requires cycles.Length == r && temp.Length == r && CyclesOk(cycles[..], |pool|)
    modifies indices, cycles, temp
    ensures tuples == Run(pool, old(indices[..]), old(cycles[..]), r)
  {
    var n := |pool|;
    ghost var ind00, cyc00 := indices[..], cycles[..];
    tuples := [];
    while n != 0
      invariant IsPerm(indices[..], n) && CyclesOk(cycles[..], n)
      invariant tuples + Run(pool, indices[..], cycles[..], r) == Run(pool, ind00, cyc00, r)
      decreases Value(cycles[..], n, r)
    {
      ghost var ind0, cyc0 := indices[..], cycles[..];
      var broke := CyclePassNumba(indices, cycles, r, n);
      RunStep(pool, ind0, cyc0, r);
      if !broke {
        break;
      }
      FillTemp(temp, pool, indices);
      tuples := tuples + [temp[..]];
    }
    if n == 0 {
      RunStep(pool, indices[..], cycles[..], r);
    }
  }

  /** The diagonals of every pair of queens differ in both directions. */
  predicate NoSharedDiagonal(diag1: seq<int>, diag2: seq<int>)
    requires |diag1| == |diag2|
  {
    forall i, j :: 0 <= i < j < |diag1| ==> diag1[i] != diag1[j] && diag2[i] != diag2[j]
  }

  /** The check of n_queens_numba for one vector: fill `diag1` and `diag2`,
      then compare every pair `i < j`, stopping at the first clash.  It
      accepts exactly the vectors with no shared diagonal. */
  method PairwiseCheck(vec: seq<int>, queenCount: nat) returns (valid: bool)
    requires |vec| == queenCount
    ensures valid <==> NoSharedDiagonal(Sums(vec), Diffs(vec))
  {
    var diag1 := new int[queenCount];
    var diag2 := new int[queenCount];
    for i := 0 to queenCount
      invariant forall k :: 0 <= k < i ==> diag1[k] == vec[k] + k && diag2[k] == vec[k] - k
    {
      diag1[i] := vec[i] + i;
      diag2[i] := vec[i] - i;
    }
    assert diag1[..] == Sums(vec) && diag2[..] == Diffs(vec);
    valid := true;
    var i := 0;
    while i < queenCount
      invariant 0 <= i <= queenCount
      invariant valid
      invariant forall a, b :: 0 <= a < i && a < b < queenCount ==>
                  diag1[a] != diag1[b] && diag2[a] != diag2[b]
    {
      var j := i + 1;
      while j < queenCount
        invariant i + 1 <= j <= queenCount
        invariant forall b :: i < b < j ==> diag1[i] != diag1[b] && diag2[i] != diag2[b]
      {
        if diag1[i] == diag1[j] || diag2[i] == diag2[j] {
          valid := false;
          break;
        }
        j := j + 1;
      }
      if !valid {
        break;
      }
      i := i + 1;
    }
  }

  /** Filtering from entry `k` on either keeps entry `k` or drops it, then
      goes on from entry `k + 1`. */
  lemma KeepStep(perms: seq<seq<int>>, k: int, queenCount: int)
    requires 0 <= k < |perms|
    ensures Keep(perms[k..], queenCount)
            == (if SetTest(perms[k], queenCount) then [perms[k]] else []) + Keep(perms[k + 1..], queenCount)
  {
    assert perms[k..][1..] == perms[k + 1..];
  }

  /** Every tuple the generator yields has length `r`. */
  lemma GeneratedLengths(pool: seq<int>, r: int)
    requires 0 <= r <= |pool|
    ensures forall k :: 0 <= k < |Generate(pool, r)| ==> |Generate(pool, r)[k]| == r
  {
    GenerateDrawn(pool, r);
    forall k | 0 <= k < |Generate(pool, r)| ensures |Generate(pool, r)[k]| == r {
      assert Drawn(Generate(pool, r)[k], pool, r);
    }
  }

  /** The pairwise test of n_queens_numba and the set-size test of n_queens
      accept the same vectors. */
  lemma PairwiseIffSetTest(vec: seq<int>, queenCount: nat)
    requires |vec| == queenCount
    ensures NoSharedDiagonal(Sums(vec), Diffs(vec)) <==> SetTest(vec, queenCount)
  {
    SetTestIff(vec, queenCount);
  }

  /** n_queens_numba.  A negative count has one empty permutation, for which
      `np.empty(queen_count)` raises ValueError.  Otherwise the result is the
      list of solutions n_queens yields, in the same order. */
  method NQueensNumba(queenCount: int) returns (res: Result<seq<seq<int>>>)
    ensures queenCount < 0 ==> res == Failure(ValueError)
    ensures queenCount >= 0 ==> res == Success(Solutions(queenCount))
  {
    var cols := Cols(queenCount);
    var permsRes := PermutationsNumba(cols, None);
    var perms := permsRes.value;
    if queenCount < 0 {
      return Failure(ValueError);
    }
    var result := [];
    GeneratedLengths(cols, |cols|);
    assert perms[0..] == perms;
    for k := 0 to |perms|
      invariant result + Keep(perms[k..], queenCount) == Keep(perms, queenCount)
    {
      var valid := PairwiseCheck(perms[k], queenCount);
      PairwiseIffSetTest(perms[k], queenCount);
      KeepStep(perms, k, queenCount);
      if valid {
        result := result + [perms[k]];
      }
    }
    assert perms[|perms|..] == [];
    assert Keep([], queenCount) == [];
    assert perms == Generate(Cols(queenCount), |Cols(queenCount)|);
    assert result == Keep(perms, queenCount);
    assert Solutions(queenCount) == Keep(perms, queenCount);
    return Success(result);
  }
}
