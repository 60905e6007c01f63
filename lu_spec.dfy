/** LU factorisation with partial pivoting, column by column, as functions
    on matrices of reals (a matrix is its list of rows).  Both LU_factor
    kernels of SciMark are proved equal to `Factor`; the lemmas here say what
    one column step does: the pivot is the first row of largest magnitude,
    rows above the pivot row stay put, and the swapped matrix is recovered
    from the multipliers and the updated rows. */
module LuSpec {
  import opened Wrappers

  type Matrix = seq<seq<real>>

  /** `m` rows of `n` entries each. */
  predicate Rect(A: Matrix, m: int, n: int)
  {
    |A| == m && forall r :: 0 <= r < m ==> |A[r]| == n
  }

  function Min(a: int, b: int): int
  {
    if a < b then a else b
  }

  /** The zero-pivot test: the pure-Python kernel rejects a pivot equal to
      zero, the Numba kernel one below 1e-12 in magnitude. */
  datatype PivotTest = ExactZero | BelowThreshold

  const Threshold: real := 0.000000000001

  predicate Rejects(test: PivotTest, x: real)
  {
    match test
    case ExactZero => x == 0.0
    case BelowThreshold => Abs(x) < Threshold
  }

  // ----- pivot search ------------------------------------------------------

  /** Every row has an entry in column `j`. */
  predicate HasColumn(A: Matrix, j: int)
  {
    forall r :: 0 <= r < |A| ==> 0 <= j < |A[r]|
  }

  /** The pivot search from row `i` on, `jp` being the best row so far: a row
      takes over only when its magnitude in column `j` is strictly larger. */
  function PivotScan(A: Matrix, j: nat, i: nat, jp: nat): (p: nat)
    requires jp < |A| && HasColumn(A, j)
    ensures p == jp || i <= p < |A|
    decreases |A| - i
  {
    if i >= |A| then jp
    else PivotScan(A, j, i + 1, if Abs(A[i][j]) > Abs(A[jp][j]) then i else jp)
  }

  /** The pivot row of column `j`. */
  function Pivot(A: Matrix, j: nat): (p: nat)
    requires j < |A| && HasColumn(A, j)
    ensures j <= p < |A|
  {
    PivotScan(A, j, j + 1, j)
  }

  /** `p` is the first row at or below `j` whose entry in column `j` has the
      largest magnitude. */
  predicate IsFirstMax(A: Matrix, j: nat, p: int)
    requires HasColumn(A, j)
  {
    && j <= p < |A|
    && (forall k :: j <= k < |A| ==> Abs(A[k][j]) <= Abs(A[p][j]))
    && (forall k :: j <= k < p ==> Abs(A[k][j]) < Abs(A[p][j]))
  }

  lemma {:induction false} PivotScanFirstMax(A: Matrix, j: nat, i: nat, jp: nat)
    requires HasColumn(A, j) && j <= jp < i <= |A|
    requires forall k :: j <= k < i ==> Abs(A[k][j]) <= Abs(A[jp][j])
    requires forall k :: j <= k < jp ==> Abs(A[k][j]) < Abs(A[jp][j])
    ensures IsFirstMax(A, j, PivotScan(A, j, i, jp))
    decreases |A| - i
  {
    if i < |A| {
      var next := if Abs(A[i][j]) > Abs(A[jp][j]) then i else jp;
      PivotScanFirstMax(A, j, i + 1, next);
    }
  }

  /** The pivot search returns the first row of largest magnitude, and that
      row is unique: any row with both properties is the pivot. */
  lemma PivotIsFirstMax(A: Matrix, j: nat, p: int)
    requires j < |A| && HasColumn(A, j)
    ensures IsFirstMax(A, j, Pivot(A, j))
    ensures IsFirstMax(A, j, p) <==> p == Pivot(A, j)
  {
    PivotScanFirstMax(A, j, j + 1, j);
  }

  // ----- one column step -----------------------------------------------------

  /** `A[j], A[jp] = A[jp], A[j]`. */
  function SwapRows(A: Matrix, j: nat, jp: nat): (S: Matrix)
    requires j < |A| && jp < |A|
    ensures |S| == |A|
  {
    A[j := A[jp]][jp := A[j]]
  }

  /** Swapping two rows permutes the rows. */
  lemma SwapRowsPermutes(A: Matrix, j: nat, jp: nat)
    requires j < |A| && jp < |A|
    ensures multiset(SwapRows(A, j, jp)) == multiset(A)
  {
    var B := A[j := A[jp]];
    assert multiset(B) == multiset(A) - multiset{A[j]} + multiset{A[jp]};
    assert multiset(B[jp := A[j]]) == multiset(B) - multiset{B[jp]} + multiset{A[j]};
  }

  /** `A[k][j] *= recp` on one row. */
  function ScaleRow(row: seq<real>, j: nat, recp: real): (out: seq<real>)
    requires j < |row|
    ensures |out| == |row|
  {
    row[j := row[j] * recp]
  }

  /** Column `j` of every row below `j` times `recp = 1 / A[j][j]`. */
  function ScaleColumn(A: Matrix, j: nat): (T: Matrix)
    requires j < |A| && HasColumn(A, j) && A[j][j] != 0.0
    ensures |T| == |A| && forall r :: 0 <= r < |A| ==> |T[r]| == |A[r]|
  {
    var recp := 1.0 / A[j][j];
    seq(|A|, r requires 0 <= r < |A| => if j < r then ScaleRow(A[r], j, recp) else A[r])
  }

  /** Row `row` after the columns `j < c < hi` were reduced by the pivot row
      `p`: `row[c] - row[j] * p[c]`. */
  function ElimRowUpTo(row: seq<real>, p: seq<real>, j: nat, hi: int): (out: seq<real>)
    requires j < |row| && |row| <= |p|
    ensures |out| == |row|
  {
    seq(|row|, c requires 0 <= c < |row| => if j < c < hi then row[c] - row[j] * p[c] else row[c])
  }

  /** The trailing update: every row below `j` loses its multiple of row `j`
      in the columns right of `j`. */
  function Eliminate(A: Matrix, j: nat, n: int): (E: Matrix)
    requires j < |A| && Rect(A, |A|, n) && j < n
    ensures Rect(E, |A|, n)
  {
    seq(|A|, r requires 0 <= r < |A| => if j < r then ElimRowUpTo(A[r], A[j], j, n) else A[r])
  }

  /** Column step `j` once the pivot `jp` was accepted: swap rows `j` and
      `jp`, scale column `j` below the diagonal when `j < M - 1`, update the
      trailing block when `j < minMN - 1`. */
  function Update(A: Matrix, n: int, j: nat, jp: nat): (U: Matrix)
    requires Rect(A, |A|, n) && j < |A| && j < n && jp < |A| && A[jp][j] != 0.0
    ensures Rect(U, |A|, n)
  {
    var S := SwapRows(A, j, jp);
    var T := if j < |A| - 1 then ScaleColumn(S, j) else S;
    if j < Min(|A|, n) - 1 then Eliminate(T, j, n) else T
  }

  /** The column step on one row `sr` below the pivot row `p`: scaled, and
      reduced when `elim` holds. */
  lemma RowStep(sr: seq<real>, p: seq<real>, j: nat, n: int, elim: bool, c: nat)
    requires |sr| == n && |p| == n && j < n && p[j] != 0.0 && c < n && (!elim ==> c <= j)
    ensures var row := ScaleRow(sr, j, 1.0 / p[j]);
            var out := if elim then ElimRowUpTo(row, p, j, n) else row;
            && out[j] * p[j] == sr[j]
            && (c < j ==> out[c] == sr[c])
            && (j < c ==> out[c] + out[j] * p[c] == sr[c])
  {
    var row := ScaleRow(sr, j, 1.0 / p[j]);
    assert row[j] * p[j] == sr[j] * ((1.0 / p[j]) * p[j]);
    if elim {
      var out := ElimRowUpTo(row, p, j, n);
      assert out[j] == row[j];
      assert j < c ==> out[c] == row[c] - row[j] * p[c];
    }
  }

  /** The column step leaves the rows above `j` alone and puts the pivot
      row at `j`. */
  lemma UpdateTop(A: Matrix, n: int, j: nat, jp: nat)
    requires Rect(A, |A|, n) && j <= jp < |A| && j < n && A[jp][j] != 0.0
    ensures forall r :: 0 <= r < j ==> Update(A, n, j, jp)[r] == A[r]
    ensures Update(A, n, j, jp)[j] == A[jp]
  {
    var S := SwapRows(A, j, jp);
    var T := if j < |A| - 1 then ScaleColumn(S, j) else S;
    assert forall r :: 0 <= r <= j ==> T[r] == S[r];
    if j < Min(|A|, n) - 1 {
      assert forall r :: 0 <= r <= j ==> Eliminate(T, j, n)[r] == T[r];
    }
  }

  /** Row `r` below `j` after the column step. */
  lemma UpdateRow(A: Matrix, n: int, j: nat, jp: nat, r: nat)
    requires Rect(A, |A|, n) && j <= jp < |A| && j < n && A[jp][j] != 0.0
    requires j < r < |A|
    ensures var row := ScaleRow(SwapRows(A, j, jp)[r], j, 1.0 / A[jp][j]);
            Update(A, n, j, jp)[r] == if j < Min(|A|, n) - 1 then ElimRowUpTo(row, A[jp], j, n) else row
  {
    var S := SwapRows(A, j, jp);
    var T := ScaleColumn(S, j);
    assert T[r] == ScaleRow(S[r], j, 1.0 / S[j][j]);
    assert T[j] == S[j] == A[jp];
  }

  // ----- the whole factorisation ---------------------------------------------

  /** Where a factorisation ends: the matrix, the pivots recorded in
      `pivot`, and the exception that stopped it, if any. */
  datatype Outcome = Outcome(a: Matrix, pivots: seq<int>, error: Option<Error>)

  /** Records `p` as the earlier pivots of an outcome. */
  function Prepend(p: seq<int>, o: Outcome): Outcome
  {
    Outcome(o.a, p + o.pivots, o.error)
  }

  /** LU_factor from column `j` on, for a matrix of `n` columns, with a
      pivot buffer of `cap` entries: for each column, the pivot search; the
      pivot is stored (IndexError when the buffer is full); a rejected pivot
      raises; otherwise the column step. */
  function Factor(A: Matrix, n: int, j: nat, test: PivotTest, cap: int): (o: Outcome)
    requires Rect(A, |A|, n)
    ensures Rect(o.a, |A|, n)
    decreases Min(|A|, n) - j
  {
    if j >= Min(|A|, n) then Outcome(A, [], None)
    else
      var jp := Pivot(A, j);
      if j >= cap then Outcome(A, [], Some(IndexError))
      else if Rejects(test, A[jp][j]) then Outcome(A, [jp], Some(FactorizationError))
      else Prepend([jp], Factor(Update(A, n, j, jp), n, j + 1, test, cap))
  }

  /** Past the last column nothing more happens. */
  lemma FactorEnd(A: Matrix, n: int, j: nat, test: PivotTest, cap: int)
    requires Rect(A, |A|, n) && j >= Min(|A|, n)
    ensures Factor(A, n, j, test, cap) == Outcome(A, [], None)
  {
  }

  /** The pivots of a factorisation: one per column done, the one of column
      `j + k` lying in `[j + k, M)`. */
  lemma {:induction false} FactorPivotRange(A: Matrix, n: int, j: nat, test: PivotTest, cap: int, o: Outcome)
    requires Rect(A, |A|, n) && o == Factor(A, n, j, test, cap)
    ensures forall k :: 0 <= k < |o.pivots| ==> j + k <= o.pivots[k] < |A|
    ensures |o.pivots| > 0 ==> j + |o.pivots| <= Min(|A|, n)
    decreases Min(|A|, n) - j
  {
    if j < Min(|A|, n) {
      var jp := Pivot(A, j);
      if j < cap && !Rejects(test, A[jp][j]) {
        var B := Update(A, n, j, jp);
        var rest := Factor(B, n, j + 1, test, cap);
        FactorPivotRange(B, n, j + 1, test, cap, rest);
        PrependRange(jp, rest.pivots, j, |A|, Min(|A|, n));
      }
    }
  }

  lemma PrependRange(jp: int, rest: seq<int>, j: int, m: int, mn: int)
    requires j <= jp < m
    requires forall k :: 0 <= k < |rest| ==> j + 1 + k <= rest[k] < m
    requires |rest| > 0 ==> j + 1 + |rest| <= mn
    requires j < mn
    ensures forall k :: 0 <= k < |[jp] + rest| ==> j + k <= ([jp] + rest)[k] < m
    ensures j + |[jp] + rest| <= mn
  {
    forall k | 0 <= k < |[jp] + rest| ensures j + k <= ([jp] + rest)[k] < m {
      if k > 0 {
        assert ([jp] + rest)[k] == rest[k - 1];
      }
    }
  }

  /** A factorisation that completes records a pivot for each of the
      `min(M, N)` columns; one that raises IndexError had filled the pivot
      buffer. */
  lemma {:induction false} FactorErrors(A: Matrix, n: int, j: nat, test: PivotTest, cap: int, o: Outcome)
    requires Rect(A, |A|, n) && o == Factor(A, n, j, test, cap)
    ensures o.error.None? ==> |o.pivots| == if j <= Min(|A|, n) then Min(|A|, n) - j else 0
    ensures o.error == Some(IndexError) ==> j + |o.pivots| >= cap
    decreases Min(|A|, n) - j
  {
    if j < Min(|A|, n) {
      var jp := Pivot(A, j);
      if j < cap && !Rejects(test, A[jp][j]) {
        var B := Update(A, n, j, jp);
        FactorErrors(B, n, j + 1, test, cap, Factor(B, n, j + 1, test, cap));
      }
    }
  }

  /** An outcome of the factorisation from column `j` on, of a matrix with
      `m` rows and `n` columns, that raised FactorizationError stopped at the
      pivot of its last column, the first row of largest magnitude, which
      the test rejects. */
  predicate StoppedAtRejected(o: Outcome, j: int, m: int, n: int, test: PivotTest)
  {
    o.error == Some(FactorizationError) ==>
      && Rect(o.a, m, n) && 0 < |o.pivots| && 0 <= j && j + |o.pivots| <= Min(m, n)
      && var col := j + |o.pivots| - 1;
         var p := o.pivots[|o.pivots| - 1];
         && IsFirstMax(o.a, col, p)
         && Rejects(test, o.a[p][col])
  }

  lemma PrependStopped(jp: int, rest: Outcome, j: int, m: int, n: int, test: PivotTest)
    requires 0 <= j && StoppedAtRejected(rest, j + 1, m, n, test)
    ensures StoppedAtRejected(Prepend([jp], rest), j, m, n, test)
  {
    var o := Prepend([jp], rest);
    if o.error == Some(FactorizationError) {
      assert o.pivots[|o.pivots| - 1] == rest.pivots[|rest.pivots| - 1];
    }
  }

  /** A factorisation that raises FactorizationError stops at the pivot of
      its last column, which the test rejects; that pivot is the first row of
      largest magnitude, so under the exact test the whole column from the
      diagonal down is zero. */
  lemma {:induction false} FactorRejects(A: Matrix, n: int, j: nat, test: PivotTest, cap: int, o: Outcome)
    requires Rect(A, |A|, n) && o == Factor(A, n, j, test, cap)
    ensures StoppedAtRejected(o, j, |A|, n, test)
    decreases Min(|A|, n) - j
  {
    if j < Min(|A|, n) {
      var jp := Pivot(A, j);
      PivotIsFirstMax(A, j, jp);
      if j < cap && !Rejects(test, A[jp][j]) {
        var B := Update(A, n, j, jp);
        var rest := Factor(B, n, j + 1, test, cap);
        FactorRejects(B, n, j + 1, test, cap, rest);
        PrependStopped(jp, rest, j, |A|, n, test);
      }
    }
  }

  /** Under the exact test a rejected pivot means the column is zero from the
      diagonal down. */
  lemma ExactZeroColumn(A: Matrix, j: nat, p: int)
    requires HasColumn(A, j) && IsFirstMax(A, j, p) && Rejects(ExactZero, A[p][j])
    ensures forall k :: j <= k < |A| ==> A[k][j] == 0.0
  {
  }

  /** How LU_factor reports the outcome `o` of the factorisation: `A` holds
      its matrix, `pivot` starts with its pivots and is untouched after
      them, and the call fails exactly when the factorisation raised, with
      that exception. */
  ghost predicate Reports(o: Outcome, data: Matrix, piv: seq<int>, oldPiv: seq<int>, r: Result<()>)
  {
    && data == o.a
    && |piv| == |oldPiv|
    && |o.pivots| <= |piv|
    && piv[..|o.pivots|] == o.pivots
    && piv[|o.pivots|..] == oldPiv[|o.pivots|..]
    && (r.Success? <==> o.error.None?)
    && (r.Failure? ==> o.error == Some(r.error))
  }

  /** LU_factor before column `j`: the pivots stored so far, followed by the
      rest of the factorisation from the current matrix `data`, make up
      `total`; `piv` is untouched from `j` on. */
  ghost predicate Tracks(total: Outcome, data: Matrix, n: int, j: nat, test: PivotTest, piv: seq<int>, oldPiv: seq<int>)
  {
    && Rect(data, |data|, n)
    && j <= |piv| && |piv| == |oldPiv|
    && total == Prepend(piv[..j], Factor(data, n, j, test, |piv|))
    && forall k :: j <= k < |piv| ==> piv[k] == oldPiv[k]
  }

  /** LU_factor starts from column 0 with nothing stored. */
  lemma StartTracks(data: Matrix, n: int, test: PivotTest, piv: seq<int>)
    requires Rect(data, |data|, n)
    ensures Tracks(Factor(data, n, 0, test, |piv|), data, n, 0, test, piv, piv)
  {
    assert piv[..0] == [];
  }

  /** The normal exit of LU_factor, once every column is done. */
  lemma FinishColumns(total: Outcome, a: Matrix, n: int, j: nat, test: PivotTest, piv: seq<int>, oldPiv: seq<int>)
    requires j >= Min(|a|, n) && Tracks(total, a, n, j, test, piv, oldPiv)
    ensures Reports(total, a, piv, oldPiv, Success(()))
  {
    FactorEnd(a, n, j, test, |piv|);
    Stops(total, piv[..j], a, [], None, piv, oldPiv);
  }

  /** An exit of LU_factor: the pivots stored so far followed by the last
      ones reported. */
  lemma Stops(total: Outcome, done: seq<int>, a: Matrix, tail: seq<int>, e: Option<Error>,
              piv: seq<int>, oldPiv: seq<int>)
    requires total == Prepend(done, Outcome(a, tail, e))
    requires |piv| == |oldPiv| && |done| + |tail| <= |piv|
    requires piv[..|done| + |tail|] == done + tail
    requires forall k :: |done| + |tail| <= k < |piv| ==> piv[k] == oldPiv[k]
    ensures Reports(total, a, piv, oldPiv, if e.Some? then Failure(e.value) else Success(()))
  {
  }

  /** The column loop of LU_factor advances `Factor` by one accepted column. */
  lemma FactorStep(A: Matrix, n: int, j: nat, test: PivotTest, cap: int, done: seq<int>, total: Outcome)
    requires Rect(A, |A|, n) && j < Min(|A|, n) && j < cap
    requires !Rejects(test, A[Pivot(A, j)][j])
    requires total == Prepend(done, Factor(A, n, j, test, cap))
    ensures var jp := Pivot(A, j);
            total == Prepend(done + [jp], Factor(Update(A, n, j, jp), n, j + 1, test, cap))
  {
    var jp := Pivot(A, j);
    var rest := Factor(Update(A, n, j, jp), n, j + 1, test, cap);
    assert Factor(A, n, j, test, cap) == Prepend([jp], rest);
    assert done + ([jp] + rest.pivots) == (done + [jp]) + rest.pivots;
  }

  /** `row[j] *= recp`, written in place, is `ScaleRow`. */
  lemma ScaleRowIs(row: seq<real>, j: int, recp: real)
    requires 0 <= j < |row|
    ensures row[j := row[j] * recp] == ScaleRow(row, j, recp)
  {
  }

  /** One more column of the row update. */
  lemma ElimRowStep(row: seq<real>, p: seq<real>, j: nat, jj: nat)
    requires j < jj < |row| <= |p|
    ensures ElimRowUpTo(row, p, j, jj + 1) == ElimRowUpTo(row, p, j, jj)[jj := row[jj] - row[j] * p[jj]]
  {
    var e := ElimRowUpTo(row, p, j, jj);
    var f := ElimRowUpTo(row, p, j, jj + 1);
    var g := e[jj := row[jj] - row[j] * p[jj]];
    forall c | 0 <= c < |row| ensures f[c] == g[c] {
      ElimRowAt(row, p, j, jj, c);
      ElimRowAt(row, p, j, jj + 1, c);
    }
    assert |f| == |g|;
    assert f == g;
  }

  lemma ElimRowAt(row: seq<real>, p: seq<real>, j: nat, hi: int, c: nat)
    requires j < |row| <= |p| && c < |row|
    ensures ElimRowUpTo(row, p, j, hi)[c] == if j < c < hi then row[c] - row[j] * p[c] else row[c]
  {
  }

  /** Before the first column the row is untouched. */
  lemma ElimRowNone(row: seq<real>, p: seq<real>, j: nat)
    requires j < |row| <= |p|
    ensures ElimRowUpTo(row, p, j, j + 1) == row
  {
    var e := ElimRowUpTo(row, p, j, j + 1);
    forall c | 0 <= c < |row| ensures e[c] == row[c] {
    }
  }
}
