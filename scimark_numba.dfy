/** The Numba variant of SciMark: the kernels work in place on NumPy
    arrays, here `array<real>`, `array<int>` and `array2<real>`.  NumPy's
    random draws are passed in as parameters, and the float results are
    reals. */
module ScimarkNumba {
  import opened Wrappers
  import opened Fft
  import opened LuSpec

  // ----- two-dimensional arrays as matrices ------------------------------------

  /** The rows of a two-dimensional array, as a matrix. */
  ghost function Mat(A: array2<real>): (m: Matrix)
    reads A
    ensures Rect(m, A.Length0, A.Length1)
    ensures forall r, c :: 0 <= r < A.Length0 && 0 <= c < A.Length1 ==> m[r][c] == A[r, c]
  {
    seq(A.Length0, r requires 0 <= r < A.Length0 reads A =>
      seq(A.Length1, c requires 0 <= c < A.Length1 reads A => A[r, c]))
  }

  /** `A[r, c] = v`: one entry of one row changes. */
  method SetCell(A: array2<real>, r: int, c: int, v: real)
    requires 0 <= r < A.Length0 && 0 <= c < A.Length1
    modifies A
    ensures Mat(A) == old(Mat(A))[r := old(Mat(A))[r][c := v]]
  {
    A[r, c] := v;
    ghost var want := old(Mat(A))[r := old(Mat(A))[r][c := v]];
    forall rr | 0 <= rr < A.Length0 ensures Mat(A)[rr] == want[rr] {
      assert |Mat(A)[rr]| == |want[rr]|;
    }
  }

  // ----- int_log2, FFT_bitreverse, FFT_transform_internal -------------------------

  /** int_log2(n): the least `log` with `2^log >= n`, returned when `n` is
      exactly `2^log`, and ValueError otherwise (also for `n <= 0`). */
  method IntLog2(n: int) returns (r: Result<nat>)
    ensures r.Success? <==> IsPow2(n)
    ensures r.Success? ==> Pow2(r.value) == n
    ensures r.Failure? ==> r.error == ValueError
  {
    var log := Log2Ceil(n);
    Log2CeilOfPow2(n, log);
    if n != Pow2(log) {
      return Failure(ValueError);
    }
    return Success(log);
  }

  /** FFT_bitreverse(data): the bit-reversal loop of the pure-Python kernel
      with `N = len(data)`; the same array comes back, bit-reversed, with the
      same values.  As there, `len(data) // 2` must be a power of two or at
      most one, or the inner loop never ends. */
  method FFTBitreverse(data: array<real>) returns (out: array<real>)
    requires data.Length / 2 <= 1 || IsPow2(data.Length / 2)
    modifies data
    ensures out == data
    ensures data[..] == BitReversed(old(data[..]), Pairs(data.Length), Bits(Pairs(data.Length)))
    ensures multiset(data[..]) == multiset(old(data[..]))
  {
    BitReverse(data.Length, data);
    out := data;
  }

  /** How far FFT_transform_internal gets before its butterfly passes: it
      returns at once for at most one complex entry, or goes on with
      `log2(n)` passes. */
  datatype Stage = Done | Butterflies(logn: nat)

  /** FFT_transform_internal up to its butterfly passes: with
      `n = len(data) // 2`, the data is returned untouched when `n <= 1`;
      otherwise int_log2(n) raises ValueError, leaving the data untouched,
      unless `n` is a power of two, in which case the data is bit-reversed
      and `log2(n)` passes follow. */
  method TransformPrelude(data: array<real>) returns (r: Result<Stage>)
    modifies data
    ensures data.Length / 2 <= 1 ==> r == Success(Done) && data[..] == old(data[..])
    ensures data.Length / 2 > 1 && !IsPow2(data.Length / 2) ==>
              r == Failure(ValueError) && data[..] == old(data[..])
    ensures data.Length / 2 > 1 && IsPow2(data.Length / 2) ==>
              && r.Success? && r.value.Butterflies?
              && Pow2(r.value.logn) == data.Length / 2
              && data[..] == BitReversed(old(data[..]), data.Length / 2, r.value.logn)
  {
    var N := data.Length;
    var n := N / 2;
    if n <= 1 {
      return Success(Done);
    }
    var logn := IntLog2(n);
    if logn.Failure? {
      return Failure(logn.error);
    }
    var _ := FFTBitreverse(data);
    Pow2Injective(logn.value, Bits(n));
    return Success(Butterflies(logn.value));
  }

  // ----- MonteCarlo ------------------------------------------------------------

  /** A draw `(x, y)` lands under the quarter circle. */
  predicate Under(p: (real, real))
  {
    p.0 * p.0 + p.1 * p.1 <= 1.0
  }

  /** The number of draws under the quarter circle. */
  function UnderCount(draws: seq<(real, real)>): (k: nat)
    ensures k <= |draws|
  {
    if draws == [] then 0
    else UnderCount(draws[..|draws| - 1]) + (if Under(draws[|draws| - 1]) then 1 else 0)
  }

  /** MonteCarlo(Num_samples): `draws[k]` stands for the `k`-th pair of
      NumPy draws after the seeding.  The result is four times the share of
      draws under the quarter circle, hence between 0 and 4; with no sample
      the float division raises ZeroDivisionError (a negative count draws
      nothing and gives 0). */
  method MonteCarlo(numSamples: int, draws: seq<(real, real)>) returns (r: Result<real>)
    requires numSamples <= |draws|
    ensures r.Failure? <==> numSamples == 0
    ensures r.Failure? ==> r.error == ZeroDivisionError
    ensures r.Success? ==>
              r.value == UnderCount(draws[..if numSamples < 0 then 0 else numSamples]) as real
                         / numSamples as real * 4.0
    ensures r.Success? ==> 0.0 <= r.value <= 4.0
  {
    var underCurve := 0;
    var k := 0;
    while k < numSamples
      invariant 0 <= k <= (if numSamples < 0 then 0 else numSamples)
      invariant underCurve == UnderCount(draws[..k])
    {
      var x := draws[k].0;
      var y := draws[k].1;
      assert draws[..k + 1][..k] == draws[..k];
      if x * x + y * y <= 1.0 {
        underCurve := underCurve + 1;
      }
      k := k + 1;
    }
    if numSamples == 0 {
      return Failure(ZeroDivisionError);
    }
    EstimateBounds(underCurve, numSamples);
    return Success(underCurve as real / numSamples as real * 4.0);
  }

  /** `under / num * 4` lies in `[0, 4]` when `under <= max(num, 0)`. */
  lemma EstimateBounds(under: nat, num: int)
    requires num != 0 && (num > 0 ==> under <= num) && (num < 0 ==> under == 0)
    ensures 0.0 <= under as real / num as real * 4.0 <= 4.0
  {
    if num > 0 {
      var q := under as real / num as real;
      assert q * num as real == under as real;
      assert q <= 1.0;
    }
  }

  // ----- SOR_execute -----------------------------------------------------------

  /** A grid of `n = |g|` rows, each `w >= n` wide: SOR_execute takes `n`
      from the first dimension only and reads columns up to `n - 1`. */
  predicate Grid(g: Matrix, w: int)
  {
    Rect(g, |g|, w) && |g| <= w
  }

  /** The new value of interior cell `(y, x)`: `omega / 4` times the sum of
      its four neighbours plus `1 - omega` times its own value. */
  function Relax(g: Matrix, w: int, omega: real, y: nat, x: nat): real
    requires Grid(g, w) && 1 <= y < |g| - 1 && 1 <= x < |g| - 1
  {
    omega * 0.25 * (g[y - 1][x] + g[y + 1][x] + g[y][x - 1] + g[y][x + 1]) + (1.0 - omega) * g[y][x]
  }

  /** Row `y` relaxed in place from column `x` to column `n - 2`, each cell
      seeing the cells already relaxed to its left. */
  function SweepRow(g: Matrix, w: int, omega: real, y: nat, x: nat): (h: Matrix)
    requires Grid(g, w) && 1 <= y < |g| - 1 && 1 <= x
    ensures |h| == |g| && Grid(h, w)
    decreases |g| - x
  {
    if x >= |g| - 1 then g
    else SweepRow(g[y := g[y][x := Relax(g, w, omega, y, x)]], w, omega, y, x + 1)
  }

  /** Rows `y` to `n - 2` relaxed in turn, each seeing the rows above it
      already relaxed. */
  function SweepRows(g: Matrix, w: int, omega: real, y: nat): (h: Matrix)
    requires Grid(g, w) && 1 <= y
    ensures |h| == |g| && Grid(h, w)
    decreases |g| - y
  {
    if y >= |g| - 1 then g
    else SweepRows(SweepRow(g, w, omega, y, 1), w, omega, y + 1)
  }

  /** `cycles` full sweeps of the interior. */
  function Sweeps(g: Matrix, w: int, omega: real, cycles: int): (h: Matrix)
    requires Grid(g, w)
    ensures |h| == |g| && Grid(h, w)
    decreases cycles
  {
    if cycles <= 0 then g
    else Sweeps(SweepRows(g, w, omega, 1), w, omega, cycles - 1)
  }

  /** A cell of an `n`-row grid outside the interior `[1, n-2] x [1, n-2]`. */
  predicate OnBorder(n: int, y: int, x: int)
  {
    y == 0 || x == 0 || y >= n - 1 || x >= n - 1
  }

  /** Relaxing row `y` from column `x` on changes no cell of another row and
      no cell left of `x` or on the border. */
  lemma {:induction false} SweepRowKeeps(g: Matrix, w: int, omega: real, y: nat, x: nat)
    requires Grid(g, w) && 1 <= y < |g| - 1 && 1 <= x
    ensures forall r, c :: 0 <= r < |g| && 0 <= c < w && (r != y || c < x || OnBorder(|g|, r, c)) ==>
              SweepRow(g, w, omega, y, x)[r][c] == g[r][c]
    decreases |g| - x
  {
    if x < |g| - 1 {
      var g' := g[y := g[y][x := Relax(g, w, omega, y, x)]];
      SweepRowKeeps(g', w, omega, y, x + 1);
    }
  }

  /** Relaxing rows from `y` on changes no border cell and no row above `y`. */
  lemma {:induction false} SweepRowsKeep(g: Matrix, w: int, omega: real, y: nat)
    requires Grid(g, w) && 1 <= y
    ensures forall r, c :: 0 <= r < |g| && 0 <= c < w && (r < y || OnBorder(|g|, r, c)) ==>
              SweepRows(g, w, omega, y)[r][c] == g[r][c]
    decreases |g| - y
  {
    if y < |g| - 1 {
      SweepRowKeeps(g, w, omega, y, 1);
      SweepRowsKeep(SweepRow(g, w, omega, y, 1), w, omega, y + 1);
    }
  }

  /** SOR_execute writes only the interior: the first and last rows and
      columns, and every column right of them, keep their values. */
  lemma {:induction false} SweepsKeepBorder(g: Matrix, w: int, omega: real, cycles: int)
    requires Grid(g, w)
    ensures forall r, c :: 0 <= r < |g| && 0 <= c < w && OnBorder(|g|, r, c) ==>
              Sweeps(g, w, omega, cycles)[r][c] == g[r][c]
    decreases cycles
  {
    if cycles > 0 {
      SweepRowsKeep(g, w, omega, 1);
      SweepsKeepBorder(SweepRows(g, w, omega, 1), w, omega, cycles - 1);
    }
  }

  /** SOR_execute(omega, G, cycles): `cycles` in-place sweeps over the
      interior cells of the grid, row by row, left to right, with
      `n = G.shape[0]`; G itself is returned.  The grid ends as `Sweeps`
      describes, so its border keeps its values. */
  method SORExecute(omega: real, G: array2<real>, cycles: int) returns (out: array2<real>)
    requires G.Length0 <= G.Length1
    modifies G
    ensures out == G
    ensures Mat(G) == Sweeps(old(Mat(G)), G.Length1, omega, cycles)
    ensures forall y, x :: 0 <= y < G.Length0 && 0 <= x < G.Length1 && OnBorder(G.Length0, y, x) ==>
              G[y, x] == old(G[y, x])
  {
    ghost var g0 := Mat(G);
    var k := 0;
    while k < cycles
      invariant 0 <= k && (cycles >= 0 ==> k <= cycles)
      invariant Sweeps(Mat(G), G.Length1, omega, cycles - k) == Sweeps(g0, G.Length1, omega, cycles)
    {
      SweepGrid(omega, G);
      k := k + 1;
    }
    SweepsKeepBorder(g0, G.Length1, omega, cycles);
    out := G;
  }

  /** One sweep: `for y in range(1, n - 1)`. */
  method SweepGrid(omega: real, G: array2<real>)
    requires G.Length0 <= G.Length1
    modifies G
    ensures Mat(G) == SweepRows(old(Mat(G)), G.Length1, omega, 1)
  {
    var n := G.Length0;
    var y := 1;
    while y < n - 1
      invariant 1 <= y
      invariant SweepRows(Mat(G), G.Length1, omega, y) == SweepRows(old(Mat(G)), G.Length1, omega, 1)
    {
      SweepLine(omega, G, y);
      y := y + 1;
    }
  }

  /** One row of a sweep: `for x in range(1, n - 1)`. */
  method SweepLine(omega: real, G: array2<real>, y: int)
    requires G.Length0 <= G.Length1 && 1 <= y < G.Length0 - 1
    modifies G
    ensures Mat(G) == SweepRow(old(Mat(G)), G.Length1, omega, y, 1)
  {
    var n := G.Length0;
    var x := 1;
    while x < n - 1
      invariant 1 <= x
      invariant SweepRow(Mat(G), G.Length1, omega, y, x) == SweepRow(old(Mat(G)), G.Length1, omega, y, 1)
    {
      var v := omega * 0.25 * (G[y - 1, x] + G[y + 1, x] + G[y, x - 1] + G[y, x + 1]) + (1.0 - omega) * G[y, x];
      assert v == Relax(Mat(G), G.Length1, omega, y, x);
      SetCell(G, y, x, v);
      x := x + 1;
    }
  }

  // ----- the sparse matrix of bench_SparseMatMult --------------------------------

  /** The column stride of row `r`: `max(r // nr, 1)`. */
  function Step(r: int, nr: int): int
    requires nr > 0
  {
    Max(r / nr, 1)
  }

  /** The column of entry `i` of row `r`: `i * step`. */
  function ColumnOf(r: int, i: int, nr: int): int
    requires nr > 0
  {
    i * Step(r, nr)
  }

  /** Where entry `i` of row `r` is stored: `row[r] + i` with `row[r] == r * nr`. */
  function Slot(r: int, i: int, nr: int): int
  {
    r * nr + i
  }

  /** The exception the construction raises, if any: `np.zeros(N)` refuses
      a negative `N`, `nz // N` divides by zero when `N == 0`, a negative
      `nz` gives a negative `nr * N` for `np.zeros`, and `r // nr` divides by
      zero in the first row when `nr == 0`. */
  function SetupError(N: int, nz: int): Option<Error>
  {
    if N < 0 then Some(ValueError)
    else if N == 0 then Some(ZeroDivisionError)
    else if nz < 0 then Some(ValueError)
    else if nz < N then Some(ZeroDivisionError)
    else None
  }

  /** The slots of the rows before `r` all lie below the start of row `r`. */
  lemma SlotsBelow(r: int, nr: int)
    requires 0 <= r && nr > 0
    ensures forall rr, i :: 0 <= rr < r && 0 <= i < nr ==> 0 <= Slot(rr, i, nr) < Slot(r, 0, nr)
  {
    forall rr, i | 0 <= rr < r && 0 <= i < nr ensures 0 <= Slot(rr, i, nr) < Slot(r, 0, nr) {
      SlotBelow(rr, i, r, nr);
    }
  }

  lemma SlotBelow(rr: int, i: int, r: int, nr: int)
    requires 0 <= rr < r && 0 <= i < nr
    ensures 0 <= Slot(rr, i, nr) < Slot(r, 0, nr)
  {
    MulNonNegative(rr, nr);
    MulNonNegative(r - rr - 1, nr);
    assert r * nr == rr * nr + (r - rr - 1) * nr + nr;
  }

  /** The arithmetic of `nr = nz // N` for `N > 0`: `nr * N` is negative
      exactly when `nz` is, `nr` is zero exactly when `0 <= nz < N`, and
      `row[N] == nr * N` never exceeds `nz`, the length of `col`. */
  lemma RowsFit(N: int, nz: int)
    requires N > 0
    ensures (nz / N) * N < 0 <==> nz < 0
    ensures nz >= 0 ==> (nz / N == 0 <==> nz < N)
    ensures nz >= N ==> 1 <= nz / N && N * (nz / N) <= nz
  {
    var nr := nz / N;
    assert nz == nr * N + nz % N && 0 <= nz % N < N;
    if nz < 0 {
      assert nr < 0;
      assert nr * N <= -N;
    } else {
      assert nr >= 0;
    }
  }

  /** The matrix setup of bench_SparseMatMult(cycles, N, nz), with
      `nr = nz // N`: `row[r] = r * nr` for every `r <= N`, the `nr` entries
      of row `r` get the columns `i * max(r // nr, 1)`, and the rest of `col`
      stays zero; the exceptions are those of `SetupError`.  The values,
      `x` and `y` are all zeros and are left out. */
  method SparseSetup(N: int, nz: int) returns (r: Result<int>, row: array<int>, col: array<int>)
    ensures r.Failure? <==> SetupError(N, nz).Some?
    ensures r.Failure? ==> r.error == SetupError(N, nz).value
    ensures r.Success? ==>
              && r.value == nz / N && r.value >= 1
              && row.Length == N + 1 && col.Length == nz
              && (forall k :: 0 <= k <= N ==> row[k] == Slot(k, 0, r.value))
              && (forall rr, i :: 0 <= rr < N && 0 <= i < r.value ==>
                    0 <= Slot(rr, i, r.value) < nz && col[Slot(rr, i, r.value)] == ColumnOf(rr, i, r.value))
              && (forall q :: Slot(N, 0, r.value) <= q < nz ==> col[q] == 0)
  {
    row := new int[0];
    col := new int[0];
    if N < 0 {
      return Failure(ValueError), row, col;
    }
    if N == 0 {
      return Failure(ZeroDivisionError), row, col;
    }
    RowsFit(N, nz);
    var nr := nz / N;
    var anz := nr * N;
    if anz < 0 {
      return Failure(ValueError), row, col;
    }
    col := new int[nz](_ => 0);
    row := new int[N + 1](_ => 0);
    if nr == 0 {
      return Failure(ZeroDivisionError), row, col;
    }
    r := Success(nr);
    FillRows(row, col, N, nz, nr);
  }

  /** The row loop of the setup: `row[r + 1] = row[r] + nr` and the columns
      of row `r`, for every `r < N`. */
  method FillRows(row: array<int>, col: array<int>, N: int, nz: int, nr: int)
    requires N > 0 && nr >= 1 && Slot(N, 0, nr) <= nz
    requires row.Length == N + 1 && col.Length == nz && row != col
    requires forall k :: 0 <= k <= N ==> row[k] == 0
    requires forall q :: 0 <= q < nz ==> col[q] == 0
    modifies row, col
    ensures forall k :: 0 <= k <= N ==> row[k] == Slot(k, 0, nr)
    ensures forall rr, i :: 0 <= rr < N && 0 <= i < nr ==> 0 <= Slot(rr, i, nr) < nz && col[Slot(rr, i, nr)] == ColumnOf(rr, i, nr)
    ensures forall q :: Slot(N, 0, nr) <= q < nz ==> col[q] == 0
  {
    row[0] := 0;
    var rr := 0;
    while rr < N
      invariant 0 <= rr <= N
      invariant forall k :: 0 <= k <= rr ==> row[k] == Slot(k, 0, nr)
      invariant forall rp, i :: 0 <= rp < rr && 0 <= i < nr ==> 0 <= Slot(rp, i, nr) < nz && col[Slot(rp, i, nr)] == ColumnOf(rp, i, nr)
      invariant forall q :: Slot(rr, 0, nr) <= q < nz ==> col[q] == 0
    {
      var rowr := row[rr];
      var step := Max(rr / nr, 1);
      SlotStep(rr, nr);
      row[rr + 1] := rowr + nr;
      FillRow(col, rr, nr, N, nz, step);
      rr := rr + 1;
    }
  }

  /** The next row starts `nr` slots later, and slot `i` of a row is `i`
      slots into it. */
  lemma SlotStep(r: int, nr: int)
    ensures Slot(r + 1, 0, nr) == Slot(r, 0, nr) + nr
    ensures forall i :: Slot(r, i, nr) == Slot(r, 0, nr) + i
  {
  }

  /** Rows up to `N` start at most at `row[N]`. */
  lemma SlotMonotone(r: int, N: int, nr: int)
    requires 0 <= r <= N && nr >= 0
    ensures Slot(r, 0, nr) <= Slot(N, 0, nr)
  {
    assert (N - r) * nr >= 0;
  }

  /** The columns of row `rr` are written at its slots, after the rows
      before it and before the zeros of the rows after it. */
  method FillRow(col: array<int>, rr: int, nr: int, N: int, nz: int, step: int)
    requires 0 <= rr < N && nr >= 1 && col.Length == nz && Slot(N, 0, nr) <= nz && step == Step(rr, nr)
    requires forall rp, i :: 0 <= rp < rr && 0 <= i < nr ==> 0 <= Slot(rp, i, nr) < nz && col[Slot(rp, i, nr)] == ColumnOf(rp, i, nr)
    requires forall q :: Slot(rr, 0, nr) <= q < nz ==> col[q] == 0
    modifies col
    ensures forall rp, i :: 0 <= rp < rr + 1 && 0 <= i < nr ==> 0 <= Slot(rp, i, nr) < nz && col[Slot(rp, i, nr)] == ColumnOf(rp, i, nr)
    ensures forall q :: Slot(rr + 1, 0, nr) <= q < nz ==> col[q] == 0
  {
    SlotsBelow(rr + 1, nr);
    SlotStep(rr, nr);
    SlotMonotone(rr + 1, N, nr);
    var rowr := Slot(rr, 0, nr);
    WriteColumns(col, rowr, nr, step);
    forall rp, i | 0 <= rp < rr + 1 && 0 <= i < nr
      ensures 0 <= Slot(rp, i, nr) < nz && col[Slot(rp, i, nr)] == ColumnOf(rp, i, nr)
    {
      if rp < rr {
        SlotsBelow(rr, nr);
        assert Slot(rp, i, nr) < rowr;
      } else {
        assert Slot(rp, i, nr) - rowr == i;
      }
    }
  }

  /** `for i in range(nr): col[rowr + i] = i * step`: the `nr` slots from
      `rowr` on are written, the ones before are kept, and the ones after,
      zero before, stay zero. */
  method WriteColumns(col: array<int>, rowr: int, nr: int, step: int)
    requires 0 <= rowr && 0 <= nr && rowr + nr <= col.Length
    requires forall q :: rowr <= q < col.Length ==> col[q] == 0
    modifies col
    ensures forall q :: 0 <= q < rowr ==> col[q] == old(col[q])
    ensures forall q :: rowr <= q < rowr + nr ==> col[q] == (q - rowr) * step
    ensures forall q :: rowr + nr <= q < col.Length ==> col[q] == 0
  {
    var i := 0;
    while i < nr
      invariant 0 <= i <= nr
      invariant forall q :: 0 <= q < rowr ==> col[q] == old(col[q])
      invariant forall q :: rowr <= q < rowr + i ==> col[q] == (q - rowr) * step
      invariant forall q :: rowr + i <= q < col.Length ==> col[q] == 0
    {
      col[rowr + i] := i * step;
      i := i + 1;
    }
  }

  /** Every stored column lies in `[0, N)` exactly when `nr <= N`: row 0
      uses the columns `0 .. nr-1`, and the stride of a later row keeps its
      columns below the row index. */
  lemma ColumnsInRange(N: int, nr: int)
    requires N > 0 && nr > 0
    ensures (forall rr, i :: 0 <= rr < N && 0 <= i < nr ==> 0 <= ColumnOf(rr, i, nr) < N) <==> nr <= N
  {
    if nr <= N {
      forall rr, i | 0 <= rr < N && 0 <= i < nr ensures 0 <= ColumnOf(rr, i, nr) < N {
        StrideBound(rr, i, nr);
      }
    } else {
      assert Step(0, nr) == 1;
      assert !(0 <= ColumnOf(0, nr - 1, nr) < N);
    }
  }

  /** Entry `i` of row `rr` has a column below `max(rr, nr)`. */
  lemma StrideBound(rr: int, i: int, nr: int)
    requires 0 <= rr && 0 <= i < nr
    ensures 0 <= ColumnOf(rr, i, nr) < Max(rr, nr)
  {
    var q := rr / nr;
    if q == 0 {
      assert ColumnOf(rr, i, nr) == i;
    } else {
      assert ColumnOf(rr, i, nr) == i * q;
      QuotientBound(rr, nr);
      ProductBelow(i, nr, q);
    }
  }

  /** `nr * (rr // nr) <= rr`. */
  lemma QuotientBound(rr: int, nr: int)
    requires 0 <= rr && nr > 0
    ensures nr * (rr / nr) <= rr
  {
    assert rr == (rr / nr) * nr + rr % nr;
  }

  /** `0 <= i * q < nr * q` for `0 <= i < nr` and `q >= 1`. */
  lemma ProductBelow(i: int, nr: int, q: int)
    requires 0 <= i < nr && q >= 1
    ensures 0 <= i * q < nr * q
  {
    assert nr * q - i * q == (nr - i) * q;
  }

  // ----- SparseCompRow_matmult ----------------------------------------------------

  /** Entry `i` is stored: it has a value and a column, which indexes `x`. */
  predicate StoredAt(val: seq<real>, col: seq<int>, x: seq<real>, i: int)
  {
    0 <= i < |val| && i < |col| && 0 <= col[i] < |x|
  }

  /** The entries `[lo, hi)` of a row are stored. */
  predicate Stored(val: seq<real>, col: seq<int>, x: seq<real>, lo: int, hi: int)
  {
    forall i :: lo <= i < hi ==> StoredAt(val, col, x, i)
  }

  /** `x[col[i]] * val[i]` summed over `i` in `[lo, hi)`, left to right. */
  function RowSum(val: seq<real>, col: seq<int>, x: seq<real>, lo: int, hi: int): real
    requires Stored(val, col, x, lo, hi)
    decreases hi - lo
  {
    if hi <= lo then 0.0
    else
      assert StoredAt(val, col, x, hi - 1);
      RowSum(val, col, x, lo, hi - 1) + x[col[hi - 1]] * val[hi - 1]
  }

  /** Stored entries whose values are all zero contribute nothing: the
      benchmark's all-zero matrix gives the zero vector. */
  lemma {:induction false} RowSumZero(val: seq<real>, col: seq<int>, x: seq<real>, lo: int, hi: int)
    requires Stored(val, col, x, lo, hi)
    requires forall i :: lo <= i < hi && 0 <= i < |val| ==> val[i] == 0.0
    ensures RowSum(val, col, x, lo, hi) == 0.0
    decreases hi - lo
  {
    if hi > lo {
      assert StoredAt(val, col, x, hi - 1);
      RowSumZero(val, col, x, lo, hi - 1);
    }
  }

  /** A row splits at any stored position into two partial sums. */
  lemma {:induction false} RowSumSplit(val: seq<real>, col: seq<int>, x: seq<real>, lo: int, mid: int, hi: int)
    requires lo <= mid <= hi && Stored(val, col, x, lo, hi)
    ensures RowSum(val, col, x, lo, hi) == RowSum(val, col, x, lo, mid) + RowSum(val, col, x, mid, hi)
    decreases hi - mid
  {
    if hi > mid {
      RowSumSplit(val, col, x, lo, mid, hi - 1);
    }
  }

  /** SparseCompRow_matmult(y, val, row, col, x): for every `r < len(y)`,
      `y[r]` becomes the sum over the stored entries `row[r] <= i < row[r+1]`
      of `x[col[i]] * val[i]`; y itself is returned.  `y` must be another
      array than `x` and `val`. */
  method SparseCompRowMatmult(y: array<real>, val: array<real>, row: array<int>, col: array<int>, x: array<real>)
    returns (out: array<real>)
    requires y.Length < row.Length
    requires forall r :: 0 <= r < y.Length ==> Stored(val[..], col[..], x[..], row[r], row[r + 1])
    requires y != x && y != val
    modifies y
    ensures out == y
    ensures forall r :: 0 <= r < y.Length ==> y[r] == RowSum(val[..], col[..], x[..], row[r], row[r + 1])
  {
    var M := y.Length;
    var r := 0;
    while r < M
      invariant 0 <= r <= M
      invariant forall k :: 0 <= k < r ==> y[k] == RowSum(val[..], col[..], x[..], row[k], row[k + 1])
    {
      var sa := RowDot(val, col, x, row[r], row[r + 1]);
      y[r] := sa;
      r := r + 1;
    }
    out := y;
  }

  /** `sa += x[col[i]] * val[i]` for `i` in `range(lo, hi)`, from `sa = 0.0`. */
  method RowDot(val: array<real>, col: array<int>, x: array<real>, lo: int, hi: int) returns (sa: real)
    requires Stored(val[..], col[..], x[..], lo, hi)
    ensures sa == RowSum(val[..], col[..], x[..], lo, hi)
  {
    sa := 0.0;
    var i := lo;
    while i < hi
      invariant lo <= i <= (if hi < lo then lo else hi)
      invariant sa == RowSum(val[..], col[..], x[..], lo, i)
    {
      assert StoredAt(val[..], col[..], x[..], i);
      sa := sa + x[col[i]] * val[i];
      i := i + 1;
    }
  }

  // ----- LU_factor ---------------------------------------------------------------

  /** LU_factor(A): `pivot` is a fresh zero array of `min(M, N)` entries;
      for each column, the pivot search, `pivot[j] = jp`, the exception when
      `|A[jp, j]| < 1e-12`, the row swap, the column scaling when
      `j < M - 1` and the trailing update when `j < minMN - 1`.  The matrix,
      the pivots and the exception are those of `Factor` under the threshold
      test; as `pivot` has room for every column, the only exception is the
      rejected pivot. */
  method LUFactor(A: array2<real>) returns (out: array2<real>, pivot: array<int>, r: Result<()>)
    modifies A
    ensures out == A && fresh(pivot) && pivot.Length == Min(A.Length0, A.Length1)
    ensures Reports(Factor(old(Mat(A)), A.Length1, 0, BelowThreshold, pivot.Length),
                    Mat(A), pivot[..], seq(pivot.Length, _ => 0), r)
    ensures r.Failure? ==> r.error == FactorizationError
  {
    var M, N := A.Length0, A.Length1;
    var minMN := if M < N then M else N;
    pivot := new int[minMN](_ => 0);
    ghost var a0 := Mat(A);
    ghost var total := Factor(a0, N, 0, BelowThreshold, minMN);
    ghost var zeros := pivot[..];
    assert zeros == seq(minMN, _ => 0);
    FactorFits(a0, N, 0, BelowThreshold, minMN, total);
    StartTracks(a0, N, BelowThreshold, zeros);
    r := FactorColumns(A, pivot, minMN, total, zeros);
    out := A;
  }

  /** With room for a pivot per column, the factorisation never raises
      IndexError. */
  lemma {:induction false} FactorFits(A: Matrix, n: int, j: nat, test: PivotTest, cap: int, o: Outcome)
    requires Rect(A, |A|, n) && o == Factor(A, n, j, test, cap) && cap >= Min(|A|, n)
    ensures o.error == None || o.error == Some(FactorizationError)
    decreases Min(|A|, n) - j
  {
    if j < Min(|A|, n) {
      var jp := Pivot(A, j);
      if !Rejects(test, A[jp][j]) {
        var B := Update(A, n, j, jp);
        FactorFits(B, n, j + 1, test, cap, Factor(B, n, j + 1, test, cap));
      }
    }
  }

  /** The column loop of LU_factor, against the outcome `total` of the whole
      factorisation and the initial contents `oldPiv` of `pivot`. */
  method FactorColumns(A: array2<real>, pivot: array<int>, minMN: int, ghost total: Outcome, ghost oldPiv: seq<int>)
    returns (r: Result<()>)
    requires minMN == Min(A.Length0, A.Length1) && pivot.Length == minMN
    requires Tracks(total, Mat(A), A.Length1, 0, BelowThreshold, pivot[..], oldPiv)
    modifies A, pivot
    ensures Reports(total, Mat(A), pivot[..], oldPiv, r)
  {
    var j := 0;
    while j < minMN
      invariant 0 <= j <= minMN && Tracks(total, Mat(A), A.Length1, j, BelowThreshold, pivot[..], oldPiv)
    {
      var stop := FactorColumn(A, pivot, j, minMN, total, oldPiv);
      if stop.Some? {
        return Failure(stop.value);
      }
      j := j + 1;
    }
    FinishColumns(total, Mat(A), A.Length1, j, BelowThreshold, pivot[..], oldPiv);
    return Success(());
  }

  /** Column `j` of LU_factor: the pivot search, `pivot[j] = jp`, the
      threshold exception, then the column step.  Either the factorisation
      goes on from column `j + 1` with one more pivot stored, or the call
      stops with what `Factor` reports. */
  method FactorColumn(A: array2<real>, pivot: array<int>, j: int, minMN: int, ghost total: Outcome, ghost oldPiv: seq<int>)
    returns (stop: Option<Error>)
    requires minMN == Min(A.Length0, A.Length1) && pivot.Length == minMN && 0 <= j < minMN
    requires Tracks(total, Mat(A), A.Length1, j, BelowThreshold, pivot[..], oldPiv)
    modifies A, pivot
    ensures stop.None? ==> Tracks(total, Mat(A), A.Length1, j + 1, BelowThreshold, pivot[..], oldPiv)
    ensures stop.Some? ==> Reports(total, Mat(A), pivot[..], oldPiv, Failure(stop.value))
  {
    var jp := PivotSearch(A, j);
    ghost var done := pivot[..j];
    pivot[j] := jp;
    assert pivot[..j + 1] == done + [jp];
    if Abs(A[jp, j]) < 0.000000000001 {
      Stops(total, done, Mat(A), [jp], Some(FactorizationError), pivot[..], oldPiv);
      return Some(FactorizationError);
    }
    Advance(A, j, jp, minMN, done, total);
    assert pivot[..][..j + 1] == pivot[..j + 1];
    return None;
  }

  /** An accepted pivot advances the factorisation by one column. */
  method Advance(A: array2<real>, j: int, jp: int, minMN: int, ghost done: seq<int>, ghost total: Outcome)
    requires 0 <= j < minMN && minMN == Min(A.Length0, A.Length1)
    requires HasColumn(Mat(A), j) && jp == Pivot(Mat(A), j)
    requires !Rejects(BelowThreshold, A[jp, j])
    requires total == Prepend(done, Factor(Mat(A), A.Length1, j, BelowThreshold, minMN))
    modifies A
    ensures total == Prepend(done + [jp], Factor(Mat(A), A.Length1, j + 1, BelowThreshold, minMN))
  {
    ghost var before := Mat(A);
    ColumnStep(A, j, jp, minMN);
    FactorStep(before, A.Length1, j, BelowThreshold, minMN, done, total);
  }

  /** One accepted column: the row swap when `jp != j`, the column scaling
      when `j < M - 1` and the trailing update when `j < minMN - 1`. */
  method ColumnStep(A: array2<real>, j: int, jp: int, minMN: int)
    requires 0 <= j <= jp < A.Length0 && j < A.Length1 && minMN == Min(A.Length0, A.Length1)
    requires A[jp, j] != 0.0
    modifies A
    ensures Mat(A) == Update(old(Mat(A)), A.Length1, j, jp)
  {
    if jp != j {
      SwapPivotRow(A, j, jp);
    }
    assert Mat(A) == SwapRows(old(Mat(A)), j, jp);
    if j < A.Length0 - 1 {
      ScaleBelow(A, j);
    }
    if j < minMN - 1 {
      EliminateBelow(A, j);
    }
  }

  /** The pivot search: the first row at or below `j` of largest magnitude
      in column `j`, found by one scan with a strict `>`. */
  method PivotSearch(A: array2<real>, j: int) returns (jp: int)
    requires 0 <= j < A.Length0 && j < A.Length1
    ensures HasColumn(Mat(A), j) && jp == Pivot(Mat(A), j)
  {
    jp := j;
    var t := Abs(A[j, j]);
    var i := j + 1;
    while i < A.Length0
      invariant j + 1 <= i <= A.Length0
      invariant j <= jp < A.Length0 && t == Abs(A[jp, j])
      invariant PivotScan(Mat(A), j, i, jp) == Pivot(Mat(A), j)
    {
      var ab := Abs(A[i, j]);
      if ab > t {
        jp := i;
        t := ab;
      }
      i := i + 1;
    }
  }

  /** `A[j, :], A[jp, :] = A[jp, :].copy(), A[j, :].copy()`. */
  method SwapPivotRow(A: array2<real>, j: int, jp: int)
    requires 0 <= j < A.Length0 && 0 <= jp < A.Length0
    modifies A
    ensures Mat(A) == SwapRows(old(Mat(A)), j, jp)
  {
    var rowJp := CopyRow(A, jp);
    var rowJ := CopyRow(A, j);
    WriteRow(A, j, rowJp);
    WriteRow(A, jp, rowJ);
  }

  /** `A[r, :].copy()`. */
  method CopyRow(A: array2<real>, r: int) returns (row: seq<real>)
    requires 0 <= r < A.Length0
    ensures row == Mat(A)[r]
  {
    row := seq(A.Length1, c requires 0 <= c < A.Length1 reads A => A[r, c]);
  }

  /** `A[r, :] = row`, entry by entry. */
  method WriteRow(A: array2<real>, r: int, row: seq<real>)
    requires 0 <= r < A.Length0 && |row| == A.Length1
    modifies A
    ensures Mat(A) == old(Mat(A))[r := row]
  {
    var c := 0;
    while c < A.Length1
      invariant 0 <= c <= A.Length1
      invariant forall rr, cc :: 0 <= rr < A.Length0 && 0 <= cc < A.Length1 ==>
                  A[rr, cc] == if rr == r && cc < c then row[cc] else old(A[rr, cc])
    {
      A[r, c] := row[c];
      c := c + 1;
    }
    ghost var want := old(Mat(A))[r := row];
    forall rr | 0 <= rr < A.Length0 ensures Mat(A)[rr] == want[rr] {
      assert |Mat(A)[rr]| == |want[rr]|;
    }
  }

  /** The column scaling: `A[k, j] *= recp` for every row `k` below `j`,
      with `recp = 1 / A[j, j]`. */
  method ScaleBelow(A: array2<real>, j: int)
    requires 0 <= j < A.Length0 && j < A.Length1 && A[j, j] != 0.0
    modifies A
    ensures HasColumn(old(Mat(A)), j) && Mat(A) == ScaleColumn(old(Mat(A)), j)
  {
    var recp := 1.0 / A[j, j];
    ScaleRows(A, j, recp);
    ghost var T := ScaleColumn(old(Mat(A)), j);
    assert forall r :: 0 <= r < A.Length0 ==> Mat(A)[r] == T[r];
  }

  /** The loop of the column scaling, for a given factor `recp`. */
  method ScaleRows(A: array2<real>, j: int, recp: real)
    requires 0 <= j < A.Length0 && j < A.Length1
    modifies A
    ensures forall r :: 0 <= r < A.Length0 ==>
              Mat(A)[r] == if j < r then ScaleRow(old(Mat(A))[r], j, recp) else old(Mat(A))[r]
  {
    ghost var m0 := Mat(A);
    var k := j + 1;
    while k < A.Length0
      invariant j + 1 <= k <= A.Length0
      invariant forall r :: 0 <= r < A.Length0 ==>
                  Mat(A)[r] == if j < r < k then ScaleRow(m0[r], j, recp) else m0[r]
    {
      ghost var before := Mat(A);
      ScaleCell(A, k, j, recp);
      forall r | 0 <= r < A.Length0
        ensures Mat(A)[r] == if j < r < k + 1 then ScaleRow(m0[r], j, recp) else m0[r]
      {
        if r != k {
          assert Mat(A)[r] == before[r];
        }
      }
      k := k + 1;
    }
  }

  /** `A[k, j] *= recp`. */
  method ScaleCell(A: array2<real>, k: int, j: int, recp: real)
    requires 0 <= k < A.Length0 && 0 <= j < A.Length1
    modifies A
    ensures Mat(A) == old(Mat(A))[k := ScaleRow(old(Mat(A))[k], j, recp)]
  {
    ghost var row := Mat(A)[k];
    var v := A[k, j] * recp;
    assert v == row[j] * recp;
    SetCell(A, k, j, v);
    assert Mat(A)[k] == row[j := v];
    ScaleRowIs(row, j, recp);
    assert row[j := v] == ScaleRow(row, j, recp);
  }

  /** The trailing update: for every row `ii` below `j`,
      `A[ii, jj] -= A[ii, j] * A[j, jj]` for the columns `jj` right of `j`. */
  method EliminateBelow(A: array2<real>, j: int)
    requires 0 <= j && j + 1 < A.Length0 && j + 1 < A.Length1
    modifies A
    ensures Mat(A) == Eliminate(old(Mat(A)), j, A.Length1)
  {
    ghost var m0 := Mat(A);
    var ii := j + 1;
    while ii < A.Length0
      invariant j + 1 <= ii <= A.Length0
      invariant forall r :: 0 <= r < A.Length0 ==>
                  Mat(A)[r] == if j < r < ii then ElimRowUpTo(m0[r], m0[j], j, A.Length1) else m0[r]
    {
      ghost var before := Mat(A);
      ElimRow(A, ii, j);
      forall r | 0 <= r < A.Length0
        ensures Mat(A)[r] == if j < r < ii + 1 then ElimRowUpTo(m0[r], m0[j], j, A.Length1) else m0[r]
      {
        if r != ii {
          assert Mat(A)[r] == before[r];
        }
      }
      ii := ii + 1;
    }
    assert Mat(A) == Eliminate(m0, j, A.Length1);
  }

  /** The inner loop of the trailing update, on row `ii`. */
  method ElimRow(A: array2<real>, ii: int, j: int)
    requires 0 <= j < ii < A.Length0 && j < A.Length1
    modifies A
    ensures Mat(A) == old(Mat(A))[ii := ElimRowUpTo(old(Mat(A))[ii], old(Mat(A))[j], j, A.Length1)]
  {
    ghost var m0 := Mat(A);
    ghost var row, p := m0[ii], m0[j];
    var jj := j + 1;
    ElimRowNone(row, p, j);
    while jj < A.Length1
      invariant j + 1 <= jj <= A.Length1
      invariant Mat(A) == m0[ii := ElimRowUpTo(row, p, j, jj)]
    {
      ElimRowStep(row, p, j, jj);
      ElimRowAt(row, p, j, jj, jj);
      ElimRowAt(row, p, j, jj, j);
      assert A[j, jj] == p[jj];
      var v := A[ii, jj] - A[ii, j] * A[j, jj];
      assert v == row[jj] - row[j] * p[jj];
      SetCell(A, ii, jj, v);
      jj := jj + 1;
    }
  }
}
