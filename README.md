# Verified model of the scalable-python benchmark kernels

This project models the integer, array and string logic of several Python
benchmarks in Dafny and proves properties of that logic:

- **Chaos game** (`chaos_numba.py`). Covers:
  - B-spline domain, span lookup and de Boor evaluation, with the convex-hull property;
  - the bounding box and the weight table of `chaos_init`;
  - the random choice of a transformation;
  - clamping to the box;
  - how a point is moved and mapped to a raster cell.
- **N-Queens** (`nqueens.py`, `nqueens_numba.py`). Both permutation generators drive one `indices`/`cycles` state machine. It yields exactly `n!/(n-r)!` tuples, each drawn from distinct positions; the documented example is proved. The set-size diagonal test and the pairwise diagonal test accept the same boards.
- **SciMark** (`scimark.py`, `scimark_numba.py`). Covers:
  - the row-major `Array2D` and the list-of-rows `ArrayList`;
  - the integer state of the lagged-Fibonacci generator;
  - `int_log2` and the bit-reversal permutation of the FFT;
  - LU factorisation with partial pivoting. Both kernels are proved equal to one functional `Factor`, with the exact-zero test and the `1e-12` threshold test respectively;
  - the write footprint of SOR;
  - the compressed-row sparse matrix built by the benchmark, and its product;
  - the Monte Carlo estimate.
- **N-body** (`nbody.py`). The hand-written `combinations(l)`: its length, its members and its lexicographic order.
- **TPC-H loader** (`tpch/utils.py`). Covers:
  - table paths;
  - the `read_csv` keyword arguments per engine;
  - the fixed-width `|`-separated text of `export_df`.

Floats are reals. Draws from random generators are parameters. Python exceptions are `Failure` values of a `Result`.

Modules:

| Module | Contents |
|---|---|
| `Wrappers` | `Option`, `Result` and shared helpers. |
| `ChaosSpline` | Spline evaluation. |
| `ChaosGame` | The chaos game proper. |
| `PermSpec` | The permutation state machine as functions. |
| `NQueens` | The pure-Python generator and solver. |
| `NQueensNumba` | The array version and pairwise check. |
| `Fft` | `int_log2` loop, bit reversal. |
| `LuSpec` | Functional LU factorisation. |
| `Scimark` | Classes and kernels of `scimark.py`. |
| `ScimarkNumba` | Array kernels of `scimark_numba.py`. |
| `NBody` | `combinations`. |
| `TpchUtils` | TPC-H string and parameter shaping. |

Where the two SciMark files share code (`int_log2`, `FFT_bitreverse`, `LU_factor`), they share one model and the source rows cite `scimark.py`.

Some notes on the code's behaviour:
- **Spline knots.** The splines use the code's convention of `len(knots) == len(points) + degree - 1`, one knot fewer at each end than the textbook clamped relation.
- **CSR column bound.** In the sparse matrix set-up, the column indices stay below `N` exactly when `nz // N <= N`. `nz >= N` alone does not ensure it.

## Model

| member | source | states |
|---|---|---|
| Wrappers.Trunc | pyperformance/chaos_numba.py:160 | `int()` of a float truncates toward zero on both signs |
| ChaosSpline.Domain | pyperformance/chaos_numba.py:47-49 | the domain `(knots[degree-1], knots[len-degree])` has start <= end whenever the knots are sorted and `2*degree <= len(knots) + 1` |
| ChaosSpline.FirstSpan | pyperformance/chaos_numba.py:53-57 | the result is the first span in the scanned range that holds `u`, or the fallback `hi - 1` when no span does |
| ChaosSpline.GetIndex | pyperformance/chaos_numba.py:53-57 | the loop of spline_get_index returns the first `ii` in `[degree-1, len-degree)` with `knots[ii] <= u < knots[ii+1]`, or `len - degree - 1` |
| ChaosSpline.SpanExists | pyperformance/chaos_numba.py:54-56 | between two knots that bracket `u` some span holds `u` |
| ChaosSpline.SortedKnotsOk | pyperformance/chaos_numba.py:89-94 | sorted knots around the found span satisfy every ordering the de Boor triangle needs |
| ChaosSpline.Bracket | pyperformance/chaos_numba.py:91-94 | the knots `ub = knots[ii-1]` and `ua = knots[ii+degree-ik]` of each blend bracket `u` |
| ChaosSpline.NextRowAt | pyperformance/chaos_numba.py:91-100 | every denominator `ua - ub` is non-zero and each entry of a new round is the blend of two entries of the previous one |
| ChaosSpline.RoundStep | pyperformance/chaos_numba.py:89-100 | entry `j` of round `k` equals `d[j]*co1 + d[j+1]*co2` with the coefficients computed from the two knots |
| ChaosSpline.NextRowInRange | pyperformance/chaos_numba.py:93-100 | blending values within `[lo, hi]` stays within `[lo, hi]` |
| ChaosSpline.RoundInRange | pyperformance/chaos_numba.py:88-102 | every entry of every de Boor round lies between bounds that hold for all control points |
| ChaosSpline.CombineEntry | pyperformance/chaos_numba.py:97-100 | one in-place linear combination turns entry `j` of the working array into entry `j` of the next round and leaves the rest |
| ChaosSpline.DeBoorStep | pyperformance/chaos_numba.py:90-100 | one inner iteration advances all three working arrays by one entry of the new round |
| ChaosSpline.DeBoorRound | pyperformance/chaos_numba.py:89-100 | the inner loop turns round `k-1` held in the three arrays into round `k` |
| ChaosSpline.SeedArrays | pyperformance/chaos_numba.py:76-86 | the working arrays receive control points `I-degree+1 .. I+1` |
| ChaosSpline.DeBoorPoint | pyperformance/chaos_numba.py:76-102 | the returned point is entry 0 of the last round of the de Boor triangle for each coordinate |
| ChaosSpline.FirstSpanOk | pyperformance/chaos_numba.py:74-95 | strictly inside the domain, the span found holds `u` and every index into knots and control points in the de Boor loops is in bounds |
| ChaosSpline.SeqMin | pyperformance/chaos_numba.py:138-143 | the minimum of a non-empty sequence is below every entry and is attained |
| ChaosSpline.SeqMax | pyperformance/chaos_numba.py:138-143 | the maximum of a non-empty sequence is above every entry and is attained |
| ChaosSpline.ApexInHull | pyperformance/chaos_numba.py:88-102 | the point de Boor's algorithm produces lies in the coordinate-wise hull of the control points |
| ChaosSpline.ControlPointInHull | pyperformance/chaos_numba.py:68-72 | every control point, including the first and last ones returned at the domain ends, lies in the hull |
| ChaosSpline.SplineInHull | pyperformance/chaos_numba.py:61-102 | on its whole domain the evaluated spline stays within the range of its control points |
| ChaosSpline.InteriorPoint | pyperformance/chaos_numba.py:74-102 | strictly inside the domain, spline_call's de Boor branch returns the specified point |
| ChaosSpline.SplineCall | pyperformance/chaos_numba.py:61-102 | spline_call returns the specified point: `(0,0,0)` outside the domain and a point in the hull of the control points on it |
| ChaosGame.LinearCombination | pyperformance/chaos_numba.py:40-43 | with the default weight `l2 = 1 - l1` and `0 <= l1 <= 1` each coordinate lies between those of the two points |
| ChaosGame.CombineBetween | pyperformance/chaos_numba.py:41-43 | a convex combination of two values lies between them |
| ChaosGame.BoundingBox | pyperformance/chaos_numba.py:133-143 | the loops compute the bounding box of all control points' x and y: it contains every point and each side is attained |
| ChaosGame.ContainsAttained | pyperformance/chaos_numba.py:138-143 | any box containing all control points contains the bounding box |
| ChaosGame.BoxUnique | pyperformance/chaos_numba.py:133-143 | the bounding box is determined by the control points |
| ChaosGame.CoversStep | pyperformance/chaos_numba.py:139-143 | widening the box to one more point extends the covered prefix by that point |
| ChaosGame.CoversNext | pyperformance/chaos_numba.py:138-139 | the covered points of one spline continue into the next |
| ChaosGame.BoxOrdered | pyperformance/chaos_numba.py:145-146 | the bounding box of at least one point has non-negative width and height |
| ChaosGame.NumTrafo | pyperformance/chaos_numba.py:160 | each weight `max(1, int(length / maxlength * 1.5))` is at least 1 and otherwise the truncated scaled length |
| ChaosGame.ChaosInit | pyperformance/chaos_numba.py:123-164 | chaos_init returns the bounding box, weights at least 1 per spline with their sum, and raises ZeroDivisionError exactly for a zero height or zero `maxlength` |
| ChaosGame.GetRandomTrafo | pyperformance/chaos_numba.py:168-178 | the index is the bucket of the prefix sums holding the draw `r`, or the last index when `r == num_total`; the second value lies in `[0, num_trafos[i])` |
| ChaosGame.TruncatePoint | pyperformance/chaos_numba.py:182-192 | clamping yields a point in the box, keeps points strictly inside, maps `x >= maxx` to `maxx` and `x < minx` to `minx` (same for y) |
| ChaosGame.TruncateIdempotent | pyperformance/chaos_numba.py:182-192 | clamping twice equals clamping once |
| ChaosGame.Normalize | pyperformance/chaos_numba.py:218-219 | a point in the box maps to a fraction in `[0, 1]` |
| ChaosGame.Param | pyperformance/chaos_numba.py:225-228 | the curve parameter `t` lies in the spline domain for a bucket in range and a fraction in `[0, 1]` |
| ChaosGame.ParamInDomain | pyperformance/chaos_numba.py:226-228 | `start + seg*val + seg*x` lies in `[start, end]` |
| ChaosGame.Neighbour | pyperformance/chaos_numba.py:241-264 | the neighbour parameter `t -/+ 1/50000` stays in a domain at least two steps long |
| ChaosGame.TransformPoint | pyperformance/chaos_numba.py:196-277 | transform_point uses the given or the drawn transformation, evaluates the spline at `t` in the domain and its neighbour in the domain, and returns x, y inside the box whatever the displacement |
| ChaosGame.StartPoint | pyperformance/chaos_numba.py:308-310 | the start point, the centre of the box, lies in the box |
| ChaosGame.ScaleUnit | pyperformance/chaos_numba.py:336-337 | a fraction of `n` scaled by `n` lies in `[0, n]` |
| ChaosGame.Cell | pyperformance/chaos_numba.py:336-343 | with the `x == w` correction every raster coordinate of a point in the box lies in `[0, n)` |
| ChaosGame.PixelOf | pyperformance/chaos_numba.py:336-346 | the written cell `(x, h-y-1)` lies in the `w` by `h` raster |
| ChaosGame.CreateImageChaos | pyperformance/chaos_numba.py:281-348 | ValueError exactly for a negative size; otherwise the raster starts at 1 and ends 0 exactly at the cells of the visited points, all in bounds |
| ChaosGame.DefaultSplines | pyperformance/chaos_numba.py:366-401 | the three default splines are well formed and have at least `degree` points each |
| PermSpec.Iota | pyperformance/nqueens.py:14 | `list(range(n))` holds `k` at position `k` |
| PermSpec.InitCycles | pyperformance/nqueens.py:15 | the cycles start as `[n, n-1, ..., n-r+1]` |
| PermSpec.Rotate | pyperformance/nqueens.py:21 | the suffix from `i` is rotated left by one and the prefix is unchanged |
| PermSpec.Swap | pyperformance/nqueens.py:25 | two entries are exchanged and the others stay |
| PermSpec.RotatePerm | pyperformance/nqueens.py:21 | the rotation keeps `indices` a permutation of `0..n-1` |
| PermSpec.SwapPerm | pyperformance/nqueens.py:25 | the swap keeps `indices` a permutation of `0..n-1` |
| PermSpec.PassShape | pyperformance/nqueens.py:18-27 | a pass keeps the lengths, keeps every `cycles[i]` in `[1, n-i]`, leaves the cycles after `i` untouched and keeps `indices` a permutation |
| PermSpec.FallingFactorial | pyperformance/nqueens.py:8-29 | `n*(n-1)*...*(n-r+1)` equals `n!/(n-r)!` |
| PermSpec.PassValue | pyperformance/nqueens.py:17-29 | a swapping pass counts the cycles down by one; a pass without a swap (the for/else) starts from zero |
| PermSpec.InitValue | pyperformance/nqueens.py:15 | the initial cycles read as the largest count, `n!/(n-r)! - 1` |
| PermSpec.Gather | pyperformance/nqueens.py:16 | the yielded tuple is `pool[indices[k]]` for `k < r` |
| PermSpec.Generate | pyperformance/nqueens.py:8-29 | the first tuple is `pool[:r]` in its original order |
| PermSpec.RunCount | pyperformance/nqueens.py:17-29 | the loop yields exactly as many tuples as the cycles count down |
| PermSpec.GenerateCount | pyperformance/nqueens.py:8-29 | permutations(pool, r) yields exactly `n!/(n-r)!` tuples |
| PermSpec.RunDrawn | pyperformance/nqueens.py:17-27 | each tuple after the first takes `pool` at `r` distinct positions |
| PermSpec.GenerateDrawn | pyperformance/nqueens.py:16-26 | every yielded tuple has length `r` and takes `pool` at `r` distinct positions |
| PermSpec.DocExample | pyperformance/nqueens.py:9 | `permutations(range(3), 2)` yields `(0,1) (0,2) (1,0) (1,2) (2,0) (2,1)` in that order |
| NQueens.Permutations | pyperformance/nqueens.py:8-29 | the generator with `r` defaulting to `n` yields exactly the tuples of the state machine `Generate` |
| NQueens.GenerateStart | pyperformance/nqueens.py:10-16 | the initial indices are a permutation, the initial cycles are in range and the first tuple is `pool[:r]` |
| NQueens.RunStep | pyperformance/nqueens.py:17-29 | generation stops exactly when a full pass makes no swap, and otherwise yields the swapped indices' tuple |
| NQueens.CyclePass | pyperformance/nqueens.py:18-29 | the inner loop with its for/else computes one pass, keeping indices a permutation and cycles in range |
| NQueens.Cols | pyperformance/nqueens.py:45 | `range(queen_count)` has `max(queen_count, 0)` entries |
| NQueens.Sums | pyperformance/nqueens.py:49 | entry `i` is `vec[i] + i` |
| NQueens.Diffs | pyperformance/nqueens.py:50 | entry `i` is `vec[i] - i` |
| NQueens.CardDistinct | pyperformance/nqueens.py:49-50 | a set built from a sequence has as many elements as the sequence exactly when no value repeats |
| NQueens.SetTestIff | pyperformance/nqueens.py:47-51 | the set-size test accepts exactly the vectors whose sums and differences are each pairwise distinct |
| NQueens.Keep | pyperformance/nqueens.py:46-52 | the kept vectors are exactly the generated ones that pass the test |
| NQueens.SolutionsAreBoards | pyperformance/nqueens.py:40-52 | every solution is a permutation of the columns with no two queens on a diagonal |
| NQueens.SolutionsIff | pyperformance/nqueens.py:46-52 | a permutation is yielded iff its `vec[i]+i` values are distinct and its `vec[i]-i` values are distinct |
| NQueensNumba.RotateSuffix | pyperformance/nqueens_numba.py:31-33 | the copy loop leaves `indices[i:]` rotated left by one and `indices[:i]` unchanged |
| NQueensNumba.FillTemp | pyperformance/nqueens_numba.py:39-40 | `temp` holds `pool[indices[k]]` for every `k < r` |
| NQueensNumba.CycleStep | pyperformance/nqueens_numba.py:29-43 | one iteration at `i` decrements, rotates and resets, or swaps, exactly as one step of the pass |
| NQueensNumba.CyclePassNumba | pyperformance/nqueens_numba.py:27-45 | the `for i` loop with `broke` computes one pass, keeping indices a permutation and cycles in range |
| NQueensNumba.PermutationsNumba | pyperformance/nqueens_numba.py:9-46 | ValueError for negative `r`, IndexError for `r > n`, otherwise the same tuples in the same order as nqueens.py's generator |
| NQueensNumba.RemainingTuples | pyperformance/nqueens_numba.py:26-45 | the while loop appends one copy of `temp` per swapping pass and stops at the first pass without a swap |
| NQueensNumba.PairwiseCheck | pyperformance/nqueens_numba.py:55-67 | the pairwise loop accepts `vec` iff `diag1[i] != diag1[j]` and `diag2[i] != diag2[j]` for all `i < j` |
| NQueensNumba.KeepStep | pyperformance/nqueens_numba.py:54-69 | filtering from entry `k` keeps or drops entry `k` and continues |
| NQueensNumba.GeneratedLengths | pyperformance/nqueens_numba.py:20-41 | every appended entry has length `r` |
| NQueensNumba.PairwiseIffSetTest | pyperformance/nqueens_numba.py:61-68 | the pairwise test and nqueens.py's set-size test accept the same vectors |
| NQueensNumba.NQueensNumba | pyperformance/nqueens_numba.py:50-70 | ValueError for a negative count; otherwise the same solutions, in the same order, as n_queens |
| Scimark.Idx | pyperformance/scimark.py:21-24 | `_idx` succeeds exactly for cells inside the grid, with an offset in `[0, width*height)`, and raises IndexError otherwise |
| Scimark.RowMajorBound | pyperformance/scimark.py:22-23 | the offset of an in-range cell lies in `[0, width*height)` |
| Scimark.RowMajorDivMod | pyperformance/scimark.py:23 | the offset splits back into column and row |
| Scimark.IdxInjective | pyperformance/scimark.py:21-24 | different cells have different offsets |
| Scimark.Read | pyperformance/scimark.py:26-28 | `__getitem__` reads the cell's offset, and raises IndexError outside the grid or past the buffer |
| Scimark.ReadAfterWrite | pyperformance/scimark.py:26-32 | after `a[x,y] = v`, `a[x,y]` reads `v` and every other cell reads as before |
| Scimark.WriteAll | pyperformance/scimark.py:30-32 | the same for every cell at once |
| Scimark.RowMajor | pyperformance/scimark.py:40-43 | the cell order has `width*height` entries |
| Scimark.RowMajorAt | pyperformance/scimark.py:40-43 | cell `(x, y)` comes at position `y*width + x` (y outer, x inner) |
| Scimark.RowMajorEntry | pyperformance/scimark.py:40-43 | entry `k` of the order is the cell whose offset is `k` |
| Scimark.Array2D.constructor | pyperformance/scimark.py:14-17 | a new array is a zero buffer of `width*height` values |
| Scimark.Array2D.Get | pyperformance/scimark.py:26-28 | reads a cell as `Read` does |
| Scimark.Array2D.Set | pyperformance/scimark.py:30-32 | writes exactly one cell at its offset, or raises IndexError and changes nothing |
| Scimark.Array2D.Indexes | pyperformance/scimark.py:40-43 | yields every cell, y outer and x inner |
| Scimark.Array2D.Setup | pyperformance/scimark.py:34-38 | stores `data[y][x]` at `(x, y)` for every cell, raising IndexError exactly when a row is missing or short; either way exactly the cells it reached (the full rows before the failing one and the prefix of a short row) hold `data[y][x]` and every other cell keeps its value |
| Scimark.Array2D.SetupRow | pyperformance/scimark.py:36-37 | one row of setup writes `row[x]` into each of its cells that the row reaches, fails exactly when the row is short, and keeps every other cell |
| Scimark.Array2D.CopyDataFrom | pyperformance/scimark.py:45-46 | the buffer becomes equal to the other's |
| Scimark.PyIndex | pyperformance/scimark.py:59-69 | Python list indexing: negative indices count from the end, anything else outside is IndexError |
| Scimark.Zeros | pyperformance/scimark.py:55 | a row of `width` zeros |
| Scimark.ArrayList.constructor | pyperformance/scimark.py:52-55 | `height` zero rows of `width` values |
| Scimark.ArrayList.GetCell | pyperformance/scimark.py:59-61 | `a[x, y]` is `data[y][x]` with Python indexing, IndexError outside |
| Scimark.ArrayList.GetRow | pyperformance/scimark.py:62-63 | `a[i]` is the row `data[i]` |
| Scimark.ArrayList.SetCell | pyperformance/scimark.py:65-67 | writes one cell of one row, or raises IndexError and changes nothing |
| Scimark.ArrayList.SetRow | pyperformance/scimark.py:68-69 | replaces one row, or raises IndexError and changes nothing |
| Scimark.ArrayList.CopyDataFrom | pyperformance/scimark.py:71-73 | rows are copied up to the shorter list and the rest are kept |
| Scimark.CopyEqualHeights | pyperformance/scimark.py:71-73 | with equally many rows the copy is exact |
| Scimark.TableEntryRange | pyperformance/scimark.py:92-107 | every seeded table entry lies in `[0, m1]` |
| Scimark.NextKeepsInv | pyperformance/scimark.py:111-128 | nextDouble keeps 17 entries in `[0, m1]`, both cursors in `[0, 16]` and `j - i == 12 (mod 17)`; each draw lies in `[0, m1]` |
| Scimark.CursorsApart | pyperformance/scimark.py:112-116 | the two cursors never coincide |
| Scimark.UnitDraw | pyperformance/scimark.py:130-134 | `dm1 * k` lies in `[0, 1]` |
| Scimark.Random.constructor | pyperformance/scimark.py:85-90 | a new generator holds the seeded table, `i = 4`, `j = 16`, and no range |
| Scimark.Random.Initialize | pyperformance/scimark.py:92-109 | seventeen seeding rounds store the table entries, then `i = 4`, `j = 16` |
| Scimark.Random.NextDouble | pyperformance/scimark.py:111-134 | one lagged-Fibonacci step of the state; the value is `dm1 * k`, scaled into the range when one is set |
| Scimark.Random.RandomVector | pyperformance/scimark.py:141-142 | `n` draws (none for `n <= 0`); entry `k` is the value of the `k`-th nextDouble call, the generator ends `n` steps on, and each entry lies in `[0, 1]` |
| Scimark.Steps | pyperformance/scimark.py:111-128 | the state after any number of nextDouble steps still satisfies the generator invariant |
| Scimark.DrawsAt | pyperformance/scimark.py:130-142 | value `k` of the draws is `dm1` times the draw of the state `k` steps on, and lies in `[0, 1]` |
| Scimark.UnitInRange | pyperformance/scimark.py:130-134 | every value drawn with no range set lies in `[0, 1]` |
| Fft.Log2Ceil | pyperformance/scimark.py:298-302 | the doubling loop returns the least `log` with `2^log >= n` |
| Fft.Log2CeilOfPow2 | pyperformance/scimark.py:303-305 | that `log` satisfies `n == 1 << log` exactly when `n` is a power of two |
| Fft.Pow2Injective | pyperformance/scimark.py:303 | different exponents give different powers of two |
| Scimark.IntLog2 | pyperformance/scimark.py:296-305 | returns `log` with `n == 2^log` for a power of two and raises otherwise |
| Fft.Rev | pyperformance/scimark.py:313-328 | the bit reversal of `i` is below `2^b` |
| Fft.RevInvolution | pyperformance/scimark.py:313-328 | reversing twice gives the index back |
| Fft.InnerStep | pyperformance/scimark.py:325-327 | each round of the `while k <= j` loop clears a leading one of `j` and shifts `k` |
| Fft.InnerExit | pyperformance/scimark.py:325-328 | after the loop, `j += k` makes `j` the reversal of `i + 1` |
| Fft.NextRev | pyperformance/scimark.py:316-328 | the inner loop turns the reversal of `i` into the reversal of `i + 1` |
| Fft.SwapPairsMultiset | pyperformance/scimark.py:317-324 | swapping two complex pairs keeps the multiset of values |
| Fft.SwapInPlace | pyperformance/scimark.py:319-324 | the six assignments exchange pairs `(ii, ii+1)` and `(jj, jj+1)` |
| Fft.PartialStep | pyperformance/scimark.py:313-324 | step `i` swaps pairs `i` and `j` only when `i < j`, and changes nothing otherwise |
| Fft.PartialEnd | pyperformance/scimark.py:313 | after `n - 1` steps every complex entry sits at its bit reversal |
| Fft.VisitPair | pyperformance/scimark.py:314-328 | one outer iteration advances the data by one step and `j` to the next reversal |
| Fft.BitReverse | pyperformance/scimark.py:308-328 | FFT_bitreverse leaves the data bit-reversed and a permutation of the input |
| Fft.PartialMultiset | pyperformance/scimark.py:313-328 | every step keeps the multiset of values |
| Fft.BitReversedMultiset | pyperformance/scimark.py:308-328 | the bit-reversed data is a permutation of the input |
| Fft.BitReversedTwice | pyperformance/scimark.py:308-328 | bit reversal undoes itself |
| LuSpec.PivotScan | pyperformance/scimark.py:246-252 | the scan returns the current best row or a later one |
| LuSpec.Pivot | pyperformance/scimark.py:246-252 | the pivot row lies in `[j, M)` |
| LuSpec.PivotScanFirstMax | pyperformance/scimark.py:248-252 | with the strict `>`, the scan finds the first row of largest magnitude |
| LuSpec.PivotIsFirstMax | pyperformance/scimark.py:246-253 | `pivot[j]` is the first `i >= j` of largest `abs(A[i][j])`, and it is the only such row |
| LuSpec.SwapRowsPermutes | pyperformance/scimark.py:259-260 | the row swap permutes the rows |
| LuSpec.RowStep | pyperformance/scimark.py:262-272 | after scaling and update, a row's multiplier times the pivot recovers its entry in column `j`, columns left of `j` are unchanged, and updated entries plus multiplier times pivot row recover the old ones |
| LuSpec.UpdateTop | pyperformance/scimark.py:258-272 | the column step keeps rows above `j` and puts the pivot row at `j` |
| LuSpec.UpdateRow | pyperformance/scimark.py:262-272 | a row below `j` is scaled in column `j` and updated right of `j` only while `j < minMN - 1` |
| LuSpec.FactorEnd | pyperformance/scimark.py:244 | past the last column nothing changes |
| LuSpec.FactorPivotRange | pyperformance/scimark.py:244-253 | the pivot stored for column `j + k` lies in `[j + k, M)` |
| LuSpec.FactorErrors | pyperformance/scimark.py:244-256 | a completed factorisation stores `min(M, N)` pivots; an IndexError means the pivot buffer was full |
| LuSpec.FactorRejects | pyperformance/scimark.py:253-256 | a factorisation that raises stops at its last column's pivot, which the zero test rejects |
| LuSpec.ExactZeroColumn | pyperformance/scimark.py:255-256 | under the exact test a rejected pivot means the column is zero from the diagonal down |
| LuSpec.FactorStep | pyperformance/scimark.py:245-272 | an accepted pivot advances the factorisation by one column |
| Scimark.LUFactor | pyperformance/scimark.py:240-272 | LU_factor leaves the matrix, the stored pivots and the exception of `Factor` under the exact zero test, with the rest of `pivot` untouched |
| Scimark.FactorColumns | pyperformance/scimark.py:244-272 | the column loop reports the outcome of the whole factorisation |
| Scimark.FactorColumn | pyperformance/scimark.py:245-272 | one column either stores its pivot and advances or stops with what `Factor` reports |
| Scimark.Advance | pyperformance/scimark.py:258-272 | an accepted pivot advances the tracked factorisation by one column |
| Scimark.ColumnStep | pyperformance/scimark.py:258-272 | swap, scaling and trailing update produce `Update` of the matrix |
| Scimark.PivotSearch | pyperformance/scimark.py:246-252 | the search loop returns the specified pivot row |
| Scimark.SwapPivotRow | pyperformance/scimark.py:259-260 | `A[j], A[jp] = A[jp], A[j]` swaps the two rows |
| Scimark.ScaleBelow | pyperformance/scimark.py:263-266 | entries of column `j` below row `j` are multiplied by `1 / A[j][j]` |
| Scimark.ScaleRows | pyperformance/scimark.py:265-266 | the scaling loop changes exactly the rows below `j`, in column `j` |
| Scimark.EliminateBelow | pyperformance/scimark.py:269-272 | the trailing update produces `Eliminate` of the matrix |
| Scimark.ElimRow | pyperformance/scimark.py:271-272 | the inner loop updates row `ii` right of column `j` and nothing else |
| ScimarkNumba.IntLog2 | pyperformance/scimark_numba.py:175-184 | returns `log` with `n == 2^log` for a power of two and ValueError otherwise |
| ScimarkNumba.FFTBitreverse | pyperformance/scimark_numba.py:188-211 | returns the same array, bit-reversed, with the same multiset of values |
| ScimarkNumba.TransformPrelude | pyperformance/scimark_numba.py:215-223 | data untouched when `len(data)//2 <= 1`; ValueError and untouched data for a non-power of two; otherwise bit-reversed with `log2(n)` passes to follow |
| ScimarkNumba.UnderCount | pyperformance/scimark_numba.py:101-106 | the count of draws under the curve never exceeds the number of draws |
| ScimarkNumba.MonteCarlo | pyperformance/scimark_numba.py:98-107 | the estimate is four times the share of draws under the curve and lies in `[0, 4]`; zero samples raise ZeroDivisionError |
| ScimarkNumba.EstimateBounds | pyperformance/scimark_numba.py:107 | `under / num * 4` lies in `[0, 4]` when `0 <= under <= num` |
| ScimarkNumba.SweepRowKeeps | pyperformance/scimark_numba.py:27-33 | relaxing one row changes no other row, no cell left of the cursor and no border cell |
| ScimarkNumba.SweepRowsKeep | pyperformance/scimark_numba.py:26-33 | a sweep changes no border cell |
| ScimarkNumba.SweepsKeepBorder | pyperformance/scimark_numba.py:25-33 | after all cycles the first and last rows and columns are unchanged |
| ScimarkNumba.SORExecute | pyperformance/scimark_numba.py:22-34 | returns G, relaxed in place as `cycles` sweeps specify, with every border cell unchanged |
| ScimarkNumba.SweepGrid | pyperformance/scimark_numba.py:26-33 | the `y` loop performs one sweep |
| ScimarkNumba.SweepLine | pyperformance/scimark_numba.py:27-33 | the `x` loop relaxes one row in place, left to right |
| ScimarkNumba.RowsFit | pyperformance/scimark_numba.py:67-68 | for `N > 0`: `nr * N` is negative exactly when `nz` is, `nr = nz // N` is zero exactly when `0 <= nz < N`, and otherwise `nr >= 1` and `nr * N <= nz` |
| ScimarkNumba.SparseSetup | pyperformance/scimark_numba.py:62-79 | `row[r] == r*nr`, entry `i` of row `r` is stored in `col` at `r*nr + i` with column `i*max(r//nr, 1)`, the rest of `col` stays zero; ValueError for a negative `N` or `nz`, ZeroDivisionError for `N == 0` or `nz < N` |
| ScimarkNumba.FillRows | pyperformance/scimark_numba.py:73-79 | the row loop writes every row start and every column of every row |
| ScimarkNumba.FillRow | pyperformance/scimark_numba.py:75-79 | one row's columns are written at its slots, after the earlier rows |
| ScimarkNumba.WriteColumns | pyperformance/scimark_numba.py:78-79 | the `i` loop writes `i*step` to the `nr` slots from `rowr` and keeps the others |
| ScimarkNumba.ColumnsInRange | pyperformance/scimark_numba.py:76-79 | every stored column is below `N` exactly when `nr <= N` |
| ScimarkNumba.StrideBound | pyperformance/scimark_numba.py:76-79 | the column of entry `i` of row `rr` is below `max(rr, nr)` |
| ScimarkNumba.RowSumZero | pyperformance/scimark_numba.py:54-57 | with all-zero values a row sums to zero |
| ScimarkNumba.RowSumSplit | pyperformance/scimark_numba.py:55-56 | a row's sum splits at any position into two partial sums |
| ScimarkNumba.SparseCompRowMatmult | pyperformance/scimark_numba.py:50-59 | returns y with `y[r]` the sum of `x[col[i]] * val[i]` over `row[r] <= i < row[r+1]` for every `r < len(y)` |
| ScimarkNumba.RowDot | pyperformance/scimark_numba.py:54-56 | the inner loop accumulates the row's sum |
| ScimarkNumba.LUFactor | pyperformance/scimark_numba.py:122-158 | pivot has `min(M, N)` entries; matrix, pivots and exception are those of `Factor` under the `1e-12` threshold; the only exception is the zero-pivot one |
| ScimarkNumba.FactorFits | pyperformance/scimark_numba.py:126-137 | with room for every pivot no IndexError arises |
| ScimarkNumba.FactorColumns | pyperformance/scimark_numba.py:128-156 | the column loop reports the outcome of the whole factorisation |
| ScimarkNumba.FactorColumn | pyperformance/scimark_numba.py:129-156 | one column either stores its pivot and advances or raises as `Factor` says |
| ScimarkNumba.Advance | pyperformance/scimark_numba.py:142-156 | an accepted pivot advances the tracked factorisation by one column |
| ScimarkNumba.ColumnStep | pyperformance/scimark_numba.py:142-156 | swap, scaling and trailing update produce `Update` of the matrix |
| ScimarkNumba.PivotSearch | pyperformance/scimark_numba.py:130-136 | the search loop returns the first row of largest magnitude |
| ScimarkNumba.SwapPivotRow | pyperformance/scimark_numba.py:143-144 | the copied rows are written back crosswise |
| ScimarkNumba.CopyRow | pyperformance/scimark_numba.py:144 | `A[r, :].copy()` is row `r` |
| ScimarkNumba.WriteRow | pyperformance/scimark_numba.py:144 | assigning a row changes that row only |
| ScimarkNumba.ScaleBelow | pyperformance/scimark_numba.py:147-150 | entries of column `j` below row `j` are multiplied by `1 / A[j, j]` |
| ScimarkNumba.ScaleRows | pyperformance/scimark_numba.py:149-150 | the scaling loop changes exactly the rows below `j`, in column `j` |
| ScimarkNumba.ScaleCell | pyperformance/scimark_numba.py:150 | `A[k, j] *= recp` changes that one entry |
| ScimarkNumba.EliminateBelow | pyperformance/scimark_numba.py:153-156 | the trailing update produces `Eliminate` of the matrix |
| ScimarkNumba.ElimRow | pyperformance/scimark_numba.py:155-156 | the inner loop updates row `ii` right of column `j` and nothing else |
| NBody.Row | pyperformance/nbody.py:30-32 | the pairs of position `x` are `(l[x], l[y])` for `y > x`, in order |
| NBody.Combinations | pyperformance/nbody.py:26-33 | the nested loops build exactly the row-by-row enumeration, without touching `l` |
| NBody.PairsLength | pyperformance/nbody.py:26-33 | the result has `n(n-1)/2` pairs, and is empty exactly for lists of length 0 or 1 |
| NBody.RowsLength | pyperformance/nbody.py:29-32 | the first `m` rows hold `m(2n-m-1)/2` pairs |
| NBody.RowsAtPositions | pyperformance/nbody.py:29-32 | entry `k` of the first `m` rows is `(l[i], l[j])` with `i < m` and `i < j` |
| NBody.PairsAtPositions | pyperformance/nbody.py:29-32 | entry `k` is `(l[i], l[j])` for entry `(i, j)`, with `i < j`, of the enumeration of positions |
| NBody.RowsOrdered | pyperformance/nbody.py:29-32 | the position pairs of the first `m` rows strictly increase lexicographically |
| NBody.PairsOrdered | pyperformance/nbody.py:27-32 | the position pairs come ordered by `x` then `y`, as itertools.combinations orders them, so none repeats |
| NBody.PairsComplete | pyperformance/nbody.py:29-32 | every pair of positions `i < j` occurs |
| NBody.PairsMembers | pyperformance/nbody.py:29-32 | a pair is in the result iff it is `(l[i], l[j])` for some `i < j` |
| TpchUtils.GetTablePath | tpch/utils.py:10-12 | the path is the table root, `/`, the name and `.tbl` |
| TpchUtils.TablePathRoundTrip | tpch/utils.py:10-12 | the table name is recovered from its path |
| TpchUtils.TablePathInjective | tpch/utils.py:10-12 | two tables share a path iff they are the same table |
| TpchUtils.ReadParams | tpch/utils.py:15-55 | base parameters; `names == col_names + ["dummy"]` iff column names are given; `dtype` iff dtypes are given; `parse_dates` iff date columns are given and the mode is not cudf; the cudf call gets every key except `dtype_backend` and `parse_dates` |
| TpchUtils.Spaces | tpch/utils.py:259-262 | `k` blanks |
| TpchUtils.LJust | tpch/utils.py:249 | `ljust` keeps the text whole at the front and pads with blanks to `max(len, width)` |
| TpchUtils.RJust | tpch/utils.py:259 | `rjust` keeps the text whole at the end and pads with blanks in front to `max(len, width)` |
| TpchUtils.SplitJoin | tpch/utils.py:249-264 | joining parts without `|` by `|` and splitting gives the parts back |
| TpchUtils.FormatRow | tpch/utils.py:255-264 | the inner loop appends each formatted value and joins them with `|`, then a newline |
| TpchUtils.ExportLines | tpch/utils.py:247-265 | the file holds the header line followed by one line per data row |
| TpchUtils.HeaderFields | tpch/utils.py:249-250 | the header splits back into one field per column, each the name padded to at least 25 places |
| TpchUtils.RowLineFields | tpch/utils.py:253-265 | a row line splits back into one field per value: numbers right-aligned in at least 10 places, others left-aligned in at least 25, never truncated |

## Left out

- Floating point. Floats are reals, and no claim is made about IEEE rounding. This covers the FFT butterflies and twiddle factors after the bit reversal, and the values of SOR, LU and the sparse product. It also covers `advance`, `report_energy` and `offset_momentum` of the n-body benchmark.
- Square roots. `spline_length` and `gvector_mag` compute with square roots. The arc lengths are the `lengths` parameter of `ChaosInit`, and the magnitude is the `mag` parameter of `TransformPoint`.
- Random number generators and seeds:
  - Python's `random` in the chaos game and NumPy's generator in `scimark_numba.py` are parameters. They are `r` and `pick`, `rand`, and `draws`.
  - `random.seed`, `np.random.seed` and `MCState` are left out.
- Timing, printing and registration. The `bench_*` functions, `BENCHMARKS`, `write_ppm` (file output) and the Numba decorators are left out.
- The rest of `scimark.py` is not part of this model. That is `SOR_execute`, `SparseCompRow_matmult`, `MonteCarlo`, `LU`, `copy_vector`, `Random.RandomMatrix` and the FFT passes. Their Numba counterparts are modelled where they are integer or array logic.
- Fixed-width integers are unbounded here:
  - NumPy `int32` arrays: `num_trafos`, `row`, `col`, `pivot`;
  - the `uint8` raster.
- Out-of-range Numba indexing. Without bounds checks it is undefined, so the models require in-range indices where the source does not check them.
- TPC-H I/O. The `read_csv` calls, the dropping of the dummy column, date conversion, `to_pandas` and the file write of `export_df` are left out, as is `EXPORT_PATH`. The kind of each cell value, `isinstance(val, (int, float))`, is an input. The per-table loader functions and the query scripts are left out.
- Fft.BitReverse: requires `N // 2` to be a power of two (or at most one). For other lengths the inner `while k <= j` loop stops moving `k` at zero and never ends. Every caller checks the length with `int_log2` first.
- ScimarkNumba.FFTBitreverse: the same non-termination requirement as `Fft.BitReverse`.
- NQueens.Permutations: requires `r <= len(pool)`. With a larger `r` and a non-empty pool the Python generator yields a short first tuple and then raises IndexError. With an empty pool it yields `()` and stops, since `while n` ends at once.
- ChaosGame.CreateImageChaos: requires a non-empty raster when `iterations > 0`. With a zero width or height the compiled code writes the first pixel out of bounds without a check, which is undefined, so that case is not modelled.
- ChaosGame.ChaosInit: requires at least one well-formed spline. With none, the box stays at infinite bounds, which reals cannot express.
- ChaosGame.TransformPoint: the perpendicular displacement is not specified beyond what clamping guarantees. Only the z coordinate is tied to the spline value.
- ScimarkNumba.SORExecute: requires the grid to have at least as many columns as rows. Otherwise the sweep indexes columns that do not exist.
- ScimarkNumba.SparseCompRowMatmult: requires `y` to be a different array from `x` and `val`. Aliasing is not modelled.
- ScimarkNumba.SparseSetup: the all-zero arrays `x`, `y` and `val` of the benchmark are not built. `RowSumZero` states what their product is.
- ScimarkNumba.MonteCarlo: the result is the exact real quotient, not the float one.
- Scimark.Array2D.constructor: the optional `data` argument, which calls `setup`, is modelled by `Setup` separately.
