/** The discrete kernels of the pure-Python SciMark benchmark: the two
    two-dimensional array classes, the lagged-Fibonacci random number
    generator's integer state, the integer logarithm of the FFT and LU
    factorisation with partial pivoting (on the rows of an `ArrayList`). */
module Scimark {
  import opened Wrappers
  import opened Fft
  import opened LuSpec

  // ----- Array2D: a flat row-major buffer ----------------------------------

  /** `array("d", [0]) * (width * height)`: a negative count gives an empty
      buffer. */
  function Cells(width: int, height: int): nat
  {
    if width * height < 0 then 0 else width * height
  }

  /** Array2D._idx: the row-major offset of `(x, y)`, or IndexError outside
      the `width` by `height` grid. */
  function Idx(width: int, height: int, x: int, y: int): (r: Result<int>)
    ensures r.Success? <==> 0 <= x < width && 0 <= y < height
    ensures r.Success? ==> 0 <= r.value < width * height
    ensures r.Failure? ==> r.error == IndexError
  {
    if 0 <= x < width && 0 <= y < height then
      RowMajorBound(width, height, x, y);
      Success(y * width + x)
    else
      Failure(IndexError)
  }

  lemma RowMajorBound(w: int, h: int, x: int, y: int)
    requires 0 <= x < w && 0 <= y < h
    ensures 0 <= y * w + x < w * h
  {
    assert y * w <= (h - 1) * w;
  }

  /** The row-major offset splits back into its column and row. */
  lemma RowMajorDivMod(w: int, x: int, y: int)
    requires 0 <= x < w && 0 <= y
    ensures (y * w + x) / w == y && (y * w + x) % w == x
  {
    var a := y * w + x;
    var q := a / w;
    var rm := a % w;
    assert a == q * w + rm && 0 <= rm < w;
    var d := y - q;
    assert d * w == rm - x;
    assert d >= 1 ==> d * w >= w;
    assert d <= -1 ==> d * w <= -w;
  }

  /** Distinct cells have distinct offsets. */
  lemma IdxInjective(width: int, height: int, x: int, y: int, x': int, y': int)
    requires Idx(width, height, x, y).Success? && Idx(width, height, x', y').Success?
    ensures Idx(width, height, x, y) == Idx(width, height, x', y') <==> x == x' && y == y'
  {
    RowMajorDivMod(width, x, y);
    RowMajorDivMod(width, x', y');
  }

  /** Array2D.__getitem__ on a buffer: IndexError outside the grid, and also
      when the buffer is shorter than the grid (after copy_data_from from a
      smaller array). */
  function Read(data: seq<real>, width: int, height: int, x: int, y: int): (r: Result<real>)
    ensures r.Success? <==> Idx(width, height, x, y).Success? && y * width + x < |data|
    ensures r.Success? ==> r.value == data[y * width + x]
    ensures r.Failure? ==> r.error == IndexError
  {
    match Idx(width, height, x, y)
    case Failure(e) => Failure(e)
    case Success(k) => if k < |data| then Success(data[k]) else Failure(IndexError)
  }

  /** After a successful write of `v` at `(x, y)`, `(x, y)` reads `v` and every
      other cell reads what it read before. */
  lemma ReadAfterWrite(data: seq<real>, width: int, height: int, x: int, y: int, v: real, x': int, y': int)
    requires Read(data, width, height, x, y).Success?
    ensures var d := data[y * width + x := v];
            Read(d, width, height, x', y') ==
              (if x' == x && y' == y then Success(v) else Read(data, width, height, x', y'))
  {
    if Idx(width, height, x', y').Success? {
      IdxInjective(width, height, x, y, x', y');
    }
  }

  /** The cells of a `width` by `height` grid in the order of Array2D.indexes:
      `y` outer, `x` inner. */
  function RowMajor(width: int, height: int): (r: seq<(int, int)>)
    ensures |r| == (if width <= 0 || height <= 0 then 0 else width * height)
  {
    if width <= 0 || height <= 0 then []
    else seq(width * height, k requires 0 <= k < width * height => (k % width, k / width))
  }

  /** Cell `(x, y)` sits in `RowMajor` at its row-major offset. */
  lemma RowMajorAt(width: int, height: int, x: int, y: int)
    requires 0 <= x < width && 0 <= y < height
    ensures y * width + x < |RowMajor(width, height)| && RowMajor(width, height)[y * width + x] == (x, y)
  {
    RowMajorBound(width, height, x, y);
    RowMajorDivMod(width, x, y);
  }

  /** Entry `k` of `RowMajor` is a cell of the grid whose offset is `k`. */
  lemma RowMajorEntry(width: int, height: int, k: int)
    requires 0 <= k < |RowMajor(width, height)|
    ensures var c := RowMajor(width, height)[k]; Idx(width, height, c.0, c.1) == Success(k)
  {
    var y := k / width;
    assert k == y * width + k % width;
    assert y >= height ==> y * width >= height * width;
  }

  class Array2D {
    var width: int
    var height: int
    var data: seq<real>

    /** The buffer holds one value per cell. */
    ghost predicate Valid()
      reads this
    {
      |data| == Cells(width, height)
    }

    /** Array2D(width, height): a zero-filled buffer. */
    constructor (width: int, height: int)
      ensures this.width == width && this.height == height
      ensures data == seq(Cells(width, height), _ => 0.0)
      ensures Valid()
    {
      this.width := width;
      this.height := height;
      data := seq(Cells(width, height), _ => 0.0);
    }

    /** __getitem__((x, y)). */
    function Get(x: int, y: int): (r: Result<real>)
      reads this
      ensures r == Read(data, width, height, x, y)
    {
      Read(data, width, height, x, y)
    }

    /** __setitem__((x, y), val): writes the one cell at the row-major offset,
        or raises IndexError and changes nothing. */
    method Set(x: int, y: int, val: real) returns (r: Result<()>)
      modifies this
      ensures width == old(width) && height == old(height)
      ensures r.Success? <==> Read(old(data), width, height, x, y).Success?
      ensures r.Success? ==> data == old(data)[y * width + x := val]
      ensures r.Failure? ==> r.error == IndexError && data == old(data)
    {
      var k := Idx(width, height, x, y);
      if k.Failure? || k.value >= |data| {
        return Failure(IndexError);
      }
      data := data[k.value := val];
      return Success(());
    }

    /** indexes(): every cell, `y` outer and `x` inner. */
    method Indexes() returns (r: seq<(int, int)>)
      ensures r == RowMajor(width, height)
    {
      r := [];
      if width <= 0 || height <= 0 {
        return;
      }
      var y := 0;
      while y < height
        invariant 0 <= y <= height
        invariant |r| == y * width
        invariant forall k :: 0 <= k < |r| ==> r[k] == (k % width, k / width)
      {
        var x := 0;
        while x < width
          invariant 0 <= x <= width
          invariant |r| == y * width + x
          invariant forall k :: 0 <= k < |r| ==> r[k] == (k % width, k / width)
        {
          RowMajorDivMod(width, x, y);
          r := r + [(x, y)];
          x := x + 1;
        }
        y := y + 1;
      }
      assert |r| == width * height;
    }

    /** setup(data): stores `rows[y][x]` at `(x, y)`, row by row.  The rows
        are read only when the grid has cells; a missing row or a short row
        raises IndexError after the cells before it were written, so exactly
        the `Written` cells hold their row's value and the rest are kept. */
    method Setup(rows: seq<seq<real>>) returns (r: Result<()>)
      requires Valid()
      modifies this
      ensures Valid() && width == old(width) && height == old(height)
      ensures r.Success? <==> RowsCover(rows, width, height)
      ensures r.Failure? ==> r.error == IndexError
      ensures forall x, y :: 0 <= x < width && 0 <= y < height ==>
                Read(data, width, height, x, y) ==
                  if Written(rows, width, x, y) then Success(rows[y][x]) else Read(old(data), width, height, x, y)
      ensures r.Success? ==> forall x, y :: 0 <= x < width && 0 <= y < height ==>
                Read(data, width, height, x, y) == Success(rows[y][x])
    {
      var y := 0;
      while y < height
        invariant Valid() && width == old(width) && height == old(height)
        invariant 0 <= y && (height >= 0 ==> y <= height)
        invariant RowsCover(rows, width, y)
        invariant forall xx, yy :: 0 <= xx < width && 0 <= yy < height ==>
                    Read(data, width, height, xx, yy) ==
                      if yy < y then Success(rows[yy][xx]) else Read(old(data), width, height, xx, yy)
      {
        if 0 < width {
          if y >= |rows| {
            return Failure(IndexError);
          }
          ghost var before := data;
          var ok := SetupRow(rows[y], y);
          if !ok {
            return Failure(IndexError);
          }
          forall xx, yy | 0 <= xx < width && 0 <= yy < height
            ensures Read(data, width, height, xx, yy) ==
                      if yy < y + 1 then Success(rows[yy][xx]) else Read(old(data), width, height, xx, yy)
          {
            if yy != y {
              assert Read(data, width, height, xx, yy) == Read(before, width, height, xx, yy);
            }
          }
        }
        y := y + 1;
      }
      return Success(());
    }

    /** One pass of setup's inner loop: row `y` of the grid receives `row`,
        cell by cell, until the row runs out (IndexError).  Every other cell
        keeps its value. */
    method SetupRow(row: seq<real>, y: int) returns (ok: bool)
      requires Valid() && 0 <= y < height && 0 < width
      modifies this
      ensures Valid() && width == old(width) && height == old(height)
      ensures ok <==> width <= |row|
      ensures forall xx, yy :: 0 <= xx < width && 0 <= yy < height ==>
                Read(data, width, height, xx, yy) ==
                  if yy == y && xx < |row| then Success(row[xx]) else Read(old(data), width, height, xx, yy)
    {
      var x := 0;
      while x < width
        invariant Valid() && width == old(width) && height == old(height)
        invariant 0 <= x <= width && x <= |row|
        invariant forall xx, yy :: 0 <= xx < width && 0 <= yy < height ==>
                    Read(data, width, height, xx, yy) ==
                      if yy == y && xx < x then Success(row[xx]) else Read(old(data), width, height, xx, yy)
      {
        if x >= |row| {
          return false;
        }
        RowMajorBound(width, height, x, y);
        WriteAll(data, width, height, x, y, row[x]);
        ghost var before := data;
        data := data[y * width + x := row[x]];
        forall xx, yy | 0 <= xx < width && 0 <= yy < height
          ensures Read(data, width, height, xx, yy) ==
                    if yy == y && xx < x + 1 then Success(row[xx]) else Read(old(data), width, height, xx, yy)
        {
          if xx != x || yy != y {
            assert Read(data, width, height, xx, yy) == Read(before, width, height, xx, yy);
          }
        }
        x := x + 1;
      }
      return true;
    }

    /** copy_data_from(other): the buffer becomes a copy of the other's. */
    method CopyDataFrom(other: Array2D)
      modifies this
      ensures width == old(width) && height == old(height)
      ensures data == old(other.data)
    {
      data := other.data;
    }
  }

  /** The rows reach every cell of a `width` by `height` grid (no row is read
      when the grid has no cells). */
  predicate RowsCover(rows: seq<seq<real>>, width: int, height: int)
  {
    width <= 0 || height <= 0 || (height <= |rows| && forall y :: 0 <= y < height ==> width <= |rows[y]|)
  }

  /** Cell `(x, y)` is written by setup: every row above `y` is long enough,
      and row `y` exists and reaches column `x`. */
  predicate Written(rows: seq<seq<real>>, width: int, x: int, y: int)
  {
    RowsCover(rows, width, y) && 0 <= y < |rows| && x < |rows[y]|
  }

  /** `ReadAfterWrite` for every cell at once. */
  lemma WriteAll(data: seq<real>, width: int, height: int, x: int, y: int, v: real)
    requires Read(data, width, height, x, y).Success?
    ensures forall x', y' :: Read(data[y * width + x := v], width, height, x', y') ==
              (if x' == x && y' == y then Success(v) else Read(data, width, height, x', y'))
  {
    forall x', y' ensures Read(data[y * width + x := v], width, height, x', y') ==
              (if x' == x && y' == y then Success(v) else Read(data, width, height, x', y'))
    {
      ReadAfterWrite(data, width, height, x, y, v, x', y');
    }
  }

  // ----- ArrayList: a list of row buffers ---------------------------------

  /** Python's index into a sequence of length `n`: negative indices count
      from the end; anything else outside the sequence is an IndexError. */
  function PyIndex(n: int, i: int): (r: Result<nat>)
    ensures r.Success? <==> -n <= i < n
    ensures r.Success? ==> r.value < n && (r.value == i || r.value == i + n)
    ensures r.Failure? ==> r.error == IndexError
  {
    if 0 <= i < n then Success(i)
    else if -n <= i < 0 then Success(i + n)
    else Failure(IndexError)
  }

  /** `array("d", [0]) * width`. */
  function Zeros(width: int): (z: seq<real>)
    ensures |z| == (if width < 0 then 0 else width)
    ensures forall k :: 0 <= k < |z| ==> z[k] == 0.0
  {
    seq(if width < 0 then 0 else width, _ => 0.0)
  }

  class ArrayList {
    var width: int
    var height: int
    var data: seq<seq<real>>

    /** Every row is a buffer of `width` values and there are `height` rows. */
    ghost predicate Valid()
      reads this
    {
      width >= 0 && height >= 0 && |data| == height && forall y :: 0 <= y < height ==> |data[y]| == width
    }

    /** ArrayList(width, height): `height` zero rows of `width` values. */
    constructor (width: int, height: int)
      ensures this.width == width && this.height == height
      ensures data == seq(if height < 0 then 0 else height, _ => Zeros(width))
      ensures width >= 0 && height >= 0 ==> Valid()
    {
      this.width := width;
      this.height := height;
      data := seq(if height < 0 then 0 else height, _ => Zeros(width));
    }

    /** __getitem__((x, y)): `data[y][x]` with Python's indexing, so negative
        coordinates count from the end of the row list and of the row. */
    function GetCell(x: int, y: int): (r: Result<real>)
      reads this
      ensures r.Success? <==> -|data| <= y < |data| && -|data[PyIndex(|data|, y).value]| <= x < |data[PyIndex(|data|, y).value]|
      ensures r.Success? ==> var row := data[PyIndex(|data|, y).value];
                             r.value == row[PyIndex(|row|, x).value]
      ensures r.Failure? ==> r.error == IndexError
    {
      match PyIndex(|data|, y)
      case Failure(e) => Failure(e)
      case Success(yy) =>
        match PyIndex(|data[yy]|, x)
        case Failure(e) => Failure(e)
        case Success(xx) => Success(data[yy][xx])
    }

    /** __getitem__(i): the row `data[i]`. */
    function GetRow(i: int): (r: Result<seq<real>>)
      reads this
      ensures r.Success? <==> -|data| <= i < |data|
      ensures r.Success? ==> r.value == data[PyIndex(|data|, i).value]
    {
      match PyIndex(|data|, i)
      case Failure(e) => Failure(e)
      case Success(k) => Success(data[k])
    }

    /** __setitem__((x, y), val): writes one cell of one row. */
    method SetCell(x: int, y: int, val: real) returns (r: Result<()>)
      modifies this
      ensures width == old(width) && height == old(height)
      ensures r.Success? <==> old(GetCell(x, y)).Success?
      ensures r.Success? ==>
                var yy := PyIndex(|old(data)|, y).value;
                var xx := PyIndex(|old(data)[yy]|, x).value;
                data == old(data)[yy := old(data)[yy][xx := val]]
      ensures r.Failure? ==> r.error == IndexError && data == old(data)
    {
      var yy := PyIndex(|data|, y);
      if yy.Failure? {
        return Failure(IndexError);
      }
      var xx := PyIndex(|data[yy.value]|, x);
      if xx.Failure? {
        return Failure(IndexError);
      }
      data := data[yy.value := data[yy.value][xx.value := val]];
      return Success(());
    }

    /** __setitem__(i, row): replaces a whole row. */
    method SetRow(i: int, row: seq<real>) returns (r: Result<()>)
      modifies this
      ensures width == old(width) && height == old(height)
      ensures r.Success? <==> -|old(data)| <= i < |old(data)|
      ensures r.Success? ==> data == old(data)[PyIndex(|old(data)|, i).value := row]
      ensures r.Failure? ==> r.error == IndexError && data == old(data)
    {
      var k := PyIndex(|data|, i);
      if k.Failure? {
        return Failure(IndexError);
      }
      data := data[k.value := row];
      return Success(());
    }

    /** copy_data_from(other): `zip` pairs the rows up to the shorter list and
        overwrites each of this list's rows with a copy of the other's; rows
        past the shorter length are left alone. */
    method CopyDataFrom(other: ArrayList)
      modifies this
      ensures width == old(width) && height == old(height)
      ensures var n := if |old(data)| < |old(other.data)| then |old(data)| else |old(other.data)|;
              data == old(other.data)[..n] + old(data)[n..]
    {
      var src := other.data;
      var n := if |data| < |src| then |data| else |src|;
      var k := 0;
      while k < n
        invariant 0 <= k <= n && |data| == |old(data)| && src == old(other.data)
        invariant width == old(width) && height == old(height)
        invariant data == src[..k] + old(data)[k..]
      {
        data := data[k := src[k]];
        k := k + 1;
      }
    }
  }

  /** The copied prefix comes from the other list and the rest is kept: when
      both lists have the same number of rows the copy is exact. */
  lemma CopyEqualHeights(mine: seq<seq<real>>, theirs: seq<seq<real>>)
    requires |mine| == |theirs|
    ensures theirs[..|mine|] + mine[|mine|..] == theirs
  {
  }

  // ----- Random: the lagged-Fibonacci generator ----------------------------

  /** `m1 = (1 << 30) + ((1 << 30) - 1)`, i.e. 2^31 - 1. */
  const M1: int := 2147483647
  /** `m2 = ONE << MDIG // 2`: `//` binds tighter than `<<`, so 1 << 16. */
  const M2: int := 65536

  /** The starting `jseed` of Random.initialize: `min(|seed|, m1)`, made odd
      by subtracting one (so a zero seed gives -1). */
  function JSeed(seed: int): int
  {
    var a := if seed < 0 then -seed else seed;
    var js := if a < M1 then a else M1;
    if js % 2 == 0 then js - 1 else js
  }

  /** One round of the seeding loop on `(j0, j1)`, with `k0 = 9069 % m2` and
      `k1 = 9069 // m2`.  Python's `//` and `%` with a positive divisor agree
      with Dafny's. */
  function SeedStep(j0: int, j1: int): (int, int)
  {
    var k0 := 9069 % M2;
    var k1 := 9069 / M2;
    var jseed := j0 * k0;
    ((jseed % M2), (jseed / M2 + j0 * k1 + j1 * k0) % (M2 / 2))
  }

  /** `(j0, j1)` after `n` rounds. */
  function SeedState(j0: int, j1: int, n: nat): (int, int)
  {
    if n == 0 then (j0, j1) else var p := SeedState(j0, j1, n - 1); SeedStep(p.0, p.1)
  }

  /** Table entry `k` of a seed: `j0 + m2 * j1` after round `k`. */
  function TableEntry(seed: int, k: nat): int
  {
    var js := JSeed(seed);
    var p := SeedState(js % M2, js / M2, k + 1);
    p.0 + M2 * p.1
  }

  /** Every table entry lies in `[0, m1]`. */
  lemma TableEntryRange(seed: int, k: nat)
    ensures 0 <= TableEntry(seed, k) <= M1
  {
    var js := JSeed(seed);
    var p := SeedState(js % M2, js / M2, k);
    var q := SeedStep(p.0, p.1);
    assert 0 <= q.0 < M2 && 0 <= q.1 < M2 / 2;
  }

  /** The generator state that nextDouble reads and writes. */
  datatype RandomState = RandomState(m: seq<int>, i: int, j: int)

  /** The generator invariant: 17 entries in `[0, m1]`, both cursors in
      `[0, 16]`, `j` twelve places after `i` modulo 17. */
  predicate Inv(st: RandomState)
  {
    |st.m| == 17 && 0 <= st.i <= 16 && 0 <= st.j <= 16 && (st.j - st.i) % 17 == 12
    && forall k :: 0 <= k < 17 ==> 0 <= st.m[k] <= M1
  }

  /** `k = m[I] - m[J]`, plus `m1` when negative. */
  function Draw(st: RandomState): int
    requires 0 <= st.i < |st.m| && 0 <= st.j < |st.m|
  {
    var k := st.m[st.i] - st.m[st.j];
    if k < 0 then k + M1 else k
  }

  /** A cursor moves down by one and wraps from 0 to 16. */
  function Down(c: int): int
  {
    if c == 0 then 16 else c - 1
  }

  /** nextDouble's update of the state. */
  function Next(st: RandomState): RandomState
    requires 0 <= st.i < |st.m| && 0 <= st.j < |st.m|
  {
    RandomState(st.m[st.j := Draw(st)], Down(st.i), Down(st.j))
  }

  /** nextDouble keeps the invariant, and each draw lies in `[0, m1]`. */
  lemma NextKeepsInv(st: RandomState)
    requires Inv(st)
    ensures 0 <= Draw(st) <= M1
    ensures Inv(Next(st))
  {
    var n := Next(st);
    assert (n.j - n.i) % 17 == 12 by {
      var d := st.j - st.i;
      var e := n.j - n.i;
      assert e == d || e == d + 17 || e == d - 17;
    }
  }

  /** The state after `k` calls of nextDouble. */
  function Steps(st: RandomState, k: nat): (r: RandomState)
    requires Inv(st)
    ensures Inv(r)
    decreases k
  {
    if k == 0 then st
    else
      var p := Steps(st, k - 1);
      NextKeepsInv(p);
      Next(p)
  }

  /** The value nextDouble returns from state `st` when no range is set. */
  function Unit(st: RandomState): real
    requires Inv(st)
  {
    (1.0 / M1 as real) * Draw(st) as real
  }

  /** The first `n` values nextDouble returns from state `st`, no range set. */
  function Draws(st: RandomState, n: nat): (r: seq<real>)
    requires Inv(st)
    ensures |r| == n
    decreases n
  {
    if n == 0 then [] else Draws(st, n - 1) + [Unit(Steps(st, n - 1))]
  }

  /** Value `k` of the draws is the one taken from the state after `k` steps,
      and it lies in `[0, 1]`. */
  lemma {:induction false} DrawsAt(st: RandomState, n: nat)
    requires Inv(st)
    ensures forall k :: 0 <= k < n ==> Draws(st, n)[k] == Unit(Steps(st, k))
    ensures forall k :: 0 <= k < n ==> 0.0 <= Draws(st, n)[k] <= 1.0
    decreases n
  {
    if n > 0 {
      DrawsAt(st, n - 1);
      UnitInRange(Steps(st, n - 1));
      forall k | 0 <= k < n - 1 ensures Draws(st, n)[k] == Draws(st, n - 1)[k] {
      }
    }
  }

  /** Every value drawn without a range lies in `[0, 1]`. */
  lemma UnitInRange(st: RandomState)
    requires Inv(st)
    ensures 0.0 <= Unit(st) <= 1.0
  {
    NextKeepsInv(st);
    UnitDraw(Draw(st));
  }

  /** The two cursors never meet, so nextDouble reads `m[I]` from a slot
      other than the one it writes. */
  lemma CursorsApart(st: RandomState)
    requires Inv(st)
    ensures st.i != st.j
  {
  }

  /** `dm1 * k` for `k` in `[0, m1]` lies in `[0, 1]`. */
  lemma UnitDraw(k: int)
    requires 0 <= k <= M1
    ensures 0.0 <= (1.0 / M1 as real) * (k as real) <= 1.0
  {
    assert (1.0 / M1 as real) * (k as real) == (k as real) / (M1 as real);
  }

  class Random {
    var seed: int
    var m: seq<int>
    var i: int
    var j: int
    var left: real
    var right: real
    var width: real
    var haveRange: bool

    function State(): RandomState
      reads this
    {
      RandomState(m, i, j)
    }

    ghost predicate Valid()
      reads this
    {
      Inv(State())
    }

    /** Random(seed): seeds the table and sets the unit range, which is never
        switched on (`haveRange` stays false). */
    constructor (seed: int)
      ensures Valid() && this.seed == seed && !haveRange
      ensures m == seq(17, k requires 0 <= k < 17 => TableEntry(seed, k)) && i == 4 && j == 16
    {
      this.seed := seed;
      m := [];
      i := 0;
      j := 0;
      left := 0.0;
      right := 1.0;
      width := 1.0;
      haveRange := false;
      new;
      Initialize(seed);
    }

    /** initialize(seed): seventeen rounds of the multiplicative seeding,
        each storing `j0 + m2 * j1`; then `i = 4`, `j = 16`. */
    method Initialize(seed: int)
      modifies this
      ensures Valid() && this.seed == seed
      ensures m == seq(17, k requires 0 <= k < 17 => TableEntry(seed, k)) && i == 4 && j == 16
      ensures left == old(left) && right == old(right) && width == old(width) && haveRange == old(haveRange)
    {
      this.seed := seed;
      var jseed := JSeed(seed);
      var k0 := 9069 % M2;
      var k1 := 9069 / M2;
      var j0 := jseed % M2;
      var j1 := jseed / M2;
      ghost var js := jseed;
      var table := seq(17, _ => 0);
      var iloop := 0;
      while iloop < 17
        invariant 0 <= iloop <= 17 && |table| == 17
        invariant (j0, j1) == SeedState(js % M2, js / M2, iloop)
        invariant forall k :: 0 <= k < iloop ==> table[k] == TableEntry(seed, k)
      {
        jseed := j0 * k0;
        j1 := (jseed / M2 + j0 * k1 + j1 * k0) % (M2 / 2);
        j0 := jseed % M2;
        table := table[iloop := j0 + M2 * j1];
        iloop := iloop + 1;
      }
      m := table;
      i := 4;
      j := 16;
      forall k | 0 <= k < 17 ensures 0 <= m[k] <= M1 {
        TableEntryRange(seed, k);
      }
    }

    /** nextDouble(): one lagged-Fibonacci step; the value is `dm1 * k`. */
    method NextDouble() returns (x: real)
      requires Valid()
      modifies this
      ensures Valid() && State() == Next(old(State()))
      ensures seed == old(seed) && haveRange == old(haveRange)
      ensures left == old(left) && right == old(right) && width == old(width)
      ensures var k := Draw(old(State())) as real;
              x == if haveRange then left + (1.0 / M1 as real) * k * width else (1.0 / M1 as real) * k
    {
      NextKeepsInv(State());
      var I, J := i, j;
      var k := m[I] - m[J];
      if k < 0 {
        k := k + M1;
      }
      m := m[J := k];
      if I == 0 {
        I := 16;
      } else {
        I := I - 1;
      }
      i := I;
      if J == 0 {
        J := 16;
      } else {
        J := J - 1;
      }
      j := J;
      var dm1 := 1.0 / M1 as real;
      x := if haveRange then left + dm1 * k as real * width else dm1 * k as real;
    }

    /** RandomVector(n): `n` successive draws; entry `k` is the value of the
        `k`-th call of nextDouble, and the generator ends `n` steps on. */
    method RandomVector(n: int) returns (v: seq<real>)
      requires Valid() && !haveRange
      modifies this
      ensures Valid() && !haveRange && seed == old(seed)
      ensures |v| == (if n < 0 then 0 else n)
      ensures State() == Steps(old(State()), |v|)
      ensures v == Draws(old(State()), |v|)
      ensures forall k :: 0 <= k < |v| ==> v[k] == Unit(Steps(old(State()), k))
      ensures forall k :: 0 <= k < |v| ==> 0.0 <= v[k] <= 1.0
    {
      ghost var st0 := State();
      v := [];
      var c := 0;
      while c < n
        invariant Valid() && !haveRange && seed == old(seed)
        invariant 0 <= c && c <= (if n < 0 then 0 else n)
        invariant State() == Steps(st0, c)
        invariant v == Draws(st0, c)
      {
        ghost var st := State();
        NextKeepsInv(st);
        var x := NextDouble();
        assert x == Unit(st);
        v := v + [x];
        c := c + 1;
      }
      DrawsAt(st0, |v|);
    }
  }

  // ----- int_log2 ------------------------------------------------------------

  /** int_log2(n): the least `log` with `2^log >= n`, returned when `n` is
      exactly `2^log` and an exception otherwise (also for `n <= 0`). */
  method IntLog2(n: int) returns (r: Result<nat>)
    ensures r.Success? <==> IsPow2(n)
    ensures r.Success? ==> Pow2(r.value) == n
    ensures r.Failure? ==> r.error == NotPowerOfTwo
  {
    var log := Log2Ceil(n);
    Log2CeilOfPow2(n, log);
    if n != Pow2(log) {
      return Failure(NotPowerOfTwo);
    }
    return Success(log);
  }

  // ----- LU_factor -----------------------------------------------------------

  /** The rows of a well-formed ArrayList form a `height` by `width` matrix. */
  lemma ValidRect(A: ArrayList)
    requires A.Valid()
    ensures Rect(A.data, A.height, A.width)
  {
  }

  /** LU_factor(A, pivot): for each of the `min(M, N)` columns, the pivot
      search, `pivot[j] = jp` (IndexError past the end of `pivot`), the zero
      pivot exception, the row swap, the column scaling when `j < M - 1` and
      the trailing update when `j < minMN - 1`.  The rows, the pivots stored
      and the exception are those of `Factor` under the exact zero test; the
      rest of `pivot` is untouched. */
  method LUFactor(A: ArrayList, pivot: array<int>) returns (r: Result<()>)
    requires A.Valid()
    modifies A, pivot
    ensures A.width == old(A.width) && A.height == old(A.height)
    ensures Reports(Factor(old(A.data), A.width, 0, ExactZero, pivot.Length), A.data, pivot[..], old(pivot[..]), r)
  {
    var minMN := if A.height < A.width then A.height else A.width;
    ValidRect(A);
    StartTracks(A.data, A.width, ExactZero, pivot[..]);
    r := FactorColumns(A, pivot, 0, minMN, Factor(A.data, A.width, 0, ExactZero, pivot.Length), pivot[..]);
  }

  /** The column loop of LU_factor from column `j0` on, against the outcome
      `total` of the whole factorisation and the initial contents `oldPiv`
      of `pivot`. */
  method FactorColumns(A: ArrayList, pivot: array<int>, j0: int, minMN: int, ghost total: Outcome, ghost oldPiv: seq<int>)
    returns (r: Result<()>)
    requires A.Valid() && minMN == Min(A.height, A.width) && 0 <= j0 <= minMN
    requires Tracks(total, A.data, A.width, j0, ExactZero, pivot[..], oldPiv)
    modifies A, pivot
    ensures A.width == old(A.width) && A.height == old(A.height)
    ensures Reports(total, A.data, pivot[..], oldPiv, r)
  {
    var j := j0;
    while j < minMN
      invariant A.Valid() && A.width == old(A.width) && A.height == old(A.height)
      invariant 0 <= j <= minMN && Tracks(total, A.data, A.width, j, ExactZero, pivot[..], oldPiv)
    {
      var stop := FactorColumn(A, pivot, j, minMN, total, oldPiv);
      if stop.Some? {
        return Failure(stop.value);
      }
      j := j + 1;
    }
    FinishColumns(total, A.data, A.width, j, ExactZero, pivot[..], oldPiv);
    return Success(());
  }

  /** Column `j` of LU_factor: the pivot search, `pivot[j] = jp` (IndexError
      past the end of `pivot`), the zero pivot exception, then the column
      step.  Either the factorisation goes on from column `j + 1` with one
      more pivot stored, or the call stops with what `Factor` reports. */
  method FactorColumn(A: ArrayList, pivot: array<int>, j: int, minMN: int, ghost total: Outcome, ghost oldPiv: seq<int>)
    returns (stop: Option<Error>)
    requires A.Valid() && minMN == Min(A.height, A.width) && 0 <= j < minMN
    requires Tracks(total, A.data, A.width, j, ExactZero, pivot[..], oldPiv)
    modifies A, pivot
    ensures A.Valid() && A.width == old(A.width) && A.height == old(A.height)
    ensures stop.None? ==> Tracks(total, A.data, A.width, j + 1, ExactZero, pivot[..], oldPiv)
    ensures stop.Some? ==> Reports(total, A.data, pivot[..], oldPiv, Failure(stop.value))
  {
    ValidRect(A);
    var jp := PivotSearch(A, j);
    if j >= pivot.Length {
      Stops(total, pivot[..j], A.data, [], Some(IndexError), pivot[..], oldPiv);
      return Some(IndexError);
    }
    ghost var done := pivot[..j];
    pivot[j] := jp;
    assert pivot[..j + 1] == done + [jp];
    if A.data[jp][j] == 0.0 {
      Stops(total, done, A.data, [jp], Some(FactorizationError), pivot[..], oldPiv);
      return Some(FactorizationError);
    }
    Advance(A, j, jp, minMN, pivot.Length, done, total);
    assert pivot[..][..j + 1] == pivot[..j + 1];
    return None;
  }

  /** An accepted pivot advances the factorisation by one column. */
  method Advance(A: ArrayList, j: int, jp: int, minMN: int, ghost cap: int, ghost done: seq<int>, ghost total: Outcome)
    requires A.Valid() && 0 <= j < minMN && j < cap && minMN == Min(A.height, A.width)
    requires Rect(A.data, A.height, A.width) && HasColumn(A.data, j) && jp == Pivot(A.data, j)
    requires A.data[jp][j] != 0.0
    requires total == Prepend(done, Factor(A.data, A.width, j, ExactZero, cap))
    modifies A
    ensures A.Valid() && A.width == old(A.width) && A.height == old(A.height)
    ensures Rect(A.data, A.height, A.width)
    ensures total == Prepend(done + [jp], Factor(A.data, A.width, j + 1, ExactZero, cap))
  {
    ghost var before := A.data;
    ColumnStep(A, j, jp, minMN);
    FactorStep(before, A.width, j, ExactZero, cap, done, total);
  }

  /** One accepted column: the row swap when `jp != j`, the column scaling
      when `j < M - 1` and the trailing update when `j < minMN - 1`. */
  method ColumnStep(A: ArrayList, j: int, jp: int, minMN: int)
    requires A.Valid() && 0 <= j <= jp < A.height && j < A.width && minMN == Min(A.height, A.width)
    requires A.data[jp][j] != 0.0
    modifies A
    ensures A.Valid() && A.width == old(A.width) && A.height == old(A.height)
    ensures Rect(old(A.data), A.height, A.width) && A.data == Update(old(A.data), A.width, j, jp)
  {
    ValidRect(A);
    if jp != j {
      SwapPivotRow(A, j, jp);
    }
    assert A.data == SwapRows(old(A.data), j, jp);
    if j < A.height - 1 {
      ScaleBelow(A, j);
    }
    if j < minMN - 1 {
      EliminateBelow(A, j);
    }
  }

  /** The pivot search of LU_factor: the first row at or below `j` of
      largest magnitude in column `j`, found by one scan with a strict `>`. */
  method PivotSearch(A: ArrayList, j: int) returns (jp: int)
    requires A.Valid() && 0 <= j < A.height && j < A.width
    ensures HasColumn(A.data, j) && jp == Pivot(A.data, j)
  {
    ValidRect(A);
    jp := j;
    var t := Abs(A.data[j][j]);
    var i := j + 1;
    while i < A.height
      invariant j + 1 <= i <= A.height
      invariant j <= jp < A.height && t == Abs(A.data[jp][j])
      invariant PivotScan(A.data, j, i, jp) == Pivot(A.data, j)
    {
      var ab := Abs(A.data[i][j]);
      if ab > t {
        jp := i;
        t := ab;
      }
      i := i + 1;
    }
  }

  /** `A[j], A[jp] = A[jp], A[j]`: both rows are read, then written back
      crosswise through ArrayList.__setitem__. */
  method SwapPivotRow(A: ArrayList, j: int, jp: int)
    requires A.Valid() && 0 <= j < A.height && 0 <= jp < A.height
    modifies A
    ensures A.Valid() && A.width == old(A.width) && A.height == old(A.height)
    ensures A.data == SwapRows(old(A.data), j, jp)
  {
    var rowJp := A.GetRow(jp);
    var rowJ := A.GetRow(j);
    var r1 := A.SetRow(j, rowJp.value);
    var r2 := A.SetRow(jp, rowJ.value);
  }

  /** The column scaling: `A[k][j] *= recp` for every row `k` below `j`,
      with `recp = 1 / A[j][j]`. */
  method ScaleBelow(A: ArrayList, j: int)
    requires A.Valid() && 0 <= j < A.height && j < A.width && A.data[j][j] != 0.0
    modifies A
    ensures A.Valid() && A.width == old(A.width) && A.height == old(A.height)
    ensures HasColumn(old(A.data), j) && A.data == ScaleColumn(old(A.data), j)
  {
    ValidRect(A);
    var recp := 1.0 / A.data[j][j];
    ScaleRows(A, j, recp);
    ghost var T := ScaleColumn(old(A.data), j);
    assert forall r :: 0 <= r < |A.data| ==> A.data[r] == T[r];
  }

  /** The loop of the column scaling, for a given factor `recp`. */
  method ScaleRows(A: ArrayList, j: int, recp: real)
    requires A.Valid() && 0 <= j < A.height && j < A.width
    modifies A
    ensures A.Valid() && A.width == old(A.width) && A.height == old(A.height)
    ensures |A.data| == |old(A.data)|
    ensures forall r :: 0 <= r < |A.data| ==>
              A.data[r] == if j < r then ScaleRow(old(A.data)[r], j, recp) else old(A.data)[r]
  {
    var k := j + 1;
    while k < A.height
      invariant j + 1 <= k <= A.height
      invariant A.Valid() && A.width == old(A.width) && A.height == old(A.height)
      invariant |A.data| == |old(A.data)|
      invariant forall r :: 0 <= r < |A.data| ==>
                  A.data[r] == if j < r < k then ScaleRow(old(A.data)[r], j, recp) else old(A.data)[r]
    {
      ghost var before := A.data;
      assert before[k] == old(A.data)[k];
      var scaled := A.data[k][j := A.data[k][j] * recp];
      ScaleRowIs(before[k], j, recp);
      A.data := A.data[k := scaled];
      forall r | 0 <= r < |A.data|
        ensures A.data[r] == if j < r < k + 1 then ScaleRow(old(A.data)[r], j, recp) else old(A.data)[r]
      {
        if r == k {
          assert A.data[r] == scaled;
        } else {
          assert A.data[r] == before[r];
        }
      }
      k := k + 1;
    }
  }

  /** The trailing update: for every row `ii` below `j`,
      `A[ii][jj] -= A[ii][j] * A[j][jj]` for the columns `jj` right of `j`. */
  method EliminateBelow(A: ArrayList, j: int)
    requires A.Valid() && 0 <= j && j + 1 < A.height && j + 1 < A.width
    modifies A
    ensures A.Valid() && A.width == old(A.width) && A.height == old(A.height)
    ensures Rect(old(A.data), A.height, A.width) && A.data == Eliminate(old(A.data), j, A.width)
  {
    ValidRect(A);
    var ii := j + 1;
    while ii < A.height
      invariant j + 1 <= ii <= A.height
      invariant A.Valid() && A.width == old(A.width) && A.height == old(A.height)
      invariant |A.data| == |old(A.data)|
      invariant forall r :: 0 <= r < |A.data| ==>
                  A.data[r] == if j < r < ii then ElimRowUpTo(old(A.data)[r], old(A.data)[j], j, A.width)
                               else old(A.data)[r]
    {
      ElimRow(A, ii, j);
      ii := ii + 1;
    }
    assert A.data == Eliminate(old(A.data), j, A.width);
  }

  /** The inner loop of the trailing update, on row `ii`. */
  method ElimRow(A: ArrayList, ii: int, j: int)
    requires A.Valid() && 0 <= j < ii < A.height && j < A.width
    modifies A
    ensures A.Valid() && A.width == old(A.width) && A.height == old(A.height)
    ensures A.data == old(A.data)[ii := ElimRowUpTo(old(A.data)[ii], old(A.data)[j], j, A.width)]
  {
    var jj := j + 1;
    ElimRowNone(old(A.data)[ii], old(A.data)[j], j);
    while jj < A.width
      invariant j + 1 <= jj <= A.width
      invariant A.width == old(A.width) && A.height == old(A.height)
      invariant A.data == old(A.data)[ii := ElimRowUpTo(old(A.data)[ii], old(A.data)[j], j, jj)]
    {
      ghost var row, p := old(A.data)[ii], old(A.data)[j];
      ElimRowStep(row, p, j, jj);
      ElimRowAt(row, p, j, jj, jj);
      ElimRowAt(row, p, j, jj, j);
      assert A.data[j] == p;
      var v := A.data[ii][jj] - A.data[ii][j] * A.data[j][jj];
      assert v == row[jj] - row[j] * p[jj];
      A.data := A.data[ii := A.data[ii][jj := v]];
      jj := jj + 1;
    }
  }
}
