/** The chaos game built on the splines: the bounding box and the weight
    table, the random choice of a transformation, the mapping of a point
    through a spline, and the raster the game draws.

    Random draws are parameters.  The arc length of each spline and the
    magnitude of a vector are computed with square roots in the generator,
    so they are parameters as well: `lengths` and `mag`. */
module ChaosGame {
  import opened Wrappers
  import opened ChaosSpline

  /** The step 1/50000 of the finite-difference tangent in transform_point. */
  const Step: real := 1.0 / 50000.0

  /** gvector_linear_combination: `p1` weighted by `l1` plus `p2` weighted by
      `l2`, where a missing `l2` means `1 - l1`.  With the default weight and
      `0 <= l1 <= 1` every coordinate lies between those of the two points. */
  function LinearCombination(p1: Point, p2: Point, l1: real, l2: Option<real>): (r: Point)
    ensures l2.None? && 0.0 <= l1 <= 1.0 ==>
              && Between(r.x, p1.x, p2.x)
              && Between(r.y, p1.y, p2.y)
              && Between(r.z, p1.z, p2.z)
  {
    var w2 := if l2.None? then 1.0 - l1 else l2.value;
    var r := Point(Combine(p1.x, p2.x, l1, w2), Combine(p1.y, p2.y, l1, w2), Combine(p1.z, p2.z, l1, w2));
    if l2.None? && 0.0 <= l1 <= 1.0 then
      CombineBetween(p1.x, p2.x, l1);
      CombineBetween(p1.y, p2.y, l1);
      CombineBetween(p1.z, p2.z, l1);
      r
    else r
  }

  predicate Between(v: real, a: real, b: real)
  {
    (a <= v <= b) || (b <= v <= a)
  }

  lemma CombineBetween(a: real, b: real, l: real)
    requires 0.0 <= l <= 1.0
    ensures Between(Combine(a, b, l, 1.0 - l), a, b)
  {
    if a <= b {
      ConvexBounds(a, b, l, 1.0 - l, a, b);
    } else {
      ConvexBounds(a, b, l, 1.0 - l, b, a);
    }
  }

  // ----- chaos_init -----------------------------------------------------

  /** Bounding box of the control points' x and y coordinates. */
  datatype Box = Box(minx: real, miny: real, maxx: real, maxy: real)

  /** The parameters chaos_init returns: the box, its width and height, the
      number of transformations per spline and their total. */
  datatype Chaos = Chaos(box: Box, width: real, height: real, numTrafos: seq<int>, numTotal: int)

  ghost predicate AllWellFormed(splines: seq<Spline>)
  {
    forall i :: 0 <= i < |splines| ==> WellFormed(splines[i])
  }

  predicate InBox(x: real, y: real, b: Box)
  {
    b.minx <= x <= b.maxx && b.miny <= y <= b.maxy
  }

  /** The control points of splines `0 .. i-1`, and points `0 .. j-1` of
      spline `i`, lie in `b`. */
  ghost predicate CoversUpTo(splines: seq<Spline>, i: int, j: int, b: Box)
  {
    forall a, k :: 0 <= a < |splines| && 0 <= k < |splines[a].xs| && k < |splines[a].ys| &&
                   (a < i || (a == i && k < j)) ==>
                     InBox(splines[a].xs[k], splines[a].ys[k], b)
  }

  /** Some control point has x coordinate `v`. */
  ghost predicate XAttained(splines: seq<Spline>, v: real)
  {
    exists a, k :: 0 <= a < |splines| && 0 <= k < |splines[a].xs| && splines[a].xs[k] == v
  }

  /** Some control point has y coordinate `v`. */
  ghost predicate YAttained(splines: seq<Spline>, v: real)
  {
    exists a, k :: 0 <= a < |splines| && 0 <= k < |splines[a].ys| && splines[a].ys[k] == v
  }

  /** `b` is the bounding box of the control points: it holds every point and
      each of its four sides is attained by one. */
  ghost predicate IsBox(splines: seq<Spline>, b: Box)
  {
    && CoversUpTo(splines, |splines|, 0, b)
    && XAttained(splines, b.minx) && XAttained(splines, b.maxx)
    && YAttained(splines, b.miny) && YAttained(splines, b.maxy)
  }

  /** A box holding every control point reaches at least as far as the
      attained sides of another. */
  lemma ContainsAttained(splines: seq<Spline>, b1: Box, b2: Box)
    requires AllWellFormed(splines)
    requires IsBox(splines, b1) && CoversUpTo(splines, |splines|, 0, b2)
    ensures b2.minx <= b1.minx && b1.maxx <= b2.maxx
    ensures b2.miny <= b1.miny && b1.maxy <= b2.maxy
  {
    var a, k :| 0 <= a < |splines| && 0 <= k < |splines[a].xs| && splines[a].xs[k] == b1.minx;
    assert InBox(splines[a].xs[k], splines[a].ys[k], b2);
    a, k :| 0 <= a < |splines| && 0 <= k < |splines[a].xs| && splines[a].xs[k] == b1.maxx;
    assert InBox(splines[a].xs[k], splines[a].ys[k], b2);
    a, k :| 0 <= a < |splines| && 0 <= k < |splines[a].ys| && splines[a].ys[k] == b1.miny;
    assert InBox(splines[a].xs[k], splines[a].ys[k], b2);
    a, k :| 0 <= a < |splines| && 0 <= k < |splines[a].ys| && splines[a].ys[k] == b1.maxy;
    assert InBox(splines[a].xs[k], splines[a].ys[k], b2);
  }

  /** The bounding box is determined by the control points. */
  lemma BoxUnique(splines: seq<Spline>, b1: Box, b2: Box)
    requires AllWellFormed(splines)
    requires IsBox(splines, b1) && IsBox(splines, b2)
    ensures b1 == b2
  {
    ContainsAttained(splines, b1, b2);
    ContainsAttained(splines, b2, b1);
  }

  /** Sides of `b` attained by the control points the witnesses name. */
  ghost predicate Witnessed(splines: seq<Spline>, b: Box, w1: (int, int), w2: (int, int),
                            w3: (int, int), w4: (int, int))
  {
    && 0 <= w1.0 < |splines| && 0 <= w1.1 < |splines[w1.0].xs| && splines[w1.0].xs[w1.1] == b.minx
    && 0 <= w2.0 < |splines| && 0 <= w2.1 < |splines[w2.0].xs| && splines[w2.0].xs[w2.1] == b.maxx
    && 0 <= w3.0 < |splines| && 0 <= w3.1 < |splines[w3.0].ys| && splines[w3.0].ys[w3.1] == b.miny
    && 0 <= w4.0 < |splines| && 0 <= w4.1 < |splines[w4.0].ys| && splines[w4.0].ys[w4.1] == b.maxy
  }

  /** Widening the box to take in point `j` of spline `i` extends the covered
      prefix by that point. */
  lemma CoversStep(splines: seq<Spline>, i: int, j: int, b: Box, b': Box)
    requires 0 <= i < |splines| && 0 <= j < |splines[i].xs| && j < |splines[i].ys|
    requires CoversUpTo(splines, i, j, b)
    requires b'.minx <= b.minx && b.maxx <= b'.maxx && b'.miny <= b.miny && b.maxy <= b'.maxy
    requires InBox(splines[i].xs[j], splines[i].ys[j], b')
    ensures CoversUpTo(splines, i, j + 1, b')
  {
  }

  /** The points of spline `i` end where those of spline `i + 1` begin. */
  lemma CoversNext(splines: seq<Spline>, i: int, b: Box)
    requires AllWellFormed(splines) && 0 <= i < |splines|
    requires CoversUpTo(splines, i, |splines[i].xs|, b)
    ensures CoversUpTo(splines, i + 1, 0, b)
  {
  }

  /** The bbox loops of chaos_init.  The code starts from infinite bounds;
      since the first point replaces them, starting from the first point gives
      the same box. */
  method BoundingBox(splines: seq<Spline>) returns (b: Box)
    requires |splines| >= 1 && AllWellFormed(splines)
    ensures IsBox(splines, b)
  {
    var minx, maxx := splines[0].xs[0], splines[0].xs[0];
    var miny, maxy := splines[0].ys[0], splines[0].ys[0];
    ghost var w1, w2, w3, w4 := (0, 0), (0, 0), (0, 0), (0, 0);
    for i := 0 to |splines|
      invariant CoversUpTo(splines, i, 0, Box(minx, miny, maxx, maxy))
      invariant Witnessed(splines, Box(minx, miny, maxx, maxy), w1, w2, w3, w4)
    {
      for j := 0 to |splines[i].xs|
        invariant CoversUpTo(splines, i, j, Box(minx, miny, maxx, maxy))
        invariant Witnessed(splines, Box(minx, miny, maxx, maxy), w1, w2, w3, w4)
      {
        ghost var before := Box(minx, miny, maxx, maxy);
        var x, y := splines[i].xs[j], splines[i].ys[j];
        if x < minx { minx, w1 := x, (i, j); }
        if y < miny { miny, w3 := y, (i, j); }
        if x > maxx { maxx, w2 := x, (i, j); }
        if y > maxy { maxy, w4 := y, (i, j); }
        CoversStep(splines, i, j, before, Box(minx, miny, maxx, maxy));
      }
      CoversNext(splines, i, Box(minx, miny, maxx, maxy));
    }
    b := Box(minx, miny, maxx, maxy);
  }

  /** `maxlength` of chaos_init. */
  function MaxLength(thickness: real, width: real, height: real): real
    requires height != 0.0
  {
    thickness * width / height
  }

  /** One entry of the weight table, `max(1, int(length / maxlength * 1.5))`:
      at least one, and otherwise the scaled length truncated. */
  function NumTrafo(length: real, maxlength: real): (n: int)
    requires maxlength != 0.0
    ensures n >= 1
    ensures var v := length / maxlength * 1.5;
            && (v >= 1.0 ==> n as real <= v < n as real + 1.0)
            && (v < 1.0 ==> n == 1)
  {
    var v := Trunc(length / maxlength * 1.5);
    if 1 < v then v else 1
  }

  /** What every later step relies on: `c` holds the bounding box of the
      splines with a positive width and height, one count of at least one per
      spline, and their total. */
  ghost predicate ValidChaos(splines: seq<Spline>, c: Chaos)
  {
    && IsBox(splines, c.box)
    && c.width == c.box.maxx - c.box.minx > 0.0
    && c.height == c.box.maxy - c.box.miny > 0.0
    && |c.numTrafos| == |splines| >= 1
    && (forall i :: 0 <= i < |c.numTrafos| ==> c.numTrafos[i] >= 1)
    && c.numTotal == Sum(c.numTrafos)
  }

  /** chaos_init.  `lengths[i]` is spline_length of spline `i`.  A flat box
      (zero height) makes `maxlength` divide by zero, and a zero `maxlength`
      (zero width or thickness) makes the weight divide by zero; both raise
      ZeroDivisionError.  `b` names the bounding box in either case. */
  method ChaosInit(splines: seq<Spline>, lengths: seq<real>, thickness: real)
    returns (r: Result<Chaos>, ghost b: Box)
    requires |splines| >= 1 && AllWellFormed(splines)
    requires |lengths| == |splines|
    ensures IsBox(splines, b)
    ensures r.Failure? <==>
              (b.maxy - b.miny == 0.0 || MaxLength(thickness, b.maxx - b.minx, b.maxy - b.miny) == 0.0)
    ensures r.Failure? ==> r.error == ZeroDivisionError
    ensures r.Success? ==>
              && r.value.box == b
              && ValidChaos(splines, r.value)
              && forall i :: 0 <= i < |splines| ==>
                   r.value.numTrafos[i] == NumTrafo(lengths[i], MaxLength(thickness, r.value.width, r.value.height))
  {
    var box := BoundingBox(splines);
    b := box;
    var height := box.maxy - box.miny;
    var width := box.maxx - box.minx;
    if height == 0.0 {
      return Failure(ZeroDivisionError), b;
    }
    var maxlength := thickness * width / height;
    if maxlength == 0.0 {
      return Failure(ZeroDivisionError), b;
    }
    var numTrafos := new int[|splines|];
    for i := 0 to |splines|
      invariant forall k :: 0 <= k < i ==> numTrafos[k] == NumTrafo(lengths[k], maxlength)
    {
      numTrafos[i] := NumTrafo(lengths[i], maxlength);
    }
    BoxOrdered(splines, b);
    assert thickness * width != 0.0;
    r := Success(Chaos(box, width, height, numTrafos[..], Sum(numTrafos[..])));
  }

  /** A bounding box of at least one point is ordered. */
  lemma BoxOrdered(splines: seq<Spline>, b: Box)
    requires |splines| >= 1 && AllWellFormed(splines) && IsBox(splines, b)
    ensures b.minx <= b.maxx && b.miny <= b.maxy
  {
    assert InBox(splines[0].xs[0], splines[0].ys[0], b);
  }

  // ----- get_random_trafo ----------------------------------------------

  /** get_random_trafo.  `r` is the first draw, `randrange(num_total + 1)`;
      `pick(n)` is the second draw, `randrange(n)`.  The scan finds the
      bucket of the prefix sums that holds `r`; only `r == num_total`, one
      past the last bucket, reaches the fallback, which is the last index. */
  method GetRandomTrafo(numTrafos: seq<int>, numTotal: int, r: int, pick: int -> int)
    returns (idx: int, val: int)
    requires |numTrafos| >= 1
    requires forall i :: 0 <= i < |numTrafos| ==> numTrafos[i] >= 1
    requires 0 <= r <= numTotal
    requires forall n :: n >= 1 ==> 0 <= pick(n) < n
    ensures 0 <= idx < |numTrafos|
    ensures val == pick(numTrafos[idx]) && 0 <= val < numTrafos[idx]
    ensures r < Sum(numTrafos) ==> Sum(numTrafos[..idx]) <= r < Sum(numTrafos[..idx + 1])
    ensures r >= Sum(numTrafos) ==> idx == |numTrafos| - 1
  {
    var l := 0;
    for i := 0 to |numTrafos|
      invariant l == Sum(numTrafos[..i])
      invariant l <= r
    {
      if l <= r < l + numTrafos[i] {
        assert numTrafos[..i + 1] == numTrafos[..i] + [numTrafos[i]];
        SumAppend(numTrafos[..i], numTrafos[i]);
        PrefixSumLe(numTrafos, i + 1);
        return i, pick(numTrafos[i]);
      }
      assert numTrafos[..i + 1] == numTrafos[..i] + [numTrafos[i]];
      SumAppend(numTrafos[..i], numTrafos[i]);
      l := l + numTrafos[i];
    }
    assert numTrafos[..|numTrafos|] == numTrafos;
    idx := |numTrafos| - 1;
    val := pick(numTrafos[idx]);
  }

  // ----- truncate_point ------------------------------------------------

  /** truncate_point: clamps `x` to `[minx, maxx]` and `y` to `[miny, maxy]`,
      testing the upper bounds first. */
  function TruncatePoint(x: real, y: real, b: Box): (r: (real, real))
    ensures b.minx <= b.maxx && b.miny <= b.maxy ==> InBox(r.0, r.1, b)
    ensures b.minx <= x < b.maxx ==> r.0 == x
    ensures b.miny <= y < b.maxy ==> r.1 == y
    ensures b.minx <= b.maxx && x >= b.maxx ==> r.0 == b.maxx
    ensures b.miny <= b.maxy && y >= b.maxy ==> r.1 == b.maxy
    ensures x < b.minx ==> r.0 == b.minx
    ensures y < b.miny ==> r.1 == b.miny
  {
    var x1 := if x >= b.maxx then b.maxx else x;
    var y1 := if y >= b.maxy then b.maxy else y;
    var x2 := if x1 < b.minx then b.minx else x1;
    var y2 := if y1 < b.miny then b.miny else y1;
    (x2, y2)
  }

  /** Clamping twice is clamping once. */
  lemma TruncateIdempotent(x: real, y: real, b: Box)
    requires b.minx <= b.maxx && b.miny <= b.maxy
    ensures var (x1, y1) := TruncatePoint(x, y, b);
            TruncatePoint(x1, y1, b) == (x1, y1)
  {
  }

  // ----- transform_point -----------------------------------------------

  /** The position of `p` in an interval of length `extent` starting at
      `lo`, as a fraction; in the unit interval when `p` is in the interval. */
  function Normalize(p: real, lo: real, extent: real): (r: real)
    requires extent != 0.0
    ensures extent > 0.0 && lo <= p <= lo + extent ==> 0.0 <= r <= 1.0
  {
    (p - lo) / extent
  }

  /** The curve parameter transform_point computes, `start + seg * val + seg * x`
      with `seg = (end - start) / n`: for bucket `val` of `n` and a fraction
      `x` it lies in `[start, end]`. */
  function Param(start: real, end: real, n: int, val: int, x: real): (t: real)
    requires n >= 1
    ensures start <= end && 0 <= val < n && 0.0 <= x <= 1.0 ==> start <= t <= end
  {
    var seg := (end - start) / n as real;
    var t := start + seg * val as real + seg * x;
    if start <= end && 0 <= val < n && 0.0 <= x <= 1.0 then
      ParamInDomain(start, end, n, val, x, seg);
      t
    else t
  }

  lemma ParamInDomain(start: real, end: real, n: int, val: int, x: real, seg: real)
    requires start <= end && n >= 1 && 0 <= val < n && 0.0 <= x <= 1.0
    requires seg == (end - start) / n as real
    ensures start <= start + seg * val as real + seg * x <= end
  {
    assert seg * n as real == end - start;
    assert seg >= 0.0;
    MulNonNegativeReal(seg, val as real);
    MulNonNegativeReal(seg, x);
    MulNonNegativeReal(seg, 1.0 - x);
    MulNonNegativeReal(seg, (n - 1 - val) as real);
    assert seg * val as real + seg * x == seg * (val as real + x);
    assert seg * (val as real + x) + seg * (1.0 - x) + seg * (n - 1 - val) as real == seg * n as real;
  }

  /** The parameter of the neighbour transform_point evaluates for the
      tangent: one step back near the end of the domain, one step ahead
      otherwise.  It stays in a domain at least two steps long. */
  function Neighbour(t: real, start: real, end: real): (r: real)
    ensures start <= t <= end && end - start >= 2.0 * Step ==> start <= r <= end
  {
    if t + Step > end then t - Step else t + Step
  }

  /** transform_point for a point `(px, py)`.  When both `trafoIdx` and
      `trafoVal` are given they are used; otherwise a transformation is drawn
      as get_random_trafo does, with the draws `r` and `pick`.  The output
      names the transformation used, the curve parameter `t` and the
      parameter `tn` of the neighbour that gives the tangent.  The returned
      x and y lie in the box whatever the displacement; for a point in the box
      and a bucket in range, `t` lies in the domain of the spline, and so does
      `tn` when the domain is at least two steps long. */
  method TransformPoint(px: real, py: real, splines: seq<Spline>, c: Chaos, thickness: real,
                        trafoIdx: Option<int>, trafoVal: Option<int>,
                        r: int, pick: int -> int, mag: (real, real, real) -> real)
    returns (q: Point, ghost idx: int, ghost val: int, ghost t: real, ghost tn: real)
    requires AllWellFormed(splines) && ValidChaos(splines, c)
    requires trafoIdx.Some? && trafoVal.Some? ==> 0 <= trafoIdx.value < |splines|
    requires trafoIdx.None? || trafoVal.None? ==>
               0 <= r <= c.numTotal && forall n :: n >= 1 ==> 0 <= pick(n) < n
    ensures 0 <= idx < |splines|
    ensures trafoIdx.Some? && trafoVal.Some? ==> idx == trafoIdx.value && val == trafoVal.value
    ensures trafoIdx.None? || trafoVal.None? ==> 0 <= val < c.numTrafos[idx] && val == pick(c.numTrafos[idx])
    ensures InBox(q.x, q.y, c.box)
    ensures q.z == SplineAt(t, splines[idx]).z
    ensures var (start, end) := Domain(splines[idx].knots, splines[idx].degree);
            && t == Param(start, end, c.numTrafos[idx], val, Normalize(px, c.box.minx, c.width))
            && tn == Neighbour(t, start, end)
            && (InBox(px, py, c.box) && 0 <= val < c.numTrafos[idx] && start <= end ==>
                  && start <= t <= end
                  && (end - start >= 2.0 * Step ==> start <= tn <= end))
  {
    var x := Normalize(px, c.box.minx, c.width);
    var y := Normalize(py, c.box.miny, c.height);
    var trafo, trafoV;
    if trafoIdx.None? || trafoVal.None? {
      trafo, trafoV := GetRandomTrafo(c.numTrafos, c.numTotal, r, pick);
    } else {
      trafo, trafoV := trafoIdx.value, trafoVal.value;
    }
    idx, val := trafo, trafoV;
    var s := splines[trafo];
    var (start, end) := Domain(s.knots, s.degree);
    var u := Param(start, end, c.numTrafos[trafo], trafoV, x);
    var v := Neighbour(u, start, end);
    t, tn := u, v;
    var base := SplineCall(u, s);
    var nb := SplineCall(v, s);
    var dx, dy, dz;
    if u + Step > end {
      dx, dy, dz := nb.x - base.x, nb.y - base.y, nb.z - base.z;
    } else {
      dx, dy, dz := base.x - nb.x, base.y - nb.y, base.z - nb.z;
    }
    var m := mag(dx, dy, dz);
    var baseX, baseY := base.x, base.y;
    if m != 0.0 {
      baseX := baseX + dy / m * (y - 0.5) * thickness;
      baseY := baseY + -dx / m * (y - 0.5) * thickness;
    }
    BoxOrdered(splines, c.box);
    var (tx, ty) := TruncatePoint(baseX, baseY, c.box);
    q := Point(tx, ty, base.z);
  }

  // ----- create_image_chaos --------------------------------------------

  /** The start point of the game, the centre of the box; inside an ordered
      box. */
  function StartPoint(b: Box): (r: (real, real))
    ensures b.minx <= b.maxx && b.miny <= b.maxy ==> InBox(r.0, r.1, b)
  {
    ((b.maxx + b.minx) / 2.0, (b.maxy + b.miny) / 2.0)
  }

  /** `q * n` of a fraction `q` of `n` lies in `[0, n]`. */
  lemma ScaleUnit(q: real, n: int)
    requires 0.0 <= q <= 1.0 && n >= 0
    ensures 0.0 <= q * n as real <= n as real
  {
    MulNonNegativeReal(q, n as real);
    MulNonNegativeReal(1.0 - q, n as real);
  }

  /** One raster coordinate of create_image_chaos: `int(x * n)` for the
      fraction `x` of the point along the box, moved back by one on the far
      edge.  For a point in the box it lies in `[0, n)`. */
  function Cell(p: real, lo: real, extent: real, n: int): (r: int)
    requires extent != 0.0
    ensures n >= 1 && extent > 0.0 && lo <= p <= lo + extent ==> 0 <= r < n
  {
    var x := Normalize(p, lo, extent);
    var v := Trunc(x * n as real);
    if n >= 1 && extent > 0.0 && lo <= p <= lo + extent then
      ScaleUnit(x, n);
      if v == n then v - 1 else v
    else if v == n then v - 1 else v
  }

  /** The raster cell create_image_chaos clears for a point: its column, and
      its row counted from the top.  For a point in the box the cell lies in
      the `w` by `h` raster. */
  function PixelOf(px: real, py: real, c: Chaos, w: int, h: int): (r: (int, int))
    requires c.width != 0.0 && c.height != 0.0
    ensures && w >= 1 && h >= 1 && InBox(px, py, c.box)
            && c.width == c.box.maxx - c.box.minx && c.height == c.box.maxy - c.box.miny
            ==> 0 <= r.0 < w && 0 <= r.1 < h
  {
    (Cell(px, c.box.minx, c.width, w), h - Cell(py, c.box.miny, c.height, h) - 1)
  }

  /** create_image_chaos.  `rand(k, n)` is the `k`-th draw `randrange(n)` of
      the seeded generator; iteration `i` draws twice, `2i` and `2i+1`.
      A negative size raises ValueError when the raster is allocated.  A
      zero size with iterations would make the first pixel write go out of
      bounds, which the compiled code does not check, so callers must not
      ask for it.  Otherwise the
      raster starts all ones and ends with exactly the cells of `pixels`,
      the cells of the successive points, cleared; `points` are the points
      visited, all inside the box. */
  method CreateImageChaos(w: int, h: int, iterations: int, splines: seq<Spline>, c: Chaos,
                          thickness: real, rand: (nat, int) -> int, mag: (real, real, real) -> real)
    returns (res: Result<array2<int>>, ghost points: seq<(real, real)>, ghost pixels: seq<(int, int)>)
    requires AllWellFormed(splines) && ValidChaos(splines, c)
    requires forall k: nat, n: int :: n >= 1 ==> 0 <= rand(k, n) < n
    requires w >= 0 && h >= 0 && iterations > 0 ==> w >= 1 && h >= 1
    ensures res.Failure? <==> w < 0 || h < 0
    ensures res.Failure? ==> res.error == ValueError
    ensures res.Success? ==>
              && fresh(res.value)
              && res.value.Length0 == w && res.value.Length1 == h
              && |points| == |pixels| == (if iterations > 0 then iterations else 0)
              && (forall k :: 0 <= k < |pixels| ==>
                    && InBox(points[k].0, points[k].1, c.box)
                    && pixels[k] == PixelOf(points[k].0, points[k].1, c, w, h)
                    && 0 <= pixels[k].0 < w && 0 <= pixels[k].1 < h)
              && (forall a, b :: 0 <= a < w && 0 <= b < h ==>
                    res.value[a, b] == (if (a, b) in pixels then 0 else 1))
  {
    points, pixels := [], [];
    if w < 0 || h < 0 {
      return Failure(ValueError), points, pixels;
    }
    var im := new int[w, h]((a, b) => 1);
    BoxOrdered(splines, c.box);
    PrefixSumLe(c.numTrafos, 0);
    var (px, py) := StartPoint(c.box);
    var i := 0;
    while i < iterations
      invariant 0 <= i <= (if iterations > 0 then iterations else 0)
      invariant |points| == |pixels| == i
      invariant InBox(px, py, c.box)
      invariant forall k :: 0 <= k < |pixels| ==>
                  && InBox(points[k].0, points[k].1, c.box)
                  && pixels[k] == PixelOf(points[k].0, points[k].1, c, w, h)
                  && 0 <= pixels[k].0 < w && 0 <= pixels[k].1 < h
      invariant forall a, b :: 0 <= a < w && 0 <= b < h ==> im[a, b] == (if (a, b) in pixels then 0 else 1)
    {
      var draw1 := rand(2 * i, c.numTotal + 1);
      var draw2 := (n: int) => rand(2 * i + 1, n);
      ghost var ti, vi, t, tn;
      var q;
      q, ti, vi, t, tn := TransformPoint(px, py, splines, c, thickness, None, None, draw1, draw2, mag);
      px, py := q.x, q.y;
      var cell := PixelOf(px, py, c, w, h);
      im[cell.0, cell.1] := 0;
      points, pixels := points + [(px, py)], pixels + [cell];
      i := i + 1;
    }
    res := Success(im);
  }

  /** The splines of get_default_splines: a seven-point and two four-point
      cubic splines, all in the shape the evaluation expects and with at
      least as many points as the degree, so their domains are not empty. */
  function DefaultSplines(): (r: seq<Spline>)
    ensures |r| == 3 && AllWellFormed(r)
    ensures forall i :: 0 <= i < |r| ==> r[i].degree <= |r[i].xs|
  {
    var zero7 := [0.0, 0.0, 0.0, 0.0, 0.0, 0.0, 0.0];
    var zero4 := [0.0, 0.0, 0.0, 0.0];
    var s1 := Spline([1.597350, 1.575810, 1.313210, 1.618900, 2.889940, 2.373060, 1.662000],
                     [3.304460, 4.123260, 5.288350, 5.329910, 5.502700, 4.381830, 4.360280],
                     zero7, [0.0, 0.0, 0.0, 1.0, 1.0, 1.0, 2.0, 2.0, 2.0], 3);
    var s2 := Spline([2.804500, 2.550500, 1.979010, 1.979010],
                     [4.017350, 3.525230, 2.620360, 2.620360],
                     zero4, [0.0, 0.0, 0.0, 1.0, 1.0, 1.0], 3);
    var s3 := Spline([2.001670, 2.335040, 2.366800, 2.366800],
                     [4.011320, 3.312830, 3.233460, 3.233460],
                     zero4, [0.0, 0.0, 0.0, 1.0, 1.0, 1.0], 3);
    [s1, s2, s3]
  }
}
