/** B-spline evaluation of the chaos-game fractal generator: the parameter
    domain, the knot-span lookup and de Boor's algorithm on three parallel
    coordinate arrays.

    The knot convention is the one the generator's splines use: a spline with
    P control points and degree p has P + p - 1 knots (9 knots for 7 points,
    6 knots for 4 points at degree 3), one fewer at each end than the textbook
    clamped relation P + p + 1.  Floats are modelled as reals. */
module ChaosSpline {
  import opened Wrappers

  datatype Point = Point(x: real, y: real, z: real)

  /** A spline as the generator stores it: control points as three parallel
      coordinate sequences, a knot sequence and a degree. */
  datatype Spline = Spline(xs: seq<real>, ys: seq<real>, zs: seq<real>, knots: seq<real>, degree: int)

  ghost predicate NonDecreasing(s: seq<real>)
  {
    forall i, j :: 0 <= i <= j < |s| ==> s[i] <= s[j]
  }

  /** The shape every spline of the generator has. */
  ghost predicate WellFormed(s: Spline)
  {
    && |s.xs| == |s.ys| == |s.zs| >= 1
    && s.degree >= 1
    && |s.knots| == |s.xs| + s.degree - 1
    && NonDecreasing(s.knots)
  }

  /** spline_get_domain: the parameter interval of the spline.  When the knots
      are sorted and the spline has at least `degree` points, the interval is
      not empty. */
  function Domain(knots: seq<real>, degree: int): (r: (real, real))
    requires 1 <= degree <= |knots|
    ensures NonDecreasing(knots) && 2 * degree <= |knots| + 1 ==> r.0 <= r.1
  {
    (knots[degree - 1], knots[|knots| - degree])
  }

  /** `u` lies in the half-open knot span starting at `ii`. */
  predicate InSpan(knots: seq<real>, ii: int, u: real)
    requires 0 <= ii < |knots| - 1
  {
    knots[ii] <= u < knots[ii + 1]
  }

  /** The span spline_get_index looks for: scanning `ii` upwards from the
      given start, the first span of `[ii, hi)` that holds `u`, or `hi - 1`
      when there is none. */
  function FirstSpan(u: real, knots: seq<real>, ii: int, hi: int): (r: int)
    requires 0 <= ii && hi <= |knots| - 1
    ensures || (ii <= r < hi && InSpan(knots, r, u)
                && forall jj :: ii <= jj < r ==> !InSpan(knots, jj, u))
            || (r == hi - 1 && forall jj :: ii <= jj < hi ==> !InSpan(knots, jj, u))
    decreases hi - ii
  {
    if ii >= hi then hi - 1
    else if InSpan(knots, ii, u) then ii
    else FirstSpan(u, knots, ii + 1, hi)
  }

  /** spline_get_index: the first span of `[degree-1, |knots|-degree)` that holds
      `u`, or `|knots| - degree - 1` when there is none. */
  method GetIndex(u: real, knots: seq<real>, degree: int) returns (idx: int)
    requires degree >= 1
    ensures idx == FirstSpan(u, knots, degree - 1, |knots| - degree)
  {
    var ii := degree - 1;
    while ii < |knots| - degree
      invariant degree - 1 <= ii
      invariant ii <= |knots| - degree || ii == degree - 1
      invariant FirstSpan(u, knots, ii, |knots| - degree) == FirstSpan(u, knots, degree - 1, |knots| - degree)
      decreases |knots| - degree - ii
    {
      if knots[ii] <= u < knots[ii + 1] {
        return ii;
      }
      ii := ii + 1;
    }
    return |knots| - degree - 1;
  }

  /** Between two knots that bracket `u` there is a span holding `u`. */
  lemma {:induction false} SpanExists(knots: seq<real>, lo: int, hi: int, u: real)
    requires 0 <= lo < hi < |knots|
    requires knots[lo] <= u < knots[hi]
    ensures exists ii :: lo <= ii < hi && InSpan(knots, ii, u)
    decreases hi - lo
  {
    if u < knots[lo + 1] {
      assert InSpan(knots, lo, u);
    } else {
      SpanExists(knots, lo + 1, hi, u);
    }
  }

  /** The linear combination the inner loop of spline_call applies to one
      coordinate: `a` weighted by `co1` plus `b` weighted by `co2`. */
  function Combine(a: real, b: real, co1: real, co2: real): real
  {
    a * co1 + b * co2
  }

  /** One de Boor blend: `a` and `b` combined with the coefficients
      `co1 = (ua - u) / (ua - ub)` and `co2 = (u - ub) / (ua - ub)`, which place
      `u` between the knots `ub` and `ua`. */
  function Blend(a: real, b: real, ua: real, ub: real, u: real): real
    requires ua != ub
  {
    Combine(a, b, (ua - u) / (ua - ub), (u - ub) / (ua - ub))
  }

  lemma MulNonNegativeReal(x: real, y: real)
    requires x >= 0.0 && y >= 0.0
    ensures x * y >= 0.0
  {
  }

  /** A convex combination of two values within `[lo, hi]` is within `[lo, hi]`. */
  lemma ConvexBounds(a: real, b: real, c1: real, c2: real, lo: real, hi: real)
    requires c1 >= 0.0 && c2 >= 0.0 && c1 + c2 == 1.0
    requires lo <= a <= hi && lo <= b <= hi
    ensures lo <= Combine(a, b, c1, c2) <= hi
  {
    MulNonNegativeReal(a - lo, c1);
    MulNonNegativeReal(b - lo, c2);
    MulNonNegativeReal(hi - a, c1);
    MulNonNegativeReal(hi - b, c2);
    assert a * c1 + b * c2 - lo == (a - lo) * c1 + (b - lo) * c2;
    assert hi - (a * c1 + b * c2) == (hi - a) * c1 + (hi - b) * c2;
  }

  /** A blend of two values within `[lo, hi]`, at a `u` between the knots, stays
      within `[lo, hi]`. */
  lemma BlendInRange(a: real, b: real, ua: real, ub: real, u: real, lo: real, hi: real)
    requires ub <= u < ua
    requires lo <= a <= hi && lo <= b <= hi
    ensures lo <= Blend(a, b, ua, ub, u) <= hi
  {
    var d := ua - ub;
    var c1 := (ua - u) / d;
    var c2 := (u - ub) / d;
    assert c1 * d == ua - u && c2 * d == u - ub;
    assert c1 >= 0.0 && c2 >= 0.0;
    var e := c1 + c2 - 1.0;
    assert e * d == c1 * d + c2 * d - d;
    assert e * d == 0.0;
    assert e == 0.0;
    ConvexBounds(a, b, c1, c2, lo, hi);
  }

  /** `u` lies in span `I`, far enough from both ends for every knot the
      triangle of degree `p` reads to exist, and those knots are sorted as far
      as the triangle needs: none of `I-p+1 .. I` lies above knot `I`, none of
      `I+1 .. I+p` below knot `I+1`. */
  ghost predicate KnotsOk(knots: seq<real>, p: int, I: int, u: real)
  {
    && p >= 1
    && p - 1 <= I
    && I + p < |knots|
    && InSpan(knots, I, u)
    && (forall i :: I - p + 1 <= i <= I ==> knots[i] <= knots[I])
    && (forall i :: I + 1 <= i <= I + p ==> knots[I + 1] <= knots[i])
  }

  /** The knots are as `KnotsOk` says and the control points `I-p+1 .. I+1` of
      coordinate `c` exist. */
  ghost predicate SpanOk(c: seq<real>, knots: seq<real>, p: int, I: int, u: real)
  {
    KnotsOk(knots, p, I, u) && I + 1 < |c|
  }

  /** Sorted knots satisfy `KnotsOk` for any span that holds `u` and leaves
      room for the triangle. */
  lemma SortedKnotsOk(knots: seq<real>, p: int, I: int, u: real)
    requires NonDecreasing(knots)
    requires p >= 1 && p - 1 <= I && I + p < |knots| && InSpan(knots, I, u)
    ensures KnotsOk(knots, p, I, u)
  {
  }

  /** The knots entry `m` of round `k` blends between bracket `u`. */
  lemma Bracket(knots: seq<real>, p: int, I: int, u: real, k: nat, m: nat)
    requires KnotsOk(knots, p, I, u)
    requires 1 <= k <= p && m <= p - k
    ensures knots[m + I - p + k] <= u < knots[m + I + 1]
  {
    assert knots[m + I - p + k] <= knots[I] && knots[I + 1] <= knots[m + I + 1];
  }

  /** The first `n` entries of round `k` of the de Boor triangle, from the
      entries `prev` of round `k-1`: entry `m` blends `prev[m]` and `prev[m+1]`
      between the knots `m+I-p+k` and `m+I+1`. */
  ghost function NextRow(prev: seq<real>, knots: seq<real>, p: int, I: int, u: real, k: nat, n: nat): (r: seq<real>)
    requires KnotsOk(knots, p, I, u)
    requires 1 <= k <= p && n <= p - k + 1 && |prev| == p - k + 2
    ensures |r| == n
    decreases n
  {
    if n == 0 then []
    else
      Bracket(knots, p, I, u, k, n - 1);
      NextRow(prev, knots, p, I, u, k, n - 1)
        + [Blend(prev[n - 1], prev[n], knots[n - 1 + I + 1], knots[n - 1 + I - p + k], u)]
  }

  /** Round `k` of de Boor's algorithm for one coordinate `c` at `u` in span
      `I`: round 0 is the control points `I-p+1 .. I+1`, each later round one
      entry shorter; the curve coordinate is entry 0 of round `p`. */
  ghost function Round(c: seq<real>, knots: seq<real>, p: int, I: int, u: real, k: nat): (r: seq<real>)
    requires SpanOk(c, knots, p, I, u)
    requires k <= p
    ensures |r| == p - k + 1
    decreases k
  {
    if k == 0 then c[I - p + 1 .. I + 2]
    else NextRow(Round(c, knots, p, I, u, k - 1), knots, p, I, u, k, p - k + 1)
  }

  lemma {:induction false} NextRowAt(prev: seq<real>, knots: seq<real>, p: int, I: int, u: real, k: nat, n: nat, m: nat)
    requires KnotsOk(knots, p, I, u)
    requires 1 <= k <= p && n <= p - k + 1 && |prev| == p - k + 2
    requires m < n
    ensures knots[m + I + 1] != knots[m + I - p + k]
    ensures NextRow(prev, knots, p, I, u, k, n)[m]
            == Blend(prev[m], prev[m + 1], knots[m + I + 1], knots[m + I - p + k], u)
    decreases n
  {
    Bracket(knots, p, I, u, k, m);
    if m < n - 1 {
      NextRowAt(prev, knots, p, I, u, k, n - 1, m);
    }
  }

  /** Entry `j` of round `k` is the combination, with the coefficients `co1`
      and `co2` spline_call computes from the knots `ua` and `ub`, of entries
      `j` and `j+1` of round `k-1`. */
  lemma RoundStep(c: seq<real>, knots: seq<real>, p: int, I: int, u: real, k: nat, j: nat,
                  ua: real, ub: real, co1: real, co2: real)
    requires SpanOk(c, knots, p, I, u)
    requires 1 <= k <= p && j <= p - k
    requires ua == knots[j + I + 1] && ub == knots[j + I - p + k] && ua != ub
    requires co1 == (ua - u) / (ua - ub) && co2 == (u - ub) / (ua - ub)
    ensures Round(c, knots, p, I, u, k)[j]
            == Combine(Round(c, knots, p, I, u, k - 1)[j], Round(c, knots, p, I, u, k - 1)[j + 1], co1, co2)
  {
    NextRowAt(Round(c, knots, p, I, u, k - 1), knots, p, I, u, k, p - k + 1, j);
  }

  /** Every entry of a row blended from values within `[lo, hi]` is within
      `[lo, hi]`. */
  lemma {:induction false} NextRowInRange(prev: seq<real>, knots: seq<real>, p: int, I: int, u: real,
                                          k: nat, n: nat, lo: real, hi: real)
    requires KnotsOk(knots, p, I, u)
    requires 1 <= k <= p && n <= p - k + 1 && |prev| == p - k + 2
    requires forall m :: 0 <= m < |prev| ==> lo <= prev[m] <= hi
    ensures forall m :: 0 <= m < n ==> lo <= NextRow(prev, knots, p, I, u, k, n)[m] <= hi
    decreases n
  {
    if n > 0 {
      NextRowInRange(prev, knots, p, I, u, k, n - 1, lo, hi);
      Bracket(knots, p, I, u, k, n - 1);
      BlendInRange(prev[n - 1], prev[n], knots[n - 1 + I + 1], knots[n - 1 + I - p + k], u, lo, hi);
      var r := NextRow(prev, knots, p, I, u, k, n);
      forall m | 0 <= m < n
        ensures lo <= r[m] <= hi
      {
        if m < n - 1 {
          assert r[m] == NextRow(prev, knots, p, I, u, k, n - 1)[m];
        }
      }
    }
  }

  /** Convex hull property of de Boor's algorithm: every entry of every round
      lies between bounds that hold for all control points. */
  lemma {:induction false} RoundInRange(c: seq<real>, knots: seq<real>, p: int, I: int, u: real,
                                        k: nat, lo: real, hi: real)
    requires SpanOk(c, knots, p, I, u)
    requires k <= p
    requires forall i :: 0 <= i < |c| ==> lo <= c[i] <= hi
    ensures forall m :: 0 <= m <= p - k ==> lo <= Round(c, knots, p, I, u, k)[m] <= hi
    decreases k
  {
    if k > 0 {
      RoundInRange(c, knots, p, I, u, k - 1, lo, hi);
      NextRowInRange(Round(c, knots, p, I, u, k - 1), knots, p, I, u, k, p - k + 1, lo, hi);
    }
  }

  /** Smallest and largest element of a non-empty sequence. */
  function SeqMin(s: seq<real>): (r: real)
    requires |s| > 0
    ensures forall i :: 0 <= i < |s| ==> r <= s[i]
    ensures exists i :: 0 <= i < |s| && r == s[i]
  {
    if |s| == 1 then s[0]
    else
      var m := SeqMin(s[..|s| - 1]);
      assert forall i :: 0 <= i < |s| - 1 ==> s[..|s| - 1][i] == s[i];
      if s[|s| - 1] < m then s[|s| - 1] else m
  }

  function SeqMax(s: seq<real>): (r: real)
    requires |s| > 0
    ensures forall i :: 0 <= i < |s| ==> s[i] <= r
    ensures exists i :: 0 <= i < |s| && r == s[i]
  {
    if |s| == 1 then s[0]
    else
      var m := SeqMax(s[..|s| - 1]);
      assert forall i :: 0 <= i < |s| - 1 ==> s[..|s| - 1][i] == s[i];
      if s[|s| - 1] > m then s[|s| - 1] else m
  }

  /** The point lies, coordinate by coordinate, between the smallest and the
      largest control point coordinate of the spline. */
  ghost predicate InHull(pt: Point, s: Spline)
    requires WellFormed(s)
  {
    && SeqMin(s.xs) <= pt.x <= SeqMax(s.xs)
    && SeqMin(s.ys) <= pt.y <= SeqMax(s.ys)
    && SeqMin(s.zs) <= pt.z <= SeqMax(s.zs)
  }

  /** A working array part-way through a round: entries before `j` already
      hold the new round `cur`, the next ones still hold the previous round
      `prev`. */
  ghost predicate Mixed(d: seq<real>, cur: seq<real>, prev: seq<real>, j: int)
  {
    && |prev| <= |d| && |cur| == |prev| - 1 && 0 <= j <= |cur|
    && (forall m :: 0 <= m < j ==> d[m] == cur[m])
    && (forall m :: j <= m < |prev| ==> d[m] == prev[m])
  }

  lemma MixedStart(d: seq<real>, cur: seq<real>, prev: seq<real>)
    requires |prev| >= 1 && |cur| == |prev| - 1
    requires |prev| <= |d| && d[..|prev|] == prev
    ensures Mixed(d, cur, prev, 0)
  {
  }

  lemma MixedEnd(d: seq<real>, cur: seq<real>, prev: seq<real>)
    requires Mixed(d, cur, prev, |cur|)
    ensures d[..|cur|] == cur
  {
  }

  lemma CombineIs(a: real, b: real, co1: real, co2: real)
    ensures a * co1 + b * co2 == Combine(a, b, co1, co2)
  {
  }

  /** One linear combination of the inner loop of spline_call on one
      coordinate's working array: entry `j` becomes `co1` times itself plus
      `co2` times entry `j+1`, which is entry `j` of the new round. */
  method CombineEntry(d: array<real>, j: int, co1: real, co2: real, ghost cur: seq<real>, ghost prev: seq<real>)
    requires Mixed(d[..], cur, prev, j) && j < |cur|
    requires cur[j] == Combine(prev[j], prev[j + 1], co1, co2)
    modifies d
    ensures Mixed(d[..], cur, prev, j + 1)
  {
    CombineIs(d[j], d[j + 1], co1, co2);
    d[j] := d[j] * co1 + d[j + 1] * co2;
  }

  /** The working arrays hold round `k` of the triangle for all three
      coordinates. */
  ghost predicate Holds(dx: array<real>, dy: array<real>, dz: array<real>, u: real, s: Spline, I: int, k: nat)
    requires SpanOk(s.xs, s.knots, s.degree, I, u)
    requires SpanOk(s.ys, s.knots, s.degree, I, u)
    requires SpanOk(s.zs, s.knots, s.degree, I, u)
    requires k <= s.degree
    reads dx, dy, dz
  {
    && dx.Length == dy.Length == dz.Length == s.degree + 1
    && dx[..s.degree - k + 1] == Round(s.xs, s.knots, s.degree, I, u, k)
    && dy[..s.degree - k + 1] == Round(s.ys, s.knots, s.degree, I, u, k)
    && dz[..s.degree - k + 1] == Round(s.zs, s.knots, s.degree, I, u, k)
  }

  /** One pass of the inner loop of spline_call, at `ii`: the coefficients
      `co1` and `co2` from the knots `ua` and `ub`, then entry `index` of each
      working array becomes its linear combination with entry `index + 1`. */
  method DeBoorStep(dx: array<real>, dy: array<real>, dz: array<real>, u: real, s: Spline, I: int, k: nat, ii: int)
    requires SpanOk(s.xs, s.knots, s.degree, I, u)
    requires SpanOk(s.ys, s.knots, s.degree, I, u)
    requires SpanOk(s.zs, s.knots, s.degree, I, u)
    requires 1 <= k <= s.degree
    requires I - s.degree + k + 1 <= ii < I + 2
    requires dx != dy && dy != dz && dx != dz
    requires Mixed(dx[..], Round(s.xs, s.knots, s.degree, I, u, k), Round(s.xs, s.knots, s.degree, I, u, k - 1),
                   ii - (I - s.degree + k + 1))
    requires Mixed(dy[..], Round(s.ys, s.knots, s.degree, I, u, k), Round(s.ys, s.knots, s.degree, I, u, k - 1),
                   ii - (I - s.degree + k + 1))
    requires Mixed(dz[..], Round(s.zs, s.knots, s.degree, I, u, k), Round(s.zs, s.knots, s.degree, I, u, k - 1),
                   ii - (I - s.degree + k + 1))
    modifies dx, dy, dz
    ensures Mixed(dx[..], Round(s.xs, s.knots, s.degree, I, u, k), Round(s.xs, s.knots, s.degree, I, u, k - 1),
                  ii - (I - s.degree + k + 1) + 1)
    ensures Mixed(dy[..], Round(s.ys, s.knots, s.degree, I, u, k), Round(s.ys, s.knots, s.degree, I, u, k - 1),
                  ii - (I - s.degree + k + 1) + 1)
    ensures Mixed(dz[..], Round(s.zs, s.knots, s.degree, I, u, k), Round(s.zs, s.knots, s.degree, I, u, k - 1),
                  ii - (I - s.degree + k + 1) + 1)
  {
    var p := s.degree;
    var knots := s.knots;
    var ua := knots[ii + p - k];
    var ub := knots[ii - 1];
    var index := ii - I + p - k - 1;
    Bracket(knots, p, I, u, k, index);
    var co1 := (ua - u) / (ua - ub);
    var co2 := (u - ub) / (ua - ub);
    RoundStep(s.xs, knots, p, I, u, k, index, ua, ub, co1, co2);
    RoundStep(s.ys, knots, p, I, u, k, index, ua, ub, co1, co2);
    RoundStep(s.zs, knots, p, I, u, k, index, ua, ub, co1, co2);
    CombineEntry(dx, index, co1, co2, Round(s.xs, knots, p, I, u, k), Round(s.xs, knots, p, I, u, k - 1));
    CombineEntry(dy, index, co1, co2, Round(s.ys, knots, p, I, u, k), Round(s.ys, knots, p, I, u, k - 1));
    CombineEntry(dz, index, co1, co2, Round(s.zs, knots, p, I, u, k), Round(s.zs, knots, p, I, u, k - 1));
  }

  /** Round `k` of the de Boor loop of spline_call: the inner loop over `ii`,
      which turns the first `p-k+2` entries of each working array from round
      `k-1` into the first `p-k+1` entries of round `k`. */
  method DeBoorRound(dx: array<real>, dy: array<real>, dz: array<real>, u: real, s: Spline, I: int, k: nat)
    requires SpanOk(s.xs, s.knots, s.degree, I, u)
    requires SpanOk(s.ys, s.knots, s.degree, I, u)
    requires SpanOk(s.zs, s.knots, s.degree, I, u)
    requires 1 <= k <= s.degree
    requires dx != dy && dy != dz && dx != dz
    requires Holds(dx, dy, dz, u, s, I, k - 1)
    modifies dx, dy, dz
    ensures Holds(dx, dy, dz, u, s, I, k)
  {
    var p := s.degree;
    ghost var cx, px := Round(s.xs, s.knots, p, I, u, k), Round(s.xs, s.knots, p, I, u, k - 1);
    ghost var cy, py := Round(s.ys, s.knots, p, I, u, k), Round(s.ys, s.knots, p, I, u, k - 1);
    ghost var cz, pz := Round(s.zs, s.knots, p, I, u, k), Round(s.zs, s.knots, p, I, u, k - 1);
    MixedStart(dx[..], cx, px);
    MixedStart(dy[..], cy, py);
    MixedStart(dz[..], cz, pz);
    var base := I - p + k + 1;
    for ii := base to I + 2
      invariant Mixed(dx[..], cx, px, ii - base)
      invariant Mixed(dy[..], cy, py, ii - base)
      invariant Mixed(dz[..], cz, pz, ii - base)
    {
      DeBoorStep(dx, dy, dz, u, s, I, k, ii);
    }
    MixedEnd(dx[..], cx, px);
    MixedEnd(dy[..], cy, py);
    MixedEnd(dz[..], cz, pz);
  }

  /** The initialisation loop of spline_call: the three working arrays receive
      the control points `I-p+1 .. I+1`. */
  method SeedArrays(dx: array<real>, dy: array<real>, dz: array<real>, s: Spline, I: int)
    requires dx.Length == dy.Length == dz.Length == s.degree + 1
    requires dx != dy && dy != dz && dx != dz
    requires 0 <= I - s.degree + 1 && I + 2 <= |s.xs| && I + 2 <= |s.ys| && I + 2 <= |s.zs|
    modifies dx, dy, dz
    ensures dx[..] == s.xs[I - s.degree + 1 .. I + 2]
    ensures dy[..] == s.ys[I - s.degree + 1 .. I + 2]
    ensures dz[..] == s.zs[I - s.degree + 1 .. I + 2]
  {
    var p := s.degree;
    for ii := 0 to p + 1
      invariant forall m :: 0 <= m < ii ==> dx[m] == s.xs[I - p + 1 + m]
      invariant forall m :: 0 <= m < ii ==> dy[m] == s.ys[I - p + 1 + m]
      invariant forall m :: 0 <= m < ii ==> dz[m] == s.zs[I - p + 1 + m]
    {
      var idx := I - p + 1 + ii;
      dx[ii] := s.xs[idx];
      dy[ii] := s.ys[idx];
      dz[ii] := s.zs[idx];
    }
  }

  /** The de Boor part of spline_call, for a `u` in span `I`: seeds three
      working arrays with the control points `I-p+1 .. I+1` and overwrites them
      in place, round after round, until entry 0 holds the curve point. */
  method DeBoorPoint(u: real, s: Spline, I: int) returns (pt: Point)
    requires SpanOk(s.xs, s.knots, s.degree, I, u)
    requires SpanOk(s.ys, s.knots, s.degree, I, u)
    requires SpanOk(s.zs, s.knots, s.degree, I, u)
    ensures pt == Point(Round(s.xs, s.knots, s.degree, I, u, s.degree)[0],
                        Round(s.ys, s.knots, s.degree, I, u, s.degree)[0],
                        Round(s.zs, s.knots, s.degree, I, u, s.degree)[0])
  {
    var p := s.degree;
    var dx := new real[p + 1](_ => 0.0);
    var dy := new real[p + 1](_ => 0.0);
    var dz := new real[p + 1](_ => 0.0);
    SeedArrays(dx, dy, dz, s, I);
    assert dx[..p + 1] == dx[..];
    assert dy[..p + 1] == dy[..];
    assert dz[..p + 1] == dz[..];
    for ik := 1 to p + 1
      invariant Holds(dx, dy, dz, u, s, I, ik - 1)
    {
      DeBoorRound(dx, dy, dz, u, s, I, ik);
    }
    assert Holds(dx, dy, dz, u, s, I, p);
    pt := Point(dx[0], dy[0], dz[0]);
  }

  /** Strictly inside the domain, the span spline_get_index finds holds `u`
      and leaves room for the de Boor triangle of every coordinate. */
  lemma FirstSpanOk(u: real, s: Spline)
    requires WellFormed(s)
    requires Domain(s.knots, s.degree).0 < u < Domain(s.knots, s.degree).1
    ensures var I := FirstSpan(u, s.knots, s.degree - 1, |s.knots| - s.degree);
            && SpanOk(s.xs, s.knots, s.degree, I, u)
            && SpanOk(s.ys, s.knots, s.degree, I, u)
            && SpanOk(s.zs, s.knots, s.degree, I, u)
  {
    var p := s.degree;
    SpanExists(s.knots, p - 1, |s.knots| - p, u);
    var I := FirstSpan(u, s.knots, p - 1, |s.knots| - p);
    SortedKnotsOk(s.knots, p, I, u);
  }

  /** The point spline_call returns for parameter `u`: the origin outside the
      domain, the first or last control point at the two ends, and in between
      the apex of the de Boor triangle over the span spline_get_index finds. */
  ghost function SplineAt(u: real, s: Spline): Point
    requires WellFormed(s)
  {
    var (start, end) := Domain(s.knots, s.degree);
    if u < start || u > end then Point(0.0, 0.0, 0.0)
    else if u == start then Point(s.xs[0], s.ys[0], s.zs[0])
    else if u == end then Point(s.xs[|s.xs| - 1], s.ys[|s.ys| - 1], s.zs[|s.zs| - 1])
    else
      var I := FirstSpan(u, s.knots, s.degree - 1, |s.knots| - s.degree);
      FirstSpanOk(u, s);
      Point(Round(s.xs, s.knots, s.degree, I, u, s.degree)[0],
            Round(s.ys, s.knots, s.degree, I, u, s.degree)[0],
            Round(s.zs, s.knots, s.degree, I, u, s.degree)[0])
  }

  /** The apex of the de Boor triangles over span `I` lies in the hull of the
      control points. */
  lemma ApexInHull(u: real, s: Spline, I: int)
    requires WellFormed(s)
    requires SpanOk(s.xs, s.knots, s.degree, I, u)
    requires SpanOk(s.ys, s.knots, s.degree, I, u)
    requires SpanOk(s.zs, s.knots, s.degree, I, u)
    ensures InHull(Point(Round(s.xs, s.knots, s.degree, I, u, s.degree)[0],
                         Round(s.ys, s.knots, s.degree, I, u, s.degree)[0],
                         Round(s.zs, s.knots, s.degree, I, u, s.degree)[0]), s)
  {
    var p := s.degree;
    RoundInRange(s.xs, s.knots, p, I, u, p, SeqMin(s.xs), SeqMax(s.xs));
    RoundInRange(s.ys, s.knots, p, I, u, p, SeqMin(s.ys), SeqMax(s.ys));
    RoundInRange(s.zs, s.knots, p, I, u, p, SeqMin(s.zs), SeqMax(s.zs));
  }

  /** Every control point lies in the hull. */
  lemma ControlPointInHull(s: Spline, i: int)
    requires WellFormed(s) && 0 <= i < |s.xs|
    ensures InHull(Point(s.xs[i], s.ys[i], s.zs[i]), s)
  {
  }

  /** Convex hull property of the evaluated curve: on its domain the spline
      stays, coordinate by coordinate, within the range of its control points. */
  lemma SplineInHull(u: real, s: Spline)
    requires WellFormed(s)
    requires Domain(s.knots, s.degree).0 <= u <= Domain(s.knots, s.degree).1
    ensures InHull(SplineAt(u, s), s)
  {
    var (start, end) := Domain(s.knots, s.degree);
    if u == start {
      ControlPointInHull(s, 0);
    } else if u == end {
      ControlPointInHull(s, |s.xs| - 1);
    } else {
      var I := FirstSpan(u, s.knots, s.degree - 1, |s.knots| - s.degree);
      FirstSpanOk(u, s);
      ApexInHull(u, s, I);
    }
  }

  /** The de Boor branch of spline_call, for `u` strictly inside the domain. */
  method InteriorPoint(u: real, s: Spline) returns (pt: Point)
    requires WellFormed(s)
    requires Domain(s.knots, s.degree).0 < u < Domain(s.knots, s.degree).1
    ensures pt == SplineAt(u, s)
  {
    var I := GetIndex(u, s.knots, s.degree);
    FirstSpanOk(u, s);
    pt := DeBoorPoint(u, s, I);
  }

  /** spline_call: evaluates the spline at `u`. */
  method SplineCall(u: real, s: Spline) returns (pt: Point)
    requires WellFormed(s)
    ensures pt == SplineAt(u, s)
    ensures var (start, end) := Domain(s.knots, s.degree);
            && (u < start || u > end ==> pt == Point(0.0, 0.0, 0.0))
            && (start <= u <= end ==> InHull(pt, s))
  {
    var (domStart, domEnd) := Domain(s.knots, s.degree);
    if u < domStart || u > domEnd {
      return Point(0.0, 0.0, 0.0);
    }
    if u == domStart {
      pt := Point(s.xs[0], s.ys[0], s.zs[0]);
    } else if u == domEnd {
      pt := Point(s.xs[|s.xs| - 1], s.ys[|s.ys| - 1], s.zs[|s.zs| - 1]);
    } else {
      pt := InteriorPoint(u, s);
    }
    SplineInHull(u, s);
  }
}
