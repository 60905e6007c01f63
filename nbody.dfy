/** The pair enumeration of the n-body benchmark: a hand-written
    `itertools.combinations(l, 2)` that appends `(l[x], y)` for every `y`
    after position `x`, row by row. */
module NBody {

  /** The pairs whose first element is `l[x]`: `(l[x], l[y])` for
      `y = x + 1, ..., |l| - 1`, in that order. */
  function Row<T>(l: seq<T>, x: nat): (r: seq<(T, T)>)
    requires x < |l|
    ensures |r| == |l| - x - 1
    ensures forall k :: 0 <= k < |r| ==> r[k] == (l[x], l[x + 1 + k])
  {
    seq(|l| - x - 1, k requires 0 <= k < |l| - x - 1 => (l[x], l[x + 1 + k]))
  }

  /** The rows of the first `m` positions, concatenated in position order. */
  function Rows<T>(l: seq<T>, m: nat): seq<(T, T)>
    requires m <= |l|
  {
    if m == 0 then [] else Rows(l, m - 1) + Row(l, m - 1)
  }

  /** The number of outer iterations: `range(len(l) - 1)` is empty when the
      list has fewer than two elements. */
  function Outer(n: nat): (m: nat)
    ensures m <= n && (n >= 1 ==> m == n - 1) && (n <= 1 ==> m == 0)
  {
    if n == 0 then 0 else n - 1
  }

  /** The list combinations(l) returns. */
  function Pairs<T>(l: seq<T>): seq<(T, T)>
  {
    Rows(l, Outer(|l|))
  }

  /** The list of positions `[0, 1, ..., n - 1]`. */
  function Positions(n: nat): (p: seq<int>)
    ensures |p| == n && forall i :: 0 <= i < n ==> p[i] == i
  {
    seq(n, i => i)
  }

  /** Lexicographic order on index pairs. */
  predicate Before(p: (int, int), q: (int, int))
  {
    p.0 < q.0 || (p.0 == q.0 && p.1 < q.1)
  }

  /** combinations(l): the outer loop runs over `x` in `range(len(l) - 1)`,
      the inner one over the slice `l[x + 1:]`, which is a copy, so `l`
      itself is never touched. */
  method Combinations<T>(l: seq<T>) returns (result: seq<(T, T)>)
    ensures result == Pairs(l)
  {
    result := [];
    var x := 0;
    while x < |l| - 1
      invariant 0 <= x <= Outer(|l|)
      invariant result == Rows(l, x)
    {
      var ls := l[x + 1..];
      var k := 0;
      while k < |ls|
        invariant 0 <= k <= |ls|
        invariant result == Rows(l, x) + Row(l, x)[..k]
      {
        result := result + [(l[x], ls[k])];
        k := k + 1;
      }
      x := x + 1;
    }
  }

  /** combinations(l) has `n * (n - 1) / 2` entries for a list of length `n`;
      lists of length 0 or 1 give the empty list. */
  lemma PairsLength<T>(l: seq<T>)
    ensures 2 * |Pairs(l)| == |l| * (|l| - 1)
    ensures |l| <= 1 <==> Pairs(l) == []
  {
    RowsLength(l, Outer(|l|));
    if |l| >= 2 {
      assert |Row(l, 0)| == |l| - 1 > 0;
      RowsPrefix(l, 1, Outer(|l|));
      assert Rows(l, 1) == Row(l, 0);
    }
  }

  lemma {:induction false} RowsLength<T>(l: seq<T>, m: nat)
    requires m <= |l|
    ensures 2 * |Rows(l, m)| == m * (2 * |l| - m - 1)
  {
    if m > 0 {
      RowsLength(l, m - 1);
      var n := |l|;
      calc {
        2 * |Rows(l, m)|;
        2 * |Rows(l, m - 1)| + 2 * (n - m);
        (m - 1) * (2 * n - m) + 2 * (n - m);
        { assert (m - 1) * (2 * n - m) == m * (2 * n - m) - (2 * n - m); }
        m * (2 * n - m) - m;
        m * (2 * n - m - 1);
      }
    }
  }

  /** Rows of fewer positions are a prefix of rows of more positions. */
  lemma {:induction false} RowsPrefix<T>(l: seq<T>, m1: nat, m2: nat)
    requires m1 <= m2 <= |l|
    ensures Rows(l, m1) <= Rows(l, m2)
  {
    if m1 < m2 {
      RowsPrefix(l, m1, m2 - 1);
    }
  }

  /** Enumeration is natural in the list: entry `k` of combinations(l) is
      `(l[i], l[j])` where `(i, j)` is entry `k` of the enumeration of the
      positions of `l`. */
  lemma PairsAtPositions<T>(l: seq<T>)
    ensures var c := Pairs(Positions(|l|));
            && |Pairs(l)| == |c|
            && forall k :: 0 <= k < |c| ==>
                 0 <= c[k].0 < c[k].1 < |l| && Pairs(l)[k] == (l[c[k].0], l[c[k].1])
  {
    RowsAtPositions(l, Outer(|l|));
  }

  lemma {:induction false} RowsAtPositions<T>(l: seq<T>, m: nat)
    requires m <= |l|
    ensures var c := Rows(Positions(|l|), m);
            && |Rows(l, m)| == |c|
            && forall k :: 0 <= k < |c| ==>
                 0 <= c[k].0 < m && c[k].0 < c[k].1 < |l| && Rows(l, m)[k] == (l[c[k].0], l[c[k].1])
  {
    if m > 0 {
      RowsAtPositions(l, m - 1);
      var p := Positions(|l|);
      var c := Rows(p, m);
      var prev := Rows(p, m - 1);
      var row := Row(p, m - 1);
      assert c == prev + row;
      assert Rows(l, m) == Rows(l, m - 1) + Row(l, m - 1);
      forall k | |prev| <= k < |c|
        ensures 0 <= c[k].0 < m && c[k].0 < c[k].1 < |l| && Rows(l, m)[k] == (l[c[k].0], l[c[k].1])
      {
        var t := k - |prev|;
        assert c[k] == row[t] == (m - 1, m + t);
        assert Rows(l, m)[k] == Row(l, m - 1)[t];
      }
    }
  }

  /** The position pairs come in strictly increasing lexicographic order
      (first position ascending, then second), so no pair occurs twice. */
  lemma PairsOrdered(n: nat)
    ensures var c := Pairs(Positions(n));
            forall k1, k2 :: 0 <= k1 < k2 < |c| ==> Before(c[k1], c[k2])
  {
    assert Pairs(Positions(n)) == Rows(Positions(n), Outer(n));
    RowsOrdered(n, Outer(n));
  }

  lemma {:induction false} RowsOrdered(n: nat, m: nat)
    requires m <= n
    ensures var c := Rows(Positions(n), m);
            forall k1, k2 :: 0 <= k1 < k2 < |c| ==> Before(c[k1], c[k2])
  {
    if m > 0 {
      RowsOrdered(n, m - 1);
      var p := Positions(n);
      RowsAtPositions(p, m - 1);
      assert Rows(Positions(|p|), m - 1) == Rows(p, m - 1);
      var prev := Rows(p, m - 1);
      var row := Row(p, m - 1);
      var c := Rows(p, m);
      assert c == prev + row;
      forall k1, k2 | 0 <= k1 < k2 < |c|
        ensures Before(c[k1], c[k2])
      {
        if k2 >= |prev| {
          assert c[k2] == row[k2 - |prev|] == (m - 1, m + k2 - |prev|);
          if k1 >= |prev| {
            assert c[k1] == row[k1 - |prev|] == (m - 1, m + k1 - |prev|);
          } else {
            assert c[k1] == prev[k1] && prev[k1].0 < m - 1;
          }
        } else {
          assert c[k1] == prev[k1] && c[k2] == prev[k2];
        }
      }
    }
  }

  /** Every pair of positions `i < j` occurs in the enumeration. */
  lemma PairsComplete(n: nat, i: int, j: int)
    requires 0 <= i < j < n
    ensures (i, j) in Pairs(Positions(n))
  {
    var p := Positions(n);
    assert Row(p, i)[j - i - 1] == (i, j);
    RowsPrefix(p, i + 1, Outer(n));
    assert Rows(p, i + 1) == Rows(p, i) + Row(p, i);
    assert Rows(p, i + 1)[|Rows(p, i)| + j - i - 1] == (i, j);
  }

  /** A pair is in combinations(l) exactly when it is `(l[i], l[j])` for some
      positions `i < j`. */
  lemma PairsMembers<T>(l: seq<T>, a: T, b: T)
    ensures (a, b) in Pairs(l) <==> exists i, j :: 0 <= i < j < |l| && (a, b) == (l[i], l[j])
  {
    PairsAtPositions(l);
    var c := Pairs(Positions(|l|));
    if (a, b) in Pairs(l) {
      var k :| 0 <= k < |Pairs(l)| && Pairs(l)[k] == (a, b);
      assert (a, b) == (l[c[k].0], l[c[k].1]);
    }
    if exists i, j :: 0 <= i < j < |l| && (a, b) == (l[i], l[j]) {
      var i, j :| 0 <= i < j < |l| && (a, b) == (l[i], l[j]);
      PairsComplete(|l|, i, j);
      var k :| 0 <= k < |c| && c[k] == (i, j);
      assert Pairs(l)[k] == (a, b);
    }
  }
}
