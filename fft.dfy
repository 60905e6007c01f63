/** The integer part of the SciMark FFT: the base-2 logarithm of the data
    length and the bit-reversal reordering of complex entries.

    The data array holds `n = N / 2` complex numbers as interleaved pairs
    (real part at `2p`, imaginary part at `2p + 1`).  Bit reversal moves
    complex entry `p` to the position whose `log2(n)` low bits are those of
    `p` in reverse order. */
module Fft {
  import opened Wrappers

  /** `n` is a power of two. */
  predicate IsPow2(n: int)
    decreases if n < 0 then 0 else n
  {
    n == 1 || (n > 1 && n % 2 == 0 && IsPow2(n / 2))
  }

  /** The exponent of a power of two. */
  function Log2(n: int): (b: nat)
    requires IsPow2(n)
    ensures Pow2(b) == n
    decreases if n < 0 then 0 else n
  {
    if n == 1 then 0 else 1 + Log2(n / 2)
  }

  lemma {:induction false} Pow2IsPow2(e: nat)
    ensures IsPow2(Pow2(e))
  {
    if e > 0 {
      Pow2IsPow2(e - 1);
      assert Pow2(e) / 2 == Pow2(e - 1);
    }
  }

  /** Different exponents give different powers of two. */
  lemma Pow2Injective(a: nat, b: nat)
    requires Pow2(a) == Pow2(b)
    ensures a == b
  {
    if a < b {
      Pow2Monotone(a, b);
    } else if b < a {
      Pow2Monotone(b, a);
    }
  }

  /** The loop of int_log2: doubles `k` from 1 until it reaches `n`, counting
      the doublings.  The count is the least `log` with `2^log >= n`. */
  method Log2Ceil(n: int) returns (log: nat)
    ensures Pow2(log) >= n
    ensures log == 0 || Pow2(log - 1) < n
  {
    var k := 1;
    log := 0;
    while k < n
      invariant k == Pow2(log)
      invariant log == 0 || Pow2(log - 1) < n
      decreases n - k
    {
      k := k * 2;
      log := log + 1;
    }
  }

  /** The least `log` with `2^log >= n` is the exponent of `n` when `n` is a
      power of two. */
  lemma Log2CeilOfPow2(n: int, log: nat)
    requires Pow2(log) >= n && (log == 0 || Pow2(log - 1) < n)
    ensures IsPow2(n) <==> n == Pow2(log)
  {
    if n == Pow2(log) {
      Pow2IsPow2(log);
    }
    if IsPow2(n) {
      var e := Log2(n);
      if log < e {
        Pow2Monotone(log, e);
      } else if e < log {
        if e < log - 1 {
          Pow2Monotone(e, log - 1);
        }
      }
    }
  }

  // ----- bit reversal ------------------------------------------------------

  /** The low `b` bits of `i` in reverse order. */
  function Rev(i: nat, b: nat): (r: nat)
    ensures r < Pow2(b)
  {
    if b == 0 then 0 else (if i % 2 == 1 then Pow2(b - 1) else 0) + Rev(i / 2, b - 1)
  }

  /** Reversing `b` bits turns the top bit `c` into the lowest one. */
  lemma {:induction false} RevTop(c: nat, r: nat, b: nat)
    requires b >= 1 && c <= 1 && r < Pow2(b - 1)
    ensures Rev((if c == 1 then Pow2(b - 1) else 0) + r, b) == 2 * Rev(r, b - 1) + c
  {
    var top := if c == 1 then Pow2(b - 1) else 0;
    var y := top + r;
    if b == 1 {
      assert r == 0 && y == c;
    } else {
      var q := Pow2(b - 2);
      var top' := if c == 1 then q else 0;
      assert Pow2(b - 1) == 2 * q && top == 2 * top';
      assert y == 2 * (top' + r / 2) + r % 2;
      Halves(y, top' + r / 2, r % 2);
      RevTop(c, r / 2, b - 1);
      assert Rev(y, b) == (if r % 2 == 1 then Pow2(b - 1) else 0) + Rev(top' + r / 2, b - 1);
      assert Rev(r, b - 1) == (if r % 2 == 1 then q else 0) + Rev(r / 2, b - 2);
    }
  }

  /** `2 * h + l`, for a last bit `l`, halves to `h` with remainder `l`. */
  lemma Halves(y: int, h: int, l: int)
    requires y == 2 * h + l && (l == 0 || l == 1)
    ensures y / 2 == h && y % 2 == l
  {
  }

  /** Reversing the bits twice gives the number back. */
  lemma {:induction false} RevInvolution(i: nat, b: nat)
    requires i < Pow2(b)
    ensures Rev(Rev(i, b), b) == i
  {
    if b > 0 {
      var c := i % 2;
      var r := Rev(i / 2, b - 1);
      RevInvolution(i / 2, b - 1);
      assert Rev(i, b) == (if c == 1 then Pow2(b - 1) else 0) + r;
      RevTop(c, r, b);
      assert i == 2 * (i / 2) + c;
    }
  }

  /** Low zero bits disappear from the reversal: they become high zero bits. */
  lemma {:induction false} RevShift(x: nat, t: nat, b: nat)
    requires t <= b
    ensures Rev(x * Pow2(t), b) == Rev(x, b - t)
  {
    if t > 0 {
      var y := x * Pow2(t - 1);
      assert x * Pow2(t) == 2 * y;
      assert (2 * y) % 2 == 0 && (2 * y) / 2 == y;
      RevShift(x, t - 1, b - 1);
    }
  }

  /** One round of the inner `while k <= j` loop of FFT_bitreverse, with `i`
      written as `q * 2^t + (2^t - 1)` (its `t` low bits are ones) and `j`
      the reversal of the remaining bits `q`.  When the top bit `k` is set in
      `j`, the next bit of `i` is a one too, and clearing it leaves `j` the
      reversal of `q / 2`. */
  lemma InnerStep(i: nat, b: nat, t: nat, q: nat)
    requires t < b && i < Pow2(b) - 1
    requires i == q * Pow2(t) + Pow2(t) - 1
    requires Pow2(b - 1 - t) <= Rev(q, b - t)
    ensures t + 1 < b
    ensures Rev(q, b - t) - Pow2(b - 1 - t) == Rev(q / 2, b - (t + 1))
    ensures Pow2(b - 1 - t) / 2 == Pow2(b - 1 - (t + 1))
    ensures i == (q / 2) * Pow2(t + 1) + Pow2(t + 1) - 1
  {
    assert q % 2 == 1;
    var h := q / 2;
    var p := Pow2(t);
    assert q == 2 * h + 1;
    assert q * p == h * (2 * p) + p;
    assert Pow2(t + 1) == 2 * p;
    assert h * Pow2(t + 1) >= 0;
    assert Pow2(t + 1) < Pow2(b);
  }

  /** When the inner loop stops, adding the top bit `k` still clear in `j`
      gives the reversal of `i + 1`. */
  lemma InnerExit(i: nat, b: nat, t: nat, q: nat)
    requires t < b
    requires i == q * Pow2(t) + Pow2(t) - 1
    requires Rev(q, b - t) < Pow2(b - 1 - t)
    ensures Rev(q, b - t) + Pow2(b - 1 - t) == Rev(i + 1, b)
  {
    assert q % 2 == 0;
    assert (q + 1) % 2 == 1 && (q + 1) / 2 == q / 2;
    assert i + 1 == (q + 1) * Pow2(t);
    RevShift(q + 1, t, b);
  }

  /** The two-entry blocks `ii, ii+1` and `jj, jj+1` exchanged, as the swap
      of FFT_bitreverse writes them. */
  function SwapPairs(s: seq<real>, ii: int, jj: int): (r: seq<real>)
    requires 0 <= ii && ii + 1 < jj && jj + 1 < |s|
    ensures |r| == |s|
  {
    seq(|s|, e requires 0 <= e < |s| =>
      if e == ii then s[jj] else if e == ii + 1 then s[jj + 1]
      else if e == jj then s[ii] else if e == jj + 1 then s[ii + 1]
      else s[e])
  }

  /** What the step's swap puts at both ends. */
  lemma SwapPairsEnds(s: seq<real>, ii: int, jj: int, c: int)
    requires 0 <= ii && ii + 1 < jj && jj + 1 < |s| && 0 <= c <= 1
    ensures SwapPairs(s, ii, jj)[ii + c] == s[jj + c]
    ensures SwapPairs(s, ii, jj)[jj + c] == s[ii + c]
  {
  }

  /** Exchanging two entries keeps the multiset of values. */
  lemma SwapOneMultiset(s: seq<real>, a: int, c: int)
    requires 0 <= a < c < |s|
    ensures multiset(s[a := s[c]][c := s[a]]) == multiset(s)
  {
    var u := s[a := s[c]];
    assert multiset(u) == multiset(s) - multiset{s[a]} + multiset{s[c]};
    assert u[c] == s[c];
    assert multiset(u[c := s[a]]) == multiset(u) - multiset{s[c]} + multiset{s[a]};
  }

  /** The two swaps of one step, one after the other. */
  lemma SwapPairsSplit(s: seq<real>, ii: int, jj: int)
    requires 0 <= ii && ii + 1 < jj && jj + 1 < |s|
    ensures var u := s[ii := s[jj]][jj := s[ii]];
            SwapPairs(s, ii, jj) == u[ii + 1 := u[jj + 1]][jj + 1 := u[ii + 1]]
  {
    var u := s[ii := s[jj]][jj := s[ii]];
    var w := u[ii + 1 := u[jj + 1]][jj + 1 := u[ii + 1]];
    var t := SwapPairs(s, ii, jj);
    forall e | 0 <= e < |s| ensures w[e] == t[e] {
    }
    assert w == t;
  }

  /** Swapping two pairs permutes the data. */
  lemma SwapPairsMultiset(s: seq<real>, ii: int, jj: int)
    requires 0 <= ii && ii + 1 < jj && jj + 1 < |s|
    ensures multiset(SwapPairs(s, ii, jj)) == multiset(s)
  {
    var u := s[ii := s[jj]][jj := s[ii]];
    SwapPairsSplit(s, ii, jj);
    SwapOneMultiset(s, ii, jj);
    SwapOneMultiset(u, ii + 1, jj + 1);
  }

  /** `n` complex entries are reordered over `b` bits: `n` is `2^b`, or there
      is nothing to reorder. */
  predicate Shape(n: nat, b: nat)
  {
    n == 0 || n == Pow2(b)
  }

  /** The complex entry that, after the swaps for `0 .. i-1`, sits at `p`:
      its reversal if that pair was already visited, itself otherwise. */
  function Source(p: nat, b: nat, i: nat): nat
  {
    if p < i || Rev(p, b) < i then Rev(p, b) else p
  }

  /** The position of the real at `e` once its complex entry is moved to the
      bit reversal of its pair index. */
  function Mate(e: nat, b: nat): (f: nat)
    ensures e < 2 * Pow2(b) ==> f < 2 * Pow2(b)
  {
    2 * Rev(e / 2, b) + e % 2
  }

  /** The position the real at `e` is taken from after `i` steps. */
  function Moved(e: nat, b: nat, i: nat): (f: nat)
    ensures e < 2 * Pow2(b) ==> f < 2 * Pow2(b)
  {
    2 * Source(e / 2, b, i) + e % 2
  }

  lemma MovedAt(p: nat, c: nat, b: nat, i: nat)
    requires c <= 1
    ensures Moved(2 * p + c, b, i) == 2 * Source(p, b, i) + c
    ensures Mate(2 * p + c, b) == 2 * Rev(p, b) + c
  {
    assert (2 * p + c) / 2 == p && (2 * p + c) % 2 == c;
  }

  /** The data after the outer loop of FFT_bitreverse has run for `i` steps. */
  function Partial(s: seq<real>, n: nat, b: nat, i: nat): (r: seq<real>)
    requires 2 * n <= |s| && Shape(n, b)
    ensures |r| == |s|
  {
    seq(|s|, e requires 0 <= e < |s| => if e < 2 * n then s[Moved(e, b, i)] else s[e])
  }

  /** The number of bits of a pair index: `log2(n)`, and 0 when there are no
      pairs. */
  function Bits(n: nat): (b: nat)
    requires n == 0 || IsPow2(n)
    ensures Shape(n, b)
  {
    if n == 0 then 0 else Log2(n)
  }

  /** The number of complex entries in `N` reals: `N // 2`, or none. */
  function Pairs(N: int): nat
  {
    if N / 2 <= 0 then 0 else N / 2
  }

  /** Bit-reversal of the `n = 2^b` complex entries of `s`; entries past
      `2n` stay. */
  function BitReversed(s: seq<real>, n: nat, b: nat): (r: seq<real>)
    requires 2 * n <= |s| && Shape(n, b)
    ensures |r| == |s|
  {
    seq(|s|, e requires 0 <= e < |s| => if e < 2 * n then s[Mate(e, b)] else s[e])
  }

  /** Splits a real position into its pair and its part. */
  lemma Split(e: nat) returns (p: nat, c: nat)
    ensures e == 2 * p + c && c <= 1
  {
    p, c := e / 2, e % 2;
  }

  lemma PartialStart(s: seq<real>, n: nat, b: nat)
    requires 2 * n <= |s| && Shape(n, b)
    ensures Partial(s, n, b, 0) == s
  {
    forall e | 0 <= e < 2 * n ensures Partial(s, n, b, 0)[e] == s[e] {
      var p, c := Split(e);
      MovedAt(p, c, b, 0);
    }
  }

  /** The all-ones number is its own reversal. */
  lemma {:induction false} AllOnesRev(b: nat)
    ensures Rev(Pow2(b) - 1, b) == Pow2(b) - 1
  {
    if b > 0 {
      var m := Pow2(b) - 1;
      assert m % 2 == 1 && m / 2 == Pow2(b - 1) - 1;
      AllOnesRev(b - 1);
    }
  }

  /** After all `n - 1` steps every complex entry holds its reversal. */
  lemma PartialEnd(s: seq<real>, n: nat, b: nat, i: nat)
    requires 2 * n <= |s| && Shape(n, b)
    requires (n == 0 && i == 0) || (n >= 1 && i == n - 1)
    ensures Partial(s, n, b, i) == BitReversed(s, n, b)
  {
    if n >= 1 {
      AllOnesRev(b);
      forall e | 0 <= e < 2 * n ensures Partial(s, n, b, i)[e] == BitReversed(s, n, b)[e] {
        var p, c := Split(e);
        MovedAt(p, c, b, i);
      }
    }
  }

  /** Where a visit to pair `i` (with reversal `j`) moves the entries: pairs
      `i` and `j` take each other's source when `i < j`, every other source
      stays. */
  lemma SourceStep(n: nat, b: nat, i: nat, p: nat)
    requires n == Pow2(b) && i < n && p < n
    ensures var j := Rev(i, b);
            Source(p, b, i + 1) ==
              (if i < j && p == i then j else if i < j && p == j then i else Source(p, b, i))
  {
    RevInvolution(i, b);
    RevInvolution(p, b);
  }

  /** Entry `c` of pair `p` of `Partial`. */
  lemma PartialAt(s: seq<real>, n: nat, b: nat, i: nat, p: nat, c: nat)
    requires 2 * n <= |s| && Shape(n, b) && p < n && c <= 1
    ensures Partial(s, n, b, i)[2 * p + c] == s[2 * Source(p, b, i) + c]
  {
    MovedAt(p, c, b, i);
  }

  /** The swap at pair `i` lands pair `j` on pair `i`, and back. */
  lemma PartialSwapEnds(s: seq<real>, n: nat, b: nat, i: nat, c: nat)
    requires 2 * n <= |s| && n == Pow2(b) && i < Rev(i, b) && c <= 1
    ensures Partial(s, n, b, i + 1)[2 * i + c] == Partial(s, n, b, i)[2 * Rev(i, b) + c]
    ensures Partial(s, n, b, i + 1)[2 * Rev(i, b) + c] == Partial(s, n, b, i)[2 * i + c]
  {
    var j := Rev(i, b);
    RevInvolution(i, b);
    SourceStep(n, b, i, i);
    SourceStep(n, b, i, j);
    PartialAt(s, n, b, i + 1, i, c);
    PartialAt(s, n, b, i + 1, j, c);
    PartialAt(s, n, b, i, j, c);
    PartialAt(s, n, b, i, i, c);
  }

  /** Pairs other than `i` and its reversal keep their source. */
  lemma PartialSwapElse(s: seq<real>, n: nat, b: nat, i: nat, p: nat, c: nat)
    requires 2 * n <= |s| && n == Pow2(b) && i < n && p < n && c <= 1
    requires p != i && p != Rev(i, b)
    ensures Partial(s, n, b, i + 1)[2 * p + c] == Partial(s, n, b, i)[2 * p + c]
  {
    SourceStep(n, b, i, p);
    PartialAt(s, n, b, i + 1, p, c);
    PartialAt(s, n, b, i, p, c);
  }

  /** The swap at pair `i` matches the next state at both swapped pairs. */
  lemma SwapStepEnds(s: seq<real>, n: nat, b: nat, i: nat, c: nat)
    requires 2 * n <= |s| && n == Pow2(b) && i < Rev(i, b) && c <= 1
    ensures var w := SwapPairs(Partial(s, n, b, i), 2 * i, 2 * Rev(i, b));
            && w[2 * i + c] == Partial(s, n, b, i + 1)[2 * i + c]
            && w[2 * Rev(i, b) + c] == Partial(s, n, b, i + 1)[2 * Rev(i, b) + c]
  {
    PartialSwapEnds(s, n, b, i, c);
    SwapPairsEnds(Partial(s, n, b, i), 2 * i, 2 * Rev(i, b), c);
  }

  lemma SwapStepElse(s: seq<real>, n: nat, b: nat, i: nat, e: nat)
    requires 2 * n <= |s| && n == Pow2(b) && i < Rev(i, b) && e < |s|
    requires e / 2 != i && e / 2 != Rev(i, b)
    ensures SwapPairs(Partial(s, n, b, i), 2 * i, 2 * Rev(i, b))[e] == Partial(s, n, b, i + 1)[e]
  {
    var w := SwapPairs(Partial(s, n, b, i), 2 * i, 2 * Rev(i, b));
    assert w[e] == Partial(s, n, b, i)[e];
    if e < 2 * n {
      var p, c := Split(e);
      PartialSwapElse(s, n, b, i, p, c);
    }
  }

  lemma SwapStepAt(s: seq<real>, n: nat, b: nat, i: nat, e: nat)
    requires 2 * n <= |s| && n == Pow2(b) && i < Rev(i, b) && e < |s|
    ensures SwapPairs(Partial(s, n, b, i), 2 * i, 2 * Rev(i, b))[e] == Partial(s, n, b, i + 1)[e]
  {
    var p, c := Split(e);
    if p == i || p == Rev(i, b) {
      SwapStepEnds(s, n, b, i, c);
    } else {
      SwapStepElse(s, n, b, i, e);
    }
  }

  lemma KeepStepAt(s: seq<real>, n: nat, b: nat, i: nat, e: nat)
    requires 2 * n <= |s| && n == Pow2(b) && i < n && Rev(i, b) <= i && e < |s|
    ensures Partial(s, n, b, i)[e] == Partial(s, n, b, i + 1)[e]
  {
    if e < 2 * n {
      var p, c := Split(e);
      SourceStep(n, b, i, p);
      PartialAt(s, n, b, i + 1, p, c);
      PartialAt(s, n, b, i, p, c);
    }
  }

  /** One step of the outer loop at `i`, `j` being the reversal of `i`: if
      `i < j` the pairs `i` and `j` are exchanged, otherwise nothing moves. */
  lemma PartialStep(s: seq<real>, n: nat, b: nat, i: nat)
    requires 2 * n <= |s| && n == Pow2(b) && i < n - 1
    ensures i < Rev(i, b) ==> SwapPairs(Partial(s, n, b, i), 2 * i, 2 * Rev(i, b)) == Partial(s, n, b, i + 1)
    ensures i >= Rev(i, b) ==> Partial(s, n, b, i) == Partial(s, n, b, i + 1)
  {
    if i < Rev(i, b) {
      forall e | 0 <= e < |s|
        ensures SwapPairs(Partial(s, n, b, i), 2 * i, 2 * Rev(i, b))[e] == Partial(s, n, b, i + 1)[e]
      {
        SwapStepAt(s, n, b, i, e);
      }
    } else {
      forall e | 0 <= e < |s| ensures Partial(s, n, b, i)[e] == Partial(s, n, b, i + 1)[e] {
        KeepStepAt(s, n, b, i, e);
      }
    }
  }

  /** `Rev(0, b)` is 0: the start value of `j`. */
  lemma {:induction false} RevZero(b: nat)
    ensures Rev(0, b) == 0
  {
    if b > 0 {
      RevZero(b - 1);
    }
  }

  /** The inner `while k <= j` loop of FFT_bitreverse with the `j += k`
      after it: from the reversal of `i` it computes the reversal of `i + 1`,
      clearing the leading ones of `j` (the trailing ones of `i`) and setting
      the next bit. */
  method NextRev(n: int, i: int, j: int, ghost b: nat) returns (j': int)
    requires n == Pow2(b) && 0 <= i < n - 1 && j == Rev(i, b)
    ensures j' == Rev(i + 1, b)
  {
    assert b >= 1;
    j' := j;
    var k := n / 2;
    ghost var t: nat := 0;
    ghost var q: nat := i;
    while k <= j'
      invariant t < b
      invariant k == Pow2(b - 1 - t)
      invariant i == q * Pow2(t) + Pow2(t) - 1
      invariant j' == Rev(q, b - t)
      decreases b - t
    {
      InnerStep(i, b, t, q);
      j' := j' - k;
      k := k / 2;
      q, t := q / 2, t + 1;
    }
    InnerExit(i, b, t, q);
    j' := j' + k;
  }

  /** The six assignments of the swap in FFT_bitreverse. */
  method SwapInPlace(data: array<real>, ii: int, jj: int)
    requires 0 <= ii && ii + 1 < jj && jj + 1 < data.Length
    modifies data
    ensures data[..] == SwapPairs(old(data[..]), ii, jj)
  {
    var tmpReal := data[ii];
    var tmpImag := data[ii + 1];
    data[ii] := data[jj];
    data[ii + 1] := data[jj + 1];
    data[jj] := tmpReal;
    data[jj + 1] := tmpImag;
    assert data[..] == SwapPairs(old(data[..]), ii, jj) by {
      forall e | 0 <= e < data.Length ensures data[e] == SwapPairs(old(data[..]), ii, jj)[e] {
      }
    }
  }

  /** One pass of the outer loop of FFT_bitreverse: the swap of pairs `i`
      and `j` when `i < j`, then the step of `j` to the next reversal. */
  method VisitPair(data: array<real>, n: int, i: int, j: int, ghost s: seq<real>, ghost b: nat)
    returns (j': int)
    requires 2 * n <= |s| == data.Length && n == Pow2(b) && 0 <= i < n - 1 && j == Rev(i, b)
    requires data[..] == Partial(s, n, b, i)
    modifies data
    ensures data[..] == Partial(s, n, b, i + 1) && j' == Rev(i + 1, b)
  {
    var ii := i * 2;
    var jj := j * 2;
    PartialStep(s, n, b, i);
    if i < j {
      SwapInPlace(data, ii, jj);
    }
    j' := NextRev(n, i, j, b);
  }

  /** FFT_bitreverse(N, data): walks `i` over `0 .. n-2` for `n = N // 2`
      while `j` runs through the bit reversals of `i`, and exchanges the
      complex entries `i` and `j` whenever `i < j`.  The data ends bit-reversed
      and is a permutation of what it was.  When `n` is above one and not a
      power of two the inner loop stops moving `k` at zero and never ends, so
      `n` must be a power of two, as int_log2 checks before every call; `N` is
      the length of the data at every call. */
  method BitReverse(N: int, data: array<real>)
    requires N <= data.Length
    requires N / 2 <= 1 || IsPow2(N / 2)
    modifies data
    ensures data[..] == BitReversed(old(data[..]), Pairs(N), Bits(Pairs(N)))
    ensures multiset(data[..]) == multiset(old(data[..]))
  {
    var n := N / 2;
    var nm1 := n - 1;
    ghost var nn := Pairs(N);
    ghost var b := Bits(nn);
    ghost var s := data[..];
    PartialStart(s, nn, b);
    RevZero(b);
    var j := 0;
    var i := 0;
    while i < nm1
      invariant 0 <= i <= (if nm1 >= 0 then nm1 else 0)
      invariant nn == (if n <= 0 then 0 else n) && Shape(nn, b)
      invariant nm1 > 0 ==> nn == n == Pow2(b) && j == Rev(i, b)
      invariant data[..] == Partial(s, nn, b, i)
    {
      j := VisitPair(data, n, i, j, s, b);
      i := i + 1;
    }
    PartialEnd(s, nn, b, i);
    BitReversedMultiset(s, nn, b);
  }

  lemma StepMultiset(a: seq<real>, c: seq<real>, m: multiset<real>, swapped: bool, ii: int, jj: int)
    requires multiset(a) == m
    requires swapped ==> 0 <= ii && ii + 1 < jj && jj + 1 < |a| && c == SwapPairs(a, ii, jj)
    requires !swapped ==> c == a
    ensures multiset(c) == m
  {
    if swapped {
      SwapPairsMultiset(a, ii, jj);
    }
  }

  /** Every step of the outer loop keeps the values, only moving them. */
  lemma {:induction false} PartialMultiset(s: seq<real>, n: nat, b: nat, i: nat)
    requires 2 * n <= |s| && Shape(n, b) && (i == 0 || i < n)
    ensures multiset(Partial(s, n, b, i)) == multiset(s)
  {
    if i == 0 {
      PartialStart(s, n, b);
    } else {
      var k := i - 1;
      var j := Rev(k, b);
      var a := Partial(s, n, b, k);
      var c := Partial(s, n, b, i);
      PartialMultiset(s, n, b, k);
      PartialStep(s, n, b, k);
      StepMultiset(a, c, multiset(s), k < j, 2 * k, 2 * j);
    }
  }

  /** Bit reversal is a permutation of the data. */
  lemma BitReversedMultiset(s: seq<real>, n: nat, b: nat)
    requires 2 * n <= |s| && Shape(n, b)
    ensures multiset(BitReversed(s, n, b)) == multiset(s)
  {
    var i := if n == 0 then 0 else n - 1;
    PartialEnd(s, n, b, i);
    PartialMultiset(s, n, b, i);
  }

  lemma BitReversedTwiceAt(s: seq<real>, n: nat, b: nat, e: nat)
    requires 2 * n <= |s| && n == Pow2(b) && e < 2 * n
    ensures BitReversed(BitReversed(s, n, b), n, b)[e] == s[e]
  {
    var B := BitReversed(s, n, b);
    var p, c := Split(e);
    MovedAt(p, c, b, 0);
    assert p < n;
    var m := 2 * Rev(p, b) + c;
    assert B[e] == s[m];
    MovedAt(Rev(p, b), c, b, 0);
    RevInvolution(p, b);
    assert BitReversed(B, n, b)[e] == B[m];
  }

  /** Bit reversal undoes itself. */
  lemma BitReversedTwice(s: seq<real>, n: nat, b: nat)
    requires 2 * n <= |s| && Shape(n, b)
    ensures BitReversed(BitReversed(s, n, b), n, b) == s
  {
    if n > 0 {
      forall e | 0 <= e < 2 * n ensures BitReversed(BitReversed(s, n, b), n, b)[e] == s[e] {
        BitReversedTwiceAt(s, n, b, e);
      }
    }
  }
}
