/** The statistics of the metairq_dispatch sample: integer square root, mean and deviation, in
    the source's integer types. */
module MetaIrqStats {
  import opened MachineIntegers

  const INT_MAX := 0x7fff_ffff

  newtype uint32 = x: int | 0 <= x < 0x1_0000_0000
  newtype uint64 = x: int | 0 <= x < 0x1_0000_0000_0000_0000

  predicate IsRoot(n: int, r: int) {
    r * r <= n < (r + 1) * (r + 1)
  }

  /** The integer square root of every 64-bit number.  The types say that neither the 32-bit
      shift of the root nor the square of hi overflows. */
  function Isqrt(n: uint64): (r: uint32)
    ensures IsRoot(n as int, r as int)
    decreases n as int
  {
    if n > 1 then Refine(n, Isqrt(n / 4))
    else
      assert IsRoot(0, 0) && IsRoot(1, 1);
      n as uint32
  }

  /** From the root of a quarter of n to the root of n. */
  function Refine(n: uint64, root: uint32): (r: uint32)
    requires IsRoot(n as int / 4, root as int)
    ensures IsRoot(n as int, r as int)
  {
    RootOfQuarter(n as int, root as int, 2 * root as int + 1);
    var lo := (root * 2) as uint64;
    var hi := lo + 1;
    assert hi as int == 2 * root as int + 1;
    if hi * hi > n then lo as uint32 else hi as uint32
  }

  lemma RootOfQuarter(n: int, r: int, hi: int)
    requires 0 <= n < 0x1_0000_0000_0000_0000 && 0 <= r && IsRoot(n / 4, r) && hi == 2 * r + 1
    ensures r < 0x8000_0000 && 0 <= hi * hi < 0x1_0000_0000_0000_0000
    ensures IsRoot(n, if hi * hi > n then hi - 1 else hi)
  {
    if r >= TWO31 {
      Square(TWO31, r);
    }
    assert (hi + 1) * (hi + 1) == 4 * ((r + 1) * (r + 1));
    assert (hi - 1) * (hi - 1) == 4 * (r * r);
    Square(hi, TWO32 - 1);
  }

  lemma Square(a: int, b: int)
    ensures 0 <= a <= b ==> a * a <= b * b
  {
  }

  /** (s32_t) of a u32 difference is the true difference modulo 2^32, and the true difference while
      that fits 32 bits. */
  function Deviation(x: int, mean: int): (d: int)
    ensures -0x8000_0000 <= d < 0x8000_0000 && (x - mean - d) % 0x1_0000_0000 == 0
    ensures -0x8000_0000 <= x - mean < 0x8000_0000 ==> d == x - mean
  {
    CastIsModular(x - mean);
    S32(U32(x - mean))
  }

  lemma CastIsModular(v: int)
    ensures (v - S32(U32(v))) % 0x1_0000_0000 == 0
    ensures -0x8000_0000 <= v < 0x8000_0000 ==> S32(U32(v)) == v
  {
    var q, u := v / TWO32, v % TWO32;
    assert v == q * TWO32 + u && U32(v) == u;
    if u < TWO31 {
      MultipleOf32(q);
    } else {
      assert S32(u) == u - TWO32 by {
        MultipleOf32(1);
      }
      MultipleOf32(q + 1);
    }
  }

  lemma MultipleOf32(q: int)
    ensures (q * 0x1_0000_0000) % 0x1_0000_0000 == 0
  {
  }

  function Samples(s: seq<uint32>): (r: seq<int>)
    ensures |r| == |s| && forall i :: 0 <= i < |s| ==> r[i] == s[i] as int
  {
    seq(|s|, i requires 0 <= i < |s| => s[i] as int)
  }

  function Sum(s: seq<int>): int {
    if s == [] then 0 else Sum(s[..|s| - 1]) + s[|s| - 1]
  }

  /** The sum of squared deviations, as the loop accumulates it before wrapping. */
  function SumSquares(s: seq<int>, mean: int): int {
    if s == [] then 0
    else SumSquares(s[..|s| - 1], mean) + Deviation(s[|s| - 1], mean) * Deviation(s[|s| - 1], mean)
  }

  predicate Between(s: seq<int>, lo: int, hi: int) {
    forall i :: 0 <= i < |s| ==> lo <= s[i] <= hi
  }

  function RoundedMean(s: seq<int>): int
    requires s != []
  {
    (Sum(s) + |s| / 2) / |s|
  }

  /** The rounded mean of squares, in the u64 of the source. */
  function MeanSquare(squares: int, n: int): uint64
    requires 0 < n
  {
    QuotientFits(U64(U64(squares) + n / 2), n);
    (U64(U64(squares) + n / 2) / n) as uint64
  }

  lemma QuotientFits(t: int, n: int)
    requires 0 <= t < TWO64 && 0 < n
    ensures 0 <= t / n < TWO64
  {
  }

  function StandardDeviation(s: seq<int>): uint32
    requires s != []
  {
    Isqrt(MeanSquare(SumSquares(s, RoundedMean(s)), |s|))
  }

  lemma MeanSquareIs(squares: int, wrapped: int, n: int)
    requires 0 < n && wrapped == U64(squares)
    ensures 0 <= U64(wrapped + n / 2) / n < TWO64
    ensures MeanSquare(squares, n) as int == U64(wrapped + n / 2) / n
  {
    hide U64;
    QuotientFits(U64(wrapped + n / 2), n);
  }

  lemma DeviationIs(s: seq<int>, mean: int)
    requires s != [] && mean == RoundedMean(s)
    ensures StandardDeviation(s) == Isqrt(MeanSquare(SumSquares(s, mean), |s|))
  {
  }

  lemma {:induction false} SumBetween(s: seq<int>, lo: int, hi: int)
    requires Between(s, lo, hi)
    ensures |s| * lo <= Sum(s) <= |s| * hi
  {
    if s != [] {
      SumBetween(s[..|s| - 1], lo, hi);
      OneMore(|s| - 1, lo);
      OneMore(|s| - 1, hi);
    }
  }

  lemma OneMore(n: int, x: int)
    ensures (n + 1) * x == n * x + x
  {
  }

  /** The mean lies between the extremes and is off by at most half a unit, upwards in a tie. */
  lemma MeanProperties(s: seq<int>, lo: int, hi: int)
    requires s != [] && Between(s, lo, hi)
    ensures lo <= RoundedMean(s) <= hi
    ensures |s| * RoundedMean(s) <= Sum(s) + |s| / 2 < |s| * RoundedMean(s) + |s|
    ensures -(|s| / 2) <= |s| * RoundedMean(s) - Sum(s) <= |s| / 2
  {
    SumBetween(s, lo, hi);
    MeanAlgebra(Sum(s), |s|, lo, hi, RoundedMean(s));
  }

  lemma MeanAlgebra(sum: int, n: int, lo: int, hi: int, m: int)
    requires 0 < n && n * lo <= sum <= n * hi && m == (sum + n / 2) / n
    ensures lo <= m <= hi && -(n / 2) <= n * m - sum <= n / 2
    ensures n * m <= sum + n / 2 < n * m + n
  {
    DivisionBounds(sum + n / 2, n, m);
    if m < lo {
      Times(m + 1, lo, n);
    }
    if m > hi {
      Times(hi + 1, m, n);
    }
  }

  lemma DivisionBounds(t: int, n: int, q: int)
    requires 0 < n && q == t / n
    ensures n * q <= t < n * q + n
  {
  }

  lemma Times(a: int, b: int, n: int)
    requires a <= b && 0 <= n
    ensures n * a <= n * b
  {
  }

  /** Each deviation lies between L and H, so its square lies below the chord. */
  lemma Chord(b: int, l: int, h: int)
    requires l <= b <= h
    ensures b * b <= (l + h) * b - l * h
  {
    assert (b - l) * (h - b) >= 0;
  }

  lemma {:induction false} SquaresBelowChord(s: seq<int>, mean: int, l: int, h: int)
    requires -TWO31 < l <= h < TWO31 && Between(s, mean + l, mean + h)
    ensures SumSquares(s, mean) <= (l + h) * (Sum(s) - |s| * mean) - |s| * (l * h)
  {
    hide Deviation;
    if s != [] {
      var n, x := |s| - 1, s[|s| - 1];
      SquaresBelowChord(s[..n], mean, l, h);
      Chord(x - mean, l, h);
      ChordStep(l + h, Sum(s[..n]), n, x, mean, l * h);
    }
  }

  lemma ChordStep(c: int, sum: int, n: int, x: int, mean: int, p: int)
    ensures c * (sum + x - (n + 1) * mean) - (n + 1) * p == c * (sum - n * mean) - n * p + (c * (x - mean) - p)
  {
  }

  /** An integer form of Popoviciu's inequality, for deviations from the rounded mean. */
  lemma Popoviciu(s: seq<int>, lo: int, hi: int)
    requires s != [] && Between(s, lo, hi) && hi - lo < TWO31
    ensures 4 * SumSquares(s, RoundedMean(s)) <= |s| * ((hi - lo) * (hi - lo) + 1)
  {
    hide SumSquares, RoundedMean, Sum;
    var m, n := RoundedMean(s), |s|;
    MeanProperties(s, lo, hi);
    var l, h := lo - m, hi - m;
    SquaresBelowChord(s, m, l, h);
    PopoviciuAlgebra(SumSquares(s, m), l, h, Sum(s) - n * m, n);
    assert h - l == hi - lo;
  }

  lemma PopoviciuAlgebra(q: int, l: int, h: int, b: int, n: int)
    requires 0 < n && -n <= 2 * b <= n
    requires q <= (l + h) * b - n * (l * h)
    ensures 4 * q <= n * ((h - l) * (h - l) + 1)
  {
    var c := l + h;
    CrossTerm(c, b, n);
    assert (h - l) * (h - l) == c * c - 4 * (l * h);
    assert n * ((h - l) * (h - l) + 1) == n * (c * c + 1) - 4 * (n * (l * h));
  }

  lemma CrossTerm(c: int, b: int, n: int)
    requires 0 < n && -n <= 2 * b <= n
    ensures 4 * (c * b) <= n * (c * c + 1)
    decreases c < 0
  {
    if c < 0 {
      CrossTerm(-c, -b, n);
      SignsCancel(c, b);
      SignsCancel(c, c);
    } else {
      Times(2 * b, n, c);
      TwiceBelowSquare(c);
      Times(2 * c, c * c + 1, n);
      Regroup(c, b, n);
    }
  }

  lemma SignsCancel(c: int, b: int)
    ensures -c * -b == c * b
  {
  }

  lemma TwiceBelowSquare(c: int)
    ensures 2 * c <= c * c + 1
  {
    assert (c - 1) * (c - 1) >= 0;
  }

  lemma Regroup(c: int, b: int, n: int)
    ensures 4 * (c * b) == 2 * (c * (2 * b)) && 2 * (c * n) == n * (2 * c)
  {
  }

  /** Spread and squares stay within the integer types of calc_stats. */
  predicate Representable(s: seq<int>, lo: int, hi: int) {
    hi - lo < TWO31 && |s| * ((hi - lo) * (hi - lo) + 1) < TWO64
  }

  /** Twice the deviation reported exceeds the spread by at most one, and it does exactly when
      the samples are split evenly between two neighbouring values. */
  lemma DeviationBound(s: seq<int>, lo: int, hi: int)
    requires s != [] && Between(s, lo, hi) && Representable(s, lo, hi)
    ensures 2 * StandardDeviation(s) as int <= hi - lo + 1
    ensures 2 * StandardDeviation(s) as int > hi - lo <==> hi - lo == 1 && 2 * Sum(s) == |s| * (lo + hi)
  {
    hide Between, Representable, Sum, SumSquares, RoundedMean, MeanSquare, Isqrt, IsRoot, U64;
    var q, n, m := SumSquares(s, RoundedMean(s)), |s|, RoundedMean(s);
    SpreadFacts(s, lo, hi);
    Popoviciu(s, lo, hi);
    SquaresNonnegative(s, m);
    var v := MeanSquareExact(q, n);
    RootLow(v as int, Isqrt(v) as int);
    RootBound(q, n, hi - lo, v as int, Isqrt(v) as int);
    if hi - lo == 1 {
      MeanProperties(s, lo, lo + 1);
      UnitSquares(s, m, lo);
      SumBetween(s, lo, lo + 1);
      MeanIs(s, Sum(s), n);
      UnitSpread(Sum(s), n, lo, m, q, v as int, Isqrt(v) as int);
      assert lo + hi == lo + (lo + 1);
    }
  }

  lemma MeanSquareExact(q: int, n: int) returns (v: uint64)
    requires 0 < n && 0 <= q && 4 * q < TWO64 && n < TWO64
    ensures v == MeanSquare(q, n) && v as int == (q + n / 2) / n
    ensures n * v as int <= q + n / 2
  {
    v := MeanSquare(q, n);
    DivisionBounds(q + n / 2, n, v as int);
  }

  /** The sum of squared differences, in unbounded integers. */
  function TrueSquares(s: seq<int>, m: int): int {
    if s == [] then 0
    else TrueSquares(s[..|s| - 1], m) + (s[|s| - 1] - m) * (s[|s| - 1] - m)
  }

  lemma {:induction false} SquaresAreTrue(s: seq<int>, m: int, lo: int, hi: int)
    requires Between(s, lo, hi) && lo <= m <= hi && hi - lo < TWO31
    ensures SumSquares(s, m) == TrueSquares(s, m)
  {
    hide Deviation;
    if s != [] {
      SquaresAreTrue(s[..|s| - 1], m, lo, hi);
      assert lo <= s[|s| - 1] <= hi;
    }
  }

  /** The deviation reported is the root, rounded down, of the rounded mean of the true squared
      differences: no wrap-around in the loop or in the casts falsifies it. */
  lemma DeviationIsRoot(s: seq<int>, lo: int, hi: int)
    requires s != [] && Between(s, lo, hi) && Representable(s, lo, hi)
    ensures var n, r := |s|, StandardDeviation(s) as int;
      n * (r * r) <= TrueSquares(s, RoundedMean(s)) + n / 2 < n * ((r + 1) * (r + 1))
  {
    hide Between, Representable, SumSquares, RoundedMean, MeanSquare, Isqrt, IsRoot, U64;
    var q, n, m := SumSquares(s, RoundedMean(s)), |s|, RoundedMean(s);
    SpreadFacts(s, lo, hi);
    MeanProperties(s, lo, hi);
    SquaresAreTrue(s, m, lo, hi);
    Popoviciu(s, lo, hi);
    SquaresNonnegative(s, m);
    var v := MeanSquareExact(q, n);
    RootOfMean(q + n / 2, n, v as int, Isqrt(v) as int);
  }

  /** In every case, overflow of the sum included, it is the root of the rounded mean of the squared
      32-bit differences modulo 2^64. */
  lemma DeviationModulo(s: seq<int>)
    requires s != []
    ensures var t := (SumSquares(s, RoundedMean(s)) + |s| / 2) % 0x1_0000_0000_0000_0000;
      IsRoot(t / |s|, StandardDeviation(s) as int)
  {
    hide SumSquares, RoundedMean, MeanSquare, Isqrt, IsRoot;
    var q, n := SumSquares(s, RoundedMean(s)), |s|;
    MeanSquareIs(q, U64(q), n);
    WrapAdd(q, n / 2);
    SameWrap(q + n / 2);
  }

  lemma SameWrap(x: int)
    ensures U64(x) == x % 0x1_0000_0000_0000_0000
  {
  }

  lemma RootOfMean(t: int, n: int, v: int, r: int)
    requires 0 < n && v == t / n && IsRoot(v, r)
    ensures n * (r * r) <= t < n * ((r + 1) * (r + 1))
  {
    DivisionBounds(t, n, v);
    Times(r * r, v, n);
    Times(v + 1, (r + 1) * (r + 1), n);
    OneMore(v, n);
  }

  lemma RootLow(v: int, r: int)
    requires IsRoot(v, r) && 0 <= r
    ensures r * r <= v && (v == 0 ==> r == 0) && (v == 1 ==> r == 1)
  {
  }

  /** Around a mean next to every sample, squares and distances agree. */
  lemma {:induction false} UnitSquares(s: seq<int>, m: int, lo: int)
    requires Between(s, lo, lo + 1) && lo <= m <= lo + 1
    ensures SumSquares(s, m) == if m == lo then Sum(s) - |s| * lo else |s| * (lo + 1) - Sum(s)
  {
    hide Deviation;
    if s != [] {
      UnitSquares(s[..|s| - 1], m, lo);
      assert lo <= s[|s| - 1] <= lo + 1;
      OneMore(|s| - 1, lo);
      OneMore(|s| - 1, lo + 1);
    }
  }

  lemma UnitSpread(sum: int, n: int, lo: int, m: int, q: int, v: int, r: int)
    requires 0 < n && lo <= m <= lo + 1
    requires n * lo <= sum <= n * (lo + 1) && -(n / 2) <= n * m - sum <= n / 2
    requires m == (sum + n / 2) / n && v == (q + n / 2) / n
    requires q == if m == lo then sum - n * lo else n * (lo + 1) - sum
    requires (v == 0 ==> r == 0) && (v == 1 ==> r == 1)
    ensures 2 * r > 1 <==> 2 * sum == n * (lo + (lo + 1))
  {
    var k := sum - n * lo;
    OneMore(lo, n);
    DivisionBounds(sum + n / 2, n, m);
    UnitMeanSquare(q, n, v);
    assert n * (lo + (lo + 1)) == 2 * (n * lo) + n;
    if m == lo {
      assert n * m == n * lo;
    } else {
      assert n * m == n * lo + n;
    }
  }

  lemma UnitMeanSquare(q: int, n: int, v: int)
    requires 0 < n && 0 <= q <= n && v == (q + n / 2) / n
    ensures v == if 2 * q >= n then 1 else 0
  {
    DivisionBounds(q + n / 2, n, v);
    if v >= 2 {
      Times(2, v, n);
    } else if v < 0 {
      Times(v, -1, n);
    }
  }

  lemma SpreadFacts(s: seq<int>, lo: int, hi: int)
    requires s != [] && Between(s, lo, hi) && Representable(s, lo, hi)
    ensures 0 <= hi - lo < TWO31 && |s| * ((hi - lo) * (hi - lo) + 1) < TWO64
    ensures |s| <= |s| * ((hi - lo) * (hi - lo) + 1)
  {
    assert lo <= s[0] <= hi;
    Times(1, (hi - lo) * (hi - lo) + 1, |s|);
  }

  lemma {:induction false} SquaresNonnegative(s: seq<int>, mean: int)
    ensures 0 <= SumSquares(s, mean)
  {
    hide Deviation;
    if s != [] {
      SquaresNonnegative(s[..|s| - 1], mean);
      var d := Deviation(s[|s| - 1], mean);
      assert d * d >= 0;
    }
  }

  lemma RootBound(q: int, n: int, spread: int, v: int, r: int)
    requires 0 < n && 0 <= spread && 0 <= r
    requires 4 * q <= n * (spread * spread + 1)
    requires n * v <= q + n / 2
    requires r * r <= v
    ensures 2 * r <= spread + 1 && (spread != 1 ==> 2 * r <= spread)
  {
    var p := spread * spread;
    assert 4 * (n * v) <= n * (p + 1) + 2 * n;
    assert 4 * v <= p + 3 by {
      if p + 4 <= 4 * v {
        Times(p + 4, 4 * v, n);
      }
    }
    assert (2 * r) * (2 * r) <= p + 3;
    if 2 * r >= spread + 2 {
      Square(spread + 2, 2 * r);
    }
    if spread != 1 && 2 * r >= spread + 1 {
      Square(spread + 1, 2 * r);
    }
  }

  /** The first loop of calc_stats: extremes and total. */
  method Extremes(a: array<uint32>, n: uint32) returns (lo: uint32, hi: uint32, tot: uint64)
    requires 0 < n as int <= a.Length && n as int <= INT_MAX
    ensures var s := Samples(a[..n]);
      && Between(s, lo as int, hi as int) && hi as int in s
      && (lo as int in s || (lo as int == 0x7fff_ffff && forall i :: 0 <= i < |s| ==> s[i] > 0x7fff_ffff))
      && tot as int == Sum(s)
    ensures tot as int < 0xffff_ffff_8000_0000
  {
    hide Sum, Samples;
    ghost var s := Samples(a[..n]);
    NoSamples();
    lo, hi, tot := INT_MAX as uint32, 0, 0;
    var i: uint32 := 0;
    while i < n
      invariant 0 <= i <= n
      invariant tot as int == Sum(s[..i]) <= i as int * (TWO32 - 1)
      invariant Between(s[..i], lo as int, hi as int)
      invariant lo as int <= INT_MAX && (lo as int == INT_MAX || lo as int in s[..i])
      invariant if i == 0 then hi == 0 else hi as int in s[..i]
    {
      PrefixNext(s, i as int);
      TotalFits(tot as int, i as int, a[i] as int);
      lo := if lo < a[i] then lo else a[i];
      hi := if hi > a[i] then hi else a[i];
      tot := tot + a[i] as uint64;
      i := i + 1;
    }
    assert s[..n] == s;
  }

  lemma TotalFits(tot: int, i: int, x: int)
    requires 0 <= i < INT_MAX && 0 <= tot <= i * (TWO32 - 1) && 0 <= x < TWO32
    ensures tot + x <= (i + 1) * (TWO32 - 1) && tot + x < TWO64
  {
  }

  /** The second loop of calc_stats: squared deviations, summed in 64 bits. */
  method Squares(a: array<uint32>, n: uint32, mean: uint32) returns (totsq: uint64)
    requires n as int <= a.Length
    ensures totsq as int == U64(SumSquares(Samples(a[..n]), mean as int))
  {
    hide Sum, SumSquares, Samples, U64, U32, S32, Deviation;
    ghost var s := Samples(a[..n]);
    NoSamples();
    totsq := 0;
    var i: uint32 := 0;
    while i < n
      invariant 0 <= i <= n
      invariant totsq as int == U64(SumSquares(s[..i], mean as int))
    {
      var d := S32(U32(a[i] as int - mean as int));
      SquaresNext(s, i as int, mean as int);
      WrapAdd(SumSquares(s[..i], mean as int), d * d);
      totsq := U64(totsq as int + d * d) as uint64;
      i := i + 1;
    }
    assert s[..n] == s;
  }

  function Half(n: uint32): (h: uint64)
    ensures h as int == n as int / 2 && h < 0x8000_0000
  {
    (n / 2) as uint64
  }

  /** calc_stats.  The lowest value is capped at INT_MAX, where the search for it starts. */
  method CalcStats(a: array<uint32>, n: uint32) returns (lo: uint32, hi: uint32, mean: uint32, stdev: uint32)
    requires 0 < n as int <= a.Length && n as int <= INT_MAX
    ensures var s := Samples(a[..n]);
      && Between(s, lo as int, hi as int) && hi as int in s
      && (lo as int in s || (lo as int == 0x7fff_ffff && forall i :: 0 <= i < |s| ==> s[i] > 0x7fff_ffff))
      && mean as int == RoundedMean(s)
      && stdev == StandardDeviation(s)
  {
    hide *;
    ghost var s := Samples(a[..n]);
    var tot, totsq: uint64;
    lo, hi, tot := Extremes(a, n);
    MeanProperties(s, lo as int, hi as int);
    MeanIs(s, tot as int, n as int);
    var half := Half(n);
    mean := ((tot + half) / n as uint64) as uint32;
    totsq := Squares(a, n, mean);
    MeanSquareIs(SumSquares(s, mean as int), totsq as int, n as int);
    DeviationIs(s, mean as int);
    stdev := Isqrt((U64(totsq as int + half as int) / n as int) as uint64);
  }

  lemma PrefixNext(s: seq<int>, i: nat)
    requires i < |s|
    ensures s[..i + 1] == s[..i] + [s[i]] && Sum(s[..i + 1]) == Sum(s[..i]) + s[i]
  {
    assert s[..i + 1][..i] == s[..i];
  }

  lemma SquaresNext(s: seq<int>, i: nat, mean: int)
    requires i < |s|
    ensures var d := S32(U32(s[i] - mean)); SumSquares(s[..i + 1], mean) == SumSquares(s[..i], mean) + d * d
  {
    assert s[..i + 1][..i] == s[..i];
  }

  lemma NoSamples()
    ensures Sum([]) == 0 && forall mean :: SumSquares([], mean) == 0
    ensures U64(0) == 0
  {
  }

  lemma MeanIs(s: seq<int>, total: int, n: int)
    requires s != [] && total == Sum(s) && n == |s|
    ensures RoundedMean(s) == (total + n / 2) / n
  {
  }
}
