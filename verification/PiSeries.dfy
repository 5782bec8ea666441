/** The weights of the mixed-radix array and the series they sum to.

    Cell j of the spigot's array stands for array[j] * Weight(j).  With these weights the
    sum of all Weight(j) is pi / 2 (Euler's series), so 2000 times a partial sum
    approximates 1000 * pi from below.

    The `hide` statements keep the bodies of the weight functions, and the divisions in
    them, away from proofs that only need the facts stated in the contracts. */
module PiSeries {

  function Weight(j: nat): (w: real)
    requires 1 <= j
    ensures 0.0 < w <= 1.0
  {
    if j == 1 then 1.0 else Weight(j - 1) * Ratio(j - 1)
  }

  /** The quotient of two neighbouring weights, Weight(j + 1) / Weight(j). */
  function Ratio(j: nat): (r: real)
    requires 1 <= j
    ensures 0.0 < r <= 0.5
    ensures r * (2 * j + 1) as real == j as real
  {
    j as real / (2 * j + 1) as real
  }

  /** The factor with which a carry out of cell j + 1 enters the total. */
  function CarryWeight(j: nat): (u: real)
    ensures 0.0 < u
  {
    if j == 0 then 1.0 else j as real * Weight(j)
  }

  function EulerSum(n: nat): (s: real)
    ensures 0.0 <= s
  {
    if n == 0 then 0.0 else EulerSum(n - 1) + Weight(n)
  }

  /** 10000 to the power p. */
  function Scale(p: nat): (s: real)
    ensures 1.0 <= s
  {
    if p == 0 then 1.0 else 10000.0 * Scale(p - 1)
  }

  function Pow2(n: nat): (p: real)
    ensures 1.0 <= p
  {
    if n == 0 then 1.0 else 2.0 * Pow2(n - 1)
  }

  lemma Times(a: real, b: real, c: real)
    requires a <= b && 0.0 <= c
    ensures a * c <= b * c
  {
  }

  lemma SameTimes(a: real, b: real, c: real)
    requires a == b
    ensures a * c == b * c
  {
  }

  lemma WeightUnfold(j: nat)
    requires 1 <= j
    ensures Weight(j + 1) == Weight(j) * Ratio(j)
  {
  }

  lemma Halve(w: real, next: real, r: real)
    requires next == w * r
    requires 0.0 <= w && r <= 0.5
    ensures 2.0 * next <= w
  {
    Times(r, 0.5, w);
  }

  lemma WeightHalves(j: nat)
    requires 1 <= j
    ensures 2.0 * Weight(j + 1) <= Weight(j)
  {
    hide Weight, Ratio;
    WeightUnfold(j);
    Halve(Weight(j), Weight(j + 1), Ratio(j));
  }

  lemma Rescale(next: real, w: real, r: real, m: real, c: real)
    requires next == w * r
    requires r * m == c
    ensures m * next == c * w
  {
    SameTimes(next, w * r, m);
    SameTimes(r * m, c, w);
  }

  /** Carries telescope: what leaves cell j, times 2j - 1, is what enters cell j - 1. */
  lemma WeightStep(j: nat, m: real)
    requires 1 <= j && m == (2 * j - 1) as real
    ensures m * Weight(j) == CarryWeight(j - 1)
  {
    if j == 1 {
      assert Weight(1) == 1.0;
    } else {
      hide Weight, Ratio;
      WeightUnfold(j - 1);
      var c := (j - 1) as real;
      assert Ratio(j - 1) * m == c;
      Rescale(Weight(j), Weight(j - 1), Ratio(j - 1), m, c);
    }
  }

  /** The series only grows, and everything after cell m is at most 2 * Weight(m + 1). */
  lemma {:induction false} EulerTail(m: nat, n: nat)
    requires m <= n
    ensures EulerSum(m) <= EulerSum(n) <= EulerSum(m) + 2.0 * Weight(m + 1) - 2.0 * Weight(n + 1)
  {
    hide Weight;
    if m < n {
      EulerTail(m, n - 1);
      WeightHalves(n);
    }
  }

  lemma HalveAndDouble(next: real, w: real, p: real, q: real)
    requires 2.0 * next <= w && p == 2.0 * q && 0.0 <= q
    ensures next * p <= w * q
  {
    Times(2.0 * next, w, q);
    SameTimes(p, 2.0 * q, next);
  }

  lemma {:induction false} WeightDrop(j: nat, n: nat)
    requires 1 <= j
    ensures Weight(j + n) * Pow2(n) <= Weight(j)
  {
    if n != 0 {
      WeightDrop(j, n - 1);
      assert Pow2(n) == 2.0 * Pow2(n - 1);
      hide Weight, Pow2;
      WeightHalves(j + n - 1);
      HalveAndDouble(Weight(j + n), Weight(j + n - 1), Pow2(n), Pow2(n - 1));
    }
  }

  lemma Pow2Of14()
    ensures Pow2(13) == 8192.0 && Pow2(14) == 16384.0
  {
    assert Pow2(4) == 16.0;
    assert Pow2(8) == 256.0;
    assert Pow2(12) == 4096.0;
  }

  /** The weight of the last cell of the first k blocks, counted in units of digit group k. */
  function BlockWeight(k: nat): (z: real)
    requires 1 <= k
    ensures 0.0 < z
  {
    Scale(k) * Weight(14 * k)
  }

  lemma DropAlgebra(s: real, s': real, w: real, w': real)
    requires 0.0 <= s && s' == 10000.0 * s
    requires w' * 16384.0 <= w
    ensures s' * w' * 16384.0 <= s * w * 10000.0
  {
    Times(w' * 16384.0, w, s);
    SameTimes(s', 10000.0 * s, w');
  }

  lemma WeightDropsBlock(j: nat)
    requires 1 <= j
    ensures Weight(j + 14) * 16384.0 <= Weight(j)
  {
    hide Weight;
    Pow2Of14();
    WeightDrop(j, 14);
  }

  lemma ScaleNext(k: nat)
    ensures Scale(k + 1) == 10000.0 * Scale(k)
  {
  }

  /** Fourteen cells are worth more than four decimal digits: 2^14 > 10000. */
  lemma BlockWeightDrop(k: nat)
    requires 1 <= k
    ensures BlockWeight(k + 1) * 16384.0 <= BlockWeight(k) * 10000.0
  {
    hide Weight, Scale;
    WeightDropsBlock(14 * k);
    ScaleNext(k);
    assert 14 * (k + 1) == 14 * k + 14;
    DropAlgebra(Scale(k), Scale(k + 1), Weight(14 * k), Weight(14 * k + 14));
  }

  lemma FirstBlockWeight()
    ensures BlockWeight(1) * 8192.0 <= 10000.0
  {
    WeightDrop(1, 13);
    Pow2Of14();
    assert Weight(1) == 1.0;
    assert Scale(1) == 10000.0;
  }
}
