/** How large the numbers in the spigot get, and how much the abandoned cells can be worth. */
module PiBounds {
  import opened PiSeries
  import opened PiSpigot

  /** Cells 1 .. n hold remainders: cell k was last reduced modulo 2 k - 1. */
  predicate Reduced(a: seq<int>, n: nat)
    requires n < |a|
  {
    forall k :: 1 <= k <= n ==> 0 <= a[k] <= 2 * k - 2
  }

  /** The state of the first pass, which starts from ARRAY_INIT rather than from remainders. */
  predicate Early(a: seq<int>, j: nat, sum: int)
    requires j < |a|
  {
    && 0 <= sum <= 40_000_000 && sum * j <= 20_000_000
    && forall k :: 1 <= k <= j ==> 0 <= a[k] <= ARRAY_INIT
  }

  predicate Late(a: seq<int>, j: nat, sum: int)
    requires j < |a|
  {
    0 <= sum <= 20000 && Reduced(a, j)
  }

  /** Every number formed before a division in the rest of the pass lies in 0 .. bound. */
  predicate DividendsWithin(a: seq<int>, j: nat, sum: int, bound: int)
    requires j < |a|
    decreases j
  {
    j != 0 ==>
      && 0 <= Dividend(sum, a[j], j) <= bound
      && DividendsWithin(a[j := Left(sum, a[j], j)], j - 1, CarryOut(sum, a[j], j), bound)
  }

  lemma QuotientBound(t: int, m: int, bound: int)
    requires 0 <= t <= bound * m && 0 < m
    ensures 0 <= t / m <= bound
  {
    if bound + 1 <= t / m {
      Product(bound + 1, t / m, m);
    }
  }

  lemma Product(a: int, b: int, c: int)
    requires a <= b && 0 <= c
    ensures a * c <= b * c
  {
  }

  lemma EarlyCell(sum: int, x: int, j: nat)
    requires 1 <= j && 0 <= sum && sum * j <= 20_000_000 && 0 <= x <= ARRAY_INIT
    ensures 0 <= sum * j && 0 <= Dividend(sum, x, j) <= 40_000_000
    ensures 0 <= CarryOut(sum, x, j) <= 40_000_000
    ensures CarryOut(sum, x, j) * (j - 1) <= 20_000_000
  {
    Product(0, sum, j);
    EarlyQuotient(Dividend(sum, x, j), 2 * j - 1, CarryOut(sum, x, j), j);
  }

  lemma EarlyQuotient(t: int, m: int, q: int, j: int)
    requires 1 <= j && m == 2 * j - 1 && 0 <= t <= 40_000_000 && q == t / m
    ensures 0 <= q <= 40_000_000 && q * (j - 1) <= 20_000_000
  {
    Product(1, m, 40_000_000);
    QuotientBound(t, m, 40_000_000);
    Divides(t, m);
    TwiceAtMost(q, j, m * q);
  }

  lemma TwiceAtMost(q: int, j: int, t: int)
    requires 0 <= q && t == (2 * j - 1) * q && t <= 40_000_000
    ensures q * (j - 1) <= 20_000_000
  {
    assert t == 2 * (q * (j - 1)) + q;
  }

  lemma LateCell(sum: int, x: int, j: nat)
    requires 1 <= j && 0 <= sum <= 20000 && 0 <= x <= 2 * j - 2
    ensures 0 <= sum * j <= 20000 * j && 0 <= Dividend(sum, x, j) <= 20000 * (2 * j - 1)
    ensures 0 <= CarryOut(sum, x, j) <= 20000
  {
    Product(sum, 20000, j);
    Product(0, sum, j);
    QuotientBound(Dividend(sum, x, j), 2 * j - 1, 20000);
  }

  /** Pass one: no number before a division exceeds 40,000,000. */
  lemma {:induction false} FirstPassBounds(a: seq<int>, j: nat, sum: int)
    requires j < |a| && Early(a, j, sum)
    ensures DividendsWithin(a, j, sum, 40_000_000)
    ensures var r := Pass(a, j, sum); 0 <= r.sum <= 40_000_000 && Reduced(r.cells, j)
    decreases j
  {
    if j != 0 {
      hide Dividend, CarryOut, Left;
      EarlyCell(sum, a[j], j);
      FirstPassBounds(a[j := Left(sum, a[j], j)], j - 1, CarryOut(sum, a[j], j));
    }
  }

  /** Later passes: the quotient never exceeds 20000, so for n cells nothing exceeds
      20000 * (2 n - 1). */
  lemma {:induction false} LaterPassBounds(a: seq<int>, j: nat, sum: int, n: nat)
    requires j <= n && j < |a| && Late(a, j, sum)
    ensures DividendsWithin(a, j, sum, 20000 * (2 * n - 1))
    ensures var r := Pass(a, j, sum); 0 <= r.sum <= 20000 && Reduced(r.cells, j)
    decreases j
  {
    if j != 0 {
      hide Dividend, CarryOut, Left;
      LateCell(sum, a[j], j);
      LaterPassBounds(a[j := Left(sum, a[j], j)], j - 1, CarryOut(sum, a[j], j), n);
    }
  }

  /** Any run from remainders emits values of at most 10001 and leaves remainders behind. */
  lemma {:induction false} RunBounds(a: seq<int>, p: nat, carry: int)
    requires 14 * p < |a| && Reduced(a, 14 * p) && 0 <= carry < NEW_BASE
    ensures var r := Spigot(a, p, carry);
      && (forall k :: 0 <= k < p ==> 0 <= r.values[k] <= 10001)
      && 0 <= r.carry < NEW_BASE && Reduced(r.cells, 14 * p)
    decreases p
  {
    if p != 0 {
      hide Pass;
      LaterPassBounds(a, 14 * p, 0, 14 * p);
      var pass := Pass(a, 14 * p, 0);
      RunBounds(pass.cells, p - 1, pass.sum % NEW_BASE);
    }
  }

  /** The whole program: the first value is at most 4000, the others at most 10001. */
  lemma SpigotBounds(p: nat)
    ensures var r := Spigot(Initial(p), p, 0);
      && (p > 0 ==> 0 <= r.values[0] <= 4000)
      && (forall k :: 0 <= k < p ==> 0 <= r.values[k] <= 10001)
      && 0 <= r.carry < NEW_BASE && Reduced(r.cells, 14 * p)
  {
    if p != 0 {
      hide Pass;
      var a := Initial(p);
      FirstPassBounds(a, 14 * p, 0);
      var pass := Pass(a, 14 * p, 0);
      RunBounds(pass.cells, p - 1, pass.sum % NEW_BASE);
    }
  }

  lemma CellAtMost(x: int, j: nat)
    requires 1 <= j && 0 <= x <= 2 * j - 2
    ensures 0.0 <= CellWorth(x, j) <= 2.0 * CarryWeight(j - 1) - 2.0 * CarryWeight(j)
  {
    hide Weight, CarryWeight, CellWorth;
    CellWorthUnfold(x, j);
    CarryWeightUnfold(j);
    var w, m := Weight(j), (2 * j - 1) as real;
    WeightStep(j, m);
    CellAtMostAlgebra(x as real, j as real, m, w, CarryWeight(j), CarryWeight(j - 1), CellWorth(x, j));
  }

  lemma CellAtMostAlgebra(x: real, j: real, m: real, w: real, u: real, u': real, worth: real)
    requires 0.0 <= x <= 2.0 * j - 2.0 && 0.0 <= w
    requires m == 2.0 * j - 1.0
    requires u == j * w
    requires m * w == u'
    requires worth == x * w
    ensures 0.0 <= worth <= 2.0 * u' - 2.0 * u
  {
    Times(0.0, x, w);
    Times(x, 2.0 * j - 2.0, w);
    SameTimes(m, 2.0 * j - 1.0, w);
  }

  /** Remainders in cells m + 1 .. n are worth less than twice a unit carry into cell m. */
  lemma {:induction false} WorthAtMost(a: seq<int>, m: nat, n: nat)
    requires m <= n < |a| && Reduced(a, n)
    ensures 0.0 <= Worth(a, n) - Worth(a, m) <= 2.0 * CarryWeight(m) - 2.0 * CarryWeight(n)
  {
    hide CarryWeight, CellWorth;
    if m < n {
      WorthAtMost(a, m, n - 1);
      CellAtMost(a[n], n);
    }
  }

  lemma BlockShareAtMost(a: seq<int>, k: nat)
    requires 1 <= k && 14 * k + 14 < |a| && Reduced(a, 14 * k + 14)
    ensures 0.0 <= BlockShare(Scale(k), BlockWorth(a, k)) <= 28.0 * k as real * BlockWeight(k)
  {
    hide CarryWeight, BlockShare, BlockWeight, Scale, Weight, Worth;
    WorthAtMost(a, 14 * k, 14 * k + 14);
    CarryWeightUnfold(14 * k);
    BlockShareUnfold(Scale(k), BlockWorth(a, k));
    BlockWeightUnfold(k);
    ShareAlgebra(Scale(k), BlockWorth(a, k), (14 * k) as real, k as real, Weight(14 * k), CarryWeight(14 * k),
                 BlockWeight(k), BlockShare(Scale(k), BlockWorth(a, k)));
  }

  lemma BlockShareUnfold(scale: real, worth: real)
    ensures BlockShare(scale, worth) == scale * worth
  {
  }

  lemma BlockWeightUnfold(k: nat)
    requires 1 <= k
    ensures BlockWeight(k) == Scale(k) * Weight(14 * k)
  {
    hide Scale, Weight;
  }

  lemma ShareAlgebra(s: real, worth: real, j: real, k: real, w: real, u: real, z: real, share: real)
    requires 0.0 <= s && 0.0 <= worth <= 2.0 * u
    requires u == j * w
    requires j == 14.0 * k
    requires z == s * w
    requires share == s * worth
    ensures 0.0 <= share <= 28.0 * k * z
  {
    Times(0.0, worth, s);
    Times(worth, 2.0 * u, s);
    SameTimes(j, 14.0 * k, w);
    SameTimes(u, 14.0 * k * w, s);
    SameTimes(z, s * w, k);
  }

  /** Everything abandoned during a run is worth at most 228 units of the last carry: block k
      is worth 56 k * (10000 / 2^14)^k of them, which sums. */
  lemma {:induction false} ResidueBound(a: seq<int>, p: nat)
    requires 1 <= p && 14 * p < |a| && Reduced(a, 14 * p)
    ensures 0.0 <= Residue(a, p) <= 228.0 - (72.0 * p as real + 113.0) * BlockWeight(p)
  {
    hide BlockShare, BlockWeight, BlockWorth, Scale, Residue;
    if p == 1 {
      FirstBlock(a);
      FirstBlockWeight();
    } else {
      ResidueBound(a, p - 1);
      ResidueSplit(a, p);
      BlockShareAtMost(a, p - 1);
      BlockWeightDrop(p - 1);
      ResidueAlgebra((p - 1) as real, p as real, BlockWeight(p - 1), BlockWeight(p), Residue(a, p - 1), Residue(a, p));
    }
  }

  lemma ResidueSplit(a: seq<int>, p: nat)
    requires 1 <= p && 14 * p < |a|
    ensures Residue(a, p) == Residue(a, p - 1) + BlockShare(Scale(p - 1), BlockWorth(a, p - 1))
  {
    hide BlockShare, BlockWorth, Scale;
  }

  lemma ResidueAlgebra(k: real, k': real, z: real, z': real, r: real, r': real)
    requires k' == k + 1.0 && 0.0 <= k && 0.0 <= z && 0.0 <= z'
    requires z' * 16384.0 <= z * 10000.0
    requires 0.0 <= r <= 228.0 - (72.0 * k + 113.0) * z
    requires r <= r' <= r + 28.0 * k * z
    ensures 0.0 <= r' <= 228.0 - (72.0 * k' + 113.0) * z'
  {
    Times(z', z * (10000.0 / 16384.0), 72.0 * k + 185.0);
    SameTimes(k', k + 1.0, z');
    Times(0.0, z, k);
  }

  lemma FirstBlock(a: seq<int>)
    requires 14 < |a| && Reduced(a, 14)
    ensures 0.0 <= Residue(a, 1) <= 2.0
  {
    WorthAtMost(a, 0, 14);
    assert Residue(a, 0) == 0.0;
    ResidueSplit(a, 1);
    assert Scale(0) == 1.0;
    assert CarryWeight(0) == 1.0;
    hide Worth, Residue, CarryWeight;
    BlockShareUnfold(Scale(0), BlockWorth(a, 0));
  }

  lemma {:induction false} BlockWeightAtMost(p: nat)
    requires 1 <= p
    ensures BlockWeight(p) * 8192.0 <= 10000.0
  {
    hide BlockWeight;
    if p == 1 {
      FirstBlockWeight();
    } else {
      BlockWeightAtMost(p - 1);
      BlockWeightDrop(p - 1);
    }
  }
}
