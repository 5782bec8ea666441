/** The digit loop of the pi sample: what the passes compute, and what they conserve.

    A pass walks the array from cell j down to cell 1, multiplying everything by 10000 and
    keeping in cell j the remainder modulo 2j - 1.  Operands are never negative (module PiBounds),
    so Dafny's `/` and `%` agree with C's. */
module PiSpigot {
  import opened PiSeries

  const NEW_BASE := 10000
  const ARRAY_INIT := 2000

  /** The content of cell j times 10000, plus the carry from the cell above. */
  function Dividend(sum: int, x: int, j: nat): int {
    sum * j + NEW_BASE * x
  }

  function Left(sum: int, x: int, j: nat): (r: int)
    requires 1 <= j
    ensures 0 <= r <= 2 * j - 2
  {
    Dividend(sum, x, j) % (2 * j - 1)
  }

  function CarryOut(sum: int, x: int, j: nat): int
    requires 1 <= j
  {
    Dividend(sum, x, j) / (2 * j - 1)
  }

  datatype PassResult = PassResult(cells: seq<int>, sum: int)

  /** The inner loop from cell j on, entered with the carry `sum`. */
  function Pass(a: seq<int>, j: nat, sum: int): (r: PassResult)
    requires j < |a|
    ensures |r.cells| == |a|
    ensures forall k :: j < k < |a| ==> r.cells[k] == a[k]
    decreases j
  {
    if j == 0 then PassResult(a, sum)
    else Pass(a[j := Left(sum, a[j], j)], j - 1, CarryOut(sum, a[j], j))
  }

  datatype Run = Run(values: seq<int>, carry: int, cells: seq<int>)

  /** The outer loop with p passes to go; the last cell in use is 14 * p. */
  function Spigot(a: seq<int>, p: nat, carry: int): (r: Run)
    requires 14 * p < |a|
    ensures |r.values| == p && |r.cells| == |a|
    ensures forall k :: 14 * p < k < |a| ==> r.cells[k] == a[k]
    decreases p
  {
    if p == 0 then Run([], carry, a)
    else
      var pass := Pass(a, 14 * p, 0);
      var rest := Spigot(pass.cells, p - 1, pass.sum % NEW_BASE);
      Run([carry + pass.sum / NEW_BASE] + rest.values, rest.carry, rest.cells)
  }

  function Initial(p: nat): (a: seq<int>)
    ensures |a| == 14 * p + 1
  {
    seq(14 * p + 1, j => if j < 14 * p then ARRAY_INIT else 0)
  }

  /** The number written as digits of base 10000, most significant first. */
  function Number(values: seq<int>): (n: int)
  {
    if values == [] then 0
    else NEW_BASE * Number(values[..|values| - 1]) + values[|values| - 1]
  }

  function CellWorth(x: int, j: nat): (w: real)
    requires 1 <= j
  {
    x as real * Weight(j)
  }

  function CarryWorth(sum: int, j: nat): (w: real) {
    CarryWeight(j) * sum as real
  }

  /** What cells 1 .. n are worth. */
  function Worth(a: seq<int>, n: nat): (w: real)
    requires n < |a|
  {
    if n == 0 then 0.0 else Worth(a, n - 1) + CellWorth(a[n], n)
  }

  lemma {:induction false} WorthFrame(a: seq<int>, b: seq<int>, n: nat)
    requires n < |a| && n < |b|
    requires forall k :: 1 <= k <= n ==> a[k] == b[k]
    ensures Worth(a, n) == Worth(b, n)
  {
    if n != 0 {
      WorthFrame(a, b, n - 1);
    }
  }

  lemma ProductAsReal(x: int, y: int)
    ensures (x * y) as real == x as real * y as real
  {
  }

  lemma CellAlgebra(t: real, s: real, j: real, x: real, m: real, q: real, r: real, w: real, u: real, u': real)
    requires t == s * j + 10000.0 * x
    requires t == m * q + r
    requires m * w == u'
    requires u == j * w
    ensures 10000.0 * (x * w) + u * s == u' * q + r * w
  {
    SameTimes(s * j + 10000.0 * x, m * q + r, w);
    SameTimes(m * w, u', q);
    SameTimes(u, j * w, s);
  }

  lemma CellDivides(sum: int, x: int, j: nat)
    requires 1 <= j
    ensures Dividend(sum, x, j) == (2 * j - 1) * CarryOut(sum, x, j) + Left(sum, x, j)
  {
    Divides(Dividend(sum, x, j), 2 * j - 1);
  }

  lemma Divides(t: int, m: int)
    requires 0 < m
    ensures t == m * (t / m) + t % m
  {
  }

  lemma DividendAsReal(sum: int, x: int, j: nat)
    ensures Dividend(sum, x, j) as real == sum as real * j as real + 10000.0 * x as real
  {
    ProductAsReal(sum, j);
  }

  /** One cell: the carry coming in and the cell's content become the remainder left
      behind and the carry going out. */
  lemma CellConserves(sum: int, x: int, j: nat)
    requires 1 <= j
    ensures 10000.0 * CellWorth(x, j) + CarryWorth(sum, j)
         == CarryWorth(CarryOut(sum, x, j), j - 1) + CellWorth(Left(sum, x, j), j)
  {
    hide Weight, CarryWeight, Dividend, Left, CarryOut, CellWorth, CarryWorth;
    var q, r, m := CarryOut(sum, x, j), Left(sum, x, j), (2 * j - 1) as real;
    WeightStep(j, m);
    CellDivides(sum, x, j);
    DividendAsReal(sum, x, j);
    CarryWeightUnfold(j);
    ProductAsReal(2 * j - 1, q);
    CellAlgebra(Dividend(sum, x, j) as real, sum as real, j as real, x as real, m, q as real, r as real,
                Weight(j), CarryWeight(j), CarryWeight(j - 1));
    CellWorthUnfold(x, j);
    CellWorthUnfold(r, j);
    CarryWorthUnfold(sum, j);
    CarryWorthUnfold(q, j - 1);
  }

  lemma CarryWeightUnfold(j: nat)
    requires 1 <= j
    ensures CarryWeight(j) == j as real * Weight(j)
  {
    hide Weight;
  }

  lemma CellWorthUnfold(x: int, j: nat)
    requires 1 <= j
    ensures CellWorth(x, j) == x as real * Weight(j)
  {
    hide Weight;
  }

  lemma CarryWorthUnfold(sum: int, j: nat)
    ensures CarryWorth(sum, j) == CarryWeight(j) * sum as real
  {
    hide CarryWeight;
  }

  /** A pass multiplies the worth of the array, and of the carry, by 10000 and loses nothing. */
  lemma {:induction false} PassConserves(a: seq<int>, j: nat, sum: int)
    requires j < |a|
    ensures var r := Pass(a, j, sum);
      10000.0 * Worth(a, j) + CarryWorth(sum, j) == r.sum as real + Worth(r.cells, j)
    decreases j
  {
    if j != 0 {
      hide Left, CarryOut, Dividend, CellWorth, CarryWorth;
      var b, q := a[j := Left(sum, a[j], j)], CarryOut(sum, a[j], j);
      PassConserves(b, j - 1, q);
      WorthFrame(a, b, j - 1);
      CellConserves(sum, a[j], j);
    }
  }

  function BlockWorth(a: seq<int>, k: nat): real
    requires 14 * k + 14 < |a|
  {
    Worth(a, 14 * k + 14) - Worth(a, 14 * k)
  }

  function BlockShare(scale: real, worth: real): real {
    scale * worth
  }

  /** What the cells abandoned after each pass are worth at the end of the run: block k,
      cells 14 k + 1 .. 14 k + 14, is dropped with k passes still to come. */
  function Residue(a: seq<int>, p: nat): (r: real)
    requires 14 * p < |a|
  {
    if p == 0 then 0.0
    else Residue(a, p - 1) + BlockShare(Scale(p - 1), BlockWorth(a, p - 1))
  }

  lemma {:induction false} NumberPrepend(v: int, rest: seq<int>, s: real)
    requires s == Scale(|rest|)
    ensures Number([v] + rest) as real == v as real * s + Number(rest) as real
  {
    if rest == [] {
      assert ([v] + rest)[..0] == [];
    } else {
      var n := |rest| - 1;
      NumberPrepend(v, rest[..n], Scale(n));
      assert ([v] + rest)[..n + 1] == [v] + rest[..n];
      ScaleOut(v as real, Scale(n));
    }
  }

  lemma ScaleOut(v: real, s: real)
    ensures 10000.0 * (v * s) == v * (10000.0 * s)
  {
  }

  /** Whole-run conservation.  Digits, carry and everything dropped on the way add up exactly
      to the initial worth, shifted by one digit group a pass. */
  lemma {:induction false} RunConserves(a: seq<int>, p: nat, carry: int)
    requires 14 * p < |a|
    ensures var r := Spigot(a, p, carry);
      10000.0 * Number(r.values) as real + r.carry as real + Residue(r.cells, p)
      == Scale(p) * (carry as real + Worth(a, 14 * p))
    decreases p
  {
    hide Worth, Scale, Residue, Pass, Number, CarryWorth, BlockShare;
    if p == 0 {
      EmptyRun(a);
      SameTimes(Scale(p), 1.0, carry as real + Worth(a, 14 * p));
    } else {
      var pass := Pass(a, 14 * p, 0);
      var v, c := carry + pass.sum / NEW_BASE, pass.sum % NEW_BASE;
      var rest := Spigot(pass.cells, p - 1, c);
      var low, high := Worth(pass.cells, 14 * p - 14), Worth(pass.cells, 14 * p);
      RunConserves(pass.cells, p - 1, c);
      PassConserves(a, 14 * p, 0);
      NoCarryNoWorth(14 * p);
      NumberPrepend(v, rest.values, Scale(p - 1));
      ResidueUnfold(rest.cells, pass.cells, p);
      var r := Spigot(a, p, carry);
      RunAlgebra(Scale(p - 1), Scale(p), Number(rest.values) as real, Number(r.values) as real, v as real,
                 carry as real, rest.carry as real, Residue(rest.cells, p - 1), Residue(r.cells, p),
                 c as real, low, high, Worth(a, 14 * p), pass.sum as real);
    }
  }

  lemma EmptyRun(a: seq<int>)
    requires |a| > 0
    ensures Scale(0) == 1.0 && Worth(a, 0) == 0.0 && Residue(a, 0) == 0.0 && Number([]) == 0
  {
  }

  lemma NoCarryNoWorth(j: nat)
    ensures CarryWorth(0, j) == 0.0
  {
  }

  /** The last block's share, read from an array that agrees with `a` on that block. */
  lemma ResidueUnfold(a: seq<int>, b: seq<int>, p: nat)
    requires 1 <= p && 14 * p < |a| == |b|
    requires forall i :: 14 * p - 14 < i <= 14 * p ==> a[i] == b[i]
    ensures Residue(a, p) == Residue(a, p - 1) + BlockShare(Scale(p - 1), Worth(b, 14 * p) - Worth(b, 14 * p - 14))
    ensures Scale(p) == 10000.0 * Scale(p - 1)
  {
    WorthDifferenceFrame(a, b, 14 * p - 14, 14 * p);
    assert Residue(a, p) == Residue(a, p - 1) + BlockShare(Scale(p - 1), BlockWorth(a, p - 1));
    hide Worth;
    assert BlockWorth(a, p - 1) == Worth(b, 14 * p) - Worth(b, 14 * p - 14);
  }

  lemma RunAlgebra(s: real, s': real, number: real, number': real, v: real, carry: real, final: real,
                   residue: real, residue': real, c: real, low: real, high: real, worth: real, sum: real)
    requires s' == 10000.0 * s
    requires number' == v * s + number
    requires residue' == residue + BlockShare(s, high - low)
    requires 10000.0 * number + final + residue == s * (c + low)
    requires 10000.0 * v + c == 10000.0 * carry + sum
    requires 10000.0 * worth == sum + high
    ensures 10000.0 * number' + final + residue' == s' * (carry + worth)
  {
    SameTimes(s', 10000.0 * s, carry + worth);
    SameTimes(10000.0 * carry + 10000.0 * worth, 10000.0 * v + c + high, s);
  }

  lemma {:induction false} WorthDifferenceFrame(a: seq<int>, b: seq<int>, m: nat, n: nat)
    requires m <= n < |a| && n < |b|
    requires forall k :: m < k <= n ==> a[k] == b[k]
    ensures Worth(a, n) - Worth(a, m) == Worth(b, n) - Worth(b, m)
  {
    if m < n {
      WorthDifferenceFrame(a, b, m, n - 1);
    }
  }
}
