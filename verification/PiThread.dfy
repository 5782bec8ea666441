/** test_thread of the pi sample, in 32-bit arithmetic, and how good its digits are. */
module PiThread {
  import opened PiSeries
  import opened PiSpigot
  import opened PiBounds

  newtype int32 = x: int | -0x8000_0000 <= x < 0x8000_0000

  function Ints(s: seq<int32>): (r: seq<int>)
    ensures |r| == |s|
    ensures forall k :: 0 <= k < |s| ==> r[k] == s[k] as int
  {
    seq(|s|, k requires 0 <= k < |s| => s[k] as int)
  }

  /** The longest array the bound on later passes allows: 20000 * (2 * 53687 - 1) < 2^31. */
  const MAX_LENGTH := 53687

  predicate Tame(a: seq<int>, j: nat, sum: int)
    requires j < |a|
  {
    Early(a, j, sum) || Late(a, j, sum)
  }

  lemma TameCell(a: seq<int>, j: nat, sum: int)
    requires 1 <= j < |a| && j <= MAX_LENGTH && Tame(a, j, sum)
    ensures 0 <= sum && 0 <= sum * j && 0 <= a[j] && 0 <= NEW_BASE * a[j]
    ensures Dividend(sum, a[j], j) < 0x8000_0000
    ensures Tame(a[j := Left(sum, a[j], j)], j - 1, CarryOut(sum, a[j], j))
  {
    if Early(a, j, sum) {
      EarlyCell(sum, a[j], j);
    } else {
      LateCell(sum, a[j], j);
    }
  }

  /** The body of the inner loop. */
  method RunCell(a: array<int32>, j: int32, before: int32) returns (sum: int32)
    requires 0 < j as int < a.Length && j as int <= MAX_LENGTH
    requires Tame(Ints(a[..]), j as int, before as int)
    modifies a
    ensures sum as int == CarryOut(before as int, old(a[j]) as int, j as int)
    ensures Ints(a[..]) == old(Ints(a[..]))[j as int := Left(before as int, old(a[j]) as int, j as int)]
    ensures Tame(Ints(a[..]), j as int - 1, sum as int)
  {
    hide Tame, Dividend, Left, CarryOut;
    ghost var cells := Ints(a[..]);
    TameCell(cells, j as int, before as int);
    assert a[j] as int == cells[j as int];
    DividendIs(before as int, cells[j as int], j as int);
    sum := before * j + 10000 * a[j];
    a[j], sum := Reduce(sum, j);
    CellIs(before as int, cells[j as int], j as int);
    assert Ints(a[..]) == cells[j as int := a[j] as int];
  }

  /** Remainder and quotient of a sum for cell j. */
  method Reduce(sum: int32, j: int32) returns (rest: int32, carry: int32)
    requires 0 <= sum && 0 < j as int <= MAX_LENGTH
    ensures rest as int == sum as int % (2 * j as int - 1) && carry as int == sum as int / (2 * j as int - 1)
  {
    QuotientIsSmaller(sum as int, 2 * j as int - 1);
    rest := sum % (j * 2 - 1);
    carry := sum / (j * 2 - 1);
  }

  lemma QuotientIsSmaller(t: int, m: int)
    requires 0 <= t && 0 < m
    ensures 0 <= t / m <= t && 0 <= t % m < m
  {
    Product(1, m, t);
    QuotientBound(t, m, t);
  }

  lemma DividendIs(sum: int, x: int, j: nat)
    ensures Dividend(sum, x, j) == sum * j + 10000 * x
  {
  }

  lemma CellIs(sum: int, x: int, j: nat)
    requires 1 <= j
    ensures Left(sum, x, j) == Dividend(sum, x, j) % (2 * j - 1)
    ensures CarryOut(sum, x, j) == Dividend(sum, x, j) / (2 * j - 1)
  {
    hide Dividend;
  }

  /** The inner loop, in place: afterwards the array and the sum are those of Pass. */
  method RunPass(a: array<int32>, i: int32) returns (sum: int32)
    requires 0 <= i as int < a.Length && i as int <= MAX_LENGTH
    requires Tame(Ints(a[..]), i as int, 0)
    modifies a
    ensures Pass(old(Ints(a[..])), i as int, 0) == PassResult(Ints(a[..]), sum as int)
  {
    hide Tame, Left, CarryOut;
    sum := 0;
    var j := i;
    while j > 0
      invariant 0 <= j <= i
      invariant Tame(Ints(a[..]), j as int, sum as int)
      invariant Pass(old(Ints(a[..])), i as int, 0) == Pass(Ints(a[..]), j as int, sum as int)
    {
      assert a[j] as int == Ints(a[..])[j as int];
      sum := RunCell(a, j, sum);
      j := j - 1;
    }
  }

  /** One round of the outer loop moves one value from what is to come to what is done. */
  lemma SpigotStep(a: seq<int>, p: nat, carry: int, done: seq<int>)
    requires 1 <= p && 14 * p < |a|
    ensures var pass := Pass(a, 14 * p, 0);
      done + Spigot(a, p, carry).values
      == (done + [carry + pass.sum / NEW_BASE]) + Spigot(pass.cells, p - 1, pass.sum % NEW_BASE).values
  {
    hide Pass;
  }

  /** array[LENGTH + 1], with every cell but the last set to ARRAY_INIT. */
  method InitialArray(digitGroups: nat) returns (a: array<int32>)
    requires 14 * digitGroups <= MAX_LENGTH
    ensures fresh(a) && Ints(a[..]) == Initial(digitGroups)
  {
    var length: int32 := (14 * digitGroups) as int32;
    a := new int32[length + 1](_ => 0);
    var i: int32 := 0;
    while i < length
      invariant 0 <= i <= length
      invariant forall k :: 0 <= k < i as int ==> a[k] == 2000
      invariant forall k :: i as int <= k < a.Length ==> a[k] == 0
    {
      a[i] := 2000;
      i := i + 1;
    }
  }

  method TestThread(digitGroups: nat) returns (values: seq<int32>)
    requires 14 * digitGroups <= MAX_LENGTH
    ensures Ints(values) == Spigot(Initial(digitGroups), digitGroups, 0).values
  {
    hide Pass, Spigot;
    var a := InitialArray(digitGroups);
    values := [];
    var carry: int32 := 0;
    var i: int32 := (14 * digitGroups) as int32;
    ghost var p: nat := digitGroups;
    while i > 0
      invariant i as int == 14 * p && 14 * p < a.Length
      invariant 0 <= carry < 10000
      invariant Tame(Ints(a[..]), 14 * p, 0)
      invariant p < digitGroups ==> Late(Ints(a[..]), 14 * p, 0)
      invariant Spigot(Initial(digitGroups), digitGroups, 0).values
             == Ints(values) + Spigot(Ints(a[..]), p, carry as int).values
      decreases i
    {
      ghost var before := Ints(a[..]);
      SpigotStep(before, p, carry as int, Ints(values));
      var sum := RunPass(a, i);
      PassIsTame(before, p);
      ghost var done := Ints(values);
      var value := carry + sum / 10000;
      carry := sum % 10000;
      values := values + [value];
      assert Ints(values) == done + [value as int];
      i := i - 14;
      p := p - 1;
    }
    NothingToCome(Ints(a[..]), carry as int);
  }

  lemma PassIsTame(a: seq<int>, p: nat)
    requires 1 <= p && 14 * p < |a| && Tame(a, 14 * p, 0)
    ensures var r := Pass(a, 14 * p, 0); 0 <= r.sum <= 40_000_000 && Late(r.cells, 14 * p - 14, 0)
  {
    hide Pass;
    if Early(a, 14 * p, 0) {
      FirstPassBounds(a, 14 * p, 0);
    } else {
      LaterPassBounds(a, 14 * p, 0, 14 * p);
    }
  }

  lemma NothingToCome(a: seq<int>, carry: int)
    requires 0 < |a|
    ensures Spigot(a, 0, carry).values == []
  {
  }

  /** The series sum the cells 1 .. LENGTH - 1 start from. */
  lemma {:induction false} InitialWorth(p: nat, n: nat)
    requires 1 <= p && n < 14 * p
    ensures Worth(Initial(p), n) == 2000.0 * EulerSum(n)
  {
    hide Weight, CellWorth;
    if n != 0 {
      InitialWorth(p, n - 1);
      CellWorthUnfold(2000, n);
    }
  }

  /** How far the digits printed, read as one number, stay below the series up to cell m. */
  function DigitError(p: nat, m: nat): real
    requires 1 <= p
  {
    Scale(p - 1) * (2000.0 * EulerSum(m)) - Number(Spigot(Initial(p), p, 0).values) as real
  }

  lemma DigitErrorUnfold(p: nat, m: nat)
    requires 1 <= p
    ensures DigitError(p, m) == Scale(p - 1) * (2000.0 * EulerSum(m)) - Number(Spigot(Initial(p), p, 0).values) as real
  {
    hide Scale, EulerSum, Number, Spigot, Initial;
  }

  /** The digits printed, read as one number, are within 1.52 units in the last group of four
      of what the full series gives: they never exceed it, and dropping fourteen cells a pass,
      dropping the last carry and stopping the series at cell LENGTH - 1 cost less than two
      units altogether, however far the series is continued. */
  lemma DigitsOfPi(p: nat, m: nat)
    requires 1 <= p && 14 * p - 1 <= m
    ensures 0.0 <= DigitError(p, m) < 1.52
  {
    hide *;
    var r := Spigot(Initial(p), p, 0);
    DigitErrorUnfold(p, m);
    RunAccount(p);
    BlockWeightAtMost(p);
    EulerTail(14 * p - 1, m);
    BlockWeightUnfold(p);
    ScaleUnfold(p);
    DigitsAlgebra(Scale(p), Scale(p - 1), Number(r.values) as real, r.carry as real, Residue(r.cells, p),
                  EulerSum(14 * p - 1), EulerSum(m), Weight(14 * p), BlockWeight(p), DigitError(p, m));
  }

  /** The account of a whole run: what the series gives, and bounds for what is not printed. */
  lemma RunAccount(p: nat)
    requires 1 <= p
    ensures var r := Spigot(Initial(p), p, 0);
      && 10000.0 * Number(r.values) as real + r.carry as real + Residue(r.cells, p)
         == Scale(p) * (2000.0 * EulerSum(14 * p - 1))
      && 0 <= r.carry <= 9999 && 0.0 <= Residue(r.cells, p) <= 228.0
  {
    hide EulerSum, Scale, Worth, Spigot, Residue, Number, BlockWeight;
    var a := Initial(p);
    RunConserves(a, p, 0);
    SpigotBounds(p);
    ResidueBound(Spigot(a, p, 0).cells, p);
    Times(0.0, 72.0 * p as real + 113.0, BlockWeight(p));
    InitialWorth(p, 14 * p - 1);
    LastCellIsZero(p);
    SameTimes(0.0 + Worth(a, 14 * p), 2000.0 * EulerSum(14 * p - 1), Scale(p));
  }

  lemma LastCellIsZero(p: nat)
    requires 1 <= p
    ensures Worth(Initial(p), 14 * p) == Worth(Initial(p), 14 * p - 1)
  {
    hide CellWorth;
    CellWorthUnfold(0, 14 * p);
  }

  lemma ScaleUnfold(p: nat)
    requires 1 <= p
    ensures Scale(p) == 10000.0 * Scale(p - 1)
  {
  }

  lemma DigitsAlgebra(s: real, s': real, number: real, carry: real, residue: real,
                      x: real, y: real, w: real, z: real, error: real)
    requires 0.0 <= s' && s == 10000.0 * s'
    requires 10000.0 * number + carry + residue == s * (2000.0 * x)
    requires 0.0 <= carry <= 9999.0
    requires z * 8192.0 <= 10000.0
    requires 0.0 <= residue <= 228.0
    requires x <= y <= x + 2.0 * w
    requires z == s * w
    requires error == s' * (2000.0 * y) - number
    ensures 0.0 <= error < 1.52
  {
    SameTimes(s, 10000.0 * s', y);
    Times(x, y, s);
    Times(y, x + 2.0 * w, s);
    DigitsLinear(number, carry, residue, x * s, y * s, w * s, s' * y, z);
    assert s' * (2000.0 * y) == 2000.0 * (s' * y);
  }

  lemma DigitsLinear(number: real, carry: real, residue: real, sx: real, sy: real, sw: real,
                     ty: real, z: real)
    requires 10000.0 * number + carry + residue == 2000.0 * sx
    requires 0.0 <= carry <= 9999.0 && 0.0 <= residue <= 228.0
    requires sx <= sy <= sx + 2.0 * sw
    requires sy == 10000.0 * ty
    requires z == sw && z * 8192.0 <= 10000.0
    ensures 0.0 <= 2000.0 * ty - number < 1.52
  {
  }
}
