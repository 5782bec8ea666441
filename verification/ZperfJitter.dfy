/** The jitter estimate of a zperf session, against the filter of section 6.4.1 of RFC 3550: for
    every datagram but the first, a sixteenth of the way from the old estimate to the deviation,
    which is how far the spacing of two datagrams at arrival differs from that when sent. */
module ZperfJitter {
  import opened MachineIntegers
  import opened ZperfTime
  import opened ZperfReceiver
  import opened ZperfFlows

  function ExactFilter(deviations: seq<nat>): real {
    if deviations == [] then 0.0
    else
      var m := |deviations| - 1;
      var x := ExactFilter(deviations[..m]);
      x + (deviations[m] as real - x) / 16.0
  }

  /** One step of the filter in integers, rounded towards the old estimate. */
  function FilterStep(j: nat, d: nat): (j': nat)
    ensures d >= j ==> j <= j' <= d
    ensures d <= j ==> d <= j' <= j
  {
    if d >= j then j + (d - j) / 16 else j - (j - d) / 16
  }

  function Filter(deviations: seq<nat>): nat {
    if deviations == [] then 0
    else
      var m := |deviations| - 1;
      FilterStep(Filter(deviations[..m]), deviations[m])
  }

  /** The distance of x from 0 on a clock of 2^32 ticks. */
  function Norm(x: int): (d: nat)
    ensures d <= TWO31
  {
    var d := S32(x);
    if d < 0 then -d else d
  }

  function Distance(x: int, y: int): (d: nat)
    ensures d <= TWO31
  {
    Norm(x - y)
  }

  /** How far apart the transit times of two datagrams are, as the source computes it. */
  function Deviation(hz: nat, c: Datagram, d: Datagram): nat
    requires 0 < hz && c.Fits() && d.Fits()
  {
    Distance(Transit(hz, d), Transit(hz, c))
  }

  /** The deviation of RFC 3550, on true arrival times. */
  function Spacing(hz: nat, c: Datagram, d: Datagram): nat
    requires 0 < hz
  {
    Distance(d.sentUsec - c.sentUsec, CyclesToUsec(hz, d.time) - CyclesToUsec(hz, c.time))
  }

  /** By how many microseconds the arrival time the source uses falls behind the true one. */
  function Behind(hz: nat, d: Datagram): int
    requires 0 < hz
  {
    CyclesToUsec(hz, d.time) - CyclesToUsec(hz, U32(d.time))
  }

  /** How far that changes from one datagram to another. */
  function Jump(hz: nat, c: Datagram, d: Datagram): nat
    requires 0 < hz
  {
    Distance(Behind(hz, d), Behind(hz, c))
  }

  /** What k turns of the counter are worth in microseconds. */
  function TurnsWorth(hz: nat, k: nat): int
    requires 0 < hz
  {
    CyclesToUsec(hz, k * TWO32)
  }

  function Deviations(hz: nat, own: Trace): (ds: seq<nat>)
    requires 0 < hz && AllFit(own)
    ensures |ds| == if own == [] then 0 else |own| - 1
    ensures forall i :: 0 <= i < |ds| ==> ds[i] == Deviation(hz, own[i], own[i + 1])
  {
    if |own| <= 1 then []
    else seq(|own| - 1, i requires 0 <= i < |own| - 1 => Deviation(hz, own[i], own[i + 1]))
  }

  function Spacings(hz: nat, own: Trace): (ds: seq<nat>)
    requires 0 < hz && AllFit(own)
    ensures |ds| == if own == [] then 0 else |own| - 1
    ensures forall i :: 0 <= i < |ds| ==> ds[i] == Spacing(hz, own[i], own[i + 1])
  {
    if |own| <= 1 then []
    else seq(|own| - 1, i requires 0 <= i < |own| - 1 => Spacing(hz, own[i], own[i + 1]))
  }

  lemma RoundingStep(j: nat, d: nat, x: real)
    requires -15.0 <= j as real - x <= 15.0
    ensures -15.0 <= FilterStep(j, d) as real - (x + (d as real - x) / 16.0) <= 15.0
  {
    assert d >= j ==> (d - j) / 16 * 16 <= d - j < (d - j) / 16 * 16 + 16;
    assert d < j ==> (j - d) / 16 * 16 <= j - d < (j - d) / 16 * 16 + 16;
  }

  /** Rounding in every step costs at most 15 altogether. */
  lemma {:induction false} RoundingCosts(ds: seq<nat>)
    ensures -15.0 <= Filter(ds) as real - ExactFilter(ds) <= 15.0
  {
    hide FilterStep;
    if ds != [] {
      var m := |ds| - 1;
      RoundingCosts(ds[..m]);
      RoundingStep(Filter(ds[..m]), ds[m], ExactFilter(ds[..m]));
    }
  }

  /** Deviations off by at most g cost at most g. */
  lemma {:induction false} OffByCosts(ds: seq<nat>, es: seq<nat>, g: nat)
    requires |ds| == |es| && forall i :: 0 <= i < |ds| ==> ds[i] <= es[i] + g && es[i] <= ds[i] + g
    ensures -(g as real) <= ExactFilter(ds) - ExactFilter(es) <= g as real
  {
    if ds != [] {
      var m := |ds| - 1;
      OffByCosts(ds[..m], es[..m], g);
    }
  }

  lemma {:induction false} FilterWithin(ds: seq<nat>, bound: nat)
    requires forall i :: 0 <= i < |ds| ==> ds[i] <= bound
    ensures Filter(ds) <= bound
  {
    hide FilterStep;
    if ds != [] {
      FilterWithin(ds[..|ds| - 1], bound);
    }
  }

  /** The source's deviation differs from the true spacing by at most the jump of its arrival times
      and the tick time_delta misses; where the true spacing is 0 it is the jump, up to that tick. */
  lemma DeviationIsSpacing(hz: nat, c: Datagram, d: Datagram)
    requires 0 < hz && c.Fits() && d.Fits()
    ensures Deviation(hz, c, d) <= Spacing(hz, c, d) + Jump(hz, c, d) + 1
    ensures Spacing(hz, c, d) <= Deviation(hz, c, d) + Jump(hz, c, d) + 1
    ensures Jump(hz, c, d) <= Deviation(hz, c, d) + Spacing(hz, c, d) + 1
  {
    hide CyclesToUsec, S32, U32, Norm;
    var e, a := TransitTurns(CyclesToUsec(hz, U32(c.time)), c.sentUsec);
    var e', a' := TransitTurns(CyclesToUsec(hz, U32(d.time)), d.sentUsec);
    var x := d.sentUsec - c.sentUsec - (CyclesToUsec(hz, d.time) - CyclesToUsec(hz, c.time));
    var q := Behind(hz, d) - Behind(hz, c);
    var y := Transit(hz, d) - Transit(hz, c);
    assert y == x + (q + (e - e')) + TWO32 * (a' - a);
    NormTriangle(x, q + (e - e'), y, a' - a);
    NormTriangle(q, e - e', q + (e - e'), 0);
    NormTriangle(q + (e - e'), e' - e, q, 0);
    SmallNorm(e - e');
    SmallNorm(e' - e);
  }

  /** A transit time is the difference of the two clocks, up to whole turns and one tick. */
  lemma TransitTurns(r: int, sent: int) returns (e: int, a: int)
    requires 0 <= sent < TWO32
    ensures 0 <= e <= 1 && S32(TimeDelta(U32(r), sent)) == sent - r - e + TWO32 * a
  {
    var u := U32(r);
    var t := TimeDelta(u, sent);
    e := if sent >= u then 0 else 1;
    assert r == TWO32 * (r / TWO32) + u;
    var b := if t < TWO31 then 0 else -1;
    assert S32(t) == t + TWO32 * b;
    a := r / TWO32 + b + e;
  }

  /** The sides of a triangle on the clock. */
  lemma NormTriangle(x: int, z: int, y: int, a: int)
    requires y == x + z + TWO32 * a
    ensures Norm(y) <= Norm(x) + Norm(z) && Norm(x) <= Norm(y) + Norm(z) && Norm(z) <= Norm(x) + Norm(y)
  {
    hide S32;
    var k := Turns(x);
    var l := Turns(z);
    var m := Turns(y);
    NormOfSum(S32(x), S32(z), S32(y), k + l + a - m);
  }

  lemma Turns(x: int) returns (k: int)
    ensures x == S32(x) + TWO32 * k
  {
    k := (x + TWO31) / TWO32;
  }

  lemma NormOfSum(p: int, q: int, r: int, k: int)
    requires -TWO31 <= p < TWO31 && -TWO31 <= q < TWO31 && -TWO31 <= r < TWO31 && r == p + q + TWO32 * k
    ensures Abs(r) <= Abs(p) + Abs(q) && Abs(p) <= Abs(r) + Abs(q) && Abs(q) <= Abs(r) + Abs(p)
  {
  }

  function Abs(x: int): nat {
    if x < 0 then -x else x
  }

  lemma SmallNorm(x: int)
    ensures -1 <= x <= 1 ==> Norm(x) <= 1
    ensures x == 0 ==> Norm(x) == 0
  {
  }

  /** The jump between two datagrams is what the turns of the counter between them are worth,
      modulo 2^32 microseconds and up to one. */
  lemma JumpIsTurns(hz: nat, c: Datagram, d: Datagram)
    requires 0 < hz
    ensures var turns := Distance(TurnsWorth(hz, d.time / TWO32), TurnsWorth(hz, c.time / TWO32));
      Jump(hz, c, d) <= turns + 1 && turns <= Jump(hz, c, d) + 1
  {
    hide CyclesToUsec, U32, Norm;
    BehindByTurns(hz, c);
    BehindByTurns(hz, d);
    var x := TurnsWorth(hz, d.time / TWO32) - TurnsWorth(hz, c.time / TWO32);
    var y := Behind(hz, d) - Behind(hz, c);
    NormTriangle(x, y - x, y, 0);
    SmallNorm(y - x);
  }

  lemma BehindByTurns(hz: nat, d: Datagram)
    requires 0 < hz
    ensures TurnsWorth(hz, d.time / TWO32) <= Behind(hz, d) <= TurnsWorth(hz, d.time / TWO32) + 1
  {
    var u := U32(d.time);
    assert d.time == d.time / TWO32 * TWO32 + u;
    SumOfQuotients(d.time / TWO32 * TWO32 * 1_000_000, u * 1_000_000, hz);
  }

  lemma SumOfQuotients(x: nat, y: nat, hz: nat)
    requires 0 < hz
    ensures x / hz + y / hz <= (x + y) / hz <= x / hz + y / hz + 1
  {
    var p, q, r := x / hz, y / hz, (x + y) / hz;
    assert x == hz * p + x % hz && y == hz * q + y % hz && x + y == hz * r + (x + y) % hz;
    if r < p + q {
      Scaled(r + 1, p + q, hz);
    } else if r > p + q + 1 {
      Scaled(p + q + 2, r, hz);
    }
  }

  lemma Scaled(a: int, b: int, n: nat)
    requires a <= b
    ensures n * a <= n * b
  {
  }

  /** Between datagrams in the same turn of the counter there is no jump to speak of. */
  lemma NoTurnNoJump(hz: nat, c: Datagram, d: Datagram)
    requires 0 < hz && c.time / TWO32 == d.time / TWO32
    ensures Jump(hz, c, d) <= 1
  {
    JumpIsTurns(hz, c, d);
    SmallNorm(0);
  }

  /** Nor is there any when a clock cycle is a whole number of microseconds. */
  lemma WholeCyclesDoNotJump(hz: nat, c: Datagram, d: Datagram)
    requires 0 < hz && 1_000_000 % hz == 0
    ensures Jump(hz, c, d) == 0
  {
    hide CyclesToUsec, U32, Norm;
    WholeCycles(hz, c);
    WholeCycles(hz, d);
    var x := Behind(hz, d) - Behind(hz, c);
    var m := 1_000_000 / hz;
    var k := d.time / TWO32 * m - c.time / TWO32 * m;
    NormTriangle(0, 0, x, k);
    SmallNorm(0);
  }

  lemma WholeCycles(hz: nat, d: Datagram)
    requires 0 < hz && 1_000_000 % hz == 0
    ensures Behind(hz, d) == TWO32 * (d.time / TWO32 * (1_000_000 / hz))
  {
    var m, k, u := 1_000_000 / hz, d.time / TWO32, U32(d.time);
    assert 1_000_000 == hz * m;
    ExactQuotient(d.time, m, hz);
    ExactQuotient(u, m, hz);
    assert d.time == TWO32 * k + u;
    assert d.time * m == TWO32 * (k * m) + u * m;
  }

  lemma ExactQuotient(t: nat, m: nat, hz: nat)
    requires 0 < hz && 1_000_000 == hz * m
    ensures CyclesToUsec(hz, t) == t * m
  {
    assert t * 1_000_000 == hz * (t * m);
    Divided(hz, t * m);
  }

  lemma Divided(hz: nat, q: nat)
    requires 0 < hz
    ensures (hz * q) / hz == q
  {
    var p := (hz * q) / hz;
    assert hz * p <= hz * q < hz * p + hz;
    if p < q {
      Scaled(p + 1, q, hz);
    } else if p > q {
      Scaled(q + 1, p, hz);
    }
  }

  /** The source's step is the filter's step, except that it takes a last transit time of 0 for
      "no datagram yet" and skips the sample: that makes a difference exactly when the deviation
      is 16 or more away from the estimate. */
  lemma JitterStep(j: nat, last: int, transit: int)
    requires j < TWO31 && -TWO31 <= last < TWO31 && -TWO31 <= transit < TWO31 && Distance(transit, last) < TWO31
    ensures Jitter(j, last, transit) == (if last == 0 then j else FilterStep(j, Distance(transit, last)))
    ensures Jitter(j, last, transit) == FilterStep(j, Distance(transit, last))
      <==> last != 0 || -16 < Distance(transit, last) - j < 16
  {
    hide S32;
  }

  /** The estimate after every datagram is that of the filter. */
  predicate Filtered(hz: nat, own: Trace)
    requires 0 < hz && AllFit(own)
  {
    forall k :: 0 <= k <= |own| ==> Totals(hz, own[..k]).jitter == Filter(Deviations(hz, own[..k]))
  }

  ghost predicate SmallDeviations(hz: nat, own: Trace)
    requires 0 < hz && AllFit(own)
  {
    forall i, k :: 0 <= i < k < |own| && k == i + 1 ==> Deviation(hz, own[i], own[k]) < TWO31
  }

  /** Sample k is not skipped, or skipping it changes nothing. */
  predicate Harmless(hz: nat, own: Trace, k: nat)
    requires 0 < hz && AllFit(own) && 0 < k < |own|
  {
    || Transit(hz, own[k - 1]) != 0
    || -16 < Deviation(hz, own[k - 1], own[k]) - Filter(Deviations(hz, own[..k])) < 16
  }

  lemma CountJitter(hz: nat, t: Stats, d: Datagram)
    requires 0 < hz && d.Fits()
    ensures Count(hz, t, d).jitter == Jitter(t.jitter, t.lastTransit, Transit(hz, d))
    ensures Count(hz, t, d).lastTransit == Transit(hz, d)
  {
    hide Transit, Jitter;
  }

  lemma LastTransit(hz: nat, own: Trace)
    requires 0 < hz && AllFit(own)
    ensures own != [] ==> Totals(hz, own).lastTransit == Transit(hz, own[|own| - 1])
    ensures own == [] ==> Totals(hz, own).lastTransit == 0 && Totals(hz, own).jitter == 0
  {
    hide Transit, Jitter, Count;
    if own != [] {
      CountJitter(hz, Totals(hz, own[..|own| - 1]), own[|own| - 1]);
    }
  }

  lemma DeviationsAppend(hz: nat, own: Trace)
    requires 0 < hz && AllFit(own) && |own| >= 2
    ensures var m := |own| - 1;
      Deviations(hz, own) == Deviations(hz, own[..m]) + [Deviation(hz, own[m - 1], own[m])]
  {
    hide Deviation;
  }

  /** The last step of the estimate. */
  lemma LastStep(hz: nat, own: Trace)
    requires 0 < hz && AllFit(own) && SmallDeviations(hz, own) && own != []
    ensures var m := |own| - 1;
      Totals(hz, own[..m]).jitter == Filter(Deviations(hz, own[..m])) ==>
        (Totals(hz, own).jitter == Filter(Deviations(hz, own)) <==> m == 0 || Harmless(hz, own, m))
  {
    hide Transit, Jitter, Count, S32, FilterStep;
    var m := |own| - 1;
    var before := own[..m];
    var j := Filter(Deviations(hz, before));
    CountJitter(hz, Totals(hz, before), own[m]);
    LastTransit(hz, before);
    if m == 0 {
      FirstSample(Transit(hz, own[0]));
    } else {
      forall i | 0 <= i < |Deviations(hz, before)|
        ensures Deviations(hz, before)[i] <= TWO31 - 1
      {
        assert Deviation(hz, own[i], own[i + 1]) < TWO31;
      }
      FilterWithin(Deviations(hz, before), TWO31 - 1);
      DeviationsAppend(hz, own);
      assert Deviations(hz, own)[..m - 1] == Deviations(hz, before);
      assert Deviation(hz, own[m - 1], own[m]) < TWO31;
      JitterStep(j, Transit(hz, own[m - 1]), Transit(hz, own[m]));
    }
  }

  lemma FirstSample(transit: int)
    ensures Jitter(0, 0, transit) == 0
  {
  }

  /** The estimate follows the filter throughout a session exactly when every sample skipped for a
      transit time of 0 before it is within 15 of the estimate. */
  lemma {:induction false} JitterIsFilter(hz: nat, own: Trace)
    requires 0 < hz && AllFit(own) && SmallDeviations(hz, own)
    ensures Filtered(hz, own) <==> forall k :: 0 < k < |own| ==> Harmless(hz, own, k)
  {
    hide Transit, Deviation, Count, Filter, Totals, Deviations;
    if own == [] {
      LastTransit(hz, own);
      assert own[..0] == own;
      NoDeviations(hz);
    } else {
      var m := |own| - 1;
      var before := own[..m];
      assert forall k :: 0 <= k <= m ==> before[..k] == own[..k];
      assert own[..|own|] == own;
      JitterIsFilter(hz, before);
      assert forall k :: 0 < k < m ==> Harmless(hz, own, k) == Harmless(hz, before, k);
      assert Filtered(hz, own) <==> Filtered(hz, before) && Totals(hz, own).jitter == Filter(Deviations(hz, own));
      if Filtered(hz, before) {
        assert Totals(hz, before[..m]).jitter == Filter(Deviations(hz, before[..m]));
        LastStep(hz, own);
      }
    }
  }

  lemma NoDeviations(hz: nat)
    requires 0 < hz
    ensures Filter(Deviations(hz, [])) == 0
  {
  }

  /** And then it stays within 15 of the exact filter over the source's deviations, within 16 and
      the largest jump of that over the true spacings, and never exceeds the largest deviation. */
  lemma JitterTracksRfc(hz: nat, own: Trace, bound: nat, jump: nat)
    requires 0 < hz && AllFit(own) && SmallDeviations(hz, own)
    requires forall k :: 0 < k < |own| ==> Harmless(hz, own, k)
    requires forall i :: 0 <= i < |Deviations(hz, own)| ==> Deviations(hz, own)[i] <= bound
    requires JumpsWithin(hz, own, jump)
    ensures 0 <= Totals(hz, own).jitter <= bound
    ensures -15.0 <= Totals(hz, own).jitter as real - ExactFilter(Deviations(hz, own)) <= 15.0
    ensures var error := Totals(hz, own).jitter as real - ExactFilter(Spacings(hz, own));
      -((16 + jump) as real) <= error <= (16 + jump) as real
  {
    hide Transit, Deviation, Spacing, Jump, Count, Filter, ExactFilter, Totals, Harmless;
    JitterIsFilter(hz, own);
    assert own[..|own|] == own;
    var ds, es := Deviations(hz, own), Spacings(hz, own);
    FilterWithin(ds, bound);
    RoundingCosts(ds);
    forall i | 0 <= i < |ds|
      ensures ds[i] <= es[i] + (1 + jump) && es[i] <= ds[i] + (1 + jump)
    {
      assert Jump(hz, own[i], own[i + 1]) <= jump;
      DeviationIsSpacing(hz, own[i], own[i + 1]);
    }
    OffByCosts(ds, es, 1 + jump);
  }

  ghost predicate JumpsWithin(hz: nat, own: Trace, jump: nat)
    requires 0 < hz
  {
    forall i, k :: 0 <= i < k < |own| && k == i + 1 ==> Jump(hz, own[i], own[k]) <= jump
  }

  /** The jumps are at most 1 in a session within one turn of the counter, and 0 in every session
      when a clock cycle is a whole number of microseconds. */
  lemma HarmlessClocks(hz: nat, own: Trace)
    requires 0 < hz
    ensures 1_000_000 % hz == 0 ==> JumpsWithin(hz, own, 0)
    ensures (forall i, k :: 0 <= i < k < |own| && k == i + 1 ==> own[i].time / TWO32 == own[k].time / TWO32) ==>
      JumpsWithin(hz, own, 1)
  {
    hide Jump;
    forall i, k | 0 <= i < k < |own| && k == i + 1
      ensures 1_000_000 % hz == 0 ==> Jump(hz, own[i], own[k]) <= 0
      ensures own[i].time / TWO32 == own[k].time / TWO32 ==> Jump(hz, own[i], own[k]) <= 1
    {
      if 1_000_000 % hz == 0 {
        WholeCyclesDoNotJump(hz, own[i], own[k]);
      }
      if own[i].time / TWO32 == own[k].time / TWO32 {
        NoTurnNoJump(hz, own[i], own[k]);
      }
    }
  }

  /** A session in which the jump matters: at 100 MHz two datagrams sent and received one microsecond
      apart, with a turn of the counter in between; the estimate should stay 0. */
  lemma TurnedOver()
    ensures var own := [Datagram(Key(1, 1), 0, 0, TWO32 - 100, 50_000_000),
                        Datagram(Key(1, 1), 1, 0, TWO32, 50_000_001)];
      && AllFit(own) && Totals(100_000_000, own).jitter == 2_684_354
      && Transit(100_000_000, own[0]) != 0 && Deviations(100_000_000, own) == [42_949_672]
      && ExactFilter(Spacings(100_000_000, own)) == 0.0
  {
    hide Transit, Jitter, Totals, Deviation, Spacing, Filter, ExactFilter;
    var c := Datagram(Key(1, 1), 0, 0, TWO32 - 100, 50_000_000);
    var d := Datagram(Key(1, 1), 1, 0, TWO32, 50_000_001);
    TwoSamples(100_000_000, c, d);
    TurnedOverValues(c, d);
  }

  lemma TurnedOverValues(c: Datagram, d: Datagram)
    requires c == Datagram(Key(1, 1), 0, 0, TWO32 - 100, 50_000_000)
    requires d == Datagram(Key(1, 1), 1, 0, TWO32, 50_000_001)
    ensures Transit(100_000_000, c) == 7_050_329 && Transit(100_000_000, d) == 50_000_001
    ensures Jitter(0, 7_050_329, 50_000_001) == 2_684_354
    ensures Deviation(100_000_000, c, d) == 42_949_672 && Spacing(100_000_000, c, d) == 0
  {
  }

  /** A session in which the skipped sample matters: the first datagram takes no time at all, by
      the two clocks, and the second one 1.6 seconds; the estimate stays 0 and should be 100000. */
  lemma SkippedSample()
    ensures var own := [Datagram(Key(1, 1), 0, 0, 0, 0), Datagram(Key(1, 1), 1, 0, 0, 1_600_000)];
      && AllFit(own) && Totals(1_000_000, own).jitter == 0 && Filter(Deviations(1_000_000, own)) == 100_000
      && ExactFilter(Spacings(1_000_000, own)) == 100_000.0
  {
    hide Transit, Jitter, Totals, Deviation, Spacing, Filter, ExactFilter;
    var c, d := Datagram(Key(1, 1), 0, 0, 0, 0), Datagram(Key(1, 1), 1, 0, 0, 1_600_000);
    TwoSamples(1_000_000, c, d);
    SkippedValues(c, d);
  }

  lemma SkippedValues(c: Datagram, d: Datagram)
    requires c == Datagram(Key(1, 1), 0, 0, 0, 0) && d == Datagram(Key(1, 1), 1, 0, 0, 1_600_000)
    ensures Transit(1_000_000, c) == 0 && Transit(1_000_000, d) == 1_600_000
    ensures Jitter(0, 0, 1_600_000) == 0
    ensures Deviation(1_000_000, c, d) == 1_600_000 && Spacing(1_000_000, c, d) == 1_600_000
  {
  }

  /** The estimates after the second datagram. */
  lemma TwoSamples(hz: nat, c: Datagram, d: Datagram)
    requires 0 < hz && c.Fits() && d.Fits()
    ensures Totals(hz, [c, d]).jitter == Jitter(0, Transit(hz, c), Transit(hz, d))
    ensures Deviations(hz, [c, d]) == [Deviation(hz, c, d)] && Spacings(hz, [c, d]) == [Spacing(hz, c, d)]
    ensures Filter([Deviation(hz, c, d)]) == FilterStep(0, Deviation(hz, c, d))
    ensures ExactFilter([Spacing(hz, c, d)]) == Spacing(hz, c, d) as real / 16.0
  {
    hide Transit, Jitter, Deviation, Spacing, Count;
    var own := [c, d];
    assert own[..1][..0] == [] && own[..1][0] == c;
    LastTransit(hz, own[..1][..0]);
    LastTransit(hz, own[..1]);
    CountJitter(hz, Totals(hz, own[..1][..0]), c);
    FirstSample(Transit(hz, c));
    CountJitter(hz, Totals(hz, own[..1]), d);
    assert [Deviation(hz, c, d)][..0] == [] && [Spacing(hz, c, d)][..0] == [];
    assert Filter([]) == 0 && ExactFilter([]) == 0.0;
  }
}
