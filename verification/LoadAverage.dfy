/** The system load average of the multi-level feedback queue scheduler
    (refresh_load_avg in threads/thread.c), over whole runs. */
module LoadAverage {
  import opened IntegerDivision
  import opened FixedPoint

  /** load_avg after one refresh that finds r threads on the ready list. */
  function NextLoad(load: int, r: nat): int {
    AddFp(DivInt(MultInt(load, 59), 60), DivInt(IntToFp(r), 60))
  }

  /** Every value the refresh computes fits in an int. */
  ghost predicate NextLoadFits(load: int, r: nat) {
    && Int32(MultInt(load, 59)) && Int32(IntToFp(r))
    && Int32(DivInt(MultInt(load, 59), 60)) && Int32(DivInt(IntToFp(r), 60))
    && Int32(NextLoad(load, r))
  }

  /** load_avg after refreshes that found rs[0], rs[1], ... threads ready. */
  function LoadAfter(rs: seq<nat>): int {
    if rs == [] then 0 else NextLoad(LoadAfter(rs[..|rs| - 1]), rs[|rs| - 1])
  }

  ghost predicate RunFits(rs: seq<nat>) {
    forall k :: 0 <= k < |rs| ==> NextLoadFits(LoadAfter(rs[..k]), rs[k])
  }

  ghost predicate AtMost(rs: seq<nat>, n: nat) {
    forall k :: 0 <= k < |rs| ==> rs[k] <= n
  }

  lemma NextLoadIs(load: int, r: nat)
    requires load >= 0
    ensures NextLoad(load, r) == 59 * load / 60 + F * r / 60
  {
    TruncNonNegative(MultInt(load, 59), 60);
    TruncNonNegative(IntToFp(r), 60);
  }

  lemma {:induction false} LoadBounded(rs: seq<nat>, n: nat)
    requires AtMost(rs, n)
    ensures 0 <= LoadAfter(rs) <= n * F
  {
    if rs != [] {
      var k := |rs| - 1;
      LoadBounded(rs[..k], n);
      NextLoadIs(LoadAfter(rs[..k]), rs[k]);
    }
  }

  lemma {:induction false} LoadNonNegative(rs: seq<nat>)
    ensures LoadAfter(rs) >= 0
  {
    if rs != [] {
      LoadNonNegative(rs[..|rs| - 1]);
      NextLoadIs(LoadAfter(rs[..|rs| - 1]), rs[|rs| - 1]);
    }
  }

  lemma NextLoadFitsWithin(load: int, r: nat, n: nat)
    requires 0 <= load <= n * F && r <= n <= 2221
    ensures NextLoadFits(load, r)
  {
    NextLoadIs(load, r);
    TruncNonNegative(MultInt(load, 59), 60);
    TruncNonNegative(IntToFp(r), 60);
  }

  lemma RunFitsWithin(rs: seq<nat>, n: nat)
    requires AtMost(rs, n) && n <= 2221
    ensures RunFits(rs)
  {
    forall k | 0 <= k < |rs| ensures NextLoadFits(LoadAfter(rs[..k]), rs[k]) {
      LoadBounded(rs[..k], n);
      NextLoadFitsWithin(LoadAfter(rs[..k]), rs[k], n);
    }
  }

  function Constant(n: nat, k: nat): seq<nat> {
    seq(k, _ => n)
  }

  /** With n threads ready at every refresh, the load average climbs until it is within 118 of n. */
  lemma {:induction false} LoadClimbs(n: nat, k: nat)
    ensures LoadAfter(Constant(n, k)) >= if k <= n * F - 118 then k else n * F - 118
  {
    if k > 0 {
      var rs := Constant(n, k);
      assert rs[..k - 1] == Constant(n, k - 1);
      LoadClimbs(n, k - 1);
      LoadBounded(rs[..k - 1], n);
      NextLoadIs(LoadAfter(rs[..k - 1]), n);
    }
  }

  /** No run with at most n ready threads overflows, exactly when n is at most 2221. */
  lemma LoadNeverOverflowsIff(n: nat)
    ensures (forall rs :: AtMost(rs, n) ==> RunFits(rs)) <==> n <= 2221
  {
    if n <= 2221 {
      forall rs | AtMost(rs, n) ensures RunFits(rs) {
        RunFitsWithin(rs, n);
      }
    } else {
      var k := 2222 * F - 118;
      var rs := Constant(2222, k + 1);
      assert rs[..k] == Constant(2222, k);
      LoadClimbs(2222, k);
      assert !NextLoadFits(LoadAfter(rs[..k]), rs[k]);
      assert AtMost(rs, n) && !RunFits(rs);
    }
  }

  /** The exact recurrence: 59/60 of the old load plus 1/60 of the ready count, in units of 1/F. */
  ghost function ExactLoad(rs: seq<nat>): real {
    if rs == [] then 0.0
    else (59.0 * ExactLoad(rs[..|rs| - 1]) + (F * rs[|rs| - 1]) as real) / 60.0
  }

  /** The computed load never exceeds the exact one and never lags it by more than 118 units of 1/F. */
  lemma {:induction false} LoadLag(rs: seq<nat>)
    ensures LoadAfter(rs) as real <= ExactLoad(rs) <= LoadAfter(rs) as real + 118.0
  {
    if rs != [] {
      var k := |rs| - 1;
      LoadLag(rs[..k]);
      LoadNonNegative(rs[..k]);
      var load := LoadAfter(rs[..k]);
      NextLoadIs(load, rs[k]);
      LagStep(load, F * rs[k], ExactLoad(rs[..k]));
    }
  }

  lemma LagStep(load: int, x: int, exact: real)
    requires load >= 0 && x >= 0 && load as real <= exact <= load as real + 118.0
    ensures (59 * load / 60 + x / 60) as real <= (59.0 * exact + x as real) / 60.0
    ensures (59.0 * exact + x as real) / 60.0 <= (59 * load / 60 + x / 60) as real + 118.0
  {
    var a, b := 59 * load / 60, x / 60;
    assert 60 * a <= 59 * load <= 60 * a + 59 && 60 * b <= x <= 60 * b + 59;
    assert 60.0 * (a as real) <= 59.0 * (load as real) <= 60.0 * (a as real) + 59.0;
    assert 60.0 * (b as real) <= x as real <= 60.0 * (b as real) + 59.0;
  }
}
