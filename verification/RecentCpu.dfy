/** Per-thread CPU accounting of the multi-level feedback queue scheduler
    (the MLFQS branch of thread_tick, refresh_cpu), over whole runs. */
module RecentCpu {
  import opened IntegerDivision
  import opened FixedPoint
  import opened LoadAverage

  const TIMER_FREQ: int := 100
  const NICE_MAX: int := 20

  /** The decay factor 2*load / (2*load + 1). */
  function Decay(load: int): int
    requires load >= 0
  {
    DivFp(MultInt(load, 2), AddInt(MultInt(load, 2), 1))
  }

  /** recent_cpu after one refresh. */
  function NextCpu(load: int, nice: int, cpu: int): int
    requires load >= 0
  {
    AddInt(MultFp(Decay(load), cpu), nice)
  }

  /** Everything refresh_cpu computes fits in an int. */
  ghost predicate NextCpuFits(load: int, nice: int, cpu: int)
    requires load >= 0
  {
    && Int32(MultInt(load, 2)) && Int32(AddInt(MultInt(load, 2), 1)) && Int32(Decay(load))
    && Int32(MultFp(Decay(load), cpu)) && Int32(nice * F) && Int32(NextCpu(load, nice, cpu))
  }

  /** The bounds recent_cpu keeps while at most n threads are ready and at most c ticks are charged between refreshes:
      right after a refresh, and with `charged` further ticks added. */
  function CpuLow(n: nat): int { -(40 * n + 20) * F }

  function CpuHigh(n: nat, c: nat, charged: int): int { ((2 * c + 40) * n + 20 + charged) * F }

  lemma DecayBelowOne(load: int)
    requires load >= 0
    ensures 0 <= Decay(load) < F
  {
    var x, y := 2 * load * F, 2 * load + F;
    TruncNonNegative(x, y);
    DivBounds(x, y);
    assert F * y == x + F * F;
    CancelLess(Decay(load), F, y);
  }

  lemma DecayRatio(load: int, n: nat)
    requires 0 <= load <= n * F
    ensures 2 * load * F * (2 * n + 1) <= 2 * n * F * (2 * load + F)
  {
    assert 2 * load * F * (2 * n + 1) == 4 * F * (load * n) + 2 * F * load;
    assert 2 * n * F * (2 * load + F) == 4 * F * (load * n) + 2 * F * (n * F);
  }

  lemma RatioBound(D: int, x: int, y: int, m: int, z: int)
    requires y > 0 && m >= 0 && D * y <= x && x * m <= z * y
    ensures D * m <= z
  {
    MulLeq(D * y, x, m);
    assert D * y * m == D * m * y;
    CancelLeq(D * m, z, y);
  }

  /** With at most n threads ready the factor is at most 2n / (2n + 1). */
  lemma DecayAtMost(load: int, n: nat)
    requires 0 <= load <= n * F
    ensures Decay(load) * (2 * n + 1) <= 2 * n * F
  {
    var x, y := 2 * load * F, 2 * load + F;
    TruncNonNegative(x, y);
    DivBounds(x, y);
    DecayRatio(load, n);
    RatioBound(Decay(load), x, y, 2 * n + 1, 2 * n * F);
  }

  lemma DecayedHigh(D: int, cpu: int, n: nat, c: nat)
    requires 0 <= D < F && D * (2 * n + 1) <= 2 * n * F && 0 <= cpu <= CpuHigh(n, c, c)
    ensures 0 <= MultFp(D, cpu) <= (2 * c + 40) * n * F
  {
    var k := c + 20;
    assert CpuHigh(n, c, c) == k * (2 * n + 1) * F;
    MulLeq(0, D, cpu);
    TruncNonNegative(D * cpu, F);
    MulLeq(cpu, k * (2 * n + 1) * F, D);
    assert cpu * D == D * cpu;
    HighProduct(D, n, k);
    DivAtMost(D * cpu, F, (2 * c + 40) * n * F);
  }

  lemma HighProduct(D: int, n: nat, k: nat)
    requires D * (2 * n + 1) <= 2 * n * F
    ensures k * (2 * n + 1) * F * D <= 2 * k * n * F * F
  {
    MulLeq(D * (2 * n + 1), 2 * n * F, k * F);
    assert D * (2 * n + 1) * (k * F) == k * (2 * n + 1) * F * D;
    assert 2 * n * F * (k * F) == 2 * k * n * F * F;
  }

  lemma DivAtMost(x: int, d: int, q: int)
    requires d > 0 && x <= q * d
    ensures x / d <= q
  {
    DivBounds(x, d);
    CancelLeq(x / d, q, d);
  }

  lemma DecayedLow(D: int, cpu: int, n: nat)
    requires 0 <= D < F && D * (2 * n + 1) <= 2 * n * F && CpuLow(n) <= cpu < 0
    ensures -(40 * n * F) <= MultFp(D, cpu) <= 0
  {
    var m := -cpu;
    MulLeq(0, D, m);
    assert D * cpu == -(D * m);
    if D * m > 0 {
      TruncNegative(D * cpu, F);
    } else {
      TruncNonNegative(D * cpu, F);
    }
    MulLeq(m, 20 * (2 * n + 1) * F, D);
    assert 20 * (2 * n + 1) * F * D == 20 * F * (D * (2 * n + 1));
    assert m * D == D * m;
  }

  /** One refresh brings recent_cpu back within its bounds after up to c charged ticks. */
  lemma NextCpuBounded(load: int, nice: int, cpu: int, n: nat, c: nat)
    requires 0 <= load <= n * F && -NICE_MAX <= nice <= NICE_MAX
    requires CpuLow(n) <= cpu <= CpuHigh(n, c, c)
    ensures CpuLow(n) <= NextCpu(load, nice, cpu) <= CpuHigh(n, c, 0)
    ensures n <= 545 && c <= 100 ==> NextCpuFits(load, nice, cpu)
  {
    hide Decay, MultFp;
    DecayBelowOne(load);
    DecayAtMost(load, n);
    if cpu >= 0 {
      DecayedHigh(Decay(load), cpu, n, c);
    } else {
      DecayedLow(Decay(load), cpu, n);
    }
    HighAtMost(n, c);
  }

  lemma HighAtMost(n: nat, c: nat)
    ensures 0 <= (2 * c + 40) * n
    ensures n <= 545 && c <= 100 ==> (2 * c + 40) * n <= 130800
  {
    if n <= 545 && c <= 100 {
      MulLeq(2 * c + 40, 240, n);
    }
  }
}
