/** The high-precision timer: its frequency, and ticks turned into nanoseconds. */
module Hpet {
  import opened Arith
  import opened Bytes

  const NS := 1_000_000_000
  const FS := 1_000_000_000_000_000
  const FS_PER_NS := 1_000_000

  // The largest frequency at which no remainder overflows.
  const MAX_HZ := 18_446_744_074

  /** The conversion in 64-bit arithmetic, whole seconds and the rest apart. */
  function SplitNs(ticks: nat, hz: nat): (ns: nat)
    requires hz > 0
    ensures ns < U64
  {
    (ticks / hz * NS % U64 + ticks % hz * NS % U64 / hz) % U64
  }

  // What it stands for.
  function WholeNs(ticks: nat, hz: nat): nat
    requires hz > 0
  {
    ticks * NS / hz
  }

  lemma Scaled(q: nat, hz: nat, r: nat)
    ensures (q * hz + r) * NS == q * NS * hz + r * NS
  {
  }

  // Without overflow, the two parts add up to the whole quotient.
  lemma SplitAdds(ticks: nat, hz: nat)
    requires hz > 0
    ensures ticks / hz * NS + ticks % hz * NS / hz == WholeNs(ticks, hz)
  {
    var q, r := ticks / hz, ticks % hz;
    Euclid(ticks, hz);
    Sum(ticks, hz, q, r, r * NS / hz, r * NS % hz);
  }

  lemma Sum(ticks: nat, hz: nat, q: nat, r: nat, a: nat, b: nat)
    requires hz > 0 && ticks == q * hz + r && a == r * NS / hz && b == r * NS % hz
    ensures q * NS + a == WholeNs(ticks, hz)
  {
    Euclid(r * NS, hz);
    Scaled(q, hz, r);
    Distrib(q * NS, a, hz);
    QuotIs(ticks * NS, hz, q * NS + a);
  }

  lemma NoWrap(a: nat, b: nat, hz: nat)
    requires hz > 0 && b < U64 && a + b / hz < U64
    ensures (a % U64 + b % U64 / hz) % U64 == a + b / hz
  {
    assert b % U64 == b;
    var c: nat := b / hz;
    SmallSum(a, c);
  }

  lemma SmallSum(a: nat, c: nat)
    requires a + c < U64
    ensures (a % U64 + c) % U64 == a + c
  {
  }

  /** Up to MAX_HZ no remainder overflows; above it, some does. */
  lemma RemaindersFit(hz: nat)
    requires hz > 0
    ensures hz <= MAX_HZ <==> forall r :: 0 <= r < hz ==> r * NS < U64
  {
    if hz > MAX_HZ {
      var r := MAX_HZ;
      assert 0 <= r < hz && r * NS >= U64;
    }
  }

  /** The split form is exact whenever the result is in range. */
  lemma SplitIsExact(ticks: nat, hz: nat)
    requires 0 < hz <= MAX_HZ && WholeNs(ticks, hz) < U64
    ensures SplitNs(ticks, hz) == WholeNs(ticks, hz)
  {
    SplitAdds(ticks, hz);
    Euclid(ticks, hz);
    RemaindersFit(hz);
    var r := ticks % hz;
    assert r * NS < U64;
    NoWrap(ticks / hz * NS, r * NS, hz);
  }

  /** More ticks never give fewer nanoseconds. */
  lemma Monotone(a: nat, b: nat, hz: nat)
    requires a <= b && 0 < hz <= MAX_HZ && WholeNs(b, hz) < U64
    ensures SplitNs(a, hz) <= SplitNs(b, hz)
  {
    Euclid(a * NS, hz);
    Euclid(b * NS, hz);
    Distrib(WholeNs(b, hz), 1, hz);
    MulOrder(WholeNs(a, hz), WholeNs(b, hz) + 1, hz);
    SplitIsExact(a, hz);
    SplitIsExact(b, hz);
  }

  // ----- against true time -----

  /** Elapsed nanoseconds, from the counter's period in femtoseconds. */
  ghost function TrueNs(ticks: nat, period: nat): real {
    (ticks * period) as real / FS_PER_NS as real
  }

  // The bound in whole numbers.
  lemma DriftInFs(ticks: nat, period: nat, hz: nat, ns: nat)
    requires period > 0 && hz > 0 && hz == FS / period && ns == WholeNs(ticks, hz)
    ensures ns * hz * FS_PER_NS <= ticks * period * (hz + 1)
    ensures ticks * period < (ns + 1) * FS_PER_NS
  {
    Euclid(FS, period);
    Euclid(ticks * NS, hz);
    Distrib(hz, 1, period);
    Distrib(ns, 1, hz);
    MulMono(FS, (hz + 1) * period, ticks);
    MulMono(hz * period, FS, ticks);
    Turn(ticks, period, hz + 1);
    Turn(ticks, period, hz);
    assert ns * hz * FS_PER_NS <= ticks * FS;
    assert ticks * period * hz < (ns + 1) * FS_PER_NS * hz;
    MulOrder(ticks * period, (ns + 1) * FS_PER_NS, hz);
  }

  lemma Turn(t: nat, p: nat, h: nat)
    ensures h * p * t == t * p * h
  {
  }

  /** The result lies between the true time, floored, and the true time plus one part in hz. */
  lemma DriftIsBounded(ticks: nat, period: nat, hz: nat)
    requires period > 0 && 0 < hz <= MAX_HZ && hz == FS / period && WholeNs(ticks, hz) < U64
    ensures var t, ns := TrueNs(ticks, period), SplitNs(ticks, hz);
      t.Floor <= ns && ns as real <= t + t / hz as real
  {
    var t, ns := TrueNs(ticks, period), SplitNs(ticks, hz);
    SplitIsExact(ticks, hz);
    DriftInFs(ticks, period, hz, ns);
    var x := ticks * period;
    assert x as real < (ns + 1) as real * FS_PER_NS as real;
    RealBelow(x as real, (ns + 1) as real, FS_PER_NS as real);
    RealAbove(ns, hz, x);
  }

  lemma RealBelow(x: real, n: real, d: real)
    requires d > 0.0 && x < n * d
    ensures x / d < n
  {
    assert x / d * d == x;
    if n <= x / d { RealMono(n, x / d, d); }
  }

  lemma RealMono(a: real, b: real, d: real)
    requires a <= b && d >= 0.0
    ensures a * d <= b * d
  {
  }

  lemma RealAbove(ns: nat, hz: nat, x: nat)
    requires hz > 0 && ns * hz * FS_PER_NS <= x * (hz + 1)
    ensures ns as real <= x as real / FS_PER_NS as real + x as real / FS_PER_NS as real / hz as real
  {
    var t, h := x as real / FS_PER_NS as real, hz as real;
    assert (ns * hz * FS_PER_NS) as real == ns as real * h * FS_PER_NS as real;
    assert (x * (hz + 1)) as real == x as real * (h + 1.0);
    assert x as real == t * FS_PER_NS as real;
    assert ns as real * h <= t * (h + 1.0) by {
      RealCancel(ns as real * h, t * (h + 1.0), FS_PER_NS as real);
    }
    assert t / h * h == t;
    assert (t + t / h) * h == t * (h + 1.0);
    RealCancel(ns as real, t + t / h, h);
  }

  lemma RealCancel(a: real, b: real, d: real)
    requires d > 0.0 && a * d <= b * d
    ensures a <= b
  {
    RealStrict(b, a, d);
  }

  lemma RealStrict(a: real, b: real, d: real)
    requires d > 0.0
    ensures a < b ==> a * d < b * d
  {
  }

  // ----- the code -----

  /** What the firmware's table says, as far as the driver looks at it. */
  datatype Table = Table(space: nat, address: nat)

  class Timer {
    var mapped: bool
    var fsPerTick: nat
    var hz: nat

    constructor ()
      ensures !mapped && fsPerTick == 0 && hz == 0
    {
      mapped, fsPerTick, hz := false, 0, 0;
    }

    // The frequency is that of the period; before the first success both are 0.
    ghost predicate Valid()
      reads this
    {
      hz == 0 || (mapped && 0 < fsPerTick < U32 && hz == FS / fsPerTick)
    }

    /**
     `hpet_init_from_acpi`; `cap` is the capability register. A 32-bit period always gives a
     frequency, so the last check never fails.
     */
    method InitFromAcpi(found: bool, t: Table, cap: nat) returns (rc: int)
      requires cap < U64
      modifies this
      ensures rc == 0 <==> found && t.space == 0 && t.address != 0 && cap / U32 != 0
      ensures rc == 0 ==> Valid() && hz > 0 && fsPerTick == cap / U32
      ensures rc == -1 || rc == -2 || rc == -5 ==> mapped == old(mapped) && fsPerTick == old(fsPerTick) && hz == old(hz)
      ensures rc == -3 ==> mapped && fsPerTick == 0 && hz == old(hz)
      ensures rc
           == if !found then -1 else if t.space != 0 then -2 else if t.address == 0 then -5
              else if cap < 0x1_0000_0000 then -3 else 0
    {
      if !found {
        return -1;
      }
      if t.space != 0 {
        return -2;
      }
      if t.address == 0 {
        return -5;
      }
      mapped := true;
      fsPerTick := cap / U32;
      if fsPerTick == 0 {
        return -3;
      }
      hz := FS / fsPerTick;
      HasFrequency(fsPerTick);
      return 0;
    }

    static lemma HasFrequency(period: nat)
      requires 0 < period < U32
      ensures FS / period > 0
    {
      Euclid(FS, period);
    }

    /** `hpet_now_ns`; `main` is the counter. */
    method NowNs(main: nat) returns (ns: nat)
      requires Valid() && main < U64
      ensures !mapped || hz == 0 ==> ns == 0
      ensures hz > 0 ==> ns == SplitNs(main, hz)
      ensures 0 < hz <= MAX_HZ && WholeNs(main, hz) < U64 ==>
        ns == WholeNs(main, hz)
        && TrueNs(main, fsPerTick).Floor <= ns
        && ns as real <= TrueNs(main, fsPerTick) + TrueNs(main, fsPerTick) / hz as real
    {
      if !mapped || hz == 0 {
        return 0;
      }
      if hz <= MAX_HZ && WholeNs(main, hz) < U64 {
        SplitIsExact(main, hz);
        DriftIsBounded(main, fsPerTick, hz);
      }
      var q := main / hz;
      var r := main % hz;
      ns := q * NS % U64;
      ns := (ns + r * NS % U64 / hz) % U64;
    }
  }
}
