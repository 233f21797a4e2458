/** 17.14 fixed-point arithmetic on 32-bit integers. An operation is defined where its result fits. */
module FixedPoint {
  import opened Arithmetic64

  const NUM_1: int := 0x4000

  predicate Fits(x: int) { -0x8000_0000 <= x <= 0x7fff_ffff }

  type int32 = x: int | Fits(x)

  function IntToFp(n: int32): int32
    requires Fits(n * NUM_1)
  {
    n * NUM_1
  }

  function FpToIntRound(x: int32): int32
    requires Fits(if x >= 0 then x + NUM_1 / 2 else x - NUM_1 / 2)
  {
    var y := if x >= 0 then x + NUM_1 / 2 else x - NUM_1 / 2;
    TruncFits(y, NUM_1);
    TruncDiv(y, NUM_1)
  }

  function AddFp(a: int32, b: int32): int32
    requires Fits(a + b)
  {
    a + b
  }

  function SubFp(a: int32, b: int32): int32
    requires Fits(a - b)
  {
    a - b
  }

  function MulFp(a: int32, b: int32): int32
    requires Fits(TruncDiv(a * b, NUM_1))
  {
    TruncDiv(a * b, NUM_1)
  }

  function DivFp(a: int32, b: int32): int32
    requires b != 0 && Fits(TruncDiv(a * NUM_1, b))
  {
    TruncDiv(a * NUM_1, b)
  }

  lemma TruncFits(x: int, d: int)
    requires Fits(x) && d > 0
    ensures Fits(TruncDiv(x, d))
  {
  }
}

/** The load average and recent_cpu recurrences, what they are bounded by, and the priorities they give. */
module MlfqsBounds {
  import opened Arithmetic64
  import opened FixedPoint

  const PRI_MIN := 0
  const PRI_MAX := 63
  const MAX32: int := 0x7fff_ffff

  // ----- load_avg -----

  /** No operation of the update of load_avg leaves 32 bits; the fractions 59/60 and 1/60 are 16110 and 273. */
  predicate LoadFits(load: int32, r: nat) {
    Fits(r * NUM_1) && Fits(TruncDiv(16110 * load, NUM_1) + 273 * r)
  }

  /** The once-a-second update of load_avg with r threads ready or running. */
  function NextLoad(load: int32, r: nat): int32
    requires LoadFits(load, r)
  {
    LoadOps(load, r);
    AddFp(MulFp(DivFp(IntToFp(59), IntToFp(60)), load), MulFp(DivFp(IntToFp(1), IntToFp(60)), IntToFp(r)))
  }

  lemma LoadOps(load: int, r: int)
    requires Fits(load) && Fits(r * NUM_1) && r >= 0
    ensures Fits(59 * NUM_1) && TruncDiv(59 * NUM_1 * NUM_1, 60 * NUM_1) == 16110
    ensures TruncDiv(NUM_1 * NUM_1, 60 * NUM_1) == 273
    ensures Fits(TruncDiv(16110 * load, NUM_1))
    ensures TruncDiv(273 * (r * NUM_1), NUM_1) == 273 * r && Fits(273 * r)
  {
  }

  lemma NextLoadIs(load: int32, r: nat)
    requires 0 <= load && LoadFits(load, r)
    ensures NextLoad(load, r) == 16110 * load / NUM_1 + 273 * r
  {
    LoadOps(load, r);
  }

  /** What load_avg rises to, from 0, with n threads ready or running at every second. */
  function LoadLimit(n: nat): int { if n == 0 then 0 else (273 * n - 1) * NUM_1 / 274 + 1 }

  /** It never gets past that, and with n threads ready it rises until it is there. */
  lemma LoadClimbs(load: int, r: nat, n: nat)
    requires 0 <= load <= LoadLimit(n) && r <= n
    ensures 0 <= 16110 * load / NUM_1 + 273 * r <= LoadLimit(n)
    ensures r == n && load < LoadLimit(n) ==> 16110 * load / NUM_1 + 273 * r > load
    ensures r == n && load == LoadLimit(n) ==> 16110 * load / NUM_1 + 273 * r == load
  {
  }

  lemma LimitBounds(n: nat)
    ensures 0 <= LoadLimit(n) <= n * NUM_1
    ensures n <= 700 ==> LoadLimit(n) <= 11426884
    ensures n > 700 ==> LoadLimit(n) >= 11443208
    ensures n >= 1 ==> LoadLimit(n) >= 16265
  {
  }

  lemma LoadInside(load: int32, r: nat, n: nat)
    requires 0 <= load <= LoadLimit(n) && r <= n <= 65535
    ensures LoadFits(load, r) && 0 <= NextLoad(load, r) <= LoadLimit(n)
  {
    LimitBounds(n);
    LoadClimbs(load, r, n);
    hide LoadLimit;
    NextLoadIs(load, r);
  }

  /** load_avg after seconds with the given numbers of ready threads. */
  ghost function Load(rs: seq<nat>): int {
    if rs == [] then 0
    else
      var l := Load(rs[..|rs| - 1]);
      var r := rs[|rs| - 1];
      if Fits(l) && LoadFits(l, r) then NextLoad(l, r) else 0
  }

  /** The exact recurrence (59/60) L + (1/60) r, in units of 2^-14. */
  ghost function Exact(rs: seq<nat>): real {
    if rs == [] then 0.0
    else 59.0 / 60.0 * Exact(rs[..|rs| - 1]) + NUM_1 as real / 60.0 * rs[|rs| - 1] as real
  }

  /** However long the run, load_avg stays between 0 and its limit, and behind the exact average by at most
      60 (n + 1) units. */
  lemma {:induction false} LoadTrails(rs: seq<nat>, n: nat)
    requires n <= 65535 && forall i :: 0 <= i < |rs| ==> rs[i] <= n
    ensures 0 <= Load(rs) <= LoadLimit(n) && Fits(Load(rs))
    ensures 0.0 <= Exact(rs) - Load(rs) as real <= 60.0 * (n + 1) as real
  {
    LimitBounds(n);
    hide LoadLimit;
    if rs != [] {
      var before, r := rs[..|rs| - 1], rs[|rs| - 1];
      LoadTrails(before, n);
      var l := Load(before);
      LoadInside(l, r, n);
      NextLoadIs(l, r);
      LagStep(l, r, n, Exact(before));
    }
  }

  lemma LagStep(l: int, r: nat, n: nat, e: real)
    requires 0 <= l <= n * NUM_1 && r <= n && 0.0 <= e - l as real <= 60.0 * (n + 1) as real
    ensures var e' := 59.0 / 60.0 * e + NUM_1 as real / 60.0 * r as real;
      var l' := 16110 * l / NUM_1 + 273 * r;
      0.0 <= e' - l' as real <= 60.0 * (n + 1) as real
  {
    var q := 16110 * l / NUM_1;
    assert q * NUM_1 <= 16110 * l < q * NUM_1 + NUM_1;
    var qr, lr, rr, nr := q as real, l as real, r as real, n as real;
    assert qr * 16384.0 <= 16110.0 * lr < qr * 16384.0 + 16384.0;
    assert lr <= nr * 16384.0 && rr <= nr;
  }

  // ----- The decay factor -----

  /** No operation of 2 load / (2 load + 1) leaves 32 bits. */
  predicate FactorFits(load: int32) {
    && Fits(2 * load) && Fits(2 * load + NUM_1) && 2 * load + NUM_1 != 0
    && Fits(TruncDiv(2 * load * NUM_1, 2 * load + NUM_1))
  }

  function Factor(load: int32): int32
    requires FactorFits(load)
  {
    assert TruncDiv(load * (2 * NUM_1), NUM_1) == 2 * load;
    var twice := MulFp(load, IntToFp(2));
    DivFp(twice, AddFp(twice, IntToFp(1)))
  }

  function FactorOf(load: int): int
    requires load >= 0
  {
    2 * load * NUM_1 / (2 * load + NUM_1)
  }

  lemma FactorBelowOne(load: int)
    requires load >= 0
    ensures 0 <= FactorOf(load) < NUM_1
  {
    var x, k := 2 * load, FactorOf(load);
    QuotExists(x * NUM_1, x + NUM_1);
    assert Mul(k, x + NUM_1) <= x * NUM_1;
    if k >= NUM_1 {
      MulLe(NUM_1, k, x + NUM_1);
    }
  }

  lemma FactorIs(load: int32)
    requires 0 <= load && 2 * load + NUM_1 <= MAX32
    ensures FactorFits(load) && Factor(load) == FactorOf(load)
  {
    FactorBelowOne(load);
    assert TruncDiv(2 * load * NUM_1, 2 * load + NUM_1) == FactorOf(load);
    hide FactorOf;
    assert TruncDiv(load * (2 * NUM_1), NUM_1) == 2 * load;
  }

  lemma FactorMonotone(a: int, b: int)
    requires 0 <= a <= b
    ensures FactorOf(a) <= FactorOf(b)
  {
    FactorBelowOne(a);
    var k := FactorOf(a);
    QuotExists(2 * a * NUM_1, 2 * a + NUM_1);
    hide Mul;
    LargerLoad(k, 2 * a, 2 * b);
    AtLeast(2 * b * NUM_1, 2 * b + NUM_1, k);
  }

  lemma LargerLoad(k: int, x: int, y: int)
    requires 0 <= k <= NUM_1 && 0 <= x <= y && Mul(k, x + NUM_1) <= x * NUM_1
    ensures Mul(k, y + NUM_1) <= y * NUM_1
  {
    MulLe(x, y, NUM_1 - k);
    assert (NUM_1 - k) * x == NUM_1 * x - k * x && (NUM_1 - k) * y == NUM_1 * y - k * y;
    assert k * (x + NUM_1) == k * x + k * NUM_1 && k * (y + NUM_1) == k * y + k * NUM_1;
  }

  lemma AtLeast(n: int, d: int, k: int)
    requires d > 0 && Mul(k, d) <= n
    ensures k <= n / d
  {
    QuotExists(n, d);
    var q := n / d;
    assert n < Mul(q, d) + d == Mul(q + 1, d);
    if q < k {
      MulLe(q + 1, k, d);
    }
  }

  // ----- recent_cpu -----

  /** No operation of the update of recent_cpu leaves 32 bits. */
  predicate DecayFits(load: int32, cpu: int32, nice: int32) {
    && FactorFits(load) && Fits(nice * NUM_1) && Fits(TruncDiv(Factor(load) * cpu, NUM_1))
    && Fits(TruncDiv(Factor(load) * cpu, NUM_1) + nice * NUM_1)
  }

  /** The once-a-second update of recent_cpu. */
  function Decay(load: int32, cpu: int32, nice: int32): int32
    requires DecayFits(load, cpu, nice)
  {
    AddFp(MulFp(Factor(load), cpu), IntToFp(nice))
  }

  /** v is recent_cpu decayed by 2 load / (2 load + 1), plus niceness, to within a fixed-point step and one part in 2^14
      of what it was. */
  predicate IsDecayed(v: int, load: int, cpu: int, nice: int) {
    var d := 2 * load + NUM_1;
    var room := d * ((if cpu < 0 then -cpu else cpu) + NUM_1);
    -room <= NUM_1 * ((v - nice * NUM_1) * d - 2 * load * cpu) <= room
  }

  lemma DecayIs(load: int32, cpu: int32, nice: int32)
    requires 0 <= load && 2 * load + NUM_1 <= MAX32 && DecayFits(load, cpu, nice)
    ensures IsDecayed(Decay(load, cpu, nice), load, cpu, nice)
  {
    FactorIs(load);
    var f, d := FactorOf(load), 2 * load + NUM_1;
    QuotExists(2 * load * NUM_1, d);
    var t := TruncDiv(f * cpu, NUM_1);
    assert -NUM_1 < t * NUM_1 - f * cpu < NUM_1;
    assert Decay(load, cpu, nice) == t + nice * NUM_1;
    hide Factor, FactorOf, DecayFits, FactorFits, Decay, TruncDiv;
    TwoErrors(t, f, d, load, cpu);
  }

  /** The truncation of the product and that of the factor. */
  lemma TwoErrors(t: int, f: int, d: int, load: int, cpu: int)
    requires d > 0 && -NUM_1 < t * NUM_1 - f * cpu < NUM_1 && Mul(f, d) <= 2 * load * NUM_1 < Mul(f, d) + d
    ensures var room := d * ((if cpu < 0 then -cpu else cpu) + NUM_1);
      -room <= NUM_1 * (t * d - 2 * load * cpu) <= room
  {
    var e, g := t * NUM_1 - f * cpu, Mul(f, d) - 2 * load * NUM_1;
    var c := if cpu < 0 then -cpu else cpu;
    assert NUM_1 * (t * d - 2 * load * cpu) == Mul(e, d) + Mul(g, cpu) by { ErrorParts(t, f, d, load, cpu); }
    Bounded(e, d, NUM_1);
    Bounded(g, cpu, d);
    assert d * (c + NUM_1) == Mul(d, c) + Mul(NUM_1, d);
  }

  lemma ErrorParts(t: int, f: int, d: int, load: int, cpu: int)
    ensures NUM_1 * (t * d - 2 * load * cpu) ==
      Mul(t * NUM_1 - f * cpu, d) + Mul(Mul(f, d) - 2 * load * NUM_1, cpu)
  {
  }

  lemma Bounded(e: int, x: int, n: int)
    requires -n <= e <= n
    ensures var c := if x < 0 then -x else x; -Mul(n, c) <= Mul(e, x) <= Mul(n, c)
  {
    var c := if x < 0 then -x else x;
    MulLe(e, n, c);
    MulLe(-n, e, c);
  }

  /** With at most n threads ready or running at each second, and niceness between -m and m, a recent_cpu that is
      at most cap just before an update is so just before the next. */
  predicate Room(n: nat, m: nat, cap: nat)
  {
    LimitBounds(n);
    FactorOf(LoadLimit(n)) * cap / NUM_1 + (100 + m) * NUM_1 <= cap
  }

  /** What room leaves: few enough threads for load_avg to fit, and a niceness that priorities can take. */
  lemma RoomFacts(n: nat, m: nat, cap: nat)
    requires Room(n, m, cap) && cap <= MAX32
    ensures n <= 700 && LoadLimit(n) <= 11426884 && (n >= 1 ==> m <= 43804)
  {
    LimitBounds(n);
    var k := FactorOf(LoadLimit(n));
    if n > 700 {
      FactorMonotone(11443208, LoadLimit(n));
      assert FactorOf(11443208) == 16372;
      RoomNeeds(k, cap, m, 16372);
    } else if n >= 1 {
      FactorMonotone(16265, LoadLimit(n));
      assert FactorOf(16265) == 10896;
      RoomNeeds(k, cap, m, 10896);
    }
  }

  lemma RoomNeeds(k: int, cap: nat, m: nat, low: nat)
    requires low <= k && k * cap / NUM_1 + (100 + m) * NUM_1 <= cap
    ensures low * cap / NUM_1 + (100 + m) * NUM_1 <= cap
  {
    MulLe(low, k, cap);
    assert low * cap <= k * cap;
    assert low * cap / NUM_1 <= k * cap / NUM_1;
  }

  /** Room for a bound is room for every larger one. */
  lemma RoomUp(n: nat, m: nat, cap: nat, more: nat)
    requires Room(n, m, cap) && cap <= more
    ensures Room(n, m, more)
  {
    LimitBounds(n);
    FactorBelowOne(LoadLimit(n));
    Contracts(FactorOf(LoadLimit(n)), cap, more);
  }

  /** Multiplying by less than one brings numbers closer. */
  lemma Contracts(k: int, a: int, b: int)
    requires 0 <= k <= NUM_1 && a <= b
    ensures k * b / NUM_1 <= k * a / NUM_1 + (b - a)
  {
    MulLe(k, NUM_1, b - a);
    assert k * b == k * a + k * (b - a);
    assert k * (b - a) <= NUM_1 * (b - a);
  }

  /** Within room, an update brings recent_cpu back and fits. */
  lemma DecayStays(load: int32, cpu: int32, nice: int32, n: nat, m: nat, cap: nat)
    requires Room(n, m, cap) && cap <= MAX32 && 0 <= load <= LoadLimit(n)
    requires 0 - cap <= cpu <= cap && 0 - m <= nice <= m && n >= 1
    ensures DecayFits(load, cpu, nice) && 100 * NUM_1 - cap <= Decay(load, cpu, nice) <= cap - 100 * NUM_1
  {
    RoomFacts(n, m, cap);
    LimitBounds(n);
    FactorIs(load);
    FactorMonotone(load, LoadLimit(n));
    FactorBelowOne(load);
    var k, t := Factor(load), TruncDiv(Factor(load) * cpu, NUM_1);
    var top := FactorOf(LoadLimit(n));
    hide Factor, FactorOf, LoadLimit;
    ScaledBy(k, top, cpu, cap);
  }

  /** |k x / 2^14|, toward zero, for |x| at most cap and 0 <= k <= top. */
  lemma ScaledBy(k: int, top: int, x: int, cap: int)
    requires 0 <= k <= top && -cap <= x <= cap
    ensures -(top * cap / NUM_1) <= TruncDiv(k * x, NUM_1) <= top * cap / NUM_1
  {
    if x >= 0 {
      ScaledUp(k, top, x, cap);
    } else {
      ScaledUp(k, top, -x, cap);
      assert k * x == -(k * -x);
    }
  }

  lemma ScaledUp(k: int, top: int, x: int, cap: int)
    requires 0 <= k <= top && 0 <= x <= cap
    ensures 0 <= k * x && k * x / NUM_1 <= top * cap / NUM_1
  {
    MulLe(x, cap, k);
    MulLe(k, top, cap);
    assert 0 <= Mul(k, x) == k * x <= Mul(k, cap) <= Mul(top, cap) == top * cap;
  }

  /** Without room, a thread that runs all second, at niceness m and under the limit's load, gains. */
  lemma DecayGrows(load: int32, base: int, n: nat, m: nat, cap: nat)
    requires !Room(n, m, cap) && load == LoadLimit(n) && 0 <= base && base + 100 * NUM_1 <= cap && Fits(m)
    requires Fits(base + 100 * NUM_1) && DecayFits(load, base + 100 * NUM_1, m)
    ensures Decay(load, base + 100 * NUM_1, m) > base
  {
    LimitBounds(n);
    FactorIs(load);
    FactorBelowOne(load);
    var k, x := Factor(load), base + 100 * NUM_1;
    assert k == FactorOf(LoadLimit(n));
    hide Factor, FactorOf, LoadLimit;
    Contracts(k, x, cap);
    MulLe(0, x, k);
    assert k * x >= 0;
  }

  /** At niceness m, a recent_cpu that is not negative stays so. */
  lemma DecayUp(load: int32, cpu: int32, m: int32)
    requires 0 <= load && 0 <= cpu && 0 <= m && DecayFits(load, cpu, m)
    ensures Decay(load, cpu, m) >= 0
  {
    FactorIs(load);
    FactorBelowOne(load);
    var k := Factor(load);
    hide Factor, FactorOf;
    MulLe(0, cpu, k);
    assert k * cpu >= 0;
  }

  /** With niceness between -20 and 20, there is room in 32 bits for up to 586 threads, and for values that can be
      reported for up to four. */
  lemma RoomFor20(n: nat)
    requires n >= 1
    ensures Room(n, 20, MAX32) <==> n <= 586
    ensures Room(n, 20, REPORT_MAX + NUM_1) <==> n <= 4
  {
    LimitBounds(n);
    RoomFor20At(n, MAX32, 586, 9565924, 9582249, 16369, 16370);
    RoomFor20At(n, REPORT_MAX + NUM_1, 4, 65238, 81562, 14556, 14888);
  }

  /** For one thread there is room for a niceness of up to 43804. */
  lemma RoomForOne(m: nat)
    ensures Room(1, m, MAX32) <==> m <= 43804
  {
    assert LoadLimit(1) == 16265 && FactorOf(16265) == 10896;
  }

  lemma RoomFor20At(n: nat, cap: nat, last: nat, low: nat, high: nat, k: nat, k': nat)
    requires LoadLimit(last) == low && LoadLimit(last + 1) == high && FactorOf(low) == k && FactorOf(high) == k'
    requires k * cap / NUM_1 + 120 * NUM_1 <= cap < k' * cap / NUM_1 + 120 * NUM_1
    ensures Room(n, 20, cap) <==> n <= last
  {
    LimitBounds(n);
    if n <= last {
      LimitMonotone(n, last);
      FactorMonotone(LoadLimit(n), low);
      RoomNeeds(k, cap, 20, FactorOf(LoadLimit(n)));
    } else {
      LimitMonotone(last + 1, n);
      FactorMonotone(high, LoadLimit(n));
      MulLe(k', FactorOf(LoadLimit(n)), cap);
      assert k' * cap <= FactorOf(LoadLimit(n)) * cap;
    }
  }

  lemma LimitMonotone(a: nat, b: nat)
    requires a <= b
    ensures LoadLimit(a) <= LoadLimit(b)
  {
  }

  /** Exactly when the conversions of a niceness, and of its double, fit. */
  lemma NiceExact(nice: int)
    ensures Fits(nice * NUM_1) <==> -131072 <= nice <= 131071
    ensures Fits(2 * nice * NUM_1) <==> -65536 <= nice <= 65535
  {
  }

  // ----- Reports -----

  const REPORT_MAX: int := 21474754

  /** What thread_get_recent_cpu and thread_get_load_avg compute: a hundred times x, rounded. They are
      defined where neither the product nor the rounding addition leaves 32 bits. */
  function Report(x: int32): int32
    requires ReportFits(x)
  {
    FpToIntRound(MulFp(x, IntToFp(100)))
  }

  predicate ReportFits(x: int32) {
    var y := TruncDiv(x * (100 * NUM_1), NUM_1);
    Fits(y) && Fits(if y >= 0 then y + NUM_1 / 2 else y - NUM_1 / 2)
  }

  /** The exact condition, and the result: within a half of 100 x / 2^14. */
  lemma ReportExact(x: int32)
    ensures ReportFits(x) <==> -REPORT_MAX <= x <= REPORT_MAX
    ensures ReportFits(x) ==> -NUM_1 <= 2 * (NUM_1 * Report(x) - 100 * x) <= NUM_1
  {
    assert x * (100 * NUM_1) == 100 * x * NUM_1;
  }

  /** Every load_avg up to the limit of n threads can be reported if and only if n is at most 1315. */
  lemma LoadReports(n: nat)
    ensures n <= 1315 <==> forall load: int32 :: 0 <= load <= LoadLimit(n) ==> ReportFits(load)
  {
    if n <= 1315 {
      forall load: int32 | 0 <= load <= LoadLimit(n)
        ensures ReportFits(load)
      {
        ReportExact(load);
      }
    } else {
      ReportExact(REPORT_MAX + 1);
      assert !ReportFits(REPORT_MAX + 1);
    }
  }

  // ----- Priority -----

  /** No operation of the priority's computation leaves 32 bits. */
  predicate PriorityFits(cpu: int32, nice: int32) {
    var x := PRI_MAX * NUM_1 - TruncDiv(cpu, 4) - 2 * nice * NUM_1;
    && Fits(2 * nice * NUM_1) && Fits(PRI_MAX * NUM_1 - TruncDiv(cpu, 4))
    && Fits(x) && Fits(if x >= 0 then x + NUM_1 / 2 else x - NUM_1 / 2)
  }

  lemma PriorityIn(cpu: int32, nice: int32)
    requires -49120 <= nice <= 49183
    ensures PriorityFits(cpu, nice)
  {
    assert Fits(cpu);
    assert -536870912 <= TruncDiv(cpu, 4) <= 536870911;
  }

  /** Exactly which niceness the priority can be computed for, whatever recent_cpu is. */
  lemma PriorityExact(nice: int32)
    ensures (forall cpu: int32 :: PriorityFits(cpu, nice)) <==> -49120 <= nice <= 49183
  {
    if -49120 <= nice <= 49183 {
      forall cpu: int32
        ensures PriorityFits(cpu, nice)
      {
        PriorityIn(cpu, nice);
      }
    } else {
      var cpu: int32 := if nice < 0 then -0x8000_0000 else 0x7fff_ffff;
      assert !PriorityFits(cpu, nice);
    }
  }

  /** A niceness that thread_set_nice stores and the next priority cannot be computed for, at any recent_cpu. */
  lemma NiceTooLarge(cpu: int32)
    ensures !PriorityFits(cpu, 65536)
  {
  }

  /** The priority before clamping. */
  function RawPriority(cpu: int32, nice: int32): int32
    requires PriorityFits(cpu, nice)
  {
    QuarterFits(cpu);
    TruncFits(cpu, 4);
    FpToIntRound(SubFp(SubFp(IntToFp(PRI_MAX), DivFp(cpu, IntToFp(4))), IntToFp(nice * 2)))
  }

  lemma QuarterFits(cpu: int)
    ensures TruncDiv(cpu * NUM_1, 4 * NUM_1) == TruncDiv(cpu, 4)
    ensures 4 * TruncDiv(cpu, 4) <= cpu + 3 && cpu <= 4 * TruncDiv(cpu, 4) + 3
  {
  }

  function Priority(cpu: int32, nice: int32): int
    requires PriorityFits(cpu, nice)
  {
    var p := RawPriority(cpu, nice);
    if p > PRI_MAX then PRI_MAX else if p < PRI_MIN then PRI_MIN else p
  }

  /** The priority is within its range, and more CPU use or niceness never raises it. */
  lemma PriorityMonotone(cpu: int32, nice: int32, cpu': int32, nice': int32)
    requires PriorityFits(cpu, nice) && PriorityFits(cpu', nice') && cpu <= cpu' && nice <= nice'
    ensures PRI_MIN <= Priority(cpu', nice') <= Priority(cpu, nice) <= PRI_MAX
  {
    QuarterFits(cpu);
    QuarterFits(cpu');
    assert TruncDiv(cpu, 4) <= TruncDiv(cpu', 4);
  }

  /** Before clamping, the priority is 63 - cpu/4 - 2 nice, to within a half and one part in 2^14. */
  lemma PriorityClose(cpu: int32, nice: int32)
    requires PriorityFits(cpu, nice)
    ensures var twice := 2 * (4 * NUM_1 * RawPriority(cpu, nice) - ((63 - 2 * nice) * 4 * NUM_1 - cpu));
      -(4 * NUM_1 + 8) <= twice <= 4 * NUM_1 + 8
  {
    var q := TruncDiv(cpu, 4);
    var x := PRI_MAX * NUM_1 - q - 2 * nice * NUM_1;
    RawIs(cpu, nice);
    hide RawPriority, TruncDiv, FpToIntRound;
    RoundClose(x);
    QuarterFits(cpu);
  }

  /** p is 63 - cpu/4 - 2 nice, to within a half and one part in 2^14, if that is a priority, or the nearest one. */
  predicate IsPriority(p: int, cpu: int, nice: int) {
    var want := (63 - 2 * nice) * 4 * NUM_1 - cpu;
    && 0 <= p <= 63 && (want < 0 ==> p == 0) && (want > 63 * 4 * NUM_1 ==> p == 63)
    && (0 <= want <= 63 * 4 * NUM_1 ==> -(4 * NUM_1 + 8) <= 2 * (4 * NUM_1 * p - want) <= 4 * NUM_1 + 8)
  }

  lemma PriorityIs(cpu: int32, nice: int32)
    requires PriorityFits(cpu, nice)
    ensures IsPriority(Priority(cpu, nice), cpu, nice)
  {
    var x := PRI_MAX * NUM_1 - TruncDiv(cpu, 4) - 2 * nice * NUM_1;
    RawIs(cpu, nice);
    hide RawPriority, TruncDiv, FpToIntRound;
    RoundSign(x);
    RoundClose(x);
    QuarterFits(cpu);
  }

  lemma RoundSign(x: int32)
    requires Fits(if x >= 0 then x + NUM_1 / 2 else x - NUM_1 / 2)
    ensures x >= 0 ==> FpToIntRound(x) >= 0
    ensures x <= 0 ==> FpToIntRound(x) <= 0
    ensures x >= PRI_MAX * NUM_1 ==> FpToIntRound(x) >= PRI_MAX
    ensures x <= PRI_MAX * NUM_1 ==> FpToIntRound(x) <= PRI_MAX
  {
  }

  lemma RawIs(cpu: int32, nice: int32)
    requires PriorityFits(cpu, nice)
    ensures RawPriority(cpu, nice) == FpToIntRound(PRI_MAX * NUM_1 - TruncDiv(cpu, 4) - 2 * nice * NUM_1)
  {
    QuarterFits(cpu);
  }

  lemma RoundClose(x: int32)
    requires Fits(if x >= 0 then x + NUM_1 / 2 else x - NUM_1 / 2)
    ensures -NUM_1 <= 2 * (NUM_1 * FpToIntRound(x) - x) <= NUM_1
  {
  }
}

/** thread_tick's accounting under the multi-level feedback queue scheduler. */
module Mlfqs {
  import opened Basics
  import opened FixedPoint
  import opened MlfqsBounds

  const TIMER_FREQ := 100
  const TIME_SLICE := 4

  type Tid = nat

  datatype Thread = Thread(cpu: int32, nice: int32, priority: int, runnable: bool)

  /** What happens: a timer tick, or between ticks a thread is created, changes its niceness, exits, runs, or stops or
      starts being ready or running. */
  datatype Op = Tick | Create(tid: Tid, priority: int) | SetNice(nice: int32) | Exit(tid: Tid) | Switch(tid: Tid)
              | SetRunnable(tid: Tid, b: bool)

  datatype State = State(loadAvg: int32, all: seq<Tid>, threads: map<Tid, Thread>, current: Tid, ticks: nat)

  /** The ready or running threads among s, other than the idle thread. */
  function ReadyCount(s: seq<Tid>, threads: map<Tid, Thread>, idle: Tid): nat {
    if s == [] then 0
    else ReadyCount(s[..|s| - 1], threads, idle) + (if IsReady(s[|s| - 1], threads, idle) then 1 else 0)
  }

  predicate IsReady(t: Tid, threads: map<Tid, Thread>, idle: Tid) {
    t != idle && t in threads && threads[t].runnable
  }

  lemma {:induction false} SameCount(s: seq<Tid>, a: map<Tid, Thread>, b: map<Tid, Thread>, idle: Tid)
    requires a.Keys == b.Keys && forall t | t in a :: a[t].runnable == b[t].runnable
    ensures ReadyCount(s, a, idle) == ReadyCount(s, b, idle)
  {
    if s != [] {
      SameCount(s[..|s| - 1], a, b, idle);
    }
  }

  /** The threads on a list that are ready or running, other than the idle thread. */
  ghost function ReadySet(s: seq<Tid>, threads: map<Tid, Thread>, idle: Tid): set<Tid> {
    set t | t in s && t in threads && t != idle && threads[t].runnable
  }

  /** On a list that holds each of its threads once, the count is how many of them are ready or running. */
  lemma {:induction false} ReadyIs(s: seq<Tid>, threads: map<Tid, Thread>, idle: Tid)
    requires Distinct(s)
    ensures ReadyCount(s, threads, idle) == |ReadySet(s, threads, idle)|
  {
    if s != [] {
      var r, last := s[..|s| - 1], s[|s| - 1];
      ReadyIs(r, threads, idle);
      ReadyLast(s, r, last, threads, idle);
    }
  }

  lemma ReadyLast(s: seq<Tid>, r: seq<Tid>, last: Tid, threads: map<Tid, Thread>, idle: Tid)
    requires s == r + [last] && last !in r
    ensures ReadySet(s, threads, idle) ==
      ReadySet(r, threads, idle) + if IsReady(last, threads, idle) then {last} else {}
    ensures last !in ReadySet(r, threads, idle)
  {
  }

  /** all_list holds every thread once, and the running thread is one of them. */
  ghost predicate Shape(a: State) {
    (forall t :: t in a.all <==> t in a.threads) && Distinct(a.all) && a.current in a.threads
  }

  // ----- A tick -----

  predicate OnSecond(ticks: nat) { ticks % TIMER_FREQ == 0 }

  predicate OnSlice(ticks: nat) { ticks % TIME_SLICE == 0 }

  /** Nothing computed for one thread at tick number `ticks` leaves 32 bits. */
  predicate ThreadFits(th: Thread, ran: bool, ticks: nat, load: int32) {
    && (ran ==> Fits(th.cpu + NUM_1))
    && var cpu := if ran then th.cpu + NUM_1 else th.cpu;
    && (OnSecond(ticks) ==> DecayFits(load, cpu, th.nice))
    && var cpu' := if OnSecond(ticks) then Decay(load, cpu, th.nice) else cpu;
    && (OnSlice(ticks) ==> PriorityFits(cpu', th.nice))
  }

  /** One thread across a tick: credited if it ran, decayed on the second, prioritised on the slice. */
  function AfterTick(th: Thread, ran: bool, ticks: nat, load: int32): Thread
    requires ThreadFits(th, ran, ticks, load)
  {
    var cpu := if ran then th.cpu + NUM_1 else th.cpu;
    var cpu' := if OnSecond(ticks) then Decay(load, cpu, th.nice) else cpu;
    th.(cpu := cpu', priority := if OnSlice(ticks) then Priority(cpu', th.nice) else th.priority)
  }

  predicate LoadOk(a: State, idle: Tid) {
    OnSecond(a.ticks + 1) ==> LoadFits(a.loadAvg, ReadyCount(a.all, a.threads, idle))
  }

  function LoadAfter(a: State, idle: Tid): int32
    requires LoadOk(a, idle)
  {
    if OnSecond(a.ticks + 1) then NextLoad(a.loadAvg, ReadyCount(a.all, a.threads, idle)) else a.loadAvg
  }

  /** Nothing the tick computes leaves 32 bits. */
  predicate TickFits(a: State, idle: Tid) {
    && LoadOk(a, idle)
    && forall t | t in a.threads :: ThreadFits(a.threads[t], t == a.current != idle, a.ticks + 1, LoadAfter(a, idle))
  }

  function Ticked(a: State, idle: Tid): State
    requires TickFits(a, idle)
  {
    var load := LoadAfter(a, idle);
    var threads := map t | t in a.threads :: AfterTick(a.threads[t], t == a.current != idle, a.ticks + 1, load);
    a.(loadAvg := load, threads := threads, ticks := a.ticks + 1)
  }

  /** What a tick from a to b does to thread t, in its own words: it is charged if it runs; on the second its recent_cpu
      decays by the new load average; on every fourth tick its priority is computed from both. */
  ghost predicate Accounted(a: State, b: State, idle: Tid, t: Tid)
    requires t in a.threads && t in b.threads
  {
    var th, n := a.threads[t], b.threads[t];
    var cpu := if t == a.current && t != idle then th.cpu + NUM_1 else th.cpu;
    && n.nice == th.nice && n.runnable == th.runnable
    && (b.ticks % 100 != 0 ==> n.cpu == cpu && b.loadAvg == a.loadAvg)
    && (b.ticks % 100 == 0 && 0 <= b.loadAvg <= (MAX32 - NUM_1) / 2 ==> IsDecayed(n.cpu, b.loadAvg, cpu, n.nice))
    && (b.ticks % 4 != 0 ==> n.priority == th.priority)
    && (b.ticks % 4 == 0 ==> IsPriority(n.priority, n.cpu, n.nice))
  }

  lemma TickAccounts(a: State, b: State, idle: Tid, t: Tid)
    requires TickFits(a, idle) && b == Ticked(a, idle) && t in a.threads
    ensures t in b.threads && Accounted(a, b, idle, t)
  {
    var ran, load := t == a.current != idle, LoadAfter(a, idle);
    assert ThreadFits(a.threads[t], ran, b.ticks, load);
    var cpu: int32 := if ran then a.threads[t].cpu + NUM_1 else a.threads[t].cpu;
    hide ReadyCount, NextLoad, LoadFits, TickFits, DecayFits, Decay, PriorityFits, Priority, IsPriority, IsDecayed;
    if OnSecond(b.ticks) && 0 <= load <= (MAX32 - NUM_1) / 2 {
      DecayIs(load, cpu, a.threads[t].nice);
    }
    if OnSlice(b.ticks) {
      PriorityIs(b.threads[t].cpu, a.threads[t].nice);
    }
  }

  lemma AllAccounted(a: State, idle: Tid)
    requires TickFits(a, idle)
    ensures var b := Ticked(a, idle);
      && b.threads.Keys == a.threads.Keys && b.ticks == a.ticks + 1
      && forall t | t in b.threads :: Accounted(a, b, idle, t)
  {
    var b := Ticked(a, idle);
    hide TickFits, AfterTick, ThreadFits, Accounted;
    forall t | t in b.threads
      ensures Accounted(a, b, idle, t)
    {
      TickAccounts(a, b, idle, t);
    }
  }

  // ----- Steps -----

  /** A tick with an overflow, where the values of the model end. */
  predicate Stops(a: State, op: Op, idle: Tid) { op.Tick? && !TickFits(a, idle) }

  /** What one step does. */
  ghost predicate Next(a: State, op: Op, b: State, idle: Tid) {
    !Stops(a, op, idle) && a.current in a.threads && match op
      case Tick => b == Ticked(a, idle)
      case Create(t, priority) =>
        var cur := a.threads[a.current];
        b == if t in a.threads then a
             else a.(all := a.all + [t], threads := a.threads[t := Thread(cur.cpu, cur.nice, priority, true)])
      case SetNice(nice) => b == a.(threads := a.threads[a.current := a.threads[a.current].(nice := nice)])
      case Exit(t) =>
        b == if t !in a.threads || t == a.current then a
             else a.(all := Without(a.all, t), threads := a.threads - {t})
      case Switch(t) => b == if t in a.threads then a.(current := t) else a
      case SetRunnable(t, r) =>
        b == if t in a.threads then a.(threads := a.threads[t := a.threads[t].(runnable := r)]) else a
  }

  /** states are the ones passed through by the first |states| - 1 steps. */
  ghost predicate IsTrace(states: seq<State>, ops: seq<Op>, idle: Tid) {
    && 0 < |states| <= |ops| + 1 && (forall i :: 0 <= i < |states| ==> Shape(states[i]))
    && (forall i :: 0 <= i < |states| - 1 ==> Next(states[i], ops[i], states[i + 1], idle))
  }

  /** One thread, running, at boot. */
  function Boot(main: Tid): State { State(0, [main], map[main := Thread(0, 0, 31, true)], main, 0) }

  class Accounts {
    var loadAvg: int32
    var all: seq<Tid>
    var threads: map<Tid, Thread>
    var current: Tid
    const idle: Tid
    var ticks: nat

    function St(): State
      reads this
    {
      State(loadAvg, all, threads, current, ticks)
    }

    ghost predicate Valid()
      reads this
    {
      Shape(St())
    }

    constructor (main: Tid, idle: Tid)
      ensures Valid() && this.idle == idle && St() == Boot(main)
    {
      loadAvg, ticks := 0, 0;
      all := [main];
      threads := map[main := Thread(0, 0, 31, true)];
      current := main;
      this.idle := idle;
    }

    method CountReady() returns (r: nat)
      ensures r == ReadyCount(all, threads, idle)
    {
      r := 0;
      var i := 0;
      while i < |all|
        invariant i <= |all| && r == ReadyCount(all[..i], threads, idle)
      {
        var t := all[i];
        assert all[..i + 1][..i] == all[..i];
        if IsReady(t, threads, idle) {
          r := r + 1;
        }
        i := i + 1;
      }
      assert all[..i] == all;
    }

    /** The running thread's recent_cpu grows by one. */
    method Credit()
      requires current in threads && (current != idle ==> Fits(threads[current].cpu + NUM_1))
      modifies this`threads
      ensures threads.Keys == old(threads).Keys
      ensures forall t | t in threads :: threads[t] == Ran(old(threads)[t], t == current != idle)
    {
      if current != idle {
        threads := threads[current := threads[current].(cpu := AddFp(threads[current].cpu, IntToFp(1)))];
      }
    }

    /** The recent_cpu loop. */
    method DecayAll()
      requires Valid() && forall t | t in threads :: DecayFits(loadAvg, threads[t].cpu, threads[t].nice)
      modifies this`threads
      ensures threads.Keys == old(threads).Keys
      ensures forall t | t in threads ::
        && DecayFits(loadAvg, old(threads)[t].cpu, old(threads)[t].nice)
        && threads[t] == old(threads)[t].(cpu := Decay(loadAvg, old(threads)[t].cpu, old(threads)[t].nice))
    {
      hide DecayFits, Decay;
      var i := 0;
      while i < |all|
        invariant i <= |all| && threads.Keys == old(threads).Keys
        invariant forall j :: i <= j < |all| ==> all[j] in threads && threads[all[j]] == old(threads)[all[j]]
        invariant forall j :: 0 <= j < i ==>
          && all[j] in threads && all[j] in old(threads)
          && var th := old(threads)[all[j]];
          && DecayFits(loadAvg, th.cpu, th.nice) && threads[all[j]] == th.(cpu := Decay(loadAvg, th.cpu, th.nice))
      {
        var t := all[i];
        assert t in all;
        threads := threads[t := threads[t].(cpu := Decay(loadAvg, threads[t].cpu, threads[t].nice))];
        i := i + 1;
      }
    }

    /** The priority loop. */
    method PrioritizeAll()
      requires Valid() && forall t | t in threads :: PriorityFits(threads[t].cpu, threads[t].nice)
      modifies this`threads
      ensures threads.Keys == old(threads).Keys
      ensures forall t | t in threads ::
        && PriorityFits(old(threads)[t].cpu, old(threads)[t].nice)
        && threads[t] == old(threads)[t].(priority := Priority(old(threads)[t].cpu, old(threads)[t].nice))
    {
      hide PriorityFits, Priority;
      var i := 0;
      while i < |all|
        invariant i <= |all| && threads.Keys == old(threads).Keys
        invariant forall j :: i <= j < |all| ==> all[j] in threads && threads[all[j]] == old(threads)[all[j]]
        invariant forall j :: 0 <= j < i ==>
          && all[j] in threads && all[j] in old(threads)
          && var th := old(threads)[all[j]];
          && PriorityFits(th.cpu, th.nice) && threads[all[j]] == th.(priority := Priority(th.cpu, th.nice))
      {
        var t := all[i];
        assert t in all;
        threads := threads[t := threads[t].(priority := Priority(threads[t].cpu, threads[t].nice))];
        i := i + 1;
      }
    }

    /** thread_tick, after the tick counter has moved on. */
    method TimerTick()
      requires Valid() && TickFits(St(), idle)
      modifies this`loadAvg, this`threads, this`ticks
      ensures Valid() && TickFits(old(St()), idle) && St() == Ticked(old(St()), idle)
      ensures ticks == old(ticks) + 1 && threads.Keys == old(threads).Keys
      ensures forall t | t in threads :: Accounted(old(St()), St(), idle, t)
    {
      ghost var a := St();
      hide Shape, TickFits, Ticked, Accounted;
      CountTick();
      AllAccounted(a, idle);
    }

    /** Crediting, then once a second the load average and the decay, then on every slice the priorities. */
    method CountTick()
      requires Valid() && TickFits(St(), idle)
      modifies this`loadAvg, this`threads, this`ticks
      ensures Valid() && TickFits(old(St()), idle) && St() == Ticked(old(St()), idle)
    {
      ghost var a := St();
      hide ReadyCount, LoadFits, NextLoad, DecayFits, Decay, PriorityFits;
      hide Priority, ThreadFits, AfterTick, Ran, TickFits;
      FitsParts(a, idle);
      ticks := ticks + 1;
      Credit();
      ghost var b := threads;
      RanCount(all, a.threads, b, current, idle);
      if ticks % TIMER_FREQ == 0 {
        var r := CountReady();
        loadAvg := NextLoad(loadAvg, r);
        CanDecay(a, b, idle);
        DecayAll();
      }
      ghost var c := threads;
      if ticks % TIME_SLICE == 0 {
        CanPrioritize(a, b, c, idle);
        PrioritizeAll();
      }
      TickMade(a, b, c, threads, idle);
    }

    /** A step other than a tick. */
    method Other(op: Op)
      requires Valid() && !op.Tick?
      modifies this`threads, this`all, this`current
      ensures Valid() && Next(old(St()), op, St(), idle)
    {
      match op {
        case Create(t, priority) =>
          if t !in threads {
            Create(t, priority);
          }
        case SetNice(nice) =>
          threads := threads[current := threads[current].(nice := nice)];
        case Exit(t) =>
          if t in threads && t != current {
            WithoutFacts(all, t);
            all := Without(all, t);
            threads := threads - {t};
          }
        case Switch(t) =>
          if t in threads {
            current := t;
          }
        case SetRunnable(t, b) =>
          if t in threads {
            threads := threads[t := threads[t].(runnable := b)];
          }
      }
    }

    /** init_thread: a new thread inherits its creator's niceness and recent_cpu. */
    method Create(t: Tid, priority: int)
      requires Valid() && t !in threads
      modifies this`threads, this`all
      ensures Valid() && Next(old(St()), Op.Create(t, priority), St(), idle)
      ensures threads.Keys == old(threads).Keys + {t} && threads[t].priority == priority
      ensures threads[t].cpu == threads[current].cpu && threads[t].nice == threads[current].nice
    {
      all := all + [t];
      threads := threads[t := Thread(threads[current].cpu, threads[current].nice, priority, true)];
    }

    method Step(op: Op)
      requires Valid() && !Stops(St(), op, idle)
      modifies this`loadAvg, this`all, this`threads, this`current, this`ticks
      ensures Valid() && Next(old(St()), op, St(), idle)
    {
      hide Shape, TickFits, Ticked;
      ShapeHas(St());
      if op.Tick? {
        TimerTick();
      } else {
        Other(op);
      }
    }

    /** Any sequence of steps, up to a tick with an overflow. */
    method Run(ops: seq<Op>) returns (done: nat, ghost states: seq<State>)
      requires Valid()
      modifies this`loadAvg, this`all, this`threads, this`current, this`ticks
      ensures done <= |ops| && |states| == done + 1 && states[0] == old(St()) && states[done] == St()
      ensures IsTrace(states, ops, idle)
      ensures done < |ops| ==> Stops(St(), ops[done], idle)
    {
      hide Shape, Next, Stops;
      done, states := 0, [St()];
      while done < |ops| && !Stops(St(), ops[done], idle)
        invariant done <= |ops| && |states| == done + 1 && states[0] == old(St()) && states[done] == St()
        invariant Valid() && IsTrace(states, ops, idle)
      {
        Step(ops[done]);
        states := states + [St()];
        done := done + 1;
      }
    }
  }

  lemma ShapeHas(a: State)
    requires Shape(a)
    ensures a.current in a.threads
  {
  }

  ghost function Ran(th: Thread, ran: bool): Thread {
    if ran && Fits(th.cpu + NUM_1) then th.(cpu := th.cpu + NUM_1) else th
  }

  lemma RanCount(all: seq<Tid>, a: map<Tid, Thread>, b: map<Tid, Thread>, current: Tid, idle: Tid)
    requires a.Keys == b.Keys && forall t | t in b :: b[t] == Ran(a[t], t == current != idle)
    ensures ReadyCount(all, a, idle) == ReadyCount(all, b, idle)
  {
    SameCount(all, a, b, idle);
  }

  lemma FitsParts(a: State, idle: Tid)
    requires TickFits(a, idle) && a.current in a.threads
    ensures LoadOk(a, idle) && (a.current != idle ==> Fits(a.threads[a.current].cpu + NUM_1))
  {
    assert ThreadFits(a.threads[a.current], a.current != idle, a.ticks + 1, LoadAfter(a, idle));
  }

  /** The threads once credited. */
  ghost predicate Credited(a: State, b: map<Tid, Thread>, idle: Tid) {
    b.Keys == a.threads.Keys && forall t | t in b :: b[t] == Ran(a.threads[t], t == a.current != idle)
  }

  lemma CanDecay(a: State, b: map<Tid, Thread>, idle: Tid)
    requires TickFits(a, idle) && Credited(a, b, idle) && OnSecond(a.ticks + 1)
    ensures forall t | t in b :: DecayFits(LoadAfter(a, idle), b[t].cpu, b[t].nice)
  {
    forall t | t in b
      ensures DecayFits(LoadAfter(a, idle), b[t].cpu, b[t].nice)
    {
      assert ThreadFits(a.threads[t], t == a.current != idle, a.ticks + 1, LoadAfter(a, idle));
    }
  }

  /** The threads once decayed, on a second. */
  ghost predicate DecayedBy(b: map<Tid, Thread>, c: map<Tid, Thread>, second: bool, load: int32) {
    && c.Keys == b.Keys
    && forall t | t in c ::
         if second then DecayFits(load, b[t].cpu, b[t].nice) && c[t] == b[t].(cpu := Decay(load, b[t].cpu, b[t].nice))
         else c[t] == b[t]
  }

  lemma CanPrioritize(a: State, b: map<Tid, Thread>, c: map<Tid, Thread>, idle: Tid)
    requires TickFits(a, idle) && Credited(a, b, idle) && OnSlice(a.ticks + 1)
    requires DecayedBy(b, c, OnSecond(a.ticks + 1), LoadAfter(a, idle))
    ensures forall t | t in c :: PriorityFits(c[t].cpu, c[t].nice)
  {
    hide DecayFits, Decay, PriorityFits;
    forall t | t in c
      ensures PriorityFits(c[t].cpu, c[t].nice)
    {
      assert ThreadFits(a.threads[t], t == a.current != idle, a.ticks + 1, LoadAfter(a, idle));
    }
  }

  ghost predicate PrioritizedBy(c: map<Tid, Thread>, d: map<Tid, Thread>, slice: bool) {
    && d.Keys == c.Keys
    && forall t | t in d ::
         if slice then PriorityFits(c[t].cpu, c[t].nice) && d[t] == c[t].(priority := Priority(c[t].cpu, c[t].nice))
         else d[t] == c[t]
  }

  lemma TickMade(a: State, b: map<Tid, Thread>, c: map<Tid, Thread>, d: map<Tid, Thread>, idle: Tid)
    requires TickFits(a, idle) && Credited(a, b, idle) && DecayedBy(b, c, OnSecond(a.ticks + 1), LoadAfter(a, idle))
    requires PrioritizedBy(c, d, OnSlice(a.ticks + 1))
    ensures d == Ticked(a, idle).threads
  {
    hide DecayFits, Decay, PriorityFits, Priority;
    forall t | t in d
      ensures d[t] == Ticked(a, idle).threads[t]
    {
      assert ThreadFits(a.threads[t], t == a.current != idle, a.ticks + 1, LoadAfter(a, idle));
    }
  }

  // ----- What the runs stay within -----

  /** At most n threads are ready or running at a second, and niceness is set between -m and m. */
  predicate Within(a: State, op: Op, n: nat, m: nat, idle: Tid) {
    match op
    case Tick => OnSecond(a.ticks + 1) ==> ReadyCount(a.all, a.threads, idle) <= n
    case SetNice(v) => 0 - m <= v <= m
    case _ => true
  }

  ghost predicate AllWithin(states: seq<State>, ops: seq<Op>, n: nat, m: nat, idle: Tid)
    requires |states| <= |ops| + 1
  {
    forall i :: 0 <= i < |states| - 1 ==> Within(states[i], ops[i], n, m, idle)
  }

  /** However the thread runs until the next update, recent_cpu is at most cap just before it. */
  ghost predicate ThreadIn(th: Thread, m: nat, cap: nat, ticks: nat) {
    && 100 * NUM_1 - cap <= th.cpu && th.cpu + (TIMER_FREQ - ticks % TIMER_FREQ) * NUM_1 <= cap
    && 0 - m <= th.nice <= m
  }

  ghost predicate InBounds(a: State, n: nat, m: nat, cap: nat) {
    && 0 <= a.loadAvg <= LoadLimit(n)
    && forall t | t in a.threads :: ThreadIn(a.threads[t], m, cap, a.ticks)
  }

  lemma TicksOn(ticks: nat)
    ensures var r, s := ticks % TIMER_FREQ, (ticks + 1) % TIMER_FREQ; s == if r == 99 then 0 else r + 1
  {
  }

  /** One thread across a tick, within room. */
  lemma ThreadStays(th: Thread, ran: bool, ticks: nat, load: int32, n: nat, m: nat, cap: nat)
    requires Room(n, m, cap) && cap <= MAX32 && n >= 1 && 0 <= load <= LoadLimit(n) && ThreadIn(th, m, cap, ticks)
    requires ThreadFits(th, ran, ticks + 1, load)
    ensures ThreadIn(AfterTick(th, ran, ticks + 1, load), m, cap, ticks + 1)
  {
    hide Room, LoadLimit, Priority, PriorityFits, DecayFits, Decay;
    TicksOn(ticks);
    if OnSecond(ticks + 1) {
      DecayStays(load, if ran then th.cpu + NUM_1 else th.cpu, th.nice, n, m, cap);
    }
  }

  lemma ThreadFitsIn(th: Thread, ran: bool, ticks: nat, load: int32, n: nat, m: nat)
    requires Room(n, m, MAX32) && n >= 1 && 0 <= load <= LoadLimit(n) && ThreadIn(th, m, MAX32, ticks)
    ensures ThreadFits(th, ran, ticks + 1, load)
  {
    RoomFacts(n, m, MAX32);
    hide Room, LoadLimit, PriorityFits, DecayFits, Decay;
    TicksOn(ticks);
    var cpu := if ran then th.cpu + NUM_1 else th.cpu;
    if OnSecond(ticks + 1) {
      DecayStays(load, cpu, th.nice, n, m, MAX32);
      PriorityIn(Decay(load, cpu, th.nice), th.nice);
    } else {
      PriorityIn(cpu, th.nice);
    }
  }

  lemma LoadStays(a: State, idle: Tid, n: nat, m: nat, cap: nat)
    requires Room(n, m, cap) && cap <= MAX32 && 0 <= a.loadAvg <= LoadLimit(n) && Within(a, Tick, n, m, idle)
    ensures LoadOk(a, idle) && 0 <= LoadAfter(a, idle) <= LoadLimit(n)
  {
    RoomFacts(n, m, cap);
    hide Room, LoadLimit, ReadyCount, LoadFits, NextLoad;
    if OnSecond(a.ticks + 1) {
      LoadInside(a.loadAvg, ReadyCount(a.all, a.threads, idle), n);
    }
  }

  /** No tick overflows within room. */
  lemma TickFitsIn(a: State, idle: Tid, n: nat, m: nat)
    requires Room(n, m, MAX32) && n >= 1 && InBounds(a, n, m, MAX32) && Within(a, Tick, n, m, idle)
    ensures TickFits(a, idle)
  {
    hide Room, LoadLimit, ReadyCount, LoadFits, NextLoad, ThreadFits, ThreadIn;
    LoadStays(a, idle, n, m, MAX32);
    hide LoadOk, LoadAfter;
    forall t | t in a.threads
      ensures ThreadFits(a.threads[t], t == a.current != idle, a.ticks + 1, LoadAfter(a, idle))
    {
      ThreadFitsIn(a.threads[t], t == a.current != idle, a.ticks, LoadAfter(a, idle), n, m);
    }
  }

  lemma StepStays(a: State, op: Op, b: State, idle: Tid, n: nat, m: nat, cap: nat)
    requires Room(n, m, cap) && cap <= MAX32 && n >= 1 && InBounds(a, n, m, cap)
    requires Next(a, op, b, idle) && Within(a, op, n, m, idle)
    ensures InBounds(b, n, m, cap)
  {
    hide Room, LoadLimit, ThreadFits, AfterTick, LoadOk, LoadAfter, Without, ReadyCount;
    if op.Tick? {
      LoadStays(a, idle, n, m, cap);
      hide ThreadIn;
      forall t | t in b.threads
        ensures ThreadIn(b.threads[t], m, cap, b.ticks)
      {
        assert ThreadIn(a.threads[t], m, cap, a.ticks);
        ThreadStays(a.threads[t], t == a.current != idle, a.ticks, LoadAfter(a, idle), n, m, cap);
      }
    }
  }

  /** On every run from boot within the limits, recent_cpu and load_avg stay within bounds that there is room for. */
  lemma {:induction false} RunStays(states: seq<State>, ops: seq<Op>, idle: Tid, main: Tid, n: nat, m: nat, cap: nat,
                                    k: nat)
    requires IsTrace(states, ops, idle) && states[0] == Boot(main) && AllWithin(states, ops, n, m, idle)
    requires Room(n, m, cap) && cap <= MAX32 && n >= 1 && k < |states|
    ensures InBounds(states[k], n, m, cap)
  {
    hide *;
    if k == 0 {
      BootIn(main, n, m, cap);
    } else {
      RunStays(states, ops, idle, main, n, m, cap, k - 1);
      TraceStep(states, ops, idle, n, m, k - 1);
      StepStays(states[k - 1], ops[k - 1], states[k], idle, n, m, cap);
    }
  }

  lemma TraceStep(states: seq<State>, ops: seq<Op>, idle: Tid, n: nat, m: nat, i: nat)
    requires IsTrace(states, ops, idle) && AllWithin(states, ops, n, m, idle) && i < |states| - 1
    ensures i < |ops| && Next(states[i], ops[i], states[i + 1], idle) && Within(states[i], ops[i], n, m, idle)
  {
    hide Next, Within, Shape;
  }

  lemma BootIn(main: Tid, n: nat, m: nat, cap: nat)
    requires Room(n, m, cap)
    ensures InBounds(Boot(main), n, m, cap)
  {
    LimitBounds(n);
    FactorBelowOne(LoadLimit(n));
    var k := FactorOf(LoadLimit(n));
    hide FactorOf, LoadLimit;
    assert k * cap >= 0;
  }

  /** So no such run meets an overflow, if there is room in 32 bits. */
  lemma RunNeverStops(states: seq<State>, ops: seq<Op>, idle: Tid, main: Tid, n: nat, m: nat)
    requires IsTrace(states, ops, idle) && states[0] == Boot(main) && AllWithin(states, ops, n, m, idle)
    requires Room(n, m, MAX32) && n >= 1 && |states| <= |ops|
    requires Within(states[|states| - 1], ops[|states| - 1], n, m, idle)
    ensures !Stops(states[|states| - 1], ops[|states| - 1], idle)
  {
    hide Room, InBounds, Next, Within, TickFits;
    RunStays(states, ops, idle, main, n, m, MAX32, |states| - 1);
    if ops[|states| - 1].Tick? {
      TickFitsIn(states[|states| - 1], idle, n, m);
    }
  }

  /** With up to four threads ready, and niceness between -20 and 20, every recent_cpu can always be reported. */
  lemma RunReports(states: seq<State>, ops: seq<Op>, idle: Tid, main: Tid, n: nat, k: nat, t: Tid)
    requires IsTrace(states, ops, idle) && states[0] == Boot(main) && AllWithin(states, ops, n, 20, idle)
    requires 1 <= n <= 4 && k < |states| && t in states[k].threads
    ensures ReportFits(states[k].threads[t].cpu)
  {
    hide *;
    RoomFor20(n);
    ReportCap();
    RunStays(states, ops, idle, main, n, 20, REPORT_MAX + NUM_1, k);
    ThreadReports(states[k], t, n);
  }

  lemma ReportCap()
    ensures 0 <= REPORT_MAX + NUM_1 <= MAX32
  {
  }

  lemma ThreadReports(a: State, t: Tid, n: nat)
    requires REPORT_MAX + NUM_1 >= 0 && InBounds(a, n, 20, REPORT_MAX + NUM_1) && t in a.threads
    ensures ReportFits(a.threads[t].cpu)
  {
    hide LoadLimit, ReportFits;
    assert ThreadIn(a.threads[t], 20, REPORT_MAX + NUM_1, a.ticks);
    ReportExact(a.threads[t].cpu);
  }

  /** The numbers of ready threads at the seconds among the first k steps. */
  ghost function Seconds(states: seq<State>, ops: seq<Op>, idle: Tid, k: nat): seq<nat>
    requires k < |states| <= |ops| + 1
  {
    if k == 0 then []
    else
      var rs := Seconds(states, ops, idle, k - 1);
      if ops[k - 1] == Tick && OnSecond(states[k - 1].ticks + 1) then
        rs + [ReadyCount(states[k - 1].all, states[k - 1].threads, idle)]
      else rs
  }

  /** Along every run, load_avg trails the exact average of the seconds so far by at most 60 (n + 1) units. */
  lemma {:induction false} TraceTrails(states: seq<State>, ops: seq<Op>, n: nat, m: nat, idle: Tid, k: nat)
    requires IsTrace(states, ops, idle) && states[0].loadAvg == 0 && k < |states| && n <= 65535
    requires AllWithin(states, ops, n, m, idle)
    ensures var rs := Seconds(states, ops, idle, k);
      && (forall i :: 0 <= i < |rs| ==> rs[i] <= n) && states[k].loadAvg == Load(rs)
      && 0.0 <= Exact(rs) - states[k].loadAvg as real <= 60.0 * (n + 1) as real
  {
    hide Shape, TickFits, ReadyCount, NextLoad, LoadFits, AfterTick, LoadLimit;
    var rs := Seconds(states, ops, idle, k);
    if k > 0 {
      TraceTrails(states, ops, n, m, idle, k - 1);
      var before := Seconds(states, ops, idle, k - 1);
      assert Next(states[k - 1], ops[k - 1], states[k], idle) && Within(states[k - 1], ops[k - 1], n, m, idle);
      StepLoads(states[k - 1], ops[k - 1], states[k], idle);
      assert rs != before ==> rs[..|rs| - 1] == before;
    }
    LoadTrails(rs, n);
  }

  lemma StepLoads(a: State, op: Op, b: State, idle: Tid)
    requires Next(a, op, b, idle)
    ensures if op.Tick? && OnSecond(a.ticks + 1)
      then LoadFits(a.loadAvg, ReadyCount(a.all, a.threads, idle)) &&
           b.loadAvg == NextLoad(a.loadAvg, ReadyCount(a.all, a.threads, idle))
      else b.loadAvg == a.loadAvg
  {
    hide ReadyCount, NextLoad, LoadFits, AfterTick, ThreadFits;
  }

  // ----- Runs that use up the room -----

  /** The steps so far and the states they led through. */
  datatype Log = Log(ops: seq<Op>, states: seq<State>)

  /** A run from boot, within the limits, that ends in a. */
  ghost predicate Reaches(log: Log, a: State, idle: Tid, main: Tid, n: nat, m: nat) {
    && |log.states| == |log.ops| + 1 && IsTrace(log.states, log.ops, idle)
    && AllWithin(log.states, log.ops, n, m, idle) && log.states[0] == Boot(main) && log.states[|log.ops|] == a
  }

  lemma LogNext(log: Log, a: State, idle: Tid, main: Tid, n: nat, m: nat, op: Op, b: State)
    requires Reaches(log, a, idle, main, n, m) && Shape(b) && Next(a, op, b, idle) && Within(a, op, n, m, idle)
    ensures Reaches(Log(log.ops + [op], log.states + [b]), b, idle, main, n, m)
  {
    hide Shape, Next, Within;
  }

  method LoggedStep(acc: Accounts, op: Op, main: Tid, ghost log: Log, ghost n: nat, ghost m: nat)
    returns (ghost log': Log)
    requires acc.Valid() && !Stops(acc.St(), op, acc.idle) && Reaches(log, acc.St(), acc.idle, main, n, m)
    requires Within(acc.St(), op, n, m, acc.idle)
    modifies acc`loadAvg, acc`all, acc`threads, acc`current, acc`ticks
    ensures acc.Valid() && Reaches(log', acc.St(), acc.idle, main, n, m) && Next(old(acc.St()), op, acc.St(), acc.idle)
  {
    hide Shape, Next, Stops, Reaches, Within;
    ghost var a := acc.St();
    acc.Step(op);
    LogNext(log, a, acc.idle, main, n, m, op, acc.St());
    log' := Log(log.ops + [op], log.states + [acc.St()]);
  }

  /** Threads 1 to k, all ready, with thread 1 running at niceness m, before the first tick. */
  ghost predicate Crowd(a: State, k: nat, m: nat) {
    && k >= 1 && a.current == 1 && a.ticks == 0 && a.loadAvg == 0
    && |a.all| == k && (forall i :: 0 <= i < k ==> a.all[i] == i + 1)
    && (forall t :: t in a.threads <==> 1 <= t <= k) && (forall t | t in a.threads :: a.threads[t].runnable)
    && a.threads[1].nice == m && a.threads[1].cpu == 0
  }

  lemma CrowdStarts(b: State, m: int32)
    requires m >= 0 && Next(Boot(1), SetNice(m), b, 0)
    ensures Crowd(b, 1, m)
  {
  }

  lemma CrowdGrows(a: State, b: State, k: nat, m: nat)
    requires Crowd(a, k, m) && Next(a, Create(k + 1, 31), b, 0)
    ensures Crowd(b, k + 1, m)
  {
  }

  lemma {:induction false} AllReady(s: seq<Tid>, threads: map<Tid, Thread>, idle: Tid)
    requires forall i :: 0 <= i < |s| ==> IsReady(s[i], threads, idle)
    ensures ReadyCount(s, threads, idle) == |s|
  {
    if s != [] {
      AllReady(s[..|s| - 1], threads, idle);
    }
  }

  /** n threads are ready, and the running one, of niceness m, has run since its last update, after which its
      recent_cpu was base. */
  ghost predicate Busy(a: State, n: nat, m: nat, base: int) {
    && a.current in a.threads && a.current != 0 && ReadyCount(a.all, a.threads, 0) == n
    && a.threads[a.current].nice == m && a.threads[a.current].cpu == base + a.ticks % TIMER_FREQ * NUM_1
    && base >= 0 && 0 <= a.loadAvg <= LoadLimit(n)
  }

  lemma CrowdIsBusy(a: State, n: nat, m: nat)
    requires Crowd(a, n, m)
    ensures Busy(a, n, m, 0)
  {
    AllReady(a.all, a.threads, 0);
    LimitBounds(n);
    hide LoadLimit, ReadyCount;
  }

  /** thread 1 starts n - 1 others. */
  method StartCrowd(n: nat, m: int32) returns (acc: Accounts, ghost log: Log)
    requires n >= 1 && m >= 0
    ensures fresh(acc) && acc.Valid() && acc.idle == 0 && Busy(acc.St(), n, m, 0)
    ensures Reaches(log, acc.St(), 0, 1, n, m)
  {
    hide Shape, Next, Crowd, Busy, TickFits;
    acc := new Accounts(1, 0);
    log := Log([], [acc.St()]);
    assert Reaches(log, acc.St(), 0, 1, n, m);
    hide Reaches;
    log := LoggedStep(acc, SetNice(m), 1, log, n, m);
    CrowdStarts(acc.St(), m);
    var k := 1;
    while k < n
      invariant 1 <= k <= n && acc.Valid() && fresh(acc) && acc.idle == 0
      invariant Reaches(log, acc.St(), 0, 1, n, m) && Crowd(acc.St(), k, m)
    {
      ghost var a := acc.St();
      log := LoggedStep(acc, Create(k + 1, 31), 1, log, n, m);
      CrowdGrows(a, acc.St(), k, m);
      k := k + 1;
    }
    CrowdIsBusy(acc.St(), n, m);
  }

  /** One tick of a busy system: on the second load_avg rises to its limit or, there, recent_cpu rises. */
  ghost predicate Gains(a: State, b: State, n: nat, base: int, base': int) {
    if OnSecond(a.ticks + 1) then b.loadAvg > a.loadAvg || (b.loadAvg == a.loadAvg && base' > base)
    else b.loadAvg == a.loadAvg && base' == base && b.ticks % TIMER_FREQ == a.ticks % TIMER_FREQ + 1
  }

  /** recent_cpu after the last update of the running thread. */
  ghost function BaseOf(a: State): int
    requires a.current in a.threads
  {
    a.threads[a.current].cpu - a.ticks % TIMER_FREQ * NUM_1
  }

  lemma TickedThread(a: State, b: State, t: Tid)
    requires TickFits(a, 0) && b == Ticked(a, 0) && t in a.threads
    ensures t in b.threads && b.threads[t].nice == a.threads[t].nice && b.threads[t].runnable == a.threads[t].runnable
    ensures var ran := t == a.current != 0;
      && LoadOk(a, 0) && ThreadFits(a.threads[t], ran, a.ticks + 1, LoadAfter(a, 0))
      && b.threads[t] == AfterTick(a.threads[t], ran, a.ticks + 1, LoadAfter(a, 0))
  {
    hide ReadyCount, Decay, DecayFits, Priority, PriorityFits, NextLoad, LoadFits;
  }

  lemma SameReady(a: State, b: State)
    requires TickFits(a, 0) && b == Ticked(a, 0)
    ensures ReadyCount(b.all, b.threads, 0) == ReadyCount(a.all, a.threads, 0)
  {
    hide TickFits, ThreadFits, AfterTick, LoadOk, LoadAfter;
    forall t | t in a.threads
      ensures t in b.threads && a.threads[t].runnable == b.threads[t].runnable
    {
      TickedThread(a, b, t);
    }
    SameCount(a.all, a.threads, b.threads, 0);
  }

  lemma BusyTick(a: State, b: State, n: nat, m: nat, base: int, cap: nat)
    requires Busy(a, n, m, base) && n >= 1 && TickFits(a, 0) && b == Ticked(a, 0) && Fits(m)
    requires !Room(n, m, cap) && a.threads[a.current].cpu <= cap - NUM_1
    ensures b.current in b.threads && Busy(b, n, m, BaseOf(b)) && Gains(a, b, n, base, BaseOf(b))
  {
    SameReady(a, b);
    TickedThread(a, b, a.current);
    TicksOn(a.ticks);
    hide Room, LoadLimit, ReadyCount, Priority, PriorityFits, TickFits, Ticked;
    if OnSecond(a.ticks + 1) {
      SecondTick(a, b, n, m, base, cap);
    }
  }

  lemma SecondTick(a: State, b: State, n: nat, m: nat, base: int, cap: nat)
    requires Busy(a, n, m, base) && n >= 1 && Fits(m) && OnSecond(a.ticks + 1) && !Room(n, m, cap)
    requires LoadOk(a, 0) && b.loadAvg == LoadAfter(a, 0) && a.threads[a.current].cpu <= cap - NUM_1
    requires Fits(base + 100 * NUM_1) && DecayFits(b.loadAvg, base + 100 * NUM_1, m)
    ensures 0 <= b.loadAvg <= LoadLimit(n) && Decay(b.loadAvg, base + 100 * NUM_1, m) >= 0
    ensures b.loadAvg > a.loadAvg || (b.loadAvg == a.loadAvg && Decay(b.loadAvg, base + 100 * NUM_1, m) > base)
  {
    TicksOn(a.ticks);
    hide Room, LoadLimit, ReadyCount, NextLoad, LoadFits, Decay, DecayFits;
    NextLoadIs(a.loadAvg, n);
    LoadClimbs(a.loadAvg, n, n);
    DecayUp(b.loadAvg, base + 100 * NUM_1, m);
    if b.loadAvg == a.loadAvg {
      DecayGrows(b.loadAvg, base, n, m, cap);
    }
  }

  /** Where there is no room for cap, n threads that are always ready, with the running one at niceness m, reach
      either an overflow or a recent_cpu over cap - 1 in units of 2^14. */
  method UseUp(n: nat, m: int32, cap: nat) returns (acc: Accounts, ghost log: Log)
    requires n >= 1 && m >= 0 && !Room(n, m, cap)
    ensures acc.Valid() && acc.idle == 0 && Reaches(log, acc.St(), 0, 1, n, m) && acc.current in acc.threads
    ensures Stops(acc.St(), Tick, 0) || acc.threads[acc.current].cpu > cap - NUM_1
    ensures acc.current != 0 && ReadyCount(acc.all, acc.threads, 0) == n
  {
    acc, log := StartCrowd(n, m);
    ghost var base := 0;
    hide Shape, Reaches, Room, LoadLimit, TickFits, Ticked, Gains;
    while !Stops(acc.St(), Tick, 0) && acc.threads[acc.current].cpu <= cap - NUM_1
      invariant acc.Valid() && acc.idle == 0 && fresh(acc) && Reaches(log, acc.St(), 0, 1, n, m)
      invariant acc.current in acc.threads && Busy(acc.St(), n, m, base)
      decreases LoadLimit(n) - acc.loadAvg, cap - base, TIMER_FREQ - acc.ticks % TIMER_FREQ
    {
      ghost var a := acc.St();
      log := LoggedStep(acc, Tick, 1, log, n, m);
      BusyTick(a, acc.St(), n, m, base, cap);
      Gained(a, acc.St(), n, base, BaseOf(acc.St()));
      base := BaseOf(acc.St());
    }
  }

  lemma Gained(a: State, b: State, n: nat, base: int, base': int)
    requires Gains(a, b, n, base, base')
    ensures b.loadAvg >= a.loadAvg
    ensures b.loadAvg == a.loadAvg ==> base' >= base
    ensures b.loadAvg == a.loadAvg && base' == base ==> b.ticks % TIMER_FREQ > a.ticks % TIMER_FREQ
  {
  }

  lemma CannotCredit(a: State)
    requires a.current in a.threads && a.current != 0 && a.threads[a.current].cpu > MAX32 - NUM_1
    ensures Stops(a, Tick, 0)
  {
    hide ReadyCount, LoadFits, NextLoad, DecayFits, PriorityFits;
    if LoadOk(a, 0) {
      assert !ThreadFits(a.threads[a.current], true, a.ticks + 1, LoadAfter(a, 0));
    }
  }

  /** Where there is no room in 32 bits, some run within the limits overflows. */
  method OverflowingRun(n: nat, m: int32) returns (acc: Accounts, ghost log: Log)
    requires n >= 1 && m >= 0 && !Room(n, m, MAX32)
    ensures Reaches(log, acc.St(), 0, 1, n, m) && Within(acc.St(), Tick, n, m, 0) && Stops(acc.St(), Tick, 0)
  {
    hide Reaches, Room, ReadyCount, Shape, TickFits;
    acc, log := UseUp(n, m, MAX32);
    if acc.threads[acc.current].cpu > MAX32 - NUM_1 {
      CannotCredit(acc.St());
    }
  }

  /** Where there is room in 32 bits but not below the largest value that can be reported, some run within the limits
      ends with a running thread whose recent_cpu cannot be reported. */
  method UnreportableRun(n: nat, m: int32) returns (acc: Accounts, ghost log: Log)
    requires n >= 1 && m >= 0 && !Room(n, m, REPORT_MAX + NUM_1) && Room(n, m, MAX32)
    ensures Reaches(log, acc.St(), 0, 1, n, m) && acc.current in acc.threads
    ensures !ReportFits(acc.threads[acc.current].cpu)
  {
    hide Reaches, Room, ReadyCount, Shape, TickFits, ReportFits;
    acc, log := UseUp(n, m, REPORT_MAX + NUM_1);
    GoesOn(log, acc.St(), n, m);
    ReportExact(acc.threads[acc.current].cpu);
  }

  lemma GoesOn(log: Log, a: State, n: nat, m: nat)
    requires Reaches(log, a, 0, 1, n, m) && Room(n, m, MAX32) && n >= 1 && Within(a, Tick, n, m, 0)
    ensures !Stops(a, Tick, 0)
  {
    hide Room, Next, Within, Stops, Shape;
    var ops := log.ops + [Tick];
    assert forall i :: 0 <= i < |log.ops| ==> ops[i] == log.ops[i];
    RunNeverStops(log.states, ops, 0, 1, n, m);
  }
}
