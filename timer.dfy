/**
 * `delay_ms` of kernel/src/timer.rs: busy-wait on the HPET main counter.
 *
 * The clock period comes in femtoseconds per tick; a period of 0 is replaced by bits 63:32
 * of the HPET capabilities register (`get_clock_tick_unit_fallback`, kernel/src/init/hpet.rs).
 * The delay is converted to femtoseconds and then to whole ticks, the target is the start
 * value plus the ticks in wrapping u64 arithmetic, and the loop spins while the counter
 * reads below the target. The counter's successive values are a parameter: the value read
 * before the loop, and the values the loop reads, in order.
 */
module Timer {
  import opened Common

  const FEMTOS_PER_MS: nat := 1_000_000_000_000
  const U32_MODULUS: nat := 0x1_0000_0000
  /** u64 slots of the HPET register block: general capabilities at 0x00, main counter at 0xF0. */
  const CAPABILITIES_SLOT: nat := 0
  const MAIN_COUNTER_SLOT: nat := 0xF0 / 8
  const STILL_ZERO: string := "HPET clock tick unit is still zero!"
  const MUL_OVERFLOW: string := "attempt to multiply with overflow"

  lemma MainCounterSlot()
    ensures MAIN_COUNTER_SLOT == 30 && MAIN_COUNTER_SLOT * 8 == 0xF0
  {
  }

  /** `(caps >> 32) as u32`: the period field of the capabilities register. */
  function ClockTickFallback(caps: nat): (r: nat)
    requires caps < U64_MODULUS
    ensures r < U32_MODULUS
    ensures caps == r * U32_MODULUS + caps % U32_MODULUS
  {
    caps / U32_MODULUS
  }

  /** The period `delay_ms` uses, or its panic. */
  function TickUnit(clockTickUnit: nat, caps: nat): (r: Outcome<nat>)
    requires clockTickUnit < U32_MODULUS && caps < U64_MODULUS
    ensures r.Panic? <==> clockTickUnit == 0 && caps < U32_MODULUS
    ensures r.Panic? ==> r.reason == STILL_ZERO
    ensures r.Return? ==> 0 < r.value < U32_MODULUS
    ensures r.Return? && clockTickUnit != 0 ==> r.value == clockTickUnit
  {
    if clockTickUnit != 0 then Return(clockTickUnit)
    else
      var fallback := ClockTickFallback(caps);
      if fallback == 0 then Panic(STILL_ZERO) else Return(fallback)
  }

  /** `ms * 1_000_000_000_000` in u64, with a debug build's overflow panic. */
  function DelayFs(ms: nat): (r: Outcome<nat>)
    ensures r.Return? <==> ms * FEMTOS_PER_MS < U64_MODULUS
    ensures r.Return? ==> r.value / FEMTOS_PER_MS == ms && r.value % FEMTOS_PER_MS == 0
    ensures r.Panic? ==> r.reason == MUL_OVERFLOW
  {
    var product := ms * FEMTOS_PER_MS;
    if product >= U64_MODULUS then Panic(MUL_OVERFLOW) else Return(product)
  }

  /** Only delays up to 18 446 744 ms (about 5.1 hours) can be expressed. */
  lemma DelayFsLimit()
    ensures DelayFs(18_446_744).Return? && DelayFs(18_446_745).Panic?
  {
  }

  /** `start.wrapping_add(ticks)`. */
  function Target(start: nat, ticks: nat): (r: nat)
    requires start < U64_MODULUS && ticks < U64_MODULUS
    ensures r < U64_MODULUS
    ensures start + ticks < U64_MODULUS ==> r == start + ticks
    ensures start + ticks >= U64_MODULUS ==> r == start + ticks - U64_MODULUS && r < start
  {
    (start + ticks) % U64_MODULUS
  }

  /** The index of the first read at or above the target, if any. */
  function FirstReached(counter: seq<nat>, target: nat): (r: Option<nat>)
    ensures r.Some? ==> r.value < |counter| && counter[r.value] >= target
                        && forall j :: 0 <= j < r.value ==> counter[j] < target
    ensures r.None? ==> forall j :: 0 <= j < |counter| ==> counter[j] < target
  {
    if counter == [] then None
    else if counter[0] >= target then Some(0)
    else match FirstReached(counter[1..], target)
      case None => None
      case Some(k) => Some(k + 1)
  }

  /** What became of a call: the loop left after reading `counter[index]`, was still spinning when the counter ran out, or panicked. */
  datatype DelayOutcome = Elapsed(index: nat) | StillSpinning | DelayPanic(reason: string)

  /** `delay_ms` as a function of its inputs and of the counter's values. */
  function DelaySpec(clockTickUnit: nat, caps: nat, ms: nat, start: nat, counter: seq<nat>): DelayOutcome
    requires clockTickUnit < U32_MODULUS && caps < U64_MODULUS && start < U64_MODULUS
  {
    match TickUnit(clockTickUnit, caps)
    case Panic(reason) => DelayPanic(reason)
    case Return(unit) =>
      match DelayFs(ms)
      case Panic(reason) => DelayPanic(reason)
      case Return(fs) =>
        DivAtMost(fs, unit);
        match FirstReached(counter, Target(start, fs / unit))
        case None => StillSpinning
        case Some(k) => Elapsed(k)
  }

  method DelayMs(clockTickUnit: nat, caps: nat, ms: nat, start: nat, counter: seq<nat>) returns (r: DelayOutcome)
    requires clockTickUnit < U32_MODULUS && caps < U64_MODULUS && start < U64_MODULUS
    ensures r == DelaySpec(clockTickUnit, caps, ms, start, counter)
  {
    var unit := clockTickUnit;
    if unit == 0 {
      unit := ClockTickFallback(caps);
      if unit == 0 {
        return DelayPanic(STILL_ZERO);
      }
    }
    if ms * FEMTOS_PER_MS >= U64_MODULUS {
      return DelayPanic(MUL_OVERFLOW);
    }
    var delayFs := ms * FEMTOS_PER_MS;
    var ticksToWait := delayFs / unit;
    var target := (start + ticksToWait) % U64_MODULUS;
    var i := 0;
    while i < |counter| && counter[i] < target
      invariant 0 <= i <= |counter|
      invariant forall j :: 0 <= j < i ==> counter[j] < target
    {
      i := i + 1;
    }
    if i == |counter| {
      r := StillSpinning;
    } else {
      r := Elapsed(i);
    }
  }

  lemma DivAtMost(a: nat, b: nat)
    requires b > 0
    ensures a / b <= a
  {
    var q := a / b;
    assert a == q * b + a % b;
    MulMono(1, b, q);
  }

  /** Integer division loses less than one period: ticks * unit > fs - unit. */
  lemma TicksCoverDelay(fs: nat, unit: nat)
    requires unit > 0
    ensures (fs / unit) * unit <= fs < (fs / unit) * unit + unit
  {
  }

  /**
   * When the target does not wrap and the call returns, the counter has advanced by at
   * least the requested delay rounded down to whole ticks, so the time waited falls short
   * of `ms` milliseconds by less than one period.
   */
  lemma ElapsedCoversDelay(clockTickUnit: nat, caps: nat, ms: nat, start: nat, counter: seq<nat>)
    requires clockTickUnit < U32_MODULUS && caps < U64_MODULUS && start < U64_MODULUS
    requires DelaySpec(clockTickUnit, caps, ms, start, counter).Elapsed?
    ensures var unit := TickUnit(clockTickUnit, caps).value;
      var k := DelaySpec(clockTickUnit, caps, ms, start, counter).index;
      var fs := ms * FEMTOS_PER_MS;
      k < |counter|
      && (start + fs / unit < U64_MODULUS ==> counter[k] - start >= fs / unit && (counter[k] - start) * unit + unit > fs)
  {
    var unit := TickUnit(clockTickUnit, caps).value;
    assert DelayFs(ms).Return?;
    var fs := DelayFs(ms).value;
    DivAtMost(fs, unit);
    var ticks := fs / unit;
    var target := Target(start, ticks);
    var k := FirstReached(counter, target).value;
    assert DelaySpec(clockTickUnit, caps, ms, start, counter) == Elapsed(k);
    if start + ticks < U64_MODULUS {
      assert counter[k] >= start + ticks;
      TicksCoverDelay(fs, unit);
      MulMono(ticks, counter[k] - start, unit);
    }
  }

  lemma MulMono(a: nat, b: nat, c: nat)
    requires a <= b
    ensures a * c <= b * c
  {
  }

  /**
   * When `start + ticks` wraps past 2^64 the target is below the start, so with a counter
   * that does not go backwards the first read already ends the loop: the delay is skipped.
   */
  lemma WrappedTargetReturnsAtOnce(clockTickUnit: nat, caps: nat, ms: nat, start: nat, counter: seq<nat>)
    requires clockTickUnit < U32_MODULUS && caps < U64_MODULUS && start < U64_MODULUS
    requires TickUnit(clockTickUnit, caps).Return? && DelayFs(ms).Return?
    requires start + DelayFs(ms).value / TickUnit(clockTickUnit, caps).value >= U64_MODULUS
    requires |counter| > 0 && counter[0] >= start
    ensures DelaySpec(clockTickUnit, caps, ms, start, counter) == Elapsed(0)
  {
    var unit := TickUnit(clockTickUnit, caps).value;
    var fs := DelayFs(ms).value;
    DivAtMost(fs, unit);
    var target := Target(start, fs / unit);
    assert target < start;
    assert FirstReached(counter, target) == Some(0);
  }

  /** A zero delay ends on the first read, and a panic comes only from a zero period or an overflowing delay. */
  lemma DelayOutcomes(clockTickUnit: nat, caps: nat, ms: nat, start: nat, counter: seq<nat>)
    requires clockTickUnit < U32_MODULUS && caps < U64_MODULUS && start < U64_MODULUS
    ensures DelaySpec(clockTickUnit, caps, ms, start, counter).DelayPanic? <==>
              (clockTickUnit == 0 && caps < U32_MODULUS) || ms * FEMTOS_PER_MS >= U64_MODULUS
    ensures ms == 0 && TickUnit(clockTickUnit, caps).Return? && |counter| > 0 && counter[0] >= start ==>
              DelaySpec(clockTickUnit, caps, ms, start, counter) == Elapsed(0)
  {
  }
}
