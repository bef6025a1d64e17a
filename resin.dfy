/**
 * The regeneration rules of the resin timer: its constants, the parsing of the
 * count typed by the user, the ceiling rule that turns a remaining time into a
 * count, and the one-second countdown step.
 */
module Resin {
  import opened Wrappers
  import opened Numerals

  /** The cap, `maxResin`. */
  const MaxResin: int := 160
  /** `resinRefillTime`: minutes to regenerate one unit. */
  const RefillMinutes: int := 8
  /** Milliseconds to regenerate one unit. */
  const UnitTime: int := RefillMinutes * 60 * 1000
  /** What one press of "Subtract 20" spends. */
  const SpendAmount: int := 20
  /** The period of the countdown interval, in milliseconds. */
  const TickPeriod: int := 1000

  /** The source's way of writing a number of units' time, in milliseconds. */
  lemma UnitsToMs(units: int)
    ensures 1000 * 60 * units * RefillMinutes == units * UnitTime
    ensures units * RefillMinutes * 60 * 1000 == units * UnitTime
  {
  }

  function Min(a: int, b: int): int { if a <= b then a else b }

  /** `numReg`, the pattern /^(\d){0,3}$/: nothing but zero to three ASCII digits. */
  predicate MatchesNumReg(s: string) { |s| <= 3 && IsDigits(s) }

  /**
   * `inputToNumber`: the empty text is 0; any other text goes through
   * `parseInt` and saturates at MaxResin. `None` is NaN, which `parseInt`
   * yields when it finds no digit and which the `> maxResin` test lets through.
   */
  function InputToNumber(input: string): (r: Option<int>)
    ensures input == [] ==> r == Some(0)
    ensures r.Some? ==> r.value <= MaxResin
    ensures r.None? <==> input != [] && ParseInt(input).None?
    ensures input != [] && r.Some? ==> r.value == Min(ParseInt(input).value, MaxResin)
  {
    if input == [] then Some(0)
    else
      match ParseInt(input)
      case None => None
      case Some(n) => Some(if n > MaxResin then MaxResin else n)
  }

  /** A digit string is read exactly, saturated at MaxResin; so every text `numReg` accepts gives a count in [0, MaxResin]. */
  lemma InputToNumberOfDigits(s: string)
    requires IsDigits(s)
    ensures InputToNumber(s) == Some(if s == [] then 0 else Min(ValueOf(s, false), MaxResin))
    ensures 0 <= InputToNumber(s).value <= MaxResin
  {
    if s != [] {
      ParseIntOfDigits(s);
    }
  }

  /**
   * The text the Editable shows for a count in [0, MaxResin]: `numReg`
   * accepts it, and `inputToNumber` reads the count back from it.
   */
  lemma NumRegAcceptsCounts(n: nat)
    requires n <= MaxResin
    ensures MatchesNumReg(NatToString(n))
    ensures InputToNumber(NatToString(n)) == Some(n)
  {
    NatToStringValue(n);
    InputToNumberOfDigits(NatToString(n));
  }

  /** `Math.ceil(ms / (resinRefillTime * 60 * 1000))`: the whole units still missing while `ms` remain. */
  function UnitsShort(ms: int): (k: int)
    ensures (k - 1) * UnitTime < ms <= k * UnitTime
  {
    -((-ms) / UnitTime)
  }

  /**
   * The ceiling rule: the count while `remaining` milliseconds are left until
   * the resin is full. Any time left keeps the count below the cap, and the
   * count is the number of whole units that fit in the time still to go.
   */
  function ResinFor(remaining: int): (r: int)
    ensures remaining <= 0 ==> r == MaxResin
    ensures remaining > 0 ==> r < MaxResin
    ensures remaining > 0 ==> (MaxResin - r - 1) * UnitTime < remaining <= (MaxResin - r) * UnitTime
    ensures remaining <= MaxResin * UnitTime ==> r >= 0
  {
    if remaining > 0 then MaxResin - UnitsShort(remaining) else MaxResin
  }

  /** Less time to go never means less resin. */
  lemma ResinForAntitone(a: int, b: int)
    requires a <= b
    ensures ResinFor(a) >= ResinFor(b)
  {
  }

  /** A count and the time that remains until full. */
  datatype Derived = Derived(resin: int, remaining: int)

  /**
   * `calculateDelta(rechargedDate)` at time `now`, as corrected: a target in
   * the future gives the time left and the count by the ceiling rule, and a
   * target already reached gives a full count and no time left.
   */
  function Derive(target: int, now: int): (d: Derived)
    ensures d.remaining >= 0 && d.remaining >= target - now
    ensures d.remaining > 0 ==> d.remaining == target - now
    ensures d.resin == ResinFor(target - now) && d.resin == ResinFor(d.remaining)
  {
    var deltaTime := target - now;
    if deltaTime > 0 then Derived(MaxResin - UnitsShort(deltaTime), deltaTime)
    else Derived(MaxResin, 0)
  }

  /**
   * `calculateDelta` as the source writes it: a target already reached sets
   * the count to full but leaves `delta` as it was.
   */
  function DeriveAsWritten(target: int, now: int, delta: int): (d: Derived)
    ensures target - now > 0 ==> d == Derive(target, now)
    ensures target - now <= 0 ==> d == Derived(MaxResin, delta)
  {
    var deltaTime := target - now;
    if deltaTime > 0 then Derived(MaxResin - UnitsShort(deltaTime), deltaTime)
    else Derived(MaxResin, delta)
  }

  /** The target `onSubmitResin` computes for a committed count: now plus the missing units' time. */
  function FullAt(resinValue: int, now: int): (r: int)
    ensures r - now == (MaxResin - resinValue) * UnitTime
    ensures resinValue <= MaxResin ==> r >= now
    ensures resinValue == MaxResin ==> r == now
  {
    now + 1000 * 60 * (MaxResin - resinValue) * RefillMinutes
  }

  /**
   * Round trip: deriving from the target just committed for a count, at the
   * same instant, gives that count back, with the missing units' time left.
   */
  lemma DeriveAfterSubmit(resinValue: int, now: int)
    requires resinValue <= MaxResin
    ensures Derive(FullAt(resinValue, now), now) == Derived(resinValue, (MaxResin - resinValue) * UnitTime)
  {
    var k := MaxResin - resinValue;
    assert FullAt(resinValue, now) - now == k * UnitTime;
    if k > 0 {
      assert UnitsShort(k * UnitTime) == k;
    }
  }

  /**
   * The target `subtractResin` computes: 20 units' time past now when the
   * countdown is over (`delta <= 0`), past the current target while it runs.
   */
  function SpendTarget(delta: int, target: int, now: int): (r: int)
    ensures delta <= 0 ==> r - now == SpendAmount * UnitTime
    ensures delta > 0 ==> r - target == SpendAmount * UnitTime
  {
    if delta <= 0 then now + SpendAmount * RefillMinutes * 60 * 1000
    else target + SpendAmount * RefillMinutes * 60 * 1000
  }

  /**
   * Spending from a consistent state (the count follows the ceiling rule from
   * `delta`, and a running countdown agrees with the target) lowers the count
   * derived at the same instant by exactly SpendAmount, and the time to full
   * stays within the cap's worth.
   */
  lemma SpendLowersResin(resin: int, delta: int, target: int, now: int)
    requires resin == ResinFor(delta) && resin >= SpendAmount
    requires delta > 0 ==> delta == target - now
    ensures Derive(SpendTarget(delta, target, now), now).resin == resin - SpendAmount
    ensures 0 < Derive(SpendTarget(delta, target, now), now).remaining <= MaxResin * UnitTime
  {
    var t := SpendTarget(delta, target, now);
    if delta > 0 {
      var k := UnitsShort(delta);
      assert t - now == delta + SpendAmount * UnitTime;
      assert UnitsShort(delta + SpendAmount * UnitTime) == k + SpendAmount;
    } else {
      assert t - now == SpendAmount * UnitTime;
      assert UnitsShort(SpendAmount * UnitTime) == SpendAmount;
    }
  }

  /** The countdown step on `delta`: one period less while positive, then pinned at 0. */
  function TickDelta(delta: int): (d: int)
    ensures delta > 0 ==> d == delta - TickPeriod && d < delta
    ensures delta <= 0 ==> d == 0
  {
    if delta > 0 then delta - TickPeriod else 0
  }

  /** The count the tick computes from the decremented delta agrees with the ceiling rule. */
  lemma TickResin(delta: int)
    requires delta > 0
    ensures MaxResin - UnitsShort(delta - TickPeriod) == ResinFor(delta - TickPeriod)
  {
  }

  /** `k` delivered ticks with no new target. */
  function TickN(delta: int, k: nat): int
    decreases k
  {
    if k == 0 then delta else TickN(TickDelta(delta), k - 1)
  }

  /** While time is left, each tick takes exactly one period off. */
  lemma {:induction false} TicksCountDown(delta: int, k: nat)
    requires k * TickPeriod < delta
    ensures TickN(delta, k) == delta - k * TickPeriod
    decreases k
  {
    if k > 0 {
      TicksCountDown(delta - TickPeriod, k - 1);
    }
  }

  /** Enough ticks reach 0 and then stay there: the full state is a fixed point. */
  lemma {:induction false} TicksReachFull(delta: int, k: nat)
    requires k >= 1 && (k - 1) * TickPeriod >= delta
    ensures TickN(delta, k) == 0
    decreases k
  {
    if k > 1 {
      TicksReachFull(TickDelta(delta), k - 1);
    }
  }

  /** Under ticks `delta` never grows past its start (or 0), and the count never falls. */
  lemma {:induction false} TicksNeverLowerResin(delta: int, k: nat)
    ensures TickN(delta, k) <= (if delta > 0 then delta else 0)
    ensures ResinFor(TickN(delta, k)) >= ResinFor(delta)
    decreases k
  {
    if k > 0 {
      TicksNeverLowerResin(TickDelta(delta), k - 1);
    }
  }

  /**
   * As written, resuming after the target passed while `delta` is still
   * positive shows a full count, and the very next tick lowers it again.
   */
  lemma AsWrittenResumeThenTickDrops(target: int, now: int, stale: int)
    requires target <= now && stale > TickPeriod
    ensures DeriveAsWritten(target, now, stale).resin == MaxResin
    ensures ResinFor(TickDelta(DeriveAsWritten(target, now, stale).remaining)) < MaxResin
  {
  }

  /** The instance: 80 minutes of stale countdown, target one millisecond in the past. */
  lemma AsWrittenResumeExample()
    ensures DeriveAsWritten(100 * UnitTime - 1, 100 * UnitTime, 10 * UnitTime) == Derived(MaxResin, 10 * UnitTime)
    ensures ResinFor(TickDelta(10 * UnitTime)) == 150
  {
    assert UnitsShort(10 * UnitTime - TickPeriod) == 10;
  }

  /** Corrected: resuming after the target passed gives a full count that no number of ticks lowers. */
  lemma ResumeAfterTargetStaysFull(target: int, now: int, k: nat)
    requires target <= now
    ensures Derive(target, now) == Derived(MaxResin, 0)
    ensures TickN(Derive(target, now).remaining, k) == 0
    ensures ResinFor(TickN(Derive(target, now).remaining, k)) == MaxResin
  {
    if k > 0 {
      TicksReachFull(0, k);
    }
  }

  /**
   * As written, loading a target already in the past leaves the negative
   * `delta` that the rechargedDate effect set: a full count shown beside a
   * negative time left, until the next tick pins it at 0.
   */
  lemma AsWrittenLoadPastKeepsNegative(target: int, now: int)
    requires 0 < target < now
    ensures DeriveAsWritten(target, now, target - now) == Derived(MaxResin, target - now)
    ensures DeriveAsWritten(target, now, target - now).remaining < 0
    ensures Derive(target, now) == Derived(MaxResin, 0)
  {
  }

  /**
   * As written, a stale positive `delta` after the target passed sends
   * "Subtract 20" down its running-countdown branch: the new target lies
   * fewer than 20 units' time past now, so less than the 20 units spent is
   * still to regenerate. Corrected, exactly 20 units' time is left and the
   * count is MaxResin - SpendAmount.
   */
  lemma AsWrittenSpendAfterStaleResume(target: int, now: int, stale: int)
    requires target < now && stale > 0
    ensures SpendTarget(DeriveAsWritten(target, now, stale).remaining, target, now) - now < SpendAmount * UnitTime
    ensures Derive(SpendTarget(DeriveAsWritten(target, now, stale).remaining, target, now), now).resin
      >= MaxResin - SpendAmount
    ensures SpendTarget(Derive(target, now).remaining, target, now) - now == SpendAmount * UnitTime
    ensures Derive(SpendTarget(Derive(target, now).remaining, target, now), now).resin == MaxResin - SpendAmount
  {
    assert UnitsShort(SpendAmount * UnitTime) == SpendAmount;
  }

  /** The instance: target two hours in the past, 80 minutes of stale countdown; 155 is shown instead of 140. */
  lemma AsWrittenSpendAfterStaleExample(now: int)
    ensures Derive(SpendTarget(10 * UnitTime, now - 15 * UnitTime, now), now).resin == 155
  {
    assert UnitsShort(5 * UnitTime) == 5;
  }
}
