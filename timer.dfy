/**
 * The state of the `App` component that drives the timer, with one method per
 * event handler and per effect. Each runs to completion before the next
 * event; the clock reading `now` (milliseconds since the epoch) is a parameter.
 */
module Timer {
  import opened Wrappers
  import opened Numerals
  import opened Resin

  /** The stored target as startup reads it: `parseInt` of the text, where a missing key (null) also reads as NaN. */
  function StoredTarget(stored: Option<string>): (r: Option<int>)
    ensures stored.None? ==> r.None?
    ensures stored == Some([]) ==> r.None?
  {
    match stored
    case None => None
    case Some(s) => ParseInt(s)
  }

  class ResinTimer {
    var currentResin: int
    /** Absolute time, in milliseconds, at which the resin is full. */
    var rechargedDate: int
    /** Milliseconds left until full, as the countdown keeps it. */
    var delta: int
    var isEditing: bool
    var isPageVisible: bool
    /** The 'rechargedDate' entry of localStorage. */
    var stored: Option<string>

    /** Outside an edit the count shown agrees with the time left by the ceiling rule. */
    predicate Synced()
      reads this
    {
      !isEditing ==> currentResin == ResinFor(delta)
    }

    /** First render: the `useState` defaults, the store as an earlier session left it, and the page's visibility. */
    constructor (persisted: Option<string>, visible: bool)
      ensures currentResin == MaxResin && rechargedDate == 0 && delta == 0
      ensures !isEditing && isPageVisible == visible && stored == persisted
      ensures Synced()
    {
      currentResin := MaxResin;
      rechargedDate := 0;
      delta := 0;
      isEditing := false;
      isPageVisible := visible;
      stored := persisted;
    }

    /** The Editable's `onEdit`: an edit begins and the countdown stops updating. */
    method OnEdit()
      modifies this`isEditing
      ensures isEditing
    {
      isEditing := true;
    }

    /** `onChangeResin`: a keystroke; text `numReg` rejects changes nothing. */
    method OnChangeResin(nextValue: string)
      modifies this`currentResin
      ensures MatchesNumReg(nextValue) ==> Some(currentResin) == InputToNumber(nextValue)
      ensures MatchesNumReg(nextValue) ==> 0 <= currentResin <= MaxResin
      ensures !MatchesNumReg(nextValue) ==> currentResin == old(currentResin)
    {
      if MatchesNumReg(nextValue) {
        InputToNumberOfDigits(nextValue);
        var resin := InputToNumber(nextValue).value;
        currentResin := resin;
      }
    }

    /**
     * `onSubmitResin`, which the Editable calls on submit and on cancel: the
     * count is committed, the time to fill the missing units is added to now,
     * that target is written to the store, and the edit ends.
     */
    method OnSubmitResin(nextValue: string, now: int)
      requires InputToNumber(nextValue).Some?
      modifies this`currentResin, this`rechargedDate, this`stored, this`isEditing
      ensures Some(currentResin) == InputToNumber(nextValue)
      ensures rechargedDate == FullAt(currentResin, now)
      ensures stored == Some(IntToString(rechargedDate))
      ensures !isEditing
    {
      var resinValue := InputToNumber(nextValue).value;
      currentResin := resinValue;
      var resinDelta := MaxResin - resinValue;
      var remainingTime := 1000 * 60 * resinDelta * RefillMinutes;
      var date := now + remainingTime;
      rechargedDate := date;
      stored := Some(IntToString(date));
      isEditing := false;
    }

    /**
     * `subtractResin`: with fewer than 20 units nothing happens; otherwise the
     * target moves 20 units' time past now (countdown over) or past the
     * current target (countdown running) and is written to the store.
     */
    method SubtractResin(now: int)
      modifies this`rechargedDate, this`stored
      ensures currentResin < SpendAmount ==> rechargedDate == old(rechargedDate) && stored == old(stored)
      ensures currentResin >= SpendAmount ==> rechargedDate == SpendTarget(delta, old(rechargedDate), now)
      ensures currentResin >= SpendAmount ==> stored == Some(IntToString(rechargedDate))
    {
      if currentResin >= SpendAmount {
        var newRechargedDate;
        if delta <= 0 {
          newRechargedDate := now + SpendAmount * RefillMinutes * 60 * 1000;
        } else {
          newRechargedDate := rechargedDate + SpendAmount * RefillMinutes * 60 * 1000;
        }
        rechargedDate := newRechargedDate;
        stored := Some(IntToString(newRechargedDate));
      }
    }

    /**
     * `calculateDelta(target)` at `now`, corrected so that a target already
     * reached also clears `delta` (the source leaves it; see Resin.DeriveAsWritten).
     */
    method CalculateDelta(target: int, now: int)
      modifies this`currentResin, this`delta
      ensures currentResin == Derive(target, now).resin && delta == Derive(target, now).remaining
      ensures currentResin == ResinFor(delta)
    {
      var deltaTime := target - now;
      if deltaTime > 0 {
        var resinDelta := UnitsShort(deltaTime);
        currentResin := MaxResin - resinDelta;
        delta := deltaTime;
      } else {
        currentResin := MaxResin;
        delta := 0;
      }
    }

    /** The startup effect: a stored target that parses becomes `rechargedDate` and is derived from; otherwise the defaults stay. */
    method Startup(now: int)
      modifies this`rechargedDate, this`currentResin, this`delta
      ensures StoredTarget(stored).None? ==>
        rechargedDate == old(rechargedDate) && currentResin == old(currentResin) && delta == old(delta)
      ensures StoredTarget(stored).Some? ==> rechargedDate == StoredTarget(stored).value
      ensures StoredTarget(stored).Some? ==>
        currentResin == Derive(rechargedDate, now).resin && delta == Derive(rechargedDate, now).remaining
    {
      var target := StoredTarget(stored);
      if target.Some? {
        rechargedDate := target.value;
        CalculateDelta(target.value, now);
      }
    }

    /** The effect on a change of `rechargedDate`: a positive target sets `delta` to the time left, even if negative. */
    method RechargedDateEffect(now: int)
      modifies this`delta
      ensures rechargedDate > 0 ==> delta == rechargedDate - now
      ensures rechargedDate <= 0 ==> delta == old(delta)
    {
      if rechargedDate > 0 {
        delta := rechargedDate - now;
      }
    }

    /** The effect on a change of visibility or target: while visible, resynchronise from the target and the fresh clock. */
    method VisibilityEffect(now: int)
      modifies this`currentResin, this`delta
      ensures isPageVisible ==>
        currentResin == Derive(rechargedDate, now).resin && delta == Derive(rechargedDate, now).remaining
      ensures !isPageVisible ==> currentResin == old(currentResin) && delta == old(delta)
      ensures isPageVisible ==> Synced()
    {
      if isPageVisible {
        CalculateDelta(rechargedDate, now);
      }
    }

    /**
     * The effects React runs after a render, in their declaration order, each
     * only if one of its dependencies changed from the previous render.
     */
    method RunEffects(prevDate: int, prevVisible: bool, now: int)
      modifies this`currentResin, this`delta
      ensures var resync := (rechargedDate != prevDate || isPageVisible != prevVisible) && isPageVisible;
        resync ==> currentResin == Derive(rechargedDate, now).resin && delta == Derive(rechargedDate, now).remaining
      ensures rechargedDate != prevDate && !isPageVisible ==>
        currentResin == old(currentResin) && delta == (if rechargedDate > 0 then rechargedDate - now else old(delta))
      ensures rechargedDate == prevDate && (isPageVisible == prevVisible || !isPageVisible) ==>
        currentResin == old(currentResin) && delta == old(delta)
    {
      if rechargedDate != prevDate {
        RechargedDateEffect(now);
      }
      if rechargedDate != prevDate || isPageVisible != prevVisible {
        VisibilityEffect(now);
      }
    }

    /** Mounting: the startup effect, then the first run of every effect. */
    method Mount(now: int)
      modifies this`rechargedDate, this`currentResin, this`delta
      ensures StoredTarget(stored).Some? ==> rechargedDate == StoredTarget(stored).value
      ensures StoredTarget(stored).None? ==> rechargedDate == old(rechargedDate)
      ensures isPageVisible ==>
        currentResin == Derive(rechargedDate, now).resin && delta == Derive(rechargedDate, now).remaining
      ensures isPageVisible ==> Synced()
      ensures !isPageVisible ==>
        currentResin == (if StoredTarget(stored).Some? then Derive(rechargedDate, now).resin else old(currentResin))
      ensures !isPageVisible ==>
        delta == (if rechargedDate > 0 then rechargedDate - now
                  else if StoredTarget(stored).Some? then Derive(rechargedDate, now).remaining
                  else old(delta))
    {
      Startup(now);
      RechargedDateEffect(now);
      VisibilityEffect(now);
    }

    /** `usePageVisibility` reports a new visibility. */
    method SetPageVisible(visible: bool)
      modifies this`isPageVisible
      ensures isPageVisible == visible
    {
      isPageVisible := visible;
    }

    /**
     * The one-second interval: nothing while hidden or editing; otherwise a
     * running countdown loses one period and the count follows the ceiling
     * rule, and a finished one is pinned at 0 with a full count.
     */
    method Tick()
      modifies this`delta, this`currentResin
      ensures !isPageVisible || isEditing ==> delta == old(delta) && currentResin == old(currentResin)
      ensures isPageVisible && !isEditing ==> delta == TickDelta(old(delta)) && Synced()
    {
      if !isPageVisible {
        return;
      }
      if delta > 0 {
        var newDelta := delta - TickPeriod;
        var resinDelta := UnitsShort(newDelta);
        if !isEditing {
          TickResin(delta);
          delta := newDelta;
          currentResin := MaxResin - resinDelta;
        }
      } else {
        if !isEditing {
          delta := 0;
          currentResin := MaxResin;
        }
      }
    }
  }

  /**
   * Committing a count, then the effects that follow, gives that count back
   * from the persisted target, with the missing units' time left to run.
   */
  method SubmitThenResync(value: string, now: int) returns (resin: int, remaining: int)
    requires InputToNumber(value).Some? && now > 0
    ensures Some(resin) == InputToNumber(value)
    ensures remaining == (MaxResin - resin) * UnitTime
  {
    var t := new ResinTimer(None, true);
    t.OnEdit();
    var prevDate, prevVisible := t.rechargedDate, t.isPageVisible;
    t.OnSubmitResin(value, now);
    var n := t.currentResin;
    DeriveAfterSubmit(n, now);
    t.RunEffects(prevDate, prevVisible, now);
    resin, remaining := t.currentResin, t.delta;
  }

  /** Spending 20 from a full count at `now` sets the target 20 units past now and leaves 140. */
  method SpendWhenFull(now: int) returns (target: int, resin: int)
    requires now > 0
    ensures target == now + SpendAmount * UnitTime
    ensures resin == MaxResin - SpendAmount
  {
    var t := new ResinTimer(None, true);
    var prevDate, prevVisible := t.rechargedDate, t.isPageVisible;
    t.SubtractResin(now);
    SpendLowersResin(t.currentResin, t.delta, prevDate, now);
    t.RunEffects(prevDate, prevVisible, now);
    target, resin := t.rechargedDate, t.currentResin;
  }

  /** With fewer than 20 units committed, "Subtract 20" changes neither the target nor the store. */
  method SpendWhenLow(value: string, now: int, later: int)
    returns (before: int, after: int, storedBefore: Option<string>, storedAfter: Option<string>)
    requires InputToNumber(value).Some? && InputToNumber(value).value < SpendAmount && now > 0
    ensures after == before && storedAfter == storedBefore
    ensures storedAfter == Some(IntToString(FullAt(InputToNumber(value).value, now)))
  {
    var t := new ResinTimer(None, true);
    t.OnSubmitResin(value, now);
    DeriveAfterSubmit(t.currentResin, now);
    t.RunEffects(0, true, now);
    before, storedBefore := t.rechargedDate, t.stored;
    t.SubtractResin(later);
    after, storedAfter := t.rechargedDate, t.stored;
  }

  /** A stored target one second in the past loads as a full count with nothing left to run. */
  method LoadPastTarget(now: int) returns (resin: int, remaining: int)
    requires now > 1000
    ensures resin == MaxResin && remaining == 0
  {
    ParseIntOfIntToString(now - 1000);
    var t := new ResinTimer(Some(IntToString(now - 1000)), true);
    t.Mount(now);
    resin, remaining := t.currentResin, t.delta;
  }

  /**
   * Hidden for `gap` milliseconds, ticks change nothing; becoming visible
   * resynchronises from the target and the fresh clock, not from counted ticks.
   */
  method ResumeAfterBackground(value: string, start: int, gap: int) returns (resin: int, remaining: int)
    requires InputToNumber(value).Some? && start > 0 && gap >= 0
    ensures var target := FullAt(InputToNumber(value).value, start);
      resin == Derive(target, start + gap).resin && remaining == Derive(target, start + gap).remaining
  {
    var t := new ResinTimer(None, true);
    t.OnSubmitResin(value, start);
    t.RunEffects(0, true, start);
    t.SetPageVisible(false);
    t.RunEffects(t.rechargedDate, true, start);
    t.Tick();
    t.SetPageVisible(true);
    t.RunEffects(t.rechargedDate, false, start + gap);
    resin, remaining := t.currentResin, t.delta;
  }

  /** A target committed in one session is read back by the next one and derived from at its own clock. */
  method ReloadKeepsTarget(value: string, start: int, later: int) returns (target: int, resin: int)
    requires InputToNumber(value).Some?
    ensures target == FullAt(InputToNumber(value).value, start)
    ensures resin == Derive(target, later).resin
  {
    var first := new ResinTimer(None, true);
    first.OnSubmitResin(value, start);
    ParseIntOfIntToString(first.rechargedDate);
    var second := new ResinTimer(first.stored, true);
    second.Mount(later);
    target, resin := second.rechargedDate, second.currentResin;
  }
}
