# Resin timer: a verified model of its regeneration engine

The application is a countdown for a game currency called resin. Resin
regenerates one unit every 8 minutes, up to a cap of 160. The user types the
count they have now. The application then works out the absolute time at
which the resin will be full (the *target*, `rechargedDate`) and saves it
in the browser's local storage. From that target it derives the live count
and the time left (`delta`), shown as `HH:MM:SS`. A one-second interval
counts down while the page is visible. Whenever the page becomes visible
again, or the target changes, the count and the time left are re-derived
from the target and the clock. "Subtract 20" moves the target 20 units'
time later.

The model has five modules:

- `Wrappers` holds `Option`.
- `Numerals` holds the JavaScript number/text conversions the component relies on:
  - `parseInt`;
  - the decimal `toString` of a number.
- `ClockFormat` holds `msToTime`.
- `Resin` holds:
  - the constants;
  - `inputToNumber` and `numReg`;
  - the ceiling rule that turns a remaining time into a count;
  - the derivation from a target that `calculateDelta` performs;
  - the target arithmetic of `subtractResin`;
  - the one-second countdown step.
- `Timer` holds the `App` component as a class, `ResinTimer`:
  - its fields are the component's state and the stored target;
  - it has one method per event handler and per effect;
  - methods outside the class drive it through whole user scenarios.

Each handler runs to completion before the next event. The effects run after
a handler, in declaration order, each only when one of its dependencies
changed (`ResinTimer.RunEffects`). The clock reading is an explicit `now`
parameter, in milliseconds since the epoch.

## Model

| member | source | states |
|---|---|---|
| Resin.MatchesNumReg | src/App.js:42 | `numReg`, `/^(\d){0,3}$/`: at most three ASCII digits and nothing else. Which texts it accepts is stated by Resin.NumRegAcceptsCounts and used by Timer.ResinTimer.OnChangeResin. |
| Resin.InputToNumber | src/App.js:81-89 | Empty text gives 0. Any other text gives `parseInt`'s value, capped at 160. The result is NaN (`None`) exactly when the text is not empty and `parseInt` finds no number in it. |
| Resin.NumRegAcceptsCounts | src/App.js:42 | The decimal text of every count in [0, 160] passes `numReg`, and `inputToNumber` reads that count back from it. |
| Resin.InputToNumberOfDigits | src/App.js:81-89 | A digit string (everything `numReg` lets through) is read as its decimal value capped at 160, with the empty string giving 0. So every accepted keystroke gives a count in [0, 160]. |
| Resin.UnitsShort | src/App.js:149-150 | `Math.ceil(ms / 480000)` is the unique `k` with `(k-1)*480000 < ms <= k*480000`. |
| Resin.ResinFor | src/App.js:148-155 | The count for a remaining time follows the ceiling rule. With no time left the count is 160. With some time left it is below 160, and the time left lies strictly above `(159-count)` units and at most `(160-count)` units. It is never negative while the time left is at most 160 units. |
| Resin.ResinForAntitone | src/App.js:148-155 | Less time left never gives a smaller count. |
| Resin.Derive | src/App.js:145-156 | Corrected `calculateDelta`. The time left is never negative and never below `target - now`. When positive, it equals `target - now`. The count is the ceiling-rule count of both `target - now` and the recorded time left. |
| Resin.DeriveAsWritten | src/App.js:145-156 | `calculateDelta` as written. A future target is handled as in `Derive`. A target already reached gives a count of 160 and leaves the previous `delta` unchanged. |
| Resin.FullAt | src/App.js:122-124 | The target committed for a count is now plus `(160-count)` units' time. It is never before now for a count of at most 160, and equals now for a full count. |
| Resin.DeriveAfterSubmit | src/App.js:117-129 | Round trip: deriving, at the same instant, from the target committed for a count `v <= 160` gives `v` back, with `(160-v)` units' time left. |
| Resin.SpendTarget | src/App.js:133-139 | The target after spending is 20 units' time past now when the countdown is over (`delta <= 0`), and 20 units' time past the current target while it runs. |
| Resin.SpendLowersResin | src/App.js:131-143 | Spending from a consistent state gives an exact result. The count follows the ceiling rule, is at least 20, and a running countdown agrees with the target. Then the new target, derived at the same instant, gives exactly 20 fewer units, with time left that is positive and at most 160 units. This holds both when the countdown is over (based on now) and when it is running (based on the old target). |
| Resin.TickDelta | src/App.js:198-210 | A running countdown loses exactly 1000 ms. A finished one is pinned at 0. |
| Resin.TickResin | src/App.js:199-204 | The count a tick computes from the decremented `delta` is the ceiling-rule count of that `delta`. |
| Resin.TicksCountDown | src/App.js:195-212 | Suppose `k` ticks of 1000 ms fit strictly inside the time left. Then after `k` ticks exactly `k` seconds are gone. |
| Resin.TicksReachFull | src/App.js:195-212 | Enough ticks always reach 0, and 0 is a fixed point. |
| Resin.TicksNeverLowerResin | src/App.js:195-212 | Under any number of ticks the time left never grows past its start (or 0), and the count never falls. |
| Resin.AsWrittenResumeThenTickDrops | src/App.js:153-155 | As written, resuming with the target passed and a stale positive `delta` shows 160. The very next tick then shows fewer than 160. |
| Resin.AsWrittenResumeExample | src/App.js:153-155 | A concrete case: the target is 1 ms in the past and 80 minutes of countdown are stale. The resume shows 160, then 150 one tick later. |
| Resin.ResumeAfterTargetStaysFull | src/App.js:145-156 | Corrected: resuming with the target passed gives 160 and no time left. No number of ticks changes either. |
| Resin.AsWrittenLoadPastKeepsNegative | src/App.js:153-155 | As written, loading a target already in the past keeps the negative `delta` that the rechargedDate effect set: 160 is shown beside a negative time left. Corrected, the time left is 0. |
| Resin.AsWrittenSpendAfterStaleResume | src/App.js:134-139 | As written, after resuming past the target with a stale positive `delta`, "Subtract 20" takes the running-countdown branch. The new target is less than 20 units' time past now, and the count is at least 140. Corrected, exactly 20 units' time is left and the count is 140. |
| Resin.AsWrittenSpendAfterStaleExample | src/App.js:134-139 | A concrete case: the target is two hours in the past and 80 minutes of countdown are stale. Spending shows 155 instead of 140. |
| Numerals.TrimStart | src/App.js:83 | As `parseInt` does, leading ECMAScript white space and line terminators are dropped. The result is a suffix of the input that does not start with white space, and only white space was removed. |
| Numerals.DigitPrefix | src/App.js:83 | The longest prefix of decimal or hexadecimal digits, on which `parseInt` stops. |
| Numerals.ParseUnsigned | src/App.js:83 | The unsigned part of `parseInt` fails exactly when no digit follows. For a `0x`/`0X` prefix that means no hex digit after it; otherwise the text does not start with a decimal digit. |
| Numerals.ParseSigned | src/App.js:83 | The sign step of `parseInt`: empty text is NaN. A leading `+` is skipped. A value after a leading `-` is never positive, and without a `-` it is never negative. |
| Numerals.ParseInt | src/App.js:161 | `parseInt(s)` of the empty string is NaN. |
| Numerals.ParseIntOfDigits | src/App.js:83 | A non-empty digit string is parsed to its decimal value. |
| Numerals.ParseIntOfNegated | src/App.js:161 | A minus sign followed by digits parses to the negated value. |
| Numerals.NatToString | src/App.js:126 | The decimal text of a natural number is a non-empty digit string. It has one digit below 10, at most two below 100 and at most three below 1000. |
| Numerals.IntToString | src/App.js:126 | `toString` of an integer is non-empty. It starts with `-` exactly when the integer is negative, and the rest is digits. |
| Numerals.NatToStringValue | src/App.js:126 | The decimal text of `n` reads back as `n`. |
| Numerals.ParseIntOfIntToString | src/App.js:126 | Round trip of the stored target: `parseInt(x.toString()) == x` for every integer `x`, negative ones included. |
| Numerals.LastTwoDigits | src/App.js:67-70 | The last two characters of `'00' + n` are the tens digit and the units digit of `n`. |
| ClockFormat.JsRem | src/App.js:71-75 | JavaScript's `%` has the sign of the dividend and a magnitude below the divisor: in `[0, b)` for a non-negative dividend, in `(-b, 0]` for a negative one. |
| ClockFormat.JsRemIsTruncated | src/App.js:71-75 | The remainder is what the quotient truncated toward zero leaves: `a == b*q + a % b` for a `q` with the dividend's sign. |
| ClockFormat.Pad2 | src/App.js:67-70 | `pad(n)` is always two characters. |
| ClockFormat.Fields | src/App.js:71-76 | The fields of `msToTime`: minutes and seconds lie strictly between -60 and 60, and all three fields share the duration's sign. |
| ClockFormat.FieldsDecompose | src/App.js:71-76 | The fields add back up to the duration, less its milliseconds remainder: `s == hrs*3600000 + mins*60000 + secs*1000 + s % 1000`. |
| ClockFormat.MsToTime | src/App.js:65-79 | The text is eight characters with ':' at positions 2 and 5. |
| ClockFormat.Pad2OfNat | src/App.js:67-70 | A non-negative `n` pads to the two digits of `n % 100`. |
| ClockFormat.Pad2Small | src/App.js:67-70 | A non-negative `n < 100` pads to exactly its two digits. |
| ClockFormat.FieldsOfNat | src/App.js:71-76 | For a non-negative duration the fields are whole hours, minutes within the hour and seconds within the minute. |
| ClockFormat.MsToTimeShows | src/App.js:65-79 | For a non-negative duration the text is hours mod 100, then minutes, then seconds, each as two digits, separated by ':'. |
| ClockFormat.MsToTimeBelowHundredHours | src/App.js:65-79 | Below 100 hours the first field is the whole number of hours. |
| ClockFormat.MsToTimeOneSecondOverdue | src/App.js:65-79 | A negative duration is not clamped. Being one second overdue shows `00:00:-1`. |
| Timer.StoredTarget | src/App.js:160-162 | A missing storage key, or an empty value, reads as NaN, so no target is loaded. |
| Timer.ResinTimer.constructor | src/App.js:97-101 | Initial state: 160 units, target 0, `delta` 0, not editing. The page visibility and the local storage contents are given. |
| Timer.ResinTimer.OnEdit | src/App.js:273-275 | An edit begins. |
| Timer.ResinTimer.OnChangeResin | src/App.js:110-115 | Text that `numReg` accepts sets the count to `inputToNumber` of that text, which lies in [0, 160]. Any other text changes nothing. |
| Timer.ResinTimer.OnSubmitResin | src/App.js:117-129 | The count becomes `inputToNumber` of the text. The target becomes now plus `(160-count)` units' time, and its decimal text is stored. The edit ends. |
| Timer.ResinTimer.SubtractResin | src/App.js:131-143 | With fewer than 20 units, neither the target nor the store changes. Otherwise the target becomes `SpendTarget` and its decimal text is stored. |
| Timer.ResinTimer.CalculateDelta | src/App.js:145-156 | The count and `delta` become those of `Derive(target, now)`, so the count follows the ceiling rule from `delta`. |
| Timer.ResinTimer.Startup | src/App.js:159-166 | A stored target that parses becomes `rechargedDate` and is derived from. Otherwise nothing changes. |
| Timer.ResinTimer.RechargedDateEffect | src/App.js:169-174 | A positive target sets `delta` to `target - now`, which may be negative. Otherwise `delta` is unchanged. |
| Timer.ResinTimer.VisibilityEffect | src/App.js:185-192 | While visible, the count and `delta` are re-derived from the target at `now`, so the count follows the ceiling rule from `delta`. While hidden they are unchanged. |
| Timer.ResinTimer.RunEffects | src/App.js:168-192 | After a render, the effects run in order, each only when its dependencies changed. A visible page with a new target or new visibility ends up derived from the target. A hidden page with a new target keeps its count, and `delta` is set as the target effect sets it. With no relevant change, nothing changes. |
| Timer.ResinTimer.Mount | src/App.js:158-192 | On mounting, a stored target that parses is loaded. On a visible page the count and `delta` are then derived from it. On a hidden page the count is the one derived at startup, if a target was loaded, and otherwise unchanged. In that case `delta` is `target - now` for a positive target, the derived time left for another loaded target, and otherwise unchanged. |
| Timer.ResinTimer.SetPageVisible | src/App.js:108 | The visibility hook reports the new visibility. |
| Timer.ResinTimer.Tick | src/App.js:195-212 | While hidden or editing, nothing changes. Otherwise `delta` takes one countdown step and the count follows the ceiling rule from it. |
| Timer.SubmitThenResync | src/App.js:117-129 | Committing a count and then running the effects gives that count back, with the missing units' time left. |
| Timer.SpendWhenFull | src/App.js:131-143 | Spending from a full count sets the target 20 units past now and shows 140. |
| Timer.SpendWhenLow | src/App.js:131-132 | With fewer than 20 units committed, "Subtract 20" leaves the target and the stored value as the commit wrote them. |
| Timer.LoadPastTarget | src/App.js:158-166 | A stored target in the past loads as 160 units with no time left. |
| Timer.ResumeAfterBackground | src/App.js:184-197 | While hidden, ticks change nothing. On becoming visible, the state is derived from the target and the fresh clock. |
| Timer.ReloadKeepsTarget | src/App.js:158-166 | A target committed in one session is read by the next session, which derives its count at its own clock. |

## Left out

- Rendering is not modelled: the JSX layout, theme, fonts, animation (`MotionBox`, `container`, `item`), modal and tooltip. They carry no resin logic.
- The tooltip side effects are not modelled. This covers the two-second `setTimeout` that opens the tooltip when nothing is stored (src/App.js:176-182) and the hover handlers. They are timing-only UI state.
- `rechargedDateString` is not modelled. It is `toLocaleTimeString` of the target (src/App.js:188-190), output that depends on the locale and time zone.
- The bodies of `useInterval` and `usePageVisibility` are not modelled, because they are not in the component. The interval is modelled as calls of `Tick`, and the visibility hook as `SetPageVisible`.
- The asynchrony of React is not modelled: state batching, and the timing of the interval against renders, are abstracted away. Each handler and each effect is atomic. State set inside a handler is visible to the effects that follow.
- Numbers are modelled as unbounded integers, not JavaScript doubles. Behaviour past 2^53 (precision loss in `parseInt`, in `toString` and in the target arithmetic) is not captured. `toString` is exact decimal and never exponent notation.
- `Date` is modelled as a `now` parameter, and local storage as the `stored` field. Both are external state, so a scenario passes them in.
- `parseInt` is modelled on the code points of a string: white space trimming, sign, `0x` prefix, longest digit prefix. The cases of the 16-bit code units of JavaScript strings are not distinguished.
- Timer.ResinTimer.OnSubmitResin: requires the submitted text not to parse to NaN. The Editable is controlled by `value={currentResin}` (src/App.js:269), and `onChangeResin` only ever stores numbers. So the submitted text is always the decimal form of a number, never NaN, and the NaN path of `inputToNumber` never reaches the submit handler. The model does not carry a NaN count or a NaN target.
- Timer.ResinTimer.CalculateDelta: models the corrected branch (it also clears `delta` when the target is reached), not the source as written. The as-written behaviour is `Resin.DeriveAsWritten`; see Findings.
- The Editable's `onCancel` is wired to `onSubmitResin` (src/App.js:272), so cancelling an edit calls `onSubmitResin` with whatever value the Editable passes to `onCancel`. That value comes from the Editable component, which is not part of this model. There is no separate cancel operation: cancel is `OnSubmitResin` applied to that value.
- Timer.LoadPastTarget: its result of no time left holds only with the corrected `CalculateDelta`. As written, the rechargedDate effect (src/App.js:169-173) sets `delta` to -1000, and `calculateDelta` keeps it. So `00:00:-1` is shown beside 160 until the next tick; see Resin.AsWrittenLoadPastKeepsNegative, ClockFormat.MsToTimeOneSecondOverdue and Findings.
- Timer.ResumeAfterBackground: its result holds only with the corrected `CalculateDelta`. As written, a gap that passes the target leaves the stale positive `delta`; see Resin.AsWrittenResumeThenTickDrops and Findings.
- `pad` with a width other than two (its `z` parameter) is never used by `msToTime` and is not modelled.

## Findings

| source | as written | input that shows it | evidently intended | confidence | as-written member | corrected member |
|---|---|---|---|---|---|---|
| src/App.js:153-155 | When the target is already reached, `calculateDelta` sets the count to 160 but leaves `delta` as it was. | The page is hidden with 80 minutes left (`delta` = 4800000), and ticks stop. It becomes visible after the target has passed: 160 is shown. The next tick sees `delta > 0` and recomputes from the stale `delta`: 150 is shown, then a further 80-minute countdown runs. "Subtract 20" pressed in that state, with the target two hours past, shows 155 instead of 140. A target one second in the past loaded at startup shows `00:00:-1` beside 160 until the next tick. | A reached target gives a full count and clears `delta`, so the count stays at 160. | not executed | Resin.DeriveAsWritten (Resin.AsWrittenResumeThenTickDrops, Resin.AsWrittenResumeExample, Resin.AsWrittenSpendAfterStaleResume, Resin.AsWrittenSpendAfterStaleExample, Resin.AsWrittenLoadPastKeepsNegative) | Resin.Derive (Timer.ResinTimer.CalculateDelta, Resin.ResumeAfterTargetStaysFull) |
