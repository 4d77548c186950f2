# Game HUD logic: clock, time accounting and sparkler animation

This project models the part of the `Hud` class of the Summer Festival tutorial
game (`tutorial/gui/ui.ts`) that holds logic rather than widget wiring:

- **The game clock** (`_formatTime`). Real elapsed seconds become an in-game
  time of day that starts at 11:00. Four real seconds are one game minute, and
  four real minutes are one game hour. The hour and the minute text are cached.
  They are recomputed only when the elapsed time is a multiple of 4 seconds.
  Otherwise the text is rebuilt from the cache. The hour never wraps: 480
  seconds read "13:00 AM". The suffix is " PM" only while the hour is 11.
- **Elapsed-time accounting**. This covers `updateHud`, `startTimer`,
  `stopTimer`, and the `_prevTime`/`_startTime` bookkeeping done by the pause
  and resume buttons. The wall clock is an explicit integer `now` in milliseconds.
- **The lantern counter text** (`updateLanternCount`).
- **The sparkler animation**. `startSparklerTimer` resets two sprite frames and
  schedules two repeating timers. The life timer fills a 10-bar life gauge. The
  spark timer cycles a 6-frame spark. `stopSparklerTimer` only raises a flag
  and darkens the light. Each timer firing is an explicit event.

The HUD is an immutable `Hud.Hud` record, and every handler is a pure function
from one record to the next. `Hud.Step` applies one `Hud.Event`, which is a
handler call, a button press or a timer firing. `Hud.Run` applies a sequence
of events.

JavaScript semantics are written out:

- `Math.floor(a / b)` with a positive divisor is Dafny's `/`.
- `%` truncates toward zero, so it is `Numerals.JsRem`.
- Concatenating a number renders it in decimal with `Numerals.IntToString`.
- `time` is `undefined` until the first update. Arithmetic treats `undefined`
  the same as NaN, so both are `GameClock.Seconds.NaN`.

Modules:

- `numerals.dfy` (`Numerals`): decimal rendering and parsing, and the JavaScript remainder.
- `game_clock.dfy` (`GameClock`): `_formatTime` and its cache.
- `hud.dfy` (`Hud`): the HUD record, the timer, pause, resume, quit and lantern handlers, the sparkler state machine, and events.

## Model

| member | source | states |
|---|---|---|
| Numerals.NatToString | tutorial/gui/ui.ts:173 | A number renders as a non-empty run of decimal digits. It has one digit exactly below 10 and a leading '0' only for 0. |
| Numerals.ParseNatToString | tutorial/gui/ui.ts:170 | Reading the rendered digits back gives the original number, so the clock text determines the number. |
| Numerals.NatToStringInjective | tutorial/gui/ui.ts:173 | Distinct numbers render to distinct texts. |
| Numerals.IntToString | tutorial/gui/ui.ts:151 | A non-negative number renders as its plain canonical digits. A negative number renders as '-' followed by the canonical digits of its magnitude. |
| Numerals.IntToStringRoundTrip | tutorial/gui/ui.ts:151 | A signed rendering is well formed and parses back to the same integer. |
| Numerals.JsRem | tutorial/gui/ui.ts:165 | The remainder has the dividend's sign, its magnitude is below the divisor, and it completes the truncated division. |
| GameClock.Plus | tutorial/gui/ui.ts:143 | Adding to NaN (or `undefined`) gives NaN. Otherwise the result is the sum of the two integers. |
| GameClock.DaySuffix | tutorial/gui/ui.ts:172 | The suffix is three characters long. It is " PM" exactly when the hour is 11, and " AM" for every other hour. |
| GameClock.FormatTime | tutorial/gui/ui.ts:163-174 | The cache is refreshed exactly on whole multiples of 4 seconds, to hour floor(t/240)+11 and the minute text of (t mod 240)/4. Otherwise the cache is unchanged. The text always comes from the resulting cache. |
| GameClock.FloorOfFloor | tutorial/gui/ui.ts:164-169 | floor(floor(t/60)/4) equals floor(t/240) for every integer t, so the hour counts whole 240-second periods. |
| GameClock.JsRemDivisibleByFour | tutorial/gui/ui.ts:165-168 | The refresh test `(t % 240) % 4 == 0` holds exactly when t is a multiple of 4, negative t included. |
| GameClock.MinuteTextTwoDigits | tutorial/gui/ui.ts:170 | For minutes 0..59 the minute text is exactly two digits. It has a leading '0' exactly below 10 and reads back as the minute. |
| GameClock.RefreshShowsGameTime | tutorial/gui/ui.ts:164-170 | After a refresh at t >= 0, hour*60 + minute equals 11:00 plus t/4 game minutes, with the minute in 0..59. The hour is not wrapped. |
| GameClock.RefreshTextLayout | tutorial/gui/ui.ts:169-173 | After a refresh at t >= 0 the text is the decimal hour 11+t/240, then ':', then the minute text. It ends in " PM" when t < 240 and in " AM" otherwise. |
| GameClock.PmExactlyAtEleven | tutorial/gui/ui.ts:172-173 | For any time and cache, the text ends in " PM" exactly when the hour in the cache is 11, and in " AM" exactly when it is not. |
| GameClock.FormatIdempotent | tutorial/gui/ui.ts:168-173 | Formatting the same time a second time, with the cache the first call left, gives the same text and cache. |
| GameClock.StaleTimeShowsCache | tutorial/gui/ui.ts:168-173 | Off the 4-second grid, and for NaN, the cache is untouched and the text is the one built from the last refresh. |
| GameClock.HourConstantWithinPeriod | tutorial/gui/ui.ts:169 | Two refreshing times in the same 240-second period show the same hour, whatever the caches were. |
| GameClock.InitialAndNoWrap | tutorial/gui/ui.ts:163-174 | From the initial cache (11, "00"), time 0 reads "11:00 PM" and leaves the cache unchanged. Time 480 reads "13:00 AM". |
| GameClock.NegativeTimeText | tutorial/gui/ui.ts:164-170 | A negative time renders as JavaScript renders it: -4 seconds reads "10:0-1 AM". |
| Hud.Initial | tutorial/gui/ui.ts:8-229 | A new HUD has NaN time, prevTime 0, no start time and an unstopped timer. Its clock cache is hour 11 with minutes "00". Its texts are "11:00" and "Lanterns: 1 / 22". It is unpaused and not in transition. Both sparkler frames are 0, stopSpark is false, no sparkler timer is scheduled, and the light keeps the scene's intensity. |
| Hud.UpdateHud | tutorial/gui/ui.ts:141-148 | A stopped or never-started timer leaves the HUD unchanged. Otherwise the new time minus prevTime is the floor of the elapsed milliseconds over 1000, NaN propagates, and the clock text is the formatted new time. Only time, cache and clock text change. |
| Hud.UpdateLanternCount | tutorial/gui/ui.ts:150-152 | The counter reads "Lanterns: ", then the count, then " / 22", and the middle is the canonical decimal rendering of the count, which parses back to it. Only that text changes. |
| Hud.StartTimer | tutorial/gui/ui.ts:154-157 | Afterwards the clock runs from `now`. prevTime and everything else are kept. |
| Hud.StopTimer | tutorial/gui/ui.ts:158-160 | Afterwards the clock does not run, and nothing else changes. |
| Hud.PressPause | tutorial/gui/ui.ts:127-135 | Pausing flags the game paused and saves the current time as prevTime. Nothing else changes. |
| Hud.PressResume | tutorial/gui/ui.ts:264-272 | Resuming unpauses and restarts the run at `now`. Nothing else changes, and this applies even if the timer was never started. |
| Hud.PressQuit | tutorial/gui/ui.ts:321-327 | Quitting raises the transition flag, and nothing else changes. |
| Hud.UpdateShowsTime | tutorial/gui/ui.ts:141-148 | After an update that ran, the clock text and cache are what formatting the stored time gives. |
| Hud.ResumeHasNoJump | tutorial/gui/ui.ts:264-272 | Pause, then resume at `now`, then update at `now` reproduces the paused time. If the display showed that time, the clock text and cache are reproduced too. |
| Hud.FirstUpdateReadsElevenPm | tutorial/gui/ui.ts:13-14 | On a new HUD, an update at the instant its timer starts stores time 0, reads "11:00 PM" and keeps the initial cache. |
| Hud.StartTimerResumesFromPrevTime | tutorial/gui/ui.ts:141-157 | An update at the instant the timer starts shows exactly the carried-over prevTime. |
| Hud.UpdateMonotone | tutorial/gui/ui.ts:143 | Within one run of the clock, a later update never shows an earlier time. |
| Hud.StoppedClockIsFrozen | tutorial/gui/ui.ts:141-160 | After stopTimer, an update at any wall-clock time leaves the whole HUD unchanged. |
| Hud.UpdateIgnoresPause | tutorial/gui/ui.ts:141-148 | The update has no pause guard: the pause flag does not change what it computes. |
| Hud.StepKeepsClockFrozen | tutorial/gui/ui.ts:141-148 | Once time and prevTime are both NaN, no event makes either a number again. The cache is kept, and the text stays as it was or becomes the text built from that cache. |
| Hud.RunKeepsClockFrozen | tutorial/gui/ui.ts:141-148 | The frozen-clock condition holds after any sequence of events. |
| Hud.PauseBeforeFirstUpdateFreezesClock | tutorial/gui/ui.ts:127-148 | A pause before the first update copies the undefined time into prevTime. After any later sequence of events, time and prevTime are still NaN and the cached clock is unchanged. |
| Hud.StartSparklerTimer | tutorial/gui/ui.ts:178-219 | Both frames go to 0 and stopSpark is cleared. Both timers are scheduled and the light is set to 35. |
| Hud.LifeTick | tutorial/gui/ui.ts:193-204 | While paused the tick does nothing. Unpaused, a bar below 10 grows by one, and a full bar stays as it is. A bar that reaches 10 raises stopSpark and cancels its own timer. Only the life frame, stopSpark and that timer change. |
| Hud.SparkTick | tutorial/gui/ui.ts:206-218 | While paused the tick does nothing. While the life bar runs, a frame below 5 advances by one and a frame at 5 or above goes back to 0, so frames 0..5 cycle with period 6. Once the bar is full, the frame goes to 0 and the timer is cancelled. |
| Hud.StopSparklerTimer | tutorial/gui/ui.ts:222-225 | stopSpark is raised and the light goes to 0. The frames and both timers are left as they were. |
| Hud.InitialSparklerInv | tutorial/gui/ui.ts:89-104 | A new HUD satisfies the sparkler invariant. |
| Hud.StepPreservesSparklerInv | tutorial/gui/ui.ts:178-225 | Every event keeps the life frame in 0..10 and the spark frame in 0..5. The life timer is only scheduled below 10, and a full bar has stopSpark raised. |
| Hud.RunPreservesSparklerInv | tutorial/gui/ui.ts:178-225 | Any sequence of events preserves the sparkler invariant. |
| Hud.FramesAlwaysInRange | tutorial/gui/ui.ts:178-225 | From construction on, under any events, the life frame stays in 0..10 and the spark frame in 0..5. |
| Hud.PausedTimersAreIdle | tutorial/gui/ui.ts:193-218 | While the game is paused, a timer firing changes nothing. |
| Hud.LifeFillsAfterTenFirings | tutorial/gui/ui.ts:178-204 | After a restart and k unpaused life firings, the bar shows min(k, 10). stopSpark is raised and the timer cancelled exactly when k >= 10. |
| Hud.SparkEndsWithFullLife | tutorial/gui/ui.ts:206-218 | Once the bar is full, the next spark firing resets the spark to 0 and cancels its timer. |
| Hud.StopDoesNotHaltLifeBar | tutorial/gui/ui.ts:193-225 | After stopSparklerTimer, a running life timer still advances the bar by one. |

## Left out

- Widget construction and layout are not modelled. This covers sizes, fonts, alignment, sprite paths, adding and removing controls, and visibility and hit-test toggles. They belong to the GUI toolkit. The controls and back buttons only toggle visibility, so they are left out too.
- The fade shader registration and the `PostProcess` created by the quit button are not modelled. They are GPU plumbing, and `fadeLevel` is a float. Only the `transition` flag is kept.
- Real scheduling is not modelled. This covers `setInterval` and `clearInterval` with their 2000 ms and 185 ms periods, and `Date.getTime()`. They are replaced by timer-firing events, "interval active" flags and an explicit `now`. Any interleaving of the two timers is allowed, because the engine's actual interleaving is outside this file.
- Scene lookups (`getLightByName`) are not modelled. The light's intensity is a plain integer field, and its value before the first sparkler start is a parameter of `Hud.Initial`.
- JavaScript numbers are 64-bit floats. Integers beyond 2^53, and a non-integral `numLanterns`, are not modelled. Times are integers throughout.
- Several fields start as `undefined` in the source. `time` becomes NaN, `_startTime` becomes an absent start time, and the interval handles become "no timer scheduled". `_stopTimer` is only read through `!`, which treats `undefined` as false, so it starts as `false` here. `stopSpark` is only ever written in this file, so it also starts as `false`.
- GameClock.FormatTime: its contract gives the minute text only for times >= 0. For negative times, only the hour and the refresh condition are stated in general. `GameClock.NegativeTimeText` pins down one example.
- The `quit` field is declared in the source but never assigned there, so it is not modelled.
