/**
 The state of the heads-up display once its widgets are reduced to plain
 fields, and the handlers that change it: the elapsed-time accounting behind
 the clock (start, stop, per-frame update, pause and resume), the lantern
 counter text, the quit flag, and the sparkler animation driven by two
 repeating timers. The wall clock is an explicit `now` in milliseconds, and
 each firing of a repeating timer is an explicit event.
 */
module Hud {
  import opened Numerals
  import opened GameClock

  datatype Option<T> = None | Some(value: T)

  /** Number of bars in the sparkler-life sprite sheet; the life cell counts up to it. */
  const LifeCells := 10
  /** Index of the last spark frame (six frames in all); the spark cell cycles 0..LastSparkFrame. */
  const LastSparkFrame := 5
  /** Light intensity set when the sparkler (re)starts. */
  const SparkLightOn := 35

  datatype Hud = Hud(
    // clock accounting
    time: Seconds,                  // elapsed real seconds, `undefined` (NaN) before the first update
    prevTime: Seconds,              // seconds accumulated before the current run of the clock
    startTime: Option<int>,         // wall-clock milliseconds the current run started at, if any
    timerStopped: bool,
    clock: ClockCache,
    clockText: string,
    lanternText: string,
    gamePaused: bool,
    transition: bool,               // set by the quit button
    // sparkler animation
    lifeCell: int,                  // frame of the sparkler-life bar
    sparkCell: int,                 // frame of the spark
    stopSpark: bool,
    lifeIntervalActive: bool,       // the 2000 ms life timer is scheduled
    sparkIntervalActive: bool,      // the 185 ms spark timer is scheduled
    lightIntensity: int             // the scene's "sparklight"
  )

  /**
   A freshly constructed HUD. `_stopTimer` starts `undefined`, which `!` reads
   as false; `stopSpark` starts `undefined` and is only ever written, so it
   starts false here. `time` starts `undefined`, i.e. NaN, `_startTime` is
   absent and no interval handle is held. The sparkler light belongs to the
   scene, so its intensity is a parameter.
   */
  function Initial(light: int): (h: Hud)
    ensures h.time.NaN? && h.prevTime == Whole(0) && h.startTime.None? && !h.timerStopped
    ensures h.clock == InitialCache && h.clock.hour == 11 && h.clock.minuteText == "00"
    ensures h.clockText == "11:00" && h.lanternText == "Lanterns: 1 / 22"
    ensures !h.gamePaused && !h.transition
    ensures h.lifeCell == 0 && h.sparkCell == 0 && !h.stopSpark
    ensures !h.lifeIntervalActive && !h.sparkIntervalActive && h.lightIntensity == light
  {
    Hud(NaN, Whole(0), None, false, InitialCache, "11:00", "Lanterns: 1 / 22", false, false,
        0, 0, false, false, false, light)
  }

  // ---------------------------------------------------------------------
  // Game timer
  // ---------------------------------------------------------------------

  /** The per-frame update runs only while the timer is started and not stopped. */
  predicate ClockRunning(h: Hud) {
    !h.timerStopped && h.startTime.Some?
  }

  /**
   Per-frame update: the elapsed time is the whole seconds since `startTime`
   plus `prevTime`, and the clock text is that time formatted. There is no
   pause guard here; callers decide whether to call it while paused.
   */
  function UpdateHud(h: Hud, now: int): (r: Hud)
    ensures !ClockRunning(h) ==> r == h
    ensures r == h.(time := r.time, clock := r.clock, clockText := r.clockText)
    ensures ClockRunning(h) && h.prevTime.Whole? ==>
      r.time.Whole? &&
      (r.time.n - h.prevTime.n) * 1000 <= now - h.startTime.value < (r.time.n - h.prevTime.n + 1) * 1000
    ensures ClockRunning(h) && h.prevTime.NaN? ==> r.time.NaN? && r.clock == h.clock
    ensures ClockRunning(h) ==> FormatTime(r.time, h.clock) == Formatted(r.clockText, r.clock)
  {
    if ClockRunning(h) then
      var curTime := Plus(Whole((now - h.startTime.value) / 1000), h.prevTime);
      var f := FormatTime(curTime, h.clock);
      h.(time := curTime, clock := f.cache, clockText := f.text)
    else h
  }

  /** `updateLanternCount`: the counter text for `numLanterns` out of 22. */
  function UpdateLanternCount(h: Hud, numLanterns: int): (r: Hud)
    ensures r == h.(lanternText := r.lanternText)
    ensures |r.lanternText| > |"Lanterns: "| + |" / 22"|
    ensures r.lanternText[..|"Lanterns: "|] == "Lanterns: "
    ensures r.lanternText[|r.lanternText| - |" / 22"|..] == " / 22"
    ensures var middle := r.lanternText[|"Lanterns: "|..|r.lanternText| - |" / 22"|];
      IsIntText(middle) && ParseInt(middle) == numLanterns && middle == IntToString(numLanterns)
  {
    var digits := IntToString(numLanterns);
    IntToStringRoundTrip(numLanterns);
    var text := "Lanterns: " + digits + " / 22";
    assert text[|"Lanterns: "|..|text| - |" / 22"|] == digits;
    h.(lanternText := text)
  }

  /** `startTimer`: a new run of the clock starts now. `prevTime` is kept. */
  function StartTimer(h: Hud, now: int): (r: Hud)
    ensures ClockRunning(r) && r.startTime.value == now
    ensures r == h.(startTime := r.startTime, timerStopped := r.timerStopped)
  {
    h.(startTime := Some(now), timerStopped := false)
  }

  /** `stopTimer`: freezes the clock; nothing else changes. */
  function StopTimer(h: Hud): (r: Hud)
    ensures !ClockRunning(r)
    ensures r == h.(timerStopped := r.timerStopped)
  {
    h.(timerStopped := true)
  }

  /** The pause button: remember the time reached so far and flag the game paused. */
  function PressPause(h: Hud): (r: Hud)
    ensures r.gamePaused && r.prevTime == h.time
    ensures r == h.(gamePaused := r.gamePaused, prevTime := r.prevTime)
  {
    h.(gamePaused := true, prevTime := h.time)
  }

  /** The resume button: unpause and restart the current run of the clock at `now`. */
  function PressResume(h: Hud, now: int): (r: Hud)
    ensures !r.gamePaused && r.startTime == Some(now)
    ensures r == h.(gamePaused := r.gamePaused, startTime := r.startTime)
  {
    h.(gamePaused := false, startTime := Some(now))
  }

  /** The quit button: request the fade transition. */
  function PressQuit(h: Hud): (r: Hud)
    ensures r.transition
    ensures r == h.(transition := r.transition)
  {
    h.(transition := true)
  }

  /** The clock text and cache are what formatting the current time gives. */
  predicate ClockShowsTime(h: Hud) {
    FormatTime(h.time, h.clock) == Formatted(h.clockText, h.clock)
  }

  /** After an update that ran, the display agrees with the time it stored. */
  lemma UpdateShowsTime(h: Hud, now: int)
    requires ClockRunning(h)
    ensures ClockShowsTime(UpdateHud(h, now))
  {
  }

  /**
   Pausing and resuming cause no jump: an update at the instant of resuming
   reproduces the time reached when the pause button was pressed, and, when the
   display showed that time, the same text and cache.
   */
  lemma ResumeHasNoJump(h: Hud, now: int)
    ensures var r := UpdateHud(PressResume(PressPause(h), now), now);
      r.time == h.time && !r.gamePaused
    ensures ClockShowsTime(h) ==>
      var r := UpdateHud(PressResume(PressPause(h), now), now);
      r.clockText == h.clockText && r.clock == h.clock
  {
  }

  /** The first update of a new HUD, at the instant its timer starts, reads "11:00 PM". */
  lemma FirstUpdateReadsElevenPm(light: int, now: int)
    ensures var r := UpdateHud(StartTimer(Initial(light), now), now);
      r.time == Whole(0) && r.clockText == "11:00 PM" && r.clock == InitialCache
  {
    InitialAndNoWrap(InitialCache);
  }

  /** Starting the timer anew shows the time carried over in `prevTime` at the start instant. */
  lemma StartTimerResumesFromPrevTime(h: Hud, now: int)
    ensures UpdateHud(StartTimer(h, now), now).time == h.prevTime
  {
  }

  /** Within one run of the clock, a later update never shows an earlier time. */
  lemma UpdateMonotone(h: Hud, now1: int, now2: int)
    requires ClockRunning(h) && h.prevTime.Whole?
    requires now1 <= now2
    ensures UpdateHud(h, now1).time.n <= UpdateHud(UpdateHud(h, now1), now2).time.n
  {
  }

  /** Once stopped, updates leave the whole HUD untouched, whatever the wall clock says. */
  lemma StoppedClockIsFrozen(h: Hud, now: int)
    ensures UpdateHud(StopTimer(h), now) == StopTimer(h)
  {
  }

  /** The update ignores the pause flag: paused or not, it computes the same time and text. */
  lemma UpdateIgnoresPause(h: Hud, now: int, paused: bool)
    ensures UpdateHud(h.(gamePaused := paused), now) == UpdateHud(h, now).(gamePaused := paused)
  {
  }

  /**
   The clock is stuck on NaN: both the time and the carried-over time are NaN,
   the cache is `c`, and the text is either `text` or the text built from `c`.
   */
  predicate ClockFrozen(h: Hud, c: ClockCache, text: string) {
    && h.time.NaN?
    && h.prevTime.NaN?
    && h.clock == c
    && (h.clockText == text || h.clockText == ClockText(c))
  }

  /** No event unfreezes a clock stuck on NaN. */
  lemma StepKeepsClockFrozen(h: Hud, e: Event, c: ClockCache, text: string)
    requires ClockFrozen(h, c, text)
    ensures ClockFrozen(Step(h, e), c, text)
  {
  }

  /** No sequence of events unfreezes a clock stuck on NaN. */
  lemma {:induction false} RunKeepsClockFrozen(h: Hud, es: seq<Event>, c: ClockCache, text: string)
    requires ClockFrozen(h, c, text)
    ensures ClockFrozen(Run(h, es), c, text)
    decreases |es|
  {
    if |es| > 0 {
      StepKeepsClockFrozen(h, es[0], c, text);
      RunKeepsClockFrozen(Step(h, es[0]), es[1..], c, text);
    }
  }

  /**
   Pausing before the first update copies the `undefined` time into `prevTime`.
   Whatever happens afterwards, every update stores NaN, the cached clock never
   changes, and the text is either the one shown at the pause or the one built
   from that cache.
   */
  lemma PauseBeforeFirstUpdateFreezesClock(h: Hud, es: seq<Event>)
    requires h.time.NaN?
    ensures var r := Run(PressPause(h), es);
      && r.time.NaN? && r.prevTime.NaN? && r.clock == h.clock
      && (r.clockText == h.clockText || r.clockText == ClockText(h.clock))
  {
    RunKeepsClockFrozen(PressPause(h), es, h.clock, h.clockText);
  }

  // ---------------------------------------------------------------------
  // Sparkler timers
  // ---------------------------------------------------------------------

  /**
   `startSparklerTimer`: both frames back to 0, `stopSpark` cleared, the light
   switched on, and both repeating timers (re)scheduled, any earlier ones cleared.
   */
  function StartSparklerTimer(h: Hud): (r: Hud)
    ensures r.lifeCell == 0 && r.sparkCell == 0 && !r.stopSpark
    ensures r.lifeIntervalActive && r.sparkIntervalActive && r.lightIntensity == SparkLightOn
    ensures r == h.(lifeCell := 0, sparkCell := 0, stopSpark := false, lifeIntervalActive := true,
                    sparkIntervalActive := true, lightIntensity := r.lightIntensity)
  {
    h.(lifeCell := 0, sparkCell := 0, stopSpark := false,
       lifeIntervalActive := true, sparkIntervalActive := true, lightIntensity := SparkLightOn)
  }

  /**
   The body of the 2000 ms timer: unless paused, advance the life bar by one up
   to LifeCells; on reaching it, set `stopSpark` and cancel this timer.
   */
  function LifeTick(h: Hud): (r: Hud)
    ensures h.gamePaused ==> r == h
    ensures r == h.(lifeCell := r.lifeCell, stopSpark := r.stopSpark, lifeIntervalActive := r.lifeIntervalActive)
    ensures !h.gamePaused && h.lifeCell < LifeCells ==> r.lifeCell == h.lifeCell + 1
    ensures !h.gamePaused && h.lifeCell >= LifeCells ==> r.lifeCell == h.lifeCell
    ensures !h.gamePaused && r.lifeCell == LifeCells ==> r.stopSpark && !r.lifeIntervalActive
    ensures r.lifeCell != LifeCells ==> r.stopSpark == h.stopSpark && r.lifeIntervalActive == h.lifeIntervalActive
  {
    if h.gamePaused then h
    else
      var life := if h.lifeCell < LifeCells then h.lifeCell + 1 else h.lifeCell;
      if life == LifeCells then h.(lifeCell := life, stopSpark := true, lifeIntervalActive := false)
      else h.(lifeCell := life)
  }

  /**
   The body of the 185 ms timer: unless paused, while the life bar runs the
   spark frame cycles through 0..LastSparkFrame; once the life bar is full, the
   spark frame goes back to 0 and this timer is cancelled.
   */
  function SparkTick(h: Hud): (r: Hud)
    ensures h.gamePaused ==> r == h
    ensures r == h.(sparkCell := r.sparkCell, sparkIntervalActive := r.sparkIntervalActive)
    ensures !h.gamePaused && h.lifeCell < LifeCells && 0 <= h.sparkCell <= LastSparkFrame ==>
      r.sparkCell == (h.sparkCell + 1) % (LastSparkFrame + 1) && r.sparkIntervalActive == h.sparkIntervalActive
    ensures !h.gamePaused && h.lifeCell < LifeCells && h.sparkCell < LastSparkFrame ==>
      r.sparkCell == h.sparkCell + 1 && r.sparkIntervalActive == h.sparkIntervalActive
    ensures !h.gamePaused && h.lifeCell < LifeCells && h.sparkCell >= LastSparkFrame ==>
      r.sparkCell == 0 && r.sparkIntervalActive == h.sparkIntervalActive
    ensures !h.gamePaused && h.lifeCell >= LifeCells ==> r.sparkCell == 0 && !r.sparkIntervalActive
  {
    if h.gamePaused then h
    else if h.lifeCell < LifeCells && h.sparkCell < LastSparkFrame then h.(sparkCell := h.sparkCell + 1)
    else if h.lifeCell < LifeCells && h.sparkCell >= LastSparkFrame then h.(sparkCell := 0)
    else h.(sparkCell := 0, sparkIntervalActive := false)
  }

  /**
   `stopSparklerTimer`: only flags the sparkler stopped and darkens its light.
   The frames and both timers are left as they were.
   */
  function StopSparklerTimer(h: Hud): (r: Hud)
    ensures r.stopSpark && r.lightIntensity == 0
    ensures r.lifeCell == h.lifeCell && r.sparkCell == h.sparkCell
    ensures r.lifeIntervalActive == h.lifeIntervalActive && r.sparkIntervalActive == h.sparkIntervalActive
    ensures r == h.(stopSpark := r.stopSpark, lightIntensity := r.lightIntensity)
  {
    h.(stopSpark := true, lightIntensity := 0)
  }

  // ---------------------------------------------------------------------
  // Events
  // ---------------------------------------------------------------------

  /** Everything that can happen to the HUD: handler calls, button presses and timer firings. */
  datatype Event =
    | Update(now: int)
    | LanternCount(numLanterns: int)
    | TimerStart(now: int)
    | TimerStop
    | Pause
    | Resume(now: int)
    | Quit
    | SparklerStart
    | SparklerStop
    | LifeTimerFires
    | SparkTimerFires

  /** One event. A timer fires only while it is scheduled. */
  function Step(h: Hud, e: Event): Hud {
    match e
    case Update(now) => UpdateHud(h, now)
    case LanternCount(n) => UpdateLanternCount(h, n)
    case TimerStart(now) => StartTimer(h, now)
    case TimerStop => StopTimer(h)
    case Pause => PressPause(h)
    case Resume(now) => PressResume(h, now)
    case Quit => PressQuit(h)
    case SparklerStart => StartSparklerTimer(h)
    case SparklerStop => StopSparklerTimer(h)
    case LifeTimerFires => if h.lifeIntervalActive then LifeTick(h) else h
    case SparkTimerFires => if h.sparkIntervalActive then SparkTick(h) else h
  }

  /** A sequence of events, in order. */
  function Run(h: Hud, es: seq<Event>): Hud
    decreases |es|
  {
    if |es| == 0 then h else Run(Step(h, es[0]), es[1..])
  }

  /**
   The sparkler invariant: both frames stay within their sprite sheets, the
   life timer is scheduled only while the bar is not full, and a full bar has
   raised `stopSpark`.
   */
  predicate SparklerInv(h: Hud) {
    && 0 <= h.lifeCell <= LifeCells
    && 0 <= h.sparkCell <= LastSparkFrame
    && (h.lifeIntervalActive ==> h.lifeCell < LifeCells)
    && (h.lifeCell == LifeCells ==> h.stopSpark)
  }

  lemma InitialSparklerInv(light: int)
    ensures SparklerInv(Initial(light))
  {
  }

  /** Every event preserves the sparkler invariant. */
  lemma StepPreservesSparklerInv(h: Hud, e: Event)
    requires SparklerInv(h)
    ensures SparklerInv(Step(h, e))
  {
  }

  /** Any sequence of events from a state satisfying the invariant keeps it. */
  lemma {:induction false} RunPreservesSparklerInv(h: Hud, es: seq<Event>)
    requires SparklerInv(h)
    ensures SparklerInv(Run(h, es))
    decreases |es|
  {
    if |es| > 0 {
      StepPreservesSparklerInv(h, es[0]);
      RunPreservesSparklerInv(Step(h, es[0]), es[1..]);
    }
  }

  /** From the moment the HUD is built, whatever happens, the frames stay in range. */
  lemma FramesAlwaysInRange(light: int, es: seq<Event>)
    ensures var h := Run(Initial(light), es);
      0 <= h.lifeCell <= LifeCells && 0 <= h.sparkCell <= LastSparkFrame
  {
    InitialSparklerInv(light);
    RunPreservesSparklerInv(Initial(light), es);
  }

  /** While paused, a timer firing changes nothing. */
  lemma PausedTimersAreIdle(h: Hud, e: Event)
    requires h.gamePaused && (e == LifeTimerFires || e == SparkTimerFires)
    ensures Step(h, e) == h
  {
  }

  /** `k` firings of the life timer in a row. */
  function LifeFirings(h: Hud, k: nat): Hud
    decreases k
  {
    if k == 0 then h else Step(LifeFirings(h, k - 1), LifeTimerFires)
  }

  /**
   Unpaused, the life bar takes exactly LifeCells firings from a (re)start to
   fill: after `k` firings it shows `k` bars, `stopSpark` is raised exactly at
   the last one, and the timer is cancelled exactly then. Later firings do nothing.
   */
  lemma {:induction false} LifeFillsAfterTenFirings(h: Hud, k: nat)
    requires !h.gamePaused
    ensures var r := LifeFirings(StartSparklerTimer(h), k);
      && r.lifeCell == (if k <= LifeCells then k else LifeCells)
      && (r.stopSpark <==> k >= LifeCells)
      && (r.lifeIntervalActive <==> k < LifeCells)
      && !r.gamePaused
    decreases k
  {
    if k > 0 {
      LifeFillsAfterTenFirings(h, k - 1);
    }
  }

  /** Once the life bar is full, the next spark firing resets the spark and cancels its timer. */
  lemma SparkEndsWithFullLife(h: Hud)
    requires !h.gamePaused && h.lifeCell == LifeCells && h.sparkIntervalActive
    ensures var r := Step(h, SparkTimerFires);
      r.sparkCell == 0 && !r.sparkIntervalActive && r.lifeCell == LifeCells
  {
  }

  /**
   Stopping the sparkler does not halt its animation: an unpaused life timer
   that was running keeps advancing the bar after `stopSparklerTimer`.
   */
  lemma StopDoesNotHaltLifeBar(h: Hud)
    requires SparklerInv(h) && !h.gamePaused && h.lifeIntervalActive
    ensures Step(StopSparklerTimer(h), LifeTimerFires).lifeCell == h.lifeCell + 1
    ensures Step(StopSparklerTimer(h), LifeTimerFires).stopSpark
  {
  }
}
