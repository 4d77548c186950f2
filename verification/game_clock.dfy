/**
 The HUD's game clock (`Hud._formatTime`): real elapsed seconds shown as an
 in-game time of day that starts at 11:00, where 4 real seconds are one game
 minute and 4 real minutes are one game hour. The hour and the two-digit minute
 text are cached and recomputed only when the elapsed time is a multiple of 4
 seconds; in between, the text is rebuilt from the cached values.
 */
module GameClock {
  import opened Numerals

  /**
   An elapsed-time value as JavaScript holds it: an integral number of seconds,
   or NaN. The HUD's `time` field is `undefined` until the first update, and
   `undefined` behaves as NaN in every arithmetic use the HUD makes of it.
   */
  datatype Seconds = Whole(n: int) | NaN

  /** JavaScript `+` on numbers: NaN absorbs. */
  function Plus(a: Seconds, b: Seconds): (r: Seconds)
    ensures r.Whole? <==> a.Whole? && b.Whole?
    ensures r.Whole? ==> r.n == a.n + b.n
  {
    match (a, b)
    case (Whole(x), Whole(y)) => Whole(x + y)
    case _ => NaN
  }

  /** The cached clock fields: the hour number and the minute text. */
  datatype ClockCache = ClockCache(hour: int, minuteText: string)

  /** The cache a fresh HUD starts with: hour 11, minutes "00". */
  const InitialCache := ClockCache(11, "00")

  /** What formatting returns: the clock text and the cache to keep. */
  datatype Formatted = Formatted(text: string, cache: ClockCache)

  /** " PM" for hour 11 only; every other hour, 12 and beyond included, reads " AM". */
  function DaySuffix(hour: int): (s: string)
    ensures |s| == 3
    ensures s == " PM" <==> hour == 11
    ensures s == " AM" <==> hour != 11
  {
    if hour == 11 then " PM" else " AM"
  }

  /** The minute number with a "0" prepended when it is below 10. */
  function MinuteText(m: int): string {
    (if m < 10 then "0" else "") + IntToString(m)
  }

  /** The text shown for a cache: hour, ':', minute text, day suffix. */
  function ClockText(c: ClockCache): string {
    IntToString(c.hour) + ":" + c.minuteText + DaySuffix(c.hour)
  }

  /** True when formatting `t` recomputes the cache: `t` is a whole multiple of 4 seconds. */
  predicate Refreshes(t: Seconds) {
    t.Whole? && t.n % 4 == 0
  }

  /** The game hour for a refreshing time: the number of whole 240-second periods, plus 11. */
  function HourAt(time: int): int {
    time / 240 + 11
  }

  /**
   Formats elapsed seconds against cache `c`. `Math.floor` of a quotient by a
   positive divisor is Dafny's `/`; JavaScript's `%` is JsRem; `secPassed / 4`
   is only evaluated where it divides exactly. NaN never satisfies `NaN % 4 == 0`.
   */
  function FormatTime(t: Seconds, c: ClockCache): (r: Formatted)
    ensures r.text == ClockText(r.cache)
    ensures Refreshes(t) ==> r.cache.hour == HourAt(t.n)
    ensures Refreshes(t) && t.n >= 0 ==> r.cache.minuteText == MinuteText((t.n % 240) / 4)
    ensures !Refreshes(t) ==> r.cache == c
  {
    match t
    case NaN => Formatted(ClockText(c), c)
    case Whole(time) =>
      var minsPassed := time / 60;
      var secPassed := JsRem(time, 240);
      FloorOfFloor(time);
      JsRemDivisibleByFour(time);
      var c' :=
        if JsRem(secPassed, 4) == 0 then ClockCache(minsPassed / 4 + 11, MinuteText(secPassed / 4))
        else c;
      Formatted(ClockText(c'), c')
  }

  /** `floor(floor(t / 60) / 4)` is `floor(t / 240)`. */
  lemma FloorOfFloor(t: int)
    ensures (t / 60) / 4 == t / 240
  {
  }

  /** The remainder modulo 240, in JavaScript's sense, is a multiple of 4 exactly when `t` is. */
  lemma JsRemDivisibleByFour(t: int)
    ensures JsRem(JsRem(t, 240), 4) == 0 <==> t % 4 == 0
  {
  }

  /** Minutes 0..59 render as exactly two decimal digits that read back as the minute. */
  lemma MinuteTextTwoDigits(m: int)
    requires 0 <= m <= 59
    ensures |MinuteText(m)| == 2
    ensures AllDigits(MinuteText(m))
    ensures ParseNat(MinuteText(m)) == m
    ensures MinuteText(m)[0] == '0' <==> m < 10
  {
    var s := MinuteText(m);
    ParseNatToString(m);
    if m < 10 {
      assert s == "0" + NatToString(m);
      assert s[..1] == "0";
    } else {
      assert s == NatToString(m);
      assert NatToString(m) == NatToString(m / 10) + [DigitChar(m % 10)];
    }
  }

  /**
   The clock keeps game time: after a refresh at `t >= 0` seconds, the hour
   and minute shown are 11:00 plus `t / 4` game minutes, the minute lying in
   0..59. The hour is not reduced modulo 12 or 24.
   */
  lemma RefreshShowsGameTime(t: int, c: ClockCache)
    requires t >= 0 && t % 4 == 0
    ensures var r := FormatTime(Whole(t), c);
      && |r.cache.minuteText| == 2
      && AllDigits(r.cache.minuteText)
      && 0 <= ParseNat(r.cache.minuteText) <= 59
      && r.cache.hour * 60 + ParseNat(r.cache.minuteText) == 11 * 60 + t / 4
  {
    var q, rr := t / 240, t % 240;
    var m := rr / 4;
    MinuteTextTwoDigits(m);
    var r := FormatTime(Whole(t), c);
    assert r.cache == ClockCache(q + 11, MinuteText(m));
    assert rr % 4 == 0 by {
      assert t == 4 * (60 * q) + rr;
    }
    assert t == 4 * (60 * q + m);
    assert t / 4 == 60 * q + m;
  }

  /**
   The text after a refresh at `t >= 0`: the hour in decimal, ':', two minute
   digits, and a suffix that reads " PM" exactly during the first 240 seconds.
   */
  lemma RefreshTextLayout(t: int, c: ClockCache)
    requires t >= 0 && t % 4 == 0
    ensures var r := FormatTime(Whole(t), c);
      && r.text == NatToString(11 + t / 240) + ":" + r.cache.minuteText + (if t < 240 then " PM" else " AM")
      && ParseNat(NatToString(11 + t / 240)) == 11 + t / 240
  {
    ParseNatToString(11 + t / 240);
  }

  /**
   Whatever the time and cache, the text ends in " PM" exactly when the cached
   hour is 11, and in " AM" for every other hour.
   */
  lemma PmExactlyAtEleven(t: Seconds, c: ClockCache)
    ensures var r := FormatTime(t, c);
      && |r.text| >= 3
      && (r.text[|r.text| - 3..] == " PM" <==> r.cache.hour == 11)
      && (r.text[|r.text| - 3..] == " AM" <==> r.cache.hour != 11)
  {
  }

  /**
   Formatting the same time twice gives the same text and cache as formatting
   it once: a refresh overwrites the cache with values that depend on `t` alone,
   and a non-refresh leaves it alone.
   */
  lemma FormatIdempotent(t: Seconds, c: ClockCache)
    ensures FormatTime(t, FormatTime(t, c).cache) == FormatTime(t, c)
  {
  }

  /** Between refreshes the text is the one built from the last refresh, whatever `t` is. */
  lemma StaleTimeShowsCache(t: Seconds, c: ClockCache)
    requires !Refreshes(t)
    ensures FormatTime(t, c) == Formatted(ClockText(c), c)
  {
  }

  /** Two refreshing times in the same 240-second period agree on the hour. */
  lemma HourConstantWithinPeriod(t1: int, t2: int, c1: ClockCache, c2: ClockCache)
    requires 0 <= t1 <= t2 && t1 % 4 == 0 && t2 % 4 == 0
    requires t1 / 240 == t2 / 240
    ensures FormatTime(Whole(t1), c1).cache.hour == FormatTime(Whole(t2), c2).cache.hour
    ensures FormatTime(Whole(t1), c1).text[..3] == FormatTime(Whole(t2), c2).text[..3]
  {
  }

  /** From the initial cache, time 0 reads "11:00 PM"; at 480 seconds the hour reads 13. */
  lemma InitialAndNoWrap(c: ClockCache)
    ensures FormatTime(Whole(0), InitialCache) == Formatted("11:00 PM", InitialCache)
    ensures FormatTime(Whole(480), c).text == "13:00 AM"
  {
  }

  /**
   A negative time (the wall clock ran backwards) is rendered as JavaScript
   renders it: at -4 seconds the minute text is "0-1" and the hour is 10.
   */
  lemma NegativeTimeText(c: ClockCache)
    ensures FormatTime(Whole(-4), c).text == "10:0-1 AM"
  {
  }
}
