// The Telink LED blinker: a start that turns the LED away from its resting
// state and schedules a tick, a tick that toggles the LED and counts the
// returns to the resting state in an 8-bit counter, and a stop that puts the
// LED back at rest.
module AppUi {
  import opened Wrappers
  import opened Bytes

  /**
   * The blink fields of `g_switchAppCtx`: `times` (a u8), `sta`, `oriSta`,
   * whether `timerLedEvt` is set, the two u16 intervals, and the level the
   * LED pin was last driven to.
   */
  datatype Blinker = Blinker(
    times: Byte, sta: bool, oriSta: bool, active: bool,
    ledOnTime: U16, ledOffTime: U16, led: bool)

  /** The interval for the state the LED has just been put into. */
  function IntervalFor(b: Blinker, on: bool): U16
  {
    if on then b.ledOnTime else b.ledOffTime
  }

  /**
   * `zclLEDTimerCb`: the new context and what the callback returns (-1
   * stops the timer, otherwise the next interval). The u8 decrement wraps,
   * so `times <= 0` holds only when `times` has just become 0.
   */
  function Tick(b: Blinker): (r: (Blinker, int))
    ensures r.1 == -1 ==> !r.0.active && r.0.times == 0 && b.sta == b.oriSta
    ensures r.1 != -1 ==> r.0.sta != b.sta && r.0.led == r.0.sta && r.0.active == b.active && r.1 == IntervalFor(b, r.0.sta) as int
  {
    var times: Byte := if b.sta == b.oriSta then Trunc8(b.times - 1) else b.times;
    if b.sta == b.oriSta && times == 0 then (b.(times := times, active := false), -1)
    else
      var sta := !b.sta;
      (b.(times := times, sta := sta, led := sta), IntervalFor(b, sta) as int)
  }

  /**
   * `led_blink_start`: `times` is always stored; only when no timer is
   * active are the LED, `sta` and the intervals set and the first tick
   * scheduled, with the interval returned here.
   */
  function Start(b: Blinker, times: Byte, ledOnTime: U16, ledOffTime: U16): (r: (Blinker, Option<U16>))
    ensures r.0.times == times && r.0.active && r.0.oriSta == b.oriSta
    ensures r.1.Some? <==> !b.active
    ensures r.1.Some? ==> r.0.led == r.0.sta != b.oriSta && r.1.value == IntervalFor(r.0, r.0.sta)
    ensures r.1.None? ==> r.0 == b.(times := times)
  {
    var b1 := b.(times := times);
    if b.active then (b1, None)
    else
      var sta := !b.oriSta;
      var b2 := b1.(sta := sta, led := sta, ledOnTime := ledOnTime, ledOffTime := ledOffTime, active := true);
      (b2, Some(if sta then ledOnTime else ledOffTime))
  }

  /** `led_blink_stop`: only an active blink is cancelled, its count zeroed and the LED put back at rest. */
  function Stop(b: Blinker): (r: Blinker)
    ensures !r.active && r.oriSta == b.oriSta
    ensures b.active ==> r.led == b.oriSta && r.times == 0
    ensures !b.active ==> r == b
  {
    if b.active then b.(active := false, times := 0, led := b.oriSta) else b
  }

  /** `n` ticks: the context after them and what each returned. */
  function Ticks(b: Blinker, n: nat): (Blinker, seq<int>)
    decreases n
  {
    if n == 0 then (b, [])
    else
      var step := Tick(b);
      var rest := Ticks(step.0, n - 1);
      (rest.0, [step.1] + rest.1)
  }

  /** The returns of a blink of `k` periods away from rest: away and back `k - 1` times, then back and stop. */
  function Pattern(b: Blinker, k: nat): seq<int>
    requires k >= 1
    decreases k
  {
    if k == 1 then [IntervalFor(b, b.oriSta) as int, -1]
    else [IntervalFor(b, b.oriSta) as int, IntervalFor(b, !b.oriSta) as int] + Pattern(b, k - 1)
  }

  /** A tick that does not stop toggles the LED and returns the interval for its new level. */
  lemma TickToggles(b: Blinker)
    ensures var (b', r) := Tick(b);
      r == -1 <==> (b.sta == b.oriSta && b.times == 1)
    ensures var (b', r) := Tick(b);
      r != -1 ==> b'.sta == !b.sta && b'.led == b'.sta && b'.active == b.active && r == IntervalFor(b, b'.sta)
  {
  }

  /**
   * The count goes down, modulo 256, exactly on ticks that find the LED at
   * rest, and the blink stops exactly when that brings it to zero; a
   * stopped blink leaves the LED where it was.
   */
  lemma TickCountsDown(b: Blinker)
    ensures Tick(b).0.times == (if b.sta == b.oriSta then (b.times + 255) % 256 else b.times)
    ensures !Tick(b).0.active <==> !b.active || (b.sta == b.oriSta && b.times == 1)
    ensures Tick(b).1 == -1 ==> Tick(b).0.led == b.led && Tick(b).0.sta == b.sta
  {
  }

  /** A start while a blink is running only replaces the count; otherwise it starts away from rest. */
  lemma StartOnlyWhenIdle(b: Blinker, times: Byte, ledOnTime: U16, ledOffTime: U16)
    ensures Start(b, times, ledOnTime, ledOffTime).0.times == times
    ensures b.active ==> Start(b, times, ledOnTime, ledOffTime) == (b.(times := times), None)
    ensures !b.active ==> var (b', first) := Start(b, times, ledOnTime, ledOffTime);
      b'.active && b'.sta == !b.oriSta && b'.led == b'.sta && b'.oriSta == b.oriSta
      && first == Some(IntervalFor(b', b'.sta))
  {
  }

  /** A stop always leaves no timer running, and when it cancels one the LED is back at rest. */
  lemma StopRestores(b: Blinker)
    ensures !Stop(b).active
    ensures b.active ==> Stop(b).led == b.oriSta && Stop(b).times == 0
    ensures !b.active ==> Stop(b) == b
  {
  }

  /** Ticks compose: `2 + n` ticks are two ticks then `n`. */
  lemma TwoThen(b: Blinker, n: nat)
    ensures Ticks(b, n + 2).0 == Ticks(Tick(Tick(b).0).0, n).0
    ensures Ticks(b, n + 2).1 == [Tick(b).1, Tick(Tick(b).0).1] + Ticks(Tick(Tick(b).0).0, n).1
  {
    var b1 := Tick(b).0;
    assert Ticks(b, n + 2).1 == [Tick(b).1] + Ticks(b1, n + 1).1;
    assert Ticks(b1, n + 1).1 == [Tick(b1).1] + Ticks(Tick(b1).0, n).1;
  }

  /** Two ticks that end a blink. */
  lemma LastTwo(b: Blinker)
    requires b.active && b.sta != b.oriSta && b.times == 1
    ensures Ticks(b, 2).1 == [IntervalFor(b, b.oriSta) as int, -1]
    ensures var e := Ticks(b, 2).0; !e.active && e.times == 0 && e.led == b.oriSta && e.sta == b.oriSta
  {
    TwoThen(b, 0);
    var b1 := Tick(b).0;
    assert b1.sta == b.oriSta && b1.times == 1;
    assert Ticks(Tick(b1).0, 0).1 == [];
    assert [Tick(b).1, Tick(b1).1] + [] == [Tick(b).1, Tick(b1).1];
  }

  /**
   * From a running blink with the LED away from rest and `k` periods left,
   * exactly `2k` ticks follow: the LED comes back to rest and goes away
   * again `k - 1` times, comes back a last time, and the timer stops with
   * the count at zero and the LED at rest.
   */
  lemma {:induction false} BlinkCount(b: Blinker, k: nat)
    requires 1 <= k < 256
    requires b.active && b.sta != b.oriSta && b.led == b.sta && b.times == k
    ensures Ticks(b, 2 * k).1 == Pattern(b, k)
    ensures var e := Ticks(b, 2 * k).0;
      !e.active && e.times == 0 && e.led == b.oriSta && e.sta == b.oriSta
    decreases k
  {
    if k == 1 {
      LastTwo(b);
    } else {
      TwoThen(b, 2 * (k - 1));
      var b2 := Tick(Tick(b).0).0;
      assert b2 == b.(times := k - 1);
      assert [Tick(b).1, Tick(Tick(b).0).1] == [IntervalFor(b, b.oriSta) as int, IntervalFor(b, !b.oriSta) as int];
      BlinkCount(b2, k - 1);
      assert Pattern(b2, k - 1) == Pattern(b, k - 1) by { PatternOnlyIntervals(b2, b, k - 1); }
    }
  }

  /** The pattern depends only on the resting state and the two intervals. */
  lemma {:induction false} PatternOnlyIntervals(b: Blinker, c: Blinker, k: nat)
    requires 1 <= k
    requires b.oriSta == c.oriSta && b.ledOnTime == c.ledOnTime && b.ledOffTime == c.ledOffTime
    ensures Pattern(b, k) == Pattern(c, k)
    decreases k
  {
    if k > 1 {
      PatternOnlyIntervals(b, c, k - 1);
    }
  }

  /** `led_blink_start` with `times` from 1 to 255, from idle, blinks exactly `times` times and stops at rest. */
  lemma StartBlinks(b: Blinker, times: Byte, ledOnTime: U16, ledOffTime: U16)
    requires !b.active && 1 <= times
    ensures var s := Start(b, times, ledOnTime, ledOffTime).0;
      Ticks(s, 2 * times).1 == Pattern(s, times)
      && !Ticks(s, 2 * times).0.active && Ticks(s, 2 * times).0.led == b.oriSta
  {
    var s := Start(b, times, ledOnTime, ledOffTime).0;
    BlinkCount(s, times);
  }

  /** A blink started with count `k` that has wrapped around once more: `2 + 2k` ticks in all. */
  lemma AfterWrap(s: Blinker, k: nat)
    requires 1 <= k < 256
    requires s.active && s.sta != s.oriSta && s.led == s.sta && s.times == Trunc8(k + 1)
    ensures Ticks(s, 2).0 == s.(times := k)
    ensures Ticks(s, 2 + 2 * k).1 == [IntervalFor(s, s.oriSta) as int, IntervalFor(s, !s.oriSta) as int] + Pattern(s, k)
    ensures !Ticks(s, 2 + 2 * k).0.active
  {
    TwoThen(s, 2 * k);
    TwoThen(s, 0);
    var s1 := Tick(s).0;
    assert s1 == s.(sta := s.oriSta, led := s.oriSta);
    assert Trunc8(Trunc8(k + 1) - 1) == k;
    var s2 := Tick(s1).0;
    assert s2 == s.(times := k);
    BlinkCount(s2, k);
    PatternOnlyIntervals(s2, s, k);
  }

  /**
   * A count of 0 is not "no blinks": the first return to rest wraps the u8
   * counter to 255, and the blink goes on for 256 periods in all.
   */
  lemma ZeroTimesWraps(b: Blinker, ledOnTime: U16, ledOffTime: U16)
    requires !b.active
    ensures var s := Start(b, 0, ledOnTime, ledOffTime).0;
      Ticks(s, 2).0.times == 255
      && Ticks(s, 2 + 2 * 255).1 == [IntervalFor(s, s.oriSta) as int, IntervalFor(s, !s.oriSta) as int] + Pattern(s, 255)
      && !Ticks(s, 2 + 2 * 255).0.active
  {
    AfterWrap(Start(b, 0, ledOnTime, ledOffTime).0, 255);
  }

  /** `g_switchAppCtx` as far as the blinker uses it. */
  class SwitchAppCtx {
    var times: Byte
    var sta: bool
    var oriSta: bool
    var timerLedEvt: bool
    var ledOnTime: U16
    var ledOffTime: U16
    var ledOn: bool

    function State(): Blinker
      reads this
    {
      Blinker(times, sta, oriSta, timerLedEvt, ledOnTime, ledOffTime, ledOn)
    }

    constructor (oriSta: bool)
      ensures State() == Blinker(0, false, oriSta, false, 0, 0, false)
    {
      times := 0;
      sta := false;
      this.oriSta := oriSta;
      timerLedEvt := false;
      ledOnTime := 0;
      ledOffTime := 0;
      ledOn := false;
    }

    /** `zclLEDTimerCb`. */
    method LedTimerCb() returns (interval: int)
      modifies this
      ensures (State(), interval) == Tick(old(State()))
    {
      if sta == oriSta {
        times := if times == 0 then 255 else times - 1;
        if times == 0 {
          timerLedEvt := false;
          return -1;
        }
      }
      sta := !sta;
      if sta {
        ledOn := true;
        interval := ledOnTime;
      } else {
        ledOn := false;
        interval := ledOffTime;
      }
    }

    /** `led_blink_start`; `scheduled` is the interval the first tick is scheduled with, if it is. */
    method LedBlinkStart(times: Byte, ledOnTime: U16, ledOffTime: U16) returns (scheduled: Option<U16>)
      modifies this
      ensures (State(), scheduled) == Start(old(State()), times, ledOnTime, ledOffTime)
    {
      var interval: U16 := 0;
      this.times := times;
      scheduled := None;
      if !timerLedEvt {
        if oriSta {
          ledOn := false;
          sta := false;
          interval := ledOffTime;
        } else {
          ledOn := true;
          sta := true;
          interval := ledOnTime;
        }
        this.ledOnTime := ledOnTime;
        this.ledOffTime := ledOffTime;
        timerLedEvt := true;
        scheduled := Some(interval);
      }
    }

    /** `led_blink_stop`. */
    method LedBlinkStop()
      modifies this
      ensures State() == Stop(old(State()))
    {
      if timerLedEvt {
        timerLedEvt := false;
        times := 0;
        if oriSta {
          ledOn := true;
        } else {
          ledOn := false;
        }
      }
    }
  }
}
