// The ESP32's status LED: a four-bit status word kept up to date from
// WiFi, MQTT and ZigBee events, the mapping from that word to solid, off or
// a number of flashes per cycle, and the half-second tick that produces
// the flashes.
module Flash {

  // ------------------------------------------------------------ status bits

  const SoftApStarted: bv8 := 0x01
  const ApConnected: bv8 := 0x02
  const MqttConnected: bv8 := 0x04
  const ZigbeeConnected: bv8 := 0x08

  const AllZigbeeActive: bv8 := 0x0F
  const AllMqttActive: bv8 := 0x07
  const AllWifiApActive: bv8 := 0x03
  const AllWifiSoftApActive: bv8 := 0x01

  /** `FLASH_TIME_PERIOD`: the tick, half a second in microseconds. */
  const FlashTimePeriod: nat := 1000 * 500

  /** The events `event_handler` receives. */
  datatype Event =
    | ApStart | ApStop | StaConnected | StaDisconnected
    | MqttUp | MqttDown | ZigbeeUp | ZigbeeDown
    | FlashTimer
    | Unexpected

  /** A status bit and whether it is set or cleared. */
  datatype Change = Change(bit: bv8, on: bool)

  /** The status bit an event sets or clears, and whether it sets it; the other events touch no bit. */
  function BitOf(e: Event): Change
  {
    match e
    case ApStart => Change(SoftApStarted, true)
    case ApStop => Change(SoftApStarted, false)
    case StaConnected => Change(ApConnected, true)
    case StaDisconnected => Change(ApConnected, false)
    case MqttUp => Change(MqttConnected, true)
    case MqttDown => Change(MqttConnected, false)
    case ZigbeeUp => Change(ZigbeeConnected, true)
    case ZigbeeDown => Change(ZigbeeConnected, false)
    case _ => Change(0, false)
  }

  /** The switch in `event_handler`: `status |= bit` or `status &= ~bit`; other events leave the status alone. */
  function UpdateStatus(status: bv8, e: Event): (r: bv8)
    ensures r & 0xF0 == status & 0xF0
    ensures e.FlashTimer? || e.Unexpected? ==> r == status
  {
    match e
    case ApStart => status | SoftApStarted
    case ApStop => status & !SoftApStarted
    case StaConnected => status | ApConnected
    case StaDisconnected => status & !ApConnected
    case MqttUp => status | MqttConnected
    case MqttDown => status & !MqttConnected
    case ZigbeeUp => status | ZigbeeConnected
    case ZigbeeDown => status & !ZigbeeConnected
    case _ => status
  }

  /** An event sets or clears exactly its own bit and leaves every other bit as it was. */
  lemma OneBitChanges(status: bv8, e: Event)
    ensures UpdateStatus(status, e) & !BitOf(e).bit == status & !BitOf(e).bit
    ensures UpdateStatus(status, e) & BitOf(e).bit == if BitOf(e).on then BitOf(e).bit else 0
  {
    var c := BitOf(e);
    UpdateSetsOrClears(status, e);
    SetOrClearKeepsOthers(status, c.bit, c.on);
  }

  /** `status |= bit` when `on`, `status &= ~bit` otherwise. */
  function SetOrClear(status: bv8, bit: bv8, on: bool): bv8
  {
    if on then status | bit else status & !bit
  }

  lemma UpdateSetsOrClears(status: bv8, e: Event)
    ensures UpdateStatus(status, e) == SetOrClear(status, BitOf(e).bit, BitOf(e).on)
  {
    match e
    case ApStart =>
    case ApStop =>
    case StaConnected =>
    case StaDisconnected =>
    case MqttUp =>
    case MqttDown =>
    case ZigbeeUp =>
    case ZigbeeDown =>
    case FlashTimer =>
    case Unexpected =>
  }

  lemma SetOrClearKeepsOthers(status: bv8, bit: bv8, on: bool)
    ensures SetOrClear(status, bit, on) & !bit == status & !bit
    ensures SetOrClear(status, bit, on) & bit == if on then bit else 0
  {
  }

  // --------------------------------------------------------- what is shown

  /** What the LED shows. */
  datatype Display = Solid | Flashing(flashes: int) | Dark

  /** `update_flash_status`: the masks are checked from all four bits down to the soft-AP bit alone. */
  function DisplayOf(status: bv8): (d: Display)
    ensures d.Flashing? ==> 1 <= d.flashes <= 3
    ensures status & 0x01 == 0 ==> d == Dark
  {
    if status & AllZigbeeActive == AllZigbeeActive then Solid
    else if status & AllMqttActive == AllMqttActive then Flashing(3)
    else if status & AllWifiApActive == AllWifiApActive then Flashing(2)
    else if status & AllWifiSoftApActive == AllWifiSoftApActive then Flashing(1)
    else Dark
  }

  /**
   * The LED counts how far the chain soft AP, router, IoT hub, ZigBee is
   * up from its start: a flash per link up to the hub, solid when ZigBee is
   * up too, dark without the soft AP whatever else is up.
   */
  lemma DisplayCountsLinks(status: bv8)
    ensures DisplayOf(status) == Solid <==> status & 0x0F == 0x0F
    ensures DisplayOf(status) == Flashing(3) <==> status & 0x0F == 0x07
    ensures DisplayOf(status) == Flashing(2) <==> status & 0x07 == 0x03
    ensures DisplayOf(status) == Flashing(1) <==> status & 0x03 == 0x01
    ensures DisplayOf(status) == Dark <==> status & 0x01 == 0
  {
  }

  // ------------------------------------------------------------ the tick

  /** The statics of `flash_timer_action`. */
  datatype Ticker = Ticker(count: int, lit: bool)

  /** What a tick does to the LED. */
  datatype Led = TurnOn | TurnOff | Leave

  /**
   * `flash_timer_action` with `flashes_per_cycle` equal to `flashes`: from
   * lit the LED goes off; from unlit it comes on while the count is not
   * zero, and the count is reloaded once it passes zero. `lit` toggles
   * every tick.
   */
  function Tick(t: Ticker, flashes: int): (r: (Ticker, Led))
    ensures r.0.lit == !t.lit
    ensures t.lit ==> r == (t.(lit := false), TurnOff)
    ensures r.1 == TurnOn <==> !t.lit && t.count != 0
  {
    if t.lit then (t.(lit := false), TurnOff)
    else
      var led := if t.count != 0 then TurnOn else Leave;
      var count := if t.count - 1 <= -1 then flashes else t.count - 1;
      (Ticker(count, true), led)
  }

  /** The LED level after a tick's action. */
  function Apply(on: bool, led: Led): bool
  {
    match led
    case TurnOn => true
    case TurnOff => false
    case Leave => on
  }

  /** `n` ticks with the same flash count: the ticker after them and what each did. */
  function Ticks(t: Ticker, flashes: int, n: nat): (Ticker, seq<Led>)
    decreases n
  {
    if n == 0 then (t, [])
    else
      var step := Tick(t, flashes);
      var rest := Ticks(step.0, flashes, n - 1);
      (rest.0, [step.1] + rest.1)
  }

  /** `k` pairs (on, off) followed by the pair (nothing, off). */
  function Cycle(k: nat): seq<Led>
  {
    if k == 0 then [Leave, TurnOff] else [TurnOn, TurnOff] + Cycle(k - 1)
  }

  /** Ticks compose: `m + n` ticks are `m` ticks then `n`. */
  lemma {:induction false} TicksSplit(t: Ticker, flashes: int, m: nat, n: nat)
    ensures Ticks(t, flashes, m + n).0 == Ticks(Ticks(t, flashes, m).0, flashes, n).0
    ensures Ticks(t, flashes, m + n).1 == Ticks(t, flashes, m).1 + Ticks(Ticks(t, flashes, m).0, flashes, n).1
    decreases m
  {
    if m > 0 {
      TicksSplit(Tick(t, flashes).0, flashes, m - 1, n);
    }
  }

  /** Two ticks, spelled out. */
  lemma TwoTicks(t: Ticker, flashes: int)
    ensures Ticks(t, flashes, 2) == (Tick(Tick(t, flashes).0, flashes).0, [Tick(t, flashes).1, Tick(Tick(t, flashes).0, flashes).1])
  {
    var t1 := Tick(t, flashes).0;
    var t2 := Tick(t1, flashes).0;
    var l1, l2 := Tick(t, flashes).1, Tick(t1, flashes).1;
    assert Ticks(t2, flashes, 0) == (t2, []);
    assert [l2] + [] == [l2];
    assert Ticks(t1, flashes, 1) == (t2, [l2]);
    assert [l1] + [l2] == [l1, l2];
  }

  /** From an unlit ticker with `k` flashes left, the rest of the cycle is `Cycle(k)` and ends reloaded. */
  lemma {:induction false} CycleFrom(k: nat, flashes: int)
    ensures Ticks(Ticker(k, false), flashes, 2 * k + 2) == (Ticker(flashes, false), Cycle(k))
    decreases k
  {
    var t := Ticker(k, false);
    TwoTicks(t, flashes);
    TicksSplit(t, flashes, 2, 2 * k);
    if k == 0 {
      assert Ticks(t, flashes, 2) == (Ticker(flashes, false), [Leave, TurnOff]);
    } else {
      assert Ticks(t, flashes, 2) == (Ticker(k - 1, false), [TurnOn, TurnOff]);
      CycleFrom(k - 1, flashes);
    }
  }

  /**
   * With `n` flashes per cycle the LED repeats, every `2n + 2` ticks, `n`
   * times (on, off) and then (off, off).
   */
  lemma CycleRepeats(flashes: nat)
    ensures Ticks(Ticker(flashes, false), flashes, 2 * flashes + 2) == (Ticker(flashes, false), Cycle(flashes))
  {
    CycleFrom(flashes, flashes);
  }

  /** From the statics' initial values the first two ticks leave the LED dark and load the count. */
  lemma FirstCycleStarts(flashes: int)
    ensures Ticks(Ticker(0, false), flashes, 2) == (Ticker(flashes, false), [Leave, TurnOff])
  {
    TwoTicks(Ticker(0, false), flashes);
  }

  // ------------------------------------------------------- registration

  /** The handler registrations of `cs_flash_task` as written, or with the flash event base registered too. */
  datatype Build = AsWritten | Corrected

  /**
   * Whether an event reaches `event_handler`: it is registered for the
   * WiFi, MQTT and ZigBee bases, and (corrected only) for the flash base
   * that the timer callback posts to.
   */
  predicate Registered(build: Build, e: Event)
  {
    build == Corrected || !e.FlashTimer?
  }

  /**
   * As written every status event is delivered but the timer's tick is
   * not, so the LED never flashes: a display that calls for flashes
   * leaves the LED as it was. Corrected, every event is delivered.
   */
  lemma TimerTickDropped(e: Event)
    ensures Registered(AsWritten, e) <==> !e.FlashTimer?
    ensures Registered(Corrected, e)
  {
  }

  /** The LED task's state: the status word, the flash statics and what the LED and the timer are doing. */
  class FlashTask {
    var status: bv8
    var flashesPerCycle: int
    var ticker: Ticker
    var ledOn: bool
    var timerActive: bool

    constructor ()
      ensures status == 0 && flashesPerCycle == 0 && ticker == Ticker(0, false) && !ledOn && !timerActive
    {
      status := 0;
      flashesPerCycle := 0;
      ticker := Ticker(0, false);
      ledOn := false;
      timerActive := false;
    }

    /** `led_flash`: the count is always replaced; the periodic timer is started only if not already running. */
    method LedFlash(flashes: int)
      modifies this
      ensures flashesPerCycle == flashes && timerActive
      ensures status == old(status) && ticker == old(ticker) && ledOn == old(ledOn)
    {
      flashesPerCycle := flashes;
      if !timerActive {
        timerActive := true;
      }
    }

    /** `flash_timer_action`. */
    method TimerAction()
      modifies this
      ensures ticker == Tick(old(ticker), flashesPerCycle).0
      ensures ledOn == Apply(old(ledOn), Tick(old(ticker), flashesPerCycle).1)
      ensures status == old(status) && flashesPerCycle == old(flashesPerCycle) && timerActive == old(timerActive)
    {
      var (t, led) := Tick(ticker, flashesPerCycle);
      ticker := t;
      if led == TurnOn {
        ledOn := true;
      } else if led == TurnOff {
        ledOn := false;
      }
    }

    /** `update_flash_status`: the LED and timer are set from the status word. */
    method UpdateFlashStatus()
      modifies this
      ensures status == old(status) && ticker == old(ticker)
      ensures Shows(DisplayOf(status))
      ensures DisplayOf(status).Flashing? ==> ledOn == old(ledOn)
    {
      var d := DisplayOf(status);
      if d == Solid {
        timerActive := false;
        ledOn := true;
      } else if d.Flashing? {
        LedFlash(d.flashes);
      } else {
        timerActive := false;
        ledOn := false;
      }
    }

    /** The LED and the timer agree with what the status calls for. */
    ghost predicate Shows(d: Display)
      reads this
    {
      match d
      case Solid => ledOn && !timerActive
      case Dark => !ledOn && !timerActive
      case Flashing(n) => timerActive && flashesPerCycle == n
    }

    /** The `status |=` or `status &= ~` of one event. */
    method SetStatusBit(e: Event)
      modifies this
      ensures status == UpdateStatus(old(status), e)
      ensures ticker == old(ticker) && flashesPerCycle == old(flashesPerCycle)
      ensures ledOn == old(ledOn) && timerActive == old(timerActive)
    {
      match e {
        case ApStart => status := status | SoftApStarted;
        case ApStop => status := status & !SoftApStarted;
        case StaConnected => status := status | ApConnected;
        case StaDisconnected => status := status & !ApConnected;
        case MqttUp => status := status | MqttConnected;
        case MqttDown => status := status & !MqttConnected;
        case ZigbeeUp => status := status | ZigbeeConnected;
        case ZigbeeDown => status := status & !ZigbeeConnected;
        case _ =>
      }
    }

    /** `event_handler`: the event's bit is updated (or the tick run), and the display always refreshed. */
    method Handle(e: Event)
      modifies this
      ensures status == UpdateStatus(old(status), e)
      ensures Shows(DisplayOf(status))
      ensures e.FlashTimer? ==> ticker == Tick(old(ticker), old(flashesPerCycle)).0
      ensures !e.FlashTimer? ==> ticker == old(ticker)
      ensures e.FlashTimer? && DisplayOf(status).Flashing? ==> ledOn == Apply(old(ledOn), Tick(old(ticker), old(flashesPerCycle)).1)
      ensures !e.FlashTimer? && DisplayOf(status).Flashing? ==> ledOn == old(ledOn)
    {
      if e.FlashTimer? {
        TimerAction();
      } else {
        SetStatusBit(e);
      }
      UpdateFlashStatus();
    }

    /**
     * The flash event loop: an event whose base is registered runs the
     * handler; any other is dropped and nothing changes.
     */
    method Dispatch(build: Build, e: Event)
      modifies this
      ensures Registered(build, e) ==> status == UpdateStatus(old(status), e) && Shows(DisplayOf(status))
      ensures Registered(build, e) && e.FlashTimer? ==> ticker == Tick(old(ticker), old(flashesPerCycle)).0
      ensures Registered(build, e) && !e.FlashTimer? ==> ticker == old(ticker)
      ensures Registered(build, e) && e.FlashTimer? && DisplayOf(status).Flashing?
        ==> ledOn == Apply(old(ledOn), Tick(old(ticker), old(flashesPerCycle)).1)
      ensures Registered(build, e) && !e.FlashTimer? && DisplayOf(status).Flashing? ==> ledOn == old(ledOn)
      ensures !Registered(build, e) ==> unchanged(this)
    {
      if Registered(build, e) {
        Handle(e);
      }
    }
  }
}
