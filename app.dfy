// The ESP32 application task's key handling: the clear key's press time is
// remembered, and on release the time it was held decides whether the
// ZigBee radio is factory reset; a factory-reset application event erases
// the configuration and restarts.
module App {

  /** `FIRST_JAN_2023`: a hold longer than this means the clock was set while the key was down. */
  const FirstJan2023: nat := 1672531200
  /** `FACTORY_RESET_PRESS`, in seconds. */
  const FactoryResetPress: nat := 10
  /** `ZIGBEE_RESET_PRESS`, in seconds. */
  const ZigbeeResetPress: nat := 4

  /** The 64-bit unsigned value a signed `time_t` difference takes when compared with the `uint64_t` constants. */
  function AsUnsigned64(x: int): (r: nat)
    ensures 0 <= x < 0x1_0000_0000_0000_0000 ==> r == x
    ensures -0x1_0000_0000_0000_0000 <= x < 0 ==> r == x + 0x1_0000_0000_0000_0000
  {
    x % 0x1_0000_0000_0000_0000
  }

  /** A `time_t` value: 64-bit signed. */
  predicate IsTime(x: int)
  {
    -0x8000_0000_0000_0000 <= x < 0x8000_0000_0000_0000
  }

  /** What a release does, by how long the key was held. */
  datatype Release =
    | ClockChanged        // held "longer" than since 2023 began: ignored
    | FullFactoryReset    // over 10 s
    | ZigbeeOnlyReset     // over 4 s, up to 10 s
    | ShortPress          // 4 s or less: ignored

  /** The branches of `key_action` on release, checked in the source's order. */
  function Classify(heldFor: int): (r: Release)
    ensures IsTime(heldFor) && heldFor < 0 ==> r == ClockChanged
    ensures 0 <= heldFor <= ZigbeeResetPress ==> r == ShortPress
    ensures ZigbeeResetPress < heldFor <= FactoryResetPress ==> r == ZigbeeOnlyReset
    ensures FactoryResetPress < heldFor <= FirstJan2023 ==> r == FullFactoryReset
  {
    var held := AsUnsigned64(heldFor);
    if held > FirstJan2023 then ClockChanged
    else if held > FactoryResetPress then FullFactoryReset
    else if held > ZigbeeResetPress then ZigbeeOnlyReset
    else ShortPress
  }

  /** What the application task asks of the rest of the system. */
  datatype Request = PostZigbeeFactoryReset | EraseConfig | Restart

  /** The events a release posts: both reset branches post the same ZigBee factory-reset event, and nothing else. */
  function Posted(r: Release): seq<Request>
  {
    match r
    case FullFactoryReset => [PostZigbeeFactoryReset]
    case ZigbeeOnlyReset => [PostZigbeeFactoryReset]
    case _ => []
  }

  /**
   * A hold of more than 4 s and at most `FIRST_JAN_2023` s resets the radio;
   * a shorter one does nothing; a negative one (the clock went back while
   * the key was down) is taken as a clock change and ignored.
   */
  lemma HoldDecides(heldFor: int)
    requires IsTime(heldFor)
    ensures Posted(Classify(heldFor)) == [PostZigbeeFactoryReset] <==> ZigbeeResetPress < heldFor <= FirstJan2023
    ensures Posted(Classify(heldFor)) == [] <==> (heldFor <= ZigbeeResetPress && heldFor >= 0) || heldFor > FirstJan2023 || heldFor < 0
    ensures heldFor < 0 ==> Classify(heldFor) == ClockChanged
  {
  }

  /** As written the "full" factory reset posts exactly what the ZigBee-only reset does: the ESP32 itself is not reset. */
  lemma FullResetIsZigbeeReset(heldFor: int)
    requires FactoryResetPress < heldFor <= FirstJan2023
    ensures Classify(heldFor) == FullFactoryReset
    ensures Posted(Classify(heldFor)) == Posted(ZigbeeOnlyReset)
  {
  }

  /** The application task: the press time, a static of `key_action`, and the requests made so far. */
  class AppTask {
    var pressed: int
    var requests: seq<Request>

    constructor ()
      ensures pressed == 0 && requests == []
    {
      pressed := 0;
      requests := [];
    }

    /**
     * `key_action`: the key line low is a press and records the time; high
     * is a release and acts on how long the key was held.
     */
    method KeyAction(level: bool, now: int)
      modifies this
      ensures !level ==> pressed == now && requests == old(requests)
      ensures level ==> pressed == old(pressed) && requests == old(requests) + Posted(Classify(now - old(pressed)))
    {
      if level {
        var heldFor := now - pressed;
        var held := AsUnsigned64(heldFor);
        if held > FirstJan2023 {
        } else if held > FactoryResetPress {
          requests := requests + [PostZigbeeFactoryReset];
        } else if held > ZigbeeResetPress {
          requests := requests + [PostZigbeeFactoryReset];
        }
      } else {
        pressed := now;
      }
    }

    /** `CS_APP_EVENT_FACTORY_RESET`: the configuration is erased, then the chip restarts. */
    method FactoryReset()
      modifies this
      ensures pressed == old(pressed) && requests == old(requests) + [EraseConfig, Restart]
    {
      requests := requests + [EraseConfig, Restart];
    }
  }
}
