// The ESP32's WiFi task: the soft access point is always up; the station
// connection to the router is enabled only with a sufficient configuration,
// retried a bounded number of times after each loss, then given up for a
// retry interval during which only the soft access point runs.
module Wifi {
  import opened Wrappers

  /** The WiFi modes the handler selects. */
  datatype Mode = ApOnly | ApAndSta

  /** The network interface made the default route. */
  datatype Netif = SoftAp | Station

  /** What the handlers ask of the WiFi driver and the retry timer. */
  datatype Request =
    | Connect
    | Disconnect
    | SetMode(mode: Mode)
    | SetStaConfig
    | SetDefault(netif: Netif)
    | StartTimer(microseconds: nat)
    | StopTimer

  /**
   * The events `wifi_event_handler` and the timer act on. A configuration
   * change carries the lengths the configuration store reports for the
   * router's SSID and password (the NVS length, terminator included).
   */
  datatype Event =
    | StaConnected
    | StaDisconnected
    | StaStart
    | StaStop
    | OtherEvent
    | ConfigChanged(ssidLength: nat, passwordLength: nat)
    | TimerExpired

  /** A Kconfig `int` value that is not negative. */
  type Int31 = x: int | 0 <= x < 0x8000_0000

  /** The Kconfig values `CS_WIFI_STA_MAXIMUM_RETRY` and `CS_WIFI_STA_RETRY_INTERVAL` (seconds). */
  datatype Settings = Settings(maximumRetry: int, retryInterval: Int31)

  const TwoTo32: int := 0x1_0000_0000
  const TwoTo64: int := 0x1_0000_0000_0000_0000

  /**
   * `CS_WIFI_STA_RETRY_INTERVAL * 1000 * 1000` as written: the product of
   * `int` operands, wrapped to 32 bits as the compiler does, then widened
   * with its sign into the `uint64_t interval`.
   */
  function IntervalAsWritten(seconds: Int31): nat
  {
    var p := (seconds * 1_000_000) % TwoTo32;
    var signed := if p >= TwoTo32 / 2 then p - TwoTo32 else p;
    if signed < 0 then signed + TwoTo64 else signed
  }

  /** The product as intended, in 64-bit arithmetic: the interval in microseconds, exact for every Kconfig value. */
  function Interval(seconds: Int31): (us: nat)
    ensures us < TwoTo64
  {
    seconds * 1_000_000
  }

  /**
   * As written the interval is right up to 2147 seconds; from 2148 to 4294
   * seconds the `int` product overflows and the timer is armed for more
   * than 2^63 microseconds, so the station is never retried.
   */
  lemma IntervalOverflows(seconds: Int31)
    ensures seconds <= 2147 ==> IntervalAsWritten(seconds) == Interval(seconds)
    ensures 2148 <= seconds <= 4294 ==>
      IntervalAsWritten(seconds) == Interval(seconds) + TwoTo64 - TwoTo32 && IntervalAsWritten(seconds) >= TwoTo64 / 2
  {
    var p := seconds * 1_000_000;
    if seconds <= 4294 {
      assert p < TwoTo32;
      assert p % TwoTo32 == p;
    }
  }

  /** `wifi_config_sta`'s verdict: both lengths must exceed 8. */
  predicate Sufficient(ssidLength: nat, passwordLength: nat)
  {
    ssidLength > 8 && passwordLength > 8
  }

  /** The requests `wifi_config_sta` makes: station mode and its configuration, only when sufficient. */
  function ConfigSta(ssidLength: nat, passwordLength: nat): (rs: seq<Request>)
    ensures rs != [] <==> ssidLength > 8 && passwordLength > 8
    ensures rs != [] ==> SetStaConfig in rs && LastMode(rs) == Some(ApAndSta)
  {
    if Sufficient(ssidLength, passwordLength) then [SetMode(ApAndSta), SetStaConfig] else []
  }

  /** The handler's retry counter and the requests it makes on one event. */
  function Step(cfg: Settings, retryNum: int, e: Event): (r: (int, seq<Request>))
    ensures r.0 == 0 || r.0 == retryNum || r.0 == retryNum + 1
    ensures r.0 != 0 && r.0 != retryNum ==> e == StaDisconnected && r.0 == retryNum + 1 && retryNum < cfg.maximumRetry
  {
    match e
    case StaConnected => (0, [SetDefault(Station)])
    case StaDisconnected =>
      if retryNum < cfg.maximumRetry then (retryNum + 1, [Disconnect, Connect])
      else (retryNum, [Disconnect, SetMode(ApOnly), SetDefault(SoftAp), StartTimer(Interval(cfg.retryInterval))])
    case StaStart => (retryNum, [Connect])
    case StaStop => (retryNum, [Disconnect])
    case OtherEvent => (retryNum, [])
    case ConfigChanged(s, p) =>
      var prefix := [StopTimer, Disconnect, SetMode(ApOnly)] + ConfigSta(s, p);
      if Sufficient(s, p) then (0, prefix + [SetMode(ApAndSta)]) else (retryNum, prefix)
    case TimerExpired => (0, [SetMode(ApAndSta)])
  }

  /** The last mode requested, if any. */
  function LastMode(rs: seq<Request>): Option<Mode>
  {
    if rs == [] then None
    else if rs[|rs| - 1].SetMode? then Some(rs[|rs| - 1].mode)
    else LastMode(rs[..|rs| - 1])
  }

  /** The counter stays between 0 and the maximum (when the maximum is not negative). */
  lemma StepBoundsRetries(cfg: Settings, retryNum: int, e: Event)
    requires 0 <= retryNum <= cfg.maximumRetry
    ensures 0 <= Step(cfg, retryNum, e).0 <= cfg.maximumRetry
  {
  }

  /**
   * A loss below the maximum retries and counts; at the maximum it gives
   * up on the router: AP only, the soft AP as default, and a one-shot
   * timer of the retry interval in microseconds.
   */
  lemma LossRetriesThenGivesUp(cfg: Settings, retryNum: int)
    ensures var (n, rs) := Step(cfg, retryNum, StaDisconnected);
      (retryNum < cfg.maximumRetry ==> n == retryNum + 1 && Connect in rs && LastMode(rs) == None)
      && (retryNum >= cfg.maximumRetry ==>
            n == retryNum && Connect !in rs && LastMode(rs) == Some(ApOnly)
            && StartTimer(cfg.retryInterval * 1_000_000) in rs)
  {
    var (n, rs) := Step(cfg, retryNum, StaDisconnected);
    if retryNum >= cfg.maximumRetry {
      var head := [Disconnect, SetMode(ApOnly), SetDefault(SoftAp)];
      assert rs == head + [StartTimer(cfg.retryInterval * 1_000_000)];
      assert rs[..|rs| - 1] == head;
      assert head[..|head| - 1] == [Disconnect, SetMode(ApOnly)];
    } else {
      assert rs[..1] == [Disconnect];
      assert rs[..1][..0] == [];
    }
  }

  /** A connection or the retry timer resets the counter, and the timer re-enables the station. */
  lemma RecoveryResets(cfg: Settings, retryNum: int)
    ensures Step(cfg, retryNum, StaConnected).0 == 0
    ensures Step(cfg, retryNum, TimerExpired) == (0, [SetMode(ApAndSta)])
  {
  }

  /**
   * A configuration change always stops the timer and drops to AP only;
   * the station is re-enabled, and the counter reset, exactly when the new
   * configuration is sufficient.
   */
  lemma ConfigChangeRestarts(cfg: Settings, retryNum: int, ssidLength: nat, passwordLength: nat)
    ensures var (n, rs) := Step(cfg, retryNum, ConfigChanged(ssidLength, passwordLength));
      rs[..3] == [StopTimer, Disconnect, SetMode(ApOnly)]
      && (LastMode(rs) == Some(ApAndSta) <==> Sufficient(ssidLength, passwordLength))
      && LastMode(rs) != None
      && (n == 0 || n == retryNum)
      && (Sufficient(ssidLength, passwordLength) ==> n == 0)
  {
    var (n, rs) := Step(cfg, retryNum, ConfigChanged(ssidLength, passwordLength));
    if !Sufficient(ssidLength, passwordLength) {
      assert rs == [StopTimer, Disconnect, SetMode(ApOnly)];
    }
  }

  /** The WiFi task's retry counter `s_retry_num` and the requests made so far. */
  class WifiTask {
    const cfg: Settings
    var retryNum: int
    var requests: seq<Request>

    constructor (cfg: Settings)
      ensures this.cfg == cfg && retryNum == 0 && requests == []
    {
      this.cfg := cfg;
      retryNum := 0;
      requests := [];
    }

    /** `wifi_config_sta` on the lengths read: whether the station configuration was applied. */
    method WifiConfigSta(ssidLength: nat, passwordLength: nat) returns (rc: bool)
      modifies this
      ensures rc == Sufficient(ssidLength, passwordLength)
      ensures retryNum == old(retryNum) && requests == old(requests) + ConfigSta(ssidLength, passwordLength)
    {
      rc := true;
      rc := if ssidLength > 8 then rc else false;
      rc := if passwordLength > 8 then rc else false;
      if rc {
        requests := requests + [SetMode(ApAndSta), SetStaConfig];
      }
    }

    /** `wifi_event_handler` and `esp_netif_timer_cb`. */
    method Handle(e: Event)
      modifies this
      ensures retryNum == Step(cfg, old(retryNum), e).0
      ensures requests == old(requests) + Step(cfg, old(retryNum), e).1
    {
      match e {
        case StaConnected =>
          retryNum := 0;
          requests := requests + [SetDefault(Station)];
        case StaDisconnected =>
          if retryNum < cfg.maximumRetry {
            requests := requests + [Disconnect, Connect];
            retryNum := retryNum + 1;
          } else {
            var interval := cfg.retryInterval * 1000 * 1000;
            assert interval == Interval(cfg.retryInterval);
            requests := requests + [Disconnect, SetMode(ApOnly), SetDefault(SoftAp), StartTimer(interval)];
          }
        case StaStart =>
          requests := requests + [Connect];
        case StaStop =>
          requests := requests + [Disconnect];
        case OtherEvent =>
          assert requests + [] == requests;
        case ConfigChanged(s, p) =>
          requests := requests + [StopTimer, Disconnect, SetMode(ApOnly)];
          var ok := WifiConfigSta(s, p);
          if ok {
            retryNum := 0;
            requests := requests + [SetMode(ApAndSta)];
          }
        case TimerExpired =>
          retryNum := 0;
          requests := requests + [SetMode(ApAndSta)];
      }
    }
  }
}
