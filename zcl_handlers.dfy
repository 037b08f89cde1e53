// The Telink ZCL command handlers that keep state: the identify countdown
// and its LED requests (identical in the CloudSMETS and ESME builds), the
// identify-query response, and the ESME's get-current-price request, which
// schedules one publish-price reply to the requester.
module ZclHandlers {
  import opened Wrappers
  import opened Bytes

  // --------------------------------------------------------------- identify

  /** The LED requests the handlers make (`light_blink_start`, `light_blink_stop`). */
  datatype LedRequest = BlinkStart(times: nat, onMs: nat, offMs: nat) | BlinkStop

  /** `g_zcl_identifyAttrs.identifyTime` and whether `identifyTimerEvt` is set. */
  datatype IdentifyState = IdentifyState(identifyTime: U16, timerActive: bool)

  /** The identify timer's period in milliseconds. */
  const IdentifyPeriod: nat := 1000

  /**
   * `*_zclIdentifyTimerCb`: at zero the event handle is cleared and -1 stops
   * the timer; otherwise the time counts down and 0 keeps the timer going.
   */
  function IdentifyTick(s: IdentifyState): (IdentifyState, int)
  {
    if s.identifyTime <= 0 then (s.(timerActive := false), -1)
    else (s.(identifyTime := s.identifyTime - 1), 0)
  }

  /** `n` ticks: the state after them and what each returned. */
  function IdentifyTicks(s: IdentifyState, n: nat): (IdentifyState, seq<int>)
    decreases n
  {
    if n == 0 then (s, [])
    else
      var step := IdentifyTick(s);
      var rest := IdentifyTicks(step.0, n - 1);
      (rest.0, [step.1] + rest.1)
  }

  /**
   * `*_zclIdentifyCmdHandler`: the time is always stored; zero stops the
   * timer and the blinking; any other time starts a blink of that many
   * flashes and the timer, but only when no timer is running.
   */
  function IdentifyCmd(s: IdentifyState, identifyTime: U16): (r: (IdentifyState, seq<LedRequest>))
    ensures r.0.identifyTime == identifyTime && (r.0.timerActive <==> identifyTime != 0)
    ensures (identifyTime == 0 ==> r.1 == [BlinkStop]) && (identifyTime != 0 ==> BlinkStop !in r.1)
  {
    if identifyTime == 0 then (IdentifyState(0, false), [BlinkStop])
    else if !s.timerActive then (IdentifyState(identifyTime, true), [BlinkStart(identifyTime, 500, 500)])
    else (IdentifyState(identifyTime, true), [])
  }

  /**
   * A running identify of `t` seconds ticks `t` times with 0 and stops on
   * the next tick with -1, its time at zero and its handle cleared.
   */
  lemma {:induction false} IdentifyCountsDown(t: U16)
    ensures IdentifyTicks(IdentifyState(t, true), t + 1) == (IdentifyState(0, false), seq(t, _ => 0) + [-1])
    decreases t
  {
    if t == 0 {
      assert IdentifyTicks(IdentifyState(0, false), 0) == (IdentifyState(0, false), []);
      assert [-1] + [] == seq(0, _ => 0) + [-1];
    } else {
      IdentifyCountsDown(t - 1);
      assert [0] + (seq(t - 1, _ => 0) + [-1]) == seq(t, _ => 0) + [-1];
    }
  }

  /**
   * The command's outcomes: the stored time is the command's; the timer
   * runs exactly when the time is not zero; a blink is started exactly when
   * the time is not zero and no timer was running: a repeated identify
   * only changes the time.
   */
  lemma IdentifyCmdOutcome(s: IdentifyState, t: U16)
    ensures var (s', rs) := IdentifyCmd(s, t);
      s'.identifyTime == t
      && (s'.timerActive <==> t != 0)
      && (rs == [BlinkStop] <==> t == 0)
      && (rs == [BlinkStart(t, 500, 500)] <==> t != 0 && !s.timerActive)
      && (t != 0 && s.timerActive ==> rs == [])
  {
  }

  /** The identify effects of the ZigBee Cluster Library the trigger-effect handler knows. */
  datatype Effect = Blink | Breathe | Okay | ChannelChange | FinishEffect | StopEffect | OtherEffect

  /** `*_zcltriggerCmdHandler`: each effect is a blink of its own count and on/off times; stop stops. */
  function TriggerEffect(e: Effect): seq<LedRequest>
  {
    match e
    case Blink => [BlinkStart(1, 500, 500)]
    case Breathe => [BlinkStart(15, 300, 700)]
    case Okay => [BlinkStart(2, 250, 250)]
    case ChannelChange => [BlinkStart(1, 500, 7500)]
    case FinishEffect => [BlinkStart(1, 300, 700)]
    case StopEffect => [BlinkStop]
    case OtherEffect => []
  }

  /**
   * Every effect but stop and an unknown one starts exactly one blink of at
   * least one flash lasting at least half a second per flash, and makes no
   * other request; the trigger never touches the identify timer.
   */
  lemma TriggerEffectBlinks(e: Effect)
    ensures e != StopEffect && e != OtherEffect <==> |TriggerEffect(e)| == 1 && TriggerEffect(e)[0].BlinkStart?
    ensures forall r | r in TriggerEffect(e) && r.BlinkStart? :: r.times >= 1 && r.onMs + r.offMs >= 500
    ensures e == StopEffect <==> TriggerEffect(e) == [BlinkStop]
  {
  }

  /** The identify-query response: source address, endpoints, sequence number and the remaining timeout. */
  function IdentifyQueryRsp(srcAddr: U16, srcEp: Byte, dstEp: Byte, seqNum: Byte, timeout: U16): (b: seq<Byte>)
    ensures |b| == 7
  {
    [Hi(srcAddr), Lo(srcAddr), srcEp, dstEp, seqNum, Hi(timeout), Lo(timeout)]
  }

  /** The two 16-bit fields read back big-endian from their places. */
  lemma IdentifyQueryRspFields(srcAddr: U16, srcEp: Byte, dstEp: Byte, seqNum: Byte, timeout: U16)
    ensures var b := IdentifyQueryRsp(srcAddr, srcEp, dstEp, seqNum, timeout);
      BigEndian(b[0..2]) == srcAddr && b[2] == srcEp && b[3] == dstEp && b[4] == seqNum
      && BigEndian(b[5..7]) == timeout
  {
    var b := IdentifyQueryRsp(srcAddr, srcEp, dstEp, seqNum, timeout);
    HiLoValue(srcAddr);
    HiLoValue(timeout);
    assert b[0..2] == [Hi(srcAddr), Lo(srcAddr)];
    assert b[5..7] == [Hi(timeout), Lo(timeout)];
  }

  lemma HiLoValue(x: U16)
    ensures BigEndian([Hi(x), Lo(x)]) == x
  {
    assert [Hi(x), Lo(x)][..1] == [Hi(x)];
    assert [Hi(x)][..0] == [];
  }

  /** The commands of the identify cluster the callback dispatches. */
  datatype IdentifyCommand =
    | Identify(identifyTime: U16)
    | Trigger(effect: Effect)
    | QueryRsp(timeout: U16)
    | OtherCommand

  /** The addressing of an incoming identify-cluster command. */
  datatype Incoming = Incoming(srcAddr: U16, srcEp: Byte, dstEp: Byte, seqNum: Byte, clientToServer: bool)

  /** The identify cluster's state of one build: its endpoint, the countdown and what has been asked of the LED and the host. */
  class IdentifyServer {
    const endpoint: Byte
    var identifyTime: U16
    var timerActive: bool
    var led: seq<LedRequest>
    var sent: seq<seq<Byte>>

    ghost function State(): IdentifyState
      reads this
    {
      IdentifyState(identifyTime, timerActive)
    }

    constructor (endpoint: Byte)
      ensures this.endpoint == endpoint && State() == IdentifyState(0, false) && led == [] && sent == []
    {
      this.endpoint := endpoint;
      identifyTime := 0;
      timerActive := false;
      led := [];
      sent := [];
    }

    /** The timer callback. */
    method TimerCb() returns (r: int)
      modifies this
      ensures (State(), r) == IdentifyTick(old(State()))
      ensures led == old(led) && sent == old(sent)
    {
      if identifyTime <= 0 {
        timerActive := false;
        return -1;
      }
      identifyTime := identifyTime - 1;
      return 0;
    }

    /** `*_zclIdentifyTimerStop`: the timer is cancelled if it is running. */
    method TimerStop()
      modifies this
      ensures identifyTime == old(identifyTime) && !timerActive && led == old(led) && sent == old(sent)
    {
      if timerActive {
        timerActive := false;
      }
    }

    /** The identify command handler. */
    method IdentifyCmdHandler(t: U16)
      modifies this
      ensures State() == IdentifyCmd(old(State()), t).0
      ensures led == old(led) + IdentifyCmd(old(State()), t).1 && sent == old(sent)
    {
      identifyTime := t;
      if t == 0 {
        TimerStop();
        led := led + [BlinkStop];
      } else {
        if !timerActive {
          led := led + [BlinkStart(t, 500, 500)];
          timerActive := true;
        } else {
          assert led == led + [];
        }
      }
    }

    /** The trigger-effect handler. */
    method TriggerCmdHandler(e: Effect)
      modifies this
      ensures led == old(led) + TriggerEffect(e)
      ensures State() == old(State()) && sent == old(sent)
    {
      match e {
        case Blink => led := led + [BlinkStart(1, 500, 500)];
        case Breathe => led := led + [BlinkStart(15, 300, 700)];
        case Okay => led := led + [BlinkStart(2, 250, 250)];
        case ChannelChange => led := led + [BlinkStart(1, 500, 7500)];
        case FinishEffect => led := led + [BlinkStart(1, 300, 700)];
        case StopEffect => led := led + [BlinkStop];
        case OtherEffect => assert led == led + [];
      }
    }

    /** The identify-query response handler: the 7 bytes written into an 8-byte array are sent. */
    method QueryRspCmdHandler(a: Incoming, timeout: U16)
      modifies this
      ensures sent == old(sent) + [IdentifyQueryRsp(a.srcAddr, a.srcEp, a.dstEp, a.seqNum, timeout)]
      ensures State() == old(State()) && led == old(led)
    {
      var buf := new Byte[8](_ => 0);
      buf[0], buf[1], buf[2], buf[3] := Hi(a.srcAddr), Lo(a.srcAddr), a.srcEp, a.dstEp;
      buf[4], buf[5], buf[6] := a.seqNum, Hi(timeout), Lo(timeout);
      assert buf[..7] == IdentifyQueryRsp(a.srcAddr, a.srcEp, a.dstEp, a.seqNum, timeout);
      sent := sent + [buf[..7]];
    }

    /**
     * `*_identifyCb`: only commands for this endpoint are handled; from a
     * client, identify and trigger effect; from a server, the query response.
     */
    method IdentifyCb(a: Incoming, cmd: IdentifyCommand)
      modifies this
      ensures a.dstEp != endpoint ==> State() == old(State()) && led == old(led) && sent == old(sent)
      ensures a.dstEp == endpoint && a.clientToServer && cmd.Identify? ==>
        State() == IdentifyCmd(old(State()), cmd.identifyTime).0
        && led == old(led) + IdentifyCmd(old(State()), cmd.identifyTime).1 && sent == old(sent)
      ensures a.dstEp == endpoint && a.clientToServer && cmd.Trigger? ==>
        State() == old(State()) && led == old(led) + TriggerEffect(cmd.effect) && sent == old(sent)
      ensures a.dstEp == endpoint && !a.clientToServer && cmd.QueryRsp? ==>
        State() == old(State()) && led == old(led)
        && sent == old(sent) + [IdentifyQueryRsp(a.srcAddr, a.srcEp, a.dstEp, a.seqNum, cmd.timeout)]
      ensures (a.clientToServer && (cmd.QueryRsp? || cmd.OtherCommand?)) || (!a.clientToServer && !cmd.QueryRsp?) ==>
        State() == old(State()) && led == old(led) && sent == old(sent)
    {
      if a.dstEp == endpoint {
        if a.clientToServer {
          match cmd {
            case Identify(t) => IdentifyCmdHandler(t);
            case Trigger(e) => TriggerCmdHandler(e);
            case _ =>
          }
        } else if cmd.QueryRsp? {
          QueryRspCmdHandler(a, cmd.timeout);
        }
      }
    }
  }

  // ------------------------------------------------------------- ESME price

  /** The static `dstEp` the reply is addressed with; `ack` and `security` are the two transmit options set. */
  datatype EpInfo = EpInfo(shortAddrWithEp: bool, shortAddr: U16, dstEp: Byte, profileId: U16, ack: bool, security: bool)

  /** What a get-current-price request tells the handler: where it came from and whether it was APS-secured. */
  datatype PriceRequest = PriceRequest(srcAddr: U16, srcEp: Byte, profileId: U16, apsSec: bool)

  /** Whether `pricePublishPriceTimerEvt` is set, and the static destination. */
  datatype PriceState = PriceState(pending: bool, dst: EpInfo)

  /** The delay before the reply is published, in milliseconds. */
  const PublishDelay: nat := 100

  /**
   * `esme_zclGetCurrentPriceCmdHandler` as written: with no publish pending,
   * the destination becomes the requester with the acknowledge option, and
   * the security option is OR-ed in when the request was secured; the
   * options are never cleared.
   */
  function GetCurrentPrice(s: PriceState, req: PriceRequest): (r: PriceState)
    ensures r.pending && (s.pending ==> r == s)
    ensures s.dst.security ==> r.dst.security
  {
    if s.pending then s
    else PriceState(true, EpInfo(true, req.srcAddr, req.srcEp, req.profileId, true, s.dst.security || req.apsSec))
  }

  /** The corrected handler: the options are those of this request alone. */
  function GetCurrentPriceCorrected(s: PriceState, req: PriceRequest): PriceState
  {
    if s.pending then s
    else PriceState(true, EpInfo(true, req.srcAddr, req.srcEp, req.profileId, true, req.apsSec))
  }

  /** `esme_zclPublishPriceTimerCb`: one publish to the destination, the handle cleared, -1 to stop. */
  function PublishTimer(s: PriceState): (PriceState, EpInfo, int)
  {
    (s.(pending := false), s.dst, -1)
  }

  /**
   * A request while none is pending schedules one reply to the requester's
   * short address, endpoint and profile, acknowledged; a request while one
   * is pending changes nothing; the timer then sends exactly one reply and
   * leaves nothing pending.
   */
  lemma PriceReplyRouting(s: PriceState, req: PriceRequest)
    ensures var s' := GetCurrentPrice(s, req);
      s'.pending
      && (!s.pending ==> s'.dst.shortAddrWithEp && s'.dst.shortAddr == req.srcAddr && s'.dst.dstEp == req.srcEp
                         && s'.dst.profileId == req.profileId && s'.dst.ack && (req.apsSec ==> s'.dst.security))
      && (s.pending ==> s' == s)
      && PublishTimer(s') == (s'.(pending := false), s'.dst, -1)
      && !PublishTimer(s').0.pending
  {
  }

  /**
   * As written, one secured request makes every later reply secured: an
   * unsecured request served after it is still answered with security.
   */
  lemma SecurityIsSticky(ep: EpInfo, first: PriceRequest, second: PriceRequest)
    requires first.apsSec && !second.apsSec
    ensures var s1 := PublishTimer(GetCurrentPrice(PriceState(false, ep), first)).0;
      GetCurrentPrice(s1, second).dst.security
  {
  }

  /** Corrected, the reply is secured exactly when its request was. */
  lemma CorrectedSecurityFollowsRequest(s: PriceState, req: PriceRequest)
    requires !s.pending
    ensures GetCurrentPriceCorrected(s, req).dst.security <==> req.apsSec
    ensures GetCurrentPriceCorrected(s, req).dst.(security := true) == GetCurrentPrice(s, req).dst.(security := true)
  {
  }

  /** The ESME's price server: the pending handle, the static destination and the replies published. */
  class PriceServer {
    var pending: bool
    var dst: EpInfo
    var published: seq<EpInfo>

    ghost function State(): PriceState
      reads this
    {
      PriceState(pending, dst)
    }

    constructor ()
      ensures State() == PriceState(false, EpInfo(false, 0, 0, 0, false, false)) && published == []
    {
      pending := false;
      dst := EpInfo(false, 0, 0, 0, false, false);
      published := [];
    }

    /** The get-current-price handler, with the corrected transmit options. */
    method GetCurrentPriceCmdHandler(req: PriceRequest)
      modifies this
      ensures State() == GetCurrentPriceCorrected(old(State()), req) && published == old(published)
    {
      if !pending {
        dst := EpInfo(true, req.srcAddr, req.srcEp, req.profileId, true, req.apsSec);
        pending := true;
      }
    }

    /** The publish timer's callback. */
    method PublishPriceTimerCb() returns (r: int)
      modifies this
      ensures published == old(published) + [old(dst)]
      ensures (State(), published[|published| - 1], r) == PublishTimer(old(State()))
    {
      published := published + [dst];
      pending := false;
      return -1;
    }
  }
}
