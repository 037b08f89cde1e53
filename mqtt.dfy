// The ESP32's MQTT connection to the IoT hub: the percent-encoding of the
// hub URL that goes into the shared-access signature, and the handlers that
// decide when the client is started, which access key is in use and how
// long to wait before reconnecting after a refusal.
module Mqtt {
  import opened Bytes
  import opened Wrappers

  // ---------------------------------------------------------- url_quote_plus

  /** `url_quote_plus_esc_chars`: the punctuation that is percent-encoded. */
  const EscapeList: string := " <>#%+{}|\\^~[]`;/?:@=&$"

  const Percent: Byte := '%' as int

  /**
   * Whether `memchr` finds the byte among `url_quote_plus_esc_chars`. It
   * scans `sizeof` the array, which includes the terminating NUL, so the
   * NUL byte is escaped too.
   */
  predicate Escaped(b: Byte)
  {
    b == 0 || (b as char) in EscapeList
  }

  /** `url_quote_plus_hex_map[n]`: the uppercase hexadecimal digit of a nibble. */
  function HexDigit(n: nat): Byte
    requires n < 16
  {
    if n < 10 then '0' as int + n else 'A' as int + (n - 10)
  }

  /** The digit `HexDigit` spells is the one at that index of the table `0123456789ABCDEF`. */
  lemma HexDigitIsTable(n: nat)
    requires n < 16
    ensures HexDigit(n) == "0123456789ABCDEF"[n] as int
  {
  }

  /** The value of an uppercase hexadecimal digit (0 for any other byte). */
  function HexValue(c: Byte): (v: nat)
    ensures v < 16
  {
    if '0' as int <= c <= '9' as int then c - '0' as int
    else if 'A' as int <= c <= 'F' as int then c - 'A' as int + 10
    else 0
  }

  /** What one input byte becomes: `%`, then the high and the low nibble in hexadecimal, or the byte itself. */
  function EscapeByte(b: Byte): seq<Byte>
  {
    if Escaped(b) then [Percent, HexDigit(b / 16), HexDigit(b % 16)] else [b]
  }

  /** The encoded string: each input byte encoded in turn. */
  function Quote(s: seq<Byte>): (q: seq<Byte>)
    ensures |s| <= |q| <= 3 * |s|
  {
    if s == [] then [] else EscapeByte(s[0]) + Quote(s[1..])
  }

  /** The number of input bytes in the escape set, as the first loop counts them. */
  function EscapedCount(s: seq<Byte>): nat
  {
    if s == [] then 0 else EscapedCount(s[..|s| - 1]) + (if Escaped(s[|s| - 1]) then 1 else 0)
  }

  /** Decoding percent-escapes: the partner `Quote` is checked against. */
  function Unquote(t: seq<Byte>): (u: seq<Byte>)
    ensures |u| <= |t| && (|t| > 0 ==> |u| > 0)
  {
    if t == [] then []
    else if t[0] == Percent && |t| >= 3 then [HexValue(t[1]) * 16 + HexValue(t[2])] + Unquote(t[3..])
    else [t[0]] + Unquote(t[1..])
  }

  /** Encoding one more byte appends its encoding. */
  lemma {:induction false} QuoteAppend(s: seq<Byte>, b: Byte)
    ensures Quote(s + [b]) == Quote(s) + EscapeByte(b)
  {
    if s == [] {
      assert [] + [b] == [b];
      assert Quote([b]) == EscapeByte(b) + Quote([]);
    } else {
      assert (s + [b])[1..] == s[1..] + [b];
      QuoteAppend(s[1..], b);
    }
  }

  /** The output is the input's length plus two for every escaped byte. */
  lemma {:induction false} QuoteLength(s: seq<Byte>)
    ensures |Quote(s)| == |s| + 2 * EscapedCount(s)
    decreases |s|
  {
    if s != [] {
      var init := s[..|s| - 1];
      assert s == init + [s[|s| - 1]];
      QuoteAppend(init, s[|s| - 1]);
      QuoteLength(init);
    }
  }

  /** A byte is recovered from its two hexadecimal digits. */
  lemma HexRoundTrip(b: Byte)
    ensures HexValue(HexDigit(b / 16)) * 16 + HexValue(HexDigit(b % 16)) == b
  {
  }

  /** `%` is itself in the escape set, so no byte copied unchanged can start an escape. */
  lemma PercentEscaped()
    ensures Escaped(Percent)
  {
    assert EscapeList[4] == '%';
  }

  /** Decoding undoes the encoding: no two inputs encode alike. */
  lemma {:induction false} UnquoteQuote(s: seq<Byte>)
    ensures Unquote(Quote(s)) == s
  {
    if s != [] {
      assert Quote(s) == EscapeByte(s[0]) + Quote(s[1..]);
      UnquoteEscape(s[0], Quote(s[1..]));
      UnquoteQuote(s[1..]);
      assert s == [s[0]] + s[1..];
    }
  }

  /** Decoding an encoded byte followed by anything yields the byte, then the decoding of the rest. */
  lemma UnquoteEscape(b: Byte, rest: seq<Byte>)
    ensures Unquote(EscapeByte(b) + rest) == [b] + Unquote(rest)
  {
    var t := EscapeByte(b) + rest;
    if Escaped(b) {
      HexRoundTrip(b);
      assert t[0] == Percent && t[1] == HexDigit(b / 16) && t[2] == HexDigit(b % 16);
      assert t[3..] == rest;
    } else {
      PercentEscaped();
      assert t[0] == b != Percent;
      assert t[1..] == rest;
    }
  }

  /** Every byte of the output is unescaped, except the `%` that introduces an escape. */
  lemma {:induction false} QuoteIsSafe(s: seq<Byte>)
    ensures forall i :: 0 <= i < |Quote(s)| ==> Quote(s)[i] == Percent || !Escaped(Quote(s)[i])
  {
    if s != [] {
      var e := EscapeByte(s[0]);
      QuoteIsSafe(s[1..]);
      if Escaped(s[0]) {
        DigitsUnescaped(s[0] / 16);
        DigitsUnescaped(s[0] % 16);
      }
      assert Quote(s) == e + Quote(s[1..]);
    }
  }

  /** No hexadecimal digit is in the escape set. */
  lemma DigitsUnescaped(n: nat)
    requires n < 16
    ensures !Escaped(HexDigit(n))
  {
  }

  /** Counting a prefix of one more byte adds at most one. */
  lemma CountStep(s: seq<Byte>, i: nat)
    requires i < |s|
    ensures EscapedCount(s[..i + 1]) == EscapedCount(s[..i]) + (if Escaped(s[i]) then 1 else 0)
  {
    assert s[..i + 1][..i] == s[..i];
  }

  /** A prefix of one more element is the shorter prefix and that element. */
  lemma PrefixSnoc(s: seq<Byte>, i: nat)
    requires i < |s|
    ensures s[..i + 1] == s[..i] + [s[i]]
  {
  }

  /** A prefix has no more escaped bytes than the whole, byte for byte. */
  lemma {:induction false} CountPrefix(s: seq<Byte>, i: nat)
    requires i <= |s|
    ensures i + 2 * EscapedCount(s[..i]) <= |s| + 2 * EscapedCount(s)
    decreases |s| - i
  {
    if i < |s| {
      CountStep(s, i);
      CountPrefix(s, i + 1);
    }
    assert s[..|s|] == s;
  }

  /** The first loop of `url_quote_plus`: the output length, the input's plus two per escaped byte. */
  method QuotedLength(input: seq<Byte>) returns (outLen: nat)
    ensures outLen == |input| + 2 * EscapedCount(input)
  {
    outLen := |input|;
    var ii: nat := 0;
    while ii < |input|
      invariant ii <= |input|
      invariant outLen == |input| + 2 * EscapedCount(input[..ii])
    {
      CountStep(input, ii);
      if Escaped(input[ii]) {
        outLen := outLen + 2;
      }
      ii := ii + 1;
    }
    assert input[..ii] == input;
  }

  /** One step of the second loop: the encoding of `b` written through the output pointer at `t`. */
  method PutEscaped(output: array<Byte>, t: nat, b: Byte)
    requires t + |EscapeByte(b)| <= output.Length
    modifies output
    ensures output[..t + |EscapeByte(b)|] == old(output[..t]) + EscapeByte(b)
  {
    if Escaped(b) {
      output[t] := Percent;
      output[t + 1] := HexDigit(b / 16);
      output[t + 2] := HexDigit(b % 16);
      assert output[..t + 3] == output[..t] + [Percent, HexDigit(b / 16), HexDigit(b % 16)];
    } else {
      output[t] := b;
      assert output[..t + 1] == output[..t] + [b];
    }
  }

  /** One iteration of the second loop: byte `ii` encoded after the encoding of the bytes before it. */
  method PutNext(output: array<Byte>, input: seq<Byte>, ii: nat, t: nat) returns (t': nat)
    requires ii < |input| && output.Length == |input| + 2 * EscapedCount(input)
    requires t == ii + 2 * EscapedCount(input[..ii]) && t <= output.Length
    requires output[..t] == Quote(input[..ii])
    modifies output
    ensures t' == ii + 1 + 2 * EscapedCount(input[..ii + 1]) && t' <= output.Length
    ensures output[..t'] == Quote(input[..ii + 1])
  {
    var b := input[ii];
    CountStep(input, ii);
    CountPrefix(input, ii + 1);
    PrefixSnoc(input, ii);
    QuoteAppend(input[..ii], b);
    PutEscaped(output, t, b);
    t' := t + |EscapeByte(b)|;
  }

  /**
   * `url_quote_plus`: a first loop sizes the output, a second writes it.
   * The result is the encoding of the input, sized for it.
   */
  method UrlQuotePlus(input: seq<Byte>) returns (output: array<Byte>)
    ensures output.Length == |input| + 2 * EscapedCount(input)
    ensures output[..] == Quote(input)
  {
    var outLen := QuotedLength(input);
    output := new Byte[outLen];
    var t: nat := 0;
    var ii: nat := 0;
    assert input[..0] == [];
    while ii < |input|
      invariant ii <= |input|
      invariant t == ii + 2 * EscapedCount(input[..ii])
      invariant output.Length == outLen && t <= outLen
      invariant output[..t] == Quote(input[..ii])
    {
      t := PutNext(output, input, ii, t);
      ii := ii + 1;
    }
    assert input[..ii] == input;
    assert output[..] == output[..t];
  }

  // ------------------------------------------- connection and access keys

  /** `RECONNECT_WAIT`: a minute, in microseconds. */
  const ReconnectWait: nat := 1 * 60 * 1000 * 1000
  /** `RECONNECT_NOW`: one microsecond. */
  const ReconnectNow: nat := 1

  /**
   * The events the two handlers act on: WiFi station events, a
   * configuration change and the clock being set (`event_handler`); the
   * MQTT client's events, with a refused connection split by its return
   * code (`mqtt_event_handler_cb`); and the reconnect timer expiring.
   */
  datatype Event =
    | StaConnected | StaDisconnected | OtherWifi | ConfigChanged | TimeSet
    | BeforeConnect | Connected | Disconnected | NotAuthorized | ServerUnavailable | OtherRefusal | OtherMqtt
    | TimerExpired

  /** What a handler asks of the MQTT client or the reconnect timer. */
  datatype Request =
    | NoRequest
    | Start                    // esp_mqtt_client_start
    | Stop                     // esp_mqtt_client_stop
    | Reconnect                // esp_mqtt_client_reconnect
    | SignWith(key: int)       // a SAS token signed with this access key, set as the password
    | ArmTimer(delay: nat)     // the one-shot reconnect timer (re)started with this delay

  /** The handlers' static variables. */
  datatype Status = Status(currentAccessKey: int, staleAccessKeys: int, timeIsSet: bool, wifiApConnected: bool)

  /** The statics as the task starts. */
  const Initial := Status(0, 0, false, false)

  /** `maybe_start_mqtt`: the client is started only once the clock is set and the station is connected. */
  function MaybeStart(s: Status): (r: Request)
    ensures r == Start || r == NoRequest
    ensures r == Start <==> s.timeIsSet && s.wifiApConnected
  {
    if s.timeIsSet && s.wifiApConnected then Start else NoRequest
  }

  /**
   * `maybe_stale_access_key`: switch to the other key; reconnect almost at
   * once the first time since the last successful connection, a minute
   * later otherwise.
   */
  function StaleKey(s: Status): (r: (Status, Request))
    ensures KeyValid(s) ==> KeyValid(r.0) && r.0.currentAccessKey != s.currentAccessKey
    ensures r.0.timeIsSet == s.timeIsSet && r.0.wifiApConnected == s.wifiApConnected
    ensures r.1 == ArmTimer(if s.staleAccessKeys == 0 then ReconnectNow else ReconnectWait)
  {
    var key := 1 - s.currentAccessKey;
    if s.staleAccessKeys == 0 then (s.(currentAccessKey := key, staleAccessKeys := s.staleAccessKeys + 1), ArmTimer(ReconnectNow))
    else (s.(currentAccessKey := key), ArmTimer(ReconnectWait))
  }

  /** One event handled: the new statics and the request made. */
  function Step(s: Status, e: Event): (r: (Status, Request))
    ensures r.0.currentAccessKey != s.currentAccessKey ==> e == NotAuthorized
    ensures r.1 == Start ==> r.0.timeIsSet && r.0.wifiApConnected
    ensures r.1.SignWith? ==> r.1.key == s.currentAccessKey
  {
    match e
    case StaConnected => var s' := s.(wifiApConnected := true); (s', MaybeStart(s'))
    case StaDisconnected => (s.(wifiApConnected := false), Stop)
    case OtherWifi => (s, NoRequest)
    case ConfigChanged => (s, MaybeStart(s))
    case TimeSet => var s' := s.(timeIsSet := true); (s', MaybeStart(s'))
    case BeforeConnect => (s, SignWith(s.currentAccessKey))
    case Connected => (s.(staleAccessKeys := 0), NoRequest)
    case Disconnected => (s, Reconnect)
    case NotAuthorized => StaleKey(s)
    case ServerUnavailable => (s, ArmTimer(ReconnectWait))
    case OtherRefusal => (s, NoRequest)
    case OtherMqtt => (s, NoRequest)
    case TimerExpired => (s, Reconnect)
  }

  /** The statics and the requests after a sequence of events. */
  function Run(s: Status, events: seq<Event>): (Status, seq<Request>)
    decreases |events|
  {
    if events == [] then (s, [])
    else
      var (s', r) := Step(s, events[0]);
      var (t, rs) := Run(s', events[1..]);
      (t, [r] + rs)
  }

  /** The access key index is 0 or 1. */
  predicate KeyValid(s: Status)
  {
    s.currentAccessKey == 0 || s.currentAccessKey == 1
  }

  /** Every handler keeps the key index 0 or 1, and only a not-authorised refusal changes it. */
  lemma StepKeepsKey(s: Status, e: Event)
    requires KeyValid(s)
    ensures KeyValid(Step(s, e).0)
    ensures Step(s, e).0.currentAccessKey != s.currentAccessKey <==> e == NotAuthorized
  {
  }

  /**
   * The client is asked to start exactly when the event leaves the clock
   * set and the station connected, and the event is one after which
   * `maybe_start_mqtt` runs.
   */
  lemma StartOnlyWhenReady(s: Status, e: Event)
    ensures var (s', r) := Step(s, e);
      r == Start <==> (e in {StaConnected, ConfigChanged, TimeSet} && s'.timeIsSet && s'.wifiApConnected)
  {
  }

  /** A station disconnect clears the WiFi flag and stops the client, whatever the state. */
  lemma DisconnectStops(s: Status)
    ensures Step(s, StaDisconnected) == (s.(wifiApConnected := false), Stop)
  {
  }

  /** `n` refusals in a row. */
  function Refusals(n: nat): (r: seq<Event>)
    ensures |r| == n && forall i :: 0 <= i < n ==> r[i] == NotAuthorized
  {
    if n == 0 then [] else [NotAuthorized] + Refusals(n - 1)
  }

  /** Each refusal toggles the key: after `n` of them the key has changed iff `n` is odd. */
  lemma {:induction false} RefusalsAlternateKeys(s: Status, n: nat)
    requires KeyValid(s)
    ensures var t := Run(s, Refusals(n)).0;
      KeyValid(t) && (t.currentAccessKey == s.currentAccessKey <==> n % 2 == 0)
    decreases n
  {
    if n > 0 {
      assert Refusals(n)[1..] == Refusals(n - 1);
      RefusalsAlternateKeys(StaleKey(s).0, n - 1);
    }
  }

  /** `n` copies of a request. */
  function Repeat(r: Request, n: nat): (rs: seq<Request>)
    ensures |rs| == n && forall i :: 0 <= i < n ==> rs[i] == r
  {
    if n == 0 then [] else [r] + Repeat(r, n - 1)
  }

  /** Once keys are marked stale, every further refusal waits a minute, and the mark stays. */
  lemma {:induction false} StaleRefusalsWait(s: Status, n: nat)
    requires s.staleAccessKeys != 0
    ensures Run(s, Refusals(n)).1 == Repeat(ArmTimer(ReconnectWait), n)
    ensures Run(s, Refusals(n)).0.staleAccessKeys == s.staleAccessKeys
    decreases n
  {
    if n > 0 {
      assert Refusals(n)[1..] == Refusals(n - 1);
      StaleRefusalsWait(StaleKey(s).0, n - 1);
    }
  }

  /**
   * After a successful connection, the first refusal retries almost at
   * once with the other key and every later one waits a minute.
   */
  lemma RefusalsAfterConnecting(s: Status, n: nat)
    requires n > 0
    ensures Run(s, [Connected] + Refusals(n)).1 == [NoRequest, ArmTimer(ReconnectNow)] + Repeat(ArmTimer(ReconnectWait), n - 1)
  {
    var c := s.(staleAccessKeys := 0);
    assert ([Connected] + Refusals(n))[1..] == Refusals(n);
    assert Refusals(n)[1..] == Refusals(n - 1);
    StaleRefusalsWait(StaleKey(c).0, n - 1);
  }

  /** The MQTT task's handler state: the statics of `cs_mqtt.c` and the requests made so far. */
  class MqttTask {
    var currentAccessKey: int
    var staleAccessKeys: int
    var timeIsSet: bool
    var wifiApConnected: bool
    var requests: seq<Request>

    function Statics(): Status
      reads this
    {
      Status(currentAccessKey, staleAccessKeys, timeIsSet, wifiApConnected)
    }

    /**
     * `cs_mqtt_task`: the statics start cleared, and `init_mqtt` starts the
     * client at once, before the clock is set or the station connected.
     */
    constructor ()
      ensures Statics() == Initial && requests == [Start]
    {
      currentAccessKey := 0;
      staleAccessKeys := 0;
      timeIsSet := false;
      wifiApConnected := false;
      requests := [Start];
    }

    /** `maybe_start_mqtt`. */
    method MaybeStartMqtt()
      modifies this
      ensures Statics() == old(Statics())
      ensures requests == old(requests) + [MaybeStart(Statics())]
    {
      if timeIsSet && wifiApConnected {
        requests := requests + [Start];
      } else {
        requests := requests + [NoRequest];
      }
    }

    /** `maybe_stale_access_key`. */
    method MaybeStaleAccessKey()
      modifies this
      ensures (Statics(), requests) == (StaleKey(old(Statics())).0, old(requests) + [StaleKey(old(Statics())).1])
    {
      var reconnectWait := ReconnectWait;
      currentAccessKey := 1 - currentAccessKey;
      if staleAccessKeys == 0 {
        staleAccessKeys := staleAccessKeys + 1;
        reconnectWait := ReconnectNow;
      }
      requests := requests + [ArmTimer(reconnectWait)];
    }

    /** `event_handler`, `mqtt_event_handler_cb` and `reconnect_timer_cb` on one event. */
    method Handle(e: Event)
      modifies this
      ensures Statics() == Step(old(Statics()), e).0
      ensures requests == old(requests) + [Step(old(Statics()), e).1]
    {
      match e {
        case StaConnected =>
          wifiApConnected := true;
          MaybeStartMqtt();
        case StaDisconnected =>
          wifiApConnected := false;
          requests := requests + [Stop];
        case ConfigChanged =>
          MaybeStartMqtt();
        case TimeSet =>
          timeIsSet := true;
          MaybeStartMqtt();
        case BeforeConnect =>
          requests := requests + [SignWith(currentAccessKey)];
        case Connected =>
          staleAccessKeys := 0;
          requests := requests + [NoRequest];
        case Disconnected =>
          requests := requests + [Reconnect];
        case NotAuthorized =>
          MaybeStaleAccessKey();
        case ServerUnavailable =>
          requests := requests + [ArmTimer(ReconnectWait)];
        case TimerExpired =>
          requests := requests + [Reconnect];
        case OtherWifi =>
          requests := requests + [NoRequest];
        case OtherRefusal =>
          requests := requests + [NoRequest];
        case OtherMqtt =>
          requests := requests + [NoRequest];
      }
    }
  }
}
