// The ESP32's receiver for zbhci frames from the ZigBee radio: its CRC,
// the frame check and dispatch, the time attribute that sets the clock,
// the scanner that resynchronises on the start marker, and the receive
// buffer that is compacted after each frame.
//
// The frame layout is the one the gateway's decoder reads: start marker,
// command id (2 bytes), payload length (2 bytes), CRC, payload, end marker.
// Where the C code combines or compares bytes in a way that cannot do what
// its comments say, the code as written and a corrected form are both
// modelled; the corrected forms are the ones the receive loop uses.
module ZigbeeRx {
  import opened Wrappers
  import opened Bytes
  import opened ZbhciConstants
  import Zbhci

  /** `ZBHCI_FRAMING_BYTES`: start marker, command id, length, CRC and end marker around the payload. */
  const FramingBytes: nat := 7
  const RxBufferSize: nat := 256
  const RxMinimumFrameSize: nat := 10
  const RxPayloadLengthMax: nat := 256
  /** The payload follows the start marker, command id, length and CRC. */
  const PayloadStart: nat := 6
  /** The command header a ZCL response starts with: source address, endpoints, sequence number, cluster. */
  const CommandHeaderSize: nat := 7
  /** The bytes `_zbhci_attr_t` reads: count, identifier, status, type and a 4-byte value. */
  const AttrSize: nat := 9

  /** `ZIGBEE_TIME_TO_LINUX_TIME`: the Unix time of 2000-01-01 00:00:00 UTC, where ZigBee time starts. */
  const ZigbeeEpoch: nat := 946684800

  /** 30 years of 365 days and the 7 leap days of 1972 to 1996, in seconds. */
  lemma ZigbeeEpochIsJanuary2000()
    ensures ZigbeeEpoch == (30 * 365 + 7) * 24 * 60 * 60
  {
  }

  // ------------------------------------------------------------ crc8_calculate

  /** The byte `crc8_calculate` folds: low byte of `dataType`, its high byte twice, both length bytes, then `length` data bytes. */
  function CrcAsWritten(dataType: U16, length: U16, data: seq<Byte>): Byte
    requires length <= |data|
  {
    Xor8(Xor8(Xor8(Xor8(Xor8(Lo(dataType), Hi(dataType)), Hi(dataType)), Lo(length)), Hi(length)), XorAll(data[..length]))
  }

  /**
   * XOR-ing the high byte twice cancels it: the byte folded is the
   * gateway's checksum of a command id whose high byte is zero.
   */
  lemma HighByteCancels(dataType: U16, length: U16, data: seq<Byte>)
    requires length <= |data|
    ensures CrcAsWritten(dataType, length, data) == Zbhci.Crc8Of(Lo(dataType), length, data[..length])
  {
    XorAssoc(Lo(dataType), Hi(dataType), Hi(dataType));
    XorSelf(Hi(dataType));
    assert Lo(Lo(dataType)) == Lo(dataType) && Hi(Lo(dataType)) == 0;
  }

  /** XOR-ing one more byte into a running value seeded with `seed`. */
  lemma FoldStep(seed: Byte, data: seq<Byte>, i: nat)
    requires i < |data|
    ensures Xor8(Xor8(seed, XorAll(data[..i])), data[i]) == Xor8(seed, XorAll(data[..i + 1]))
  {
    assert data[..i + 1][..i] == data[..i];
    XorAssoc(seed, XorAll(data[..i]), data[i]);
  }

  /**
   * `crc8_calculate` as written. It is declared `bool`, so the byte it
   * folds is returned as "non-zero" and the caller stores 1 or 0.
   */
  method Crc8Calculate(dataType: U16, length: U16, data: seq<Byte>) returns (r: bool)
    requires length <= |data|
    ensures r <==> CrcAsWritten(dataType, length, data) != 0
  {
    var crc: Byte := Lo(dataType);
    crc := Xor8(crc, Hi(dataType));
    crc := Xor8(crc, Hi(dataType));
    crc := Xor8(crc, Lo(length));
    crc := Xor8(crc, Hi(length));
    ghost var seed := crc;
    var remaining: nat := length;
    var i: nat := 0;
    assert data[..0] == [];
    while remaining > 0
      invariant i + remaining == length
      invariant crc == Xor8(seed, XorAll(data[..i]))
    {
      FoldStep(seed, data, i);
      crc := Xor8(crc, data[i]);
      i := i + 1;
      remaining := remaining - 1;
    }
    r := crc != 0;
  }

  /** `crc8_calculate` as intended: each byte of the command id once, and the byte itself returned. */
  method Crc8CalculateCorrected(dataType: U16, length: U16, data: seq<Byte>) returns (crc: Byte)
    requires length <= |data|
    ensures crc == Zbhci.Crc8Of(dataType, length, data[..length])
  {
    crc := Lo(dataType);
    crc := Xor8(crc, Hi(dataType));
    crc := Xor8(crc, Lo(length));
    crc := Xor8(crc, Hi(length));
    ghost var seed := crc;
    var remaining: nat := length;
    var i: nat := 0;
    assert data[..0] == [];
    while remaining > 0
      invariant i + remaining == length
      invariant crc == Xor8(seed, XorAll(data[..i]))
    {
      FoldStep(seed, data, i);
      crc := Xor8(crc, data[i]);
      i := i + 1;
      remaining := remaining - 1;
    }
  }

  /**
   * As written, the frame check compares the stored 0 or 1 with the
   * checksum byte, so every frame whose correct checksum is 2 or more is
   * rejected.
   */
  lemma GoodChecksumRejected(dataType: U16, length: U16, data: seq<Byte>, checkSum: Byte)
    requires length <= |data| && checkSum == Zbhci.Crc8Of(dataType, length, data[..length]) && checkSum > 1
    ensures !CrcPassesAsWritten(dataType, length, data, checkSum)
  {
  }

  /** The check in `zbhci_frame` as written: `crc` holds the boolean result as 0 or 1. */
  predicate CrcPassesAsWritten(dataType: U16, length: U16, data: seq<Byte>, checkSum: Byte)
    requires length <= |data|
    ensures CrcPassesAsWritten(dataType, length, data, checkSum) ==> checkSum <= 1
  {
    (if CrcAsWritten(dataType, length, data) != 0 then 1 else 0) == checkSum
  }

  // ------------------------------------------------------ combining two bytes

  /** Bitwise and of two naturals, bit by bit from the least significant: C's `&`. */
  function And(a: nat, b: nat): nat
    decreases a + b
  {
    if a == 0 || b == 0 then 0
    else 2 * And(a / 2, b / 2) + (if a % 2 == 1 && b % 2 == 1 then 1 else 0)
  }

  /** A value shifted left by `k` bits shares no bit with a value below 2^k. */
  lemma {:induction false} AndShiftedIsZero(h: nat, l: nat, k: nat)
    requires l < Pow2(k)
    ensures And(h * Pow2(k), l) == 0
  {
    if k > 0 && h > 0 && l > 0 {
      var a := h * Pow2(k);
      assert a == 2 * (h * Pow2(k - 1));
      assert a / 2 == h * Pow2(k - 1) && a % 2 == 0;
      AndShiftedIsZero(h, l / 2, k - 1);
    }
  }

  /**
   * `(hi << 8) & lo`, which `zbhci_frame` and `zbhci_read_attr_rsp` use
   * to combine two bytes: it is always 0.
   */
  function CombineAsWritten(hi: Byte, lo: Byte): (r: nat)
    ensures r == 0
  {
    assert Pow2(8) == 256;
    AndShiftedIsZero(hi, lo, 8);
    And(hi * 256, lo)
  }

  /** The intended `(hi << 8) | lo`. */
  function Combine(hi: Byte, lo: Byte): U16
  {
    hi * 256 + lo
  }

  /** `Combine` puts `hi` in the high byte and `lo` in the low byte: it inverts the split into `Hi` and `Lo`. */
  lemma CombineSplits(hi: Byte, lo: Byte)
    ensures Hi(Combine(hi, lo)) == hi && Lo(Combine(hi, lo)) == lo
  {
  }

  /** Splitting a 16-bit value and combining the halves gives it back. */
  lemma SplitCombines(x: U16)
    ensures Combine(Hi(x), Lo(x)) == x
  {
  }

  // ------------------------------------------------ frames and their effect

  /** `zbhci_frame` and the handlers it calls as written, or with the byte combination and the CRC corrected. */
  datatype Build = AsWritten | Corrected

  /**
   * What handling one frame does. Link-key and IEEE-address responses and
   * unknown commands are only logged (`Ignored`); a read-attributes
   * response that is not the standard-time attribute is forwarded to the
   * MQTT task; a bad status or type is logged; a good time response sets
   * the clock the first time and adjusts it afterwards.
   */
  datatype Action =
    | CrcMismatch
    | Ignored(commandId: nat)
    | Forwarded(payloadLength: U16)
    | BadStatus(status: Byte)
    | BadType(dataType: Byte)
    | ClockSet(unixTime: U32)
    | ClockAdjusted(delta: int)
    | ReadsPastData

  /** `BUILD_U32(p[3], p[2], p[1], p[0])` with the SDK's least-significant-first argument order: `p` big-endian. */
  function ZigbeeTime(p: seq<Byte>): (t: U32)
    requires |p| == 4
    ensures t == BigEndian(p)
  {
    assert p[..3][..2] == p[..2] && p[..2][..1] == p[..1] && p[..1][..0] == [];
    assert BigEndian(p[..2]) == p[0] as nat * 0x100 + p[1];
    assert BigEndian(p[..3]) == p[0] as nat * 0x1_0000 + p[1] as nat * 0x100 + p[2];
    assert p[..4] == p;
    var b0: nat, b1: nat, b2: nat, b3: nat := p[0], p[1], p[2], p[3];
    b0 * 0x100_0000 + b1 * 0x1_0000 + b2 * 0x100 + b3
  }

  /** `zigbee_time + ZIGBEE_TIME_TO_LINUX_TIME` in 32-bit unsigned arithmetic. */
  function UnixTime(zigbeeTime: U32): (r: U32)
    ensures zigbeeTime < 0x1_0000_0000 - ZigbeeEpoch ==> r == zigbeeTime + ZigbeeEpoch
    ensures zigbeeTime >= 0x1_0000_0000 - ZigbeeEpoch ==> r == zigbeeTime + ZigbeeEpoch - 0x1_0000_0000
  {
    Trunc32(zigbeeTime + ZigbeeEpoch)
  }

  /**
   * Where `zbhci_read_attr_rsp` lays its `_zbhci_attr_t` overlay: at
   * `pData[0]` as written, which is where the producer puts its 7-byte
   * command header (source address, endpoints, sequence number, cluster);
   * corrected, at `pData[7]`, past that header, where the record count is.
   */
  function AttrOffset(build: Build): nat
  {
    if build == AsWritten then PayloadStart else PayloadStart + CommandHeaderSize
  }

  /**
   * `zbhci_read_attr_rsp` on the bytes `attr` its overlay covers: a count,
   * id high and low, status, type and a 4-byte value. `standardTime` is
   * `ZCL_ATTRID_STANDARD_TIME` and `now` what `time()` returns.
   */
  function ReadAttrRsp(build: Build, attr: seq<Byte>, payloadLength: U16, standardTime: U16, timeIsSet: bool, now: int): (a: Action)
    requires |attr| >= AttrSize
    ensures a.ClockSet? || a.ClockAdjusted? ==> attr[0] == 1 && attr[3] == SUCCESS && attr[4] == UTC
    ensures a.ClockSet? <==> (a.ClockSet? || a.ClockAdjusted?) && !timeIsSet
  {
    var attrId := if build == AsWritten then CombineAsWritten(attr[1], attr[2]) else Combine(attr[1], attr[2]);
    if attr[0] != 1 || attrId != standardTime then Forwarded(payloadLength)
    else if attr[3] != SUCCESS then BadStatus(attr[3])
    else if attr[4] != UTC then BadType(attr[4])
    else
      var unix := UnixTime(ZigbeeTime(attr[5..9]));
      if timeIsSet then ClockAdjusted(unix - now) else ClockSet(unix)
  }

  /**
   * `zbhci_frame`, for a frame that starts at `frame[0]` with the given
   * payload length: the command id, the CRC over the payload, and the
   * dispatch on the command. A payload longer than the bytes received, or
   * an attribute overlay that reaches past them (stale buffer contents),
   * is reported as `ReadsPastData`.
   */
  function FrameAction(build: Build, frame: seq<Byte>, payloadLength: U16, standardTime: U16, timeIsSet: bool, now: int): (a: Action)
    ensures |frame| < PayloadStart + payloadLength ==> a == ReadsPastData
    ensures a.Forwarded? ==> a.payloadLength == payloadLength
    ensures a.Ignored? ==> a.commandId != ATTR_READ_RSP
    ensures !(a.ReadsPastData? || a.CrcMismatch? || a.Ignored?) ==>
      |frame| >= PayloadStart + payloadLength && |frame| >= AttrOffset(build) + AttrSize
  {
    if |frame| < PayloadStart + payloadLength then ReadsPastData
    else
      var data := frame[PayloadStart..];
      var commandId := if build == AsWritten then CombineAsWritten(frame[1], frame[2]) else Combine(frame[1], frame[2]);
      var crcOk :=
        if build == AsWritten then CrcPassesAsWritten(commandId, payloadLength, data, frame[5])
        else Zbhci.Crc8Of(commandId, payloadLength, data[..payloadLength]) == frame[5];
      if !crcOk then CrcMismatch
      else if commandId != ATTR_READ_RSP then Ignored(commandId)
      else if |frame| < AttrOffset(build) + AttrSize then ReadsPastData
      else ReadAttrRsp(build, frame[AttrOffset(build)..], payloadLength, standardTime, timeIsSet, now)
  }

  /**
   * As written the command id is 0, never a read-attributes response: no
   * frame reaches the time handler or the MQTT task. Only a payload
   * longer than the bytes received reads past them; any other frame is
   * refused by the CRC check or ignored.
   */
  lemma AsWrittenDispatchesNothing(frame: seq<Byte>, payloadLength: U16, standardTime: U16, timeIsSet: bool, now: int)
    ensures var a := FrameAction(AsWritten, frame, payloadLength, standardTime, timeIsSet, now);
      (a == ReadsPastData <==> |frame| < PayloadStart + payloadLength)
      && (|frame| >= PayloadStart + payloadLength ==>
            if CrcPassesAsWritten(0, payloadLength, frame[PayloadStart..], frame[5]) then a == Ignored(0) else a == CrcMismatch)
  {
  }

  /**
   * Corrected, the clock is set or adjusted exactly for a single-attribute
   * read-attributes response with a good CRC for the standard-time
   * attribute, status success and type UTC, its record starting after the
   * command header; the Unix time is the ZigBee time plus the epoch
   * offset (modulo 2^32).
   */
  lemma CorrectedTimePath(frame: seq<Byte>, payloadLength: U16, standardTime: U16, timeIsSet: bool, now: int)
    requires |frame| >= PayloadStart + payloadLength
    ensures var a := FrameAction(Corrected, frame, payloadLength, standardTime, timeIsSet, now);
      (a.ClockSet? || a.ClockAdjusted?)
      <==> (Zbhci.Crc8Of(Combine(frame[1], frame[2]), payloadLength, frame[6..][..payloadLength]) == frame[5]
            && Combine(frame[1], frame[2]) == ATTR_READ_RSP && |frame| >= 22
            && frame[13] == 1 && Combine(frame[14], frame[15]) == standardTime
            && frame[16] == SUCCESS && frame[17] == UTC)
    ensures var a := FrameAction(Corrected, frame, payloadLength, standardTime, timeIsSet, now);
      a.ClockSet? ==> a.unixTime == UnixTime(ZigbeeTime(frame[18..22]))
  {
    if |frame| >= 22 {
      assert frame[13..][5..9] == frame[18..22];
    }
  }

  /** Corrected, a read-attributes response with a good CRC that is not the single standard-time attribute goes to the MQTT task. */
  lemma CorrectedForwards(frame: seq<Byte>, payloadLength: U16, standardTime: U16, timeIsSet: bool, now: int)
    requires |frame| >= 22 && |frame| >= PayloadStart + payloadLength
    requires Zbhci.Crc8Of(Combine(frame[1], frame[2]), payloadLength, frame[6..][..payloadLength]) == frame[5]
    requires Combine(frame[1], frame[2]) == ATTR_READ_RSP
    requires frame[13] != 1 || Combine(frame[14], frame[15]) != standardTime
    ensures FrameAction(Corrected, frame, payloadLength, standardTime, timeIsSet, now) == Forwarded(payloadLength)
  {
  }

  /**
   * Corrected, a good read-attributes response whose record does not
   * reach the bytes received is the only other frame that reads past
   * them: any frame whose payload has arrived is otherwise refused,
   * ignored or handled.
   */
  lemma CorrectedReadsPastData(frame: seq<Byte>, payloadLength: U16, standardTime: U16, timeIsSet: bool, now: int)
    ensures FrameAction(Corrected, frame, payloadLength, standardTime, timeIsSet, now) == ReadsPastData
      <==> |frame| < PayloadStart + payloadLength
           || (|frame| < 22 && Combine(frame[1], frame[2]) == ATTR_READ_RSP
               && Zbhci.Crc8Of(ATTR_READ_RSP, payloadLength, frame[6..][..payloadLength]) == frame[5])
  {
  }

  // --------------------------------------------------------- zbhci_maybe_frame

  /**
   * What one scan of the receive buffer finds: no usable start marker (all
   * `count` bytes discarded), a frame at `start` of which `accepted` bytes
   * are consumed, too few bytes for the frame yet, or (as written only) a
   * read beyond the memory the model holds.
   */
  datatype Scan =
    | Discarded(count: nat)
    | FrameAt(start: nat, payloadLength: U16, accepted: nat)
    | NeedMore
    | PastBuffer

  /** The number of bytes a scan tells the receive loop to drop. */
  function Accepted(r: Scan): nat
  {
    match r
    case Discarded(count) => count
    case FrameAt(_, _, accepted) => accepted
    case _ => 0
  }

  /**
   * The skip loop `while ((*buffer++ != START) && (data_remains--));`
   * over `memory` from `pos`, with its post-decrement: it stops one past a
   * start marker with the count unchanged, or one past the byte at which
   * the count was already 0, leaving it wrapped to 2^32 - 1. `None` if it
   * runs off the end of `memory`.
   */
  function SkipAsWritten(memory: seq<Byte>, pos: nat, remains: U32): (r: Option<(nat, U32)>)
    ensures r.Some? ==> pos < r.value.0 <= |memory|
    decreases |memory| - pos
  {
    if pos >= |memory| then None
    else if memory[pos] == FRAME_START then Some((pos + 1, remains))
    else if remains == 0 then Some((pos + 1, 0xFFFF_FFFF))
    else SkipAsWritten(memory, pos + 1, remains - 1)
  }

  /**
   * `zbhci_maybe_frame` as written, over the bytes `memory` from the start
   * of the receive buffer (the `dataLength` bytes received and whatever
   * lies after them), scanning from `pos` with `remains` bytes counted as
   * left. The payload length is read from the 4th and 5th bytes after the
   * marker, whether or not they have been received.
   */
  function ScanAsWritten(memory: seq<Byte>, dataLength: U32, pos: nat, remains: U32): (r: Scan)
    ensures r.Discarded? ==> r.count == dataLength
    ensures r.FrameAt? ==> pos <= r.start && r.payloadLength <= RxPayloadLengthMax
    decreases |memory| - pos
  {
    match SkipAsWritten(memory, pos, remains)
    case None => PastBuffer
    case Some((next, left)) =>
      if left == 0 then Discarded(dataLength)
      else
        var start := next - 1;
        if start + 4 >= |memory| then PastBuffer
        else
          var payloadLength := Combine(memory[start + 3], memory[start + 4]);
          if payloadLength > RxPayloadLengthMax then ScanAsWritten(memory, dataLength, start + 1, left - 1)
          else if left >= payloadLength + FramingBytes then
            FrameAt(start, payloadLength, Trunc32(dataLength - left + payloadLength + FramingBytes))
          else NeedMore
  }

  /** The first start marker in `data` at or after `pos`. */
  function NextStart(data: seq<Byte>, pos: nat): (r: Option<nat>)
    ensures r.Some? ==> pos <= r.value < |data| && data[r.value] == FRAME_START
    ensures r.Some? ==> forall i :: pos <= i < r.value ==> data[i] != FRAME_START
    ensures r.None? ==> forall i :: pos <= i < |data| ==> data[i] != FRAME_START
    decreases |data| - pos
  {
    if pos >= |data| then None
    else if data[pos] == FRAME_START then Some(pos)
    else NextStart(data, pos + 1)
  }

  /** A start marker at `s` followed by a payload length the scanner refuses. */
  predicate Implausible(data: seq<Byte>, s: nat)
  {
    s + 4 < |data| && Combine(data[s + 3], data[s + 4]) > RxPayloadLengthMax
  }

  /**
   * The scan `zbhci_maybe_frame` means to do over the `data` received: find
   * the next start marker; a marker whose length field is too large is
   * skipped; a frame of payload plus 7 framing bytes that has fully arrived
   * is taken and everything up to its end accepted; otherwise wait. With no
   * usable marker left, every byte is discarded. A marker whose length field
   * has not arrived yet means wait.
   */
  function ScanSpec(data: seq<Byte>, pos: nat): (r: Scan)
    requires pos <= |data|
    ensures !r.PastBuffer? && Accepted(r) <= |data|
    ensures r.FrameAt? ==> r.start + FramingBytes <= r.accepted
    decreases |data| - pos
  {
    match NextStart(data, pos)
    case None => Discarded(|data|)
    case Some(s) =>
      if s + 4 >= |data| then NeedMore
      else
        var payloadLength := Combine(data[s + 3], data[s + 4]);
        if payloadLength > RxPayloadLengthMax then ScanSpec(data, s + 1)
        else if s + payloadLength + FramingBytes <= |data| then FrameAt(s, payloadLength, s + payloadLength + FramingBytes)
        else NeedMore
  }

  /**
   * A frame the scan finds starts with a marker, has a plausible length
   * read high byte first, lies wholly in the data and is the first such:
   * every marker before it had an implausible length.
   */
  lemma {:induction false} ScanFindsFirstFrame(data: seq<Byte>, pos: nat)
    requires pos <= |data|
    ensures var r := ScanSpec(data, pos);
      r.FrameAt? ==>
        pos <= r.start && r.start + 4 < |data| && data[r.start] == FRAME_START
        && r.payloadLength == Combine(data[r.start + 3], data[r.start + 4])
        && r.payloadLength <= RxPayloadLengthMax
        && r.accepted == r.start + r.payloadLength + FramingBytes
        && forall i :: pos <= i < r.start && data[i] == FRAME_START ==> Implausible(data, i)
    decreases |data| - pos
  {
    var n := NextStart(data, pos);
    if n.Some? && n.value + 4 < |data| && Combine(data[n.value + 3], data[n.value + 4]) > RxPayloadLengthMax {
      var s := n.value;
      assert ScanSpec(data, pos) == ScanSpec(data, s + 1);
      ScanFindsFirstFrame(data, s + 1);
      assert Implausible(data, s);
    }
  }

  /** When the scan discards the data, every marker in it carried an implausible length. */
  lemma {:induction false} ScanDiscards(data: seq<Byte>, pos: nat)
    requires pos <= |data|
    ensures var r := ScanSpec(data, pos);
      r.Discarded? ==> r.count == |data| && forall i :: pos <= i < |data| && data[i] == FRAME_START ==> Implausible(data, i)
    decreases |data| - pos
  {
    var n := NextStart(data, pos);
    if n.Some? && n.value + 4 < |data| && Combine(data[n.value + 3], data[n.value + 4]) > RxPayloadLengthMax {
      ScanDiscards(data, n.value + 1);
    }
  }

  /** `NextStart` read off a position where the marker search stopped. */
  lemma NextStartAt(data: seq<Byte>, pos: nat, s: nat)
    requires pos <= s <= |data|
    requires forall i :: pos <= i < s ==> data[i] != FRAME_START
    requires s == |data| || data[s] == FRAME_START
    ensures NextStart(data, pos) == if s == |data| then None else Some(s)
    decreases s - pos
  {
    if pos < s {
      NextStartAt(data, pos + 1, s);
    }
  }

  /**
   * `zbhci_maybe_frame` with the wrap-around corrected, over the first
   * `dataLength` bytes of `buffer`: the source's two loops, the inner one
   * looking for the start marker, the outer one skipping markers whose
   * length field is implausible.
   */
  method MaybeFrame(buffer: array<Byte>, dataLength: nat) returns (r: Scan)
    requires dataLength <= buffer.Length
    ensures r == ScanSpec(buffer[..dataLength], 0)
  {
    ghost var data := buffer[..dataLength];
    var pos: nat := 0;
    while true
      invariant pos <= dataLength
      invariant ScanSpec(data, pos) == ScanSpec(data, 0)
      decreases dataLength - pos
    {
      var s := FindStart(buffer, dataLength, pos);
      if s == dataLength {
        return Discarded(dataLength);
      }
      SpecAtMarker(data, pos, s);
      if s + 4 >= dataLength {
        return NeedMore;
      }
      var payloadLength := Combine(buffer[s + 3], buffer[s + 4]);
      if payloadLength > RxPayloadLengthMax {
        pos := s + 1;
      } else if s + payloadLength + FramingBytes <= dataLength {
        return FrameAt(s, payloadLength, s + payloadLength + FramingBytes);
      } else {
        return NeedMore;
      }
    }
  }

  /** The inner loop of `zbhci_maybe_frame`: the first start marker from `pos`, or the end of the data. */
  method FindStart(buffer: array<Byte>, dataLength: nat, pos: nat) returns (s: nat)
    requires pos <= dataLength <= buffer.Length
    ensures NextStart(buffer[..dataLength], pos) == if s == dataLength then None else Some(s)
  {
    ghost var data := buffer[..dataLength];
    s := pos;
    while s < dataLength && buffer[s] != FRAME_START
      invariant pos <= s <= dataLength
      invariant forall i :: pos <= i < s ==> data[i] != FRAME_START
    {
      s := s + 1;
    }
    NextStartAt(data, pos, s);
  }

  /** With no marker among the `remains + 1` bytes from `pos`, the skip loop wraps its count. */
  lemma {:induction false} SkipNoMarker(memory: seq<Byte>, pos: nat, remains: U32)
    requires pos + remains < |memory|
    requires forall i :: pos <= i <= pos + remains ==> memory[i] != FRAME_START
    ensures SkipAsWritten(memory, pos, remains) == Some((pos + remains + 1, 0xFFFF_FFFF))
    decreases remains
  {
    if remains > 0 {
      SkipNoMarker(memory, pos + 1, remains - 1);
    }
  }

  /** With the count equal to the bytes left, the skip loop stops one past the first marker among them. */
  lemma {:induction false} SkipFinds(memory: seq<Byte>, dataLength: U32, pos: nat, s: nat)
    requires pos <= s < dataLength <= |memory|
    requires memory[s] == FRAME_START
    requires forall i :: pos <= i < s ==> memory[i] != FRAME_START
    ensures SkipAsWritten(memory, pos, dataLength - pos) == Some((s + 1, dataLength - s))
    decreases s - pos
  {
    if pos < s {
      SkipFinds(memory, dataLength, pos + 1, s);
    }
  }

  /** Whenever the intended scan finds a frame, the scan as written finds the same frame and accepts the same bytes. */
  lemma {:induction false} AsWrittenAgreesOnFrames(memory: seq<Byte>, dataLength: U32, pos: nat)
    requires pos <= dataLength <= |memory|
    requires ScanSpec(memory[..dataLength], pos).FrameAt?
    ensures ScanAsWritten(memory, dataLength, pos, dataLength - pos) == ScanSpec(memory[..dataLength], pos)
    decreases dataLength - pos
  {
    var data := memory[..dataLength];
    assert NextStart(data, pos).Some?;
    var s := NextStart(data, pos).value;
    SpecAtMarker(data, pos, s);
    assert s + 4 < dataLength;
    forall i | pos <= i < s
      ensures memory[i] != FRAME_START
    {
      assert memory[i] == data[i];
    }
    assert memory[s] == data[s];
    SkipFinds(memory, dataLength, pos, s);
    AsWrittenAtMarker(memory, dataLength, pos, s);
    assert memory[s + 3] == data[s + 3] && memory[s + 4] == data[s + 4];
    var payloadLength := Combine(data[s + 3], data[s + 4]);
    if payloadLength > RxPayloadLengthMax {
      AsWrittenAgreesOnFrames(memory, dataLength, s + 1);
    } else {
      assert s + payloadLength + FramingBytes <= dataLength;
    }
  }

  /** One step of the intended scan from the marker it finds. */
  lemma SpecAtMarker(data: seq<Byte>, pos: nat, s: nat)
    requires pos <= |data| && NextStart(data, pos) == Some(s)
    ensures s + 4 >= |data| ==> ScanSpec(data, pos) == NeedMore
    ensures s + 4 < |data| ==>
      var payloadLength := Combine(data[s + 3], data[s + 4]);
      ScanSpec(data, pos)
        == if payloadLength > RxPayloadLengthMax then ScanSpec(data, s + 1)
           else if s + payloadLength + FramingBytes <= |data| then FrameAt(s, payloadLength, s + payloadLength + FramingBytes)
           else NeedMore
  {
  }

  /** One step of the scan as written from the marker its skip loop stops after. */
  lemma AsWrittenAtMarker(memory: seq<Byte>, dataLength: U32, pos: nat, s: nat)
    requires pos <= s < dataLength && s + 4 < |memory|
    requires SkipAsWritten(memory, pos, dataLength - pos) == Some((s + 1, dataLength - s))
    ensures var payloadLength := Combine(memory[s + 3], memory[s + 4]);
      ScanAsWritten(memory, dataLength, pos, dataLength - pos)
        == if payloadLength > RxPayloadLengthMax then ScanAsWritten(memory, dataLength, s + 1, dataLength - s - 1)
           else if dataLength - s >= payloadLength + FramingBytes then
             FrameAt(s, payloadLength, Trunc32(s + payloadLength + FramingBytes))
           else NeedMore
  {
  }

  /**
   * With no start marker among the bytes received nor in the byte after
   * them, the count wraps and the scan as written takes the bytes after the
   * received data for a frame: it accepts more bytes than were received,
   * where the intended scan discards them all.
   */
  lemma AsWrittenOverruns(memory: seq<Byte>, dataLength: U32)
    requires dataLength + 4 < |memory| && dataLength + RxPayloadLengthMax + 8 < 0x1_0000_0000
    requires forall i :: 0 <= i <= dataLength ==> memory[i] != FRAME_START
    requires Combine(memory[dataLength + 3], memory[dataLength + 4]) <= RxPayloadLengthMax
    ensures var payloadLength := Combine(memory[dataLength + 3], memory[dataLength + 4]);
      ScanAsWritten(memory, dataLength, 0, dataLength) == FrameAt(dataLength, payloadLength, dataLength + payloadLength + 8)
    ensures ScanSpec(memory[..dataLength], 0) == Discarded(dataLength)
  {
    SkipNoMarker(memory, 0, dataLength);
    var data := memory[..dataLength];
    NextStartAt(data, 0, dataLength);
  }

  /**
   * The 256-byte buffer of the receive loop cannot hold a frame whose
   * payload is longer than 249 bytes, yet lengths up to 256 pass as
   * plausible: such a frame is waited for however full the buffer is.
   */
  lemma OversizedFrameNeverFits(data: seq<Byte>)
    requires |data| == RxBufferSize && data[0] == FRAME_START
    requires RxBufferSize - FramingBytes < Combine(data[3], data[4]) <= RxPayloadLengthMax
    ensures ScanSpec(data, 0) == NeedMore
  {
    NextStartAt(data, 0, 0);
  }

  // ------------------------------------------------------- cs_zigbee_task

  /** What the receive loop holds between reads: the bytes not yet consumed, whether the clock was set, and the frames handled. */
  datatype RxState = RxState(data: seq<Byte>, timeIsSet: bool, handled: seq<Action>)

  /**
   * One scan over the bytes present: the frame it finds is handled, and
   * the accepted bytes are dropped from the front.
   */
  function Consume(st: RxState, standardTime: U16, now: int): RxState
  {
    var scan := ScanSpec(st.data, 0);
    var rest := st.data[Accepted(scan)..];
    if scan.FrameAt? then
      var a := FrameAction(Corrected, st.data[scan.start..], scan.payloadLength, standardTime, st.timeIsSet, now);
      RxState(rest, st.timeIsSet || a.ClockSet?, st.handled + [a])
    else st.(data := rest)
  }

  /**
   * One turn of the receive loop: the bytes read are appended; if some were
   * read and more than 10 are present, one scan runs.
   */
  function ReceiveSpec(st: RxState, incoming: seq<Byte>, standardTime: U16, now: int): (r: RxState)
    ensures |incoming| == 0 ==> r == st
    ensures |st.data| + |incoming| <= RxMinimumFrameSize ==> r == st.(data := st.data + incoming)
  {
    var data := st.data + incoming;
    if |incoming| == 0 || |data| <= RxMinimumFrameSize then st.(data := data)
    else Consume(st.(data := data), standardTime, now)
  }

  /**
   * The bytes left after a turn are the tail of what was present plus what
   * was read: nothing is invented or reordered, and at most one frame is
   * handled per turn.
   */
  lemma ReceiveKeepsTail(st: RxState, incoming: seq<Byte>, standardTime: U16, now: int)
    ensures var r := ReceiveSpec(st, incoming, standardTime, now);
      var data := st.data + incoming;
      |r.data| <= |data| && r.data == data[|data| - |r.data|..]
      && (r.handled == st.handled || (|r.handled| == |st.handled| + 1 && r.handled[..|st.handled|] == st.handled))
  {
  }

  /** Once the clock has been set, later frames only adjust it. */
  lemma ClockSetOnce(st: RxState, incoming: seq<Byte>, standardTime: U16, now: int)
    requires st.timeIsSet
    ensures var r := ReceiveSpec(st, incoming, standardTime, now);
      r.timeIsSet && forall i :: |st.handled| <= i < |r.handled| ==> !r.handled[i].ClockSet?
  {
  }

  /**
   * A full buffer holding a frame that cannot fit leaves no room to read
   * into: every later turn reads nothing and changes nothing, so the
   * receiver stops for good.
   */
  lemma FullBufferStalls(st: RxState, incoming: seq<Byte>, standardTime: U16, now: int)
    requires |st.data| == RxBufferSize && |incoming| <= RxBufferSize - |st.data|
    ensures ReceiveSpec(st, incoming, standardTime, now) == st
  {
    assert incoming == [];
    assert st.data + incoming == st.data;
  }

  /** The receive task: its buffer, the number of bytes in it, whether the clock has been set, and the frames handled so far. */
  class ZigbeeTask {
    const buffer: array<Byte>
    var bytesPresent: nat
    var timeIsSet: bool
    var handled: seq<Action>

    ghost predicate Valid()
      reads this
    {
      buffer.Length == RxBufferSize && bytesPresent <= RxBufferSize
    }

    /** The task's state as the receive loop's specification sees it. */
    function State(): RxState
      requires Valid()
      reads this, buffer
    {
      RxState(buffer[..bytesPresent], timeIsSet, handled)
    }

    constructor ()
      ensures Valid() && fresh(buffer)
      ensures State() == RxState([], false, [])
    {
      buffer := new Byte[RxBufferSize];
      bytesPresent := 0;
      timeIsSet := false;
      handled := [];
    }

    /** `uart_read_bytes` into the free space after the bytes present. */
    method Append(incoming: seq<Byte>)
      requires Valid() && |incoming| <= RxBufferSize - bytesPresent
      modifies buffer
      ensures buffer[..bytesPresent + |incoming|] == old(buffer[..bytesPresent]) + incoming
    {
      var i: nat := 0;
      while i < |incoming|
        invariant i <= |incoming|
        invariant buffer[..bytesPresent] == old(buffer[..bytesPresent])
        invariant buffer[bytesPresent..bytesPresent + i] == incoming[..i]
      {
        buffer[bytesPresent + i] := incoming[i];
        i := i + 1;
      }
      assert buffer[..bytesPresent + i] == buffer[..bytesPresent] + buffer[bytesPresent..bytesPresent + i];
    }

    /** `memmove(buffer, &buffer[from], count)`, copying forwards. */
    method Compact(from: nat, count: nat)
      requires Valid() && from + count <= RxBufferSize
      modifies buffer
      ensures buffer[..count] == old(buffer[from..from + count])
    {
      var i: nat := 0;
      while i < count
        invariant i <= count
        invariant buffer[..i] == old(buffer[from..from + i])
        invariant buffer[i..] == old(buffer[i..])
      {
        buffer[i] := buffer[from + i];
        i := i + 1;
      }
    }

    /** `zbhci_frame` on the frame at `start`: its action is recorded, and a first good time sets the clock. */
    method HandleFrame(start: nat, payloadLength: U16, standardTime: U16, now: int)
      requires Valid() && start <= bytesPresent
      modifies this
      ensures Valid() && bytesPresent == old(bytesPresent)
      ensures var a := FrameAction(Corrected, buffer[start..bytesPresent], payloadLength, standardTime, old(timeIsSet), now);
        handled == old(handled) + [a] && timeIsSet == (old(timeIsSet) || a.ClockSet?)
    {
      var a := FrameAction(Corrected, buffer[start..bytesPresent], payloadLength, standardTime, timeIsSet, now);
      handled := handled + [a];
      if a.ClockSet? {
        timeIsSet := true;
      }
    }

    /** The part of a turn after the read: `zbhci_maybe_frame`, then dropping the accepted bytes. */
    method ConsumeFrame(standardTime: U16, now: int)
      requires Valid()
      modifies this, buffer
      ensures Valid()
      ensures State() == Consume(old(State()), standardTime, now)
    {
      ghost var data := buffer[..bytesPresent];
      var scan := MaybeFrame(buffer, bytesPresent);
      if scan.FrameAt? {
        HandleFrame(scan.start, scan.payloadLength, standardTime, now);
      }
      var accepted := Accepted(scan);
      bytesPresent := bytesPresent - accepted;
      if bytesPresent > 0 {
        Compact(accepted, bytesPresent);
      }
      assert buffer[..bytesPresent] == data[accepted..];
    }

    /** One turn of the loop in `cs_zigbee_task`, with the scan corrected. */
    method Receive(incoming: seq<Byte>, standardTime: U16, now: int)
      requires Valid() && |incoming| <= RxBufferSize - bytesPresent
      modifies this, buffer
      ensures Valid()
      ensures State() == ReceiveSpec(old(State()), incoming, standardTime, now)
    {
      ghost var st := State();
      Append(incoming);
      bytesPresent := bytesPresent + |incoming|;
      ghost var read := st.(data := st.data + incoming);
      assert State() == read;
      if |incoming| > 0 && bytesPresent > RxMinimumFrameSize {
        ConsumeFrame(standardTime, now);
        assert State() == Consume(read, standardTime, now);
      }
    }
  }
}
