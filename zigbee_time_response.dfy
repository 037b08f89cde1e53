// The time response the Telink firmware sends (its read-attributes response
// for the standard-time attribute, as the ZCL serialiser lays it out) and
// what the ESP32's receiver makes of it: read after the command header the
// clock is set from it, read where the receiver lays its overlay as written
// the header bytes are taken for the record.
module ZigbeeTimeResponse {
  import opened Bytes
  import opened ZbhciConstants
  import Zbhci
  import ZbhciWire
  import Zcl
  import opened ZigbeeRx

  /** A time response's payload: command header, count, and a record of identifier, status, type and 4 value bytes. */
  const TimePayloadLength: nat := CommandHeaderSize + 1 + 8

  /** The Telink firmware's record for a read of the standard-time attribute, holding the stored (least significant first) value. */
  function TimeRecord(standardTime: U16, stored: seq<Byte>): Zcl.ReadRecord
  {
    Zcl.ReadRecord(standardTime, SUCCESS, UTC, stored)
  }

  /** The payload of that response: the command header, the count 1 and the record. */
  function TimePayload(h: Zbhci.CommandHeader, standardTime: U16, stored: seq<Byte>): seq<Byte>
  {
    Zcl.ReadRsp(h, [TimeRecord(standardTime, stored)])
  }

  /** The payload byte by byte: the value goes out byte-reversed, as the serialiser swaps a UTC value. */
  lemma TimePayloadBytes(h: Zbhci.CommandHeader, standardTime: U16, stored: seq<Byte>)
    ensures TimePayload(h, standardTime, stored)
      == [Hi(h.sourceAddress), Lo(h.sourceAddress), h.sourceEndpoint, h.destinationEndpoint, h.sequenceNumber,
          Hi(h.clusterId), Lo(h.clusterId), 1, Hi(standardTime), Lo(standardTime), SUCCESS, UTC] + Reverse(stored)
  {
    var r := TimeRecord(standardTime, stored);
    Zcl.HiLo(h.sourceAddress);
    Zcl.HiLo(h.clusterId);
    assert ZbhciWire.Concat(Zcl.ReadChunks([r])) == Zcl.ReadRecordBytes(r) by {
      assert Zcl.ReadChunks([r])[..0] == [];
    }
  }

  /** A zbhci frame's command id, CRC and payload where the receiver reads them. */
  lemma FrameFields(commandId: U16, payload: seq<Byte>)
    requires |payload| < 0x1_0000
    ensures var f := ZbhciWire.FrameBytes(commandId, payload);
      |f| == PayloadStart + |payload| + 1 && f[1] == Hi(commandId) && f[2] == Lo(commandId)
      && f[5] == Zbhci.Crc8Of(commandId, |payload|, payload) && f[PayloadStart..][..|payload|] == payload
  {
    Zcl.HiLo(commandId);
  }

  /** The frame the Telink firmware sends for the time response. */
  function TimeResponseFrame(h: Zbhci.CommandHeader, standardTime: U16, stored: seq<Byte>): (frame: seq<Byte>)
    requires |stored| == 4
    ensures |frame| == PayloadStart + TimePayloadLength + 1
  {
    TimePayloadBytes(h, standardTime, stored);
    FrameFields(ATTR_READ_RSP, TimePayload(h, standardTime, stored));
    ZbhciWire.FrameBytes(ATTR_READ_RSP, TimePayload(h, standardTime, stored))
  }

  /**
   * The fields of a frame carrying a time response: the command id, a
   * CRC that matches, the command header at `pData[0]`, and the record
   * after it.
   */
  predicate TimeFrame(frame: seq<Byte>, h: Zbhci.CommandHeader, standardTime: U16, stored: seq<Byte>)
  {
    |frame| == PayloadStart + TimePayloadLength + 1
    && Combine(frame[1], frame[2]) == ATTR_READ_RSP
    && Zbhci.Crc8Of(ATTR_READ_RSP, TimePayloadLength, frame[PayloadStart..][..TimePayloadLength]) == frame[5]
    && frame[6..11] == [Hi(h.sourceAddress), Lo(h.sourceAddress), h.sourceEndpoint, h.destinationEndpoint, h.sequenceNumber]
    && frame[13] == 1 && Combine(frame[14], frame[15]) == standardTime
    && frame[16] == SUCCESS && frame[17] == UTC && frame[18..22] == Reverse(stored)
  }

  /** The payload's fields one by one. */
  lemma TimePayloadFields(h: Zbhci.CommandHeader, standardTime: U16, stored: seq<Byte>)
    requires |stored| == 4
    ensures var p := TimePayload(h, standardTime, stored);
      |p| == TimePayloadLength
      && p[..5] == [Hi(h.sourceAddress), Lo(h.sourceAddress), h.sourceEndpoint, h.destinationEndpoint, h.sequenceNumber]
      && p[7] == 1 && p[8] == Hi(standardTime) && p[9] == Lo(standardTime)
      && p[10] == SUCCESS && p[11] == UTC && p[12..] == Reverse(stored)
  {
    TimePayloadBytes(h, standardTime, stored);
  }

  /** A frame whose payload has the fields of a time response is a time frame. */
  lemma PayloadMakesTimeFrame(frame: seq<Byte>, p: seq<Byte>, h: Zbhci.CommandHeader, standardTime: U16, stored: seq<Byte>)
    requires |frame| == PayloadStart + TimePayloadLength + 1 && |p| == TimePayloadLength
    requires frame[1] == Hi(ATTR_READ_RSP) && frame[2] == Lo(ATTR_READ_RSP)
    requires frame[5] == Zbhci.Crc8Of(ATTR_READ_RSP, TimePayloadLength, p) && frame[PayloadStart..][..TimePayloadLength] == p
    requires p[..5] == [Hi(h.sourceAddress), Lo(h.sourceAddress), h.sourceEndpoint, h.destinationEndpoint, h.sequenceNumber]
    requires p[7] == 1 && p[8] == Hi(standardTime) && p[9] == Lo(standardTime)
    requires p[10] == SUCCESS && p[11] == UTC && p[12..] == Reverse(stored)
    ensures TimeFrame(frame, h, standardTime, stored)
  {
    SplitCombines(ATTR_READ_RSP);
    SplitCombines(standardTime);
    assert frame[6..11] == p[..5];
    assert frame[18..22] == p[12..];
    assert frame[13] == p[7] && frame[14] == p[8] && frame[15] == p[9] && frame[16] == p[10] && frame[17] == p[11];
  }

  /** Where the bytes of a time response lie in its frame. */
  lemma TimeResponseLayout(h: Zbhci.CommandHeader, standardTime: U16, stored: seq<Byte>)
    requires |stored| == 4
    ensures TimeFrame(TimeResponseFrame(h, standardTime, stored), h, standardTime, stored)
  {
    var p := TimePayload(h, standardTime, stored);
    TimePayloadFields(h, standardTime, stored);
    FrameFields(ATTR_READ_RSP, p);
    PayloadMakesTimeFrame(TimeResponseFrame(h, standardTime, stored), p, h, standardTime, stored);
  }

  /** What the receiver does with a time frame, read after the header. */
  lemma TimeFrameAction(frame: seq<Byte>, h: Zbhci.CommandHeader, standardTime: U16, stored: seq<Byte>, timeIsSet: bool, now: int)
    requires TimeFrame(frame, h, standardTime, stored)
    ensures var unix := UnixTime(ZigbeeTime(Reverse(stored)));
      FrameAction(Corrected, frame, TimePayloadLength, standardTime, timeIsSet, now)
        == if timeIsSet then ClockAdjusted(unix - now) else ClockSet(unix)
  {
    assert frame[13..][5..9] == frame[18..22];
  }

  /** What the overlay as written reads from a time frame. */
  lemma TimeFrameOverlay(frame: seq<Byte>, h: Zbhci.CommandHeader, standardTime: U16, stored: seq<Byte>, timeIsSet: bool, now: int)
    requires TimeFrame(frame, h, standardTime, stored) && Hi(h.sourceAddress) != 1
    ensures var attr := frame[AttrOffset(AsWritten)..];
      attr[..5] == [Hi(h.sourceAddress), Lo(h.sourceAddress), h.sourceEndpoint, h.destinationEndpoint, h.sequenceNumber]
      && ReadAttrRsp(Corrected, attr, TimePayloadLength, standardTime, timeIsSet, now) == Forwarded(TimePayloadLength)
  {
    assert frame[6..][..5] == frame[6..11];
  }

  /**
   * Read after its command header, the Telink firmware's time response
   * sets the clock to the ZigBee time it carries (the stored value, sent
   * byte-reversed into network order) the first time, and adjusts it after.
   */
  lemma ProducerTimeSetsClock(h: Zbhci.CommandHeader, standardTime: U16, stored: seq<Byte>, timeIsSet: bool, now: int)
    requires |stored| == 4
    ensures var unix := UnixTime(ZigbeeTime(Reverse(stored)));
      FrameAction(Corrected, TimeResponseFrame(h, standardTime, stored), TimePayloadLength, standardTime, timeIsSet, now)
        == if timeIsSet then ClockAdjusted(unix - now) else ClockSet(unix)
  {
    TimeResponseLayout(h, standardTime, stored);
    TimeFrameAction(TimeResponseFrame(h, standardTime, stored), h, standardTime, stored, timeIsSet, now);
  }

  /**
   * As written, the overlay at `pData[0]` lies over the command header: it
   * takes the source address for the count and the identifier, the
   * destination endpoint for the status and the sequence number for the
   * type. Even with the byte combination corrected, the time response of
   * a node whose short address is not 0x01xx is forwarded and never sets
   * the clock.
   */
  lemma HeaderTakenForCount(h: Zbhci.CommandHeader, standardTime: U16, stored: seq<Byte>, timeIsSet: bool, now: int)
    requires |stored| == 4 && Hi(h.sourceAddress) != 1
    ensures var attr := TimeResponseFrame(h, standardTime, stored)[AttrOffset(AsWritten)..];
      attr[..5] == [Hi(h.sourceAddress), Lo(h.sourceAddress), h.sourceEndpoint, h.destinationEndpoint, h.sequenceNumber]
      && ReadAttrRsp(Corrected, attr, TimePayloadLength, standardTime, timeIsSet, now) == Forwarded(TimePayloadLength)
  {
    TimeResponseLayout(h, standardTime, stored);
    TimeFrameOverlay(TimeResponseFrame(h, standardTime, stored), h, standardTime, stored, timeIsSet, now);
  }
}
