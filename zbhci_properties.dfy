// What the decoder promises about ill-formed and well-formed frames: which
// error each kind of damage produces and in which order the checks are made,
// what the checksum covers, how each value is read, and the two places where
// the decoder as written departs from the layout the producer writes.
module ZbhciProperties {
  import opened Wrappers
  import opened Bytes
  import opened ZbhciConstants
  import opened Zbhci
  import opened ZbhciWire

  // ---------------------------------------------------------------- framing

  /** The errors that only the frame header can raise. */
  predicate HeaderError(e: ZbhciError)
  {
    e.Framing? || e.CrcMismatch? || e.Diverges?
  }

  lemma CommandHeaderErrors(frame: seq<Byte>, offset: nat)
    ensures CommandHeaderOf(frame, offset).Err? ==> CommandHeaderOf(frame, offset).error == Truncated
  {
  }

  /** After a frame header has been accepted, only the command header and the records can fail. */
  lemma LaterErrors(build: Build, frame: seq<Byte>)
    requires FrameHeaderOf(frame).Ok?
    ensures DecodeWire(build, frame).Err? ==> !HeaderError(DecodeWire(build, frame).error)
  {
    var fh := FrameHeaderOf(frame).value;
    CommandHeaderErrors(frame, fh.1);
    var ch := CommandHeaderOf(frame, fh.1);
  }

  /**
   * Decoding fails with a framing error exactly when the buffer is not
   * empty and its first byte is not the start marker or its last byte is
   * not the end marker; the error carries both bytes.
   */
  lemma FramingIff(build: Build, frame: seq<Byte>)
    ensures var r := DecodeWire(build, frame);
      (r.Err? && r.error.Framing?)
      <==> (|frame| > 0 && (frame[0] != FRAME_START || frame[|frame| - 1] != FRAME_END))
    ensures |frame| > 0 && (frame[0] != FRAME_START || frame[|frame| - 1] != FRAME_END) ==>
      DecodeWire(build, frame) == Err(Framing(frame[0], frame[|frame| - 1]))
  {
    if FrameHeaderOf(frame).Ok? {
      LaterErrors(build, frame);
    }
  }

  // ---------------------------------------------------------------- frame header

  /** The command identifier and payload length fields, big-endian. */
  function CommandIdField(frame: seq<Byte>): U16
    requires |frame| >= 3
  {
    BigEndian(frame[1..3])
  }

  function PayloadLengthField(frame: seq<Byte>): U16
    requires |frame| >= 5
  {
    BigEndian(frame[3..5])
  }

  /**
   * What the frame header requires: both markers, a payload that fits
   * before the end of the buffer (any bytes may follow it) and is shorter
   * than 0xFFFF, and a CRC byte equal to the checksum of that payload.
   */
  predicate HeaderAccepted(frame: seq<Byte>)
  {
    && |frame| >= 6 && frame[0] == FRAME_START && frame[|frame| - 1] == FRAME_END
    && 6 + PayloadLengthField(frame) <= |frame| && PayloadLengthField(frame) < 0xFFFF
    && frame[5] == Crc8Of(CommandIdField(frame), PayloadLengthField(frame),
                          frame[6..6 + PayloadLengthField(frame)])
  }

  lemma ReadU16Field(frame: seq<Byte>, offset: nat)
    requires offset + 2 <= |frame|
    ensures ReadU16(frame, offset) == Ok((BigEndian(frame[offset..offset + 2]), offset + 2))
  {
  }

  lemma Crc8Field(frame: seq<Byte>)
    requires |frame| >= 6 && 6 + PayloadLengthField(frame) <= |frame| && PayloadLengthField(frame) < 0xFFFF
    ensures Crc8(CommandIdField(frame), PayloadLengthField(frame), frame, 5)
         == Ok(Crc8Of(CommandIdField(frame), PayloadLengthField(frame), frame[6..6 + PayloadLengthField(frame)]))
  {
    if PayloadLengthField(frame) == 0 {
      assert frame[6..6] == [];
    }
  }

  /**
   * The frame header is accepted exactly under HeaderAccepted; it then
   * holds the two fields and the received CRC, and the cursor is 6.
   */
  lemma FrameHeaderIff(frame: seq<Byte>)
    ensures FrameHeaderOf(frame).Ok? <==> HeaderAccepted(frame)
    ensures FrameHeaderOf(frame).Ok? ==>
      FrameHeaderOf(frame).value
      == (FrameHeader(CommandIdField(frame), PayloadLengthField(frame), frame[5]), 6)
  {
    if |frame| >= 6 && frame[0] == FRAME_START && frame[|frame| - 1] == FRAME_END {
      ReadU16Field(frame, 1);
      ReadU16Field(frame, 3);
      if 6 + PayloadLengthField(frame) <= |frame| && PayloadLengthField(frame) < 0xFFFF {
        Crc8Field(frame);
      }
    }
  }

  /** A frame with good markers and a complete payload whose CRC byte is wrong is refused with both values. */
  lemma CrcMismatchReported(frame: seq<Byte>)
    requires |frame| >= 6 && frame[0] == FRAME_START && frame[|frame| - 1] == FRAME_END
    requires 6 + PayloadLengthField(frame) <= |frame| && PayloadLengthField(frame) < 0xFFFF
    requires var crc := Crc8Of(CommandIdField(frame), PayloadLengthField(frame),
                               frame[6..6 + PayloadLengthField(frame)]);
      frame[5] != crc
    ensures FrameHeaderOf(frame)
         == Err(CrcMismatch(Crc8Of(CommandIdField(frame), PayloadLengthField(frame),
                                   frame[6..6 + PayloadLengthField(frame)]), frame[5]))
  {
    ReadU16Field(frame, 1);
    ReadU16Field(frame, 3);
    Crc8Field(frame);
  }

  /** Changing one byte changes the checksum. */
  lemma Crc8OfUpdate(commandId: U16, payloadLength: U16, payload: seq<Byte>, i: nat, v: Byte)
    requires i < |payload| && v != payload[i]
    ensures Crc8Of(commandId, payloadLength, payload[i := v]) != Crc8Of(commandId, payloadLength, payload)
  {
    var x := XorAll(payload);
    var d := Xor(payload[i], v);
    XorAllUpdate(payload, i, v);
    XorZero(payload[i], v);
    if Xor(x, d) == x {
      assert Xor(x, d) == Xor(x, 0);
      XorCancel(x, d, 0);
    }
    if Crc8Of(commandId, payloadLength, payload[i := v]) == Crc8Of(commandId, payloadLength, payload) {
      XorCancel(CrcSeed(commandId, payloadLength), XorAll(payload[i := v]), x);
    }
  }

  /**
   * Corrupting any single payload byte (other than a last byte that is
   * also the end marker) of an accepted frame makes its CRC check fail.
   */
  lemma CrcDetectsOneByteChange(frame: seq<Byte>, i: nat, v: Byte)
    requires HeaderAccepted(frame)
    requires 6 <= i < 6 + PayloadLengthField(frame) && i < |frame| - 1 && v != frame[i]
    ensures var r := FrameHeaderOf(frame[i := v]);
      r.Err? && r.error.CrcMismatch? && r.error.received == frame[5]
  {
    var f := frame[i := v];
    var n := PayloadLengthField(frame);
    assert f[1..3] == frame[1..3] && f[3..5] == frame[3..5];
    assert f[6..6 + n] == frame[6..6 + n][i - 6 := v];
    Crc8OfUpdate(CommandIdField(frame), n, frame[6..6 + n], i - 6, v);
    CrcMismatchReported(f);
  }

  /** The frame header ignores whatever lies between the payload and the end marker. */
  lemma BytesAfterPayloadIgnored(frame: seq<Byte>, extra: seq<Byte>)
    requires HeaderAccepted(frame)
    ensures var f := frame[..6 + PayloadLengthField(frame)] + extra + [FRAME_END];
      FrameHeaderOf(f) == FrameHeaderOf(frame)
  {
    var n := PayloadLengthField(frame);
    var f := frame[..6 + n] + extra + [FRAME_END];
    assert f[..6 + n] == frame[..6 + n];
    assert f[1..3] == frame[1..3] && f[3..5] == frame[3..5] && f[6..6 + n] == frame[6..6 + n];
    FrameHeaderIff(frame);
    FrameHeaderIff(f);
  }

  /** The unit test vectors of the frame header. */
  lemma FrameHeaderVectors(build: Build)
    ensures DecodeWire(build, [0x11, 0x22, 0xAA]) == Err(Framing(0x11, 0xAA))
    ensures DecodeWire(build, [0x55, 0x11, 0x22]) == Err(Framing(0x55, 0x22))
    ensures DecodeWire(build, [0x55, 0x01, 0x02, 0x00, 0x00, 0xCC, 0xAA]) == Err(CrcMismatch(0x03, 0xCC))
  {
    var f := [0x55, 0x01, 0x02, 0x00, 0x00, 0xCC, 0xAA];
    CrcVectorFields(f);
    CrcMismatchReported(f);
  }

  /** The fields of the CRC test vector, read off its bytes. */
  lemma CrcVectorFields(f: seq<Byte>)
    requires f == [0x55, 0x01, 0x02, 0x00, 0x00, 0xCC, 0xAA]
    ensures f[1..3] == [0x01, 0x02] && f[3..5] == [0x00, 0x00] && f[6..6] == []
    ensures BigEndian(f[1..3]) == 0x0102 && Crc8Of(0x0102, 0, []) == 0x03
  {
    assert f[1..3] == [0x01, 0x02];
    assert f[3..5] == [0x00, 0x00];
    assert BigEndian([0x01, 0x02]) == 0x0102;
    assert Crc8Of(0x0102, 0, []) == 0x03 by {
      assert Xor8(Lo(0x0102), Hi(0x0102)) == Xor(2, 1) == 3;
    }
  }

  // ---------------------------------------------------------------- command header

  /** The command header is read whenever seven bytes remain: address, three single bytes, cluster. */
  lemma CommandHeaderIff(frame: seq<Byte>, offset: nat)
    ensures CommandHeaderOf(frame, offset).Ok? <==> offset + 7 <= |frame|
    ensures offset + 7 <= |frame| ==>
      CommandHeaderOf(frame, offset)
      == Ok((CommandHeader(BigEndian(frame[offset..offset + 2]), frame[offset + 2], frame[offset + 3],
                           frame[offset + 4], BigEndian(frame[offset + 5..offset + 7])), offset + 7))
  {
  }

  /**
   * A command other than the read-attributes response is refused, but only
   * once the command header has been read: on a buffer too short for it the
   * error is Truncated.
   */
  lemma NotAttributesIff(build: Build, frame: seq<Byte>)
    ensures var r := DecodeWire(build, frame);
      (r.Err? && r.error.NotAttributes?)
      <==> (HeaderAccepted(frame) && CommandIdField(frame) != ATTR_READ_RSP && 13 <= |frame|)
    ensures HeaderAccepted(frame) && CommandIdField(frame) != ATTR_READ_RSP && 13 <= |frame| ==>
      DecodeWire(build, frame) == Err(NotAttributes(CommandIdField(frame)))
  {
    FrameHeaderIff(frame);
    if FrameHeaderOf(frame).Ok? {
      CommandHeaderIff(frame, 6);
      LaterErrors(build, frame);
      if CommandIdField(frame) == ATTR_READ_RSP {
        ReadRspNotRefused(build, frame);
      }
    }
  }

  /** A read-attributes response is never refused as another command: its records fail in their own ways. */
  lemma ReadRspNotRefused(build: Build, frame: seq<Byte>)
    requires FrameHeaderOf(frame).Ok? && FrameHeaderOf(frame).value.0.commandId == ATTR_READ_RSP
    ensures DecodeWire(build, frame).Err? ==> !DecodeWire(build, frame).error.NotAttributes?
  {
    var fh := FrameHeaderOf(frame).value;
    var ch := CommandHeaderOf(frame, fh.1);
    if ch.Ok? {
      var count := ReadByte(frame, ch.value.1);
      if count.Ok? {
        var records := AttributesFrom(build, frame, count.value.1, count.value.0, []);
        assert records.Err? ==> RecordError(records.error);
      }
    }
  }

  // ---------------------------------------------------------------- records

  /** The records of a decoded message: exactly `frame[13]` of them, read in wire order from byte 14. */
  lemma AttributeCount(build: Build, frame: seq<Byte>)
    ensures var r := DecodeWire(build, frame);
      r.Ok? ==>
        && HeaderAccepted(frame) && CommandIdField(frame) == ATTR_READ_RSP && 14 <= |frame|
        && |r.value.attributes| == frame[13]
        && AttributesFrom(build, frame, 14, frame[13], []).Ok?
        && r.value.attributes == AttributesFrom(build, frame, 14, frame[13], []).value.0
  {
    FrameHeaderIff(frame);
    if FrameHeaderOf(frame).Ok? {
      CommandHeaderIff(frame, 6);
    }
  }

  /**
   * A record whose status is not success is refused, naming identifier and
   * status, before its data-type byte is read: three bytes are enough.
   */
  lemma StatusBeforeDataType(build: Build, frame: seq<Byte>, offset: nat)
    requires offset + 3 <= |frame| && frame[offset + 2] != SUCCESS
    ensures GetAttribute(build, frame, offset)
         == Err(AttributeStateInvalid(frame[offset + 2], BigEndian(frame[offset..offset + 2])))
  {
  }

  /** The first record that fails ends the whole read with its error. */
  lemma FailedRecordAborts(build: Build, frame: seq<Byte>, offset: nat, count: nat, acc: seq<Attribute>)
    requires count > 0 && GetAttribute(build, frame, offset).Err?
    ensures AttributesFrom(build, frame, offset, count, acc) == Err(GetAttribute(build, frame, offset).error)
  {
  }

  /** A data type is refused as unsupported exactly when it is outside the supported families. */
  lemma UnsupportedIff(build: Build, dataType: Byte, frame: seq<Byte>, offset: nat)
    ensures ValueAt(build, dataType, frame, offset) == Err(UnsupportedValueType(dataType))
        <==> KindOf(dataType) == Unsupported
  {
  }

  /** Among the rejected tags: 8-bit integers, booleans, odd widths, collections, time of day and keys. */
  lemma RejectedTags()
    ensures forall t | t in {UINT8, INT8, BOOLEAN, DATA8, BITMAP8, DATA24, UINT24, INT24, BITMAP24,
                             DATA40, UINT40, INT40, BITMAP40, DATA56, UINT56, INT56, BITMAP56,
                             NO_DATA, ARRAY, STRUCT, SET, BAG, TOD, BIT_128_SEC_KEY, UNKNOWN}
      :: KindOf(t) == Unsupported
  {
  }

  /**
   * Every accepted tag is read as its case group says; were two tags of
   * different groups the same byte, one of these would fail.
   */
  lemma SupportedTags()
    ensures forall t | t in {LONG_CHAR_STR, LONG_OCTET_STR} :: KindOf(t) == LongString
    ensures forall t | t in {CHAR_STR, OCTET_STR} :: KindOf(t) == ShortString
    ensures KindOf(ENUM8) == Enum8
    ensures forall t | t in {DATA16, BITMAP16, UINT16, INT16, ENUM16, SEMI_PREC, CLUSTER_ID, ATTR_ID} :: KindOf(t) == Uint16
    ensures forall t | t in {DATA32, BITMAP32, UINT32, INT32, SINGLE_PREC, DATE, UTC, BAC_OID} :: KindOf(t) == Uint32
    ensures forall t | t in {DATA48, BITMAP48, UINT48, INT48} :: KindOf(t) == Uint48
    ensures forall t | t in {DATA64, BITMAP64, UINT64, INT64, DOUBLE_PREC, IEEE_ADDR} :: KindOf(t) == Uint64
  {
  }

  // ---------------------------------------------------------------- values

  /** Fixed-width integers are the big-endian reading of their bytes, and the cursor moves past them. */
  lemma IntegerValues(build: Build, dataType: Byte, frame: seq<Byte>, offset: nat)
    ensures Pow256(4) == 0x1_0000_0000
    ensures KindOf(dataType) == Enum8 ==>
      ValueAt(build, dataType, frame, offset)
      == if offset + 1 <= |frame| then Ok((Enum8Value(frame[offset]), offset + 1)) else Err(Truncated)
    ensures KindOf(dataType) == Uint16 ==>
      ValueAt(build, dataType, frame, offset)
      == if offset + 2 <= |frame| then Ok((Uint16Value(BigEndian(frame[offset..offset + 2])), offset + 2))
         else Err(Truncated)
    ensures KindOf(dataType) == Uint32 ==>
      ValueAt(build, dataType, frame, offset)
      == if offset + 4 <= |frame| then Ok((Uint32Value(BigEndian(frame[offset..offset + 4])), offset + 4))
         else Err(Truncated)
  {
  }

  /**
   * A 48-bit value is `(hi32 << 16) + lo16`, which is the big-endian
   * reading of its six bytes; the decoder as written also needs two more
   * bytes in the buffer, the corrected one does not.
   */
  lemma Uint48Values(frame: seq<Byte>, offset: nat)
    ensures ReadUint48(frame, offset).Ok? <==> offset + 8 <= |frame|
    ensures ReadUint48Corrected(frame, offset).Ok? <==> offset + 6 <= |frame|
    ensures offset + 6 <= |frame| ==>
      ReadUint48Corrected(frame, offset) == Ok((Uint48Value(BigEndian(frame[offset..offset + 6])), offset + 6))
    ensures offset + 8 <= |frame| ==> ReadUint48(frame, offset) == ReadUint48Corrected(frame, offset)
  {
    if offset + 8 <= |frame| {
      var s := frame[offset..offset + 6];
      assert s == frame[offset..offset + 4] + frame[offset + 4..offset + 6];
      BigEndianAppend(frame[offset..offset + 4], frame[offset + 4..offset + 6]);
      assert Pow256(2) == 0x1_0000;
    }
  }

  /** A 64-bit value is read big-endian, but the decoder as written leaves the cursor at its first byte. */
  lemma Uint64Values(frame: seq<Byte>, offset: nat)
    ensures ReadUint64(frame, offset).Ok? <==> offset + 8 <= |frame|
    ensures ReadUint64Corrected(frame, offset).Ok? <==> offset + 8 <= |frame|
    ensures offset + 8 <= |frame| ==>
      && ReadUint64(frame, offset) == Ok((Uint64Value(BigEndian(frame[offset..offset + 8])), offset))
      && ReadUint64Corrected(frame, offset) == Ok((Uint64Value(BigEndian(frame[offset..offset + 8])), offset + 8))
  {
  }

  /** A string is the bytes of exactly its declared length, after a two- or one-byte length prefix. */
  lemma StringValues(build: Build, dataType: Byte, frame: seq<Byte>, offset: nat)
    ensures KindOf(dataType) == LongString && offset + 2 <= |frame| ==>
      var n := BigEndian(frame[offset..offset + 2]);
      ValueAt(build, dataType, frame, offset)
      == if offset + 2 + n <= |frame| then Ok((StrValue(frame[offset + 2..offset + 2 + n]), offset + 2 + n))
         else Err(Truncated)
    ensures KindOf(dataType) == ShortString && offset + 1 <= |frame| ==>
      var n := frame[offset];
      ValueAt(build, dataType, frame, offset)
      == if offset + 1 + n <= |frame| then Ok((StrValue(frame[offset + 1..offset + 1 + n]), offset + 1 + n))
         else Err(Truncated)
    ensures ((KindOf(dataType) == LongString && offset + 2 > |frame|)
             || (KindOf(dataType) == ShortString && offset + 1 > |frame|)) ==>
      ValueAt(build, dataType, frame, offset) == Err(Truncated)
  {
  }

  // ---------------------------------------------------------------- departures from the layout

  /** The frame of a response with one 48-bit record: its header, and the record's image at byte 14. */
  lemma SingleRecordFrame(h: CommandHeader, a: Attribute)
    requires WellFormed(a) && a.value.Uint48Value?
    requires |ReadRspPayload(h, [a])| < 0xFFFF
    ensures var frame := ReadRspFrame(h, [a]);
      && |frame| == 25 && FrameHeaderOf(frame).Ok? && FrameHeaderOf(frame).value.1 == 6
      && FrameHeaderOf(frame).value.0.commandId == ATTR_READ_RSP
      && CommandHeaderOf(frame, 6) == Ok((h, 13)) && frame[13] == 1 && ImageAt(frame, 14, AttributeBytes(a))
  {
    var payload := ReadRspPayload(h, [a]);
    var frame := ReadRspFrame(h, [a]);
    FrameHeaderRoundTrip(ATTR_READ_RSP, payload);
    ReadRspLayout(h, [a]);
    OneChunk(a);
    CommandHeaderImage(frame, 6, h);
  }

  lemma OneChunk(a: Attribute)
    requires WellFormed(a) && a.value.Uint48Value?
    ensures AttributesBytes([a]) == AttributeBytes(a) && |AttributeBytes(a)| == 10
  {
    var parts := Chunks([a]);
    assert parts[..0] == [];
    assert Concat(parts) == Concat(parts[..0]) + parts[0];
  }

  /** A 48-bit record whose image ends one byte before the end of the buffer is cut short by the decoder as written. */
  lemma Uint48RecordTruncated(frame: seq<Byte>, offset: nat, a: Attribute)
    requires WellFormed(a) && a.value.Uint48Value?
    requires ImageAt(frame, offset, AttributeBytes(a)) && |frame| == offset + |AttributeBytes(a)| + 1
    ensures GetAttribute(AsWritten, frame, offset) == Err(Truncated)
  {
    AttributeLayout(frame, offset, a);
    ReadBigEndianAt(frame, offset, a.identifier, 2);
    assert ValueAt(AsWritten, a.dataType, frame, offset + 4) == Err(Truncated);
  }

  /**
   * The decoder as written cannot read a 48-bit record that is the last
   * thing before the end marker: its low half is taken from a four-byte
   * read, which runs one byte past the frame. The corrected decoder reads
   * the same frame.
   */
  lemma Uint48LastRecordFinding(h: CommandHeader, a: Attribute)
    requires WellFormed(a) && a.value.Uint48Value?
    requires |ReadRspPayload(h, [a])| < 0xFFFF
    ensures DecodeWire(AsWritten, ReadRspFrame(h, [a])) == Err(Truncated)
    ensures DecodeWire(Corrected, ReadRspFrame(h, [a])).Ok?
    ensures DecodeWire(Corrected, ReadRspFrame(h, [a])).value.attributes == [a]
  {
    var frame := ReadRspFrame(h, [a]);
    SingleRecordFrame(h, a);
    Uint48RecordTruncated(frame, 14, a);
    FailedRecordAborts(AsWritten, frame, 14, 1, []);
    DecodeRoundTrip(Corrected, h, [a]);
  }

  lemma BigEndianPair(x: Byte, y: Byte)
    ensures BigEndian([x, y]) == x * 256 + y
  {
    assert [x, y][..1] == [x] && [x][..0] == [];
  }

  lemma {:induction false} BigEndianZero(s: seq<Byte>)
    requires forall i | 0 <= i < |s| :: s[i] == 0
    ensures BigEndian(s) == 0
    decreases |s|
  {
    if |s| > 0 {
      BigEndianZero(s[..|s| - 1]);
    }
  }

  /** Two records, a 64-bit one (identifier 1, value 0) and an 8-bit enumeration (identifier 2, value 7). */
  function Uint64Pair(): seq<Byte>
  {
    [0x00, 0x01, SUCCESS, UINT64, 0, 0, 0, 0, 0, 0, 0, 0, 0x00, 0x02, SUCCESS, ENUM8, 0x07]
  }

  /**
   * After a 64-bit record the decoder as written reads the next record
   * from that record's value bytes: here it takes the second zero byte of
   * the value as a data type, which is not supported. The corrected
   * decoder reads both records.
   */
  lemma Uint64CursorFinding()
    ensures AttributesFrom(AsWritten, Uint64Pair(), 0, 2, []) == Err(UnsupportedValueType(0x00))
    ensures AttributesFrom(Corrected, Uint64Pair(), 0, 2, [])
         == Ok(([Attribute(1, SUCCESS, UINT64, Uint64Value(0)), Attribute(2, SUCCESS, ENUM8, Enum8Value(7))], 17))
  {
    var first := Attribute(1, SUCCESS, UINT64, Uint64Value(0));
    var second := Attribute(2, SUCCESS, ENUM8, Enum8Value(7));
    PairFirst(Uint64Pair());
    PairSecond(Uint64Pair());
    AttributesFromStep(AsWritten, Uint64Pair(), 0, 2, [], first, 4);
    AttributesFromStep(Corrected, Uint64Pair(), 0, 2, [], first, 12);
    AttributesFromStep(Corrected, Uint64Pair(), 12, 1, [first], second, 17);
    assert [] + [first] == [first] && [first] + [second] == [first, second];
  }

  /** The status, data-type and value bytes of the two records of `Uint64Pair`. */
  lemma PairBytes(f: seq<Byte>)
    requires f == Uint64Pair()
    ensures |f| == 17 && f[2] == f[6] == f[14] == SUCCESS && f[3] == UINT64 && f[7] == 0x00 && f[15] == ENUM8 && f[16] == 0x07
  {
  }

  /** The identifiers the readers see at offsets 0, 4 and 12 of `Uint64Pair`. */
  lemma PairIdentifiers(f: seq<Byte>)
    requires f == Uint64Pair()
    ensures ReadU16(f, 0) == Ok((1, 2)) && ReadU16(f, 4) == Ok((0, 6)) && ReadU16(f, 12) == Ok((2, 14))
  {
    assert f[0..2] == [0x00, 0x01] && f[4..6] == [0x00, 0x00] && f[12..14] == [0x00, 0x02];
    BigEndianPair(0x00, 0x01);
    BigEndianPair(0x00, 0x00);
    BigEndianPair(0x00, 0x02);
  }

  /** The 64-bit value of the first record of `Uint64Pair` is zero. */
  lemma PairValue(f: seq<Byte>)
    requires f == Uint64Pair()
    ensures ReadBigEndian(f, 4, 8) == Ok((0, 12))
  {
    BigEndianZero(f[4..12]);
  }

  lemma PairFirst(f: seq<Byte>)
    requires f == Uint64Pair()
    ensures GetAttribute(AsWritten, f, 0) == Ok((Attribute(1, SUCCESS, UINT64, Uint64Value(0)), 4))
    ensures GetAttribute(Corrected, f, 0) == Ok((Attribute(1, SUCCESS, UINT64, Uint64Value(0)), 12))
  {
    PairBytes(f);
    PairIdentifiers(f);
    PairValue(f);
    ZeroUint64Record(f);
  }

  /** A 64-bit record with identifier 1 and value 0 at the start of a frame, read by either decoder. */
  lemma ZeroUint64Record(f: seq<Byte>)
    requires 4 <= |f| && f[2] == SUCCESS && f[3] == UINT64
    requires ReadU16(f, 0) == Ok((1, 2)) && ReadBigEndian(f, 4, 8) == Ok((0, 12))
    ensures GetAttribute(AsWritten, f, 0) == Ok((Attribute(1, SUCCESS, UINT64, Uint64Value(0)), 4))
    ensures GetAttribute(Corrected, f, 0) == Ok((Attribute(1, SUCCESS, UINT64, Uint64Value(0)), 12))
  {
    var first := Attribute(1, SUCCESS, UINT64, Uint64Value(0));
    assert KindOf(UINT64) == Uint64;
    GetAttributeSteps(AsWritten, f, 0, first, 4);
    GetAttributeSteps(Corrected, f, 0, first, 12);
  }

  lemma PairSecond(f: seq<Byte>)
    requires f == Uint64Pair()
    ensures GetAttribute(AsWritten, f, 4) == Err(UnsupportedValueType(0x00))
    ensures GetAttribute(Corrected, f, 12) == Ok((Attribute(2, SUCCESS, ENUM8, Enum8Value(7)), 17))
  {
    PairBytes(f);
    PairIdentifiers(f);
    SecondRecordReads(f);
  }

  /** What each decoder reads where it takes the second record of `Uint64Pair` to start. */
  lemma SecondRecordReads(f: seq<Byte>)
    requires 17 <= |f| && f[6] == f[14] == SUCCESS && f[7] == 0x00 && f[15] == ENUM8 && f[16] == 0x07
    requires ReadU16(f, 4) == Ok((0, 6)) && ReadU16(f, 12) == Ok((2, 14))
    ensures GetAttribute(AsWritten, f, 4) == Err(UnsupportedValueType(0x00))
    ensures GetAttribute(Corrected, f, 12) == Ok((Attribute(2, SUCCESS, ENUM8, Enum8Value(7)), 17))
  {
    assert KindOf(0x00) == Unsupported && KindOf(ENUM8) == Enum8;
    GetAttributeSteps(Corrected, f, 12, Attribute(2, SUCCESS, ENUM8, Enum8Value(7)), 17);
  }
}
