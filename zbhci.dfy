// The gateway's decoder for zbhci read-attributes-response frames: frame
// header with its XOR checksum, command header, attribute records read by a
// data-type dispatch, and the final sort by attribute identifier.
//
// The C# constructors thread a shared `ref int offset`; here each step takes
// the cursor and returns the value together with the cursor after it, or the
// error that the C# code throws. `Build` selects between the decoder as
// written and the same decoder with the 48- and 64-bit readers corrected
// (see ReadUint48 and ReadUint64); ZbhciMessage models the code as written.
module Zbhci {
  import opened Wrappers
  import opened Bytes
  import opened ZbhciConstants

  /** The failures the decoder can end in, named after the C# exceptions. */
  datatype ZbhciError =
    | Truncated                                     // IndexOutOfRange / ArgumentException: a read past the end
    | Framing(first: Byte, last: Byte)              // ZbhciFramingException
    | CrcMismatch(expected: Byte, received: Byte)   // ZbhciCRCExcException
    | Diverges                                      // Crc8Calculate's ushort counter wraps: the loop never ends
    | NotAttributes(commandId: U16)                 // ZbhciNotAttributesException
    | AttributeStateInvalid(status: Byte, identifier: U16)  // ZbhciAttributeStateInvalid
    | UnsupportedValueType(dataType: Byte)          // ZbhciUnsupportedValueTypeException

  /** A value read from the frame, paired with the cursor just after it. */
  type Parsed<T> = Result<(T, nat), ZbhciError>

  datatype Build = AsWritten | Corrected

  datatype FrameHeader = FrameHeader(commandId: U16, payloadLength: U16, crc8: Byte)

  datatype CommandHeader = CommandHeader(
    sourceAddress: U16, sourceEndpoint: Byte, destinationEndpoint: Byte,
    sequenceNumber: Byte, clusterId: U16)

  type U48 = x: int | 0 <= x < 0x1_0000_0000_0000

  /** The per-type subclasses of ZbhciAttribute; a string keeps its raw bytes. */
  datatype AttributeValue =
    | StrValue(bytes: seq<Byte>)
    | Enum8Value(enum8: Byte)
    | Uint16Value(u16: U16)
    | Uint32Value(u32: U32)
    | Uint48Value(u48: U48)
    | Uint64Value(u64: U64)

  datatype Attribute = Attribute(identifier: U16, status: Byte, dataType: Byte, value: AttributeValue)

  datatype Message = Message(frameHeader: FrameHeader, commandHeader: CommandHeader, attributes: seq<Attribute>)

  // ---------------------------------------------------------------- reads

  function ReadByte(frame: seq<Byte>, offset: nat): Parsed<Byte>
  {
    if offset < |frame| then Ok((frame[offset], offset + 1)) else Err(Truncated)
  }

  /** BitConverter.ToUIntN followed by NetworkToHostOrder on a little-endian host. */
  function ReadBigEndian(frame: seq<Byte>, offset: nat, width: nat): (r: Parsed<nat>)
    ensures r.Ok? ==> r.value.0 < Pow256(width) && r.value.1 == offset + width
  {
    if offset + width <= |frame| then Ok((BigEndian(frame[offset..offset + width]), offset + width))
    else Err(Truncated)
  }

  function ReadU16(frame: seq<Byte>, offset: nat): Parsed<U16>
  {
    var v :- ReadBigEndian(frame, offset, 2);
    Ok((v.0, v.1))
  }

  // ---------------------------------------------------------------- checksum

  /** The low byte of `commandId ^ commandId >> 8 ^ payloadLength ^ payloadLength >> 8`. */
  function CrcSeed(commandId: U16, payloadLength: U16): Byte
  {
    Xor8(Xor8(Xor8(Lo(commandId), Hi(commandId)), Lo(payloadLength)), Hi(payloadLength))
  }

  /** The checksum of a frame: the XOR of both bytes of its command identifier, both bytes of its payload length and every payload byte. */
  function Crc8Of(commandId: U16, payloadLength: U16, payload: seq<Byte>): Byte
  {
    Xor8(CrcSeed(commandId, payloadLength), XorAll(payload))
  }

  /**
   * What Crc8Calculate returns when the CRC byte sits at `offset`: it folds
   * `frame[offset + 1 .. offset + payloadLength]`, fails on the first read
   * past the end, and with a payload length of 0xFFFF its ushort counter
   * wraps to 0 after the last byte, so the loop never ends.
   */
  function Crc8(commandId: U16, payloadLength: U16, frame: seq<Byte>, offset: nat): Result<Byte, ZbhciError>
  {
    if payloadLength == 0 then Ok(Crc8Of(commandId, 0, []))
    else if offset + payloadLength >= |frame| then Err(Truncated)
    else if payloadLength == 0xFFFF then Err(Diverges)
    else Ok(Crc8Of(commandId, payloadLength, frame[offset + 1 .. offset + 1 + payloadLength]))
  }

  /**
   * ZbhciFrameHeader.Crc8Calculate. The C# accumulator is an `int`, but
   * only its low byte survives the final `& 0xff`, and the low byte of an
   * XOR is the XOR of the low bytes, so the accumulator is kept as one byte.
   */
  method Crc8Calculate(commandId: U16, payloadLength: U16, payload: seq<Byte>, offset: nat)
    returns (r: Result<Byte, ZbhciError>)
    ensures r == Crc8(commandId, payloadLength, payload, offset)
  {
    var crc8: Byte := Lo(commandId);
    crc8 := Xor8(crc8, Hi(commandId));
    crc8 := Xor8(crc8, Lo(payloadLength));
    crc8 := Xor8(crc8, Hi(payloadLength));
    ghost var seed := crc8;
    var n: nat := 1;
    while n <= payloadLength
      invariant 1 <= n <= payloadLength + 1 && n <= 0xFFFF
      invariant n > 1 ==> offset + n <= |payload|
      invariant n > 1 ==> crc8 == Xor(seed, XorAll(payload[offset + 1 .. offset + n]))
      invariant n == 1 ==> crc8 == seed
      decreases payloadLength + 1 - n
    {
      if offset + n >= |payload| {
        return Err(Truncated);
      }
      Crc8Step(seed, crc8, payload, offset, n);
      crc8 := Xor8(crc8, payload[offset + n]);
      if n == 0xFFFF {
        // n++ wraps to 0 and `n <= payloadLength` holds forever
        return Err(Diverges);
      }
      n := n + 1;
    }
    Crc8Done(commandId, payloadLength, payload, offset, crc8);
    return Ok(crc8);
  }

  /** One more payload byte folded into the running checksum. */
  lemma Crc8Step(seed: Byte, crc8: Byte, payload: seq<Byte>, offset: nat, n: nat)
    requires 1 <= n && offset + n < |payload|
    requires n > 1 ==> crc8 == Xor(seed, XorAll(payload[offset + 1 .. offset + n]))
    requires n == 1 ==> crc8 == seed
    ensures Xor(crc8, payload[offset + n]) == Xor(seed, XorAll(payload[offset + 1 .. offset + n + 1]))
  {
    var x := payload[offset + n];
    var before := payload[offset + 1 .. offset + n];
    XorAllSnoc(payload, offset + 1, offset + n);
    assert XorAll(payload[offset + 1 .. offset + n + 1]) == Xor(XorAll(before), x);
    if n == 1 {
      assert before == [];
      assert Xor(XorAll(before), x) == x;
    } else {
      XorAssoc(seed, XorAll(before), x);
    }
  }

  /** The checksum once every payload byte has been folded in. */
  lemma Crc8Done(commandId: U16, payloadLength: U16, payload: seq<Byte>, offset: nat, crc8: Byte)
    requires payloadLength > 0 ==> offset + payloadLength + 1 <= |payload|
    requires payloadLength > 0 ==>
      crc8 == Xor(CrcSeed(commandId, payloadLength), XorAll(payload[offset + 1 .. offset + payloadLength + 1]))
    requires payloadLength == 0 ==> crc8 == CrcSeed(commandId, payloadLength)
    requires payloadLength < 0xFFFF
    ensures Crc8(commandId, payloadLength, payload, offset) == Ok(crc8)
  {
    if payloadLength == 0 {
      Crc8Folded(commandId, 0, crc8, []);
    } else {
      var slice := payload[offset + 1 .. offset + 1 + payloadLength];
      Crc8Folded(commandId, payloadLength, crc8, slice);
      Crc8OfPayload(commandId, payloadLength, payload, offset, crc8);
    }
  }

  lemma Crc8Folded(commandId: U16, payloadLength: U16, crc8: Byte, slice: seq<Byte>)
    requires crc8 == Xor(CrcSeed(commandId, payloadLength), XorAll(slice))
    ensures crc8 == Crc8Of(commandId, payloadLength, slice)
  {
  }

  lemma Crc8OfPayload(commandId: U16, payloadLength: U16, payload: seq<Byte>, offset: nat, c: Byte)
    requires 0 < payloadLength < 0xFFFF && offset + payloadLength + 1 <= |payload|
    requires c == Crc8Of(commandId, payloadLength, payload[offset + 1 .. offset + 1 + payloadLength])
    ensures Crc8(commandId, payloadLength, payload, offset) == Ok(c)
  {
  }

  lemma XorAllSnoc(s: seq<Byte>, i: nat, j: nat)
    requires i <= j < |s|
    ensures XorAll(s[i..j + 1]) == Xor(XorAll(s[i..j]), s[j])
  {
    assert s[i..j + 1][..j - i] == s[i..j];
  }

  // ---------------------------------------------------------------- headers

  /** ZbhciFrameHeader(frame, ref offset), entered with offset 0. */
  function FrameHeaderOf(frame: seq<Byte>): Parsed<FrameHeader>
  {
    if |frame| == 0 then Err(Truncated)
    else if frame[0] != FRAME_START || frame[|frame| - 1] != FRAME_END then
      Err(Framing(frame[0], frame[|frame| - 1]))
    else
      var commandId :- ReadU16(frame, 1);
      var payloadLength :- ReadU16(frame, 3);
      var crc8 :- Crc8(commandId.0, payloadLength.0, frame, 5);
      var received :- ReadByte(frame, 5);
      if crc8 != received.0 then Err(CrcMismatch(crc8, received.0))
      else Ok((FrameHeader(commandId.0, payloadLength.0, crc8), 6))
  }

  /** The ZbhciFrameHeader constructor, calling Crc8Calculate. */
  method ZbhciFrameHeader(frame: seq<Byte>) returns (r: Parsed<FrameHeader>)
    ensures r == FrameHeaderOf(frame)
  {
    if |frame| == 0 {
      return Err(Truncated);
    }
    if frame[0] != FRAME_START || frame[|frame| - 1] != FRAME_END {
      return Err(Framing(frame[0], frame[|frame| - 1]));
    }
    var offset := 1;
    if offset + 4 > |frame| {
      return Err(Truncated);
    }
    var commandId: U16 := BigEndian(frame[1..3]);
    var payloadLength: U16 := BigEndian(frame[3..5]);
    offset := 5;
    var crc := Crc8Calculate(commandId, payloadLength, frame, offset);
    if crc.Err? {
      return Err(crc.error);
    }
    if offset >= |frame| {
      return Err(Truncated);
    }
    if crc.value != frame[offset] {
      return Err(CrcMismatch(crc.value, frame[offset]));
    }
    offset := offset + 1;
    return Ok((FrameHeader(commandId, payloadLength, crc.value), offset));
  }

  /** ZbhciCommandHeader(command, ref offset). */
  function CommandHeaderOf(frame: seq<Byte>, offset: nat): Parsed<CommandHeader>
  {
    var sourceAddress :- ReadU16(frame, offset);
    var sourceEndpoint :- ReadByte(frame, sourceAddress.1);
    var destinationEndpoint :- ReadByte(frame, sourceEndpoint.1);
    var sequenceNumber :- ReadByte(frame, destinationEndpoint.1);
    var clusterId :- ReadU16(frame, sequenceNumber.1);
    Ok((CommandHeader(sourceAddress.0, sourceEndpoint.0, destinationEndpoint.0, sequenceNumber.0, clusterId.0),
        clusterId.1))
  }

  // ---------------------------------------------------------------- attributes

  /** ZbhciAttributeStr: `length` bytes from the cursor (Encoding.UTF8.GetString's range). */
  function StringAt(frame: seq<Byte>, offset: nat, length: nat): Parsed<AttributeValue>
  {
    if offset + length <= |frame| then Ok((StrValue(frame[offset..offset + length]), offset + length))
    else Err(Truncated)
  }

  /**
   * ZbhciAttributeUint48 as written: the high 32 bits, then the low 16 bits
   * taken from `BitConverter.ToUInt32`, which needs four bytes in range
   * although only two are used and the cursor moves by two.
   */
  function ReadUint48(frame: seq<Byte>, offset: nat): Parsed<AttributeValue>
  {
    var high :- ReadBigEndian(frame, offset, 4);
    if high.1 + 4 > |frame| then Err(Truncated)
    else Ok((Uint48Value(high.0 * 0x1_0000 + BigEndian(frame[high.1 .. high.1 + 2])), high.1 + 2))
  }

  /** The 48-bit reader with the low half read as the two bytes it uses. */
  function ReadUint48Corrected(frame: seq<Byte>, offset: nat): Parsed<AttributeValue>
  {
    var v :- ReadBigEndian(frame, offset, 6);
    Ok((Uint48Value(v.0), v.1))
  }

  /** ZbhciAttributeUint64 as written: the value is read but the cursor is not advanced. */
  function ReadUint64(frame: seq<Byte>, offset: nat): Parsed<AttributeValue>
  {
    var v :- ReadBigEndian(frame, offset, 8);
    Ok((Uint64Value(v.0), offset))
  }

  /** The 64-bit reader with the cursor advanced past the value. */
  function ReadUint64Corrected(frame: seq<Byte>, offset: nat): Parsed<AttributeValue>
  {
    var v :- ReadBigEndian(frame, offset, 8);
    Ok((Uint64Value(v.0), v.1))
  }

  /** The switch on the data type in GetAttribute, with the matching subclass constructor. */
  function ValueAt(build: Build, dataType: Byte, frame: seq<Byte>, offset: nat): (r: Parsed<AttributeValue>)
    ensures r.Err? ==> r.error == Truncated || r.error == UnsupportedValueType(dataType)
  {
    match KindOf(dataType)
    case LongString =>
      var length :- ReadBigEndian(frame, offset, LONG_STR_LENGTH_LENGTH);
      StringAt(frame, length.1, length.0)
    case ShortString =>
      var length :- ReadByte(frame, offset);
      StringAt(frame, length.1, length.0)
    case Enum8 =>
      var v :- ReadByte(frame, offset);
      Ok((Enum8Value(v.0), v.1))
    case Uint16 =>
      var v :- ReadBigEndian(frame, offset, 2);
      Ok((Uint16Value(v.0), v.1))
    case Uint32 =>
      var v :- ReadBigEndian(frame, offset, 4);
      Ok((Uint32Value(v.0), v.1))
    case Uint48 =>
      if build == AsWritten then ReadUint48(frame, offset) else ReadUint48Corrected(frame, offset)
    case Uint64 =>
      if build == AsWritten then ReadUint64(frame, offset) else ReadUint64Corrected(frame, offset)
    case Unsupported =>
      Err(UnsupportedValueType(dataType))
  }

  /** The ways a record can fail: running out of bytes, a status other than success, an unsupported tag. */
  predicate RecordError(e: ZbhciError)
  {
    e.Truncated? || e.AttributeStateInvalid? || e.UnsupportedValueType?
  }

  /** ZbhciAttribute.GetAttribute: identifier, status (checked before the data type is read), data type, value. */
  function GetAttribute(build: Build, frame: seq<Byte>, offset: nat): (r: Parsed<Attribute>)
    ensures r.Err? ==> RecordError(r.error)
  {
    var identifier :- ReadU16(frame, offset);
    var status :- ReadByte(frame, identifier.1);
    if status.0 != SUCCESS then Err(AttributeStateInvalid(status.0, identifier.0))
    else
      var dataType :- ReadByte(frame, status.1);
      var value :- ValueAt(build, dataType.0, frame, dataType.1);
      Ok((Attribute(identifier.0, status.0, dataType.0, value.0), value.1))
  }

  /** `count` more records appended to `acc`, read in wire order from the cursor. */
  function AttributesFrom(build: Build, frame: seq<Byte>, offset: nat, count: nat, acc: seq<Attribute>)
    : (r: Parsed<seq<Attribute>>)
    ensures r.Ok? ==> |r.value.0| == |acc| + count && r.value.0[..|acc|] == acc
    ensures r.Err? ==> RecordError(r.error)
    decreases count
  {
    if count == 0 then Ok((acc, offset))
    else
      var a :- GetAttribute(build, frame, offset);
      var rest := AttributesFrom(build, frame, a.1, count - 1, acc + [a.0]);
      assert rest.Ok? ==> rest.value.0[..|acc|] == rest.value.0[..|acc| + 1][..|acc|];
      rest
  }

  /** The ZbhciMessage constructor up to, but not including, its final sort. */
  function DecodeWire(build: Build, frame: seq<Byte>): (r: Result<Message, ZbhciError>)
    ensures r.Ok? ==> r.value.frameHeader.commandId == ATTR_READ_RSP && |r.value.attributes| < 0x100
    ensures r.Err? && r.error.NotAttributes? ==> r.error.commandId != ATTR_READ_RSP
  {
    var frameHeader :- FrameHeaderOf(frame);
    var commandHeader :- CommandHeaderOf(frame, frameHeader.1);
    if frameHeader.0.commandId != ATTR_READ_RSP then Err(NotAttributes(frameHeader.0.commandId))
    else
      var count :- ReadByte(frame, commandHeader.1);
      var attributes :- AttributesFrom(build, frame, count.1, count.0, []);
      Ok(Message(frameHeader.0, commandHeader.0, attributes.0))
  }

  // ---------------------------------------------------------------- ordering

  /** ZbhciAttribute.CompareTo: the sign of the identifier difference. */
  function CompareTo(a: Attribute, b: Attribute): (c: int)
    ensures c == 0 <==> a.identifier == b.identifier
    ensures c < 0 <==> a.identifier < b.identifier
  {
    if a.identifier > b.identifier then 1
    else if a.identifier < b.identifier then -1
    else 0
  }

  /** Ascending as CompareTo orders records: no identifier exceeds one after it. */
  predicate SortedById(s: seq<Attribute>)
  {
    forall i, j :: 0 <= i < j < |s| ==> s[i].identifier <= s[j].identifier
  }

  function Insert(a: Attribute, s: seq<Attribute>): seq<Attribute>
  {
    if |s| == 0 || CompareTo(a, s[0]) <= 0 then [a] + s else [s[0]] + Insert(a, s[1..])
  }

  lemma {:induction false} InsertMultiset(a: Attribute, s: seq<Attribute>)
    ensures multiset(Insert(a, s)) == multiset(s) + multiset{a}
  {
    if |s| > 0 && CompareTo(a, s[0]) > 0 {
      assert s == [s[0]] + s[1..];
      InsertMultiset(a, s[1..]);
    }
  }

  lemma {:induction false} InsertAbove(a: Attribute, s: seq<Attribute>, low: U16)
    requires low <= a.identifier
    requires forall k :: 0 <= k < |s| ==> low <= s[k].identifier
    ensures forall k :: 0 <= k < |Insert(a, s)| ==> low <= Insert(a, s)[k].identifier
  {
    if |s| > 0 && CompareTo(a, s[0]) > 0 {
      InsertAbove(a, s[1..], low);
    }
  }

  lemma {:induction false} InsertSorted(a: Attribute, s: seq<Attribute>)
    requires SortedById(s)
    ensures SortedById(Insert(a, s))
  {
    if |s| > 0 && CompareTo(a, s[0]) > 0 {
      InsertSorted(a, s[1..]);
      InsertAbove(a, s[1..], s[0].identifier);
    }
  }

  /** List.Sort with CompareTo: ascending identifiers, equal identifiers in no promised order. */
  function SortById(s: seq<Attribute>): (r: seq<Attribute>)
    ensures SortedById(r) && multiset(r) == multiset(s)
  {
    if |s| == 0 then []
    else
      assert s == s[..|s| - 1] + [s[|s| - 1]];
      InsertSorted(s[|s| - 1], SortById(s[..|s| - 1]));
      InsertMultiset(s[|s| - 1], SortById(s[..|s| - 1]));
      Insert(s[|s| - 1], SortById(s[..|s| - 1]))
  }

  // ---------------------------------------------------------------- the message

  /** The loop of the ZbhciMessage constructor: `count` calls of GetAttribute, appended in order. */
  method ReadAttributes(frame: seq<Byte>, offset: nat, count: nat) returns (r: Parsed<seq<Attribute>>)
    ensures r == AttributesFrom(AsWritten, frame, offset, count, [])
  {
    var cursor := offset;
    var attributeList: seq<Attribute> := [];
    var n: nat := 0;
    while n < count
      invariant n <= count
      invariant AttributesFrom(AsWritten, frame, offset, count, [])
             == AttributesFrom(AsWritten, frame, cursor, count - n, attributeList)
    {
      var a := GetAttribute(AsWritten, frame, cursor);
      if a.Err? {
        return Err(a.error);
      }
      attributeList := attributeList + [a.value.0];
      cursor := a.value.1;
      n := n + 1;
    }
    return Ok((attributeList, cursor));
  }

  /**
   * The ZbhciMessage constructor as written: it fails exactly when the
   * wire-order decoding fails, with the same error; otherwise it holds the
   * same headers and the same records, sorted by identifier.
   */
  method ZbhciMessage(frame: seq<Byte>) returns (r: Result<Message, ZbhciError>)
    ensures var w := DecodeWire(AsWritten, frame);
      && (r.Err? <==> w.Err?)
      && (r.Err? ==> r.error == w.error)
      && (r.Ok? ==>
            && r.value.frameHeader == w.value.frameHeader
            && r.value.commandHeader == w.value.commandHeader
            && SortedById(r.value.attributes)
            && multiset(r.value.attributes) == multiset(w.value.attributes))
  {
    var fh := ZbhciFrameHeader(frame);
    if fh.Err? {
      return Err(fh.error);
    }
    var frameHeader: FrameHeader, offset: nat := fh.value.0, fh.value.1;
    var ch := CommandHeaderOf(frame, offset);
    if ch.Err? {
      return Err(ch.error);
    }
    var commandHeader := ch.value.0;
    offset := ch.value.1;
    if frameHeader.commandId != ATTR_READ_RSP {
      return Err(NotAttributes(frameHeader.commandId));
    }
    if offset >= |frame| {
      return Err(Truncated);
    }
    var numberOfAttributes := frame[offset];
    offset := offset + 1;
    var records := ReadAttributes(frame, offset, numberOfAttributes);
    if records.Err? {
      return Err(records.error);
    }
    var attributeList := records.value.0;
    var sorted := SortById(attributeList);
    return Ok(Message(frameHeader, commandHeader, sorted));
  }
}
