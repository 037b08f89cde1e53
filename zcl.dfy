// The Telink firmware's ZCL response serialisers (identical in the CloudSMETS
// and ESME builds): read, write, configure-report and read-report-config
// responses and attribute reports, each laid out as the incoming message's
// command header followed by per-attribute records, and the fixed-size
// publish-price payload. The value bytes of an attribute are taken as the
// SDK stores them (least significant first) and `ZB_LEBESWAP` as a byte
// reversal; `zcl_getAttrSize` is the length of the stored value.
module Zcl {
  import opened Wrappers
  import opened Bytes
  import opened ZbhciConstants
  import opened Zbhci
  import ZbhciWire

  /** `ZCL_SEND_ATTR_REPORTS`, the direction value 0x00 of the ZigBee Cluster Library. */
  const SendAttrReports: Byte := 0x00
  /** The size of the local `array` the read, write and configure responses are built in. */
  const TxArraySize: nat := 64
  /** The size of the publish-price payload, always transmitted whole. */
  const PublishPriceSize: nat := 56

  // ------------------------------------------------------------------ layout

  /** The two bytes `HI_UINT16`, `LO_UINT16` are the big-endian image of a 16-bit value. */
  lemma HiLo(x: U16)
    ensures ToBigEndian(x, 2) == [Hi(x), Lo(x)]
    ensures BigEndian([Hi(x), Lo(x)]) == x
  {
    assert ToBigEndian(x, 2) == ToBigEndian(x / 256, 1) + [x % 256];
    assert ToBigEndian(x / 256, 1) == ToBigEndian(x / 256 / 256, 0) + [(x / 256) % 256];
    assert [Hi(x), Lo(x)][..1] == [Hi(x)];
  }

  /** `ZB_LEBESWAP` is applied to every value but long and short character and octet strings and structures. */
  predicate Swapped(dataType: Byte)
  {
    dataType != LONG_CHAR_STR && dataType != LONG_OCTET_STR && dataType != CHAR_STR && dataType != OCTET_STR
    && dataType != STRUCT
  }

  /** A stored value as transmitted: reversed into big-endian order unless it is a string or a structure. */
  function WireValue(dataType: Byte, data: seq<Byte>): (w: seq<Byte>)
    ensures |w| == |data|
  {
    if Swapped(dataType) then Reverse(data) else data
  }

  /** One record of a read-attributes response, with its stored value when the status is success. */
  datatype ReadRecord = ReadRecord(attrId: U16, status: Byte, dataType: Byte, data: seq<Byte>)

  /** Identifier, status, and only on success the data type and the value. */
  function ReadRecordBytes(r: ReadRecord): seq<Byte>
  {
    [Hi(r.attrId), Lo(r.attrId), r.status] + (if r.status == SUCCESS then [r.dataType] + WireValue(r.dataType, r.data) else [])
  }

  function ReadChunks(rs: seq<ReadRecord>): (parts: seq<seq<Byte>>)
    ensures |parts| == |rs|
    ensures forall i | 0 <= i < |rs| :: parts[i] == ReadRecordBytes(rs[i])
  {
    seq(|rs|, i requires 0 <= i < |rs| => ReadRecordBytes(rs[i]))
  }

  /** `cloudsmets_zclReadRspCmd` / `esme_zclReadRspCmd`: header, record count, records. */
  function ReadRsp(h: CommandHeader, rs: seq<ReadRecord>): (b: seq<Byte>)
    requires |rs| < 0x100
    ensures |b| >= 8 && b[7] == |rs|
  {
    ZbhciWire.CommandHeaderBytes(h) + [|rs|] + ZbhciWire.Concat(ReadChunks(rs))
  }

  /** One status record of a write-attributes response. */
  datatype WriteRecord = WriteRecord(status: Byte, attrId: U16)

  function WriteRecordBytes(w: WriteRecord): (b: seq<Byte>)
    ensures |b| == 3
  {
    [w.status, Hi(w.attrId), Lo(w.attrId)]
  }

  function WriteChunks(ws: seq<WriteRecord>): (parts: seq<seq<Byte>>)
    ensures |parts| == |ws|
    ensures forall i | 0 <= i < |ws| :: parts[i] == WriteRecordBytes(ws[i])
  {
    seq(|ws|, i requires 0 <= i < |ws| => WriteRecordBytes(ws[i]))
  }

  /**
   * `*_zclWriteRspCmd`: after the header, an incoming payload of one byte
   * (every write succeeded) gives (status, 0xFF, 0xFF); otherwise
   * (status, identifier) per record. There is no count byte.
   */
  function WriteRsp(h: CommandHeader, dataLen: nat, ws: seq<WriteRecord>): (b: seq<Byte>)
    requires dataLen == 1 ==> |ws| >= 1
    ensures dataLen == 1 ==> |b| == 10 && b[7] == ws[0].status && b[8] == 0xFF && b[9] == 0xFF
  {
    ZbhciWire.CommandHeaderBytes(h)
    + (if dataLen == 1 then [ws[0].status, 0xFF, 0xFF] else ZbhciWire.Concat(WriteChunks(ws)))
  }

  /** One record of a configure-report response. */
  datatype CfgStatus = CfgStatus(status: Byte, direction: Byte, attrId: U16)

  function CfgStatusBytes(c: CfgStatus): (b: seq<Byte>)
    ensures |b| == 4
  {
    [c.status, c.direction, Hi(c.attrId), Lo(c.attrId)]
  }

  function CfgStatusChunks(cs: seq<CfgStatus>): (parts: seq<seq<Byte>>)
    ensures |parts| == |cs|
    ensures forall i | 0 <= i < |cs| :: parts[i] == CfgStatusBytes(cs[i])
  {
    seq(|cs|, i requires 0 <= i < |cs| => CfgStatusBytes(cs[i]))
  }

  /** `*_zclCfgReportRspCmd`: header, count, and (status, direction, identifier) per record. */
  function CfgReportRsp(h: CommandHeader, cs: seq<CfgStatus>): seq<Byte>
    requires |cs| < 0x100
  {
    ZbhciWire.CommandHeaderBytes(h) + [|cs|] + ZbhciWire.Concat(CfgStatusChunks(cs))
  }

  /** One record of an attribute report, with its stored value. */
  datatype ReportRecord = ReportRecord(attrId: U16, dataType: Byte, data: seq<Byte>)

  function ReportRecordBytes(r: ReportRecord): (b: seq<Byte>)
    ensures |b| == 3 + |r.data|
  {
    [Hi(r.attrId), Lo(r.attrId), r.dataType] + WireValue(r.dataType, r.data)
  }

  function ReportChunks(rs: seq<ReportRecord>): (parts: seq<seq<Byte>>)
    ensures |parts| == |rs|
    ensures forall i | 0 <= i < |rs| :: parts[i] == ReportRecordBytes(rs[i])
  {
    seq(|rs|, i requires 0 <= i < |rs| => ReportRecordBytes(rs[i]))
  }

  /** `*_zclReportCmd`: header, count, then identifier, data type and value per record. */
  function Report(h: CommandHeader, rs: seq<ReportRecord>): (b: seq<Byte>)
    requires |rs| < 0x100
    ensures |b| >= 8 && b[7] == |rs|
  {
    ZbhciWire.CommandHeaderBytes(h) + [|rs|] + ZbhciWire.Concat(ReportChunks(rs))
  }

  /** The length the report's buffer is meant to have: `8 + Σ(3 + size)` without limit. */
  function ReportLength(rs: seq<ReportRecord>): nat
  {
    if rs == [] then 8 else ReportLength(rs[..|rs| - 1]) + 3 + |rs[|rs| - 1].data|
  }

  /** One record of a read-report-configuration response. */
  datatype CfgReadRecord = CfgReadRecord(
    status: Byte, direction: Byte, attrId: U16,
    dataType: Byte, minReportInt: U16, maxReportInt: U16,
    analog: bool,               // zcl_analogDataType(dataType), an SDK predicate
    reportableChange: seq<Byte>,
    timeoutPeriod: U16)

  /**
   * Status, direction and identifier; then for a reporting attribute the
   * data type, the two intervals big-endian and, for an analog type, the
   * reportable change as stored; otherwise the timeout big-endian.
   */
  function CfgReadRecordBytes(c: CfgReadRecord): seq<Byte>
  {
    [c.status, c.direction, Hi(c.attrId), Lo(c.attrId)]
    + (if c.direction == SendAttrReports then
         [c.dataType, Hi(c.minReportInt), Lo(c.minReportInt), Hi(c.maxReportInt), Lo(c.maxReportInt)]
         + (if c.analog then c.reportableChange else [])
       else [Hi(c.timeoutPeriod), Lo(c.timeoutPeriod)])
  }

  function CfgReadChunks(cs: seq<CfgReadRecord>): (parts: seq<seq<Byte>>)
    ensures |parts| == |cs|
    ensures forall i | 0 <= i < |cs| :: parts[i] == CfgReadRecordBytes(cs[i])
  {
    seq(|cs|, i requires 0 <= i < |cs| => CfgReadRecordBytes(cs[i]))
  }

  /** `*_zclCfgReadRspCmd`: header, count, records. */
  function CfgReadRsp(h: CommandHeader, cs: seq<CfgReadRecord>): (b: seq<Byte>)
    requires |cs| < 0x100
    ensures |b| >= 8 && b[7] == |cs|
  {
    ZbhciWire.CommandHeaderBytes(h) + [|cs|] + ZbhciWire.Concat(CfgReadChunks(cs))
  }

  // ------------------------------------------------------ general lemmas

  /** Concatenating one more part. */
  lemma ConcatSnoc(parts: seq<seq<Byte>>, x: seq<Byte>)
    ensures ZbhciWire.Concat(parts + [x]) == ZbhciWire.Concat(parts) + x
  {
    assert (parts + [x])[..|parts|] == parts;
  }

  /** Parts all of length `k` concatenate to `k` bytes each. */
  lemma {:induction false} ConcatUniformLength(parts: seq<seq<Byte>>, k: nat)
    requires forall j | 0 <= j < |parts| :: |parts[j]| == k
    ensures |ZbhciWire.Concat(parts)| == k * |parts|
    decreases |parts|
  {
    if parts != [] {
      var n := |parts|;
      ConcatUniformLength(parts[..n - 1], k);
      assert k * (n - 1) + k == k * n;
    }
  }

  /** ... and the `i`-th of them sits at `k * i`. */
  lemma {:induction false} ConcatUniform(parts: seq<seq<Byte>>, k: nat, i: nat)
    requires forall j | 0 <= j < |parts| :: |parts[j]| == k
    requires i < |parts|
    ensures k * i + k <= |ZbhciWire.Concat(parts)| && ZbhciWire.Concat(parts)[k * i .. k * i + k] == parts[i]
    decreases |parts|
  {
    var n := |parts|;
    var init := parts[..n - 1];
    ConcatUniformLength(init, k);
    assert k * (n - 1) + k == k * n;
    var whole, front := ZbhciWire.Concat(parts), ZbhciWire.Concat(init);
    assert whole == front + parts[n - 1];
    if i < n - 1 {
      ConcatUniform(init, k, i);
      assert whole[k * i .. k * i + k] == front[k * i .. k * i + k];
    } else {
      assert whole[k * i .. k * i + k] == parts[n - 1];
    }
  }

  // ------------------------------------------------------ properties

  /**
   * A read response is the 7-byte command header, the record count and the
   * records one after another; a failed record is its 3 bytes alone.
   */
  lemma ReadRspLayout(h: CommandHeader, rs: seq<ReadRecord>)
    requires |rs| < 0x100
    ensures ReadRsp(h, rs)[..7] == ZbhciWire.CommandHeaderBytes(h)
    ensures ReadRsp(h, rs)[7] == |rs|
    ensures ReadRsp(h, rs)[8..] == ZbhciWire.Concat(ReadChunks(rs))
    ensures forall r: ReadRecord :: r.status != SUCCESS ==> ReadRecordBytes(r) == [Hi(r.attrId), Lo(r.attrId), r.status]
    ensures forall r: ReadRecord :: r.status == SUCCESS ==> |ReadRecordBytes(r)| == 4 + |r.data|
  {
    assert |ZbhciWire.CommandHeaderBytes(h)| == 7;
  }

  /** The write response's shortcut: one triple (status, 0xFF, 0xFF) after the header, whatever the records. */
  lemma WriteRspLayout(h: CommandHeader, dataLen: nat, ws: seq<WriteRecord>, i: nat)
    requires dataLen == 1 ==> |ws| >= 1
    requires i < |ws|
    ensures WriteRsp(h, dataLen, ws)[..7] == ZbhciWire.CommandHeaderBytes(h)
    ensures dataLen == 1 ==> WriteRsp(h, dataLen, ws)[7..] == [ws[0].status, 0xFF, 0xFF]
    ensures dataLen != 1 ==> |WriteRsp(h, dataLen, ws)| == 7 + 3 * |ws|
    ensures dataLen != 1 ==> WriteRsp(h, dataLen, ws)[7 + 3 * i .. 10 + 3 * i] == [ws[i].status, Hi(ws[i].attrId), Lo(ws[i].attrId)]
  {
    var head := ZbhciWire.CommandHeaderBytes(h);
    assert |head| == 7;
    if dataLen != 1 {
      ConcatUniformLength(WriteChunks(ws), 3);
      ConcatUniform(WriteChunks(ws), 3, i);
      var body := ZbhciWire.Concat(WriteChunks(ws));
      assert (head + body)[7 + 3 * i .. 10 + 3 * i] == body[3 * i .. 3 * i + 3];
    }
  }

  /** A configure-report response carries (status, direction, identifier) for record `i` at `8 + 4i`. */
  lemma CfgReportRspLayout(h: CommandHeader, cs: seq<CfgStatus>, i: nat)
    requires |cs| < 0x100 && i < |cs|
    ensures |CfgReportRsp(h, cs)| == 8 + 4 * |cs| && CfgReportRsp(h, cs)[7] == |cs|
    ensures CfgReportRsp(h, cs)[8 + 4 * i .. 12 + 4 * i]
         == [cs[i].status, cs[i].direction, Hi(cs[i].attrId), Lo(cs[i].attrId)]
  {
    var head := ZbhciWire.CommandHeaderBytes(h) + [|cs|];
    assert |head| == 8;
    ConcatUniformLength(CfgStatusChunks(cs), 4);
    ConcatUniform(CfgStatusChunks(cs), 4, i);
    var body := ZbhciWire.Concat(CfgStatusChunks(cs));
    assert (head + body)[8 + 4 * i .. 12 + 4 * i] == body[4 * i .. 4 * i + 4];
  }

  /**
   * A read-report-configuration record: the intervals of a reporting
   * attribute, or the timeout of a received one, read back big-endian from
   * their fixed places; the reportable change closes the record only for an
   * analog type.
   */
  lemma CfgReadRecordFields(c: CfgReadRecord)
    ensures var b := CfgReadRecordBytes(c);
      b[0] == c.status && b[1] == c.direction && BigEndian(b[2..4]) == c.attrId
      && (c.direction == SendAttrReports ==>
            b[4] == c.dataType && BigEndian(b[5..7]) == c.minReportInt && BigEndian(b[7..9]) == c.maxReportInt
            && b[9..] == (if c.analog then c.reportableChange else []))
      && (c.direction != SendAttrReports ==> |b| == 6 && BigEndian(b[4..6]) == c.timeoutPeriod)
  {
    var b := CfgReadRecordBytes(c);
    HiLo(c.attrId);
    assert b[2..4] == [Hi(c.attrId), Lo(c.attrId)];
    if c.direction == SendAttrReports {
      HiLo(c.minReportInt);
      HiLo(c.maxReportInt);
      assert b[5..7] == [Hi(c.minReportInt), Lo(c.minReportInt)];
      assert b[7..9] == [Hi(c.maxReportInt), Lo(c.maxReportInt)];
    } else {
      HiLo(c.timeoutPeriod);
      assert b[4..6] == [Hi(c.timeoutPeriod), Lo(c.timeoutPeriod)];
    }
  }

  /** The precomputed length of a report is exactly the number of bytes the report writes. */
  lemma {:induction false} ReportLengthMatches(h: CommandHeader, rs: seq<ReportRecord>)
    requires |rs| < 0x100
    ensures |Report(h, rs)| == ReportLength(rs)
    decreases |rs|
  {
    if rs == [] {
    } else {
      var n := |rs|;
      var init := rs[..n - 1];
      assert ReportChunks(rs) == ReportChunks(init) + [ReportRecordBytes(rs[n - 1])];
      ConcatSnoc(ReportChunks(init), ReportRecordBytes(rs[n - 1]));
      ReportLengthMatches(h, init);
    }
  }

  /**
   * The as-written precomputation keeps the length in a `u8`, so a report
   * of one 250-byte value asks `ev_buf_allocate` for 5 bytes and then
   * writes 261.
   */
  lemma ReportBufLenWraps(h: CommandHeader, value: seq<Byte>)
    requires |value| == 250
    ensures var rs := [ReportRecord(0, LONG_OCTET_STR, value)];
      |Report(h, rs)| == 261 && Trunc8(ReportLength(rs)) == 5
  {
    var rs := [ReportRecord(0, LONG_OCTET_STR, value)];
    assert rs[..0] == [];
    ReportLengthMatches(h, rs);
  }

  /**
   * The read response is built in a 64-byte array with no bound on the
   * records: nineteen failed records already take 65 bytes.
   */
  lemma ReadRspOverruns(h: CommandHeader, rs: seq<ReadRecord>)
    requires |rs| == 19 && forall i | 0 <= i < |rs| :: rs[i].status != SUCCESS
    ensures |ReadRsp(h, rs)| == 65 > TxArraySize
  {
    var parts := ReadChunks(rs);
    forall j | 0 <= j < |parts| ensures |parts[j]| == 3 {
      assert parts[j] == ReadRecordBytes(rs[j]);
    }
    ConcatUniformLength(parts, 3);
  }

  /** The write response shares the 64-byte array: twenty records of a partial write take 67 bytes. */
  lemma WriteRspOverruns(h: CommandHeader, dataLen: nat, ws: seq<WriteRecord>)
    requires dataLen != 1 && |ws| == 20
    ensures |WriteRsp(h, dataLen, ws)| == 67 > TxArraySize
  {
    WriteRspLayout(h, dataLen, ws, 0);
  }

  /** So does the configure-report response: fifteen records take 68 bytes. */
  lemma CfgReportRspOverruns(h: CommandHeader, cs: seq<CfgStatus>)
    requires |cs| == 15
    ensures |CfgReportRsp(h, cs)| == 68 > TxArraySize
  {
    CfgReportRspLayout(h, cs, 0);
  }

  /**
   * And the read-report-configuration response: ten records of received
   * attributes, six bytes each with their timeout, take 68 bytes.
   */
  lemma CfgReadRspOverruns(h: CommandHeader, cs: seq<CfgReadRecord>)
    requires |cs| == 10 && forall i | 0 <= i < |cs| :: cs[i].direction != SendAttrReports
    ensures |CfgReadRsp(h, cs)| == 68 > TxArraySize
  {
    var parts := CfgReadChunks(cs);
    forall j | 0 <= j < |parts| ensures |parts[j]| == 6 {
      CfgReadRecordFields(cs[j]);
    }
    ConcatUniformLength(parts, 6);
  }

  // ------------------------------------------- the gateway reads the records

  /** The stored values the gateway's decoder can take: fixed-width values it reads big-endian and short strings. */
  predicate Translatable(r: ReadRecord)
  {
    r.status == SUCCESS &&
    match KindOf(r.dataType)
    case Enum8 => |r.data| == 1
    case Uint16 => |r.data| == 2
    case Uint32 => |r.data| == 4
    case Uint48 => |r.data| == 6
    case Uint64 => |r.data| == 8
    case ShortString => |r.data| >= 1 && r.data[0] == |r.data| - 1
    case _ => false
  }

  /** The gateway's view of a translatable record: the stored little-endian value, or the string's characters. */
  function AsAttribute(r: ReadRecord): (a: Attribute)
    requires Translatable(r)
  {
    var v := match KindOf(r.dataType)
      case Enum8 => Enum8Value(r.data[0])
      case Uint16 => Uint16Value(LittleEndian(r.data))
      case Uint32 => Uint32Value(LittleEndian(r.data))
      case Uint48 => Uint48Value(LittleEndian(r.data))
      case Uint64 => Uint64Value(LittleEndian(r.data))
      case ShortString => StrValue(r.data[1..])
      case _ => StrValue([]);
    Attribute(r.attrId, r.status, r.dataType, v)
  }

  lemma StringTypesAreNotSwapped(dataType: Byte)
    ensures KindOf(dataType) == ShortString || KindOf(dataType) == LongString ==> !Swapped(dataType)
    ensures KindOf(dataType) in {Enum8, Uint16, Uint32, Uint48, Uint64} ==> Swapped(dataType)
  {
  }

  /** The common head of both images: identifier big-endian, status, data type. */
  lemma RecordHead(r: ReadRecord, a: Attribute)
    requires r.status == SUCCESS && a.identifier == r.attrId && a.status == r.status && a.dataType == r.dataType
    requires ZbhciWire.WellFormed(a) && ZbhciWire.ValueBytes(a.dataType, a.value) == WireValue(r.dataType, r.data)
    ensures ZbhciWire.AttributeBytes(a) == ReadRecordBytes(r)
  {
    HiLo(r.attrId);
  }

  /** A fixed-width value: its reversal is the big-endian image of its little-endian value. */
  lemma FixedImage(data: seq<Byte>)
    ensures LittleEndian(data) < Pow256(|data|)
    ensures ToBigEndian(LittleEndian(data), |data|) == Reverse(data)
  {
    ToBigEndianOfBigEndian(Reverse(data));
  }

  /** A short string's stored length byte is the count the gateway's image puts first. */
  lemma ShortStringImage(r: ReadRecord)
    requires KindOf(r.dataType) == ShortString && |r.data| >= 1 && r.data[0] == |r.data| - 1
    ensures ZbhciWire.ValueFits(r.dataType, StrValue(r.data[1..]))
    ensures ZbhciWire.ValueBytes(r.dataType, StrValue(r.data[1..])) == WireValue(r.dataType, r.data)
  {
    StringTypesAreNotSwapped(r.dataType);
    assert r.data == [|r.data| - 1] + r.data[1..];
  }

  /** The value part of a translatable record. */
  lemma ValueImage(r: ReadRecord)
    requires Translatable(r)
    ensures ZbhciWire.ValueFits(r.dataType, AsAttribute(r).value)
    ensures ZbhciWire.ValueBytes(r.dataType, AsAttribute(r).value) == WireValue(r.dataType, r.data)
  {
    StringTypesAreNotSwapped(r.dataType);
    match KindOf(r.dataType)
    case ShortString => ShortStringImage(r);
    case Enum8 => assert Reverse(r.data) == [r.data[0]];
    case Uint16 => FixedImage(r.data);
    case Uint32 => FixedImage(r.data);
    case Uint48 => FixedImage(r.data);
    case Uint64 => FixedImage(r.data);
  }

  /** The Telink record of a translatable value is byte for byte the record image the gateway decodes. */
  lemma RecordImage(r: ReadRecord)
    requires Translatable(r)
    ensures ZbhciWire.WellFormed(AsAttribute(r))
    ensures ZbhciWire.AttributeBytes(AsAttribute(r)) == ReadRecordBytes(r)
  {
    ValueImage(r);
    RecordHead(r, AsAttribute(r));
  }

  /**
   * A read response whose records are all translatable is byte for byte the
   * payload the gateway's decoder reads back (see ZbhciWire.DecodeRoundTrip):
   * the serialiser's swap turns the stored little-endian values into the
   * network order the decoder expects.
   */
  lemma ReadRspIsGatewayPayload(h: CommandHeader, rs: seq<ReadRecord>)
    requires |rs| < 0x100 && forall i | 0 <= i < |rs| :: Translatable(rs[i])
    ensures var attrs := seq(|rs|, i requires 0 <= i < |rs| => AsAttribute(rs[i]));
      ZbhciWire.AllWellFormed(attrs) && ReadRsp(h, rs) == ZbhciWire.ReadRspPayload(h, attrs)
  {
    var attrs := seq(|rs|, i requires 0 <= i < |rs| => AsAttribute(rs[i]));
    forall i | 0 <= i < |rs| ensures ZbhciWire.WellFormed(attrs[i]) && ZbhciWire.AttributeBytes(attrs[i]) == ReadRecordBytes(rs[i]) {
      RecordImage(rs[i]);
    }
    assert ZbhciWire.Chunks(attrs) == ReadChunks(rs);
  }

  /** A failed record stops the gateway's decoder: it reports the status instead of reading a data type. */
  lemma FailedRecordRejected(build: Build, r: ReadRecord, rest: seq<Byte>)
    requires r.status != SUCCESS
    ensures GetAttribute(build, ReadRecordBytes(r) + rest, 0) == Err(AttributeStateInvalid(r.status, r.attrId))
  {
    var frame := ReadRecordBytes(r) + rest;
    HiLo(r.attrId);
    assert frame[0..2] == [Hi(r.attrId), Lo(r.attrId)];
  }

  /**
   * A long string is not swapped, so its length goes out as stored, least
   * significant byte first, while the gateway reads that length big-endian:
   * a long string of `n` characters (0 < n < 256) is read with length 256n.
   */
  lemma LongStringLengthMisread(r: ReadRecord, n: nat)
    requires r.status == SUCCESS && KindOf(r.dataType) == LongString
    requires 0 < n < 0x100 && |r.data| == 2 + n && r.data[0] == n && r.data[1] == 0
    ensures var frame := ReadRecordBytes(r);
      ReadBigEndian(frame, 4, LONG_STR_LENGTH_LENGTH) == Ok((n * 256, 6))
  {
    StringTypesAreNotSwapped(r.dataType);
    var frame := ReadRecordBytes(r);
    assert frame[4..6] == [n, 0];
    assert BigEndian([n, 0]) == n * 256 by {
      assert [n, 0][..1] == [n];
      assert [n][..0] == [];
    }
  }


  /**
   * The value as the serialiser evidently intends to send it: a long
   * string's 2-byte length prefix turned into network order like every
   * other number, its characters kept in order; any other value as sent.
   */
  function WireValueCorrected(dataType: Byte, data: seq<Byte>): (w: seq<Byte>)
    ensures |w| == |data|
  {
    if KindOf(dataType) == LongString && |data| >= 2 then Reverse(data[..2]) + data[2..] else WireValue(dataType, data)
  }

  /**
   * Corrected, a stored long string whose little-endian length prefix
   * counts its characters is read back by the gateway as exactly those
   * characters, the cursor moving past them.
   */
  lemma LongStringCorrected(build: Build, dataType: Byte, data: seq<Byte>)
    requires KindOf(dataType) == LongString && |data| >= 2 && LittleEndian(data[..2]) == |data| - 2
    ensures ValueAt(build, dataType, WireValueCorrected(dataType, data), 0) == Ok((StrValue(data[2..]), |data|))
  {
    var w := WireValueCorrected(dataType, data);
    var b := data[2..];
    FixedImage(data[..2]);
    assert w == ToBigEndian(|b|, 2) + b;
    ZbhciWire.ImageWhole(w);
    ZbhciWire.LongStringAt(build, dataType, w, 0, b);
  }

  // ------------------------------------------------------- publish price

  /**
   * `ZCL_RATE_LABEL_MAX_LENGTH`, the size of the command's rate-label
   * buffer, which the handler copies whole: 13, the size that makes the
   * fields fill the 56-byte payload exactly.
   */
  const RateLabelMaxLength: nat := 13

  /** The rate-label buffer: always its full size, whatever label it holds. */
  type RateLabel = s: seq<Byte> | |s| == RateLabelMaxLength witness seq(RateLabelMaxLength, _ => 0)

  /** The fields of a publish-price command as the handler writes them; `price` is written as one byte. */
  datatype Price = Price(
    providerId: U32, rateLabel: RateLabel, issuerEventId: U32, currentTime: U32,
    unitsOfMeasure: Byte, currency: U16,
    priceTrailingDigitAndPriceTier: Byte, numPriceTiersAndRegisterTier: Byte,
    startTime: U32, durationInMins: U16, price: Byte, priceRatio: Byte,
    generationPrice: U32, generationPriceRatio: Byte, alternateCostDelivered: U32,
    alternateCostUnit: Byte, alternateCostTrailingDigit: Byte, numBlockThresholds: Byte,
    priceControl: Byte, numGenerationTiers: Byte, generationTier: Byte,
    extendedNumPriceTiers: Byte, extendedPriceTier: Byte, extendedRegisterTier: Byte)

  /** `U16_BYTE0`, `U16_BYTE1`: least significant byte first. */
  function Le16(x: U16): (b: seq<Byte>)
    ensures |b| == 2
  {
    [x % 0x100, x / 0x100]
  }

  /** `U32_BYTE0` to `U32_BYTE3`: least significant byte first. */
  function Le32(x: U32): (b: seq<Byte>)
    ensures |b| == 4
  {
    [x % 0x100, x / 0x100 % 0x100, x / 0x1_0000 % 0x100, x / 0x100_0000]
  }

  /** The value of two or four bytes least significant first. */
  function FromLe16(b: seq<Byte>): U16
    requires |b| == 2
  {
    b[0] as int + 0x100 * (b[1] as int)
  }

  function FromLe32(b: seq<Byte>): U32
    requires |b| == 4
  {
    b[0] as int + 0x100 * (b[1] as int) + 0x1_0000 * (b[2] as int) + 0x100_0000 * (b[3] as int)
  }

  lemma Le16RoundTrip(x: U16)
    ensures FromLe16(Le16(x)) == x
  {
  }

  lemma Le32RoundTrip(x: U32)
    ensures FromLe32(Le32(x)) == x
  {
    var b0, b1, b2, b3 := x % 0x100, x / 0x100 % 0x100, x / 0x1_0000 % 0x100, x / 0x100_0000;
    assert x / 0x100 == b1 + 0x100 * (x / 0x1_0000);
    assert x / 0x1_0000 == b2 + 0x100 * b3;
  }

  /** The event, time, unit, currency and tier fields that follow the rate label. */
  function IssueBytes(p: Price): (t: seq<Byte>)
    ensures |t| == 13
  {
    Le32(p.issuerEventId) + Le32(p.currentTime) + [p.unitsOfMeasure] + Le16(p.currency)
    + [p.priceTrailingDigitAndPriceTier, p.numPriceTiersAndRegisterTier]
  }

  /** The start, duration, price and ratio fields. */
  function PeriodBytes(p: Price): (t: seq<Byte>)
    ensures |t| == 8
  {
    Le32(p.startTime) + Le16(p.durationInMins) + [p.price, p.priceRatio]
  }

  /** The generation, alternate-cost and extended fields that close the command. */
  function GenerationBytes(p: Price): (t: seq<Byte>)
    ensures |t| == 18
  {
    Le32(p.generationPrice) + [p.generationPriceRatio] + Le32(p.alternateCostDelivered)
    + [p.alternateCostUnit, p.alternateCostTrailingDigit, p.numBlockThresholds, p.priceControl,
       p.numGenerationTiers, p.generationTier, p.extendedNumPriceTiers, p.extendedPriceTier,
       p.extendedRegisterTier]
  }

  /** The 39 bytes written after the rate label, in the handler's order. */
  function PriceTail(p: Price): (t: seq<Byte>)
    ensures |t| == 39
  {
    IssueBytes(p) + PeriodBytes(p) + GenerationBytes(p)
  }

  /**
   * The payload: the provider identifier, the whole rate-label buffer and
   * the rest of the fields, which fill the 56 bytes the `memset` zeroed.
   */
  function PublishPrice(p: Price): (b: seq<Byte>)
    ensures |b| == PublishPriceSize
  {
    Le32(p.providerId) + p.rateLabel + PriceTail(p)
  }

  /** Reading the fields back from a publish-price payload. */
  function PriceOf(b: seq<Byte>): Price
    requires |b| == PublishPriceSize
  {
    var labelLength := RateLabelMaxLength;
    var t := b[4 + labelLength .. 43 + labelLength];
    Price(FromLe32(b[0..4]), b[4 .. 4 + labelLength], FromLe32(t[0..4]), FromLe32(t[4..8]), t[8], FromLe16(t[9..11]),
      t[11], t[12], FromLe32(t[13..17]), FromLe16(t[17..19]), t[19], t[20], FromLe32(t[21..25]), t[25],
      FromLe32(t[26..30]), t[30], t[31], t[32], t[33], t[34], t[35], t[36], t[37], t[38])
  }

  lemma IssueFields(p: Price)
    ensures var t := IssueBytes(p);
      t[0..4] == Le32(p.issuerEventId) && t[4..8] == Le32(p.currentTime) && t[8] == p.unitsOfMeasure
      && t[9..11] == Le16(p.currency) && t[11] == p.priceTrailingDigitAndPriceTier
      && t[12] == p.numPriceTiersAndRegisterTier
  {
  }

  lemma PeriodFields(p: Price)
    ensures var t := PeriodBytes(p);
      t[0..4] == Le32(p.startTime) && t[4..6] == Le16(p.durationInMins) && t[6] == p.price && t[7] == p.priceRatio
  {
  }

  lemma GenerationFields(p: Price)
    ensures var t := GenerationBytes(p);
      t[0..4] == Le32(p.generationPrice) && t[4] == p.generationPriceRatio
      && t[5..9] == Le32(p.alternateCostDelivered) && t[9] == p.alternateCostUnit
      && t[10] == p.alternateCostTrailingDigit && t[11] == p.numBlockThresholds && t[12] == p.priceControl
      && t[13] == p.numGenerationTiers && t[14] == p.generationTier && t[15] == p.extendedNumPriceTiers
      && t[16] == p.extendedPriceTier && t[17] == p.extendedRegisterTier
  {
  }

  /** The tail's fields sit at their fixed offsets. */
  lemma PriceTailFields(p: Price)
    ensures var t := PriceTail(p);
      t[0..4] == Le32(p.issuerEventId) && t[4..8] == Le32(p.currentTime) && t[8] == p.unitsOfMeasure
      && t[9..11] == Le16(p.currency) && t[11] == p.priceTrailingDigitAndPriceTier
      && t[12] == p.numPriceTiersAndRegisterTier && t[13..17] == Le32(p.startTime)
      && t[17..19] == Le16(p.durationInMins) && t[19] == p.price && t[20] == p.priceRatio
      && t[21..25] == Le32(p.generationPrice) && t[25] == p.generationPriceRatio
      && t[26..30] == Le32(p.alternateCostDelivered) && t[30] == p.alternateCostUnit
      && t[31] == p.alternateCostTrailingDigit && t[32] == p.numBlockThresholds && t[33] == p.priceControl
      && t[34] == p.numGenerationTiers && t[35] == p.generationTier && t[36] == p.extendedNumPriceTiers
      && t[37] == p.extendedPriceTier && t[38] == p.extendedRegisterTier
  {
    var t, a, m, g := PriceTail(p), IssueBytes(p), PeriodBytes(p), GenerationBytes(p);
    IssueFields(p);
    PeriodFields(p);
    GenerationFields(p);
    assert t[..13] == a;
    assert t[13..21] == m;
    assert t[21..] == g;
  }

  /**
   * Reading the fields back from the 56 bytes at their
   * least-significant-first places gives the command.
   */
  lemma PublishPriceRoundTrip(p: Price)
    ensures PriceOf(PublishPrice(p)) == p
  {
    var b, n := PublishPrice(p), |p.rateLabel|;
    assert b[0..4] == Le32(p.providerId);
    assert b[4 .. 4 + n] == p.rateLabel;
    assert b[4 + n .. 43 + n] == PriceTail(p);
    PriceTailFields(p);
    Le32RoundTrip(p.providerId);
    Le32RoundTrip(p.issuerEventId);
    Le32RoundTrip(p.currentTime);
    Le16RoundTrip(p.currency);
    Le32RoundTrip(p.startTime);
    Le16RoundTrip(p.durationInMins);
    Le32RoundTrip(p.generationPrice);
    Le32RoundTrip(p.alternateCostDelivered);
  }
}
